/** `std::set<std::string>` as the sequence its iterators visit: strictly increasing in `Strings.Less`. */
module SortedSets {
  import opened Strings

  /** Strictly increasing, hence also free of duplicates. */
  ghost predicate Sorted(s: seq<string>) {
    forall i, j :: 0 <= i < j < |s| ==> Less(s[i], s[j])
  }

  function Elems(s: seq<string>): set<string> {
    set x | x in s
  }

  /** `std::set::insert`: the element joins the set at its place in the order; inserting a member changes nothing. */
  function Insert(s: seq<string>, x: string): (r: seq<string>)
    requires Sorted(s)
    ensures Sorted(r)
    ensures Elems(r) == Elems(s) + {x}
    ensures x in s ==> r == s
  {
    if s == [] then [x]
    else if x == s[0] then s
    else if Less(x, s[0]) then
      LessBeforeAll(s, x);
      [x] + s
    else
      LessTotal(x, s[0]);
      var t := Insert(s[1..], x);
      InsertAfterHead(s, x, t);
      [s[0]] + t
  }

  /** The recursive case of `Insert`: the head stays in front of the tail with `x` inserted. */
  lemma InsertAfterHead(s: seq<string>, x: string, t: seq<string>)
    requires Sorted(s) && s != [] && Less(s[0], x)
    requires Sorted(t) && Elems(t) == Elems(s[1..]) + {x}
    requires x in s[1..] ==> t == s[1..]
    ensures Sorted([s[0]] + t) && Elems([s[0]] + t) == Elems(s) + {x}
    ensures x in s ==> [s[0]] + t == s
  {
    assert s == [s[0]] + s[1..];
    forall k | 0 <= k < |t| ensures Less(s[0], t[k]) {
      assert t[k] in Elems(t);
      if t[k] != x {
        var j :| 0 <= j < |s[1..]| && s[1..][j] == t[k];
        assert s[j + 1] == t[k];
      }
    }
    if x in s {
      assert x != s[0] by { LessIrreflexive(x); }
    }
  }

  lemma LessBeforeAll(s: seq<string>, x: string)
    requires Sorted(s) && s != [] && Less(x, s[0])
    ensures Sorted([x] + s) && x !in s
  {
    forall j | 0 < j < |s| ensures Less(x, s[j]) { LessTransitive(x, s[0], s[j]); }
    forall j | 0 <= j < |s| ensures s[j] != x {
      if j == 0 { LessIrreflexive(x); } else { LessAsymmetric(x, s[j]); }
    }
  }

  /** Erasing one position keeps the order of the rest and adds no element. */
  lemma RemoveAtKeepsOrder(s: seq<string>, i: nat)
    requires i < |s|
    ensures Sorted(s) ==> Sorted(s[..i] + s[i + 1..])
    ensures Elems(s[..i] + s[i + 1..]) <= Elems(s)
  {
    var r := s[..i] + s[i + 1..];
    forall k | 0 <= k < |r| ensures r[k] == s[if k < i then k else k + 1] {
    }
  }

  lemma ElemsEmpty(s: seq<string>)
    ensures Elems(s) == {} <==> s == []
  {
    if s != [] { assert s[0] in Elems(s); }
  }

  /** A sorted sequence is determined by its elements: the iteration order of a set depends only on the set. */
  lemma {:induction false} SortedUnique(a: seq<string>, b: seq<string>)
    requires Sorted(a) && Sorted(b) && Elems(a) == Elems(b)
    ensures a == b
  {
    ElemsEmpty(a);
    ElemsEmpty(b);
    if a != [] {
      assert a[0] in Elems(b) && b[0] in Elems(a);
      if a[0] != b[0] {
        var i :| 0 <= i < |b| && b[i] == a[0];
        var j :| 0 <= j < |a| && a[j] == b[0];
        assert Less(b[0], a[0]) by { assert i > 0; }
        assert Less(a[0], b[0]) by { assert j > 0; }
        LessAsymmetric(a[0], b[0]);
      }
      assert Elems(a[1..]) == Elems(b[1..]) by {
        assert Elems(a) == {a[0]} + Elems(a[1..]) by { assert a == [a[0]] + a[1..]; }
        assert Elems(b) == {b[0]} + Elems(b[1..]) by { assert b == [b[0]] + b[1..]; }
        forall x | x in a[1..] ensures x != a[0] {
          var k :| 0 <= k < |a[1..]| && a[1..][k] == x;
          assert Less(a[0], a[k + 1]);
          LessIrreflexive(x);
        }
        forall x | x in b[1..] ensures x != b[0] {
          var k :| 0 <= k < |b[1..]| && b[1..][k] == x;
          assert Less(b[0], b[k + 1]);
          LessIrreflexive(x);
        }
      }
      SortedUnique(a[1..], b[1..]);
    }
  }

  /** Inserting the same element twice leaves the set as inserting it once. */
  lemma InsertIdempotent(s: seq<string>, x: string)
    requires Sorted(s)
    ensures Insert(Insert(s, x), x) == Insert(s, x)
  {
    assert x in Elems(Insert(s, x));
  }

  /** The order in which two elements are inserted does not show in the result. */
  lemma InsertCommutes(s: seq<string>, x: string, y: string)
    requires Sorted(s)
    ensures Insert(Insert(s, x), y) == Insert(Insert(s, y), x)
  {
    SortedUnique(Insert(Insert(s, x), y), Insert(Insert(s, y), x));
  }
}
