/** `detail::consolidate_whitespace`: every run of whitespace becomes one space, and the text is trimmed. */
module Whitespace {
  import opened Strings
  import opened Common

  /** The text holds no whitespace other than single spaces, each between two other characters. */
  predicate WellSpaced(t: string) {
    (forall k :: 0 <= k < |t| ==> t[k] == ' ' || !IsSpace(t[k]))
    && (forall k :: 0 <= k < |t| - 1 ==> !(t[k] == ' ' && t[k + 1] == ' '))
    && (t != [] ==> t[0] != ' ' && t[|t| - 1] != ' ')
  }

  /** What the copying loop leaves in `out`: each character that is not whitespace, preceded by one space when
      whitespace came right before it. */
  function Collapse(s: string): string {
    if s == [] then []
    else
      var q, c := s[..|s| - 1], s[|s| - 1];
      if IsSpace(c) then Collapse(q)
      else Collapse(q) + SpaceBefore(q) + [c]
  }

  /** The shape `Collapse` gives its result: only spaces as whitespace, never two in a row, and no whitespace at
      the end. */
  ghost predicate Tidy(c: string) {
    (forall k :: 0 <= k < |c| ==> c[k] == ' ' || !IsSpace(c[k]))
    && (forall k :: 0 <= k < |c| - 1 ==> !(c[k] == ' ' && c[k + 1] == ' '))
    && (c != [] ==> !IsSpace(c[|c| - 1]))
  }

  /** The space writes before a character when whitespace came right before it. */
  function SpaceBefore(q: string): string {
    if q != [] && IsSpace(q[|q| - 1]) then " " else ""
  }

  lemma TidyAppend(c: string, sp: string, ch: char)
    requires Tidy(c) && (sp == "" || sp == " ") && !IsSpace(ch)
    ensures Tidy(c + sp + [ch])
  {
    var t := c + sp + [ch];
    assert forall k :: 0 <= k < |c| ==> t[k] == c[k];
    assert t[|t| - 1] == ch;
    assert sp == " " ==> t[|c|] == ' ';
  }

  lemma {:induction false} CollapseTidy(s: string)
    ensures Tidy(Collapse(s))
  {
    if s != [] {
      var q, ch := s[..|s| - 1], s[|s| - 1];
      CollapseTidy(q);
      if !IsSpace(ch) {
        TidyAppend(Collapse(q), SpaceBefore(q), ch);
      }
    }
  }

  /** `Collapse` keeps the characters that are not whitespace. */
  lemma {:induction false} CollapseKeepsText(s: string)
    ensures RemoveWhitespace(Collapse(s)) == RemoveWhitespace(s)
  {
    if s != [] {
      var q, ch := s[..|s| - 1], s[|s| - 1];
      CollapseKeepsText(q);
      assert s == q + [ch];
      RemoveWhitespaceAppend(q, [ch]);
      if !IsSpace(ch) {
        var sp := SpaceBefore(q);
        RemoveWhitespaceAppend(Collapse(q), sp);
        RemoveWhitespaceAppend(Collapse(q) + sp, [ch]);
      }
    }
  }

  /** `Collapse` never lengthens the text, and shortens one that ends in whitespace. */
  lemma {:induction false} CollapseLength(s: string)
    ensures |Collapse(s)| <= |s|
    ensures s != [] && IsSpace(s[|s| - 1]) ==> |Collapse(s)| < |s|
  {
    if s != [] {
      CollapseLength(s[..|s| - 1]);
    }
  }

  /** A final character that is not whitespace survives `RemoveWhitespace`. */
  lemma {:induction false} LastCharSurvives(t: string)
    ensures t != [] && !IsSpace(t[|t| - 1]) ==> RemoveWhitespace(t) != []
  {
    if t != [] {
      assert t == t[..|t| - 1] + [t[|t| - 1]];
      RemoveWhitespaceAppend(t[..|t| - 1], [t[|t| - 1]]);
    }
  }

  /** The result of consolidate_whitespace, stated on values. */
  function Consolidated(s: string): (r: string)
    ensures WellSpaced(r)
    ensures RemoveWhitespace(r) == RemoveWhitespace(s)
    ensures |r| <= |s|
    ensures r == [] <==> RemoveWhitespace(s) == []
  {
    var c := Collapse(s);
    CollapseTidy(s);
    CollapseKeepsText(s);
    CollapseLength(s);
    LastCharSurvives(c);
    if |c| > 0 && c[0] == ' ' then
      assert c == [c[0]] + c[1..];
      RemoveWhitespaceAppend([c[0]], c[1..]);
      c[1..]
    else c
  }

  lemma WellSpacedPrefix(t: string, n: nat)
    requires WellSpaced(t) && 0 < n <= |t| && t[n - 1] != ' '
    ensures WellSpaced(t[..n])
  {
  }

  /** A character after text that does not end in whitespace is copied as it is. */
  lemma CollapseAppendChar(q: string, c: char)
    requires !IsSpace(c) && (q == [] || !IsSpace(q[|q| - 1]))
    ensures Collapse(q + [c]) == Collapse(q) + [c]
  {
    assert (q + [c])[..|q|] == q;
  }

  /** A character after one space gets that space back. */
  lemma CollapseAppendSpaced(q: string, c: char)
    requires !IsSpace(c)
    ensures Collapse(q + " " + [c]) == Collapse(q) + " " + [c]
  {
    var t := q + " " + [c];
    assert t[..|t| - 1] == q + " ";
    assert (q + " ")[..|q|] == q;
  }

  lemma {:induction false} CollapseWellSpaced(t: string)
    requires WellSpaced(t)
    ensures Collapse(t) == t
    decreases |t|, 1
  {
    var n := |t|;
    if n == 1 {
      CollapseAppendChar([], t[0]);
      assert t == [] + [t[0]];
    } else if n >= 2 && t[n - 2] == ' ' {
      CollapseWellSpacedAfterSpace(t);
    } else if n >= 2 {
      CollapseWellSpacedAfterChar(t);
    }
  }

  /** The case of `CollapseWellSpaced` where the last character follows a space. */
  lemma {:induction false} CollapseWellSpacedAfterSpace(t: string)
    requires WellSpaced(t) && |t| >= 2 && t[|t| - 2] == ' '
    ensures Collapse(t) == t
    decreases |t|, 0
  {
    var n := |t|;
    assert n >= 3 && t[n - 3] != ' ';
    var q' := t[..n - 2];
    WellSpacedPrefix(t, n - 2);
    CollapseWellSpaced(q');
    CollapseAppendSpaced(q', t[n - 1]);
    assert t == q' + " " + [t[n - 1]];
  }

  /** The case of `CollapseWellSpaced` where the last character follows another that is not whitespace. */
  lemma {:induction false} CollapseWellSpacedAfterChar(t: string)
    requires WellSpaced(t) && |t| >= 2 && t[|t| - 2] != ' '
    ensures Collapse(t) == t
    decreases |t|, 0
  {
    var n := |t|;
    var q, c := t[..n - 1], t[n - 1];
    assert Collapse(q) == q by {
      WellSpacedPrefix(t, n - 1);
      CollapseWellSpaced(q);
    }
    assert Collapse(q + [c]) == Collapse(q) + [c] by {
      assert !IsSpace(c) && q[|q| - 1] == t[n - 2];
      CollapseAppendChar(q, c);
    }
    assert t == q + [c];
  }

  /** Consolidating twice is consolidating once. */
  lemma ConsolidatedIdempotent(s: string)
    ensures Consolidated(Consolidated(s)) == Consolidated(s)
  {
    CollapseWellSpaced(Consolidated(s));
  }

  ghost predicate AllSpace(w: string) {
    forall k :: 0 <= k < |w| ==> IsSpace(w[k])
  }

  /** One step of the copying loop. */
  lemma CollapseSnoc(q: string, c: char)
    ensures Collapse(q + [c]) == if IsSpace(c) then Collapse(q) else Collapse(q) + (SpaceBefore(q) + [c])
  {
    assert (q + [c])[..|q|] == q;
    assert Collapse(q) + SpaceBefore(q) + [c] == Collapse(q) + (SpaceBefore(q) + [c]);
  }

  /** Whitespace at the end adds nothing to what the copying loop leaves. */
  lemma {:induction false} CollapseAppendSpaces(x: string, w: string)
    requires AllSpace(w)
    ensures Collapse(x + w) == Collapse(x)
  {
    if w == [] {
      assert x + w == x;
    } else {
      var w' := w[..|w| - 1];
      assert x + w == (x + w') + [w[|w| - 1]];
      CollapseSnoc(x + w', w[|w| - 1]);
      CollapseAppendSpaces(x, w');
    }
  }

  /** Text that starts with a character after whitespace is copied after one space. */
  lemma {:induction false} CollapseAfterSpace(x: string, b: string)
    requires x != [] && IsSpace(x[|x| - 1]) && b != [] && !IsSpace(b[0])
    ensures Collapse(x + b) == Collapse(x) + " " + Collapse(b)
  {
    var c := b[|b| - 1];
    var b' := b[..|b| - 1];
    assert b == b' + [c];
    if b' == [] {
      assert b == [c] && x + b == x + [c];
      CollapseAfterSpaceOne(x, c);
      CollapseSingle(c);
    } else {
      CollapseAfterSpace(x, b');
      assert (x + b')[|x + b'| - 1] == b'[|b'| - 1];
      CollapseAfterSpaceStep(x + b', b', c, Collapse(x));
      assert x + b == x + b' + [c];
    }
  }

  lemma CollapseSingle(c: char)
    ensures Collapse([c]) == if IsSpace(c) then [] else [c]
  {
    assert [c][..0] == [];
  }

  /** A character after whitespace is copied after one space. */
  lemma CollapseAfterSpaceOne(x: string, c: char)
    requires x != [] && IsSpace(x[|x| - 1]) && !IsSpace(c)
    ensures Collapse(x + [c]) == Collapse(x) + " " + [c]
  {
    assert (x + [c])[..|x|] == x;
  }

  /** The inductive step of `CollapseAfterSpace`: one more character after text `xb` that ends as `b'` does. */
  lemma CollapseAfterSpaceStep(xb: string, b': string, c: char, cx: string)
    requires b' != [] && |xb| >= |b'| && xb[|xb| - 1] == b'[|b'| - 1]
    requires Collapse(xb) == cx + " " + Collapse(b')
    ensures Collapse(xb + [c]) == cx + " " + Collapse(b' + [c])
  {
    CollapseSnoc(xb, c);
    CollapseSnoc(b', c);
    assert SpaceBefore(xb) == SpaceBefore(b');
    if IsSpace(c) {
      assert Collapse(b' + [c]) == Collapse(b');
    } else {
      var t := SpaceBefore(b') + [c];
      assert Collapse(b' + [c]) == Collapse(b') + t;
      assert Collapse(xb + [c]) == cx + " " + Collapse(b') + t;
      RegroupAfterSpace(cx, Collapse(b'), t);
    }
  }

  lemma RegroupAfterSpace(p: string, q: string, t: string)
    ensures p + " " + q + t == p + " " + (q + t)
  {
  }

  /** A run of whitespace between two words becomes exactly one space. */
  lemma ConsolidatedJoinsWords(a: string, w: string, b: string)
    requires a != [] && WellSpaced(a) && b != [] && WellSpaced(b)
    requires w != [] && AllSpace(w)
    ensures Consolidated(a + w + b) == a + " " + b
  {
    assert !IsSpace(a[|a| - 1]) && !IsSpace(b[0]);
    assert (a + w)[|a + w| - 1] == w[|w| - 1];
    CollapseAfterSpace(a + w, b);
    CollapseAppendSpaces(a, w);
    CollapseWellSpaced(a);
    CollapseWellSpaced(b);
    assert (a + " " + b)[0] == a[0];
  }

  /** Leading whitespace leaves one space in front of the text after it. */
  lemma CollapseLeadingSpaces(w: string, a: string)
    requires w != [] && IsSpace(w[|w| - 1]) && Collapse(w) == []
    requires a != [] && !IsSpace(a[0])
    ensures Collapse(w + a) == " " + Collapse(a)
  {
    CollapseAfterSpace(w, a);
    assert [] + " " + Collapse(a) == " " + Collapse(a);
  }

  lemma CollapseAllSpace(w: string)
    requires AllSpace(w)
    ensures Collapse(w) == []
  {
    CollapseAppendSpaces([], w);
    assert [] + w == w;
  }

  /** Whitespace before and after well-spaced text is trimmed away. */
  lemma ConsolidatedTrims(w: string, a: string, w': string)
    requires a != [] && WellSpaced(a) && AllSpace(w) && AllSpace(w')
    ensures Consolidated(w + a + w') == a
  {
    CollapseAppendSpaces(w + a, w');
    CollapseWellSpaced(a);
    assert a[0] != ' ';
    if w == [] {
      assert w + a == a;
    } else {
      CollapseAllSpace(w);
      CollapseLeadingSpaces(w, a);
      assert (" " + a)[0] == ' ' && (" " + a)[1..] == a;
    }
  }

  /** Text holding something other than whitespace starts with a (possibly empty) run of whitespace and then a
      character that is not whitespace, at `k`. */
  lemma {:induction false} LeadingSpaces(y: string) returns (k: nat)
    requires RemoveWhitespace(y) != []
    ensures k < |y| && !IsSpace(y[k]) && AllSpace(y[..k])
  {
    if !IsSpace(y[0]) {
      k := 0;
    } else {
      assert RemoveWhitespace(y) == RemoveWhitespace(y[1..]);
      var k' := LeadingSpaces(y[1..]);
      k := k' + 1;
      assert y[..k] == [y[0]] + y[1..][..k'];
    }
  }

  /** The copying loop starts its output with the first character when that is not whitespace. */
  lemma {:induction false} CollapseFirst(s: string)
    requires s != [] && !IsSpace(s[0])
    ensures Collapse(s) != [] && Collapse(s)[0] == s[0]
  {
    if |s| == 1 {
      CollapseSingle(s[0]);
      assert s == [s[0]];
    } else {
      var q, c := s[..|s| - 1], s[|s| - 1];
      CollapseFirst(q);
      CollapseSnoc(q, c);
      assert s == q + [c];
    }
  }

  /** Text after a run of leading whitespace: the copying loop leaves one space in front when the run is there. */
  lemma CollapseAfterLeading(w2: string, y': string)
    requires AllSpace(w2) && y' != [] && !IsSpace(y'[0])
    ensures Collapse(w2 + y') == if w2 == [] then Collapse(y') else " " + Collapse(y')
  {
    if w2 == [] {
      assert w2 + y' == y';
    } else {
      CollapseAllSpace(w2);
      CollapseLeadingSpaces(w2, y');
    }
  }

  /** Over a whitespace run and into a word, the copying loop adds exactly one space. */
  lemma CollapseAcrossRun(x: string, run: string, y': string)
    requires run != [] && AllSpace(run) && y' != [] && !IsSpace(y'[0])
    ensures Collapse(x + run + y') == Collapse(x) + " " + Collapse(y')
  {
    var xw := x + run;
    assert run[|run| - 1] == xw[|xw| - 1];
    CollapseAfterSpace(xw, y');
    CollapseAppendSpaces(x, run);
  }

  /** Leading whitespace before a word is trimmed away. */
  lemma ConsolidatedAfterLeading(w2: string, y': string)
    requires AllSpace(w2) && y' != [] && !IsSpace(y'[0])
    ensures Consolidated(w2 + y') == Collapse(y')
  {
    CollapseFirst(y');
    CollapseAfterLeading(w2, y');
  }

  /** When the copying loop leaves the loop's output for `x`, a space and a word, the trim acts on the first part
      alone. */
  lemma ConsolidatedJoin(s: string, x: string, cy: string)
    requires Collapse(s) == Collapse(x) + " " + cy && RemoveWhitespace(x) != []
    ensures Consolidated(s) == Consolidated(x) + " " + cy
  {
    var cx := Collapse(x);
    assert cx != [] by {
      assert Consolidated(x) != [];
    }
    if cx[0] == ' ' {
      assert (cx + " " + cy)[1..] == cx[1..] + " " + cy;
    }
  }

  /** Consolidating text made of two parts that each hold a word, joined by a run of whitespace, consolidates the
      parts and puts one space between them: every run between words, wherever it stands, becomes one space. */
  lemma ConsolidatedSplits(x: string, w: string, y: string)
    requires RemoveWhitespace(x) != [] && RemoveWhitespace(y) != []
    requires w != [] && AllSpace(w)
    ensures Consolidated(x + w + y) == Consolidated(x) + " " + Consolidated(y)
  {
    var k := LeadingSpaces(y);
    var w2, y' := y[..k], y[k..];
    assert y == w2 + y';
    var run := w + w2;
    assert AllSpace(run);
    assert x + w + y == x + run + y';
    CollapseAcrossRun(x, run, y');
    ConsolidatedAfterLeading(w2, y');
    ConsolidatedJoin(x + w + y, x, Collapse(y'));
  }

  /** The loops of consolidate_whitespace: copy with a whitespace counter, pop trailing spaces, drop one leading
      space. */
  method ConsolidateWhitespace(s: string) returns (r: string)
    ensures r == Consolidated(s)
  {
    var out := "";
    var count := 0;
    var i := 0;
    while i < |s|
      invariant 0 <= i <= |s|
      invariant out == Collapse(s[..i])
      invariant count > 0 <==> i > 0 && IsSpace(s[i - 1])
    {
      assert s[..i + 1][..i] == s[..i];
      if IsSpace(s[i]) {
        count := count + 1;
      } else {
        if count > 0 {
          out := out + " ";
          count := 0;
        }
        out := out + [s[i]];
      }
      i := i + 1;
    }
    assert s[..i] == s;
    ghost var c := out;
    while |out| >= 2 && out[|out| - 1] == ' '
      invariant |out| <= |c| && out == c[..|out|]
      invariant forall k :: |out| <= k < |c| ==> c[k] == ' '
    {
      out := out[..|out| - 1];
    }
    CollapseTidy(s);
    assert out == c;
    if |out| > 0 && out[0] == ' ' {
      r := out[1..];
    } else {
      r := out;
    }
  }
}
