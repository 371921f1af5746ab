/** The string rewriters shared by the preprocessor (`remove_whitespace`, `process_pragma_once`) and the
    file reader built on them. */
module Common {
  import opened Wrappers
  import opened Strings
  import opened Paths

  // ---------------------------------------------------------------------------------------------
  // remove_whitespace
  // ---------------------------------------------------------------------------------------------

  /** The characters of `s` that are not whitespace, in their order. */
  function RemoveWhitespace(s: string): (r: string)
    ensures NoWhitespace(r)
    ensures |r| <= |s|
  {
    if s == [] then []
    else (if IsSpace(s[0]) then [] else [s[0]]) + RemoveWhitespace(s[1..])
  }

  lemma {:induction false} RemoveWhitespaceAppend(a: string, b: string)
    ensures RemoveWhitespace(a + b) == RemoveWhitespace(a) + RemoveWhitespace(b)
  {
    if a != [] {
      assert (a + b)[0] == a[0] && (a + b)[1..] == a[1..] + b;
      RemoveWhitespaceAppend(a[1..], b);
    } else {
      assert a + b == b;
    }
  }

  /** One character is kept exactly when it is not whitespace; with `RemoveWhitespaceAppend` this fixes the
      function on every string. */
  lemma RemoveWhitespaceSingle(c: char)
    ensures RemoveWhitespace([c]) == if IsSpace(c) then [] else [c]
  {
  }

  /** A string is left as it is exactly when it holds no whitespace. */
  lemma {:induction false} RemoveWhitespaceFixes(s: string)
    ensures RemoveWhitespace(s) == s <==> NoWhitespace(s)
  {
    if s != [] {
      RemoveWhitespaceFixes(s[1..]);
      if IsSpace(s[0]) {
        assert |RemoveWhitespace(s)| < |s|;
      }
    }
  }

  lemma RemoveWhitespaceIdempotent(s: string)
    ensures RemoveWhitespace(RemoveWhitespace(s)) == RemoveWhitespace(s)
  {
    RemoveWhitespaceFixes(RemoveWhitespace(s));
  }

  /** What `std::remove_if(s.begin(), s.end(), ::isspace)` leaves in `s`: the characters that are not whitespace
      moved to the front in order, and after them the old contents of the remaining positions. */
  function RemoveIfSpaceResult(s: string): (r: string)
    ensures |r| == |s|
    ensures r[..|RemoveWhitespace(s)|] == RemoveWhitespace(s)
  {
    RemoveWhitespace(s) + s[|RemoveWhitespace(s)|..]
  }

  /** `std::remove_if` with `::isspace`, in place; `k` is the iterator it returns. */
  method RemoveIfSpace(a: array<char>) returns (k: nat)
    modifies a
    ensures k == |RemoveWhitespace(old(a[..]))|
    ensures a[..] == RemoveIfSpaceResult(old(a[..]))
  {
    ghost var s := a[..];
    k := 0;
    var i := 0;
    while i < a.Length
      invariant 0 <= k <= i <= a.Length
      invariant a[..k] == RemoveWhitespace(s[..i])
      invariant forall j :: k <= j < a.Length ==> a[j] == s[j]
    {
      assert s[..i + 1] == s[..i] + [s[i]];
      RemoveWhitespaceAppend(s[..i], [s[i]]);
      if !IsSpace(a[i]) {
        a[k] := a[i];
        k := k + 1;
      }
      i := i + 1;
    }
    assert s[..i] == s;
    assert a[k..] == s[k..];
    assert a[..] == a[..k] + a[k..];
  }

  /** `remove_whitespace`: the erase/remove idiom on a copy of the argument. */
  method EraseWhitespace(s: string) returns (r: string)
    ensures r == RemoveWhitespace(s)
  {
    var a := new char[|s|](i requires 0 <= i < |s| => s[i]);
    assert a[..] == s;
    var k := RemoveIfSpace(a);
    r := a[..k];
  }

  // ---------------------------------------------------------------------------------------------
  // process_pragma_once
  // ---------------------------------------------------------------------------------------------

  const PragmaOnce: string := "#pragma once"

  predicate IsGuardChar(c: char) { IsUpper(c) || IsDigit(c) || c == '_' }

  /** The character `std::transform` puts in the guard for one path character. */
  function GuardChar(c: char): (g: char)
    ensures IsGuardChar(g)
    ensures IsAlnum(c) <==> g != '_'
    ensures IsAlnum(c) ==> g == ToUpper(c)
    ensures IsDigit(c) || IsUpper(c) ==> g == c
  {
    if !IsAlnum(c) then '_' else ToUpper(c)
  }

  /** The include guard derived from a path: `__`, the path with every character upper-cased if alphanumeric and
      replaced by `_` otherwise, then `_GUARD__`. */
  function GuardName(path: Path): (g: string)
    ensures |g| == |path| + 10
    ensures forall i :: 0 <= i < |g| ==> IsGuardChar(g[i])
    ensures g[..2] == "__" && g[|g| - 8..] == "_GUARD__"
    ensures forall i :: 0 <= i < |path| ==> g[i + 2] == GuardChar(path[i])
  {
    "__" + seq(|path|, i requires 0 <= i < |path| => GuardChar(path[i])) + "_GUARD__"
  }

  lemma GuardNameExample()
    ensures GuardName("a.h") == "__A_H_GUARD__"
  {
  }

  function GuardOpening(g: string): string { "#ifndef " + g + "\n#define " + g + "\n" }

  function GuardClosing(g: string): string { "#endif //" + g + "\n" }

  /** Replaces the first `#pragma once` with an `#ifndef`/`#define` pair and appends the matching `#endif`. */
  function ProcessPragmaOnce(data: string, path: Path): (r: string)
    ensures r == data <==> FindFrom(data, PragmaOnce, 0).None?
    ensures FindFrom(data, PragmaOnce, 0).Some? ==>
      var i, g := FindFrom(data, PragmaOnce, 0).value, GuardName(path);
      |r| == |data| - |PragmaOnce| + |GuardOpening(g)| + |GuardClosing(g)|
      && r[..i] == data[..i]
      && r[i..i + |GuardOpening(g)|] == GuardOpening(g)
      && r[i + |GuardOpening(g)|..|r| - |GuardClosing(g)|] == data[i + |PragmaOnce|..]
      && r[|r| - |GuardClosing(g)|..] == GuardClosing(g)
  {
    match FindFrom(data, PragmaOnce, 0)
    case None => data
    case Some(i) =>
      var g := GuardName(path);
      FourParts(data[..i], GuardOpening(g), data[i + |PragmaOnce|..], GuardClosing(g));
      data[..i] + GuardOpening(g) + data[i + |PragmaOnce|..] + GuardClosing(g)
  }

  lemma FourParts<T>(p: seq<T>, q: seq<T>, u: seq<T>, v: seq<T>)
    ensures var r := p + q + u + v;
      && r[..|p|] == p && r[|p|..|p| + |q|] == q
      && r[|p| + |q|..|r| - |v|] == u && r[|r| - |v|..] == v
  {
  }

  /** A text that starts with `#`, ends with a newline and has no `p` cannot take part in a `#pragma once`. */
  ghost predicate Fence(x: string) {
    |x| > 0 && x[0] == '#' && x[|x| - 1] == '\n' && forall k :: 0 <= k < |x| ==> x[k] != 'p'
  }

  lemma {:induction false} NoMarkerAcrossFence(a: string, x: string, b: string)
    requires forall j :: !OccursAt(a, PragmaOnce, j)
    requires forall j :: !OccursAt(b, PragmaOnce, j)
    requires Fence(x)
    ensures forall j :: !OccursAt(a + x + b, PragmaOnce, j)
  {
    var s := a + x + b;
    var m := PragmaOnce;
    forall j ensures !OccursAt(s, m, j) {
      if 0 <= j && j + 12 <= |s| {
        var w := s[j..j + 12];
        if j + 12 <= |a| {
          assert w == a[j..j + 12];
          assert !OccursAt(a, m, j);
        } else if j >= |a| + |x| {
          var jb := j - |a| - |x|;
          assert w == b[jb..jb + 12];
          assert !OccursAt(b, m, jb);
        } else if j < |a| {
          // the window reaches the fence's leading '#', which the marker has only at its start
          assert w[|a| - j] == x[0] == '#' != m[|a| - j];
        } else if j + 12 <= |a| + |x| {
          // the window lies inside the fence, which has no 'p'
          assert w[1] == x[j - |a| + 1] != m[1];
        } else {
          // the window reaches the fence's closing newline
          assert w[|a| + |x| - 1 - j] == x[|x| - 1] == '\n' != m[|a| + |x| - 1 - j];
        }
      }
    }
  }

  lemma GuardTextsAreFences(g: string)
    requires forall i :: 0 <= i < |g| ==> IsGuardChar(g[i])
    ensures Fence(GuardOpening(g)) && Fence(GuardClosing(g))
  {
    var o, c := GuardOpening(g), GuardClosing(g);
    forall k | 0 <= k < |o| ensures o[k] != 'p' {
      if 8 <= k < 8 + |g| { assert o[k] == g[k - 8]; }
      else if 17 + |g| <= k < 17 + 2 * |g| { assert o[k] == g[k - 17 - |g|]; }
    }
    forall k | 0 <= k < |c| ensures c[k] != 'p' {
      if 9 <= k < 9 + |g| { assert c[k] == g[k - 9]; }
    }
  }

  /** The text before and after the only marker holds none. */
  lemma NoMarkerAround(data: string, i: nat, a: string, b: string)
    requires OccursAt(data, PragmaOnce, i)
    requires forall j :: OccursAt(data, PragmaOnce, j) ==> j == i
    requires a == data[..i] && b == data[i + 12..]
    ensures forall j :: !OccursAt(a, PragmaOnce, j)
    ensures forall j :: !OccursAt(b, PragmaOnce, j)
  {
    var m := PragmaOnce;
    forall j ensures !OccursAt(a, m, j) {
      if 0 <= j && j + 12 <= |a| {
        assert a[j..j + 12] == data[j..j + 12];
        assert OccursAt(a, m, j) == OccursAt(data, m, j);
      }
    }
    forall j ensures !OccursAt(b, m, j) {
      if 0 <= j && j + 12 <= |b| {
        assert b[j..j + 12] == data[i + 12 + j..i + 12 + j + 12];
        assert OccursAt(b, m, j) == OccursAt(data, m, i + 12 + j);
      }
    }
  }

  /** With a single `#pragma once`, rewriting a second time (with any path) changes nothing: the first rewrite
      leaves no marker behind. */
  lemma PragmaOnceIdempotent(data: string, path: Path, other: Path, i: nat)
    requires OccursAt(data, PragmaOnce, i)
    requires forall j :: OccursAt(data, PragmaOnce, j) ==> j == i
    ensures ProcessPragmaOnce(ProcessPragmaOnce(data, path), other) == ProcessPragmaOnce(data, path)
  {
    var m := PragmaOnce;
    var g := GuardName(path);
    FindFromFirst(data, m, 0);
    assert FindFrom(data, m, 0) == Some(i);
    var a, b := data[..i], data[i + 12..];
    NoMarkerAround(data, i, a, b);
    GuardTextsAreFences(g);
    NoMarkerAcrossFence(a, GuardOpening(g), b);
    NoMarkerAcrossFence(a + GuardOpening(g) + b, GuardClosing(g), "");
    var r := ProcessPragmaOnce(data, path);
    assert r == a + GuardOpening(g) + b + GuardClosing(g) + "";
    FindFromFirst(r, m, 0);
  }

  // ---------------------------------------------------------------------------------------------
  // read_entire_file
  // ---------------------------------------------------------------------------------------------

  /** `read_entire_file`: the file's contents followed by one newline (the buffer is allocated one character
      longer, filled with newlines, and read over), rewritten by `ProcessPragmaOnce` when asked to; an error when the
      file cannot be opened. */
  function ReadEntireFile(fs: FileSystem, path: Path, supportPragmaOnce: bool): (r: Result<string>)
    ensures Absolute(fs, path) !in fs.contents ==> r == Err("Failed to open file `" + path + "`... does it exist?")
    ensures Absolute(fs, path) in fs.contents && !supportPragmaOnce ==> r == Ok(fs.contents[Absolute(fs, path)] + "\n")
    ensures Absolute(fs, path) in fs.contents && supportPragmaOnce ==>
      r == Ok(ProcessPragmaOnce(fs.contents[Absolute(fs, path)] + "\n", path))
  {
    var abs := Absolute(fs, path);
    if abs !in fs.contents then Err("Failed to open file `" + path + "`... does it exist?")
    else
      var data := fs.contents[abs] + "\n";
      if supportPragmaOnce then Ok(ProcessPragmaOnce(data, path)) else Ok(data)
  }
}
