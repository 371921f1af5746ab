/** The `preprocessor` object: define injection, the per-path cache and the glue around the directive engine. */
module Preprocessor {
  import opened Wrappers
  import opened Strings
  import opened SortedSets
  import opened Paths
  import opened Common
  import opened Whitespace
  import opened Includes

  // ---------------------------------------------------------------------------------------------
  // The directive engine, kept opaque
  // ---------------------------------------------------------------------------------------------

  /** `tcpp::TErrorInfo`, with the error type already turned into its text by `ErrorTypeToString`. */
  datatype ErrorInfo = ErrorInfo(kind: string, line: nat)

  /** How a run of the engine ends: with the expanded text, with an error reported through the error callback, or
      with an exception that escaped from the include callback. */
  datatype Expansion = Expanded(text: string) | Reported(info: ErrorInfo) | Aborted(message: string)

  /** The include callback: token and "is a system include" to the included text or the error it throws. */
  type Resolver = (string, bool) -> Result<string>

  /** The engine: input text, include callback and "remove comments" to the outcome. */
  type Expander = (string, Resolver, bool) -> Expansion

  function ResolverFor(cache: map<Path, string>, roots: seq<Path>, fs: FileSystem, cfg: Config): Resolver {
    (token: string, isSystem: bool) => Resolve(cache, roots, fs, cfg, token, isSystem)
  }

  // ---------------------------------------------------------------------------------------------
  // Defines
  // ---------------------------------------------------------------------------------------------

  /** The line `add_define` inserts. */
  function DefineLine(name: string, value: string): (d: string)
    ensures |d| == 9 + |name| + |value|
    ensures d[..8] == "#define " && d[8..8 + |name|] == name && d[8 + |name|] == ' ' && d[9 + |name|..] == value
  {
    "#define " + name + " " + value
  }

  /** Every define followed by a newline, in the given order. */
  function Lines(defs: seq<string>): string {
    if defs == [] then "" else defs[0] + "\n" + Lines(defs[1..])
  }

  /** What `defines_string` returns: a newline, then each define on a line of its own. */
  function Prologue(defs: seq<string>): string {
    "\n" + Lines(defs)
  }

  lemma {:induction false} LinesConcat(a: seq<string>, b: seq<string>)
    ensures Lines(a + b) == Lines(a) + Lines(b)
  {
    if a == [] {
      assert a + b == b;
    } else {
      assert (a + b)[0] == a[0] && (a + b)[1..] == a[1..] + b;
      LinesConcat(a[1..], b);
    }
  }

  lemma {:induction false} LinesEndInNewline(defs: seq<string>)
    ensures defs != [] ==> |Lines(defs)| > 0 && Lines(defs)[|Lines(defs)| - 1] == '\n'
  {
    if defs != [] {
      LinesEndInNewline(defs[1..]);
    }
  }

  /** The define at position `i` of the set order stands on a line of its own, right after the lines of the
      defines before it. */
  lemma PrologueLine(defs: seq<string>, i: nat)
    requires i < |defs|
    ensures var p, o := Prologue(defs), |Lines(defs[..i])|;
      o + |defs[i]| + 2 <= |p| && p[o..o + |defs[i]| + 2] == "\n" + defs[i] + "\n"
  {
    var pre, post := defs[..i], defs[i + 1..];
    assert defs == pre + ([defs[i]] + post);
    LinesConcat(pre, [defs[i]] + post);
    LinesEndInNewline(pre);
    var head := "\n" + Lines(pre);
    assert head[|head| - 1] == '\n';
    var p := Prologue(defs);
    assert p == head + (defs[i] + "\n" + Lines(post));
    var o := |Lines(pre)|;
    assert p[o..o + |defs[i]| + 2] == [head[|head| - 1]] + defs[i] + "\n";
  }

  /** The prologue depends on the set of defines only, not on the order in which they were added. */
  lemma PrologueDependsOnlyOnSet(a: seq<string>, b: seq<string>)
    requires Sorted(a) && Sorted(b) && Elems(a) == Elems(b)
    ensures Prologue(a) == Prologue(b)
  {
    SortedUnique(a, b);
  }

  /** `std::find_if` over the defines with `std::search`: the first define in set order holding `name`. */
  function FirstSearched(defs: seq<string>, name: string): (r: Option<nat>)
    ensures r.Some? ==> r.value < |defs| && Searched(defs[r.value], name)
    ensures r.Some? ==> forall j :: 0 <= j < r.value ==> !Searched(defs[j], name)
    ensures r.None? ==> forall j :: 0 <= j < |defs| ==> !Searched(defs[j], name)
  {
    if defs == [] then None
    else if Searched(defs[0], name) then Some(0)
    else match FirstSearched(defs[1..], name)
      case None => None
      case Some(i) => Some(i + 1)
  }

  /** What `remove_define` leaves: the first define holding `name` anywhere in it is gone, nothing else changes. */
  function WithoutFirstSearched(defs: seq<string>, name: string): (r: seq<string>)
    ensures FirstSearched(defs, name).None? ==> r == defs
    ensures FirstSearched(defs, name).Some? ==>
      var i := FirstSearched(defs, name).value; |r| == |defs| - 1 && r == defs[..i] + defs[i + 1..]
    ensures Sorted(defs) ==> Sorted(r) && Elems(r) <= Elems(defs)
  {
    match FirstSearched(defs, name)
    case None => defs
    case Some(i) =>
      RemoveAtKeepsOrder(defs, i);
      defs[..i] + defs[i + 1..]
  }

  lemma RemoveFromSorted(r: seq<string>, k: nat)
    requires Sorted(r) && k < |r|
    ensures Elems(r[..k] + r[k + 1..]) == Elems(r) - {r[k]}
  {
    var w := r[..k] + r[k + 1..];
    assert r == r[..k] + [r[k]] + r[k + 1..];
    forall j | 0 <= j < |r| && j != k ensures r[j] != r[k] {
      if j < k { assert Less(r[j], r[k]); LessIrreflexive(r[k]); }
      else { assert Less(r[k], r[j]); LessIrreflexive(r[k]); }
    }
  }

  /** Removing by the name of a define just added undoes the addition, provided no define already present holds
      that name. */
  lemma RemoveUndoesAdd(defs: seq<string>, name: string, value: string)
    requires Sorted(defs)
    requires forall j :: 0 <= j < |defs| ==> !Searched(defs[j], name)
    ensures WithoutFirstSearched(Insert(defs, DefineLine(name, value)), name) == defs
  {
    var d := DefineLine(name, value);
    assert OccursAt(d, name, 8);
    var r := Insert(defs, d);
    var i := InsertedIsFirstSearched(defs, name, d);
    RemoveFromSorted(r, i);
    var w := WithoutFirstSearched(r, name);
    assert Elems(w) == Elems(r) - {d};
    assert Elems(w) == Elems(defs);
    SortedUnique(w, defs);
  }

  /** In a set where nothing held `name`, the first line holding it after an insertion is the inserted one. */
  lemma InsertedIsFirstSearched(defs: seq<string>, name: string, d: string) returns (i: nat)
    requires Sorted(defs) && Searched(d, name)
    requires forall j :: 0 <= j < |defs| ==> !Searched(defs[j], name)
    ensures FirstSearched(Insert(defs, d), name) == Some(i) && i < |Insert(defs, d)| && Insert(defs, d)[i] == d
    ensures d !in Elems(defs)
  {
    forall x | x in Elems(defs) ensures !Searched(x, name) {
      var j :| 0 <= j < |defs| && defs[j] == x;
    }
    var r := Insert(defs, d);
    assert d in Elems(r);
    var k :| 0 <= k < |r| && r[k] == d;
    i := FirstSearched(r, name).value;
    assert r[i] in Elems(defs) + {d};
  }

  /** The match is on the text of the whole line, not on the macro name: removing `B` here takes away the
      definition of `AB`, which comes first in set order. */
  lemma RemoveMatchesSubstring()
    ensures WithoutFirstSearched(["#define AB 1", "#define B 2"], "B") == ["#define B 2"]
  {
    assert OccursAt("#define AB 1", "B", 9);
  }

  // ---------------------------------------------------------------------------------------------
  // process_from_memory, process_from_memory_and_cache, process
  // ---------------------------------------------------------------------------------------------

  /** The message the error callback throws: the error type (or "Unknown error"), then "in" and the path when it is
      set, then " on line: " and the line number. */
  function ExpansionErrorMessage(info: ErrorInfo, cfg: Config): (m: string)
    ensures var head := if info.kind == "" then "Unknown error" else info.kind;
      var at := if cfg.path.Some? then "in" + cfg.path.value else "";
      var tail := " on line: " + NatToString(info.line);
      |m| == |head| + |at| + |tail| && m[..|head|] == head && m[|head|..|head| + |at|] == at && m[|m| - |tail|..] == tail
    ensures ParseNat(m[|m| - |NatToString(info.line)|..]) == Some(info.line)
  {
    var head := if info.kind == "" then "Unknown error" else info.kind;
    var at := if cfg.path.Some? then "in" + cfg.path.value else "";
    var digits := NatToString(info.line);
    var tail := " on line: " + digits;
    ThreeParts(head, at, tail);
    ThreeParts(head + at, " on line: ", digits);
    assert head + at + tail == head + at + " on line: " + digits;
    ParseNatToString(info.line);
    head + at + tail
  }

  lemma ThreeParts(a: string, b: string, c: string)
    ensures var m := a + b + c;
      m[..|a|] == a && m[|a|..|a| + |b|] == b && m[|m| - |c|..] == c
  {
  }


  /** `process_from_memory`: the engine runs on the prologue, the text and a final newline, against the include
      callback over the current cache and roots; the result is consolidated when asked to. */
  function ExpandText(defs: seq<string>, cache: map<Path, string>, roots: seq<Path>, fs: FileSystem, data: string,
                      cfg: Config, expand: Expander): (r: Result<string>)
    ensures var e := expand(Prologue(defs) + data + "\n", ResolverFor(cache, roots, fs, cfg), cfg.removeComments);
      && (r.Ok? <==> e.Expanded?)
      && (e.Expanded? ==> r.value == if cfg.removeWhitespace then Consolidated(e.text) else e.text)
      && (e.Reported? ==> r.message == ExpansionErrorMessage(e.info, cfg))
      && (e.Aborted? ==> r.message == e.message)
    ensures r.Ok? && cfg.removeWhitespace ==> WellSpaced(r.value)
  {
    match expand(Prologue(defs) + data + "\n", ResolverFor(cache, roots, fs, cfg), cfg.removeComments)
    case Expanded(t) => Ok(if cfg.removeWhitespace then Consolidated(t) else t)
    case Reported(info) => Err(ExpansionErrorMessage(info, cfg))
    case Aborted(m) => Err(m)
  }

  /** `process_from_memory_and_cache`: guard the text when configured, expand it with the path set in the
      configuration, and store a successful result under `path`. The pair is the result and the new cache. */
  function ProcessAndStore(defs: seq<string>, cache: map<Path, string>, roots: seq<Path>, fs: FileSystem,
                           data: string, path: Path, cfg: Config, expand: Expander): (Result<string>, map<Path, string>)
  {
    var text := if cfg.supportPragmaOnce then ProcessPragmaOnce(data, path) else data;
    var r := ExpandText(defs, cache, roots, fs, text, cfg.(path := Some(path)), expand);
    (r, if r.Ok? then cache[path := r.value] else cache)
  }

  /** `process`: a cached path is answered from the cache; otherwise the file is read and processed. */
  function ProcessStep(defs: seq<string>, cache: map<Path, string>, roots: seq<Path>, fs: FileSystem, path: Path,
                       cfg: Config, expand: Expander): (Result<string>, map<Path, string>)
  {
    if path in cache then (Ok(cache[path]), cache)
    else match ReadEntireFile(fs, path, cfg.supportPragmaOnce)
      case Err(m) => (Err(m), cache)
      case Ok(data) => ProcessAndStore(defs, cache, roots, fs, data, path, cfg, expand)
  }

  /** A hit returns the cached text and leaves the cache as it is. */
  lemma ProcessHit(defs: seq<string>, cache: map<Path, string>, roots: seq<Path>, fs: FileSystem, path: Path,
                   cfg: Config, expand: Expander)
    requires path in cache
    ensures ProcessStep(defs, cache, roots, fs, path, cfg, expand) == (Ok(cache[path]), cache)
  {
  }

  /** A miss stores exactly the returned text under `path` and changes no other entry; a failed miss stores nothing. */
  lemma ProcessMissStores(defs: seq<string>, cache: map<Path, string>, roots: seq<Path>, fs: FileSystem, path: Path,
                          cfg: Config, expand: Expander)
    requires path !in cache
    ensures var (r, c) := ProcessStep(defs, cache, roots, fs, path, cfg, expand);
      && (r.Ok? ==> c.Keys == cache.Keys + {path} && c[path] == r.value)
      && (r.Ok? ==> forall p :: p in cache ==> c[p] == cache[p])
      && (r.Err? ==> c == cache)
  {
    var (r, c) := ProcessStep(defs, cache, roots, fs, path, cfg, expand);
    if r.Ok? {
      assert c == cache[path := r.value];
    }
  }

  /** The cache key is the path alone: after a successful call, the same path asked for with any other
      configuration, engine, defines, roots or file system gives the first text back and changes nothing. */
  lemma StaleAcrossConfigs(defs: seq<string>, cache: map<Path, string>, roots: seq<Path>, fs: FileSystem, path: Path,
                           cfg: Config, expand: Expander,
                           defs': seq<string>, roots': seq<Path>, fs': FileSystem, cfg': Config, expand': Expander)
    requires ProcessStep(defs, cache, roots, fs, path, cfg, expand).0.Ok?
    ensures var (r, c) := ProcessStep(defs, cache, roots, fs, path, cfg, expand);
      ProcessStep(defs', c, roots', fs', path, cfg', expand') == (r, c)
  {
  }

  /** `process` guards the file twice, once while reading it and once before expanding it; with one
      `#pragma once` in the file the second pass changes nothing. */
  lemma GuardedOnceOnMiss(fs: FileSystem, path: Path, i: nat)
    requires Absolute(fs, path) in fs.contents
    requires OccursAt(fs.contents[Absolute(fs, path)], PragmaOnce, i)
    requires forall j :: OccursAt(fs.contents[Absolute(fs, path)], PragmaOnce, j) ==> j == i
    ensures var raw := fs.contents[Absolute(fs, path)] + "\n";
      ProcessPragmaOnce(ReadEntireFile(fs, path, true).value, path) == ProcessPragmaOnce(raw, path)
  {
    var text := fs.contents[Absolute(fs, path)];
    var raw := text + "\n";
    assert raw[i..i + |PragmaOnce|] == text[i..i + |PragmaOnce|];
    forall j | OccursAt(raw, PragmaOnce, j) ensures j == i {
      assert raw[j..j + |PragmaOnce|][|PragmaOnce| - 1] == 'e';
      assert j + |PragmaOnce| <= |text|;
      assert text[j..j + |PragmaOnce|] == raw[j..j + |PragmaOnce|];
      assert OccursAt(text, PragmaOnce, j);
    }
    PragmaOnceIdempotent(raw, path, path, i);
  }

  // ---------------------------------------------------------------------------------------------
  // The object
  // ---------------------------------------------------------------------------------------------

  class Preprocessor {
    var fileCache: map<Path, string>
    var searchPaths: seq<Path>
    var defines: seq<string>

    /** Both sets iterate in increasing order. */
    ghost predicate Valid()
      reads this
    {
      Sorted(searchPaths) && Sorted(defines)
    }

    constructor ()
      ensures Valid()
      ensures fileCache == map[] && searchPaths == [] && defines == []
    {
      fileCache, searchPaths, defines := map[], [], [];
    }

    /** `search_paths.insert(root)`, which callers do on the public field. */
    method AddSearchPath(root: Path)
      requires Valid()
      modifies this
      ensures Valid()
      ensures searchPaths == Insert(old(searchPaths), root)
      ensures fileCache == old(fileCache) && defines == old(defines)
    {
      searchPaths := Insert(searchPaths, root);
    }

    /** `defines_string`. */
    method DefinesString() returns (out: string)
      ensures out == Prologue(defines)
    {
      out := "\n";
      var i := 0;
      while i < |defines|
        invariant 0 <= i <= |defines|
        invariant out == "\n" + Lines(defines[..i])
      {
        assert defines[..i + 1] == defines[..i] + [defines[i]];
        LinesConcat(defines[..i], [defines[i]]);
        out := out + defines[i] + "\n";
        i := i + 1;
      }
      assert defines[..i] == defines;
    }

    /** `add_define`. */
    method AddDefine(name: string, value: string)
      requires Valid()
      modifies this
      ensures Valid()
      ensures defines == Insert(old(defines), DefineLine(name, value))
      ensures fileCache == old(fileCache) && searchPaths == old(searchPaths)
    {
      defines := Insert(defines, DefineLine(name, value));
    }

    /** `remove_define`. */
    method RemoveDefine(name: string)
      requires Valid()
      modifies this
      ensures Valid()
      ensures defines == WithoutFirstSearched(old(defines), name)
      ensures fileCache == old(fileCache) && searchPaths == old(searchPaths)
    {
      var found := FirstSearched(defines, name);
      if found.Some? {
        defines := defines[..found.value] + defines[found.value + 1..];
      }
    }

    /** The include callback of `process_from_memory`, in the source's order. */
    method ResolveInclude(fs: FileSystem, cfg: Config, token: Path, isSystem: bool) returns (r: Result<string>)
      ensures r == Resolve(fileCache, searchPaths, fs, cfg, token, isSystem)
    {
      if token in fileCache {
        return Ok(fileCache[token]);
      }
      if !isSystem {
        var found := TryNextToRequester(fs, cfg, token);
        if found.Some? {
          LocalIncludeBeforeRoots(fileCache, searchPaths, fs, cfg, token);
          return found.value;
        }
      }
      var i := 0;
      while i < |searchPaths|
        invariant 0 <= i <= |searchPaths|
        invariant forall j :: 0 <= j < i ==> !Exists(fs, Combine(searchPaths[j], token))
      {
        var candidate := Combine(searchPaths[i], token);
        if Exists(fs, candidate) {
          IncludeFromFirstRoot(fileCache, searchPaths, fs, cfg, token, isSystem, i);
          return ReadEntireFile(fs, candidate, cfg.supportPragmaOnce);
        }
        i := i + 1;
      }
      IncludeWithoutRoot(fileCache, searchPaths, fs, cfg, token, isSystem);
      if isSystem {
        var found := TryNextToRequester(fs, cfg, token);
        if found.Some? {
          return found.value;
        }
      }
      return Err(NotFoundMessage(token));
    }

    /** `process_from_memory`. */
    method ProcessFromMemory(fs: FileSystem, data: string, cfg: Config, expand: Expander) returns (r: Result<string>)
      ensures r == ExpandText(defines, fileCache, searchPaths, fs, data, cfg, expand)
    {
      var prologue := DefinesString();
      var e := expand(prologue + data + "\n", ResolverFor(fileCache, searchPaths, fs, cfg), cfg.removeComments);
      match e
      case Expanded(t) =>
        if cfg.removeWhitespace {
          var consolidated := ConsolidateWhitespace(t);
          r := Ok(consolidated);
        } else {
          r := Ok(t);
        }
      case Reported(info) =>
        r := Err(ExpansionErrorMessage(info, cfg));
      case Aborted(m) =>
        r := Err(m);
    }

    /** `process_from_memory_and_cache`. */
    method ProcessFromMemoryAndCache(fs: FileSystem, data: string, path: Path, cfg: Config, expand: Expander)
      returns (r: Result<string>)
      requires Valid()
      modifies this
      ensures Valid() && defines == old(defines) && searchPaths == old(searchPaths)
      ensures (r, fileCache) == ProcessAndStore(defines, old(fileCache), searchPaths, fs, data, path, cfg, expand)
    {
      var text := if cfg.supportPragmaOnce then ProcessPragmaOnce(data, path) else data;
      r := ProcessFromMemory(fs, text, cfg.(path := Some(path)), expand);
      if r.Ok? {
        fileCache := fileCache[path := r.value];
      }
    }

    /** `process`. */
    method Process(fs: FileSystem, path: Path, cfg: Config, expand: Expander) returns (r: Result<string>)
      requires Valid()
      modifies this
      ensures Valid() && defines == old(defines) && searchPaths == old(searchPaths)
      ensures (r, fileCache) == ProcessStep(defines, old(fileCache), searchPaths, fs, path, cfg, expand)
    {
      if path in fileCache {
        return Ok(fileCache[path]);
      }
      var data := ReadEntireFile(fs, path, cfg.supportPragmaOnce);
      if data.Err? {
        return Err(data.message);
      }
      r := ProcessFromMemoryAndCache(fs, data.value, path, cfg, expand);
    }
  }
}
