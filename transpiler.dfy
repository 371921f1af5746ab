/** The command-line transpiler's text handling: `split`, `parse_file_metadata`, the checks `main` makes on its
    arguments, and the whitespace step it applies to the entry-point name. */
module Transpiler {
  import opened Wrappers
  import opened Strings
  import opened Paths
  import opened Common

  // ---------------------------------------------------------------------------------------------------------------
  // split

  /** The pieces `split` collects from position `start` on: the text between consecutive delimiters, with empty
      pieces dropped. */
  function PiecesFrom(s: string, d: string, start: nat): seq<string>
    requires |d| > 0 && start <= |s|
    decreases |s| - start
  {
    match FindFrom(s, d, start)
    case None => if start < |s| then [s[start..]] else []
    case Some(e) => (if start < e then [s[start..e]] else []) + PiecesFrom(s, d, e + |d|)
  }

  function Pieces(s: string, d: string): seq<string>
    requires |d| > 0
  {
    PiecesFrom(s, d, 0)
  }

  /** The loop of `split` as a function of its state: `acc` holds the pieces pushed so far, `start` is where the
      next search begins; the value is what the loop returns from there. */
  function SplitLoop(s: string, d: string, start: nat, acc: seq<string>): seq<string>
    requires |d| > 0 && start <= |s|
    decreases |s| - start
  {
    match FindFrom(s, d, start)
    case None => if start < |s| then acc + [s[start..]] else acc
    case Some(e) => SplitLoop(s, d, e + |d|, if start < e then acc + [s[start..e]] else acc)
  }

  lemma AppendAssoc<T>(a: seq<T>, b: seq<T>, c: seq<T>)
    ensures (a + b) + c == a + (b + c)
  {
  }

  /** The loop appends the pieces from `start` on to what it has collected. */
  lemma {:induction false} SplitLoopPieces(s: string, d: string, start: nat, acc: seq<string>)
    requires |d| > 0 && start <= |s|
    ensures SplitLoop(s, d, start, acc) == acc + PiecesFrom(s, d, start)
    decreases |s| - start
  {
    match FindFrom(s, d, start)
    case None =>
      if start == |s| {
        assert acc + [] == acc;
      }
    case Some(e) =>
      var piece: seq<string> := if start < e then [s[start..e]] else [];
      var rest := PiecesFrom(s, d, e + |d|);
      SplitLoopPieces(s, d, e + |d|, acc + piece);
      assert acc + piece == if start < e then acc + [s[start..e]] else acc;
      AppendAssoc(acc, piece, rest);
  }

  /** `split(str, delimiter)`. */
  method Split(str: string, delimiter: string) returns (result: seq<string>)
    requires |delimiter| > 0
    ensures result == Pieces(str, delimiter)
  {
    SplitLoopPieces(str, delimiter, 0, []);
    result := [];
    var start := 0;
    var end := 0;
    while true
      invariant start <= |str|
      invariant SplitLoop(str, delimiter, start, result) == SplitLoop(str, delimiter, 0, [])
      decreases |str| - start
    {
      var found := FindFrom(str, delimiter, start);
      if found.None? {
        if start < |str| {
          result := result + [str[start..]];
        }
        break;
      }
      end := found.value;
      if start < end {
        result := result + [str[start..end]];
      }
      start := end + |delimiter|;
    }
  }

  lemma SliceOfSlice<T>(s: seq<T>, a: nat, b: nat, i: nat, j: nat)
    requires a <= b <= |s| && i <= j <= b - a
    ensures s[a..b][i..j] == s[a + i..a + j]
  {
    var x, y := s[a..b][i..j], s[a + i..a + j];
    forall k | 0 <= k < |x| ensures x[k] == y[k] {
      assert x[k] == s[a..b][i + k];
    }
  }

  /** A piece as `split` returns it: not empty, and without the delimiter. */
  ghost predicate CleanPiece(p: string, d: string) {
    p != [] && forall j :: 0 <= j < |p| ==> !OccursAt(p, d, j)
  }

  /** A stretch of `s` in which `d` does not start gives a piece that holds no `d`. */
  lemma CleanSlice(s: string, d: string, a: nat, b: nat)
    requires a <= b <= |s|
    requires forall j :: a <= j < b ==> !OccursAt(s, d, j)
    ensures forall j :: 0 <= j < b - a ==> !OccursAt(s[a..b], d, j)
  {
    forall j | 0 <= j < b - a
      ensures !OccursAt(s[a..b], d, j)
    {
      if j + |d| <= b - a {
        SliceOfSlice(s, a, b, j, j + |d|);
        assert !OccursAt(s, d, a + j);
      }
    }
  }

  /** Every piece is non-empty and holds no delimiter. */
  lemma {:induction false} PiecesAreClean(s: string, d: string, start: nat)
    requires |d| > 0 && start <= |s|
    ensures forall p :: p in PiecesFrom(s, d, start) ==> CleanPiece(p, d)
    decreases |s| - start
  {
    FindFromFirst(s, d, start);
    match FindFrom(s, d, start)
    case None =>
      CleanSlice(s, d, start, |s|);
      assert s[start..|s|] == s[start..];
    case Some(e) =>
      PiecesAreClean(s, d, e + |d|);
      var piece: seq<string> := if start < e then [s[start..e]] else [];
      if start < e {
        CleanSlice(s, d, start, e);
        assert CleanPiece(s[start..e], d);
      }
      assert PiecesFrom(s, d, start) == piece + PiecesFrom(s, d, e + |d|);
  }

  /** Splitting the empty string gives no piece. */
  lemma SplitEmpty(d: string)
    requires |d| > 0
    ensures Pieces("", d) == []
  {
  }

  /** `Join(pieces, d)`: the pieces with `d` between consecutive ones. */
  function Join(pieces: seq<string>, d: string): string
  {
    if pieces == [] then ""
    else if |pieces| == 1 then pieces[0]
    else pieces[0] + d + Join(pieces[1..], d)
  }

  /** `s` does not start or end with `d`, and no two occurrences of `d` follow each other directly: `split` then
      drops no empty piece. */
  ghost predicate NoStrayDelimiter(s: string, d: string) {
    !OccursAt(s, d, 0) && !OccursAt(s, d, |s| - |d|) &&
    forall i :: OccursAt(s, d, i) ==> !OccursAt(s, d, i + |d|)
  }

  lemma {:induction false} JoinPiecesFrom(s: string, d: string, start: nat)
    requires |d| > 0 && start <= |s| && NoStrayDelimiter(s, d)
    requires !OccursAt(s, d, start) && (start == 0 || start < |s|)
    ensures Join(PiecesFrom(s, d, start), d) == s[start..]
    decreases |s| - start
  {
    FindFromFirst(s, d, start);
    match FindFrom(s, d, start)
    case None =>
    case Some(e) =>
      var next := e + |d|;
      assert OccursAt(s, d, e);
      JoinPiecesFrom(s, d, next);
      var rest := PiecesFrom(s, d, next);
      assert rest != [] by { assert s[next..] != []; }
      assert PiecesFrom(s, d, start) == [s[start..e]] + rest;
      JoinCons(s[start..e], rest, d);
      assert s[e..next] == d;
      ThreeSlices(s, start, e, next);
  }

  lemma JoinCons(p: string, rest: seq<string>, d: string)
    requires rest != []
    ensures Join([p] + rest, d) == p + d + Join(rest, d)
  {
    assert ([p] + rest)[1..] == rest;
  }

  lemma ThreeSlices<T>(s: seq<T>, a: nat, b: nat, c: nat)
    requires a <= b <= c <= |s|
    ensures s[a..] == s[a..b] + s[b..c] + s[c..]
  {
  }

  /** Joining the pieces again restores the string when `split` has dropped nothing. */
  lemma SplitJoin(s: string, d: string)
    requires |d| > 0 && NoStrayDelimiter(s, d)
    ensures Join(Pieces(s, d), d) == s
  {
    JoinPiecesFrom(s, d, 0);
  }

  /** A string with a character other than ':' splits into at least one piece, so `subs[0]` exists. */
  lemma {:induction false} PiecesNonEmpty(s: string, k: nat, start: nat)
    requires start <= k < |s| && s[k] != ':'
    ensures PiecesFrom(s, ":", start) != []
    decreases |s| - start
  {
    FindFromFirst(s, ":", start);
    match FindFrom(s, ":", start)
    case None =>
    case Some(e) =>
      if start == e {
        assert s[e..e + 1] == ":";
        assert e != k;
        PiecesNonEmpty(s, k, e + 1);
      }
  }

  // ---------------------------------------------------------------------------------------------------------------
  // Languages and shader stages, read case-insensitively by name

  datatype Language = Glsl | Hlsl | Msl | Wgsl | Slang | Spirv

  /** `magic_enum::enum_name` of a language. */
  function LanguageName(l: Language): string {
    match l
    case Glsl => "glsl"
    case Hlsl => "hlsl"
    case Msl => "msl"
    case Wgsl => "wgsl"
    case Slang => "slang"
    case Spirv => "spirv"
  }

  datatype ShaderStage =
    | Vertex | TesselationControl | TesselationEvaluation | Geometry | Fragment | Compute
    | RayGen | Intersect | AnyHit | ClosestHit | Miss | Callable | Task | Mesh

  /** `magic_enum::enum_name` of a shader stage. */
  function StageName(s: ShaderStage): string {
    match s
    case Vertex => "Vertex"
    case TesselationControl => "TesselationControl"
    case TesselationEvaluation => "TesselationEvaluation"
    case Geometry => "Geometry"
    case Fragment => "Fragment"
    case Compute => "Compute"
    case RayGen => "RayGen"
    case Intersect => "Intersect"
    case AnyHit => "AnyHit"
    case ClosestHit => "ClosestHit"
    case Miss => "Miss"
    case Callable => "Callable"
    case Task => "Task"
    case Mesh => "Mesh"
  }

  /** The enumerators in declaration order, the order `magic_enum::enum_cast` tries them in. */
  const Languages: seq<Language> := [Glsl, Hlsl, Msl, Wgsl, Slang, Spirv]
  const Stages: seq<ShaderStage> := [Vertex, TesselationControl, TesselationEvaluation, Geometry, Fragment,
    Compute, RayGen, Intersect, AnyHit, ClosestHit, Miss, Callable, Task, Mesh]

  /** `magic_enum::enum_cast(s, magic_enum::case_insensitive)` over `values`: the first whose name matches. */
  function CastIgnoreCase<T>(s: string, values: seq<T>, name: T -> string): (r: Option<T>)
    ensures r.Some? ==> r.value in values && EqualsIgnoreCase(s, name(r.value))
    ensures r.None? ==> forall v :: v in values ==> !EqualsIgnoreCase(s, name(v))
  {
    if values == [] then None
    else if EqualsIgnoreCase(s, name(values[0])) then Some(values[0])
    else CastIgnoreCase(s, values[1..], name)
  }

  function ParseLanguage(s: string): Option<Language> {
    CastIgnoreCase(s, Languages, LanguageName)
  }

  function ParseStage(s: string): Option<ShaderStage> {
    CastIgnoreCase(s, Stages, StageName)
  }

  lemma EqualsIgnoreCaseTransitive(a: string, b: string, c: string)
    requires EqualsIgnoreCase(a, b) && EqualsIgnoreCase(c, b)
    ensures EqualsIgnoreCase(a, c)
  {
  }

  /** When no two names match each other ignoring case, the cast finds a value exactly when its name matches. */
  lemma CastFindsExactly<T>(s: string, values: seq<T>, name: T -> string, v: T)
    requires v in values
    requires forall a, b :: a in values && b in values && EqualsIgnoreCase(name(a), name(b)) ==> a == b
    ensures CastIgnoreCase(s, values, name) == Some(v) <==> EqualsIgnoreCase(s, name(v))
  {
    var r := CastIgnoreCase(s, values, name);
    if EqualsIgnoreCase(s, name(v)) {
      EqualsIgnoreCaseTransitive(name(r.value), s, name(v));
    }
  }

  /** No two language names are equal ignoring case: the lengths differ, or a letter `ToLower` keeps apart. */
  lemma LanguageNamesDistinct(a: Language, b: Language)
    ensures EqualsIgnoreCase(LanguageName(a), LanguageName(b)) ==> a == b
  {
    var x, y := LanguageName(a), LanguageName(b);
    if a != b && |x| == |y| {
      assert ToLower(x[0]) != ToLower(y[0]) || ToLower(x[1]) != ToLower(y[1]);
    }
  }

  /** No two stage names are equal ignoring case. */
  lemma StageNamesDistinct(a: ShaderStage, b: ShaderStage)
    ensures EqualsIgnoreCase(StageName(a), StageName(b)) ==> a == b
  {
    var x, y := StageName(a), StageName(b);
    if a != b && |x| == |y| {
      assert ToLower(x[0]) != ToLower(y[0]) || ToLower(x[1]) != ToLower(y[1]);
    }
  }

  /** A language is read from exactly the strings that spell its name in any case. */
  lemma ParseLanguageExactly(s: string, l: Language)
    ensures ParseLanguage(s) == Some(l) <==> EqualsIgnoreCase(s, LanguageName(l))
  {
    forall a, b | a in Languages && b in Languages && EqualsIgnoreCase(LanguageName(a), LanguageName(b))
      ensures a == b
    {
      LanguageNamesDistinct(a, b);
    }
    CastFindsExactly(s, Languages, LanguageName, l);
  }

  /** Every stage is one of the enumerators `magic_enum` walks. */
  lemma StageListed(st: ShaderStage)
    ensures st in Stages
  {
    match st
    case Vertex => assert Stages[0] == st;
    case TesselationControl => assert Stages[1] == st;
    case TesselationEvaluation => assert Stages[2] == st;
    case Geometry => assert Stages[3] == st;
    case Fragment => assert Stages[4] == st;
    case Compute => assert Stages[5] == st;
    case RayGen => assert Stages[6] == st;
    case Intersect => assert Stages[7] == st;
    case AnyHit => assert Stages[8] == st;
    case ClosestHit => assert Stages[9] == st;
    case Miss => assert Stages[10] == st;
    case Callable => assert Stages[11] == st;
    case Task => assert Stages[12] == st;
    case Mesh => assert Stages[13] == st;
  }

  /** A stage is read from exactly the strings that spell its name in any case. */
  lemma ParseStageExactly(s: string, st: ShaderStage)
    ensures ParseStage(s) == Some(st) <==> EqualsIgnoreCase(s, StageName(st))
  {
    forall a: ShaderStage, b: ShaderStage | EqualsIgnoreCase(StageName(a), StageName(b))
      ensures a == b
    {
      StageNamesDistinct(a, b);
    }
    StageListed(st);
    CastFindsExactly(s, Stages, StageName, st);
  }

  // ---------------------------------------------------------------------------------------------------------------
  // parse_file_metadata

  datatype Metadata = Metadata(file: string, lang: Language, stage: Option<ShaderStage>)

  const GenericError := "\nIf additional information is encoded in a file name it must be of the form `file:language:stage`"

  /** The extension of `file` without its dot. */
  function ExtensionName(file: Path): (r: string)
    ensures |r| <= |file| && r == file[|file| - |r|..]
    ensures Extension(file) == [] ==> r == []
    ensures Extension(file) != [] ==> Extension(file) == "." + r
  {
    var e := Extension(file);
    if |e| > 0 then e[1..] else e
  }

  /** The language: the explicit one, else the second piece, else the file name's extension. */
  function LanguageOf(subs: seq<string>, lang: Option<Language>): Result<Language>
    requires subs != []
  {
    if lang.Some? then Ok(lang.value)
    else if |subs| >= 2 then
      match ParseLanguage(subs[1])
      case Some(l) => Ok(l)
      case None => Err("Invalid language: " + subs[1] + GenericError)
    else
      var langStr := ExtensionName(subs[0]);
      match ParseLanguage(langStr)
      case Some(l) => Ok(l)
      case None => Err("Invalid language `" + langStr + "` please provide a valid language!" + GenericError)
  }

  /** The stage: the explicit one, else the third piece, else none. */
  function StageOf(subs: seq<string>, stage: Option<ShaderStage>): Result<Option<ShaderStage>>
  {
    if stage.Some? then Ok(stage)
    else if |subs| >= 3 then
      match ParseStage(subs[2])
      case Some(st) => Ok(Some(st))
      case None => Err("Invalid shader stage: " + subs[2] + GenericError)
    else Ok(None)
  }

  /** `parse_file_metadata(file, lang, stage)`: a file name of the form `file:language:stage`, where explicit
      values take precedence over the encoded ones; a thrown `std::runtime_error` is an `Err`. The source reads
      `subs[0]` unchecked, so the file name must split into at least one piece. */
  function ParseFileMetadata(file: string, lang: Option<Language>, stage: Option<ShaderStage>): (r: Result<Metadata>)
    requires Pieces(file, ":") != []
    ensures var subs := Pieces(file, ":");
      && (r.Ok? ==> r.value.file == subs[0] && |subs| <= 3)
      && (|subs| >= 4 ==> r.Err?)
      && (lang.Some? && r.Ok? ==> r.value.lang == lang.value)
      && (lang.None? && |subs| >= 2 && r.Ok? ==> EqualsIgnoreCase(subs[1], LanguageName(r.value.lang)))
      && (lang.None? && |subs| == 1 && r.Ok? ==> EqualsIgnoreCase(ExtensionName(subs[0]), LanguageName(r.value.lang)))
      && (stage.Some? && r.Ok? ==> r.value.stage == stage)
      && (stage.None? && r.Ok? ==> (r.value.stage.Some? <==> |subs| == 3))
      && (stage.None? && |subs| == 3 && r.Ok? ==> EqualsIgnoreCase(subs[2], StageName(r.value.stage.value)))
      && (lang.Some? ==> (r.Ok? <==> |subs| <= 3 && (stage.Some? || |subs| < 3 || ParseStage(subs[2]).Some?)))
      && (lang.None? ==> (r.Ok? <==> (&& |subs| <= 3
                                      && ParseLanguage(if |subs| >= 2 then subs[1] else ExtensionName(subs[0])).Some?
                                      && (stage.Some? || |subs| < 3 || ParseStage(subs[2]).Some?))))
  {
    var subs := Pieces(file, ":");
    var l := LanguageOf(subs, lang);
    if l.Err? then Err(l.message)
    else
      var st := StageOf(subs, stage);
      if st.Err? then Err(st.message)
      else if |subs| >= 4 then Err(GenericError)
      else Ok(Metadata(subs[0], l.value, st.value))
  }

  /** Without an explicit language and without pieces after the name, the extension names the language in any
      case. */
  lemma LanguageFromExtension(file: string, l: Language, stage: Option<ShaderStage>)
    requires |Pieces(file, ":")| == 1
    requires EqualsIgnoreCase(ExtensionName(Pieces(file, ":")[0]), LanguageName(l))
    ensures ParseFileMetadata(file, None, stage) == Ok(Metadata(Pieces(file, ":")[0], l, stage))
  {
    ParseLanguageExactly(ExtensionName(Pieces(file, ":")[0]), l);
  }

  /** `a.GLSL` is a GLSL file. */
  lemma LanguageFromExtensionExample()
    ensures Pieces("a.GLSL", ":") == ["a.GLSL"]
    ensures ParseFileMetadata("a.GLSL", None, None) == Ok(Metadata("a.GLSL", Glsl, None))
  {
    GlslPieces();
    GlslExtension();
    GlslName();
    LanguageFromExtension("a.GLSL", Glsl, None);
  }

  lemma GlslPieces()
    ensures Pieces("a.GLSL", ":") == ["a.GLSL"]
  {
    LastPiece("a.GLSL", 0, "a.GLSL");
  }

  lemma GlslName()
    ensures EqualsIgnoreCase("GLSL", LanguageName(Glsl))
  {
  }

  lemma GlslExtension()
    ensures ExtensionName("a.GLSL") == "GLSL"
  {
    var f := "a.GLSL";
    assert f[..5] == "a.GLS" && f[..4] == "a.GL" && f[..3] == "a.G" && f[..2] == "a." && f[..1] == "a";
    assert LastIndexOf(f, '/') == None;
    assert LastIndexOf("a.", '.') == Some(1);
    assert LastIndexOf("a.G", '.') == Some(1);
    assert LastIndexOf("a.GL", '.') == Some(1);
    assert LastIndexOf("a.GLS", '.') == Some(1);
  }

  /** The error messages, which name the rejected piece. */
  lemma InvalidLanguageMessage(file: string, stage: Option<ShaderStage>)
    requires |Pieces(file, ":")| >= 2 && ParseLanguage(Pieces(file, ":")[1]).None?
    ensures ParseFileMetadata(file, None, stage) == Err("Invalid language: " + Pieces(file, ":")[1] + GenericError)
  {
  }

  lemma InvalidStageMessage(file: string, lang: Language)
    requires |Pieces(file, ":")| >= 3 && ParseStage(Pieces(file, ":")[2]).None?
    ensures ParseFileMetadata(file, Some(lang), None) == Err("Invalid shader stage: " + Pieces(file, ":")[2] + GenericError)
  {
  }

  /** `s.find(c, from)` for a one-character `c` that first stands at `e`. */
  lemma FindCharAt(s: string, c: char, from: nat, e: nat)
    requires from <= e < |s| && s[e] == c
    requires forall j :: from <= j < e ==> s[j] != c
    ensures FindFrom(s, [c], from) == Some(e)
  {
    assert OccursAt(s, [c], e) by { assert s[e..e + 1] == [c]; }
    FindFromFirst(s, [c], from);
    var r := FindFrom(s, [c], from);
    assert s[r.value] == s[r.value..r.value + 1][0];
  }

  /** `s.find(c, from)` for a one-character `c` that does not stand after `from`. */
  lemma FindCharNone(s: string, c: char, from: nat)
    requires forall j :: from <= j < |s| ==> s[j] != c
    ensures FindFrom(s, [c], from) == None
  {
    FindFromFirst(s, [c], from);
    forall j | from <= j
      ensures !OccursAt(s, [c], j)
    {
      if j < |s| {
        assert s[j..j + 1][0] == s[j];
      }
    }
  }

  /** The file name `file:language[:stage]` that describes `m`. */
  function EncodeMetadata(m: Metadata): string {
    if m.stage.Some? then m.file + ":" + LanguageName(m.lang) + ":" + StageName(m.stage.value)
    else m.file + ":" + LanguageName(m.lang)
  }

  lemma LanguageNameHasNoColon(l: Language)
    ensures LanguageName(l) != [] && ':' !in LanguageName(l)
  {
  }

  lemma StageNameHasNoColon(st: ShaderStage)
    ensures StageName(st) != [] && ':' !in StageName(st)
  {
  }

  /** The last piece, `p`, runs from `start` to the end. */
  lemma LastPiece(s: string, start: nat, p: string)
    requires start <= |s| && s[start..] == p && p != [] && ':' !in p
    ensures PiecesFrom(s, ":", start) == [p]
  {
    assert forall j :: start <= j < |s| ==> s[j] == p[j - start];
    FindCharNone(s, ':', start);
  }

  /** The piece `p` stands at `start` and a colon follows it. */
  lemma NextPiece(s: string, start: nat, p: string, next: nat)
    requires start + |p| < |s| && s[start..start + |p|] == p && s[start + |p|] == ':' && p != [] && ':' !in p
    requires next == start + |p| + 1
    ensures PiecesFrom(s, ":", start) == [p] + PiecesFrom(s, ":", next)
  {
    var e := start + |p|;
    assert forall j :: start <= j < e ==> s[j] == p[j - start];
    FindCharAt(s, ':', start, e);
    assert PiecesFrom(s, ":", start) == [s[start..e]] + PiecesFrom(s, ":", next);
  }

  /** Colon-free, non-empty names joined by colons split back into those names. */
  lemma SplitTwo(a: string, b: string)
    requires a != [] && b != [] && ':' !in a && ':' !in b
    ensures Pieces(a + ":" + b, ":") == [a, b]
  {
    var s := a + ":" + b;
    assert s[..|a|] == a && s[|a| + 1..] == b;
    NextPiece(s, 0, a, |a| + 1);
    LastPiece(s, |a| + 1, b);
  }

  /** ... and of three. */
  lemma SplitThree(a: string, b: string, c: string)
    requires a != [] && b != [] && c != [] && ':' !in a && ':' !in b && ':' !in c
    ensures Pieces(a + ":" + b + ":" + c, ":") == [a, b, c]
  {
    var t := a + ":" + b;
    var s := t + ":" + c;
    var i := |t|;
    assert s[i + 1..] == c;
    assert s[..i] == t;
    assert t[..|a|] == a && t[|a| + 1..] == b;
    assert s[..|a|] == t[..|a|];
    assert s[|a| + 1..i] == t[|a| + 1..];
    ThreePieces(s, a, b, c);
  }

  /** The pieces of a string made of three colon-free names with a colon after the first two. */
  lemma ThreePieces(s: string, a: string, b: string, c: string)
    requires a != [] && b != [] && c != [] && ':' !in a && ':' !in b && ':' !in c
    requires |s| == |a| + |b| + |c| + 2
    requires s[..|a|] == a && s[|a|] == ':' && s[|a| + 1..|a| + 1 + |b|] == b && s[|a| + 1 + |b|] == ':'
    requires s[|a| + |b| + 2..] == c
    ensures PiecesFrom(s, ":", 0) == [a, b, c]
  {
    var i1 := |a| + 1;
    var i2 := i1 + |b| + 1;
    NextPiece(s, 0, a, i1);
    NextPiece(s, i1, b, i2);
    LastPiece(s, i2, c);
    ThreeElements(PiecesFrom(s, ":", 0), PiecesFrom(s, ":", i1), PiecesFrom(s, ":", i2), a, b, c);
  }

  /** A sequence built up from its last element. */
  lemma ThreeElements<T>(x: seq<T>, y: seq<T>, z: seq<T>, a: T, b: T, c: T)
    requires x == [a] + y && y == [b] + z && z == [c]
    ensures x == [a, b, c]
  {
  }

  /** A file name built from a colon-free name, a language and optionally a stage is read back as just those. */
  lemma ParseEncodedMetadata(m: Metadata)
    requires m.file != [] && ':' !in m.file
    ensures Pieces(EncodeMetadata(m), ":") != [] && ParseFileMetadata(EncodeMetadata(m), None, None) == Ok(m)
  {
    var name := LanguageName(m.lang);
    LanguageNameHasNoColon(m.lang);
    ParseLanguageExactly(name, m.lang);
    var ps: seq<string>;
    if m.stage.Some? {
      StageNameHasNoColon(m.stage.value);
      ParseStageExactly(StageName(m.stage.value), m.stage.value);
      SplitThree(m.file, name, StageName(m.stage.value));
      ps := [m.file, name, StageName(m.stage.value)];
    } else {
      SplitTwo(m.file, name);
      ps := [m.file, name];
    }
    assert Pieces(EncodeMetadata(m), ":") == ps;
    assert LanguageOf(ps, None) == Ok(m.lang);
    assert StageOf(ps, None) == Ok(m.stage);
  }

  // ---------------------------------------------------------------------------------------------------------------
  // main's checks on its arguments

  const StdinMessage := "When reading from standard input an output file must be specified!"
  const NoOutputLanguageMessage := "If no output file is specified an output language must be specified using --output-language!"
  const GlslStageMessage := "When targeting glsl a shader stage must be specified using --stage!"

  /** What `main` has settled before it reads any shader: both files' metadata, the output file name, and whether
      it warns that a stage given on the input file has no effect. */
  datatype Invocation = Invocation(input: Metadata, output: Metadata, outfile: string, stageWarning: bool)

  /** The output file name: the given one, or the input's with the output language's name as its extension. */
  function OutputFile(infile: string, outfile: Option<string>, outlang: Option<Language>): Result<string>
  {
    if outfile.Some? then Ok(outfile.value)
    else if infile == "." then Err(StdinMessage)
    else if outlang.None? then Err(NoOutputLanguageMessage)
    else Ok(ReplaceExtension(infile, LanguageName(outlang.value)))
  }

  /** A name ending in a language's name has a piece. */
  lemma ReplacedHasPiece(infile: string, l: Language)
    ensures Pieces(ReplaceExtension(infile, LanguageName(l)), ":") != []
  {
    var r := ReplaceExtension(infile, LanguageName(l));
    assert r[|r| - 1] == LanguageName(l)[|LanguageName(l)| - 1];
    PiecesNonEmpty(r, |r| - 1, 0);
  }

  /** The argument checks of `main`, before any shader is read. A file name must split into a first piece
      wherever `parse_file_metadata` is reached with it: the input once the output name is settled, and a given
      output file once the input has parsed. */
  function CheckArguments(infile: string, outfile: Option<string>, inlang: Option<Language>,
                          outlang: Option<Language>, stage: Option<ShaderStage>): (r: Result<Invocation>)
    requires OutputFile(infile, outfile, outlang).Ok? ==> Pieces(infile, ":") != []
    requires OutputFile(infile, outfile, outlang).Ok? && outfile.Some? && ParseFileMetadata(infile, inlang, None).Ok?
             ==> Pieces(outfile.value, ":") != []
    ensures outfile.None? && infile == "." ==> r == Err(StdinMessage)
    ensures outfile.None? && infile != "." && outlang.None? ==> r == Err(NoOutputLanguageMessage)
    ensures r.Ok? ==> r.value.outfile == (if outfile.Some? then outfile.value
                                          else ReplaceExtension(infile, LanguageName(outlang.value)))
    ensures r.Ok? && outlang.Some? ==> r.value.output.lang == outlang.value
    ensures r.Ok? && inlang.Some? ==> r.value.input.lang == inlang.value
    ensures r.Ok? && stage.Some? ==> r.value.output.stage == stage
    ensures r.Ok? && r.value.output.lang == Glsl ==> r.value.output.stage.Some?
    ensures r.Ok? ==> r.value.stageWarning == r.value.input.stage.Some?
    ensures r.Ok? ==> && OutputFile(infile, outfile, outlang).Ok?
                      && Pieces(infile, ":") != []
                      && Pieces(r.value.outfile, ":") != []
                      && ParseFileMetadata(infile, inlang, None) == Ok(r.value.input)
                      && ParseFileMetadata(r.value.outfile, outlang, stage) == Ok(r.value.output)
    ensures OutputFile(infile, outfile, outlang).Err? ==> r == Err(OutputFile(infile, outfile, outlang).message)
    ensures OutputFile(infile, outfile, outlang).Ok? ==>
      var out := OutputFile(infile, outfile, outlang).value;
      && (ParseFileMetadata(infile, inlang, None).Err? ==> r == Err(ParseFileMetadata(infile, inlang, None).message))
      && (ParseFileMetadata(infile, inlang, None).Ok? ==>
            && Pieces(out, ":") != []
            && (ParseFileMetadata(out, outlang, stage).Err? ==> r == Err(ParseFileMetadata(out, outlang, stage).message))
            && (ParseFileMetadata(out, outlang, stage).Ok? ==>
                  var output := ParseFileMetadata(out, outlang, stage).value;
                  && (r.Ok? <==> output.lang != Glsl || output.stage.Some?)
                  && (r.Err? ==> r == Err(GlslStageMessage))))
  {
    match OutputFile(infile, outfile, outlang)
    case Err(m) => Err(m)
    case Ok(out) =>
      match ParseFileMetadata(infile, inlang, None)
      case Err(m) => Err(m)
      case Ok(input) =>
        assert Pieces(out, ":") != [] by {
          if outfile.None? { ReplacedHasPiece(infile, outlang.value); }
        }
        match ParseFileMetadata(out, outlang, stage)
        case Err(m) => Err(m)
        case Ok(output) =>
          if output.lang == Glsl && output.stage.None? then Err(GlslStageMessage)
          else Ok(Invocation(input, output, out, input.stage.Some?))
  }

  /** An input name with no piece still gets the missing-output-language error, which comes first. */
  lemma CheckArgumentsEmptyName()
    ensures CheckArguments("", None, None, None, None) == Err(NoOutputLanguageMessage)
    ensures CheckArguments(":", None, None, None, None) == Err(NoOutputLanguageMessage)
  {
  }

  /** An input that does not parse is reported before the output name is split, whatever that name is. */
  lemma CheckArgumentsInputFirst(infile: string, outfile: string, inlang: Option<Language>,
                                 outlang: Option<Language>, stage: Option<ShaderStage>)
    requires Pieces(infile, ":") != [] && ParseFileMetadata(infile, inlang, None).Err?
    ensures CheckArguments(infile, Some(outfile), inlang, outlang, stage)
         == Err(ParseFileMetadata(infile, inlang, None).message)
  {
  }

  // ---------------------------------------------------------------------------------------------------------------
  // The entry point's whitespace

  /** What the entry-point step of `main` leaves: `remove_if` moves the non-whitespace characters to the front, and
      `erase(end)` then removes the ONE character at `end`, not the range from `end` on. */
  function EntryPointAsWritten(ep: string): string {
    var t := RemoveIfSpaceResult(ep);
    var k := |RemoveWhitespace(ep)|;
    if k < |t| then t[..k] + t[k + 1..] else t
  }

  /** The entry-point step of `main`, in place on the entry point's characters. */
  method StripEntryPoint(ep: string) returns (r: string)
    ensures r == EntryPointAsWritten(ep)
  {
    var a := new char[|ep|](i requires 0 <= i < |ep| => ep[i]);
    assert a[..] == ep;
    var end := RemoveIfSpace(a);
    if end < a.Length {
      r := a[..end] + a[end + 1..];
    } else {
      r := a[..];
    }
  }

  /** The step leaves the whitespace-free name exactly when the name holds at most one whitespace character. */
  lemma EntryPointAsWrittenCorrectIff(ep: string)
    ensures EntryPointAsWritten(ep) == RemoveWhitespace(ep) <==> |ep| - |RemoveWhitespace(ep)| <= 1
  {
    var k := |RemoveWhitespace(ep)|;
    var t := RemoveIfSpaceResult(ep);
    if k + 1 == |ep| {
      assert t[k + 1..] == [];
      assert EntryPointAsWritten(ep) == t[..k];
    }
  }

  /** "a b c" with its two spaces becomes "abcc": the last letter is kept twice. */
  lemma EntryPointAsWrittenExample()
    ensures EntryPointAsWritten("a b c") == "abcc"
    ensures RemoveWhitespace("a b c") == "abc"
  {
    assert RemoveWhitespace("c") == "c";
    assert RemoveWhitespace(" c") == "c";
    assert RemoveWhitespace("b c") == "bc";
    assert RemoveWhitespace(" b c") == "bc";
    assert RemoveWhitespace("a b c") == "abc";
  }

  /** The intended step: `erase(end, entry_point.end())`, which drops everything from `end` on; that is the
      erase/remove idiom of `remove_whitespace`. */
  method StripEntryPointIntended(ep: string) returns (r: string)
    ensures r == RemoveWhitespace(ep)
    ensures NoWhitespace(r)
  {
    r := EraseWhitespace(ep);
  }
}
