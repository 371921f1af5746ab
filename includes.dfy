/** The preprocessor's configuration and the include callback it hands to the directive engine. */
module Includes {
  import opened Wrappers
  import opened Paths
  import opened Common

  /** `preprocessor::config`; `path` is the C string that is null unless set. */
  datatype Config = Config(removeComments: bool, removeWhitespace: bool, supportPragmaOnce: bool, path: Option<Path>)

  function DefaultConfig(): (c: Config)
    ensures !c.removeComments && !c.removeWhitespace && c.supportPragmaOnce && c.path.None?
  {
    Config(false, false, true, None)
  }

  /** The candidates the non-system block tries: next to the file being processed (when its path is known), then
      the token itself, both made absolute. */
  function RequesterCandidates(fs: FileSystem, cfg: Config, token: Path): (c: seq<Path>)
    ensures |c| == if cfg.path.Some? then 2 else 1
    ensures c[|c| - 1] == Absolute(fs, token)
    ensures cfg.path.Some? ==> c[0] == Absolute(fs, Combine(Parent(cfg.path.value), token))
  {
    (if cfg.path.Some? then [Absolute(fs, Combine(Parent(cfg.path.value), token))] else []) + [Absolute(fs, token)]
  }

  /** `root / token` for every search root, in the roots' order. */
  function RootCandidates(roots: seq<Path>, token: Path): (c: seq<Path>)
    ensures |c| == |roots|
    ensures forall i :: 0 <= i < |roots| ==> c[i] == Combine(roots[i], token)
  {
    seq(|roots|, i requires 0 <= i < |roots| => Combine(roots[i], token))
  }

  /** Every path the callback may try, in the order it tries them: system includes search the roots first. */
  function Candidates(roots: seq<Path>, fs: FileSystem, cfg: Config, token: Path, isSystem: bool): seq<Path> {
    if isSystem then RootCandidates(roots, token) + RequesterCandidates(fs, cfg, token)
    else RequesterCandidates(fs, cfg, token) + RootCandidates(roots, token)
  }

  /** The first candidate that exists. */
  function FirstExisting(fs: FileSystem, cands: seq<Path>): (r: Option<Path>)
    ensures r.None? <==> forall i :: 0 <= i < |cands| ==> !Exists(fs, cands[i])
    ensures r.Some? ==> Exists(fs, r.value) && r.value in cands
  {
    if cands == [] then None
    else if Exists(fs, cands[0]) then Some(cands[0])
    else FirstExisting(fs, cands[1..])
  }

  /** The chosen candidate stands at a position before which no candidate exists. */
  lemma {:induction false} FirstExistingIsFirst(fs: FileSystem, cands: seq<Path>)
    ensures var r := FirstExisting(fs, cands);
      r.Some? ==> exists k :: 0 <= k < |cands| && cands[k] == r.value && forall j :: 0 <= j < k ==> !Exists(fs, cands[j])
  {
    if cands != [] && !Exists(fs, cands[0]) {
      FirstExistingIsFirst(fs, cands[1..]);
      var r := FirstExisting(fs, cands[1..]);
      if r.Some? {
        var k :| 0 <= k < |cands[1..]| && cands[1..][k] == r.value && forall j :: 0 <= j < k ==> !Exists(fs, cands[1..][j]);
        assert cands[k + 1] == r.value;
        assert forall j :: 0 <= j < k + 1 ==> !Exists(fs, cands[j]) by {
          forall j | 0 <= j < k + 1 ensures !Exists(fs, cands[j]) {
            if j > 0 { assert cands[j] == cands[1..][j - 1]; }
          }
        }
      }
    }
  }

  /** The candidate at `k` is chosen when it exists and none before it does. */
  lemma {:induction false} FirstExistingAt(fs: FileSystem, cands: seq<Path>, k: nat)
    requires k < |cands| && Exists(fs, cands[k])
    requires forall j :: 0 <= j < k ==> !Exists(fs, cands[j])
    ensures FirstExisting(fs, cands) == Some(cands[k])
  {
    if k > 0 {
      FirstExistingAt(fs, cands[1..], k - 1);
    }
  }

  lemma {:induction false} FirstExistingAppend(fs: FileSystem, a: seq<Path>, b: seq<Path>)
    ensures FirstExisting(fs, a + b) == if FirstExisting(fs, a).Some? then FirstExisting(fs, a) else FirstExisting(fs, b)
  {
    if a == [] {
      assert a + b == b;
    } else {
      assert (a + b)[0] == a[0] && (a + b)[1..] == a[1..] + b;
      FirstExistingAppend(fs, a[1..], b);
    }
  }

  function NotFoundMessage(token: Path): string {
    "Included file `" + token + "` could not be found!"
  }

  /** The include callback: the literal token is looked up in the cache first; otherwise the first existing
      candidate is read (and rewritten for `#pragma once` when configured), and nothing is stored. */
  function Resolve(cache: map<Path, string>, roots: seq<Path>, fs: FileSystem, cfg: Config, token: Path, isSystem: bool)
    : Result<string>
  {
    if token in cache then Ok(cache[token])
    else match FirstExisting(fs, Candidates(roots, fs, cfg, token, isSystem))
      case None => Err(NotFoundMessage(token))
      case Some(p) => ReadEntireFile(fs, p, cfg.supportPragmaOnce)
  }

  /** A cached token is served from the cache, whatever exists on disk. */
  lemma CachedTokenFirst(cache: map<Path, string>, roots: seq<Path>, fs: FileSystem, cfg: Config, token: Path, isSystem: bool)
    requires token in cache
    ensures Resolve(cache, roots, fs, cfg, token, isSystem) == Ok(cache[token])
  {
  }

  /** A non-system include next to the file being processed is taken from there, even when a search root or the
      working directory also has it. */
  lemma LocalIncludeNextToRequester(cache: map<Path, string>, roots: seq<Path>, fs: FileSystem, cfg: Config, token: Path)
    requires token !in cache && cfg.path.Some?
    requires Exists(fs, Combine(Parent(cfg.path.value), token))
    ensures Resolve(cache, roots, fs, cfg, token, false)
         == ReadEntireFile(fs, Absolute(fs, Combine(Parent(cfg.path.value), token)), cfg.supportPragmaOnce)
  {
    var req := RequesterCandidates(fs, cfg, token);
    FirstExistingAppend(fs, req, RootCandidates(roots, token));
    FirstExistingAt(fs, req, 0);
  }

  /** A non-system include found next to the requester or as given is read from there; the roots are not tried. */
  lemma LocalIncludeBeforeRoots(cache: map<Path, string>, roots: seq<Path>, fs: FileSystem, cfg: Config, token: Path)
    requires token !in cache
    requires FirstExisting(fs, RequesterCandidates(fs, cfg, token)).Some?
    ensures Resolve(cache, roots, fs, cfg, token, false)
         == ReadEntireFile(fs, FirstExisting(fs, RequesterCandidates(fs, cfg, token)).value, cfg.supportPragmaOnce)
  {
    FirstExistingAppend(fs, RequesterCandidates(fs, cfg, token), RootCandidates(roots, token));
  }

  /** The first search root, in order, that has the token wins: for a system include always, for a non-system
      include once neither requester-relative candidate exists. */
  lemma IncludeFromFirstRoot(cache: map<Path, string>, roots: seq<Path>, fs: FileSystem, cfg: Config, token: Path,
                             isSystem: bool, k: nat)
    requires token !in cache && k < |roots|
    requires isSystem || FirstExisting(fs, RequesterCandidates(fs, cfg, token)).None?
    requires Exists(fs, Combine(roots[k], token))
    requires forall j :: 0 <= j < k ==> !Exists(fs, Combine(roots[j], token))
    ensures Resolve(cache, roots, fs, cfg, token, isSystem) == ReadEntireFile(fs, Combine(roots[k], token), cfg.supportPragmaOnce)
  {
    var req, rc := RequesterCandidates(fs, cfg, token), RootCandidates(roots, token);
    FirstExistingAt(fs, rc, k);
    if isSystem {
      FirstExistingAppend(fs, rc, req);
    } else {
      FirstExistingAppend(fs, req, rc);
    }
  }

  /** When no root has the token, the requester-relative candidates decide, whatever kind the include is. */
  lemma IncludeWithoutRoot(cache: map<Path, string>, roots: seq<Path>, fs: FileSystem, cfg: Config, token: Path, isSystem: bool)
    requires token !in cache
    requires forall j :: 0 <= j < |roots| ==> !Exists(fs, Combine(roots[j], token))
    ensures Resolve(cache, roots, fs, cfg, token, isSystem) == match FirstExisting(fs, RequesterCandidates(fs, cfg, token))
      case None => Err(NotFoundMessage(token))
      case Some(p) => ReadEntireFile(fs, p, cfg.supportPragmaOnce)
  {
    var req, rc := RequesterCandidates(fs, cfg, token), RootCandidates(roots, token);
    assert FirstExisting(fs, rc).None?;
    if isSystem {
      FirstExistingAppend(fs, rc, req);
    } else {
      FirstExistingAppend(fs, req, rc);
    }
  }

  /** The "could not be found" error is raised exactly when the token is not cached and no candidate exists. */
  lemma NotFoundExactly(cache: map<Path, string>, roots: seq<Path>, fs: FileSystem, cfg: Config, token: Path, isSystem: bool)
    ensures var c := Candidates(roots, fs, cfg, token, isSystem);
      Resolve(cache, roots, fs, cfg, token, isSystem) == Err(NotFoundMessage(token))
      <==> token !in cache && forall i :: 0 <= i < |c| ==> !Exists(fs, c[i])
  {
    var c := Candidates(roots, fs, cfg, token, isSystem);
    var f := FirstExisting(fs, c);
    if token !in cache && f.Some? {
      var r := ReadEntireFile(fs, f.value, cfg.supportPragmaOnce);
      if r.Err? {
        assert r.message[0] == 'F' != NotFoundMessage(token)[0];
      }
    }
  }

  /** The non-system block of the callback, in the source's order: next to the requester, then the token itself. */
  method TryNextToRequester(fs: FileSystem, cfg: Config, token: Path) returns (r: Option<Result<string>>)
    ensures r == match FirstExisting(fs, RequesterCandidates(fs, cfg, token))
      case None => None
      case Some(p) => Some(ReadEntireFile(fs, p, cfg.supportPragmaOnce))
  {
    if cfg.path.Some? {
      var relativeToConfig := Absolute(fs, Combine(Parent(cfg.path.value), token));
      if Exists(fs, relativeToConfig) {
        return Some(ReadEntireFile(fs, relativeToConfig, cfg.supportPragmaOnce));
      }
    }
    var absolute := Absolute(fs, token);
    if Exists(fs, absolute) {
      return Some(ReadEntireFile(fs, absolute, cfg.supportPragmaOnce));
    }
    return None;
  }
}
