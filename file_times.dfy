/**
 * `guess_last_modified`: the newest modification time among the executables,
 * libraries and drivers under an install folder plus the path named by the
 * uninstall command. The filesystem and the local clock are reached only
 * through a Host value.
 */
module FileTimes {
  import opened Wrappers
  import ExePath

  /**
   * What the source asks of the machine:
   * - isDir(p): `os.path.isdir(p)`;
   * - glob(dir, pattern): `glob.glob(os.path.join(dir, "**", pattern), recursive=True)`;
   * - mtime(p): `os.path.getmtime(p)` in whole seconds, None when it raises;
   * - localIso(t): `datetime.fromtimestamp(t).isoformat(sep=' ', timespec='seconds')`.
   */
  datatype Host = Host(
    isDir: string -> bool,
    glob: (string, string) -> seq<string>,
    mtime: string -> Option<int>,
    localIso: int -> string)

  /** The patterns searched under the install folder, in the order they are globbed. */
  const Patterns: seq<string> := ["*.exe", "*.dll", "*.sys"]

  /** The glob results for `pats`, one pattern after the other. */
  function GlobAll(host: Host, dir: string, pats: seq<string>): seq<string> {
    if pats == [] then []
    else GlobAll(host, dir, pats[..|pats| - 1]) + host.glob(dir, pats[|pats| - 1])
  }

  /** `paths_to_check`: the files under an existing install folder, then the extracted path. */
  function CandidatePaths(host: Host, loc: string, uninst: string): (r: seq<string>)
    ensures ExePath.ExtractExePath(uninst).Some? ==> |r| > 0 && r[|r| - 1] == ExePath.ExtractExePath(uninst).value
    ensures (loc == "" || !host.isDir(loc)) ==> |r| <= 1
    ensures (loc == "" || !host.isDir(loc)) && ExePath.ExtractExePath(uninst).None? ==> r == []
    ensures loc != "" && host.isDir(loc) ==>
              var g := GlobAll(host, loc, Patterns); |g| <= |r| <= |g| + 1 && r[..|g|] == g
  {
    (if loc != "" && host.isDir(loc) then GlobAll(host, loc, Patterns) else [])
    + (if uninst == "" then []
       else match ExePath.ExtractExePath(uninst) case Some(p) => [p] case None => [])
  }

  function Mtimes(host: Host, paths: seq<string>): (r: seq<Option<int>>)
    ensures |r| == |paths|
  {
    seq(|paths|, i requires 0 <= i < |paths| => host.mtime(paths[i]))
  }

  /**
   * The running maximum `latest`, starting at 0 and replaced only by a
   * readable time strictly greater than it. It is the largest readable time
   * when some readable time is positive, and 0 otherwise.
   */
  function LatestOf(ms: seq<Option<int>>): (r: int)
    ensures r >= 0
    ensures forall k :: 0 <= k < |ms| && ms[k].Some? ==> ms[k].value <= r
    ensures r > 0 ==> exists k :: 0 <= k < |ms| && ms[k] == Some(r)
    ensures r == 0 <==> forall k :: 0 <= k < |ms| && ms[k].Some? ==> ms[k].value <= 0
  {
    if ms == [] then 0
    else
      var prev := LatestOf(ms[..|ms| - 1]);
      assert forall k :: 0 <= k < |ms| - 1 ==> ms[..|ms| - 1][k] == ms[k];
      match ms[|ms| - 1]
      case Some(m) => if m > prev then m else prev
      case None => prev
  }

  /** `isoformat` never gives an empty string for a positive time. */
  ghost predicate IsoNonEmpty(host: Host) {
    forall t :: t > 0 ==> host.localIso(t) != ""
  }

  /**
   * The inferred `LastModified`: the latest readable time, formatted, when
   * some readable time is positive, and "" otherwise; with a formatter that
   * never gives "", the result is "" exactly when no readable time is positive.
   */
  function LastModifiedOf(host: Host, loc: string, uninst: string): (r: string)
    ensures var ms := Mtimes(host, CandidatePaths(host, loc, uninst));
            (forall k :: 0 <= k < |ms| && ms[k].Some? ==> ms[k].value <= 0) ==> r == ""
    ensures var ms := Mtimes(host, CandidatePaths(host, loc, uninst));
            LatestOf(ms) > 0 ==> r == host.localIso(LatestOf(ms))
    ensures var ms := Mtimes(host, CandidatePaths(host, loc, uninst));
            IsoNonEmpty(host) ==> (r == "" <==> forall k :: 0 <= k < |ms| && ms[k].Some? ==> ms[k].value <= 0)
  {
    var latest := LatestOf(Mtimes(host, CandidatePaths(host, loc, uninst)));
    if latest != 0 then host.localIso(latest) else ""
  }

  /** The first half of the source's procedure: the globs under the folder, then the extracted path. */
  method CollectCandidates(host: Host, loc: string, uninst: string) returns (paths: seq<string>)
    ensures paths == CandidatePaths(host, loc, uninst)
  {
    paths := [];
    if loc != "" && host.isDir(loc) {
      for j := 0 to |Patterns|
        invariant paths == GlobAll(host, loc, Patterns[..j])
      {
        assert Patterns[..j + 1][..j] == Patterns[..j];
        paths := paths + host.glob(loc, Patterns[j]);
      }
      assert Patterns[..|Patterns|] == Patterns;
    }
    if uninst != "" {
      var q := ExePath.ExtractExePath(uninst);
      if q.Some? {
        paths := paths + [q.value];
      }
    }
  }

  /** The second half: the running maximum over the readable times, skipping unreadable paths. */
  method FoldLatest(host: Host, paths: seq<string>) returns (latest: int)
    ensures latest == LatestOf(Mtimes(host, paths))
  {
    ghost var ms := Mtimes(host, paths);
    latest := 0;
    for i := 0 to |paths|
      invariant latest == LatestOf(ms[..i])
    {
      assert ms[..i + 1][..i] == ms[..i];
      var m := host.mtime(paths[i]);
      if m.Some? && m.value > latest {
        latest := m.value;
      }
    }
    assert ms[..|paths|] == ms;
  }

  /** The source's procedure: build the candidate list, then fold the readable times. */
  method GuessLastModified(host: Host, loc: string, uninst: string) returns (r: string)
    ensures r == LastModifiedOf(host, loc, uninst)
  {
    var paths := CollectCandidates(host, loc, uninst);
    var latest := FoldLatest(host, paths);
    r := if latest != 0 then host.localIso(latest) else "";
  }
}
