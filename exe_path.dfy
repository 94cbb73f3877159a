/**
 * Extraction of one executable path from an uninstall command, as done inside
 * `guess_last_modified`: first the leftmost match of `"([^"]+\.exe)"`, and only
 * when there is none the leftmost match of `([A-Za-z]:\\[^ ]+\.exe)`, whose
 * `[^ ]+` is greedy. Both searches are written out by hand; a match is
 * described by the predicates QuotedAt and DriveAt, which the searches are
 * proved against.
 */
module ExePath {
  import opened Wrappers

  predicate NoQuote(t: string) {
    forall k :: 0 <= k < |t| ==> t[k] != '"'
  }

  predicate NoSpace(t: string) {
    forall k :: 0 <= k < |t| ==> t[k] != ' '
  }

  predicate IsAsciiLetter(c: char) {
    ('A' <= c <= 'Z') || ('a' <= c <= 'z')
  }

  /** The four characters before position `e` are `.exe` (lower case, as the pattern is). */
  predicate EndsExe(s: string, e: int) {
    4 <= e <= |s| && s[e - 4..e] == ".exe"
  }

  /** `"([^"]+\.exe)"` matches s[i..e + 1]: the group is s[i + 1..e], at least one character and then `.exe`. */
  predicate QuotedAt(s: string, i: int, e: int) {
    0 <= i && i + 6 <= e < |s| && s[i] == '"' && s[e] == '"' && EndsExe(s, e) && NoQuote(s[i + 1..e])
  }

  /** `([A-Za-z]:\\[^ ]+\.exe)` matches s[i..e]. */
  predicate DriveAt(s: string, i: int, e: int) {
    0 <= i && i + 8 <= e <= |s| && IsAsciiLetter(s[i]) && s[i + 1] == ':' && s[i + 2] == '\\'
    && NoSpace(s[i + 3..e]) && EndsExe(s, e)
  }

  /** The first `"` at or after `j`, or |s| when there is none. */
  function NextQuote(s: string, j: nat): (r: nat)
    requires j <= |s|
    ensures j <= r <= |s|
    ensures r < |s| ==> s[r] == '"'
    ensures NoQuote(s[j..r])
    decreases |s| - j
  {
    if j == |s| || s[j] == '"' then j else NextQuote(s, j + 1)
  }

  /** The first space at or after `j`, or |s| when there is none. */
  function NextSpace(s: string, j: nat): (r: nat)
    requires j <= |s|
    ensures j <= r <= |s|
    ensures r < |s| ==> s[r] == ' '
    ensures NoSpace(s[j..r])
    decreases |s| - j
  {
    if j == |s| || s[j] == ' ' then j else NextSpace(s, j + 1)
  }

  /** A quoted match starting at `i` can only close at the next quote. */
  lemma QuotedEnd(s: string, i: nat, e: int)
    requires QuotedAt(s, i, e)
    ensures e == NextQuote(s, i + 1)
  {
  }

  /** The leftmost quoted match starting at or after `i`, as (start, closing quote). */
  function QuotedSpan(s: string, i: nat): (r: Option<(nat, nat)>)
    requires i <= |s|
    ensures r.Some? ==> i <= r.value.0 && QuotedAt(s, r.value.0, r.value.1)
    ensures r.Some? ==> forall b, e :: i <= b < r.value.0 ==> !QuotedAt(s, b, e)
    ensures r.None? ==> forall b, e :: i <= b ==> !QuotedAt(s, b, e)
    decreases |s| - i
  {
    if i == |s| then None
    else
      var e := NextQuote(s, i + 1);
      if s[i] == '"' && e < |s| && i + 6 <= e && EndsExe(s, e) then Some((i, e))
      else
        var rest := QuotedSpan(s, i + 1);
        assert forall e' :: !QuotedAt(s, i, e') by {
          forall e' | QuotedAt(s, i, e') ensures false {
            QuotedEnd(s, i, e');
          }
        }
        rest
  }

  /** The largest `e` in lo..hi with `.exe` just before it. */
  function LastExeEnd(s: string, lo: nat, hi: nat): (r: Option<nat>)
    requires 4 <= lo && hi <= |s|
    ensures r.Some? ==> lo <= r.value <= hi && EndsExe(s, r.value)
    ensures r.Some? ==> forall e :: r.value < e <= hi ==> !EndsExe(s, e)
    ensures r.None? ==> forall e :: lo <= e <= hi ==> !EndsExe(s, e)
    decreases hi
  {
    if hi < lo then None
    else if EndsExe(s, hi) then Some(hi)
    else LastExeEnd(s, lo, hi - 1)
  }

  /** A slice of text without spaces has no spaces in its front part either. */
  lemma NoSpaceWithin(s: string, a: nat, b: nat, c: nat)
    requires a <= b <= c <= |s| && NoSpace(s[a..c])
    ensures NoSpace(s[a..b])
  {
    var whole := s[a..c];
    forall k | 0 <= k < b - a ensures s[a..b][k] != ' ' {
      assert s[a..b][k] == whole[k];
    }
  }

  /** A drive match starting at `i` stays inside the run of non-spaces after `X:\`. */
  lemma DriveEndBound(s: string, i: nat, e: int)
    requires DriveAt(s, i, e)
    ensures e <= NextSpace(s, i + 3)
  {
  }

  /**
   * The leftmost drive match starting at or after `i`, as (start, end); for
   * that start the end is the largest possible, as greedy `[^ ]+` backtracks
   * from the end of the run of non-spaces.
   */
  function DriveSpan(s: string, i: nat): (r: Option<(nat, nat)>)
    requires i <= |s|
    ensures r.Some? ==> i <= r.value.0 && DriveAt(s, r.value.0, r.value.1)
    ensures r.Some? ==> forall e :: DriveAt(s, r.value.0, e) ==> e <= r.value.1
    ensures r.Some? ==> forall b, e :: i <= b < r.value.0 ==> !DriveAt(s, b, e)
    ensures r.None? ==> forall b, e :: i <= b ==> !DriveAt(s, b, e)
    decreases |s| - i
  {
    if |s| < i + 8 then None
    else
      var run := NextSpace(s, i + 3);
      var last := LastExeEnd(s, i + 8, run);
      if IsAsciiLetter(s[i]) && s[i + 1] == ':' && s[i + 2] == '\\' && last.Some? then
        NoSpaceWithin(s, i + 3, last.value, run);
        assert forall e :: DriveAt(s, i, e) ==> e <= last.value by {
          forall e | DriveAt(s, i, e) ensures e <= last.value {
            DriveEndBound(s, i, e);
          }
        }
        Some((i, last.value))
      else
        var rest := DriveSpan(s, i + 1);
        assert forall e :: !DriveAt(s, i, e) by {
          forall e | DriveAt(s, i, e) ensures false {
            DriveEndBound(s, i, e);
          }
        }
        rest
  }

  /**
   * The path the uninstall command names, if any: the text of the leftmost
   * quoted match, otherwise the leftmost drive match, otherwise nothing (also
   * for an empty command, which the source does not search). ExtractSpec
   * states this against QuotedAt and DriveAt.
   */
  function ExtractExePath(u: string): Option<string> {
    if u == "" then None
    else
      match QuotedSpan(u, 0)
      case Some((b, e)) => Some(u[b + 1..e])
      case None =>
        match DriveSpan(u, 0)
        case Some((b, e)) => Some(u[b..e])
        case None => None
  }

  /** ExtractExePath returns the regular expressions' matches, in the order the source tries them. */
  lemma ExtractSpec(u: string)
    // the quoted form wins whenever it matches anywhere
    ensures (exists b, e :: QuotedAt(u, b, e)) ==>
              exists b, e :: QuotedAt(u, b, e) && ExtractExePath(u) == Some(u[b + 1..e])
                             && forall b', e' :: b' < b ==> !QuotedAt(u, b', e')
    // otherwise the leftmost, longest drive path
    ensures (forall b, e :: !QuotedAt(u, b, e)) && (exists b, e :: DriveAt(u, b, e)) ==>
              exists b, e :: DriveAt(u, b, e) && ExtractExePath(u) == Some(u[b..e])
                             && (forall b', e' :: b' < b ==> !DriveAt(u, b', e'))
                             && (forall e' :: DriveAt(u, b, e') ==> e' <= e)
    // and nothing when neither pattern matches
    ensures ExtractExePath(u).None? <==> (forall b, e :: !QuotedAt(u, b, e)) && (forall b, e :: !DriveAt(u, b, e))
  {
  }

  lemma QuotedShape(u: string, b: nat, e: nat)
    requires QuotedAt(u, b, e)
    ensures var p := u[b + 1..e]; |p| >= 5 && EndsExe(p, |p|) && NoQuote(p)
  {
    var p := u[b + 1..e];
    assert p[|p| - 4..] == u[e - 4..e];
  }

  lemma DriveShape(u: string, b: nat, e: nat)
    requires DriveAt(u, b, e)
    ensures var p := u[b..e];
            |p| >= 8 && IsAsciiLetter(p[0]) && p[1] == ':' && p[2] == '\\'
            && NoSpace(p) && EndsExe(p, |p|)
  {
    var p := u[b..e];
    assert p[|p| - 4..] == u[e - 4..e];
    assert p[3..] == u[b + 3..e];
    forall k | 0 <= k < |p| ensures p[k] != ' ' {
      if k >= 3 {
        assert p[k] == p[3..][k - 3];
      }
    }
  }

  /**
   * What an extracted path looks like: it always ends in `.exe` after at
   * least one other character; a quoted one holds no `"`, and a drive one
   * starts with `X:\` and holds no space.
   */
  lemma ExtractShape(u: string)
    requires ExtractExePath(u).Some?
    ensures var p := ExtractExePath(u).value;
            |p| >= 5 && EndsExe(p, |p|)
            && (QuotedSpan(u, 0).Some? ==> NoQuote(p))
            && (QuotedSpan(u, 0).None? ==>
                  |p| >= 8 && IsAsciiLetter(p[0]) && p[1] == ':' && p[2] == '\\' && NoSpace(p))
  {
    match QuotedSpan(u, 0)
    case Some((b, e)) =>
      QuotedShape(u, b, e);
    case None =>
      var (b, e) := DriveSpan(u, 0).value;
      DriveShape(u, b, e);
  }

  /** A command in which `.exe` never occurs names no path. */
  lemma NoExeNoPath(u: string)
    requires forall e :: !EndsExe(u, e)
    ensures ExtractExePath(u).None?
  {
  }

  /** A command that opens with a quoted `.exe` path yields exactly that path, whatever follows. */
  lemma LeadingQuotedPath(p: string, rest: string)
    requires |p| >= 5 && EndsExe(p, |p|) && NoQuote(p)
    ensures ExtractExePath("\"" + p + "\"" + rest) == Some(p)
  {
    var u := "\"" + p + "\"" + rest;
    var e := |p| + 1;
    assert u[1..e] == p;
    assert u[e - 4..e] == p[|p| - 4..];
    assert QuotedAt(u, 0, e);
    var (b, e') := QuotedSpan(u, 0).value;
    QuotedEnd(u, 0, e);
    QuotedEnd(u, 0, e');
  }

  /**
   * A command with no quote that opens with a drive path ending in `.exe`,
   * followed by nothing or by a space, yields that path.
   */
  lemma LeadingDrivePath(p: string, rest: string)
    requires |p| >= 8 && IsAsciiLetter(p[0]) && p[1] == ':' && p[2] == '\\'
    requires NoSpace(p) && EndsExe(p, |p|)
    requires NoQuote(p + rest)
    requires rest == [] || rest[0] == ' '
    ensures ExtractExePath(p + rest) == Some(p)
  {
    var u := p + rest;
    assert u[..|p|] == p;
    assert u[3..|p|] == p[3..];
    assert u[|p| - 4..|p|] == p[|p| - 4..];
    assert DriveAt(u, 0, |p|);
    var (b, e) := DriveSpan(u, 0).value;
    DriveEndBound(u, 0, e);
  }

  /** The quoted form, with spaces inside the path. */
  lemma QuotedProgramFiles()
    ensures ExtractExePath("\"C:\\Program Files\\App\\unins000.exe\" /S") == Some("C:\\Program Files\\App\\unins000.exe")
  {
    var u := "\"C:\\Program Files\\App\\unins000.exe\" /S";
    var p := "C:\\Program Files\\App\\unins000.exe";
    assert '"' !in p;
    assert p[29..33] == ".exe";
    assert u == "\"" + p + "\"" + " /S";
    LeadingQuotedPath(p, " /S");
  }

  /** The drive form, cut at the first space. */
  lemma UnquotedToolsPath()
    ensures ExtractExePath("C:\\Tools\\setup.exe /quiet") == Some("C:\\Tools\\setup.exe")
  {
    var u := "C:\\Tools\\setup.exe /quiet";
    var p := "C:\\Tools\\setup.exe";
    assert ' ' !in p;
    assert '"' !in p + " /quiet";
    assert p[|p| - 4..] == ".exe";
    assert u == p + " /quiet";
    LeadingDrivePath(p, " /quiet");
  }
}
