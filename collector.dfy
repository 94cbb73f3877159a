/**
 * `main`: gather the records of the three Uninstall keys and the Store, in
 * that order, reconcile them, write the CSV and HTML reports, and log each
 * write (and the optional screenshot) to the evidence log.
 */
module Collector {
  import opened Wrappers
  import opened Text
  import opened Apps
  import FileTimes
  import Adapters
  import Dedupe
  import Reports
  import Evidence

  const CsvPath: string := "evidence\\installed_apps.csv"
  const HtmlPath: string := "evidence\\installed_apps.html"

  /**
   * The records `main` gathers, in the order that decides ties: the machine
   * Uninstall key, its WOW6432Node twin, the user's Uninstall key, then the
   * Store packages.
   */
  function Collected(host: FileTimes.Host, hklm: Adapters.UninstallKey, wow: Adapters.UninstallKey,
                     hkcu: Adapters.UninstallKey, store: Adapters.StoreQuery): seq<App> {
    Adapters.KeyRecords(host, hklm) + Adapters.KeyRecords(host, wow) + Adapters.KeyRecords(host, hkcu)
    + Adapters.StoreRecords(host, store)
  }

  /** The source's sequence of `apps +=` statements. */
  method CollectApps(host: FileTimes.Host, hklm: Adapters.UninstallKey, wow: Adapters.UninstallKey,
                     hkcu: Adapters.UninstallKey, store: Adapters.StoreQuery) returns (apps: seq<App>)
    ensures apps == Collected(host, hklm, wow, hkcu, store)
  {
    var machine := Adapters.ReadUninstallKey(host, hklm);
    var wow64 := Adapters.ReadUninstallKey(host, wow);
    var user := Adapters.ReadUninstallKey(host, hkcu);
    var storeApps := Adapters.GetStoreApps(host, store);
    apps := machine + wow64 + user + storeApps;
  }

  /** Every Registry record comes before every Store record. */
  predicate RegistryFirst(s: seq<App>) {
    forall i, j :: 0 <= i < j < |s| ==> !(s[i].Source == StoreApp && s[j].Source == Registry)
  }

  /** Records as the registry adapter builds them: tagged Registry, and named. */
  predicate RegistryPart(s: seq<App>) {
    forall i :: 0 <= i < |s| ==> s[i].Source == Registry && s[i].Name.Some?
  }

  /** Records as the Store adapter builds them: tagged StoreApp, with no version and no install date. */
  predicate StorePart(s: seq<App>) {
    forall i :: 0 <= i < |s| ==> s[i].Source == StoreApp && s[i].Version == "" && s[i].InstallDate == ""
  }

  lemma RegistryPartConcat(a: seq<App>, b: seq<App>)
    requires RegistryPart(a) && RegistryPart(b)
    ensures RegistryPart(a + b)
  {
    assert forall i :: 0 <= i < |a + b| ==> (a + b)[i] == if i < |a| then a[i] else b[i - |a|];
  }

  lemma {:induction false} KeyRecordsRegistry(host: FileTimes.Host, key: Adapters.UninstallKey)
    ensures RegistryPart(Adapters.KeyRecords(host, key))
  {
    var r := Adapters.KeyRecords(host, key);
    forall i | 0 <= i < |r| ensures r[i].Source == Registry && r[i].Name.Some? {
      assert r[i] in r;
    }
  }

  lemma StoreRecordsStore(host: FileTimes.Host, store: Adapters.StoreQuery)
    ensures StorePart(Adapters.StoreRecords(host, store))
  {
  }

  /** Only a Store record can lack a name. */
  predicate UnnamedOnlyStore(s: seq<App>) {
    forall i :: 0 <= i < |s| ==> s[i].Source == StoreApp || s[i].Name.Some?
  }

  /** Every Store record scores at most 2. */
  predicate StoreScoresLow(s: seq<App>) {
    forall i :: 0 <= i < |s| ==> s[i].Source == StoreApp ==> Dedupe.Score(s[i]) <= 2
  }

  /**
   * The gathered records: Registry ones first, then Store ones; only a Store
   * record can lack a name, and a Store record scores at most 2, as it has
   * no version and no install date.
   */
  lemma CollectedShape(host: FileTimes.Host, hklm: Adapters.UninstallKey, wow: Adapters.UninstallKey,
                       hkcu: Adapters.UninstallKey, store: Adapters.StoreQuery)
    ensures RegistryFirst(Collected(host, hklm, wow, hkcu, store))
    ensures UnnamedOnlyStore(Collected(host, hklm, wow, hkcu, store))
    ensures StoreScoresLow(Collected(host, hklm, wow, hkcu, store))
  {
    var a, b, d := Adapters.KeyRecords(host, hklm), Adapters.KeyRecords(host, wow), Adapters.KeyRecords(host, hkcu);
    var st := Adapters.StoreRecords(host, store);
    KeyRecordsRegistry(host, hklm);
    KeyRecordsRegistry(host, wow);
    KeyRecordsRegistry(host, hkcu);
    RegistryPartConcat(a, b);
    RegistryPartConcat(a + b, d);
    StoreRecordsStore(host, store);
    assert Collected(host, hklm, wow, hkcu, store) == (a + b + d) + st;
    PartsOrdered(a + b + d, st);
    PartsNamed(a + b + d, st);
    PartsScores(a + b + d, st);
  }

  /** Registry records followed by Store records keep every Registry record first. */
  lemma PartsOrdered(reg: seq<App>, st: seq<App>)
    requires RegistryPart(reg) && StorePart(st)
    ensures RegistryFirst(reg + st)
  {
    assert forall i :: 0 <= i < |reg + st| ==> (reg + st)[i] == if i < |reg| then reg[i] else st[i - |reg|];
  }

  /** Registry records followed by Store records: only the Store ones can be unnamed. */
  lemma PartsNamed(reg: seq<App>, st: seq<App>)
    requires RegistryPart(reg) && StorePart(st)
    ensures UnnamedOnlyStore(reg + st)
  {
    assert forall i :: 0 <= i < |reg + st| ==> (reg + st)[i] == if i < |reg| then reg[i] else st[i - |reg|];
  }

  /** Registry records followed by Store records: the Store ones score at most 2. */
  lemma PartsScores(reg: seq<App>, st: seq<App>)
    requires RegistryPart(reg) && StorePart(st)
    ensures StoreScoresLow(reg + st)
  {
    assert forall i :: 0 <= i < |reg + st| ==> (reg + st)[i] == if i < |reg| then reg[i] else st[i - |reg|];
  }

  /**
   * When the record kept for a name is a Store record, every Registry record
   * with that name scores strictly lower: on equal scores the Registry record,
   * read first, wins.
   */
  lemma StoreKeptOnlyIfBetter(s: seq<App>)
    requires Dedupe.Named(s) && RegistryFirst(s)
    ensures forall p, i :: 0 <= p < |Dedupe.Reconcile(s)| && 0 <= i < |s|
              && Dedupe.Reconcile(s)[p].Source == StoreApp && s[i].Source == Registry
              && Dedupe.Key(s[i]) == Dedupe.Key(Dedupe.Reconcile(s)[p])
              ==> Dedupe.Score(s[i]) < Dedupe.Score(Dedupe.Reconcile(s)[p])
  {
    var r := Dedupe.Reconcile(s);
    Dedupe.ReconcileSelects(s);
    forall p, i | 0 <= p < |r| && 0 <= i < |s| && r[p].Source == StoreApp && s[i].Source == Registry
                  && Dedupe.Key(s[i]) == Dedupe.Key(r[p])
      ensures Dedupe.Score(s[i]) < Dedupe.Score(r[p])
    {
      var j :| Dedupe.EarliestMax(s, Dedupe.Key(r[p]), j) && r[p] == s[j];
      assert i < j;
    }
  }

  /** A Registry record with at least two of the scored fields filled keeps a Store record of its name out. */
  lemma RegistryBeatsStore(host: FileTimes.Host, hklm: Adapters.UninstallKey, wow: Adapters.UninstallKey,
                           hkcu: Adapters.UninstallKey, store: Adapters.StoreQuery)
    requires Dedupe.Named(Collected(host, hklm, wow, hkcu, store))
    ensures var c := Collected(host, hklm, wow, hkcu, store);
            forall p, i :: 0 <= p < |Dedupe.Reconcile(c)| && 0 <= i < |c|
              && c[i].Source == Registry && Dedupe.Score(c[i]) >= 2
              && Dedupe.Key(c[i]) == Dedupe.Key(Dedupe.Reconcile(c)[p])
              ==> Dedupe.Reconcile(c)[p].Source == Registry
  {
    var c := Collected(host, hklm, wow, hkcu, store);
    CollectedShape(host, hklm, wow, hkcu, store);
    StoreKeptOnlyIfBetter(c);
    Dedupe.ReconcileSelects(c);
    var r := Dedupe.Reconcile(c);
    forall p | 0 <= p < |r| && r[p].Source == StoreApp ensures Dedupe.Score(r[p]) <= 2 {
      var j :| Dedupe.EarliestMax(c, Dedupe.Key(r[p]), j) && r[p] == c[j];
    }
  }

  /** Whether a screenshot was asked for, and how it went. */
  datatype Screenshot = NotRequested | Saved(path: string) | Failed(path: string, error: string)

  /** The readings of `timestamp_now()`, in the order `main` makes them. */
  datatype Clock = Clock(csvLogged: string, htmlCollected: string, htmlLogged: string, shotLogged: string)

  /** What `main` writes: the CSV rows and the HTML page. */
  datatype Outputs = Outputs(csv: seq<seq<string>>, html: string)

  /** The log row for the screenshot, if one was asked for. */
  function ShotRows(clock: Clock, shot: Screenshot): (r: seq<Evidence.Row>)
    ensures |r| == if shot.NotRequested? then 0 else 1
    ensures forall k :: 0 <= k < |r| ==> |r[k]| == |Evidence.LogHeader|
    ensures shot.Saved? ==> r[0][1..] == ["screenshot", shot.path, ""]
    ensures shot.Failed? ==> r[0][1..] == ["screenshot_failed", shot.path, shot.error]
    ensures forall k :: 0 <= k < |r| ==> r[k][0] == clock.shotLogged
  {
    match shot
    case NotRequested => []
    case Saved(path) => [Evidence.LogRow(clock.shotLogged, "screenshot", path, "")]
    case Failed(path, error) => [Evidence.LogRow(clock.shotLogged, "screenshot_failed", path, error)]
  }

  /** The log row for the CSV, whose note gives the number of data rows. */
  function CsvLogRow(count: nat, clock: Clock): Evidence.Row {
    Evidence.LogRow(clock.csvLogged, "write_csv", CsvPath, NatToString(count) + " rows")
  }

  /** The count in the CSV's log note is the number of data rows the CSV holds. */
  lemma CsvNoteCountsRows(apps: seq<App>, clock: Clock)
    ensures var note := CsvLogRow(|apps|, clock)[3];
            |note| > 5 && note[|note| - 5..] == " rows"
            && (forall k :: 0 <= k < |note| - 5 ==> IsDigit(note[k]))
            && DigitsValue(note[..|note| - 5]) == |Reports.CsvTable(apps)| - 1
  {
    var digits := NatToString(|apps|);
    var note := digits + " rows";
    assert CsvLogRow(|apps|, clock)[3] == note;
    assert note[..|note| - 5] == digits;
    Reports.CsvTableShape(apps);
  }

  function HtmlLogRow(clock: Clock): Evidence.Row {
    Evidence.LogRow(clock.htmlLogged, "write_html", HtmlPath, "")
  }

  /** The log rows one run appends, in order: the CSV with its row count, the HTML page, the screenshot. */
  function RunLogRows(count: nat, clock: Clock, shot: Screenshot): (r: seq<Evidence.Row>)
    ensures |r| == if shot.NotRequested? then 2 else 3
  {
    [CsvLogRow(count, clock), HtmlLogRow(clock)] + ShotRows(clock, shot)
  }

  /** The `--screenshot` branch: log the saved file, or the failure with its message. */
  method LogScreenshot(clock: Clock, shot: Screenshot, log: Evidence.EvidenceLog)
    modifies log
    ensures log.file == Evidence.AppendAll(old(log.file), ShotRows(clock, shot))
  {
    match shot {
      case NotRequested =>
      case Saved(path) =>
        log.Append(clock.shotLogged, "screenshot", path, "");
        Evidence.AppendAllSnoc(old(log.file), [], Evidence.LogRow(clock.shotLogged, "screenshot", path, ""));
      case Failed(path, error) =>
        log.Append(clock.shotLogged, "screenshot_failed", path, error);
        Evidence.AppendAllSnoc(old(log.file), [], Evidence.LogRow(clock.shotLogged, "screenshot_failed", path, error));
    }
  }

  /** Write the CSV report, then log it with its number of data rows. */
  method PublishCsv(apps: seq<App>, clock: Clock, log: Evidence.EvidenceLog) returns (csv: seq<seq<string>>)
    modifies log
    ensures csv == Reports.CsvTable(apps)
    ensures log.file == Evidence.AppendAll(old(log.file), [CsvLogRow(|apps|, clock)])
  {
    csv := Reports.WriteCsv(apps);
    log.Append(clock.csvLogged, "write_csv", CsvPath, NatToString(|apps|) + " rows");
    Evidence.AppendAllSnoc(old(log.file), [], CsvLogRow(|apps|, clock));
  }

  /** Write the HTML report, then log it. */
  method PublishHtml(apps: seq<App>, clock: Clock, log: Evidence.EvidenceLog) returns (html: string)
    modifies log
    ensures html == Reports.HtmlDocument(apps, clock.htmlCollected)
    ensures log.file == Evidence.AppendAll(old(log.file), [HtmlLogRow(clock)])
  {
    html := Reports.WriteHtml(apps, clock.htmlCollected);
    log.Append(clock.htmlLogged, "write_html", HtmlPath, "");
    Evidence.AppendAllSnoc(old(log.file), [], HtmlLogRow(clock));
  }

  /**
   * The second half of `main`: write the CSV and log it with its row count,
   * write the HTML page and log it, then log the screenshot's outcome.
   */
  method Publish(apps: seq<App>, clock: Clock, shot: Screenshot, log: Evidence.EvidenceLog)
    returns (out: Outputs)
    modifies log
    ensures out == Outputs(Reports.CsvTable(apps), Reports.HtmlDocument(apps, clock.htmlCollected))
    ensures log.file == Evidence.AppendAll(old(log.file), RunLogRows(|apps|, clock, shot))
  {
    ghost var f0 := log.file;
    ghost var a, b, c := [CsvLogRow(|apps|, clock)], [HtmlLogRow(clock)], ShotRows(clock, shot);
    var csv := PublishCsv(apps, clock, log);
    ghost var f1 := log.file;
    assert f1 == Evidence.AppendAll(f0, a);
    var html := PublishHtml(apps, clock, log);
    ghost var f2 := log.file;
    assert f2 == Evidence.AppendAll(f1, b);
    LogScreenshot(clock, shot, log);
    assert log.file == Evidence.AppendAll(f2, c);
    Evidence.AppendAllConcat(f0, a, b);
    Evidence.AppendAllConcat(f0, a + b, c);
    assert RunLogRows(|apps|, clock, shot) == a + b + c;
    out := Outputs(csv, html);
  }

  /**
   * One run of `main`. When some gathered record has no name, `dedupe_apps`
   * raises before anything is written: no reports and an unchanged log.
   */
  method Run(host: FileTimes.Host, hklm: Adapters.UninstallKey, wow: Adapters.UninstallKey,
             hkcu: Adapters.UninstallKey, store: Adapters.StoreQuery, clock: Clock, shot: Screenshot,
             log: Evidence.EvidenceLog)
    returns (r: Option<Outputs>)
    modifies log
    ensures var c := Collected(host, hklm, wow, hkcu, store);
            !Dedupe.Named(c) ==> r.None? && log.file == old(log.file)
    ensures var c := Collected(host, hklm, wow, hkcu, store);
            Dedupe.Named(c) ==>
              && r == Some(Outputs(Reports.CsvTable(Dedupe.Reconcile(c)),
                                   Reports.HtmlDocument(Dedupe.Reconcile(c), clock.htmlCollected)))
              && log.file == Evidence.AppendAll(old(log.file), RunLogRows(|Dedupe.Reconcile(c)|, clock, shot))
  {
    var apps := CollectApps(host, hklm, wow, hkcu, store);
    if !Dedupe.Named(apps) {
      return None;
    }
    apps := Dedupe.DedupeApps(apps);
    var out := Publish(apps, clock, shot, log);
    r := Some(out);
  }
}
