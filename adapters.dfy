/**
 * The two sources of records: the registry's Uninstall keys
 * (`read_uninstall_key`) and the Store package list (`get_store_apps_via_powershell`).
 * Registry enumeration and the PowerShell call are replaced by the values
 * they produce.
 */
module Adapters {
  import opened Wrappers
  import opened Apps
  import InstallDate
  import FileTimes

  /**
   * The values of one Uninstall subkey that `QueryValueEx` can read, by value
   * name; a name that is absent is one for which it raises FileNotFoundError.
   */
  type Values = map<string, string>

  /**
   * One enumerated subkey: its values, or None when opening or reading it
   * raised another OSError, which makes the source skip it.
   */
  type Entry = Option<Values>

  /** An Uninstall key: the subkeys in enumeration order, or None when the key does not exist. */
  type UninstallKey = Option<seq<Entry>>

  /** `rv(name)`: the value, or None when the subkey has no such value. */
  function Lookup(v: Values, name: string): (r: Option<string>)
    ensures r.Some? <==> name in v
  {
    if name in v then Some(v[name]) else None
  }

  /** Python truthiness of an optional string. */
  predicate Truthy(o: Option<string>) {
    o.Some? && o.value != ""
  }

  /**
   * The record built from one subkey: none when `DisplayName` is absent or
   * empty; otherwise the display name, the other values or "" when absent,
   * the normalised install date, the Registry tag, and the inferred time.
   */
  function RegistryRecord(host: FileTimes.Host, v: Values): (r: Option<App>)
    ensures r.Some? <==> Truthy(Lookup(v, "DisplayName"))
    ensures r.Some? ==> r.value.Name == Lookup(v, "DisplayName") && r.value.Source == Registry
    ensures r.Some? ==> r.value.InstallDate == InstallDate.ParseInstallDate(Lookup(v, "InstallDate"))
    ensures r.Some? ==> r.value.Version == Lookup(v, "DisplayVersion").GetOr("")
                        && r.value.Publisher == Lookup(v, "Publisher").GetOr("")
                        && r.value.InstallLocation == Lookup(v, "InstallLocation").GetOr("")
                        && r.value.UninstallString == Lookup(v, "UninstallString").GetOr("")
    ensures r.Some? ==> ("DisplayVersion" !in v ==> r.value.Version == "")
                        && ("Publisher" !in v ==> r.value.Publisher == "")
                        && ("InstallLocation" !in v ==> r.value.InstallLocation == "")
                        && ("UninstallString" !in v ==> r.value.UninstallString == "")
    ensures r.Some? ==> r.value.LastModified
                        == FileTimes.LastModifiedOf(host, r.value.InstallLocation, r.value.UninstallString)
  {
    var name := Lookup(v, "DisplayName");
    if !Truthy(name) then None
    else
      var loc := Lookup(v, "InstallLocation").GetOr("");
      var uninst := Lookup(v, "UninstallString").GetOr("");
      Some(App(
        Name := name,
        Version := Lookup(v, "DisplayVersion").GetOr(""),
        InstallDate := InstallDate.ParseInstallDate(Lookup(v, "InstallDate")),
        Publisher := Lookup(v, "Publisher").GetOr(""),
        InstallLocation := loc,
        UninstallString := uninst,
        Source := Registry,
        LastModified := FileTimes.LastModifiedOf(host, loc, uninst)))
  }

  /** The records of a key's subkeys, in enumeration order. */
  function RegistryRecords(host: FileTimes.Host, entries: seq<Entry>): (r: seq<App>)
    ensures |r| <= |entries|
    ensures forall a :: a in r ==> a.Source == Registry && a.Name.Some? && a.Name.value != ""
  {
    if entries == [] then []
    else
      var prev := RegistryRecords(host, entries[..|entries| - 1]);
      match entries[|entries| - 1]
      case None => prev
      case Some(v) =>
        match RegistryRecord(host, v)
        case None => prev
        case Some(a) => prev + [a]
  }

  /** Whether a subkey yields a record: it could be read and has a display name. */
  predicate Gives(host: FileTimes.Host, e: Entry) {
    e.Some? && RegistryRecord(host, e.value).Some?
  }

  /** The number of subkeys that yield a record. */
  function Giving(host: FileTimes.Host, entries: seq<Entry>): nat {
    if entries == [] then 0
    else Giving(host, entries[..|entries| - 1]) + (if Gives(host, entries[|entries| - 1]) then 1 else 0)
  }

  /** The record a subkey that yields one gives. */
  function RecordOf(host: FileTimes.Host, e: Entry): App
    requires Gives(host, e)
  {
    RegistryRecord(host, e.value).value
  }

  /** One more subkey adds its record at the end, if it yields one. */
  lemma RegistryRecordsSnoc(host: FileTimes.Host, entries: seq<Entry>)
    requires entries != []
    ensures var n := |entries| - 1;
            RegistryRecords(host, entries)
            == RegistryRecords(host, entries[..n]) + (if Gives(host, entries[n]) then [RecordOf(host, entries[n])] else [])
  {
  }

  /** One record per subkey that yields one. */
  lemma {:induction false} RegistryRecordsCount(host: FileTimes.Host, entries: seq<Entry>)
    ensures |RegistryRecords(host, entries)| == Giving(host, entries)
  {
    if entries != [] {
      RegistryRecordsCount(host, entries[..|entries| - 1]);
      RegistryRecordsSnoc(host, entries);
    }
  }

  /** Where the record of subkey `i` sits: after those of the earlier subkeys that yield one. */
  lemma {:induction false} RegistryRecordAt(host: FileTimes.Host, entries: seq<Entry>, i: nat)
    requires i < |entries| && Gives(host, entries[i])
    ensures Giving(host, entries[..i]) < |RegistryRecords(host, entries)|
    ensures RegistryRecords(host, entries)[Giving(host, entries[..i])] == RecordOf(host, entries[i])
  {
    var n := |entries| - 1;
    var pre := entries[..n];
    RegistryRecordsSnoc(host, entries);
    if i < n {
      assert pre[i] == entries[i] && pre[..i] == entries[..i];
      RegistryRecordAt(host, pre, i);
    } else {
      RegistryRecordsCount(host, pre);
    }
  }

  /**
   * The record of subkey i comes right after those of the earlier subkeys
   * that yield one: the records are in enumeration order.
   */
  lemma RegistryRecordsAt(host: FileTimes.Host, entries: seq<Entry>)
    ensures forall i :: 0 <= i < |entries| && Gives(host, entries[i]) ==>
              Giving(host, entries[..i]) < |RegistryRecords(host, entries)|
              && RegistryRecords(host, entries)[Giving(host, entries[..i])] == RecordOf(host, entries[i])
  {
    forall i | 0 <= i < |entries| && Gives(host, entries[i])
      ensures Giving(host, entries[..i]) < |RegistryRecords(host, entries)|
              && RegistryRecords(host, entries)[Giving(host, entries[..i])] == RecordOf(host, entries[i])
    {
      RegistryRecordAt(host, entries, i);
    }
  }

  /** Some subkey of `entries` yields the record `a`. */
  ghost predicate Yielded(host: FileTimes.Host, entries: seq<Entry>, a: App) {
    exists i :: 0 <= i < |entries| && Gives(host, entries[i]) && a == RecordOf(host, entries[i])
  }

  /** Every record in the list is the record of some subkey that yields one. */
  lemma {:induction false} RegistryRecordsFrom(host: FileTimes.Host, entries: seq<Entry>)
    ensures forall p :: 0 <= p < |RegistryRecords(host, entries)| ==> Yielded(host, entries, RegistryRecords(host, entries)[p])
  {
    if entries != [] {
      var n := |entries| - 1;
      var pre := entries[..n];
      RegistryRecordsFrom(host, pre);
      RegistryRecordsSnoc(host, entries);
      var prev, r := RegistryRecords(host, pre), RegistryRecords(host, entries);
      forall p | 0 <= p < |r| ensures Yielded(host, entries, r[p]) {
        if p < |prev| {
          assert r[p] == prev[p];
          assert Yielded(host, pre, prev[p]);
          var i :| 0 <= i < |pre| && Gives(host, pre[i]) && prev[p] == RecordOf(host, pre[i]);
          assert entries[i] == pre[i];
        } else {
          assert r[p] == RecordOf(host, entries[n]);
        }
      }
    }
  }

  /** A record is in the list exactly when some subkey yields it. */
  lemma RegistryRecordsMembers(host: FileTimes.Host, entries: seq<Entry>)
    ensures forall a :: a in RegistryRecords(host, entries) <==> Yielded(host, entries, a)
  {
    var r := RegistryRecords(host, entries);
    RegistryRecordsFrom(host, entries);
    RegistryRecordsAt(host, entries);
    forall a | Yielded(host, entries, a) ensures a in r {
      var i :| 0 <= i < |entries| && Gives(host, entries[i]) && a == RecordOf(host, entries[i]);
      assert r[Giving(host, entries[..i])] == a;
    }
  }

  /** What `read_uninstall_key` returns for a key: nothing when the key is missing. */
  function KeyRecords(host: FileTimes.Host, key: UninstallKey): seq<App> {
    match key
    case None => []
    case Some(entries) => RegistryRecords(host, entries)
  }

  /** The source's loop over the subkeys, appending one record per subkey with a display name. */
  method ReadUninstallKey(host: FileTimes.Host, key: UninstallKey) returns (apps: seq<App>)
    ensures apps == KeyRecords(host, key)
  {
    apps := [];
    if key.None? {
      return;
    }
    var entries := key.value;
    for i := 0 to |entries|
      invariant apps == RegistryRecords(host, entries[..i])
    {
      assert entries[..i + 1][..i] == entries[..i];
      match entries[i]
      case None =>
      case Some(v) =>
        var name := Lookup(v, "DisplayName");
        if Truthy(name) {
          var loc := Lookup(v, "InstallLocation").GetOr("");
          var uninst := Lookup(v, "UninstallString").GetOr("");
          var lastModified := FileTimes.GuessLastModified(host, loc, uninst);
          var app := App(
            Name := name,
            Version := Lookup(v, "DisplayVersion").GetOr(""),
            InstallDate := InstallDate.ParseInstallDate(Lookup(v, "InstallDate")),
            Publisher := Lookup(v, "Publisher").GetOr(""),
            InstallLocation := loc,
            UninstallString := uninst,
            Source := Registry,
            LastModified := lastModified);
          apps := apps + [app];
        }
    }
    assert entries[..|entries|] == entries;
  }

  /**
   * One object of the PowerShell JSON, by key; a key that is missing or null
   * is absent.
   */
  type StoreItem = map<string, string>

  /**
   * The outcome of the PowerShell query once parsed: Unavailable for a failed
   * or empty run, unparsable output, or JSON that is neither an object nor a
   * list; Single for one object; Items for a list, where None is an element
   * that is not an object.
   */
  datatype StoreQuery = Unavailable | Single(item: StoreItem) | Items(items: seq<Option<StoreItem>>)

  /** `item.get("Name") or item.get("PackageFullName")`. */
  function StoreName(item: StoreItem): (r: Option<string>)
    ensures r.None? <==> !Truthy(Lookup(item, "Name")) && "PackageFullName" !in item
    ensures Truthy(Lookup(item, "Name")) ==> r == Some(item["Name"])
    ensures !Truthy(Lookup(item, "Name")) ==> r == Lookup(item, "PackageFullName")
  {
    if Truthy(Lookup(item, "Name")) then Lookup(item, "Name") else Lookup(item, "PackageFullName")
  }

  /**
   * The record of one Store package: no version, date, publisher or
   * uninstall command, the StoreApp tag, and the time inferred from the
   * install folder alone.
   */
  function StoreRecord(host: FileTimes.Host, item: StoreItem): (r: App)
    ensures r.Source == StoreApp && r.Name == StoreName(item)
    ensures r.Version == "" && r.InstallDate == "" && r.Publisher == "" && r.UninstallString == ""
    ensures r.InstallLocation == Lookup(item, "InstallLocation").GetOr("")
    ensures r.LastModified == FileTimes.LastModifiedOf(host, r.InstallLocation, "")
  {
    var loc := Lookup(item, "InstallLocation").GetOr("");
    App(
      Name := StoreName(item),
      Version := "",
      InstallDate := "",
      Publisher := "",
      InstallLocation := loc,
      UninstallString := "",
      Source := StoreApp,
      LastModified := FileTimes.LastModifiedOf(host, loc, ""))
  }

  /** The query's objects, a single object becoming a one-element list. */
  function StoreList(q: StoreQuery): seq<Option<StoreItem>> {
    match q
    case Unavailable => []
    case Single(item) => [Some(item)]
    case Items(items) => items
  }

  /** Every element of the query's list is a JSON object. */
  predicate AllObjects(items: seq<Option<StoreItem>>) {
    forall k :: 0 <= k < |items| ==> items[k].Some?
  }

  /**
   * What the Store adapter returns: one record per object, in order, unless
   * some element is not an object; that raises inside the broad `except`,
   * which then returns nothing at all.
   */
  function StoreRecords(host: FileTimes.Host, q: StoreQuery): (r: seq<App>)
    ensures !AllObjects(StoreList(q)) ==> r == []
    ensures AllObjects(StoreList(q)) ==>
              |r| == |StoreList(q)|
              && forall k :: 0 <= k < |r| ==> r[k] == StoreRecord(host, StoreList(q)[k].value)
  {
    var items := StoreList(q);
    if !AllObjects(items) then []
    else seq(|items|, k requires 0 <= k < |items| => StoreRecord(host, items[k].value))
  }

  /** A single JSON object is read as a list of that one object. */
  lemma StoreSingle(host: FileTimes.Host, item: StoreItem)
    ensures StoreRecords(host, Single(item)) == [StoreRecord(host, item)]
  {
  }

  /** No usable PowerShell output gives no Store records. */
  lemma StoreUnavailable(host: FileTimes.Host)
    ensures StoreRecords(host, Unavailable) == []
  {
  }

  /** The body of the source's loop: the record of one JSON object. */
  method BuildStoreRecord(host: FileTimes.Host, item: StoreItem) returns (app: App)
    ensures app == StoreRecord(host, item)
  {
    var loc := Lookup(item, "InstallLocation").GetOr("");
    var lastModified := FileTimes.GuessLastModified(host, loc, "");
    app := App(
      Name := StoreName(item),
      Version := "",
      InstallDate := "",
      Publisher := "",
      InstallLocation := loc,
      UninstallString := "",
      Source := StoreApp,
      LastModified := lastModified);
  }

  /** `apps` holds the records of the first |apps| elements, each of them an object. */
  ghost predicate RecordsSoFar(host: FileTimes.Host, items: seq<Option<StoreItem>>, apps: seq<App>) {
    |apps| <= |items|
    && forall k :: 0 <= k < |apps| ==> items[k].Some? && apps[k] == StoreRecord(host, items[k].value)
  }

  /** The record of the next object extends the records so far. */
  lemma RecordsSoFarNext(host: FileTimes.Host, items: seq<Option<StoreItem>>, apps: seq<App>, app: App)
    requires RecordsSoFar(host, items, apps) && |apps| < |items| && items[|apps|].Some?
    requires app == StoreRecord(host, items[|apps|].value)
    ensures RecordsSoFar(host, items, apps + [app])
  {
  }

  /** The source's loop over the JSON objects. */
  method GetStoreApps(host: FileTimes.Host, q: StoreQuery) returns (apps: seq<App>)
    ensures apps == StoreRecords(host, q)
  {
    var items := StoreList(q);
    apps := [];
    for i := 0 to |items|
      invariant |apps| == i && RecordsSoFar(host, items, apps)
    {
      if items[i].None? {
        StoreRecordsNotAll(host, q, i);
        return [];
      }
      var app := BuildStoreRecord(host, items[i].value);
      RecordsSoFarNext(host, items, apps, app);
      apps := apps + [app];
    }
    StoreRecordsAll(host, q, apps);
  }

  /** An element that is not an object empties the whole result. */
  lemma StoreRecordsNotAll(host: FileTimes.Host, q: StoreQuery, i: nat)
    requires i < |StoreList(q)| && StoreList(q)[i].None?
    ensures StoreRecords(host, q) == []
  {
  }

  /** A list holding the record of each object, in order, is the Store result. */
  lemma StoreRecordsAll(host: FileTimes.Host, q: StoreQuery, apps: seq<App>)
    requires |apps| == |StoreList(q)| && RecordsSoFar(host, StoreList(q), apps)
    ensures apps == StoreRecords(host, q)
  {
  }
}
