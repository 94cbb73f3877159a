/**
 * `dedupe_apps`: one record per stripped `Name`, blank names dropped. A
 * record replaces the one kept for its name only when its completeness score
 * is strictly greater, so the earliest record with the highest score wins,
 * and names come out in the order they were first seen (a Python dict keeps
 * a key where it was first inserted). The dict is modelled as the key order
 * plus a map; the result is described independently by FirstSeen (the keys)
 * and KeptAt (the record kept for a key), and the properties are proved
 * about those.
 */
module Dedupe {
  import opened Wrappers
  import opened Text
  import opened Apps

  /** Every record has a name; `a["Name"].strip()` raises on one that has none. */
  predicate Named(s: seq<App>) {
    forall i :: 0 <= i < |s| ==> s[i].Name.Some?
  }

  /** The reconciliation key: the stripped name. */
  function Key(a: App): string
    requires a.Name.Some?
  {
    Strip(a.Name.value)
  }

  /** The number of filled fields among Version, InstallDate, InstallLocation and LastModified. */
  function Score(a: App): (r: nat)
    ensures r <= 4
    ensures r == 0 <==> a.Version == "" && a.InstallDate == "" && a.InstallLocation == "" && a.LastModified == ""
    ensures r == 4 <==> a.Version != "" && a.InstallDate != "" && a.InstallLocation != "" && a.LastModified != ""
  {
    (if a.Version != "" then 1 else 0) + (if a.InstallDate != "" then 1 else 0)
    + (if a.InstallLocation != "" then 1 else 0) + (if a.LastModified != "" then 1 else 0)
  }

  /** The distinct non-blank keys of `s`, in the order of their first occurrence. */
  function FirstSeen(s: seq<App>): seq<string>
    requires Named(s)
  {
    if s == [] then []
    else
      var ks := FirstSeen(s[..|s| - 1]);
      var k := Key(s[|s| - 1]);
      if k == "" || k in ks then ks else ks + [k]
  }

  /** The index of the record kept for key `k` after `s`: the newest one that beat every earlier score. */
  function KeptAt(s: seq<App>, k: string): (r: Option<nat>)
    requires Named(s)
    ensures r.Some? ==> r.value < |s|
  {
    if s == [] then None
    else
      var n := |s| - 1;
      var prev := KeptAt(s[..n], k);
      if Key(s[n]) != k then prev
      else if prev.None? || Score(s[n]) > Score(s[prev.value]) then Some(n)
      else prev
  }

  /** `k` is the key of some record of `s`. */
  ghost predicate Occurs(s: seq<App>, k: string)
    requires Named(s)
  {
    exists i :: 0 <= i < |s| && Key(s[i]) == k
  }

  /**
   * s[i] is the record to keep for key `k`: it has that key, no record with
   * that key scores higher, and every earlier one with that key scores lower.
   */
  ghost predicate EarliestMax(s: seq<App>, k: string, i: int)
    requires Named(s)
  {
    0 <= i < |s| && Key(s[i]) == k
    && (forall j :: 0 <= j < |s| && Key(s[j]) == k ==> Score(s[j]) <= Score(s[i]))
    && (forall j :: 0 <= j < i && Key(s[j]) == k ==> Score(s[j]) < Score(s[i]))
  }

  /** At most one index is the earliest maximum. */
  lemma EarliestMaxUnique(s: seq<App>, k: string, i: int, i': int)
    requires Named(s) && EarliestMax(s, k, i) && EarliestMax(s, k, i')
    ensures i == i'
  {
  }

  /** The keys FirstSeen lists are exactly the non-blank keys of `s`, each once. */
  lemma {:induction false} FirstSeenKeys(s: seq<App>)
    requires Named(s)
    ensures forall p, q :: 0 <= p < q < |FirstSeen(s)| ==> FirstSeen(s)[p] != FirstSeen(s)[q]
    ensures forall k :: k in FirstSeen(s) <==> k != "" && Occurs(s, k)
  {
    if s != [] {
      var n := |s| - 1;
      var s' := s[..n];
      FirstSeenKeys(s');
      forall k ensures Occurs(s, k) <==> Occurs(s', k) || Key(s[n]) == k {
        if Occurs(s, k) {
          var i :| 0 <= i < |s| && Key(s[i]) == k;
          if i < n { assert s'[i] == s[i]; }
        }
        if Occurs(s', k) {
          var i :| 0 <= i < |s'| && Key(s'[i]) == k;
          assert s[i] == s'[i];
        }
      }
    }
  }

  /** KeptAt finds a record exactly for the keys that occur. */
  lemma {:induction false} KeptAtOccurs(s: seq<App>, k: string)
    requires Named(s)
    ensures KeptAt(s, k).Some? <==> Occurs(s, k)
  {
    if s != [] {
      var n := |s| - 1;
      var s' := s[..n];
      KeptAtOccurs(s', k);
      if Key(s[n]) == k {
        assert Occurs(s, k);
      } else {
        if Occurs(s, k) {
          var i :| 0 <= i < |s| && Key(s[i]) == k;
          assert s'[i] == s[i];
        }
        if Occurs(s', k) {
          var i :| 0 <= i < |s'| && Key(s'[i]) == k;
          assert s'[i] == s[i];
        }
      }
    }
  }

  /** The earliest maximum of a prefix stays one when a record with another key follows. */
  lemma EarliestMaxOtherKey(s: seq<App>, k: string, i: int)
    requires Named(s) && s != [] && Key(s[|s| - 1]) != k && EarliestMax(s[..|s| - 1], k, i)
    ensures EarliestMax(s, k, i)
  {
    var s' := s[..|s| - 1];
    assert forall j :: 0 <= j < |s'| ==> s'[j] == s[j];
  }

  /** The earliest maximum of a prefix stays one when a record with its key and no higher score follows. */
  lemma EarliestMaxNotBeaten(s: seq<App>, k: string, i: int)
    requires Named(s) && s != [] && EarliestMax(s[..|s| - 1], k, i) && Score(s[|s| - 1]) <= Score(s[i])
    ensures EarliestMax(s, k, i)
  {
    var s' := s[..|s| - 1];
    assert forall j :: 0 <= j < |s'| ==> s'[j] == s[j];
  }

  /** A last record that beats the prefix's maximum for its key is the new earliest maximum. */
  lemma EarliestMaxBeaten(s: seq<App>, k: string, i: int)
    requires Named(s) && s != [] && Key(s[|s| - 1]) == k
    requires EarliestMax(s[..|s| - 1], k, i) && Score(s[|s| - 1]) > Score(s[i])
    ensures EarliestMax(s, k, |s| - 1)
  {
    var s' := s[..|s| - 1];
    assert forall j :: 0 <= j < |s'| ==> s'[j] == s[j];
  }

  /** A last record whose key the prefix lacks is the earliest maximum for that key. */
  lemma EarliestMaxFirst(s: seq<App>, k: string)
    requires Named(s) && s != [] && Key(s[|s| - 1]) == k && !Occurs(s[..|s| - 1], k)
    ensures EarliestMax(s, k, |s| - 1)
  {
    var s' := s[..|s| - 1];
    forall j | 0 <= j < |s'| ensures Key(s[j]) != k {
      assert s'[j] == s[j];
    }
  }

  /** KeptAt finds a record exactly for the keys that occur, and it is the earliest maximum. */
  lemma {:induction false} KeptAtIsEarliestMax(s: seq<App>, k: string)
    requires Named(s)
    ensures KeptAt(s, k).Some? <==> Occurs(s, k)
    ensures KeptAt(s, k).Some? ==> EarliestMax(s, k, KeptAt(s, k).value)
  {
    KeptAtOccurs(s, k);
    if s != [] {
      var n := |s| - 1;
      var s' := s[..n];
      KeptAtIsEarliestMax(s', k);
      var prev := KeptAt(s', k);
      if Key(s[n]) != k {
        if prev.Some? {
          EarliestMaxOtherKey(s, k, prev.value);
        }
      } else if prev.None? {
        EarliestMaxFirst(s, k);
      } else if Score(s[n]) > Score(s[prev.value]) {
        EarliestMaxBeaten(s, k, prev.value);
      } else {
        EarliestMaxNotBeaten(s, k, prev.value);
      }
    }
  }

  /** Where the first record with key `k` stands in `s`, or |s| when there is none. */
  function FirstIndex(s: seq<App>, k: string): (r: nat)
    requires Named(s)
    ensures r <= |s|
    ensures r < |s| ==> Key(s[r]) == k
    ensures forall j :: 0 <= j < r && j < |s| ==> Key(s[j]) != k
  {
    if s == [] then 0
    else
      var n := |s| - 1;
      var f := FirstIndex(s[..n], k);
      assert forall j :: 0 <= j < n ==> s[..n][j] == s[j];
      if f < n then f else if Key(s[n]) == k then n else |s|
  }

  /** FirstSeen lists the keys by the position of their first record. */
  lemma {:induction false} FirstSeenOrder(s: seq<App>)
    requires Named(s)
    ensures forall p :: 0 <= p < |FirstSeen(s)| ==> FirstIndex(s, FirstSeen(s)[p]) < |s|
    ensures forall p, q :: 0 <= p < q < |FirstSeen(s)| ==>
              FirstIndex(s, FirstSeen(s)[p]) < FirstIndex(s, FirstSeen(s)[q])
  {
    if s != [] {
      var n := |s| - 1;
      var s' := s[..n];
      FirstSeenOrder(s');
      FirstSeenKeys(s');
      var ks' := FirstSeen(s');
      forall p | 0 <= p < |ks'| ensures FirstIndex(s, ks'[p]) == FirstIndex(s', ks'[p]) {
        assert FirstIndex(s', ks'[p]) < n;
      }
      var k := Key(s[n]);
      if k != "" && k !in ks' {
        assert !Occurs(s', k);
        assert FirstIndex(s, k) == n;
      }
    }
  }

  /** The index kept for a key that FirstSeen lists. */
  function KeptIndex(s: seq<App>, k: string): (r: nat)
    requires Named(s) && k in FirstSeen(s)
    ensures r < |s| && EarliestMax(s, k, r)
  {
    FirstSeenKeys(s);
    KeptAtIsEarliestMax(s, k);
    KeptAt(s, k).value
  }

  /** What `dedupe_apps` returns: for each key in first-seen order, the record kept for it. */
  function Reconcile(s: seq<App>): (r: seq<App>)
    requires Named(s)
    ensures |r| == |FirstSeen(s)| && Named(r)
    ensures forall p :: 0 <= p < |r| ==> Key(r[p]) == FirstSeen(s)[p]
  {
    var ks := FirstSeen(s);
    seq(|ks|, p requires 0 <= p < |ks| => s[KeptIndex(s, ks[p])])
  }

  /** How the kept index moves when one more record is read. */
  lemma KeptAtNext(s: seq<App>, i: nat, k: string)
    requires Named(s) && i < |s|
    ensures var prev := KeptAt(s[..i], k);
            KeptAt(s[..i + 1], k)
            == if Key(s[i]) != k then prev
               else if prev.None? || Score(s[i]) > Score(s[prev.value]) then Some(i)
               else prev
  {
    assert s[..i + 1][..i] == s[..i];
  }

  /**
   * The dict the loop has built after reading all of `s`: its keys in
   * insertion order, each mapped to the score and record kept for it.
   */
  ghost predicate RepoAfter(s: seq<App>, order: seq<string>, repo: map<string, (nat, App)>)
    requires Named(s)
  {
    && order == FirstSeen(s)
    && "" !in repo
    && (forall k :: k in repo <==> k in order)
    && (forall k :: k in repo ==>
          KeptAt(s, k).Some? && repo[k] == (Score(s[KeptAt(s, k).value]), s[KeptAt(s, k).value]))
    && (forall k :: k != "" && k !in repo ==> KeptAt(s, k).None?)
  }

  /** Reading the dict's values in key order gives Reconcile. */
  lemma RepoValues(s: seq<App>, order: seq<string>, repo: map<string, (nat, App)>)
    requires Named(s) && RepoAfter(s, order, repo)
    ensures seq(|order|, p requires 0 <= p < |order| => repo[order[p]].1) == Reconcile(s)
  {
    FirstSeenKeys(s);
    forall k | k in order ensures KeptAt(s, k).value == KeptIndex(s, k) {
      KeptAtIsEarliestMax(s, k);
      EarliestMaxUnique(s, k, KeptAt(s, k).value, KeptIndex(s, k));
    }
  }

  /** The update one record makes to the dict: none for a blank key or a score that is not higher. */
  ghost predicate Updated(s: seq<App>, i: nat, order: seq<string>, repo: map<string, (nat, App)>,
                          order': seq<string>, repo': map<string, (nat, App)>)
    requires Named(s) && i < |s|
  {
    var key := Key(s[i]);
    if key == "" || (key in repo && Score(s[i]) <= repo[key].0) then
      order' == order && repo' == repo
    else
      order' == (if key in repo then order else order + [key])
      && repo' == repo[key := (Score(s[i]), s[i])]
  }

  lemma RepoStepKept(s: seq<App>, i: nat, order: seq<string>, repo: map<string, (nat, App)>,
                     order': seq<string>, repo': map<string, (nat, App)>, k: string)
    requires Named(s) && i < |s| && RepoAfter(s[..i], order, repo)
    requires Updated(s, i, order, repo, order', repo')
    ensures k in repo' ==>
              KeptAt(s[..i + 1], k).Some?
              && repo'[k] == (Score(s[..i + 1][KeptAt(s[..i + 1], k).value]), s[..i + 1][KeptAt(s[..i + 1], k).value])
    ensures k != "" && k !in repo' ==> KeptAt(s[..i + 1], k).None?
  {
    KeptAtNext(s, i, k);
  }

  lemma RepoStepOrder(s: seq<App>, i: nat, order: seq<string>, repo: map<string, (nat, App)>,
                      order': seq<string>, repo': map<string, (nat, App)>)
    requires Named(s) && i < |s| && RepoAfter(s[..i], order, repo)
    requires Updated(s, i, order, repo, order', repo')
    ensures order' == FirstSeen(s[..i + 1])
    ensures "" !in repo' && forall k :: k in repo' <==> k in order'
  {
    assert s[..i + 1][..i] == s[..i];
    assert Key(s[i]) in repo <==> Key(s[i]) in order;
  }

  /** One turn of the loop: the dict after record i is the dict after reading s[..i + 1]. */
  lemma RepoStep(s: seq<App>, i: nat, order: seq<string>, repo: map<string, (nat, App)>,
                 order': seq<string>, repo': map<string, (nat, App)>)
    requires Named(s) && i < |s| && RepoAfter(s[..i], order, repo)
    requires Updated(s, i, order, repo, order', repo')
    ensures RepoAfter(s[..i + 1], order', repo')
  {
    var post := s[..i + 1];
    RepoStepOrder(s, i, order, repo, order', repo');
    forall k ensures (k in repo' ==>
                       KeptAt(post, k).Some?
                       && repo'[k] == (Score(post[KeptAt(post, k).value]), post[KeptAt(post, k).value]))
                     && (k != "" && k !in repo' ==> KeptAt(post, k).None?)
    {
      RepoStepKept(s, i, order, repo, order', repo', k);
    }
  }

  /** The source's loop, with the dict as its key order plus a map from key to (score, record). */
  method DedupeApps(apps: seq<App>) returns (out: seq<App>)
    requires Named(apps)
    ensures out == Reconcile(apps)
  {
    var order: seq<string> := [];
    var repo: map<string, (nat, App)> := map[];
    for i := 0 to |apps|
      invariant RepoAfter(apps[..i], order, repo)
    {
      ghost var order0, repo0 := order, repo;
      var a := apps[i];
      var key := Strip(a.Name.value);
      if key != "" {
        var score := Score(a);
        if key !in repo || score > repo[key].0 {
          if key !in repo {
            order := order + [key];
          }
          repo := repo[key := (score, a)];
        }
      }
      RepoStep(apps, i, order0, repo0, order, repo);
    }
    assert apps[..|apps|] == apps;
    RepoValues(apps, order, repo);
    out := seq(|order|, p requires 0 <= p < |order| => repo[order[p]].1);
  }

  /** Every record has a name, and the keys are non-blank and pairwise different. */
  predicate UniqueKeys(t: seq<App>) {
    && Named(t)
    && (forall i :: 0 <= i < |t| ==> Key(t[i]) != "")
    && (forall i, j :: 0 <= i < j < |t| ==> Key(t[i]) != Key(t[j]))
  }

  /**
   * The output has one record per non-blank key of the input and no other:
   * its keys are non-blank and pairwise different, and every input record
   * with a non-blank key shares its key with an output record.
   */
  lemma ReconcileKeys(s: seq<App>)
    requires Named(s)
    ensures UniqueKeys(Reconcile(s))
    ensures forall i :: 0 <= i < |s| && Key(s[i]) != "" ==>
              exists p :: 0 <= p < |Reconcile(s)| && Key(Reconcile(s)[p]) == Key(s[i])
  {
    var r := Reconcile(s);
    var ks := FirstSeen(s);
    FirstSeenKeys(s);
    assert forall p :: 0 <= p < |r| ==> Key(r[p]) == ks[p];
    forall p | 0 <= p < |r| ensures Key(r[p]) != "" {
      assert ks[p] in ks;
    }
    assert forall p, q :: 0 <= p < q < |r| ==> Key(r[p]) != Key(r[q]);
    forall i | 0 <= i < |s| && Key(s[i]) != ""
      ensures exists p :: 0 <= p < |r| && Key(r[p]) == Key(s[i])
    {
      assert Occurs(s, Key(s[i]));
      assert Key(s[i]) in ks;
    }
  }

  /**
   * Each output record is an input record, unmodified: for its key, the one
   * with the highest score, and among those the earliest.
   */
  lemma ReconcileSelects(s: seq<App>)
    requires Named(s)
    ensures forall p :: 0 <= p < |Reconcile(s)| ==>
              exists i :: EarliestMax(s, Key(Reconcile(s)[p]), i) && Reconcile(s)[p] == s[i]
  {
    var r := Reconcile(s);
    forall p | 0 <= p < |r| ensures exists i :: EarliestMax(s, Key(r[p]), i) && r[p] == s[i] {
      var i := KeptIndex(s, FirstSeen(s)[p]);
      assert r[p] == s[i];
    }
  }

  /** Output records come in the order in which their keys first occur in the input. */
  lemma ReconcileOrder(s: seq<App>)
    requires Named(s)
    ensures forall p, q :: 0 <= p < q < |Reconcile(s)| ==>
              FirstIndex(s, Key(Reconcile(s)[p])) < FirstIndex(s, Key(Reconcile(s)[q]))
  {
    FirstSeenOrder(s);
  }

  /** When every record has its own non-blank key, FirstSeen is the list of keys. */
  lemma {:induction false} FirstSeenOfUnique(t: seq<App>)
    requires UniqueKeys(t)
    ensures |FirstSeen(t)| == |t|
    ensures forall i :: 0 <= i < |t| ==> FirstSeen(t)[i] == Key(t[i])
  {
    if t != [] {
      var n := |t| - 1;
      var t' := t[..n];
      assert forall i :: 0 <= i < n ==> t'[i] == t[i];
      assert UniqueKeys(t');
      FirstSeenOfUnique(t');
      var ks := FirstSeen(t');
      forall p | 0 <= p < |ks| ensures ks[p] != Key(t[n]) {
        assert ks[p] == Key(t[p]);
      }
      assert Key(t[n]) !in ks;
      assert FirstSeen(t) == ks + [Key(t[n])];
    }
  }

  /** Reconciling records that already have unique, non-blank keys changes nothing. */
  lemma ReconcileOfUnique(t: seq<App>)
    requires UniqueKeys(t)
    ensures Reconcile(t) == t
  {
    FirstSeenOfUnique(t);
    var r := Reconcile(t);
    forall p | 0 <= p < |t| ensures r[p] == t[p] {
      var i := KeptIndex(t, FirstSeen(t)[p]);
      assert r[p] == t[i];
      assert EarliestMax(t, Key(t[p]), p);
      EarliestMaxUnique(t, Key(t[p]), i, p);
    }
  }

  /** Reconciling twice is reconciling once. */
  lemma ReconcileIdempotent(s: seq<App>)
    requires Named(s)
    ensures Reconcile(Reconcile(s)) == Reconcile(s)
  {
    ReconcileKeys(s);
    ReconcileOfUnique(Reconcile(s));
  }

  /** FirstSeen of two records that share a non-blank key. */
  lemma FirstSeenPair(a: App, b: App)
    requires a.Name.Some? && b.Name.Some? && Key(a) == Key(b) != ""
    ensures FirstSeen([a, b]) == [Key(a)]
  {
    assert [a][..0] == [];
    assert FirstSeen([a]) == [Key(a)];
    assert [a, b][..1] == [a];
  }

  /** Two records for one name with equal scores: the first one read is kept. */
  lemma TieKeepsFirst(a: App, b: App)
    requires a.Name.Some? && b.Name.Some? && Key(a) == Key(b) != ""
    requires Score(a) == Score(b)
    ensures Reconcile([a, b]) == [a]
  {
    var s := [a, b];
    FirstSeenPair(a, b);
    assert s[0] == a && s[1] == b;
    assert !EarliestMax(s, Key(a), 1) by {
      assert Key(s[0]) == Key(a) && Score(s[0]) == Score(s[1]);
    }
  }

  /** Two records for one name, the first scoring higher: the first is kept. */
  lemma HigherFirstKept(a: App, b: App)
    requires a.Name.Some? && b.Name.Some? && Key(a) == Key(b) != ""
    requires Score(a) > Score(b)
    ensures Reconcile([a, b]) == [a]
  {
    var s := [a, b];
    FirstSeenPair(a, b);
    assert s[0] == a && s[1] == b;
    assert !EarliestMax(s, Key(a), 1) by {
      assert Key(s[1]) == Key(a) && Score(s[1]) < Score(s[0]);
    }
  }

  /** Two records for one name, the second scoring higher: the second is kept. */
  lemma HigherSecondKept(b: App, a: App)
    requires a.Name.Some? && b.Name.Some? && Key(a) == Key(b) != ""
    requires Score(a) > Score(b)
    ensures Reconcile([b, a]) == [a]
  {
    var t := [b, a];
    FirstSeenPair(b, a);
    assert t[0] == b && t[1] == a;
    assert !EarliestMax(t, Key(a), 0) by {
      assert Key(t[1]) == Key(a) && Score(t[0]) < Score(t[1]);
    }
  }

  /** Two records for one name: the one with the higher score is kept, whichever comes first. */
  lemma HigherScoreWins(a: App, b: App)
    requires a.Name.Some? && b.Name.Some? && Key(a) == Key(b) != ""
    requires Score(a) > Score(b)
    ensures Reconcile([a, b]) == [a] && Reconcile([b, a]) == [a]
  {
    HigherFirstKept(a, b);
    HigherSecondKept(b, a);
  }

  /** A record whose name is only whitespace never reaches the output. */
  lemma BlankNamesDropped(s: seq<App>, i: nat)
    requires Named(s) && i < |s| && AllSpace(s[i].Name.value)
    ensures forall p :: 0 <= p < |Reconcile(s)| ==> Reconcile(s)[p] != s[i]
  {
    StripSpec(s[i].Name.value);
    ReconcileKeys(s);
  }
}
