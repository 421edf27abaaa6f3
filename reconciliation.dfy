/**
 * One reconciliation cycle of the indexer: derive the archive key of every
 * indexed release, list the archives actually stored, take the two set
 * differences, remove the releases whose archive is gone and hand the new
 * archives to the external index generator.
 */
module Reconciliation {
  import opened Wrappers
  import opened ArchiveKeys
  import opened IndexDocuments
  import opened ArchiveCatalog

  /** `.get('entries', {})`: a document without an `entries` key indexes nothing. */
  function EntriesOf(entries: Option<ChartMap>): ChartMap {
    if entries.Some? then entries.value else map[]
  }

  /** The archive key a valid entry stands for. */
  function KeyOf(prefix: string, e: Entry): string
    requires IsValid(e)
  {
    ArchiveKey(prefix, e.name.value, e.version.value)
  }

  /** The release (name, version) a valid entry describes. */
  function IdentityOf(e: Entry): (string, string)
    requires IsValid(e)
  {
    (e.name.value, e.version.value)
  }

  /** Keys of the valid entries in one chart list. */
  function KeysOfList(prefix: string, charts: seq<Entry>): set<string> {
    set e | e in charts && IsValid(e) :: KeyOf(prefix, e)
  }

  /** Keys of the valid entries filed under the given chart names. */
  function KeysUnder(prefix: string, m: ChartMap, names: set<string>): set<string> {
    set n, e | n in names && n in m && e in m[n] && IsValid(e) :: KeyOf(prefix, e)
  }

  /** The archive keys the index claims exist (`indexed_chart_set`). */
  function IndexedKeys(prefix: string, m: ChartMap): set<string> {
    KeysUnder(prefix, m, m.Keys)
  }

  ghost predicate InDocument(m: ChartMap, e: Entry) {
    exists n :: n in m && e in m[n]
  }

  /** What `indexed_charts` holds after the derivation loop: one valid entry
      of the document per indexed key, stored under its own key. Which entry
      wins when several share a key depends on the document's order. */
  ghost predicate IsIndexedCharts(prefix: string, m: ChartMap, indexed: map<string, Entry>) {
    indexed.Keys == IndexedKeys(prefix, m) && WellKeyed(prefix, m, indexed)
  }

  /** Every stored entry is the last entry with its key in some chart list of
      the document, from the names in `names`: the inner loop overwrites in
      list order, so only the choice between chart names is left open. */
  ghost predicate LastOfItsList(prefix: string, m: ChartMap, names: set<string>, indexed: map<string, Entry>) {
    forall k :: k in indexed ==> exists n :: n in names && n in m && LastKeyed(prefix, m[n], k) == Some(indexed[k])
  }

  /** Every stored entry is a valid entry of the document, under its own key. */
  ghost predicate WellKeyed(prefix: string, m: ChartMap, indexed: map<string, Entry>) {
    forall k :: k in indexed ==> IsValid(indexed[k]) && KeyOf(prefix, indexed[k]) == k && InDocument(m, indexed[k])
  }

  lemma WellKeyedInsert(prefix: string, m: ChartMap, indexed: map<string, Entry>, e: Entry)
    requires WellKeyed(prefix, m, indexed) && IsValid(e) && InDocument(m, e)
    ensures WellKeyed(prefix, m, indexed[KeyOf(prefix, e) := e])
  {
  }

  lemma KeysOfListSnoc(prefix: string, charts: seq<Entry>, e: Entry)
    ensures KeysOfList(prefix, charts + [e])
         == KeysOfList(prefix, charts) + (if IsValid(e) then {KeyOf(prefix, e)} else {})
  {
    assert forall x :: x in charts + [e] <==> x in charts || x == e;
  }

  lemma KeysOfListStep(prefix: string, charts: seq<Entry>, i: nat)
    requires i < |charts|
    ensures IsValid(charts[i]) ==>
              KeysOfList(prefix, charts[..i + 1]) == KeysOfList(prefix, charts[..i]) + {KeyOf(prefix, charts[i])}
    ensures !IsValid(charts[i]) ==> KeysOfList(prefix, charts[..i + 1]) == KeysOfList(prefix, charts[..i])
  {
    assert charts[..i + 1] == charts[..i] + [charts[i]];
    KeysOfListSnoc(prefix, charts[..i], charts[i]);
  }

  lemma KeysUnderAdd(prefix: string, m: ChartMap, names: set<string>, n: string)
    requires n in m
    ensures KeysUnder(prefix, m, names + {n}) == KeysUnder(prefix, m, names) + KeysOfList(prefix, m[n])
  {
    var lhs := KeysUnder(prefix, m, names + {n});
    var rhs := KeysUnder(prefix, m, names) + KeysOfList(prefix, m[n]);
    forall k | k in lhs ensures k in rhs {
      var c, e :| c in names + {n} && c in m && e in m[c] && IsValid(e) && k == KeyOf(prefix, e);
      if c != n { assert k in KeysUnder(prefix, m, names); }
    }
  }

  /** The last valid entry of `charts` whose key is `k`: the one the inner
      derivation loop leaves stored under `k`, since each later entry with
      the same key overwrites the earlier one. */
  function LastKeyed(prefix: string, charts: seq<Entry>, k: string): (r: Option<Entry>)
    ensures r.Some? <==> k in KeysOfList(prefix, charts)
    ensures r.Some? ==> r.value in charts && IsValid(r.value) && KeyOf(prefix, r.value) == k
  {
    if charts == [] then None
    else
      var e := charts[|charts| - 1];
      var front := charts[..|charts| - 1];
      assert charts == front + [e];
      KeysOfListSnoc(prefix, front, e);
      if IsValid(e) && KeyOf(prefix, e) == k then Some(e)
      else LastKeyed(prefix, front, k)
  }

  /** `LastKeyed` picks an occurrence after which no valid entry has key `k`. */
  lemma {:induction false} LastKeyedIsLast(prefix: string, charts: seq<Entry>, k: string)
    requires LastKeyed(prefix, charts, k).Some?
    ensures exists i :: 0 <= i < |charts| && charts[i] == LastKeyed(prefix, charts, k).value &&
              forall j :: i < j < |charts| ==> !(IsValid(charts[j]) && KeyOf(prefix, charts[j]) == k)
  {
    var e := charts[|charts| - 1];
    var front := charts[..|charts| - 1];
    if IsValid(e) && KeyOf(prefix, e) == k {
      assert charts[|charts| - 1] == e;
    } else {
      LastKeyedIsLast(prefix, front, k);
      var i :| 0 <= i < |front| && front[i] == LastKeyed(prefix, front, k).value &&
                forall j :: i < j < |front| ==> !(IsValid(front[j]) && KeyOf(prefix, front[j]) == k);
      assert charts[i] == front[i];
      forall j | i < j < |charts|
        ensures !(IsValid(charts[j]) && KeyOf(prefix, charts[j]) == k)
      {
        if j < |front| { assert charts[j] == front[j]; }
      }
    }
  }

  lemma LastKeyedStep(prefix: string, charts: seq<Entry>, i: nat, k: string)
    requires i < |charts|
    ensures LastKeyed(prefix, charts[..i + 1], k)
         == if IsValid(charts[i]) && KeyOf(prefix, charts[i]) == k then Some(charts[i])
            else LastKeyed(prefix, charts[..i], k)
  {
    assert charts[..i + 1][..i] == charts[..i];
  }

  /** What the inner derivation loop leaves in `indexed_charts` after the
      entries of `charts`, in order: each valid entry stored under its key. */
  function IndexList(prefix: string, charts: seq<Entry>, indexed: map<string, Entry>): map<string, Entry> {
    if charts == [] then indexed
    else
      var e := charts[|charts| - 1];
      var before := IndexList(prefix, charts[..|charts| - 1], indexed);
      if IsValid(e) then before[KeyOf(prefix, e) := e] else before
  }

  lemma IndexListStep(prefix: string, charts: seq<Entry>, i: nat, indexed: map<string, Entry>)
    requires i < |charts|
    ensures IndexList(prefix, charts[..i + 1], indexed)
         == if IsValid(charts[i]) then IndexList(prefix, charts[..i], indexed)[KeyOf(prefix, charts[i]) := charts[i]]
            else IndexList(prefix, charts[..i], indexed)
  {
    assert charts[..i + 1][..i] == charts[..i];
  }

  /** The inner loop adds exactly the keys of the list. */
  lemma {:induction false} IndexListKeys(prefix: string, charts: seq<Entry>, indexed: map<string, Entry>)
    ensures IndexList(prefix, charts, indexed).Keys == indexed.Keys + KeysOfList(prefix, charts)
  {
    if charts != [] {
      var e := charts[|charts| - 1];
      var front := charts[..|charts| - 1];
      assert charts == front + [e];
      IndexListKeys(prefix, front, indexed);
      KeysOfListSnoc(prefix, front, e);
    }
  }

  /** Keys not derived from the list keep the entry they had. */
  lemma {:induction false} IndexListFrame(prefix: string, charts: seq<Entry>, indexed: map<string, Entry>, k: string)
    requires k in indexed && k !in KeysOfList(prefix, charts)
    ensures k in IndexList(prefix, charts, indexed) && IndexList(prefix, charts, indexed)[k] == indexed[k]
  {
    if charts != [] {
      var e := charts[|charts| - 1];
      var front := charts[..|charts| - 1];
      assert charts == front + [e];
      KeysOfListSnoc(prefix, front, e);
      IndexListFrame(prefix, front, indexed, k);
    }
  }

  /** Each key of the list ends up with the last entry of the list that has it. */
  lemma {:induction false} IndexListLast(prefix: string, charts: seq<Entry>, indexed: map<string, Entry>, k: string)
    requires k in KeysOfList(prefix, charts)
    ensures k in IndexList(prefix, charts, indexed) && Some(IndexList(prefix, charts, indexed)[k]) == LastKeyed(prefix, charts, k)
  {
    var e := charts[|charts| - 1];
    var front := charts[..|charts| - 1];
    assert charts == front + [e];
    KeysOfListSnoc(prefix, front, e);
    if !(IsValid(e) && KeyOf(prefix, e) == k) {
      IndexListLast(prefix, front, indexed, k);
    }
  }

  /** Every stored entry stays a valid entry of the document under its own key. */
  lemma {:induction false} IndexListWellKeyed(prefix: string, m: ChartMap, charts: seq<Entry>, indexed: map<string, Entry>)
    requires WellKeyed(prefix, m, indexed) && forall e :: e in charts ==> InDocument(m, e)
    ensures WellKeyed(prefix, m, IndexList(prefix, charts, indexed))
  {
    if charts != [] {
      var e := charts[|charts| - 1];
      var front := charts[..|charts| - 1];
      assert e in charts;
      assert forall x :: x in front ==> x in charts;
      IndexListWellKeyed(prefix, m, front, indexed);
      if IsValid(e) {
        WellKeyedInsert(prefix, m, IndexList(prefix, front, indexed), e);
      }
    }
  }

  /** The inner derivation loop, over the entries filed under one chart
      name: each valid entry is stored under its key, later ones replacing
      earlier ones with the same key. */
  method IndexChartList(prefix: string, m: ChartMap, cn: string, indexed: map<string, Entry>)
    returns (indexed': map<string, Entry>)
    requires cn in m && WellKeyed(prefix, m, indexed)
    ensures indexed'.Keys == indexed.Keys + KeysOfList(prefix, m[cn])
    ensures forall k :: k in indexed && k !in KeysOfList(prefix, m[cn]) ==> indexed'[k] == indexed[k]
    ensures forall k :: k in KeysOfList(prefix, m[cn]) ==> Some(indexed'[k]) == LastKeyed(prefix, m[cn], k)
    ensures WellKeyed(prefix, m, indexed')
  {
    var charts := m[cn];
    indexed' := indexed;
    for i := 0 to |charts|
      invariant indexed' == IndexList(prefix, charts[..i], indexed)
    {
      var chart := charts[i];
      IndexListStep(prefix, charts, i, indexed);
      if chart.name.Some? && chart.version.Some? {
        var chartKey := ArchiveKey(prefix, chart.name.value, chart.version.value);
        indexed' := indexed'[chartKey := chart];
      }
    }
    assert charts[..|charts|] == charts;
    forall e | e in charts ensures InDocument(m, e) { assert e in m[cn]; }
    IndexListKeys(prefix, charts, indexed);
    forall k | k in indexed && k !in KeysOfList(prefix, charts) ensures indexed'[k] == indexed[k] {
      IndexListFrame(prefix, charts, indexed, k);
    }
    forall k | k in KeysOfList(prefix, charts) ensures Some(indexed'[k]) == LastKeyed(prefix, charts, k) {
      IndexListLast(prefix, charts, indexed, k);
    }
    IndexListWellKeyed(prefix, m, charts, indexed);
  }

  /** The derivation loop: every valid entry of the document gives the key
      `prefix + name + "-" + version + ".tgz"`, mapped to that entry; entries
      missing a name or a version are skipped. */
  method IndexCharts(entries: Option<ChartMap>, prefix: string) returns (indexed: map<string, Entry>)
    ensures IsIndexedCharts(prefix, EntriesOf(entries), indexed)
    ensures LastOfItsList(prefix, EntriesOf(entries), EntriesOf(entries).Keys, indexed)
  {
    var m := EntriesOf(entries);
    indexed := map[];
    var todo := m.Keys;
    ghost var done: set<string> := {};
    while todo != {}
      invariant todo + done == m.Keys && todo !! done
      invariant indexed.Keys == KeysUnder(prefix, m, done)
      invariant WellKeyed(prefix, m, indexed)
      invariant LastOfItsList(prefix, m, done, indexed)
      decreases todo
    {
      var cn :| cn in todo;
      ghost var before := indexed;
      indexed := IndexChartList(prefix, m, cn, indexed);
      forall k | k in indexed
        ensures exists n :: n in done + {cn} && n in m && LastKeyed(prefix, m[n], k) == Some(indexed[k])
      {
        if k in KeysOfList(prefix, m[cn]) {
          assert LastKeyed(prefix, m[cn], k) == Some(indexed[k]);
        } else {
          var n :| n in done && n in m && LastKeyed(prefix, m[n], k) == Some(before[k]);
          assert n in done + {cn};
        }
      }
      KeysUnderAdd(prefix, m, done, cn);
      done := done + {cn};
      todo := todo - {cn};
    }
  }

  /** `to_delete`: indexed keys with no archive behind them. */
  function ToDelete(indexedKeys: set<string>, catalog: set<string>): set<string> {
    indexedKeys - catalog
  }

  /** `to_add`: archives the index does not mention. */
  function ToAdd(indexedKeys: set<string>, catalog: set<string>): set<string> {
    catalog - indexedKeys
  }

  /** The two differences split the symmetric difference between index and catalog. */
  lemma DiffPartition(indexedKeys: set<string>, catalog: set<string>)
    ensures ToDelete(indexedKeys, catalog) !! ToAdd(indexedKeys, catalog)
    ensures ToDelete(indexedKeys, catalog) <= indexedKeys && ToDelete(indexedKeys, catalog) !! catalog
    ensures ToAdd(indexedKeys, catalog) <= catalog && ToAdd(indexedKeys, catalog) !! indexedKeys
    ensures ToDelete(indexedKeys, catalog) + ToAdd(indexedKeys, catalog)
         == (indexedKeys + catalog) - (indexedKeys * catalog)
  {
  }

  /** An entry of the list filed under `chartName` that the removal loop
      takes out: one of the removed releases of that very name. */
  predicate Targeted(e: Entry, chartName: string, ids: set<(string, string)>) {
    e.name == Some(chartName) && e.version.Some? && (chartName, e.version.value) in ids
  }

  /** The list under `chartName` after every release in `ids` is removed. */
  function FilterIds(charts: seq<Entry>, chartName: string, ids: set<(string, string)>): (kept: seq<Entry>)
    ensures forall e :: e in kept <==> e in charts && !Targeted(e, chartName, ids)
  {
    if charts == [] then []
    else
      var rest := FilterIds(charts[1..], chartName, ids);
      if Targeted(charts[0], chartName, ids) then rest else [charts[0]] + rest
  }

  function ChartNames(ids: set<(string, string)>): set<string> {
    set id | id in ids :: id.0
  }

  /** The entries mapping after remove_chart_entry has run once for every
      release in `ids`, in any order. */
  function RemoveIdentities(m: ChartMap, ids: set<(string, string)>): ChartMap {
    map n | n in m.Keys + ChartNames(ids) :: FilterIds(Lookup(m, n), n, ids)
  }

  /** The releases the removal loop passes to remove_chart_entry. */
  function IdentitiesOf(indexed: map<string, Entry>, keys: set<string>): set<(string, string)> {
    set k | k in keys && k in indexed && IsValid(indexed[k]) :: IdentityOf(indexed[k])
  }

  /** The document's entries after the removal loop (it never runs on a
      document without `entries`, since such a document indexes nothing). */
  function ApplyRemovals(entries: Option<ChartMap>, ids: set<(string, string)>): Option<ChartMap> {
    if entries.Some? then Some(RemoveIdentities(entries.value, ids)) else entries
  }

  lemma {:induction false} FilterIdsNone(charts: seq<Entry>, chartName: string)
    ensures FilterIds(charts, chartName, {}) == charts
  {
    if charts != [] {
      FilterIdsNone(charts[1..], chartName);
      assert charts == [charts[0]] + charts[1..];
    }
  }

  lemma RemoveNothing(m: ChartMap)
    ensures RemoveIdentities(m, {}) == m
  {
    forall n | n in m ensures RemoveIdentities(m, {})[n] == m[n] {
      FilterIdsNone(m[n], n);
    }
  }

  /** Filtering out one more release of the list's own name. */
  lemma {:induction false} FilterIdsStep(charts: seq<Entry>, chartName: string, ids: set<(string, string)>, version: string)
    ensures FilterChart(FilterIds(charts, chartName, ids), chartName, version)
         == FilterIds(charts, chartName, ids + {(chartName, version)})
  {
    if charts != [] {
      FilterIdsStep(charts[1..], chartName, ids, version);
      var e := charts[0];
      if !Targeted(e, chartName, ids) {
        var rest := FilterIds(charts[1..], chartName, ids);
        assert ([e] + rest)[1..] == rest;
      }
    }
  }

  /** Releases of another name leave a list as it is. */
  lemma {:induction false} FilterIdsOther(charts: seq<Entry>, chartName: string, ids: set<(string, string)>, id: (string, string))
    requires id.0 != chartName
    ensures FilterIds(charts, chartName, ids + {id}) == FilterIds(charts, chartName, ids)
  {
    if charts != [] {
      FilterIdsOther(charts[1..], chartName, ids, id);
    }
  }

  /** One call of remove_chart_entry extends the set of removed releases by one. */
  lemma RemoveStep(m: ChartMap, ids: set<(string, string)>, chartName: string, chartVersion: string)
    ensures RemoveChart(RemoveIdentities(m, ids), chartName, chartVersion)
         == RemoveIdentities(m, ids + {(chartName, chartVersion)})
  {
    var r := RemoveIdentities(m, ids);
    var ids' := ids + {(chartName, chartVersion)};
    assert Lookup(r, chartName) == FilterIds(Lookup(m, chartName), chartName, ids);
    FilterIdsStep(Lookup(m, chartName), chartName, ids, chartVersion);
    assert ChartNames(ids') == ChartNames(ids) + {chartName};
    forall n | n in r && n != chartName
      ensures r[n] == RemoveIdentities(m, ids')[n]
    {
      FilterIdsOther(Lookup(m, n), n, ids, (chartName, chartVersion));
    }
  }

  lemma IdentitiesOfAdd(indexed: map<string, Entry>, keys: set<string>, k: string)
    requires k in indexed && IsValid(indexed[k])
    ensures IdentitiesOf(indexed, keys + {k}) == IdentitiesOf(indexed, keys) + {IdentityOf(indexed[k])}
  {
  }

  lemma NothingIndexedWithoutEntries(prefix: string, entries: Option<ChartMap>)
    requires entries.None?
    ensures IndexedKeys(prefix, EntriesOf(entries)) == {}
  {
  }

  /** The removal loop: remove_chart_entry once for the release behind every
      key of `toDelete`, in whatever order the set yields them. */
  method RemoveReleases(doc: IndexDocument, indexed: map<string, Entry>, toDelete: set<string>)
    requires forall k :: k in toDelete ==> k in indexed && IsValid(indexed[k])
    requires toDelete != {} ==> doc.entries.Some?
    modifies doc
    ensures doc.entries == ApplyRemovals(old(doc.entries), IdentitiesOf(indexed, toDelete))
  {
    ghost var original := doc.entries;
    if original.Some? {
      RemoveNothing(original.value);
    }
    var remaining := toDelete;
    assert IdentitiesOf(indexed, toDelete - remaining) == {};
    while remaining != {}
      invariant remaining <= toDelete
      invariant doc.entries == ApplyRemovals(original, IdentitiesOf(indexed, toDelete - remaining))
      decreases remaining
    {
      var k :| k in remaining;
      var chart := indexed[k];
      doc.RemoveChartEntry(chart.name.value, chart.version.value);
      RemoveStep(original.value, IdentitiesOf(indexed, toDelete - remaining), chart.name.value, chart.version.value);
      IdentitiesOfAdd(indexed, toDelete - remaining, k);
      assert (toDelete - remaining) + {k} == toDelete - (remaining - {k});
      remaining := remaining - {k};
    }
    assert toDelete - remaining == toDelete;
  }

  /** The report of one cycle: the derived `indexed_charts`, the catalog,
      both differences, and whether the external generator was run. */
  datatype Report = Report(
    indexed: map<string, Entry>,
    catalog: set<string>,
    toDelete: set<string>,
    toAdd: set<string>,
    generatorInvoked: bool)

  /** The body of one indexing cycle, from the fetched document to the
      document that is published. `generate` stands for the external
      `helm repo index --merge` run over the new archives. A listing that
      cannot be drained stops the cycle before the document is touched. */
  method RunCycle(
    doc: IndexDocument, prefix: string, pages: seq<Page>,
    generate: (Option<ChartMap>, set<string>) -> Option<ChartMap>)
    returns (r: Result<Report, ListingError>)
    modifies doc
    ensures r.Success? <==> Completes(pages)
    ensures r.Failure? ==> doc.entries == old(doc.entries)
    ensures r.Success? ==>
      var rep := r.value;
      var indexedKeys := IndexedKeys(prefix, EntriesOf(old(doc.entries)));
      var removed := ApplyRemovals(old(doc.entries), IdentitiesOf(rep.indexed, rep.toDelete));
      && IsIndexedCharts(prefix, EntriesOf(old(doc.entries)), rep.indexed)
      && LastOfItsList(prefix, EntriesOf(old(doc.entries)), EntriesOf(old(doc.entries)).Keys, rep.indexed)
      && rep.catalog == Catalog(pages)
      && rep.toDelete == ToDelete(indexedKeys, rep.catalog)
      && rep.toAdd == ToAdd(indexedKeys, rep.catalog)
      && rep.generatorInvoked == (rep.toAdd != {})
      && doc.entries == (if rep.generatorInvoked then generate(removed, rep.toAdd) else removed)
  {
    ghost var original := doc.entries;
    var indexedCharts := IndexCharts(doc.entries, prefix);
    var listing := ListArchiveKeys(pages);
    if listing.Failure? {
      return Failure(listing.error);
    }
    var chartSet := listing.value;
    var indexedChartSet := indexedCharts.Keys;
    var toDelete := ToDelete(indexedChartSet, chartSet);
    var toAdd := ToAdd(indexedChartSet, chartSet);

    if doc.entries.None? {
      NothingIndexedWithoutEntries(prefix, doc.entries);
    }
    RemoveReleases(doc, indexedCharts, toDelete);

    var invoked := |toAdd| > 0;
    if invoked {
      doc.entries := generate(doc.entries, toAdd);
    }
    return Success(Report(indexedCharts, chartSet, toDelete, toAdd, invoked));
  }
}
