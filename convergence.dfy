/**
 * What one cycle's removals achieve: live entries survive, and under two
 * conditions on the document no stale key is left for the next cycle.
 */
module Convergence {
  import opened Wrappers
  import opened ArchiveKeys
  import opened IndexDocuments
  import opened Reconciliation

  /** Every valid entry is filed under its own chart name. */
  ghost predicate FiledUnderOwnName(m: ChartMap) {
    forall n, e :: n in m && e in m[n] && IsValid(e) ==> e.name.value == n
  }

  /** The releases the document's valid entries describe. */
  function Releases(m: ChartMap): set<(string, string)> {
    set n, e | n in m && e in m[n] && IsValid(e) :: IdentityOf(e)
  }

  /** No two different releases of the document share an archive key. */
  ghost predicate KeysIdentifyReleases(prefix: string, m: ChartMap) {
    forall a, b :: a in Releases(m) && b in Releases(m) && ArchiveKey(prefix, a.0, a.1) == ArchiveKey(prefix, b.0, b.1) ==> a == b
  }

  /** The releases one cycle removes. */
  function Removals(prefix: string, m: ChartMap, indexed: map<string, Entry>, catalog: set<string>): set<(string, string)> {
    IdentitiesOf(indexed, ToDelete(IndexedKeys(prefix, m), catalog))
  }

  /** Every removed release stands for a key missing from the catalog. */
  lemma RemovedReleasesAreStale(prefix: string, m: ChartMap, indexed: map<string, Entry>, catalog: set<string>, id: (string, string))
    requires IsIndexedCharts(prefix, m, indexed)
    requires id in Removals(prefix, m, indexed, catalog)
    ensures ArchiveKey(prefix, id.0, id.1) !in catalog
  {
    var k :| k in ToDelete(IndexedKeys(prefix, m), catalog) && k in indexed && IsValid(indexed[k]) && IdentityOf(indexed[k]) == id;
    assert KeyOf(prefix, indexed[k]) == k;
  }

  /** A valid entry's key is among the indexed keys. */
  lemma EntryIsIndexed(prefix: string, m: ChartMap, n: string, e: Entry)
    requires n in m && e in m[n] && IsValid(e)
    ensures KeyOf(prefix, e) in IndexedKeys(prefix, m)
  {
  }

  /** An entry the filter does not target stays in its list. */
  lemma UntargetedSurvives(m: ChartMap, ids: set<(string, string)>, n: string, e: Entry)
    requires n in m && e in m[n] && !Targeted(e, n, ids)
    ensures n in RemoveIdentities(m, ids) && e in RemoveIdentities(m, ids)[n]
  {
    assert RemoveIdentities(m, ids)[n] == FilterIds(m[n], n, ids);
  }

  /** What is left after the removals was there before and was not targeted. */
  lemma RemainingWasUntargeted(m: ChartMap, ids: set<(string, string)>, n: string, e: Entry)
    requires n in RemoveIdentities(m, ids) && e in RemoveIdentities(m, ids)[n]
    ensures n in m && e in m[n] && !Targeted(e, n, ids)
  {
    assert RemoveIdentities(m, ids)[n] == FilterIds(Lookup(m, n), n, ids);
  }

  /** The removals never touch an entry that lacks a name or version, nor a
      valid entry whose archive is in the catalog. */
  lemma RemovalSparesLiveEntries(prefix: string, m: ChartMap, indexed: map<string, Entry>, catalog: set<string>)
    requires IsIndexedCharts(prefix, m, indexed)
    ensures forall n, e :: n in m && e in m[n] && (!IsValid(e) || KeyOf(prefix, e) in catalog) ==>
              n in RemoveIdentities(m, Removals(prefix, m, indexed, catalog)) &&
              e in RemoveIdentities(m, Removals(prefix, m, indexed, catalog))[n]
  {
    var ids := Removals(prefix, m, indexed, catalog);
    forall n, e | n in m && e in m[n] && (!IsValid(e) || KeyOf(prefix, e) in catalog)
      ensures n in RemoveIdentities(m, ids) && e in RemoveIdentities(m, ids)[n]
    {
      if Targeted(e, n, ids) {
        RemovedReleasesAreStale(prefix, m, indexed, catalog, (n, e.version.value));
      } else {
        UntargetedSurvives(m, ids, n, e);
      }
    }
  }

  /** Under the two conditions, no valid entry left after the removals
      points at a missing archive: a second diff against the same catalog
      finds nothing to delete. */
  lemma RemovalConverges(prefix: string, m: ChartMap, indexed: map<string, Entry>, catalog: set<string>)
    requires IsIndexedCharts(prefix, m, indexed)
    requires FiledUnderOwnName(m)
    requires KeysIdentifyReleases(prefix, m)
    ensures IndexedKeys(prefix, RemoveIdentities(m, Removals(prefix, m, indexed, catalog))) <= catalog
    ensures ToDelete(IndexedKeys(prefix, RemoveIdentities(m, Removals(prefix, m, indexed, catalog))), catalog) == {}
  {
    var ids := Removals(prefix, m, indexed, catalog);
    var m' := RemoveIdentities(m, ids);
    forall k | k in IndexedKeys(prefix, m') ensures k in catalog {
      var n, e :| n in m' && e in m'[n] && IsValid(e) && k == KeyOf(prefix, e);
      RemainingWasUntargeted(m, ids, n, e);
      if k !in catalog {
        StaleReleaseIsRemoved(prefix, m, indexed, catalog, n, e);
      }
    }
  }

  /** Under the two conditions, every valid entry whose key is missing from
      the catalog is among the removed releases, with its own name. */
  lemma StaleReleaseIsRemoved(prefix: string, m: ChartMap, indexed: map<string, Entry>, catalog: set<string>, n: string, e: Entry)
    requires IsIndexedCharts(prefix, m, indexed)
    requires FiledUnderOwnName(m)
    requires KeysIdentifyReleases(prefix, m)
    requires n in m && e in m[n] && IsValid(e) && KeyOf(prefix, e) !in catalog
    ensures Targeted(e, n, Removals(prefix, m, indexed, catalog))
  {
    var k := KeyOf(prefix, e);
    assert k in IndexedKeys(prefix, m);
    var d := indexed[k];
    var n' :| n' in m && d in m[n'];
    assert IdentityOf(d) in Releases(m);
    assert IdentityOf(e) in Releases(m);
  }

  /** A cycle with nothing to add publishes an index whose keys are exactly
      the catalog, so the next cycle against the same catalog changes nothing. */
  lemma QuietCycleReachesFixedPoint(prefix: string, m: ChartMap, indexed: map<string, Entry>, catalog: set<string>)
    requires IsIndexedCharts(prefix, m, indexed)
    requires FiledUnderOwnName(m)
    requires KeysIdentifyReleases(prefix, m)
    requires ToAdd(IndexedKeys(prefix, m), catalog) == {}
    ensures IndexedKeys(prefix, RemoveIdentities(m, Removals(prefix, m, indexed, catalog))) == catalog
  {
    var m' := RemoveIdentities(m, Removals(prefix, m, indexed, catalog));
    RemovalConverges(prefix, m, indexed, catalog);
    RemovalSparesLiveEntries(prefix, m, indexed, catalog);
    forall k | k in catalog ensures k in IndexedKeys(prefix, m') {
      assert k in IndexedKeys(prefix, m);
      var n, e :| n in m && e in m[n] && IsValid(e) && k == KeyOf(prefix, e);
      assert n in m' && e in m'[n];
    }
  }

  // Two releases that derive the same key: chart "a" version "b-c" and
  // chart "a-b" version "c" both map to "charts/a-b-c.tgz".
  const SHARED_KEY := "charts/a-b-c.tgz"
  const SHARED_FIRST := Entry(Some("a"), Some("b-c"), map[])
  const SHARED_SECOND := Entry(Some("a-b"), Some("c"), map[])
  const SHARED_DOC: ChartMap := map["a" := [SHARED_FIRST], "a-b" := [SHARED_SECOND]]
  const SHARED_INDEXED := map[SHARED_KEY := SHARED_FIRST]

  lemma SharedKeysCoincide()
    ensures KeyOf("charts/", SHARED_FIRST) == SHARED_KEY
    ensures KeyOf("charts/", SHARED_SECOND) == SHARED_KEY
  {
    assert EndsWith("charts/", "/") && !StartsWithSlash("a") && !StartsWithSlash("a-b");
  }

  lemma SharedIndexedKeys()
    ensures IndexedKeys("charts/", SHARED_DOC) == {SHARED_KEY}
  {
    var m := SHARED_DOC;
    SharedKeysCoincide();
    assert KeysOfList("charts/", []) == {};
    KeysOfListSnoc("charts/", [], SHARED_FIRST);
    KeysOfListSnoc("charts/", [], SHARED_SECOND);
    assert KeysUnder("charts/", m, {}) == {};
    KeysUnderAdd("charts/", m, {}, "a");
    KeysUnderAdd("charts/", m, {"a"}, "a-b");
    assert m.Keys == {"a", "a-b"};
  }

  lemma SharedDocumentIndex()
    ensures IndexedKeys("charts/", SHARED_DOC) == {SHARED_KEY}
    ensures IsIndexedCharts("charts/", SHARED_DOC, SHARED_INDEXED)
  {
    SharedIndexedKeys();
    SharedKeysCoincide();
    assert InDocument(SHARED_DOC, SHARED_FIRST) by { assert SHARED_FIRST in SHARED_DOC["a"]; }
  }

  lemma SharedRemovals()
    ensures Removals("charts/", SHARED_DOC, SHARED_INDEXED, {}) == {("a", "b-c")}
  {
    SharedIndexedKeys();
    assert ToDelete(IndexedKeys("charts/", SHARED_DOC), {}) == {SHARED_KEY};
    assert IdentitiesOf(SHARED_INDEXED, {}) == {};
    IdentitiesOfAdd(SHARED_INDEXED, {}, SHARED_KEY);
  }

  lemma SharedFiledUnderOwnName()
    ensures FiledUnderOwnName(SHARED_DOC)
  {
    forall n, e | n in SHARED_DOC && e in SHARED_DOC[n] && IsValid(e) ensures e.name.value == n {
      if n == "a" { assert e == SHARED_FIRST; } else { assert e == SHARED_SECOND; }
    }
  }

  /** With that archive gone, `indexed_charts` may keep either entry; only
      the kept one is removed, and the other still points at the missing
      archive after the cycle. */
  lemma SharedKeyOutlivesOneCycle()
    ensures FiledUnderOwnName(SHARED_DOC)
    ensures IsIndexedCharts("charts/", SHARED_DOC, SHARED_INDEXED)
    ensures SHARED_KEY in IndexedKeys("charts/", RemoveIdentities(SHARED_DOC, Removals("charts/", SHARED_DOC, SHARED_INDEXED, {})))
  {
    SharedFiledUnderOwnName();
    SharedDocumentIndex();
    SharedRemovals();
    var ids := {("a", "b-c")};
    assert !Targeted(SHARED_SECOND, "a-b", ids);
    UntargetedSurvives(SHARED_DOC, ids, "a-b", SHARED_SECOND);
    SharedKeysCoincide();
    EntryIsIndexed("charts/", RemoveIdentities(SHARED_DOC, ids), "a-b", SHARED_SECOND);
  }

  // A valid release "app" 1.0.0 filed under the chart name "legacy".
  const MISFILED_KEY := "charts/app-1.0.0.tgz"
  const MISFILED := Entry(Some("app"), Some("1.0.0"), map[])
  const MISFILED_DOC: ChartMap := map["legacy" := [MISFILED]]
  const MISFILED_INDEXED := map[MISFILED_KEY := MISFILED]

  lemma MisfiledKey()
    ensures KeyOf("charts/", MISFILED) == MISFILED_KEY
  {
    assert EndsWith("charts/", "/") && !StartsWithSlash("app");
  }

  lemma MisfiledDocumentIndex()
    ensures IndexedKeys("charts/", MISFILED_DOC) == {MISFILED_KEY}
    ensures IsIndexedCharts("charts/", MISFILED_DOC, MISFILED_INDEXED)
    ensures Releases(MISFILED_DOC) == {("app", "1.0.0")}
  {
    var m := MISFILED_DOC;
    MisfiledKey();
    assert KeysOfList("charts/", []) == {};
    KeysOfListSnoc("charts/", [], MISFILED);
    assert KeysUnder("charts/", m, {}) == {};
    KeysUnderAdd("charts/", m, {}, "legacy");
    assert m.Keys == {"legacy"};
    assert MISFILED in m["legacy"];
    assert IdentityOf(MISFILED) in Releases(m);
    forall r | r in Releases(m) ensures r == ("app", "1.0.0") {
      var n, x :| n in m && x in m[n] && IsValid(x) && r == IdentityOf(x);
      assert n == "legacy" && x == MISFILED;
    }
  }

  lemma MisfiledRemovals()
    ensures Removals("charts/", MISFILED_DOC, MISFILED_INDEXED, {}) == {("app", "1.0.0")}
  {
    MisfiledDocumentIndex();
    assert ToDelete(IndexedKeys("charts/", MISFILED_DOC), {}) == {MISFILED_KEY};
    assert IdentitiesOf(MISFILED_INDEXED, {}) == {};
    IdentitiesOfAdd(MISFILED_INDEXED, {}, MISFILED_KEY);
  }

  /** A valid release filed under another chart name is never removed:
      remove_chart_entry filters the list under the release's own name,
      which it creates empty, so the stale key is still indexed afterwards. */
  lemma MisfiledEntryOutlivesOneCycle()
    ensures KeysIdentifyReleases("charts/", MISFILED_DOC)
    ensures IsIndexedCharts("charts/", MISFILED_DOC, MISFILED_INDEXED)
    ensures var m' := RemoveIdentities(MISFILED_DOC, Removals("charts/", MISFILED_DOC, MISFILED_INDEXED, {}));
            && "app" in m' && m'["app"] == []
            && MISFILED_KEY in IndexedKeys("charts/", m')
  {
    MisfiledDocumentIndex();
    MisfiledRemovals();
    var ids := {("app", "1.0.0")};
    assert ChartNames(ids) == {"app"};
    UntargetedSurvives(MISFILED_DOC, ids, "legacy", MISFILED);
    MisfiledKey();
    EntryIsIndexed("charts/", RemoveIdentities(MISFILED_DOC, ids), "legacy", MISFILED);
  }
}
