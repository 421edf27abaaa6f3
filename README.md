# Helm repository indexer: reconciliation model

The indexer keeps a Helm chart repository's `index.yaml` in step with the
chart archives (`.tgz` objects) stored under one S3 key prefix. Every cycle
it reads the published index, derives the object key each indexed release
should live under, drains the paged bucket listing into a catalog of
archive keys, and takes two set differences: `to_delete` (indexed keys with
no archive) and `to_add` (archives the index does not mention). Releases in
`to_delete` are removed from the document one by one with
`remove_chart_entry`; when `to_add` is not empty the document and the new
archives are handed to `helm repo index --merge`, whose output becomes the
document that is published.

This project models that reconciliation in Dafny:

- `wrappers.dfy` (`Wrappers`): `Option` and `Result`.
- `archive_keys.dfy` (`ArchiveKeys`): the two-argument `os.path.join` the
  code uses, the repository prefix and the archive key of a release.
- `index_documents.dfy` (`IndexDocuments`): index entries (a name and a
  version, each possibly missing, plus opaque metadata), the `entries`
  mapping, and the parsed document as a class `IndexDocument` whose
  `RemoveChartEntry` method rewrites one chart's list in place, as
  `remove_chart_entry` does.
- `archive_catalog.dfy` (`ArchiveCatalog`): the listing as the sequence of
  page responses the store gives, and the paging loop that drains it.
- `reconciliation.dfy` (`Reconciliation`): the derivation loop that builds
  `indexed_charts`, the two differences, the removal loop, and one whole
  cycle (`RunCycle`) with the external generator as a function parameter.
- `convergence.dfy` (`Convergence`): what the removals achieve, and two
  concrete documents showing the conditions convergence depends on.

Loops in the source are `while`/`for` loops here with their invariants; each
is proved against a specification function (`FilterChart`, `Catalog`, `IndexList`,
`IndexedKeys`, `RemoveIdentities`), and the properties are proved about
those functions. Python dictionary and set iteration order is left open: the
derivation loop picks chart names, and the removal loop picks keys, in any
order, and every contract holds for every order.

Behaviour of the code that the model keeps, which a reader might not
expect:

- `remove_chart_entry` removes every entry of the release from the list, not
  at most one.
- Removal filters only the list filed under the release's own name. A valid
  entry filed under another chart name is never removed, and the call
  creates an empty list under the release's name
  (`Convergence.MisfiledEntryOutlivesOneCycle`).
- Keys are derived, never parsed, so two releases can share one key:
  chart `a` version `b-c` and chart `a-b` version `c` both give the file name `a-b-c.tgz`
  (helm_indexer.py:93). `indexed_charts` keeps only one of them, so when
  that archive disappears one cycle removes only that entry and the key
  stays indexed (`Convergence.SharedKeyOutlivesOneCycle`).
- Archive keys are only ever derived from entries; no key is parsed back
  into a name and version, and there is no local archive cache.
- Nothing is caught: a failed listing request, a listing page without a
  `Contents` field (S3 omits it on a page with no objects), a failed
  generator run or a failed upload ends the process rather than the cycle.
  The model returns a `Failure` for the listing cases and leaves the
  document untouched, which is what is observable (nothing is published).

## Model

| member | source | states |
|---|---|---|
| `ArchiveKeys.RepoPrefix` | helm_indexer.py:73 | For a non-empty configured key, the prefix ends in `/` and is the key itself or the key with one `/` appended. |
| `ArchiveKeys.ArchiveKey` | helm_indexer.py:93 | Every derived key ends in `.tgz`. Under a prefix ending in `/` it is `prefix + name + "-" + version + ".tgz"` when the name does not start with `/`. A name starting with `/` replaces the prefix. |
| `IndexDocuments.FilterChart` | helm_indexer.py:27-30 | The rebuilt list holds exactly the entries whose name or version differs from the release. Every match is dropped, and the list never grows. |
| `IndexDocuments.FilterChartAppend` | helm_indexer.py:28-30 | Filtering commutes with concatenation, so survivors keep their original relative order. |
| `IndexDocuments.FilterChartNoMatch` | helm_indexer.py:28-30 | A list holding no entry of the release comes back unchanged. |
| `IndexDocuments.FilterChartIdempotent` | helm_indexer.py:27-30 | Filtering twice for the same release equals filtering once. |
| `IndexDocuments.RemoveChartIdempotent` | helm_indexer.py:25-32 | Removing a release twice gives the same entries mapping as removing it once. |
| `IndexDocuments.RemoveChart` | helm_indexer.py:27-31 | After removing a release, only the list under the chart name differs. It holds exactly the surviving entries of the old list, and is empty if the name was absent. Every other name keeps its list and no name disappears. |
| `IndexDocuments.IndexDocument.RemoveChartEntry` | helm_indexer.py:25-32 | Requires an `entries` key, since the store at line 31 raises otherwise. The loop-built list leaves the document's `entries` equal to `RemoveChart` of the old ones. |
| `ArchiveCatalog.FirstFinalPage` | helm_indexer.py:98-103 | Gives the index of the first page with `IsTruncated` false, or the page count. Every earlier page is truncated. |
| `ArchiveCatalog.ListArchiveKeys` | helm_indexer.py:95-113 | Succeeds exactly when a final page is reached and every page up to it has `Contents`. The result is then exactly the `.tgz` keys of those pages and of no later page, and every key in it is an archive key. |
| `Reconciliation.NothingIndexedWithoutEntries` | helm_indexer.py:87 | A document without `entries` yields no indexed keys. |
| `Reconciliation.LastKeyed` | helm_indexer.py:88-94 | Gives an entry for a key exactly when the list has a valid entry with that key. That entry is one of them, and has that key. |
| `Reconciliation.LastKeyedIsLast` | helm_indexer.py:88-94 | The entry `LastKeyed` gives has no later valid entry in the list with the same key. |
| `Reconciliation.IndexListKeys` | helm_indexer.py:88-94 | Running the inner loop over a list adds exactly the derived keys of its valid entries. |
| `Reconciliation.IndexListFrame` | helm_indexer.py:88-94 | A key not derived from the list keeps the entry it had. |
| `Reconciliation.IndexListLast` | helm_indexer.py:88-94 | Every key derived from the list ends up with the last valid entry of the list with that key. |
| `Reconciliation.IndexListWellKeyed` | helm_indexer.py:88-94 | Every stored entry stays a valid entry of the document, stored under its own key. |
| `Reconciliation.IndexChartList` | helm_indexer.py:88-94 | The inner loop adds exactly the derived keys of the valid entries under one chart name. Every other key keeps its entry. Each derived key gets the last valid entry of the list with that key, since later entries overwrite earlier ones. Each stored entry stays a valid entry of the document under its own key. |
| `Reconciliation.IndexCharts` | helm_indexer.py:85-94 | `indexed_charts` has exactly the derived keys of all valid entries. Each value is a valid entry of the document whose own key is the one it is stored under. It is also the last valid entry with that key in some chart list, because the inner loop overwrites in list order. Entries missing a name or version contribute nothing. |
| `Reconciliation.DiffPartition` | helm_indexer.py:114-116 | `ToDelete` (`to_delete`) and `ToAdd` (`to_add`) are disjoint. `to_delete` lies in the indexed keys and outside the catalog, and `to_add` the other way round. Together they form the symmetric difference. |
| `Reconciliation.FilterIds` | helm_indexer.py:118-119 | After removing a set of releases, a chart's list holds exactly its entries that are not one of those releases under that list's own name. |
| `Reconciliation.RemoveNothing` | helm_indexer.py:118-119 | An empty `to_delete` leaves the entries mapping unchanged. |
| `Reconciliation.FilterIdsStep` | helm_indexer.py:28-31 | Filtering one more release out of a list equals filtering with that release added to the removed set. |
| `Reconciliation.FilterIdsOther` | helm_indexer.py:28-31 | Releases of a different chart name do not affect a list. |
| `Reconciliation.RemoveStep` | helm_indexer.py:118-119 | One `remove_chart_entry` call after a set of removals equals removing the enlarged set, so the result does not depend on iteration order. |
| `Reconciliation.RemoveReleases` | helm_indexer.py:118-119 | The removal loop leaves the document with exactly the releases behind `to_delete` removed. |
| `Reconciliation.RunCycle` | helm_indexer.py:85-121 | A listing that cannot be drained fails and leaves the document untouched. Otherwise it reports `indexed_charts` (with the same guarantees as `IndexCharts`, including last-in-its-list), the catalog and both differences. The document becomes the removals-only document when `to_add` is empty, and the generator's output on it otherwise. The generator runs exactly when `to_add` is non-empty. |
| `Convergence.RemovedReleasesAreStale` | helm_indexer.py:114-119 | Every release the loop removes has a derived key missing from the catalog. |
| `Convergence.RemovalSparesLiveEntries` | helm_indexer.py:89-92 | Reconciliation never removes an entry missing a name or version. It also never removes a valid entry whose archive is in the catalog. |
| `Convergence.StaleReleaseIsRemoved` | helm_indexer.py:114-119 | Suppose entries are filed under their own names and distinct releases have distinct keys. Then every valid entry whose key is missing from the catalog is targeted by the removals. |
| `Convergence.RemovalConverges` | helm_indexer.py:114-119 | Under the same two conditions, every valid entry left after the removals has its key in the catalog. A second diff against the same catalog therefore finds nothing to delete. |
| `Convergence.QuietCycleReachesFixedPoint` | helm_indexer.py:114-121 | Under the same conditions, a cycle with empty `to_add` publishes an index whose keys are exactly the catalog. |
| `Convergence.SharedKeyOutlivesOneCycle` | helm_indexer.py:93-94 | Chart `a` version `b-c` and chart `a-b` version `c` share one key. With that archive gone, one cycle removes only the entry `indexed_charts` kept, and the key stays indexed. |
| `Convergence.MisfiledEntryOutlivesOneCycle` | helm_indexer.py:28-31 | A valid release filed under another chart name survives its removal, and the release's own name gains an empty list. |

## Left out

- Fetching and parsing `index.yaml` over HTTP (`get_index_yaml`): the parsed document is the input.
- YAML loading and dumping: names and versions are strings here. A YAML scalar read as a number (an unquoted version such as `1.10`) and its string formatting are not modelled.
- A document that is not a mapping, or whose `entries` value is null: `entries` is either present or absent.
- Other top-level keys of the document (`apiVersion`, `generated`): the code does not touch them before the generator runs.
- `download_archive` and `add_chart_entries` (temporary directory, downloads, the `helm repo index --merge` subprocess): the generator is an uninterpreted function parameter of `RunCycle`. Its failure, which ends the process, is not modelled.
- `get_env_or_die`, logging and configuration: only the prefix computation at line 73 is modelled.
- The boto3 client, the `list_objects_v2` transport and continuation-token threading: the listing is the sequence of page responses. `LastModified` is read but never used.
- `put_object`, the endless loop and `sleep(5)`: `RunCycle` is one cycle and ends with the document that would be published.
- `Reconciliation.IndexCharts`: when entries filed under different chart names share one derived key, which of them ends up in `indexed_charts` depends on the order of the `entries` dictionary. The contract leaves open only that choice. It does state that the stored entry is the last one with that key in its own chart list.
- Concurrency: the code is single-threaded and takes no locks.
