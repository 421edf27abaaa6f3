/**
 * The catalog of chart archives: every ".tgz" key under the repository
 * prefix, collected by draining a paged bucket listing.
 */
module ArchiveCatalog {
  import opened Wrappers
  import opened ArchiveKeys

  /** One listing response. `contents` is None when the response has no
      `Contents` field (the store omits it for a page without objects);
      `isTruncated` says whether more pages follow. */
  datatype Page = Page(contents: Option<seq<string>>, isTruncated: bool)

  datatype ListingError =
    | RequestFailed   // a page was requested that the store did not deliver
    | NoContents      // a delivered page had no `Contents` field

  /** Index of the first page that ends the listing, or |pages| if none does. */
  function FirstFinalPage(pages: seq<Page>): (i: nat)
    ensures i <= |pages|
    ensures forall j :: 0 <= j < i ==> pages[j].isTruncated
    ensures i < |pages| ==> !pages[i].isTruncated
  {
    if pages == [] then 0
    else if !pages[0].isTruncated then 0
    else 1 + FirstFinalPage(pages[1..])
  }

  /** The listing can be drained: some page ends it and every page up to
      and including that one carries a `Contents` field. */
  predicate Completes(pages: seq<Page>) {
    FirstFinalPage(pages) < |pages| &&
    forall j :: 0 <= j <= FirstFinalPage(pages) ==> pages[j].contents.Some?
  }

  /** The archive keys on the first n pages. */
  function KeysOnPages(pages: seq<Page>, n: nat): set<string>
    requires n <= |pages|
  {
    set j, k | 0 <= j < n && pages[j].contents.Some? && k in pages[j].contents.value && IsArchiveKey(k) :: k
  }

  /** Draining one more page adds the archive keys it lists. */
  lemma KeysOnPagesStep(pages: seq<Page>, i: nat)
    requires i < |pages| && pages[i].contents.Some?
    ensures KeysOnPages(pages, i + 1)
         == KeysOnPages(pages, i) + set k | k in pages[i].contents.value && IsArchiveKey(k)
  {
  }

  /** The catalog a complete listing yields: archive keys of every page up
      to and including the first untruncated one, and of no later page. */
  function Catalog(pages: seq<Page>): set<string>
    requires Completes(pages)
  {
    KeysOnPages(pages, FirstFinalPage(pages) + 1)
  }

  /** The paging loop of one indexing cycle. `pages` are the responses the
      store gives to successive requests, each request carrying the
      continuation token of the previous response. */
  method ListArchiveKeys(pages: seq<Page>) returns (r: Result<set<string>, ListingError>)
    ensures r.Success? <==> Completes(pages)
    ensures r.Success? ==> r.value == Catalog(pages)
    ensures r.Success? ==> forall k :: k in r.value ==> IsArchiveKey(k)
  {
    var chartSet: set<string> := {};
    var hasAllObjects := false;
    var i := 0;
    while !hasAllObjects
      invariant i <= |pages|
      invariant forall j :: 0 <= j < i ==> pages[j].contents.Some?
      invariant !hasAllObjects ==> forall j :: 0 <= j < i ==> pages[j].isTruncated
      invariant hasAllObjects ==> 0 < i && !pages[i - 1].isTruncated && forall j :: 0 <= j < i - 1 ==> pages[j].isTruncated
      invariant chartSet == KeysOnPages(pages, i)
      decreases |pages| - i
    {
      if i == |pages| {
        assert FirstFinalPage(pages) == |pages|;
        return Failure(RequestFailed);
      }
      var page := pages[i];
      hasAllObjects := !page.isTruncated;
      if page.contents.None? {
        assert FirstFinalPage(pages) >= i;
        return Failure(NoContents);
      }
      var keys := page.contents.value;
      for t := 0 to |keys|
        invariant chartSet == KeysOnPages(pages, i) + set k | k in keys[..t] && IsArchiveKey(k)
      {
        if IsArchiveKey(keys[t]) {
          chartSet := chartSet + {keys[t]};
        }
        assert keys[..t + 1] == keys[..t] + [keys[t]];
      }
      assert keys[..|keys|] == keys;
      KeysOnPagesStep(pages, i);
      i := i + 1;
    }
    assert FirstFinalPage(pages) == i - 1;
    return Success(chartSet);
  }
}
