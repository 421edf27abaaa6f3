/**
 * The parsed index.yaml document and the removal of one chart release from it.
 */
module IndexDocuments {
  import opened Wrappers

  /** One element of a chart's version list. Only `name` and `version` are
      interpreted; either may be missing or null. Everything else an entry
      carries (digest, urls, description, ...) is kept as opaque metadata. */
  datatype Entry = Entry(name: Option<string>, version: Option<string>, metadata: map<string, string>)

  /** The `entries` mapping: chart name to its list of entries, in file order. */
  type ChartMap = map<string, seq<Entry>>

  /** An entry with both a name and a version; only these take part in reconciliation. */
  predicate IsValid(e: Entry) {
    e.name.Some? && e.version.Some?
  }

  /** `.get(name, [])` on the entries mapping. */
  function Lookup(m: ChartMap, name: string): seq<Entry> {
    if name in m then m[name] else []
  }

  /** The loop test of remove_chart_entry: an entry is kept when its name or
      its version differs from the release being removed (a missing field
      never equals a string). */
  predicate Survives(e: Entry, chartName: string, chartVersion: string) {
    e.name != Some(chartName) || e.version != Some(chartVersion)
  }

  /** The list remove_chart_entry builds: the surviving entries, in order. */
  function FilterChart(charts: seq<Entry>, chartName: string, chartVersion: string): (kept: seq<Entry>)
    ensures |kept| <= |charts|
    ensures forall e :: e in kept <==> e in charts && Survives(e, chartName, chartVersion)
  {
    if charts == [] then []
    else
      var rest := FilterChart(charts[1..], chartName, chartVersion);
      if Survives(charts[0], chartName, chartVersion) then [charts[0]] + rest else rest
  }

  /** Extending the scanned prefix by one entry extends the kept list by
      that entry exactly when it survives. */
  lemma FilterChartStep(charts: seq<Entry>, i: nat, chartName: string, chartVersion: string)
    requires i < |charts|
    ensures Survives(charts[i], chartName, chartVersion) ==>
              FilterChart(charts[..i + 1], chartName, chartVersion)
              == FilterChart(charts[..i], chartName, chartVersion) + [charts[i]]
    ensures !Survives(charts[i], chartName, chartVersion) ==>
              FilterChart(charts[..i + 1], chartName, chartVersion)
              == FilterChart(charts[..i], chartName, chartVersion)
  {
    assert charts[..i + 1] == charts[..i] + [charts[i]];
    FilterChartAppend(charts[..i], [charts[i]], chartName, chartVersion);
    assert [charts[i]][1..] == [];
  }

  /** Filtering works element by element: it keeps the relative order of what survives. */
  lemma {:induction false} FilterChartAppend(a: seq<Entry>, b: seq<Entry>, chartName: string, chartVersion: string)
    ensures FilterChart(a + b, chartName, chartVersion)
         == FilterChart(a, chartName, chartVersion) + FilterChart(b, chartName, chartVersion)
  {
    if a != [] {
      assert (a + b)[1..] == a[1..] + b;
      FilterChartAppend(a[1..], b, chartName, chartVersion);
    } else {
      assert a + b == b;
    }
  }

  /** A list with no entry of the given release is left as it is. */
  lemma {:induction false} FilterChartNoMatch(charts: seq<Entry>, chartName: string, chartVersion: string)
    requires forall e :: e in charts ==> Survives(e, chartName, chartVersion)
    ensures FilterChart(charts, chartName, chartVersion) == charts
  {
    if charts != [] {
      FilterChartNoMatch(charts[1..], chartName, chartVersion);
      assert charts == [charts[0]] + charts[1..];
    }
  }

  /** Filtering twice for the same release is filtering once. */
  lemma {:induction false} FilterChartIdempotent(charts: seq<Entry>, chartName: string, chartVersion: string)
    ensures FilterChart(FilterChart(charts, chartName, chartVersion), chartName, chartVersion)
         == FilterChart(charts, chartName, chartVersion)
  {
    FilterChartNoMatch(FilterChart(charts, chartName, chartVersion), chartName, chartVersion);
  }

  /** The entries mapping after remove_chart_entry(doc, chartName, chartVersion):
      only the list under `chartName` changes, and a missing one appears empty. */
  function RemoveChart(m: ChartMap, chartName: string, chartVersion: string): (r: ChartMap)
    ensures r.Keys == m.Keys + {chartName}
    ensures forall c :: c in m && c != chartName ==> r[c] == m[c]
    ensures forall e :: e in r[chartName] <==> e in Lookup(m, chartName) && Survives(e, chartName, chartVersion)
    ensures chartName !in m ==> r[chartName] == []
  {
    m[chartName := FilterChart(Lookup(m, chartName), chartName, chartVersion)]
  }

  /** Removing a release twice gives the document removing it once gives. */
  lemma {:induction false} RemoveChartIdempotent(m: ChartMap, chartName: string, chartVersion: string)
    ensures RemoveChart(RemoveChart(m, chartName, chartVersion), chartName, chartVersion)
         == RemoveChart(m, chartName, chartVersion)
  {
    FilterChartIdempotent(Lookup(m, chartName), chartName, chartVersion);
  }

  /** The parsed index.yaml, updated in place by the removal step.
      `entries` is None when the document has no `entries` key. */
  class IndexDocument {
    var entries: Option<ChartMap>

    constructor (entries: Option<ChartMap>)
      ensures this.entries == entries
    {
      this.entries := entries;
    }

    /** remove_chart_entry: rebuild the list filed under `chartName`
        without any entry of release (chartName, chartVersion) and store it
        back under that name. The document must have an `entries` key: the
        final store raises KeyError otherwise. */
    method RemoveChartEntry(chartName: string, chartVersion: string)
      requires entries.Some?
      modifies this
      ensures entries.Some? && entries.value == RemoveChart(old(entries.value), chartName, chartVersion)
    {
      var m := entries.value;
      var charts := Lookup(m, chartName);
      var chartData: seq<Entry> := [];
      for i := 0 to |charts|
        invariant entries == old(entries)
        invariant chartData == FilterChart(charts[..i], chartName, chartVersion)
      {
        if charts[i].name != Some(chartName) || charts[i].version != Some(chartVersion) {
          chartData := chartData + [charts[i]];
        }
        FilterChartStep(charts, i, chartName, chartVersion);
      }
      assert charts[..|charts|] == charts;
      entries := Some(m[chartName := chartData]);
    }
  }
}
