/**
 * The pure parts of the data-fetching hooks (useJobItems and useSearchQuery
 * in src/lib/hooks.ts). Fetching and the query library's cache are not
 * modelled: what the library reports for one query is an input.
 */
module JobQueries {
  import opened Wrappers
  import opened JobTypes

  /** What the query library reports for one query: the data if it has arrived, and its loading flags. */
  datatype QueryResult<T> = QueryResult(data: Option<T>, isLoading: bool, isInitialLoading: bool)

  /** The body of a successful single-item response. */
  datatype JobItemApiResponse = JobItemApiResponse(isPublic: bool, jobItem: JobItemContent)

  type JobItemQuery = QueryResult<JobItemApiResponse>

  /** `ids.map(...)` handed to the query library: one result per id, in the order of the ids. */
  function ResultsFor(ids: seq<int>, lookup: int -> JobItemQuery): (results: seq<JobItemQuery>)
    ensures |results| == |ids|
    ensures forall i :: 0 <= i < |ids| ==> results[i] == lookup(ids[i])
  {
    seq(|ids|, i requires 0 <= i < |ids| => lookup(ids[i]))
  }

  /** Positions of the results whose data has arrived, in increasing order. */
  function DefinedIndices(results: seq<JobItemQuery>): (idx: seq<nat>)
    ensures |idx| <= |results|
    ensures forall j :: 0 <= j < |idx| ==> idx[j] < |results| && results[idx[j]].data.Some?
    ensures forall j, k :: 0 <= j < k < |idx| ==> idx[j] < idx[k]
    ensures forall i :: 0 <= i < |results| && results[i].data.Some? ==> i in idx
  {
    if results == [] then []
    else
      var n := |results| - 1;
      DefinedIndices(results[..n]) + (if results[n].data.Some? then [n] else [])
  }

  /** `result.data?.jobItem`. */
  function Payload(result: JobItemQuery): (item: Option<JobItemContent>)
    ensures item.None? <==> result.data.None?
    ensures item.Some? ==> result.data == Some(JobItemApiResponse(result.data.value.isPublic, item.value))
  {
    match result.data
    case Some(response) => Some(response.jobItem)
    case None => None
  }

  /**
   * `results.map((result) => result.data?.jobItem).filter((jobItem) => jobItem !== undefined)`:
   * the payload of every result whose data has arrived, in the order of the results.
   */
  function Payloads(results: seq<JobItemQuery>): (items: seq<JobItemContent>)
    ensures var idx := DefinedIndices(results);
      && |items| == |idx|
      && forall j :: 0 <= j < |items| ==> Payload(results[idx[j]]) == Some(items[j])
  {
    if results == [] then []
    else
      var n := |results| - 1;
      var earlier := Payloads(results[..n]);
      earlier + (match Payload(results[n]) case Some(item) => [item] case None => [])
  }

  /**
   * useJobItems: the job items of the given ids whose data has arrived, in
   * the order of the ids, and whether any of the per-id queries is loading.
   */
  method UseJobItems(ids: seq<int>, lookup: int -> JobItemQuery) returns (jobItems: seq<JobItemContent>, isLoading: bool)
    ensures jobItems == Payloads(ResultsFor(ids, lookup))
    ensures |jobItems| <= |ids|
    ensures isLoading <==> exists i :: 0 <= i < |ids| && lookup(ids[i]).isLoading
  {
    var results := ResultsFor(ids, lookup);
    jobItems, isLoading := [], false;
    for i := 0 to |results|
      invariant jobItems == Payloads(results[..i])
      invariant isLoading <==> exists k :: 0 <= k < i && results[k].isLoading
    {
      assert results[..i + 1][..i] == results[..i];
      match Payload(results[i]) {
        case Some(item) => jobItems := jobItems + [item];
        case None =>
      }
      isLoading := isLoading || results[i].isLoading;
    }
    assert results[..|results|] == results;
  }

  /** What useSearchQuery hands to its callers. */
  datatype SearchQuery = SearchQuery(jobItems: seq<JobItem>, isLoading: bool)

  /**
   * useSearchQuery: the fetched list, or the empty list while there is no
   * data (`data || []`; an array, even an empty one, is truthy), and the
   * query's initial-loading flag.
   */
  function UseSearchQuery(query: QueryResult<seq<JobItem>>): (r: SearchQuery)
    ensures query.data.None? ==> r.jobItems == []
    ensures query.data.Some? ==> r.jobItems == query.data.value
    ensures r.isLoading <==> query.isInitialLoading
  {
    SearchQuery(match query.data case Some(items) => items case None => [], query.isInitialLoading)
  }
}
