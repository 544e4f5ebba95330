/**
 * Which pages a run renders: the CLI's optional 1-based bounds, their
 * 0-based form, the defaults the rasterizer applies, and the pages it
 * walks through.
 */
module PageRange {
  import opened Wrappers

  /** A CLI page number (1-based) as the 0-based index handed to the rasterizer; absent stays absent. */
  function ToZeroBased(page: Option<int>): (r: Option<int>)
    ensures r.None? <==> page.None?
    ensures r.Some? ==> r.value == page.value - 1
  {
    match page
    case None => None
    case Some(n) => Some(n - 1)
  }

  /** The first index rendered: the given 0-based start, or the first page. */
  function ResolveStart(first: Option<int>): int
  {
    match first
    case None => 0
    case Some(s) => s
  }

  /** The last index rendered: the given 0-based end, or the document's last page. */
  function ResolveEnd(last: Option<int>, pageCount: nat): int
  {
    match last
    case None => pageCount - 1
    case Some(e) => e
  }

  /** The page total the rasterizer announces: computed, never checked against the range. */
  function ReportedTotal(start: int, end: int): int
  {
    end - start + 1
  }

  /** `range(start, end + 1)`: the indices rendered, in the order they are rendered. */
  function PageIndices(start: int, end: int): (r: seq<int>)
    decreases if start <= end then end - start + 1 else 0
    ensures |r| == if start <= end then end - start + 1 else 0
    ensures forall i :: 0 <= i < |r| ==> r[i] == start + i
  {
    if start > end then [] else [start] + PageIndices(start + 1, end)
  }

  /** Every index the range touches names a page of the document, as the renderer demands. */
  predicate InDocument(start: int, end: int, pageCount: nat)
  {
    start > end || (0 <= start && end < pageCount)
  }

  /** The announced total equals the number of pages rendered exactly when the range is not reversed by more than one. */
  lemma ReportedTotalMatches(start: int, end: int)
    ensures ReportedTotal(start, end) == |PageIndices(start, end)| <==> start <= end + 1
    ensures start > end + 1 ==> ReportedTotal(start, end) < 0
  {
  }

  /**
   * In the user's 1-based numbering, the pages rendered are those between
   * the two options inclusive, an absent first option meaning page 1 and an
   * absent last option meaning the last page.
   */
  lemma {:induction false} RenderedPagesFromOptions(firstPage: Option<int>, lastPage: Option<int>, pageCount: nat, p: int)
    ensures var start := ResolveStart(ToZeroBased(firstPage));
            var end := ResolveEnd(ToZeroBased(lastPage), pageCount);
            (p - 1 in PageIndices(start, end)) <==>
              (firstPage.None? ==> 1 <= p) && (firstPage.Some? ==> firstPage.value <= p) &&
              (lastPage.None? ==> p <= pageCount) && (lastPage.Some? ==> p <= lastPage.value)
  {
    var start := ResolveStart(ToZeroBased(firstPage));
    var end := ResolveEnd(ToZeroBased(lastPage), pageCount);
    var r := PageIndices(start, end);
    if start <= p - 1 <= end {
      assert r[p - 1 - start] == p - 1;
    }
  }
}
