/**
  A model of `extract_pages`: copy the pages named by a list of 1-based,
  inclusive (start, end) ranges from a document into a new one, range by
  range and page by page. A document is a sequence of opaque pages `P`;
  the PDF writer is a small object whose page list grows by appends.
 */
module PageExtraction {

  /** A requested range: 1-based page numbers, both ends included. */
  datatype PageRange = PageRange(start: int, end: int)

  /** The one failure of the loop: a 0-based page index past the last page. */
  datatype ExtractError = PageIndexOutOfRange(index: int)

  datatype Result<T> = Success(value: T) | Failure(error: ExtractError)

  /** Every range starts at page 1 or later (0-based index 0 or later). */
  predicate OneBased(ranges: seq<PageRange>)
  {
    forall i :: 0 <= i < |ranges| ==> ranges[i].start >= 1
  }

  /** The integers `lo, lo + 1, ..., hi - 1`, as `range(lo, hi)` yields them. */
  function IntRange(lo: int, hi: int): seq<int>
    decreases hi - lo
  {
    if lo >= hi then [] else [lo] + IntRange(lo + 1, hi)
  }

  /** The 0-based indices the inner loop visits for one range. */
  function PageIndices(r: PageRange): seq<int>
  {
    IntRange(r.start - 1, r.end)
  }

  /** The 0-based indices visited for all ranges, in visiting order. */
  function AllPageIndices(ranges: seq<PageRange>): seq<int>
  {
    if ranges == [] then []
    else AllPageIndices(ranges[..|ranges| - 1]) + PageIndices(ranges[|ranges| - 1])
  }

  /** How many pages a range selects: `max(0, end - start + 1)`. */
  function RangeLength(r: PageRange): nat
  {
    if r.start <= r.end then r.end - r.start + 1 else 0
  }

  /** How many pages all ranges select together. */
  function TotalLength(ranges: seq<PageRange>): nat
  {
    if ranges == [] then 0
    else TotalLength(ranges[..|ranges| - 1]) + RangeLength(ranges[|ranges| - 1])
  }

  /** A range can be extracted from a document of `n` pages: it is empty or ends by page `n`. */
  predicate InBounds(r: PageRange, n: int)
  {
    r.start > r.end || r.end <= n
  }

  /**
    The pages one range contributes. An empty range contributes nothing
    whatever its bounds; a non-empty range ending past the document fails at
    the first index the loop reaches that is not a page, which is
    `max(start - 1, n)`.
   */
  function RangeExtraction<P>(pages: seq<P>, r: PageRange): Result<seq<P>>
    requires r.start >= 1
  {
    if r.start > r.end then Success([])
    else if r.end > |pages| then
      Failure(PageIndexOutOfRange(if r.start - 1 > |pages| then r.start - 1 else |pages|))
    else Success(pages[r.start - 1..r.end])
  }

  /**
    The document the writer holds after all ranges: the concatenation of
    each range's pages in list order, or the failure of the first range that
    fails.
   */
  function Extraction<P>(pages: seq<P>, ranges: seq<PageRange>): Result<seq<P>>
    requires OneBased(ranges)
  {
    if ranges == [] then Success([])
    else
      var init := ranges[..|ranges| - 1];
      match Extraction(pages, init)
      case Failure(e) => Failure(e)
      case Success(front) =>
        match RangeExtraction(pages, ranges[|ranges| - 1])
        case Failure(e) => Failure(e)
        case Success(back) => Success(front + back)
  }

  // ---------------------------------------------------------------------------
  // The writer and the extraction loop
  // ---------------------------------------------------------------------------

  /** The output document under construction; pages are only ever appended. */
  class Writer<P> {
    var pages: seq<P>

    constructor ()
      ensures pages == []
    {
      pages := [];
    }

    method AddPage(page: P)
      modifies this
      ensures pages == old(pages) + [page]
    {
      pages := pages + [page];
    }
  }

  /**
    The nested loop of `extract_pages`: for each range in order, for each
    0-based index from `start - 1` up to `end - 1`, read that page and
    append it to the writer. Reading a missing page stops the extraction.
   */
  method ExtractPages<P>(pages: seq<P>, pageRanges: seq<PageRange>) returns (r: Result<seq<P>>)
    requires OneBased(pageRanges)
    ensures r == Extraction(pages, pageRanges)
  {
    var writer := new Writer<P>();
    var i := 0;
    while i < |pageRanges|
      invariant 0 <= i <= |pageRanges|
      invariant Extraction(pages, pageRanges[..i]) == Success(writer.pages)
    {
      var start, end := pageRanges[i].start, pageRanges[i].end;
      ghost var before := writer.pages;
      var pageNum := start - 1;
      while pageNum < end
        invariant start - 1 <= pageNum
        invariant pageNum == start - 1 ==> writer.pages == before
        invariant pageNum > start - 1 ==>
          pageNum <= end && pageNum <= |pages| && writer.pages == before + pages[start - 1..pageNum]
      {
        if pageNum >= |pages| {
          assert pageRanges[..i + 1][..i] == pageRanges[..i];
          assert Extraction(pages, pageRanges[..i + 1]) == Failure(PageIndexOutOfRange(pageNum));
          ExtractionConcat(pages, pageRanges[..i + 1], pageRanges[i + 1..]);
          assert pageRanges[..i + 1] + pageRanges[i + 1..] == pageRanges;
          return Failure(PageIndexOutOfRange(pageNum));
        }
        var page := pages[pageNum];
        writer.AddPage(page);
        pageNum := pageNum + 1;
      }
      assert pageRanges[..i + 1][..i] == pageRanges[..i];
      if start <= end {
        assert RangeExtraction(pages, pageRanges[i]) == Success(pages[start - 1..end]);
      } else {
        assert writer.pages == before + [];
      }
      i := i + 1;
    }
    assert pageRanges[..i] == pageRanges;
    return Success(writer.pages);
  }

  // ---------------------------------------------------------------------------
  // Properties of the specification
  // ---------------------------------------------------------------------------

  /** `range(lo, hi)` has `max(0, hi - lo)` elements and its k-th is `lo + k`. */
  lemma {:induction false} IntRangeAt(lo: int, hi: int)
    ensures |IntRange(lo, hi)| == if lo < hi then hi - lo else 0
    ensures forall k :: 0 <= k < |IntRange(lo, hi)| ==> IntRange(lo, hi)[k] == lo + k
    decreases hi - lo
  {
    if lo < hi {
      IntRangeAt(lo + 1, hi);
    }
  }

  /**
    One range against its visited indices: it succeeds exactly when every
    index is a page, and then its k-th page is the page at the k-th index,
    `start - 1 + k`.
   */
  lemma RangeExtractionByIndices<P>(pages: seq<P>, r: PageRange)
    requires r.start >= 1
    ensures |PageIndices(r)| == RangeLength(r)
    ensures RangeExtraction(pages, r).Success? <==>
      forall k :: 0 <= k < |PageIndices(r)| ==> PageIndices(r)[k] < |pages|
    ensures RangeExtraction(pages, r).Success? ==>
      |RangeExtraction(pages, r).value| == |PageIndices(r)| &&
      forall k :: 0 <= k < |PageIndices(r)| ==>
        PageIndices(r)[k] == r.start - 1 + k &&
        RangeExtraction(pages, r).value[k] == pages[PageIndices(r)[k]]
  {
    IntRangeAt(r.start - 1, r.end);
    if r.start <= r.end && r.end > |pages| {
      assert PageIndices(r)[r.end - r.start] == r.end - 1;
    }
  }

  /** A list holding one range extracts exactly that range. */
  lemma ExtractionOfOne<P>(pages: seq<P>, r: PageRange)
    requires r.start >= 1
    ensures Extraction(pages, [r]) == RangeExtraction(pages, r)
  {
    assert [r][..0] == [];
    if RangeExtraction(pages, r).Success? {
      assert [] + RangeExtraction(pages, r).value == RangeExtraction(pages, r).value;
    }
  }

  /** A single range `1 <= s <= e <= N` yields `e - s + 1` pages, page k being input index `s - 1 + k`. */
  lemma SingleRange<P>(pages: seq<P>, r: PageRange)
    requires 1 <= r.start <= r.end <= |pages|
    ensures Extraction(pages, [r]).Success?
    ensures |Extraction(pages, [r]).value| == r.end - r.start + 1
    ensures forall k :: 0 <= k < r.end - r.start + 1 ==>
      Extraction(pages, [r]).value[k] == pages[r.start - 1 + k]
  {
  }

  /** Extraction succeeds exactly when every range is empty or ends by the last page. */
  lemma {:induction false} ExtractionSucceedsIff<P>(pages: seq<P>, ranges: seq<PageRange>)
    requires OneBased(ranges)
    ensures Extraction(pages, ranges).Success? <==>
      forall i :: 0 <= i < |ranges| ==> InBounds(ranges[i], |pages|)
  {
    if ranges != [] {
      var init := ranges[..|ranges| - 1];
      ExtractionSucceedsIff(pages, init);
      assert forall i :: 0 <= i < |init| ==> init[i] == ranges[i];
    }
  }

  /** The number of pages extracted is the sum over the ranges of `max(0, end - start + 1)`. */
  lemma {:induction false} ExtractionLength<P>(pages: seq<P>, ranges: seq<PageRange>)
    requires OneBased(ranges)
    requires Extraction(pages, ranges).Success?
    ensures |Extraction(pages, ranges).value| == TotalLength(ranges)
  {
    if ranges != [] {
      ExtractionLength(pages, ranges[..|ranges| - 1]);
    }
  }

  /**
    The extraction against the indices the loops visit: it succeeds exactly
    when every visited index is a page, and then its j-th page is the page at
    the j-th visited index.
   */
  lemma {:induction false} ExtractionByIndices<P>(pages: seq<P>, ranges: seq<PageRange>)
    requires OneBased(ranges)
    ensures Extraction(pages, ranges).Success? <==>
      forall j :: 0 <= j < |AllPageIndices(ranges)| ==> AllPageIndices(ranges)[j] < |pages|
    ensures Extraction(pages, ranges).Success? ==>
      |Extraction(pages, ranges).value| == |AllPageIndices(ranges)| &&
      forall j :: 0 <= j < |AllPageIndices(ranges)| ==>
        0 <= AllPageIndices(ranges)[j] < |pages| &&
        Extraction(pages, ranges).value[j] == pages[AllPageIndices(ranges)[j]]
  {
    if ranges != [] {
      var init, last := ranges[..|ranges| - 1], ranges[|ranges| - 1];
      ExtractionByIndices(pages, init);
      RangeExtractionByIndices(pages, last);
      var front, back := AllPageIndices(init), PageIndices(last);
      assert AllPageIndices(ranges) == front + back;
      if Extraction(pages, ranges).Success? {
        var outFront, outBack := Extraction(pages, init).value, RangeExtraction(pages, last).value;
        var out := Extraction(pages, ranges).value;
        assert out == outFront + outBack;
        forall j | 0 <= j < |front + back|
          ensures 0 <= (front + back)[j] < |pages| && out[j] == pages[(front + back)[j]]
        {
          if j < |front| {
            assert (front + back)[j] == front[j] && out[j] == outFront[j];
          } else {
            assert (front + back)[j] == back[j - |front|] && out[j] == outBack[j - |front|];
          }
        }
      } else if Extraction(pages, init).Failure? {
        var j :| 0 <= j < |front| && front[j] >= |pages|;
        assert (front + back)[j] == front[j];
      } else {
        var k :| 0 <= k < |back| && back[k] >= |pages|;
        assert (front + back)[|front| + k] == back[k];
      }
    }
  }

  /**
    A failure names the first visited index that is not a page: the index
    at which `pdf_reader.pages[page_num]` raises.
   */
  lemma {:induction false} ExtractionFailure<P>(pages: seq<P>, ranges: seq<PageRange>)
    requires OneBased(ranges)
    requires Extraction(pages, ranges).Failure?
    ensures exists j ::
      && 0 <= j < |AllPageIndices(ranges)|
      && AllPageIndices(ranges)[j] == Extraction(pages, ranges).error.index
      && AllPageIndices(ranges)[j] >= |pages|
      && (forall j' :: 0 <= j' < j ==> AllPageIndices(ranges)[j'] < |pages|)
  {
    var init, last := ranges[..|ranges| - 1], ranges[|ranges| - 1];
    var front, back := AllPageIndices(init), PageIndices(last);
    assert AllPageIndices(ranges) == front + back;
    var bad := Extraction(pages, ranges).error.index;
    if Extraction(pages, init).Failure? {
      ExtractionFailure(pages, init);
      var j :| 0 <= j < |front| && front[j] == bad && front[j] >= |pages| &&
        forall j' :: 0 <= j' < j ==> front[j'] < |pages|;
      assert (front + back)[j] == front[j];
      assert forall j' :: 0 <= j' < j ==> (front + back)[j'] == front[j'];
    } else {
      ExtractionByIndices(pages, init);
      IntRangeAt(last.start - 1, last.end);
      assert RangeExtraction(pages, last).Failure?;
      assert bad == RangeExtraction(pages, last).error.index;
      var j := |front| + (bad - (last.start - 1));
      assert (front + back)[j] == back[bad - (last.start - 1)];
      forall j' | 0 <= j' < j
        ensures (front + back)[j'] < |pages|
      {
        if j' >= |front| {
          assert (front + back)[j'] == back[j' - |front|];
        }
      }
    }
  }

  /**
    Ranges are processed independently and in order: the pages of a later
    list of ranges follow those of an earlier one, and the first failure wins.
   */
  lemma {:induction false} ExtractionConcat<P>(pages: seq<P>, a: seq<PageRange>, b: seq<PageRange>)
    requires OneBased(a) && OneBased(b)
    ensures OneBased(a + b)
    ensures Extraction(pages, a).Failure? ==> Extraction(pages, a + b) == Extraction(pages, a)
    ensures Extraction(pages, a).Success? && Extraction(pages, b).Failure? ==>
      Extraction(pages, a + b) == Extraction(pages, b)
    ensures Extraction(pages, a).Success? && Extraction(pages, b).Success? ==>
      Extraction(pages, a + b) == Success(Extraction(pages, a).value + Extraction(pages, b).value)
    decreases |b|
  {
    assert forall i :: 0 <= i < |a + b| ==> (a + b)[i] == if i < |a| then a[i] else b[i - |a|];
    if b == [] {
      assert a + b == a;
      if Extraction(pages, a).Success? {
        assert Extraction(pages, a).value + [] == Extraction(pages, a).value;
      }
    } else {
      var init := b[..|b| - 1];
      assert (a + b)[..|a + b| - 1] == a + init;
      assert (a + b)[|a + b| - 1] == b[|b| - 1];
      ExtractionConcat(pages, a, init);
      if Extraction(pages, a).Success? && Extraction(pages, b).Success? {
        var x, y := Extraction(pages, a).value, Extraction(pages, init).value;
        var z := RangeExtraction(pages, b[|b| - 1]).value;
        assert (x + y) + z == x + (y + z);
      }
    }
  }

  /** Ranges that select nothing (`start > end`) produce an empty document, whatever the page count. */
  lemma {:induction false} EmptyRanges<P>(pages: seq<P>, ranges: seq<PageRange>)
    requires OneBased(ranges)
    requires forall i :: 0 <= i < |ranges| ==> ranges[i].start > ranges[i].end
    ensures Extraction(pages, ranges) == Success([])
  {
    if ranges != [] {
      var init := ranges[..|ranges| - 1];
      assert forall i :: 0 <= i < |init| ==> init[i] == ranges[i];
      EmptyRanges(pages, init);
      var none: seq<P> := [];
      assert none + none == none;
    }
  }

  /** Two ranges in a row extract the first range's pages, then the second's. */
  lemma ExtractionOfTwo<P>(pages: seq<P>, r1: PageRange, r2: PageRange)
    requires 1 <= r1.start && InBounds(r1, |pages|) && 1 <= r2.start && InBounds(r2, |pages|)
    ensures Extraction(pages, [r1, r2]) ==
      Success(RangeExtraction(pages, r1).value + RangeExtraction(pages, r2).value)
  {
    ExtractionOfOne(pages, r1);
    ExtractionOfOne(pages, r2);
    ExtractionConcat(pages, [r1], [r2]);
    assert [r1] + [r2] == [r1, r2];
  }

  /** Repeating a range duplicates its pages rather than merging them. */
  lemma RepeatedRange<P>(pages: seq<P>, r: PageRange)
    requires 1 <= r.start && InBounds(r, |pages|)
    ensures Extraction(pages, [r, r]) == Success(RangeExtraction(pages, r).value + RangeExtraction(pages, r).value)
    ensures |Extraction(pages, [r, r]).value| == 2 * RangeLength(r)
  {
    ExtractionOfTwo(pages, r, r);
    RangeExtractionByIndices(pages, r);
  }

  /**
    Two overlapping ranges are not merged: the output holds both ranges in
    full, so every page in the overlap appears once for each range.
   */
  lemma OverlappingRanges<P>(pages: seq<P>, r1: PageRange, r2: PageRange)
    requires 1 <= r1.start <= r1.end <= |pages| && 1 <= r2.start <= r2.end <= |pages|
    ensures Extraction(pages, [r1, r2]).Success?
    ensures |Extraction(pages, [r1, r2]).value| == RangeLength(r1) + RangeLength(r2)
    ensures forall p :: r1.start - 1 <= p < r1.end && r2.start - 1 <= p < r2.end ==>
      Extraction(pages, [r1, r2]).value[p - (r1.start - 1)] == pages[p] &&
      Extraction(pages, [r1, r2]).value[RangeLength(r1) + p - (r2.start - 1)] == pages[p]
  {
    var first, second := pages[r1.start - 1..r1.end], pages[r2.start - 1..r2.end];
    ExtractionOfTwo(pages, r1, r2);
    forall p | r1.start - 1 <= p < r1.end && r2.start - 1 <= p < r2.end
      ensures (first + second)[p - (r1.start - 1)] == pages[p]
      ensures (first + second)[|first| + p - (r2.start - 1)] == pages[p]
    {
      assert (first + second)[p - (r1.start - 1)] == first[p - (r1.start - 1)];
      assert (first + second)[|first| + p - (r2.start - 1)] == second[p - (r2.start - 1)];
    }
  }

  // ---------------------------------------------------------------------------
  // The three example invocations
  // ---------------------------------------------------------------------------

  /** `[(4, 7)]` extracts the four pages 4 to 7. */
  lemma ExampleIntro<P>(pages: seq<P>)
    requires |pages| >= 7
    ensures Extraction(pages, [PageRange(4, 7)]) == Success(pages[3..7])
    ensures |Extraction(pages, [PageRange(4, 7)]).value| == 4
  {
    ExtractionOfOne(pages, PageRange(4, 7));
  }

  /** `[(8, 11)]` extracts the four pages 8 to 11. */
  lemma ExampleChapter1<P>(pages: seq<P>)
    requires |pages| >= 11
    ensures Extraction(pages, [PageRange(8, 11)]) == Success(pages[7..11])
    ensures |Extraction(pages, [PageRange(8, 11)]).value| == 4
  {
    ExtractionOfOne(pages, PageRange(8, 11));
  }

  /** `[(98, 104)]` extracts the seven pages 98 to 104. */
  lemma ExampleGlossary<P>(pages: seq<P>)
    requires |pages| >= 104
    ensures Extraction(pages, [PageRange(98, 104)]) == Success(pages[97..104])
    ensures |Extraction(pages, [PageRange(98, 104)]).value| == 7
  {
    ExtractionOfOne(pages, PageRange(98, 104));
  }

  /** On a document of 100 pages, `[(98, 104)]` fails at 0-based index 100 instead of truncating. */
  lemma ExampleGlossaryTooShort<P>(pages: seq<P>)
    requires |pages| == 100
    ensures Extraction(pages, [PageRange(98, 104)]) == Failure(PageIndexOutOfRange(100))
  {
  }
}
