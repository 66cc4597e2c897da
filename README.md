# Page extraction

A Dafny model of `extract_pages` from
`gen-ai-business-case-recruiting/data/utils/extract_pages.py`. The function
takes a list of `(start, end)` page ranges. Both ends are 1-based and
inclusive. For each range in list order it walks the 0-based indices
`range(start - 1, end)`, reads each page from the input document and appends
it to a PDF writer. Then it writes the new document.

The model (module `PageExtraction`, file `extract_pages.dfy`):

- A document is a `seq<P>` of opaque pages. It is a value, so the extraction
  only reads it and cannot change it.
- `Writer` stands for the PDF writer. It is an object whose page list grows
  by one page at each `AddPage`.
- `ExtractPages` is the nested loop. It returns `Success(document)`, or
  `Failure(PageIndexOutOfRange(i))` when the loop reads a page index `i` that
  the document does not have. That is where the Python code raises
  `IndexError`. In that case no output file is written, so the partial writer
  content is dropped.
- `Extraction` is the specification function. It concatenates
  `RangeExtraction` over the ranges, in list order, and the first range that
  fails decides the error. `AllPageIndices` is an independent reference: it
  lists the 0-based indices that Python's `range` yields, range after range.
  The lemmas connect the two definitions.

## Model

| member | source | states |
|---|---|---|
| PageExtraction.ExtractPages | gen-ai-business-case-recruiting/data/utils/extract_pages.py:20-23 | the nested loop's result is exactly `Extraction(pages, ranges)`: the concatenation of every range's pages in list order, or the first out-of-range failure |
| PageExtraction.Writer.constructor | gen-ai-business-case-recruiting/data/utils/extract_pages.py:18 | a new writer holds no pages |
| PageExtraction.Writer.AddPage | gen-ai-business-case-recruiting/data/utils/extract_pages.py:23 | `add_page` appends one page at the end and changes nothing else |
| PageExtraction.IntRangeAt | gen-ai-business-case-recruiting/data/utils/extract_pages.py:21 | `range(lo, hi)` has `max(0, hi - lo)` elements and its k-th element is `lo + k` |
| PageExtraction.RangeExtractionByIndices | gen-ai-business-case-recruiting/data/utils/extract_pages.py:21-22 | one range selects `max(0, end - start + 1)` pages. It succeeds exactly when every index it visits is a page. Its k-th page is the input page at 0-based index `start - 1 + k` |
| PageExtraction.ExtractionOfOne | gen-ai-business-case-recruiting/data/utils/extract_pages.py:20-23 | a list with one range extracts exactly that range |
| PageExtraction.SingleRange | gen-ai-business-case-recruiting/data/utils/extract_pages.py:21-23 | for `1 <= s <= e <= N` the output has `e - s + 1` pages, and output page k is input page `s - 1 + k` |
| PageExtraction.ExtractionSucceedsIff | gen-ai-business-case-recruiting/data/utils/extract_pages.py:20-22 | extraction succeeds if and only if every range is empty or ends at or before the last page. An `end` beyond the document fails and is not truncated |
| PageExtraction.ExtractionLength | gen-ai-business-case-recruiting/data/utils/extract_pages.py:20-21 | the output length is the sum over the ranges of `max(0, end - start + 1)` |
| PageExtraction.ExtractionByIndices | gen-ai-business-case-recruiting/data/utils/extract_pages.py:20-23 | extraction succeeds if and only if every visited index is a page. On success the j-th output page is the input page at the j-th visited index |
| PageExtraction.ExtractionFailure | gen-ai-business-case-recruiting/data/utils/extract_pages.py:22 | a failure names the first visited index that is not a page, which is where `pdf_reader.pages[page_num]` raises |
| PageExtraction.ExtractionConcat | gen-ai-business-case-recruiting/data/utils/extract_pages.py:20-23 | ranges are processed independently and in order. The pages of `a + b` are those of `a` followed by those of `b`, and the first failure wins |
| PageExtraction.EmptyRanges | gen-ai-business-case-recruiting/data/utils/extract_pages.py:20-21 | an empty range list, or ranges that all have `start > end`, produce an empty document whatever the page count |
| PageExtraction.RepeatedRange | gen-ai-business-case-recruiting/data/utils/extract_pages.py:20-23 | a repeated range copies its pages twice rather than merging them |
| PageExtraction.ExtractionOfTwo | gen-ai-business-case-recruiting/data/utils/extract_pages.py:20-23 | two ranges in a row extract the first range's pages followed by the second's |
| PageExtraction.OverlappingRanges | gen-ai-business-case-recruiting/data/utils/extract_pages.py:20-23 | two overlapping ranges are not merged. The output length is the sum of both range lengths, and every page in the overlap appears once for each range |
| PageExtraction.ExampleIntro | gen-ai-business-case-recruiting/data/utils/extract_pages.py:34 | `[(4, 7)]` yields the 4 pages 4 to 7 |
| PageExtraction.ExampleChapter1 | gen-ai-business-case-recruiting/data/utils/extract_pages.py:40 | `[(8, 11)]` yields the 4 pages 8 to 11 |
| PageExtraction.ExampleGlossary | gen-ai-business-case-recruiting/data/utils/extract_pages.py:46 | `[(98, 104)]` yields the 7 pages 98 to 104 |
| PageExtraction.ExampleGlossaryTooShort | gen-ai-business-case-recruiting/data/utils/extract_pages.py:46 | on a 100-page document, `[(98, 104)]` fails at 0-based index 100 |

## Left out

- Parsing and serialising PDF files (`PdfReader`, `PdfWriter.write`). That is a foreign library, so pages are opaque values.
- Opening and writing the output file, and the success message. These are I/O side effects.
- The module-level example calls and their hard-coded paths. They appear only as the `Example…` lemmas.
- Ranges with `start < 1`. Every range must start at page 1 or later. Below that, Python's negative indexing would read pages from the end of the document, which is language behaviour rather than a contract of the function.
- Re-running the same call giving the same pages. This holds because `Extraction` is a function. Container metadata of the written file is not modelled.
