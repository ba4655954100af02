# Image analyzer pipeline, modelled in Dafny

This project models the core of an Azure Durable Functions app that analyzes
uploaded images (`src/function_app.py`). A blob upload starts an orchestration.
The orchestration fans out to four analysis activities (colors, objects, text,
metadata) and waits for all of them. It then chains `generate_report` and
`store_results`. A separate HTTP endpoint lists stored results, newest first.

The modelled parts, one module each:

- `Colors` models `analyze_colors`. It quantises every sampled pixel to a bucket
  of 32 levels per channel and counts the buckets in an insertion-ordered
  dictionary. It keeps the five most frequent buckets, writes each as `#rrggbb`,
  and flags the image as grayscale when more than 90% of its pixels have close
  channels.
- `Objects` models `analyze_objects`, the mock detector that labels an image
  from its width and height.
- `Report` models `generate_report`: the file name, the analyses kept as they
  are, and the summary (image size, format, dominant colour, object count, text
  flag, grayscale flag).
- `Orchestrator` models `image_analyzer_orchestrator` as a step function of the
  results received so far. It covers the fan-out of four calls, the fan-in that
  binds results by declaration position, then the report and the store, and it
  returns the store result.
- `Listing` models the list branch of `get_results`: rows from the stored
  entities, a stable sort on `analyzedAt` with the newest first, the slice
  `[:limit]`, and the count.
- Support modules: `StableSort` is Python's stable `sorted(..., reverse=True)`
  and the slice `s[:n]`, with their ordering, selection and stability facts.
  `Strings` covers decimal text, `str.split`/`str.join`, and Python's string
  order; the `#rrggbb` hex text is in `Colors`. `Common` holds `Option`,
  `Result` and `Min`.

Modelling choices:

- The Python dict is a map plus the sequence of keys in first-insertion order.
  That order, with the stability of `sorted`, decides which of several
  equally frequent buckets comes first.
- Floor division `c // 32 * 32` is Dafny's `/` on the non-negative channel.
- `grayscale_pixels / len(pixels) > 0.9` is modelled as the integer comparison
  `10 * gray > 9 * n`. This is exact for the 2500-pixel sample and for any n
  below 10^15. For larger n the float quotient can round to 0.9 where the
  integer test is true.
- An empty pixel list makes that division raise `ZeroDivisionError`. The
  handler catches it, so the model returns the error result
  `"division by zero"`.
- Confidences are kept in hundredths (0.85 is 85).
- The results of the analyses are opaque to the orchestrator, so its model is
  generic in their type.
- The report id, the timestamp, the decoded pixels, the image size and the
  stored entities are inputs.

Notes on the code's behaviour:

- The code has no orchestration engine of its own. It relies on the Durable
  Functions runtime, so only the generator's control flow is modelled.
- `store_results` catches its own exceptions and returns a record with status
  `"error"`. To the orchestrator that record is an ordinary result, which it
  returns. A failed store is therefore not a failed orchestration, and
  `Orchestrator.PhaseIgnoresResults` states this.
- The comment above the colour loop says "rounded to nearest 10". The code
  floors to a multiple of 32, and `Colors.Quantize` models the code.

## Model

| member | source | states |
|---|---|---|
| Colors.Quantize | src/function_app.py:179 | the bucket of a channel is a multiple of 32, at most 224, and the channel lies in the 32-wide band starting at it |
| Colors.CountColors | src/function_app.py:176-180 | the counting loop builds exactly the insertion-ordered dictionary `Histogram` of the pixels |
| Colors.HistogramWellFormed | src/function_app.py:176-180 | the dictionary's key order lists every key exactly once and nothing else |
| Colors.HistogramCounts | src/function_app.py:176-180 | a bucket is a key exactly when some pixel falls in it, and its count is the number of pixels that do |
| Colors.HistogramPositive | src/function_app.py:180 | every recorded bucket has a count of at least one |
| Colors.HistogramTotal | src/function_app.py:176-180 | the counts of `items()` add up to the number of pixels |
| Colors.HistogramSize | src/function_app.py:176-183 | `items()` has one entry per key |
| Colors.TopBuckets | src/function_app.py:183-185 | `sorted_colors[:5]`: at most five entries, no more than there are keys, and a prefix of the entries sorted by count, highest first |
| Colors.TopOfCounts | src/function_app.py:183-185 | for any dictionary, the selection has min(5, keys) entries in non-increasing count order, each with its key's count, and no key left out has a higher count than one selected |
| Colors.TopBucketsSelected | src/function_app.py:176-185 | the same facts for the histogram of the sampled pixels |
| Colors.TopIsMostFrequent | src/function_app.py:183-185 | for a non-empty dictionary, the first selected entry is a key with its own count, and no key has a higher count |
| Colors.TopBucketIsMostFrequent | src/function_app.py:176-185 | for a non-empty pixel list, the first selected bucket is a key of the histogram that no other bucket outnumbers |
| Colors.TopBucketsStable | src/function_app.py:183 | among buckets with equal counts, the sort keeps the dictionary's insertion order |
| Colors.HexColorRoundTrip | src/function_app.py:186 | every `#rrggbb` string written for a bucket is 7 characters, '#' then lower-case hex digits, and reads back as that bucket |
| Colors.ParseHexColorInverse | src/function_app.py:186 | every well-formed `#rrggbb` string is the hex string of the colour it reads as |
| Colors.DescriptionsParse | src/function_app.py:185-191 | each description carries its entry's bucket as `rgb`, and its hex string reads back as that bucket |
| Colors.DescribeTop | src/function_app.py:184-191 | the loop appends one description per selected entry, in order, and each hex string reads back as its rgb bucket |
| Colors.GrayCountCounts | src/function_app.py:195 | `grayscale_pixels` is the number of pixels whose channels differ pairwise (r,g and g,b) by less than 30 |
| Colors.AllGrayIsGrayscale | src/function_app.py:195-196 | a non-empty image whose pixels all pass the gray test is flagged grayscale |
| Colors.GrayscaleOfSample | src/function_app.py:170-196 | for the 50x50 sample, the flag is set exactly when at least 2251 of the 2500 pixels are gray |
| Colors.AnalyzeColors | src/function_app.py:159-211 | the activity's result is `ColorAnalysisOf` the decoded pixels; it has no error exactly when decoding succeeded with at least one pixel; at most five dominant colours, each hex string reading back as its rgb |
| Objects.AnalyzeObjects | src/function_app.py:226-261 | on failure, no objects and the exception's message; otherwise 3 labels above one megapixel and 2 otherwise, count equal to the length, the first label landscape/portrait/square exactly when width > height / height > width / equal, no other orientation label, a high-resolution label (only second) exactly above one megapixel, and "digital image" last |
| Report.FileNameIsLastSegment | src/function_app.py:365 | the file name holds no '/'; it is the blob name when that has none, and otherwise exactly the text after the last '/' |
| Report.FileNameIsLastPiece | src/function_app.py:365 | the test for '/' makes no difference: the name is always the last piece of `split("/")` |
| Report.ImageSizeRoundTrip | src/function_app.py:379 | the `"WxH"` summary string reads back as the width and height it was made from |
| Report.GenerateReport | src/function_app.py:363-389 | the report carries the given id and time, the blob path, the file name of the blob path (without '/'), the four analyses unchanged, an image size that is the decimal `"WxH"` text of the metadata's width and height and reads back as them (0 when missing), the metadata's format ("Unknown" when missing), the dominant colour of the colour analysis, its object count, the text flag (false when missing) and the grayscale flag |
| Report.DominantColorIsMostFrequent | src/function_app.py:381 | the dominant colour is "N/A" exactly when the colour analysis failed; otherwise it reads back as a bucket of the histogram that no other bucket outnumbers |
| Orchestrator.Advance | src/function_app.py:96-146 | the step function: while any of the four analyses is missing it suspends on the four fan-out calls, task i running the i-th declared analysis (colors, objects, text, metadata) on the orchestration input; after that it suspends on one chained call for a task that has no result yet: `generate_report` with the four results bound by position, then `store_results` with exactly the report; once every step has a result it returns the store result |
| Orchestrator.ResultOf | src/function_app.py:117-123 | the result recorded for a completed task is the result of an event that completes it |
| Orchestrator.ReceivedRecords | src/function_app.py:117 | with each task completing once, a task has a result exactly when an event completes it, and that result is the event's |
| Orchestrator.ArrivalOrderIrrelevant | src/function_app.py:114-123 | two histories with the same completion events in different orders give the same results and the same next step |
| Orchestrator.FanInBindsByPosition | src/function_app.py:107-138 | once the four analyses have completed in any order, the report is scheduled with colors, objects, text and metadata bound to tasks 0-3, the order of declaration |
| Orchestrator.DeclarationOrderExample | src/function_app.py:117-136 | results arriving as D, B, A, C are still passed to the report as A, B, C, D |
| Orchestrator.ReportWaitsForFanIn | src/function_app.py:117-138 | the generator waits on the report exactly when all four analyses are in and the report is not, and no report call is issued before the fan-in completes |
| Orchestrator.StoreReceivesReport | src/function_app.py:138-144 | `store_results` is called only after the fan-in and the report, and with exactly the report; the generator waits on the store exactly when the report is in and the store result is not, and then it issues that call |
| Orchestrator.ReturnsStoreResult | src/function_app.py:144-146 | the orchestration returns exactly when every step has a result, and it returns the store result |
| Orchestrator.PhaseIgnoresResults | src/function_app.py:117-146 | the next step depends only on which tasks have completed, not on what they returned |
| Orchestrator.AdvanceMonotone | src/function_app.py:96-146 | receiving more results never moves the generator back to an earlier suspension point |
| Listing.ListResults | src/function_app.py:497-521 | the list branch returns `ListingOf` the entities with the limit (10 when absent), and its count is the number of rows |
| Listing.ListingNewestFirst | src/function_app.py:504-518 | for a limit >= 0: min(limit, entities) rows, newest first, a sub-multiset of the entities' rows, and no entity left out is newer than one listed |
| Listing.ListingStable | src/function_app.py:514 | rows with equal timestamps keep the order in which the query returned them |
| Listing.NegativeLimit | src/function_app.py:515 | a negative limit drops that many rows from the end, as Python's slice does |
| StableSort.SortDescending | src/function_app.py:183 | `sorted(..., reverse=True)` puts the highest key first, for any total preorder on keys |
| StableSort.SortStable | src/function_app.py:183 | the reverse sort is stable: elements with equal keys keep their input order |
| StableSort.TopSelection | src/function_app.py:183-185 | the first n of the reverse-sorted sequence are highest first, form a sub-multiset of the input, and no element left out ranks above one kept |
| Strings.JoinSplit | src/function_app.py:365 | joining the pieces of `split(sep)` with sep gives back the string, and no piece holds sep |
| Strings.SplitJoin | src/function_app.py:365 | splitting pieces joined with sep gives back the pieces, when none holds sep |
| Strings.ParseNatToString | src/function_app.py:379 | the decimal text of a number reads back as that number |
| Strings.StrLeqTotal | src/function_app.py:514 | Python's string order compares any two strings |
| Strings.StrLeqTransitive | src/function_app.py:514 | Python's string order is transitive |

## Left out

- Decoding the image: Pillow's `Image.open`, `convert("RGB")`, `resize((50, 50))` and `getdata()`. The pixel list, or the exception message, is an input to `Colors.AnalyzeColors`.
- Reading the image size for `analyze_objects` is left out the same way. The size, or the exception message, is an input to `Objects.AnalyzeObjects`.
- The `percentage` field of each dominant colour. It uses float rounding (`round(count / len(pixels) * 100, 1)`), which the model does not cover.
- `analyze_text` and `analyze_metadata`: the constant mock OCR result (`hasText` always false, empty text), and the metadata's EXIF reading, megapixels, aspect ratio and `blob_size_kb`. Only the keys the report reads are modelled, each possibly missing.
- `store_results` and Table Storage: the upsert, the stored entity's layout and the `"stored"`/`"error"` record. The orchestrator passes the report to the store and returns its record without looking inside.
- `blob_trigger`, the start of the orchestration and its HTTP status endpoints: these are I/O.
- The by-id branch of `get_results`, its 404, the 500 error path and the HTTP responses.
- `int()` parsing of the `limit` text. The listing takes the parsed integer, or none when the parameter is absent.
- JSON serialisation. `json.dumps`/`json.loads` of the summary are left out, and the summary is kept as stored text.
- The Durable Functions runtime: history storage, re-running the generator, scheduling each task once, and failing `task_all` when an activity raises. The four analysis activities catch their own exceptions and return error payloads.
- A `generate_report` or `store_results` call that raises is not modelled, so the orchestration never fails at its second or third yield. `generate_report` has no exception handler, and `store_results` reads `fileName` before its `try`. Neither raises on the payloads the analyses return.
- `uuid.uuid4()` and `datetime.utcnow()`: the id and the timestamp are inputs to `Report.GenerateReport`.
- Logging.
- Integer widths: Python integers are unbounded, so nothing wraps around, and `width * height` in `analyze_objects` is exact in the model too.
