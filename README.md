# docuglean classification core in Dafny

This project models the part of docuglean (node-ocr in TypeScript, python-ocr in
Python) that splits a PDF into page categories, and proves properties of that model.
It covers:

- **Chunk planning.** `chunkPages` / `_chunk_pages` cut pages `1..totalPages` into
  consecutive inclusive ranges of `chunkSize` pages (module `Chunking`).
- **Split merging.** `mergeSplits` / `_merge_splits` fold every chunk's splits into a
  table keyed by category name, and by partition name inside each category. Each
  record collects pages and turns `low` once any contributor is `low`. The table is
  then converted back into splits with sorted, duplicate-free page lists.
  - `MergeRules` states the result as pure functions and proves its properties.
  - `Merge` is the source's imperative form: a `CategoryTable` class for
    `categoryMap`, its `Add` and `ToSplits` methods, and `MergeSplits`. Each is
    proved equal to the pure definition.
  - `MergeComposition` proves that merging merged results again changes nothing
    about the outcome: the merge can be taken in parts.
  - `SortedPages` models `sorted(set(...))` / `Array.from(new Set(...)).sort(...)`.
- **The front half of `classify`** (module `Classify`):
  - argument checks in their fixed order;
  - `chunkSize` and `maxConcurrent` defaults;
  - the page-count probe and its fallback of 100;
  - the choice between one backend call on `[1, totalPages]` and a chunked fan-out
    whose results are merged, all or nothing.

  Backends are a function parameter. The methods also return `calls`, the list of
  page ranges a backend was called on.
- **`utils.ts`** (module `Utils`):
  - `isURL`;
  - `getFileType` over Node's POSIX `path.extname`;
  - `handleMistralOCRResponse`, which sorts the response's pages by index in place
    and joins their markdown and images.
- **`validateConfig`** from `types.ts` (module `Config`).

Shared modules:

- `Wrappers`: `Option`, `Result`, `Outcome`.
- `Text`: whitespace as JavaScript's `trim` and Python's `strip` see it, and ASCII
  lower-casing.
- `ClassifyTypes`: `Split`, `Partition`, `ClassifyResult`, `Category`.

Behaviour of the code that a reader might not expect:

- Categories with no pages are not dropped. A merged split exists for every category
  name that occurs in any chunk, page list empty or not (`MergeRules.MergeOnePerName`).
- Categories outside the requested list are not filtered out by the merge. Every
  name that comes back from a backend gets a merged split (`MergeRules.MergeOnePerName`).
- Confidence is the backend's `low`/`high` label. The merge applies no numeric
  threshold: a merged split is `low` exactly when some contributor is
  (`MergeRules.MergeConfLowIff`).
- Merging is not order-insensitive as a whole. The output lists categories in the
  order they are first seen across the chunks, so reordering chunks reorders the
  output (`MergeRules.ChunkOrderDecidesSplitOrder`). Only the contents of each
  category are independent of chunk order (`MergeRules.MergeIgnoresChunkOrder`).
- An empty category list is rejected by node-ocr but accepted by python-ocr, which
  asks the backend to detect categories (`Classify.EmptyCategoriesOnlyRejectedByNode`).

## Model

| member | source | states |
|---|---|---|
| `Chunking.ChunkPages` | node-ocr/src/classify.ts:23-30 | The loop returns exactly the planned ranges: range `i` is `[1 + i*chunkSize, min((i+1)*chunkSize, totalPages)]`, for `i` below `ceil(totalPages/chunkSize)`. |
| `Chunking.ChunkPagesPy` | python-ocr/src/docuglean/classify.py:25-31 | A zero step is the `range()` error, a negative step gives no ranges, and a positive step gives the same ranges as `chunkPages`. |
| `Chunking.PlannedChunksTile` | node-ocr/src/classify.ts:25-27 | No ranges exactly when there are no pages. Otherwise the first range starts at 1, each starts right after the previous one ends, and the last ends at `totalPages`. Every range is non-empty and at most `chunkSize` long, and all but the last are exactly `chunkSize` long. |
| `Chunking.ChunkCountIsCeiling` | python-ocr/src/docuglean/classify.py:28-30 | The number of ranges `n` satisfies `(n-1)*chunkSize < totalPages <= n*chunkSize`, or `n = 0` for an empty document. |
| `Chunking.PlannedChunksCover` | node-ocr/src/classify.ts:25-28 | A page lies in some range exactly when `1 <= page <= totalPages`. |
| `Chunking.PlannedChunksDisjoint` | python-ocr/src/docuglean/classify.py:28-30 | Every range ends before any later range starts, so no page is in two ranges. |
| `Chunking.SmallDocumentOneChunk` | node-ocr/src/classify.ts:145-152 | A document of `1..chunkSize` pages is planned as the single range `[1, totalPages]`. |
| `Chunking.TwoChunkPlan` | node-ocr/src/classify.ts:158-160 | 150 pages in chunks of 75 are planned as `[1, 75]` and `[76, 150]`. |
| `SortedPages.SortedUnique` | python-ocr/src/docuglean/classify.py:64 | The result is strictly ascending and holds exactly the elements of the input: sorted, deduplicated, nothing lost. |
| `SortedPages.AscendingUnique` | node-ocr/src/classify.ts:74 | Two strictly ascending lists with the same elements are equal, so a merged page list depends only on the set of contributed pages. |
| `MergeRules.FirstSeenSpec` | python-ocr/src/docuglean/classify.py:43-45 | The grouping keys are exactly the names that occur, without repeats, in order of first appearance. |
| `MergeRules.PagesOfSpec` | python-ocr/src/docuglean/classify.py:46 | The pages collected under a name are exactly the pages of the records with that name. |
| `MergeRules.MergeLevelCorrect` | node-ocr/src/classify.ts:55-65 | One merge level: one record per distinct name, in first-seen order. Its pages are strictly ascending and are exactly the pages listed under the name. It is `low` exactly when some record of that name is `low`. |
| `MergeRules.PartitionsForSpec` | node-ocr/src/classify.ts:55-56 | The partitions gathered for a category are exactly those carried by that category's splits. There are none exactly when no such split carries one. |
| `MergeRules.MergeOnePerName` | node-ocr/src/classify.ts:36-45 | Exactly one merged split per category name that occurs in any input split, including names whose page lists are empty. |
| `MergeRules.MergeFirstSeenOrder` | python-ocr/src/docuglean/classify.py:62 | A merged split listed after another is never seen in the input before the earlier one has been seen. |
| `MergeRules.MergePagesAreUnion` | node-ocr/src/classify.ts:47 | A merged split's pages are strictly ascending and are exactly the union of its category's pages across all chunks. |
| `MergeRules.MergeConfLowIff` | node-ocr/src/classify.ts:50-52 | A merged split is `low` if and only if some input split of its category is `low`. |
| `MergeRules.MergePartitions` | node-ocr/src/classify.ts:77-84 | Partitions are absent exactly when no split of the category carried any. Otherwise there is one partition per distinct partition name. Its pages are the sorted, deduplicated union, and it is `low` exactly when some contributing partition is `low`. |
| `MergeRules.AllSplitsMembers` | node-ocr/src/classify.ts:36-37 | The splits folded in are exactly the splits of the chunk results. |
| `MergeRules.MergedSplitSameMembers` | python-ocr/src/docuglean/classify.py:62-83 | Split lists with the same members merge, category by category, to the same pages and confidence, and to the same partitions up to their order. |
| `MergeRules.MergeIgnoresChunkOrder` | python-ocr/src/docuglean/classify.py:43-58 | Reordering the chunk results keeps the same categories. Each has the same pages, the same confidence, and the same partitions up to order. |
| `MergeRules.ChunkOrderDecidesSplitOrder` | python-ocr/src/docuglean/classify.py:62 | The same two splits merged in the two possible orders come out in those two orders. |
| `MergeRules.TwoDistinctSplits` | node-ocr/src/classify.ts:86-91 | Two splits of different categories, without partitions and with ascending pages, merge to themselves in their order. |
| `MergeRules.Merged` | python-ocr/src/docuglean/classify.py:34-83 | The reference merge, as a definition: for each category name in first-seen order, one split with the sorted union of its pages, `low` if any contributor is, and its partitions merged the same way. The lemmas above and `MergeComposition.MergeOfMerges` state its properties. |
| `MergeRules.MergeAsWrittenTs` | node-ocr/src/classify.ts:32-95 | node-ocr's merge as written, as a definition: a TypeError when a split or one of its partitions is named after a member of `Object.prototype`, the reference merge otherwise. |
| `MergeRules.PrototypeNameCrashes` | node-ocr/src/classify.ts:38 | As written, a category named `toString` makes node-ocr's merge throw a TypeError. The intended merge returns that split unchanged. |
| `MergeComposition.MergeOfMergeLevels` | node-ocr/src/classify.ts:55-66 | Merging two merged partition lists gives the merge of the partitions they came from: same names in the same order, same pages and confidence. |
| `MergeComposition.MergeOfMerges` | node-ocr/src/classify.ts:32-95 | Merging the merges of two runs of chunk results equals merging both runs at once. Names, order, pages, confidence and partitions all agree. |
| `Merge.FoldPartitions` | node-ocr/src/classify.ts:55-66 | The partition loop leaves the category's pages and confidence alone. Afterwards its partition table accounts for every partition folded in so far. |
| `Merge.CategoryTable.constructor` | node-ocr/src/classify.ts:34 | The table starts empty and consistent with no splits. |
| `Merge.CategoryTable.Add` | node-ocr/src/classify.ts:37-66 | Folding in one split keeps the table consistent with every split added so far, that split included: keys in insertion order, pages pushed, `low` sticky, partitions likewise. |
| `Merge.CategoryTable.ToSplits` | node-ocr/src/classify.ts:71-92 | The conversion loop returns exactly the merge of all splits added. |
| `Merge.PartitionListIsMergeLevel` | node-ocr/src/classify.ts:79-83 | Converting a category's partition table gives the merge level of the partitions folded into it. |
| `Merge.MergeSplits` | node-ocr/src/classify.ts:32-95 | The imperative merge returns exactly the merge of every split of every chunk result, in chunk order. |
| `Text.TrimEmptyIffAllSpace` | node-ocr/src/classify.ts:109 | Trimming leaves nothing exactly when every character is whitespace. |
| `Text.BlankIffNoContent` | node-ocr/src/types.ts:6 | A value fails the `?.trim()` / `.strip()` check exactly when it is missing or holds no non-whitespace character. |
| `Text.ByteOrderMarkBlankOnlyInNode` | python-ocr/src/docuglean/classify.py:117 | A key consisting of U+FEFF is blank to JavaScript's `trim` but not to Python's `strip`. |
| `Classify.ValidateClassifyTsSpec` | node-ocr/src/classify.ts:108-121 | Checks run in a fixed order: key, then path, then categories, then provider, each failure with its own message. All pass exactly when key and path hold non-whitespace, the category list is non-empty and the provider is mistral, openai or gemini. |
| `Classify.ValidateClassifyPySpec` | python-ocr/src/docuglean/classify.py:116-126 | The key is checked before the path, then the provider. Python whitespace is used, and an empty category list passes. |
| `Classify.EmptyCategoriesOnlyRejectedByNode` | node-ocr/src/classify.ts:115-117 | An empty category list fails node-ocr's check and passes python-ocr's. |
| `Classify.LocalProviderOnlyForOcr` | node-ocr/src/types.ts:12-14 | `local` passes `validateConfig` but fails `classify`'s provider check. |
| `Classify.PageCountTs` | node-ocr/src/classify.ts:135-140 | Only a read failure rejects. Otherwise the page number is the one python-ocr's probe gives: the count, or 100 when parsing fails. |
| `Classify.PageCountPy` | python-ocr/src/docuglean/classify.py:13-22 | As a definition: the page count, or 100 on any failure. |
| `Classify.Gather` | node-ocr/src/classify.ts:185 | `Promise.all` / `asyncio.gather` as a definition: every value in order, or a failure. `GatherAllOrNothing` states its behaviour. |
| `Classify.GatherAllOrNothing` | node-ocr/src/classify.ts:184-185 | The gather succeeds exactly when every call succeeded, and then holds every value in order. Otherwise it reports the first failure in chunk order. |
| `Classify.ChunkedAllOrNothing` | python-ocr/src/docuglean/classify.py:193-198 | The chunked strategy yields a result exactly when every chunk's backend call succeeds. |
| `Classify.ChunkRanges` | node-ocr/src/classify.ts:160 | The ranges the chunked branch dispatches, as a definition: the planned chunks for a positive size, none otherwise. |
| `Classify.NoChunksNoSplits` | node-ocr/src/classify.ts:183-188 | With no ranges to dispatch, the chunked strategy succeeds with no splits. |
| `Classify.RunChunks` | node-ocr/src/classify.ts:183-188 | Every chunk is dispatched in order. The result is the merge of all chunk results, or the first failure. |
| `Classify.ClassifyTs` | node-ocr/src/classify.ts:97-192 | A failed check rejects with its message before any I/O or backend call. A read failure rejects and a parse failure counts as 100 pages. With `chunkSize` defaulted to 75 when missing or 0, a short document makes exactly one call on `[1, n]` and returns its result. A longer one calls the backend once per planned chunk and returns the merge, or a failure if any chunk fails. A negative `chunkSize` on an empty document makes no call and returns no splits. |
| `Classify.ClassifyPy` | python-ocr/src/docuglean/classify.py:116-198 | Same shape with Python's checks. Any probe failure counts as 100 pages. A negative `max_concurrent` after defaulting raises before any chunk call, and a negative `chunk_size` plans no chunks. |
| `Utils.IsUrl` | node-ocr/src/utils.ts:20-22 | As a definition: the path starts with `http://` or `https://`. |
| `Utils.UrlPrefixes` | node-ocr/src/utils.ts:20-22 | Anything appended to a URL keeps it a URL, since only its first 7 or 8 characters decide. |
| `Utils.UrlExamples` | node-ocr/src/utils.ts:21 | The scheme is matched case-sensitively, and `ftp://` or relative paths are not URLs. |
| `Utils.Extname` | node-ocr/src/utils.ts:25 | The extension is empty or is a dot followed by characters that are neither dots nor slashes. |
| `Utils.ExtnameLower` | node-ocr/src/utils.ts:25 | Lower-casing commutes with `extname`. |
| `Utils.GetFileType` | node-ocr/src/utils.ts:24-39 | As a definition: the lower-cased extension decides. The five image extensions give an image, `.pdf` gives a PDF, and anything else is unknown. |
| `Utils.FileTypeIgnoresCase` | node-ocr/src/utils.ts:24-39 | Paths that differ only in letter case get the same file type. |
| `Utils.UpperCasePdf` | node-ocr/src/utils.ts:34-35 | `scan.PDF` is a PDF. |
| `Utils.TrailingSlashImage` | node-ocr/src/utils.ts:28-33 | Only the last path segment counts, trailing slashes ignored, so `scans.pdf/photo.PNG/` is an image. |
| `Utils.DotfileUnknown` | node-ocr/src/utils.ts:36-37 | `docs/.pdf` has no extension and is unknown. |
| `Utils.BitmapUnknown` | node-ocr/src/utils.ts:36-37 | `.bmp` is not in the list and is unknown. |
| `Utils.SortByIndex` | node-ocr/src/utils.ts:80 | The sort puts pages in ascending index order and is a permutation of them. |
| `Utils.SortStable` | node-ocr/src/utils.ts:80 | Pages sharing an index keep their relative order. |
| `Utils.SortDependsOnlyOnGroups` | node-ocr/src/utils.ts:79-82 | The sorted pages depend only on the pages of each index, in their order. |
| `Utils.ReorderedPagesSortAlike` | node-ocr/src/utils.ts:79-85 | When indexes are distinct, any reordering of the pages sorts to the same list, hence the same markdown and images. |
| `Utils.SortKeepsSorted` | node-ocr/src/utils.ts:80 | Pages already in index order are left as they are. |
| `Utils.SortIdempotent` | node-ocr/src/utils.ts:80 | Sorting a second time changes nothing. |
| `Utils.JoinAppend` | node-ocr/src/utils.ts:82 | Joining two non-empty lists places one separator between their joins. |
| `Utils.FlatImagesAppend` | node-ocr/src/utils.ts:85 | The images of two page lists are the images of each, one after the other. |
| `Utils.HandleMistralOcrResponse` | node-ocr/src/utils.ts:73-92 | Missing or empty pages are rejected with "No pages found in OCR response", leaving the response unchanged. Otherwise the response's pages are replaced by their stable index sort. The result holds the pages' markdown in that order joined by blank lines, their images in that order, and the response itself. |
| `Utils.SinglePageResponse` | node-ocr/src/utils.ts:79-85 | A single page gives its own markdown and images. |
| `Config.ValidateConfigSpec` | node-ocr/src/types.ts:5-15 | Key first, then path, then provider. The configuration passes exactly when key and path hold non-whitespace and the provider is missing, empty, or one of mistral, openai, gemini and local. |
| `Config.KeyCheckedFirst` | node-ocr/src/types.ts:6-8 | A missing or whitespace-only key is rejected for the key, whatever the path. |

## Left out

- Provider calls (`processClassifyMistral`, `processClassifyOpenAI`, `processClassifyGemini` and `providers/*.ts`) are SDK and network calls. They are the `backend` parameter: a function from the configuration and a page range to a result or a failure. Within one call it is deterministic.
- The provider dispatch inside `classify` is not modelled separately. After the check, one branch always applies, so the final `throw` at node-ocr/src/classify.ts:191 and python-ocr/src/docuglean/classify.py:200 cannot be reached.
- Page counting is file I/O plus pdf-parse or pypdf. It is the `PageProbe` input: a count, a read failure or a parse failure. `getPageCount` (node-ocr/src/classify.ts:10-21) is never called and is not modelled.
- Concurrency is not modelled. `pLimit` is imported from node-ocr/src/utils.ts, which does not define it. The model treats it, and `asyncio.Semaphore`, as a working limiter and runs the fan-out as a sequential map with all-or-nothing failure. Which failure surfaces first in time, and the bound on calls in flight, are not modelled. The model surfaces the first failure in chunk order. The argument check p-limit makes on a negative `maxConcurrent` is not modelled either.
- Classify.ClassifyTs: a negative `chunkSize` that gets past the checks and the page probe on a document of one or more pages makes node-ocr's chunk loop run forever. The method's precondition excludes exactly those calls. On an empty document the loop never runs, and that call is modelled: it makes no backend call and returns no splits.
- The merge's output order is first-seen order. JavaScript's `Object.entries` lists integer-like keys (such as `"7"`) first, in numeric order. That reordering of node-ocr is not modelled.
- Lower-casing is ASCII-only. Outside ASCII, only KELVIN SIGN (U+212A) lower-cases to a plain ASCII letter, and the `k` it becomes occurs in no compared extension, so the file type is unaffected.
- `path.extname` is modelled for POSIX paths. Windows path rules are not modelled.
- Python's conversion of category dicts into `CategoryDescription` (python-ocr/src/docuglean/classify.py:128-139) is not modelled. Categories are passed as records, and a missing list is an empty one.
- `handleMistralOCRResponse` sorts the response's page array in place. The model replaces the response's `pages` field with the sorted list. Other references to the same array are not modelled. Of the OCR image, only `id` and `imageBase64` are kept, and page `dimensions` are dropped.
- Numbers are integers. Fractional `chunkSize`, `maxConcurrent` or page indexes are not modelled.
- `batch.ts`, `ocr.ts`, `extract.ts` and `extract.py` route to providers. `encodePdf`, `encodeImage` and `getSignedMistralUrl` are file, base64 and network work. The document parsers wrap third-party libraries. The demo application is HTTP and DOM. None of these is part of this model.

## Findings

| source | as written | input that shows it | evidently intended | confidence | as-written member | corrected member |
|---|---|---|---|---|---|---|
| node-ocr/src/classify.ts:38 | `if (!categoryMap[split.name])` on a plain object `{}` sees inherited members, and so does the partition check at line 57. For such a name no record is created, and `cat.pages.push` throws a TypeError. | one chunk result whose only split is named `toString` | one merged split named `toString`, as python-ocr's `defaultdict` gives | not executed | `MergeRules.PrototypeNameCrashes` | `Merge.MergeSplits` |
