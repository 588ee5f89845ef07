# WikiDict build engine, modelled in Dafny

WikiDict serves a dictionary from one large `title,value` CSV table. The table is kept in
an S3 bucket together with a byte-offset index (`index.json`: title -> offset and length
of its line). A `manifest.json` names the table and index that readers should use. Three
scripts produce these artifacts, and this project models all three.

- **`build_wikidict_full.py`, the full build.** It generates a table of fake rows, each
  title appearing once, and sorts it with an external merge sort. Phase 1 splits the rows
  into chunks and stable-sorts each chunk by `title.lower()`. Phase 2 is a k-way heap
  merge keyed by `(title.lower(), chunk_idx)`. The script then indexes the sorted file,
  uploads the table and the index under the date's keys, checks both, writes a fresh
  manifest, and clears the local working directory.
- **`build_wikidict.py`, the incremental build.** It loads the manifest, dispatches to the
  full rebuild when there is no usable `file_path`, and checks the required fields. It
  downloads the live table, its index and the changelog, then merges the changelog into
  the table with a two-cursor merge on lower-cased titles. It records the index while
  writing, uploads the new table and index, checks them, updates the manifest dict, and
  only then writes the manifest. The working directory is cleared whatever the outcome.
- **`create_dump.py`, the dump converter.** It turns a Wikipedia dump into a table. It
  filters pages by namespace, resume point, empty text, redirect and size. It chooses
  between the fast and the fallback cleaner and normalises whitespace. It writes batches
  of results and saves checkpoints.

How the model is organised:

- **Modules.** Each module follows one part of the scripts:
  - `TitleOrder`, `ChunkSort`, `KWayMerge` and `MergeChunks`: the external sort;
  - `RowCodec` and `ByteIndex`: the row lines and the index;
  - `IncrementalMerge`: `update_wikidict`;
  - `Storage`: the bucket and the local disk;
  - `Publish`: the incremental build and its dispatch;
  - `Dataset`: the generator;
  - `FullBuild`: the full build's `main`;
  - `Text` and `Dump`: `create_dump.py`.
- **Loops.** Loops that update state in the scripts are methods with loop invariants, and
  each is proved equal to a specification function: `SortInPlace` to `SortByKey`,
  `MergeSortedChunks` to `Merge`, `CreateIndex` to `Assign(Parsed(...))`,
  `UpdateWikidict` to `Merged`, `GenerateUnsortedDataset` to `Generated`, and `ScanDump`
  to `Select` and `Written`.
- **Storage.** The bucket and the disk are classes whose maps the methods update.
- **Requests.** Every bucket request is logged. A request in the bucket's fixed fault set
  raises `ClientError`.

## Model

| member | source | states |
|---|---|---|
| TitleOrder.LessIrreflexive | scripts/build_wikidict.py:259 | no title sorts strictly before itself under Python's string `<` |
| TitleOrder.LessTransitive | scripts/build_wikidict.py:259 | Python's string `<` is transitive |
| TitleOrder.LessTrichotomy | scripts/build_wikidict.py:259-292 | exactly one of `<`, `==`, `>` holds, so the three branches of the merge cover every case |
| TitleOrder.LessEqTransitive | scripts/build_wikidict_full.py:355 | `<=` on sort keys is transitive |
| TitleOrder.Lower | scripts/build_wikidict_full.py:355 | the ASCII fold keeps the length of the title |
| TitleOrder.Less | scripts/build_wikidict.py:259 | a title below another is different from it, and nothing is below the empty title |
| ChunkSort.InsertPermutes | scripts/build_wikidict_full.py:355 | one insertion step adds exactly the inserted row to the multiset of rows |
| ChunkSort.Insert | scripts/build_wikidict_full.py:355 | one insertion step makes the chunk one row longer |
| ChunkSort.InsertSorted | scripts/build_wikidict_full.py:355 | inserting into a sorted chunk keeps it sorted by lower-cased title |
| ChunkSort.InsertStable | scripts/build_wikidict_full.py:355 | insertion keeps the relative order of rows with equal lower-cased titles |
| ChunkSort.SortByKeySortedPermutation | scripts/build_wikidict_full.py:355 | `list.sort(key=title.lower())` gives a sorted permutation of the chunk, of the same length |
| ChunkSort.SortByKeyStable | scripts/build_wikidict_full.py:355 | the sort is stable: for every key, its rows keep their input order |
| ChunkSort.SortByKey | scripts/build_wikidict_full.py:355 | the sort keeps the number of rows |
| ChunkSort.InsertAt | scripts/build_wikidict_full.py:355 | one insertion pass on the array moves the row back past exactly the strictly greater rows; every other cell is unchanged or shifted by one |
| ChunkSort.SortInPlace | scripts/build_wikidict_full.py:355 | sorting the array in place leaves `SortByKey` of its old contents |
| ChunkSort.WriteSortedChunk | scripts/build_wikidict_full.py:352-363 | a chunk file holds the stable sort of the buffered rows |
| ChunkSort.EachChunkSorted | scripts/build_wikidict_full.py:336-345 | every chunk file is sorted and is a permutation of the rows that went into it |
| ChunkSort.ReadRow | scripts/build_wikidict_full.py:331-333 | reading a row appends it to the buffer, and the flushed chunks plus the buffer are the rows read so far |
| ChunkSort.Flush | scripts/build_wikidict_full.py:335-340 | flushing a full buffer makes it the next chunk, numbered after the earlier ones, and empties the buffer |
| ChunkSort.Finish | scripts/build_wikidict_full.py:342-347 | a non-empty leftover buffer becomes the last, partial chunk; an empty one adds no chunk |
| ChunkSort.SplitAndSortChunks | scripts/build_wikidict_full.py:318-349 | chunks are non-empty, full except possibly the last, and concatenate to the input rows in order; chunk `c` is the sorted `c`-th run; `chunk_number` counts them; every chunk file is sorted, non-empty and at most `chunk_size` rows, and together they are a permutation of the input |
| ChunkSort.SortEachPermutes | scripts/build_wikidict_full.py:336-345 | the sorted chunk files together hold exactly the rows that were read, with multiplicity |
| ChunkSort.SortedChunks | scripts/build_wikidict_full.py:318-349 | chunks split this way are, once sorted, each sorted, non-empty and at most a full chunk, and together a permutation of the input |
| KWayMerge.EntryLessEqTotal | scripts/build_wikidict_full.py:391 | any two heap tuples are comparable |
| KWayMerge.EntryLessEqTransitive | scripts/build_wikidict_full.py:391 | the tuple order of the heap is transitive |
| KWayMerge.MinIdx | scripts/build_wikidict_full.py:391 | the chosen chunk is below the chunk count and still has rows |
| KWayMerge.HeadsLength | scripts/build_wikidict_full.py:373-382 | the heap never holds more entries than there are chunks |
| KWayMerge.HeadsMember | scripts/build_wikidict_full.py:380 | every heap entry is `(title.lower(), idx, row)` for the head row of an unexhausted chunk `idx` |
| KWayMerge.HeadsIncreasing | scripts/build_wikidict_full.py:373-382 | heap entries have pairwise different chunk indices, so there is at most one entry per chunk |
| KWayMerge.HeadsComplete | scripts/build_wikidict_full.py:398-404 | every unexhausted chunk has its head on the heap |
| KWayMerge.MinIdxNone | scripts/build_wikidict_full.py:390 | the heap is empty exactly when every chunk is exhausted |
| KWayMerge.MinIdxIsMin | scripts/build_wikidict_full.py:391 | the popped head has a key no larger than that of any other head |
| KWayMerge.MinIdxFirst | scripts/build_wikidict_full.py:391 | on equal keys the lowest chunk index is popped first |
| KWayMerge.MinEntry | scripts/build_wikidict_full.py:391 | the least tuple on the heap is exactly the head `MinIdx` chooses |
| KWayMerge.Merge | scripts/build_wikidict_full.py:373-404 | the heap merge writes as many rows as all chunks hold together |
| KWayMerge.MergePermutes | scripts/build_wikidict_full.py:373-404 | the merge is a permutation of all chunk rows, as long as all chunks together: nothing is dropped or de-duplicated |
| KWayMerge.MergeSorted | scripts/build_wikidict_full.py:390-404 | when every chunk is sorted, the merged output is sorted by lower-cased title |
| KWayMerge.MergeKeyFilter | scripts/build_wikidict_full.py:380-402 | rows with equal lower-cased titles come out chunk by chunk in increasing chunk index, and in chunk order within a chunk |
| KWayMerge.SortedUnique | scripts/build_wikidict_full.py:355 | two sorted sequences with the same rows for every key are equal |
| KWayMerge.FilterEachSorted | scripts/build_wikidict_full.py:355 | sorting the chunks changes neither which rows carry a key nor their order |
| KWayMerge.ExternalSortIsStableSort | scripts/build_wikidict_full.py:270-315 | sorting the chunks and merging them gives exactly the stable sort of the whole input |
| MergeChunks.MinHeap.Push | scripts/build_wikidict_full.py:380 | `heappush` adds the entry |
| MergeChunks.MinHeap.Pop | scripts/build_wikidict_full.py:391 | `heappop` removes and returns one entry that is least in the tuple order |
| MergeChunks.HeadsAdvance | scripts/build_wikidict_full.py:398-404 | taking a chunk's head replaces its entry by the entry of its next row, or drops it when the chunk is exhausted |
| MergeChunks.StartStep | scripts/build_wikidict_full.py:373-382 | opening chunk `idx` pushes its first row, if any; the heap then holds one head per opened non-empty chunk |
| MergeChunks.HeapStep | scripts/build_wikidict_full.py:391-404 | pop followed by push of the same chunk's next row keeps the heap at exactly the unexhausted chunks' heads |
| MergeChunks.PopStep | scripts/build_wikidict_full.py:390-404 | one round writes the popped row and keeps the loop invariant; the unmerged rows strictly decrease |
| MergeChunks.MergeDone | scripts/build_wikidict_full.py:390 | an empty heap means nothing is left to merge |
| MergeChunks.MergeSortedChunks | scripts/build_wikidict_full.py:366-411 | the header is always written; the rows below it are exactly `Merge` of the chunk files, and `total_written` counts them; with no chunks the file is the header alone |
| MergeChunks.SortCsvExternal | scripts/build_wikidict_full.py:270-315 | the two phases together write the stable sort by lower-cased title of the input rows |
| RowCodec.EscChar | scripts/build_wikidict_full.py:361 | a character's escape is non-empty and holds no comma or line break |
| RowCodec.Esc | scripts/build_wikidict_full.py:361 | an escaped field holds no comma or line break and is no shorter than the field |
| RowCodec.UnescEsc | scripts/build_wikidict_full.py:453-455 | unescaping an escaped field gives the field back |
| RowCodec.Encode | scripts/build_wikidict_full.py:361 | a written row line has at least three bytes and exactly one '\n', at its end |
| RowCodec.FieldEnd | scripts/build_wikidict_full.py:453 | the first field ends at the first comma or line break |
| RowCodec.ParseTitle | scripts/build_wikidict_full.py:449-455 | an empty line or a bare line break has no title; a line starting with a comma has the empty title |
| RowCodec.ParseEncode | scripts/build_wikidict_full.py:449-455 | a written row line parses back to the row's title |
| RowCodec.HeaderShape | scripts/build_wikidict_full.py:435 | the header line is 13 bytes with one '\n', at its end |
| ByteIndex.AssignKeys | scripts/build_wikidict_full.py:458-461 | a title is in the index iff some assignment was made for it |
| ByteIndex.Assign | scripts/build_wikidict_full.py:458-461 | the index never has more titles than assignments were made |
| ByteIndex.AssignLastWins | scripts/build_wikidict_full.py:458-461 | a repeated exact title keeps the span of its last line |
| ByteIndex.AssignSize | scripts/build_wikidict.py:321-327 | `len(index)` never exceeds the assignments, and equals them exactly when the titles are pairwise distinct |
| ByteIndex.LineEnd | scripts/build_wikidict_full.py:441 | `readline` stops inside the file and advances unless at the end |
| ByteIndex.LineEndShape | scripts/build_wikidict_full.py:441 | a line read has '\n' only as its last byte, and as its last byte unless the file ends |
| ByteIndex.LineEndAt | scripts/build_wikidict_full.py:441 | `readline` stops at the first '\n' |
| ByteIndex.LineSpansTile | scripts/build_wikidict_full.py:439-447 | the spans read tile the file: the first starts at the header end, each next one starts where the previous ends, the last ends at the end of the file, none is empty |
| ByteIndex.LineSpansAreLines | scripts/build_wikidict_full.py:440-447 | each span is one line of the file |
| ByteIndex.Parsed | scripts/build_wikidict_full.py:449-470 | there are never more assignments than lines |
| ByteIndex.ParsedSound | scripts/build_wikidict_full.py:449-461 | each assignment is a readable line's title with that line's offset and length |
| ByteIndex.ParsedComplete | scripts/build_wikidict_full.py:449-470 | every readable line gets an assignment; unreadable lines get none |
| ByteIndex.ScanStep | scripts/build_wikidict_full.py:439-470 | one read of the loop keeps the scan invariant |
| ByteIndex.CreateIndex | scripts/build_wikidict_full.py:414-487 | after the header line, the index is the assignments for the readable lines in file order, and `row_count` counts them |
| ByteIndex.Offsets | scripts/build_wikidict.py:220-226 | one span per written line |
| ByteIndex.OffsetsAt | scripts/build_wikidict.py:220-226 | the span of line `i` starts after all the lines before it and is as long as the line |
| ByteIndex.OffsetsContiguous | scripts/build_wikidict.py:220-300 | the written spans are prefix sums: the first starts where writing began, each next one starts where the previous ends |
| ByteIndex.OffsetsAppend | scripts/build_wikidict.py:220-232 | writing one more line adds its span at the current end |
| ByteIndex.AssignZipAppend | scripts/build_wikidict.py:228-232 | recording one more written line updates the index at its title with its span |
| ByteIndex.LineSpansOfLines | scripts/build_wikidict_full.py:439-447 | reading written lines back with `readline` finds exactly the written spans |
| ByteIndex.SliceOfLine | scripts/build_wikidict_full.py:446-451 | the bytes at a written line's span are that line |
| ByteIndex.ParsedLines | scripts/build_wikidict_full.py:449-461 | re-reading written lines makes the assignments made while writing them |
| ByteIndex.CreateIndexOfTable | scripts/build_wikidict_full.py:433-470 | on a written table, `create_index` skips exactly the header and rebuilds the index the writer recorded |
| IncrementalMerge.Matches | scripts/build_wikidict.py:290-306 | there are no more updates than rows in either input |
| IncrementalMerge.Merged | scripts/build_wikidict.py:218-306 | the merged table is at least as long as either input and at most as long as both together |
| IncrementalMerge.MergedLength | scripts/build_wikidict.py:211-306 | `total_count == existing_count + changelog_count - updated_count` |
| IncrementalMerge.MergedFrom | scripts/build_wikidict.py:218-306 | every written row comes from the base or the changelog |
| IncrementalMerge.ChangelogWritten | scripts/build_wikidict.py:218-306 | every changelog row is written, whether the inputs are sorted or not |
| IncrementalMerge.AscendingSplit | scripts/build_wikidict.py:218 | the rest of a strictly ascending table is ascending and lies above its head |
| IncrementalMerge.ConsAscending | scripts/build_wikidict.py:218-306 | a row below every row of an ascending table can be written before it |
| IncrementalMerge.MergedAbove | scripts/build_wikidict.py:218-306 | rows above a key in both inputs stay above it in the output |
| IncrementalMerge.MergedAscending | scripts/build_wikidict.py:218-306 | strictly ascending inputs give a strictly ascending output |
| IncrementalMerge.MergedContents | scripts/build_wikidict.py:255-306 | the output holds exactly the changelog rows and the base rows whose lower-cased title the changelog lacks |
| IncrementalMerge.DisjointNoMatches | scripts/build_wikidict.py:223-306 | disjoint keys give `updated_count == 0` and `total_count == len(base) + len(changelog)` |
| IncrementalMerge.MergedOfContained | scripts/build_wikidict.py:290-306 | a changelog of rows the base already holds reproduces the base |
| IncrementalMerge.MergedIdempotent | scripts/build_wikidict.py:218-306 | for strictly ascending base and changelog, applying the same changelog again changes nothing |
| IncrementalMerge.AscendingDistinctTitles | scripts/build_wikidict.py:321 | an ascending table has pairwise distinct titles |
| IncrementalMerge.IndexSizeOfAscending | scripts/build_wikidict.py:321-327 | with strictly ascending inputs the index validation passes |
| IncrementalMerge.StepBase | scripts/build_wikidict.py:239-272 | a round writing the base row advances only the base cursor |
| IncrementalMerge.StepLog | scripts/build_wikidict.py:223-288 | a round writing a new changelog row advances only the changelog cursor and counts an addition |
| IncrementalMerge.StepBoth | scripts/build_wikidict.py:290-306 | on equal lower-cased titles the changelog row is written, both cursors advance, and an update is counted |
| IncrementalMerge.ProgressStep | scripts/build_wikidict.py:218-306 | one round keeps the loop invariant: rows written, cursors and five counters |
| IncrementalMerge.ProgressDone | scripts/build_wikidict.py:211-306 | at loop end, `existing_count == len(base)`, `changelog_count == len(changelog)` and `added_count == changelog_count - updated_count` |
| IncrementalMerge.TableAppend | scripts/build_wikidict.py:225 | `writerow` appends the row's line to the file |
| IncrementalMerge.EntriesAppend | scripts/build_wikidict.py:220-232 | the recorded span starts at the old end of the file and is the line's length |
| IncrementalMerge.WrittenStep | scripts/build_wikidict.py:220-232 | writing and recording a row keeps the file and the index in step |
| IncrementalMerge.WriteRow | scripts/build_wikidict.py:220-232 | the row's line is appended, and its `tell()` span is recorded under its title |
| IncrementalMerge.UpdateWikidict | scripts/build_wikidict.py:186-338 | the loop writes `Merged` after the header and indexes every written line; the counters are as in `ProgressDone`; the warning is raised exactly when `len(index) != total_count` |
| Storage.Bucket.GetObject | scripts/build_wikidict.py:55 | a read logs one request and changes nothing; it returns the object, `NoSuchKey`, or a failure when the request is refused |
| Storage.Bucket.PutObject | scripts/build_wikidict.py:74 | a write replaces the object exactly when the request is accepted |
| Storage.Bucket.HeadObject | scripts/build_wikidict.py:107-108 | `head_object` succeeds exactly when the key exists and the request is accepted |
| Storage.LocalPathInjective | scripts/build_wikidict.py:134 | two downloads share a local path only when they are the same key |
| Storage.LocalIndexPath | scripts/build_wikidict.py:143-144 | the local index of a downloaded table is the download of the table's index |
| Storage.IndexKeyOfDataKey | scripts/build_wikidict.py:93-94 | the date's index key is its table key with "data.csv" replaced |
| Storage.PublishedKeysDiffer | scripts/build_wikidict.py:93-94 | a date's table key, index key and the manifest key are pairwise different |
| Storage.CleanupLocalFiles | scripts/build_wikidict.py:341-349 | every file under `data/dict/` is removed; all other files are kept unchanged |
| Publish.LoadManifestFromS3 | scripts/build_wikidict.py:53-68 | one `get_object`: a missing manifest loads as `{}`, a refused request or a non-manifest object raises |
| Publish.UpdateManifestInS3 | scripts/build_wikidict.py:71-78 | one `put_object` of the whole dict, which raises when refused |
| Publish.ManifestRoundTrip | scripts/build_wikidict.py:56 | a written manifest is loaded back unchanged |
| Publish.MissingManifestIsEmpty | scripts/build_wikidict.py:59-62 | an absent manifest loads as `{}`, which has no valid `file_path` |
| Publish.FirstMissing | scripts/build_wikidict.py:355-357 | nothing is reported iff every listed field is present and non-empty; a reported field is listed and missing or empty |
| Publish.MissingField | scripts/build_wikidict.py:354-357 | `file_path` is reported iff it is missing or empty; `changelog_file_path` iff `file_path` passes and it does not |
| Publish.HasValidFilePath | scripts/build_wikidict.py:401-406 | `has_valid_file_path` holds iff the manifest has a `file_path` with a non-whitespace character |
| Publish.ValidPathPassesFirstCheck | scripts/build_wikidict.py:401-410 | a dispatched manifest can fail the field check only on `changelog_file_path` |
| Publish.Published | scripts/build_wikidict.py:115-118 | exactly `file_path`, `last_updated_at`, `version` and `index_file_path` are set, to the date's keys, the time and the date; all other keys keep their values |
| Publish.PublishedConsistent | scripts/build_wikidict.py:84 | the published index key is the published table key with "data.csv" replaced |
| Publish.PublishedIsValid | scripts/build_wikidict.py:115-118 | a published manifest passes the next run's `file_path` checks; its `changelog_file_path` check gives what it gave before |
| Publish.DownloadFileFromS3 | scripts/build_wikidict.py:131-160 | downloads the table, then its index, to `data/` + key; the first refused or missing key raises, and earlier downloads stay on disk |
| Publish.DownloadChangelogFromS3 | scripts/build_wikidict.py:163-183 | downloads the changelog to `data/` + key, or raises and leaves the disk unchanged |
| Publish.UpdateWikidictFiles | scripts/build_wikidict.py:186-200 | the code as written, which the build uses: the output is truncated before the inputs are read, so a base stored at the output path is read as empty |
| Publish.UpdateWikidictFilesReadFirst | scripts/build_wikidict.py:186-338 | corrected: both inputs are read before the output is written, so the merged table and its index always come from the real base |
| Publish.MergeLocal | scripts/build_wikidict.py:202-315 | reads both tables, merges them and writes the table and its index; an unreadable input raises |
| Publish.SameDayRerunDropsBase | scripts/build_wikidict.py:198-200 | on a same-day rerun the live table's rows are lost: a one-row base and a one-row changelog give one row instead of two |
| Publish.UploadFileToS3 | scripts/build_wikidict.py:81-128 | both local files must exist; puts, then heads, in order, stopping at the first refusal; only the date's keys change; the manifest dict is updated exactly when all four requests succeed |
| Publish.OutputPaths | scripts/build_wikidict.py:374 | the merge's output path is the local copy of the date's table key, and its index path is the local copy of the date's index key |
| Publish.FetchInputs | scripts/build_wikidict.py:367-371 | the three reads are made in order; on success each key's local copy holds that key's object |
| Publish.MergeAndPublish | scripts/build_wikidict.py:373-382 | the merge reads the local copies with the date's table emptied, as `update_wikidict` does; the manifest gate holds: the manifest is written only after both uploads were checked, and is unchanged on failure |
| Publish.EmptiedRead | scripts/build_wikidict.py:198-200 | a downloaded key reads, once the output is opened, as its object, or as empty when it is the date's table key |
| Publish.UploadAndCommit | scripts/build_wikidict.py:379-382 | `update_manifest_in_s3` runs only after the upload returned; on success the bucket holds the table, the index and the updated manifest |
| Publish.RunIncrementalBuild | scripts/build_wikidict.py:366-383 | the `try` block keeps `PublishOutcome`: only the date's keys and the manifest change, the manifest only on success, and requests follow `PublishCalls`; the base is read as written, empty when `file_path` is the date's table key |
| Publish.FailedFetchOutcome | scripts/build_wikidict.py:386-389 | a build that raised during the downloads changed nothing in the bucket |
| Publish.GateAfterFetch | scripts/build_wikidict.py:366-382 | the three reads followed by the gated upload and manifest write keep the gate of the whole build |
| Publish.UploadCallsNoManifest | scripts/build_wikidict.py:96-108 | the upload never writes the manifest |
| Publish.DownloadedCopies | scripts/build_wikidict.py:165 | after both downloads each key's local copy holds its object, even when two keys share a local path |
| Publish.BuildUpdatedWikidict | scripts/build_wikidict.py:352-393 | a missing or empty required field raises `ValueError` before any request; otherwise `PublishOutcome` holds, with the base read as written, and the working directory is cleared |
| Publish.CleanupAfterBuild | scripts/build_wikidict.py:390-393 | after the `finally` nothing remains under `data/dict/`, and other files change only where downloads landed |
| Publish.BuildMain | scripts/build_wikidict.py:397-413 | a failed load raises; otherwise the incremental path is taken iff `has_valid_file_path`, with `PublishOutcome` of the as-written merge, and the full-rebuild branch changes nothing in the bucket or on disk |
| Publish.ManifestChangesOnlyOnSuccess | scripts/build_wikidict.py:379-389 | a changed manifest means the build succeeded after every request in order; the manifest then names the merged table (merged from the base as read, empty on a same-day rerun) and an index of exactly that table |
| Publish.PublishedTable | scripts/build_wikidict.py:366-382 | after a successful build the date's table is the changelog alone when `file_path` is the date's table key, and the merge of the base and the changelog otherwise |
| Text.LStrip | scripts/create_dump.py:289 | `lstrip` drops exactly the leading whitespace |
| Text.RStrip | scripts/create_dump.py:173 | `rstrip` drops exactly the trailing whitespace |
| Text.StripShape | scripts/create_dump.py:173 | `strip` cuts only whitespace at both ends, and the result starts and ends with a non-whitespace character |
| Text.StripEmpty | scripts/create_dump.py:173 | a text strips to nothing iff it is all whitespace |
| Text.CollapseSingleSpaced | scripts/create_dump.py:173 | `re.sub(r"\s+", " ", ...)` leaves no run of two whitespace characters, and only plain spaces |
| Text.NormalizeShape | scripts/create_dump.py:173 | normalised text has no whitespace at either end and no run of two or more whitespace characters |
| Text.NormalizeKeepsVisible | scripts/create_dump.py:173 | normalisation keeps every non-whitespace character, in order |
| Text.Upper | scripts/create_dump.py:289 | `upper` never shortens a text; special cases such as 'ß' and the ligatures lengthen it |
| Text.UpperChar | scripts/create_dump.py:289 | an ASCII character upper-cases to one character, which differs from it exactly for a lower-case letter, and is then that letter's capital |
| Text.UpperWide | scripts/create_dump.py:289 | a non-ASCII character upper-cases to a non-empty string |
| Text.UpperAppend | scripts/create_dump.py:289 | upper-casing works character by character: the upper case of a concatenation is the concatenation of the upper cases |
| Text.UpperAscii | scripts/create_dump.py:289 | on ASCII text `upper` keeps the length and maps each character on its own |
| Text.UpperRedirect | scripts/create_dump.py:289 | both "#redirect" and "#REDIRECT" upper-case to "#REDIRECT" |
| Text.RedirectSpellings | scripts/create_dump.py:289 | a text starting with "#redirect" or "#REDIRECT" upper-cases to one starting with "#REDIRECT" |
| Text.UpperDotlessRedirect | scripts/create_dump.py:289 | "#red\u0131rect", with a dotless i, upper-cases to "#REDIRECT" |
| Text.ReplaceSkip | scripts/build_wikidict.py:84 | `str.replace` copies a prefix in which the pattern does not start |
| Dump.ExtractLatestTextSpec | scripts/create_dump.py:101-109 | returns the first revision with non-empty text, and `None` iff there is none |
| Dump.IsRedirect | scripts/create_dump.py:289 | a text whose left-stripped form starts with "#redirect" or "#REDIRECT" is a redirect |
| Dump.DotlessRedirect | scripts/create_dump.py:289-291 | a page starting with "#red\u0131rect" is skipped as a redirect although it starts with neither ASCII spelling |
| Dump.CleanWikitextChoice | scripts/create_dump.py:178-212 | the fast result is used iff it did not raise, is longer than 50 and holds neither "{{" nor "[["; either result is normalised |
| Dump.ProcessPageSpec | scripts/create_dump.py:215-231 | `None` iff cleaning raises or the text is shorter than `MIN_TEXT_LENGTH`; otherwise the title with the normalised cleaned text |
| Dump.Admit | scripts/create_dump.py:270-299 | a page is batched only from namespace 0, only once skipping is over, and under its own title |
| Dump.Select | scripts/create_dump.py:267-299 | there are never more batched items than pages |
| Dump.SelectFromSlice | scripts/create_dump.py:267 | selecting from position `k` is selecting from the dump's `k`-th suffix |
| Dump.SelectedPassFilters | scripts/create_dump.py:267-299 | every batched item comes from a namespace-0, non-empty, non-redirect page within `MAX_RAW_TEXT_LENGTH`, with that page's title and text |
| Dump.ResumeSkipsThrough | scripts/create_dump.py:277-281 | resuming skips every namespace-0 page up to and including the first one titled `resume_after_title` |
| Dump.ResumeNeverFound | scripts/create_dump.py:277-281 | resuming after a title the dump lacks batches nothing |
| Dump.SelectSplit | scripts/create_dump.py:267-299 | once skipping is over, selection is page by page |
| Dump.ProcessAll | scripts/create_dump.py:304 | `pool.map` gives one result per item |
| Dump.KeptAppend | scripts/create_dump.py:306-312 | the rows written for two result lists are those of each, in order |
| Dump.ProcessAllAppend | scripts/create_dump.py:304 | `pool.map` over two batches is `pool.map` over each, in order |
| Dump.WrittenRows | scripts/create_dump.py:304-312 | every written row is the processed form of a batched item, at least `MIN_TEXT_LENGTH` long and normalised |
| Dump.WriteResults | scripts/create_dump.py:306-312 | the non-`None` results are written in order and `count` grows by one for each |
| Dump.FlushBatch | scripts/create_dump.py:304-313 | a batch's processed results are written in batch order |
| Dump.FlushFullBatch | scripts/create_dump.py:303-326 | a full batch is written, and a checkpoint of `last_title` and the new count is saved exactly when `count % CHECKPOINT_INTERVAL < BATCH_SIZE` |
| Dump.ScanStep | scripts/create_dump.py:267-300 | one page adds its item, if any, to the batch |
| Dump.ScanPage | scripts/create_dump.py:267-326 | one iteration of `for page in dump`, flushing a full batch, keeps the loop invariant for one more page |
| Dump.ScanFlush | scripts/create_dump.py:303-313 | a flushed batch moves to the items written |
| Dump.ScanEnd | scripts/create_dump.py:328-329 | at the end of the dump the batches and the leftover batch make up the selection |
| Dump.FinalCheckpoint | scripts/create_dump.py:338-341 | a checkpoint saved after writing covers every item so far, with the count of rows written |
| Dump.FlushStep | scripts/create_dump.py:303-313 | flushing keeps the output, the batch and the checkpoint invariants |
| Dump.ScanDump | scripts/create_dump.py:267-326 | batches never exceed `BATCH_SIZE`; the rows written are those of the full batches, and `count` counts them; `last_title` is the last batched title; saved checkpoints are consistent |
| Dump.FinishDump | scripts/create_dump.py:328-341 | after the loop, the partial batch is written and the final checkpoint covers every batched item when the last title is non-empty |
| Dump.DumpMain | scripts/create_dump.py:234-341 | the output is the header (fresh start, mode "w") or the previous rows (resume, mode "a") followed by the processed selection; the final partial batch is flushed; the last checkpoint covers everything |
| Dataset.Word | scripts/build_wikidict_full.py:204 | a word is a prefix of the text, non-empty when the text starts with a visible character |
| Dataset.WordSolid | scripts/build_wikidict_full.py:204 | a word holds no whitespace |
| Dataset.WordsShape | scripts/build_wikidict_full.py:204 | `split()` gives non-empty whitespace-free words that hold every visible character in order |
| Dataset.JoinWords | scripts/build_wikidict_full.py:204 | `' '.join` of words keeps their characters, adds only spaces, and is empty only for no words |
| Dataset.ReplaceSpaceVisible | scripts/build_wikidict_full.py:203 | replacing a line break by a space changes no visible character |
| Dataset.SanitizeShape | scripts/build_wikidict_full.py:203-204 | the clean-up keeps the visible characters, leaves plain spaces as the only whitespace, and is empty iff the text has no visible character |
| Dataset.Sanitize | scripts/build_wikidict_full.py:203-204 | a cleaned text holds no '\n' or '\r' |
| Dataset.PieceNonEmpty | scripts/build_wikidict_full.py:190-207 | each draw contributes a non-empty part |
| Dataset.PartsReachSize | scripts/build_wikidict_full.py:190 | the loop stops only once the size target is reached |
| Dataset.PartsStopEarly | scripts/build_wikidict_full.py:190-207 | the loop stops as soon as the target is reached: the parts before the last fall short of it |
| Dataset.JoinNoLineBreak | scripts/build_wikidict_full.py:209 | joining parts without line breaks gives no line break |
| Dataset.PartsClean | scripts/build_wikidict_full.py:202-206 | every collected part is free of line breaks |
| Dataset.FakeValueOneLine | scripts/build_wikidict_full.py:203-209 | a generated value is a single line |
| Dataset.GenerateFakeValue | scripts/build_wikidict_full.py:176-209 | the loop returns `FakeValue`, which holds no '\n' or '\r' |
| Dataset.UniqueDistinct | scripts/build_wikidict_full.py:242-247 | the kept titles are pairwise distinct |
| Dataset.UniqueDrawn | scripts/build_wikidict_full.py:240-247 | a title is kept iff it was drawn |
| Dataset.UniqueStep | scripts/build_wikidict_full.py:243-247 | one draw keeps at most one more title |
| Dataset.StopAt | scripts/build_wikidict_full.py:239 | the number of draws never falls below where counting starts, unless the limit is already passed |
| Dataset.StopAtFirst | scripts/build_wikidict_full.py:239 | the loop stops at the first point with `num_rows` titles kept, and never after `num_rows * 10` draws |
| Dataset.StopAtStep | scripts/build_wikidict_full.py:239-259 | a round that does not end the loop leaves its stopping point unchanged |
| Dataset.StopAtExit | scripts/build_wikidict_full.py:239 | where the loop condition fails, the draws stop |
| Dataset.RowsFor | scripts/build_wikidict_full.py:247-251 | one row per kept title |
| Dataset.RowsForAppend | scripts/build_wikidict_full.py:247-251 | keeping one more title appends its row with the next generated value |
| Dataset.GeneratedShape | scripts/build_wikidict_full.py:230-262 | titles pairwise distinct; at most `num_rows` rows, exactly `num_rows` unless the draws ran out; every value a single line |
| Dataset.DrawStep | scripts/build_wikidict_full.py:240-251 | a seen title is skipped; a new one is written with its value and joins the seen set |
| Dataset.DrawOnce | scripts/build_wikidict_full.py:240-259 | one round of the loop keeps its invariant for one more draw |
| Dataset.GenerateUnsortedDataset | scripts/build_wikidict_full.py:212-267 | the loop writes `Generated`; `attempts` grows every round and ends at most `num_rows * 10` |
| FullBuild.LocalFiles | scripts/build_wikidict_full.py:642-646 | the three local files are distinct, all under `data/dict/`, and the sorted table and its index are the local copies of their keys |
| FullBuild.FreshManifest | scripts/build_wikidict_full.py:545-554 | the manifest has exactly the eight keys, names the uploaded keys, and has an empty `changelog_file_path`, the time and the date |
| FullBuild.FreshManifestNextRun | scripts/build_wikidict_full.py:551 | the next incremental run takes the incremental path and then raises `ValueError` on `changelog_file_path`; the index path follows the derivation rule |
| FullBuild.BuildLocalFiles | scripts/build_wikidict_full.py:648-665 | `data.csv` holds the sorted generated rows and `index.json` their index; the unsorted file is removed |
| FullBuild.RemoveScratch | scripts/build_wikidict_full.py:658-660 | removing the scratch file leaves the sorted table as if it was written alone |
| FullBuild.UploadToS3 | scripts/build_wikidict_full.py:490-529 | uploads the table, then the index, then heads both, stopping at the first failure; only the date's keys change; on success it returns them |
| FullBuild.CreateAndUploadManifest | scripts/build_wikidict_full.py:532-571 | writes the fresh manifest, then heads it; a failed head raises although the manifest is already written |
| FullBuild.PublishFiles | scripts/build_wikidict_full.py:668-695 | steps 4 and 5 keep `FullOutcome`: exit 0 iff every request succeeds; the manifest changes only after both uploads were checked |
| FullBuild.UploadFailed | scripts/build_wikidict_full.py:670 | a failed upload or check leaves the manifest alone and exits with 1 |
| FullBuild.ManifestAttempted | scripts/build_wikidict_full.py:675-695 | after good uploads the exit is 0 iff the manifest's put and head succeed; the manifest is the fresh one whenever its put succeeded |
| FullBuild.ManifestRejected | scripts/build_wikidict_full.py:532-571 | a refused manifest write leaves the manifest as it was and exits with 1 |
| FullBuild.ManifestWritten | scripts/build_wikidict_full.py:532-571 | an accepted manifest write installs the fresh manifest; the exit is 0 exactly when its check succeeds |
| FullBuild.FullBuildMain | scripts/build_wikidict_full.py:586-699 | without credentials, 1 and nothing touched; otherwise `FullOutcome` over the stable sort of the generated rows, and the working directory is cleared |
| FullBuild.CleanupAfterFullBuild | scripts/build_wikidict_full.py:697-699 | after the cleanup nothing is left under `data/dict/` and everything else is as before |

## Left out

Not modelled:

- **Bytes and encoding.**
  - Objects and files hold decoded values: a table's rows, an index dict, or a manifest dict of strings. Bytes, JSON text and UTF-8 widths are not modelled. One character counts as one byte.
  - CSV quoting is replaced by a backslash escape, under which every record is one line: no separator or line break inside a field, and the title reads back. The model therefore assumes single-line fields.
  - Multi-line CSV records are not modelled. The csv module quotes a field holding a line break and keeps the break inside the quotes. `create_index` reads the table with `readline`, so it would split such a record into several index lines. `create_dump.py` and the generator normalise their values to one line; a changelog with a multi-line value is outside the model.
- **Randomness and external inputs.**
  - Faker, `random` and `generate_fake_title` are parameters: the title of each draw, the size target of each row and the texts drawn for each row.
  - `estimate_rows_for_size` uses floating-point GB arithmetic, so the row count is a parameter.
  - The credentials check is a boolean parameter.
  - `datetime.now()` is called several times in the scripts. The model uses one date and one time stamp per run.
- **Bucket requests.**
  - Refused requests are a fixed fault set per bucket. Transient failures and retries are not modelled.
  - `upload_file` and `download_file` are single `put`/`get` requests.
  - boto3's own behaviour is not modelled.
- **Processes, logging and the working directory.**
  - The full-rebuild branch of `main` in build_wikidict.py runs `subprocess.run`. The model returns it as a dispatch outcome; the full build is modelled separately by `FullBuild.FullBuildMain`.
  - Logging, timings, progress reports and the skipped-page counters of create_dump.py are not modelled. Neither is the "could only generate" warning of `generate_unsorted_dataset`.
  - The temporary chunk directory and its files are not modelled, and neither is its removal. Chunks are values passed from phase 1 to phase 2.
  - `os.makedirs` and the removal of empty directories are not modelled.
- **`create_dump.py` internals.**
  - The regular-expression bodies of `clean_wikitext_fast`, the `mwparserfromhell` fallback and `mwxml` are opaque functions. The model covers only the whitespace normalisation and the choice between the two cleaners.
  - The decompressor choice is not modelled.
  - `multiprocessing.Pool.map` is an order-preserving sequential map.
  - `load_checkpoint` and `save_checkpoint` are the checkpoint value in and out.
  - `checkpoint.json` with a `null` `last_title` is not modelled. The program never writes one: it saves a checkpoint only with the `last_title` of a batched page (create_dump.py:323-326) or when `last_title` is set (create_dump.py:338-341). Python would load `null` as `None`, so `skipping` would be off and the whole dump would be processed. The model reads a loaded checkpoint's title as a string, so the nearest case it covers is the empty title. That title turns skipping on, and since no page has the empty title, `Dump.ResumeNeverFound` shows that nothing is batched.

Contracts stated more weakly than the source:

- TitleOrder.Lower: `str.lower` folds only ASCII letters. The proofs use only that it is a function.
- Text.Upper: `str.upper` is modelled for ASCII, Latin-1, the dotless 'ı', the long 'ſ', 'ß', 'ŉ', 'ǰ', the letters U+1E96 to U+1E9A and the ligatures U+FB00 to U+FB06. Every other character maps to itself. Python also upper-cases Greek, Cyrillic and other scripts. None of those can turn a text into one starting with "#REDIRECT", so `Dump.IsRedirect` decides the same as the source.
- Dataset.GenerateFakeValue: counts the characters of each part, not its UTF-8 bytes.
- Dataset.Parts: requires every drawn text to hold a visible character. A generator that only drew whitespace would make the Python loop run forever.
- ByteIndex.CreateIndex: offsets and lengths count characters, not bytes. Parse failures are a line whose title cannot be read; no other decoding error is modelled.
- MergeChunks.MinHeap.Pop: states the pop-minimum contract on the multiset of entries. The binary-heap layout of the list is not modelled.

Behaviour of the code that the model keeps, although a reader might expect otherwise:

- **Equal keys in the merge.** The k-way merge keeps every row and does not de-duplicate. Rows with equal lower-cased titles come out lowest chunk index first (`KWayMerge.MergeKeyFilter`); no later row replaces an earlier one.
- **Index size check.** An index size mismatch only logs a warning (`IncrementalMerge.UpdateWikidict` returns `warned`). The build goes on and publishes.
- **Upload checks.** Uploads are checked with `head_object` existence only, with no size check.
- **Where a build publishes.** The date alone decides the publish keys; there is no separate staging location. A same-day rerun writes over the live keys, and a build that fails after its uploads may already have replaced the table the manifest names. On a same-day rerun the published table is the changelog alone (`Publish.PublishedTable`, see Findings). The manifest itself stays unchanged (`Publish.ManifestChangesOnlyOnSuccess`).
- **The full build's manifest check.** The full build checks the manifest with `head_object` after writing it. When that check fails, the manifest has already changed, but the exit code is 1 (`FullBuild.ManifestAttempted`).
- **After a full build.** The fresh manifest has an empty `changelog_file_path`. The next incremental run therefore takes the incremental path and raises `ValueError` (`FullBuild.FreshManifestNextRun`).
- **Changelog path.** `changelog_file_path` is never cleared after a successful update. A rerun on a later day with strictly ascending tables applies the same changelog again and publishes the same table (`IncrementalMerge.MergedIdempotent`); a same-day rerun drops the base instead (see Findings).

## Findings

| source | as written | input that shows it | evidently intended | confidence | as-written member | corrected member |
|---|---|---|---|---|---|---|
| scripts/build_wikidict.py:198-200 | `update_wikidict` opens the existing table for reading and the output for writing in one `with` before reading anything. On a same-day rerun the existing table's local path (`"data/" + file_path`, line 368) is the output path (line 374), so opening the output with `'w'` empties the base first. | The manifest's `file_path` is `dict/20250101/data.csv` holding `a,old`, the changelog holds `b,new`, and the run is dated 20250101. The published table holds only `b,new`. | The merge reads the live base and publishes `a,old` and `b,new`. | not executed | Publish.UpdateWikidictFiles, Publish.SameDayRerunDropsBase, Publish.PublishedTable | Publish.UpdateWikidictFilesReadFirst |
