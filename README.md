# Open Images downloader: label resolution and download-list construction

This project models the part of the Open Images downloader that decides which images
to fetch. The model has two stages:

1. **Label resolution** (`get_ooi_labelmap`). The program scans the dataset's labelmap,
   a table of (label code, human-readable name) rows, in row order. It keeps every row
   whose name equals one of the requested object names, ignoring case. The result is a
   dict from the lowercased name to the label code. When several rows lowercase to the
   same name, the last one wins.
2. **Download-list construction** (`generate_download_list`). For each entry of that
   dict, in dict iteration order, the program selects the annotation rows carrying the
   entry's code, in table order. Each selected row becomes the filename
   `<ImageID>.jpg`. A filename is dropped when `os.path.join(OUTPUT_DIR, filename)`
   already exists.

The modules follow that structure:

- `Seqs`: generic sequence facts, `Distinct`, and `Dedup`, which keeps each element's
  first occurrence, in order of first occurrence (`DedupFirstOrder`).
- `Text`: ASCII lowercasing.
- `Paths`: POSIX `os.path.join` for two components.
- `Dicts`: a Python dict as an insertion-ordered sequence of (key, value) pairs with
  distinct keys. `Put` is item assignment: an existing key keeps its position and a new
  key is appended.
- `LabelResolver`:
  - `Resolve` is the specification function.
  - `GetOoiLabelmap` is the scanning loop, proved equal to `Resolve`.
  - Lemmas give the keys, their order, last-write-wins and the size bounds.
- `DownloadListBuilder`:
  - `Planned` is the specification function.
  - `GenerateDownloadList` is the two-loop builder, proved equal to `Planned`.
  - Lemmas give membership, order, multiplicity, monotonicity in the set of existing
    files, and the duplicate-removal finding.
- `Pipeline`: the composition done by `main`, built on the corrected, duplicate-free list (see Findings), plus a worked cat/dog scenario.

The globals the functions read become parameters:

- `OBJECTS` becomes `objects`.
- `OUTPUT_DIR` becomes `outputDir`.
- The file system becomes `existing`, the set of paths that exist.

The two tables become sequences of records holding only the columns the code reads:

- `LabelRow(code, name)` is a labelmap row.
- `Annotation(imageId, labelName)` is an annotation row.

## Model

| member | source | states |
|---|---|---|
| `Text.Lower` | downloader/download.py:62 | lowercasing preserves the length of a name |
| `Text.LowerAt` | downloader/download.py:62 | each character is lowercased on its own, and no upper-case letter is left |
| `Text.LowerIdempotent` | downloader/download.py:62-63 | lowercasing an already lowercased key changes nothing |
| `Paths.Join` | downloader/download.py:95 | the path of a filename inside the output directory, as POSIX `os.path.join` builds it; an empty directory or an absolute filename gives the filename alone |
| `Paths.JoinShape` | downloader/download.py:95 | the joined path ends with the filename; for a relative filename it starts with the directory, with a separator in between |
| `Dicts.Put` | downloader/download.py:63 | item assignment keeps keys distinct; an existing key keeps its place and takes the new value, other entries are unchanged; a new key is appended at the end |
| `Dicts.PutEntry` | downloader/download.py:63 | after the assignment, the entry under the key holds the new value, and every other entry was already present |
| `LabelResolver.IsRequested` | downloader/download.py:62 | a row's name is requested iff some requested object name has the same lowercase |
| `LabelResolver.Resolve` | downloader/download.py:60-65 | the resolved dict has distinct keys and no more entries than the labelmap has rows |
| `LabelResolver.MatchedNamesMembers` | downloader/download.py:61-62 | a name is among the matched names iff some requested row lowercases to it |
| `LabelResolver.LastIndex` | downloader/download.py:61-63 | gives the last row whose lowercased name is the key, or -1 when there is none |
| `LabelResolver.ResolveStep` | downloader/download.py:61-63 | one more scanned row assigns its code under its lowercased name if it is requested, and otherwise leaves the dict unchanged |
| `LabelResolver.GetOoiLabelmap` | downloader/download.py:51-65 | the scanning loop returns exactly the resolved dict |
| `LabelResolver.ResolveKeyOrder` | downloader/download.py:60-63 | the keys iterate in the order in which their names first match, each once |
| `LabelResolver.ResolveKeyMember` | downloader/download.py:61-63 | a name is a key iff some requested row lowercases to it (both directions) |
| `LabelResolver.KeyIsRequested` | downloader/download.py:62-63 | every key is lowercase and equals the lowercase of some requested object name |
| `LabelResolver.ResolveKeys` | downloader/download.py:60-65 | a key exists iff a requested row has that name (both directions); keys are lowercase requested names; a request that matches no row adds no key |
| `LabelResolver.ResolveLastWins` | downloader/download.py:61-63 | each key holds the code of the last row, in scan order, whose lowercased name is that key |
| `LabelResolver.ResolveNoObjects` | downloader/download.py:60-65 | an empty request list resolves to an empty dict |
| `LabelResolver.ResolveSize` | downloader/download.py:60-65 | the dict has no more entries than labelmap rows, nor than distinct lowercased requests |
| `DownloadListBuilder.ImageName` | downloader/download.py:92 | the filename is the image identifier followed by the four characters of the `.jpg` extension |
| `DownloadListBuilder.ImageNameInjective` | downloader/download.py:92 | two filenames are equal iff their image identifiers are, so removing repeated filenames is removing repeated images |
| `DownloadListBuilder.Select` | downloader/download.py:84 | the rows selected for a code are annotation rows carrying that code, and no more than the annotation rows |
| `DownloadListBuilder.Candidates` | downloader/download.py:79-84 | the frame appended entry by entry holds only annotation rows; its exact content and order are given by `CandidatesMembers` and `CandidatesAppend` |
| `DownloadListBuilder.FileNames` | downloader/download.py:90-92 | one filename per selected row |
| `DownloadListBuilder.Remaining` | downloader/download.py:94-96 | the existence filter keeps at most as many names as it is given; which names survive is given by `RemainingMembers` |
| `DownloadListBuilder.Planned` | downloader/download.py:68-98 | the builder's result as a function of its inputs, with no more filenames than selected rows; its membership, order, multiplicity and monotonicity are given by the lemmas below |
| `DownloadListBuilder.GenerateDownloadList` | downloader/download.py:68-98 | the two loops return exactly the planned list: the selected rows' filenames, in dict order then table order, minus those whose path exists |
| `DownloadListBuilder.SelectAppend` | downloader/download.py:84 | selection distributes over concatenated annotation tables, so table order is kept |
| `DownloadListBuilder.CandidatesAppend` | downloader/download.py:82-84 | the appended frame for two dicts is the frame of the first followed by the frame of the second |
| `DownloadListBuilder.SelectMembers` | downloader/download.py:84 | a row is selected for a code iff it is an annotation row carrying that code |
| `DownloadListBuilder.CandidatesMembers` | downloader/download.py:82-84 | a row is in the appended frame iff it is an annotation row whose code is a value of the dict |
| `DownloadListBuilder.FileNamesMembers` | downloader/download.py:90-92 | a filename is produced iff it is `<ImageID>.jpg` of some row |
| `DownloadListBuilder.RemainingMembers` | downloader/download.py:94-96 | a filename survives the existence filter iff it was a candidate and its joined path does not exist |
| `DownloadListBuilder.PlannedMembers` | downloader/download.py:82-96 | a filename is listed iff its path does not exist and some annotation row with a dict code has that image; an empty dict gives an empty list |
| `DownloadListBuilder.PlannedEntriesAppend` | downloader/download.py:82-84 | the list is the lists of the dict entries, concatenated in iteration order |
| `DownloadListBuilder.PlannedRowsAppend` | downloader/download.py:84 | for one dict entry, the list follows annotation table order |
| `DownloadListBuilder.PlannedSingleRow` | downloader/download.py:84-96 | one row under one entry contributes its filename iff the codes match and the file is absent |
| `DownloadListBuilder.PlannedMultiplicity` | downloader/download.py:82-96 | each filename occurs once per (dict entry, annotation row) pair that produces it with the file absent, so the length is the number of such pairs |
| `DownloadListBuilder.RemainingShrinks` | downloader/download.py:94-96 | the existence filter only removes names |
| `DownloadListBuilder.RemainingTwice` | downloader/download.py:94-96 | filtering by a smaller and then a larger set of existing paths equals filtering by the larger set |
| `DownloadListBuilder.PlannedMonotone` | downloader/download.py:94-96 | more existing files give the old list with the newly present names filtered out, never a new name |
| `DownloadListBuilder.DuplicatesKept` | downloader/download.py:87 | two equal annotation rows for a requested code put the image in the list twice |
| `DownloadListBuilder.DropDuplicates` | downloader/download.py:87 | the loop removes repeated filenames, keeping first occurrences |
| `DownloadListBuilder.GenerateUniqueDownloadList` | downloader/download.py:87 | the corrected list: the as-built list with repeats removed, without repetitions, with the same filenames, in the order of their first occurrence in the as-built list, and equal to the as-built list when that one has no repeats |
| `Seqs.Dedup` | downloader/download.py:87 | duplicate removal yields a sequence without repetitions, with the same elements and no longer than its input |
| `Seqs.FirstIndex` | downloader/download.py:87 | the position of an element's first occurrence: it holds the element and no earlier position does |
| `Seqs.DedupFirstOrder` | downloader/download.py:87 | duplicate removal keeps the order of first occurrences: an element listed before another first occurs earlier in the input |
| `Seqs.DedupOfDistinct` | downloader/download.py:87 | duplicate removal leaves a sequence without repetitions unchanged |
| `Pipeline.PlanDownloads` | downloader/download.py:113-125 | resolving and then building gives the corrected list for the resolved dict: each filename once, exactly the filenames the builder selects, in the order of their first occurrence in the builder's list |
| `Pipeline.CatDogResolve` | downloader/download.py:60-63 | requesting "cat" against a cat row and a dog row yields only the cat code |
| `Pipeline.CatDogList` | downloader/download.py:82-96 | of three annotation rows, the two cat rows are listed in table order, and an image already on disk is skipped |

## Left out

- Command-line parsing and the module-level globals (downloader/download.py:12-37) are not modelled. Their values enter as parameters.
- Creating the output directory and the `FileNotFoundError` checks on the input files (downloader/download.py:39-48) are file-system side effects and are not modelled.
- Reading the CSV files with `pandas.read_csv` (downloader/download.py:115, 119) is not modelled. This includes its header handling: by default the first line of each file becomes the column header, not a row. The model starts from the rows that reading yields.
- Only the `ImageID` and `LabelName` columns of the annotation table are modelled, because those are the only columns the builder reads. The frame's index is not modelled, because it is never read.
- `DataFrame.append` is modelled as sequence concatenation.
- Missing or non-string cells are not modelled. In pandas a missing value is a float `NaN`, which would raise on `.lower()` or on `+ ".jpg"`.
- `download_objects_of_interest` (downloader/download.py:101-109) is not modelled: the S3 client, the progress bar, the file writes and the per-image error printing are network and file I/O.
- The printing in `main`, and the truncation of the download list to its first two entries before fetching (downloader/download.py:121-130), are not modelled.
- `Pipeline.PlanDownloads` returns the corrected, deduplicated list (see Findings), not the list `main` passes on at downloader/download.py:124-128, which keeps repeated filenames. The list as `main` receives it is `DownloadListBuilder.GenerateDownloadList`'s result.
- The imported but unused thread pool (downloader/download.py:10) is not modelled.
- `Text.Lower` lowercases ASCII letters only. Python's `str.lower` applies the full Unicode case mapping, and can even change a string's length. Non-ASCII names are therefore outside what the model captures.
- Running without `--objects` leaves the global as `None`, and the scan then fails with a `TypeError`. The model always receives a (possibly empty) sequence of requested names.
- `os.path.exists` is modelled as membership of the joined path string in `existing`. Symbolic links, `..` components, relative paths resolved against the working directory, and races with other processes are not modelled.

## Findings

| source | as written | input that shows it | evidently intended | confidence | as-written member | corrected member |
|---|---|---|---|---|---|---|
| downloader/download.py:87 | `drop_duplicates()` returns a new frame that is never assigned, so the frame iterated at line 90 still holds every repeated row | dict `{"cat": "/m/01"}`, annotation rows `(img1, /m/01)` and `(img1, /m/01)` (two cat boxes on one image), empty output directory: the list is `["img1.jpg", "img1.jpg"]` | each image listed once. Here that is deduplication by image identifier, which also covers one image carrying two requested classes. Assigning the row-level `drop_duplicates()` result would still list such an image twice | not executed; high that the result is discarded, medium on which deduplication was meant | `DownloadListBuilder.DuplicatesKept` | `DownloadListBuilder.GenerateUniqueDownloadList` |
