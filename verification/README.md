# serve-clone, modelled in Dafny

serve-clone mirrors a directory tree that a `serve` server exposes as JSON
listings onto local disk. It runs in two phases. First it scrapes the tree
depth-first and collects every folder path and every file. Then it builds a
manifest with one URL and one local path per file, downloads each file
unless it is already on disk, and tallies the result messages into a report.

This project models that core as pure functions over immutable data:

- `results.dfy` has the `Result` and `Option` types.
- `text.dfy` has the JavaScript string operations the script uses:
  `join` with a one-character separator, `startsWith`, `endsWith` and
  `slice(0, -1)`. It also has `Split`, the inverse of `Join`.
- `scrape.dfy` has the remote tree (`Item`, `Listing`) and two walks.
  `ScrapePage` is the script's walk, which threads the shared `folders` and
  `files` arrays through as an accumulator. `Walk` is a reference walk that
  builds each subtree's result on its own.
- `manifest.dfy` builds the `fileDatas` records.
- `transfer.dfy` has the per-file decision of `downloadFile`, its message,
  its effect on the disk, and the batch.
- `tally.dfy` has the classification of result messages by prefix, and the
  counters.
- `pad.dfy` has `pad`.
- `clone.dfy` has the whole run (`Clone.Run`), the properties that span the
  phases, and a worked example in `CloneExample`.

The model makes the outside world into parameters:

- A remote listing is a `Listing` value. A folder whose listing fetch fails
  is `Unavailable`.
- The local disk is the set of file paths that exist. Directories are not
  part of it. The script's existence test would also be true for a
  directory at a file's path; the model does not represent that case.
- The network is a function from a file URL to a `Fetch`. It says whether
  the streaming GET completes, throws, or the write stream emits `error`.

Three behaviours of the source are easy to misread. The model follows the
source in each:

- **Write-stream errors after the GET answers.** `downloadFile` returns the
  stream's promise from inside the `try` without awaiting it. The writer's
  `error` listener is attached only after the GET has answered (lines 77
  and 88). A write error from then on rejects that promise outside the
  `try`, which rejects the whole `asyncPool` batch. Only a GET that throws
  is caught and reported as `Failed to download`. The model gives this case
  its own error: `Fetch.StreamFailed` leads to `Failure(WriteStreamError(..))`.
- **Order of `errorMsg`.** The pool returns results in input order, not in
  the order downloads complete, so `errorMsg` follows manifest order.
- **Trailing slash on the root URL.** The listing URL adds a `/` only when
  the root URL lacks one. The download URL always joins the root URL and the
  segments with `/`. So a root URL that already ends in `/` gives `//`
  before the first segment. `Manifest.FileUrlIsListingUrl` gives the
  relation for root URLs without a trailing slash, and
  `Manifest.FileUrlDoubleSlash` gives both URLs for root URLs with one.

## Model

| member | source | states |
|---|---|---|
| Scrape.ScrapeUrl | bin/serve-clone.js:21-27 | the listing URL of any folder starts with the root URL and ends with `/` |
| Scrape.ScrapeUrlRoot | bin/serve-clone.js:21-24 | the root's listing URL is the root URL with one `/` added, unless it already ends with `/` |
| Scrape.ScrapeUrlChild | bin/serve-clone.js:25-27 | a subfolder's listing URL is its parent's listing URL, then the segment, then `/` |
| Text.DropLastAppend | bin/serve-clone.js:36 | a folder listed as `name/` becomes the segment `name`: `slice(0, -1)` undoes appending one character |
| Scrape.ScrapePageIsWalk | bin/serve-clone.js:20-44 | the script's accumulator walk appends to `folders` and `files` exactly what the pre-order reference walk finds for that subtree |
| Scrape.WalkSucceedsIffAllListed | bin/serve-clone.js:29-40 | the scrape succeeds if and only if every listing in the tree is fetched, and one failed fetch at any depth fails it |
| Scrape.WalkCounts | bin/serve-clone.js:30-43 | a successful scrape records one file per `file` entry and one folder per `folder` entry of the whole tree |
| Scrape.WalkEntriesWellPlaced | bin/serve-clone.js:33-40 | every file's path extends the listed folder's path and is that folder or a recorded folder; every recorded folder lies below the listed one |
| Scrape.WalkEntriesListingOrder | bin/serve-clone.js:30-33 | the files recorded with a listing's own path are exactly that listing's `file` entries, in listing order |
| Scrape.OtherEntriesIgnored | bin/serve-clone.js:32-34 | removing entries whose type is neither `file` nor `folder` leaves the scrape result unchanged |
| Clone.ScrapeAllIsWalk | bin/serve-clone.js:46-63 | scraping from the root with empty arrays gives the reference walk of the whole tree |
| Manifest.ManifestOf | bin/serve-clone.js:101-113 | one record per file; record k has `i` = k+1 and `c` = the number of files |
| Manifest.BuildManifest | bin/serve-clone.js:99-114 | the loop builds exactly the manifest, record by record, in file order |
| Text.SplitJoin | bin/serve-clone.js:107-112 | splitting a joined list of separator-free parts gives back the parts |
| Text.JoinSplit | bin/serve-clone.js:107-112 | joining the split of any string gives back the string |
| Manifest.LocalPathSegments | bin/serve-clone.js:109-112 | a local path splits back into the base directory's pieces, the folder segments and the file name |
| Manifest.LocalPathInjective | bin/serve-clone.js:109-112 | distinct separator-free files get distinct local paths |
| Manifest.FileUrlIsListingUrl | bin/serve-clone.js:104-107 | with a root URL without a trailing `/`, a file's URL is its folder's listing URL followed by its name |
| Manifest.FileUrlDoubleSlash | bin/serve-clone.js:104-107 | for every root URL ending in `/` and every file, the file URL is the root, an extra `/`, then the segments and name joined by `/`; the folder's listing URL plus the name has no extra `/` |
| Clone.ManifestUrlsFollowListings | bin/serve-clone.js:104-107 | every manifest record fetches from the listing URL of the folder its file was found in, when the root URL has no trailing `/` |
| Transfer.Message | bin/serve-clone.js:86-95 | a result message starts with its status's prefix and ends with ` - ` and the local path |
| Transfer.Decide | bin/serve-clone.js:73-96 | an existing file is already downloaded; otherwise a completed stream is downloaded, a thrown request is failed, and a write-stream error escapes; each case holds exactly when its condition does |
| Transfer.DownloadFile | bin/serve-clone.js:65-97 | an existing file resolves to `Already downloaded - url - path`; otherwise a completed stream resolves to `Finished downloading - url - path`, a thrown request to `Failed to download - url - path`, and a write error after the GET answers rejects with the path |
| Transfer.DiskAfter | bin/serve-clone.js:75-91 | a download creates the local file, a failed request unlinks it, an existing file is left alone, and no other path changes |
| Transfer.DownloadAll | bin/serve-clone.js:123 | the batch resolves exactly when every task does, with one result per record in manifest order, each decided on its own |
| Transfer.NoFailureFillsDisk | bin/serve-clone.js:73-96 | a batch without failed requests keeps every existing path and leaves every manifest path on disk |
| Tally.TallyResults | bin/serve-clone.js:127-138 | the loop computes the fold of the per-result step over all results |
| Tally.TallyCountsKinds | bin/serve-clone.js:127-138 | each counter counts the results with its prefix; `errorMsg` is exactly the `Failed` results in input order; `errors` is its length |
| Tally.TallyTotal | bin/serve-clone.js:128-138 | `downloaded + already + errors` equals the number of results with a recognised prefix |
| Tally.RecognisedAll | bin/serve-clone.js:130-137 | when every result has a recognised prefix, all of them are counted |
| Tally.ClassifyMessage | bin/serve-clone.js:130-136 | classifying the message built for a status gives back that status |
| Tally.MessageMatchesOnly | bin/serve-clone.js:130-136 | a message built for one status never lands in another status's counter |
| Tally.TallyOfMessages | bin/serve-clone.js:127-138 | tallying messages counts each status as often as it occurs, and the counters add up to the number of messages |
| Clone.BatchTally | bin/serve-clone.js:123-138 | a completed batch's tally counts every record once, under the status decided for it |
| Clone.CloneScrapeFailsIffUnlisted | bin/serve-clone.js:198-200 | a run stops in the scrape phase if and only if some listing in the tree cannot be fetched |
| Clone.CloneAccountsForEveryFile | bin/serve-clone.js:198-200 | in a completed run, downloaded + already + errors equals the number of `file` entries in the tree |
| Clone.BatchAllPresent | bin/serve-clone.js:73-96 | when every local path exists, the batch completes with every record already downloaded and nothing downloaded or failed |
| Clone.BatchWithoutErrorsFillsDisk | bin/serve-clone.js:73-96 | after a batch with zero errors, every record's local path exists |
| Clone.CloneIdempotent | bin/serve-clone.js:198-200 | re-running after a run with zero errors downloads nothing and reports every file as already downloaded, whatever the network does |
| Padding.Pad | bin/serve-clone.js:171-173 | `pad` ends with the string, is unchanged when already wide enough, reaches the width and overshoots by less than one padding; with a one-character padding its length is max(width, length); it needs a non-empty padding only when the string is too short |
| Padding.PadClosedForm | bin/serve-clone.js:171-173 | `pad` is the fewest copies of the padding that reach the width, followed by the string |

## Left out

- HTTP: the listing GET (line 29) becomes a `Listing` value. A failed GET
  or a body without a `files` array is `Unavailable`. The file GET
  (lines 77-82) becomes the `net` parameter.
- `isUrlAvailable`, `isUrlValid` and `isDirectoryValid` (lines 142-170) are
  not modelled. They wrap the network, the WHATWG URL parser and
  `path.parse`, none of which is visible here.
- The filesystem is the set of file paths that exist. `ensureDir`
  (line 72) and directories are not tracked, so a directory already at a
  file's local path, which the existence test at line 73 would count as
  present, is not modelled. `path.resolve` of the base directory
  (line 194) is not modelled: the base directory is taken as given.
- Transfer.DownloadFile: a file already at the local path of one of a
  record's parent folders makes `ensureDir` (line 72) reject. The task then
  rejects and aborts the whole batch. The model decides each record on its
  own path only, so such a disk (for example a stale local file `base/a`
  where the server now has a folder `a/`) gives a completed batch, and
  `Clone.CloneIdempotent` also ranges over such disks.
- The disk is a set of strings compared exactly. File systems that treat
  distinct strings as one file, such as case-insensitive ones (`base/A.txt`
  and `base/a.txt`) or ones that normalise Unicode, are not modelled. On
  them a later record can find an earlier record's file present and report
  `Already downloaded` where the model reports `Finished downloading`.
- Transfer.DiskAfter: the model assumes the `unlink` after a failed request
  (line 91) succeeds. If it threw, the task would reject and abort the batch.
- Transfer.DownloadFile: opening the write stream (line 75) can fail
  before the GET answers, for example when the path is not writable. No
  `error` listener is attached yet, so the error is uncaught and ends the
  process before the handler at line 224 runs. The model does not separate this from a write error after
  the GET and folds both into `StreamFailed`, that is into
  `Clone.DownloadAborted`.
- A read error on the response stream mid-transfer is not modelled.
  `pipe` does not forward it to the writer, so the writer never finishes and
  the task never settles.
- Transfer.DownloadAll: a rejected batch reports the first rejecting record
  in manifest order. The real pool rejects with whichever rejection happens
  first in time.
- Transfer.DownloadAll: each task checks existence against the disk as it
  was when the batch started. This is exact when local paths name distinct
  files. `Manifest.LocalPathInjective` gives distinct path strings; on a
  file system that compares paths exactly these are distinct files. Two
  records naming the same file would race under the pool.
- The pool's bound of `CONCURRENCY = 10` (lines 12 and 123) is not
  modelled. Neither are the progress bars, the coloured output, the help
  text or argument parsing (lines 235-287). They concern scheduling and the
  user interface, not the results.
- The error-log file and its timestamp (lines 211-222) depend on the clock
  and the disk.
- The report lines (lines 203-210) call `pad` with a number. A number has no
  `length`, so the first step always prepends one padding. `Padding.Pad`
  models `pad` on strings only.
- Path separators are single characters, as `/` and `path.sep` are.
- Padding.Pad: lengths count Unicode characters, while JavaScript's
  `length` counts UTF-16 code units. They differ on characters outside the
  Basic Multilingual Plane: `pad(3, "😀", " ")` gives one space in
  JavaScript and two in `Pad`. The script only pads numbers with `' '`.
- Text.DropLast: likewise removes one Unicode character, where
  `slice(0, -1)` removes one UTF-16 code unit. The script applies it to
  folder names, which end in `/`.
- Listing cycles are not modelled. A listing is a finite tree, but a server
  that follows symbolic links, which the help text recommends
  (lines 252-253), can list a folder inside itself. `scrapeServePage` then
  recurses without end.
- The scrape progress signal (line 42) is a side channel and is omitted.
