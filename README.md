# FileSharing: stored names, the storage gateway and relative dates, in Dafny

FileSharing is a local-network file-sharing utility. An Express backend stores
uploads in one flat directory and lists, serves and deletes them. A React page
drives it. This project models the two pieces of the system with exact,
deterministic behaviour and proves properties of them.

* **The stored-name scheme.** An upload is written as
  `<Date.now()>-<Math.round(Math.random()*1E9)>-<sanitised name>`. Sanitising
  replaces every character outside `[A-Za-z0-9.-]` with `_`. A display name is
  recovered from a stored name with `split('-').slice(2).join('-') || name`.
  Module `StoredNames` holds this, built on `Numerals` (JavaScript's decimal text
  of integers) and `JsText` (the `split`, `join` and `slice` operations).
* **The gateway's directory operations.** Upload, list, download and delete run
  over an abstract directory `map<string, Entry>`. An `Entry` is a kind (a
  regular file, a real directory, or a special entry: a link to a directory, a
  FIFO or a socket), a size and an integer modification time in milliseconds. Module
  `Listing` gives the listing's `filter`/`map`/`sort` chain as functions.
  Module `Gateway` gives each handler as a function from the directory before
  the request to the response and the directory after it. It also has the
  class `UploadsDir`, which holds the directory in a mutable `map` field. The
  class's `Upload` and `Delete` methods update that field and are proved to do
  exactly what those functions describe. `List` and `Download` only read it.
* **`formatDate` in the UI.** Module `RelativeTime` turns two integer
  millisecond timestamps into "Just now", "`<n>`m ago", "`<n>`h ago",
  "`<n>`d ago" or the locale date, using the thresholds 1, 60, 1440 and 10080
  minutes.

The clock readings (`Date.now()`, the file's mtime, the response time) and the
random number are parameters. So is the locale text of `toLocaleDateString()`.

Some behaviour below comes from the filesystem or the upload library rather than
from the handlers' own lines:

* `existsSync` is true for every kind of entry. `unlinkSync` removes a file or
  a special entry, so the delete handler answers success for both. On a real
  sub-directory it throws, and the handler's `catch` answers 500
  (`DeleteFailed`).
* multer's disk write fails before the upload handler runs when the generated
  name is held by an entry that is not a regular file, or when it is longer than the 255 bytes a
  Linux filesystem allows for one name (a stored name is all ASCII, so
  characters are bytes). The model answers `WriteFailed` in both cases and
  leaves the directory unchanged. Every upload with a file and with neither of
  these conditions succeeds.
* Any other name collision overwrites the existing file.
* Each request is one atomic step from the directory before it to the
  directory after it, and requests run one after another.
* Sanitised names use the characters `[A-Za-z0-9._-]`. The replacement `_` is
  itself outside the allowed class, so sanitising leaves a name unchanged
  exactly when the name already uses only `[A-Za-z0-9._-]`. It is not enough
  that the name uses only `[A-Za-z0-9.-]`.

## Model

| member | source | states |
|---|---|---|
| `Numerals.NatToString` | backend/server.js:27 | the decimal text of a number is non-empty, all digits, has no leading zero and contains no `-` |
| `Numerals.ValueOfNatToString` | backend/server.js:27 | reading the digits back gives the number |
| `Numerals.NatToStringInjective` | backend/server.js:27 | distinct numbers have distinct decimal texts |
| `JsText.Split` | backend/server.js:75 | `split` yields at least one piece, and no piece contains the separator |
| `JsText.Join` | backend/server.js:78 | `join` of no pieces is the empty string |
| `JsText.JoinCount` | backend/server.js:78 | a join of separator-free pieces holds one separator fewer than it has pieces |
| `JsText.CountAppend` | backend/server.js:75-78 | occurrences of a character add up over a concatenation |
| `JsText.SliceFrom` | backend/server.js:78 | `slice(start)` keeps the elements from `start` on, and none when `start` is past the end |
| `JsText.SplitLength` | backend/server.js:75 | a split has one more piece than the string has separators |
| `JsText.JoinSplit` | backend/server.js:75-78 | joining the pieces of a split with the same separator rebuilds the string |
| `JsText.SplitJoin` | backend/server.js:75-78 | splitting a join of separator-free pieces gives the pieces back |
| `JsText.SplitAfterPiece` | backend/server.js:75 | a separator-free piece followed by a separator splits off as the first piece |
| `StoredNames.Sanitize` | backend/server.js:28 | the output has the input's length; each allowed character stays in place, and each other character becomes `_` |
| `StoredNames.SanitizedCharacters` | backend/server.js:28 | every character of a sanitised name is in `[A-Za-z0-9._-]` |
| `StoredNames.SanitizeFixes` | backend/server.js:28 | sanitising leaves a name unchanged if and only if every character is in `[A-Za-z0-9._-]` |
| `StoredNames.SanitizeIdempotent` | backend/server.js:28 | sanitising twice equals sanitising once |
| `StoredNames.UniqueSuffix` | backend/server.js:27 | the unique suffix splits at `-` into exactly two digit pieces that read back as the timestamp and the random number |
| `StoredNames.StoredName` | backend/server.js:26-30 | a stored name's first two `-` pieces read back as the timestamp and the random number, and the remaining pieces join to the sanitised original name |
| `StoredNames.RecoverOriginal` | backend/server.js:75-78 | the recovered display name is a tail of the stored name, and empty only when the stored name is empty |
| `StoredNames.StoredNameIsAscii` | backend/server.js:26-30 | every character of a stored name is ASCII, so its length in characters is its length in bytes on disk |
| `StoredNames.StoredNameShape` | backend/server.js:26-30 | a stored name is the timestamp's digits, `-`, the random number's digits, `-`, then the sanitised name; its first two `-` pieces are the two numbers |
| `StoredNames.RecoverAfterSecondDash` | backend/server.js:75-78 | for a name `a-b-rest` with no `-` in `a` or `b`, recovery gives `rest`, or the whole name when `rest` is empty |
| `StoredNames.FallbackWithFewDashes` | backend/server.js:75-78 | a name with fewer than two `-` (fewer than three pieces) recovers as itself |
| `StoredNames.RecoverStoredName` | backend/server.js:26-30 | round trip: recovering a generated name gives the sanitised original, or the whole stored name when the original is empty |
| `StoredNames.ReportedNamesAgree` | backend/server.js:57-78 | the upload response's raw name equals the listing's recovered name if and only if it is non-empty and uses only `[A-Za-z0-9._-]` |
| `StoredNames.SanitizeWithSpace` | backend/server.js:28 | `report final.pdf` sanitises to `report_final.pdf` |
| `StoredNames.RecoverWithSpace` | backend/server.js:26-30 | an upload named `report final.pdf` is listed as `report_final.pdf` |
| `Listing.RecordOf` | backend/server.js:76-81 | the record of one entry: its stored name, its recovered display name, its size and its mtime (a definition) |
| `Listing.RegularFiles` | backend/server.js:72 | the filter keeps exactly the names of regular files, and distinct names stay distinct |
| `Listing.Records` | backend/server.js:73-82 | the map gives one record per name, at the same position |
| `Listing.Insert` | backend/server.js:83 | inserting adds one element: the new record, next to the old ones |
| `Listing.SortNewestFirst` | backend/server.js:83 | the sort keeps the length and exactly the same records |
| `Listing.ListDirectory` | backend/server.js:71-84 | the listing is newest first, has one record per regular file among the names, and holds only records of regular files |
| `Listing.InsertPermutes` | backend/server.js:83 | inserting adds exactly the one record |
| `Listing.InsertNotNewer` | backend/server.js:83 | inserting a record no newer than a bound keeps every record within the bound |
| `Listing.InsertKeepsOrder` | backend/server.js:83 | inserting into a newest-first sequence keeps it newest first |
| `Listing.InsertKeepsNamesDistinct` | backend/server.js:83 | inserting a record with a new name keeps the names distinct |
| `Listing.SortPermutes` | backend/server.js:83 | the sort is a permutation of its input |
| `Listing.SortOrders` | backend/server.js:83 | the sort's output never increases in uploadDate |
| `Listing.SortKeepsNamesDistinct` | backend/server.js:83 | sorting records with distinct names keeps them distinct |
| `Listing.InsertDatedAt` | backend/server.js:83 | inserting into a newest-first sequence puts the record before the others of its date and leaves their order alone |
| `Listing.SortIsStable` | backend/server.js:83 | the sort is stable: the records of any one date come out in the order they went in |
| `Listing.ListDirectoryCorrect` | backend/server.js:69-84 | for any directory order, the listing is newest first, a permutation of the mapped regular files, and holds each regular file's record exactly once and nothing else |
| `Listing.ListWithoutFiles` | backend/server.js:71-84 | a directory with no regular files (an empty one included) lists as the empty sequence |
| `Gateway.WriteFails` | backend/server.js:24-31 | multer's write fails for a name longer than 255 bytes or one held by an entry that is not a regular file (a definition) |
| `Gateway.UploadStep` | backend/server.js:24-63 | bad-request if and only if there is no file, with no change; a failed write, with no change, if and only if the generated name is longer than 255 or held by an entry that is not a regular file; success in every other case, where exactly the generated name is set (colliding files are overwritten), everything else is unchanged, and the response reports the raw original name |
| `Gateway.DownloadStep` | backend/server.js:90-96 | not-found if and only if the name is absent; otherwise the entry is sent under the same name the listing shows |
| `Gateway.DeleteStep` | backend/server.js:102-112 | not-found if and only if the name is absent; failed if and only if it names a real sub-directory; otherwise (a file or a special entry) exactly that entry is removed; no other entry changes |
| `Gateway.DeleteTwice` | backend/server.js:102-108 | after a successful delete, a second delete of the name is not-found and changes nothing |
| `Gateway.DeleteUndoesUpload` | backend/server.js:102-108 | deleting what an upload stored gives back the earlier directory, minus any file the upload overwrote |
| `Gateway.DownloadAfterUpload` | backend/server.js:90-96 | downloading a freshly uploaded name offers the sanitised original name (the stored name if the original is empty) and the uploaded size |
| `Gateway.ListAfterUpload` | backend/server.js:69-84 | after an upload, the listing holds the new file's record with the uploaded size and mtime; its display name equals the uploaded name if and only if that name is non-empty and uses only `[A-Za-z0-9._-]` |
| `Gateway.DownloadNameMatchesListing` | backend/server.js:94-95 | for every listed record, download suggests exactly the record's `originalname` |
| `Gateway.UploadsDir.constructor` | backend/server.js:19-22 | the directory starts as found |
| `Gateway.UploadsDir.Upload` | backend/server.js:53-63 | the response and the new directory are those of the upload step |
| `Gateway.UploadsDir.List` | backend/server.js:69-88 | whatever order it enumerates the names in, the result is newest first, has distinct names, and holds exactly the records of the regular files |
| `Gateway.UploadsDir.Download` | backend/server.js:90-100 | the result is the download step's; not-found if and only if the name is absent; the directory is not touched |
| `Gateway.UploadsDir.Delete` | backend/server.js:102-112 | the response and the new directory are those of the delete step: not-found for an absent name, failed with no change for a real sub-directory, and otherwise the entry removed and nothing else changed |
| `RelativeTime.MinutesBetween` | frontend/src/components/FileSharing.jsx:168 | the difference is the floor of the elapsed milliseconds over 60000 |
| `RelativeTime.Classify` | frontend/src/components/FileSharing.jsx:170-174 | a relative label shows 1 to 59 minutes, 1 to 23 hours or 1 to 6 days |
| `RelativeTime.Text` | frontend/src/components/FileSharing.jsx:171-173 | a minutes, hours or days text starts with a digit and ends in " ago" |
| `RelativeTime.FormatDate` | frontend/src/components/FileSharing.jsx:165-175 | under a minute (or in the future) the text is "Just now"; a week or more gives the locale date |
| `RelativeTime.CountedTextShape` | frontend/src/components/FileSharing.jsx:171-173 | a counted text is the decimal count, the unit letter and " ago", and never "Just now" |
| `RelativeTime.ClassifyBuckets` | frontend/src/components/FileSharing.jsx:170-174 | each bucket is chosen if and only if the difference is in its range, so exactly one applies; minutes are shown unchanged; hours are in 1..23 and days in 1..6, each the whole units elapsed |
| `RelativeTime.FormatDateTexts` | frontend/src/components/FileSharing.jsx:165-175 | the text of each bucket: "Just now", `<diff>m ago`, `<diff div 60>h ago`, `<diff div 1440>d ago`, or the locale date |
| `RelativeTime.FutureIsJustNow` | frontend/src/components/FileSharing.jsx:170 | a future date, or one less than a minute old, reads "Just now" |
| `RelativeTime.ClassifyMonotone` | frontend/src/components/FileSharing.jsx:170-174 | a larger difference never selects a finer unit, and within one unit the count never decreases |
| `RelativeTime.FormatDateMonotoneInTime` | frontend/src/components/FileSharing.jsx:166-174 | as time passes for a fixed date, the label moves only to coarser units |
| `RelativeTime.TextDeterminesLabel` | frontend/src/components/FileSharing.jsx:170-173 | two relative labels with the same text are the same label (same unit, same count) |

## Left out

- Express, multer, cors and dotenv wiring, `app.listen`, static-bundle serving, the health route and console logging (backend/server.js:1-22, 33-51, 114-127): framework plumbing and calls into libraries.
- Concurrency: each request is one atomic step and requests are taken one at a time. multer writes the upload asynchronously, so a list or download that runs during the write can see a partial file. Overlapping requests are not modelled.
- The 500 MiB upload limit (backend/server.js:33): multer enforces it internally.
- Real filesystem effects: the directory is an exact-key `map`. `mkdirSync`, `statSync`, `readdirSync` order, `unlinkSync` and byte streaming by `res.download` are not modelled. File contents are not modelled, so "the download is byte-identical" is not stated. Only the name and size sent are.
- `path.join` normalisation of the route parameter (backend/server.js:92, 104), including `..` traversal: the model treats the parameter as an exact key. This is an idealisation. The real handlers can reach paths outside the upload directory.
- Internal errors other than the two modelled ones (a failed directory read in list, failures while streaming a download): these come from the environment.
- `Gateway.WriteFails`: a special entry always makes the write fail. That is right for a link to a directory (EISDIR) and a socket. Opening a FIFO for writing blocks until a reader appears instead, and that wait is not modelled. A link to a regular file counts as a file, so the model replaces the entry where the disk write goes through the link to its target.
- `Gateway.DownloadStep`: a present entry that is not a regular file (a sub-directory, say) still gets the download response. The streaming helper's failure on it is part of the streaming that is left out.
- `StoredNames.StoredName`: timestamps are non-negative. A clock before 1970 would put a `-` in the prefix, and this is not modelled. The random part is bounded by 1E9, as `Math.round(Math.random() * 1E9)` is.
- `StoredNames.Sanitize`: it works on Unicode characters. JavaScript's `replace` without the `u` flag works on UTF-16 code units, so a character outside the Basic Multilingual Plane becomes `__` there and `_` here. multer's decoding of the uploaded name is also not modelled.
- `Numerals.NatToString`: it gives plain decimal digits. JavaScript switches to exponent notation from 10^21 on, which no timestamp, random part or minute count here reaches.
- `Date.now()`, `Math.random()`, `toISOString`, `new Date(...)` parsing and `toLocaleDateString` (backend/server.js:27, 62, 80, 83; FileSharing.jsx:166-167, 174): these are integer parameters, or an opaque text for the locale date.
- The invalid-date (NaN) behaviour of `formatDate`: floating point.
- `formatFileSize` (FileSharing.jsx:157-163): floating-point logarithms and rounding.
- All React state, effects, polling, banners, fetch/XHR handlers and rendering (FileSharing.jsx:25-156, 177-314): event-driven UI and network code.
