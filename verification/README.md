# Video library catalogue — a Dafny model

This project models the catalogue at the centre of a small self-hosted YouTube
downloader (`server.py`). The server keeps a library of downloaded videos: a
dictionary from video id to a record with title, file name, duration,
thumbnail, source URL and size. A storage directory holds the media files. The
model covers the decisions the server makes about that library:

- **Reconciliation** (`Scanner`, `scan_downloads_directory`). The storage
  directory is globbed for `*.mp4`, `*.webm` and `*.mkv`, in that order. For each
  stem that is not yet a video id, the first globbed file with that stem gets
  a placeholder record; later files with the same stem are skipped. Existing
  records are never touched. A save is requested exactly when something was
  added.
- **Deletion** (`Removal`, `delete_video`). The record leaves the library
  whether or not its file could be unlinked.
- **Failure classification** (`Failures`, the `except` block of
  `download_video`). The failure text is matched against an ordered table of
  phrases, and the first phrase found decides. When no phrase is found, the
  text is shown after the prefix `Download failed: `.
- **Storing a download** (`Acquisition`, `download_video` and the `/download`
  route). The record is built from the extraction tool's optional metadata and
  the first file named `<id>.*`. Every failure leaves the library unchanged.
- **Serving** (`Serving`, `watch_video`). This covers the not-found answers and
  the media type chosen by file extension.
- **File name sanitizing** (`Sanitize`, `sanitize_filename`).
- **Start-up** (`Lifecycle`). The metadata file is loaded, and an unreadable
  file leads to a scan; then the directory is scanned once more.
  `Lifecycle` also holds lemmas that combine the operations.

Supporting modules:

- `Options` holds `Option`.
- `Text` holds Python's `in`, slicing and `rfind`.
- `Paths` holds `os.path.splitext` and glob matching of `*.<ext>`.
- `Catalogue` holds the record, the library, the directory listing and the
  megabyte rounding.

The directory is a parameter: a sequence of `(name, bytes)` entries in listing
order. The extraction tool, the fresh UUID and the outcome of unlinking a file
are also parameters. A requested save is a boolean in the result. The size
field `round(bytes / 2**20, 2)` is kept exactly, as a whole number of
hundredths of a megabyte with ties rounded to even.

A glob `*.<ext>` is modelled as the POSIX glob behaves: case-sensitive, and
never matching a name that starts with a dot. Python's `os.path.splitext`
cuts at the last dot, unless only dots precede it, so `.mp4` and `..mp4` have
no extension.

## Model

| member | source | states |
|---|---|---|
| Text.Contains | server.py:237-276 | Python's `p in s`: true exactly when `p` occurs at some position of `s` |
| Text.Take | server.py:83 | `s[:n]` has length `min(len(s), n)` and is a prefix of `s` |
| Text.LastIndexOfFinds | server.py:70 | `rfind('.')` finds nothing exactly when there is no dot, and otherwise finds the last dot |
| Paths.SplitExtRootCut | server.py:70 | `splitext(name)[0]` is a prefix of the name. It cuts just before the dot that starts the extension, or returns the whole name when there is no extension |
| Paths.StemOfMatch | server.py:60-70 | a name matched by `*.<ext>` is `<stem>.<ext>`, where `stem` is what splitext keeps; the stem is non-empty and not hidden |
| Paths.MatchOfStem | server.py:60-70 | conversely, `<stem>.<ext>` is matched by `*.<ext>`, and splitext recovers `stem` |
| Catalogue.HundredthsOfMbNearest | server.py:78 | the recorded size is the nearest hundredth of a megabyte, and the even one on a tie |
| Scanner.Glob | server.py:59-60 | one glob returns exactly the directory entries that match `*.<ext>` |
| Scanner.GlobEach | server.py:57-60 | the concatenated globs hold only matching entries, and every entry matching any extension |
| Scanner.FirstWithStem | server.py:68-74 | the position of the first visited file with a given stem |
| Scanner.Absorb | server.py:68-90 | the visiting loop keeps every existing record; the new keys are exactly the stems of the visited files |
| Scanner.AbsorbCount | server.py:65-90 | the loop's counter equals the number of stems that were not yet ids |
| Scanner.AbsorbFirst | server.py:73-89 | each new record is built from the first visited file with that stem |
| Scanner.Scan | server.py:52-96 | a scan only adds records. The new ids are the stems of the globbed media files, the count is the number of new ids, and a save is requested iff the count is positive |
| Scanner.ScanRecordsFirstFile | server.py:68-89 | each added record is the placeholder for the first globbed file with its stem |
| Scanner.ScanSavesIffChanged | server.py:95-96 | a save is requested exactly when the library changed |
| Scanner.ScanKeepsWellKeyed | server.py:81-82 | records stay stored under their own ids |
| Scanner.ScanIdempotent | server.py:73-74 | a second scan of the same directory adds nothing, saves nothing and leaves the library as it was |
| Scanner.OrphanRecordShape | server.py:81-89 | a placeholder record has: id = stem; file `<id>.<ext>` from the directory with its size; title `Video ` + first 8 characters; zero duration; empty thumbnail and URL |
| Scanner.FirstInEarlierGlob | server.py:57-60 | when `<s>.<exts[i]>` exists, the first globbed file with stem `s` has an extension globbed no later than `i` |
| Scanner.ScanPrefersEarlierExtension | server.py:57-74 | an orphan stem with a file of extension `i` is recorded with an extension no later than `i` in the order mp4, webm, mkv |
| Scanner.ScanPrefersMp4 | server.py:57-74 | when `<s>.mp4` exists, the single record for orphan `s` points at `<s>.mp4`, whatever `.webm` or `.mkv` files share the stem |
| Failures.FirstMatch | server.py:237-271 | the first rule whose phrase occurs in the text, or none exactly when no phrase occurs |
| Failures.Classify | server.py:236-276 | the first firing rule decides the kind and message. The result is unclassified iff no rule fires, and then the message is `Download failed: ` + the text |
| Failures.ClassifyAgreesWithChain | server.py:237-276 | the table-driven classification equals the server's chain of `in` tests on every text |
| Failures.FallbackKeepsText | server.py:273-276 | the fallback message starts with the prefix, and the original text follows it unchanged |
| Failures.PrivateBeforeUnavailable | server.py:261-271 | text that mentions a private video is never reported as unavailable, whatever else it mentions; without an earlier phrase it is reported as private |
| Failures.UnmatchedWithoutMarkers | server.py:237-276 | proof helper for `Acquisition.OwnFailuresUnclassified`: every phrase of the table contains one of `p q ' P V`, so text with none of them falls through to the generic message |
| Acquisition.DownloadedFiles | server.py:202-206 | the glob `<id>.*` returns exactly the entries whose name starts with `<id>.`. Its first element is the first such entry in listing order |
| Acquisition.Record | server.py:195-221 | a missing title, duration or thumbnail becomes `Unknown Title`, 0 or the empty string. The record's id, file name, URL and size come from the download |
| Acquisition.DownloadVideo | server.py:190-276 | raised text, a missing result and a missing file each give the classification of the matching text, with the library unchanged and no save. Otherwise the first `<id>.*` file is recorded under the new id and a save is requested |
| Acquisition.OwnFailuresUnclassified | server.py:192-204 | the server's own two failure texts reach the user as `Download failed: ` + the text |
| Acquisition.DownloadFrame | server.py:213-221 | a successful download adds exactly its own id, with a file named `<id>.` followed by something from the directory, and the link as URL; every other record is unchanged |
| Acquisition.DownloadKeepsWellKeyed | server.py:213-214 | downloads keep records stored under their own ids |
| Acquisition.DownloadRoute | server.py:286-297 | a missing or empty body is invalid, and a missing or empty URL is rejected; a body with a non-empty URL is always handled, by downloading that URL |
| Removal.Unlink | server.py:319-321 | unlinking removes exactly the entries with that name and keeps the rest |
| Removal.Delete | server.py:307-338 | an unknown id changes nothing and is not found. A known id is removed, other records are unchanged, success is reported and a save requested. The file disappears iff it existed and could be removed |
| Removal.DeleteReplyIgnoresFile | server.py:318-338 | the reply and the library do not depend on the directory or on whether unlinking fails |
| Removal.DeleteTwice | server.py:311-312 | deleting the same id again reports not found and changes nothing |
| Removal.DeleteKeepsWellKeyed | server.py:330 | deletion keeps records stored under their own ids |
| Removal.FailedRemovalResurrects | server.py:325-330 | when the file of `<id>.<ext>` could not be removed, the next scan brings the id back as a placeholder |
| Removal.SuccessfulRemovalStays | server.py:319-330 | when the file was removed and no other file has that stem, the id stays deleted across the next scan |
| Serving.ContentType | server.py:381-386 | WebM iff the name ends in `.webm`, Matroska iff it ends in `.mkv`, MP4 for every other name |
| Serving.ContentTypeOfMediaFile | server.py:381-386 | a `<stem>.<ext>` file of each globbed extension gets that extension's media type |
| Serving.ScannedRecordContentType | server.py:381-386 | a placeholder record is served with the media type of the file it came from |
| Serving.WatchVideo | server.py:364-389 | not found iff the id is unknown; file missing iff the id is known but its file is absent; otherwise the record's file is streamed with the media type its extension selects |
| Serving.ScannedRecordStreams | server.py:364-389 | every record a scan adds can be streamed from the scanned directory |
| Sanitize.Filter | server.py:100 | `re.sub(r'[^\w\s-]', '', s)` keeps exactly the word, whitespace and hyphen characters |
| Sanitize.FilterConcat | server.py:100 | the substitution works character by character: filtering a concatenation is filtering each part, in order, so kept characters keep their order and number |
| Sanitize.StripStart | server.py:100 | left strip leaves a suffix of the input, every removed character is whitespace, and the first remaining character is not |
| Sanitize.StripEnd | server.py:100 | right strip leaves a prefix of the input, every removed character is whitespace, and the last remaining character is not |
| Sanitize.Strip | server.py:100 | `strip()` returns a contiguous part of the input with only whitespace before and after it, and no whitespace at either of its own ends |
| Sanitize.SpacesToUnderscores | server.py:100 | `replace(' ', '_')` leaves no space, changes nothing else, and keeps the length |
| Sanitize.SanitizeFilename | server.py:98-100 | the result is no longer than the title, contains no space, and has no whitespace at either end |
| Sanitize.SanitizedIsSafe | server.py:100 | every character of the result is a word character, a hyphen, or whitespace other than the space |
| Sanitize.SanitizeKeepsSolidCharacters | server.py:100 | letters, digits and hyphens survive exactly; every character of the result other than `_` comes from the title |
| Sanitize.SanitizeIdempotent | server.py:98-100 | sanitizing a sanitized name changes nothing |
| Sanitize.SanitizeKeepsPlainNames | server.py:98-100 | a title of word characters and hyphens is its own sanitized name |
| Lifecycle.Startup | server.py:472-479 | a loaded library keeps all its records. The final library is the scan of the loaded library, or of the empty one. It saves once exactly when that scan adds a record, and never more than once |
| Lifecycle.MalformedLikeAbsent | server.py:47-50 | an unreadable metadata file gives the same start, and the same saves, as a missing one |
| Lifecycle.StartupSavesIffMediaFiles | server.py:95-96 | starting without metadata saves exactly when the directory holds a globbed media file |
| Lifecycle.DownloadThenDeleteRestores | server.py:330 | deleting a fresh download gives back the library from before it |
| Lifecycle.FailedDownloadLeavesNothing | server.py:311-312 | after a failed download, deleting its id reports not found |

## Left out

- Request bodies that are not valid JSON: the JSON parser raises and the route answers with its generic server-error message.
- Request bodies that parse to a true value other than an object (`[1]`, `"x"`, `1`, `true`): `data.get` raises and the route answers with its server-error message. `RequestBody` only has falsy values and objects.
- A `url` field that is not a string: `null` is answered like a missing URL and other values such as `5` are passed to the download. `RequestBody` holds string fields only.
- Sanitize.SanitizeFilename: word characters are taken as ASCII letters, digits and `_`: Python's `\w` also keeps letters and digits of other scripts; the model keeps only ASCII ones. Whitespace follows Python's `str.isspace` set exactly.
- Acquisition.DownloadVideo: the metadata fields are modelled as present or absent. A field that is present with value `None`, and a non-integer duration, are not modelled.
- Acquisition.DownloadVideo: the id must be hex digits and hyphens, as a random UUID is. This keeps the glob `<id>.*` free of metacharacters. Generating the UUID is not modelled.
- JSON persistence (`save_videos_metadata`, `load_videos_metadata`) is reduced to a "save requested" flag and to the three start-up cases. File I/O and the JSON encoding are file-system work.
- The stored `file_size` is the float `round(bytes / 2**20, 2)`; the model keeps the exact number of hundredths, not the float's decimal representation.
- `list_available_formats`, the option dictionary given to `yt_dlp`, and `get_cookie_file` are out. These are calls into an external library and file-system probes. The tool's outcome is a parameter.
- Exceptions other than a failed unlink are out: `getsize` failing, and the `Server error` and `Error deleting video` replies. Each wraps a file-system or framework failure.
- The `/videos` route is a scan followed by listing the records. The order of that list (dictionary insertion order) is not modelled, because the library is a map.
- The `serve_video`, `embed_video` (and its YouTube-id regex), `debug_info`, `index` and static routes are out. They are template rendering and environment reports.
- HTTP status codes are out; only the messages and the decisions are modelled.
- Logging is out.
- Concurrent requests on the shared dictionary are out.
- youtube_auth.py is not part of this model. It runs the yt-dlp command line and renames files.
- Record file names are compared as base names of the storage directory. A record whose `filename` holds a path separator is not modelled.
