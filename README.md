# yt2mp4 decision rules, modelled in Dafny

`python/scripts/yt2mp4.py` downloads a video (or only its audio) from a
video-hosting site, given one URL, a comma-separated list of URLs, or a
playlist URL. Almost all of the script is glue around the client library,
the HTTP client and the metadata API. This project models the deterministic
rules inside that glue and proves what they promise:

- `Sanitize`: `sanitize_filename` replaces each of the nine characters
  `\ / : * ? " < > |` with `_`, one character class per loop iteration.
- `Streams`: stream selection. Audio mode takes the first audio-only stream.
  Video mode takes the first progressive mp4 stream at the requested
  resolution, or else the first at `720p`. In the fallback case the reported
  resolution becomes `720p`. When nothing matches, the result is an error.
- `Paths`: the output path is the sanitised title plus `.mp3` or `.mp4`,
  joined to the folder when a folder is given. The join follows POSIX
  `os.path.join`.
- `Urls`: the case-insensitive playlist test, the comma split with
  `str.strip`, and how `download_video` routes a URL (single video,
  playlist folder, or missing playlist title).
- `Transfer`: the chunk loop. A `ProgressBar` and a `Disk` are classes whose
  methods update them in place, and `CopyChunks` is the loop itself.
- `Download`: `download_single_video` as one method. A failed selection
  leaves the disk untouched. A successful one writes the fetched body to the
  sanitised path.
- `Retry`: the per-member retry loop and the playlist loop, driven by an
  input that says how each attempt ends.

The client library's stream list, the HTTP response, the playlist title from
the metadata API, and the outcome of each download attempt are all
parameters of the model.

Three facts about the code shape the model:

- The fallback resolution is always `720p`, even when the requested one is
  lower.
- `download_single_video` catches every exception itself (line 126). So in
  the real script the retry loop of lines 63-71 always stops after the first
  attempt. The model drives the loop with abstract attempt outcomes and does
  not claim that real downloads trigger it.
- The delay between retries raises `NameError` because `time` is never
  imported (see Findings).

## Model

| member | source | states |
|---|---|---|
| `Sanitize.Replace` | python/scripts/yt2mp4.py:24 | `str.replace` with one-character arguments keeps the length and changes exactly the occurrences of the replaced character |
| `Sanitize.Sanitized` | python/scripts/yt2mp4.py:20-25 | the reference meaning of sanitising: same length, and each position holds the input character, or `_` when that character is invalid |
| `Sanitize.SanitizeFilename` | python/scripts/yt2mp4.py:20-25 | the loop over the nine invalid characters, each rebinding the title through `str.replace`, computes exactly the position-wise `Sanitized(title)` |
| `Sanitize.SanitizedClean` | python/scripts/yt2mp4.py:22-24 | a sanitised title contains none of the nine characters; valid characters stay in place and invalid ones become `_` |
| `Sanitize.SanitizedIdempotent` | python/scripts/yt2mp4.py:22-24 | sanitising twice gives the same result as sanitising once, because `_` is not invalid |
| `Urls.Lower` | python/scripts/yt2mp4.py:48 | `url.lower()` keeps the length and lower-cases each ASCII letter, leaving every other character alone |
| `Urls.Contains` | python/scripts/yt2mp4.py:48 | the `in` test on strings is true exactly when the pattern occurs at some position |
| `Urls.IsPlaylistUrl` | python/scripts/yt2mp4.py:48 | `"playlist" in url.lower()`: a URL is a playlist URL exactly when some 8-character window of it lower-cases to "playlist" |
| `Urls.LowerIdempotent` | python/scripts/yt2mp4.py:48 | lower-casing is idempotent, so a URL and its lower-cased form are classified alike |
| `Urls.Strip` | python/scripts/yt2mp4.py:142-143 | `str.strip()` returns an infix that neither starts nor ends with whitespace, and only whitespace is cut from either end |
| `Urls.StripIdempotent` | python/scripts/yt2mp4.py:142-143 | stripping a stripped string changes nothing |
| `Urls.StripIsInfix` | python/scripts/yt2mp4.py:142-143 | every character of a stripped string occurs in the original |
| `Urls.Split` | python/scripts/yt2mp4.py:140 | `split(',')` yields at least one part, and no part contains the separator |
| `Urls.SplitJoinRoundTrip` | python/scripts/yt2mp4.py:140 | joining the parts with the separator gives back the input, and there is one more part than separators |
| `Urls.InputUrls` | python/scripts/yt2mp4.py:138-147 | with a comma: one stripped URL per comma-separated part; without one: the input itself, unstripped; no URL contains a comma |
| `Urls.FolderGiven` | python/scripts/yt2mp4.py:54 | the truthiness of the folder argument, used at lines 54 and 101: false exactly for None and for the empty string |
| `Urls.RouteFor` | python/scripts/yt2mp4.py:47-55 | a non-playlist URL goes to a single download with the caller's folder; a playlist without a title is an error; otherwise the folder is the caller's when truthy, else the playlist title |
| `Paths.Join` | python/scripts/yt2mp4.py:103-105 | POSIX `os.path.join`: an absolute name replaces the folder; a folder that is empty or ends in `/` is followed directly by the name; any other folder gets exactly one `/` between it and the name |
| `Paths.Extension` | python/scripts/yt2mp4.py:102-110 | the extension is `.mp3` exactly when `rip_audio` is set and `.mp4` exactly when it is not; neither contains `/` |
| `Paths.OutputPath` | python/scripts/yt2mp4.py:100-110 | without a truthy folder the path is title plus extension; with one and a title without `/`, the path is the folder, then a `/` unless the folder already ends in one, then title plus extension |
| `Paths.OutputPathBasename` | python/scripts/yt2mp4.py:100-110 | for a title without `/`, the last component of the output path is exactly the title plus `.mp3` or `.mp4` |
| `Paths.SanitizedOutputPath` | python/scripts/yt2mp4.py:98-110 | for the sanitised title, the last component of the path is the sanitised title plus its extension, so the file cannot escape the folder |
| `Streams.IsAudio` | python/scripts/yt2mp4.py:83 | `filter(only_audio=True)`: the stream is audio-only (definition) |
| `Streams.IsVideoAt` | python/scripts/yt2mp4.py:87 | `filter(progressive=True, file_extension="mp4", resolution=res)`: the stream is progressive, mp4 and at `res` (definition) |
| `Streams.First` | python/scripts/yt2mp4.py:87 | `.filter(...).first()` returns None exactly when no stream matches; otherwise it returns the stream at the least matching index |
| `Streams.Select` | python/scripts/yt2mp4.py:82-95 | audio mode gives the first audio-only stream or NoAudioStream. A requested-resolution match gives the first such stream at the requested resolution, without consulting the fallback. Otherwise the first 720p match is reported as 720p. Otherwise NoVideoStream |
| `Streams.SelectedStreamMatches` | python/scripts/yt2mp4.py:82-95 | a selected stream belongs to the list and passes the filter of the resolution it is reported at |
| `Transfer.FlattenAppend` | python/scripts/yt2mp4.py:117-120 | one more chunk appends its bytes to the written data, and adds its length to the progress count when it is non-empty |
| `Transfer.ProgressIsBytesWritten` | python/scripts/yt2mp4.py:117-120 | the progress bar's count equals the number of bytes written |
| `Transfer.ChunksOf` | python/scripts/yt2mp4.py:114-117 | splitting a body into 1024-byte blocks yields non-empty chunks of at most the block size, which concatenate back to the body |
| `Transfer.CompleteBodyCopied` | python/scripts/yt2mp4.py:114-120 | a body delivered in 1024-byte chunks is written byte for byte, and the bar counts its length |
| `Transfer.ProgressBar.constructor` | python/scripts/yt2mp4.py:116 | a new bar has the declared total and a count of zero |
| `Transfer.ProgressBar.Update` | python/scripts/yt2mp4.py:119 | `bar.update(k)` adds `k` to the count and keeps the total |
| `Transfer.Disk.Open` | python/scripts/yt2mp4.py:116 | `open(path, 'wb')` makes the file at `path` empty and leaves every other file alone |
| `Transfer.Disk.Write` | python/scripts/yt2mp4.py:120 | `file.write(data)` appends `data` to that file and leaves every other file alone |
| `Transfer.CopyChunks` | python/scripts/yt2mp4.py:117-120 | after the loop the file holds its old contents plus the chunks in order, and the bar has advanced by the bytes of the non-empty chunks; no other file changes |
| `Download.DeclaredTotal` | python/scripts/yt2mp4.py:113 | the bar's total is the declared content length, or 0 when the header is absent |
| `Download.DownloadSingleVideo` | python/scripts/yt2mp4.py:79-122 | a selection error is reported and no file is opened or changed; otherwise the fetched body is written to the sanitised output path, and the outcome carries the selected resolution and the bar's count and total |
| `Download.FullResponseCompletesBar` | python/scripts/yt2mp4.py:112-120 | for a response that declares its true length and arrives in 1024-byte chunks, the file holds exactly the body and the bar ends at its declared total |
| `Retry.RetryOutcome` | python/scripts/yt2mp4.py:63-73 | a download or an escaping exception comes after at least one and at most 3 attempts |
| `Retry.GivesUpIffAllFail` | python/scripts/yt2mp4.py:64-73 | the "max retries" message appears exactly when all 3 attempts fail with a request error |
| `Retry.StopsAtFirstSuccess` | python/scripts/yt2mp4.py:64-70 | the item downloads after `j+1` attempts exactly when attempt `j` succeeds and every earlier one failed with a request error |
| `Retry.RaisesAtFirstOtherError` | python/scripts/yt2mp4.py:64-71 | the item raises after `j+1` attempts exactly when attempt `j` ends with an exception other than a request error and every earlier one failed with a request error |
| `Retry.RetryItem` | python/scripts/yt2mp4.py:63-73 | the `while` loop on `retry_count`, with the delay assumed to work, ends exactly as `RetryOutcome` says |
| `Retry.RetryOutcomeAsWritten` | python/scripts/yt2mp4.py:63-71 | as written, the loop never reports max retries: it stops after the first attempt, and it downloads only when that attempt succeeds |
| `Retry.AsWrittenAbortsOnFirstRequestError` | python/scripts/yt2mp4.py:68-71 | a request error followed by a success makes the loop as written raise after one attempt, while the intended loop downloads on attempt 2 |
| `Retry.PlaylistReports` | python/scripts/yt2mp4.py:62-76 | reference definition of the playlist loop: each member in order gets the report of its retry loop, and a member whose loop raises is the last one processed; there are never more reports than members |
| `Retry.PlaylistReportsInOrder` | python/scripts/yt2mp4.py:62-76 | members are reported in order by their retry loops; only the last report can be an escaping exception; fewer reports than members means the last one raised |
| `Retry.DownloadPlaylist` | python/scripts/yt2mp4.py:62-73 | the loop over members gives exactly the reports of `PlaylistReports` |
| `Retry.PlaylistContinuesPastFailures` | python/scripts/yt2mp4.py:62-73 | when no member raises, every member is processed, including those that hit max retries |

## Left out

- Network and library calls: `YouTube(...)`, `Playlist(...)`, `requests.get`, `build(...)` and `request.execute()`. The stream list, the response (`fetch`), the playlist title and each attempt's outcome are inputs instead.
- `get_google_api_key` and `get_playlist_title` (lines 27-44) are file and API I/O. Their result is the `playlistTitle` argument of `Urls.RouteFor`.
- `os.makedirs` (line 58) is filesystem I/O. So is the failure it raises for an empty playlist title.
- The retry on `ChunkedEncodingError` (lines 123-125) recurses without bound, depending on the network. The catch-all handler at line 126 is not modelled either. Neither has a deterministic rule to state.
- `print` messages, the tqdm display and argparse are UI. The `Outcome` and `ItemReport` values stand in for the messages they print.
- `time.sleep(5)` is a timing step. `Retry.RetryItem` takes it to succeed, and `Retry.RetryOutcomeAsWritten` takes it to raise.
- `main`'s loop over the URLs (lines 141-147) only calls `download_video` on each one and keeps no state. `Urls.InputUrls` is the list it loops over.
- Parsing the `content-length` header with `int(...)` is modelled as an optional number. A malformed header, which raises `ValueError`, is not modelled.
- Errors when opening or writing the file are not modelled. Neither is the partial file left behind by an interrupted transfer.
- `Urls.Lower`: lower-cases only `A`-`Z`. Python's `str.lower` also folds non-ASCII letters, which matters only for URLs that spell "playlist" with non-ASCII letters.
- `Paths.Join`: follows POSIX `os.path.join`. Windows path rules are not modelled.
- `Transfer.CopyChunks`: takes any sequence of chunks. It does not assume `iter_content` keeps them within 1024 bytes. `Transfer.ChunksOf` models that split only for the completeness lemmas.
- The output is not transcoded. "MP3" is only the file extension, so there is no encoding to model.

## Findings

| source | as written | input that shows it | evidently intended | confidence | as-written member | corrected member |
|---|---|---|---|---|---|---|
| python/scripts/yt2mp4.py:71 | `time.sleep(5)` runs after the first request error, but `time` is never imported (lines 5-12). It raises `NameError`, which is not a `RequestException`, so it leaves the retry loop. The outer handler at line 76 catches it, which skips every remaining playlist member. "Max retries reached" can never be printed. | a playlist member whose first attempt fails with a request error and whose second attempt succeeds | pause 5 seconds, retry up to 3 attempts, download on attempt 2, and continue with the next member | high; not executed | `Retry.RetryOutcomeAsWritten`, `Retry.AsWrittenAbortsOnFirstRequestError` | `Retry.RetryItem`, `Retry.RetryOutcome` |
