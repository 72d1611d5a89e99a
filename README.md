# gdrive_videoloader core, modelled in Dafny

`gdrive_videoloader.py` downloads a Google Drive video. It reads the video
metadata body, which is `&`-separated, to find the playback URL and the title.
It derives an output filename. It then streams the video to disk with a
three-attempt retry loop that resumes a partly downloaded file through an HTTP
`Range` header. This project models that core and proves what it guarantees:

- `wrappers.dfy`, module `Wrappers`: `Option`, which stands for Python's `None`.
- `chunk_size.dfy`, module `ChunkSize`:
  - `get_optimal_chunk_size`: a truthy override, or otherwise four half-open size tiers;
  - the test in `download_file` that treats 65536 as "choose adaptively".
- `text.dfy`, module `Text`: the Python string operations the core relies on.
  - `str.split` on one character, and its last piece;
  - `startswith` and `in`;
  - `strip` over the full `str.isspace` character set;
  - decimal formatting, as used by `f"bytes={n}-"`.
- `download.dfy`, module `Download`: `download_file`.
  - The network is a scripted sequence of outcomes, one per request: a response with status, `content-length`, body chunks and whether the stream broke; a timeout; or another request error.
  - The file system is the destination file's contents, `None` when the file does not exist.
  - `class Downloader` keeps the file, the retry counter, the headers of every request sent, the sleeps taken (ghost), the progress-bar streams and the verdict.
  - Its `Download` method mirrors the source's `while` loop and body-writing `for` loop.
  - Both are proved equal to the specification functions `Run`, `Loop` and `Step`.
- `download_props.dfy`, module `DownloadProperties`: what `download_file` promises.
  - Retry accounting.
  - The same headers on every attempt.
  - The final file contents.
  - Recovery from transient failures.
  - Resumption in a fresh process.
- `resume_findings.dfy`, module `ResumeFindings`:
  - two ways the resume logic corrupts a file against an honest server;
  - a corrected policy proved to rebuild the resource.
- `video_info.dfy`, module `VideoInfo`:
  - `get_video_url`;
  - the filename choice in `main`, with POSIX `os.path.splitext`;
  - `extract_video_id`, with the `re.search` semantics of `/file/d/([a-zA-Z0-9_-]+)`.
- `cookies.dfy`, module `Cookies`: `load_cookies`.

The resume setup is computed once, before the retry loop (`gdrive_videoloader.py:507-517`). An existing destination file is opened with `'ab'` and sent `Range: bytes=<size>-` even when its size is 0; only a missing file starts with `'wb'` and no `Range` header.

Passing `-c 65536` explicitly cannot be told apart from the default. It therefore selects adaptive sizing (`ChunkSize.ExplicitDefaultIsAdaptive`). This is what the code's comments describe, so it is not listed as a finding.

## Model

| member | source | states |
|---|---|---|
| ChunkSize.OptimalChunkSize | gdrive_videoloader.py:487-498 | a truthy user size is returned unchanged; otherwise the result is one of 16 KiB, 64 KiB, 256 KiB, 1 MiB |
| ChunkSize.AdaptiveFollowsTable | gdrive_videoloader.py:491-498 | the if-chain equals the threshold table [10 MiB, 100 MiB, 500 MiB] → [16 KiB, 64 KiB, 256 KiB, 1 MiB] for every size |
| ChunkSize.OverrideWins | gdrive_videoloader.py:489-490 | a truthy override wins whatever the file size; `None` and 0 fall back to the table |
| ChunkSize.TierBoundaries | gdrive_videoloader.py:491-498 | the tiers are half-open: each threshold already selects the next larger chunk |
| ChunkSize.AdaptiveMonotone | gdrive_videoloader.py:491-498 | a larger file never gets a smaller chunk |
| ChunkSize.EffectiveChunkSize | gdrive_videoloader.py:548-558 | a chunk size other than 65536 is used as given; exactly 65536 selects the adaptive size for the total |
| ChunkSize.ExplicitDefaultIsAdaptive | gdrive_videoloader.py:548-551 | an explicit 65536 on a small file streams 16 KiB chunks, not 64 KiB |
| Text.Split | gdrive_videoloader.py:472 | `split` gives at least one piece, none containing the separator, and joining them gives back the input |
| Text.LastPieceIsSuffix | gdrive_videoloader.py:476-478 | `split(sep)[-1]` is the suffix after the last separator and contains none |
| Text.ContainsIffOccurs | gdrive_videoloader.py:477 | `sub in s` holds exactly when `sub` starts at some index of `s` |
| Text.StripStart | gdrive_videoloader.py:673 | `lstrip()` drops exactly the leading white space: a suffix of the input that starts with a non-space character |
| Text.StripEnd | gdrive_videoloader.py:673 | `rstrip()` drops exactly the trailing white space: a prefix of the input that ends with a non-space character |
| Text.Strip | gdrive_videoloader.py:673 | `strip()` is a slice of the input with only white space before and after it, and no white space at either of its ends |
| Text.StripIsTrimmedSlice | gdrive_videoloader.py:673 | `strip()` drops exactly the white space at both ends, giving a contiguous piece of the input with none at its ends, and is idempotent |
| Text.BlankIffAllSpace | gdrive_videoloader.py:665-667 | `not s.strip()` holds exactly when every character is white space |
| Text.Decimal | gdrive_videoloader.py:516 | `str(n)` is a non-empty string of digits with no leading zero unless `n` is 0 |
| Text.DecimalRoundTrip | gdrive_videoloader.py:516 | the decimal text of an offset reads back as that offset |
| Download.RangeRoundTrip | gdrive_videoloader.py:516 | the `Range` header asks for exactly the offset it was built from |
| Download.ResumeSetup | gdrive_videoloader.py:507-517 | an existing file: offset is its size, a `Range` header for it, append mode; no file: offset 0, base headers only, truncate mode |
| Download.Backoff | gdrive_videoloader.py:588-620 | a failure adds 1 to the retry count, then either sleeps 2^count or ends as exhausted at 3; nothing else changes |
| Download.Step | gdrive_videoloader.py:539-620 | one attempt, on any retry count: sends the setup's headers; the verdict is AccessDenied exactly for a 403, NotFound exactly for a 404 and Complete exactly for an unbroken 200/206, each with no increment and no sleep; any other outcome (a broken body, another status, a timeout, a network error) backs off with sleep 2^count, or exhausts at 3 |
| Download.Loop | gdrive_videoloader.py:536-620 | the retry loop always ends as complete, denied, not found or exhausted; exhausted exactly when the retry count reached 3; earlier requests stay in the log |
| Download.Run | gdrive_videoloader.py:500-622 | a call always ends with a verdict; no filename exactly when it ends without requesting; exhausted exactly when the retry count is 3 |
| Download.Downloader.constructor | gdrive_videoloader.py:511-537 | the initial state is the file as found, 0 retries, nothing sent, slept or streamed |
| Download.Downloader.WriteBody | gdrive_videoloader.py:560-574 | the file becomes its contents after `open` in the given mode followed by every chunk in order; the progress total is the number of bytes written |
| Download.Downloader.Attempt | gdrive_videoloader.py:541-620 | the new state of one loop iteration is exactly `Step` of the old state |
| Download.Downloader.Download | gdrive_videoloader.py:500-622 | the final state is `Run`: no request without a filename; otherwise the retry loop from the setup computed once before it |
| DownloadProperties.LoopAccounting | gdrive_videoloader.py:536-620 | from any pending state, the loop's requests, retries and sleeps follow the 2, 4 schedule up to 3 attempts |
| DownloadProperties.RetryAccounting | gdrive_videoloader.py:536-620 | at most 3 requests; exhausted exactly when the count reaches 3, after sleeps [2, 4]; otherwise requests = retries + 1 and sleeps are the first `retries` of [2, 4] |
| DownloadProperties.NoFilenameNoRequest | gdrive_videoloader.py:503-505 | an empty filename sends no request and leaves the file untouched |
| DownloadProperties.TerminalShortCircuit | gdrive_videoloader.py:579-587 | a first answer of 403 or 404 ends after one request, with no retry and no sleep |
| DownloadProperties.AlwaysFailingExhausts | gdrive_videoloader.py:588-620 | three failures before streaming exhaust the retries after sleeping 2 then 4 seconds |
| DownloadProperties.LoopSendsSameHeaders | gdrive_videoloader.py:539-541 | every request of the loop carries the headers fixed before it |
| DownloadProperties.SameHeadersEveryAttempt | gdrive_videoloader.py:507-541 | every attempt sends the headers computed once from the file found at the start |
| DownloadProperties.StepAppends | gdrive_videoloader.py:560-574 | in append mode one attempt leaves the file as before followed by the body it received |
| DownloadProperties.LoopAppends | gdrive_videoloader.py:539-620 | in append mode the final file is the prior contents followed by every body received, in order |
| DownloadProperties.LoopTruncates | gdrive_videoloader.py:560 | in truncate mode the file holds the last body received, or stays absent when none was |
| DownloadProperties.StepCompletes | gdrive_videoloader.py:543-577 | an attempt completes only on an unbroken 200/206 response, and records a stream with total = content-length (0 if absent) + offset and progress = the body's length |
| DownloadProperties.LoopCompletes | gdrive_videoloader.py:539-577 | a completed loop's final state is one attempt taken from a pending state with fewer than 3 retries |
| DownloadProperties.FinalFileContents | gdrive_videoloader.py:500-622 | an existing file ends as its prior bytes followed by every body received, in order; a new one holds the last body received, or does not exist |
| DownloadProperties.CompletedRun | gdrive_videoloader.py:543-577 | a completed run ended on an unbroken 200/206; its last stream has total = content-length (0 if absent) + offset and progress = the bytes its body wrote |
| DownloadProperties.CompletedRunFile | gdrive_videoloader.py:560-577 | a completed run's file ends with the completing body: alone for a new file, after the prior bytes and earlier bodies when resuming |
| DownloadProperties.AppendOnlyOnResume | gdrive_videoloader.py:514-517 | resuming never loses or rewrites the bytes already on disk |
| DownloadProperties.RecoverableTimeout | gdrive_videoloader.py:598-603 | one transient failure followed by a full response completes after 2 requests and one 2-second sleep |
| DownloadProperties.ResumeInFreshProcess | gdrive_videoloader.py:514-517 | a fresh run on a prefix of the resource, whose answers fail before streaming until an unbroken 206 with the rest of it, completes with the whole resource on disk |
| DownloadProperties.FailuresThenAnswer | gdrive_videoloader.py:539-620 | failures before streaming followed by an unbroken 200/206 answer complete the loop, and the file is the opened file followed by that body |
| ResumeFindings.BrokenThenFullRun | gdrive_videoloader.py:539-574 | with a one-byte prior file, a broken 206 then a full 206 for the same `Range` yields prior, the partial body, then the whole body |
| ResumeFindings.ResumeRetryDuplicatesBytes | gdrive_videoloader.py:514-517 | an honest server and a mid-stream failure on a resumed download leave a completed file with duplicated bytes |
| ResumeFindings.RangeIgnoredBodyIsAppended | gdrive_videoloader.py:543-560 | a 200 answer to a ranged request is appended after the partial file |
| ResumeFindings.CorrectedStepStaysPrefix | gdrive_videoloader.py:511-517 | with the setup recomputed per attempt and 200 truncating, each attempt keeps the file a prefix of the resource |
| ResumeFindings.CorrectedLoopStaysPrefix | gdrive_videoloader.py:539-620 | the corrected loop keeps the file a prefix of the resource, and a completed run holds all of it |
| ResumeFindings.CorrectedRunRebuildsResource | gdrive_videoloader.py:500-622 | against any honest server, the corrected download ends with a prefix of the resource, and with the whole resource when it completes |
| VideoInfo.Visit | gdrive_videoloader.py:475-478 | one piece changes at most one field, never a truthy one; a `title=` piece fills a falsy title with its value; a changed field holds the value of a piece that passed that field's test |
| VideoInfo.Scan | gdrive_videoloader.py:474-480 | the loop keeps truthy fields, and a field it finds comes from a piece that passed that field's test |
| VideoInfo.GetVideoUrl | gdrive_videoloader.py:468-485 | a title found is the unquoted value of a `title=` piece of the `&`-split body; a video found is the unquoted `\|`-tail of a piece containing `videoplayback` |
| VideoInfo.TruthyFieldsStay | gdrive_videoloader.py:475-478 | the `not title` / `not video` guards: once a field is truthy no later piece changes it |
| VideoInfo.BreakChangesNothing | gdrive_videoloader.py:479-480 | leaving the loop once both fields are truthy gives the same result as visiting every piece |
| VideoInfo.TitleFoundIffPiece | gdrive_videoloader.py:475-476 | a title is found exactly when some piece starts with `title=` |
| VideoInfo.FirstTitleWins | gdrive_videoloader.py:475-476 | the first `title=` piece with a non-empty unquoted value supplies the title, earlier `title=` pieces with empty values being replaced because `not title` holds for `""` |
| VideoInfo.TakesTitleTail | gdrive_videoloader.py:475-478 | whether a later piece takes the title branch is the same before and after the first piece is visited |
| VideoInfo.TakesVideoTail | gdrive_videoloader.py:475-478 | a later piece that takes the video branch still takes it once the first piece is visited |
| VideoInfo.FirstVideoWins | gdrive_videoloader.py:477-478 | the first piece containing `videoplayback` that reaches the `elif` with a non-empty value supplies the URL; earlier such pieces with empty values are replaced because `not video` holds for `""` |
| VideoInfo.VideoFoundIffTaken | gdrive_videoloader.py:475-478 | a video is found exactly when one was given or some piece containing `videoplayback` does not take the title branch and so reaches the `elif` |
| VideoInfo.VideoComesFromVideoPiece | gdrive_videoloader.py:477-478 | a stored URL always comes from a piece containing `videoplayback` that did not take the title branch and so reached the `elif` |
| VideoInfo.GetVideoUrlIgnoresBreak | gdrive_videoloader.py:468-485 | on the `&`-split body, leaving the loop early gives what visiting every piece gives |
| VideoInfo.GetVideoUrlTitle | gdrive_videoloader.py:468-485 | the title is found exactly when a `title=` piece exists; the first one with a non-empty value wins, so `title=&title=Foo` gives `Foo` |
| VideoInfo.GetVideoUrlVideoSource | gdrive_videoloader.py:468-485 | a returned URL has no `\|` and is the tail of an unquoted piece that reached the `elif` with `videoplayback` in it; with `GetVideoUrlVideoFound` this fixes `title=videoplayback\|x&videoplayback\|` (identity `unquote`) to `""`, not `x` |
| VideoInfo.GetVideoUrlVideoFound | gdrive_videoloader.py:468-485 | the video is found exactly when some piece of the `&`-split body reaches the `elif` with `videoplayback` in it; otherwise it is `None`, as for `title=videoplayback` |
| VideoInfo.GetVideoUrlFirstVideo | gdrive_videoloader.py:468-485 | the first `videoplayback` piece of the body that reaches the `elif` (it does not start with `title=`, or some earlier `title=` value was non-empty) with a non-empty value supplies the video URL, so `xvideoplayback\|&videoplayback\|b` gives `b` |
| VideoInfo.RFind | gdrive_videoloader.py:674 | the index of the last occurrence of a character, or -1 when there is none |
| VideoInfo.Extension | gdrive_videoloader.py:674 | `splitext(p)[1]` is a suffix of `p`; when non-empty it starts with its only dot and contains no `/`; it is non-empty exactly when some dot follows a non-dot character with no `/` from that character on |
| VideoInfo.WithDefaultExtension | gdrive_videoloader.py:672-675 | a stripped name with an extension is kept as it is; one without gets exactly `.mp4` appended; the result has an extension or ends in `.mp4` |
| VideoInfo.OutputFilename | gdrive_videoloader.py:665-675 | the filename is the default `video_<id>.mp4` or one of `--output` and the title, stripped and given `.mp4` as needed |
| VideoInfo.FilenameChoice | gdrive_videoloader.py:665-675 | a non-blank `--output` wins; a blank but non-empty `--output` gives `video_<id>.mp4` even when there is a title; with no `--output`, a non-blank title; otherwise `video_<id>.mp4` |
| VideoInfo.WithDefaultExtensionIsTrimmedAndTyped | gdrive_videoloader.py:672-675 | a chosen name, stripped and given `.mp4` when it lacks an extension, is non-empty, trimmed, and has an extension or ends in `.mp4` |
| VideoInfo.DefaultFilenameIsTrimmedAndTyped | gdrive_videoloader.py:667-668 | the default `video_<id>.mp4` is non-empty, has no white space at either end, and ends in `.mp4`, whatever the id |
| VideoInfo.FilenameIsTrimmedAndTyped | gdrive_videoloader.py:665-675 | every derived filename is non-empty, has no white space at either end, and has an extension or ends in `.mp4` |
| VideoInfo.IdRun | gdrive_videoloader.py:23 | the greedy `[a-zA-Z0-9_-]+`: the longest prefix of id characters |
| VideoInfo.SearchFileId | gdrive_videoloader.py:23-25 | a found id is non-empty and made only of `[a-zA-Z0-9_-]` characters |
| VideoInfo.SearchFileIdIsLeftmost | gdrive_videoloader.py:23-25 | `re.search` returns the non-empty, maximal id after the leftmost `/file/d/` that is followed by an id character, and fails only when there is none |
| VideoInfo.ExtractVideoId | gdrive_videoloader.py:16-33 | a bare id (no `/`, no `.`) is returned as is; otherwise a `/file/d/<id>` match wins; with no match, the `id` query parameter when there is one, else the input unchanged |
| Cookies.LoadCookies | gdrive_videoloader.py:452-466 | a failure gives `{}` and an object is the jar as is; for a list, a name is in the jar exactly when some item with both `name` and `value` carries it, bound to the value of the last such item |
| Cookies.ListToJar | gdrive_videoloader.py:459-460 | every name in the converted jar comes from an item with both `name` and `value`, with that item's value |
| Cookies.JarNames | gdrive_videoloader.py:459-460 | a name is in the jar exactly when some item with both `name` and `value` carries it |
| Cookies.LastItemWins | gdrive_videoloader.py:459-460 | the value under a name is that of the last kept item carrying it |
| Cookies.SkippedItemChangesNothing | gdrive_videoloader.py:460 | an item lacking `name` or `value` leaves the jar unchanged |

## Left out

- Selenium cookie extraction, the interactive prompts, argparse and all printing: these are user interface around the core.
- The metadata request in `main` (status checks, `cookies.update(response.cookies)`): this is network I/O; `GetVideoUrl` takes the body as input.
- `urllib3` `Retry` inside the session adapter: its status-level retries are hidden inside one `session.get`, so each scripted outcome is what `session.get` finally returned.
- `session.close()`: it has no effect on the file or on the loop's decisions.
- Real sleeping: the durations are recorded in a ghost sequence.
- `response.iter_content(chunk_size=...)` re-slicing the body to the chosen size: the body arrives as scripted chunks, and the chosen size is recorded in the stream state.
- `tqdm` rendering and its float arithmetic: only the progress total and the bytes counted are modelled.
- A non-numeric `content-length` (`ValueError` from `int`), `OSError` from `open`, and `OSError` from `file.write` (a full disk, say) in the middle of a stream: none is caught by the source, so they would escape the model's verdicts.
- A mid-stream failure is modelled as a broken response, handled by the `RequestException` branch, as `requests` raises it from `iter_content`.
- Windows `ntpath` rules for `os.path.splitext`: only the POSIX rules are modelled.
- `urllib.parse.unquote` and the `parse_qs(urlparse(url).query)['id'][0]` branch of `extract_video_id`: both are function parameters, and every property holds for any such function.
- Cookie list items that are not JSON objects, and non-string cookie values: items are string maps. For a string item, `'name' in item` is a substring test: a string lacking either word is skipped, and only a string containing both makes `item['name']` raise, which `load_cookies` turns into `{}` (`Unreadable`). A number item makes the `in` test raise, with the same result.
- Cookies.LoadCookies: a top-level JSON value that is neither a list nor an object (a string, a number, `true`, `null`) is returned as is by `cookies = data`; `CookieFile` has no case for it.
- VideoInfo.GetVideoUrl: the per-piece tests and values are computed for every piece up front (`ClassifyAll`), whereas Python computes them lazily; `unquote` is pure, so the result is the same.

## Findings

| source | as written | input that shows it | evidently intended | confidence | as-written member | corrected member |
|---|---|---|---|---|---|---|
| gdrive_videoloader.py:514-517 | the `Range` offset and append mode are fixed before the retry loop, so a retry after a stream broke mid-body asks again for bytes it has already appended | file [10]; resource [10, 20, 30]; a 206 that delivers [20] and breaks, then a full 206 [20, 30]: the file ends [10, 20, 20, 30] | recompute the offset and the `Range` header from the file before each attempt | high, derived from the code; not executed | ResumeFindings.ResumeRetryDuplicatesBytes | ResumeFindings.CorrectedRunRebuildsResource |
| gdrive_videoloader.py:543-560 | a 200 answer (the server ignored `Range` and sent everything) is written in append mode after the partial file | file [10]; resource [10, 20]; a 200 with body [10, 20]: the file ends [10, 10, 20] | truncate the file when the answer is 200 rather than 206 | high, derived from the code; not executed | ResumeFindings.RangeIgnoredBodyIsAppended | ResumeFindings.CorrectedRunRebuildsResource |
