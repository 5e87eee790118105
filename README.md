# Resumable downloader: the retry loop, modelled and verified

This project models `download_with_auto_resume` from `main.py`, the core of a command-line
downloader, together with the three small helpers it uses. The routine works in four steps:

1. A HEAD probe reads the declared size (`Content-Length`).
2. Each attempt measures the destination file on disk to choose its resume offset.
3. It sends `Range: bytes=<offset>-` and appends to the file (`'ab'`) when the offset is
   positive, otherwise it starts a new file (`'wb'`).
4. It streams the body into the file chunk by chunk, then runs the integrity check.

After a `RequestException` or any other exception the routine waits `retry_interval`
seconds and tries again; after a complete stream that fails the check it tries again at once.
It returns False when the probe raises or gives no usable size, or on `KeyboardInterrupt`
during an attempt; it returns True when the check passes, or when the offset taken from the
file already reaches the declared size (see "## Findings").

How it is modelled:

- The destination file is a value: `Disk = Option<seq<byte>>`, meaning absent or present
  with its bytes.
- The routine is the method `Resume.DownloadWithAutoResume`, written in the source's
  imperative form. It keeps the file in a local variable that is deleted, truncated or
  appended to in place, and `resumePos` is recomputed from that variable at the head of
  every iteration.
- The network is a finite script of scripted attempt outcomes (`Transfer.Attempt`). An
  attempt either fails before the file is opened, or streams some chunks and then
  completes, raises a `RequestException` or other exception, or meets `KeyboardInterrupt`.
- The source loop has no attempt limit. The model ends when the script runs out, with the
  outcome `Pending`.
- The method is proved equal to the recursive specification `Resume.Loop` / `Resume.Download`.
  The guarantees are proved about that specification: in the contracts of `CheckExisting`,
  `RunAttempt`, `Loop` and `Download`, and in the lemmas of `ResumeProperties`.
- Observable actions are recorded in a log of `Step`s: `Removed` (the file was deleted),
  `Requested(attempt, offset, mode)` and `Slept(seconds)` (one `time.sleep`).

Files: `files.dfy`, `integrity.dfy`, `proxies.dfy`, `filenames.dfy`, `range_requests.dfy`,
`transfer.dfy`, `resume.dfy`, `properties.dfy`, `findings.dfy`.

The model follows the code, including what it lacks:

- There is no maximum-attempts bound.
- There is no ranged-probe fallback for an unknown size. An absent or zero `Content-Length`
  is fatal.
- The integrity check is only "exists, has exactly the declared length, and its first 1024
  bytes are not empty"; there is no content hash.

## Model

| member | source | states |
|---|---|---|
| `Integrity.CheckFileIntegrity` | main.py:83-101 | true exactly when the file exists, its length equals the expected size and it is non-empty; so an expected size of 0 (or less) never passes |
| `Proxies.CreateProxies` | main.py:103-123 | no proxy map for an absent or empty string; otherwise identical `http`/`https` entries that carry a scheme, equal to the input exactly when it already starts with `http://`, `https://` or `socks5://`, and `http://` + input otherwise |
| `Proxies.CreateProxiesIdempotent` | main.py:111-123 | normalising an already normalised endpoint gives the same proxy map |
| `Filenames.Basename` | main.py:40 | the longest separator-free suffix of the path (`/` and `\` both separate) |
| `Filenames.BeforeQuery` | main.py:43 | the part of a name before its first `?`: contains no `?`, is a prefix, and equals the name exactly when the name has no `?` |
| `Filenames.FilenameFromPath` | main.py:31-44 | never contains `?` or a separator; `download_file` when the basename is empty; the basename itself (never empty) when the path contains no `?` |
| `RangeRequests.RangeHeader` | main.py:206 | the `Range` value `bytes=<offset>-` sent with each attempt; no contract of its own, its meaning is stated by `RangeHeaderRoundTrip` and `RangeHeaderInjective` |
| `RangeRequests.ModeFor` | main.py:227 | the open mode, `'ab'` for a positive offset and `'wb'` otherwise; no contract of its own, what each mode leaves on disk is stated by `Transfer.RunAttempt`, and `PartialFileResumesAtItsLength` states that a request appends exactly when the file on disk is non-empty |
| `RangeRequests.RangeHeaderRoundTrip` | main.py:206 | the `bytes=<offset>-` header read back yields exactly the resume offset |
| `RangeRequests.RangeHeaderInjective` | main.py:206 | different offsets give different Range headers |
| `RangeRequests.DecimalRoundTrip` | main.py:206 | the decimal rendering of the offset denotes the offset |
| `Transfer.WriteChunks` | main.py:228-239 | the file becomes what the open kept followed by all chunks in order; the offset advances by exactly the bytes written, which equals the per-attempt count |
| `Transfer.RunAttempt` | main.py:204-282 | a request refused before the open leaves the file untouched; a streamed attempt leaves the kept bytes plus every chunk, whatever ended it; the offset stays equal to the on-disk length; the attempt is verified exactly when the stream completed and the integrity check passes, and cancelled exactly on `KeyboardInterrupt` |
| `Transfer.TryAttempt` | main.py:204-282 | the attempt as the source runs it (open in the mode the offset calls for, write the chunks, classify the ending) computes exactly `RunAttempt` |
| `Resume.DeclaredSize` | main.py:154-165 | the probe stops the routine exactly when it raised or `Content-Length` is absent or 0; any other value goes on as the size |
| `Resume.CheckExisting` | main.py:181-201 | ends the loop exactly when the file passes the integrity check; otherwise deletes a file at least as long as declared and takes the resume offset from what is then on disk (0 if absent); for a positive size that offset is below the size, so the early exit at lines 199-201 is never taken, and a file is deleted exactly when it is longer than declared |
| `Resume.Loop` | main.py:177-282 | never a probe failure; every iteration counts one attempt; the script runs out only after one attempt per entry; for a positive size, success is reported only for a file that passes the integrity check |
| `Resume.Download` | main.py:154-288 | a failed probe returns before any request with the file unchanged; with a positive declared size, success implies an intact file |
| `Resume.DownloadWithAutoResume` | main.py:125-288 | the imperative routine computes exactly `Download` of its inputs: the outcome, the final file, the log of deletions, requests and waits, and the attempt count |
| `ResumeProperties.IntactFileNeedsNoRequest` | main.py:181-187 | a file already of the declared size ends the routine with success, no request and the file unchanged |
| `ResumeProperties.CorruptFileRestartsFromZero` | main.py:183-192 | a file longer than declared is deleted and the next request starts at offset 0 in truncate mode |
| `ResumeProperties.PartialFileResumesAtItsLength` | main.py:181-206 | a shorter file (or none) is resumed at its length: the request names that offset, its Range header parses back to it, and it appends exactly when the length is positive |
| `ResumeProperties.ServerIgnoringRangeIsRestarted` | main.py:183-191 | if a resumed attempt makes the file longer than declared, whether its stream then completes or raises a `RequestException` or other exception, the next iteration (after the wait an exception calls for) deletes it and requests from 0 in truncate mode |
| `ResumeProperties.StreamFailureKeepsBytesAndRetries` | main.py:255-282 | a RequestException or other exception mid-stream, on a resumed attempt or on the first one from no file, keeps the written bytes, waits `retry_interval` and continues with the next attempt from the grown file, the count one higher |
| `ResumeProperties.RefusedRequestRetries` | main.py:204-224 | a request failing before the open leaves the file alone, waits and retries |
| `ResumeProperties.ShortStreamRetriesAtOnce` | main.py:250-253 | a completed stream short of the size, on a resumed attempt or on the first one from no file, goes straight to the next attempt from the file it left, without waiting |
| `ResumeProperties.InterruptKeepsPartialFile` | main.py:204-272 | `KeyboardInterrupt` before the open or mid-stream, on a resumed attempt or on the first one from no file, returns Interrupted after logging that one request, with the file untouched (before the open) or the kept bytes plus every chunk written on disk, and no further step |
| `ResumeProperties.InterruptedOnlyByKeyboardInterrupt` | main.py:266-272 | the loop reports an interruption only if some attempt met `KeyboardInterrupt` |
| `ResumeProperties.HonestAttemptKeepsPrefix` | main.py:227-239 | an attempt served honestly from the requested offset turns a prefix of the content into a prefix at least as long, with the old bytes at its head |
| `ResumeProperties.HonestServerDeliversContent` | main.py:178-253 | against a server honouring every Range request, the file is always a prefix of the content, and success means it is exactly the content |
| `ResumeProperties.HonestCoveringScriptCompletes` | main.py:178-282 | against a server honouring every Range request, attempts that are never interrupted and together stream at least the rest of the content from the file's current length end the routine with success and exactly the content on disk, whatever mix of drops, refusals and short streams comes in between |
| `ResumeProperties.CompletingAttemptFinishes` | main.py:227-253 | an attempt that streams the whole rest from its offset ends the routine with success and exactly the content on disk |
| `ResumeProperties.DropThenResumeCompletes` | main.py:178-282 | a drop after `cut` bytes, then a complete attempt: the second request resumes at `cut` appending, and the file is exactly the content |
| `ResumeProperties.InterruptThenRerunResumes` | main.py:266-272 | an interrupt after `cut` bytes leaves exactly those bytes; a rerun's first request resumes at `cut` in append mode |
| `Findings.NegativeLengthReportsSuccess` | main.py:157-161 | as written, a negative declared size returns success at once with no request and no file left |
| `Findings.AcceptedSize` | main.py:157-161 | the intended probe: only a positive `Content-Length` lets the download go on |
| `Findings.DownloadFixed` | main.py:154-288 | with the intended probe, success implies an intact file for every probe result, and a rejected probe leaves the file untouched |
| `Findings.FixedAgreesWithSource` | main.py:157-161 | except with a negative declared size, the corrected routine behaves exactly like the original |

## Left out

- `format_size`, `update_progress` and the speed calculation (main.py:46-81, 241-248): floating-point formatting and console output. Progress reporting is a no-op.
- All `print` messages and their wording.
- `get_download_path` (main.py:21-29): it reads an environment variable and creates a directory. The destination file is an input (`disk0`), so the join `download_dir / filename` is not modelled.
- `main` and argument parsing (main.py:290-317).
- `urllib3.disable_warnings` (main.py:145-146): a process-wide toggle with no effect on the decisions.
- The requests library: `requests.head`, `Session`, `HTTPAdapter(max_retries=5)`, redirects, timeouts, TLS verification, proxies and `iter_content`. Each attempt's network behaviour is a scripted `Attempt`; the proxy map from `create_proxies` is computed but only passed to these calls.
- `urlparse`: `Filenames.FilenameFromPath` takes the URL's path component directly.
- `Filenames.Basename`: Windows drive and UNC prefixes (for example a path of exactly `//server/share`) are not modelled.
- `DeclaredSize` starts from the parsed integer value of `Content-Length`. The text rules of `int()` are not modelled; a header that `int()` cannot parse raises inside the probe's `try`, so it is the `ProbeError` case.
- `time.sleep` becomes a recorded `Slept(retry_interval)` step. `retry_interval` is a natural number; a negative one (where `time.sleep` raises from inside the exception handler) is not modelled.
- `KeyboardInterrupt` is modelled only inside the `try` body (main.py:204-253). An interrupt during the HEAD probe (its `except Exception` does not catch it), during the existing-file check or during the sleep propagates out of the routine and is not modelled.
- Filesystem failures outside the `try` (`os.path.getsize`, `os.remove`) are not modelled; the disk always answers.
- The unbounded `while not success` loop runs over a finite script. When the script runs out, the model returns `Pending`, where the routine would keep retrying.

## Findings

| source | as written | input that shows it | evidently intended | confidence | as-written member | corrected member |
|---|---|---|---|---|---|---|
| main.py:157-161, 199-201 | only a declared size of exactly 0 is rejected; a negative `Content-Length` passes the probe, and then the check `resume_pos >= file_size` at the head of the first attempt holds, so the routine reports a finished download | a HEAD response with `Content-Length: -1`: returns True, sends no GET, and leaves no file (an existing file of any length is deleted first) | treat any non-positive declared size like an unknown one and return False | medium, not executed | `Findings.NegativeLengthReportsSuccess` | `Findings.DownloadFixed` (with `Findings.AcceptedSize`) |
