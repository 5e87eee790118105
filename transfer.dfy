/**
 * One attempt of the loop (lines 204-282 of the download routine): a ranged GET, the bytes
 * it streams into the destination file, and how the attempt ends.
 */
module Transfer {
  import opened Files
  import opened Integrity
  import opened RangeRequests

  /** The exceptions the attempt distinguishes. */
  datatype Failure =
    | RequestError   // requests.exceptions.RequestException (includes raise_for_status)
    | OtherError     // any other Exception
    | Interrupt      // KeyboardInterrupt

  /** How a response body that was being streamed stopped. */
  datatype StreamEnd = Complete | Raised(failure: Failure)

  /** The scripted network behaviour of one attempt. */
  datatype Attempt =
    | Refused(failure: Failure)                        // raised before the file was opened
    | Streamed(chunks: seq<Chunk>, end: StreamEnd)     // the file was opened and these chunks arrived

  function FailureOf(a: Attempt): Option<Failure>
  {
    match a
    case Refused(f) => Some(f)
    case Streamed(_, Complete) => None
    case Streamed(_, Raised(f)) => Some(f)
  }

  /** The contents of the file right after `open(file_path, mode)`. */
  function Opened(disk: Disk, mode: Mode): seq<byte>
  {
    if mode == Append && disk.Some? then disk.value else []
  }

  /**
   * The `for chunk in response.iter_content(...)` loop: every non-empty chunk is written
   * after the bytes already in the file, and the resume offset and the per-attempt count
   * advance by exactly its length.
   */
  method WriteChunks(kept: seq<byte>, resumePos: nat, chunks: seq<Chunk>)
    returns (file: seq<byte>, pos: nat, downloaded: nat)
    ensures file == kept + Concat(chunks)
    ensures downloaded == |Concat(chunks)|
    ensures pos == resumePos + downloaded
  {
    file, pos, downloaded := kept, resumePos, 0;
    for k := 0 to |chunks|
      invariant file == kept + Concat(chunks[..k])
      invariant downloaded == |Concat(chunks[..k])|
      invariant pos == resumePos + downloaded
    {
      var chunk := chunks[k];
      if |chunk| > 0 {
        file := file + chunk;
        pos := pos + |chunk|;
        downloaded := downloaded + |chunk|;
      }
      assert chunks[..k + 1][..k] == chunks[..k];
    }
    assert chunks[..|chunks|] == chunks;
  }

  /** What an attempt leaves behind and how the loop goes on after it. */
  datatype AttemptEnd =
    | Verified     // stream complete and the integrity check passed (lines 251-253)
    | Unverified   // stream complete but the check failed: next attempt at once
    | Failed       // RequestException or other Exception: wait, then next attempt
    | Cancelled    // KeyboardInterrupt: the routine returns False

  datatype AttemptResult = AttemptResult(disk: Disk, resumePos: nat, end: AttemptEnd)

  /**
   * One attempt from `resumePos` against a file of declared size `fileSize`. A request that
   * fails before the file is opened leaves it untouched; otherwise the file holds what the
   * open mode kept followed by every chunk that arrived, whatever ended the stream.
   */
  function RunAttempt(disk: Disk, resumePos: nat, fileSize: int, attempt: Attempt): (r: AttemptResult)
    ensures attempt.Refused? ==> r.disk == disk && r.resumePos == resumePos
    ensures attempt.Streamed? ==>
              r.disk == Some(Opened(disk, ModeFor(resumePos)) + Concat(attempt.chunks))
              && r.resumePos == resumePos + |Concat(attempt.chunks)|
    ensures resumePos == (if disk.None? then 0 else |disk.value|) ==>
              r.resumePos == (if r.disk.None? then 0 else |r.disk.value|)
    ensures r.end == Verified <==> FailureOf(attempt).None? && CheckFileIntegrity(r.disk, fileSize)
    ensures r.end == Unverified <==> FailureOf(attempt).None? && !CheckFileIntegrity(r.disk, fileSize)
    ensures r.end == Cancelled <==> FailureOf(attempt) == Some(Interrupt)
  {
    match attempt
    case Refused(failure) =>
      AttemptResult(disk, resumePos, if failure == Interrupt then Cancelled else Failed)
    case Streamed(chunks, end) =>
      var written := Concat(chunks);
      var file := Some(Opened(disk, ModeFor(resumePos)) + written);
      var pos := resumePos + |written|;
      match end
      case Complete => AttemptResult(file, pos, if CheckFileIntegrity(file, fileSize) then Verified else Unverified)
      case Raised(failure) => AttemptResult(file, pos, if failure == Interrupt then Cancelled else Failed)
  }

  /**
   * The `try` body of one attempt (lines 204-282) as the source runs it: open the file in
   * the mode the offset calls for, write the chunks, and classify how the attempt ended.
   */
  method TryAttempt(disk: Disk, resumePos: nat, fileSize: int, attempt: Attempt) returns (r: AttemptResult)
    ensures r == RunAttempt(disk, resumePos, fileSize, attempt)
  {
    var mode := ModeFor(resumePos);
    match attempt {
      case Refused(failure) =>
        return AttemptResult(disk, resumePos, if failure == Interrupt then Cancelled else Failed);
      case Streamed(chunks, end) =>
        var file, pos, downloaded := WriteChunks(Opened(disk, mode), resumePos, chunks);
        match end {
          case Complete =>
            if CheckFileIntegrity(Some(file), fileSize) {
              return AttemptResult(Some(file), pos, Verified);
            }
            return AttemptResult(Some(file), pos, Unverified);
          case Raised(failure) =>
            return AttemptResult(Some(file), pos, if failure == Interrupt then Cancelled else Failed);
        }
    }
  }
}
