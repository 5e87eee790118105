/**
 * The probe rejects a declared size of 0 only. A negative Content-Length passes it, and
 * the loop's "already complete" test (resume offset >= size) then reports success at once,
 * deleting any file that was there. `AcceptedSize` is the probe as evidently intended.
 */
module Findings {
  import opened Files
  import opened Integrity
  import opened Transfer
  import opened Resume

  /**
   * As written: with a negative declared size the routine returns success on its first
   * iteration, issues no request, and leaves no file behind.
   */
  lemma NegativeLengthReportsSuccess(declared: int, retryInterval: nat, disk: Disk, script: seq<Attempt>)
    requires declared < 0
    ensures Download(Headers(Some(declared)), retryInterval, disk, script)
            == Run(Succeeded, None, if disk.Some? then [Removed] else [], 1)
  {
    assert DeclaredSize(Headers(Some(declared))) == Some(declared);
    LoopStopsBeforeRequest(declared, retryInterval, disk, [], 0, script, None, 0, disk.Some?);
  }

  /** The probe as intended: only a positive Content-Length lets the download go on. */
  function AcceptedSize(probe: Probe): (size: Option<int>)
    ensures size.None? <==> probe == ProbeError || probe.contentLength.None? || probe.contentLength.value <= 0
    ensures size.Some? ==> size.value > 0 && probe == Headers(Some(size.value))
  {
    match DeclaredSize(probe)
    case None => None
    case Some(fileSize) => if fileSize > 0 then Some(fileSize) else None
  }

  /**
   * The routine with the corrected probe: it either fails before any request, leaving the
   * file alone, or reports success only for a file that passes the integrity check.
   */
  function DownloadFixed(probe: Probe, retryInterval: nat, disk: Disk, script: seq<Attempt>): (r: Run)
    ensures r.outcome == ProbeFailed <==> AcceptedSize(probe).None?
    ensures r.outcome == ProbeFailed ==> r.disk == disk && r.log == [] && r.attempts == 0
    ensures r.outcome == Succeeded ==> CheckFileIntegrity(r.disk, AcceptedSize(probe).value)
  {
    match AcceptedSize(probe)
    case None => Run(ProbeFailed, disk, [], 0)
    case Some(fileSize) => Loop(fileSize, retryInterval, disk, [], 0, script)
  }

  /** On every probe but one declaring a negative size, the correction changes nothing. */
  lemma FixedAgreesWithSource(probe: Probe, retryInterval: nat, disk: Disk, script: seq<Attempt>)
    requires !(probe.Headers? && probe.contentLength.Some? && probe.contentLength.value < 0)
    ensures DownloadFixed(probe, retryInterval, disk, script) == Download(probe, retryInterval, disk, script)
  {
  }
}
