/**
 * download_with_auto_resume: probe the declared size once, then loop over attempts, each
 * re-deriving its resume offset from the file on disk, until the integrity check passes or
 * the user interrupts. The network is a finite script of attempt outcomes; when it runs out
 * the model stops with `Pending`, where the routine itself would keep trying.
 */
module Resume {
  import opened Files
  import opened Integrity
  import opened RangeRequests
  import opened Transfer

  /** The HEAD probe: it raised, or it answered with an optional parsed Content-Length. */
  datatype Probe = ProbeError | Headers(contentLength: Option<int>)

  /**
   * The size the loop works against, or None when the routine returns False at once: the
   * probe raised, or Content-Length is absent or 0. Any other value, negative ones
   * included, is accepted.
   */
  function DeclaredSize(probe: Probe): (size: Option<int>)
    ensures size.None? <==> probe == ProbeError || probe.contentLength in {None, Some(0)}
    ensures size.Some? ==> size.value != 0 && probe == Headers(Some(size.value))
  {
    match probe
    case ProbeError => None
    case Headers(contentLength) =>
      var fileSize := if contentLength.None? then 0 else contentLength.value;
      if fileSize == 0 then None else Some(fileSize)
  }

  /** What the existing-file check at the head of an attempt decides. */
  datatype Check =
    | Intact                                            // intact file: success, no request
    | Start(disk: Disk, resumePos: nat, removed: bool)  // request from `resumePos`

  /**
   * The existing-file check (lines 181-196). It ends the loop exactly when the file passes
   * the integrity check; otherwise the attempt starts from the file as it is, or from no
   * file after deleting one that is at least as long as declared, and its offset is the
   * length of what is then on disk. For a positive size that offset is below the size, and
   * a file is deleted exactly when it is longer than declared.
   */
  function CheckExisting(disk: Disk, fileSize: int): (c: Check)
    ensures c == Intact <==> CheckFileIntegrity(disk, fileSize)
    ensures c.Start? ==> (c.removed <==> disk.Some? && |disk.value| >= fileSize)
    ensures c.Start? ==> c.disk == (if c.removed then None else disk)
    ensures c.Start? ==> c.resumePos == (if c.disk.None? then 0 else |c.disk.value|)
    ensures c.Start? && fileSize > 0 ==> c.resumePos < fileSize
    ensures fileSize > 0 ==> (c.Start? && c.removed <==> disk.Some? && |disk.value| > fileSize)
  {
    if disk.Some? then
      var currentSize := |disk.value|;
      if currentSize >= fileSize then
        if CheckFileIntegrity(disk, fileSize) then Intact
        else Start(None, 0, true)
      else Start(disk, currentSize, false)
    else Start(None, 0, false)
  }

  /** What the routine does that a caller or the user can observe. */
  datatype Step =
    | Removed                                             // os.remove of a corrupt file
    | Requested(attempt: nat, resumePos: nat, mode: Mode) // an attempt to GET with Range: bytes=<resumePos>-,
                                                          // and the mode it would open the file with
    | Slept(seconds: nat)                                 // time.sleep(retry_interval)

  datatype Outcome =
    | ProbeFailed   // returned False before the loop
    | Succeeded     // returned True
    | Interrupted   // returned False on KeyboardInterrupt
    | Pending       // the script ran out; the routine would go on retrying

  datatype Run = Run(outcome: Outcome, disk: Disk, log: seq<Step>, attempts: nat)

  /**
   * The attempt loop (lines 178-282) from a state where `attempts` iterations have run and
   * `log` has been observed. Every iteration counts one attempt; only an iteration that
   * issues a request consumes an entry of the script. Success, for a positive size, is only
   * ever reported for a file that passes the integrity check.
   */
  function Loop(fileSize: int, retryInterval: nat, disk: Disk, log: seq<Step>, attempts: nat,
                script: seq<Attempt>): (r: Run)
    ensures r.outcome != ProbeFailed
    ensures attempts < r.attempts <= attempts + |script| + 1
    ensures r.outcome == Pending ==> r.attempts == attempts + |script| + 1
    ensures log <= r.log
    ensures fileSize > 0 && r.outcome == Succeeded ==> CheckFileIntegrity(r.disk, fileSize)
    decreases |script|
  {
    var attempt := attempts + 1;
    match CheckExisting(disk, fileSize)
    case Intact => Run(Succeeded, disk, log, attempt)
    case Start(start, resumePos, removed) =>
      var prepared := if removed then log + [Removed] else log;
      if resumePos >= fileSize then Run(Succeeded, start, prepared, attempt)  // lines 199-201
      else if script == [] then Run(Pending, start, prepared, attempt)
      else
        var a := RunAttempt(start, resumePos, fileSize, script[0]);
        var logged := prepared + [Requested(attempt, resumePos, ModeFor(resumePos))]
                      + (if a.end == Failed then [Slept(retryInterval)] else []);
        match a.end
        case Verified => Run(Succeeded, a.disk, logged, attempt)
        case Cancelled => Run(Interrupted, a.disk, logged, attempt)
        case _ => Loop(fileSize, retryInterval, a.disk, logged, attempt, script[1..])
  }

  /**
   * The whole routine: a failed probe returns before any request and leaves the file as it
   * was; otherwise the loop runs against the declared size.
   */
  function Download(probe: Probe, retryInterval: nat, disk: Disk, script: seq<Attempt>): (r: Run)
    ensures r.outcome == ProbeFailed <==> DeclaredSize(probe).None?
    ensures r.outcome == ProbeFailed ==> r.disk == disk && r.log == [] && r.attempts == 0
    ensures r.outcome == Succeeded && DeclaredSize(probe).Some? && DeclaredSize(probe).value > 0 ==>
              CheckFileIntegrity(r.disk, DeclaredSize(probe).value)
  {
    match DeclaredSize(probe)
    case None => Run(ProbeFailed, disk, [], 0)
    case Some(fileSize) => Loop(fileSize, retryInterval, disk, [], 0, script)
  }

  /** Loop taken one iteration at a time: the iteration that ends at the existing-file check. */
  lemma LoopStops(fileSize: int, retryInterval: nat, disk: Disk, log: seq<Step>, attempts: nat,
                  script: seq<Attempt>)
    requires CheckExisting(disk, fileSize) == Intact
    ensures Loop(fileSize, retryInterval, disk, log, attempts, script) == Run(Succeeded, disk, log, attempts + 1)
  {
  }

  /** Loop taken one iteration at a time: an iteration that ends without consuming the script. */
  lemma LoopStopsBeforeRequest(fileSize: int, retryInterval: nat, disk: Disk, log: seq<Step>, attempts: nat,
                               script: seq<Attempt>, start: Disk, resumePos: nat, removed: bool)
    requires CheckExisting(disk, fileSize) == Start(start, resumePos, removed)
    requires resumePos >= fileSize || script == []
    ensures Loop(fileSize, retryInterval, disk, log, attempts, script)
         == Run(if resumePos >= fileSize then Succeeded else Pending, start,
                if removed then log + [Removed] else log, attempts + 1)
  {
  }

  /** Loop taken one iteration at a time: an iteration that issues a request. */
  lemma LoopRequests(fileSize: int, retryInterval: nat, disk: Disk, log: seq<Step>, attempts: nat,
                     script: seq<Attempt>, start: Disk, resumePos: nat, removed: bool)
    requires CheckExisting(disk, fileSize) == Start(start, resumePos, removed)
    requires resumePos < fileSize && script != []
    ensures var a := RunAttempt(start, resumePos, fileSize, script[0]);
            var logged := (if removed then log + [Removed] else log)
                          + [Requested(attempts + 1, resumePos, ModeFor(resumePos))]
                          + (if a.end == Failed then [Slept(retryInterval)] else []);
            Loop(fileSize, retryInterval, disk, log, attempts, script)
            == match a.end
               case Verified => Run(Succeeded, a.disk, logged, attempts + 1)
               case Cancelled => Run(Interrupted, a.disk, logged, attempts + 1)
               case _ => Loop(fileSize, retryInterval, a.disk, logged, attempts + 1, script[1..])
  {
  }

  /**
   * The routine step by step, as the source runs it: `disk` is the destination file,
   * deleted, truncated or appended to in place; `resumePos` is recomputed from it at the
   * head of every attempt.
   */
  method DownloadWithAutoResume(probe: Probe, retryInterval: nat, disk0: Disk, script: seq<Attempt>)
    returns (outcome: Outcome, disk: Disk, log: seq<Step>, attempts: nat)
    ensures Run(outcome, disk, log, attempts) == Download(probe, retryInterval, disk0, script)
  {
    disk, log, attempts := disk0, [], 0;
    var declared := DeclaredSize(probe);
    if declared.None? {
      outcome := ProbeFailed;
      return;
    }
    var fileSize := declared.value;
    var resumePos: nat := 0;
    var next := 0;
    while true
      invariant next <= |script|
      invariant Loop(fileSize, retryInterval, disk, log, attempts, script[next..])
                == Download(probe, retryInterval, disk0, script)
      decreases |script| - next
    {
      ghost var headDisk, headLog, rest := disk, log, script[next..];
      attempts := attempts + 1;
      ghost var removed := false;
      if disk.Some? {
        var currentSize := |disk.value|;
        if currentSize >= fileSize {
          if CheckFileIntegrity(disk, fileSize) {
            outcome := Succeeded;
            LoopStops(fileSize, retryInterval, disk, log, attempts - 1, rest);
            return;
          }
          disk := None;
          resumePos := 0;
          log := log + [Removed];
          removed := true;
        } else {
          resumePos := currentSize;
        }
      } else {
        resumePos := 0;
      }
      assert CheckExisting(headDisk, fileSize) == Start(disk, resumePos, removed);
      if resumePos >= fileSize {
        outcome := Succeeded;
        LoopStopsBeforeRequest(fileSize, retryInterval, headDisk, headLog, attempts - 1, rest, disk, resumePos, removed);
        return;
      }
      if next == |script| {
        outcome := Pending;
        LoopStopsBeforeRequest(fileSize, retryInterval, headDisk, headLog, attempts - 1, rest, disk, resumePos, removed);
        return;
      }
      LoopRequests(fileSize, retryInterval, headDisk, headLog, attempts - 1, rest, disk, resumePos, removed);
      var attempt := script[next];
      assert script[next..][0] == attempt && script[next..][1..] == script[next + 1..];
      next := next + 1;
      var mode := ModeFor(resumePos);
      log := log + [Requested(attempts, resumePos, mode)];
      var result := TryAttempt(disk, resumePos, fileSize, attempt);
      disk, resumePos := result.disk, result.resumePos;
      match result.end {
        case Verified =>
          outcome := Succeeded;
          return;
        case Cancelled =>
          outcome := Interrupted;
          return;
        case Unverified =>
          assert log + [] == log;  // a complete but unverified stream is followed by no wait
        case Failed =>
          log := log + [Slept(retryInterval)];
      }
    }
  }
}
