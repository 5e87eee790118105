/** What the attempt loop guarantees, stated over its specification `Resume.Loop`. */
module ResumeProperties {
  import opened Files
  import opened RangeRequests
  import opened Transfer
  import opened Resume

  /** A file that already passes the integrity check ends the routine with no request. */
  lemma IntactFileNeedsNoRequest(fileSize: nat, retryInterval: nat, existing: seq<byte>, script: seq<Attempt>)
    requires fileSize > 0 && |existing| == fileSize
    ensures Download(Headers(Some(fileSize)), retryInterval, Some(existing), script)
            == Run(Succeeded, Some(existing), [], 1)
  {
    LoopStops(fileSize, retryInterval, Some(existing), [], 0, script);
  }

  /**
   * A file longer than declared is deleted, and the next request starts a fresh file at
   * offset 0.
   */
  lemma CorruptFileRestartsFromZero(fileSize: nat, retryInterval: nat, existing: seq<byte>,
                                    log: seq<Step>, attempts: nat, script: seq<Attempt>)
    requires fileSize > 0 && |existing| > fileSize && script != []
    ensures var r := Loop(fileSize, retryInterval, Some(existing), log, attempts, script);
            |r.log| >= |log| + 2
            && r.log[|log|..|log| + 2] == [Removed, Requested(attempts + 1, 0, Truncate)]
  {
    LoopRequests(fileSize, retryInterval, Some(existing), log, attempts, script, None, 0, true);
  }

  /**
   * A file shorter than declared (or no file) is resumed where it ends: the request names
   * its length as the Range offset and appends exactly when that length is positive.
   */
  lemma PartialFileResumesAtItsLength(fileSize: nat, retryInterval: nat, disk: Disk,
                                      log: seq<Step>, attempts: nat, script: seq<Attempt>)
    requires disk.Some? ==> |disk.value| < fileSize
    requires fileSize > 0 && script != []
    ensures var offset := if disk.None? then 0 else |disk.value|;
            var r := Loop(fileSize, retryInterval, disk, log, attempts, script);
            |r.log| > |log| && r.log[|log|] == Requested(attempts + 1, offset, ModeFor(offset))
            && (r.log[|log|].mode == Append <==> disk.Some? && |disk.value| > 0)
            && ParseRange(RangeHeader(r.log[|log|].resumePos)) == Some(offset)
  {
    var offset := if disk.None? then 0 else |disk.value|;
    LoopRequests(fileSize, retryInterval, disk, log, attempts, script, disk, offset, false);
    RangeHeaderRoundTrip(offset);
  }

  /**
   * A server that ignores Range and sends too much on a resumed attempt makes the file
   * longer than declared, however the stream then ends (short of an interrupt); the next
   * iteration, after the wait an exception calls for, deletes it and restarts from offset 0.
   */
  lemma ServerIgnoringRangeIsRestarted(fileSize: nat, retryInterval: nat, existing: seq<byte>,
                                       chunks: seq<Chunk>, end: StreamEnd, log: seq<Step>, attempts: nat,
                                       script: seq<Attempt>)
    requires 0 < |existing| < fileSize
    requires |existing| + |Concat(chunks)| > fileSize
    requires end != Raised(Interrupt)
    requires |script| >= 2 && script[0] == Streamed(chunks, end)
    ensures var waited := if end.Complete? then [] else [Slept(retryInterval)];
            var expected := [Requested(attempts + 1, |existing|, Append)] + waited
                            + [Removed, Requested(attempts + 2, 0, Truncate)];
            var r := Loop(fileSize, retryInterval, Some(existing), log, attempts, script);
            |r.log| >= |log| + |expected| && r.log[|log|..|log| + |expected|] == expected
  {
    var grown := existing + Concat(chunks);
    LoopRequests(fileSize, retryInterval, Some(existing), log, attempts, script, Some(existing), |existing|, false);
    var waited := if end.Complete? then [] else [Slept(retryInterval)];
    var logged := log + [Requested(attempts + 1, |existing|, Append)] + waited;
    LoopRequests(fileSize, retryInterval, Some(grown), logged, attempts + 1, script[1..], None, 0, true);
  }

  /**
   * A RequestException or other exception while streaming keeps every byte written (on a
   * resumed attempt as on the first one, which starts with no file), waits the retry
   * interval, and goes on with the next attempt from the grown file.
   */
  lemma StreamFailureKeepsBytesAndRetries(fileSize: nat, retryInterval: nat, disk: Disk,
                                          chunks: seq<Chunk>, failure: Failure, log: seq<Step>,
                                          attempts: nat, script: seq<Attempt>)
    requires fileSize > 0 && (disk.Some? ==> |disk.value| < fileSize) && failure != Interrupt
    requires script != [] && script[0] == Streamed(chunks, Raised(failure))
    ensures var offset := if disk.None? then 0 else |disk.value|;
            var kept := if disk.None? then [] else disk.value;
            Loop(fileSize, retryInterval, disk, log, attempts, script)
            == Loop(fileSize, retryInterval, Some(kept + Concat(chunks)),
                    log + [Requested(attempts + 1, offset, ModeFor(offset)), Slept(retryInterval)],
                    attempts + 1, script[1..])
  {
    var offset := if disk.None? then 0 else |disk.value|;
    var kept := if disk.None? then [] else disk.value;
    LoopRequests(fileSize, retryInterval, disk, log, attempts, script, disk, offset, false);
    assert Opened(disk, ModeFor(offset)) == kept;
    var request := Requested(attempts + 1, offset, ModeFor(offset));
    assert log + [request] + [Slept(retryInterval)] == log + [request, Slept(retryInterval)];
  }

  /** A request that fails before the file is opened leaves it as it was, then waits and retries. */
  lemma RefusedRequestRetries(fileSize: nat, retryInterval: nat, disk: Disk, failure: Failure,
                              log: seq<Step>, attempts: nat, script: seq<Attempt>)
    requires fileSize > 0 && (disk.Some? ==> |disk.value| < fileSize)
    requires failure != Interrupt && script != [] && script[0] == Refused(failure)
    ensures var offset := if disk.None? then 0 else |disk.value|;
            Loop(fileSize, retryInterval, disk, log, attempts, script)
            == Loop(fileSize, retryInterval, disk,
                    log + [Requested(attempts + 1, offset, ModeFor(offset)), Slept(retryInterval)],
                    attempts + 1, script[1..])
  {
    var offset := if disk.None? then 0 else |disk.value|;
    LoopRequests(fileSize, retryInterval, disk, log, attempts, script, disk, offset, false);
    var request := Requested(attempts + 1, offset, ModeFor(offset));
    assert log + [request] + [Slept(retryInterval)] == log + [request, Slept(retryInterval)];
  }

  /**
   * A stream that completes without reaching the declared size goes straight on to the
   * next attempt, with no wait, from the file it left (a fresh one on a first attempt).
   */
  lemma ShortStreamRetriesAtOnce(fileSize: nat, retryInterval: nat, disk: Disk,
                                 chunks: seq<Chunk>, log: seq<Step>, attempts: nat, script: seq<Attempt>)
    requires fileSize > 0 && (disk.Some? ==> |disk.value| < fileSize)
    requires (if disk.None? then 0 else |disk.value|) + |Concat(chunks)| < fileSize
    requires script != [] && script[0] == Streamed(chunks, Complete)
    ensures var offset := if disk.None? then 0 else |disk.value|;
            var kept := if disk.None? then [] else disk.value;
            Loop(fileSize, retryInterval, disk, log, attempts, script)
            == Loop(fileSize, retryInterval, Some(kept + Concat(chunks)),
                    log + [Requested(attempts + 1, offset, ModeFor(offset))], attempts + 1, script[1..])
  {
    var offset := if disk.None? then 0 else |disk.value|;
    var kept := if disk.None? then [] else disk.value;
    LoopRequests(fileSize, retryInterval, disk, log, attempts, script, disk, offset, false);
    assert Opened(disk, ModeFor(offset)) == kept;
    var request := Requested(attempts + 1, offset, ModeFor(offset));
    assert log + [request] + [] == log + [request];
  }

  /**
   * KeyboardInterrupt, before the file is opened or while streaming, ends the routine; on a
   * resumed attempt as on the first one from no file, every byte written stays on disk.
   */
  lemma InterruptKeepsPartialFile(fileSize: nat, retryInterval: nat, disk: Disk, attempt: Attempt,
                                  log: seq<Step>, attempts: nat, script: seq<Attempt>)
    requires fileSize > 0 && (disk.Some? ==> |disk.value| < fileSize)
    requires FailureOf(attempt) == Some(Interrupt)
    requires script != [] && script[0] == attempt
    ensures var offset := if disk.None? then 0 else |disk.value|;
            var kept := if disk.None? then [] else disk.value;
            Loop(fileSize, retryInterval, disk, log, attempts, script)
            == Run(Interrupted, if attempt.Refused? then disk else Some(kept + Concat(attempt.chunks)),
                   log + [Requested(attempts + 1, offset, ModeFor(offset))], attempts + 1)
  {
    var offset := if disk.None? then 0 else |disk.value|;
    var kept := if disk.None? then [] else disk.value;
    LoopRequests(fileSize, retryInterval, disk, log, attempts, script, disk, offset, false);
    assert Opened(disk, ModeFor(offset)) == kept;
    var request := Requested(attempts + 1, offset, ModeFor(offset));
    assert log + [request] + [] == log + [request];
  }

  /** The loop reports an interruption only when some attempt met KeyboardInterrupt. */
  lemma {:induction false} InterruptedOnlyByKeyboardInterrupt(fileSize: int, retryInterval: nat, disk: Disk,
                                                              log: seq<Step>, attempts: nat, script: seq<Attempt>)
    ensures Loop(fileSize, retryInterval, disk, log, attempts, script).outcome == Interrupted ==>
              exists k :: 0 <= k < |script| && FailureOf(script[k]) == Some(Interrupt)
    decreases |script|
  {
    match CheckExisting(disk, fileSize)
    case Intact =>
    case Start(start, resumePos, removed) =>
      if resumePos < fileSize && script != [] {
        LoopRequests(fileSize, retryInterval, disk, log, attempts, script, start, resumePos, removed);
        var a := RunAttempt(start, resumePos, fileSize, script[0]);
        if a.end == Unverified || a.end == Failed {
          var logged := (if removed then log + [Removed] else log)
                        + [Requested(attempts + 1, resumePos, ModeFor(resumePos))]
                        + (if a.end == Failed then [Slept(retryInterval)] else []);
          InterruptedOnlyByKeyboardInterrupt(fileSize, retryInterval, a.disk, logged, attempts + 1, script[1..]);
          if Loop(fileSize, retryInterval, a.disk, logged, attempts + 1, script[1..]).outcome == Interrupted {
            var k :| 0 <= k < |script[1..]| && FailureOf(script[1..][k]) == Some(Interrupt);
            assert FailureOf(script[k + 1]) == Some(Interrupt);
          }
        }
      }
  }

  /** A server that, asked for `bytes=<resumePos>-`, sends part of the content from there on. */
  ghost predicate Serves(attempt: Attempt, content: seq<byte>, resumePos: nat)
  {
    attempt.Streamed? ==>
      var sent := Concat(attempt.chunks);
      resumePos + |sent| <= |content| && sent == content[resumePos..resumePos + |sent|]
  }

  /** Every attempt the loop issues, from the offset it issues it at, is served honestly. */
  ghost predicate HonestScript(content: seq<byte>, disk: Disk, script: seq<Attempt>)
    decreases |script|
  {
    match CheckExisting(disk, |content|)
    case Intact => true
    case Start(start, resumePos, _) =>
      script == [] ||
      (Serves(script[0], content, resumePos) &&
       var a := RunAttempt(start, resumePos, |content|, script[0]);
       (a.end == Unverified || a.end == Failed) ==> HonestScript(content, a.disk, script[1..]))
  }

  /**
   * One honestly served attempt from a prefix of the content leaves a prefix at least as
   * long, with the old bytes at its head.
   */
  lemma HonestAttemptKeepsPrefix(content: seq<byte>, disk: Disk, attempt: Attempt)
    requires |content| > 0 && PrefixOf(disk, content)
    requires CheckExisting(disk, |content|).Start?
    requires Serves(attempt, content, CheckExisting(disk, |content|).resumePos)
    ensures var c := CheckExisting(disk, |content|);
            var r := RunAttempt(c.disk, c.resumePos, |content|, attempt).disk;
            PrefixOf(r, content) && (disk.Some? ==> r.Some? && disk.value <= r.value)
  {
    var c := CheckExisting(disk, |content|);
    if attempt.Streamed? {
      var sent := Concat(attempt.chunks);
      var kept := Opened(c.disk, ModeFor(c.resumePos));
      assert kept == content[..c.resumePos];
      assert kept + sent == content[..c.resumePos + |sent|];
    }
  }

  /**
   * Against an honest server, the file on disk is always a prefix of the remote content,
   * and a reported success means it is exactly that content.
   */
  lemma {:induction false} HonestServerDeliversContent(content: seq<byte>, retryInterval: nat, disk: Disk,
                                                       log: seq<Step>, attempts: nat, script: seq<Attempt>)
    requires |content| > 0 && PrefixOf(disk, content) && HonestScript(content, disk, script)
    ensures var r := Loop(|content|, retryInterval, disk, log, attempts, script);
            PrefixOf(r.disk, content) && (r.outcome == Succeeded ==> r.disk == Some(content))
    decreases |script|
  {
    var size := |content|;
    match CheckExisting(disk, size)
    case Intact =>
      assert content[..size] == content;
    case Start(start, resumePos, removed) =>
      if script != [] {
        LoopRequests(size, retryInterval, disk, log, attempts, script, start, resumePos, removed);
        HonestAttemptKeepsPrefix(content, disk, script[0]);
        var a := RunAttempt(start, resumePos, size, script[0]);
        if a.end == Verified {
          assert content[..size] == content;
        } else if a.end == Unverified || a.end == Failed {
          var logged := (if removed then log + [Removed] else log)
                        + [Requested(attempts + 1, resumePos, ModeFor(resumePos))]
                        + (if a.end == Failed then [Slept(retryInterval)] else []);
          HonestServerDeliversContent(content, retryInterval, a.disk, logged, attempts + 1, script[1..]);
        }
      }
  }

  /**
   * Once an attempt streams the whole rest of the content from the offset it was asked
   * for, the routine succeeds with exactly the content on disk.
   */
  lemma CompletingAttemptFinishes(content: seq<byte>, retryInterval: nat, disk: Disk, chunks: seq<Chunk>,
                                  log: seq<Step>, attempts: nat, script: seq<Attempt>)
    requires |content| > 0 && PrefixOf(disk, content) && CheckExisting(disk, |content|).Start?
    requires script != [] && script[0] == Streamed(chunks, Complete)
    requires Concat(chunks) == content[CheckExisting(disk, |content|).resumePos..]
    ensures var r := Loop(|content|, retryInterval, disk, log, attempts, script);
            r.outcome == Succeeded && r.disk == Some(content)
  {
    var c := CheckExisting(disk, |content|);
    LoopRequests(|content|, retryInterval, disk, log, attempts, script, c.disk, c.resumePos, c.removed);
    assert Opened(c.disk, ModeFor(c.resumePos)) == content[..c.resumePos];
    assert content[..c.resumePos] + content[c.resumePos..] == content;
  }

  /** The number of bytes the streamed attempts of a script deliver, in total. */
  ghost function StreamedBytes(script: seq<Attempt>): nat
    decreases |script|
  {
    if script == [] then 0
    else (if script[0].Streamed? then |Concat(script[0].chunks)| else 0) + StreamedBytes(script[1..])
  }

  /**
   * Against an honest server, attempts that are never interrupted and together stream at
   * least the rest of the content from where the file ends finish the download: the routine
   * succeeds with exactly the content on disk.
   */
  lemma {:induction false} HonestCoveringScriptCompletes(content: seq<byte>, retryInterval: nat, disk: Disk,
                                                         log: seq<Step>, attempts: nat, script: seq<Attempt>)
    requires |content| > 0 && PrefixOf(disk, content) && HonestScript(content, disk, script)
    requires forall k :: 0 <= k < |script| ==> FailureOf(script[k]) != Some(Interrupt)
    requires CheckExisting(disk, |content|).Start? ==>
               |content| - CheckExisting(disk, |content|).resumePos <= StreamedBytes(script)
    ensures var r := Loop(|content|, retryInterval, disk, log, attempts, script);
            r.outcome == Succeeded && r.disk == Some(content)
    decreases |script|
  {
    var size := |content|;
    HonestServerDeliversContent(content, retryInterval, disk, log, attempts, script);
    match CheckExisting(disk, size)
    case Intact =>
    case Start(start, resumePos, removed) =>
      assert script != [];
      LoopRequests(size, retryInterval, disk, log, attempts, script, start, resumePos, removed);
      HonestAttemptKeepsPrefix(content, disk, script[0]);
      var a := RunAttempt(start, resumePos, size, script[0]);
      assert FailureOf(script[0]) != Some(Interrupt);
      if a.end == Unverified || a.end == Failed {
        var logged := (if removed then log + [Removed] else log)
                      + [Requested(attempts + 1, resumePos, ModeFor(resumePos))]
                      + (if a.end == Failed then [Slept(retryInterval)] else []);
        var sent := if script[0].Streamed? then |Concat(script[0].chunks)| else 0;
        assert StreamedBytes(script) == sent + StreamedBytes(script[1..]);
        assert a.resumePos == resumePos + sent;
        var c := CheckExisting(a.disk, size);
        if c.Start? {
          assert !c.removed && c.resumePos == a.resumePos;
        }
        forall k | 0 <= k < |script[1..]|
          ensures FailureOf(script[1..][k]) != Some(Interrupt)
        {
          assert script[1..][k] == script[k + 1];
        }
        HonestCoveringScriptCompletes(content, retryInterval, a.disk, logged, attempts + 1, script[1..]);
      }
  }

  /**
   * A connection that drops after the first `cut` bytes, followed by an attempt that
   * completes: the second request resumes at `cut` in append mode and the file ends up
   * exactly the declared content.
   */
  lemma DropThenResumeCompletes(content: seq<byte>, cut: nat, retryInterval: nat,
                                first: seq<Chunk>, second: seq<Chunk>)
    requires 0 < cut < |content|
    requires Concat(first) == content[..cut] && Concat(second) == content[cut..]
    ensures Download(Headers(Some(|content|)), retryInterval, None,
                     [Streamed(first, Raised(RequestError)), Streamed(second, Complete)])
            == Run(Succeeded, Some(content),
                   [Requested(1, 0, Truncate), Slept(retryInterval), Requested(2, cut, Append)], 2)
  {
    var script := [Streamed(first, Raised(RequestError)), Streamed(second, Complete)];
    var size := |content|;
    assert DeclaredSize(Headers(Some(size))) == Some(size);
    LoopRequests(size, retryInterval, None, [], 0, script, None, 0, false);
    var a := RunAttempt(None, 0, size, script[0]);
    assert Opened(None, ModeFor(0)) + Concat(first) == content[..cut];
    assert a.disk == Some(content[..cut]) && a.end == Failed;
    var logged := [Requested(1, 0, Truncate), Slept(retryInterval)];
    assert [] + [Requested(1, 0, Truncate)] + [Slept(retryInterval)] == logged;
    assert script[1..] == [Streamed(second, Complete)];
    LoopRequests(size, retryInterval, Some(content[..cut]), logged, 1, script[1..], Some(content[..cut]), cut, false);
    var b := RunAttempt(Some(content[..cut]), cut, size, script[1]);
    assert content[..cut] + content[cut..] == content;
    assert b.disk == Some(content) && b.end == Verified;
    assert logged + [Requested(2, cut, Append)] + [] == [Requested(1, 0, Truncate), Slept(retryInterval), Requested(2, cut, Append)];
  }

  /**
   * KeyboardInterrupt after `cut` bytes returns with exactly those bytes on disk; running
   * the routine again resumes the first request at `cut`, appending.
   */
  lemma InterruptThenRerunResumes(content: seq<byte>, cut: nat, retryInterval: nat,
                                  first: seq<Chunk>, later: seq<Attempt>)
    requires 0 < cut < |content| && Concat(first) == content[..cut] && later != []
    ensures Download(Headers(Some(|content|)), retryInterval, None, [Streamed(first, Raised(Interrupt))])
            == Run(Interrupted, Some(content[..cut]), [Requested(1, 0, Truncate)], 1)
    ensures Download(Headers(Some(|content|)), retryInterval, Some(content[..cut]), later).log[0]
            == Requested(1, cut, Append)
  {
    var size := |content|;
    assert DeclaredSize(Headers(Some(size))) == Some(size);
    LoopRequests(size, retryInterval, None, [], 0, [Streamed(first, Raised(Interrupt))], None, 0, false);
    var a := RunAttempt(None, 0, size, Streamed(first, Raised(Interrupt)));
    assert Opened(None, ModeFor(0)) + Concat(first) == content[..cut];
    assert a.disk == Some(content[..cut]) && a.end == Cancelled;
    assert [] + [Requested(1, 0, Truncate)] + [] == [Requested(1, 0, Truncate)];
    PartialFileResumesAtItsLength(size, retryInterval, Some(content[..cut]), [], 0, later);
  }
}
