/**
 * What `download_file` guarantees, and where it falls short, stated about the
 * run it performs (`Download.Run`).
 */
module DownloadProperties {
  import opened Wrappers
  import opened Download
  import ChunkSize

  /** The sleeps `download_file` requests before its second and third attempt. */
  const Waits: seq<nat> := [2, 4]

  /** An outcome that `download_file` retries before anything is written: a timeout, a network error, or a status other than 200, 206, 403 and 404. */
  predicate FailsBeforeStreaming(o: Outcome) {
    match o
    case Response(status, _, _, _) => status !in {200, 206, 403, 404}
    case _ => true
  }

  predicate IsPrefix(a: Bytes, b: Bytes) {
    |a| <= |b| && b[..|a|] == a
  }

  // ---------------------------------------------------------------------------
  // Retry accounting

  lemma {:induction false} LoopAccounting(policy: Policy, initial: Setup, chunkSize: int, net: seq<Outcome>, t: Trace)
    requires t.verdict == Pending && t.retries < MaxRetries
    requires |t.sent| == t.retries && t.sleeps == Waits[..t.retries]
    ensures var f := Loop(policy, initial, chunkSize, net, t);
      && f.verdict in {Complete, AccessDenied, NotFound, Exhausted}
      && t.retries <= f.retries <= MaxRetries
      && (f.verdict == Exhausted <==> f.retries == MaxRetries)
      && (f.verdict == Exhausted ==> |f.sent| == MaxRetries && f.sleeps == Waits)
      && (f.verdict != Exhausted ==> |f.sent| == f.retries + 1 && f.sleeps == Waits[..f.retries])
    decreases MaxRetries - t.retries
  {
    var t' := Step(policy, initial, chunkSize, net, t);
    if t'.verdict == Pending {
      assert Pow2(t'.retries) == Waits[t.retries];
      assert Waits[..t'.retries] == Waits[..t.retries] + [Waits[t.retries]];
      LoopAccounting(policy, initial, chunkSize, net, t');
    }
  }

  /**
   * Every download ends complete, denied, not found or exhausted, after at
   * most three requests. Only retryable failures count: an exhausted run made
   * three requests and slept 2 then 4; any other run made one more request
   * than it counted retries and slept 2, 4 for them in order.
   */
  lemma RetryAccounting(policy: Policy, existing: Option<Bytes>, filename: string, chunkSize: int, net: seq<Outcome>)
    requires filename != ""
    ensures var f := Run(policy, existing, filename, chunkSize, net);
      && f.verdict in {Complete, AccessDenied, NotFound, Exhausted}
      && 1 <= |f.sent| <= MaxRetries
      && (f.verdict == Exhausted <==> f.retries == MaxRetries)
      && (f.verdict == Exhausted ==> |f.sent| == MaxRetries && f.sleeps == Waits)
      && (f.verdict != Exhausted ==> |f.sent| == f.retries + 1 && f.sleeps == Waits[..f.retries])
  {
    LoopAccounting(policy, ResumeSetup(existing), chunkSize, net, Start(existing));
  }

  /** Without a filename nothing is requested and nothing is written. */
  lemma NoFilenameNoRequest(policy: Policy, existing: Option<Bytes>, chunkSize: int, net: seq<Outcome>)
    ensures var f := Run(policy, existing, "", chunkSize, net);
      f.verdict == NoFilename && f.sent == [] && f.sleeps == [] && f.file == existing
  {
  }

  /** A 403 or 404 on the first request ends the download at once: one request, no retry, no sleep, file untouched. */
  lemma TerminalShortCircuit(existing: Option<Bytes>, filename: string, chunkSize: int, net: seq<Outcome>)
    requires filename != ""
    requires OutcomeAt(net, 0).Response? && OutcomeAt(net, 0).status in {403, 404}
    ensures var f := Run(AsWritten, existing, filename, chunkSize, net);
      && f.verdict == (if OutcomeAt(net, 0).status == 403 then AccessDenied else NotFound)
      && |f.sent| == 1 && f.retries == 0 && f.sleeps == [] && f.file == existing
  {
  }

  /** Three failures before streaming exhaust the download: three requests, sleeps 2 and 4, file untouched. */
  lemma {:induction false} AlwaysFailingExhausts(existing: Option<Bytes>, filename: string, chunkSize: int, net: seq<Outcome>)
    requires filename != ""
    requires forall i :: 0 <= i < MaxRetries ==> FailsBeforeStreaming(OutcomeAt(net, i))
    ensures var f := Run(AsWritten, existing, filename, chunkSize, net);
      f.verdict == Exhausted && |f.sent| == 3 && f.sleeps == [2, 4] && f.file == existing && f.streams == []
  {
    var s := ResumeSetup(existing);
    var t0 := Start(existing);
    assert FailsBeforeStreaming(OutcomeAt(net, 0)) && FailsBeforeStreaming(OutcomeAt(net, 1));
    assert FailsBeforeStreaming(OutcomeAt(net, 2));
    var t1 := Step(AsWritten, s, chunkSize, net, t0);
    assert t1.file == existing && t1.streams == [] && t1.verdict == Pending;
    var t2 := Step(AsWritten, s, chunkSize, net, t1);
    assert t2.file == existing && t2.streams == [] && t2.verdict == Pending;
    var t3 := Step(AsWritten, s, chunkSize, net, t2);
    assert t3.file == existing && t3.streams == [] && t3.verdict == Exhausted;
    assert Loop(AsWritten, s, chunkSize, net, t2) == t3;
    assert Loop(AsWritten, s, chunkSize, net, t1) == t3;
    assert Run(AsWritten, existing, filename, chunkSize, net) == Loop(AsWritten, s, chunkSize, net, t0) == t3;
  }

  /** Every request in `sent` carried the headers `h`. */
  predicate AllSent(sent: seq<Headers>, h: Headers) {
    forall i :: 0 <= i < |sent| ==> sent[i] == h
  }

  /** Every request of a run sends the headers computed before the loop: `Range` is never moved forward. */
  lemma {:induction false} LoopSendsSameHeaders(initial: Setup, chunkSize: int, net: seq<Outcome>, t: Trace)
    requires t.verdict == Pending && AllSent(t.sent, initial.headers)
    ensures AllSent(Loop(AsWritten, initial, chunkSize, net, t).sent, initial.headers)
    decreases MaxRetries - t.retries
  {
    if t.retries < MaxRetries {
      var t' := Step(AsWritten, initial, chunkSize, net, t);
      assert AllSent(t'.sent, initial.headers);
      if t'.verdict == Pending {
        LoopSendsSameHeaders(initial, chunkSize, net, t');
      }
    }
  }

  lemma SameHeadersEveryAttempt(existing: Option<Bytes>, filename: string, chunkSize: int, net: seq<Outcome>)
    requires filename != ""
    ensures AllSent(Run(AsWritten, existing, filename, chunkSize, net).sent, ResumeSetup(existing).headers)
  {
    LoopSendsSameHeaders(ResumeSetup(existing), chunkSize, net, Start(existing));
  }

  // ---------------------------------------------------------------------------
  // What ends up in the destination file

  /** The body of a 200/206 response, which `download_file` writes; nothing for any other outcome. */
  function BodyOf(o: Outcome): Option<Bytes> {
    match o
    case Response(status, _, chunks, _) => if status == 200 || status == 206 then Some(Concat(chunks)) else None
    case _ => None
  }

  /** The bodies of the 200/206 responses among the first `n` requests, one after the other. */
  function Received(net: seq<Outcome>, n: nat): Bytes {
    if n == 0 then [] else Received(net, n - 1) + BodyOf(OutcomeAt(net, n - 1)).GetOr([])
  }

  /** The body of the last 200/206 response among the first `n` requests. */
  function LastBody(net: seq<Outcome>, n: nat): Option<Bytes> {
    if n == 0 then None
    else if BodyOf(OutcomeAt(net, n - 1)).Some? then BodyOf(OutcomeAt(net, n - 1))
    else LastBody(net, n - 1)
  }

  lemma StepFile(initial: Setup, chunkSize: int, net: seq<Outcome>, t: Trace)
    requires t.verdict == Pending && t.retries < MaxRetries
    ensures var t' := Step(AsWritten, initial, chunkSize, net, t);
      t'.file == match BodyOf(OutcomeAt(net, t.retries))
                 case None => t.file
                 case Some(body) => Some(Opened(t.file, initial.mode) + body)
  {
  }

  /** Proof step for `StepAppends` and `CompletedRunFile`: one more request adds its body to what was received. */
  lemma ReceivedSnoc(prior: Bytes, net: seq<Outcome>, n: nat)
    ensures prior + Received(net, n + 1) == prior + Received(net, n) + BodyOf(OutcomeAt(net, n)).GetOr([])
  {
    assert Received(net, n + 1) == Received(net, n) + BodyOf(OutcomeAt(net, n)).GetOr([]);
  }

  lemma StepAppends(initial: Setup, chunkSize: int, net: seq<Outcome>, t: Trace, prior: Bytes)
    requires initial.mode == Append && t.verdict == Pending && |t.sent| == t.retries < MaxRetries
    requires t.file == Some(prior + Received(net, |t.sent|))
    ensures var t' := Step(AsWritten, initial, chunkSize, net, t);
      t'.file == Some(prior + Received(net, |t'.sent|))
  {
    StepFile(initial, chunkSize, net, t);
    ReceivedSnoc(prior, net, |t.sent|);
    if BodyOf(OutcomeAt(net, |t.sent|)).None? {
      assert prior + Received(net, |t.sent|) + [] == prior + Received(net, |t.sent|);
    }
  }

  /** In append mode every body received is appended, retries included. */
  lemma {:induction false} LoopAppends(initial: Setup, chunkSize: int, net: seq<Outcome>, t: Trace, prior: Bytes)
    requires initial.mode == Append && t.verdict == Pending && |t.sent| == t.retries
    requires t.file == Some(prior + Received(net, |t.sent|))
    ensures var f := Loop(AsWritten, initial, chunkSize, net, t);
      f.file == Some(prior + Received(net, |f.sent|))
    decreases MaxRetries - t.retries
  {
    if t.retries < MaxRetries {
      var t' := Step(AsWritten, initial, chunkSize, net, t);
      StepAppends(initial, chunkSize, net, t, prior);
      if t'.verdict == Pending {
        LoopAppends(initial, chunkSize, net, t', prior);
      }
    }
  }

  /** In truncate mode the file holds the last body received, or does not exist if none was. */
  lemma {:induction false} LoopTruncates(initial: Setup, chunkSize: int, net: seq<Outcome>, t: Trace)
    requires initial.mode == Truncate && t.verdict == Pending && |t.sent| == t.retries
    requires t.file == LastBody(net, |t.sent|)
    ensures var f := Loop(AsWritten, initial, chunkSize, net, t);
      f.file == LastBody(net, |f.sent|)
    decreases MaxRetries - t.retries
  {
    if t.retries < MaxRetries {
      var t' := Step(AsWritten, initial, chunkSize, net, t);
      StepFile(initial, chunkSize, net, t);
      var body := BodyOf(OutcomeAt(net, |t.sent|));
      if body.Some? {
        assert [] + body.value == body.value;
      }
      assert t'.file == LastBody(net, |t'.sent|);
      if t'.verdict == Pending {
        LoopTruncates(initial, chunkSize, net, t');
      }
    }
  }

  /** An attempt completes only on an unbroken 200/206 response, and records its stream last. */
  lemma StepCompletes(initial: Setup, chunkSize: int, net: seq<Outcome>, t: Trace)
    requires t.verdict == Pending && |t.sent| == t.retries < MaxRetries
    requires Step(AsWritten, initial, chunkSize, net, t).verdict == Complete
    ensures var t' := Step(AsWritten, initial, chunkSize, net, t);
      var last := OutcomeAt(net, |t.sent|);
      && |t'.sent| == |t.sent| + 1
      && last.Response? && last.status in {200, 206} && !last.broken
      && var total := last.contentLength.GetOr(0) + initial.offset;
         t'.streams == t.streams + [Stream(total, ChunkSize.EffectiveChunkSize(chunkSize, total), |Concat(last.chunks)|)]
  {
  }

  /** A completed loop ended with one attempt, taken from a pending state, that completed. */
  lemma {:induction false} LoopCompletes(initial: Setup, chunkSize: int, net: seq<Outcome>, t: Trace) returns (last: Trace)
    requires t.verdict == Pending && |t.sent| == t.retries
    requires Loop(AsWritten, initial, chunkSize, net, t).verdict == Complete
    ensures last.verdict == Pending && |last.sent| == last.retries < MaxRetries
    ensures Step(AsWritten, initial, chunkSize, net, last) == Loop(AsWritten, initial, chunkSize, net, t)
    decreases MaxRetries - t.retries
  {
    var t' := Step(AsWritten, initial, chunkSize, net, t);
    if t'.verdict == Pending {
      last := LoopCompletes(initial, chunkSize, net, t');
    } else {
      last := t;
    }
  }

  /**
   * The destination file after a run: when resuming, the prior bytes followed
   * by every body received, in order (so a retried body is appended again);
   * otherwise the last body received.
   */
  lemma FinalFileContents(existing: Option<Bytes>, filename: string, chunkSize: int, net: seq<Outcome>)
    requires filename != ""
    ensures var f := Run(AsWritten, existing, filename, chunkSize, net);
      && (existing.Some? ==> f.file == Some(existing.value + Received(net, |f.sent|)))
      && (existing.None? ==> f.file == LastBody(net, |f.sent|))
  {
    var s := ResumeSetup(existing);
    assert Run(AsWritten, existing, filename, chunkSize, net) == Loop(AsWritten, s, chunkSize, net, Start(existing));
    if existing.Some? {
      assert existing.value + Received(net, 0) == existing.value;
      LoopAppends(s, chunkSize, net, Start(existing), existing.value);
    } else {
      LoopTruncates(s, chunkSize, net, Start(existing));
    }
  }

  /** A run that found a file never loses or rewrites what the file held: it only appends. */
  lemma AppendOnlyOnResume(prior: Bytes, filename: string, chunkSize: int, net: seq<Outcome>)
    requires filename != ""
    ensures var f := Run(AsWritten, Some(prior), filename, chunkSize, net);
      f.file.Some? && IsPrefix(prior, f.file.value)
  {
    FinalFileContents(Some(prior), filename, chunkSize, net);
  }

  /**
   * A completed run ended on an unbroken 200/206 response. Its last stream
   * reports the content length plus the resume offset as its total, and as
   * progress exactly the bytes its body wrote.
   */
  lemma CompletedRun(existing: Option<Bytes>, filename: string, chunkSize: int, net: seq<Outcome>)
    requires filename != ""
    requires Run(AsWritten, existing, filename, chunkSize, net).verdict == Complete
    ensures var f := Run(AsWritten, existing, filename, chunkSize, net);
      |f.sent| >= 1 && f.streams != [] && OutcomeAt(net, |f.sent| - 1).Response?
    ensures var f := Run(AsWritten, existing, filename, chunkSize, net);
      var last := OutcomeAt(net, |f.sent| - 1);
      var total := last.contentLength.GetOr(0) + |existing.GetOr([])|;
      && last.status in {200, 206} && !last.broken
      && f.streams[|f.streams| - 1] == Stream(total, ChunkSize.EffectiveChunkSize(chunkSize, total), |Concat(last.chunks)|)
  {
    var s := ResumeSetup(existing);
    assert Run(AsWritten, existing, filename, chunkSize, net) == Loop(AsWritten, s, chunkSize, net, Start(existing));
    var last := LoopCompletes(s, chunkSize, net, Start(existing));
    StepCompletes(s, chunkSize, net, last);
  }

  /** A completed run's file ends with the completing body: alone for a new file, after the prior bytes and earlier bodies when resuming. */
  lemma CompletedRunFile(existing: Option<Bytes>, filename: string, chunkSize: int, net: seq<Outcome>)
    requires filename != ""
    requires Run(AsWritten, existing, filename, chunkSize, net).verdict == Complete
    ensures var f := Run(AsWritten, existing, filename, chunkSize, net);
      |f.sent| >= 1 && OutcomeAt(net, |f.sent| - 1).Response?
    ensures var f := Run(AsWritten, existing, filename, chunkSize, net);
      var last := OutcomeAt(net, |f.sent| - 1);
      && (existing.None? ==> f.file == Some(Concat(last.chunks)))
      && (existing.Some? ==> f.file == Some(existing.value + Received(net, |f.sent| - 1) + Concat(last.chunks)))
  {
    var f := Run(AsWritten, existing, filename, chunkSize, net);
    CompletedRun(existing, filename, chunkSize, net);
    FinalFileContents(existing, filename, chunkSize, net);
    var last := OutcomeAt(net, |f.sent| - 1);
    assert BodyOf(last) == Some(Concat(last.chunks));
    if existing.Some? {
      ReceivedSnoc(existing.value, net, |f.sent| - 1);
    }
  }

  /**
   * One failure before streaming, then a full 200/206 response: two requests,
   * one sleep of 2, and the file holds the body (after the prior bytes when resuming).
   */
  lemma RecoverableTimeout(existing: Option<Bytes>, filename: string, chunkSize: int, net: seq<Outcome>)
    requires filename != "" && |net| >= 2
    requires FailsBeforeStreaming(net[0])
    requires net[1].Response? && net[1].status in {200, 206} && !net[1].broken
    ensures var f := Run(AsWritten, existing, filename, chunkSize, net);
      && f.verdict == Complete && |f.sent| == 2 && f.sleeps == [2]
      && f.file == Some(existing.GetOr([]) + Concat(net[1].chunks))
  {
    var s := ResumeSetup(existing);
    var t1 := Step(AsWritten, s, chunkSize, net, Start(existing));
    assert t1.verdict == Pending && t1.file == existing;
    var t2 := Step(AsWritten, s, chunkSize, net, t1);
    assert t2.verdict == Complete;
    assert Loop(AsWritten, s, chunkSize, net, t1) == t2;
  }

  /**
   * From a pending trace, answers that fail before streaming followed by an
   * unbroken 200/206 answer at index `j` complete the run, and the file is
   * the opened file followed by that answer's body.
   */
  lemma {:induction false} FailuresThenAnswer(initial: Setup, chunkSize: int, net: seq<Outcome>, t: Trace, j: nat)
    requires t.verdict == Pending && t.retries <= j < MaxRetries && j < |net|
    requires forall i :: t.retries <= i < j ==> FailsBeforeStreaming(net[i])
    requires net[j].Response? && net[j].status in {200, 206} && !net[j].broken
    ensures var f := Loop(AsWritten, initial, chunkSize, net, t);
      f.verdict == Complete && f.file == Some(Opened(t.file, initial.mode) + Concat(net[j].chunks))
    decreases j - t.retries
  {
    var t' := Step(AsWritten, initial, chunkSize, net, t);
    if t.retries < j {
      assert FailsBeforeStreaming(net[t.retries]);
      assert t'.verdict == Pending && t'.file == t.file;
      FailuresThenAnswer(initial, chunkSize, net, t', j);
    }
  }

  /**
   * Resuming in a fresh process is exact when the server serves the requested
   * range: with a prefix of the resource on disk, answers that fail before
   * streaming and then an unbroken 206 answer carrying the rest of the
   * resource, the run completes and the file equals the resource.
   */
  lemma ResumeInFreshProcess(resource: Bytes, prior: Bytes, filename: string, chunkSize: int, net: seq<Outcome>, j: nat)
    requires filename != "" && IsPrefix(prior, resource)
    requires j < MaxRetries && j < |net|
    requires forall i :: 0 <= i < j ==> FailsBeforeStreaming(net[i])
    requires net[j].Response? && net[j].status == 206 && !net[j].broken
    requires Concat(net[j].chunks) == resource[|prior|..]
    ensures var f := Run(AsWritten, Some(prior), filename, chunkSize, net);
      f.verdict == Complete && f.file == Some(resource)
  {
    FailuresThenAnswer(ResumeSetup(Some(prior)), chunkSize, net, Start(Some(prior)), j);
    assert prior + resource[|prior|..] == resource;
  }
}
