/**
 * `download_file`: resume setup, the bounded retry loop with its outcome
 * classification, and the chunked writes into the destination file.
 *
 * The network is a script: the i-th `session.get` of a run yields `net[i]`.
 * The destination file is `Some(bytes)` when it exists on disk and `None`
 * when it does not. Sleeps are recorded, not taken.
 */
module Download {
  import opened Wrappers
  import opened Text
  import ChunkSize

  type Bytes = seq<bv8>
  type Headers = map<string, string>

  /** `max_retries`. */
  const MaxRetries: nat := 3

  /** What one `session.get(url, stream=True, ...)` produces. */
  datatype Outcome =
      /**
       * A response with its status and `content-length` header; for 200/206 the
       * body arrives as `chunks` from `iter_content`, and when `broken` is set
       * the body raises a `RequestException` after the last of them.
       */
    | Response(status: int, contentLength: Option<int>, chunks: seq<Bytes>, broken: bool)
      /** `requests.exceptions.Timeout` raised by `session.get`. */
    | Timeout
      /** Any other `requests.exceptions.RequestException` raised by `session.get`. */
    | NetworkError

  /** The outcome of the i-th request; a script that has run out stands for a connection that cannot be made. */
  function OutcomeAt(net: seq<Outcome>, i: nat): Outcome {
    if i < |net| then net[i] else NetworkError
  }

  /** The bytes of a sequence of body chunks, in order. */
  function Concat(chunks: seq<Bytes>): Bytes {
    if chunks == [] then [] else Concat(chunks[..|chunks| - 1]) + chunks[|chunks| - 1]
  }

  /** `2 ** n`. */
  function Pow2(n: nat): nat {
    if n == 0 then 1 else 2 * Pow2(n - 1)
  }

  /** The fixed request headers every attempt sends. */
  function BaseHeaders(): Headers {
    map["Accept-Encoding" := "gzip, deflate",
        "User-Agent" := "Mozilla/5.0 (Windows NT 10.0; Win64; x64) AppleWebKit/537.36"]
  }

  /** `f"bytes={offset}-"`. */
  function RangeHeader(offset: nat): string {
    "bytes=" + Decimal(offset) + "-"
  }

  /** The offset a `bytes=<n>-` header asks for, if the header has that form. */
  function ParseRange(h: string): Option<nat> {
    if |h| >= 8 && StartsWith(h, "bytes=") && h[|h| - 1] == '-' && AllDigits(h[6..|h| - 1])
    then Some(DigitsValue(h[6..|h| - 1]))
    else None
  }

  /** A `Range` header asks for exactly the offset it was built from. */
  lemma RangeRoundTrip(offset: nat)
    ensures ParseRange(RangeHeader(offset)) == Some(offset)
  {
    var h := RangeHeader(offset);
    assert h[6..|h| - 1] == Decimal(offset);
    DecimalRoundTrip(offset);
  }

  /** `'wb'` or `'ab'`. */
  datatype Mode = Truncate | Append

  /** What `download_file` decides before its retry loop: resume offset, request headers, file mode. */
  datatype Setup = Setup(offset: nat, headers: Headers, mode: Mode)

  /**
   * Resume setup: an existing destination file is resumed from its size with a
   * `Range` header and appended to; otherwise the download starts at 0 with no
   * `Range` header and the file is created or truncated.
   */
  function ResumeSetup(existing: Option<Bytes>): (s: Setup)
    ensures s.offset == |existing.GetOr([])|
    ensures s.mode == Append <==> existing.Some?
    ensures "Range" in s.headers <==> existing.Some?
    ensures "Range" in s.headers ==> ParseRange(s.headers["Range"]) == Some(s.offset)
    ensures s.headers - {"Range"} == BaseHeaders()
  {
    match existing
    case None => Setup(0, BaseHeaders(), Truncate)
    case Some(bytes) =>
      RangeRoundTrip(|bytes|);
      Setup(|bytes|, BaseHeaders()["Range" := RangeHeader(|bytes|)], Append)
  }

  /** The file's contents right after `open(filename, mode)`. */
  function Opened(file: Option<Bytes>, mode: Mode): Bytes {
    if mode == Truncate then [] else file.GetOr([])
  }

  /** How `download_file` ends; the source returns `None` on every path and tells them apart by its messages. */
  datatype Verdict = Pending | Complete | AccessDenied | NotFound | Exhausted | NoFilename

  /** One 200/206 response that was streamed: the progress bar's total, the chunk size used, and the bytes reported to the bar. */
  datatype Stream = Stream(total: int, chunkSize: int, progress: nat)

  /**
   * The observable state of a run: the destination file, `retry_count`, the
   * headers of every request sent, the sleeps requested, the responses
   * streamed, and how the run ended.
   */
  datatype Trace = Trace(file: Option<Bytes>, retries: nat, sent: seq<Headers>, sleeps: seq<nat>,
                         streams: seq<Stream>, verdict: Verdict)

  function Start(existing: Option<Bytes>): Trace {
    Trace(existing, 0, [], [], [], Pending)
  }

  /**
   * `AsWritten` is `download_file` as it stands. `Corrected` recomputes the
   * resume setup before every attempt and rewrites the file on a 200 answer
   * (see the findings in ResumeFindings).
   */
  datatype Policy = AsWritten | Corrected

  function SetupFor(policy: Policy, initial: Setup, file: Option<Bytes>): Setup {
    if policy == AsWritten then initial else ResumeSetup(file)
  }

  function ModeFor(policy: Policy, s: Setup, status: int): Mode {
    if policy == Corrected && status == 200 then Truncate else s.mode
  }

  /** A retryable failure: `retry_count += 1`, then sleep `2 ** retry_count` or give up. */
  function Backoff(t: Trace): (t': Trace)
    ensures t'.retries == t.retries + 1
    ensures t'.retries < MaxRetries ==> t'.verdict == t.verdict && t'.sleeps == t.sleeps + [Pow2(t'.retries)]
    ensures t'.retries >= MaxRetries ==> t'.verdict == Exhausted && t'.sleeps == t.sleeps
    ensures t'.file == t.file && t'.sent == t.sent && t'.streams == t.streams
  {
    var n := t.retries + 1;
    if n < MaxRetries then t.(retries := n, sleeps := t.sleeps + [Pow2(n)])
    else t.(retries := n, verdict := Exhausted)
  }

  /** One pass of the retry loop: send a request and classify its outcome. */
  function Step(policy: Policy, initial: Setup, chunkSize: int, net: seq<Outcome>, t: Trace): (t': Trace)
    requires t.verdict == Pending && t.retries < MaxRetries
    ensures t'.sent == t.sent + [SetupFor(policy, initial, t.file).headers]
    ensures t'.verdict == Pending ==> t'.retries == t.retries + 1 < MaxRetries && t'.sleeps == t.sleeps + [Pow2(t'.retries)]
    ensures t'.verdict in {Complete, AccessDenied, NotFound} ==> t'.retries == t.retries && t'.sleeps == t.sleeps
    ensures t'.verdict == Exhausted ==> t'.retries == t.retries + 1 == MaxRetries && t'.sleeps == t.sleeps
    ensures t'.verdict in {Pending, Complete, AccessDenied, NotFound, Exhausted}
    ensures var o := OutcomeAt(net, t.retries);
      && (t'.verdict == AccessDenied <==> o.Response? && o.status == 403)
      && (t'.verdict == NotFound <==> o.Response? && o.status == 404)
      && (t'.verdict == Complete <==> o.Response? && o.status in {200, 206} && !o.broken)
  {
    var s := SetupFor(policy, initial, t.file);
    var t1 := t.(sent := t.sent + [s.headers]);
    match OutcomeAt(net, t.retries)
    case Response(status, length, chunks, broken) =>
      if status == 200 || status == 206 then
        var total := length.GetOr(0) + s.offset;
        var streamed := Stream(total, ChunkSize.EffectiveChunkSize(chunkSize, total), |Concat(chunks)|);
        var t2 := t1.(file := Some(Opened(t.file, ModeFor(policy, s, status)) + Concat(chunks)),
                      streams := t.streams + [streamed]);
        if broken then Backoff(t2) else t2.(verdict := Complete)
      else if status == 403 then t1.(verdict := AccessDenied)
      else if status == 404 then t1.(verdict := NotFound)
      else Backoff(t1)
    case Timeout => Backoff(t1)
    case NetworkError => Backoff(t1)
  }

  /** `while retry_count < max_retries: ...` from a pending trace. */
  function Loop(policy: Policy, initial: Setup, chunkSize: int, net: seq<Outcome>, t: Trace): (t': Trace)
    requires t.verdict == Pending
    ensures t'.verdict in {Complete, AccessDenied, NotFound, Exhausted}
    ensures t'.verdict == Exhausted <==> t'.retries >= MaxRetries
    ensures t'.retries >= t.retries
    ensures t.retries <= MaxRetries ==> t'.retries <= MaxRetries
    ensures |t'.sent| >= |t.sent| && t'.sent[..|t.sent|] == t.sent
    decreases MaxRetries - t.retries
  {
    if t.retries >= MaxRetries then t.(verdict := Exhausted)
    else
      var t' := Step(policy, initial, chunkSize, net, t);
      if t'.verdict == Pending then Loop(policy, initial, chunkSize, net, t') else t'
  }

  /** A whole call of `download_file(url, cookies, filename, chunk_size, verbose)`. */
  function Run(policy: Policy, existing: Option<Bytes>, filename: string, chunkSize: int, net: seq<Outcome>): (t: Trace)
    ensures t.verdict != Pending
    ensures t.verdict == NoFilename <==> filename == ""
    ensures t.verdict == Exhausted <==> t.retries == MaxRetries
  {
    if filename == "" then Start(existing).(verdict := NoFilename)
    else Loop(policy, ResumeSetup(existing), chunkSize, net, Start(existing))
  }

  /** The downloader's mutable state during one `download_file` call. */
  class Downloader {
    /** The destination file on disk, `None` while it does not exist. */
    var file: Option<Bytes>
    var retryCount: nat
    /** The headers of each request sent so far. */
    var sent: seq<Headers>
    /** The durations passed to `time.sleep`, in order. */
    ghost var sleeps: seq<nat>
    /** One entry per 200/206 response streamed. */
    var streams: seq<Stream>
    var verdict: Verdict

    ghost function Snapshot(): Trace
      reads this
    {
      Trace(file, retryCount, sent, sleeps, streams, verdict)
    }

    constructor (existing: Option<Bytes>)
      ensures Snapshot() == Start(existing)
    {
      file := existing;
      retryCount := 0;
      sent := [];
      sleeps := [];
      streams := [];
      verdict := Pending;
    }

    /**
     * `with open(filename, mode) as file:` and the loop over `iter_content`:
     * every non-empty chunk is written and reported to the progress bar.
     */
    method WriteBody(mode: Mode, chunks: seq<Bytes>) returns (progress: nat)
      modifies this`file
      ensures file == Some(Opened(old(file), mode) + Concat(chunks))
      ensures progress == |Concat(chunks)|
    {
      file := Some(Opened(file, mode));
      progress := 0;
      var j := 0;
      assert chunks[..0] == [];
      assert Opened(old(file), mode) + [] == Opened(old(file), mode);
      while j < |chunks|
        invariant 0 <= j <= |chunks|
        invariant file == Some(Opened(old(file), mode) + Concat(chunks[..j]))
        invariant progress == |Concat(chunks[..j])|
      {
        assert chunks[..j + 1][..j] == chunks[..j];
        assert Concat(chunks[..j + 1]) == Concat(chunks[..j]) + chunks[j];
        assert Opened(old(file), mode) + Concat(chunks[..j + 1])
            == Opened(old(file), mode) + Concat(chunks[..j]) + chunks[j];
        if chunks[j] != [] {
          file := Some(file.value + chunks[j]);
          progress := progress + |chunks[j]|;
        } else {
          assert Concat(chunks[..j]) + chunks[j] == Concat(chunks[..j]);
        }
        j := j + 1;
      }
      assert chunks[..|chunks|] == chunks;
    }

    /**
     * One pass of the retry loop's body: `session.get`, then stream and stop on
     * 200/206, stop on 403 and 404, and back off on anything else.
     */
    method Attempt(headers: Headers, downloadedSize: nat, fileMode: Mode, chunkSize: int, net: seq<Outcome>,
                   ghost setup: Setup)
      requires verdict == Pending && retryCount < MaxRetries
      requires setup == Setup(downloadedSize, headers, fileMode)
      modifies this
      ensures Snapshot() == Step(AsWritten, setup, chunkSize, net, old(Snapshot()))
    {
      var outcome := OutcomeAt(net, retryCount);
      sent := sent + [headers];
      if outcome.Response? && (outcome.status == 200 || outcome.status == 206) {
        var total := outcome.contentLength.GetOr(0) + downloadedSize;
        var size := ChunkSize.EffectiveChunkSize(chunkSize, total);
        var progress := WriteBody(fileMode, outcome.chunks);
        streams := streams + [Stream(total, size, progress)];
        if !outcome.broken {
          verdict := Complete;
          return;
        }
      } else if outcome.Response? && outcome.status == 403 {
        verdict := AccessDenied;
        return;
      } else if outcome.Response? && outcome.status == 404 {
        verdict := NotFound;
        return;
      }
      retryCount := retryCount + 1;
      if retryCount < MaxRetries {
        sleeps := sleeps + [Pow2(retryCount)];
      } else {
        verdict := Exhausted;
      }
    }

    /** `download_file` on this state, with `net` as the network. */
    method Download(filename: string, chunkSize: int, net: seq<Outcome>)
      requires Snapshot() == Start(file)
      modifies this
      ensures Snapshot() == Run(AsWritten, old(file), filename, chunkSize, net)
    {
      if filename == "" {
        verdict := NoFilename;
        return;
      }
      var headers := BaseHeaders();
      var fileMode := Truncate;
      var downloadedSize := 0;
      if file.Some? {
        downloadedSize := |file.value|;
        headers := headers["Range" := RangeHeader(downloadedSize)];
        fileMode := Append;
      }
      ghost var setup := ResumeSetup(old(file));
      assert setup == Setup(downloadedSize, headers, fileMode);

      while retryCount < MaxRetries
        invariant verdict == Pending
        invariant Loop(AsWritten, setup, chunkSize, net, Snapshot()) == Run(AsWritten, old(file), filename, chunkSize, net)
        decreases MaxRetries - retryCount
      {
        Attempt(headers, downloadedSize, fileMode, chunkSize, net, setup);
        if verdict != Pending {
          return;
        }
      }
      verdict := Exhausted;
    }
  }
}
