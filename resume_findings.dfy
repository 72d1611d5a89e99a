/**
 * Two ways `download_file` corrupts a resumed download although the server
 * answers every request correctly, and the corrected policy that does not.
 *
 * `download_file` computes the resume offset, the `Range` header and the file
 * mode once, before its retry loop. When resuming (mode `'ab'`), a body that
 * breaks mid-stream leaves its bytes on disk, and the retry asks for the same
 * range again and appends it after them. Separately, a server may answer a
 * ranged request with 200 and the whole resource; `download_file` accepts 200
 * and appends it after the partial file.
 */
module ResumeFindings {
  import opened Wrappers
  import opened Download
  import opened DownloadProperties
  import ChunkSize

  /**
   * The server serves `resource` as asked: a 200 body is the whole resource,
   * a 206 body is the resource from the requested offset; a broken body
   * delivers a prefix of that before failing.
   */
  predicate Serves(resource: Bytes, s: Setup, o: Outcome) {
    match o
    case Response(status, _, chunks, broken) =>
      && (status == 206 ==> s.offset <= |resource|)
      && ((status == 200 || status == 206) ==>
            var want := if status == 206 && s.offset <= |resource| then resource[s.offset..] else resource;
            if broken then IsPrefix(Concat(chunks), want) else Concat(chunks) == want)
    case _ => true
  }

  /** Every request the run sends from `t` on is answered by a server that serves `resource` as asked. */
  predicate HonestFrom(resource: Bytes, policy: Policy, initial: Setup, chunkSize: int, net: seq<Outcome>, t: Trace)
    decreases MaxRetries - t.retries
  {
    t.verdict == Pending && t.retries < MaxRetries ==>
      && Serves(resource, SetupFor(policy, initial, t.file), OutcomeAt(net, t.retries))
      && var t' := Step(policy, initial, chunkSize, net, t);
         (t'.verdict == Pending ==> HonestFrom(resource, policy, initial, chunkSize, net, t'))
  }

  predicate Honest(resource: Bytes, policy: Policy, existing: Option<Bytes>, chunkSize: int, net: seq<Outcome>) {
    HonestFrom(resource, policy, ResumeSetup(existing), chunkSize, net, Start(existing))
  }

  /** The script of the duplication example: a 206 body that breaks after one byte, then a full 206 body. */
  function BrokenThenFull(): seq<Outcome> {
    [Response(206, Some(2), [[20]], true), Response(206, Some(2), [[20, 30]], false)]
  }

  lemma BrokenThenFullRun(prior: Bytes)
    requires prior == [10]
    ensures var s := ResumeSetup(Some(prior));
      var t1 := Step(AsWritten, s, ChunkSize.DefaultChunkSize, BrokenThenFull(), Start(Some(prior)));
      && t1.verdict == Pending && t1.file == Some([10, 20])
      && var t2 := Step(AsWritten, s, ChunkSize.DefaultChunkSize, BrokenThenFull(), t1);
         t2.verdict == Complete && t2.file == Some([10, 20, 20, 30]) && |t2.sent| == 2 && t2.sleeps == [2]
  {
    var net := BrokenThenFull();
    var a: Bytes := [20];
    var b: Bytes := [20, 30];
    assert Concat([a]) == a by {
      assert [a][..0] == [];
    }
    assert Concat([b]) == b by {
      assert [b][..0] == [];
    }
    var s := ResumeSetup(Some(prior));
    assert s.mode == Append && s.offset == 1;
    assert OutcomeAt(net, 0) == Response(206, Some(2), [a], true);
    assert OutcomeAt(net, 1) == Response(206, Some(2), [b], false);
    var t1 := Step(AsWritten, s, ChunkSize.DefaultChunkSize, net, Start(Some(prior)));
    assert t1.file == Some(prior + a) && t1.verdict == Pending && t1.retries == 1;
    assert prior + a == [10, 20];
    assert t1.sleeps == [Pow2(1)] == [2];
    var t2 := Step(AsWritten, s, ChunkSize.DefaultChunkSize, net, t1);
    assert t2.file == Some(prior + a + b) && t2.verdict == Complete;
    assert prior + a + b == [10, 20, 20, 30];
  }

  /**
   * As written: resuming from 1 byte of a 3-byte resource, the first 206 body
   * breaks after 1 byte; the retry asks again from offset 1 and is served
   * correctly, and the file ends up 4 bytes long with the second byte twice.
   */
  lemma ResumeRetryDuplicatesBytes()
    ensures var resource: Bytes := [10, 20, 30];
      var prior: Bytes := [10];
      var f := Run(AsWritten, Some(prior), "video.mp4", ChunkSize.DefaultChunkSize, BrokenThenFull());
      && Honest(resource, AsWritten, Some(prior), ChunkSize.DefaultChunkSize, BrokenThenFull())
      && f.verdict == Complete && |f.sent| == 2 && f.sleeps == [2]
      && f.file == Some([10, 20, 20, 30]) && f.file != Some(resource)
  {
    var resource: Bytes := [10, 20, 30];
    var prior: Bytes := [10];
    var net := BrokenThenFull();
    var cs := ChunkSize.DefaultChunkSize;
    var s := ResumeSetup(Some(prior));
    BrokenThenFullRun(prior);
    var t0 := Start(Some(prior));
    var t1 := Step(AsWritten, s, cs, net, t0);
    var t2 := Step(AsWritten, s, cs, net, t1);
    assert Loop(AsWritten, s, cs, net, t1) == t2;
    assert resource[s.offset..] == [20, 30];
    assert Serves(resource, s, OutcomeAt(net, 1));
    assert HonestFrom(resource, AsWritten, s, cs, net, t1);
    assert IsPrefix([20], [20, 30]);
    assert Serves(resource, s, OutcomeAt(net, 0));
  }

  /**
   * As written: resuming from 1 byte of a 2-byte resource, the server ignores
   * `Range` and answers 200 with the whole resource, which is appended.
   */
  lemma RangeIgnoredBodyIsAppended()
    ensures var resource: Bytes := [10, 20];
      var prior: Bytes := [10];
      var net := [Response(200, Some(2), [[10, 20]], false)];
      var f := Run(AsWritten, Some(prior), "video.mp4", ChunkSize.DefaultChunkSize, net);
      && Honest(resource, AsWritten, Some(prior), ChunkSize.DefaultChunkSize, net)
      && f.verdict == Complete && f.file == Some([10, 10, 20]) && f.file != Some(resource)
  {
    var net := [Response(200, Some(2), [[10, 20]], false)];
    var prior: Bytes := [10];
    var body: Bytes := [10, 20];
    assert Concat([body]) == body by {
      assert [body][..0] == [];
    }
    var s := ResumeSetup(Some(prior));
    assert s.mode == Append && OutcomeAt(net, 0) == net[0];
    var t1 := Step(AsWritten, s, ChunkSize.DefaultChunkSize, net, Start(Some(prior)));
    assert t1.file == Some(prior + body) && t1.verdict == Complete;
    assert prior + body == [10, 10, 20];
  }

  /** One corrected attempt keeps the file a prefix of the resource, and completes it exactly. */
  lemma CorrectedStepStaysPrefix(resource: Bytes, initial: Setup, chunkSize: int, net: seq<Outcome>, t: Trace)
    requires t.verdict == Pending && t.retries < MaxRetries
    requires t.file.None? || IsPrefix(t.file.value, resource)
    requires Serves(resource, ResumeSetup(t.file), OutcomeAt(net, t.retries))
    ensures var t' := Step(Corrected, initial, chunkSize, net, t);
      && (t'.file.None? || IsPrefix(t'.file.value, resource))
      && (t'.verdict == Complete ==> t'.file == Some(resource))
  {
    var o := OutcomeAt(net, t.retries);
    var s := ResumeSetup(t.file);
    if o.Response? && (o.status == 200 || o.status == 206) {
      var body := Concat(o.chunks);
      var base := Opened(t.file, ModeFor(Corrected, s, o.status));
      if o.status == 206 {
        assert base == resource[..s.offset];
        var want := resource[s.offset..];
        assert resource == base + want;
        if o.broken {
          assert IsPrefix(body, want);
          assert base + body == resource[..s.offset + |body|];
        }
      } else {
        assert base + body == body;
      }
    }
  }

  lemma {:induction false} CorrectedLoopStaysPrefix(resource: Bytes, initial: Setup, chunkSize: int, net: seq<Outcome>, t: Trace)
    requires t.verdict == Pending
    requires t.file.None? || IsPrefix(t.file.value, resource)
    requires HonestFrom(resource, Corrected, initial, chunkSize, net, t)
    ensures var f := Loop(Corrected, initial, chunkSize, net, t);
      && (f.file.None? || IsPrefix(f.file.value, resource))
      && (f.verdict == Complete ==> f.file == Some(resource))
    decreases MaxRetries - t.retries
  {
    if t.retries < MaxRetries {
      CorrectedStepStaysPrefix(resource, initial, chunkSize, net, t);
      var t' := Step(Corrected, initial, chunkSize, net, t);
      if t'.verdict == Pending {
        CorrectedLoopStaysPrefix(resource, initial, chunkSize, net, t');
      }
    }
  }

  /**
   * Corrected policy: recompute the resume setup before every attempt and
   * rewrite the file on 200. Starting from a prefix of the resource on disk
   * (or none), with a server that serves what is asked, the file is always a
   * prefix of the resource, and a completed download is exactly the resource.
   */
  lemma CorrectedRunRebuildsResource(resource: Bytes, existing: Option<Bytes>, filename: string, chunkSize: int,
                                     net: seq<Outcome>)
    requires filename != ""
    requires existing.None? || IsPrefix(existing.value, resource)
    requires Honest(resource, Corrected, existing, chunkSize, net)
    ensures var f := Run(Corrected, existing, filename, chunkSize, net);
      && (f.file.None? || IsPrefix(f.file.value, resource))
      && (f.verdict == Complete ==> f.file == Some(resource))
  {
    CorrectedLoopStaysPrefix(resource, ResumeSetup(existing), chunkSize, net, Start(existing));
  }
}
