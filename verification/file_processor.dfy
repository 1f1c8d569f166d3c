/**
 * The copy worker (`AsyncFileProcessor::copy`): one file copied to one
 * target path in chunks of at most `BufferSize` bytes, with a progress
 * report after every chunk, ending in `copyFinished` or in `errorSignal`
 * with the failing file's error code.
 *
 * The file system is seen through a `CopyJob`: the source bytes, whether
 * each file opens, and which read call and which write call, if any, is the
 * first to return -1 (with the code `error()` then reports).  A read of a
 * regular file returns the next `BufferSize` bytes, or fewer at the end.
 */
module FileProcessor {
  import opened Wrappers
  import opened LittleEndian

  /** `buffer_size`: the most bytes one read asks for. */
  const BufferSize: nat := 0x100000

  /** The result of `QFile::open`: success, or failure with `error()`. */
  datatype Opening = Opens | OpenFails(code: int)

  /** The first call of one kind (reads or writes, counted from 0) that returns -1, if any. */
  datatype Fault = NoFault | FailsAt(call: nat, code: int)

  datatype CopyJob = CopyJob(
    source: seq<byte>,
    sourceOpen: Opening,
    readFault: Fault,
    targetOpen: Opening,
    writeFault: Fault)

  /** The terminal signal of one copy: `copyFinished` or `errorSignal(code)`. */
  datatype Signal = Finished | Error(code: int)

  /** One `copyProgressSignal(copiedBytes, file_size)`. */
  datatype Progress = Progress(copied: nat, total: nat)

  /**
   * Everything a copy does that can be observed: its terminal signal, the
   * target's contents (None when the target was never opened, so neither
   * created nor truncated), the progress reports in order, and how many
   * read and write calls it made.
   */
  datatype CopyRun = CopyRun(
    signal: Signal,
    written: Option<seq<byte>>,
    reports: seq<Progress>,
    readCalls: nat,
    writeCalls: nat)

  function Min(a: nat, b: nat): nat
  {
    if a <= b then a else b
  }

  predicate FailsOn(f: Fault, call: nat)
  {
    f.FailsAt? && f.call == call
  }

  /** No call numbered below `bound` fails. */
  predicate ClearBelow(f: Fault, bound: nat)
  {
    f.FailsAt? ==> bound <= f.call
  }

  /** What `sourceFile.read(buffer, buffer_size)` returns: bytes, or -1. */
  datatype ReadReply = Chunk(bytes: seq<byte>) | ReadFailed(code: int)

  /** Read call number `call`, made with the source positioned at byte `pos`. */
  function Read(job: CopyJob, call: nat, pos: nat): (r: ReadReply)
    requires pos <= |job.source|
    ensures r.ReadFailed? <==> FailsOn(job.readFault, call)
    ensures r.Chunk? ==> |r.bytes| == Min(BufferSize, |job.source| - pos)
    ensures r.Chunk? ==> r.bytes == job.source[pos..pos + |r.bytes|]
  {
    if FailsOn(job.readFault, call) then ReadFailed(job.readFault.code)
    else Chunk(job.source[pos..pos + Min(BufferSize, |job.source| - pos)])
  }

  /** The number of reads that return data from an `n`-byte file. */
  function ChunkCount(n: nat): nat
  {
    (n + BufferSize - 1) / BufferSize
  }

  /** The cumulative count after `k` chunks of an `n`-byte file. */
  function CopiedAfter(n: nat, k: nat): nat
  {
    Min(k * BufferSize, n)
  }

  /** The first `k` progress reports of an `n`-byte copy. */
  function ReportsAfter(n: nat, k: nat): seq<Progress>
  {
    seq(k, i requires 0 <= i < k => Progress(CopiedAfter(n, i + 1), n))
  }

  /**
   * The reference outcome of a copy, stated in closed form: the calls run
   * read 0, write 0, read 1, write 1, ..., and the run stops at the first
   * failing one; read `ChunkCount(n)` is the one that returns 0.
   */
  function Expected(job: CopyJob): CopyRun
  {
    if job.sourceOpen.OpenFails? then
      CopyRun(Error(job.sourceOpen.code), None, [], 0, 0)
    else if job.targetOpen.OpenFails? then
      CopyRun(Error(job.targetOpen.code), None, [], 0, 0)
    else
      var n := |job.source|;
      var chunks := ChunkCount(n);
      var readFails := job.readFault.FailsAt? && job.readFault.call <= chunks;
      var writeFails := job.writeFault.FailsAt? && job.writeFault.call < chunks;
      if readFails && (!writeFails || job.readFault.call <= job.writeFault.call) then
        var k := job.readFault.call;
        CopyRun(Error(job.readFault.code), Some(job.source[..CopiedAfter(n, k)]), ReportsAfter(n, k), k + 1, k)
      else if writeFails then
        var k := job.writeFault.call;
        CopyRun(Error(job.writeFault.code), Some(job.source[..CopiedAfter(n, k)]), ReportsAfter(n, k), k + 1, k + 1)
      else
        CopyRun(Finished, Some(job.source), ReportsAfter(n, chunks), chunks + 1, chunks)
  }

  /** `ChunkCount(n)` is the least `k` with `k * BufferSize >= n`. */
  lemma ChunkCountBounds(n: nat)
    ensures n <= ChunkCount(n) * BufferSize
    ensures n == 0 <==> ChunkCount(n) == 0
    ensures 0 < n ==> (ChunkCount(n) - 1) * BufferSize < n
  {
    var c := ChunkCount(n);
    var m := n + BufferSize - 1;
    assert c * BufferSize + m % BufferSize == m;
  }

  /** Before the last chunk, chunk `k` starts at `k * BufferSize`; the last one ends at `n`. */
  lemma CopiedAfterStep(n: nat, k: nat)
    requires k <= ChunkCount(n)
    ensures k < ChunkCount(n) ==> CopiedAfter(n, k) == k * BufferSize < n
    ensures k < ChunkCount(n) ==>
      CopiedAfter(n, k + 1) == CopiedAfter(n, k) + Min(BufferSize, n - CopiedAfter(n, k))
    ensures CopiedAfter(n, k) == n <==> k == ChunkCount(n)
  {
    ChunkCountBounds(n);
    if k < ChunkCount(n) {
      assert k * BufferSize <= (ChunkCount(n) - 1) * BufferSize;
    }
  }

  /**
   * The copy loop.  It opens the source, then the target, and reads chunk
   * after chunk, writing each one and reporting the running total, until a
   * read returns 0 (finished) or -1, or a write returns -1 (error).
   */
  method Copy(job: CopyJob) returns (run: CopyRun)
    ensures run == Expected(job)
  {
    var fileSize := |job.source|;
    if job.sourceOpen.OpenFails? {
      return CopyRun(Error(job.sourceOpen.code), None, [], 0, 0);
    }
    if job.targetOpen.OpenFails? {
      return CopyRun(Error(job.targetOpen.code), None, [], 0, 0);
    }
    ghost var chunks := ChunkCount(fileSize);
    var target: seq<byte> := [];
    var reports: seq<Progress> := [];
    var copiedBytes: nat := 0;
    var chunksDone: nat := 0;
    var reply := Read(job, 0, 0);
    var readCount: nat := 1;
    while reply.Chunk? && |reply.bytes| > 0
      invariant chunksDone <= chunks
      invariant readCount == chunksDone + 1
      invariant copiedBytes == CopiedAfter(fileSize, chunksDone)
      invariant target == job.source[..copiedBytes]
      invariant reports == ReportsAfter(fileSize, chunksDone)
      invariant reply == Read(job, chunksDone, copiedBytes)
      invariant ClearBelow(job.readFault, chunksDone) && ClearBelow(job.writeFault, chunksDone)
      decreases fileSize - copiedBytes
    {
      CopiedAfterStep(fileSize, chunksDone);
      if FailsOn(job.writeFault, chunksDone) {
        return CopyRun(Error(job.writeFault.code), Some(target), reports, readCount, chunksDone + 1);
      }
      target := target + reply.bytes;
      copiedBytes := copiedBytes + |reply.bytes|;
      reports := reports + [Progress(copiedBytes, fileSize)];
      chunksDone := chunksDone + 1;
      reply := Read(job, readCount, copiedBytes);
      readCount := readCount + 1;
    }
    CopiedAfterStep(fileSize, chunksDone);
    if reply.ReadFailed? {
      return CopyRun(Error(reply.code), Some(target), reports, readCount, chunksDone);
    }
    assert copiedBytes == fileSize && chunksDone == chunks;
    assert target == job.source;
    return CopyRun(Finished, Some(target), reports, readCount, chunksDone);
  }

  /** A copy finishes exactly when both files open and no read or write it makes fails. */
  lemma FinishedIff(job: CopyJob)
    ensures Expected(job).signal == Finished <==>
      && job.sourceOpen.Opens?
      && job.targetOpen.Opens?
      && !(job.readFault.FailsAt? && job.readFault.call <= ChunkCount(|job.source|))
      && !(job.writeFault.FailsAt? && job.writeFault.call < ChunkCount(|job.source|))
  {
  }

  /**
   * The reports of a copy: one per chunk, each with the file size as total,
   * each chunk non-empty and at most `BufferSize` bytes, so the counts rise
   * strictly.
   */
  lemma ReportsShape(n: nat, k: nat)
    requires k <= ChunkCount(n)
    ensures |ReportsAfter(n, k)| == k
    ensures forall i :: 0 <= i < k ==> ReportsAfter(n, k)[i].total == n
    ensures 0 < k ==> 0 < ReportsAfter(n, k)[0].copied <= BufferSize
    ensures forall i :: 0 <= i < k - 1 ==>
      ReportsAfter(n, k)[i].copied < ReportsAfter(n, k)[i + 1].copied <= ReportsAfter(n, k)[i].copied + BufferSize
    ensures forall i, j :: 0 <= i < j < k ==> ReportsAfter(n, k)[i].copied < ReportsAfter(n, k)[j].copied
  {
    var r := ReportsAfter(n, k);
    if 0 < k {
      CopiedAfterStep(n, 0);
    }
    forall i | 0 <= i < k - 1
      ensures r[i].copied < r[i + 1].copied <= r[i].copied + BufferSize
    {
      CopiedAfterStep(n, i + 1);
    }
    forall i, j | 0 <= i < j < k
      ensures r[i].copied < r[j].copied
    {
      CopiedAfterStep(n, i + 1);
      CopiedAfterStep(n, j);
    }
  }

  /**
   * On `copyFinished` the target holds exactly the source's bytes, one
   * report was made per non-empty chunk, and the last report's count is the
   * source's length; an empty source gives no report at all.
   */
  lemma FinishedCopiesAll(job: CopyJob)
    requires Expected(job).signal == Finished
    ensures Expected(job).written == Some(job.source)
    ensures |Expected(job).reports| == ChunkCount(|job.source|)
    ensures Expected(job).reports == [] <==> job.source == []
    ensures Expected(job).reports != [] ==>
      Expected(job).reports[|Expected(job).reports| - 1] == Progress(|job.source|, |job.source|)
    ensures Expected(job).readCalls == Expected(job).writeCalls + 1
    ensures forall i, j :: 0 <= i < j < |Expected(job).reports| ==>
      Expected(job).reports[i].copied < Expected(job).reports[j].copied
  {
    var n := |job.source|;
    ChunkCountBounds(n);
    ReportsShape(n, ChunkCount(n));
    if 0 < n {
      CopiedAfterStep(n, ChunkCount(n));
    }
  }

  /**
   * Whatever the outcome, the target holds a prefix of the source, and the
   * last report counts exactly the bytes written; a target never opened
   * goes with no report and no read.
   */
  lemma ReportsMatchWritten(job: CopyJob)
    ensures Expected(job).written.None? ==>
      Expected(job).reports == [] && Expected(job).readCalls == 0 && Expected(job).writeCalls == 0
    ensures Expected(job).written.Some? ==>
      var w := Expected(job).written.value;
      |w| <= |job.source| && w == job.source[..|w|]
    ensures Expected(job).written.Some? && Expected(job).reports != [] ==>
      Expected(job).reports[|Expected(job).reports| - 1].copied == |Expected(job).written.value|
  {
    var n := |job.source|;
    var r := Expected(job);
    ChunkCountBounds(n);
    if r.written.Some? && r.reports != [] {
      var k := |r.reports|;
      assert k <= ChunkCount(n);
      CopiedAfterStep(n, k);
      assert r.written.value == job.source[..CopiedAfter(n, k)];
    }
  }

  /** A source that does not open: error with its code; the target is not even opened. */
  lemma SourceOpenFailure(job: CopyJob)
    requires job.sourceOpen.OpenFails?
    ensures Expected(job) == CopyRun(Error(job.sourceOpen.code), None, [], 0, 0)
  {
  }

  /** A target that does not open: error with its code, and nothing read or written. */
  lemma TargetOpenFailure(job: CopyJob)
    requires job.sourceOpen.Opens? && job.targetOpen.OpenFails?
    ensures Expected(job) == CopyRun(Error(job.targetOpen.code), None, [], 0, 0)
  {
  }

  /**
   * A write that returns -1 ends the copy at once: error with the target's
   * code, no report for that chunk, and no read after it.
   */
  lemma WriteFailureStops(job: CopyJob, w: nat, code: int)
    requires job.sourceOpen.Opens? && job.targetOpen.Opens?
    requires job.writeFault == FailsAt(w, code) && w < ChunkCount(|job.source|)
    requires ClearBelow(job.readFault, w + 1)
    ensures Expected(job).signal == Error(code)
    ensures Expected(job).writeCalls == w + 1 && Expected(job).readCalls == w + 1
    ensures |Expected(job).reports| == w
    ensures Expected(job).written == Some(job.source[..w * BufferSize])
  {
    CopiedAfterStep(|job.source|, w);
  }

  /** A read that returns -1 ends the copy in an error with the source's code, never a finish. */
  lemma ReadFailureStops(job: CopyJob, k: nat, code: int)
    requires job.sourceOpen.Opens? && job.targetOpen.Opens?
    requires job.readFault == FailsAt(k, code) && k <= ChunkCount(|job.source|)
    requires ClearBelow(job.writeFault, k)
    ensures Expected(job).signal == Error(code)
    ensures Expected(job).readCalls == k + 1 && Expected(job).writeCalls == k
    ensures |Expected(job).reports| == k
    ensures Expected(job).written == Some(job.source[..CopiedAfter(|job.source|, k)])
  {
  }

  /** An empty source: the target is truncated to empty and the copy finishes without a report. */
  lemma EmptySourceFinishes(job: CopyJob)
    requires job.source == [] && job.sourceOpen.Opens? && job.targetOpen.Opens?
    requires !FailsOn(job.readFault, 0)
    ensures Expected(job) == CopyRun(Finished, Some([]), [], 1, 0)
  {
    ChunkCountBounds(0);
  }
}
