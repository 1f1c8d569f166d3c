/**
 * The blockchain installer: it sniffs the bundled snapshot in the
 * application directory (the "source"), compares its height with the one
 * installed in the data directory (the "target"), decides whether to
 * install, asks the user when the target already holds a lower chain, and
 * runs the two copies, index file first.
 *
 * A snapshot location is seen as a `Location`: whether its directory exists
 * and, for `blockindexes.dat` and `blocks.dat`, whether the file exists,
 * whether it opens for reading, and its bytes.  An index file starts with
 * a little-endian `quint32` block count followed by `quint32` offsets into
 * the blocks file.
 */
module Installer {
  import opened Wrappers
  import opened LittleEndian
  import opened FileProcessor

  /** `BYTECOIN_BLOCK_SIZE`: the byte length the genesis block must have. */
  const GenesisBlockSize: u32 := 0xd5

  /** Byte positions of the index file's count field and first two offsets. */
  const CountField: nat := 0
  const BeginField: nat := 4
  const EndField: nat := 8

  datatype FileView = FileView(present: bool, readable: bool, bytes: seq<byte>)

  datatype Location = Location(dirPresent: bool, index: FileView, blocks: FileView)

  /** `QFile::open(QIODevice::ReadOnly)` succeeds. */
  predicate OpensForReading(f: FileView)
  {
    f.present && f.readable
  }

  /** The block count stored at the head of an index file. */
  function BlockCount(index: FileView): u32
  {
    ReadU32(index.bytes, CountField)
  }

  /**
   * `getGenesisBlockFromBlockchain`: the genesis block of the bundled
   * snapshot, or None when either file is missing or does not open, when
   * the first two offsets are not `GenesisBlockSize` apart (in 32-bit
   * arithmetic), or when the blocks file is shorter than that.
   */
  function GetGenesisBlock(app: Location): (r: Option<seq<byte>>)
    ensures r.Some? ==> OpensForReading(app.index) && OpensForReading(app.blocks)
    ensures r.Some? ==>
      GenesisBlockSize <= |app.blocks.bytes| && r.value == app.blocks.bytes[..GenesisBlockSize]
  {
    if !app.blocks.present || !app.index.present then None
    else if !app.index.readable || !app.blocks.readable then None
    else
      var begin := ReadU32(app.index.bytes, BeginField);
      var offset := ReadU32(app.index.bytes, EndField);
      var blockSize := Sub32(offset, begin);
      if blockSize != GenesisBlockSize then None
      else if |app.blocks.bytes| < blockSize then None
      else Some(app.blocks.bytes[..blockSize])
  }

  /**
   * `checkIfCurrentBlockchainExists`: the bundled snapshot has a genesis
   * block of the expected size, which is more than both files existing.
   */
  predicate CheckIfCurrentBlockchainExists(app: Location)
    ensures CheckIfCurrentBlockchainExists(app) <==>
      && OpensForReading(app.index) && OpensForReading(app.blocks)
      && Sub32(ReadU32(app.index.bytes, EndField), ReadU32(app.index.bytes, BeginField)) == GenesisBlockSize
      && GenesisBlockSize <= |app.blocks.bytes|
  {
    GetGenesisBlock(app).Some?
  }

  /** `checkIfBittoriumBlockchainExists`: the data directory and its `blocks.dat` exist. */
  predicate CheckIfBittoriumBlockchainExists(data: Location)
    ensures CheckIfBittoriumBlockchainExists(data) <==> data.dirPresent && data.blocks.present
  {
    data.dirPresent && data.blocks.present
  }

  /** The start of an index file: count, begin offset, end offset. */
  function IndexHeader(count: u32, begin: u32, end: u32): (r: seq<byte>)
    ensures |r| == 12
  {
    EncodeU32(count) + EncodeU32(begin) + EncodeU32(end)
  }

  /** The three header fields of an index file read back as written. */
  lemma IndexHeaderFields(count: u32, begin: u32, end: u32, rest: seq<byte>)
    ensures ReadU32(IndexHeader(count, begin, end) + rest, CountField) == count
    ensures ReadU32(IndexHeader(count, begin, end) + rest, BeginField) == begin
    ensures ReadU32(IndexHeader(count, begin, end) + rest, EndField) == end
  {
    var c, b, e := EncodeU32(count), EncodeU32(begin), EncodeU32(end);
    assert IndexHeader(count, begin, end) + rest == [] + c + (b + e + rest);
    ReadEncoded([], count, b + e + rest);
    assert IndexHeader(count, begin, end) + rest == c + b + (e + rest);
    ReadEncoded(c, begin, e + rest);
    assert IndexHeader(count, begin, end) + rest == (c + b) + e + rest;
    ReadEncoded(c + b, end, rest);
  }

  /**
   * For an index file laid out as count, begin, end, ...: the snapshot is
   * accepted exactly when both files open, `end` is `begin + 0xd5` modulo
   * 2^32 and the blocks file holds at least 0xd5 bytes.
   */
  lemma GenesisAcceptsExactly(app: Location, count: u32, begin: u32, end: u32, rest: seq<byte>)
    requires app.index.bytes == IndexHeader(count, begin, end) + rest
    ensures CheckIfCurrentBlockchainExists(app) <==>
      && OpensForReading(app.index) && OpensForReading(app.blocks)
      && end == (begin + GenesisBlockSize as int) % U32Modulus
      && GenesisBlockSize <= |app.blocks.bytes|
  {
    IndexHeaderFields(count, begin, end, rest);
    var d := Sub32(end, begin);
    if d == GenesisBlockSize {
      assert (begin + GenesisBlockSize as int) % U32Modulus == end;
    }
    if end == (begin + GenesisBlockSize as int) % U32Modulus {
      Sub32Unique(end, begin, GenesisBlockSize);
    }
  }

  /** The count field at bytes 0..4 never affects the genesis check. */
  lemma GenesisIgnoresCount(app: Location, other: seq<byte>)
    requires |other| == |app.index.bytes|
    requires forall i :: CountField + 4 <= i < |other| ==> other[i] == app.index.bytes[i]
    ensures GetGenesisBlock(app.(index := app.index.(bytes := other))) == GetGenesisBlock(app)
  {
    var s := app.index.bytes;
    forall pos | 4 <= pos && pos + 4 <= |s|
      ensures ReadU32(other, pos) == ReadU32(s, pos)
    {
      assert other[pos..pos + 4] == s[pos..pos + 4];
      ReadU32Local(other, s, pos);
    }
  }

  /** An index file too short to hold both offsets is never accepted. */
  lemma GenesisRejectsShortIndex(app: Location)
    requires |app.index.bytes| < EndField
    ensures !CheckIfCurrentBlockchainExists(app)
  {
  }

  datatype Heights = Heights(source: u32, target: u32)

  /** The answer of `checkIfBlockchainOutdated` and the heights it stores (None when it stores none). */
  datatype HeightCheck = HeightCheck(outdated: bool, heights: Option<Heights>)

  /**
   * `checkIfBlockchainOutdated`: both index files must open; the heights
   * are the counts minus one in 32-bit arithmetic (a count of 0 wraps), and
   * the target is outdated when its count is below the source's.
   */
  function CheckIfBlockchainOutdated(app: Location, data: Location): (r: HeightCheck)
    ensures r.heights.None? <==> !(OpensForReading(app.index) && OpensForReading(data.index))
    ensures r.heights.None? ==> !r.outdated
    ensures r.heights.Some? ==>
      && (r.heights.value.source + 1) % U32Modulus == BlockCount(app.index)
      && (r.heights.value.target + 1) % U32Modulus == BlockCount(data.index)
    ensures r.outdated <==> r.heights.Some? && BlockCount(data.index) < BlockCount(app.index)
  {
    if !OpensForReading(app.index) || !OpensForReading(data.index) then HeightCheck(false, None)
    else
      var sourceCount := BlockCount(app.index);
      var targetCount := BlockCount(data.index);
      HeightCheck(targetCount < sourceCount, Some(Heights(Sub32(sourceCount, 1), Sub32(targetCount, 1))))
  }

  /**
   * For index files that start with counts `sc` and `tc`: outdated exactly
   * when `tc < sc`; a count of at least 1 gives height count - 1, and a
   * count of 0 gives height 0xFFFF_FFFF.
   */
  lemma HeightsFromCounts(app: Location, data: Location, sc: u32, tc: u32, sRest: seq<byte>, tRest: seq<byte>)
    requires OpensForReading(app.index) && OpensForReading(data.index)
    requires app.index.bytes == EncodeU32(sc) + sRest && data.index.bytes == EncodeU32(tc) + tRest
    ensures CheckIfBlockchainOutdated(app, data).outdated <==> tc < sc
    ensures CheckIfBlockchainOutdated(app, data).heights ==
      Some(Heights(if sc == 0 then 0xFFFF_FFFF else sc - 1, if tc == 0 then 0xFFFF_FFFF else tc - 1))
  {
    CountRead(sc, sRest);
    CountRead(tc, tRest);
    var check := CheckIfBlockchainOutdated(app, data);
    assert check.heights == Some(Heights(Sub32(sc, 1), Sub32(tc, 1)));
  }

  /** The count written at the head of an index file is the one read back. */
  lemma CountRead(count: u32, rest: seq<byte>)
    ensures ReadU32(EncodeU32(count) + rest, CountField) == count
  {
    ReadEncoded([], count, rest);
    assert [] + EncodeU32(count) + rest == EncodeU32(count) + rest;
  }

  /** The question's `%1` (the installed chain's height) and `%2` (the bundled chain's height). */
  datatype Prompt = Prompt(targetHeight: u32, sourceHeight: u32)

  /** What one run of `exec` does: the question it asks, if any, and whether it installs. */
  datatype Outcome = Outcome(prompt: Option<Prompt>, installs: bool)

  /**
   * The decision procedure of `exec`, with `accepted` the user's answer
   * (consulted only when the question is asked).
   */
  function Decide(app: Location, data: Location, accepted: bool): (r: Outcome)
    ensures r.prompt.Some? ==> r.installs == accepted
    ensures r.installs || r.prompt.Some? ==> CheckIfCurrentBlockchainExists(app)
  {
    if !CheckIfCurrentBlockchainExists(app) then Outcome(None, false)
    else if !CheckIfBittoriumBlockchainExists(data) then Outcome(None, true)
    else
      var check := CheckIfBlockchainOutdated(app, data);
      if !check.outdated then Outcome(None, false)
      else Outcome(Some(Prompt(check.heights.value.target, check.heights.value.source)), accepted)
  }

  /** Without a valid bundled snapshot nothing is asked and nothing installed. */
  lemma InvalidSourceDoesNothing(app: Location, data: Location, accepted: bool)
    requires !CheckIfCurrentBlockchainExists(app)
    ensures Decide(app, data, accepted) == Outcome(None, false)
  {
  }

  /**
   * With a valid snapshot and no installed chain, `exec` installs without
   * asking, whatever the answer would be and whatever the index files hold.
   */
  lemma MissingTargetInstallsUnasked(app: Location, data: Location, accepted: bool, otherIndex: FileView, otherAnswer: bool)
    requires CheckIfCurrentBlockchainExists(app)
    requires !data.dirPresent || !data.blocks.present
    ensures Decide(app, data, accepted) == Outcome(None, true)
    ensures Decide(app, data.(index := otherIndex), otherAnswer) == Decide(app, data, accepted)
  {
  }

  /**
   * The question is asked exactly when the bundled snapshot is valid, an
   * installed chain exists, both index files open and the installed count
   * is below the bundled one; it shows the installed height first.
   */
  lemma PromptIff(app: Location, data: Location, accepted: bool)
    ensures Decide(app, data, accepted).prompt.Some? <==>
      && CheckIfCurrentBlockchainExists(app)
      && data.dirPresent && data.blocks.present
      && OpensForReading(app.index) && OpensForReading(data.index)
      && BlockCount(data.index) < BlockCount(app.index)
    ensures Decide(app, data, accepted).prompt.Some? ==>
      var p := Decide(app, data, accepted).prompt.value;
      && (p.targetHeight + 1) % U32Modulus == BlockCount(data.index)
      && (p.sourceHeight + 1) % U32Modulus == BlockCount(app.index)
  {
  }

  /**
   * `exec` installs exactly when the bundled snapshot is valid and either
   * no chain is installed or the installed one is outdated and the user
   * accepts; in particular a declined question installs nothing.
   */
  lemma InstallsIff(app: Location, data: Location, accepted: bool)
    ensures Decide(app, data, accepted).installs <==>
      && CheckIfCurrentBlockchainExists(app)
      && (!CheckIfBittoriumBlockchainExists(data) || (CheckIfBlockchainOutdated(app, data).outdated && accepted))
    ensures CheckIfBittoriumBlockchainExists(data) && !accepted ==> !Decide(app, data, accepted).installs
  {
  }

  /**
   * The height comparison is on counts, not on the heights shown: an
   * installed index whose count is 0 is outdated against any bundled chain,
   * yet its height reads as 0xFFFF_FFFF in the question.
   */
  lemma ZeroCountTargetIsOutdated(app: Location, data: Location, accepted: bool)
    requires CheckIfCurrentBlockchainExists(app)
    requires CheckIfBittoriumBlockchainExists(data) && OpensForReading(data.index)
    requires BlockCount(data.index) == 0 && 0 < BlockCount(app.index)
    ensures Decide(app, data, accepted).prompt.Some?
    ensures Decide(app, data, accepted).prompt.value.targetHeight == 0xFFFF_FFFF
    ensures Decide(app, data, accepted).prompt.value.sourceHeight == BlockCount(app.index) - 1
  {
  }

  /** The two copies `installBlockchain` can start. */
  datatype DataFile = IndexFile | BlocksFile

  /** The copies `installBlockchain` started, in order, and how each ended. */
  datatype InstallRun = InstallRun(started: seq<DataFile>, indexRun: CopyRun, blocksRun: Option<CopyRun>)

  /** The value `waitLoop.exec()` returns: 0 after `copyFinished`, the code after `errorSignal`. */
  function ExitCode(run: CopyRun): (r: int)
    ensures r == 0 <==> run.signal == Finished || run.signal == Error(0)
    ensures run.signal.Error? ==> r == run.signal.code
  {
    match run.signal
    case Finished => 0
    case Error(code) => code
  }

  /**
   * The sequencing of `installBlockchain`: the index copy always runs
   * first, and the blocks copy runs after it only when the wait loop
   * returned 0.
   */
  predicate IsInstallRun(r: InstallRun, indexJob: CopyJob, blocksJob: CopyJob)
  {
    && r.indexRun == Expected(indexJob)
    && (ExitCode(r.indexRun) == 0 ==> r.started == [IndexFile, BlocksFile] && r.blocksRun == Some(Expected(blocksJob)))
    && (ExitCode(r.indexRun) != 0 ==> r.started == [IndexFile] && r.blocksRun == None)
  }

  /** `installBlockchain`: copy the index file, then, if that returned 0, the blocks file. */
  method InstallBlockchain(indexJob: CopyJob, blocksJob: CopyJob) returns (r: InstallRun)
    ensures IsInstallRun(r, indexJob, blocksJob)
  {
    var started := [IndexFile];
    var indexRun := Copy(indexJob);
    if ExitCode(indexRun) != 0 {
      return InstallRun(started, indexRun, None);
    }
    started := started + [BlocksFile];
    var blocksRun := Copy(blocksJob);
    return InstallRun(started, indexRun, Some(blocksRun));
  }

  /**
   * In every install the index copy comes first and the blocks copy is
   * never started after an index copy that failed; when both finish, the
   * target holds both files exactly as bundled.
   */
  lemma InstallOrder(r: InstallRun, indexJob: CopyJob, blocksJob: CopyJob)
    requires IsInstallRun(r, indexJob, blocksJob)
    ensures 1 <= |r.started| <= 2 && r.started[0] == IndexFile
    ensures BlocksFile in r.started <==> Expected(indexJob).signal == Finished || Expected(indexJob).signal == Error(0)
    ensures (Expected(indexJob).signal == Finished && r.blocksRun == Some(Expected(blocksJob))
             && Expected(blocksJob).signal == Finished) ==>
      r.indexRun.written == Some(indexJob.source) && r.blocksRun.value.written == Some(blocksJob.source)
  {
    if Expected(indexJob).signal == Finished {
      FinishedCopiesAll(indexJob);
      if r.blocksRun == Some(Expected(blocksJob)) && Expected(blocksJob).signal == Finished {
        FinishedCopiesAll(blocksJob);
      }
    }
  }

  /**
   * A failed blocks copy after a finished index copy: the install ends with
   * the blocks copy's error code and the copied index file stays in place.
   */
  lemma BlocksFailureLeavesIndex(r: InstallRun, indexJob: CopyJob, blocksJob: CopyJob, code: int)
    requires IsInstallRun(r, indexJob, blocksJob)
    requires Expected(indexJob).signal == Finished
    requires blocksJob.sourceOpen.Opens? && blocksJob.targetOpen == OpenFails(code)
    ensures r.started == [IndexFile, BlocksFile]
    ensures r.indexRun.written == Some(indexJob.source)
    ensures r.blocksRun.Some? && r.blocksRun.value.signal == Error(code) && r.blocksRun.value.written == None
  {
    FinishedCopiesAll(indexJob);
  }

  /**
   * How the environment answers one copy: the bundled file as the copy's
   * own `open` finds it (it may have changed since the genesis check), the
   * error code a failed open reports, the target's open, and the I/O faults.
   */
  datatype CopyEnv = CopyEnv(source: FileView, sourceOpenError: int, readFault: Fault, targetOpen: Opening, writeFault: Fault)

  /** The copy of one bundled file into the data directory. */
  function JobFor(env: CopyEnv): (job: CopyJob)
    ensures job.source == env.source.bytes
    ensures job.sourceOpen.Opens? <==> OpensForReading(env.source)
    ensures job.sourceOpen.OpenFails? ==> job.sourceOpen.code == env.sourceOpenError
  {
    CopyJob(env.source.bytes, if OpensForReading(env.source) then Opens else OpenFails(env.sourceOpenError),
            env.readFault, env.targetOpen, env.writeFault)
  }

  /**
   * `exec`: the early-return sequence of checks, the question, and the
   * install, run against the environment's answers for the two copies.
   */
  method Exec(app: Location, data: Location, accepted: bool, indexEnv: CopyEnv, blocksEnv: CopyEnv)
    returns (outcome: Outcome, install: Option<InstallRun>)
    ensures outcome == Decide(app, data, accepted)
    ensures install.Some? <==> outcome.installs
    ensures install.Some? ==> IsInstallRun(install.value, JobFor(indexEnv), JobFor(blocksEnv))
  {
    if !CheckIfCurrentBlockchainExists(app) {
      return Outcome(None, false), None;
    }
    if !CheckIfBittoriumBlockchainExists(data) {
      var r := InstallBlockchain(JobFor(indexEnv), JobFor(blocksEnv));
      return Outcome(None, true), Some(r);
    }
    var check := CheckIfBlockchainOutdated(app, data);
    if !check.outdated {
      return Outcome(None, false), None;
    }
    var prompt := Prompt(check.heights.value.target, check.heights.value.source);
    if accepted {
      var r := InstallBlockchain(JobFor(indexEnv), JobFor(blocksEnv));
      return Outcome(Some(prompt), true), Some(r);
    }
    return Outcome(Some(prompt), false), None;
  }

  /**
   * When the bundled files are as the genesis check found them, both copies
   * open their sources, and the blocks source holds the genesis block.
   */
  lemma ValidSourceOpensForCopy(app: Location, indexEnv: CopyEnv, blocksEnv: CopyEnv)
    requires CheckIfCurrentBlockchainExists(app)
    requires indexEnv.source == app.index && blocksEnv.source == app.blocks
    ensures JobFor(indexEnv).sourceOpen == Opens
    ensures JobFor(blocksEnv).sourceOpen == Opens
    ensures |JobFor(blocksEnv).source| >= GenesisBlockSize
  {
  }

  /**
   * A bundled file that no longer opens when its copy starts ends that copy
   * with the open error; the target is left untouched.
   */
  lemma VanishedSourceFailsCopy(env: CopyEnv)
    requires !OpensForReading(env.source)
    ensures Expected(JobFor(env)) == CopyRun(Error(env.sourceOpenError), None, [], 0, 0)
  {
  }
}
