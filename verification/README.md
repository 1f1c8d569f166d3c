# Blockchain installer: a verified model

This project models the blockchain bootstrap step of the Talleo GUI wallet
(`BlockchainInstaller` and `AsyncFileProcessor`). At startup the wallet looks
for a bundled blockchain snapshot (`blockindexes.dat` and `blocks.dat`) in
the application directory. It checks that the snapshot's genesis block has
the expected size, `BYTECOIN_BLOCK_SIZE = 0xd5`. It then compares the
snapshot's block count with that of the chain installed in the data
directory. If no chain is installed there, it installs the snapshot. If the
installed chain is shorter, it asks the user first. Installing copies the
index file and then the blocks file, in chunks of 1 MiB, with a progress
report after each chunk.

Modules:

- `Wrappers`: `Option`.
- `LittleEndian`: bytes and `quint32` values. `ReadU32` is a `QDataStream`
  little-endian field read, with `EncodeU32` as its inverse. `Sub32` is
  `quint32` subtraction, which wraps.
- `FileProcessor`: the copy loop `Copy`. It is a method with loop
  invariants, proved equal to a closed-form reference outcome `Expected`.
  Lemmas about `Expected` cover the progress reports, the target's contents
  and each error path.
- `Installer`:
  - the genesis sniff (`GetGenesisBlock`);
  - the height comparison (`CheckIfBlockchainOutdated`);
  - the decision made by `exec` (`Decide`);
  - the two-copy sequence (`InstallBlockchain`);
  - the early-return `exec` itself (`Exec`), proved to follow `Decide`.

How the environment is represented:

- A file the installer inspects is a `FileView`: whether it exists, whether
  it opens for reading, and its bytes.
- A copy is a `CopyJob`. It holds the source bytes and the outcome of each
  open. It also holds which read call and which write call, if any, is the
  first to return -1, together with the error code `error()` reports then.
- The installer builds each `CopyJob` from a `CopyEnv`: the bundled file
  as the copy's own `open` finds it, the code `error()` reports if that open
  fails, and the target's open outcome and fault oracles.
- A read of a regular file returns the next `0x100000` bytes, or fewer at
  the end of the file.
- The user's answer to the question is a boolean parameter.

Three behaviours of the code are worth knowing:

- A block count of 0 is not rejected. `checkIfBlockchainOutdated` computes
  its height `count - 1` as `0xFFFF_FFFF` and compares the counts, so an
  installed index with count 0 is outdated against any bundled chain
  (`ZeroCountTargetIsOutdated`).
- `getGenesisBlockFromBlockchain` never checks the stream status. Qt 5's
  `QDataStream` reads a field the file does not hold in full as 0, so an
  index file shorter than 8 bytes is always rejected
  (`GenesisRejectsShortIndex`).
- Each copy opens its bundled source file afresh, later than the genesis
  check. The model gives each copy its own view of that file (`CopyEnv`),
  so the file may have vanished or changed by then
  (`VanishedSourceFailsCopy`).

## Model

| member | source | states |
|---|---|---|
| `LittleEndian.ReadU32` | src/Gui/Common/BlockchainInstaller.cpp:98-102 | a `quint32` read through a little-endian `QDataStream` at position `pos`: when the file holds the four bytes, the value's little-endian encoding is exactly those bytes; when it does not, the value is 0 (Qt 5 zeroes a short read; the same read is used at lines 136-137) |
| `LittleEndian.Sub32` | src/Gui/Common/BlockchainInstaller.cpp:103 | the `quint32` difference is the unique 32-bit value that, added to the subtrahend, gives the minuend modulo 2^32; it is the plain difference when no wrap occurs, and the difference plus 2^32 otherwise |
| `LittleEndian.Sub32Unique` | src/Gui/Common/BlockchainInstaller.cpp:138-139 | no other 32-bit value has that property, so `count - 1` is determined by `(height + 1) mod 2^32 == count` |
| `LittleEndian.ReadEncoded` | src/Gui/Common/BlockchainInstaller.cpp:98-102 | a little-endian `quint32` field read at the position where it was written gives back the value written, whatever precedes or follows it |
| `LittleEndian.EncodeRead` | src/Gui/Common/BlockchainInstaller.cpp:98-102 | every four bytes are the little-endian encoding of the value they read as (the read is a bijection on 4-byte fields) |
| `LittleEndian.ReadU32Local` | src/Gui/Common/BlockchainInstaller.cpp:102 | a field's value depends only on its own four bytes |
| `FileProcessor.Read` | src/Gui/Common/BlockchainInstaller.cpp:214 | a read returns -1 exactly on the failing call; otherwise it returns the next `min(0x100000, remaining)` bytes of the source, starting at the current position |
| `FileProcessor.Copy` | src/Gui/Common/BlockchainInstaller.cpp:193-231 | the copy loop (open source, open and truncate target, read/write/report until a read returns 0 or -1 or a write returns -1) produces exactly the reference outcome: its signal, the target's contents, the reports, and the number of read and write calls |
| `FileProcessor.FinishedIff` | src/Gui/Common/BlockchainInstaller.cpp:203-230 | `copyFinished` is emitted if and only if both files open, none of the `ChunkCount(n) + 1` reads fails and none of the `ChunkCount(n)` writes fails |
| `FileProcessor.ReportsShape` | src/Gui/Common/BlockchainInstaller.cpp:198-221 | there is one report per chunk and each carries the file size as its total; the first chunk and every later step are non-empty and at most `0x100000` bytes, so the cumulative counts rise strictly |
| `FileProcessor.FinishedCopiesAll` | src/Gui/Common/BlockchainInstaller.cpp:213-230 | on `copyFinished` the target equals the source byte for byte; there is one report per non-empty chunk and the last report is `(n, n)`; an empty source gives no reports; reads number one more than writes (the final read returns 0); the cumulative counts rise strictly |
| `FileProcessor.ReportsMatchWritten` | src/Gui/Common/BlockchainInstaller.cpp:208-221 | in every outcome the target holds a prefix of the source and the last report counts exactly the bytes written; a target that was never opened goes with no reads, no writes and no reports |
| `FileProcessor.SourceOpenFailure` | src/Gui/Common/BlockchainInstaller.cpp:203-206 | a source that fails to open gives an error with its code; the target is never opened or truncated, and nothing is read or reported |
| `FileProcessor.TargetOpenFailure` | src/Gui/Common/BlockchainInstaller.cpp:208-211 | a target that fails to open gives an error with its code; nothing is read, written or reported |
| `FileProcessor.WriteFailureStops` | src/Gui/Common/BlockchainInstaller.cpp:215-218 | a write that returns -1 on chunk `w` ends the copy at once with the target's code: there is no report for that chunk and no further read, and the target holds the first `w` chunks |
| `FileProcessor.ReadFailureStops` | src/Gui/Common/BlockchainInstaller.cpp:225-228 | a read that returns -1 on call `k` ends the copy with the source's code and not with a finish; there are `k` reports and `k` chunks written |
| `FileProcessor.EmptySourceFinishes` | src/Gui/Common/BlockchainInstaller.cpp:213-230 | an empty source truncates the target to empty and finishes after one read, with no write and no report |
| `Installer.GetGenesisBlock` | src/Gui/Common/BlockchainInstaller.cpp:85-117 | a genesis block is found only when both bundled files open; it is the first `0xd5` bytes of `blocks.dat`, which must hold at least that many |
| `Installer.CheckIfCurrentBlockchainExists` | src/Gui/Common/BlockchainInstaller.cpp:76-83 | true if and only if both bundled files open, the offsets at bytes 4..8 and 8..12 differ by `0xd5` in 32-bit arithmetic, and `blocks.dat` holds at least `0xd5` bytes: a format check, not mere existence |
| `Installer.CheckIfBittoriumBlockchainExists` | src/Gui/Common/BlockchainInstaller.cpp:119-121 | true if and only if the data directory exists and holds `blocks.dat`; the index file plays no part |
| `Installer.IndexHeaderFields` | src/Gui/Common/BlockchainInstaller.cpp:98-102 | the count, begin and end fields of an index file are read back from bytes 0..4, 4..8 and 8..12 |
| `Installer.GenesisAcceptsExactly` | src/Gui/Common/BlockchainInstaller.cpp:85-117 | for an index file that starts (count, begin, end), the snapshot is accepted if and only if both files open, `end == (begin + 0xd5) mod 2^32`, and `blocks.dat` holds at least `0xd5` bytes |
| `Installer.GenesisIgnoresCount` | src/Gui/Common/BlockchainInstaller.cpp:96-106 | the count field (bytes 0..4) never affects the genesis check: index files that differ only there give the same result |
| `Installer.GenesisRejectsShortIndex` | src/Gui/Common/BlockchainInstaller.cpp:99-106 | an index file shorter than 8 bytes is never accepted (both offsets read as 0) |
| `Installer.CheckIfBlockchainOutdated` | src/Gui/Common/BlockchainInstaller.cpp:123-141 | if either index file fails to open, the answer is false and no heights are stored; otherwise each stored height `h` satisfies `(h + 1) mod 2^32 == count`, and the answer is true if and only if the target's count is below the source's |
| `Installer.CountRead` | src/Gui/Common/BlockchainInstaller.cpp:136-137 | the count written at the head of an index file is the count read back |
| `Installer.HeightsFromCounts` | src/Gui/Common/BlockchainInstaller.cpp:132-140 | for counts `sc` (source) and `tc` (target), the answer is outdated if and only if `tc < sc`; each height is `count - 1`, and a count of 0 gives `0xFFFF_FFFF` |
| `Installer.Decide` | src/Gui/Common/BlockchainInstaller.cpp:52-74 | whenever the question is asked, the outcome is to install if and only if it is accepted; nothing is asked or installed without a valid bundled snapshot |
| `Installer.InvalidSourceDoesNothing` | src/Gui/Common/BlockchainInstaller.cpp:52-55 | with no valid bundled snapshot there is no question and no install |
| `Installer.MissingTargetInstallsUnasked` | src/Gui/Common/BlockchainInstaller.cpp:57-60 | with a valid snapshot and no data directory or no `blocks.dat` in it (lines 119-121), `exec` installs without asking; the result does not depend on the index files or on the answer, so no height is read |
| `Installer.PromptIff` | src/Gui/Common/BlockchainInstaller.cpp:62-70 | the question is asked if and only if the snapshot is valid, an installed chain exists, both index files open and the installed count is below the bundled one; its `%1` is the installed height and its `%2` the bundled height |
| `Installer.InstallsIff` | src/Gui/Common/BlockchainInstaller.cpp:52-73 | `exec` installs if and only if the snapshot is valid and either no chain is installed or the installed one is outdated and the answer is yes; a declined question over an installed chain installs nothing |
| `Installer.ZeroCountTargetIsOutdated` | src/Gui/Common/BlockchainInstaller.cpp:136-140 | an installed index with count 0 is outdated against any bundled chain with count at least 1, and the question shows its height as `0xFFFF_FFFF` |
| `Installer.ExitCode` | src/Gui/Common/BlockchainInstaller.cpp:165-177 | the value `waitLoop.exec()` returns is 0 if and only if the copy finished or reported error code 0; after `errorSignal(code)` it is that code |
| `Installer.InstallBlockchain` | src/Gui/Common/BlockchainInstaller.cpp:155-185 | the index copy runs first, with the reference outcome; the blocks copy runs after it, with its own reference outcome, if and only if the first wait loop returned 0 |
| `Installer.InstallOrder` | src/Gui/Common/BlockchainInstaller.cpp:168-181 | the first copy started is always the index file, and at most two copies are started; the blocks copy is started if and only if the index copy finished (or reported code 0); when both finish, the target holds both files exactly as bundled |
| `Installer.BlocksFailureLeavesIndex` | src/Gui/Common/BlockchainInstaller.cpp:176-181 | when the index copy finishes and the blocks target fails to open, the install ends with that open error and the copied index file stays in place |
| `Installer.Exec` | src/Gui/Common/BlockchainInstaller.cpp:52-74 | the early-return sequence gives the outcome `Decide` prescribes; it runs `installBlockchain` if and only if that outcome installs, and then with each copy's own view of its bundled source file |
| `Installer.JobFor` | src/Gui/Common/BlockchainInstaller.cpp:195-206 | the copy reads the bundled file as its own `open` finds it: the source bytes are that file's, and its open succeeds if and only if the file exists and is readable, failing otherwise with the reported error code |
| `Installer.VanishedSourceFailsCopy` | src/Gui/Common/BlockchainInstaller.cpp:203-206 | a bundled file that no longer opens when its copy starts ends that copy with the open error, and the target is never opened |
| `Installer.ValidSourceOpensForCopy` | src/Gui/Common/BlockchainInstaller.cpp:90-94 | when the bundled files are still as the genesis check found them, both copies open their source files, and the blocks source holds at least `0xd5` bytes |

## Left out

- Qt threading and event loops are not modelled: `QThread`, `moveToThread`, queued connections, `QEventLoop` and `QApplication::processEvents`. They only keep the interface responsive. Each copy is a call that returns its outcome, and the value of `waitLoop.exec()` is `ExitCode` of that outcome.
- The `QuestionDialog` and the `tr()` texts are not modelled. The question is the pair of heights it shows, and the answer is a boolean parameter.
- The status messages sent through `showMessageSignal` are not modelled. This includes the percentage in `copyProgress` (lines 151-153), which uses floating-point division and formatting. The model keeps the `(copied, total)` reports that feed it.
- The data directory from `Settings` and the application directory from `QDir::current()` are inputs (`Location`). `mkpath` is opaque: its success or failure shows only in whether the target files open for writing.
- Read errors while sniffing the index and blocks files (lines 102, 111, 136-137) are not modelled. Those reads are taken to return the file's bytes.
- Reads that return fewer bytes than asked before the end of the file are not modelled. Such reads happen on pipes, not regular files.
- Partial writes are not modelled. A write either stores the whole chunk or returns -1.
- `file_size` comes from `sourceFile.size()`, taken before the open. The model takes it to be the length of the source bytes. It only appears in reports, and reports are made only after the open succeeds.
- An `errorSignal` whose code is 0 ends the wait loop just as `copyFinished` does, so the install goes on. The model keeps this behaviour (`ExitCode`) and does not decide whether Qt can ever report code 0 there.
- The on-disk state after an install is given by each copy's `written` field. The model has no separate file-system value.
- The heap buffer that `checkIfCurrentBlockchainExists` leaks (lines 77-82) and other memory management are not modelled. They do not affect behaviour.
- `currentBlockchainInfo` and `BittoriumBlockchainInfo` (lines 143-149) are not modelled. They only build `QFileInfo` objects and take no part in the decision or the copy.
