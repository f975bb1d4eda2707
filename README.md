# diskcheck, modelled in Dafny

`diskcheck` checks that a pendrive, disk or other block device (or a regular
file) can be read, and optionally written, reliably. Its command line is a list
of paths interleaved with four sticky flags: `-ro` and `-rw` pick the read-only
or the destructive check, and `--fail` and `--no-fail` decide whether a path
that cannot be opened ends the run. For each path the program:

- determines the size: `st_size`, or the sector count times 512 for a block
  device;
- prints the size through `to_string`;
- walks the medium chunk by chunk, where a chunk is the block size times 128;
- prints a percent through `status` before each chunk, and 100 at the end.

The read-only check reads each chunk twice and compares the two reads. The
destructive check, for each chunk:

1. reads the original bytes;
2. overwrites them with random bytes and reads them back;
3. writes the original back;
4. reads the chunk once more and compares it with the original.

A path that cannot be stat-ed is skipped under `--no-fail` and ends the run
under `--fail`. A failed sector query, a failed allocation and any failure of a
check call `exit(-1)`. A size too long for its 32-byte field throws
`std::out_of_range`, which nothing catches, so the process ends through
`std::terminate`.

The model runs these steps against an in-memory device:

- `FakeDisk.Device` is a class with a byte-sequence content, a file position and
  a count of I/O calls. Regular files grow when written past their end. Block
  devices take only what fits. A set of call numbers makes chosen calls fail.
- `Medium` is the same state as a value. `ReadCount`, `AfterRead`, `WriteCount`
  and `AfterWrite` say what each call answers and leaves behind.

Each loop of the program is an imperative method:

- `Decimal.ToString`
- `Arguments.CollectTargets`
- `ReadOnlyCheck.RoLoop`
- `DestructiveCheck.RwLoop` and its stage methods
- `Driver.Run`

Each method except those of `Driver` that visit targets (`VisitTarget`,
`VisitNext`, `VisitAll` and `Run`) is proved equal to a specification function
of the initial state:

- `RoScan` and `RoCheck` for the read-only check;
- `RwScan` and `RwCheck` for the destructive check;
- `Targets` and `SettingsAfter` for the argument loop;
- `Digits` for the decimal rendering.

A run visits several devices, and a path may name a device an earlier visit
already changed. So these four are proved against the predicate `Visited`, one
visit at a time, and each device ends the run in the state `Before` gives
after the last visit. Each visit's result is `NotOpened` for a path that names no
device. Otherwise the result follows `DiscoverSize` and the check of the
target's mode, run on that device's state before the visit. `Before` gives
that state: what the last earlier visit to the same device left, or the
device's initial state.

The program's properties are then proved about these functions as lemmas.

A fatal error, whether `exit(-1)`, `error_encounter` or a thrown exception, is
an error value. `Failure` names what failed. The percents passed to `status`
form the `progress` of a `Report`.

The destructive check is modelled twice. `DestructiveCheck.Variant` selects
between them:

- `AsWritten` follows the code: its writes and its final comparison span the
  whole chunk buffer.
- `Corrected` writes and compares only the bytes the first read returned.
  These two changes are what the two findings below call for. It also checks
  the count of the final read. The findings do not need that third change;
  it is there so that `RwScanKeeps` holds for the corrected variant on any
  medium, with no premise that the medium is healthy.

`Driver.Run` and `HandleFileRw` take the variant as a parameter.

The destructive check is designed to leave every medium as it found it and
pass on a healthy one. The code falls short when the length is not a whole
number of chunks (see Findings). A regular file is then overwritten past its
end, grows and fails (Finding 1). A block device gets every byte back, but
fails the final comparison on its short last chunk (Finding 2). The model
follows the code.

## Model

| member | source | states |
|---|---|---|
| Decimal.ToString | src/main.cpp:248-258 | returns -1 exactly when the number has more digits than the buffer has slots; on 0 the buffer is zero bytes followed by the ASCII digits of the number (0 as the single digit '0'); on -1 it holds the low-order digits that fit; a negative number leaves one character below '0'+1 |
| Decimal.DigitsRoundTrip | src/main.cpp:254-256 | reading back the digits the loop writes gives the number again |
| Decimal.DigitsLength | src/main.cpp:253 | a number needs at most k digits exactly when it is below 10^k, which fixes when the buffer runs out |
| Decimal.DigitStep | src/main.cpp:254-255 | one pass writes the last digit of the number (C's `%`) and leaves the digits of C's quotient, if positive, still to write |
| Progress.Status | src/main.cpp:126-135 | the line is five bytes, carriage return first and `%` last; for a percent in 0..100 the middle three are its zero-padded decimal digits |
| Progress.ProgressLineNonNegative | src/main.cpp:129-133 | for a non-negative percent, the three digit slots are '0' plus (p/100)%10, (p/10)%10 and p%10 in mathematical arithmetic |
| Progress.ProgressLinePadded | src/main.cpp:130-132 | for a non-negative percent, the three digit slots are the percent modulo 1000, zero-padded to three digits |
| Progress.ProgressLineShowsPercent | src/main.cpp:130-132 | for a percent in 0..100 the slots are its zero-padded digits; for any non-negative percent they denote it modulo 1000 |
| Progress.LeadingZerosKeepValue | src/main.cpp:130-132 | padding digits on the left with '0' keeps the number they denote |
| Progress.PercentIsDivision | src/main.cpp:151 | for an offset i below the size, the percent is C's (i*100)/size |
| Progress.PercentMonotone | src/main.cpp:151 | a larger offset never gives a smaller percent |
| Progress.ProgressOkMeans | src/main.cpp:149-171 | a well-formed series of percents is non-empty, never decreases, keeps every value but the last in 0..99, and ends with 100 exactly when the check passed |
| Progress.ProgressResumes | src/main.cpp:149-151 | the percent at offset i, put before the series of a scan resuming further on, keeps the series well formed |
| Arguments.CollectTargets | src/main.cpp:44-64 | the loop, updating the two globals flag by flag, yields exactly the targets of the argument list, in order, each with the settings in force at it |
| Arguments.SettingsAreLastFlags | src/main.cpp:20-21 | the mode is read-write exactly when a `-rw` occurs with no `-ro` after it, and fail-fast is on exactly when a `--fail` occurs with no `--no-fail` after it; with no flag both keep the defaults read-only and no-fail |
| Arguments.TargetsPrefix | src/main.cpp:44-64 | the targets of a prefix of the arguments are a prefix of the targets of all of them |
| Arguments.TargetAt | src/main.cpp:62-64 | an argument that is not a flag becomes the next target, carrying the settings left by the arguments before it |
| Arguments.TargetOrigin | src/main.cpp:46-64 | every target is an argument that is not one of the four flags, with the settings in force at that argument |
| Arguments.LastIsSnoc | src/main.cpp:46-61 | appending an argument makes `on` the last of the pair exactly when it is `on`, or it is not `off` and `on` was already last |
| Sizing.DiscoverSize | src/main.cpp:67-86 | a size exists exactly when stat succeeds and gives a non-zero `st_size` or the sector query succeeds; it is `st_size` when non-zero, else sectors times 512; a failed stat skips the target or aborts according to the fail flag; a failed sector query always aborts |
| Sizing.PolicyOnlyAffectsStatFailure | src/main.cpp:68-76 | the fail flag changes the outcome of sizing exactly when stat fails |
| Scan.AllocatedChunk | src/main.cpp:144-147 | when the buffers can be allocated, a chunk is at least 1024 bytes, so each pass can advance |
| FakeDisk.Device.SectorQuery | src/main.cpp:80-82 | `BLKGETSIZE` fails on a regular file and answers with the sector count on a block device |
| FakeDisk.OverwriteRestore | src/main.cpp:222-223 | writing back the bytes that were in a range undoes any write over that range |
| ReadOnlyCheck.RoPass | src/main.cpp:153-167 | one pass stops on a first read below one byte, on a second read of a different count, or on differing bytes, and otherwise advances by the first read's count, exactly as the step function `RoStep` says |
| ReadOnlyCheck.RoLoop | src/main.cpp:149-171 | the loop's outcome, percents and final device state are those of the read-only scan of the initial state |
| ReadOnlyCheck.HandleFileRo | src/main.cpp:137-174 | the whole read-only check, allocation included, ends as `RoCheck` of the initial state says |
| ReadOnlyCheck.RoScanStop | src/main.cpp:151-167 | a scan whose pass stops reports that failure after one percent |
| ReadOnlyCheck.RoScanNext | src/main.cpp:149-151 | a scan whose pass succeeds reports its percent, then continues from the offset advanced by the bytes read |
| ReadOnlyCheck.RoStepFacts | src/main.cpp:153-167 | a pass never changes the content, and on a stable medium within its end it succeeds and advances the position by what it read |
| ReadOnlyCheck.RoKeepsContent | src/main.cpp:137-174 | the read-only check never changes the medium's content |
| ReadOnlyCheck.RoOnlyReadFailures | src/main.cpp:153-167 | a read-only scan started at its own offset either passes or fails on a read; with truthful reads the consistency comparison never fails |
| ReadOnlyCheck.RoProgressOk | src/main.cpp:149-171 | the percents of a read-only scan start at the first offset's percent, stay in 0..99 and never decrease while it runs, and end with exactly 100 when it passes |
| ReadOnlyCheck.RoHealthyPasses | src/main.cpp:153-167 | on a stable medium holding at least `size` bytes the read-only scan passes |
| ReadOnlyCheck.RoCatchesShortMedium | src/main.cpp:153-155 | a medium shorter than the claimed size fails with a read failure |
| ReadOnlyCheck.RoVerdict | src/main.cpp:137-174 | on a stable medium the read-only check passes exactly when the buffers can be allocated and the medium holds at least `size` bytes |
| DestructiveCheck.PayloadAt | src/main.cpp:203 | byte j of the k-th random payload is the k-th random draw's byte j |
| DestructiveCheck.RwScanUnfold | src/main.cpp:191-195 | each pass of the destructive scan first reports the percent of its offset |
| DestructiveCheck.OverwriteConfined | src/main.cpp:204 | a write of at most one chunk at offset i changes nothing outside [i, i+chunk) |
| DestructiveCheck.RwScanKeeps | src/main.cpp:191-240 | a destructive scan that passes leaves the content as it found it and saw all `size` bytes; whatever the outcome, it changes at most one chunk |
| DestructiveCheck.StampKeeps | src/main.cpp:203-210 | from the random write on, a pass that passes restores the content, and at most its own chunk differs |
| DestructiveCheck.ConfirmKeeps | src/main.cpp:213-220 | from the confirming read on, with the random bytes in place, a passing run restores the content, and at most one chunk differs |
| DestructiveCheck.RestoreKeeps | src/main.cpp:222-229 | from the restore on, a passing run puts the original back, and at most one chunk differs |
| DestructiveCheck.RecheckKeeps | src/main.cpp:231-239 | from the final read on, with the content restored, the rest of the scan keeps that property |
| DestructiveCheck.RwHealthyPass | src/main.cpp:195-239 | on a stable medium, a pass at an offset inside the medium succeeds and leaves the content as it was, five calls later and one chunk further; as written this needs a whole chunk before the end |
| DestructiveCheck.RwScanHealthyStep | src/main.cpp:191-239 | on a stable medium, the scan is its percent followed by the scan one chunk further on the unchanged content |
| DestructiveCheck.StampHealthy | src/main.cpp:203-229 | on a stable medium the random write, the confirming read and the restore all succeed and put the original bytes back |
| DestructiveCheck.ConfirmHealthy | src/main.cpp:213-229 | on a stable medium holding the random bytes, the confirming read and the restore succeed and put the original back |
| DestructiveCheck.RestoreHealthy | src/main.cpp:222-229 | on a stable medium the restore write succeeds and puts the original back |
| DestructiveCheck.RecheckHealthy | src/main.cpp:231-239 | on a stable medium with the original in place, the final read and comparison succeed and the scan moves one chunk on |
| DestructiveCheck.RwScanHealthy | src/main.cpp:191-240 | on a stable medium holding at least `size` bytes the corrected destructive scan passes |
| DestructiveCheck.RwScanProgress | src/main.cpp:191-242 | the percents of a destructive scan start at the first offset's percent, stay in 0..99 and never decrease while it runs, and end with exactly 100 when it passes |
| DestructiveCheck.RwReadProgress | src/main.cpp:195-201 | a pass from its first read on reports nothing below its offset's percent, and keeps the series well formed |
| DestructiveCheck.StampProgress | src/main.cpp:203-210 | the same from the random write on |
| DestructiveCheck.ConfirmProgress | src/main.cpp:213-220 | the same from the confirming read on |
| DestructiveCheck.RestoreProgress | src/main.cpp:222-229 | the same from the restore on |
| DestructiveCheck.RecheckProgress | src/main.cpp:231-239 | the same from the final read on |
| DestructiveCheck.RwVerdict | src/main.cpp:175-245 | on a stable medium the corrected destructive check passes exactly when the buffers can be allocated and the medium holds at least `size` bytes, and a pass leaves the content unchanged |
| DestructiveCheck.AsWrittenFileGrows | src/main.cpp:204-210 | as written, on a regular file whose remaining length is not a multiple of the chunk, the check fails on a write count and leaves the file longer than it was |
| DestructiveCheck.AsWrittenLastChunk | src/main.cpp:204-210 | as written, the last short chunk of a regular file fails the random write's count check after extending the file to a whole chunk |
| DestructiveCheck.AsWrittenShortDeviceFails | src/main.cpp:233-239 | as written, a block device shorter than one chunk, whose first random payload is not all zero past the device's end, fails the restore comparison even though its content was restored |
| DestructiveCheck.ShortDeviceUpToRecheck | src/main.cpp:195-229 | as written, on a block device shorter than one chunk, every step before the final read succeeds and restores the content |
| DestructiveCheck.ShortDeviceRecheck | src/main.cpp:231-239 | as written, the final comparison on such a device looks past the device's end, and fails when the random bytes there are not all zero |
| DestructiveCheck.AsWrittenAlignedPasses | src/main.cpp:191-240 | as written, on a stable medium whose length from the offset is a whole number of chunks, the destructive scan passes |
| DestructiveCheck.AsWrittenAlignedRestores | src/main.cpp:175-245 | as written, from offset 0 on a stable medium whose length is a whole number of chunks, the destructive scan passes and leaves the content unchanged |
| DestructiveCheck.RwCorrectedRestores | src/main.cpp:191-240 | corrected, on a stable medium holding at least `size` bytes, the destructive scan passes and leaves the content unchanged, whatever the size |
| DestructiveCheck.RwPass | src/main.cpp:195-239 | one pass of the loop body ends as `RwRead` says: the failure, or the scan from the next offset |
| DestructiveCheck.RwStampStage | src/main.cpp:203-210 | the random write, its count check and the stages after it end as specified |
| DestructiveCheck.RwConfirmStage | src/main.cpp:213-220 | the confirming read, its count check and the stages after it end as specified |
| DestructiveCheck.RwRestoreStage | src/main.cpp:222-229 | the restore write, its count check and the stage after it end as specified |
| DestructiveCheck.RwRecheckStage | src/main.cpp:231-239 | the final read and comparison end as specified |
| DestructiveCheck.RwRound | src/main.cpp:193-239 | one iteration reports its percent and leaves the run owing exactly the scan from the next offset |
| DestructiveCheck.RwLoop | src/main.cpp:191-244 | the loop's outcome, percents and final device state are those of the destructive scan of the initial state |
| DestructiveCheck.HandleFileRw | src/main.cpp:175-245 | the whole destructive check, allocation included, ends as `RwCheck` of the initial state says |
| Driver.Fatal | src/main.cpp:68-90 | a failed stat ends the run only under `--fail`; a failed sector query or a size too long to print always does; a check ends it exactly when it failed |
| Driver.HandleFile | src/main.cpp:105-114 | the read-only mode runs the read-only check and the read-write mode the destructive one |
| Driver.EmptyFileAborts | src/main.cpp:78-84 | an empty regular file has `st_size` 0 and `BLKGETSIZE` fails on it, so its visit is the sector-query failure, which always ends the run and leaves the file as it was |
| Driver.VisitTarget | src/main.cpp:64-95 | a path that cannot be opened is `NotOpened`. Otherwise the size follows the size rule; a failed size query or a size too long for 32 bytes (`SizeFailed`, `TooLong`) leaves the device as it was, only opened at position 0; any other size is shown right-aligned in 32 bytes, and the outcome, percents and final device state are those of the check of the target's mode, run from position 0 of the device's state before the visit |
| Driver.RecordedExtend | src/main.cpp:44-64 | a further visit whose result is what its target called for, from the state the earlier visits left its device in, keeps the whole record of visits correct |
| Driver.StatesExtend | src/main.cpp:64-97 | after a further visit, the device it opened is in the state the visit left, and every other device is as before |
| Driver.VisitNext | src/main.cpp:44-97 | one turn of the loop visits the next target and keeps both the record of visits and each device's state in step with `Before` |
| Driver.VisitAll | src/main.cpp:44-98 | the targets are visited in order, each recorded as `Visited` says from the state earlier visits left, until they run out or one is fatal, which is then the last visit; afterwards every device is in the state `Before` gives after the last visit |
| Driver.Run | src/main.cpp:26-100 | with no argument, the help (status 1). Otherwise the targets are visited in order until one is fatal, which ends the run with its failure; a run that completes visited every target without a fatal result. A visit to a path that names no device is `NotOpened`. Any other visit is sized by the size rule and shows that size right-aligned; one that fits the field has the outcome, percents and final device state of its mode's check, run from the state earlier visits left. At the end every device is in the state its last visit left, or its initial state if no visit opened it |

## Left out

- System calls beyond the fake device. `open` flags (`O_DIRECT`, `O_SYNC`, `O_NOATIME`, `O_NOCTTY`), `close` is not modelled, `fstat` only through `Device.StatSize` and the device's `blkSize`, and `ioctl(BLKGETSIZE)` only through `Device.SectorQuery`. A device carries its size, block size and sector count, and a path missing from the device map is one that cannot be opened or stat-ed. No other stat failure is modelled.
- `posix_memalign` is modelled as a predicate only. Allocation succeeds when the block size is a power of two and a multiple of `sizeof(void *)`, and a single `memoryOk` flag says whether memory is available. Address alignment is not modelled.
- Uninitialised buffer memory is modelled as zero bytes.
- `getrandom` is a parameter `rand`: byte j of the k-th call. Its return value is ignored, as in the source.
- Terminal output is not modelled: the help text, colour codes, the path and size lines, `strerror`, and the fd 1 and fd 2 writes. `status` and `to_string` produce their bytes, and the run records them.
- Progress is not modelled as I/O. `status` is called with the percent, and the model records the percent in the `Report`.
- The `size_t` to `int` narrowing when the size is passed to `to_string` (src/main.cpp:89) is not modelled. The model renders the full size, so sizes of 2^31 bytes and more are shown as their true digits, not as the program shows them.
- Overflow of `off_t` and `long` in `i*100` and `iosize*512` is not modelled: integers are unbounded.
- Memory leaks from `new char[...]` are not modelled.
- The seek checks are dead in the model. `Device.Seek` always lands on the requested offset, so the seek-failure branch of the read-only check (src/main.cpp:159-160) cannot fire.
- Reads are truthful. A faulty call fails outright with -1; a device that returns wrong bytes is not modelled. So the consistency comparison of the read-only check (src/main.cpp:166-167) can never fire in the model (`ReadOnlyCheck.RoOnlyReadFailures`). Nor can the restore comparison (src/main.cpp:235) fail on a medium that really changed: it fails only through the as-written comparison past the bytes read (Finding 2).
- All targets of a run share one `rand`, so the k-th pass draws the same random bytes on every destructive target. They also share one `memoryOk`, so allocation either succeeds for every target or fails for the first one checked.
- `confirm_random` is read but never compared in the source, so the model only checks its count.
- The "bad write mode flag" exception (src/main.cpp:111-112) cannot happen: the mode has exactly two values.
- Concurrency and timing are not modelled: the program is single-threaded.
- DestructiveCheck.RwScanKeeps: for the as-written variant, the content promises assume a stable medium with no failing call ahead. The whole-run promise also needs a block device, because as written a regular file can grow (Finding 1).
- DestructiveCheck.RwScanHealthy: proved for the corrected variant only. As written, a stable regular file whose length is not a multiple of the chunk fails (Finding 1). So does the short last chunk of such a block device, whose final comparison looks past the bytes read (Finding 2). For the as-written variant, `AsWrittenAlignedPasses` and `AsWrittenAlignedRestores` prove the pass and the restored content when the length is a whole number of chunks.
- DestructiveCheck.RwVerdict: stated for the corrected variant only, for the same reason.
- The corrected variant also checks the count of the final read (src/main.cpp:233), which the source ignores.

## Findings

| source | as written | input that shows it | evidently intended | confidence | as-written member | corrected member |
|---|---|---|---|---|---|---|
| src/main.cpp:204 | the random write, and likewise the restore at line 223, always passes the whole chunk size to `write`, not `bytesRead` | a 100-byte regular file with an `st_blksize` of 4096 (chunk 524288): the first read returns 100; the write extends the file to 524288 bytes of random data; the count check at line 206 then fails, with the original 100 bytes overwritten | write `bytesRead` bytes, so a short last chunk is overwritten and restored in place | not executed | DestructiveCheck.AsWrittenFileGrows | DestructiveCheck.RwCorrectedRestores |
| src/main.cpp:235 | the final `memcmp` compares the whole chunk buffer, not the `bytesRead` bytes read back | a 512-byte block device with a 4096-byte block size: the read fills 512 bytes and the tail of `original` stays as allocated; the tail of the buffer read back is still random; the comparison fails although the device was restored | compare `bytesRead` bytes | not executed | DestructiveCheck.AsWrittenShortDeviceFails | DestructiveCheck.RwCorrectedRestores |
