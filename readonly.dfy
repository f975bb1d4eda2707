/** The non-destructive verifier `handle_file_ro` (src/main.cpp:137-174): each
    chunk is read, the position is sought back to its start, the chunk is read
    again, and the two reads must agree in length and content. */
module ReadOnlyCheck {
  import opened Common
  import opened FakeDisk
  import opened Progress
  import opened Scan

  /** One pass of the loop of `handle_file_ro` at offset `i`, starting from
      medium `m` with `chunk`-byte reads. */
  function RoStep(m: Medium, chunk: nat, i: nat): (s: Step<()>)
    ensures s.Next? ==> s.advance >= 1
  {
    var n := ReadCount(m, chunk);
    var first := ReadData(m, chunk);
    var m1 := AfterRead(m, chunk);
    if n < 1 then Stop(ReadFailed, m1)
    else
      var m2 := m1.(pos := i);
      var n2 := ReadCount(m2, chunk);
      var second := ReadData(m2, chunk);
      var m3 := AfterRead(m2, chunk);
      if n2 != n then Stop(ReadFailed, m3)
      else if !SameBytes(first, second) then Stop(ConsistencyFailed, m3)
      else Next(m3, n, ())
  }

  /** The scan from offset `i` on, for a `size`-byte target: the percent is
      reported before each pass and 100 once the loop ends. */
  function RoScan(m: Medium, size: nat, chunk: nat, i: nat): (r: Report)
    decreases if i < size then size - i else 0, 1
  {
    if i >= size then Report(Pass, [100], m)
    else After([Percent(i, size)], RoRest(m, size, chunk, i))
  }

  /** The pass at offset `i` and what follows it. */
  function RoRest(m: Medium, size: nat, chunk: nat, i: nat): (r: Report)
    requires i < size
    decreases size - i, 0
  {
    match RoStep(m, chunk, i)
    case Stop(f, m') => Report(Fail(f), [], m')
    case Next(m', n, _) => RoScan(m', size, chunk, i + n)
  }

  /** A scan whose first pass stops reports that failure after one percent. */
  lemma RoScanStop(m: Medium, size: nat, chunk: nat, i: nat, f: Failure, m': Medium)
    requires i < size && RoStep(m, chunk, i) == Stop(f, m')
    ensures RoScan(m, size, chunk, i) == Report(Fail(f), [Percent(i, size)], m')
  {
  }

  /** A scan whose first pass moves on is that pass's percent followed by the
      scan from where the pass left off. */
  lemma RoScanNext(m: Medium, size: nat, chunk: nat, i: nat, m': Medium, n: nat)
    requires i < size && RoStep(m, chunk, i) == Next(m', n, ())
    ensures RoScan(m, size, chunk, i) == After([Percent(i, size)], RoScan(m', size, chunk, i + n))
  {
  }

  /** A whole read-only run: allocation of the two buffers, then the scan. */
  function RoCheck(m: Medium, blockSize: nat, size: nat, memoryOk: bool): Report
  {
    if !Allocates(blockSize, memoryOk) then Report(Fail(AllocFailed), [], m)
    else RoScan(m, size, ChunkSize(blockSize), 0)
  }

  /** One pass of the loop body of `handle_file_ro` on its two buffers;
      `stop` names the failure that ends the run, if any. */
  method RoPass(dev: Device, chunk: nat, i: nat, buf: array<byte>, confirm: array<byte>)
    returns (bytesRead: int, stop: Option<Failure>)
    requires buf.Length == chunk && confirm.Length == chunk && buf != confirm
    modifies dev, buf, confirm
    ensures stop.Some? ==> RoStep(old(dev.State()), chunk, i) == Stop(stop.value, dev.State())
    ensures stop.None? ==> bytesRead >= 1 && RoStep(old(dev.State()), chunk, i) == Next(dev.State(), bytesRead, ())
  {
    ghost var m := dev.State();
    bytesRead := dev.Read(buf, chunk);
    if bytesRead < 1 {
      return bytesRead, Some(ReadFailed);
    }
    ghost var first := buf[..bytesRead];
    assert first == ReadData(m, chunk);
    var newOff := dev.Seek(i);
    ghost var m2 := dev.State();
    var bytesRead2 := dev.Read(confirm, chunk);
    if bytesRead != bytesRead2 {
      return bytesRead, Some(ReadFailed);
    }
    assert buf[..bytesRead] == first;
    assert confirm[..bytesRead] == ReadData(m2, chunk);
    SameBytesIsEqual(first, ReadData(m2, chunk));
    if buf[..bytesRead] != confirm[..bytesRead] {
      return bytesRead, Some(ConsistencyFailed);
    }
    return bytesRead, None;
  }

  /** The loop of `handle_file_ro` from offset 0, on its two buffers. */
  method RoLoop(dev: Device, size: nat, chunk: nat, buf: array<byte>, confirm: array<byte>)
    returns (outcome: Outcome, progress: seq<int>)
    requires buf.Length == chunk && confirm.Length == chunk && buf != confirm
    modifies dev, buf, confirm
    ensures RoScan(old(dev.State()), size, chunk, 0) == Report(outcome, progress, dev.State())
  {
    ghost var goal := RoScan(dev.State(), size, chunk, 0);
    var i: nat := 0;
    progress := [];
    assert progress + goal.progress == goal.progress;
    while i < size
      invariant goal == After(progress, RoScan(dev.State(), size, chunk, i))
      decreases size - i
    {
      ghost var m := dev.State();
      ghost var done := progress;
      var p := Percent(i, size);
      progress := progress + [p];
      var bytesRead, stop := RoPass(dev, chunk, i, buf, confirm);
      if stop.Some? {
        RoScanStop(m, size, chunk, i, stop.value, dev.State());
        AfterAfter(done, [p], Report(Fail(stop.value), [], dev.State()));
        return Fail(stop.value), progress;
      }
      RoScanNext(m, size, chunk, i, dev.State(), bytesRead);
      AfterAfter(done, [p], RoScan(dev.State(), size, chunk, i + bytesRead));
      assert goal == After(progress, RoScan(dev.State(), size, chunk, i + bytesRead));
      i := i + bytesRead;
    }
    progress := progress + [100];
    return Pass, progress;
  }

  /** `handle_file_ro` on an open device: the two buffers are allocated, then
      the loop runs; `progress` lists the percents passed to `status`. */
  method HandleFileRo(dev: Device, blockSize: nat, size: nat, memoryOk: bool)
    returns (outcome: Outcome, progress: seq<int>)
    modifies dev
    ensures RoCheck(old(dev.State()), blockSize, size, memoryOk) == Report(outcome, progress, dev.State())
  {
    if !Allocates(blockSize, memoryOk) {
      return Fail(AllocFailed), [];
    }
    var chunk := ChunkSize(blockSize);
    var buf := new byte[chunk](_ => 0);
    var confirm := new byte[chunk](_ => 0);
    outcome, progress := RoLoop(dev, size, chunk, buf, confirm);
  }

  /** A pass only reads and seeks: the medium's content and kind survive it,
      and on a healthy medium positioned at `i` it succeeds whenever `i` is
      inside the medium, leaving the position just past what it read. */
  lemma RoStepFacts(m: Medium, chunk: nat, i: nat)
    ensures RoStep(m, chunk, i).medium.content == m.content
    ensures RoStep(m, chunk, i).medium.kind == m.kind
    ensures RoStep(m, chunk, i).medium.calls >= m.calls
    ensures RoStep(m, chunk, i).medium.faults == m.faults
    ensures m.pos == i && Healthy(m) && chunk > 0 && i < |m.content| ==>
      RoStep(m, chunk, i).Next? && RoStep(m, chunk, i).medium.pos == i + RoStep(m, chunk, i).advance
    ensures m.pos == i && RoStep(m, chunk, i).Next? ==>
      RoStep(m, chunk, i).medium.pos == i + RoStep(m, chunk, i).advance <= |m.content|
    ensures m.pos == i && RoStep(m, chunk, i).Stop? ==> RoStep(m, chunk, i).failure == ReadFailed
  {
    var m2 := AfterRead(m, chunk).(pos := i);
    var n := ReadCount(m, chunk);
    if m.pos == i && n >= 1 && ReadCount(m2, chunk) == n {
      assert ReadData(m2, chunk) == ReadData(m, chunk);
      SameBytesIsEqual(ReadData(m, chunk), ReadData(m2, chunk));
    }
  }

  /** The read-only verifier never changes the medium's content. */
  lemma {:induction false} RoKeepsContent(m: Medium, size: nat, chunk: nat, i: nat)
    ensures RoScan(m, size, chunk, i).medium.content == m.content
    ensures RoScan(m, size, chunk, i).medium.kind == m.kind
    decreases if i < size then size - i else 0
  {
    if i < size {
      RoStepFacts(m, chunk, i);
      match RoStep(m, chunk, i)
      case Stop(f, m') =>
        RoScanStop(m, size, chunk, i, f, m');
        assert RoScan(m, size, chunk, i).medium == m';
      case Next(m', n, _) =>
        RoScanNext(m, size, chunk, i, m', n);
        RoKeepsContent(m', size, chunk, i + n);
        assert RoScan(m, size, chunk, i).medium == RoScan(m', size, chunk, i + n).medium;
    }
  }

  /** Reads that return what the medium holds agree with each other: a scan
      started at its own offset never fails the consistency comparison,
      and any failure it meets is a read failure. */
  lemma {:induction false} RoOnlyReadFailures(m: Medium, size: nat, chunk: nat, i: nat)
    requires m.pos == i
    ensures RoScan(m, size, chunk, i).outcome == Pass || RoScan(m, size, chunk, i).outcome == Fail(ReadFailed)
    decreases if i < size then size - i else 0
  {
    if i < size {
      RoStepFacts(m, chunk, i);
      match RoStep(m, chunk, i)
      case Stop(f, m') =>
        RoScanStop(m, size, chunk, i, f, m');
      case Next(m', n, _) =>
        RoScanNext(m, size, chunk, i, m', n);
        RoOnlyReadFailures(m', size, chunk, i + n);
    }
  }

  /** The percents of a scan never decrease, stay below 100 while the scan
      runs, and end with exactly 100 when it passes. */
  lemma {:induction false} RoProgressOk(m: Medium, size: nat, chunk: nat, i: nat)
    ensures ProgressOk(RoScan(m, size, chunk, i).progress, RoScan(m, size, chunk, i).outcome == Pass)
    ensures RoScan(m, size, chunk, i).progress[0] == if i < size then Percent(i, size) else 100
    decreases if i < size then size - i else 0
  {
    if i < size {
      var p := Percent(i, size);
      match RoStep(m, chunk, i)
      case Stop(f, m') =>
        RoScanStop(m, size, chunk, i, f, m');
      case Next(m', n, _) =>
        RoScanNext(m, size, chunk, i, m', n);
        var rest := RoScan(m', size, chunk, i + n);
        assert RoScan(m, size, chunk, i) == Report(rest.outcome, [p] + rest.progress, rest.medium);
        RoProgressOk(m', size, chunk, i + n);
        ProgressResumes(i, n, size, rest.progress, rest.outcome == Pass);
    }
  }

  /** On a medium with no failing call ahead, positioned at the scan offset,
      a scan that stays within the medium passes: the consistency checks
      never fire on a stable device. */
  lemma {:induction false} RoHealthyPasses(m: Medium, size: nat, chunk: nat, i: nat)
    requires chunk > 0 && m.pos == i && size <= |m.content| && Healthy(m)
    ensures RoScan(m, size, chunk, i).outcome == Pass
    decreases if i < size then size - i else 0
  {
    if i < size {
      RoStepFacts(m, chunk, i);
      var step := RoStep(m, chunk, i);
      RoHealthyPasses(step.medium, size, chunk, i + step.advance);
    }
  }

  /** A target that claims more bytes than the medium holds (a fake-capacity
      device) always fails with a read error, whatever else goes wrong. */
  lemma {:induction false} RoCatchesShortMedium(m: Medium, size: nat, chunk: nat, i: nat)
    requires m.pos == i && i <= |m.content| < size
    ensures RoScan(m, size, chunk, i).outcome == Fail(ReadFailed)
    decreases size - i
  {
    RoStepFacts(m, chunk, i);
    var step := RoStep(m, chunk, i);
    if step.Next? {
      RoCatchesShortMedium(step.medium, size, chunk, i + step.advance);
    } else {
      var n := ReadCount(m, chunk);
      var m2 := AfterRead(m, chunk).(pos := i);
      if n >= 1 && ReadCount(m2, chunk) == n {
        assert ReadData(m2, chunk) == ReadData(m, chunk);
        SameBytesIsEqual(ReadData(m, chunk), ReadData(m2, chunk));
      }
    }
  }

  /** From a freshly opened descriptor on a device with no failing calls, the
      read-only run passes exactly when its buffers can be allocated and the
      size does not exceed what the medium holds. */
  lemma RoVerdict(m: Medium, blockSize: nat, size: nat, memoryOk: bool)
    requires m.pos == 0 && Healthy(m)
    ensures RoCheck(m, blockSize, size, memoryOk).outcome == Pass <==>
      Allocates(blockSize, memoryOk) && size <= |m.content|
  {
    if Allocates(blockSize, memoryOk) {
      if size <= |m.content| {
        RoHealthyPasses(m, size, ChunkSize(blockSize), 0);
      } else {
        RoCatchesShortMedium(m, size, ChunkSize(blockSize), 0);
      }
    }
  }
}
