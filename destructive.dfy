/** The destructive verifier `handle_file_rw` (src/main.cpp:175-245): each
    chunk is read, overwritten with random bytes, read back, restored from
    the copy taken first, and read back once more to confirm the restore.

    `AsWritten` follows the code: both writes pass the whole chunk length
    and the restore comparison spans the whole chunk buffer. `Corrected` is
    the evidently intended loop: it writes and compares only the bytes the
    first read returned and checks the count of the final read. */
module DestructiveCheck {
  import opened Common
  import opened FakeDisk
  import opened Progress
  import opened Scan

  datatype Variant = AsWritten | Corrected

  /** The bytes the `k`-th `getrandom` call puts in the chunk-sized `random`
      buffer; `rand` stands for the kernel's random source. */
  function Payload(rand: (nat, int) -> byte, k: nat, chunk: nat): (p: seq<byte>)
    ensures |p| == chunk
    decreases chunk
  {
    if chunk == 0 then [] else Payload(rand, k, chunk - 1) + [rand(k, chunk - 1)]
  }

  /** Byte `j` of it is the `j`-th random byte. */
  lemma {:induction false} PayloadAt(rand: (nat, int) -> byte, k: nat, chunk: nat, j: nat)
    requires j < chunk
    ensures Payload(rand, k, chunk)[j] == rand(k, j)
    decreases chunk
  {
    if j < chunk - 1 {
      PayloadAt(rand, k, chunk - 1, j);
    }
  }

  /** How many bytes each write passes and the restore comparison spans, once
      the first read returned `n`. */
  function Span(v: Variant, n: nat, chunk: nat): nat
  {
    if v == Corrected then n else chunk
  }

  /** The scan from offset `i` on: the loop's test, then the percent passed
      to `status` and the `k`-th pass. `original` is what the `original`
      buffer holds. The passes' stages below continue the scan themselves,
      so each unfolds one stage at a time. */
  function RwScan(v: Variant, m: Medium, size: nat, chunk: nat, rand: (nat, int) -> byte,
                  i: nat, k: nat, original: seq<byte>): Report
    requires |original| == chunk
    decreases if i < size then size - i else 0, 5
  {
    if i >= size then Report(Pass, [100], m)
    else After([Percent(i, size)], RwRead(v, m, size, chunk, rand, i, k, original))
  }

  /** The pass's first read of the chunk into `original`, then a seek back to
      `i`; a read of less than one byte ends the run as a write error. */
  function RwRead(v: Variant, m: Medium, size: nat, chunk: nat, rand: (nat, int) -> byte,
                  i: nat, k: nat, original: seq<byte>): Report
    requires |original| == chunk && i < size
    decreases size - i, 4
  {
    var n := ReadCount(m, chunk);
    var m1 := AfterRead(m, chunk).(pos := i);
    if n < 1 then Report(Fail(WriteFailed), [], m1)
    else RwStamp(v, m1, size, chunk, rand, i, k, n, Fill(original, ReadData(m, chunk)))
  }

  /** Writing the random payload, then seeking back; the write must report
      as many bytes as the first read (`n`). */
  function RwStamp(v: Variant, m: Medium, size: nat, chunk: nat, rand: (nat, int) -> byte,
                   i: nat, k: nat, n: nat, orig: seq<byte>): Report
    requires |orig| == chunk && i < size && 1 <= n <= chunk
    decreases size - i, 3
  {
    var len := Span(v, n, chunk);
    var m2 := AfterWrite(m, Payload(rand, k, chunk)[..len]).(pos := i);
    if WriteCount(m, len) != n then Report(Fail(WriteFailed), [], m2)
    else RwConfirm(v, m2, size, chunk, rand, i, k, n, orig)
  }

  /** Reading the payload back into `confirm_random`, then seeking back; only
      the count of that read is checked. */
  function RwConfirm(v: Variant, m: Medium, size: nat, chunk: nat, rand: (nat, int) -> byte,
                     i: nat, k: nat, n: nat, orig: seq<byte>): Report
    requires |orig| == chunk && i < size && 1 <= n <= chunk
    decreases size - i, 2
  {
    var m3 := AfterRead(m, chunk).(pos := i);
    if ReadCount(m, chunk) != n then Report(Fail(ReadFailed), [], m3)
    else RwRestore(v, m3, size, chunk, rand, i, k, n, orig)
  }

  /** Writing the `original` buffer back, then seeking back. */
  function RwRestore(v: Variant, m: Medium, size: nat, chunk: nat, rand: (nat, int) -> byte,
                     i: nat, k: nat, n: nat, orig: seq<byte>): Report
    requires |orig| == chunk && i < size && 1 <= n <= chunk
    decreases size - i, 1
  {
    var len := Span(v, n, chunk);
    var m4 := AfterWrite(m, orig[..len]).(pos := i);
    if WriteCount(m, len) != n then Report(Fail(WriteFailed), [], m4)
    else RwRecheck(v, m4, size, chunk, rand, i, k, n, orig)
  }

  /** Reading the restored bytes into the `random` buffer and comparing them
      with `original`; no seek follows, and the scan goes on `n` bytes
      further with what the buffers hold. */
  function RwRecheck(v: Variant, m: Medium, size: nat, chunk: nat, rand: (nat, int) -> byte,
                     i: nat, k: nat, n: nat, orig: seq<byte>): Report
    requires |orig| == chunk && i < size && 1 <= n <= chunk
    decreases size - i, 0
  {
    var len := Span(v, n, chunk);
    var back := Fill(Payload(rand, k, chunk), ReadData(m, chunk));
    var m5 := AfterRead(m, chunk);
    if v == Corrected && ReadCount(m, chunk) != n then Report(Fail(ReadFailed), [], m5)
    else if !SameBytes(orig[..len], back[..len]) then Report(Fail(RestoreFailed), [], m5)
    else RwScan(v, m5, size, chunk, rand, i + n, k + 1, orig)
  }

  /** Below `size` the scan reports its percent and runs a pass. */
  lemma RwScanUnfold(v: Variant, m: Medium, size: nat, chunk: nat, rand: (nat, int) -> byte,
                     i: nat, k: nat, original: seq<byte>)
    requires |original| == chunk && i < size
    ensures RwScan(v, m, size, chunk, rand, i, k, original) ==
      After([Percent(i, size)], RwRead(v, m, size, chunk, rand, i, k, original))
  {
  }

  /** A whole destructive run: allocation of the three buffers, whose
      contents start as zeros, then the scan. */
  function RwCheck(v: Variant, m: Medium, blockSize: nat, size: nat, memoryOk: bool,
                   rand: (nat, int) -> byte): Report
  {
    if !Allocates(blockSize, memoryOk) then Report(Fail(AllocFailed), [], m)
    else RwScan(v, m, size, ChunkSize(blockSize), rand, 0, 0, Zeros(ChunkSize(blockSize)))
  }

  /** `b` has the length of `a` and the same bytes, except perhaps the
      `width` bytes from `lo`. */
  predicate SameOutside(a: seq<byte>, b: seq<byte>, lo: nat, width: nat)
  {
    |a| == |b| && forall q :: 0 <= q < |a| && !(lo <= q < lo + width) ==> a[q] == b[q]
  }

  /** Overwriting inside a medium changes nothing outside the written range. */
  lemma OverwriteConfined(c: seq<byte>, i: nat, data: seq<byte>, width: nat)
    requires i + |data| <= |c| && |data| <= width
    ensures SameOutside(c, Overwrite(c, i, data), i, width)
  {
    OverwriteAt(c, i, data);
  }

  /** A scan started at its own offset, within the medium, puts back what it
      overwrote: when the position stays aligned with the offset (always in
      the corrected loop, and as written while no call fails), a run that
      passes leaves the content as it found it and covered no more than the
      medium. When, besides, no write can spill past the medium's end, the
      bytes a run leaves changed all lie within one chunk. */
  lemma {:induction false} RwScanKeeps(v: Variant, m: Medium, size: nat, chunk: nat, rand: (nat, int) -> byte,
                                       i: nat, k: nat, original: seq<byte>)
    requires |original| == chunk && m.pos == i && i <= |m.content|
    ensures (v == Corrected || Healthy(m)) && RwScan(v, m, size, chunk, rand, i, k, original).outcome == Pass ==>
      RwScan(v, m, size, chunk, rand, i, k, original).medium.content == m.content && size <= |m.content|
    ensures v == Corrected || (Healthy(m) && m.kind == BlockDevice) ==>
      exists j: nat :: SameOutside(m.content, RwScan(v, m, size, chunk, rand, i, k, original).medium.content, j, chunk)
    decreases if i < size then size - i else 0, 4
  {
    var c := m.content;
    assert SameOutside(c, c, i, chunk);
    if i < size {
      RwScanUnfold(v, m, size, chunk, rand, i, k, original);
      var n := ReadCount(m, chunk);
      if n >= 1 {
        var data := ReadData(m, chunk);
        BytesIsSlice(c, i, n);
        var orig := Fill(original, data);
        var m1 := AfterRead(m, chunk).(pos := i);
        assert RwRead(v, m, size, chunk, rand, i, k, original) == RwStamp(v, m1, size, chunk, rand, i, k, n, orig);
        StampKeeps(v, m1, size, chunk, rand, i, k, n, orig, c);
      }
    }
  }

  /** The stamp stage onwards, from content `c`, with `orig` holding the `n`
      bytes of `c` at `i` that the first read returned. */
  lemma {:induction false} StampKeeps(v: Variant, m: Medium, size: nat, chunk: nat, rand: (nat, int) -> byte,
                                      i: nat, k: nat, n: nat, orig: seq<byte>, c: seq<byte>)
    requires |orig| == chunk && i < size && 1 <= n <= chunk
    requires m.pos == i && m.content == c && n == Min(chunk, |c| - i) && orig[..n] == c[i..i + n]
    ensures (v == Corrected || Healthy(m)) && RwStamp(v, m, size, chunk, rand, i, k, n, orig).outcome == Pass ==>
      RwStamp(v, m, size, chunk, rand, i, k, n, orig).medium.content == c && size <= |c|
    ensures v == Corrected || (Healthy(m) && m.kind == BlockDevice) ==>
      exists j: nat :: SameOutside(c, RwStamp(v, m, size, chunk, rand, i, k, n, orig).medium.content, j, chunk)
    decreases size - i, 3
  {
    var len := Span(v, n, chunk);
    var payload := Payload(rand, k, chunk);
    if WriteCount(m, len) == n {
      var m2 := AfterWrite(m, payload[..len]).(pos := i);
      assert payload[..len][..n] == payload[..n];
      ConfirmKeeps(v, m2, size, chunk, rand, i, k, n, orig, c);
    } else if v == Corrected {
      assert WriteCount(m, len) == -1;
      assert SameOutside(c, c, i, chunk);
    }
  }

  /** The confirming read onwards, with the payload's first `n` bytes over
      `c` at `i`. */
  lemma {:induction false} ConfirmKeeps(v: Variant, m: Medium, size: nat, chunk: nat, rand: (nat, int) -> byte,
                                        i: nat, k: nat, n: nat, orig: seq<byte>, c: seq<byte>)
    requires |orig| == chunk && i < size && 1 <= n <= chunk
    requires m.pos == i && m.content == Overwrite(c, i, Payload(rand, k, chunk)[..n])
    requires n == Min(chunk, |c| - i) && orig[..n] == c[i..i + n]
    ensures (v == Corrected || Healthy(m)) && RwConfirm(v, m, size, chunk, rand, i, k, n, orig).outcome == Pass ==>
      RwConfirm(v, m, size, chunk, rand, i, k, n, orig).medium.content == c && size <= |c|
    ensures v == Corrected || (Healthy(m) && m.kind == BlockDevice) ==>
      exists j: nat :: SameOutside(c, RwConfirm(v, m, size, chunk, rand, i, k, n, orig).medium.content, j, chunk)
    decreases size - i, 2
  {
    OverwriteConfined(c, i, Payload(rand, k, chunk)[..n], chunk);
    if ReadCount(m, chunk) == n {
      RestoreKeeps(v, AfterRead(m, chunk).(pos := i), size, chunk, rand, i, k, n, orig, c);
    }
  }

  /** The restoring write onwards: it puts `c`'s bytes back. */
  lemma {:induction false} RestoreKeeps(v: Variant, m: Medium, size: nat, chunk: nat, rand: (nat, int) -> byte,
                                        i: nat, k: nat, n: nat, orig: seq<byte>, c: seq<byte>)
    requires |orig| == chunk && i < size && 1 <= n <= chunk
    requires m.pos == i && m.content == Overwrite(c, i, Payload(rand, k, chunk)[..n])
    requires n == Min(chunk, |c| - i) && orig[..n] == c[i..i + n]
    ensures (v == Corrected || Healthy(m)) && RwRestore(v, m, size, chunk, rand, i, k, n, orig).outcome == Pass ==>
      RwRestore(v, m, size, chunk, rand, i, k, n, orig).medium.content == c && size <= |c|
    ensures v == Corrected || (Healthy(m) && m.kind == BlockDevice) ==>
      exists j: nat :: SameOutside(c, RwRestore(v, m, size, chunk, rand, i, k, n, orig).medium.content, j, chunk)
    decreases size - i, 1
  {
    var len := Span(v, n, chunk);
    var payload := Payload(rand, k, chunk);
    if WriteCount(m, len) == n {
      var m4 := AfterWrite(m, orig[..len]).(pos := i);
      assert orig[..len][..n] == c[i..i + n];
      OverwriteRestore(c, i, payload[..n]);
      assert m4.content == c;
      RecheckKeeps(v, m4, size, chunk, rand, i, k, n, orig, c);
    } else if v == Corrected {
      assert WriteCount(m, len) == -1;
      OverwriteConfined(c, i, payload[..n], chunk);
    }
  }

  /** The final read and comparison: on a match the scan goes on from
      `i + n` over the restored content. */
  lemma {:induction false} RecheckKeeps(v: Variant, m: Medium, size: nat, chunk: nat, rand: (nat, int) -> byte,
                                        i: nat, k: nat, n: nat, orig: seq<byte>, c: seq<byte>)
    requires |orig| == chunk && i < size && 1 <= n <= chunk
    requires m.pos == i && m.content == c && n == Min(chunk, |c| - i) && orig[..n] == c[i..i + n]
    ensures (v == Corrected || Healthy(m)) && RwRecheck(v, m, size, chunk, rand, i, k, n, orig).outcome == Pass ==>
      RwRecheck(v, m, size, chunk, rand, i, k, n, orig).medium.content == c && size <= |c|
    ensures v == Corrected || (Healthy(m) && m.kind == BlockDevice) ==>
      exists j: nat :: SameOutside(c, RwRecheck(v, m, size, chunk, rand, i, k, n, orig).medium.content, j, chunk)
    decreases size - i, 0
  {
    assert SameOutside(c, c, i, chunk);
    var len := Span(v, n, chunk);
    var back := Fill(Payload(rand, k, chunk), ReadData(m, chunk));
    var m5 := AfterRead(m, chunk);
    if !(v == Corrected && ReadCount(m, chunk) != n) && SameBytes(orig[..len], back[..len]) {
      assert RwRecheck(v, m, size, chunk, rand, i, k, n, orig) == RwScan(v, m5, size, chunk, rand, i + n, k + 1, orig);
      if v == Corrected || Healthy(m) {
        assert m5.pos == i + n;
        RwScanKeeps(v, m5, size, chunk, rand, i + n, k + 1, orig);
      }
    }
  }

  /** With no failing call ahead, a pass at its own offset inside the medium
      reads `n` bytes (a chunk, or what is left before the end), stamps and
      restores them, and hands on to the scan `n` bytes further, the content
      as before and `original` holding those bytes; five I/O calls were
      made. As written this needs a whole chunk before the end. */
  lemma RwHealthyPass(v: Variant, m: Medium, size: nat, chunk: nat, rand: (nat, int) -> byte,
                      i: nat, k: nat, original: seq<byte>, n: nat)
    requires |original| == chunk && i < size && chunk >= 1
    requires Healthy(m) && m.pos == i && i < |m.content| && n == Min(chunk, |m.content| - i)
    requires v == Corrected || n == chunk
    ensures RwRead(v, m, size, chunk, rand, i, k, original) ==
      RwScan(v, m.(pos := i + n, calls := m.calls + 5), size, chunk, rand, i + n, k + 1,
             Fill(original, m.content[i..i + n]))
  {
    assert m.calls !in m.faults;
    assert ReadCount(m, chunk) == n;
    BytesIsSlice(m.content, i, n);
    assert ReadData(m, chunk) == m.content[i..i + n];
    var orig := Fill(original, m.content[i..i + n]);
    var m1 := m.(calls := m.calls + 1);
    assert AfterRead(m, chunk).(pos := i) == m1;
    assert RwRead(v, m, size, chunk, rand, i, k, original) == RwStamp(v, m1, size, chunk, rand, i, k, n, orig);
    StampHealthy(v, m1, size, chunk, rand, i, k, n, orig);
    var m4 := m.(calls := m.calls + 4);
    assert m1.(calls := m1.calls + 3) == m4;
    RecheckHealthy(v, m4, size, chunk, rand, i, k, n, orig);
    assert m4.(pos := i + n, calls := m4.calls + 1) == m.(pos := i + n, calls := m.calls + 5);
  }

  /** The same seen from the scan: its percent, then the scan `n` bytes
      further. */
  lemma RwScanHealthyStep(v: Variant, m: Medium, size: nat, chunk: nat, rand: (nat, int) -> byte,
                          i: nat, k: nat, original: seq<byte>, n: nat)
    requires |original| == chunk && i < size && chunk >= 1
    requires Healthy(m) && m.pos == i && i < |m.content| && n == Min(chunk, |m.content| - i)
    requires v == Corrected || n == chunk
    ensures RwScan(v, m, size, chunk, rand, i, k, original) ==
      After([Percent(i, size)], RwScan(v, m.(pos := i + n, calls := m.calls + 5), size, chunk, rand, i + n, k + 1,
                                       Fill(original, m.content[i..i + n])))
  {
    RwScanUnfold(v, m, size, chunk, rand, i, k, original);
    RwHealthyPass(v, m, size, chunk, rand, i, k, original, n);
  }

  /** With no failing call ahead, the stamp, the confirming read and the
      restore all succeed and put the content back, leaving the final read
      and comparison to decide. As written this needs a whole chunk before
      the end of a regular file, since its writes span the whole chunk. */
  lemma StampHealthy(v: Variant, m: Medium, size: nat, chunk: nat, rand: (nat, int) -> byte,
                     i: nat, k: nat, n: nat, orig: seq<byte>)
    requires |orig| == chunk && i < size && 1 <= n <= chunk
    requires Healthy(m) && m.pos == i && n == Min(chunk, |m.content| - i) && orig[..n] == m.content[i..i + n]
    requires v == Corrected || n == chunk || m.kind == BlockDevice
    ensures RwStamp(v, m, size, chunk, rand, i, k, n, orig) ==
      RwRecheck(v, m.(calls := m.calls + 3), size, chunk, rand, i, k, n, orig)
  {
    var len := Span(v, n, chunk);
    var payload := Payload(rand, k, chunk);
    assert payload[..len][..n] == payload[..n];
    assert WriteCount(m, len) == n;
    var m2 := m.(content := Overwrite(m.content, i, payload[..n]), calls := m.calls + 1);
    assert AfterWrite(m, payload[..len]).(pos := i) == m2;
    assert RwStamp(v, m, size, chunk, rand, i, k, n, orig) == RwConfirm(v, m2, size, chunk, rand, i, k, n, orig);
    ConfirmHealthy(v, m2, size, chunk, rand, i, k, n, orig, m.content);
    assert m2.(content := m.content, calls := m2.calls + 2) == m.(calls := m.calls + 3);
  }

  /** The confirming read onwards, the payload's first `n` bytes lying over
      `c` at `i`. */
  lemma ConfirmHealthy(v: Variant, m: Medium, size: nat, chunk: nat, rand: (nat, int) -> byte,
                       i: nat, k: nat, n: nat, orig: seq<byte>, c: seq<byte>)
    requires |orig| == chunk && i < size && 1 <= n <= chunk
    requires Healthy(m) && m.pos == i && m.content == Overwrite(c, i, Payload(rand, k, chunk)[..n])
    requires n == Min(chunk, |c| - i) && orig[..n] == c[i..i + n]
    requires v == Corrected || n == chunk || m.kind == BlockDevice
    ensures RwConfirm(v, m, size, chunk, rand, i, k, n, orig) ==
      RwRecheck(v, m.(content := c, calls := m.calls + 2), size, chunk, rand, i, k, n, orig)
  {
    assert ReadCount(m, chunk) == n;
    var m3 := m.(calls := m.calls + 1);
    assert AfterRead(m, chunk).(pos := i) == m3;
    assert RwConfirm(v, m, size, chunk, rand, i, k, n, orig) == RwRestore(v, m3, size, chunk, rand, i, k, n, orig);
    RestoreHealthy(v, m3, size, chunk, rand, i, k, n, orig, c);
    assert m3.(content := c, calls := m3.calls + 1) == m.(content := c, calls := m.calls + 2);
  }

  /** The restoring write puts `c` back. */
  lemma RestoreHealthy(v: Variant, m: Medium, size: nat, chunk: nat, rand: (nat, int) -> byte,
                       i: nat, k: nat, n: nat, orig: seq<byte>, c: seq<byte>)
    requires |orig| == chunk && i < size && 1 <= n <= chunk
    requires Healthy(m) && m.pos == i && m.content == Overwrite(c, i, Payload(rand, k, chunk)[..n])
    requires n == Min(chunk, |c| - i) && orig[..n] == c[i..i + n]
    requires v == Corrected || n == chunk || m.kind == BlockDevice
    ensures RwRestore(v, m, size, chunk, rand, i, k, n, orig) ==
      RwRecheck(v, m.(content := c, calls := m.calls + 1), size, chunk, rand, i, k, n, orig)
  {
    var len := Span(v, n, chunk);
    assert orig[..len][..n] == c[i..i + n];
    OverwriteRestore(c, i, Payload(rand, k, chunk)[..n]);
    assert WriteCount(m, len) == n;
    assert AfterWrite(m, orig[..len]).(pos := i) == m.(content := c, calls := m.calls + 1);
  }

  /** The final read returns the restored bytes, which match. */
  lemma RecheckHealthy(v: Variant, m: Medium, size: nat, chunk: nat, rand: (nat, int) -> byte,
                       i: nat, k: nat, n: nat, orig: seq<byte>)
    requires |orig| == chunk && i < size && 1 <= n <= chunk
    requires Healthy(m) && m.pos == i && n == Min(chunk, |m.content| - i) && orig[..n] == m.content[i..i + n]
    requires v == Corrected || n == chunk
    ensures RwRecheck(v, m, size, chunk, rand, i, k, n, orig) ==
      RwScan(v, m.(pos := i + n, calls := m.calls + 1), size, chunk, rand, i + n, k + 1, orig)
  {
    var len := Span(v, n, chunk);
    BytesIsSlice(m.content, i, n);
    assert ReadCount(m, chunk) == n;
    var back := Fill(Payload(rand, k, chunk), ReadData(m, chunk));
    assert orig[..len] == back[..len];
    SameBytesIsEqual(orig[..len], back[..len]);
    assert AfterRead(m, chunk) == m.(pos := i + n, calls := m.calls + 1);
  }

  /** The corrected loop, with no failing call ahead, passes over any size up
      to the medium's length. */
  lemma {:induction false} RwScanHealthy(m: Medium, size: nat, chunk: nat, rand: (nat, int) -> byte,
                                         i: nat, k: nat, original: seq<byte>)
    requires |original| == chunk && chunk >= 1
    requires Healthy(m) && m.pos == i && size <= |m.content|
    ensures RwScan(Corrected, m, size, chunk, rand, i, k, original).outcome == Pass
    decreases if i < size then size - i else 0
  {
    if i < size {
      var n := Min(chunk, |m.content| - i);
      RwScanHealthyStep(Corrected, m, size, chunk, rand, i, k, original, n);
      RwScanHealthy(m.(pos := i + n, calls := m.calls + 5), size, chunk, rand, i + n, k + 1,
                    Fill(original, m.content[i..i + n]));
    }
  }

  /** The percents a destructive scan reports are well formed: one per pass,
      never decreasing, below 100, and a final 100 exactly on a pass. */
  lemma {:induction false} RwScanProgress(v: Variant, m: Medium, size: nat, chunk: nat, rand: (nat, int) -> byte,
                                          i: nat, k: nat, original: seq<byte>)
    requires |original| == chunk
    ensures ProgressOk(RwScan(v, m, size, chunk, rand, i, k, original).progress,
                       RwScan(v, m, size, chunk, rand, i, k, original).outcome == Pass)
    ensures RwScan(v, m, size, chunk, rand, i, k, original).progress[0] == if i < size then Percent(i, size) else 100
    decreases if i < size then size - i else 0, 5
  {
    if i < size {
      RwScanUnfold(v, m, size, chunk, rand, i, k, original);
      var rest := RwRead(v, m, size, chunk, rand, i, k, original);
      RwReadProgress(v, m, size, chunk, rand, i, k, original);
      if rest.progress != [] {
        ProgressPrepend(Percent(i, size), rest.progress, rest.outcome == Pass);
      }
    }
  }

  /** `r` either failed having reported nothing, or reports well-formed
      percents starting at `p` or above. */
  predicate ReportsFrom(r: Report, p: int)
  {
    (r.progress == [] && r.outcome != Pass) ||
    (r.progress != [] && ProgressOk(r.progress, r.outcome == Pass) && p <= r.progress[0])
  }

  /** A pass either fails having reported nothing more, or hands on to a
      scan whose percents start no lower than this pass's. */
  lemma {:induction false} RwReadProgress(v: Variant, m: Medium, size: nat, chunk: nat, rand: (nat, int) -> byte,
                                          i: nat, k: nat, original: seq<byte>)
    requires |original| == chunk && i < size
    ensures ReportsFrom(RwRead(v, m, size, chunk, rand, i, k, original), Percent(i, size))
    decreases size - i, 4
  {
    var n := ReadCount(m, chunk);
    if n >= 1 {
      var orig := Fill(original, ReadData(m, chunk));
      var m1 := AfterRead(m, chunk).(pos := i);
      assert RwRead(v, m, size, chunk, rand, i, k, original) == RwStamp(v, m1, size, chunk, rand, i, k, n, orig);
      StampProgress(v, m1, size, chunk, rand, i, k, n, orig);
    }
  }

  lemma {:induction false} StampProgress(v: Variant, m: Medium, size: nat, chunk: nat, rand: (nat, int) -> byte,
                                         i: nat, k: nat, n: nat, orig: seq<byte>)
    requires |orig| == chunk && i < size && 1 <= n <= chunk
    ensures ReportsFrom(RwStamp(v, m, size, chunk, rand, i, k, n, orig), Percent(i, size))
    decreases size - i, 3
  {
    var len := Span(v, n, chunk);
    if WriteCount(m, len) == n {
      var m2 := AfterWrite(m, Payload(rand, k, chunk)[..len]).(pos := i);
      assert RwStamp(v, m, size, chunk, rand, i, k, n, orig) == RwConfirm(v, m2, size, chunk, rand, i, k, n, orig);
      ConfirmProgress(v, m2, size, chunk, rand, i, k, n, orig);
    }
  }

  lemma {:induction false} ConfirmProgress(v: Variant, m: Medium, size: nat, chunk: nat, rand: (nat, int) -> byte,
                                           i: nat, k: nat, n: nat, orig: seq<byte>)
    requires |orig| == chunk && i < size && 1 <= n <= chunk
    ensures ReportsFrom(RwConfirm(v, m, size, chunk, rand, i, k, n, orig), Percent(i, size))
    decreases size - i, 2
  {
    if ReadCount(m, chunk) == n {
      var m3 := AfterRead(m, chunk).(pos := i);
      assert RwConfirm(v, m, size, chunk, rand, i, k, n, orig) == RwRestore(v, m3, size, chunk, rand, i, k, n, orig);
      RestoreProgress(v, m3, size, chunk, rand, i, k, n, orig);
    }
  }

  lemma {:induction false} RestoreProgress(v: Variant, m: Medium, size: nat, chunk: nat, rand: (nat, int) -> byte,
                                           i: nat, k: nat, n: nat, orig: seq<byte>)
    requires |orig| == chunk && i < size && 1 <= n <= chunk
    ensures ReportsFrom(RwRestore(v, m, size, chunk, rand, i, k, n, orig), Percent(i, size))
    decreases size - i, 1
  {
    var len := Span(v, n, chunk);
    if WriteCount(m, len) == n {
      var m4 := AfterWrite(m, orig[..len]).(pos := i);
      assert RwRestore(v, m, size, chunk, rand, i, k, n, orig) == RwRecheck(v, m4, size, chunk, rand, i, k, n, orig);
      RecheckProgress(v, m4, size, chunk, rand, i, k, n, orig);
    }
  }

  lemma {:induction false} RecheckProgress(v: Variant, m: Medium, size: nat, chunk: nat, rand: (nat, int) -> byte,
                                           i: nat, k: nat, n: nat, orig: seq<byte>)
    requires |orig| == chunk && i < size && 1 <= n <= chunk
    ensures ReportsFrom(RwRecheck(v, m, size, chunk, rand, i, k, n, orig), Percent(i, size))
    decreases size - i, 0
  {
    var len := Span(v, n, chunk);
    var back := Fill(Payload(rand, k, chunk), ReadData(m, chunk));
    if !(v == Corrected && ReadCount(m, chunk) != n) && SameBytes(orig[..len], back[..len]) {
      var m5 := AfterRead(m, chunk);
      assert RwRecheck(v, m, size, chunk, rand, i, k, n, orig) == RwScan(v, m5, size, chunk, rand, i + n, k + 1, orig);
      RwScanProgress(v, m5, size, chunk, rand, i + n, k + 1, orig);
      if i + n < size {
        PercentMonotone(i, i + n, size);
      }
    }
  }

  /** The destructive run of the corrected loop on a target with no failing
      call passes exactly when its buffers could be allocated and the size
      does not exceed the medium; a pass leaves the content as it was. */
  lemma RwVerdict(m: Medium, blockSize: nat, size: nat, memoryOk: bool, rand: (nat, int) -> byte)
    requires m.pos == 0 && Healthy(m)
    ensures RwCheck(Corrected, m, blockSize, size, memoryOk, rand).outcome == Pass <==>
      Allocates(blockSize, memoryOk) && size <= |m.content|
    ensures RwCheck(Corrected, m, blockSize, size, memoryOk, rand).outcome == Pass ==>
      RwCheck(Corrected, m, blockSize, size, memoryOk, rand).medium.content == m.content
  {
    if Allocates(blockSize, memoryOk) {
      var chunk := ChunkSize(blockSize);
      AllocatedChunk(blockSize, memoryOk);
      RwScanKeeps(Corrected, m, size, chunk, rand, 0, 0, Zeros(chunk));
      if size <= |m.content| {
        RwScanHealthy(m, size, chunk, rand, 0, 0, Zeros(chunk));
      }
    }
  }

  /** Taking one divisor off a number leaves its remainder; the divisor
      itself leaves none. */
  lemma ModStep(a: nat, b: nat)
    requires a >= b > 0
    ensures (a - b) % b == a % b
    ensures a == b ==> a % b == 0
  {
    if a == b {
      DivModUnique(a, b, 1, 0);
    }
    var q := a / b;
    assert a == b * q + a % b;
    assert q >= 1;
    assert a - b == b * (q - 1) + a % b;
    DivModUnique(a - b, b, q - 1, a % b);
  }

  /** `len` is no multiple of `chunk`: whole chunks taken off it leave a
      short, non-empty rest. */
  predicate Ragged(len: nat, chunk: nat)
    requires chunk >= 1
    decreases len
  {
    if len < chunk then len != 0 else Ragged(len - chunk, chunk)
  }

  /** That is, dividing it by the chunk leaves a remainder. */
  lemma {:induction false} RaggedMeans(len: nat, chunk: nat)
    requires chunk >= 1
    ensures Ragged(len, chunk) <==> len % chunk != 0
    decreases len
  {
    if len < chunk {
      DivModUnique(len, chunk, 0, len);
    } else {
      RaggedMeans(len - chunk, chunk);
      ModStep(len, chunk);
    }
  }

  /** As written, on a regular file whose length from `i` on is not a
      multiple of the chunk, the scan reaches the short last chunk with no
      failure, writes the whole chunk there, which lengthens the file, and
      then reports a write error because the write count differs from the
      read count: a healthy file fails the check and is left longer. */
  lemma {:induction false} AsWrittenFileGrows(m: Medium, size: nat, chunk: nat, rand: (nat, int) -> byte,
                                              i: nat, k: nat, original: seq<byte>, r: Report)
    requires |original| == chunk && chunk >= 1
    requires Healthy(m) && m.kind == RegularFile && m.pos == i
    requires size == |m.content| && i < size && Ragged(size - i, chunk)
    requires r == RwScan(AsWritten, m, size, chunk, rand, i, k, original)
    ensures r.outcome == Fail(WriteFailed) && |r.medium.content| > |m.content|
    decreases size - i
  {
    if i + chunk <= size {
      var next := m.(pos := i + chunk, calls := m.calls + 5);
      var orig := Fill(original, m.content[i..i + chunk]);
      RwScanHealthyStep(AsWritten, m, size, chunk, rand, i, k, original, chunk);
      assert Ragged(size - (i + chunk), chunk);
      AsWrittenFileGrows(next, size, chunk, rand, i + chunk, k + 1, orig,
                         RwScan(AsWritten, next, size, chunk, rand, i + chunk, k + 1, orig));
    } else {
      AsWrittenLastChunk(m, size, chunk, rand, i, k, original, size - i);
    }
  }

  /** The short last chunk of such a file: the whole-chunk write succeeds,
      reaching past the old end, and its count is not the read's. */
  lemma AsWrittenLastChunk(m: Medium, size: nat, chunk: nat, rand: (nat, int) -> byte,
                           i: nat, k: nat, original: seq<byte>, n: nat)
    requires |original| == chunk && i < size
    requires Healthy(m) && m.kind == RegularFile && m.pos == i
    requires size == |m.content| && n == size - i && n < chunk
    ensures RwScan(AsWritten, m, size, chunk, rand, i, k, original).outcome == Fail(WriteFailed)
    ensures |RwScan(AsWritten, m, size, chunk, rand, i, k, original).medium.content| == i + chunk
  {
    RwScanUnfold(AsWritten, m, size, chunk, rand, i, k, original);
    var orig := Fill(original, ReadData(m, chunk));
    var m1 := m.(calls := m.calls + 1);
    assert ReadCount(m, chunk) == n;
    assert AfterRead(m, chunk).(pos := i) == m1;
    assert RwRead(AsWritten, m, size, chunk, rand, i, k, original) == RwStamp(AsWritten, m1, size, chunk, rand, i, k, n, orig);
    assert WriteCount(m1, chunk) == chunk;
  }

  /** As written, on a block device shorter than one chunk with no failing
      call, the first read returns the whole device, the stamp and restore
      writes are cut to it and succeed, and the restore is verified over the
      whole chunk: past the device's end `original` still holds the zeros it
      started with while `random` holds payload, so a payload that is not
      zero there fails the check, though every byte of the device is back. */
  lemma AsWrittenShortDeviceFails(m: Medium, chunk: nat, rand: (nat, int) -> byte)
    requires Healthy(m) && m.kind == BlockDevice && m.pos == 0
    requires 0 < |m.content| < chunk
    requires Payload(rand, 0, chunk)[|m.content|..] != Zeros(chunk - |m.content|)
    ensures RwScan(AsWritten, m, |m.content|, chunk, rand, 0, 0, Zeros(chunk)).outcome == Fail(RestoreFailed)
    ensures RwScan(AsWritten, m, |m.content|, chunk, rand, 0, 0, Zeros(chunk)).medium.content == m.content
  {
    var orig := m.content + Zeros(chunk - |m.content|);
    ShortDeviceUpToRecheck(m, chunk, rand, orig);
    ShortDeviceRecheck(m.(calls := m.calls + 4), chunk, rand, orig);
  }

  /** There the first read, the stamp, the confirming read and the restore
      all succeed. */
  lemma ShortDeviceUpToRecheck(m: Medium, chunk: nat, rand: (nat, int) -> byte, orig: seq<byte>)
    requires Healthy(m) && m.kind == BlockDevice && m.pos == 0 && 0 < |m.content| < chunk
    requires orig == m.content + Zeros(chunk - |m.content|)
    ensures RwScan(AsWritten, m, |m.content|, chunk, rand, 0, 0, Zeros(chunk)) ==
      After([Percent(0, |m.content|)], RwRecheck(AsWritten, m.(calls := m.calls + 4), |m.content|, chunk, rand, 0, 0, |m.content|, orig))
  {
    var c := m.content;
    var n := |c|;
    RwScanUnfold(AsWritten, m, n, chunk, rand, 0, 0, Zeros(chunk));
    BytesIsSlice(c, 0, n);
    assert c[0..n] == c;
    assert Fill(Zeros(chunk), ReadData(m, chunk)) == orig;
    var m1 := m.(calls := m.calls + 1);
    assert ReadCount(m, chunk) == n;
    assert AfterRead(m, chunk).(pos := 0) == m1;
    assert RwRead(AsWritten, m, n, chunk, rand, 0, 0, Zeros(chunk)) == RwStamp(AsWritten, m1, n, chunk, rand, 0, 0, n, orig);
    StampHealthy(AsWritten, m1, n, chunk, rand, 0, 0, n, orig);
    assert m1.(calls := m1.calls + 3) == m.(calls := m.calls + 4);
  }

  /** The final comparison there: the device's bytes match, the chunk's
      tail does not. */
  lemma ShortDeviceRecheck(m: Medium, chunk: nat, rand: (nat, int) -> byte, orig: seq<byte>)
    requires Healthy(m) && m.pos == 0 && 0 < |m.content| < chunk
    requires orig == m.content + Zeros(chunk - |m.content|)
    requires Payload(rand, 0, chunk)[|m.content|..] != Zeros(chunk - |m.content|)
    ensures RwRecheck(AsWritten, m, |m.content|, chunk, rand, 0, 0, |m.content|, orig).outcome == Fail(RestoreFailed)
    ensures RwRecheck(AsWritten, m, |m.content|, chunk, rand, 0, 0, |m.content|, orig).medium.content == m.content
  {
    var n := |m.content|;
    var payload := Payload(rand, 0, chunk);
    assert ReadCount(m, chunk) == n;
    var back := Fill(payload, ReadData(m, chunk));
    assert back[n..] == payload[n..] && orig[n..] == Zeros(chunk - n);
    assert orig[..chunk] == orig && back[..chunk] == back;
    SameBytesIsEqual(orig, back);
  }

  /** The corrected loop on a target with no failing call, from offset 0 over
      any size up to the medium's length, passes and leaves every byte as
      it found it: the file and the device above pass. */
  lemma RwCorrectedRestores(m: Medium, size: nat, chunk: nat, rand: (nat, int) -> byte, original: seq<byte>)
    requires |original| == chunk && chunk >= 1
    requires Healthy(m) && m.pos == 0 && size <= |m.content|
    ensures RwScan(Corrected, m, size, chunk, rand, 0, 0, original).outcome == Pass
    ensures RwScan(Corrected, m, size, chunk, rand, 0, 0, original).medium.content == m.content
  {
    RwScanHealthy(m, size, chunk, rand, 0, 0, original);
    RwScanKeeps(Corrected, m, size, chunk, rand, 0, 0, original);
  }

  /** The loop as written passes too, on a target with no failing call,
      when the medium's length from the offset is a whole number of chunks:
      every read then returns a full chunk, so the write, compare and
      restore counts all match. */
  lemma {:induction false} AsWrittenAlignedPasses(m: Medium, size: nat, chunk: nat, rand: (nat, int) -> byte,
                                                  i: nat, k: nat, original: seq<byte>)
    requires |original| == chunk && chunk >= 1
    requires Healthy(m) && m.pos == i && i <= |m.content| && size <= |m.content|
    requires (|m.content| - i) % chunk == 0
    ensures RwScan(AsWritten, m, size, chunk, rand, i, k, original).outcome == Pass
    decreases if i < size then size - i else 0
  {
    if i < size {
      var len := |m.content| - i;
      RaggedMeans(len, chunk);
      assert len >= chunk;
      ModStep(len, chunk);
      var next := m.(pos := i + chunk, calls := m.calls + 5);
      var orig := Fill(original, m.content[i..i + chunk]);
      assert Healthy(next) && next.content == m.content;
      assert (|next.content| - (i + chunk)) % chunk == 0 by {
        assert |next.content| - (i + chunk) == len - chunk;
      }
      RwScanHealthyStep(AsWritten, m, size, chunk, rand, i, k, original, chunk);
      AsWrittenAlignedPasses(next, size, chunk, rand, i + chunk, k + 1, orig);
      assert RwScan(AsWritten, m, size, chunk, rand, i, k, original) ==
             After([Percent(i, size)], RwScan(AsWritten, next, size, chunk, rand, i + chunk, k + 1, orig));
    }
  }

  /** Hence, from offset 0 on a healthy medium whose length is a whole number
      of chunks, the loop as written passes and leaves every byte as it
      found it. */
  lemma AsWrittenAlignedRestores(m: Medium, size: nat, chunk: nat, rand: (nat, int) -> byte, original: seq<byte>)
    requires |original| == chunk && chunk >= 1
    requires Healthy(m) && m.pos == 0 && size <= |m.content| && |m.content| % chunk == 0
    ensures RwScan(AsWritten, m, size, chunk, rand, 0, 0, original).outcome == Pass
    ensures RwScan(AsWritten, m, size, chunk, rand, 0, 0, original).medium.content == m.content
  {
    AsWrittenAlignedPasses(m, size, chunk, rand, 0, 0, original);
    RwScanKeeps(AsWritten, m, size, chunk, rand, 0, 0, original);
  }

  /** One pass of the loop body of `handle_file_rw` on the three buffers:
      either `stop` names the failure that ends the run, or the scan goes on
      `bytesRead` bytes further. */
  method RwPass(v: Variant, dev: Device, size: nat, chunk: nat, i: nat, k: nat, rand: (nat, int) -> byte,
                original: array<byte>, random: array<byte>, confirmRandom: array<byte>)
    returns (bytesRead: int, stop: Option<Failure>)
    requires original.Length == chunk && random.Length == chunk && confirmRandom.Length == chunk
    requires original != random && original != confirmRandom && random != confirmRandom
    requires i < size
    modifies dev, original, random, confirmRandom
    ensures stop.Some? ==>
      RwRead(v, old(dev.State()), size, chunk, rand, i, k, old(original[..])) == Report(Fail(stop.value), [], dev.State())
    ensures stop.None? ==> bytesRead >= 1
    ensures stop.None? ==>
      RwRead(v, old(dev.State()), size, chunk, rand, i, k, old(original[..])) ==
      RwScan(v, dev.State(), size, chunk, rand, i + bytesRead, k + 1, original[..])
  {
    ghost var r := RwRead(v, dev.State(), size, chunk, rand, i, k, original[..]);
    bytesRead := dev.Read(original, chunk);
    var landed := dev.Seek(i);
    if bytesRead < 1 {
      return bytesRead, Some(WriteFailed);
    }
    assert r == RwStamp(v, dev.State(), size, chunk, rand, i, k, bytesRead, original[..]);
    stop := RwStampStage(v, dev, size, chunk, i, k, bytesRead, rand, original, random, confirmRandom);
  }

  /** The payload is drawn into `random`, written, and the position is put
      back to `i`. */
  method RwStampStage(v: Variant, dev: Device, size: nat, chunk: nat, i: nat, k: nat, n: nat,
                      rand: (nat, int) -> byte, original: array<byte>, random: array<byte>, confirmRandom: array<byte>)
    returns (stop: Option<Failure>)
    requires original.Length == chunk && random.Length == chunk && confirmRandom.Length == chunk
    requires original != random && original != confirmRandom && random != confirmRandom
    requires i < size && 1 <= n <= chunk
    modifies dev, random, confirmRandom
    ensures original[..] == old(original[..])
    ensures stop.Some? ==>
      RwStamp(v, old(dev.State()), size, chunk, rand, i, k, n, original[..]) == Report(Fail(stop.value), [], dev.State())
    ensures stop.None? ==>
      RwStamp(v, old(dev.State()), size, chunk, rand, i, k, n, original[..]) ==
      RwScan(v, dev.State(), size, chunk, rand, i + n, k + 1, original[..])
  {
    ghost var payload := Payload(rand, k, chunk);
    forall j | 0 <= j < chunk {
      random[j] := rand(k, j);
    }
    forall j | 0 <= j < chunk
      ensures random[j] == payload[j]
    {
      PayloadAt(rand, k, chunk, j);
    }
    assert random[..] == payload;
    var len: nat := if v == Corrected then n else chunk;
    assert len == Span(v, n, chunk) && random[..len] == payload[..len];
    var bytesWritten := dev.Write(random, len);
    var landed := dev.Seek(i);
    if bytesWritten != n {
      return Some(WriteFailed);
    }
    stop := RwConfirmStage(v, dev, size, chunk, i, k, n, rand, original, random, confirmRandom);
  }

  /** The payload is read back into `confirm_random` and the position put
      back to `i`. */
  method RwConfirmStage(v: Variant, dev: Device, size: nat, chunk: nat, i: nat, k: nat, n: nat,
                        rand: (nat, int) -> byte, original: array<byte>, random: array<byte>, confirmRandom: array<byte>)
    returns (stop: Option<Failure>)
    requires original.Length == chunk && random.Length == chunk && confirmRandom.Length == chunk
    requires original != random && original != confirmRandom && random != confirmRandom
    requires i < size && 1 <= n <= chunk
    requires random[..] == Payload(rand, k, chunk)
    modifies dev, random, confirmRandom
    ensures original[..] == old(original[..])
    ensures stop.Some? ==>
      RwConfirm(v, old(dev.State()), size, chunk, rand, i, k, n, original[..]) == Report(Fail(stop.value), [], dev.State())
    ensures stop.None? ==>
      RwConfirm(v, old(dev.State()), size, chunk, rand, i, k, n, original[..]) ==
      RwScan(v, dev.State(), size, chunk, rand, i + n, k + 1, original[..])
  {
    var bytesRead2 := dev.Read(confirmRandom, chunk);
    var landed := dev.Seek(i);
    if bytesRead2 != n {
      return Some(ReadFailed);
    }
    stop := RwRestoreStage(v, dev, size, chunk, i, k, n, rand, original, random);
  }

  /** `original` is written back and the position put back to `i`. */
  method RwRestoreStage(v: Variant, dev: Device, size: nat, chunk: nat, i: nat, k: nat, n: nat,
                        rand: (nat, int) -> byte, original: array<byte>, random: array<byte>)
    returns (stop: Option<Failure>)
    requires original.Length == chunk && random.Length == chunk && original != random
    requires i < size && 1 <= n <= chunk
    requires random[..] == Payload(rand, k, chunk)
    modifies dev, random
    ensures original[..] == old(original[..])
    ensures stop.Some? ==>
      RwRestore(v, old(dev.State()), size, chunk, rand, i, k, n, original[..]) == Report(Fail(stop.value), [], dev.State())
    ensures stop.None? ==>
      RwRestore(v, old(dev.State()), size, chunk, rand, i, k, n, original[..]) ==
      RwScan(v, dev.State(), size, chunk, rand, i + n, k + 1, original[..])
  {
    var len: nat := if v == Corrected then n else chunk;
    assert len == Span(v, n, chunk);
    var bytesWritten := dev.Write(original, len);
    var landed := dev.Seek(i);
    if bytesWritten != n {
      return Some(WriteFailed);
    }
    stop := RwRecheckStage(v, dev, size, chunk, i, k, n, rand, original, random);
  }

  /** The restored bytes are read into `random` and compared with
      `original`. */
  method RwRecheckStage(v: Variant, dev: Device, size: nat, chunk: nat, i: nat, k: nat, n: nat,
                        rand: (nat, int) -> byte, original: array<byte>, random: array<byte>)
    returns (stop: Option<Failure>)
    requires original.Length == chunk && random.Length == chunk && original != random
    requires i < size && 1 <= n <= chunk
    requires random[..] == Payload(rand, k, chunk)
    modifies dev, random
    ensures original[..] == old(original[..])
    ensures stop.Some? ==>
      RwRecheck(v, old(dev.State()), size, chunk, rand, i, k, n, original[..]) == Report(Fail(stop.value), [], dev.State())
    ensures stop.None? ==>
      RwRecheck(v, old(dev.State()), size, chunk, rand, i, k, n, original[..]) ==
      RwScan(v, dev.State(), size, chunk, rand, i + n, k + 1, original[..])
  {
    var len: nat := if v == Corrected then n else chunk;
    assert len == Span(v, n, chunk);
    ghost var back := Fill(random[..], ReadData(dev.State(), chunk));
    var bytesRead2 := dev.Read(random, chunk);
    if v == Corrected && bytesRead2 != n {
      return Some(ReadFailed);
    }
    SameBytesIsEqual(original[..len], back[..len]);
    if original[..len] != random[..len] {
      return Some(RestoreFailed);
    }
    return None;
  }

  /** One iteration of the loop of `handle_file_rw`: the percent for
      `status`, then the pass. */
  method RwRound(v: Variant, dev: Device, size: nat, chunk: nat, i: nat, k: nat, rand: (nat, int) -> byte,
                 original: array<byte>, random: array<byte>, confirmRandom: array<byte>,
                 ghost goal: Report, ghost done: seq<int>)
    returns (p: int, bytesRead: int, stop: Option<Failure>)
    requires original.Length == chunk && random.Length == chunk && confirmRandom.Length == chunk
    requires original != random && original != confirmRandom && random != confirmRandom
    requires i < size
    requires goal == After(done, RwScan(v, dev.State(), size, chunk, rand, i, k, original[..]))
    modifies dev, original, random, confirmRandom
    ensures stop.Some? ==> goal == Report(Fail(stop.value), done + [p], dev.State())
    ensures stop.None? ==> bytesRead >= 1
    ensures stop.None? ==>
      goal == After(done + [p], RwScan(v, dev.State(), size, chunk, rand, i + bytesRead, k + 1, original[..]))
  {
    ghost var m := dev.State();
    ghost var prev := original[..];
    RwScanUnfold(v, m, size, chunk, rand, i, k, prev);
    p := Percent(i, size);
    bytesRead, stop := RwPass(v, dev, size, chunk, i, k, rand, original, random, confirmRandom);
    if stop.Some? {
      AfterAfter(done, [p], Report(Fail(stop.value), [], dev.State()));
    } else {
      AfterStep(goal, done, p, RwScan(v, m, size, chunk, rand, i, k, prev),
                RwScan(v, dev.State(), size, chunk, rand, i + bytesRead, k + 1, original[..]));
    }
  }

  /** The loop of `handle_file_rw` from offset 0, on its three buffers. */
  method RwLoop(v: Variant, dev: Device, size: nat, chunk: nat, rand: (nat, int) -> byte,
                original: array<byte>, random: array<byte>, confirmRandom: array<byte>)
    returns (outcome: Outcome, progress: seq<int>)
    requires original.Length == chunk && random.Length == chunk && confirmRandom.Length == chunk
    requires original != random && original != confirmRandom && random != confirmRandom
    modifies dev, original, random, confirmRandom
    ensures RwScan(v, old(dev.State()), size, chunk, rand, 0, 0, old(original[..])) == Report(outcome, progress, dev.State())
  {
    ghost var goal := RwScan(v, dev.State(), size, chunk, rand, 0, 0, original[..]);
    var i: nat := 0;
    var k: nat := 0;
    progress := [];
    assert progress + goal.progress == goal.progress;
    while i < size
      invariant goal == After(progress, RwScan(v, dev.State(), size, chunk, rand, i, k, original[..]))
      decreases size - i
    {
      var p, bytesRead, stop := RwRound(v, dev, size, chunk, i, k, rand, original, random, confirmRandom, goal, progress);
      progress := progress + [p];
      if stop.Some? {
        return Fail(stop.value), progress;
      }
      i := i + bytesRead;
      k := k + 1;
    }
    progress := progress + [100];
    return Pass, progress;
  }

  /** `handle_file_rw` on an open device: the three buffers are allocated,
      their contents taken as zeros, then the loop runs; `progress` lists the
      percents passed to `status`. */
  method HandleFileRw(v: Variant, dev: Device, blockSize: nat, size: nat, memoryOk: bool,
                      rand: (nat, int) -> byte)
    returns (outcome: Outcome, progress: seq<int>)
    modifies dev
    ensures RwCheck(v, old(dev.State()), blockSize, size, memoryOk, rand) == Report(outcome, progress, dev.State())
  {
    if !Allocates(blockSize, memoryOk) {
      return Fail(AllocFailed), [];
    }
    var chunk := ChunkSize(blockSize);
    var original := new byte[chunk](_ => 0);
    var random := new byte[chunk](_ => 0);
    var confirmRandom := new byte[chunk](_ => 0);
    assert original[..] == Zeros(chunk);
    outcome, progress := RwLoop(v, dev, size, chunk, rand, original, random, confirmRandom);
  }
}
