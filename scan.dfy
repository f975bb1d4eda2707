/** What the two verifiers share: buffer allocation and the shape of a run's
    result. */
module Scan {
  import opened Common
  import opened FakeDisk

  predicate IsPowerOfTwo(n: nat)
    decreases n
  {
    n == 1 || (n >= 2 && n % 2 == 0 && IsPowerOfTwo(n / 2))
  }

  /** `posix_memalign` accepts an alignment that is a power of two and a
      multiple of `sizeof(void *)`, 8 bytes. */
  predicate AlignmentOk(blockSize: nat)
  {
    IsPowerOfTwo(blockSize) && blockSize % 8 == 0
  }

  /** Every `posix_memalign` of a run succeeds: the alignment (the block size)
      is acceptable and memory is available. */
  predicate Allocates(blockSize: nat, memoryOk: bool)
  {
    memoryOk && AlignmentOk(blockSize)
  }

  /** Bytes requested by every read and write: `blocksize*blocksize_coefficient`. */
  function ChunkSize(blockSize: nat): nat
  {
    blockSize * ChunkBlocks
  }

  /** Once the buffers are allocated, a chunk holds at least 1024 bytes. */
  lemma AllocatedChunk(blockSize: nat, memoryOk: bool)
    requires Allocates(blockSize, memoryOk)
    ensures ChunkSize(blockSize) >= 1024
  {
  }

  /** The end of a verifier run: its verdict, the percents it passed to
      `status` in order, and the medium afterwards. */
  datatype Report = Report(outcome: Outcome, progress: seq<int>, medium: Medium)

  /** One pass of a verifier loop: it either moves on by `advance` bytes
      (carrying buffer contents the next pass depends on) or stops the run. */
  datatype Step<T> = Next(medium: Medium, advance: nat, carry: T) | Stop(failure: Failure, medium: Medium)

  /** `r` with the percents `ps` reported before it. */
  function After(ps: seq<int>, r: Report): Report
  {
    Report(r.outcome, ps + r.progress, r.medium)
  }

  lemma AfterAfter(ps: seq<int>, qs: seq<int>, r: Report)
    ensures After(ps, After(qs, r)) == After(ps + qs, r)
  {
    assert ps + (qs + r.progress) == (ps + qs) + r.progress;
  }

  /** A run that owes `r` after reporting `done` owes `r'` after reporting
      one more percent `p`, when `r` is `p` followed by `r'`. */
  lemma AfterStep(goal: Report, done: seq<int>, p: int, r: Report, r': Report)
    requires goal == After(done, r) && r == After([p], r')
    ensures goal == After(done + [p], r')
  {
    AfterAfter(done, [p], r');
  }

  /** No I/O call from now on fails. */
  predicate Healthy(m: Medium)
  {
    forall c :: c in m.faults ==> c < m.calls
  }
}
