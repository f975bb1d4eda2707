/** Vocabulary shared by every part of the disk checker model: bytes, C's
    integer division, and the fatal conditions the program stops on. */
module Common {

  /** One byte of a buffer or of the storage medium. */
  type byte = x: int | 0 <= x < 256

  /** Number of device blocks moved by one read or write (`blocksize_coefficient`). */
  const ChunkBlocks: nat := 128

  /** Sector size assumed for the `BLKGETSIZE` sector count (`sd_blocksize`). */
  const SectorSize: nat := 512

  datatype Option<T> = None | Some(value: T)

  /** Everything that ends the process: `exit(-1)` after a diagnostic, or the
      uncaught `out_of_range` thrown when the size does not fit its field. */
  datatype Failure =
    | StatFailed         // fstat failed while --fail was in force
    | SizeQueryFailed    // BLKGETSIZE failed on a target reporting size 0
    | SizeTooLong        // to_string could not render the size in 32 slots
    | AllocFailed        // error_encounter("posix_memalign")
    | ReadFailed         // error_encounter("read")
    | WriteFailed        // error_encounter("write")
    | ConsistencyFailed  // error_encounter("consistency")
    | RestoreFailed      // error_encounter("restore")

  /** How one verifier run ends. */
  datatype Outcome = Pass | Fail(failure: Failure)

  function Min(a: int, b: int): int { if a <= b then a else b }

  function Max(a: int, b: int): int { if a <= b then b else a }

  /** `k` zero bytes. */
  function Zeros(k: nat): (z: seq<byte>)
    ensures |z| == k && forall j :: 0 <= j < k ==> z[j] == 0
  {
    seq(k, _ => 0)
  }

  /** C's integer division by a positive divisor: rounds toward zero, where
      Dafny's `/` rounds toward minus infinity for a negative dividend. */
  function CDiv(a: int, b: int): (q: int)
    requires b > 0
    ensures a >= 0 ==> q == a / b
    ensures a < 0 ==> q <= 0 && q == -((-a) / b)
  {
    if a >= 0 then a / b else -((-a) / b)
  }

  /** C's `%` by a positive divisor: takes the sign of the dividend. */
  function CRem(a: int, b: int): (r: int)
    requires b > 0
    ensures a >= 0 ==> r == a % b
    ensures a < 0 ==> -b < r <= 0
  {
    a - b * CDiv(a, b)
  }

  /** `memcmp` over the whole of two byte strings returning 0: they agree
      byte by byte from the front. */
  predicate SameBytes(a: seq<byte>, b: seq<byte>)
    decreases |a|
  {
    |a| == |b| && (|a| == 0 || (a[0] == b[0] && SameBytes(a[1..], b[1..])))
  }

  /** A byte-by-byte comparison finds no difference exactly when the two
      strings are equal. */
  lemma {:induction false} SameBytesIsEqual(a: seq<byte>, b: seq<byte>)
    ensures SameBytes(a, b) <==> a == b
    decreases |a|
  {
    if |a| == |b| && |a| > 0 {
      SameBytesIsEqual(a[1..], b[1..]);
      assert a == [a[0]] + a[1..] && b == [b[0]] + b[1..];
    }
  }
}
