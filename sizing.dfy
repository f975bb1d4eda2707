/** How `main` turns a target's `fstat` and `BLKGETSIZE` answers into the
    byte count to scan, and which failures skip the target or end the run
    (src/main.cpp:68-86). */
module Sizing {
  import opened Common

  /** The two `fstat` fields the program reads. */
  datatype Stat = Stat(stSize: nat, blkSize: nat)

  /** What happens to one target before scanning. */
  datatype Sizing = Sized(size: nat) | Skipped | Abort(failure: Failure)

  /** `stat` is the `fstat` answer (None when it fails, which includes a
      failed `open`), `sectors` the `BLKGETSIZE` answer (None when the ioctl
      fails); the ioctl is consulted only when `st_size` is 0. */
  function DiscoverSize(stat: Option<Stat>, sectors: Option<nat>, failFast: bool): (r: Sizing)
    ensures r.Sized? <==> stat.Some? && (stat.value.stSize != 0 || sectors.Some?)
    ensures r.Sized? && stat.value.stSize != 0 ==> r.size == stat.value.stSize
    ensures r.Sized? && stat.value.stSize == 0 ==> r.size == sectors.value * SectorSize
    ensures r == Skipped <==> stat.None? && !failFast
    ensures r == Abort(StatFailed) <==> stat.None? && failFast
    ensures r == Abort(SizeQueryFailed) <==> stat.Some? && stat.value.stSize == 0 && sectors.None?
  {
    match stat
    case None => if failFast then Abort(StatFailed) else Skipped
    case Some(st) =>
      if st.stSize != 0 then Sized(st.stSize)
      else
        match sectors
        case None => Abort(SizeQueryFailed)
        case Some(n) => Sized(n * SectorSize)
  }

  /** The fail-fast policy decides only what a failed `fstat` does: a failed
      sector query ends the run under either policy. */
  lemma PolicyOnlyAffectsStatFailure(stat: Option<Stat>, sectors: Option<nat>)
    ensures DiscoverSize(stat, sectors, true) != DiscoverSize(stat, sectors, false) <==> stat.None?
    ensures stat.Some? ==> DiscoverSize(stat, sectors, true) == DiscoverSize(stat, sectors, false)
  {
  }
}
