/** `main` and `handle_file` (src/main.cpp:23-124): every target met on the
    command line is opened, sized, its size rendered for the terminal, and
    handed to the verifier its mode selects; the first fatal error ends the
    run. Targets are looked up in `disks`, a path missing there being one
    that `open` refuses. */
module Driver {
  import opened Common
  import opened Decimal
  import opened FakeDisk
  import opened Scan
  import opened Arguments
  import opened Sizing
  import opened ReadOnlyCheck
  import opened DestructiveCheck

  /** What happened to one target. `shown` is the 32-byte buffer `to_string`
      filled with its size. */
  datatype Result =
    | NotOpened
    | SizeFailed(failure: Failure)
    | TooLong(size: nat)
    | Checked(size: nat, shown: seq<byte>, outcome: Outcome, progress: seq<int>)

  datatype Visit = Visit(target: Target, result: Result)

  /** How the process ends: the help text (status 1), the end of the
      arguments (status 0), or `exit(-1)` and the uncaught exception. */
  datatype ExitStatus = Usage | Completed | Aborted(failure: Failure)

  /** The failure, if any, that ends the run after visiting a target: a
      failed `fstat` only under `--fail`, every other failure always. */
  function Fatal(visit: Visit): (f: Option<Failure>)
    ensures visit.result.NotOpened? ==> (f.Some? <==> visit.target.settings.failFast)
    ensures visit.result.Checked? ==> (f.Some? <==> visit.result.outcome.Fail?)
    ensures !visit.result.NotOpened? && !visit.result.Checked? ==> f.Some?
  {
    match visit.result
    case NotOpened => if visit.target.settings.failFast then Some(StatFailed) else None
    case SizeFailed(failure) => Some(failure)
    case TooLong(_) => Some(SizeTooLong)
    case Checked(_, _, outcome, _) => if outcome.Fail? then Some(outcome.failure) else None
  }

  /** `handle_file`: the read-only or the destructive verifier, by mode. */
  method HandleFile(mode: Mode, v: Variant, dev: Device, blockSize: nat, size: nat, memoryOk: bool,
                    rand: (nat, int) -> byte)
    returns (outcome: Outcome, progress: seq<int>)
    modifies dev
    ensures mode == ReadOnly ==>
      RoCheck(old(dev.State()), blockSize, size, memoryOk) == Report(outcome, progress, dev.State())
    ensures mode == ReadWrite ==>
      RwCheck(v, old(dev.State()), blockSize, size, memoryOk, rand) == Report(outcome, progress, dev.State())
  {
    if mode == ReadOnly {
      outcome, progress := HandleFileRo(dev, blockSize, size, memoryOk);
    } else {
      outcome, progress := HandleFileRw(v, dev, blockSize, size, memoryOk, rand);
    }
  }

  /** What visiting target `t` reports on a device whose `st_blksize` is
      `blkSize` and whose `BLKGETSIZE` answer is `sectors`, found in state
      `start` and left in state `final`: the size rule applied to what `fstat`
      says of `start`, then the size rendered right-aligned in 32 bytes, then
      the check of the target's mode from offset 0. A visit that ends at
      sizing only opens the device, which moves its position to 0. */
  predicate Visited(t: Target, blkSize: nat, sectors: Option<nat>, start: Medium, final: Medium,
                    v: Variant, memoryOk: bool, rand: (nat, int) -> byte, result: Result)
  {
    match DiscoverSize(Some(Stat(StSize(start), blkSize)), sectors, t.settings.failFast)
    case Skipped => false
    case Abort(f) => result == SizeFailed(f) && final == start.(pos := 0)
    case Sized(size) =>
      if |Digits(size)| > 32 then result == TooLong(size) && final == start.(pos := 0)
      else
        result.Checked? && result.size == size &&
        result.shown == Zeros(32 - |Digits(size)|) + Digits(size) &&
        Report(result.outcome, result.progress, final) ==
          (if t.settings.mode == ReadOnly then RoCheck(start.(pos := 0), blkSize, size, memoryOk)
           else RwCheck(v, start.(pos := 0), blkSize, size, memoryOk, rand))
  }

  /** An empty regular file reports `st_size` 0, and `BLKGETSIZE` fails on
      it, so visiting it always ends the run, whatever the fail flag, and
      leaves the file as it was. */
  lemma EmptyFileAborts(t: Target, dev: Device, start: Medium, final: Medium, v: Variant, memoryOk: bool,
                        rand: (nat, int) -> byte, result: Result)
    requires dev.kind == RegularFile && start.kind == RegularFile && start.content == []
    ensures Visited(t, dev.blkSize, dev.SectorQuery(), start, final, v, memoryOk, rand, result) <==>
            result == SizeFailed(SizeQueryFailed) && final == start.(pos := 0)
    ensures Fatal(Visit(t, SizeFailed(SizeQueryFailed))) == Some(SizeQueryFailed)
  {
  }

  /** The body of the argument loop for one target. */
  method VisitTarget(t: Target, disks: map<string, Device>, v: Variant, memoryOk: bool, rand: (nat, int) -> byte)
    returns (result: Result)
    modifies if t.path in disks then {disks[t.path]} else {}
    ensures t.path !in disks ==> result == NotOpened
    ensures t.path in disks ==>
      Visited(t, disks[t.path].blkSize, disks[t.path].SectorQuery(), old(disks[t.path].State()), disks[t.path].State(),
              v, memoryOk, rand, result)
  {
    if t.path !in disks {
      return NotOpened;
    }
    var dev := disks[t.path];
    dev.Open();
    var sizing := DiscoverSize(Some(Stat(dev.StatSize(), dev.blkSize)), dev.SectorQuery(), t.settings.failFast);
    if !sizing.Sized? {
      return SizeFailed(sizing.failure);
    }
    var size := sizing.size;
    var shown := new byte[32](_ => 0);
    var r := ToString(size, shown);
    if r == -1 {
      return TooLong(size);
    }
    var outcome, progress := HandleFile(t.settings.mode, v, dev, dev.blkSize, size, memoryOk, rand);
    return Checked(size, shown[..], outcome, progress);
  }

  /** Whether visit `q` opened device `dev`. */
  predicate Opens(disks: map<string, Device>, visit: Visit, dev: Device)
  {
    visit.target.path in disks && disks[visit.target.path] == dev
  }

  /** The state of `dev` before visit `j`: the state the last earlier visit
      of it left behind, or `initial` when no earlier visit opened it. Two
      paths may name the same device. */
  function Before(disks: map<string, Device>, visits: seq<Visit>, finals: seq<Medium>, dev: Device,
                  initial: Medium, j: nat): Medium
    requires j <= |visits| && j <= |finals|
    decreases j
  {
    if j == 0 then initial
    else if Opens(disks, visits[j - 1], dev) then finals[j - 1]
    else Before(disks, visits, finals, dev, initial, j - 1)
  }

  /** Visits appended later do not change the state before an earlier one. */
  lemma {:induction false} BeforeExtend(disks: map<string, Device>, visits: seq<Visit>, finals: seq<Medium>,
                                         visit: Visit, final: Medium, dev: Device, initial: Medium, j: nat)
    requires j <= |visits| && j <= |finals|
    ensures Before(disks, visits + [visit], finals + [final], dev, initial, j) ==
            Before(disks, visits, finals, dev, initial, j)
    decreases j
  {
    if j > 0 {
      assert (visits + [visit])[j - 1] == visits[j - 1] && (finals + [final])[j - 1] == finals[j - 1];
      BeforeExtend(disks, visits, finals, visit, final, dev, initial, j - 1);
    }
  }

  /** Every visit so far reported what its target called for: `NotOpened`
      for a path that cannot be opened, otherwise what `Visited` says of the
      device's state before and after it; `init` holds each device's state
      before the run. */
  predicate Recorded(disks: map<string, Device>, init: map<string, Medium>, visits: seq<Visit>,
                     starts: seq<Medium>, finals: seq<Medium>, v: Variant, memoryOk: bool, rand: (nat, int) -> byte)
    requires |starts| == |visits| && |finals| == |visits|
  {
    forall q :: 0 <= q < |visits| ==>
      var path := visits[q].target.path;
      (path !in disks ==> visits[q].result == NotOpened) &&
      (path in disks ==>
         path in init &&
         starts[q] == Before(disks, visits, finals, disks[path], init[path], q) &&
         Visited(visits[q].target, disks[path].blkSize, disks[path].SectorQuery(), starts[q], finals[q], v, memoryOk, rand,
                 visits[q].result))
  }

  /** One more visit that reported what its target called for keeps the
      record. */
  lemma RecordedExtend(disks: map<string, Device>, init: map<string, Medium>, visits: seq<Visit>,
                       starts: seq<Medium>, finals: seq<Medium>, v: Variant, memoryOk: bool, rand: (nat, int) -> byte,
                       visit: Visit, start: Medium, final: Medium)
    requires |starts| == |visits| && |finals| == |visits|
    requires Recorded(disks, init, visits, starts, finals, v, memoryOk, rand)
    requires visit.target.path !in disks ==> visit.result == NotOpened
    requires visit.target.path in disks ==>
      (visit.target.path in init &&
       start == Before(disks, visits, finals, disks[visit.target.path], init[visit.target.path], |visits|) &&
       Visited(visit.target, disks[visit.target.path].blkSize, disks[visit.target.path].SectorQuery(), start, final,
               v, memoryOk, rand, visit.result))
    ensures Recorded(disks, init, visits + [visit], starts + [start], finals + [final], v, memoryOk, rand)
  {
    var visits', starts', finals' := visits + [visit], starts + [start], finals + [final];
    forall q | 0 <= q < |visits'|
      ensures var path := visits'[q].target.path;
        (path !in disks ==> visits'[q].result == NotOpened) &&
        (path in disks ==>
           path in init &&
           starts'[q] == Before(disks, visits', finals', disks[path], init[path], q) &&
           Visited(visits'[q].target, disks[path].blkSize, disks[path].SectorQuery(), starts'[q], finals'[q], v, memoryOk,
                   rand, visits'[q].result))
    {
      var path := visits'[q].target.path;
      if path in disks {
        BeforeExtend(disks, visits, finals, visit, final, disks[path], init[path], q);
      }
    }
  }

  /** After one more visit, each device is in the state that visit left it
      in if the visit opened it, and unchanged otherwise. */
  lemma StatesExtend(disks: map<string, Device>, init: map<string, Medium>, visits: seq<Visit>, finals: seq<Medium>,
                     visit: Visit, final: Medium, pre: map<string, Medium>, post: map<string, Medium>)
    requires |finals| == |visits|
    requires forall p :: p in disks ==> p in init && p in pre && p in post
    requires forall p :: p in disks ==> pre[p] == Before(disks, visits, finals, disks[p], init[p], |visits|)
    requires forall p :: p in disks ==> post[p] == if Opens(disks, visit, disks[p]) then final else pre[p]
    ensures forall p :: p in disks ==>
      post[p] == Before(disks, visits + [visit], finals + [final], disks[p], init[p], |visits| + 1)
  {
    forall p | p in disks
      ensures post[p] == Before(disks, visits + [visit], finals + [final], disks[p], init[p], |visits| + 1)
    {
      BeforeExtend(disks, visits, finals, visit, final, disks[p], init[p], |visits|);
    }
  }

  /** One turn of `main`'s loop: visits `t` and keeps the record of the
      visits so far and the state of every device. */
  method VisitNext(t: Target, disks: map<string, Device>, v: Variant, memoryOk: bool, rand: (nat, int) -> byte,
                   ghost init: map<string, Medium>, ghost visits: seq<Visit>, ghost starts: seq<Medium>,
                   ghost finals: seq<Medium>)
    returns (visit: Visit, ghost start: Medium, ghost final: Medium)
    requires |starts| == |visits| && |finals| == |visits|
    requires Recorded(disks, init, visits, starts, finals, v, memoryOk, rand)
    requires forall p :: p in disks ==> p in init
    requires forall p :: p in disks ==> disks[p].State() == Before(disks, visits, finals, disks[p], init[p], |visits|)
    modifies set p | p in disks :: disks[p]
    ensures visit.target == t
    ensures Recorded(disks, init, visits + [visit], starts + [start], finals + [final], v, memoryOk, rand)
    ensures forall p :: p in disks ==>
      disks[p].State() == Before(disks, visits + [visit], finals + [final], disks[p], init[p], |visits| + 1)
  {
    ghost var pre := map p | p in disks :: disks[p].State();
    start := if t.path in disks then disks[t.path].State() else Medium(RegularFile, [], 0, 0, {});
    var result := VisitTarget(t, disks, v, memoryOk, rand);
    final := if t.path in disks then disks[t.path].State() else start;
    visit := Visit(t, result);
    ghost var post := map p | p in disks :: disks[p].State();
    StatesExtend(disks, init, visits, finals, visit, final, pre, post);
    RecordedExtend(disks, init, visits, starts, finals, v, memoryOk, rand, visit, start, final);
  }

  /** `main`'s loop: visits the targets in order until they run out
      (`None`) or a visit is fatal (`Some` of its failure); `init` holds each
      device's state before the first visit. */
  method VisitAll(targets: seq<Target>, disks: map<string, Device>, v: Variant, memoryOk: bool,
                  rand: (nat, int) -> byte, ghost init: map<string, Medium>)
    returns (failure: Option<Failure>, visits: seq<Visit>, ghost starts: seq<Medium>, ghost finals: seq<Medium>)
    requires forall p :: p in disks ==> p in init && init[p] == disks[p].State()
    modifies set p | p in disks :: disks[p]
    ensures |visits| <= |targets| && |starts| == |visits| && |finals| == |visits|
    ensures forall j :: 0 <= j < |visits| ==> visits[j].target == targets[j]
    ensures Recorded(disks, init, visits, starts, finals, v, memoryOk, rand)
    ensures forall p :: p in disks ==>
      disks[p].State() == Before(disks, visits, finals, disks[p], init[p], |visits|)
    ensures failure.None? ==> |visits| == |targets| && forall j :: 0 <= j < |visits| ==> Fatal(visits[j]).None?
    ensures failure.Some? ==>
      |visits| >= 1 && Fatal(visits[|visits| - 1]) == failure &&
      forall j :: 0 <= j < |visits| - 1 ==> Fatal(visits[j]).None?
  {
    visits, starts, finals := [], [], [];
    var j := 0;
    while j < |targets|
      invariant 0 <= j <= |targets| && |visits| == j && |starts| == j && |finals| == j
      invariant forall q :: 0 <= q < j ==> visits[q].target == targets[q] && Fatal(visits[q]).None?
      invariant Recorded(disks, init, visits, starts, finals, v, memoryOk, rand)
      invariant forall p :: p in disks ==> disks[p].State() == Before(disks, visits, finals, disks[p], init[p], j)
    {
      var visit, start, final := VisitNext(targets[j], disks, v, memoryOk, rand, init, visits, starts, finals);
      visits, starts, finals := visits + [visit], starts + [start], finals + [final];
      failure := Fatal(visit);
      if failure.Some? {
        return;
      }
      j := j + 1;
    }
    return None, visits, starts, finals;
  }

  /** `main`: with no argument, the help text; otherwise the targets are
      visited in order, each under the flags before it, until the arguments
      run out or a visit is fatal. `starts[j]` and `finals[j]` are the states
      of the device visit `j` opened before and after it. */
  method Run(args: seq<string>, disks: map<string, Device>, v: Variant, memoryOk: bool, rand: (nat, int) -> byte)
    returns (status: ExitStatus, visits: seq<Visit>, ghost starts: seq<Medium>, ghost finals: seq<Medium>)
    modifies set p | p in disks :: disks[p]
    ensures status == Usage <==> args == []
    ensures status == Usage ==> visits == []
    ensures |visits| <= |Targets(args)| && |starts| == |visits| && |finals| == |visits|
    ensures forall j :: 0 <= j < |visits| ==> visits[j].target == Targets(args)[j]
    ensures forall j :: 0 <= j < |visits| && visits[j].target.path !in disks ==> visits[j].result == NotOpened
    ensures forall j :: 0 <= j < |visits| && visits[j].target.path in disks ==>
      var dev := disks[visits[j].target.path];
      starts[j] == Before(disks, visits, finals, dev, old(dev.State()), j) &&
      Visited(visits[j].target, dev.blkSize, dev.SectorQuery(), starts[j], finals[j], v, memoryOk, rand, visits[j].result)
    ensures forall p :: p in disks ==>
      disks[p].State() == Before(disks, visits, finals, disks[p], old(disks[p].State()), |visits|)
    ensures status == Completed ==>
      |visits| == |Targets(args)| && forall j :: 0 <= j < |visits| ==> Fatal(visits[j]).None?
    ensures status.Aborted? ==>
      |visits| >= 1 && Fatal(visits[|visits| - 1]) == Some(status.failure) &&
      forall j :: 0 <= j < |visits| - 1 ==> Fatal(visits[j]).None?
  {
    if args == [] {
      return Usage, [], [], [];
    }
    ghost var init := map p | p in disks :: disks[p].State();
    var targets := CollectTargets(args);
    var failure;
    failure, visits, starts, finals := VisitAll(targets, disks, v, memoryOk, rand, init);
    status := if failure.Some? then Aborted(failure.value) else Completed;
  }
}
