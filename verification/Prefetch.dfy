/**
 * The prefetch thread and its owner as an interleaving of steps. A wait may end at any time (notify,
 * timeout or spurious wakeup), so nothing below depends on a notification arriving.
 */
module Prefetch {
  import opened Bytes
  import opened Windows

  const PREFETCH_DEPTH: nat := 2

  /** Where the worker thread is. */
  datatype Worker =
    | Waiting                        // in wait_timeout
    | Woken                          // about to look at `stop`
    | Loading                        // about to read `current_layer`
    | Advising(cur: nat, i: nat)     // about to consider window cur + i
    | Exited

  /** Where the owner is; `rounds` counts the shutdown calls still to finish. */
  datatype Owner =
    | Running
    | Stopping(rounds: nat)
    | Notifying(rounds: nat)
    | Joining(rounds: nat)
    | Dropping                       // the mapper field is about to be dropped
    | Unmapped

  /** One madvise call: which thread made it, and the state of the mapping then. */
  datatype Advice = Advice(range: Range, mapped: bool, byWorker: bool)

  datatype State = State(
    total: nat, stop: bool, current: nat, handle: bool, mapped: bool,
    worker: Worker, owner: Owner, log: seq<Advice>, late: nat)   // late: worker calls after `stop` was set

  datatype Step =
    | Wake | CheckStop | LoadCurrent | AdviseNext                          // worker
    | Advance(layer: nat) | OwnerAdvise(idx: nat)                          // owner, before shutdown
    | BeginShutdown(explicitly: bool) | SetStop | Notify | Join | Unmap    // owner, shutting down

  predicate WorkerStep(step: Step) { step.Wake? || step.CheckStop? || step.LoadCurrent? || step.AdviseNext? }

  function Init(total: nat): State {
    State(total, false, 0, true, true, Waiting, Running, [], 0)
  }

  /** The window the worker considers, if there is one. */
  function Target(s: State): Option<Range>
    requires s.worker.Advising?
  {
    var t := (s.worker.cur + s.worker.i) % USIZE_MODULUS;
    if s.worker.i > PREFETCH_DEPTH || t >= NumLayers(s.total) then None else WindowAt(s.total, t)
  }

  predicate Enabled(s: State, step: Step) {
    match step
    case Wake => s.worker.Waiting?
    case CheckStop => s.worker.Woken?
    case LoadCurrent => s.worker.Loading?
    case AdviseNext => s.worker.Advising?
    case Advance(_) => s.owner.Running?
    case OwnerAdvise(_) => s.owner.Running?
    case BeginShutdown(_) => s.owner.Running?
    case SetStop => s.owner.Stopping?
    case Notify => s.owner.Notifying?
    case Join => s.owner.Joining? && (s.handle ==> s.worker.Exited?)
    case Unmap => s.owner.Dropping?
  }

  function Apply(s: State, step: Step): State
    requires Enabled(s, step)
  {
    match step
    case Wake => s.(worker := Woken)
    case CheckStop => s.(worker := if s.stop then Exited else Loading)
    case LoadCurrent => s.(worker := Advising(s.current, 1))
    case AdviseNext =>
      (match Target(s)
       case None => s.(worker := Waiting)
       case Some(range) =>
         s.(worker := Advising(s.worker.cur, s.worker.i + 1),
            log := s.log + [Advice(range, s.mapped, true)],
            late := if s.stop then s.late + 1 else s.late))
    case Advance(layer) => s.(current := layer)
    case OwnerAdvise(idx) =>
      (match WindowAt(s.total, idx)
       case None => s
       case Some(range) => s.(log := s.log + [Advice(range, s.mapped, false)]))
    case BeginShutdown(explicitly) => s.(owner := Stopping(if explicitly then 2 else 1))
    case SetStop => s.(stop := true, owner := Notifying(s.owner.rounds))
    case Notify => s.(owner := Joining(s.owner.rounds))
    case Join =>
      s.(handle := false, owner := if s.owner.rounds > 1 then Stopping(s.owner.rounds - 1) else Dropping)
    case Unmap => s.(mapped := false, owner := Unmapped)
  }

  predicate Schedule(s: State, steps: seq<Step>)
    decreases |steps|
  {
    steps == [] || (Enabled(s, steps[0]) && Schedule(Apply(s, steps[0]), steps[1..]))
  }

  function Run(s: State, steps: seq<Step>): State
    requires Schedule(s, steps)
    decreases |steps|
  {
    if steps == [] then s else Run(Apply(s, steps[0]), steps[1..])
  }

  // ------------------------------------------------------------------- safety

  /** Calls the worker may still make once `stop` is set. */
  function Remaining(w: Worker): nat {
    match w
    case Loading => PREFETCH_DEPTH
    case Advising(_, i) => if i <= PREFETCH_DEPTH then PREFETCH_DEPTH + 1 - i else 0
    case _ => 0
  }

  predicate Inv(s: State) {
    && (forall k: nat :: k < |s.log| ==> s.log[k].mapped && s.log[k].range.Within(s.total))
    && (s.worker.Advising? ==> s.worker.i >= 1)
    && (s.mapped <==> !s.owner.Unmapped?)
    && (s.owner.Dropping? || s.owner.Unmapped? ==> !s.handle)
    && (!s.handle ==> s.worker.Exited?)
    && (s.worker.Exited? ==> s.stop)
    && (s.owner.Running? ==> !s.stop)
    && (s.owner.Stopping? || s.owner.Notifying? || s.owner.Joining? ==> s.owner.rounds >= 1)
    && (s.stop ==> s.late + Remaining(s.worker) <= PREFETCH_DEPTH)
    && (!s.stop ==> s.late == 0)
  }

  lemma StepKeepsInv(s: State, step: Step)
    requires Inv(s) && Enabled(s, step)
    ensures Inv(Apply(s, step))
  {
    match step {
      case AdviseNext =>
        WindowInside(s.total, (s.worker.cur + s.worker.i) % USIZE_MODULUS);
      case OwnerAdvise(idx) =>
        WindowInside(s.total, idx);
      case _ =>
    }
  }

  lemma {:induction false} RunKeepsInv(s: State, steps: seq<Step>)
    requires Inv(s) && Schedule(s, steps)
    ensures Inv(Run(s, steps)) && Run(s, steps).total == s.total
    decreases |steps|
  {
    if steps != [] {
      StepKeepsInv(s, steps[0]);
      RunKeepsInv(Apply(s, steps[0]), steps[1..]);
    }
  }

  /**
   * In every interleaving each madvise lies inside the mapping while it is mapped, and at most
   * PREFETCH_DEPTH worker calls follow the stop flag.
   */
  lemma EveryRunIsSafe(total: nat, steps: seq<Step>)
    requires Schedule(Init(total), steps)
    ensures var end := Run(Init(total), steps);
            && (forall k: nat :: k < |end.log| ==> end.log[k].mapped && end.log[k].range.Within(total))
            && end.late <= PREFETCH_DEPTH
  {
    RunKeepsInv(Init(total), steps);
  }

  /** The depth bound is reached: both prefetches of a round can follow the stop flag. */
  lemma DepthBoundIsTight()
    ensures var total := 3 * WINDOW_BYTES;
            var steps := [Wake, CheckStop, LoadCurrent, BeginShutdown(false), SetStop, AdviseNext, AdviseNext];
            Schedule(Init(total), steps) && Run(Init(total), steps).late == PREFETCH_DEPTH
  {
  }

  // ------------------------------------------------------------- which windows

  /** The ranges the worker advised, in order. */
  function WorkerRanges(log: seq<Advice>): seq<Range> {
    if log == [] then []
    else WorkerRanges(log[..|log| - 1]) + if log[|log| - 1].byWorker then [log[|log| - 1].range] else []
  }

  /** Window `t` of a file of `total` bytes, if the file reaches it. */
  function WindowIn(total: nat, t: nat): (r: seq<Range>)
    ensures |r| <= 1
  {
    if 524_288_000 * t >= total then []
    else if 524_288_000 * t + 524_288_000 <= total then [Range(524_288_000 * t, 524_288_000)]
    else [Range(524_288_000 * t, total - 524_288_000 * t)]
  }

  /** The two windows after `c`, as far as they exist; the sum wraps at the width of `usize`. */
  function Round(total: nat, c: nat): (r: seq<Range>)
    ensures |r| <= 2
  {
    var first := WindowIn(total, (c + 1) % 0x1_0000_0000_0000_0000);
    if first == [] then [] else first + WindowIn(total, (c + 2) % 0x1_0000_0000_0000_0000)
  }

  /** What the worker finds in `current` each time it loads it: the last value stored, `cur` at first. */
  function Loads(cur: nat, steps: seq<Step>): seq<nat>
    decreases |steps|
  {
    if steps == [] then []
    else match steps[0]
      case Advance(layer) => Loads(layer, steps[1..])
      case LoadCurrent => [cur] + Loads(cur, steps[1..])
      case _ => Loads(cur, steps[1..])
  }

  function Rounds(total: nat, loads: seq<nat>): seq<Range> {
    if loads == [] then [] else Rounds(total, loads[..|loads| - 1]) + Round(total, loads[|loads| - 1])
  }

  lemma WorkerRangesAppend(log: seq<Advice>, a: Advice)
    ensures WorkerRanges(log + [a]) == WorkerRanges(log) + if a.byWorker then [a.range] else []
  {
    assert (log + [a])[..|log|] == log;
  }

  /** All of the rounds before the last, and the first `n` windows of the last. */
  predicate Midway(done: seq<Range>, total: nat, cur: nat, n: nat, loads: seq<nat>) {
    && loads != [] && loads[|loads| - 1] == cur && n <= |Round(total, cur)|
    && done == Rounds(total, loads[..|loads| - 1]) + Round(total, cur)[..n]
  }

  /** The worker has advised the rounds of `loads`, except for what is left of the last. */
  predicate OnSchedule(s: State, loads: seq<nat>) {
    match s.worker
    case Advising(cur, i) =>
      1 <= i <= PREFETCH_DEPTH + 1 && Midway(WorkerRanges(s.log), s.total, cur, i - 1, loads)
    case _ => WorkerRanges(s.log) == Rounds(s.total, loads)
  }

  /** The window arithmetic of the worker, written out. */
  lemma WindowWritten(total: nat, t: nat)
    requires total < USIZE_MODULUS
    ensures (if t >= NumLayers(total) then None else WindowAt(total, t))
         == if WindowIn(total, t) == [] then None else Some(WindowIn(total, t)[0])
  {
    WindowExactly(total, t);
    assert t < NumLayers(total) <==> 524_288_000 * t < total;
  }

  lemma TargetExactly(s: State)
    requires s.worker.Advising? && s.total < USIZE_MODULUS
    requires 1 <= s.worker.i <= PREFETCH_DEPTH + 1 && s.worker.i - 1 <= |Round(s.total, s.worker.cur)|
    ensures var round := Round(s.total, s.worker.cur);
            Target(s) == if s.worker.i - 1 < |round| then Some(round[s.worker.i - 1]) else None
  {
    WindowWritten(s.total, (s.worker.cur + s.worker.i) % USIZE_MODULUS);
  }

  lemma LoadOnSchedule(s: State, loads: seq<nat>)
    requires OnSchedule(s, loads) && s.worker.Loading?
    ensures OnSchedule(Apply(s, LoadCurrent), loads + [s.current])
  {
    assert (loads + [s.current])[..|loads|] == loads;
    assert Round(s.total, s.current)[..0] == [];
  }

  lemma OneMore(prior: seq<Range>, round: seq<Range>, n: nat)
    requires n < |round|
    ensures prior + round[..n] + [round[n]] == prior + round[..n + 1]
  {
  }

  lemma AdvisedMore(log: seq<Advice>, total: nat, cur: nat, n: nat, loads: seq<nat>, a: Advice)
    requires Midway(WorkerRanges(log), total, cur, n, loads)
    requires n < |Round(total, cur)| && a.range == Round(total, cur)[n] && a.byWorker
    ensures Midway(WorkerRanges(log + [a]), total, cur, n + 1, loads)
  {
    WorkerRangesAppend(log, a);
    OneMore(Rounds(total, loads[..|loads| - 1]), Round(total, cur), n);
  }

  lemma AdviseOnSchedule(s: State, loads: seq<nat>)
    requires s.total < USIZE_MODULUS && OnSchedule(s, loads) && s.worker.Advising?
    ensures OnSchedule(Apply(s, AdviseNext), loads)
  {
    var round := Round(s.total, s.worker.cur);
    TargetExactly(s);
    if s.worker.i - 1 < |round| {
      AdviseMore(s, loads, round);
    } else {
      RoundOver(s, loads, round);
    }
  }

  lemma AdviseMore(s: State, loads: seq<nat>, round: seq<Range>)
    requires s.worker.Advising? && OnSchedule(s, loads) && round == Round(s.total, s.worker.cur)
    requires s.worker.i - 1 < |round| && Target(s) == Some(round[s.worker.i - 1])
    ensures OnSchedule(Apply(s, AdviseNext), loads)
  {
    var advice := Advice(round[s.worker.i - 1], s.mapped, true);
    AdvisedMore(s.log, s.total, s.worker.cur, s.worker.i - 1, loads, advice);
    var t := Apply(s, AdviseNext);
    assert t.total == s.total && t.worker == Advising(s.worker.cur, s.worker.i + 1);
    assert t.log == s.log + [advice];
  }

  lemma RoundOver(s: State, loads: seq<nat>, round: seq<Range>)
    requires s.worker.Advising? && OnSchedule(s, loads) && round == Round(s.total, s.worker.cur)
    requires s.worker.i - 1 >= |round| && Target(s) == None
    ensures OnSchedule(Apply(s, AdviseNext), loads)
  {
    assert Apply(s, AdviseNext) == s.(worker := Waiting);
    assert round[..s.worker.i - 1] == round;
  }

  lemma SameSchedule(s: State, t: State, loads: seq<nat>)
    requires OnSchedule(s, loads)
    requires t.total == s.total && WorkerRanges(t.log) == WorkerRanges(s.log)
    requires t.worker == s.worker || (!t.worker.Advising? && !s.worker.Advising?)
    ensures OnSchedule(t, loads)
  {
  }

  /** The owner's calls are not the worker's. */
  lemma OwnerKeepsRanges(s: State, idx: nat)
    requires s.owner.Running?
    ensures WorkerRanges(Apply(s, OwnerAdvise(idx)).log) == WorkerRanges(s.log)
  {
    if WindowAt(s.total, idx).Some? {
      WorkerRangesAppend(s.log, Advice(WindowAt(s.total, idx).value, s.mapped, false));
    }
  }

  lemma OtherOnSchedule(s: State, step: Step, loads: seq<nat>)
    requires OnSchedule(s, loads) && Enabled(s, step) && !step.LoadCurrent? && !step.AdviseNext?
    ensures OnSchedule(Apply(s, step), loads)
  {
    var t := Apply(s, step);
    if step.OwnerAdvise? {
      OwnerKeepsRanges(s, step.idx);
    } else {
      assert t.log == s.log;
    }
    assert t.total == s.total;
    SameSchedule(s, t, loads);
  }

  function Noted(s: State, step: Step, loads: seq<nat>): seq<nat> {
    if step.LoadCurrent? then loads + [s.current] else loads
  }

  lemma StepOnSchedule(s: State, step: Step, loads: seq<nat>)
    requires s.total < USIZE_MODULUS && OnSchedule(s, loads) && Enabled(s, step)
    ensures OnSchedule(Apply(s, step), Noted(s, step, loads))
  {
    match step {
      case LoadCurrent => LoadOnSchedule(s, loads);
      case AdviseNext => AdviseOnSchedule(s, loads);
      case _ => OtherOnSchedule(s, step, loads);
    }
  }

  lemma NotedLoads(s: State, steps: seq<Step>, loads: seq<nat>)
    requires steps != [] && Enabled(s, steps[0])
    ensures Noted(s, steps[0], loads) + Loads(Apply(s, steps[0]).current, steps[1..])
         == loads + Loads(s.current, steps)
    ensures Apply(s, steps[0]).total == s.total
  {
  }

  lemma {:induction false} RunOnSchedule(s: State, steps: seq<Step>, loads: seq<nat>)
    requires s.total < USIZE_MODULUS && OnSchedule(s, loads) && Schedule(s, steps)
    ensures OnSchedule(Run(s, steps), loads + Loads(s.current, steps)) && Run(s, steps).total == s.total
    decreases |steps|
  {
    if steps == [] {
      assert loads + [] == loads;
    } else {
      StepOnSchedule(s, steps[0], loads);
      NotedLoads(s, steps, loads);
      RunOnSchedule(Apply(s, steps[0]), steps[1..], Noted(s, steps[0], loads));
    }
  }

  /**
   * Which windows the worker advises, in every interleaving: for each value of `current` it loaded, the
   * two windows after it that exist, in order. Only the round it is still in may be incomplete.
   */
  lemma RoundsExactly(total: nat, steps: seq<Step>)
    requires total < USIZE_MODULUS && Schedule(Init(total), steps)
    ensures var end, loads := Run(Init(total), steps), Loads(0, steps);
            && WorkerRanges(end.log) <= Rounds(total, loads)
            && (loads != [] ==> Rounds(total, loads[..|loads| - 1]) <= WorkerRanges(end.log))
            && (!end.worker.Advising? ==> WorkerRanges(end.log) == Rounds(total, loads))
  {
    var end, loads := Run(Init(total), steps), Loads(0, steps);
    assert OnSchedule(end, loads) && end.total == total by {
      RunOnSchedule(Init(total), steps, []);
      assert [] + loads == loads;
    }
    ScheduleBounds(end, loads);
  }

  lemma ScheduleBounds(s: State, loads: seq<nat>)
    requires OnSchedule(s, loads)
    ensures WorkerRanges(s.log) <= Rounds(s.total, loads)
    ensures loads != [] ==> Rounds(s.total, loads[..|loads| - 1]) <= WorkerRanges(s.log)
    ensures !s.worker.Advising? ==> WorkerRanges(s.log) == Rounds(s.total, loads)
  {
  }

  lemma WindowInCovers(total: nat, t: nat, b: nat)
    ensures (exists k: nat :: k < |WindowIn(total, t)| && WindowIn(total, t)[k].Covers(b)) <==>
            b < total && b / 524_288_000 == t
  {
    if b < total && b / 524_288_000 == t {
      assert WindowIn(total, t)[0].Covers(b);
    }
  }

  /** Away from the wrap the round is windows `c + 1` and `c + 2`, cut off at the end of the file. */
  lemma RoundCovers(total: nat, c: nat, b: nat)
    requires c + PREFETCH_DEPTH < USIZE_MODULUS
    ensures (exists k: nat :: k < |Round(total, c)| && Round(total, c)[k].Covers(b)) <==>
            b < total && c + 1 <= b / 524_288_000 <= c + 2
  {
    var round, first, second := Round(total, c), WindowIn(total, c + 1), WindowIn(total, c + 2);
    WindowInCovers(total, c + 1, b);
    WindowInCovers(total, c + 2, b);
    assert first == [] ==> second == [];
    assert round == first + second;
    if k: nat :| k < |first| && first[k].Covers(b) {
      assert round[k].Covers(b);
    }
    if k: nat :| k < |second| && second[k].Covers(b) {
      assert round[|first| + k].Covers(b);
    }
    forall k: nat | k < |round| && round[k].Covers(b)
      ensures b < total && c + 1 <= b / 524_288_000 <= c + 2
    {
      assert if k < |first| then first[k].Covers(b) else second[k - |first|].Covers(b);
    }
  }

  // ---------------------------------------------------------------- termination

  /** Worker steps left before it exits, once `stop` is set. */
  function WorkerRank(w: Worker): nat {
    match w
    case Exited => 0
    case Woken => 1
    case Waiting => 2
    case Advising(_, i) => if i <= PREFETCH_DEPTH then 4 + PREFETCH_DEPTH - i else 3
    case Loading => 4 + PREFETCH_DEPTH
  }

  function OwnerRank(o: Owner): nat {
    match o
    case Running => 8
    case Stopping(r) => 3 * r + 1
    case Notifying(r) => 3 * r
    case Joining(r) => if r > 0 then 3 * r - 1 else 0
    case Dropping => 1
    case Unmapped => 0
  }

  /** After the stop flag every step of either thread brings the end nearer. */
  lemma StepMakesProgress(s: State, step: Step)
    requires Inv(s) && s.stop && Enabled(s, step)
    ensures Apply(s, step).stop
    ensures var t := Apply(s, step);
            WorkerRank(t.worker) + OwnerRank(t.owner) < WorkerRank(s.worker) + OwnerRank(s.owner)
  {
  }

  /** And until everything is released some step can be taken, with no notification needed. */
  lemma NeverStuck(s: State)
    requires Inv(s) && s.stop && !s.owner.Unmapped?
    ensures exists step :: Enabled(s, step)
    ensures !s.worker.Exited? ==> exists step :: WorkerStep(step) && Enabled(s, step)
  {
    match s.worker {
      case Waiting => assert WorkerStep(Wake) && Enabled(s, Wake);
      case Woken => assert WorkerStep(CheckStop) && Enabled(s, CheckStop);
      case Loading => assert WorkerStep(LoadCurrent) && Enabled(s, LoadCurrent);
      case Advising(_, _) => assert WorkerStep(AdviseNext) && Enabled(s, AdviseNext);
      case Exited =>
        match s.owner {
          case Stopping(_) => assert Enabled(s, SetStop);
          case Notifying(_) => assert Enabled(s, Notify);
          case Joining(_) => assert Enabled(s, Join);
          case Dropping => assert Enabled(s, Unmap);
          case _ =>
        }
    }
  }

  /**
   * Shutdown terminates: a run from a stopped state has bounded length, and if it cannot be continued
   * the worker has exited, the handle has been joined, and the mapping has been released after that.
   */
  lemma {:induction false} ShutdownTerminates(s: State, steps: seq<Step>)
    requires Inv(s) && s.stop && Schedule(s, steps)
    ensures |steps| <= WorkerRank(s.worker) + OwnerRank(s.owner)
    ensures var end := Run(s, steps);
            (forall step :: !Enabled(end, step)) ==>
              end.owner.Unmapped? && end.worker.Exited? && !end.handle && !end.mapped
    decreases |steps|
  {
    if steps == [] {
      if !s.owner.Unmapped? {
        NeverStuck(s);
      }
    } else {
      StepKeepsInv(s, steps[0]);
      StepMakesProgress(s, steps[0]);
      ShutdownTerminates(Apply(s, steps[0]), steps[1..]);
    }
  }

  /** A second shutdown, after the first has joined, changes nothing but where the owner is. */
  lemma SecondShutdownIsNoOp(s: State)
    requires Inv(s) && s.owner == Stopping(1) && !s.handle
    ensures Schedule(s, [SetStop, Notify, Join])
    ensures Run(s, [SetStop, Notify, Join]) == s.(owner := Dropping)
  {
  }
}
