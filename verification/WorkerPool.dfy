/**
 The bounded pool that tests channels: a feeder, workers and a reducer over unbuffered channels.

 Every interleaving is a sequence of steps. A send on an unbuffered channel is one step shared by
 its two sides, and cancellation can come at any time. Each job's fate is recorded beside the
 program state.
 */
module WorkerPool {

  datatype Summary = Summary(tested: int, succeeded: int, failed: int, disabled: int, enabled: int)

  const ZERO := Summary(0, 0, 0, 0, 0)

  function Plus(a: Summary, b: Summary): Summary {
    Summary(a.tested + b.tested, a.succeeded + b.succeeded, a.failed + b.failed,
            a.disabled + b.disabled, a.enabled + b.enabled)
  }

  /** Idle is the select on cancellation and jobs; Pausing is the wait between two requests. */
  datatype Worker =
    | Idle
    | Holding(job: nat)
    | Running(job: nat)
    | Sending(job: nat, result: Summary)
    | Pausing
    | Exited

  datatype Fate =
    | Queued
    | Held(worker: nat)
    | Started(worker: nat)
    | Finished(worker: nat, result: Summary)
    | Reduced(result: Summary)
    | Lost

  /** runnable: the channel exists and is not manually disabled. */
  datatype Config = Config(runnable: nat -> bool)

  datatype Pool = Pool(
    next: nat, feederDone: bool, workers: seq<Worker>, cancelled: bool, reducerDone: bool, reporting: bool,
    summary: Summary, processed: nat, reports: seq<nat>, fates: seq<Fate>, started: seq<nat>)

  const DEFAULT_CONCURRENCY := 1
  const MAX_CONCURRENCY := 32

  function WorkerCount(concurrency: int, total: nat): (n: nat)
    ensures n <= total && n <= MAX_CONCURRENCY && (total > 0 ==> n >= 1)
    ensures n < total ==> n == MAX_CONCURRENCY || n == concurrency || (n == 1 && concurrency < 1)
    ensures n <= if concurrency < 1 then 1 else concurrency
  {
    var c := if concurrency < 1 then DEFAULT_CONCURRENCY
             else if concurrency > MAX_CONCURRENCY then MAX_CONCURRENCY else concurrency;
    if c < total then c else total
  }

  /** With no channels the call reports 0 of 0 and returns before starting anything. */
  function Init(concurrency: int, total: nat): Pool {
    Pool(0, total == 0, seq(WorkerCount(concurrency, total), _ => Idle), false, total == 0, false,
         ZERO, 0, [0], seq(total, _ => Queued), [])
  }

  datatype Step =
    | Hand(w: nat)                       // the feeder passes the next channel to an idle worker
    | FeederEnd                          // the feeder is through, or sees the cancellation, and closes jobs
    | SeeClosed(w: nat)                  // an idle worker sees jobs closed
    | Quit(w: nat)                       // an idle or pausing worker sees the cancellation
    | Begin(w: nat)                      // not cancelled: the worker goes on with its channel
    | Drop(w: nat)                       // cancelled between receiving and running
    | Finish(w: nat, result: Summary)    // the test is over, or was skipped with an empty result
    | Reduce(w: nat, pause: bool)        // the reducer takes the worker's result; pause: a request interval is set
    | Report                             // the reducer reports its progress, unless it sees the cancellation
    | Wake(w: nat)
    | Close                              // all workers gone: results is closed and the call returns
    | Cancel

  predicate AllExited(p: Pool) {
    forall w :: 0 <= w < |p.workers| ==> p.workers[w].Exited?
  }

  predicate Enabled(cfg: Config, p: Pool, s: Step) {
    match s
    case Hand(w) => w < |p.workers| && p.workers[w].Idle? && !p.feederDone && p.next < |p.fates|
    case FeederEnd => !p.feederDone && (p.next == |p.fates| || p.cancelled)
    case SeeClosed(w) => w < |p.workers| && p.workers[w].Idle? && p.feederDone
    case Quit(w) => w < |p.workers| && (p.workers[w].Idle? || p.workers[w].Pausing?) && p.cancelled
    case Begin(w) => w < |p.workers| && p.workers[w].Holding? && !p.cancelled
    case Drop(w) => w < |p.workers| && p.workers[w].Holding? && p.cancelled
    case Finish(w, r) => w < |p.workers| && p.workers[w].Running? && (!cfg.runnable(p.workers[w].job) ==> r == ZERO)
    case Reduce(w, _) => w < |p.workers| && p.workers[w].Sending? && !p.reducerDone && !p.reporting
    case Report => p.reporting
    case Wake(w) => w < |p.workers| && p.workers[w].Pausing?
    case Close => AllExited(p) && !p.reducerDone && !p.reporting
    case Cancel => !p.cancelled
  }

  /** Worker w moves on, and so does the fate of the job it holds. */
  function Move(p: Pool, w: nat, to: Worker, job: nat, fate: Fate): Pool
    requires w < |p.workers| && job < |p.fates|
  {
    p.(workers := p.workers[w := to], fates := p.fates[job := fate])
  }

  predicate JobPlaced(fates: seq<Fate>, w: nat, worker: Worker) {
    match worker
    case Holding(j) => j < |fates| && fates[j] == Held(w)
    case Running(j) => j < |fates| && fates[j] == Started(w)
    case Sending(j, r) => j < |fates| && fates[j] == Finished(w, r)
    case _ => true
  }

  /** Every worker's job is recorded as being with that worker. */
  ghost predicate Placed(p: Pool) {
    forall w :: 0 <= w < |p.workers| ==> JobPlaced(p.fates, w, p.workers[w])
  }

  function Apply(cfg: Config, p: Pool, s: Step): Pool
    requires Placed(p) && Enabled(cfg, p, s)
  {
    match s
    case Hand(w) => Move(p, w, Holding(p.next), p.next, Held(w)).(next := p.next + 1)
    case FeederEnd => p.(feederDone := true)
    case SeeClosed(w) => p.(workers := p.workers[w := Exited])
    case Quit(w) => p.(workers := p.workers[w := Exited])
    case Begin(w) =>
      var j := p.workers[w].job;
      Move(p, w, Running(j), j, Started(w)).(started := p.started + [j])
    case Drop(w) => Move(p, w, Exited, p.workers[w].job, Lost)
    case Finish(w, r) =>
      var j := p.workers[w].job;
      Move(p, w, Sending(j, r), j, Finished(w, r))
    case Reduce(w, pause) =>
      var r := p.workers[w].result;
      Move(p, w, if pause then Pausing else Idle, p.workers[w].job, Reduced(r)).(
        summary := Plus(p.summary, r), processed := p.processed + 1, reporting := true)
    case Report => p.(reporting := false, reports := if p.cancelled then p.reports else p.reports + [p.processed])
    case Wake(w) => p.(workers := p.workers[w := Idle])
    case Close => p.(reducerDone := true)
    case Cancel => p.(cancelled := true)
  }

  // ---- invariants ---------------------------------------------------------------------------

  function ResultOf(f: Fate): Summary {
    if f.Reduced? then f.result else ZERO
  }

  function Total(fates: seq<Fate>): Summary {
    if fates == [] then ZERO else Plus(Total(fates[..|fates| - 1]), ResultOf(fates[|fates| - 1]))
  }

  function CountReduced(fates: seq<Fate>): nat {
    if fates == [] then 0 else CountReduced(fates[..|fates| - 1]) + if fates[|fates| - 1].Reduced? then 1 else 0
  }

  predicate Ran(f: Fate) {
    f.Started? || f.Finished? || f.Reduced?
  }

  predicate FatePlaced(p: Pool, j: nat, f: Fate) {
    match f
    case Queued => j >= p.next
    case Held(w) => j < p.next && w < |p.workers| && p.workers[w] == Holding(j)
    case Started(w) => j < p.next && w < |p.workers| && p.workers[w] == Running(j)
    case Finished(w, r) => j < p.next && w < |p.workers| && p.workers[w] == Sending(j, r)
    case Reduced(_) => j < p.next
    case Lost => j < p.next && p.cancelled
  }

  /** Workers and jobs agree on who holds what. */
  ghost predicate Matched(p: Pool) {
    Placed(p) && forall j :: 0 <= j < |p.fates| ==> FatePlaced(p, j, p.fates[j])
  }

  /** The jobs that began, each once. */
  ghost predicate StartedOnce(p: Pool) {
    && (forall a, b :: 0 <= a < b < |p.started| ==> p.started[a] != p.started[b])
    && (forall j :: 0 <= j < |p.fates| ==> (j in p.started <==> Ran(p.fates[j])))
    && (forall j :: j in p.started ==> j < |p.fates|)
  }

  ghost predicate SumsUp(p: Pool) {
    p.summary == Total(p.fates) && p.processed == CountReduced(p.fates)
  }

  /** A channel that must not run contributes nothing. */
  ghost predicate SkippedEmpty(cfg: Config, p: Pool) {
    forall j :: 0 <= j < |p.fates| && (p.fates[j].Finished? || p.fates[j].Reduced?) && !cfg.runnable(j) ==>
      p.fates[j].result == ZERO
  }

  /** A result that was taken and not yet reported. */
  function Due(p: Pool): nat {
    if p.reporting then 1 else 0
  }

  /** Progress counts up from 0 without a gap and stops at the cancellation. */
  ghost predicate Reported(p: Pool) {
    && (forall i :: 0 <= i < |p.reports| ==> p.reports[i] == i)
    && 1 <= |p.reports| <= p.processed + 1 - Due(p)
    && (!p.cancelled ==> |p.reports| == p.processed + 1 - Due(p))
  }

  ghost predicate Shutdown(p: Pool) {
    && p.next <= |p.fates|
    && (|p.fates| > 0 ==> |p.workers| > 0)
    && (p.reducerDone ==> AllExited(p) && !p.reporting)
    && (!p.cancelled && p.feederDone ==> p.next == |p.fates|)
    && (!p.cancelled && !p.feederDone ==> forall w :: 0 <= w < |p.workers| ==> !p.workers[w].Exited?)
    && (|p.fates| == 0 ==> p.feederDone && p.reducerDone && |p.workers| == 0)
  }

  ghost predicate Inv(cfg: Config, p: Pool) {
    Matched(p) && StartedOnce(p) && SumsUp(p) && SkippedEmpty(cfg, p) && Reported(p) && Shutdown(p)
  }

  lemma InitInv(cfg: Config, concurrency: int, total: nat)
    ensures Inv(cfg, Init(concurrency, total))
  {
    hide Total, CountReduced;
    NothingReduced(Init(concurrency, total).fates);
  }

  lemma {:induction false} NothingReduced(fates: seq<Fate>)
    requires forall j :: 0 <= j < |fates| ==> fates[j] == Queued
    ensures Total(fates) == ZERO && CountReduced(fates) == 0
  {
    hide Plus;
    if fates != [] {
      var last := |fates| - 1;
      NothingReduced(fates[..last]);
      assert ResultOf(fates[last]) == ZERO;
      PlusLaws(ZERO, ZERO, ZERO);
    }
  }

  lemma PlusLaws(a: Summary, b: Summary, c: Summary)
    ensures Plus(a, ZERO) == a && Plus(ZERO, a) == a && Plus(Plus(a, b), c) == Plus(a, Plus(b, c))
  {}

  /** Replacing one fate changes the sums by exactly that fate. */
  lemma {:induction false} SumsUpdate(fates: seq<Fate>, j: nat, f: Fate)
    requires j < |fates| && !fates[j].Reduced?
    ensures Total(fates[j := f]) == Plus(Total(fates), ResultOf(f))
    ensures CountReduced(fates[j := f]) == CountReduced(fates) + if f.Reduced? then 1 else 0
  {
    var last := |fates| - 1;
    if j == last {
      assert fates[j := f][..last] == fates[..last];
    } else {
      SumsUpdate(fates[..last], j, f);
      assert fates[j := f][..last] == fates[..last][j := f];
    }
  }

  lemma StepPlaced(cfg: Config, p: Pool, s: Step)
    requires Matched(p) && Shutdown(p) && Enabled(cfg, p, s)
    ensures Placed(Apply(cfg, p, s))
  {}

  lemma StepFates(cfg: Config, p: Pool, s: Step)
    requires Matched(p) && Shutdown(p) && Enabled(cfg, p, s)
    ensures var q := Apply(cfg, p, s); forall j :: 0 <= j < |q.fates| ==> FatePlaced(q, j, q.fates[j])
  {}

  /** Only beginning a channel makes it one that ran. */
  lemma StepRan(cfg: Config, p: Pool, s: Step)
    requires Matched(p) && Enabled(cfg, p, s)
    ensures Placed(p)
    ensures var q := Apply(cfg, p, s);
            |q.fates| == |p.fates| && q.started == (if s.Begin? then p.started + [p.workers[s.w].job] else p.started) &&
            (s.Begin? ==> p.workers[s.w].job < |p.fates| && !Ran(p.fates[p.workers[s.w].job])) &&
            forall j :: 0 <= j < |p.fates| ==>
              (Ran(q.fates[j]) <==> Ran(p.fates[j]) || (s.Begin? && j == p.workers[s.w].job))
  {}

  lemma StepStartedOnce(cfg: Config, p: Pool, s: Step)
    requires Matched(p) && StartedOnce(p) && Enabled(cfg, p, s)
    ensures StartedOnce(Apply(cfg, p, s))
  {
    hide FatePlaced, JobPlaced;
    var q := Apply(cfg, p, s);
    StepRan(cfg, p, s);
    if s.Begin? {
      var j := p.workers[s.w].job;
      assert j !in p.started;
      assert forall k :: k in q.started <==> k in p.started || k == j;
    }
  }

  lemma StepSumsUp(cfg: Config, p: Pool, s: Step)
    requires Matched(p) && SumsUp(p) && Enabled(cfg, p, s)
    ensures SumsUp(Apply(cfg, p, s))
  {
    hide Total, CountReduced;
    match s
    case Hand(w) => SumsUpdate(p.fates, p.next, Held(w));
    case Begin(w) => SumsUpdate(p.fates, p.workers[w].job, Started(w));
    case Drop(w) => SumsUpdate(p.fates, p.workers[w].job, Lost);
    case Finish(w, r) => SumsUpdate(p.fates, p.workers[w].job, Finished(w, r));
    case Reduce(w, _) => SumsUpdate(p.fates, p.workers[w].job, Reduced(p.workers[w].result));
    case _ =>
  }

  lemma StepSkippedEmpty(cfg: Config, p: Pool, s: Step)
    requires Placed(p) && SkippedEmpty(cfg, p) && Enabled(cfg, p, s)
    ensures SkippedEmpty(cfg, Apply(cfg, p, s))
  {}

  lemma StepReported(cfg: Config, p: Pool, s: Step)
    requires Placed(p) && Reported(p) && Enabled(cfg, p, s)
    ensures Reported(Apply(cfg, p, s))
  {}

  lemma StepShutdown(cfg: Config, p: Pool, s: Step)
    requires Placed(p) && Shutdown(p) && Enabled(cfg, p, s)
    ensures Shutdown(Apply(cfg, p, s))
  {}

  lemma MatchedPlaced(p: Pool)
    requires Matched(p)
    ensures Placed(p)
  {}

  lemma InvMatched(cfg: Config, p: Pool)
    requires Inv(cfg, p)
    ensures Matched(p) && Placed(p)
  {}

  lemma StepInv(cfg: Config, p: Pool, s: Step)
    requires Inv(cfg, p) && Enabled(cfg, p, s)
    ensures Placed(p) && Inv(cfg, Apply(cfg, p, s))
  {
    hide Placed, FatePlaced, StartedOnce, SumsUp, SkippedEmpty, Reported, Shutdown, Enabled, Apply;
    MatchedPlaced(p);
    StepPlaced(cfg, p, s);
    StepFates(cfg, p, s);
    StepStartedOnce(cfg, p, s);
    StepSumsUp(cfg, p, s);
    StepSkippedEmpty(cfg, p, s);
    StepReported(cfg, p, s);
    StepShutdown(cfg, p, s);
  }

  // ---- whole runs ------------------------------------------------------------------------------

  /** The states a sequence of steps passes through, as long as every step is enabled where it is taken. */
  ghost predicate Reaches(cfg: Config, p: Pool, steps: seq<Step>, q: Pool)
    decreases |steps|
  {
    if steps == [] then p == q
    else Placed(p) && Enabled(cfg, p, steps[0]) && Reaches(cfg, Apply(cfg, p, steps[0]), steps[1..], q)
  }

  lemma StepSizes(cfg: Config, p: Pool, s: Step)
    requires Placed(p) && Enabled(cfg, p, s)
    ensures var q := Apply(cfg, p, s); |q.fates| == |p.fates| && |q.workers| == |p.workers|
  {}

  lemma {:induction false} RunInv(cfg: Config, p: Pool, steps: seq<Step>, q: Pool)
    requires Inv(cfg, p) && Reaches(cfg, p, steps, q)
    ensures Inv(cfg, q) && |q.fates| == |p.fates| && |q.workers| == |p.workers|
    decreases |steps|
  {
    hide Inv, Enabled, Placed, Apply;
    if steps != [] {
      StepSizes(cfg, p, steps[0]);
      StepInv(cfg, p, steps[0]);
      RunInv(cfg, Apply(cfg, p, steps[0]), steps[1..], q);
    }
  }

  /** In every reachable state each channel has begun at most once. */
  lemma RunsAtMostOnce(cfg: Config, concurrency: int, total: nat, steps: seq<Step>, q: Pool)
    requires Reaches(cfg, Init(concurrency, total), steps, q)
    ensures forall a, b :: 0 <= a < b < |q.started| ==> q.started[a] != q.started[b]
    ensures forall j :: j in q.started ==> j < total
    ensures |q.workers| == WorkerCount(concurrency, total)
  {
    InitInv(cfg, concurrency, total);
    RunInv(cfg, Init(concurrency, total), steps, q);
  }

  // ---- what cancellation and pauses do --------------------------------------------------------

  lemma StepAfterCancel(cfg: Config, p: Pool, s: Step)
    requires Placed(p) && Enabled(cfg, p, s) && p.cancelled
    ensures var q := Apply(cfg, p, s); q.cancelled && q.started == p.started && q.reports == p.reports
  {}

  /** Once the run is cancelled no channel begins and no progress is reported any more. */
  lemma {:induction false} CancelStops(cfg: Config, p: Pool, steps: seq<Step>, q: Pool)
    requires p.cancelled && Reaches(cfg, p, steps, q)
    ensures q.cancelled && q.started == p.started && q.reports == p.reports
    decreases |steps|
  {
    hide Enabled, Placed, Apply;
    if steps != [] {
      StepAfterCancel(cfg, p, steps[0]);
      CancelStops(cfg, Apply(cfg, p, steps[0]), steps[1..], q);
    }
  }

  predicate Resting(worker: Worker) {
    worker.Pausing? || worker.Exited?
  }

  lemma StepWhileResting(cfg: Config, p: Pool, s: Step, w: nat)
    requires Placed(p) && Enabled(cfg, p, s) && w < |p.workers|
    requires Resting(p.workers[w]) && s != Wake(w)
    ensures var q := Apply(cfg, p, s); |q.workers| == |p.workers| && Resting(q.workers[w])
  {}

  lemma {:induction false} StaysResting(cfg: Config, p: Pool, steps: seq<Step>, q: Pool, w: nat)
    requires Reaches(cfg, p, steps, q) && w < |p.workers| && Resting(p.workers[w])
    requires Wake(w) !in steps
    ensures w < |q.workers| && Resting(q.workers[w])
    decreases |steps|
  {
    hide Enabled, Placed, Apply, Resting;
    if steps != [] {
      assert steps[0] in steps && forall s :: s in steps[1..] ==> s in steps;
      StepWhileResting(cfg, p, steps[0], w);
      StaysResting(cfg, Apply(cfg, p, steps[0]), steps[1..], q, w);
    }
  }

  /** With a request interval set, a worker that has delivered a result takes no channel before its pause is over. */
  lemma PauseIsKept(cfg: Config, p: Pool, w: nat, steps: seq<Step>, q: Pool)
    requires Reaches(cfg, p, [Reduce(w, true)] + steps, q) && Wake(w) !in steps
    ensures w < |q.workers| && Resting(q.workers[w])
  {
    var first := Reduce(w, true);
    assert ([first] + steps)[1..] == steps;
    StaysResting(cfg, Apply(cfg, p, first), steps, q, w);
  }

  // ---- the pool is as parallel as it may be -----------------------------------------------------

  /** The first n workers run the first n channels; the others wait. */
  ghost predicate FirstRunning(cfg: Config, p: Pool, n: nat) {
    && Inv(cfg, p) && !p.cancelled && !p.feederDone && p.next == n <= |p.workers| <= |p.fates|
    && (forall w :: 0 <= w < n ==> p.workers[w] == Running(w))
    && (forall w :: n <= w < |p.workers| ==> p.workers[w] == Idle)
  }

  lemma OneMoreRunning(cfg: Config, p: Pool, n: nat) returns (q: Pool)
    requires FirstRunning(cfg, p, n) && n < |p.workers|
    ensures FirstRunning(cfg, q, n + 1) && |q.workers| == |p.workers|
    ensures Reaches(cfg, p, [Hand(n), Begin(n)], q)
  {
    hide Inv;
    InvMatched(cfg, p);
    StepInv(cfg, p, Hand(n));
    var held := Apply(cfg, p, Hand(n));
    InvMatched(cfg, held);
    StepInv(cfg, held, Begin(n));
    q := Apply(cfg, held, Begin(n));
    assert [Hand(n), Begin(n)][1..] == [Begin(n)] && [Begin(n)][1..] == [];
    assert Reaches(cfg, held, [Begin(n)], q);
  }

  lemma {:induction false} ReachesMore(cfg: Config, p: Pool, a: seq<Step>, q: Pool, b: seq<Step>, r: Pool)
    requires Reaches(cfg, p, a, q) && Reaches(cfg, q, b, r)
    ensures Reaches(cfg, p, a + b, r)
    decreases |a|
  {
    hide Enabled, Placed, Apply;
    if a == [] {
      assert a + b == b;
    } else {
      assert (a + b)[1..] == a[1..] + b;
      ReachesMore(cfg, Apply(cfg, p, a[0]), a[1..], q, b, r);
    }
  }

  lemma {:induction false} RunningUpTo(cfg: Config, p: Pool, n: nat) returns (steps: seq<Step>, q: Pool)
    requires FirstRunning(cfg, p, 0) && n <= |p.workers|
    ensures Reaches(cfg, p, steps, q) && FirstRunning(cfg, q, n) && |q.workers| == |p.workers|
  {
    hide FirstRunning, Enabled, Placed, Apply;
    if n == 0 {
      steps, q := [], p;
    } else {
      var front, m := RunningUpTo(cfg, p, n - 1);
      q := OneMoreRunning(cfg, m, n - 1);
      ReachesMore(cfg, p, front, m, [Hand(n - 1), Begin(n - 1)], q);
      steps := front + [Hand(n - 1), Begin(n - 1)];
    }
  }

  /** Some interleaving has every worker running a channel of its own at the same time. */
  lemma AllWorkersCanRun(cfg: Config, concurrency: int, total: nat) returns (steps: seq<Step>, q: Pool)
    requires total > 0
    ensures Reaches(cfg, Init(concurrency, total), steps, q) && |q.workers| == WorkerCount(concurrency, total)
    ensures forall w :: 0 <= w < |q.workers| ==> q.workers[w] == Running(w)
  {
    InitInv(cfg, concurrency, total);
    steps, q := RunningUpTo(cfg, Init(concurrency, total), WorkerCount(concurrency, total));
  }

  /** The results of the given channels, as the pool recorded them. */
  function SumOf(fates: seq<Fate>, jobs: set<nat>): Summary
    decreases |fates|
  {
    if fates == [] then ZERO
    else
      var last := |fates| - 1;
      Plus(SumOf(fates[..last], jobs),
           if last in jobs && (fates[last].Finished? || fates[last].Reduced?) then fates[last].result else ZERO)
  }

  lemma {:induction false} TotalIsSumOf(fates: seq<Fate>, jobs: set<nat>, n: nat)
    requires n <= |fates|
    requires forall j :: 0 <= j < n ==> !fates[j].Finished?
    requires forall j :: 0 <= j < n && fates[j].Reduced? && j !in jobs ==> fates[j].result == ZERO
    ensures Total(fates[..n]) == SumOf(fates[..n], jobs)
  {
    if n > 0 {
      TotalIsSumOf(fates, jobs, n - 1);
      assert fates[..n][..n - 1] == fates[..n - 1];
    }
  }

  /** The results the tests of a run ended with, added up, and their number. */
  function FinishSum(steps: seq<Step>): Summary {
    if steps == [] then ZERO
    else Plus(if steps[0].Finish? then steps[0].result else ZERO, FinishSum(steps[1..]))
  }

  function FinishCount(steps: seq<Step>): nat {
    if steps == [] then 0 else (if steps[0].Finish? then 1 else 0) + FinishCount(steps[1..])
  }

  /** What has been finished, whether or not the reducer has taken it. */
  function Output(f: Fate): Summary {
    if f.Finished? || f.Reduced? then f.result else ZERO
  }

  function Outputs(fates: seq<Fate>): Summary {
    if fates == [] then ZERO else Plus(Outputs(fates[..|fates| - 1]), Output(fates[|fates| - 1]))
  }

  function CountFinished(fates: seq<Fate>): nat {
    if fates == [] then 0
    else CountFinished(fates[..|fates| - 1]) +
         if fates[|fates| - 1].Finished? || fates[|fates| - 1].Reduced? then 1 else 0
  }

  /** A fate that changes without a result coming or going, or that gets its result. */
  lemma {:induction false} OutputsUpdate(fates: seq<Fate>, j: nat, f: Fate)
    requires j < |fates| && !fates[j].Reduced?
    requires fates[j].Finished? ==> f == Reduced(fates[j].result)
    ensures var gained := !fates[j].Finished? && (f.Finished? || f.Reduced?);
            Outputs(fates[j := f]) == (if gained then Plus(Outputs(fates), f.result) else Outputs(fates)) &&
            CountFinished(fates[j := f]) == CountFinished(fates) + if gained then 1 else 0
  {
    var last := |fates| - 1;
    if j == last {
      assert fates[j := f][..last] == fates[..last];
    } else {
      OutputsUpdate(fates[..last], j, f);
      assert fates[j := f][..last] == fates[..last][j := f];
    }
  }

  lemma StepOutputs(cfg: Config, p: Pool, s: Step)
    requires Matched(p) && Placed(p) && Enabled(cfg, p, s)
    ensures var q := Apply(cfg, p, s);
            Outputs(q.fates) == (if s.Finish? then Plus(Outputs(p.fates), s.result) else Outputs(p.fates)) &&
            CountFinished(q.fates) == CountFinished(p.fates) + if s.Finish? then 1 else 0
  {
    hide Outputs, CountFinished, Plus;
    match s
    case Hand(w) => OutputsUpdate(p.fates, p.next, Held(w));
    case Begin(w) => OutputsUpdate(p.fates, p.workers[w].job, Started(w));
    case Drop(w) => OutputsUpdate(p.fates, p.workers[w].job, Lost);
    case Finish(w, r) => OutputsUpdate(p.fates, p.workers[w].job, Finished(w, r));
    case Reduce(w, _) => OutputsUpdate(p.fates, p.workers[w].job, Reduced(p.workers[w].result));
    case _ =>
  }

  lemma {:induction false} RunOutputs(cfg: Config, p: Pool, steps: seq<Step>, q: Pool)
    requires Inv(cfg, p) && Reaches(cfg, p, steps, q)
    ensures Outputs(q.fates) == Plus(Outputs(p.fates), FinishSum(steps))
    ensures CountFinished(q.fates) == CountFinished(p.fates) + FinishCount(steps)
    decreases |steps|
  {
    hide Inv, Enabled, Placed, Matched, Apply, Outputs, CountFinished, Plus;
    if steps == [] {
      PlusLaws(Outputs(p.fates), ZERO, ZERO);
    } else {
      var s, p' := steps[0], Apply(cfg, p, steps[0]);
      StepInv(cfg, p, s);
      InvMatched(cfg, p);
      StepOutputs(cfg, p, s);
      RunOutputs(cfg, p', steps[1..], q);
      PlusLaws(Outputs(p.fates), if s.Finish? then s.result else ZERO, FinishSum(steps[1..]));
    }
  }

  lemma {:induction false} AllTaken(fates: seq<Fate>)
    requires forall j :: 0 <= j < |fates| ==> !fates[j].Finished?
    ensures Outputs(fates) == Total(fates) && CountFinished(fates) == CountReduced(fates)
  {
    if fates != [] {
      var front := fates[..|fates| - 1];
      assert forall j :: 0 <= j < |front| ==> front[j] == fates[j];
      AllTaken(front);
    }
  }

  /** When the call returns, its summary is the sum of the results all tests of the run ended with, cancelled or not,
      which is the sum over exactly the runnable channels that began. */
  lemma SummaryIsComplete(cfg: Config, concurrency: int, total: nat, steps: seq<Step>, q: Pool)
    requires Reaches(cfg, Init(concurrency, total), steps, q) && q.reducerDone
    ensures q.summary == FinishSum(steps) && q.processed == FinishCount(steps)
    ensures q.summary == SumOf(q.fates, set j | j in q.started && cfg.runnable(j))
    ensures forall j :: j in q.started ==> j < |q.fates| && q.fates[j].Reduced?
  {
    hide Inv, Init, Reaches, FinishSum, FinishCount, Plus, SumOf;
    InitInv(cfg, concurrency, total);
    RunInv(cfg, Init(concurrency, total), steps, q);
    SummaryOfFinished(cfg, concurrency, total, steps, q);
    SummaryOfStarted(cfg, q);
  }

  lemma SummaryOfStarted(cfg: Config, q: Pool)
    requires Inv(cfg, q) && q.reducerDone
    ensures q.summary == SumOf(q.fates, set j | j in q.started && cfg.runnable(j))
    ensures forall j :: j in q.started ==> j < |q.fates| && q.fates[j].Reduced?
  {
    hide Total, CountReduced, Plus, SumOf, Reported;
    var jobs := set j | j in q.started && cfg.runnable(j);
    NobodyHolds(q);
    TotalIsSumOf(q.fates, jobs, |q.fates|);
    assert q.fates[..|q.fates|] == q.fates;
  }

  lemma SummaryOfFinished(cfg: Config, concurrency: int, total: nat, steps: seq<Step>, q: Pool)
    requires Reaches(cfg, Init(concurrency, total), steps, q) && Inv(cfg, q) && q.reducerDone
    ensures q.summary == FinishSum(steps) && q.processed == FinishCount(steps)
  {
    hide Total, Outputs, CountReduced, CountFinished, Reaches, FinishSum, FinishCount, Plus;
    var p := Init(concurrency, total);
    InitInv(cfg, concurrency, total);
    RunOutputs(cfg, p, steps, q);
    NothingReduced(p.fates);
    AllTaken(p.fates);
    NobodyHolds(q);
    AllTaken(q.fates);
    PlusLaws(FinishSum(steps), ZERO, ZERO);
  }

  lemma NobodyHolds(p: Pool)
    requires Matched(p) && AllExited(p)
    ensures forall j :: 0 <= j < |p.fates| ==> p.fates[j].Queued? || p.fates[j].Reduced? || p.fates[j].Lost?
  {}

  lemma {:induction false} AllReduced(fates: seq<Fate>)
    requires forall j :: 0 <= j < |fates| ==> fates[j].Reduced?
    ensures CountReduced(fates) == |fates|
  {
    if fates != [] {
      var front := fates[..|fates| - 1];
      assert forall j :: 0 <= j < |front| ==> front[j] == fates[j];
      AllReduced(front);
    }
  }

  /** Without cancellation every channel is processed and progress is reported as 0, 1, ..., total. */
  lemma AllProcessed(cfg: Config, concurrency: int, total: nat, steps: seq<Step>, q: Pool)
    requires Reaches(cfg, Init(concurrency, total), steps, q) && q.reducerDone && !q.cancelled
    ensures q.processed == total && q.reports == seq(total + 1, i => i)
    ensures forall j :: 0 <= j < total ==> j in q.started
  {
    InitInv(cfg, concurrency, total);
    RunInv(cfg, Init(concurrency, total), steps, q);
    NobodyHolds(q);
    assert q.feederDone by {
      if total > 0 { assert q.workers[0].Exited?; }
    }
    assert forall j :: 0 <= j < total ==> FatePlaced(q, j, q.fates[j]);
    AllReduced(q.fates);
  }

  // ---- the pool cannot hang ---------------------------------------------------------------------

  function Weight(w: Worker): nat {
    match w
    case Exited => 0
    case Idle => 1
    case Pausing => 2
    case Sending(_, _) => 4
    case Running(_) => 5
    case Holding(_) => 6
  }

  function Weights(workers: seq<Worker>): nat {
    if workers == [] then 0 else Weights(workers[..|workers| - 1]) + Weight(workers[|workers| - 1])
  }

  function Measure(p: Pool): int {
    6 * (|p.fates| - p.next) + Weights(p.workers) + Due(p) + (if p.cancelled then 0 else 1) +
    (if p.feederDone then 0 else 1) + (if p.reducerDone then 0 else 1)
  }

  lemma {:induction false} WeightsUpdate(workers: seq<Worker>, w: nat, to: Worker)
    requires w < |workers|
    ensures Weights(workers[w := to]) == Weights(workers) - Weight(workers[w]) + Weight(to)
  {
    var last := |workers| - 1;
    if w == last {
      assert workers[w := to][..last] == workers[..last];
    } else {
      WeightsUpdate(workers[..last], w, to);
      assert workers[w := to][..last] == workers[..last][w := to];
    }
  }

  lemma MeasureNatural(cfg: Config, p: Pool)
    requires Inv(cfg, p)
    ensures Measure(p) >= 0
  {}

  lemma StepDecreases(cfg: Config, p: Pool, s: Step)
    requires Inv(cfg, p) && Enabled(cfg, p, s)
    ensures 0 <= Measure(Apply(cfg, p, s)) < Measure(p)
  {
    hide Weights, Matched, StartedOnce, SumsUp, SkippedEmpty, Reported;
    assert Placed(p) by { MatchedPlaced(p); }
    var q := Apply(cfg, p, s);
    if s.FeederEnd? || s.Report? || s.Close? || s.Cancel? {
    } else {
      WeightsUpdate(p.workers, s.w, q.workers[s.w]);
      assert q.workers == p.workers[s.w := q.workers[s.w]];
    }
  }

  /** No run is longer than the initial measure. */
  lemma {:induction false} RunsAreShort(cfg: Config, p: Pool, steps: seq<Step>, q: Pool)
    requires Inv(cfg, p) && Reaches(cfg, p, steps, q)
    ensures |steps| <= Measure(p) - Measure(q)
    decreases |steps|
  {
    hide Inv, Enabled, Placed, Apply, Measure;
    if steps != [] {
      StepInv(cfg, p, steps[0]);
      StepDecreases(cfg, p, steps[0]);
      RunsAreShort(cfg, Apply(cfg, p, steps[0]), steps[1..], q);
    }
  }

  /** Until the call has returned and the feeder is gone, some step other than a cancellation can be taken. */
  lemma NeverStuck(cfg: Config, p: Pool)
    requires Inv(cfg, p) && !(p.reducerDone && p.feederDone)
    ensures exists s: Step :: !s.Cancel? && Enabled(cfg, p, s)
  {
    if p.reporting {
      assert Enabled(cfg, p, Report);
    } else if AllExited(p) {
      if !p.reducerDone {
        assert Enabled(cfg, p, Close);
      } else {
        assert p.workers[0].Exited?;
        assert Enabled(cfg, p, FeederEnd);
      }
    } else {
      var w: nat :| w < |p.workers| && !p.workers[w].Exited?;
      match p.workers[w]
      case Idle =>
        var s := if p.feederDone then SeeClosed(w) else if p.next < |p.fates| then Hand(w) else FeederEnd;
        assert Enabled(cfg, p, s);
      case Holding(_) => assert Enabled(cfg, p, if p.cancelled then Drop(w) else Begin(w));
      case Running(_) => assert Enabled(cfg, p, Finish(w, ZERO));
      case Sending(_, _) => assert Enabled(cfg, p, Reduce(w, false));
      case Pausing => assert Enabled(cfg, p, Wake(w));
    }
  }

  /** From every reachable state the pool can be run to its end without a cancellation, within the measure. */
  lemma {:induction false} AlwaysReturns(cfg: Config, p: Pool) returns (steps: seq<Step>, q: Pool)
    requires Inv(cfg, p)
    ensures Reaches(cfg, p, steps, q) && q.reducerDone && q.feederDone
    ensures (forall s :: s in steps ==> !s.Cancel?) && |steps| <= Measure(p)
    decreases Measure(p)
  {
    hide Inv, Enabled, Placed, Apply, Measure;
    if p.reducerDone && p.feederDone {
      steps, q := [], p;
      MeasureNatural(cfg, p);
    } else {
      NeverStuck(cfg, p);
      var s: Step :| !s.Cancel? && Enabled(cfg, p, s);
      StepInv(cfg, p, s);
      StepDecreases(cfg, p, s);
      var rest;
      rest, q := AlwaysReturns(cfg, Apply(cfg, p, s));
      steps := [s] + rest;
      assert steps[1..] == rest;
    }
  }

  /** A step that hands out, begins, or waits for nothing new. */
  predicate WindsDown(s: Step) {
    !s.Cancel? && !s.Hand? && !s.Begin? && !s.Wake? && !s.SeeClosed?
  }

  lemma NeverStuckWindingDown(cfg: Config, p: Pool)
    requires Inv(cfg, p) && p.cancelled && !(p.reducerDone && p.feederDone)
    ensures exists s: Step :: WindsDown(s) && Enabled(cfg, p, s)
  {
    if p.reporting {
      assert Enabled(cfg, p, Report) && WindsDown(Report);
    } else if !p.feederDone {
      assert Enabled(cfg, p, FeederEnd) && WindsDown(FeederEnd);
    } else if AllExited(p) {
      assert Enabled(cfg, p, Close) && WindsDown(Close);
    } else {
      var w: nat :| w < |p.workers| && !p.workers[w].Exited?;
      var s := match p.workers[w]
               case Idle => Quit(w)
               case Pausing => Quit(w)
               case Holding(_) => Drop(w)
               case Running(_) => Finish(w, ZERO)
               case _ => Reduce(w, false);
      assert Enabled(cfg, p, s) && WindsDown(s);
    }
  }

  /** Once cancelled, the pool can end without waiting for a pause or for the job queue to close. */
  lemma {:induction false} CancelReturnsPromptly(cfg: Config, p: Pool) returns (steps: seq<Step>, q: Pool)
    requires Inv(cfg, p) && p.cancelled
    ensures Reaches(cfg, p, steps, q) && q.reducerDone && q.feederDone && forall s :: s in steps ==> WindsDown(s)
    decreases Measure(p)
  {
    hide Inv, Enabled, Placed, Apply, Measure, WindsDown;
    if p.reducerDone && p.feederDone {
      steps, q := [], p;
    } else {
      NeverStuckWindingDown(cfg, p);
      var s: Step :| WindsDown(s) && Enabled(cfg, p, s);
      StepInv(cfg, p, s);
      StepDecreases(cfg, p, s);
      StepAfterCancel(cfg, p, s);
      var rest;
      rest, q := CancelReturnsPromptly(cfg, Apply(cfg, p, s));
      steps := [s] + rest;
      assert steps[1..] == rest;
    }
  }
}
