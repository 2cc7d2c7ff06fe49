/**
  The thread pool as a state machine.  Each step is what one thread does while it
  holds the mutex, or one call on the condition variable; runs are arbitrary
  interleavings, with spurious wake-ups.
 */
module ThreadPools {

  type Task = nat

  /** `Ready` is about to take the mutex and test the wait's predicate; `Sleeping` is inside the wait. */
  datatype Worker = Ready | Sleeping | Running(task: Task) | Exited

  datatype Pool = Pool(
    workers: seq<Worker>,
    tasks: seq<Task>,
    stopped: bool,
    pending: nat,       // calls of emplace that have pushed and not yet notified
    pendingAll: bool,   // the destructor has set the flag and not yet notified all
    enqueued: seq<Task>,
    dequeued: seq<Task>,
    finished: seq<Task>)

  datatype Step =
    | Emplace(t: Task)              // push by a thread outside the pool
    | EmplaceFrom(w: nat, t: Task)  // push by the task that worker w is running
    | NotifyOne(w: nat)
    | NotifyNobody
    | Stop
    | NotifyAll
    | WakeSpuriously(w: nat)
    | Check(w: nat)                 // predicate true: exit or dequeue; false: sleep
    | Finish(w: nat)

  function Create(n: nat): Pool {
    Pool(seq(n, _ => Ready), [], false, 0, false, [], [], [])
  }

  /** No thread outside the pool emplaces once the destructor has begun. */
  predicate Enabled(s: Pool, step: Step) {
    match step
    case Emplace(_) => !s.stopped
    case EmplaceFrom(w, _) => w < |s.workers| && s.workers[w].Running?
    case NotifyOne(w) => s.pending > 0 && w < |s.workers| && s.workers[w].Sleeping?
    case NotifyNobody => s.pending > 0 && Tally(s.workers, Sleeping) == 0
    case Stop => !s.stopped
    case NotifyAll => s.pendingAll
    case WakeSpuriously(w) => w < |s.workers| && s.workers[w].Sleeping?
    case Check(w) => w < |s.workers| && s.workers[w].Ready?
    case Finish(w) => w < |s.workers| && s.workers[w].Running?
  }

  function Woken(ws: seq<Worker>): (r: seq<Worker>)
    ensures |r| == |ws|
  {
    if ws == [] then [] else [if ws[0].Sleeping? then Ready else ws[0]] + Woken(ws[1..])
  }

  function Push(s: Pool, t: Task): Pool {
    s.(tasks := s.tasks + [t], enqueued := s.enqueued + [t], pending := s.pending + 1)
  }

  function Become(s: Pool, w: nat, x: Worker): Pool
    requires w < |s.workers|
  {
    s.(workers := s.workers[w := x])
  }

  function Apply(s: Pool, step: Step): Pool
    requires Enabled(s, step)
  {
    match step
    case Emplace(t) => Push(s, t)
    case EmplaceFrom(_, t) => Push(s, t)
    case NotifyOne(w) => Become(s, w, Ready).(pending := s.pending - 1)
    case NotifyNobody => s.(pending := s.pending - 1)
    case Stop => s.(stopped := true, pendingAll := true)
    case NotifyAll => s.(workers := Woken(s.workers), pendingAll := false)
    case WakeSpuriously(w) => Become(s, w, Ready)
    case Check(w) =>
      if s.tasks != [] then
        Become(s, w, Running(s.tasks[0])).(tasks := s.tasks[1..], dequeued := s.dequeued + [s.tasks[0]])
      else if s.stopped then Become(s, w, Exited)
      else Become(s, w, Sleeping)
    case Finish(w) => Become(s, w, Ready).(finished := s.finished + [s.workers[w].task])
  }

  // ----- counting workers

  predicate SameKind(x: Worker, y: Worker) {
    match x
    case Ready => y.Ready?
    case Sleeping => y.Sleeping?
    case Running(_) => y.Running?
    case Exited => y.Exited?
  }

  function One(x: Worker, kind: Worker): nat { if SameKind(kind, x) then 1 else 0 }

  /** The number of workers that are in the same state as `kind`, whatever task they run. */
  function Tally(ws: seq<Worker>, kind: Worker): (n: nat)
    ensures n <= |ws|
  {
    if ws == [] then 0 else One(ws[0], kind) + Tally(ws[1..], kind)
  }

  function HeldBy(x: Worker): multiset<Task> { if x.Running? then multiset{x.task} else multiset{} }

  /** The tasks being run. */
  function Held(ws: seq<Worker>): multiset<Task> {
    if ws == [] then multiset{} else HeldBy(ws[0]) + Held(ws[1..])
  }

  lemma {:induction false} TallyChange(ws: seq<Worker>, w: nat, x: Worker, kind: Worker)
    requires w < |ws|
    ensures Tally(ws[w := x], kind) == Tally(ws, kind) - One(ws[w], kind) + One(x, kind)
  {
    if w == 0 {
      assert ws[0 := x][1..] == ws[1..];
    } else {
      assert ws[w := x][1..] == ws[1..][w - 1 := x];
      TallyChange(ws[1..], w - 1, x, kind);
    }
  }

  lemma AddBoth(a: multiset<Task>, h: multiset<Task>, h': multiset<Task>, p: multiset<Task>, q: multiset<Task>)
    requires h' + p == h + q
    ensures a + h' + p == a + h + q
  {
    assert a + h' + p == a + (h' + p);
  }

  lemma SwapEnds(a: multiset<Task>, h: multiset<Task>, b: multiset<Task>)
    ensures a + h + b == b + h + a
  {
  }

  lemma {:induction false} HeldChange(ws: seq<Worker>, w: nat, x: Worker)
    requires w < |ws|
    ensures Held(ws[w := x]) + HeldBy(ws[w]) == Held(ws) + HeldBy(x)
  {
    if w == 0 {
      assert ws[0 := x][1..] == ws[1..];
      SwapEnds(HeldBy(x), Held(ws[1..]), HeldBy(ws[0]));
    } else {
      assert ws[w := x][1..] == ws[1..][w - 1 := x];
      HeldChange(ws[1..], w - 1, x);
      AddBoth(HeldBy(ws[0]), Held(ws[1..]), Held(ws[1..][w - 1 := x]), HeldBy(ws[w]), HeldBy(x));
    }
  }

  lemma HeldMore(ws: seq<Worker>, w: nat, t: Task)
    requires w < |ws| && !ws[w].Running?
    ensures Held(ws[w := Running(t)]) == Held(ws) + multiset{t}
  {
    HeldChange(ws, w, Running(t));
    assert Held(ws[w := Running(t)]) + multiset{} == Held(ws[w := Running(t)]);
  }

  lemma HeldSame(ws: seq<Worker>, w: nat, x: Worker)
    requires w < |ws| && !ws[w].Running? && !x.Running?
    ensures Held(ws[w := x]) == Held(ws)
  {
    HeldChange(ws, w, x);
    assert Held(ws[w := x]) + multiset{} == Held(ws[w := x]);
  }

  lemma {:induction false} TallyTotal(ws: seq<Worker>)
    ensures Tally(ws, Ready) + Tally(ws, Sleeping) + Tally(ws, Running(0)) + Tally(ws, Exited) == |ws|
  {
    if ws != [] { TallyTotal(ws[1..]); }
  }

  lemma {:induction false} TallyWitness(ws: seq<Worker>, kind: Worker) returns (w: nat)
    requires Tally(ws, kind) > 0
    ensures w < |ws| && SameKind(kind, ws[w])
  {
    if SameKind(kind, ws[0]) { return 0; }
    w := TallyWitness(ws[1..], kind);
    w := w + 1;
  }

  lemma {:induction false} WokenCounts(ws: seq<Worker>)
    ensures Tally(Woken(ws), Sleeping) == 0
    ensures Tally(Woken(ws), Ready) == Tally(ws, Ready) + Tally(ws, Sleeping)
    ensures Tally(Woken(ws), Running(0)) == Tally(ws, Running(0))
    ensures Tally(Woken(ws), Exited) == Tally(ws, Exited)
    ensures Held(Woken(ws)) == Held(ws)
  {
    if ws != [] {
      WokenCounts(ws[1..]);
      assert Woken(ws)[1..] == Woken(ws[1..]);
    }
  }

  lemma {:induction false} NewWorkers(n: nat)
    ensures var ws := seq(n, _ => Ready); Tally(ws, Ready) == n && Held(ws) == multiset{}
  {
    if n > 0 {
      NewWorkers(n - 1);
      assert seq(n, _ => Ready)[1..] == seq(n - 1, _ => Ready);
    }
  }

  // ----- what every step keeps

  ghost predicate History(s: Pool) {
    && s.dequeued + s.tasks == s.enqueued
    && multiset(s.dequeued) == multiset(s.finished) + Held(s.workers)
  }

  ghost predicate Liveness(s: Pool) {
    && (Tally(s.workers, Exited) > 0 ==> s.stopped)
    && (s.tasks != [] ==> Tally(s.workers, Exited) < |s.workers|)
    && (s.pendingAll ==> s.stopped)
    && (s.stopped && !s.pendingAll ==> Tally(s.workers, Sleeping) == 0)
  }

  /** While any worker sleeps, each queued task has a worker or a notification on its way. */
  ghost predicate WorkConserving(s: Pool) {
    Tally(s.workers, Sleeping) == 0 || |s.tasks| <= Tally(s.workers, Ready) + s.pending
  }

  ghost predicate Inv(s: Pool) {
    |s.workers| >= 1 && History(s) && Liveness(s) && WorkConserving(s)
  }

  lemma CreateInv(n: nat)
    requires n >= 1
    ensures Inv(Create(n))
  {
    NewWorkers(n);
    TallyTotal(Create(n).workers);
  }

  lemma Counts(s: Pool, w: nat, x: Worker)
    requires w < |s.workers|
    ensures var ws := s.workers[w := x];
            forall kind :: Tally(ws, kind) == Tally(s.workers, kind) - One(s.workers[w], kind) + One(x, kind)
  {
    forall kind { TallyChange(s.workers, w, x, kind); }
  }

  lemma OneMore(f: multiset<Task>, h: multiset<Task>, t: Task)
    ensures f + h + multiset{t} == f + (h + multiset{t})
  {
  }

  lemma DequeueKeepsHistory(s: Pool, w: nat)
    requires History(s) && Enabled(s, Check(w)) && s.tasks != []
    ensures History(Apply(s, Check(w)))
  {
    var t := s.tasks[0];
    HeldMore(s.workers, w, t);
    assert s.dequeued + s.tasks == s.dequeued + [t] + s.tasks[1..];
    assert multiset(s.dequeued + [t]) == multiset(s.dequeued) + multiset{t};
    OneMore(multiset(s.finished), Held(s.workers), t);
  }

  lemma FinishKeepsHistory(s: Pool, w: nat)
    requires History(s) && Enabled(s, Finish(w))
    ensures History(Apply(s, Finish(w)))
  {
    var t := s.workers[w].task;
    HeldChange(s.workers, w, Ready);
    assert Held(s.workers[w := Ready]) + multiset{t} == Held(s.workers);
  }

  lemma StepKeepsHistory(s: Pool, step: Step)
    requires Inv(s) && Enabled(s, step)
    ensures History(Apply(s, step))
  {
    match step {
      case NotifyAll => WokenCounts(s.workers);
      case NotifyOne(w) => HeldSame(s.workers, w, Ready);
      case WakeSpuriously(w) => HeldSame(s.workers, w, Ready);
      case Finish(w) => FinishKeepsHistory(s, w);
      case Check(w) =>
        if s.tasks != [] {
          DequeueKeepsHistory(s, w);
        } else {
          HeldSame(s.workers, w, if s.stopped then Exited else Sleeping);
        }
      case _ =>
    }
  }

  lemma StepKeepsCounts(s: Pool, step: Step)
    requires Inv(s) && Enabled(s, step)
    ensures Liveness(Apply(s, step)) && WorkConserving(Apply(s, step))
  {
    match step {
      case Emplace(_) => TallyTotal(s.workers);
      case EmplaceFrom(w, _) => TallyChange(s.workers, w, s.workers[w], Exited); NotAllExited(s.workers, w);
      case NotifyAll => WokenCounts(s.workers);
      case NotifyOne(w) => Counts(s, w, Ready);
      case WakeSpuriously(w) => Counts(s, w, Ready);
      case Finish(w) => Counts(s, w, Ready);
      case Check(w) => CheckKeepsCounts(s, w);
      case _ =>
    }
  }

  lemma CheckKeepsCounts(s: Pool, w: nat)
    requires Inv(s) && Enabled(s, Check(w))
    ensures Liveness(Apply(s, Check(w))) && WorkConserving(Apply(s, Check(w)))
  {
    Counts(s, w, if s.tasks != [] then Running(s.tasks[0]) else if s.stopped then Exited else Sleeping);
    NotAllExited(s.workers, w);
  }

  lemma {:induction false} NotAllExited(ws: seq<Worker>, w: nat)
    requires w < |ws| && !ws[w].Exited?
    ensures Tally(ws, Exited) < |ws|
  {
    if w > 0 { NotAllExited(ws[1..], w - 1); }
  }

  lemma StepKeepsInv(s: Pool, step: Step)
    requires Inv(s) && Enabled(s, step)
    ensures Inv(Apply(s, step))
  {
    StepKeepsHistory(s, step);
    StepKeepsCounts(s, step);
  }

  // ----- runs

  /** `steps` can be taken one after the other from `s`. */
  predicate Possible(s: Pool, steps: seq<Step>)
    decreases steps
  {
    steps == [] || (Enabled(s, steps[0]) && Possible(Apply(s, steps[0]), steps[1..]))
  }

  function After(s: Pool, steps: seq<Step>): Pool
    requires Possible(s, steps)
    decreases steps
  {
    if steps == [] then s else After(Apply(s, steps[0]), steps[1..])
  }

  lemma {:induction false} RunKeepsInv(s: Pool, steps: seq<Step>)
    requires Inv(s) && Possible(s, steps)
    ensures Inv(After(s, steps))
    decreases steps
  {
    if steps != [] {
      StepKeepsInv(s, steps[0]);
      RunKeepsInv(Apply(s, steps[0]), steps[1..]);
    }
  }

  /** The tasks that the steps of a run hand to the pool, in order. */
  function Accepted(steps: seq<Step>): seq<Task> {
    if steps == [] then [] else HandedIn(steps[0]) + Accepted(steps[1..])
  }

  function HandedIn(step: Step): seq<Task> {
    match step case Emplace(t) => [t] case EmplaceFrom(_, t) => [t] case _ => []
  }

  lemma AcceptsOne(s: Pool, step: Step)
    requires Enabled(s, step)
    ensures Apply(s, step).enqueued == s.enqueued + HandedIn(step) && |Apply(s, step).workers| == |s.workers|
  {
  }

  lemma Associate(a: seq<Task>, b: seq<Task>, c: seq<Task>)
    ensures a + (b + c) == a + b + c
  {
  }

  /** The pool has accepted exactly these tasks, and has as many workers as it was made with. */
  lemma {:induction false} AcceptsAll(s: Pool, steps: seq<Step>)
    requires Possible(s, steps)
    ensures After(s, steps).enqueued == s.enqueued + Accepted(steps)
    ensures |After(s, steps).workers| == |s.workers|
    decreases steps
  {
    if steps != [] {
      AcceptsOne(s, steps[0]);
      AcceptsAll(Apply(s, steps[0]), steps[1..]);
      Associate(s.enqueued, HandedIn(steps[0]), Accepted(steps[1..]));
    }
  }

  lemma AcceptedFromStart(n: nat, steps: seq<Step>)
    requires Possible(Create(n), steps)
    ensures After(Create(n), steps).enqueued == Accepted(steps) && |After(Create(n), steps).workers| == n
  {
    AcceptsAll(Create(n), steps);
    assert [] + Accepted(steps) == Accepted(steps);
  }

  ghost predicate AllExited(s: Pool) {
    Tally(s.workers, Exited) == |s.workers|
  }

  lemma {:induction false} NoneHeld(ws: seq<Worker>)
    requires Tally(ws, Exited) == |ws|
    ensures Held(ws) == multiset{}
  {
    if ws != [] { NoneHeld(ws[1..]); }
  }

  /** Once all `n` workers have exited, each task handed in has been run exactly once, started in that order. */
  lemma ExactlyOnce(n: nat, steps: seq<Step>)
    requires n >= 1 && Possible(Create(n), steps) && AllExited(After(Create(n), steps))
    ensures var s := After(Create(n), steps);
            && |s.workers| == n && s.tasks == [] && s.dequeued == Accepted(steps)
            && multiset(s.finished) == multiset(Accepted(steps))
  {
    AcceptedFromStart(n, steps);
    CreateInv(n);
    RunKeepsInv(Create(n), steps);
    var s := After(Create(n), steps);
    NoneHeld(s.workers);
    assert s.dequeued + [] == s.dequeued;
  }

  /** No wake-up is lost: queued work means an awake worker or a notification still to come. */
  lemma NoLostWakeup(n: nat, steps: seq<Step>)
    requires n >= 1 && Possible(Create(n), steps)
    ensures var s := After(Create(n), steps);
            && (s.tasks != [] ==> s.pending > 0 || Tally(s.workers, Ready) + Tally(s.workers, Running(0)) > 0)
            && (s.stopped && Tally(s.workers, Sleeping) > 0 ==> s.pendingAll)
            && WorkConserving(s)
  {
    CreateInv(n);
    RunKeepsInv(Create(n), steps);
    TallyTotal(After(Create(n), steps).workers);
  }

  // ----- the pool never gets stuck

  /** A step by which the pool gets on without new tasks and without spurious wake-ups. */
  predicate Productive(step: Step) {
    !step.Emplace? && !step.EmplaceFrom? && !step.WakeSpuriously? && !step.Stop?
  }

  lemma CanProceed(s: Pool) returns (step: Step)
    requires Inv(s) && (s.tasks != [] || (s.stopped && !AllExited(s)))
    ensures Enabled(s, step) && Productive(step)
  {
    TallyTotal(s.workers);
    if s.pendingAll { return NotifyAll; }
    if Tally(s.workers, Ready) > 0 {
      var w := TallyWitness(s.workers, Ready);
      return Check(w);
    }
    if Tally(s.workers, Running(0)) > 0 {
      var w := TallyWitness(s.workers, Running(0));
      return Finish(w);
    }
    var w := TallyWitness(s.workers, Sleeping);
    return NotifyOne(w);
  }

  /** An upper bound for the steps still to come after the pool was stopped. */
  function Work(s: Pool): nat {
    2 * |s.tasks| + 2 * Tally(s.workers, Sleeping) + Tally(s.workers, Ready) + 2 * Tally(s.workers, Running(0))
    + s.pending + if s.pendingAll then 1 else 0
  }

  lemma StepUsesWork(s: Pool, step: Step)
    requires Inv(s) && s.stopped && Enabled(s, step)
    ensures Apply(s, step).stopped
    ensures Work(Apply(s, step)) + 1 <= Work(s) + if step.EmplaceFrom? then 4 else 0
  {
    match step {
      case NotifyAll => WokenCounts(s.workers);
      case NotifyOne(w) => Counts(s, w, Ready);
      case WakeSpuriously(w) => Counts(s, w, Ready);
      case Finish(w) => Counts(s, w, Ready);
      case Check(w) => Counts(s, w, if s.tasks != [] then Running(s.tasks[0]) else Exited);
      case _ =>
    }
  }

  function Emplaced(steps: seq<Step>): nat {
    if steps == [] then 0 else (if steps[0].EmplaceFrom? then 1 else 0) + Emplaced(steps[1..])
  }

  /**
    The destructor's join comes to an end: after stop, every run that emplaces only
    finitely often is bounded, and (by `CanProceed`) it can only end with all workers gone.
   */
  lemma {:induction false} StoppedRunsEnd(s: Pool, steps: seq<Step>)
    requires Inv(s) && s.stopped && Possible(s, steps)
    ensures |steps| + Work(After(s, steps)) <= Work(s) + 4 * Emplaced(steps)
    decreases steps
  {
    if steps != [] {
      StepKeepsInv(s, steps[0]);
      StepUsesWork(s, steps[0]);
      StoppedRunsEnd(Apply(s, steps[0]), steps[1..]);
    }
  }

  lemma {:induction false} NoneRunning(ws: seq<Worker>)
    requires Tally(ws, Running(0)) == 0
    ensures Held(ws) == multiset{}
  {
    if ws != [] { NoneRunning(ws[1..]); }
  }

  ghost predicate Stuck(s: Pool) {
    forall step :: Productive(step) ==> !Enabled(s, step)
  }

  lemma NotStuck(s: Pool, step: Step)
    requires Productive(step) && Enabled(s, step)
    ensures !Stuck(s)
  {
  }

  lemma StuckRunsNothing(s: Pool)
    requires Stuck(s)
    ensures Held(s.workers) == multiset{}
  {
    if Tally(s.workers, Running(0)) > 0 {
      var w := TallyWitness(s.workers, Running(0));
      NotStuck(s, Finish(w));
    }
    NoneRunning(s.workers);
  }

  /** Every one of the tasks handed in has been run exactly once and, after stop, every worker is gone. */
  ghost predicate Done(s: Pool, handedIn: seq<Task>) {
    && s.tasks == [] && s.dequeued == handedIn && multiset(s.finished) == multiset(handedIn)
    && (s.stopped ==> AllExited(s))
  }

  lemma StuckIsDone(s: Pool)
    requires Inv(s) && Stuck(s)
    ensures Done(s, s.enqueued)
  {
    if s.tasks != [] || (s.stopped && !AllExited(s)) {
      var step := CanProceed(s);
      NotStuck(s, step);
    }
    StuckRunsNothing(s);
    assert s.dequeued + [] == s.dequeued;
  }

  /** A reachable state in which nothing productive can happen has nothing left to do. */
  lemma StuckMeansDone(n: nat, steps: seq<Step>)
    requires n >= 1 && Possible(Create(n), steps) && Stuck(After(Create(n), steps))
    ensures Done(After(Create(n), steps), Accepted(steps))
  {
    AcceptedFromStart(n, steps);
    CreateInv(n);
    RunKeepsInv(Create(n), steps);
    StuckIsDone(After(Create(n), steps));
  }

  /** An upper bound for the productive steps that can follow, before stop as well as after it. */
  function Rank(s: Pool): nat {
    2 * |s.tasks| + Tally(s.workers, Ready) + 2 * Tally(s.workers, Running(0)) + 2 * s.pending
    + if s.pendingAll then |s.workers| + 1 else 0
  }

  lemma ProductiveLowersRank(s: Pool, step: Step)
    requires Enabled(s, step) && Productive(step)
    ensures Rank(Apply(s, step)) < Rank(s)
  {
    match step {
      case NotifyAll =>
        WokenCounts(s.workers);
        TallyTotal(s.workers);
      case NotifyOne(w) => Counts(s, w, Ready);
      case Finish(w) => Counts(s, w, Ready);
      case Check(w) =>
        Counts(s, w, if s.tasks != [] then Running(s.tasks[0]) else if s.stopped then Exited else Sleeping);
      case NotifyNobody =>
    }
  }

  /**
    Every run of productive steps, from any state, is bounded.  Since it can only end
    where all is done (`StuckIsDone`), queued work is always run.
   */
  lemma {:induction false} ProductiveRunsEnd(s: Pool, steps: seq<Step>)
    requires Possible(s, steps) && forall k :: 0 <= k < |steps| ==> Productive(steps[k])
    ensures |steps| + Rank(After(s, steps)) <= Rank(s)
    decreases steps
  {
    if steps != [] {
      ProductiveLowersRank(s, steps[0]);
      ProductiveRunsEnd(Apply(s, steps[0]), steps[1..]);
    }
  }

  lemma ProductiveStep(s: Pool, step: Step)
    requires Inv(s) && Enabled(s, step) && Productive(step)
    ensures Inv(Apply(s, step)) && Rank(Apply(s, step)) < Rank(s) && Apply(s, step).enqueued == s.enqueued
  {
    ProductiveLowersRank(s, step);
    StepKeepsInv(s, step);
    AcceptsOne(s, step);
  }

  lemma StepThenRun(s: Pool, step: Step, rest: seq<Step>)
    requires Enabled(s, step) && Possible(Apply(s, step), rest)
    ensures Possible(s, [step] + rest) && After(s, [step] + rest) == After(Apply(s, step), rest)
  {
    assert ([step] + rest)[1..] == rest;
  }

  /** From every state that keeps the invariant, productive steps lead to one where all is done. */
  lemma {:induction false} ComesToRest(s: Pool) returns (steps: seq<Step>)
    requires Inv(s)
    ensures Possible(s, steps) && (forall k :: 0 <= k < |steps| ==> Productive(steps[k]))
    ensures Done(After(s, steps), s.enqueued)
    decreases Rank(s)
  {
    if Stuck(s) {
      StuckIsDone(s);
      return [];
    }
    var step :| Productive(step) && Enabled(s, step);
    ProductiveStep(s, step);
    var rest := ComesToRest(Apply(s, step));
    steps := [step] + rest;
    StepThenRun(s, step, rest);
  }

  /** After every run, productive steps lead to a state in which every task handed in has been run exactly once. */
  lemma EveryTaskRuns(n: nat, steps: seq<Step>) returns (more: seq<Step>)
    requires n >= 1 && Possible(Create(n), steps)
    ensures var s := After(Create(n), steps);
            && Possible(s, more) && (forall k :: 0 <= k < |more| ==> Productive(more[k]))
            && Done(After(s, more), Accepted(steps))
  {
    AcceptedFromStart(n, steps);
    CreateInv(n);
    RunKeepsInv(Create(n), steps);
    more := ComesToRest(After(Create(n), steps));
  }
}
