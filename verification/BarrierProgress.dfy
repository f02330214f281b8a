/** The barrier does not block itself: when nothing fails, some interleaving returns normally, and every run can be
    brought to an end. */
module BarrierProgress {
  import opened Basics
  import opened Barrier

  const SETUP := Worker(Setup, None, None, map[], None)

  function Ready(now: nat): Worker {
    Worker(AtBarrier(now + TIMEOUT), Some(now), None, map[], None)
  }

  /** The frames of [start, next), all saved at one instant. */
  function FramesAt(now: nat, start: int, next: int): (r: map<int, nat>)
    ensures forall f :: f in r <==> start <= f < next
    decreases next - start
  {
    if next <= start then map[] else FramesAt(now, start, next - 1)[next - 1 := now]
  }

  /** A worker that left the barrier and solved the frames of [start, next). */
  function Solved(now: nat, start: int, next: int, pc: WorkerPc): Worker {
    Worker(pc, Some(now), Some(now), FramesAt(now, start, next), None)
  }

  function Done(now: nat, plan: Plan): Worker {
    Solved(now, plan.start, plan.stop + 1, Exited(0)).(
      result := Some(Result(SavedIn(FramesAt(now, plan.start, plan.stop + 1), plan.start, plan.stop + 1), now)))
  }

  /** The first k workers have moved on, the others have not. */
  function Front(n: nat, k: nat, moved: Worker, waiting: Worker): (r: seq<Worker>)
    ensures |r| == n && forall i :: 0 <= i < n ==> r[i] == if i < k then moved else waiting
  {
    seq(n, i => if i < k then moved else waiting)
  }

  lemma FrontStep(n: nat, k: nat, moved: Worker, waiting: Worker)
    requires k < n
    ensures Front(n, k, moved, waiting)[k := moved] == Front(n, k + 1, moved, waiting)
  {
  }

  function Before(now: nat, parent: ParentPc, workers: seq<Worker>): State {
    State(now, parent, now + TIMEOUT, 0, None, workers)
  }

  function After(now: nat, parent: ParentPc, workers: seq<Worker>): State {
    State(now, parent, now + TIMEOUT, now, Some(now), workers)
  }

  lemma {:induction false} ExecuteConcat(s: State, plan: Plan, a: seq<Action>, b: seq<Action>)
    ensures Execute(s, plan, a + b) == Execute(Execute(s, plan, a), plan, b)
    decreases |a|
  {
    if a == [] {
      assert a + b == b;
    } else {
      assert (a + b)[0] == a[0] && (a + b)[1..] == a[1..] + b;
      ExecuteConcat(Step(s, plan, a[0]), plan, a[1..], b);
    }
  }

  lemma ExecuteOne(s: State, plan: Plan, a: Action)
    ensures Execute(s, plan, [a]) == Step(s, plan, a)
  {
    assert Execute(Step(s, plan, a), plan, [a][1..]) == Step(s, plan, a);
  }

  /** After `first`, one more action. */
  lemma Then(s: State, plan: Plan, first: seq<Action>, a: Action) returns (actions: seq<Action>)
    ensures Execute(s, plan, actions) == Step(Execute(s, plan, first), plan, a)
  {
    actions := first + [a];
    ExecuteConcat(s, plan, first, [a]);
    ExecuteOne(Execute(s, plan, first), plan, a);
  }

  lemma {:induction false} SpawnAll(n: nat, k: nat, now: nat, plan: Plan) returns (actions: seq<Action>)
    requires k <= n
    ensures Execute(Initial(n, now), plan, actions)
         == State(now, Spawning(k), 0, 0, None, Front(n, k, SETUP, FRESH))
  {
    if k == 0 {
      actions := [];
      assert Initial(n, now).workers == Front(n, 0, SETUP, FRESH);
    } else {
      var first := SpawnAll(n, k - 1, now, plan);
      actions := Then(Initial(n, now), plan, first, Parent);
      FrontStep(n, k - 1, SETUP, FRESH);
    }
  }

  lemma {:induction false} ReadyAll(n: nat, k: nat, now: nat, plan: Plan) returns (actions: seq<Action>)
    requires k <= n
    ensures Execute(Initial(n, now), plan, actions) == Before(now, Polling(0), Front(n, k, Ready(now), SETUP))
  {
    if k == 0 {
      var first := SpawnAll(n, n, now, plan);
      actions := Then(Initial(n, now), plan, first, Parent);
      assert Front(n, n, SETUP, FRESH) == Front(n, 0, Ready(now), SETUP);
    } else {
      var first := ReadyAll(n, k - 1, now, plan);
      actions := Then(Initial(n, now), plan, first, Work(k - 1));
      FrontStep(n, k - 1, Ready(now), SETUP);
    }
  }

  lemma {:induction false} PollAll(n: nat, k: nat, now: nat, plan: Plan) returns (actions: seq<Action>)
    requires k <= n
    ensures Execute(Initial(n, now), plan, actions) == Before(now, Polling(k), Front(n, n, Ready(now), SETUP))
  {
    if k == 0 {
      actions := ReadyAll(n, n, now, plan);
    } else {
      var first := PollAll(n, k - 1, now, plan);
      actions := Then(Initial(n, now), plan, first, Parent);
    }
  }

  lemma GoWritten(n: nat, now: nat, plan: Plan) returns (actions: seq<Action>)
    ensures Execute(Initial(n, now), plan, actions) == After(now, Waiting(0), Front(n, 0, Done(now, plan), Ready(now)))
  {
    var polled := PollAll(n, n, now, plan);
    var stamp := Then(Initial(n, now), plan, polled, Parent);
    var write := Then(Initial(n, now), plan, stamp, Parent);
    actions := Then(Initial(n, now), plan, write, Parent);
    assert Front(n, n, Ready(now), SETUP) == Front(n, 0, Done(now, plan), Ready(now));
  }

  /** Worker k leaves the barrier and solves frames up to, not including, `next`. */
  lemma {:induction false} SolveFrames(n: nat, k: nat, now: nat, plan: Plan, next: int, first: seq<Action>)
    returns (actions: seq<Action>)
    requires k < n && plan.start <= next <= plan.stop < plan.end
    requires Execute(Initial(n, now), plan, first) == After(now, Waiting(0), Front(n, k, Done(now, plan), Ready(now)))
    ensures Execute(Initial(n, now), plan, actions)
         == After(now, Waiting(0),
                  Front(n, k, Done(now, plan), Ready(now))[k := Solved(now, plan.start, next, Measuring(next))])
    decreases next - plan.start
  {
    if next == plan.start {
      actions := Then(Initial(n, now), plan, first, Leave(k, plan.start));
    } else {
      var before := SolveFrames(n, k, now, plan, next - 1, first);
      actions := Then(Initial(n, now), plan, before, Solve(k, true));
      Overwrite(Front(n, k, Done(now, plan), Ready(now)), k,
                Solved(now, plan.start, next - 1, Measuring(next - 1)), Solved(now, plan.start, next, Measuring(next)));
    }
  }

  lemma Overwrite(workers: seq<Worker>, k: nat, w: Worker, w': Worker)
    requires k < |workers|
    ensures workers[k := w][k] == w && workers[k := w][k := w'] == workers[k := w']
  {
  }

  lemma {:induction false} WorkAll(n: nat, k: nat, now: nat, plan: Plan) returns (actions: seq<Action>)
    requires k <= n && plan.start <= plan.stop < plan.end
    ensures Execute(Initial(n, now), plan, actions) == After(now, Waiting(0), Front(n, k, Done(now, plan), Ready(now)))
  {
    if k == 0 {
      actions := GoWritten(n, now, plan);
    } else {
      var j := k - 1;
      var workers := Front(n, j, Done(now, plan), Ready(now));
      var first := WorkAll(n, j, now, plan);
      var measured := SolveFrames(n, j, now, plan, plan.stop, first);
      var solved := Then(Initial(n, now), plan, measured, Solve(j, true));
      var atReport := Solved(now, plan.start, plan.stop + 1, Report);
      Overwrite(workers, j, Solved(now, plan.start, plan.stop, Measuring(plan.stop)), atReport);
      var reported := Then(Initial(n, now), plan, solved, Work(j));
      var atReported := Done(now, plan).(pc := Reported);
      Overwrite(workers, j, atReport, atReported);
      actions := Then(Initial(n, now), plan, reported, Work(j));
      Overwrite(workers, j, atReported, Done(now, plan));
      FrontStep(n, j, Done(now, plan), Ready(now));
    }
  }

  lemma {:induction false} WaitAll(n: nat, k: nat, now: nat, plan: Plan) returns (actions: seq<Action>)
    requires k <= n && plan.start <= plan.stop < plan.end
    ensures Execute(Initial(n, now), plan, actions) == After(now, Waiting(k), Front(n, n, Done(now, plan), Ready(now)))
  {
    if k == 0 {
      actions := WorkAll(n, n, now, plan);
    } else {
      var first := WaitAll(n, k - 1, now, plan);
      actions := Then(Initial(n, now), plan, first, Parent);
    }
  }

  lemma {:induction false} AllSaved(now: nat, start: int, mid: int, end: int)
    requires start <= mid <= end
    ensures SavedIn(FramesAt(now, start, end), start, mid) == mid - start
    decreases mid - start
  {
    if mid <= start {
    } else {
      AllSaved(now, start, mid - 1, end);
    }
  }

  /** For any number of workers and any interval inside the frame range, a run can return normally. */
  lemma SomeRunReturns(n: nat, now: nat, plan: Plan)
    requires n > 0 && plan.start <= plan.stop < plan.end
    ensures exists actions :: Execute(Initial(n, now), plan, actions).parent.Returned?
  {
    var waited := WaitAll(n, n, now, plan);
    var judged := Then(Initial(n, now), plan, waited, Parent);
    var actions := Then(Initial(n, now), plan, judged, Parent);
    AllSaved(now, plan.start, plan.stop + 1, plan.stop + 1);
    assert Execute(Initial(n, now), plan, actions).parent.Returned?;
  }

  // No run gets stuck: a schedule that ends it without a further crash.

  predicate Ended(parent: ParentPc) {
    parent.Returned? || parent.Raised?
  }

  /** The next move of the schedule: wait out the parent's deadline, bring the child waited for to its exit, or let
      the parent move. */
  function Choose(s: State, plan: Plan): Action {
    match s.parent
    case Polling(_) => WaitedOut(s)
    case CheckDeadline => WaitedOut(s)
    case CheckExits(_) => WaitedOut(s)
    case Waiting(i) => if i < |s.workers| then ChooseWork(s.workers[i].pc, i, plan) else Parent
    case _ => Parent
  }

  function WaitedOut(s: State): Action {
    if s.now < s.deadline then Tick(s.deadline - s.now) else Parent
  }

  function ChooseWork(pc: WorkerPc, i: nat, plan: Plan): Action {
    match pc
    case AtBarrier(_) => Leave(i, plan.stop)
    case Measuring(_) => Solve(i, true)
    case Exited(_) => Parent
    case _ => Work(i)
  }

  // What the schedule uses up: phases, then children, then moves of one child.

  function Phase(s: State): nat {
    match s.parent
    case Spawning(_) => 7
    case Polling(_) => if s.now < s.deadline then 6 else 5
    case CheckDeadline => if s.now < s.deadline then 6 else 5
    case CheckExits(_) => if s.now < s.deadline then 6 else 5
    case Stamp => 4
    case WriteGo => 3
    case Waiting(_) => 2
    case Judge => 1
    case Returned(_) => 0
    case Raised => 0
  }

  function From(i: nat, n: nat): nat {
    if i < n then n - i else 0
  }

  function Children(s: State): nat {
    var n := |s.workers|;
    match s.parent
    case Spawning(i) => From(i, n)
    case Polling(i) => 1 + From(i, n)
    case CheckExits(i) => n + 2 + From(i, n)
    case Waiting(i) => From(i, n)
    case _ => 0
  }

  function Moves(s: State, plan: Plan): nat {
    if s.parent.Waiting? && s.parent.child < |s.workers| then WorkerMoves(s.workers[s.parent.child].pc, plan) else 0
  }

  function WorkerMoves(pc: WorkerPc, plan: Plan): nat {
    match pc
    case AtBarrier(_) => 4
    case Measuring(next) => if next < plan.stop then 3 + plan.stop - next else 3
    case Report => 2
    case Reported => 1
    case _ => 0
  }

  /** The state `s'` is lexicographically nearer to the end than `s`. */
  predicate Nearer(s: State, s': State, plan: Plan) {
    || Phase(s') < Phase(s)
    || (Phase(s') == Phase(s) && Children(s') < Children(s))
    || (Phase(s') == Phase(s) && Children(s') == Children(s) && Moves(s', plan) < Moves(s, plan))
  }

  lemma PollingNearer(s: State, plan: Plan)
    requires s.parent.Polling? || s.parent.CheckDeadline? || s.parent.CheckExits?
    ensures Nearer(s, Step(s, plan, Choose(s, plan)), plan)
  {
  }

  lemma WaitingNearer(s: State, plan: Plan)
    requires Inv(s, plan) && s.parent.Waiting?
    ensures Nearer(s, Step(s, plan, Choose(s, plan)), plan)
  {
    var i := s.parent.child;
    if i < |s.workers| {
      assert WorkerOk(s.workers[i], s.now, s.go, plan) && s.workers[i].ready.Some?;
    }
  }

  lemma ScheduleNearer(s: State, plan: Plan)
    requires Inv(s, plan) && !Ended(s.parent)
    ensures Nearer(s, Step(s, plan, Choose(s, plan)), plan)
  {
    if s.parent.Waiting? {
      WaitingNearer(s, plan);
    } else if s.parent.Polling? || s.parent.CheckDeadline? || s.parent.CheckExits? {
      PollingNearer(s, plan);
    }
  }

  lemma {:induction false} Finish(s: State, plan: Plan) returns (more: seq<Action>)
    requires Inv(s, plan)
    ensures CrashFree(more) && Ended(Execute(s, plan, more).parent)
    decreases Phase(s), Children(s), Moves(s, plan)
  {
    if Ended(s.parent) {
      more := [];
    } else {
      var next := Choose(s, plan);
      StepKeepsInv(s, plan, next);
      ScheduleNearer(s, plan);
      var rest := Finish(Step(s, plan, next), plan);
      more := [next] + rest;
      assert more[0] == next && more[1..] == rest;
    }
  }

  /** Main fact: whatever has happened, crashes included, the run can still be brought to an end without a further
      crash. */
  lemma EveryRunCanEnd(n: nat, now: nat, plan: Plan, actions: seq<Action>)
    ensures exists more :: CrashFree(more) && Ended(Execute(Execute(Initial(n, now), plan, actions), plan, more).parent)
  {
    InitialInv(n, now, plan);
    ExecuteKeepsInv(Initial(n, now), plan, actions);
    var more := Finish(Execute(Initial(n, now), plan, actions), plan);
  }
}
