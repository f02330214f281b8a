/** The ready/GO barrier of the scheduler benchmark: one parent, n workers, every interleaving. */
module Barrier {
  import opened Basics

  /** What a worker process is about to do. `next` is the frame it solves next. */
  datatype WorkerPc =
    | Unborn
    | Setup
    | AtBarrier(deadline: nat)
    | Measuring(next: int)
    | Report
    | Reported
    | Exited(code: int)

  datatype Result = Result(completed: nat, steadyEnd: nat)

  /** One worker with its files: the ready and result files, and the frames it has saved, by time. */
  datatype Worker = Worker(pc: WorkerPc, ready: Option<nat>, started: Option<nat>, saved: map<int, nat>,
                           result: Option<Result>)

  datatype ParentPc =
    | Spawning(child: nat)
    | Polling(child: nat)
    | CheckDeadline
    | CheckExits(child: nat)
    | Stamp
    | WriteGo
    | Waiting(child: nat)
    | Judge
    | Returned(steadyEnd: nat)
    | Raised

  /** The fixed interval, and the end of the frame range the refinement is asked for. */
  datatype Plan = Plan(start: int, stop: int, end: int)

  datatype State = State(now: nat, parent: ParentPc, deadline: nat, steadyStart: nat, go: Option<nat>,
                         workers: seq<Worker>)

  const TIMEOUT: nat := 900

  /** Everything the environment decides: who moves, how time passes, crashes, and solver outcomes. */
  datatype Action = Tick(elapsed: nat) | Parent | Work(worker: nat) | Leave(worker: nat, first: int)
                  | Solve(worker: nat, accepted: bool) | Crash(worker: nat, code: int)

  /** Frames of [lo, hi) among the saved ones. */
  function SavedIn(saved: map<int, nat>, lo: int, hi: int): nat
    decreases hi - lo
  {
    if hi <= lo then 0 else SavedIn(saved, lo, hi - 1) + if hi - 1 in saved then 1 else 0
  }

  function ParentStep(s: State, plan: Plan): State {
    var n := |s.workers|;
    match s.parent
    case Spawning(i) =>
      if i < n then s.(workers := s.workers[i := s.workers[i].(pc := Setup)], parent := Spawning(i + 1))
      else s.(deadline := s.now + TIMEOUT, parent := Polling(0))
    case Polling(i) =>
      if i >= n then s.(parent := Stamp)
      else if s.workers[i].ready.Some? then s.(parent := Polling(i + 1))
      else s.(parent := CheckDeadline)
    case CheckDeadline => s.(parent := if s.now >= s.deadline then Raised else CheckExits(0))
    case CheckExits(i) =>
      if i >= n then s.(parent := Polling(0))
      else if s.workers[i].pc.Exited? then s.(parent := Raised)
      else s.(parent := CheckExits(i + 1))
    case Stamp => s.(steadyStart := s.now, parent := WriteGo)
    case WriteGo => s.(go := Some(s.now), parent := Waiting(0))
    case Waiting(i) =>
      if i >= n then s.(parent := Judge)
      else if s.workers[i].pc.Exited? then s.(parent := Waiting(i + 1))
      else s
    case Judge => s.(parent := Judged(s.workers, plan))
    case Returned(_) => s
    case Raised => s
  }

  /** The worker's result counts the whole fixed interval. */
  predicate Complete(w: Worker, plan: Plan) {
    w.result.Some? && w.result.value.completed == plan.stop - plan.start + 1
  }

  /** Non-zero exits raise, missing frames raise, no workers raise; otherwise the last worker's end is reported. */
  function Judged(workers: seq<Worker>, plan: Plan): ParentPc {
    if workers == [] then Raised
    else if exists i :: 0 <= i < |workers| && workers[i].pc != Exited(0) then Raised
    else if exists i :: 0 <= i < |workers| && !Complete(workers[i], plan) then Raised
    else Returned(LatestEnd(workers))
  }

  function LatestEnd(workers: seq<Worker>): (t: nat)
    ensures forall i :: 0 <= i < |workers| && workers[i].result.Some? ==> workers[i].result.value.steadyEnd <= t
  {
    if workers == [] then 0
    else
      var last := workers[|workers| - 1];
      var before := LatestEnd(workers[..|workers| - 1]);
      if last.result.Some? && before < last.result.value.steadyEnd then last.result.value.steadyEnd else before
  }

  /** A worker's own step: write the ready file, give up at the barrier, write the result, exit. */
  function WorkStep(w: Worker, now: nat, go: Option<nat>, plan: Plan): Worker {
    match w.pc
    case Setup => w.(ready := Some(now), pc := AtBarrier(now + TIMEOUT))
    case AtBarrier(deadline) => if go.None? && now >= deadline then w.(pc := Exited(1)) else w
    case Report =>
      w.(result := Some(Result(SavedIn(w.saved, plan.start, plan.stop + 1), now)), pc := Reported)
    case Reported => w.(pc := Exited(0))
    case _ => w
  }

  /** Seeing GO, the worker leaves the barrier for the first frame its checkpoint chain lacks. */
  function LeaveStep(w: Worker, now: nat, go: Option<nat>, first: int): Worker {
    if w.pc.AtBarrier? && go.Some? then w.(started := Some(now), pc := Measuring(first)) else w
  }

  /** One frame: accepted frames are saved; after the stop frame, or past the range, the worker reports. */
  function SolveStep(w: Worker, now: nat, accepted: bool, plan: Plan): Worker {
    if !w.pc.Measuring? then w
    else if w.pc.next >= plan.end then w.(pc := Report)
    else
      var f := w.pc.next;
      var saved := if accepted then w.saved[f := now] else w.saved;
      w.(saved := saved, pc := if f >= plan.stop then Report else Measuring(f + 1))
  }

  /** A process can die at any point of its life, with any non-zero code. */
  function CrashStep(w: Worker, code: int): Worker {
    if w.pc.Unborn? || w.pc.Exited? || code == 0 then w else w.(pc := Exited(code))
  }

  function Step(s: State, plan: Plan, a: Action): State {
    match a
    case Tick(elapsed) => s.(now := s.now + elapsed)
    case Parent => ParentStep(s, plan)
    case Work(i) =>
      if i < |s.workers| then s.(workers := s.workers[i := WorkStep(s.workers[i], s.now, s.go, plan)]) else s
    case Leave(i, first) =>
      if i < |s.workers| then s.(workers := s.workers[i := LeaveStep(s.workers[i], s.now, s.go, first)]) else s
    case Solve(i, accepted) =>
      if i < |s.workers| then s.(workers := s.workers[i := SolveStep(s.workers[i], s.now, accepted, plan)]) else s
    case Crash(i, code) => if i < |s.workers| then s.(workers := s.workers[i := CrashStep(s.workers[i], code)]) else s
  }

  const FRESH := Worker(Unborn, None, None, map[], None)

  /** An empty mode root and n sources. */
  function Initial(n: nat, now: nat): State {
    State(now, Spawning(0), 0, 0, None, seq(n, i => FRESH))
  }

  function Execute(s: State, plan: Plan, actions: seq<Action>): State
    decreases |actions|
  {
    if actions == [] then s else Execute(Step(s, plan, actions[0]), plan, actions[1..])
  }

  // The invariant.

  /** One worker: it measures only after GO, everything it saved lies between leaving and reporting, and it
      exits normally only with a result that counts its saved frames. */
  ghost predicate WorkerOk(w: Worker, now: nat, go: Option<nat>, plan: Plan) {
    && (w.ready.Some? ==> w.ready.value <= now)
    && (w.started.Some? ==> go.Some? && go.value <= w.started.value <= now && w.ready.Some?)
    && (w.pc.Unborn? || w.pc.Setup? ==> w.ready.None?)
    && (w.pc.AtBarrier? ==> w.ready.Some?)
    && (w.pc.Unborn? || w.pc.Setup? || w.pc.AtBarrier? ==> w.started.None? && w.saved == map[])
    && (w.pc.Measuring? || w.pc.Report? || w.pc.Reported? || w.saved != map[] || w.result.Some? ==> w.started.Some?)
    && (forall f :: f in w.saved ==> w.started.Some? && w.started.value <= w.saved[f] <= now)
    && (w.result.Some? ==> (w.pc.Reported? || w.pc.Exited?) && w.result.value.steadyEnd <= now
                           && w.result.value.completed == SavedIn(w.saved, plan.start, plan.stop + 1)
                           && forall f :: f in w.saved ==> w.saved[f] <= w.result.value.steadyEnd)
    && (w.pc.Reported? || w.pc == Exited(0) ==> w.result.Some?)
  }

  ghost predicate AllReadyBy(s: State, t: nat) {
    forall i :: 0 <= i < |s.workers| ==> s.workers[i].ready.Some? && s.workers[i].ready.value <= t
  }

  ghost predicate Inv(s: State, plan: Plan) {
    && (forall i :: 0 <= i < |s.workers| ==> WorkerOk(s.workers[i], s.now, s.go, plan))
    && s.steadyStart <= s.now
    && (s.go.Some? ==> s.steadyStart <= s.go.value <= s.now && AllReadyBy(s, s.steadyStart))
    && (s.go.Some? ==> s.parent.Waiting? || s.parent.Judge? || s.parent.Returned? || s.parent.Raised?)
    && (s.parent.Spawning? ==>
          && s.parent.child <= |s.workers|
          && forall i :: s.parent.child <= i < |s.workers| ==> s.workers[i] == FRESH)
    && (s.parent.Polling? ==> forall i :: 0 <= i < s.parent.child && i < |s.workers| ==> s.workers[i].ready.Some?)
    && (s.parent.Stamp? ==> AllReadyBy(s, s.now))
    && (s.parent.WriteGo? ==> AllReadyBy(s, s.steadyStart))
    && (s.parent.Waiting? || s.parent.Judge? || s.parent.Returned? ==> s.go.Some?)
    && (s.parent.Waiting? ==> forall i :: 0 <= i < s.parent.child && i < |s.workers| ==> s.workers[i].pc.Exited?)
    && (s.parent.Judge? ==> forall i :: 0 <= i < |s.workers| ==> s.workers[i].pc.Exited?)
    && (s.parent.Returned? ==> forall i :: 0 <= i < |s.workers| ==>
          s.workers[i].pc == Exited(0) && s.workers[i].result.Some?
          && s.workers[i].result.value.completed == plan.stop - plan.start + 1
          && s.workers[i].result.value.steadyEnd <= s.parent.steadyEnd)
  }

  /** How a worker may change between two states: its ready file and its death are final. */
  ghost predicate Grows(w: Worker, w': Worker) {
    && (w.ready.Some? ==> w'.ready == w.ready)
    && (w.pc.Exited? ==> w' == w)
    && (w == FRESH ==> w' == w)
  }

  lemma WorkStepOk(w: Worker, now: nat, go: Option<nat>, plan: Plan)
    requires WorkerOk(w, now, go, plan)
    ensures WorkerOk(WorkStep(w, now, go, plan), now, go, plan) && Grows(w, WorkStep(w, now, go, plan))
  {
  }

  lemma LeaveStepOk(w: Worker, now: nat, go: Option<nat>, plan: Plan, first: int)
    requires WorkerOk(w, now, go, plan) && (go.Some? ==> go.value <= now)
    ensures WorkerOk(LeaveStep(w, now, go, first), now, go, plan) && Grows(w, LeaveStep(w, now, go, first))
  {
  }

  lemma SolveStepOk(w: Worker, now: nat, go: Option<nat>, plan: Plan, accepted: bool)
    requires WorkerOk(w, now, go, plan)
    ensures WorkerOk(SolveStep(w, now, accepted, plan), now, go, plan) && Grows(w, SolveStep(w, now, accepted, plan))
  {
  }

  lemma CrashStepOk(w: Worker, now: nat, go: Option<nat>, plan: Plan, code: int)
    requires WorkerOk(w, now, go, plan)
    ensures WorkerOk(CrashStep(w, code), now, go, plan) && Grows(w, CrashStep(w, code))
  {
  }

  /** Replacing one worker by a grown one keeps the invariant. */
  lemma WorkerChangeKeepsInv(s: State, plan: Plan, i: nat, w: Worker)
    requires Inv(s, plan) && i < |s.workers|
    requires WorkerOk(w, s.now, s.go, plan) && Grows(s.workers[i], w)
    ensures Inv(s.(workers := s.workers[i := w]), plan)
  {
  }

  lemma TickKeepsInv(s: State, plan: Plan, elapsed: nat)
    requires Inv(s, plan)
    ensures Inv(s.(now := s.now + elapsed), plan)
  {
  }

  lemma JudgingKeepsInv(s: State, plan: Plan)
    requires Inv(s, plan) && s.parent.Judge?
    ensures Inv(ParentStep(s, plan), plan)
  {
  }

  lemma SpawningKeepsInv(s: State, plan: Plan)
    requires Inv(s, plan) && s.parent.Spawning?
    ensures Inv(ParentStep(s, plan), plan)
  {
  }

  lemma ParentKeepsInv(s: State, plan: Plan)
    requires Inv(s, plan)
    ensures Inv(ParentStep(s, plan), plan)
  {
    if s.parent.Judge? {
      JudgingKeepsInv(s, plan);
    } else if s.parent.Spawning? {
      SpawningKeepsInv(s, plan);
    }
  }

  lemma {:induction false} StepKeepsInv(s: State, plan: Plan, a: Action)
    requires Inv(s, plan)
    ensures Inv(Step(s, plan, a), plan)
  {
    match a
    case Tick(elapsed) => TickKeepsInv(s, plan, elapsed);
    case Parent => ParentKeepsInv(s, plan);
    case Work(i) =>
      if i < |s.workers| {
        WorkStepOk(s.workers[i], s.now, s.go, plan);
        WorkerChangeKeepsInv(s, plan, i, WorkStep(s.workers[i], s.now, s.go, plan));
      }
    case Leave(i, first) =>
      if i < |s.workers| {
        LeaveStepOk(s.workers[i], s.now, s.go, plan, first);
        WorkerChangeKeepsInv(s, plan, i, LeaveStep(s.workers[i], s.now, s.go, first));
      }
    case Solve(i, accepted) =>
      if i < |s.workers| {
        SolveStepOk(s.workers[i], s.now, s.go, plan, accepted);
        WorkerChangeKeepsInv(s, plan, i, SolveStep(s.workers[i], s.now, accepted, plan));
      }
    case Crash(i, code) =>
      if i < |s.workers| {
        CrashStepOk(s.workers[i], s.now, s.go, plan, code);
        WorkerChangeKeepsInv(s, plan, i, CrashStep(s.workers[i], code));
      }
  }

  lemma {:induction false} ExecuteKeepsInv(s: State, plan: Plan, actions: seq<Action>)
    requires Inv(s, plan)
    ensures Inv(Execute(s, plan, actions), plan)
    decreases |actions|
  {
    if actions == [] {
    } else {
      StepKeepsInv(s, plan, actions[0]);
      ExecuteKeepsInv(Step(s, plan, actions[0]), plan, actions[1..]);
    }
  }

  lemma InitialInv(n: nat, now: nat, plan: Plan)
    ensures Inv(Initial(n, now), plan)
  {
  }

  // What every interleaving guarantees.

  /** Main fact, barrier safety: GO exists only once every ready file does, and no worker has left the
      barrier before the last worker was ready. */
  lemma NobodyStartsEarly(n: nat, now: nat, plan: Plan, actions: seq<Action>, i: nat, j: nat)
    requires i < n && j < n
    ensures var s := Execute(Initial(n, now), plan, actions);
      && |s.workers| == n
      && (s.go.Some? ==> s.workers[j].ready.Some? && s.workers[j].ready.value <= s.go.value)
      && (s.workers[i].started.Some? || s.workers[i].pc.Measuring? || s.workers[i].saved != map[] ==>
           && s.workers[i].started.Some? && s.workers[j].ready.Some?
           && s.workers[j].ready.value <= s.workers[i].started.value)
  {
    InitialInv(n, now, plan);
    ExecuteKeepsInv(Initial(n, now), plan, actions);
    WorkerCount(Initial(n, now), plan, actions);
    var s := Execute(Initial(n, now), plan, actions);
    assert WorkerOk(s.workers[i], s.now, s.go, plan);
  }

  lemma {:induction false} WorkerCount(s: State, plan: Plan, actions: seq<Action>)
    ensures |Execute(s, plan, actions).workers| == |s.workers|
    decreases |actions|
  {
    if actions == [] {
    } else {
      WorkerCount(Step(s, plan, actions[0]), plan, actions[1..]);
    }
  }

  lemma {:induction false} FullCountMeansAll(saved: map<int, nat>, lo: int, hi: int)
    ensures SavedIn(saved, lo, hi) <= if lo < hi then hi - lo else 0
    ensures SavedIn(saved, lo, hi) == hi - lo ==> forall f :: lo <= f < hi ==> f in saved
    decreases hi - lo
  {
    if hi <= lo {
    } else {
      FullCountMeansAll(saved, lo, hi - 1);
    }
  }

  lemma {:induction false} SavedInIsCount(saved: map<int, nat>, lo: int, hi: int)
    ensures SavedIn(saved, lo, hi) == |set f | lo <= f < hi && f in saved|
    decreases hi - lo
  {
    var here := set f | lo <= f < hi && f in saved;
    if hi <= lo {
      assert here == {};
    } else {
      SavedInIsCount(saved, lo, hi - 1);
      var before := set f | lo <= f < hi - 1 && f in saved;
      assert here == if hi - 1 in saved then before + {hi - 1} else before;
    }
  }

  // The steady end that is reported.

  ghost predicate EndsAt(workers: seq<Worker>, t: nat) {
    exists i :: 0 <= i < |workers| && workers[i].result.Some? && workers[i].result.value.steadyEnd == t
  }

  lemma {:induction false} LatestEndAttained(workers: seq<Worker>)
    requires workers != [] && forall i :: 0 <= i < |workers| ==> workers[i].result.Some?
    ensures EndsAt(workers, LatestEnd(workers))
  {
    var before, last := workers[..|workers| - 1], workers[|workers| - 1];
    if before == [] {
      assert LatestEnd(before) == 0;
      assert workers[0] == last;
    } else {
      LatestEndAttained(before);
      var i :| 0 <= i < |before| && before[i].result.Some? && before[i].result.value.steadyEnd == LatestEnd(before);
      assert workers[i] == before[i] && workers[|before|] == last;
    }
  }

  ghost predicate ReportedEnd(s: State) {
    s.parent.Returned? ==> EndsAt(s.workers, s.parent.steadyEnd)
  }

  lemma StepKeepsReportedEnd(s: State, plan: Plan, a: Action)
    requires Inv(s, plan) && ReportedEnd(s)
    ensures ReportedEnd(Step(s, plan, a))
  {
    if s.parent.Judge? && a.Parent? {
      if Judged(s.workers, plan).Returned? {
        LatestEndAttained(s.workers);
      }
    } else if s.parent.Returned? {
      assert Step(s, plan, a).workers == s.workers;
    }
  }

  lemma {:induction false} ExecuteKeepsReportedEnd(s: State, plan: Plan, actions: seq<Action>)
    requires Inv(s, plan) && ReportedEnd(s)
    ensures ReportedEnd(Execute(s, plan, actions))
    decreases |actions|
  {
    if actions == [] {
    } else {
      StepKeepsInv(s, plan, actions[0]);
      StepKeepsReportedEnd(s, plan, actions[0]);
      ExecuteKeepsReportedEnd(Step(s, plan, actions[0]), plan, actions[1..]);
    }
  }

  /** Main fact, normal return: every worker exited 0 with every frame of the fixed interval solved and
      saved within [steady start, steady end], and some worker reports that steady end. */
  lemma NormalReturnMeansMeasured(n: nat, now: nat, plan: Plan, actions: seq<Action>, i: nat)
    requires i < n && Execute(Initial(n, now), plan, actions).parent.Returned?
    ensures var s := Execute(Initial(n, now), plan, actions);
      && |s.workers| == n && s.workers[i].pc == Exited(0)
      && SavedIn(s.workers[i].saved, plan.start, plan.stop + 1) == plan.stop - plan.start + 1
      && forall f :: plan.start <= f <= plan.stop ==>
           f in s.workers[i].saved && s.steadyStart <= s.workers[i].saved[f] <= s.parent.steadyEnd
    ensures var s := Execute(Initial(n, now), plan, actions);
      exists j :: 0 <= j < |s.workers| && s.workers[j].result.Some?
        && s.workers[j].result.value.steadyEnd == s.parent.steadyEnd
  {
    InitialInv(n, now, plan);
    ExecuteKeepsInv(Initial(n, now), plan, actions);
    ExecuteKeepsReportedEnd(Initial(n, now), plan, actions);
    WorkerCount(Initial(n, now), plan, actions);
    var s := Execute(Initial(n, now), plan, actions);
    var w := s.workers[i];
    assert WorkerOk(w, s.now, s.go, plan);
    FullCountMeansAll(w.saved, plan.start, plan.stop + 1);
  }

  /** Main fact, the steady window: the end it is returned with is the latest end among the workers' results. */
  lemma SteadyEndIsLatest(n: nat, now: nat, plan: Plan, actions: seq<Action>)
    requires Execute(Initial(n, now), plan, actions).parent.Returned?
    ensures var s := Execute(Initial(n, now), plan, actions);
      && (forall i :: 0 <= i < |s.workers| ==>
            s.workers[i].result.Some? && s.workers[i].result.value.steadyEnd <= s.parent.steadyEnd)
      && exists i :: 0 <= i < |s.workers| && s.workers[i].result.value.steadyEnd == s.parent.steadyEnd
  {
    InitialInv(n, now, plan);
    ExecuteKeepsInv(Initial(n, now), plan, actions);
    ExecuteKeepsReportedEnd(Initial(n, now), plan, actions);
    var s := Execute(Initial(n, now), plan, actions);
    var i :| 0 <= i < |s.workers| && s.workers[i].result.Some?
             && s.workers[i].result.value.steadyEnd == s.parent.steadyEnd;
    assert s.workers[i].result.value.steadyEnd == s.parent.steadyEnd;
  }

  // What a worker may save.

  /** Frames below the range's end, and none beyond the stop frame unless it is the only one. */
  ghost predicate WithinPlan(w: Worker, plan: Plan) {
    && (w.pc.Measuring? && w.saved != map[] ==> w.pc.next <= plan.stop && forall f :: f in w.saved ==> f < w.pc.next)
    && (w.pc.Unborn? || w.pc.Setup? || w.pc.AtBarrier? ==> w.saved == map[])
    && (forall f :: f in w.saved ==> f < plan.end && (f <= plan.stop || w.saved.Keys == {f}))
  }

  ghost predicate AllWithinPlan(s: State, plan: Plan) {
    forall i :: 0 <= i < |s.workers| ==> WithinPlan(s.workers[i], plan)
  }

  lemma SolveWithinPlan(w: Worker, now: nat, accepted: bool, plan: Plan)
    requires WithinPlan(w, plan)
    ensures WithinPlan(SolveStep(w, now, accepted, plan), plan)
  {
    var w' := SolveStep(w, now, accepted, plan);
    if w.pc.Measuring? && w.pc.next < plan.end && accepted && w.saved == map[] {
      assert w'.saved.Keys == {w.pc.next};
    }
  }

  lemma WorkWithinPlan(w: Worker, now: nat, go: Option<nat>, plan: Plan, first: int, code: int)
    requires WithinPlan(w, plan)
    ensures WithinPlan(WorkStep(w, now, go, plan), plan) && WithinPlan(LeaveStep(w, now, go, first), plan)
    ensures WithinPlan(CrashStep(w, code), plan)
  {
  }

  lemma {:induction false} StepWithinPlan(s: State, plan: Plan, a: Action)
    requires Inv(s, plan) && AllWithinPlan(s, plan)
    ensures AllWithinPlan(Step(s, plan, a), plan)
  {
    forall i | 0 <= i < |s.workers| ensures WithinPlan(Step(s, plan, a).workers[i], plan) {
      assert WithinPlan(s.workers[i], plan);
      match a
      case Work(j) => WorkWithinPlan(s.workers[i], s.now, s.go, plan, 0, 0);
      case Leave(j, first) => WorkWithinPlan(s.workers[i], s.now, s.go, plan, first, 0);
      case Solve(j, accepted) => SolveWithinPlan(s.workers[i], s.now, accepted, plan);
      case Crash(j, code) => WorkWithinPlan(s.workers[i], s.now, s.go, plan, 0, code);
      case _ =>
    }
    SameWorkerCount(s, plan, a);
  }

  lemma SameWorkerCount(s: State, plan: Plan, a: Action)
    ensures |Step(s, plan, a).workers| == |s.workers|
  {
  }

  /** Main fact, the interval: in every interleaving a worker saves only frames below the range's end, and none beyond
      the stop frame, except that one resumed beyond it saves that single frame. */
  lemma {:induction false} SavedWithinPlan(s: State, plan: Plan, actions: seq<Action>)
    requires Inv(s, plan) && AllWithinPlan(s, plan)
    ensures AllWithinPlan(Execute(s, plan, actions), plan)
    decreases |actions|
  {
    if actions == [] {
    } else {
      StepKeepsInv(s, plan, actions[0]);
      StepWithinPlan(s, plan, actions[0]);
      SavedWithinPlan(Step(s, plan, actions[0]), plan, actions[1..]);
    }
  }

  /** So after any run from the beginning. */
  lemma NothingBeyondStop(n: nat, now: nat, plan: Plan, actions: seq<Action>, i: nat, f: int)
    requires i < |Execute(Initial(n, now), plan, actions).workers|
    requires f in Execute(Initial(n, now), plan, actions).workers[i].saved
    ensures var saved := Execute(Initial(n, now), plan, actions).workers[i].saved;
      f < plan.end && (f <= plan.stop || saved.Keys == {f})
  {
    InitialInv(n, now, plan);
    SavedWithinPlan(Initial(n, now), plan, actions);
    assert WithinPlan(Execute(Initial(n, now), plan, actions).workers[i], plan);
  }

  // Why the parent raises.

  predicate CrashFree(actions: seq<Action>) {
    forall a :: a in actions ==> !a.Crash?
  }

  /** A worker nobody crashed gives up only once the 900 seconds after its start have passed. */
  ghost predicate Patient(w: Worker, now: nat, begin: nat) {
    && (w.pc.AtBarrier? ==> w.pc.deadline >= begin + 900)
    && (w.pc.Exited? && w.pc.code != 0 ==> now >= begin + 900)
  }

  ghost predicate ShortCount(s: State, plan: Plan) {
    exists i :: 0 <= i < |s.workers| && s.workers[i].pc == Exited(0) && !Complete(s.workers[i], plan)
  }

  ghost predicate Justified(s: State, plan: Plan, begin: nat) {
    && begin <= s.now
    && (forall i :: 0 <= i < |s.workers| ==> Patient(s.workers[i], s.now, begin))
    && (!s.parent.Spawning? ==> s.deadline >= begin + 900)
    && (s.parent.Raised? ==> s.workers == [] || s.now >= begin + 900 || ShortCount(s, plan))
  }

  lemma WorkStepPatient(w: Worker, now: nat, go: Option<nat>, plan: Plan, begin: nat)
    requires Patient(w, now, begin) && begin <= now
    ensures Patient(WorkStep(w, now, go, plan), now, begin)
  {
  }

  lemma ParentKeepsJustified(s: State, plan: Plan, begin: nat)
    requires Inv(s, plan) && Justified(s, plan, begin)
    ensures Justified(ParentStep(s, plan), plan, begin)
  {
    if s.parent.CheckExits? && s.parent.child < |s.workers| {
      assert WorkerOk(s.workers[s.parent.child], s.now, s.go, plan);
      assert Patient(s.workers[s.parent.child], s.now, begin);
    } else if s.parent.Judge? && s.workers != [] && Judged(s.workers, plan).Raised? {
      if i :| 0 <= i < |s.workers| && s.workers[i].pc != Exited(0) {
        assert Patient(s.workers[i], s.now, begin);
      } else {
        var i :| 0 <= i < |s.workers| && !Complete(s.workers[i], plan);
        assert s.workers[i].pc == Exited(0);
      }
    }
  }

  /** Replacing one worker by a grown and patient one loses no justification. */
  lemma WorkerChangeKeepsJustified(s: State, plan: Plan, begin: nat, i: nat, w: Worker)
    requires Justified(s, plan, begin) && i < |s.workers|
    requires Patient(w, s.now, begin) && Grows(s.workers[i], w)
    ensures Justified(s.(workers := s.workers[i := w]), plan, begin)
  {
    if ShortCount(s, plan) {
      var j :| 0 <= j < |s.workers| && s.workers[j].pc == Exited(0) && !Complete(s.workers[j], plan);
      assert s.workers[i := w][j] == s.workers[j];
    }
  }

  lemma {:induction false} StepKeepsJustified(s: State, plan: Plan, begin: nat, a: Action)
    requires Inv(s, plan) && Justified(s, plan, begin) && !a.Crash?
    ensures Justified(Step(s, plan, a), plan, begin)
  {
    match a
    case Tick(_) =>
    case Parent => ParentKeepsJustified(s, plan, begin);
    case Work(i) =>
      if i < |s.workers| {
        WorkStepPatient(s.workers[i], s.now, s.go, plan, begin);
        WorkStepOk(s.workers[i], s.now, s.go, plan);
        WorkerChangeKeepsJustified(s, plan, begin, i, WorkStep(s.workers[i], s.now, s.go, plan));
      }
    case Leave(i, first) =>
      if i < |s.workers| {
        LeaveStepOk(s.workers[i], s.now, s.go, plan, first);
        WorkerChangeKeepsJustified(s, plan, begin, i, LeaveStep(s.workers[i], s.now, s.go, first));
      }
    case Solve(i, accepted) =>
      if i < |s.workers| {
        SolveStepOk(s.workers[i], s.now, s.go, plan, accepted);
        WorkerChangeKeepsJustified(s, plan, begin, i, SolveStep(s.workers[i], s.now, accepted, plan));
      }
  }

  lemma {:induction false} ExecuteKeepsJustified(s: State, plan: Plan, begin: nat, actions: seq<Action>)
    requires Inv(s, plan) && Justified(s, plan, begin) && CrashFree(actions)
    ensures Justified(Execute(s, plan, actions), plan, begin)
    decreases |actions|
  {
    if actions == [] {
    } else {
      assert actions[0] in actions && CrashFree(actions[1..]);
      StepKeepsInv(s, plan, actions[0]);
      StepKeepsJustified(s, plan, begin, actions[0]);
      ExecuteKeepsJustified(Step(s, plan, actions[0]), plan, begin, actions[1..]);
    }
  }

  /** Main fact, raising: unless a process was killed, the parent raises only for want of workers, after 900 seconds,
      or because a worker that finished did not save the whole interval. */
  lemma RaiseNeedsFault(n: nat, now: nat, plan: Plan, actions: seq<Action>)
    requires CrashFree(actions) && Execute(Initial(n, now), plan, actions).parent.Raised?
    ensures var s := Execute(Initial(n, now), plan, actions);
      || n == 0
      || s.now >= now + 900
      || exists i :: 0 <= i < |s.workers| && s.workers[i].pc == Exited(0) && s.workers[i].result.Some?
           && SavedIn(s.workers[i].saved, plan.start, plan.stop + 1) != plan.stop - plan.start + 1
  {
    InitialInv(n, now, plan);
    ExecuteKeepsInv(Initial(n, now), plan, actions);
    ExecuteKeepsJustified(Initial(n, now), plan, now, actions);
    WorkerCount(Initial(n, now), plan, actions);
    var s := Execute(Initial(n, now), plan, actions);
    if ShortCount(s, plan) {
      var i :| 0 <= i < |s.workers| && s.workers[i].pc == Exited(0) && !Complete(s.workers[i], plan);
      assert WorkerOk(s.workers[i], s.now, s.go, plan);
    }
  }
}
