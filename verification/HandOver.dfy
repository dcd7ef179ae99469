/** The expiry sweep's trip to an executor and back, and the count `Stop` waits on.
    The count rises on the reactor before the hand-over and falls on the executor
    after the hand-back has returned, so the two sides interleave freely. */
module HandOver {

  type ThreadId = nat

  /** What an executor thread is doing with the cycle's frame. `HandedBack` is the
      window between submitting it to the reactor and lowering the count. */
  datatype Thread = Idle | Sweeping | HandedBack

  /** Where the frame is. `HandingOver` is the window on the reactor between raising
      the count and the executor's `Submit` returning or throwing. */
  datatype Frame =
    | Parked | Queued | Dispatched | HandingOver      // held by the reactor
    | InPool | Running(thread: ThreadId)              // away
    | Finished                                        // ran to its end
    | Retracted | Abandoned                           // taken back by Stop, or left to whoever runs it

  datatype State = State(frame: Frame, threads: map<ThreadId, Thread>, count: int, offloaded: bool, stopping: bool)
  {
    ghost predicate Valid() {
      frame.Running? ==> frame.thread in threads
    }
  }

  /** Who moves, and how. */
  datatype Step =
    | Wake | Dispatch | Park | Finish | HopInPlace    // reactor
    | Raise | Submit | SubmitThrows
    | Pick(t: ThreadId) | BackThrows(t: ThreadId) | BackSubmit(t: ThreadId) | Lower(t: ThreadId)   // executor
    | BeginStop | Retract | GiveUp                    // Stop

  predicate ReactorStep(step: Step) {
    step.Wake? || step.Dispatch? || step.Park? || step.Finish? || step.HopInPlace? || step.Raise? || step.Submit?
    || step.SubmitThrows?
  }

  ghost predicate Init(s: State) {
    && s.frame == Queued && s.count == 0 && !s.stopping
    && forall t | t in s.threads :: s.threads[t] == Idle
  }

  /** `Stop` is serialised with dispatch: it begins between reactor steps, and the
      reactor dispatches nothing from then on. */
  predicate Enabled(s: State, step: Step) {
    && (ReactorStep(step) ==> !s.stopping)
    && match step
       case Wake => s.frame == Parked
       case Dispatch => s.frame == Queued
       case Park | Finish => s.frame == Dispatched
       case HopInPlace => s.frame == Dispatched && !s.offloaded
       case Raise => s.frame == Dispatched && s.offloaded
       case Submit | SubmitThrows => s.frame == HandingOver
       case Pick(t) => s.frame == InPool && t in s.threads && s.threads[t] == Idle
       case BackThrows(t) => s.frame == Running(t) && t in s.threads
       case BackSubmit(t) => s.frame == Running(t) && t in s.threads
       case Lower(t) => t in s.threads && s.threads[t] == HandedBack
       case BeginStop => !s.stopping && s.frame != Dispatched && s.frame != HandingOver
       case Retract => s.stopping && s.count == 0 && !s.frame.Abandoned?
       case GiveUp => s.stopping && s.count != 0
  }

  function Apply(s: State, step: Step): State
    requires Enabled(s, step)
  {
    match step
    case Wake => s.(frame := Queued)
    case Dispatch => s.(frame := Dispatched)
    case Park => s.(frame := Parked)
    case Finish => s.(frame := Finished)
    case HopInPlace => s.(frame := Queued)
    case Raise => s.(frame := HandingOver, count := s.count + 1)
    case Submit => s.(frame := InPool)
    case SubmitThrows => s.(frame := Dispatched, count := s.count - 1)
    case Pick(t) => s.(frame := Running(t), threads := s.threads[t := Sweeping])
    case BackThrows(t) => s
    case BackSubmit(t) => s.(frame := Queued, threads := s.threads[t := HandedBack])
    case Lower(t) => s.(threads := s.threads[t := Idle], count := s.count - 1)
    case BeginStop => s.(stopping := true)
    case Retract => if s.frame.Finished? then s else s.(frame := Retracted)
    case GiveUp => s.(frame := Abandoned)
  }

  // ---- The invariant ----

  ghost function Closing(s: State): set<ThreadId> {
    set t | t in s.threads && s.threads[t] == HandedBack
  }

  /** A trip is open: raised, and not yet handed back. */
  predicate Away(f: Frame) {
    f.HandingOver? || f.InPool? || f.Running?
  }

  /** The count is the open trip, if there is one, and every executor thread still
      handing an earlier one back: a second trip can open before the first has
      closed. */
  ghost predicate Counted(s: State) {
    && s.Valid()
    && (s.frame.Abandoned? || s.count == |Closing(s)| + if Away(s.frame) then 1 else 0)
    && (forall t | t in s.threads && s.threads[t] == Sweeping :: s.frame == Running(t) || s.frame.Abandoned?)
    && (s.frame.Running? ==> s.threads[s.frame.thread] == Sweeping)
    && (s.stopping ==> s.frame != Dispatched && s.frame != HandingOver)
    && (s.frame.Retracted? ==> s.stopping && s.count == 0)
  }

  lemma ClosingGrows(s: State, t: ThreadId, to: Thread)
    requires t in s.threads
    ensures var s' := s.(threads := s.threads[t := to]);
            && (to == HandedBack ==> Closing(s') == Closing(s) + {t})
            && (to != HandedBack ==> Closing(s') == Closing(s) - {t})
  {
  }

  lemma InitCounted(s: State)
    requires Init(s)
    ensures Counted(s)
  {
    assert Closing(s) == {};
  }

  lemma PickKeepsCount(s: State, t: ThreadId)
    requires Counted(s) && Enabled(s, Pick(t))
    ensures Counted(Apply(s, Pick(t))) && Distance(Apply(s, Pick(t))) < Distance(s)
  {
    ClosingGrows(s, t, Sweeping);
    assert Closing(Apply(s, Pick(t))) == Closing(s);
  }

  lemma BackSubmitKeepsCount(s: State, t: ThreadId)
    requires Counted(s) && Enabled(s, BackSubmit(t))
    ensures Counted(Apply(s, BackSubmit(t))) && Distance(Apply(s, BackSubmit(t))) < Distance(s)
  {
    ClosingGrows(s, t, HandedBack);
    assert t !in Closing(s) && Closing(Apply(s, BackSubmit(t))) == Closing(s) + {t};
  }

  lemma LowerKeepsCount(s: State, t: ThreadId)
    requires Counted(s) && Enabled(s, Lower(t))
    ensures Counted(Apply(s, Lower(t))) && Distance(Apply(s, Lower(t))) < Distance(s)
  {
    ClosingGrows(s, t, Idle);
    assert t in Closing(s) && Closing(Apply(s, Lower(t))) == Closing(s) - {t};
  }

  lemma OtherStepsKeepCount(s: State, step: Step)
    requires Counted(s) && Enabled(s, step) && !step.Pick? && !step.BackSubmit? && !step.Lower?
    ensures Counted(Apply(s, step))
  {
    assert Apply(s, step).threads == s.threads;
    assert Closing(Apply(s, step)) == Closing(s);
  }

  /** Every step of every side keeps it. */
  lemma StepKeepsCount(s: State, step: Step)
    requires Counted(s) && Enabled(s, step)
    ensures Counted(Apply(s, step))
  {
    hide Counted, Enabled, Apply;
    match step
    case Pick(t) => PickKeepsCount(s, t);
    case BackSubmit(t) => BackSubmitKeepsCount(s, t);
    case Lower(t) => LowerKeepsCount(s, t);
    case _ => OtherStepsKeepCount(s, step);
  }

  // ---- Runs ----

  /** Each step leads from its state to the next. */
  ghost predicate Follows(run: seq<State>, steps: seq<Step>) {
    && |run| == |steps| + 1
    && forall i | 0 <= i < |steps| :: Enabled(run[i], steps[i]) && run[i + 1] == Apply(run[i], steps[i])
  }

  ghost predicate IsRun(run: seq<State>, steps: seq<Step>) {
    Follows(run, steps) && Init(run[0])
  }

  lemma {:induction false} RunIsCounted(run: seq<State>, steps: seq<Step>, i: nat)
    requires IsRun(run, steps) && i < |run|
    ensures Counted(run[i])
  {
    if i == 0 {
      InitCounted(run[0]);
    } else {
      RunIsCounted(run, steps, i - 1);
      StepKeepsCount(run[i - 1], steps[i - 1]);
    }
  }

  /** No executor thread is running the frame or still handing it back. */
  ghost predicate NobodyHasIt(s: State) {
    !Away(s.frame) && forall t | t in s.threads :: s.threads[t] == Idle
  }

  /** A zero count means the frame is nobody's but the reactor's. */
  lemma ZeroMeansHome(s: State)
    requires Counted(s) && s.count == 0 && !s.frame.Abandoned?
    ensures NobodyHasIt(s)
  {
    forall t | t in s.threads ensures s.threads[t] == Idle {
      assert t !in Closing(s);
    }
  }

  /** In every interleaving: `Stop` never retracts a frame that is away, and once it
      has, no executor thread ever touches the frame again. */
  lemma StopIsSafe(run: seq<State>, steps: seq<Step>, i: nat)
    requires IsRun(run, steps) && i < |steps| && steps[i].Retract?
    ensures NobodyHasIt(run[i])
    ensures forall j | i < j < |run| :: NobodyHasIt(run[j]) && run[j].frame == run[i + 1].frame
  {
    RunIsCounted(run, steps, i);
    ZeroMeansHome(run[i]);
    forall j | i < j < |run| ensures NobodyHasIt(run[j]) && run[j].frame == run[i + 1].frame {
      AfterRetract(run, steps, i, j);
    }
  }

  lemma {:induction false} AfterRetract(run: seq<State>, steps: seq<Step>, i: nat, j: nat)
    requires IsRun(run, steps) && i < |steps| && steps[i].Retract? && NobodyHasIt(run[i]) && i < j < |run|
    ensures NobodyHasIt(run[j]) && run[j].frame == run[i + 1].frame && run[j].stopping && run[j].count == 0
  {
    if j > i + 1 {
      AfterRetract(run, steps, i, j - 1);
      assert Enabled(run[j - 1], steps[j - 1]);
      assert run[j] == Apply(run[j - 1], steps[j - 1]);
    }
  }

  // ---- Stop's wait ends ----

  /** How far the open trips are from closing. */
  ghost function Distance(s: State): nat {
    |Closing(s)| + (if s.frame.InPool? then 3 else if s.frame.Running? then 2 else 0)
  }

  /** A move that brings an open trip nearer to its close. */
  predicate Closes(step: Step) {
    step.Pick? || step.BackSubmit? || step.Lower?
  }

  /** `Stop` is waiting for the count to fall, over at least one executor thread. */
  ghost predicate Waiting(s: State) {
    Counted(s) && s.stopping && !s.frame.Abandoned? && s.threads.Keys != {}
  }

  lemma StopMakesProgress(s: State, step: Step)
    requires Counted(s) && s.stopping && !s.frame.Abandoned? && Enabled(s, step) && Closes(step)
    ensures Distance(Apply(s, step)) < Distance(s)
  {
    hide Counted, Enabled, Apply, Distance;
    match step
    case Pick(t) => PickKeepsCount(s, t);
    case BackSubmit(t) => BackSubmitKeepsCount(s, t);
    case Lower(t) => LowerKeepsCount(s, t);
  }

  /** While the count is above zero some executor thread can move: one that is not
      free to pick a queued frame is handing an earlier one back. */
  lemma StopIsNotStuck(s: State) returns (step: Step)
    requires Waiting(s) && s.count > 0
    ensures Closes(step) && Enabled(s, step)
  {
    if s.frame.InPool? {
      var t :| t in s.threads.Keys;
      step := if s.threads[t] == Idle then Pick(t) else Lower(t);
    } else if s.frame.Running? {
      step := BackSubmit(s.frame.thread);
    } else {
      assert Closing(s) != {};
      var t :| t in Closing(s);
      step := Lower(t);
    }
  }

  /** The count is zero exactly when the executor has no such move left. */
  lemma ZeroMeansNoMove(s: State)
    requires Waiting(s)
    ensures s.count == 0 <==> forall step | Closes(step) :: !Enabled(s, step)
  {
    if s.count > 0 {
      var step := StopIsNotStuck(s);
      assert Closes(step) && Enabled(s, step);
    } else {
      ZeroMeansHome(s);
    }
  }

  ghost function Moves(steps: seq<Step>): nat {
    if steps == [] then 0 else Moves(steps[..|steps| - 1]) + if Closes(steps[|steps| - 1]) then 1 else 0
  }

  lemma WaitStep(s: State, step: Step)
    requires Waiting(s) && Enabled(s, step) && !step.GiveUp?
    ensures Waiting(Apply(s, step))
    ensures Distance(Apply(s, step)) + (if Closes(step) then 1 else 0) <= Distance(s)
  {
    StepKeepsCount(s, step);
    if Closes(step) {
      StopMakesProgress(s, step);
    } else {
      assert Closing(Apply(s, step)) == Closing(s);
    }
  }

  /** However `Stop`'s wait is interleaved, failed hand-backs included, the executor
      makes at most `Distance` moves, and the count is zero once it has made all it
      can. */
  lemma {:induction false} StopWaitIsBounded(run: seq<State>, steps: seq<Step>)
    requires Follows(run, steps) && Waiting(run[0]) && forall step | step in steps :: !step.GiveUp?
    ensures Waiting(run[|steps|]) && Moves(steps) + Distance(run[|steps|]) <= Distance(run[0])
    ensures run[|steps|].count == 0 <==> forall step | Closes(step) :: !Enabled(run[|steps|], step)
  {
    hide Waiting, Enabled, Apply, Distance, Closes;
    var n := |steps|;
    if n > 0 {
      assert forall step | step in steps[..n - 1] :: step in steps;
      StopWaitIsBounded(run[..n], steps[..n - 1]);
      assert steps[n - 1] in steps;
      WaitStep(run[n - 1], steps[n - 1]);
    }
    ZeroMeansNoMove(run[n]);
  }
}
