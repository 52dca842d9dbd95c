/**
 A thread that calls a function at intervals, and other threads that stop it. They share a flag and an event; their
 steps, each of which reads or writes one of the two, interleave arbitrarily.
 */
module RepeatTimer {

  /** Where the timer thread stands: the next step it takes. */
  datatype RunStep =
    | ResetDone | Wait | CheckDone | CheckEvent | StartCallback | InCallback | ClearEvent | Raising | Leaving | Exited

  /**
   The shared state; `stopping` calls of stop have set the flag and are still to set the event. Three more components
   keep the history: whether some stop set the flag before the timer thread reset it, whether one did so after that, and
   how many callbacks have started since then.
   */
  datatype State = State(
    run: RunStep, done: bool, event: bool, stopping: nat, tooEarly: bool, inTime: bool, callsAfter: nat)

  const START := State(ResetDone, false, false, 0, false, false, 0)

  /** One step of the timer thread. A wait may end by timeout; a callback may raise an exception. */
  predicate RunMoves(s: State, t: State) {
    match s.run
    case ResetDone => t == s.(run := Wait, done := false)
    case Wait => t == s.(run := CheckDone)
    case CheckDone => t == s.(run := if s.done then Leaving else CheckEvent)
    case CheckEvent => t == s.(run := if s.event then ClearEvent else StartCallback)
    case StartCallback => t == s.(run := InCallback, callsAfter := s.callsAfter + if s.inTime then 1 else 0)
    case InCallback => t == s.(run := ClearEvent) || t == s.(run := Raising)
    case ClearEvent => t == s.(run := Wait, event := false)
    case Raising => t == s.(run := Exited, event := false)
    case Leaving => t == s.(run := Exited, event := false)
    case Exited => false
  }

  /** One step of a call of stop, of which there may be many: first it sets the flag, and later the event. */
  predicate StopMoves(s: State, t: State) {
    || t == s.(done := true, stopping := s.stopping + 1,
               tooEarly := s.tooEarly || s.run == ResetDone, inTime := s.inTime || s.run != ResetDone)
    || (s.stopping > 0 && t == s.(event := true, stopping := s.stopping - 1))
  }

  predicate Moves(s: State, t: State) {
    RunMoves(s, t) || StopMoves(s, t)
  }

  /** A run of all threads from the start. */
  predicate IsTrace(states: seq<State>) {
    && states != [] && states[0] == START
    && forall i :: 0 <= i < |states| - 1 ==> Moves(states[i], states[i + 1])
  }

  /** A callback raised an exception, which ends the timer thread. */
  ghost predicate Raised(states: seq<State>) {
    exists i :: 0 <= i < |states| && states[i].run == Raising
  }

  /**
   What holds at the end of every trace. Once the flag was set in time it stays set, and a callback can start only if
   the timer thread had just found it unset. If it was only set too early, it is wiped out and never found set again.
   */
  predicate Inv(s: State, raised: bool) {
    && (s.inTime ==> s.run != ResetDone && s.done)
    && (!s.inTime && s.run != ResetDone ==> !s.done)
    && s.callsAfter <= (if s.inTime && s.run !in {CheckEvent, StartCallback} then 1 else 0)
    && (s.run == Leaving ==> s.inTime)
    && (s.run == Raising ==> raised)
    && (s.run == Exited ==> raised || s.inTime)
  }

  lemma InvStep(s: State, t: State, raised: bool)
    requires Inv(s, raised) && Moves(s, t)
    ensures Inv(t, raised || t.run == Raising)
  {
  }

  function Last(states: seq<State>): State
    requires states != []
  {
    states[|states| - 1]
  }

  lemma LastMove(states: seq<State>)
    requires IsTrace(states) && |states| > 1
    ensures IsTrace(states[..|states| - 1]) && Moves(Last(states[..|states| - 1]), Last(states))
    ensures Raised(states) <==> Raised(states[..|states| - 1]) || Last(states).run == Raising
  {
    var n := |states| - 1;
    var init := states[..n];
    assert Moves(states[n - 1], states[n - 1 + 1]);
    assert forall i :: 0 <= i < n ==> init[i] == states[i];
  }

  lemma {:induction false} InvHolds(states: seq<State>)
    requires IsTrace(states)
    ensures Inv(Last(states), Raised(states))
    decreases |states|
  {
    if |states| > 1 {
      var init := states[..|states| - 1];
      LastMove(states);
      InvHolds(init);
      InvStep(Last(init), Last(states), Raised(init));
    }
  }

  /** Whatever the interleaving, at most one callback starts after the flag was set in time. */
  lemma AtMostOneMoreCallback(states: seq<State>)
    requires IsTrace(states)
    ensures Last(states).callsAfter <= 1
  {
    InvHolds(states);
  }

  /** How many steps the timer thread still takes once it is to find the flag set. */
  function StepsLeft(run: RunStep): nat {
    match run
    case Exited => 0
    case Leaving => 1
    case Raising => 1
    case CheckDone => 2
    case Wait => 3
    case ClearEvent => 4
    case InCallback => 5
    case StartCallback => 6
    case CheckEvent => 7
    case ResetDone => 8
  }

  /** The steps that the timer thread has taken; each of them changes where it stands. */
  function RunSteps(states: seq<State>): nat
    decreases |states|
  {
    if |states| <= 1 then 0
    else RunSteps(states[..|states| - 1]) + if states[|states| - 2].run != Last(states).run then 1 else 0
  }

  lemma CloserToExit(s: State, t: State, raised: bool)
    requires Inv(s, raised) && s.inTime && Moves(s, t)
    ensures t.inTime && StepsLeft(t.run) + (if t.run != s.run then 1 else 0) <= StepsLeft(s.run) <= 7
  {
  }

  lemma OneStepCloser(states: seq<State>)
    requires IsTrace(states) && |states| > 1 && Last(states[..|states| - 1]).inTime
    ensures Last(states).inTime
    ensures
      var init := states[..|states| - 1];
      RunSteps(states) + StepsLeft(Last(states).run) <= RunSteps(init) + StepsLeft(Last(init).run)
  {
    var init := states[..|states| - 1];
    LastMove(states);
    InvHolds(init);
    CloserToExit(Last(init), Last(states), Raised(init));
  }

  /**
   A stop in time is honoured: from then on every step of the timer thread brings it closer to its exit, which it
   reaches within seven steps, at its next look at the flag, whether or not the event was cleared in between.
   */
  lemma {:induction false} StopIsHonoured(states: seq<State>, n: nat)
    requires IsTrace(states) && 0 < n <= |states| && Last(states[..n]).inTime
    ensures RunSteps(states) + StepsLeft(Last(states).run) <= RunSteps(states[..n]) + 7
    ensures RunSteps(states) == RunSteps(states[..n]) + 7 ==> Last(states).run == Exited
    ensures Last(states).inTime
    decreases |states|
  {
    if |states| > n {
      var init := states[..|states| - 1];
      LastMove(states);
      assert init[..n] == states[..n];
      StopIsHonoured(init, n);
      OneStepCloser(states);
    } else {
      assert states[..n] == states;
      InvHolds(states);
    }
  }

  /** Until it exits, the timer thread can always take a step. */
  lemma CanMove(s: State)
    requires s.run != Exited
    ensures exists t :: RunMoves(s, t)
  {
    match s.run
    case ResetDone => assert RunMoves(s, s.(run := Wait, done := false));
    case Wait => assert RunMoves(s, s.(run := CheckDone));
    case CheckDone => assert RunMoves(s, s.(run := if s.done then Leaving else CheckEvent));
    case CheckEvent => assert RunMoves(s, s.(run := if s.event then ClearEvent else StartCallback));
    case StartCallback =>
      assert RunMoves(s, s.(run := InCallback, callsAfter := s.callsAfter + if s.inTime then 1 else 0));
    case InCallback => assert RunMoves(s, s.(run := ClearEvent));
    case ClearEvent => assert RunMoves(s, s.(run := Wait, event := false));
    case Raising => assert RunMoves(s, s.(run := Exited, event := false));
    case Leaving => assert RunMoves(s, s.(run := Exited, event := false));
  }

  /** From state `i` to state `j` only the timer thread takes steps. */
  ghost predicate Undisturbed(states: seq<State>, i: nat, j: nat) {
    i <= j < |states| && forall k :: i <= k < j ==> RunMoves(states[k], states[k + 1])
  }

  /** Each pass calls the function: from a wait with flag and event unset, the next callback starts in four steps. */
  lemma PassReachesCallback(states: seq<State>, i: nat)
    requires Undisturbed(states, i, i + 4) && states[i].run == Wait && !states[i].done && !states[i].event
    ensures states[i + 1].run == CheckDone && states[i + 2].run == CheckEvent
    ensures states[i + 3].run == StartCallback && states[i + 4].run == InCallback
  {
    assert RunMoves(states[i], states[i + 1]) && RunMoves(states[i + 1], states[i + 1 + 1]);
    assert RunMoves(states[i + 2], states[i + 2 + 1]) && RunMoves(states[i + 3], states[i + 3 + 1]);
  }

  /** A pass that finds the event set calls nothing: it clears the event and waits again. */
  lemma WokenPassCallsNothing(states: seq<State>, i: nat)
    requires Undisturbed(states, i, i + 2) && states[i].run == CheckEvent && states[i].event
    ensures states[i + 1].run == ClearEvent && states[i + 2].run == Wait && !states[i + 2].event
    ensures states[i + 2].callsAfter == states[i].callsAfter
  {
    assert RunMoves(states[i], states[i + 1]) && RunMoves(states[i + 1], states[i + 1 + 1]);
  }

  lemma {:induction false} NothingIsSet(states: seq<State>, i: nat)
    requires IsTrace(states) && Undisturbed(states, 0, i)
    ensures !states[i].done && !states[i].event
    decreases i
  {
    if i > 0 {
      NothingIsSet(states, i - 1);
      assert RunMoves(states[i - 1], states[i - 1 + 1]);
    }
  }

  /**
   Without any stop, the timer goes on for ever: every pass from a wait reaches the callback, and after the callback,
   unless it raises an exception, comes the next wait.
   */
  lemma UnstoppedGoesOn(states: seq<State>, i: nat)
    requires IsTrace(states) && Undisturbed(states, 0, |states| - 1)
    ensures i + 4 < |states| && states[i].run == Wait ==> states[i + 4].run == InCallback
    ensures i + 2 < |states| && states[i].run == InCallback && !Raised(states) ==> states[i + 2].run == Wait
    ensures 1 < |states| ==> states[1].run == Wait
  {
    if i < |states| {
      NothingIsSet(states, i);
    }
    if i + 4 < |states| && states[i].run == Wait {
      PassReachesCallback(states, i);
    }
    if i + 2 < |states| && states[i].run == InCallback && !Raised(states) {
      assert RunMoves(states[i], states[i + 1]) && RunMoves(states[i + 1], states[i + 1 + 1]);
      assert states[i + 1].run != Raising;
    }
    if 1 < |states| {
      assert RunMoves(states[0], states[0 + 1]);
    }
  }

  /** Stops that all come before the reset are lost: without an exception in a callback the timer thread never exits. */
  lemma EarlyStopIsLost(states: seq<State>)
    requires IsTrace(states) && Last(states).tooEarly && !Last(states).inTime && !Raised(states)
    ensures Last(states).run !in {Leaving, Exited}
    ensures Last(states).run != ResetDone ==> !Last(states).done
  {
    InvHolds(states);
  }

  /** An instance: the flag is set, the timer thread resets it, and neither finds nor will find it set. */
  lemma EarlyStopTrace()
    ensures
      var stopped := START.(done := true, stopping := 1, tooEarly := true);
      var reset := stopped.(run := Wait, done := false);
      IsTrace([START, stopped, reset]) && reset.tooEarly && !reset.inTime && !reset.done
  {
    var stopped := START.(done := true, stopping := 1, tooEarly := true);
    assert StopMoves(START, stopped) && RunMoves(stopped, stopped.(run := Wait, done := false));
  }

  /** The timer thread exits by itself only if it was stopped in time: absent exceptions, that is what decides. */
  lemma ExitsOnlyIfStoppedInTime(states: seq<State>)
    requires IsTrace(states) && Last(states).run == Exited && !Raised(states)
    ensures Last(states).inTime && Last(states).done
  {
    InvHolds(states);
  }
}
