/**
 * The completion barrier between a conversation task and the session's finalizer
 * (crates/eggreplay-http/src/recording.rs), as the interleaved steps of its two threads.
 *
 * The completer sets the flag under the mutex, releases it, and notifies. The waiter runs `drive` (no deadline) or
 * `drive_with_deadline`. A parked waiter may wake at any moment: notified, timed out - early or late - or spuriously.
 */
module Completion {
  import opened Prelude

  /** The two results of waiting: `Ok(())` and `Err(elapsed)`. */
  datatype Outcome = Completed | TimedOut(elapsed: nat)

  datatype Holder = Free | HeldByCompleter | HeldByWaiter

  /** `complete` runs the first four steps and then drops; a plain drop starts at `Dropping`. */
  datatype Completer =
    | Live
    | Completing | Storing | Releasing | Notifying
    | Dropping | DropStoring | DropReleasing | DropNotifying
    | Gone

  datatype Waiter =
    | Arriving
    | Checking
    | Parked
    | Waking
    | Rechecking
    | Returned(result: Outcome)

  datatype State = State(
    done: bool,
    lock: Holder,
    completer: Completer,
    signalled: bool,
    waiter: Waiter,
    deadline: Option<nat>,
    start: nat,
    now: nat)

  ghost predicate Init(s: State)
  {
    !s.done && s.lock.Free? && s.completer.Live? && !s.signalled && s.waiter.Arriving? && s.start == s.now
  }

  // ---------- The completer's steps ----------

  ghost predicate CompleterStep(s: State, t: State)
  {
    match s.completer
    case Live => t == s.(completer := Completing) || t == s.(completer := Dropping)
    case Completing => s.lock.Free? && t == s.(completer := Storing, lock := HeldByCompleter)
    case Storing => t == s.(completer := Releasing, done := true)
    case Releasing => t == s.(completer := Notifying, lock := Free)
    case Notifying => t == s.(completer := Dropping, signalled := true, waiter := Notified(s.waiter))
    case Dropping =>
      if s.signalled then t == s.(completer := Gone)
      else s.lock.Free? && t == s.(completer := DropStoring, lock := HeldByCompleter)
    case DropStoring => t == s.(completer := DropReleasing, done := true)
    case DropReleasing => t == s.(completer := DropNotifying, lock := Free)
    case DropNotifying => t == s.(completer := Gone, waiter := Notified(s.waiter))
    case Gone => false
  }

  function Notified(w: Waiter): Waiter
  {
    if w.Parked? then Waking else w
  }

  // ---------- The waiter's steps ----------

  ghost predicate WaiterStep(s: State, t: State)
  {
    match s.waiter
    case Arriving => s.lock.Free? && t == s.(waiter := Checking, lock := HeldByWaiter)
    case Checking =>
      if s.done then t == s.(waiter := Returned(Completed), lock := Free)
      else if s.deadline.Some? && s.now - s.start >= s.deadline.value then
        s.now >= s.start && t == s.(waiter := Returned(TimedOut(s.now - s.start)), lock := Free)
      else t == s.(waiter := Parked, lock := Free)
    case Parked => t == s.(waiter := Waking)
    case Waking =>
      s.lock.Free? && t == s.(waiter := if s.deadline.Some? then Rechecking else Checking, lock := HeldByWaiter)
    case Rechecking =>
      if s.done then t == s.(waiter := Returned(Completed), lock := Free)
      else t == s.(waiter := Checking)
    case Returned(_) => false
  }

  ghost predicate ClockStep(s: State, t: State)
  {
    t == s.(now := t.now) && t.now >= s.now
  }

  ghost predicate Next(s: State, t: State)
  {
    CompleterStep(s, t) || WaiterStep(s, t) || ClockStep(s, t)
  }

  /** A run: any interleaving of steps from an initial state. */
  ghost predicate Run(states: seq<State>)
  {
    && |states| > 0
    && Init(states[0])
    && forall i :: 0 <= i < |states| - 1 ==> Next(states[i], states[i + 1])
  }

  // ---------- The invariant ----------

  /** The completer has stored `true` in the flag, by `complete` or by its drop. */
  predicate HasSignalled(c: Completer, signalled: bool)
  {
    c in {Releasing, Notifying, DropReleasing, DropNotifying, Gone} || (c.Dropping? && signalled)
  }

  /** Signalled, and the notification has gone out. */
  predicate Delivered(s: State)
  {
    s.completer.Gone? || (s.completer.Dropping? && s.signalled)
  }

  predicate Inv(s: State)
  {
    && (s.done <==> HasSignalled(s.completer, s.signalled))
    && (s.signalled ==> s.completer in {Dropping, Gone})
    && (s.lock.HeldByCompleter? <==> s.completer in {Storing, Releasing, DropStoring, DropReleasing})
    && (s.lock.HeldByWaiter? <==> s.waiter in {Checking, Rechecking})
    && (Delivered(s) ==> !s.waiter.Parked?)
    && (s.waiter == Returned(Completed) ==> s.done)
    && (s.waiter.Returned? && s.waiter.result.TimedOut? ==> s.deadline.Some? && s.waiter.result.elapsed >= s.deadline.value)
    && s.start <= s.now
  }

  lemma InvStep(s: State, t: State)
    requires Inv(s) && Next(s, t)
    ensures Inv(t)
  {
  }

  lemma {:induction false} InvRun(states: seq<State>, i: nat)
    requires Run(states) && i < |states|
    ensures Inv(states[i])
  {
    if i > 0 {
      InvRun(states, i - 1);
      assert Next(states[i - 1], states[i - 1 + 1]);
      InvStep(states[i - 1], states[i]);
    }
  }

  // ---------- What every interleaving guarantees ----------

  /** Safety: a waiter that returns has been signalled, or its deadline has really passed. */
  lemma WaiterReturnsOnlyAfterSignal(states: seq<State>, i: nat)
    requires Run(states) && i < |states|
    ensures states[i].waiter == Returned(Completed) ==>
      exists k :: 0 <= k <= i && (states[k].completer.Releasing? || states[k].completer.DropReleasing?)
    ensures states[i].waiter.Returned? && states[i].waiter.result.TimedOut? ==>
      states[i].deadline.Some? && states[i].waiter.result.elapsed >= states[i].deadline.value
    ensures states[i].deadline.None? ==> states[i].waiter.Returned? ==> states[i].waiter == Returned(Completed)
  {
    InvRun(states, i);
    if states[i].waiter == Returned(Completed) {
      SignalPassedThroughStore(states, i);
    }
  }

  /** The flag is only ever set by the completer's store, under the lock. */
  lemma {:induction false} SignalPassedThroughStore(states: seq<State>, i: nat)
    requires Run(states) && i < |states| && states[i].done
    ensures exists k :: 0 <= k <= i && (states[k].completer.Releasing? || states[k].completer.DropReleasing?)
  {
    assert i > 0;
    assert Next(states[i - 1], states[i - 1 + 1]);
    if states[i - 1].done {
      SignalPassedThroughStore(states, i - 1);
    }
  }

  /** No lost wake-up: once the signal is fully delivered no reachable state has the waiter still parked. */
  lemma NoLostWakeup(states: seq<State>, i: nat)
    requires Run(states) && i < |states| && Delivered(states[i])
    ensures states[i].done && !states[i].waiter.Parked?
  {
    InvRun(states, i);
  }

  /** How many of its own steps the waiter still needs once the flag is set. */
  function StepsLeft(w: Waiter): (n: nat)
    ensures n <= 3 && (n == 0 <==> w.Returned?)
  {
    match w
    case Parked => 3
    case Waking => 2
    case Arriving => 2
    case Checking => 1
    case Rechecking => 1
    case Returned(_) => 0
  }

  /** With the flag set every waiter step brings it strictly closer to returning, and the others never set it back. */
  lemma SignalledWaiterProgresses(s: State, t: State)
    requires Inv(s) && s.done && Next(s, t)
    ensures t.done && StepsLeft(t.waiter) <= StepsLeft(s.waiter)
    ensures WaiterStep(s, t) ==> StepsLeft(t.waiter) < StepsLeft(s.waiter)
    ensures WaiterStep(s, t) && t.waiter.Returned? ==> t.waiter == Returned(Completed)
  {
  }

  /** No deadlock: until both threads are finished, some thread other than the clock can move. */
  lemma NeverStuck(states: seq<State>, i: nat)
    requires Run(states) && i < |states|
    requires !(states[i].waiter.Returned? && states[i].completer.Gone?)
    ensures exists t :: CompleterStep(states[i], t) || WaiterStep(states[i], t)
  {
    InvRun(states, i);
    var s := states[i];
    if s.lock.HeldByWaiter? {
      assert s.waiter in {Checking, Rechecking};
      var t :=
        if s.done then s.(waiter := Returned(Completed), lock := Free)
        else if s.waiter.Rechecking? then s.(waiter := Checking)
        else if s.deadline.Some? && s.now - s.start >= s.deadline.value then
          s.(waiter := Returned(TimedOut(s.now - s.start)), lock := Free)
        else s.(waiter := Parked, lock := Free);
      assert WaiterStep(s, t);
    } else {
      CompleterOrWaiterMoves(s);
    }
  }

  lemma CompleterOrWaiterMoves(s: State)
    requires Inv(s) && !s.lock.HeldByWaiter? && !(s.waiter.Returned? && s.completer.Gone?)
    ensures exists t :: CompleterStep(s, t) || WaiterStep(s, t)
  {
    match s.completer {
      case Live => assert CompleterStep(s, s.(completer := Completing));
      case Completing => assert CompleterStep(s, s.(completer := Storing, lock := HeldByCompleter));
      case Storing => assert CompleterStep(s, s.(completer := Releasing, done := true));
      case Releasing => assert CompleterStep(s, s.(completer := Notifying, lock := Free));
      case Notifying => assert CompleterStep(s, s.(completer := Dropping, signalled := true, waiter := Notified(s.waiter)));
      case Dropping =>
        assert CompleterStep(s, if s.signalled then s.(completer := Gone)
                                else s.(completer := DropStoring, lock := HeldByCompleter));
      case DropStoring => assert CompleterStep(s, s.(completer := DropReleasing, done := true));
      case DropReleasing => assert CompleterStep(s, s.(completer := DropNotifying, lock := Free));
      case DropNotifying => assert CompleterStep(s, s.(completer := Gone, waiter := Notified(s.waiter)));
      case Gone =>
        if s.waiter.Arriving? {
          assert WaiterStep(s, s.(waiter := Checking, lock := HeldByWaiter));
        } else {
          assert s.waiter.Waking?;
          assert WaiterStep(s, s.(waiter := if s.deadline.Some? then Rechecking else Checking, lock := HeldByWaiter));
        }
    }
  }

  /** The waiter's deadline has passed. */
  predicate Late(s: State)
  {
    s.deadline.Some? && s.now - s.start >= s.deadline.value
  }

  /** How many of its own steps a late waiter still needs. */
  function LateStepsLeft(w: Waiter): (n: nat)
    ensures n <= 4 && (n == 0 <==> w.Returned?)
  {
    match w
    case Parked => 4
    case Waking => 3
    case Rechecking => 2
    case Arriving => 2
    case Checking => 1
    case Returned(_) => 0
  }

  /**
   * Once the deadline has passed it stays passed, every waiter step brings the waiter strictly closer to returning, no
   * other step takes it back, and a check returns then and there: signalled if the flag is set, and with the time that
   * has really passed if it is not.
   */
  lemma LateWaiterReturns(s: State, t: State)
    requires Inv(s) && Late(s) && Next(s, t)
    ensures Late(t) && LateStepsLeft(t.waiter) <= LateStepsLeft(s.waiter)
    ensures WaiterStep(s, t) ==> LateStepsLeft(t.waiter) < LateStepsLeft(s.waiter)
    ensures WaiterStep(s, t) && s.waiter.Checking? ==>
      t.waiter == Returned(if s.done then Completed else TimedOut(s.now - s.start))
  {
  }

  /** How many of its own steps the completer still needs. */
  function CompleterStepsLeft(c: Completer, signalled: bool): nat
  {
    match c
    case Live => 9
    case Completing => 8
    case Storing => 7
    case Releasing => 6
    case Notifying => 5
    case Dropping => if signalled then 1 else 4
    case DropStoring => 3
    case DropReleasing => 2
    case DropNotifying => 1
    case Gone => 0
  }

  /** Every completer step brings it strictly closer to its end, and nothing takes it back. */
  lemma CompleterProgresses(s: State, t: State)
    requires Inv(s) && Next(s, t)
    ensures CompleterStepsLeft(t.completer, t.signalled) <= CompleterStepsLeft(s.completer, s.signalled)
    ensures CompleterStep(s, t) ==>
      CompleterStepsLeft(t.completer, t.signalled) < CompleterStepsLeft(s.completer, s.signalled)
    ensures t.completer.Gone? ==> t.done
  {
  }

  /** How many of the steps from state `i` to state `j` are the waiter's. */
  ghost function WaiterStepsTaken(states: seq<State>, i: nat, j: nat): nat
    requires i <= j < |states|
  {
    if i == j then 0
    else WaiterStepsTaken(states, i, j - 1) + if WaiterStep(states[j - 1], states[j]) then 1 else 0
  }

  /** In every run a late waiter takes at most four more steps, and has returned when it has taken them. */
  lemma {:induction false} LateWaiterReturnsInFour(states: seq<State>, i: nat, j: nat)
    requires Run(states) && i <= j < |states| && Late(states[i])
    ensures Late(states[j])
    ensures WaiterStepsTaken(states, i, j) + LateStepsLeft(states[j].waiter) <= LateStepsLeft(states[i].waiter) <= 4
    ensures WaiterStepsTaken(states, i, j) >= 4 ==> states[j].waiter.Returned?
  {
    hide Inv, Next, Late, Init, WaiterStep, LateStepsLeft;
    if i < j {
      LateWaiterReturnsInFour(states, i, j - 1);
      InvRun(states, j - 1);
      assert Next(states[j - 1], states[j - 1 + 1]);
      LateWaiterReturns(states[j - 1], states[j]);
    }
  }

  /** In every run a signalled waiter takes at most three more steps, and has returned when it has taken them. */
  lemma {:induction false} SignalledWaiterReturnsInThree(states: seq<State>, i: nat, j: nat)
    requires Run(states) && i <= j < |states| && states[i].done
    ensures states[j].done
    ensures WaiterStepsTaken(states, i, j) + StepsLeft(states[j].waiter) <= StepsLeft(states[i].waiter) <= 3
    ensures WaiterStepsTaken(states, i, j) >= 3 ==> states[j].waiter.Returned?
  {
    hide Inv, Next, Init, WaiterStep, StepsLeft;
    if i < j {
      SignalledWaiterReturnsInThree(states, i, j - 1);
      InvRun(states, j - 1);
      assert Next(states[j - 1], states[j - 1 + 1]);
      SignalledWaiterProgresses(states[j - 1], states[j]);
    }
  }
}
