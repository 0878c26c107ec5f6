/**
 The per-user mutex of the end-to-end encryption endpoints, which unlocks itself after a while.

 `lock` first takes the inner mutex and only then, under a second mutex, records that it is locked and
 arms a timer; `unlock`, called by a client or by a fired timer, tests and clears that record under the
 second mutex and releases the inner one. Every statement that touches shared state is one step, and
 steps of any number of callers and timers interleave freely.
 */
module E2eMutex {
  import opened Wrappers

  type Tid = nat
  type TimerId = nat

  /** Where a caller of `lock` or `unlock` stands. */
  datatype Pc =
    | LockWaiting      // about to take the inner mutex
    | LockAcquired     // holds the inner mutex, about to take the state mutex
    | LockMarking      // holds both, about to set isLocked and arm a timer
    | LockMarked       // about to give the state mutex back
    | LockDone
    | UnlockWaiting    // about to take the state mutex
    | UnlockChecking   // about to test isLocked
    | UnlockStopping   // found isLocked set, about to stop the timer
    | UnlockClearing   // about to clear isLocked
    | UnlockReleasing  // about to release the inner mutex
    | UnlockLeaving    // about to give the state mutex back
    | UnlockDone

  /** `crashed` records the runtime's fatal error on releasing a mutex nobody holds. */
  datatype State = State(
    held: bool,
    stateHolder: Option<Tid>,
    isLocked: bool,
    timer: Option<TimerId>,
    armed: set<TimerId>,
    nextTimer: TimerId,
    threads: map<Tid, Pc>,
    crashed: bool)

  datatype Step =
    | CallLock(tid: Tid)
    | CallUnlock(tid: Tid)
    | Advance(tid: Tid)
    | Fire(timerId: TimerId, tid: Tid)

  const INIT := State(false, None, false, None, {}, 0, map[], false)

  function Goto(s: State, tid: Tid, pc: Pc): State {
    s.(threads := s.threads[tid := pc])
  }

  /** One statement of the caller `tid`; a caller waiting for a taken mutex stays where it is. */
  function AdvanceThread(s: State, tid: Tid): State
    requires tid in s.threads
  {
    match s.threads[tid]
    case LockWaiting => if s.held then s else Goto(s, tid, LockAcquired).(held := true)
    case LockAcquired => if s.stateHolder.Some? then s else Goto(s, tid, LockMarking).(stateHolder := Some(tid))
    case LockMarking =>
      Goto(s, tid, LockMarked).(
      isLocked := true, timer := Some(s.nextTimer), armed := s.armed + {s.nextTimer}, nextTimer := s.nextTimer + 1)
    case LockMarked => Goto(s, tid, LockDone).(stateHolder := None)
    case LockDone => s
    case UnlockWaiting => if s.stateHolder.Some? then s else Goto(s, tid, UnlockChecking).(stateHolder := Some(tid))
    case UnlockChecking => Goto(s, tid, if s.isLocked then UnlockStopping else UnlockLeaving)
    case UnlockStopping =>
      // Stopping a timer that has already fired has no effect
      Goto(s, tid, UnlockClearing).(
      armed := if s.timer.Some? then s.armed - {s.timer.value} else s.armed, timer := None)
    case UnlockClearing => Goto(s, tid, UnlockReleasing).(isLocked := false)
    case UnlockReleasing => Goto(s, tid, UnlockLeaving).(held := false, crashed := s.crashed || !s.held)
    case UnlockLeaving => Goto(s, tid, UnlockDone).(stateHolder := None)
    case UnlockDone => s
  }

  /** A step that is not enabled changes nothing. */
  function Apply(s: State, step: Step): State {
    match step
    case CallLock(tid) => if tid in s.threads then s else Goto(s, tid, LockWaiting)
    case CallUnlock(tid) => if tid in s.threads then s else Goto(s, tid, UnlockWaiting)
    case Advance(tid) => if tid in s.threads then AdvanceThread(s, tid) else s
    case Fire(timerId, tid) =>
      if timerId in s.armed && tid !in s.threads
      then Goto(s, tid, UnlockWaiting).(armed := s.armed - {timerId})
      else s
  }

  function Run(s: State, steps: seq<Step>): State
    decreases |steps|
  {
    if steps == [] then s else Run(Apply(s, steps[0]), steps[1..])
  }

  /** The caller holds the state mutex. */
  predicate InStateSection(pc: Pc) {
    pc in {LockMarking, LockMarked, UnlockChecking, UnlockStopping, UnlockClearing, UnlockReleasing, UnlockLeaving}
  }

  /** A locker that has the inner mutex but has not recorded it yet. */
  predicate BetweenAcquireAndMark(pc: Pc) {
    pc == LockAcquired || pc == LockMarking
  }

  /** The caller owes the inner mutex a release that isLocked does not show. */
  predicate Claims(pc: Pc) {
    BetweenAcquireAndMark(pc) || pc == UnlockReleasing
  }

  /** The state mutex is held by exactly the caller inside its section, and isLocked is set there when it must be. */
  ghost predicate SectionInv(s: State) {
    && (forall t :: t in s.threads ==> (InStateSection(s.threads[t]) <==> s.stateHolder == Some(t)))
    && (s.stateHolder.Some? ==> s.stateHolder.value in s.threads)
    && (forall t :: t in s.threads && s.threads[t] in {LockMarked, UnlockStopping, UnlockClearing} ==> s.isLocked)
  }

  /** The inner mutex is held for one reason at a time. */
  ghost predicate ClaimInv(s: State) {
    && !s.crashed
    && (s.isLocked ==> s.held)
    && (forall t :: t in s.threads && Claims(s.threads[t]) ==> s.held && !s.isLocked)
    && (forall t, u :: t in s.threads && u in s.threads && Claims(s.threads[t]) && Claims(s.threads[u]) ==> t == u)
    && (s.held && !s.isLocked ==> exists t :: t in s.threads && Claims(s.threads[t]))
  }

  ghost predicate Inv(s: State) {
    SectionInv(s) && ClaimInv(s)
  }

  lemma AdvanceKeepsSection(s: State, tid: Tid)
    requires Inv(s) && tid in s.threads
    ensures SectionInv(AdvanceThread(s, tid))
  {
  }

  lemma AdvanceKeepsClaims(s: State, tid: Tid)
    requires Inv(s) && tid in s.threads
    ensures ClaimInv(AdvanceThread(s, tid))
  {
    var s' := AdvanceThread(s, tid);
    if s'.held && !s'.isLocked {
      var t := if Claims(s'.threads[tid]) then tid else var u :| u in s.threads && Claims(s.threads[u]); u;
      assert t in s'.threads && Claims(s'.threads[t]);
    }
  }

  lemma ApplyKeepsInv(s: State, step: Step)
    requires Inv(s)
    ensures Inv(Apply(s, step))
  {
    var s' := Apply(s, step);
    if step.Advance? {
      if step.tid in s.threads {
        AdvanceKeepsSection(s, step.tid);
        AdvanceKeepsClaims(s, step.tid);
      }
    } else if s'.held && !s'.isLocked {
      var t :| t in s.threads && Claims(s.threads[t]);
      assert t in s'.threads && Claims(s'.threads[t]);
    }
  }

  lemma {:induction false} RunKeepsInv(s: State, steps: seq<Step>)
    requires Inv(s)
    ensures Inv(Run(s, steps))
    decreases |steps|
  {
    if steps == [] {
    } else {
      ApplyKeepsInv(s, steps[0]);
      RunKeepsInv(Apply(s, steps[0]), steps[1..]);
    }
  }

  /** The lockers that hold the inner mutex without having recorded it. */
  ghost function Unrecorded(s: State): set<Tid> {
    set t | t in s.threads && BetweenAcquireAndMark(s.threads[t])
  }

  /**
   Main theorem. In no interleaving is the inner mutex released while free, and whenever no `unlock` is
   inside its critical section the inner mutex is held exactly if it is recorded as locked or exactly one
   locker is between acquiring and recording it, never both.
   */
  lemma HeldExactlyWhenRecordedOrUnrecorded(steps: seq<Step>)
    ensures var s := Run(INIT, steps);
            && !s.crashed
            && |Unrecorded(s)| <= 1
            && (s.isLocked ==> s.held && Unrecorded(s) == {})
            && ((forall t :: t in s.threads ==> s.threads[t] != UnlockReleasing) ==>
                  (s.held <==> s.isLocked || |Unrecorded(s)| == 1))
  {
    RunKeepsInv(INIT, steps);
    var s := Run(INIT, steps);
    var lockers := Unrecorded(s);
    if t :| t in lockers {
      assert lockers == {t};
    }
    if s.held && !s.isLocked {
      var t :| t in s.threads && Claims(s.threads[t]);
      assert s.threads[t] != UnlockReleasing ==> t in lockers;
    }
  }

  /** The state mutex is a mutex: two callers are never inside its section together. */
  lemma StateSectionIsExclusive(steps: seq<Step>, t: Tid, u: Tid)
    requires var s := Run(INIT, steps); t in s.threads && u in s.threads
    requires var s := Run(INIT, steps); InStateSection(s.threads[t]) && InStateSection(s.threads[u])
    ensures t == u
  {
    RunKeepsInv(INIT, steps);
  }

  lemma {:induction false} RunAppend(s: State, a: seq<Step>, b: seq<Step>)
    ensures Run(s, a + b) == Run(Run(s, a), b)
    decreases |a|
  {
    if a == [] {
      assert a + b == b;
    } else {
      assert (a + b)[0] == a[0] && (a + b)[1..] == a[1..] + b;
      RunAppend(Apply(s, a[0]), a[1..], b);
    }
  }

  function Times(step: Step, n: nat): (steps: seq<Step>)
    ensures |steps| == n
  {
    if n == 0 then [] else [step] + Times(step, n - 1)
  }

  /** A `lock` call that nothing interrupts, from the call to its return. */
  function LockCall(tid: Tid): seq<Step> {
    [CallLock(tid)] + Times(Advance(tid), 4)
  }

  /** An `unlock` call that nothing interrupts. */
  function UnlockCall(tid: Tid): seq<Step> {
    [CallUnlock(tid)] + Times(Advance(tid), 6)
  }

  lemma RunCons(s: State, step: Step, rest: seq<Step>)
    ensures Run(s, [step] + rest) == Run(Apply(s, step), rest)
  {
    assert ([step] + rest)[1..] == rest;
  }

  lemma RunAdvance(s: State, tid: Tid, n: nat)
    requires n > 0
    ensures Run(s, Times(Advance(tid), n)) == Run(Apply(s, Advance(tid)), Times(Advance(tid), n - 1))
  {
    RunCons(s, Advance(tid), Times(Advance(tid), n - 1));
  }

  /** A `lock` call that nothing interrupts takes the mutex, records it and arms a fresh timer. */
  lemma LockAlone(s: State, tid: Tid)
    requires tid !in s.threads && !s.held && s.stateHolder.None?
    ensures Run(s, LockCall(tid)) ==
            Goto(s, tid, LockDone).(held := true, isLocked := true, timer := Some(s.nextTimer),
            armed := s.armed + {s.nextTimer}, nextTimer := s.nextTimer + 1)
  {
    RunCons(s, CallLock(tid), Times(Advance(tid), 4));
    var s0 := Apply(s, CallLock(tid));
    RunAdvance(s0, tid, 4);
    var s1 := Apply(s0, Advance(tid));
    RunAdvance(s1, tid, 3);
    var s2 := Apply(s1, Advance(tid));
    RunAdvance(s2, tid, 2);
    var s3 := Apply(s2, Advance(tid));
    RunAdvance(s3, tid, 1);
    assert Apply(s3, Advance(tid)).threads == s.threads[tid := LockDone];
  }

  lemma GotoTwice(s: State, tid: Tid, pc: Pc, next: Pc)
    ensures Goto(Goto(s, tid, pc), tid, next) == Goto(s, tid, next)
  {
    assert s.threads[tid := pc][tid := next] == s.threads[tid := next];
  }

  function Freed(s: State, tid: Tid): State {
    Goto(s, tid, UnlockDone).(held := false, isLocked := false, timer := None,
    armed := if s.timer.Some? then s.armed - {s.timer.value} else s.armed)
  }

  lemma ReleaseAlone(s: State, tid: Tid)
    requires tid in s.threads && s.threads[tid] == UnlockReleasing && s.held
    ensures Run(s, Times(Advance(tid), 2)) == Goto(s, tid, UnlockDone).(held := false, stateHolder := None)
  {
    RunAdvance(s, tid, 2);
    RunAdvance(Apply(s, Advance(tid)), tid, 1);
    GotoTwice(s, tid, UnlockLeaving, UnlockDone);
  }

  lemma StopAlone(s: State, tid: Tid)
    requires tid in s.threads && s.threads[tid] == UnlockStopping && s.held
    ensures Run(s, Times(Advance(tid), 4)) == Freed(s, tid).(stateHolder := None)
  {
    RunAdvance(s, tid, 4);
    var s1 := Apply(s, Advance(tid));
    RunAdvance(s1, tid, 3);
    var s2 := Apply(s1, Advance(tid));
    ReleaseAlone(s2, tid);
    GotoTwice(s, tid, UnlockClearing, UnlockReleasing);
    GotoTwice(s, tid, UnlockReleasing, UnlockDone);
  }

  /** A waiting `unlock` that nothing interrupts frees a recorded lock. */
  lemma UnlockAlone(s: State, tid: Tid)
    requires tid in s.threads && s.threads[tid] == UnlockWaiting
    requires s.stateHolder.None? && s.isLocked && s.held
    ensures Run(s, Times(Advance(tid), 6)) == Freed(s, tid)
  {
    RunAdvance(s, tid, 6);
    var s1 := Apply(s, Advance(tid));
    RunAdvance(s1, tid, 5);
    var s2 := Apply(s1, Advance(tid));
    GotoTwice(s, tid, UnlockChecking, UnlockStopping);
    StopAlone(s2, tid);
    GotoTwice(s, tid, UnlockStopping, UnlockDone);
  }

  /** `lock` followed by `unlock`, with nothing in between, gives the mutex back and disarms the timer. */
  lemma UnlockUndoesLock(s: State, locker: Tid, unlocker: Tid)
    requires !s.held && s.stateHolder.None? && s.nextTimer !in s.armed
    requires locker !in s.threads && unlocker !in s.threads && locker != unlocker
    ensures var s' := Run(s, LockCall(locker) + UnlockCall(unlocker));
            s' == s.(isLocked := false, timer := None, nextTimer := s.nextTimer + 1,
                     threads := s.threads[locker := LockDone][unlocker := UnlockDone])
  {
    RunAppend(s, LockCall(locker), UnlockCall(unlocker));
    LockAlone(s, locker);
    UnlockCallAlone(Run(s, LockCall(locker)), unlocker);
  }

  lemma UnlockCallAlone(s: State, tid: Tid)
    requires tid !in s.threads && s.stateHolder.None? && s.isLocked && s.held
    ensures Run(s, UnlockCall(tid)) == Freed(s, tid)
  {
    RunCons(s, CallUnlock(tid), Times(Advance(tid), 6));
    UnlockAlone(Goto(s, tid, UnlockWaiting), tid);
    GotoTwice(s, tid, UnlockWaiting, UnlockDone);
  }

  /** A timer thread that had to wait unlocks whoever holds the lock when it gets to run. */
  lemma WaitingTimerUnlocksTheNextHolder(s: State, late: Tid, unlocker: Tid, next: Tid)
    requires s.held && s.isLocked && s.stateHolder.None?
    requires late in s.threads && s.threads[late] == UnlockWaiting
    requires unlocker !in s.threads && next !in s.threads && unlocker != next
    ensures var s' := Run(Run(Run(s, UnlockCall(unlocker)), LockCall(next)), Times(Advance(late), 6));
            next in s'.threads && s'.threads[next] == LockDone && !s'.held && !s'.isLocked
  {
    UnlockCallAlone(s, unlocker);
    var s1 := Run(s, UnlockCall(unlocker));
    LockAlone(s1, next);
    UnlockAlone(Run(s1, LockCall(next)), late);
  }

  /**
   Stopping a timer does not help once it has fired: `first` locks, its timer fires as `late` but has to
   wait, `unlocker` unlocks, `next` locks, and only then does `late` run and take the lock of `next` away.
   */
  lemma LateTimerReleasesTheNextHolder(first: Tid, late: Tid, unlocker: Tid, next: Tid)
    requires first != late && first != unlocker && first != next
    requires late != unlocker && late != next && unlocker != next
    ensures var s := Run(INIT, LockCall(first) + [Fire(0, late)] + UnlockCall(unlocker) + LockCall(next) + Times(Advance(late), 6));
            next in s.threads && s.threads[next] == LockDone && !s.held && !s.isLocked
  {
    RunAppend(INIT, LockCall(first) + [Fire(0, late)] + UnlockCall(unlocker) + LockCall(next), Times(Advance(late), 6));
    RunAppend(INIT, LockCall(first) + [Fire(0, late)] + UnlockCall(unlocker), LockCall(next));
    RunAppend(INIT, LockCall(first) + [Fire(0, late)], UnlockCall(unlocker));
    RunAppend(INIT, LockCall(first), [Fire(0, late)]);
    LockAlone(INIT, first);
    var s1 := Run(INIT, LockCall(first));
    RunCons(s1, Fire(0, late), []);
    WaitingTimerUnlocksTheNextHolder(Run(s1, [Fire(0, late)]), late, unlocker, next);
  }

  // ---------------------------------------------------------------- when a holder is safe

  /** A caller of `unlock`, or a fired timer, that has not released the lock yet. */
  predicate IsPending(pc: Pc) {
    pc in {UnlockWaiting, UnlockChecking, UnlockStopping, UnlockClearing, UnlockReleasing}
  }

  predicate HasPending(s: State) {
    exists t :: t in s.threads && IsPending(s.threads[t])
  }

  /** Only the timer of the current lock can still fire, and none while nothing is locked. */
  ghost predicate TimerInv(s: State) {
    && s.armed <= (if s.timer.Some? then {s.timer.value} else {})
    && (!s.isLocked ==> s.armed == {})
    && (forall t :: t in s.threads && s.threads[t] == UnlockClearing ==> s.armed == {})
  }

  lemma ApplyKeepsTimerInv(s: State, step: Step)
    requires Inv(s) && TimerInv(s)
    ensures TimerInv(Apply(s, step))
  {
  }

  lemma {:induction false} RunKeepsTimerInv(s: State, steps: seq<Step>)
    requires Inv(s) && TimerInv(s)
    ensures Inv(Run(s, steps)) && TimerInv(Run(s, steps))
    decreases |steps|
  {
    if steps == [] {
    } else {
      ApplyKeepsInv(s, steps[0]);
      ApplyKeepsTimerInv(s, steps[0]);
      RunKeepsTimerInv(Apply(s, steps[0]), steps[1..]);
    }
  }

  /** Nobody calls `unlock` anew, and the timer of the current lock does not fire. */
  predicate IsUndisturbed(timer: Option<TimerId>, steps: seq<Step>) {
    forall k :: 0 <= k < |steps| ==> !steps[k].CallUnlock? && (steps[k].Fire? ==> Some(steps[k].timerId) != timer)
  }

  /** The lock is recorded, nobody is about to release it, and only the timer `own` may fire. */
  ghost predicate IsSafe(s: State, own: Option<TimerId>) {
    && Inv(s) && s.isLocked && !HasPending(s)
    && forall timerId :: timerId in s.armed ==> Some(timerId) == own
  }

  lemma ApplyKeepsSafe(s: State, step: Step, own: Option<TimerId>)
    requires IsSafe(s, own) && IsUndisturbed(own, [step])
    ensures IsSafe(Apply(s, step), own)
  {
    ApplyKeepsInv(s, step);
    var s' := Apply(s, step);
    assert [step][0] == step;
    forall t | t in s'.threads
      ensures !IsPending(s'.threads[t])
    {
      assert t in s.threads ==> !IsPending(s.threads[t]);
    }
  }

  lemma {:induction false} SafeHolderKeepsTheLock(s: State, steps: seq<Step>, own: Option<TimerId>)
    requires IsSafe(s, own) && IsUndisturbed(own, steps)
    ensures IsSafe(Run(s, steps), own)
    decreases |steps|
  {
    if steps == [] {
    } else {
      ApplyKeepsSafe(s, steps[0], own);
      SafeHolderKeepsTheLock(Apply(s, steps[0]), steps[1..], own);
    }
  }

  /** A pending caller inside the state section releases the lock if it is let run. */
  lemma SectionReleases(s: State, tid: Tid) returns (n: nat)
    requires Inv(s) && s.isLocked && tid in s.threads && IsPending(s.threads[tid]) && s.threads[tid] != UnlockWaiting
    ensures !Run(s, Times(Advance(tid), n)).held
  {
    var s1 := Apply(s, Advance(tid));
    n := if s.threads[tid] == UnlockChecking then 5 else if s.threads[tid] == UnlockStopping then 4 else 3;
    if s.threads[tid] == UnlockChecking {
      RunAdvance(s, tid, 5);
      StopAlone(s1, tid);
    } else if s.threads[tid] == UnlockStopping {
      StopAlone(s, tid);
    } else {
      RunAdvance(s, tid, 3);
      ReleaseAlone(s1, tid);
    }
  }

  /** A pending caller releases the lock once it is let run, behind the one that has the state mutex. */
  lemma PendingReleases(s: State, tid: Tid) returns (steps: seq<Step>)
    requires Inv(s) && s.isLocked && tid in s.threads && IsPending(s.threads[tid])
    ensures IsUndisturbed(s.timer, steps) && !Run(s, steps).held
  {
    if s.threads[tid] != UnlockWaiting {
      var n := SectionReleases(s, tid);
      TimesIs(Advance(tid), n);
      steps := Times(Advance(tid), n);
    } else if s.stateHolder.None? {
      UnlockAlone(s, tid);
      TimesIs(Advance(tid), 6);
      steps := Times(Advance(tid), 6);
    } else {
      var other := s.stateHolder.value;
      if IsPending(s.threads[other]) {
        var n := SectionReleases(s, other);
        TimesIs(Advance(other), n);
        steps := Times(Advance(other), n);
      } else {
        assert s.threads[other] in {LockMarked, UnlockLeaving};
        var s1 := Apply(s, Advance(other));
        UnlockAlone(s1, tid);
        TimesIs(Advance(tid), 6);
        RunCons(s, Advance(other), Times(Advance(tid), 6));
        steps := [Advance(other)] + Times(Advance(tid), 6);
      }
    }
  }

  lemma {:induction false} TimesIs(step: Step, n: nat)
    ensures forall k :: 0 <= k < n ==> Times(step, n)[k] == step
  {
    if n == 0 {
    } else {
      TimesIs(step, n - 1);
    }
  }

  /** Whatever happens next, short of a new `unlock` and of the lock's own timer, the lock stays held. */
  ghost predicate StaysHeld(s: State) {
    forall steps :: IsUndisturbed(s.timer, steps) ==> Run(s, steps).held
  }

  /**
   Main theorem: in any reachable state the holder of a recorded lock keeps it, until somebody calls `unlock`
   or the lock's own timer fires, exactly if no earlier `unlock` or fired timer is still pending.
   */
  lemma HolderIsSafeExactlyWithoutPendingUnlock(steps: seq<Step>)
    requires Run(INIT, steps).isLocked
    ensures StaysHeld(Run(INIT, steps)) <==> !HasPending(Run(INIT, steps))
  {
    RunKeepsTimerInv(INIT, steps);
    var s := Run(INIT, steps);
    if HasPending(s) {
      var t :| t in s.threads && IsPending(s.threads[t]);
      var release := PendingReleases(s, t);
      assert IsUndisturbed(s.timer, release) && !Run(s, release).held;
    } else {
      forall more | IsUndisturbed(s.timer, more)
        ensures Run(s, more).held
      {
        SafeHolderKeepsTheLock(s, more, s.timer);
      }
    }
  }

  // ---------------------------------------------------------------- what the steps are

  /** The runtime's error comes exactly with the release of a mutex that nobody holds, and stays. */
  lemma OnlyAFreeReleaseCrashes(s: State, step: Step)
    ensures Apply(s, step).crashed <==>
            s.crashed || (step.Advance? && step.tid in s.threads && s.threads[step.tid] == UnlockReleasing && !s.held)
  {
  }

  /** Timers get new numbers. */
  ghost predicate NumbersAreNew(s: State) {
    forall id :: id in s.armed ==> id < s.nextTimer
  }

  lemma {:induction false} RunKeepsNumbers(s: State, steps: seq<Step>)
    requires NumbersAreNew(s)
    ensures NumbersAreNew(Run(s, steps))
    decreases |steps|
  {
    if steps == [] {
    } else {
      RunKeepsNumbers(Apply(s, steps[0]), steps[1..]);
    }
  }

  lemma {:induction false} ASpentTimerStaysSpent(s: State, steps: seq<Step>, timerId: TimerId)
    requires timerId !in s.armed && timerId < s.nextTimer
    ensures timerId !in Run(s, steps).armed
    decreases |steps|
  {
    if steps == [] {
    } else {
      ASpentTimerStaysSpent(Apply(s, steps[0]), steps[1..], timerId);
    }
  }

  /** A timer starts one unlock call when it fires, and never fires again. */
  lemma ATimerFiresOnce(before: seq<Step>, timerId: TimerId, tid: Tid, after: seq<Step>, later: Tid)
    requires var s := Run(INIT, before); timerId in s.armed && tid !in s.threads
    ensures var s := Run(INIT, before);
            var fired := Apply(s, Fire(timerId, tid));
            && tid in fired.threads && fired.threads[tid] == UnlockWaiting
            && Apply(Run(fired, after), Fire(timerId, later)) == Run(fired, after)
  {
    RunKeepsNumbers(INIT, before);
    ASpentTimerStaysSpent(Apply(Run(INIT, before), Fire(timerId, tid)), after, timerId);
  }
}
