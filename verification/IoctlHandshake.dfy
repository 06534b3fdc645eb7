/**
 * __hpt_do_ioctl with its completion callback and its timer (osm/linux/osm_linux.c): every
 * interleaving of the caller, a completer that holds the vbus lock, and a timer that does not.
 */
module IoctlHandshake {
  import opened Collections
  import opened SemaphoreWait

  /**
   * cmnd is `ioctl_cmnd != 0`; calls counts the runs of hpt_ioctl_done, and mid is set between its
   * two statements.
   */
  datatype State = State(w: Waiter, cmnd: bool, calls: nat, mid: bool)

  const INITIAL := State(FRESH, true, 0, false)

  datatype Event =
    | CallerStep
    | Env(outside: Outside)
    | DoneUp        // hpt_ioctl_done: up(sem)
    | DoneClear     // hpt_ioctl_done: ioctl_cmnd = 0

  /** LDM calls done at most once for a submission, and finishes the call before giving up the lock. */
  function Next(s: State, e: Event): Option<State>
  {
    match e
    case CallerStep =>
      if s.mid && InLdm(s.w) && s.w.lock == Caller then None
      else
        var m := Move(s.w, s.cmnd);
        if m.Some? then Some(s.(w := m.value)) else None
    case Env(o) =>
      if o == Release && s.mid then None
      else
        var d := Disturb(s.w, o);
        if d.Some? then Some(s.(w := d.value)) else None
    case DoneUp =>
      if InLdm(s.w) && s.w.pc != Start && s.calls == 0 then
        Some(s.(w := s.w.(sem := s.w.sem + 1), calls := 1, mid := true))
      else None
    case DoneClear =>
      if s.mid then Some(s.(cmnd := false, mid := false)) else None
  }

  /** The state after a sequence of events, if each of them was possible. */
  function Run(s: State, events: seq<Event>): Option<State>
  {
    if events == [] then Some(s) else
      var before := Run(s, events[..|events| - 1]);
      if before.Some? then Next(before.value, events[|events| - 1]) else None
  }

  ghost predicate Reachable(s: State)
  {
    exists events :: Run(INITIAL, events) == Some(s)
  }

  /** hpt_ioctl_done has run to its end. */
  predicate Finished(s: State) { s.calls == 1 && !s.mid }

  ghost predicate Inv(s: State)
  {
    && Consistent(s.w)
    && s.calls <= 1
    && (s.cmnd <==> !Finished(s))
    && (s.mid ==> s.calls == 1 && InLdm(s.w))
    && (s.w.pc == Start ==> s.calls == 0)
    && (s.w.pc in {Leave, Done} ==> Finished(s))
    && (s.calls == 1 && AtWait(s.w.pc) ==> s.w.sem > 0)
    && (s.calls == 0 && BeforeSleep(s.w.pc) ==> s.w.sem == 0) && Counted(s.w, s.calls)
  }

  lemma NextKeepsInv(s: State, e: Event)
    requires Inv(s) && Next(s, e).Some?
    ensures Inv(Next(s, e).value)
  {
  }

  lemma {:induction false} RunKeepsInv(s: State, events: seq<Event>)
    requires Inv(s) && Run(s, events).Some?
    ensures Inv(Run(s, events).value)
  {
    if events != [] {
      hide Inv, Next;
      RunKeepsInv(s, events[..|events| - 1]);
      NextKeepsInv(Run(s, events[..|events| - 1]).value, events[|events| - 1]);
    }
  }

  lemma ReachableInv(s: State)
    requires Reachable(s)
    ensures Inv(s)
  {
    var events :| Run(INITIAL, events) == Some(s);
    RunKeepsInv(INITIAL, events);
  }

  /** The call returns only after its completion callback ran to the end, and exactly once. */
  lemma ReturnsOnlyAfterDone(s: State)
    requires Reachable(s) && s.w.pc == Done
    ensures s.calls == 1 && !s.mid && !s.cmnd && s.w.sem <= 1
  {
    ReachableInv(s);
  }

  /** After the return nobody touches the semaphore or the argument in the caller's dead frame. */
  lemma {:induction false} FrameStaysDead(s: State, events: seq<Event>)
    requires Reachable(s) && s.w.pc == Done && Run(s, events).Some?
    ensures var t := Run(s, events).value;
            t.w.pc == Done && t.w.sem == s.w.sem && t.cmnd == s.cmnd && t.calls == s.calls && !t.w.armed && !t.mid
  {
    ReachableInv(s);
    if events != [] {
      FrameStaysDead(s, events[..|events| - 1]);
    }
  }

  /**
   * No wake-up is lost, although the semaphore is reset after each timeout and the timer may add
   * counts of its own: once the callback has run, a caller still before its sleep can pass it, and
   * until then a sleeping caller is woken by the timer at the latest.
   */
  lemma NoLostWakeup(s: State)
    requires Reachable(s)
    ensures s.calls == 1 && AtWait(s.w.pc) ==> s.w.sem > 0
    ensures s.w.pc in {Sleep, SleepHard} ==> s.w.sem > 0 || s.w.armed
  {
    ReachableInv(s);
  }

  /**
   * A timeout is followed by a reset: a caller that finds the request pending has the lock and goes into
   * LDM with it, where the request can complete; the stale count of the timer is gone.
   */
  lemma TimeoutResets(s: State)
    requires Reachable(s) && s.w.pc == Check && s.cmnd
    ensures Next(s, CallerStep).Some?
    ensures var t := Next(s, CallerStep).value;
            InLdm(t.w) && t.w.lock == Caller && t.w.sem == 0 && Next(t, DoneUp).Some?
  {
    ReachableInv(s);
  }

  /** While the request is unfinished the caller does not spin: no count lets it pass without a sleep. */
  lemma UnfinishedSleeps(s: State)
    requires Reachable(s) && s.calls == 0 && BeforeSleep(s.w.pc)
    ensures s.w.sem == 0
    ensures s.w.pc == Try ==> Next(s, CallerStep) == Some(s.(w := s.w.(pc := Arm)))
  {
    ReachableInv(s);
  }

  /** How many of the events are steps that the caller took at pc. */
  function StepsAt(events: seq<Event>, pc: Pc): nat
  {
    if events == [] then 0
    else
      var init := events[..|events| - 1];
      StepsAt(init, pc) + if events[|events| - 1] == CallerStep && Run(INITIAL, init).Some?
                             && Run(INITIAL, init).value.w.pc == pc then 1 else 0
  }

  /**
   * Over any run: between two waits the bus was reset once, so every wait after the first is preceded
   * by a reset of its own, and there is no other reset.
   */
  lemma {:induction false} WaitsFollowResets(events: seq<Event>)
    requires Run(INITIAL, events).Some?
    ensures StepsAt(events, Unlock)
            == StepsAt(events, Reset) + if InWait(Run(INITIAL, events).value.w.pc) then 1 else 0
  {
    if events != [] {
      var init := events[..|events| - 1];
      WaitsFollowResets(init);
      RunKeepsInv(INITIAL, init);
      PcMoves(Run(INITIAL, init).value, events[|events| - 1]);
      hide Next, Inv;
    }
  }

  lemma PcMoves(s: State, e: Event)
    requires Inv(s) && Next(s, e).Some?
    ensures e != CallerStep ==> (InWait(Next(s, e).value.w.pc) <==> InWait(s.w.pc))
    ensures e == CallerStep ==>
              (InWait(Next(s, e).value.w.pc) <==> s.w.pc == Unlock || (InWait(s.w.pc) && s.w.pc != Reset))
  {
  }

  /** Once finished, a caller that is not blocked by the completer's lock can always step. */
  lemma FinishedCallerMoves(s: State)
    requires Reachable(s) && Finished(s) && s.w.pc != Done && s.w.lock != Completer
    ensures Next(s, CallerStep).Some?
  {
    ReachableInv(s);
  }

  function CallerSteps(events: seq<Event>): nat
  {
    if events == [] then 0 else
      CallerSteps(events[..|events| - 1]) + if events[|events| - 1] == CallerStep then 1 else 0
  }

  /** Once finished, the caller returns within ten steps of its own, whatever happens in between. */
  lemma {:induction false} ReturnsWithinTenSteps(s: State, events: seq<Event>)
    requires Reachable(s) && Finished(s) && Run(s, events).Some?
    ensures CallerSteps(events) + Rank(Run(s, events).value.w.pc) <= Rank(s.w.pc) <= 10
    ensures Finished(Run(s, events).value)
  {
    ReachableInv(s);
    if events != [] {
      ReturnsWithinTenSteps(s, events[..|events| - 1]);
      RunKeepsInv(s, events[..|events| - 1]);
      StepLowersRank(Run(s, events[..|events| - 1]).value, events[|events| - 1]);
      hide Inv, Next, Rank;
    }
  }

  lemma StepLowersRank(s: State, e: Event)
    requires Inv(s) && Finished(s) && Next(s, e).Some?
    ensures Finished(Next(s, e).value)
    ensures Rank(Next(s, e).value.w.pc) <= Rank(s.w.pc) - (if e == CallerStep then 1 else 0)
  {
  }
}
