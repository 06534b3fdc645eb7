/**
 * hpt_flush_vdev and hpt_flush_done (osm/linux/osm_linux.c): one command flushes a device and, when
 * the device is an array under transform, is redirected by its own completion callback to the
 * transform target before the caller may return.
 */
module FlushHandshake {
  import opened Collections
  import opened SemaphoreWait

  /** The fields of a vdev that a flush looks at. */
  datatype Transform = Transform(source: nat, target: nat)
  datatype Vdev = Vdev(isArray: bool, transform: Option<Transform>, cmdsPerRequest: nat)

  type Topology = map<nat, Vdev>

  /** Where the callback sends the command next. */
  function NextStage(vdevs: Topology, d: nat): Option<nat>
  {
    if d in vdevs && vdevs[d].isArray && vdevs[d].transform.Some? && d != vdevs[d].transform.value.target then
      Some(vdevs[d].transform.value.target)
    else None
  }

  /** Each of these devices redirects to the next. */
  ghost predicate IsPath(vdevs: Topology, d: nat, path: seq<nat>)
  {
    && (path != [] ==> path[0] == d)
    && forall i :: 0 < i < |path| ==> NextStage(vdevs, path[i - 1]) == Some(path[i])
  }

  /** The devices a flush of d has to visit: the whole chain of transform targets. */
  ghost predicate IsChain(vdevs: Topology, d: nat, stages: seq<nat>)
  {
    && stages != [] && IsPath(vdevs, d, stages)
    && NextStage(vdevs, stages[|stages| - 1]) == None
  }

  /** There is at most one way to go on. */
  lemma {:induction false} PathIsPrefix(vdevs: Topology, d: nat, path: seq<nat>, stages: seq<nat>)
    requires IsPath(vdevs, d, path) && IsChain(vdevs, d, stages)
    ensures |path| <= |stages| && path == stages[..|path|]
  {
    if path != [] {
      var init, n := path[..|path| - 1], |path| - 1;
      assert IsPath(vdevs, d, init);
      PathIsPrefix(vdevs, d, init, stages);
      if n > 0 {
        assert init[n - 1] == path[n - 1] == stages[n - 1];
        assert NextStage(vdevs, path[n - 1]) == Some(path[n]);
      }
    }
  }

  lemma ChainIsUnique(vdevs: Topology, d: nat, stages: seq<nat>, other: seq<nat>)
    requires IsChain(vdevs, d, stages) && IsChain(vdevs, d, other)
    ensures stages == other
  {
    PathIsPrefix(vdevs, d, stages, other);
    PathIsPrefix(vdevs, d, other, stages);
  }

  /** What is flushed for a device that no transform, or only a simple one, concerns. */
  lemma UsualChains(vdevs: Topology, d: nat)
    requires d in vdevs
    ensures !vdevs[d].isArray || vdevs[d].transform.None? ==> IsChain(vdevs, d, [d])
    ensures vdevs[d].isArray && vdevs[d].transform.Some? && d == vdevs[d].transform.value.target ==>
              IsChain(vdevs, d, [d])
    ensures var t := vdevs[d].transform;
            vdevs[d].isArray && t.Some? && d != t.value.target
            && (t.value.target in vdevs ==> vdevs[t.value.target].transform in {None, t}) ==>
              IsChain(vdevs, d, [d, t.value.target])
  {
  }

  // ----- how many commands are reserved

  /** The source and the target of every transform are there. */
  ghost predicate Named(vdevs: Topology)
  {
    forall d :: d in vdevs && vdevs[d].transform.Some? ==>
      vdevs[d].transform.value.source in vdevs && vdevs[d].transform.value.target in vdevs
  }

  /** e is the source or the target of d's transform. */
  predicate Transforms(vdevs: Topology, d: nat, e: nat)
  {
    && d in vdevs && vdevs[d].isArray && vdevs[d].transform.Some?
    && e in {vdevs[d].transform.value.source, vdevs[d].transform.value.target}
  }

  /** No more than one of the devices concerned needs. */
  function CommandCount(vdevs: Topology, d: nat): (n: nat)
    requires Named(vdevs) && d in vdevs
    ensures exists e :: e in vdevs && n == vdevs[e].cmdsPerRequest && (e == d || Transforms(vdevs, d, e))
  {
    if vdevs[d].isArray && vdevs[d].transform.Some? then
      var s, t := vdevs[vdevs[d].transform.value.source], vdevs[vdevs[d].transform.value.target];
      assert Transforms(vdevs, d, vdevs[d].transform.value.source);
      assert Transforms(vdevs, d, vdevs[d].transform.value.target);
      if s.cmdsPerRequest > t.cmdsPerRequest then s.cmdsPerRequest else t.cmdsPerRequest
    else vdevs[d].cmdsPerRequest
  }

  /** The commands reserved up front are enough for this stage. */
  predicate Covered(vdevs: Topology, d: nat, stage: nat)
    requires Named(vdevs) && d in vdevs
  {
    stage in vdevs && vdevs[stage].cmdsPerRequest <= CommandCount(vdevs, d)
  }

  /**
   * The reservation looks at the device's own transform only: the second stage is always covered, and
   * so is a device that is done after the first. It is enough for the whole chain if and only if it
   * covers the device itself and the stages from the third on.
   */
  lemma CountCoversIff(vdevs: Topology, d: nat, stages: seq<nat>)
    requires Named(vdevs) && d in vdevs && IsChain(vdevs, d, stages)
    ensures |stages| == 1 ==> Covered(vdevs, d, d)
    ensures |stages| > 1 ==> Covered(vdevs, d, stages[1])
    ensures (forall i :: 0 <= i < |stages| ==> Covered(vdevs, d, stages[i])) <==>
              Covered(vdevs, d, d) && forall i :: 2 <= i < |stages| ==> Covered(vdevs, d, stages[i])
  {
    assert |stages| > 1 ==> NextStage(vdevs, stages[0]) == Some(stages[1]);
    if Covered(vdevs, d, d) && forall i :: 2 <= i < |stages| ==> Covered(vdevs, d, stages[i]) {
      forall i | 0 <= i < |stages|
        ensures Covered(vdevs, d, stages[i])
      {
        if i < 2 {
          assert i == 0 || i == 1;
        }
      }
    } else {
      assert Covered(vdevs, d, stages[0]) <==> Covered(vdevs, d, d);
    }
  }

  /** A device under transform is its source or its target, and the target is not transformed further. */
  ghost predicate Simple(vdevs: Topology, d: nat)
    requires d in vdevs
  {
    vdevs[d].isArray && vdevs[d].transform.Some? ==>
      var t := vdevs[d].transform.value;
      (d == t.source || d == t.target) && NextStage(vdevs, t.target) == None
  }

  /** Then there are at most two stages, and the commands are enough for both. */
  lemma CountCoversStages(vdevs: Topology, d: nat, stages: seq<nat>)
    requires Named(vdevs) && d in vdevs && Simple(vdevs, d) && IsChain(vdevs, d, stages)
    ensures |stages| <= 2
    ensures forall i :: 0 <= i < |stages| ==> Covered(vdevs, d, stages[i])
  {
    match NextStage(vdevs, d) {
      case None => ChainIsUnique(vdevs, d, stages, [d]);
      case Some(t) => ChainIsUnique(vdevs, d, stages, [d, t]);
    }
    CountCoversIff(vdevs, d, stages);
  }

  /** Without that it may fall short: the third device of this chain needs more commands. */
  lemma ThirdStageFallsShort() returns (vdevs: Topology)
    ensures vdevs == map[0 := Vdev(true, Some(Transform(0, 1)), 1), 1 := Vdev(true, Some(Transform(1, 2)), 1),
                         2 := Vdev(true, None, 5)]
    ensures Named(vdevs) && IsChain(vdevs, 0, [0, 1, 2]) && !Covered(vdevs, 0, 2)
  {
    vdevs := map[0 := Vdev(true, Some(Transform(0, 1)), 1), 1 := Vdev(true, Some(Transform(1, 2)), 1),
                 2 := Vdev(true, None, 5)];
  }

  // ----- the protocol

  datatype Status = Pending | Success | Failure

  /** One finished flush of one device. */
  datatype Flushed = Flushed(vdev: nat, ok: bool)

  /**
   * status and target are the command's; held from ldm_alloc_cmds to ldm_free_cmds, queued while LDM owns
   * the command, mid between LDM storing the result and the end of the callback. The rest is a record:
   * what was flushed, how often the
   * callback did up(sem), and what the call returned.
   */
  datatype State = State(w: Waiter, status: Status, target: nat, held: bool, queued: bool, mid: bool,
                         log: seq<Flushed>, ups: nat, result: Option<int>)

  function Initial(d: nat): State
  {
    State(FRESH, Pending, d, false, false, false, [], 0, None)
  }

  datatype Event =
    | NoCommand               // ldm_alloc_cmds fails
    | CallerStep
    | Env(outside: Outside)
    | Finish(ok: bool)        // LDM stores a result and calls the callback
    | Callback                // hpt_flush_done

  function Next(vdevs: Topology, s: State, e: Event): Option<State>
  {
    match e
    case NoCommand =>
      if s.w.pc == Start && s.w.lock == Nobody then
        Some(s.(w := s.w.(pc := Done), result := Some(-1)))
      else None
    case CallerStep =>
      if s.mid && s.w.lock == Caller then None
      else
        var m := Move(s.w, s.status == Pending);
        if m.None? then None
        else if s.w.pc == Start then Some(s.(w := m.value, held := true, queued := true))
        else if s.w.pc == Leave then
          Some(s.(w := m.value, held := false, result := Some(if s.status == Success then 0 else -1)))
        else Some(s.(w := m.value))
    case Env(o) =>
      if o == Release && s.mid then None
      else
        var d := Disturb(s.w, o);
        if d.Some? then Some(s.(w := d.value)) else None
    case Finish(ok) =>
      if s.queued && InLdm(s.w) then
        Some(s.(status := if ok then Success else Failure, queued := false, mid := true,
                log := s.log + [Flushed(s.target, ok)]))
      else None
    case Callback =>
      if !s.mid then None
      else
        match NextStage(vdevs, s.target)
        case Some(t) => Some(s.(target := t, status := Pending, queued := true, mid := false))
        case None => Some(s.(w := s.w.(sem := s.w.sem + 1), ups := s.ups + 1, mid := false))
  }

  function Run(vdevs: Topology, s: State, events: seq<Event>): Option<State>
  {
    if events == [] then Some(s) else
      var before := Run(vdevs, s, events[..|events| - 1]);
      if before.Some? then Next(vdevs, before.value, events[|events| - 1]) else None
  }

  ghost predicate Reachable(vdevs: Topology, d: nat, s: State)
  {
    exists events :: Run(vdevs, Initial(d), events) == Some(s)
  }

  predicate Refused(s: State) { s.result == Some(-1) && s.log == [] }

  function Devices(log: seq<Flushed>): (path: seq<nat>)
    ensures |path| == |log|
  {
    seq(|log|, i requires 0 <= i < |log| => log[i].vdev)
  }

  /** The device before which the flush stands, and the ones behind it, are a path of redirections. */
  ghost predicate LogIsPath(vdevs: Topology, d: nat, s: State)
  {
    var n := |s.log|;
    && IsPath(vdevs, d, Devices(s.log))
    && (if s.mid || s.ups == 1 then n > 0 && s.target == s.log[n - 1].vdev
        else if n == 0 then s.target == d
        else NextStage(vdevs, s.log[n - 1].vdev) == Some(s.target))
    && (s.ups == 1 ==> NextStage(vdevs, s.target) == None)
  }

  /** What the command says agrees with who owns it. */
  ghost predicate StatusAgrees(s: State)
  {
    && !(s.queued && s.mid)
    && s.ups <= 1
    && (s.ups == 1 ==> !s.queued && !s.mid)
    && (s.mid ==> InLdm(s.w))
    && (s.status == Pending <==> !s.mid && s.ups == 0)
    && (s.status != Pending ==> s.log != [] && (s.status == Success <==> s.log[|s.log| - 1].ok))
  }

  ghost predicate Inv(vdevs: Topology, d: nat, s: State)
  {
    && Consistent(s.w) && StatusAgrees(s) && LogIsPath(vdevs, d, s)
    && (s.w.pc == Start ==> !s.queued && !s.mid && s.log == [] && s.ups == 0)
    && (s.w.pc != Start && s.ups == 0 && !s.mid && !Refused(s) ==> s.queued)
    && (s.queued ==> s.w.pc != Start && s.w.pc != Done)
    && (s.w.pc == Leave ==> s.ups == 1)
    && (s.ups == 1 && AtWait(s.w.pc) ==> s.w.sem > 0)
    && (s.ups == 0 && BeforeSleep(s.w.pc) ==> s.w.sem == 0) && Counted(s.w, s.ups)
    && (s.result.Some? <==> s.w.pc == Done)
    && (s.held <==> s.w.pc != Start && s.w.pc != Done)
    && (s.w.pc == Done && !Refused(s) ==> s.ups == 1 && s.result == Some(if s.status == Success then 0 else -1))
  }

  lemma NextKeepsInv(vdevs: Topology, d: nat, s: State, e: Event)
    requires Inv(vdevs, d, s) && Next(vdevs, s, e).Some?
    ensures Inv(vdevs, d, Next(vdevs, s, e).value)
  {
    match e
    case CallerStep => CallerKeepsInv(vdevs, d, s);
    case Env(o) =>
    case NoCommand =>
    case Finish(ok) => FinishKeepsInv(vdevs, d, s, ok);
    case Callback =>
  }

  lemma CallerKeepsRecord(vdevs: Topology, d: nat, s: State)
    requires Inv(vdevs, d, s) && Next(vdevs, s, CallerStep).Some?
    ensures LogIsPath(vdevs, d, Next(vdevs, s, CallerStep).value)
    ensures StatusAgrees(Next(vdevs, s, CallerStep).value)
  {
    var t := Next(vdevs, s, CallerStep).value;
    assert t.log == s.log && t.target == s.target && t.mid == s.mid && t.ups == s.ups && t.status == s.status;
    hide Move, Consistent, NextStage, IsPath;
  }

  lemma CallerKeepsInv(vdevs: Topology, d: nat, s: State)
    requires Inv(vdevs, d, s) && Next(vdevs, s, CallerStep).Some?
    ensures Inv(vdevs, d, Next(vdevs, s, CallerStep).value)
  {
    CallerKeepsRecord(vdevs, d, s);
    hide LogIsPath, NextStage;
  }

  lemma FinishKeepsInv(vdevs: Topology, d: nat, s: State, ok: bool)
    requires Inv(vdevs, d, s) && Next(vdevs, s, Finish(ok)).Some?
    ensures Inv(vdevs, d, Next(vdevs, s, Finish(ok)).value)
  {
    hide NextStage;
    var t := Next(vdevs, s, Finish(ok)).value;
    assert Devices(t.log) == Devices(s.log) + [s.target];
  }

  lemma {:induction false} RunKeepsInv(vdevs: Topology, d: nat, s: State, events: seq<Event>)
    requires Inv(vdevs, d, s) && Run(vdevs, s, events).Some?
    ensures Inv(vdevs, d, Run(vdevs, s, events).value)
  {
    if events != [] {
      hide Inv, Next;
      RunKeepsInv(vdevs, d, s, events[..|events| - 1]);
      NextKeepsInv(vdevs, d, Run(vdevs, s, events[..|events| - 1]).value, events[|events| - 1]);
    }
  }

  lemma ReachableInv(vdevs: Topology, d: nat, s: State)
    requires Reachable(vdevs, d, s)
    ensures Inv(vdevs, d, s)
  {
    var events :| Run(vdevs, Initial(d), events) == Some(s);
    RunKeepsInv(vdevs, d, Initial(d), events);
  }

  /**
   * A call that was not refused returns only after the whole chain of targets was flushed, in order and
   * to its end, with exactly one up(sem); so it never returns from a cycle of transforms. It returns 0
   * if and only if the last stage succeeded.
   */
  lemma ReturnsAfterEveryStage(vdevs: Topology, d: nat, s: State)
    requires Reachable(vdevs, d, s)
    requires s.w.pc == Done && !Refused(s)
    ensures IsChain(vdevs, d, Devices(s.log)) && s.ups == 1 && s.w.sem <= 1
    ensures s.result == Some(0) <==> s.log[|s.log| - 1].ok
  {
    ReachableInv(vdevs, d, s);
  }

  /** The command is freed when the call returns, and never while LDM or the callback has it. */
  lemma CommandIsFreed(vdevs: Topology, d: nat, s: State)
    requires Reachable(vdevs, d, s)
    ensures s.w.pc == Done ==> !s.held
    ensures s.queued || s.mid ==> s.held
  {
    ReachableInv(vdevs, d, s);
  }

  /** On a finite chain the devices flushed are its first stages, and up(sem) comes after the last one. */
  lemma StagesInOrder(vdevs: Topology, d: nat, s: State, stages: seq<nat>)
    requires Reachable(vdevs, d, s) && IsChain(vdevs, d, stages)
    ensures |s.log| <= |stages| && Devices(s.log) == stages[..|s.log|]
    ensures s.ups == 1 <==> |s.log| == |stages| && !s.mid
  {
    ReachableInv(vdevs, d, s);
    hide Consistent, Move;
    PathIsPrefix(vdevs, d, Devices(s.log), stages);
    var n := |s.log|;
    if n > 0 {
      assert Devices(s.log)[n - 1] == stages[n - 1];
      assert n < |stages| ==> NextStage(vdevs, stages[n - 1]) == Some(stages[n]);
    }
  }

  /** The single wake-up of the callback is not lost, and a sleeping caller always has one to come. */
  lemma NoLostWakeup(vdevs: Topology, d: nat, s: State)
    requires Reachable(vdevs, d, s)
    ensures s.ups == 1 && AtWait(s.w.pc) ==> s.w.sem > 0
    ensures s.w.pc in {Sleep, SleepHard} ==> s.w.sem > 0 || s.w.armed
    ensures s.ups == 0 && s.w.pc in {Sleep, SleepHard} ==> s.queued || s.mid
  {
    ReachableInv(vdevs, d, s);
  }

  /**
   * A timeout is followed by a reset: a caller that finds the command pending has the lock and goes into
   * LDM with it, where the flush of the present stage can finish; the stale count of the timer is gone.
   */
  lemma TimeoutResets(vdevs: Topology, d: nat, s: State, ok: bool)
    requires Reachable(vdevs, d, s) && s.w.pc == Check && s.status == Pending
    ensures Next(vdevs, s, CallerStep).Some?
    ensures var t := Next(vdevs, s, CallerStep).value;
            InLdm(t.w) && t.w.lock == Caller && t.w.sem == 0 && Next(vdevs, t, Finish(ok)).Some?
  {
    ReachableInv(vdevs, d, s);
    hide LogIsPath;
  }

  /** While stages are left the caller does not spin: no count lets it pass without a sleep. */
  lemma UnfinishedSleeps(vdevs: Topology, d: nat, s: State)
    requires Reachable(vdevs, d, s) && s.ups == 0 && BeforeSleep(s.w.pc)
    ensures s.w.sem == 0
    ensures s.w.pc == Try ==> Next(vdevs, s, CallerStep) == Some(s.(w := s.w.(pc := Arm)))
  {
    ReachableInv(vdevs, d, s);
  }

  /** How many of the events are steps that the caller took at pc. */
  function StepsAt(vdevs: Topology, d: nat, events: seq<Event>, pc: Pc): nat
  {
    if events == [] then 0
    else
      var init := events[..|events| - 1];
      var before := Run(vdevs, Initial(d), init);
      StepsAt(vdevs, d, init, pc)
      + if events[|events| - 1] == CallerStep && before.Some? && before.value.w.pc == pc then 1 else 0
  }

  predicate Waiting(s: State) { InWait(s.w.pc) && !Refused(s) }

  /** Over any run: a call that was not refused resets the bus once between two waits, and not otherwise. */
  lemma {:induction false} WaitsFollowResets(vdevs: Topology, d: nat, events: seq<Event>)
    requires Run(vdevs, Initial(d), events).Some?
    ensures var s := Run(vdevs, Initial(d), events).value;
            StepsAt(vdevs, d, events, Unlock)
            == StepsAt(vdevs, d, events, Reset) + if Waiting(s) then 1 else 0
  {
    if events != [] {
      var init := events[..|events| - 1];
      WaitsFollowResets(vdevs, d, init);
      RunKeepsInv(vdevs, d, Initial(d), init);
      PcMoves(vdevs, d, Run(vdevs, Initial(d), init).value, events[|events| - 1]);
      hide Next, Inv, Waiting;
    }
  }

  lemma PcMoves(vdevs: Topology, d: nat, s: State, e: Event)
    requires Inv(vdevs, d, s) && Next(vdevs, s, e).Some?
    ensures e != CallerStep ==> (Waiting(Next(vdevs, s, e).value) <==> Waiting(s))
    ensures e == CallerStep ==>
              (Waiting(Next(vdevs, s, e).value) <==> s.w.pc == Unlock || (Waiting(s) && s.w.pc != Reset))
    ensures s.w.pc == Unlock ==> !Waiting(s)
    ensures s.w.pc == Reset ==> Waiting(s)
  {
    hide IsPath;
  }

  function CallerSteps(events: seq<Event>): nat
  {
    if events == [] then 0 else
      CallerSteps(events[..|events| - 1]) + if events[|events| - 1] == CallerStep then 1 else 0
  }

  /** Once the last stage is done the caller returns within ten steps of its own. */
  lemma {:induction false} ReturnsWithinTenSteps(vdevs: Topology, d: nat, s: State, events: seq<Event>)
    requires Reachable(vdevs, d, s)
    requires s.ups == 1 && Run(vdevs, s, events).Some?
    ensures Run(vdevs, s, events).value.ups == 1
    ensures CallerSteps(events) + Rank(Run(vdevs, s, events).value.w.pc) <= Rank(s.w.pc) <= 10
  {
    ReachableInv(vdevs, d, s);
    if events != [] {
      ReturnsWithinTenSteps(vdevs, d, s, events[..|events| - 1]);
      RunKeepsInv(vdevs, d, s, events[..|events| - 1]);
      StepLowersRank(vdevs, d, Run(vdevs, s, events[..|events| - 1]).value, events[|events| - 1]);
      hide Inv, Next, Rank;
    }
  }

  lemma StepLowersRank(vdevs: Topology, d: nat, s: State, e: Event)
    requires Inv(vdevs, d, s) && s.ups == 1 && Next(vdevs, s, e).Some?
    ensures Next(vdevs, s, e).value.ups == 1
    ensures Rank(Next(vdevs, s, e).value.w.pc) <= Rank(s.w.pc) - (if e == CallerStep then 1 else 0)
    ensures s.w.pc != Done && s.w.lock != Completer ==> Next(vdevs, s, CallerStep).Some?
  {
    hide LogIsPath;
  }

  /**
   * Result 0 tells that every stage was flushed if and only if the device has one stage: the callback
   * of an earlier stage overwrites its status.
   */
  lemma HonestIffOneStage(vdevs: Topology, d: nat, stages: seq<nat>)
    requires IsChain(vdevs, d, stages)
    ensures (forall s :: Reachable(vdevs, d, s) && s.w.pc == Done && s.result == Some(0) ==> AllFlushed(s.log))
            <==> |stages| == 1
    ensures |stages| == 1 <==> NextStage(vdevs, d) == None
  {
    assert stages != [] && (|stages| > 1 ==> NextStage(vdevs, stages[0]) == Some(stages[1]));
    hide Reachable, IsChain, IsPath, NextStage;
    if |stages| == 1 {
      forall s | Reachable(vdevs, d, s) && s.w.pc == Done && s.result == Some(0)
        ensures AllFlushed(s.log)
      {
        ReturnsAfterEveryStage(vdevs, d, s);
        StagesInOrder(vdevs, d, s, stages);
      }
    } else {
      var s := FailureIsHidden(vdevs, d, stages);
      assert !s.log[0].ok;
    }
  }

  ghost predicate AllFlushed(log: seq<Flushed>)
  {
    forall i :: 0 <= i < |log| ==> log[i].ok
  }

  /** LDM holds the command for the target, and the caller is still in the submitting call. */
  function AtStage(target: nat, log: seq<Flushed>): State
  {
    State(Waiter(Submit, Caller, 0, false), Pending, target, true, true, false, log, 0, None)
  }

  lemma SubmitRun(vdevs: Topology, d: nat) returns (events: seq<Event>)
    ensures Run(vdevs, Initial(d), events) == Some(AtStage(d, []))
  {
    hide Run;
    RunNothing(vdevs, Initial(d));
    var s;
    events, s := Extend(vdevs, d, [], Initial(d), CallerStep);
  }

  /** One stage, up to the redirect to the next. */
  lemma StageRun(vdevs: Topology, d: nat, events: seq<Event>, target: nat, log: seq<Flushed>, ok: bool, next: nat)
      returns (events': seq<Event>)
    requires Run(vdevs, Initial(d), events) == Some(AtStage(target, log))
    requires NextStage(vdevs, target) == Some(next)
    ensures Run(vdevs, Initial(d), events') == Some(AtStage(next, log + [Flushed(target, ok)]))
  {
    hide Run, NextStage;
    var s';
    events', s' := Extend(vdevs, d, events, AtStage(target, log), Finish(ok));
    events', s' := Extend(vdevs, d, events', s', Callback);
  }

  /** The stages before the k-th: the first fails, the others do not. */
  lemma {:induction false} StagesRun(vdevs: Topology, d: nat, stages: seq<nat>, k: nat)
      returns (events: seq<Event>, log: seq<Flushed>)
    requires IsPath(vdevs, d, stages) && k < |stages|
    ensures Run(vdevs, Initial(d), events) == Some(AtStage(stages[k], log))
    ensures |log| == k && forall i :: 0 <= i < k ==> log[i] == Flushed(stages[i], i > 0)
  {
    if k == 0 {
      hide *;
      log := [];
      events := SubmitRun(vdevs, d);
    } else {
      assert NextStage(vdevs, stages[k - 1]) == Some(stages[k]);
      hide Run, NextStage, AtStage, IsPath;
      events, log := StagesRun(vdevs, d, stages, k - 1);
      events := StageRun(vdevs, d, events, stages[k - 1], log, k - 1 > 0, stages[k]);
      log := log + [Flushed(stages[k - 1], k - 1 > 0)];
    }
  }

  /** On any device with a second stage, a failing first flush before good ones is reported as success. */
  lemma FailureIsHidden(vdevs: Topology, d: nat, stages: seq<nat>) returns (s: State)
    requires IsChain(vdevs, d, stages) && |stages| > 1
    ensures Reachable(vdevs, d, s) && s.w.pc == Done && s.result == Some(0)
    ensures |s.log| == |stages| && forall i :: 0 <= i < |stages| ==> s.log[i] == Flushed(stages[i], i > 0)
  {
    var last := |stages| - 1;
    assert NextStage(vdevs, stages[last]) == None && IsPath(vdevs, d, stages);
    hide Run, NextStage, AtStage, IsChain, IsPath;
    var events, log := StagesRun(vdevs, d, stages, last);
    events, s := LastStageRun(vdevs, d, events, stages[last], log);
    assert Reachable(vdevs, d, s);
  }

  lemma LastStageRun(vdevs: Topology, d: nat, events: seq<Event>, target: nat, log: seq<Flushed>)
      returns (events': seq<Event>, s': State)
    requires Run(vdevs, Initial(d), events) == Some(AtStage(target, log)) && NextStage(vdevs, target) == None
    ensures Run(vdevs, Initial(d), events') == Some(s')
    ensures s'.w.pc == Done && s'.result == Some(0) && s'.log == log + [Flushed(target, true)]
  {
    hide Run, NextStage;
    events', s' := Extend(vdevs, d, events, AtStage(target, log), Finish(true));
    events', s' := Extend(vdevs, d, events', s', Callback);
    events', s' := Walk(vdevs, d, events', s');
  }

  lemma RunNothing(vdevs: Topology, s: State)
    ensures Run(vdevs, s, []) == Some(s)
  {
  }

  lemma Extend(vdevs: Topology, d: nat, events: seq<Event>, s: State, e: Event)
      returns (events': seq<Event>, s': State)
    requires Run(vdevs, Initial(d), events) == Some(s) && Next(vdevs, s, e).Some?
    ensures events' == events + [e] && Next(vdevs, s, e) == Some(s')
    ensures Run(vdevs, Initial(d), events') == Some(s')
  {
    events', s' := events + [e], Next(vdevs, s, e).value;
    assert events'[..|events'| - 1] == events;
  }

  /** The way out from the submitting call once the last stage is done. */
  lemma Walk(vdevs: Topology, d: nat, events: seq<Event>, s: State) returns (events': seq<Event>, s': State)
    requires s.w == Waiter(Submit, Caller, 1, false) && s.status == Success && !s.mid
    requires Run(vdevs, Initial(d), events) == Some(s)
    ensures Run(vdevs, Initial(d), events') == Some(s')
    ensures s' == s.(w := Waiter(Done, Nobody, 0, false), held := false, result := Some(0))
  {
    hide Run;
    events', s' := CallerMoves(vdevs, d, events, s, s.w.(pc := Unlock));
    events', s' := CallerMoves(vdevs, d, events', s', Waiter(Try, Nobody, 1, false));
    events', s' := CallerMoves(vdevs, d, events', s', Waiter(Relock, Nobody, 0, false));
    events', s' := CallerMoves(vdevs, d, events', s', Waiter(Check, Caller, 0, false));
    events', s' := CallerMoves(vdevs, d, events', s', Waiter(Leave, Caller, 0, false));
    events', s' := Extend(vdevs, d, events', s', CallerStep);
  }

  lemma CallerMoves(vdevs: Topology, d: nat, events: seq<Event>, s: State, w: Waiter)
      returns (events': seq<Event>, s': State)
    requires Run(vdevs, Initial(d), events) == Some(s) && !s.mid && s.w.pc != Start && s.w.pc != Leave
    requires Move(s.w, s.status == Pending) == Some(w)
    ensures Run(vdevs, Initial(d), events') == Some(s') && s' == s.(w := w)
  {
    hide Run;
    events', s' := Extend(vdevs, d, events, s, CallerStep);
  }
}
