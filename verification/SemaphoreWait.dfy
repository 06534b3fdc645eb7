/**
 * The waiting half shared by __hpt_do_ioctl and hpt_flush_vdev (osm/linux/osm_linux.c): a caller
 * sleeps on a semaphore of its own stack frame, with a 20 second timer that does not take the
 * vbus lock. Each step below is one access to shared state.
 */
module SemaphoreWait {
  import opened Collections

  datatype Pc =
    | Start       // before the lock is taken
    | Submit      // lock held, inside the LDM call that starts the request
    | Unlock      // label wait
    | Try         // down_trylock
    | Arm         // add_timer
    | Sleep       // down_interruptible
    | SleepHard   // down, after a signal
    | Disarm      // del_timer, assumed to wait for a running handler
    | Relock
    | Check       // is the request still pending?
    | Reset       // lock held, inside ldm_reset_vbus and the task drain
    | Leave
    | Done

  datatype Owner = Nobody | Caller | Completer

  /** The caller, the lock, the semaphore count and whether the timer is pending. */
  datatype Waiter = Waiter(pc: Pc, lock: Owner, sem: nat, armed: bool)

  /** sema_init(&sem, 0), nothing started. */
  const FRESH := Waiter(Start, Nobody, 0, false)

  /** One step of the caller, if it can take one; `pending` is what it reads at Check. */
  function Move(w: Waiter, pending: bool): Option<Waiter>
  {
    match w.pc
    case Start => if w.lock == Nobody then Some(w.(pc := Submit, lock := Caller)) else None
    case Submit => Some(w.(pc := Unlock))
    case Unlock => Some(w.(pc := Try, lock := Nobody))
    case Try => if w.sem > 0 then Some(w.(pc := Relock, sem := w.sem - 1)) else Some(w.(pc := Arm))
    case Arm => Some(w.(pc := Sleep, armed := true))
    case Sleep => if w.sem > 0 then Some(w.(pc := Disarm, sem := w.sem - 1)) else None
    case SleepHard => if w.sem > 0 then Some(w.(pc := Disarm, sem := w.sem - 1)) else None
    case Disarm => Some(w.(pc := Relock, armed := false))
    case Relock => if w.lock == Nobody then Some(w.(pc := Check, lock := Caller)) else None
    case Check => if pending then Some(w.(pc := Reset, sem := 0)) else Some(w.(pc := Leave))
    case Reset => Some(w.(pc := Unlock))
    case Leave => Some(w.(pc := Done, lock := Nobody))
    case Done => None
  }

  /** What the surroundings do without touching the request. */
  datatype Outside = Signal | TimerFires | Grab | Release

  function Disturb(w: Waiter, o: Outside): Option<Waiter>
  {
    match o
    case Signal => if w.pc == Sleep then Some(w.(pc := SleepHard)) else None
    case TimerFires => if w.armed then Some(w.(sem := w.sem + 1, armed := false)) else None
    case Grab => if w.lock == Nobody then Some(w.(lock := Completer)) else None
    case Release => if w.lock == Completer then Some(w.(lock := Nobody)) else None
  }

  /** LDM code runs under the lock: in the completer, or in a call the caller made. */
  predicate InLdm(w: Waiter)
  {
    w.lock == Completer || w.pc == Submit || w.pc == Reset
  }

  predicate HoldsLock(pc: Pc) { pc in {Submit, Unlock, Check, Reset, Leave} }

  predicate AtWait(pc: Pc) { pc in {Submit, Reset, Unlock, Try, Arm, Sleep, SleepHard} }

  /** Where an unfinished request leaves no wake-up behind, so that the caller does go to sleep. */
  predicate BeforeSleep(pc: Pc) { pc in {Start, Submit, Reset, Unlock, Try, Arm} }

  /** A wait has begun for which the bus has not been reset. */
  predicate InWait(pc: Pc) { pc !in {Start, Submit, Unlock} }

  /** Each down takes a count: besides those of the request at most the one of the present timer is left. */
  ghost predicate Counted(w: Waiter, ups: nat)
  {
    w.sem + (if w.armed then 1 else 0) <= ups + if w.pc in {Sleep, SleepHard} then 1 else 0
  }

  /**
   * The part of the invariant that does not depend on the request: a sleeping caller has its timer
   * pending or a wake-up already counted, and no timer outlives the sleep it was armed for.
   */
  ghost predicate Consistent(w: Waiter)
  {
    && (w.lock == Caller <==> HoldsLock(w.pc))
    && (w.armed ==> w.pc in {Sleep, SleepHard, Disarm})
    && (w.pc in {Sleep, SleepHard} && !w.armed ==> w.sem > 0)
  }

  /** An upper bound on the steps a caller still takes once its request has finished. */
  function Rank(pc: Pc): nat
  {
    match pc
    case Start => 11
    case Submit => 10
    case Reset => 10
    case Unlock => 9
    case Try => 8
    case Arm => 7
    case Sleep => 6
    case SleepHard => 6
    case Disarm => 4
    case Relock => 3
    case Check => 2
    case Leave => 1
    case Done => 0
  }
}
