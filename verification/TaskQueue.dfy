/**
 * Deferred tasks: os_schedule_task (osm/linux/os_linux.c) links a task at the end of the vbus's
 * list, __hpt_do_tasks (osm/linux/osm_linux.c) detaches the list and runs it.
 */
module TaskQueue {
  import opened Collections

  /** OSM_TASK; the callback and its argument are identified with the object. */
  class OsmTask {
    var next: OsmTask?

    constructor ()
      ensures next == null
    {
      next := null;
    }
  }

  ghost predicate Within<T>(s: seq<T>, nodes: set<T>)
  {
    forall i :: 0 <= i < |s| ==> s[i] in nodes
  }

  lemma WithinTail<T>(s: seq<T>, nodes: set<T>)
    requires s != [] && Within(s, nodes)
    ensures Within(s[1..], nodes)
  {
  }

  function Successor(s: seq<OsmTask>, i: nat): OsmTask?
  {
    if i + 1 < |s| then s[i + 1] else null
  }

  /** The tasks form a null-terminated chain in this order. */
  ghost predicate Chained(s: seq<OsmTask>)
    reads s
  {
    && Distinct(s)
    && forall i :: 0 <= i < |s| ==> s[i].next == Successor(s, i)
  }

  ghost predicate Disjoint<T>(a: seq<T>, b: seq<T>)
  {
    forall i :: 0 <= i < |a| ==> a[i] !in b
  }

  function First(s: seq<OsmTask>): OsmTask?
  {
    if s == [] then null else s[0]
  }

  /**
   * What the callbacks of a batch may schedule: calls[i] is what the i-th callback passes to
   * os_schedule_task, in order. A task is scheduled only while it is not pending, neither on the
   * new list nor later in the batch; the task that is running may schedule itself.
   */
  ghost predicate LegalCalls(batch: seq<OsmTask>, calls: seq<seq<OsmTask>>)
  {
    && |calls| == |batch|
    && Distinct(Flatten(calls))
    && NoneScheduledEarly(batch, calls)
  }

  /** No callback schedules a task of its own batch that has still to run. */
  ghost predicate NoneScheduledEarly(batch: seq<OsmTask>, calls: seq<seq<OsmTask>>)
    requires |batch| == |calls|
  {
    forall i, j :: 0 <= i < j < |batch| ==> batch[j] !in calls[i]
  }

  class VbusExt {
    var tasks: OsmTask?

    /** The list from `tasks`, the part of a detached batch still to run, and two histories. */
    ghost var pending: seq<OsmTask>
    ghost var batch: seq<OsmTask>
    ghost var scheduled: seq<OsmTask>
    ghost var ran: seq<OsmTask>

    /** The queue is a FIFO: what was ever scheduled is what ran, then what is still to run. */
    ghost predicate Valid()
      reads this, pending, batch
    {
      && Chained(pending) && tasks == First(pending)
      && Chained(batch) && Disjoint(batch, pending)
      && scheduled == ran + batch + pending
    }

    ghost function Histories(): Queue<OsmTask>
      reads this
    {
      Queue(scheduled, ran, pending)
    }

    constructor ()
      ensures Histories() == Queue([], [], [])
      ensures Valid() && pending == [] && batch == [] && scheduled == [] && ran == []
    {
      tasks, pending, batch, scheduled, ran := null, [], [], [], [];
    }

    /** next == null alone does not exclude a task that is the last of its list. */
    method ScheduleTask(task: OsmTask)
      requires Valid() && task.next == null && task !in pending && task !in batch
      modifies this`tasks, this`pending, this`scheduled, pending
      ensures Valid() && batch == old(batch) && ran == old(ran)
      ensures pending == old(pending) + [task] && scheduled == old(scheduled) + [task]
      ensures Does(old(Histories()), Schedule(task), Histories())
    {
      if tasks == null {
        tasks := task;
      } else {
        var t := tasks;
        ghost var i := 0;
        while t.next != null
          invariant 0 <= i < |pending| && t == pending[i]
          decreases |pending| - i
          modifies {}
        {
          assert pending[i].next == Successor(pending, i);
          t := t.next;
          i := i + 1;
        }
        assert pending[i].next == Successor(pending, i);
        assert t in pending && t !in batch;
        t.next := task;
      }
      pending := pending + [task];
      scheduled := scheduled + [task];
    }

    /** A callback that passes these tasks to os_schedule_task, one after the other. */
    method RunCallback(calls: seq<OsmTask>)
      requires Valid() && Distinct(calls)
      requires forall i :: 0 <= i < |calls| ==> calls[i].next == null && calls[i] !in pending && calls[i] !in batch
      modifies this`tasks, this`pending, this`scheduled, pending, calls
      ensures Valid() && batch == old(batch) && ran == old(ran)
      ensures pending == old(pending) + calls && scheduled == old(scheduled) + calls
    {
      hide Valid, Chained;
      for j := 0 to |calls|
        invariant Valid() && batch == old(batch) && ran == old(ran)
        invariant pending == old(pending) + calls[..j] && scheduled == old(scheduled) + calls[..j]
        invariant forall i :: j <= i < |calls| ==> calls[i].next == null && calls[i] !in pending && calls[i] !in batch
      {
        ScheduleTask(calls[j]);
        assert calls[..j + 1] == calls[..j] + [calls[j]];
      }
    }

    /** The whole list becomes the batch. */
    method Detach() returns (todo: OsmTask?)
      requires Valid() && batch == []
      modifies this`tasks, this`pending, this`batch
      ensures Valid() && batch == old(pending) && pending == [] && todo == First(batch)
    {
      todo := tasks;
      tasks := null;
      batch, pending := pending, [];
      assert scheduled == ran + batch;
    }

    /** The head of the batch is unlinked and counts as run. */
    method Unlink(t: OsmTask) returns (todo: OsmTask?)
      requires Valid() && t == First(batch)
      modifies this`batch, this`ran, t
      ensures Valid() && t.next == null && t !in pending && t !in batch && todo == First(batch)
      ensures batch == old(batch)[1..] && ran == old(ran) + [t]
    {
      TailChained(batch);
      TailDisjoint(ran, batch, pending);
      hide Chained, Distinct, Disjoint;
      todo := t.next;
      t.next := null;
      ran := ran + [t];
      batch := batch[1..];
    }

    /** Every task that callbacks have still to schedule is idle, or in the batch still to run. */
    ghost predicate Idle(flat: seq<OsmTask>, n: nat)
      reads this, flat
    {
      && Distinct(flat) && n <= |flat| && pending == flat[..n]
      && forall i :: n <= i < |flat| && flat[i] !in batch ==> flat[i].next == null
    }

    method RunHead(t: OsmTask, calls: seq<OsmTask>, ghost flat: seq<OsmTask>, ghost n: nat)
        returns (todo: OsmTask?)
      requires Valid() && t == First(batch) && Idle(flat, n)
      requires n + |calls| <= |flat| && calls == flat[n..n + |calls|]
      requires forall j :: 0 <= j < |calls| ==> calls[j] !in batch[1..]
      modifies this, t, pending, calls
      ensures Valid() && batch == old(batch)[1..] && todo == First(batch)
      ensures Idle(flat, n + |calls|) && scheduled == old(scheduled) + calls
    {
      hide Valid, Chained;
      todo := Unlink(t);
      assert forall j :: 0 <= j < |calls| ==> calls[j] == flat[n + j];
      RunCallback(calls);
    }

    /** The invariant of the drain loop, after k callbacks that scheduled the first n tasks. */
    ghost predicate Draining(todo: OsmTask?, calls: seq<seq<OsmTask>>, k: nat, flat: seq<OsmTask>, n: nat,
                             nodes: set<OsmTask>, before: seq<OsmTask>)
      reads this, flat, pending, batch
    {
      && Valid() && todo == First(batch) && Plan(batch, calls, k, flat, n) && Idle(flat, n)
      && Within(batch, nodes) && Within(flat, nodes)
      && scheduled == before + pending
    }

    /** One turn of the drain loop. */
    method DrainStep(t: OsmTask, calls: seq<seq<OsmTask>>, k: nat, ghost flat: seq<OsmTask>, ghost n: nat,
                     ghost nodes: set<OsmTask>, ghost before: seq<OsmTask>)
        returns (todo: OsmTask?, ghost n': nat)
      requires k < |calls| && Draining(t, calls, k, flat, n, nodes, before)
      modifies this, nodes
      ensures Draining(todo, calls, k + 1, flat, n', nodes, before) && |batch| == old(|batch|) - 1
    {
      hide Valid, Distinct, Flatten, Plan;
      WithinTail(batch, nodes);
      NewCalls(batch, calls, k, flat, n);
      AppendSlice(before, flat, n, calls[k]);
      n' := n + |calls[k]|;
      assert Within(pending, nodes) && Within(calls[k], nodes) by {
        assert forall j :: 0 <= j < |calls[k]| ==> calls[k][j] == flat[n + j];
      }
      todo := RunHead(t, calls[k], flat, n);
    }

    /**
     * A drain runs exactly what was scheduled when it began, each task once and in order. What the
     * callbacks schedule meanwhile, themselves included, is pending afterwards in call order.
     */
    method DoTasks(calls: seq<seq<OsmTask>>, ghost flat: seq<OsmTask>)
      requires Valid() && batch == [] && LegalCalls(pending, calls) && flat == Flatten(calls)
      requires forall i :: 0 <= i < |flat| && flat[i] !in pending ==> flat[i].next == null
      modifies this, pending, flat
      ensures Valid() && batch == []
      ensures ran == old(scheduled) && pending == flat
      ensures scheduled == old(scheduled) + flat
      ensures Does(old(Histories()), Drain(calls), Histories())
    {
      ghost var before := Histories();
      assert Distinct(flat) && |calls| == |before.pending| && before.scheduled == scheduled;
      var todo := Detach();
      assert scheduled == old(scheduled) + [];
      assert Idle(flat, 0) && |calls| == |batch|;
      RunBatch(todo, calls, flat, (set t | t in batch) + (set t | t in flat));
      hide *;
      RanIsScheduledBefore(old(scheduled));
      DrainIsStep(before, calls, flat);
    }

    method RunBatch(head: OsmTask?, calls: seq<seq<OsmTask>>, ghost flat: seq<OsmTask>,
                    ghost nodes: set<OsmTask>)
      requires Valid() && head == First(batch) && pending == [] && Idle(flat, 0)
      requires LegalCalls(batch, calls) && flat == Flatten(calls)
      requires Within(batch, nodes) && Within(flat, nodes)
      modifies this, nodes
      ensures Valid() && batch == [] && pending == flat && scheduled == old(scheduled) + flat
    {
      ghost var n, before: seq<OsmTask> := 0, scheduled;
      var todo, k := head, 0;
      assert calls[0..] == calls && scheduled + [] == scheduled;
      assert Draining(todo, calls, k, flat, n, nodes, before);
      while todo != null
        invariant Draining(todo, calls, k, flat, n, nodes, before) && |batch| + k == |calls|
        decreases |batch|
      {
        hide Draining;
        todo, n := DrainStep(todo, calls, k, flat, n, nodes, before);
        k := k + 1;
      }
      AllCalls(calls, k, flat, n);
    }

    lemma DrainIsStep(before: Queue<OsmTask>, calls: seq<seq<OsmTask>>, flat: seq<OsmTask>)
      requires |calls| == |before.pending| && flat == Flatten(calls) && Distinct(flat)
      requires ran == before.scheduled && pending == flat && scheduled == before.scheduled + flat
      ensures Does(before, Drain(calls), Histories())
    {
    }

    lemma RanIsScheduledBefore(before: seq<OsmTask>)
      requires Valid() && batch == [] && scheduled == before + pending
      ensures ran == before
    {
      assert ran == scheduled[..|scheduled| - |pending|];
    }
  }

  lemma TailDisjoint<T>(ran: seq<T>, batch: seq<T>, pending: seq<T>)
    requires batch != [] && Disjoint(batch, pending)
    ensures batch[0] !in pending && Disjoint(batch[1..], pending)
    ensures ran + batch + pending == ran + [batch[0]] + batch[1..] + pending
  {
    assert batch == [batch[0]] + batch[1..];
  }

  lemma TailChained(s: seq<OsmTask>)
    requires Chained(s) && s != []
    ensures Chained(s[1..]) && s[0] !in s[1..] && s[0].next == First(s[1..])
  {
    assert s[0].next == Successor(s, 0);
    var rest := s[1..];
    forall i | 0 <= i < |rest|
      ensures rest[i].next == Successor(rest, i)
    {
      assert s[i + 1].next == Successor(s, i + 1);
    }
  }

  /** k callbacks have run and scheduled the first n tasks; the rest of the batch stays legal. */
  ghost predicate Plan(batch: seq<OsmTask>, calls: seq<seq<OsmTask>>, k: nat, flat: seq<OsmTask>, n: nat)
  {
    && |batch| + k == |calls| && flat == Flatten(calls) && n == |Flatten(calls[..k])|
    && NoneScheduledEarly(batch, calls[k..])
  }

  lemma AllCalls(calls: seq<seq<OsmTask>>, k: nat, flat: seq<OsmTask>, n: nat)
    requires Plan([], calls, k, flat, n)
    ensures n == |flat| && flat[..n] == flat
  {
    assert calls[..|calls|] == calls;
  }

  /** The tasks of one callback are the next of all those scheduled, and none is pending. */
  lemma NewCalls(batch: seq<OsmTask>, calls: seq<seq<OsmTask>>, k: nat, flat: seq<OsmTask>, n: nat)
    requires Plan(batch, calls, k, flat, n) && batch != []
    ensures k < |calls| && n + |calls[k]| <= |flat| && flat[n..n + |calls[k]|] == calls[k]
    ensures Plan(batch[1..], calls, k + 1, flat, n + |calls[k]|)
    ensures forall j :: 0 <= j < |calls[k]| ==> calls[k][j] !in batch[1..]
  {
    assert Flatten(calls[..k + 1]) == Flatten(calls[..k]) + calls[k] by {
      assert calls[..k + 1][..k] == calls[..k];
    }
    FlattenPrefix(calls, k + 1);
    FlattenPrefix(calls, k);
    SliceOf(flat, n, calls[k]);
    assert calls[k..][1..] == calls[k + 1..] && calls[k..][0] == calls[k];
    LaterCalls(batch, calls[k..]);
  }

  lemma LaterCalls(batch: seq<OsmTask>, calls: seq<seq<OsmTask>>)
    requires |batch| == |calls| > 0 && NoneScheduledEarly(batch, calls)
    ensures NoneScheduledEarly(batch[1..], calls[1..])
    ensures forall j :: 0 <= j < |calls[0]| ==> calls[0][j] !in batch[1..]
  {
    forall i, j | 0 <= i < j < |batch| - 1
      ensures batch[1..][j] !in calls[1..][i]
    {
      assert batch[j + 1] !in calls[i + 1];
    }
    forall j | 0 <= j < |calls[0]|
      ensures calls[0][j] !in batch[1..]
    {
      assert calls[0][j] in calls[0];
    }
  }

  lemma AppendSlice<T>(before: seq<T>, flat: seq<T>, n: nat, s: seq<T>)
    requires n + |s| <= |flat| && flat[n..n + |s|] == s
    ensures before + flat[..n + |s|] == before + flat[..n] + s
  {
  }

  lemma SliceOf<T>(flat: seq<T>, n: nat, s: seq<T>)
    requires n + |s| <= |flat| && flat[..n + |s|] == flat[..n] + s
    ensures flat[n..n + |s|] == s
  {
    assert flat[..n + |s|][n..] == flat[n..n + |s|];
  }

  lemma {:induction false} FlattenPrefix<T>(runs: seq<seq<T>>, k: nat)
    requires k <= |runs|
    ensures Flatten(runs[..k]) <= Flatten(runs)
  {
    if k < |runs| {
      var init := runs[..|runs| - 1];
      assert init[..k] == runs[..k];
      FlattenPrefix(init, k);
    } else {
      assert runs[..k] == runs;
    }
  }

  // ----- whole runs

  /** The three histories of a vbus, with tasks of any type. */
  datatype Queue<T> = Queue(scheduled: seq<T>, ran: seq<T>, pending: seq<T>)

  datatype Op<T> = Schedule(task: T) | Drain(calls: seq<seq<T>>)

  /** What ScheduleTask and DoTasks promise about the histories. */
  ghost predicate Does<T>(q: Queue<T>, op: Op<T>, q': Queue<T>)
  {
    match op
    case Schedule(t) =>
      && t !in q.pending
      && q' == Queue(q.scheduled + [t], q.ran, q.pending + [t])
    case Drain(calls) =>
      && |calls| == |q.pending| && Distinct(Flatten(calls))
      && q' == Queue(q.scheduled + Flatten(calls), q.scheduled, Flatten(calls))
  }

  /** A run: the states after 0, 1, ... operations. */
  ghost predicate IsRun<T>(states: seq<Queue<T>>, ops: seq<Op<T>>)
  {
    && |states| == |ops| + 1 && states[0] == Queue([], [], [])
    && forall i :: 0 <= i < |ops| ==> Does(states[i], ops[i], states[i + 1])
  }

  /** At every moment, the i-th callback run is the i-th scheduling: once each, first in, first out. */
  lemma {:induction false} FifoOverRuns<T>(states: seq<Queue<T>>, ops: seq<Op<T>>, i: nat)
    requires IsRun(states, ops) && i <= |ops|
    ensures states[i].scheduled == states[i].ran + states[i].pending
    ensures Distinct(states[i].pending)
  {
    if i > 0 {
      FifoOverRuns(states, ops, i - 1);
      assert Does(states[i - 1], ops[i - 1], states[i]);
    }
  }

  lemma {:induction false} HistoriesGrow<T>(states: seq<Queue<T>>, ops: seq<Op<T>>, i: nat, j: nat)
    requires IsRun(states, ops) && i <= j <= |ops|
    ensures states[i].scheduled <= states[j].scheduled && states[i].ran <= states[j].ran
    decreases j - i
  {
    if i < j {
      HistoriesGrow(states, ops, i, j - 1);
      FifoOverRuns(states, ops, j - 1);
      assert Does(states[j - 1], ops[j - 1], states[j]);
    }
  }

  /**
   * The n-th scheduling runs in the first drain that begins after it, and not before: a callback
   * that schedules during drain d, itself included, leaves the task for a later drain.
   */
  lemma RunsInTheNextDrain<T>(states: seq<Queue<T>>, ops: seq<Op<T>>, n: nat, d: nat)
    requires IsRun(states, ops) && d < |ops| && ops[d].Drain?
    ensures n < |states[d].scheduled| ==> n < |states[d + 1].ran| && states[d + 1].ran[n] == states[d].scheduled[n]
    ensures n >= |states[d].scheduled| ==> n >= |states[d + 1].ran|
    ensures forall e :: d < e <= |ops| ==> |states[e].ran| >= |states[d].scheduled|
  {
    assert Does(states[d], ops[d], states[d + 1]);
    forall e | d < e <= |ops|
      ensures |states[e].ran| >= |states[d].scheduled|
    {
      HistoriesGrow(states, ops, d + 1, e);
    }
  }
}
