/** The per-CPU sleep timer list of `axtask`: a priority queue keyed by task
    identity whose priority is the wake deadline, earliest first, drained by
    the timer interrupt. One CPU's list is modelled; `now` is the wall-clock
    time read by the drain. */
module Timers {
  import opened Wrappers

  /** A `TimeValue`, in nanoseconds. */
  type TimeValue = nat

  /** An `AxTaskRef` (an `Arc` of a task), seen only through the address of
      the task it points to. */
  datatype TaskRef = TaskRef(addr: nat)

  /** `TaskPtr`: the key of the timer list. */
  datatype TaskPtr = TaskPtr(task: TaskRef)

  /** `PartialEq for TaskPtr`: `Arc::ptr_eq`, pointer identity. */
  predicate PtrEq(a: TaskPtr, b: TaskPtr) {
    a.task.addr == b.task.addr
  }

  /** `Hash for TaskPtr`: whatever the hasher does, it is fed only the pointer. */
  function PtrHash(p: TaskPtr, hasher: nat -> nat): nat {
    hasher(p.task.addr)
  }

  /** Pointer identity is exactly equality of keys, so a map keyed by
      `TaskPtr` holds one entry per task. */
  lemma PtrEqIsIdentity(a: TaskPtr, b: TaskPtr)
    ensures PtrEq(a, b) <==> a == b
  {
  }

  /** The hash agrees with equality, whichever hasher is used. */
  lemma PtrHashAgreesWithEq(a: TaskPtr, b: TaskPtr, hasher: nat -> nat)
    requires PtrEq(a, b)
    ensures PtrHash(a, hasher) == PtrHash(b, hasher)
  {
  }

  /** `t` is at the top of the queue: under `Reverse`, the greatest priority
      is the earliest deadline. Ties are broken by the queue's internals. */
  predicate IsEarliest(m: map<TaskPtr, TimeValue>, t: TaskPtr) {
    t in m && forall u :: u in m ==> m[t] <= m[u]
  }

  /** No entry has a deadline before `now`. */
  predicate NoneExpired(m: map<TaskPtr, TimeValue>, now: TimeValue) {
    forall t :: t in m ==> now <= m[t]
  }

  /** The tasks whose deadline is strictly before `now`. */
  function Expired(m: map<TaskPtr, TimeValue>, now: TimeValue): set<TaskPtr> {
    set t | t in m && m[t] < now
  }

  /** The entries whose deadline is not before `now`. */
  function Pending(m: map<TaskPtr, TimeValue>, now: TimeValue): map<TaskPtr, TimeValue> {
    map t | t in m && now <= m[t] :: m[t]
  }

  /** The tasks of a sequence of popped entries. */
  function Tasks(popped: seq<(TaskPtr, TimeValue)>): set<TaskPtr> {
    set e | e in popped :: e.0
  }

  /** A non-empty queue has a top element. */
  lemma {:induction false} EarliestExists(m: map<TaskPtr, TimeValue>)
    requires m != map[]
    ensures exists t :: IsEarliest(m, t)
    decreases |m|
  {
    var t :| t in m;
    var rest := m - {t};
    assert forall w :: w in m && w != t ==> w in rest && rest[w] == m[w];
    if rest == map[] {
      assert IsEarliest(m, t);
    } else {
      assert |rest| < |m| by {
        assert rest.Keys == m.Keys - {t};
      }
      EarliestExists(rest);
      var u :| IsEarliest(rest, u);
      if m[t] <= rest[u] {
        assert IsEarliest(m, t);
      } else {
        assert IsEarliest(m, u);
      }
    }
  }

  /** `popped` lists, in order, the entries a sequence of successful
      `pop_if(deadline < now)` calls took from `m`, and `rest` is what they
      left: each popped entry was at the top of the queue at its turn, with a
      deadline before `now`. */
  ghost predicate Pops(m: map<TaskPtr, TimeValue>, now: TimeValue,
                       popped: seq<(TaskPtr, TimeValue)>, rest: map<TaskPtr, TimeValue>)
    decreases |popped|
  {
    if popped == [] then rest == m
    else
      IsEarliest(m, popped[0].0) && m[popped[0].0] == popped[0].1 && popped[0].1 < now &&
      Pops(m - {popped[0].0}, now, popped[1..], rest)
  }

  /** A whole drain: the pops, and then a `pop_if` that found nothing expired. */
  ghost predicate Drains(m: map<TaskPtr, TimeValue>, now: TimeValue,
                         popped: seq<(TaskPtr, TimeValue)>, rest: map<TaskPtr, TimeValue>)
  {
    Pops(m, now, popped, rest) && NoneExpired(rest, now)
  }

  /** One more successful pop extends a run of pops. */
  lemma {:induction false} PopsExtend(m: map<TaskPtr, TimeValue>, now: TimeValue,
                                      popped: seq<(TaskPtr, TimeValue)>, rest: map<TaskPtr, TimeValue>,
                                      t: TaskPtr)
    requires Pops(m, now, popped, rest)
    requires IsEarliest(rest, t) && rest[t] < now
    ensures Pops(m, now, popped + [(t, rest[t])], rest - {t})
    decreases |popped|
  {
    var next := popped + [(t, rest[t])];
    if popped == [] {
      assert next[1..] == [];
    } else {
      PopsExtend(m - {popped[0].0}, now, popped[1..], rest, t);
      assert next[1..] == popped[1..] + [(t, rest[t])];
    }
  }

  /** Every popped entry was in the list with that deadline, before `now`. */
  lemma {:induction false} PopsFromList(m: map<TaskPtr, TimeValue>, now: TimeValue,
                                        popped: seq<(TaskPtr, TimeValue)>, rest: map<TaskPtr, TimeValue>)
    requires Pops(m, now, popped, rest)
    ensures forall e :: e in popped ==> e.0 in m && m[e.0] == e.1 && e.1 < now
    decreases |popped|
  {
    if popped != [] {
      PopsFromList(m - {popped[0].0}, now, popped[1..], rest);
      assert forall e :: e in popped ==> e == popped[0] || e in popped[1..];
    }
  }

  /** What remains after a run of pops is the list less the popped tasks,
      with unchanged deadlines: one entry fewer per pop. */
  lemma {:induction false} PopsRest(m: map<TaskPtr, TimeValue>, now: TimeValue,
                                    popped: seq<(TaskPtr, TimeValue)>, rest: map<TaskPtr, TimeValue>)
    requires Pops(m, now, popped, rest)
    ensures rest.Keys == m.Keys - Tasks(popped)
    ensures forall t :: t in rest ==> rest[t] == m[t]
    ensures |rest| == |m| - |popped|
    decreases |popped|
  {
    if popped != [] {
      var t := popped[0].0;
      var m' := m - {t};
      PopsRest(m', now, popped[1..], rest);
      assert m'.Keys == m.Keys - {t};
      assert Tasks(popped) == {t} + Tasks(popped[1..]) by {
        assert popped == [popped[0]] + popped[1..];
      }
    }
  }

  /** A run of pops never takes a task twice, yields deadlines in
      non-decreasing order, and none of them is later than a deadline still
      in the list. */
  lemma {:induction false} PopsOrdered(m: map<TaskPtr, TimeValue>, now: TimeValue,
                                       popped: seq<(TaskPtr, TimeValue)>, rest: map<TaskPtr, TimeValue>)
    requires Pops(m, now, popped, rest)
    ensures forall i, j :: 0 <= i < j < |popped| ==> popped[i].0 != popped[j].0 && popped[i].1 <= popped[j].1
    ensures forall k, t :: 0 <= k < |popped| && t in rest ==> popped[k].1 <= rest[t]
    decreases |popped|
  {
    if popped != [] {
      var t := popped[0].0;
      var m' := m - {t};
      PopsOrdered(m', now, popped[1..], rest);
      PopsFromList(m', now, popped[1..], rest);
      PopsRest(m', now, popped[1..], rest);
      forall i, j | 0 <= i < j < |popped|
        ensures popped[i].0 != popped[j].0 && popped[i].1 <= popped[j].1
      {
        if i == 0 {
          assert popped[j] in popped[1..] by {
            assert popped[j] == popped[1..][j - 1];
          }
        } else {
          assert popped[i] == popped[1..][i - 1] && popped[j] == popped[1..][j - 1];
        }
      }
      forall k, u | 0 <= k < |popped| && u in rest ensures popped[k].1 <= rest[u] {
        if k > 0 {
          assert popped[k] == popped[1..][k - 1];
        }
      }
    }
  }

  /** What a whole drain guarantees: the tasks popped are exactly the expired
      ones, and the list keeps exactly the entries that are not yet due. */
  lemma DrainFacts(m: map<TaskPtr, TimeValue>, now: TimeValue,
                   popped: seq<(TaskPtr, TimeValue)>, rest: map<TaskPtr, TimeValue>)
    requires Drains(m, now, popped, rest)
    ensures Tasks(popped) == Expired(m, now)
    ensures rest == Pending(m, now)
  {
    PopsFromList(m, now, popped, rest);
    PopsRest(m, now, popped, rest);
  }

  /** Arming a task again replaces its deadline: armed at `d1` and then at
      `d2`, it is not woken by a drain at a time between the two, and stays in
      the list with deadline `d2`. */
  lemma RearmReplacesDeadline(m: map<TaskPtr, TimeValue>, t: TaskPtr, d1: TimeValue, d2: TimeValue,
                              now: TimeValue, popped: seq<(TaskPtr, TimeValue)>, rest: map<TaskPtr, TimeValue>)
    requires d1 < now <= d2
    requires Drains(m[t := d1][t := d2], now, popped, rest)
    ensures t !in Tasks(popped)
    ensures t in rest && rest[t] == d2
  {
    DrainFacts(m[t := d1][t := d2], now, popped, rest);
  }

  /** One call `unblock_task(task, flag)` made by the drain. */
  datatype UnblockCall = UnblockCall(task: TaskRef, flag: bool)

  /** One CPU's `TIMER_LIST`. */
  class TimerList {
    var queue: map<TaskPtr, TimeValue>

    constructor ()
      ensures queue == map[]
    {
      queue := map[];
    }

    /** `PriorityQueue::push`: a task already in the queue gets the new
        deadline; otherwise it is added. */
    method Push(t: TaskPtr, deadline: TimeValue)
      modifies this
      ensures queue == old(queue)[t := deadline]
    {
      queue := queue[t := deadline];
    }

    /** `PriorityQueue::remove`: the task's entry, if any, is removed. */
    method Remove(t: TaskPtr)
      modifies this
      ensures queue == old(queue) - {t}
    {
      queue := queue - {t};
    }

    /** `pop_if(|_, Reverse(deadline)| *deadline < now)`: pop the top entry
        (earliest deadline) if it is expired; otherwise change nothing. */
    method PopIfExpired(now: TimeValue) returns (r: Option<(TaskPtr, TimeValue)>)
      modifies this
      ensures r.Some? ==> IsEarliest(old(queue), r.value.0) && old(queue)[r.value.0] == r.value.1 &&
                          r.value.1 < now && queue == old(queue) - {r.value.0}
      ensures r.None? ==> queue == old(queue) && NoneExpired(queue, now)
    {
      if queue == map[] {
        return None;
      }
      EarliestExists(queue);
      var t :| IsEarliest(queue, t);
      if queue[t] < now {
        r := Some((t, queue[t]));
        queue := queue - {t};
      } else {
        r := None;
      }
    }
  }

  /** `set_alarm_wakeup` on the current CPU's list: the task's deadline is now
      `deadline`, whether or not it was armed before; nothing else changes. */
  method SetAlarmWakeup(list: TimerList, deadline: TimeValue, task: TaskRef)
    modifies list
    ensures TaskPtr(task) in list.queue && list.queue[TaskPtr(task)] == deadline
    ensures forall t :: t != TaskPtr(task) ==> (t in list.queue <==> t in old(list.queue))
    ensures forall t :: t != TaskPtr(task) && t in list.queue ==> list.queue[t] == old(list.queue)[t]
  {
    list.Push(TaskPtr(task), deadline);
  }

  /** `clear_alarm_wakeup` on the current CPU's list: the task's entry, if any,
      is gone; nothing else changes. */
  method ClearAlarmWakeup(list: TimerList, task: TaskRef)
    modifies list
    ensures TaskPtr(task) !in list.queue
    ensures forall t :: t != TaskPtr(task) ==> (t in list.queue <==> t in old(list.queue))
    ensures forall t :: t != TaskPtr(task) && t in list.queue ==> list.queue[t] == old(list.queue)[t]
  {
    list.Remove(TaskPtr(task));
  }

  /** `check_events`: pop expired entries, earliest first, and unblock each
      popped task once with flag `true`, until the top entry is not expired.
      `popped` records the entries taken, in order. */
  method CheckEvents(list: TimerList, now: TimeValue)
    returns (calls: seq<UnblockCall>, ghost popped: seq<(TaskPtr, TimeValue)>)
    modifies list
    ensures Drains(old(list.queue), now, popped, list.queue)
    ensures |calls| == |popped|
    ensures forall k :: 0 <= k < |calls| ==> calls[k] == UnblockCall(popped[k].0.task, true)
    ensures Tasks(popped) == Expired(old(list.queue), now)
    ensures list.queue == Pending(old(list.queue), now)
    ensures forall i, j :: 0 <= i < j < |popped| ==> popped[i].0 != popped[j].0 && popped[i].1 <= popped[j].1
    ensures forall e :: e in popped ==> e.0 in old(list.queue) && old(list.queue)[e.0] == e.1 < now
  {
    calls, popped := [], [];
    while true
      invariant Pops(old(list.queue), now, popped, list.queue)
      invariant |calls| == |popped|
      invariant forall k :: 0 <= k < |calls| ==> calls[k] == UnblockCall(popped[k].0.task, true)
      decreases |list.queue|
    {
      ghost var before := list.queue;
      var next := list.PopIfExpired(now);
      if next.None? {
        break;
      }
      var (t, deadline) := next.value;
      PopsExtend(old(list.queue), now, popped, before, t);
      assert |list.queue| < |before| by {
        assert list.queue.Keys == before.Keys - {t};
      }
      popped := popped + [(t, deadline)];
      calls := calls + [UnblockCall(t.task, true)];
    }
    DrainFacts(old(list.queue), now, popped, list.queue);
    PopsFromList(old(list.queue), now, popped, list.queue);
    PopsOrdered(old(list.queue), now, popped, list.queue);
  }
}
