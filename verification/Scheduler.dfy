/** The scheduler on its real data: a task pool whose slots are linked in a circular doubly
    linked ring. Pointers are slot numbers, NULL is -1. Every operation is proved to keep the
    links mutually inverse and to do to the ring what SchedModel says. */
module Scheduler {
  import opened Common
  import opened SchedModel

  const NULL: int := -1

  datatype Slot = Slot(task: Task, next: int, prev: int)

  function Succ(i: nat, n: nat): nat { if i + 1 == n then 0 else i + 1 }

  function Pred(i: nat, n: nat): nat
    requires i < n
  {
    if i == 0 then n - 1 else i - 1
  }

  ghost predicate LinkedAt(p: seq<Slot>, ring: seq<nat>, i: nat)
    requires i < |ring|
  {
    && ring[i] < |p|
    && p[ring[i]].next == ring[Succ(i, |ring|)]
    && p[ring[i]].prev == ring[Pred(i, |ring|)]
  }

  /** The slots named by `ring` are linked in that order, circularly, both ways. */
  ghost predicate Linked(p: seq<Slot>, ring: seq<nat>) {
    forall i :: 0 <= i < |ring| ==> LinkedAt(p, ring, i)
  }

  /** Slots outside the ring have null links. */
  ghost predicate Loose(p: seq<Slot>, ring: seq<nat>) {
    forall t :: 0 <= t < |p| && t !in ring ==> p[t].next == NULL && p[t].prev == NULL
  }

  function Tasks(p: seq<Slot>): seq<Task> {
    seq(|p|, i requires 0 <= i < |p| => p[i].task)
  }

  /** Next and previous pointers are each other's inverse around the ring. */
  lemma LinksInverse(p: seq<Slot>, ring: seq<nat>, t: nat)
    requires Linked(p, ring) && t in ring
    ensures t < |p| && 0 <= p[t].next < |p| && 0 <= p[t].prev < |p|
    ensures p[p[t].next].prev == t && p[p[t].prev].next == t
  {
    var i :| 0 <= i < |ring| && ring[i] == t;
    assert LinkedAt(p, ring, i);
    assert LinkedAt(p, ring, Succ(i, |ring|));
    assert LinkedAt(p, ring, Pred(i, |ring|));
  }

  lemma SameLinks(p: seq<Slot>, q: seq<Slot>, ring: seq<nat>)
    requires Linked(p, ring) && |p| == |q|
    requires forall i :: 0 <= i < |p| ==> p[i].next == q[i].next && p[i].prev == q[i].prev
    ensures Linked(q, ring)
  {
    forall i | 0 <= i < |ring|
      ensures LinkedAt(q, ring, i)
    {
      assert LinkedAt(p, ring, i);
    }
  }

  /** Moving the head around the ring changes no pointer. */
  lemma RotateLinks(p: seq<Slot>, ring: seq<nat>, k: nat)
    requires Linked(p, ring) && k < |ring|
    ensures Linked(p, Rotated(ring, k))
  {
    var r, n := Rotated(ring, k), |ring|;
    forall i | 0 <= i < |r|
      ensures LinkedAt(p, r, i)
    {
      var j := if i + k + 1 < n then i + k + 1 else i + k + 1 - n;
      assert LinkedAt(p, ring, j);
      assert r[i] == ring[j];
    }
  }

  /** The stores of enqueue_task on a non-empty ring. */
  function Enqueued(p: seq<Slot>, head: nat, t: nat): seq<Slot>
    requires head < |p| && t < |p| && 0 <= p[head].prev < |p|
  {
    var tail := p[head].prev;
    var p1 := p[tail := p[tail].(next := t)];
    var p2 := p1[t := p1[t].(prev := tail, next := head)];
    p2[head := p2[head].(prev := t)]
  }

  lemma EnqueueLinks(p: seq<Slot>, ring: seq<nat>, t: nat)
    requires Linked(p, ring) && ring != [] && Distinct(ring) && t !in ring && t < |p|
    ensures ring[0] < |p| && 0 <= p[ring[0]].prev < |p|
    ensures Linked(Enqueued(p, ring[0], t), ring + [t])
    ensures Tasks(Enqueued(p, ring[0], t)) == Tasks(p)
  {
    var n, r := |ring|, ring + [t];
    assert LinkedAt(p, ring, 0) && LinkedAt(p, ring, n - 1);
    var q := Enqueued(p, ring[0], t);
    forall i | 0 <= i < |r|
      ensures LinkedAt(q, r, i)
    {
      if i < n { assert LinkedAt(p, ring, i) && r[i] == ring[i]; }
      assert 0 < i < n ==> r[i - 1] == ring[i - 1];
      assert i + 1 < n ==> r[i + 1] == ring[i + 1];
    }
  }

  // -------------------------------------------- a slot that is still queued

  /** alloc_task wipes the slot it hands out, links included. */
  function Wiped(p: seq<Slot>, t: nat): seq<Slot>
    requires t < |p|
  {
    p[t := p[t].(next := NULL, prev := NULL)]
  }

  lemma NextInRing(p: seq<Slot>, ring: seq<nat>, t: nat)
    requires Linked(p, ring) && t in ring
    ensures t < |p| && p[t].next in ring
  {
    var i :| 0 <= i < |ring| && ring[i] == t;
    assert LinkedAt(p, ring, i);
  }

  /** In the ring that enqueue_task leaves, following next pointers from t passes the tasks that stood
      before it. */
  lemma {:induction false} PassesBefore(p: seq<Slot>, ring: seq<nat>, k: nat, r: seq<nat>, j: nat)
    requires Linked(p, ring) && Distinct(ring) && 0 < k < |ring| && j < k
    requires ring[k] < |p| && ring[0] < |p| && 0 <= p[ring[0]].prev < |p|
    requires var q := Enqueued(Wiped(p, ring[k]), ring[0], ring[k]); Linked(q, r) && ring[k] in r
    ensures ring[j] in r
  {
    var q := Enqueued(Wiped(p, ring[k]), ring[0], ring[k]);
    assert LinkedAt(p, ring, 0) && LinkedAt(p, ring, j);
    if j == 0 {
      NextInRing(q, r, ring[k]);
    } else {
      PassesBefore(p, ring, k, r, j - 1);
      assert LinkedAt(p, ring, j - 1);
      NextInRing(q, r, ring[j - 1]);
      assert q[ring[j - 1]].next == ring[j];
    }
  }

  /** Handing out a queued slot breaks the ring for good: wiped, it is in no linked ring; if it is the
      head, enqueue_task takes its tail from a null pointer; if not, the stores of enqueue_task leave it
      in no linked ring either. */
  lemma QueuedSlotBreaks(p: seq<Slot>, ring: seq<nat>, k: nat)
    requires Linked(p, ring) && Distinct(ring) && k < |ring|
    ensures ring[k] < |p| && forall r :: ring[k] in r ==> !Linked(Wiped(p, ring[k]), r)
    ensures k == 0 ==> Wiped(p, ring[k])[ring[0]].prev == NULL
    ensures k > 0 ==> ring[0] < |p| && 0 <= p[ring[0]].prev < |p|
    ensures k > 0 ==> forall r :: ring[k] in r ==> !Linked(Enqueued(Wiped(p, ring[k]), ring[0], ring[k]), r)
  {
    var t := ring[k];
    assert LinkedAt(p, ring, k) && LinkedAt(p, ring, 0) && LinkedAt(p, ring, |ring| - 1);
    forall r | t in r ensures !Linked(Wiped(p, t), r) {
      if Linked(Wiped(p, t), r) { LinksInverse(Wiped(p, t), r, t); }
    }
    if k > 0 {
      forall r | t in r ensures !Linked(Enqueued(Wiped(p, t), ring[0], t), r) { NoRingAfter(p, ring, k, r); }
    }
  }

  lemma NoRingAfter(p: seq<Slot>, ring: seq<nat>, k: nat, r: seq<nat>)
    requires Linked(p, ring) && Distinct(ring) && 0 < k < |ring| && ring[k] in r
    requires ring[k] < |p| && ring[0] < |p| && 0 <= p[ring[0]].prev < |p|
    ensures !Linked(Enqueued(Wiped(p, ring[k]), ring[0], ring[k]), r)
  {
    var q, u := Enqueued(Wiped(p, ring[k]), ring[0], ring[k]), ring[k - 1];
    assert LinkedAt(p, ring, k - 1) && LinkedAt(p, ring, 0);
    assert q[u].next == ring[k] && q[ring[k]].prev != u;
    if Linked(q, r) {
      PassesBefore(p, ring, k, r, k - 1);
      LinksInverse(q, r, u);
    }
  }

  /** The stores of dequeue_task when t is not the only element. */
  function Dequeued(p: seq<Slot>, t: nat): seq<Slot>
    requires t < |p| && 0 <= p[t].prev < |p| && 0 <= p[t].next < |p|
  {
    var before, after := p[t].prev, p[t].next;
    var p1 := p[before := p[before].(next := after)];
    var p2 := p1[after := p1[after].(prev := before)];
    p2[t := p2[t].(next := NULL, prev := NULL)]
  }

  lemma {:induction false} WithoutAt(ring: seq<nat>, k: nat)
    requires Distinct(ring) && k < |ring|
    ensures Without(ring, ring[k]) == ring[..k] + ring[k + 1..]
  {
    if k > 0 {
      assert ring[0] != ring[k];
      assert Distinct(ring[1..]) by { assert forall i :: 0 <= i < |ring| - 1 ==> ring[1..][i] == ring[i + 1]; }
      WithoutAt(ring[1..], k - 1);
      assert [ring[0]] + (ring[1..][..k - 1] + ring[1..][k..]) == ring[..k] + ring[k + 1..];
    }
  }

  lemma DequeueLast(p: seq<Slot>, ring: seq<nat>)
    requires Linked(p, ring) && Distinct(ring) && |ring| > 1
    ensures var t := ring[|ring| - 1];
            && t < |p| && 0 <= p[t].prev < |p| && 0 <= p[t].next < |p|
            && Linked(Dequeued(p, t), ring[..|ring| - 1])
            && Tasks(Dequeued(p, t)) == Tasks(p)
  {
    var n := |ring|;
    var t, r := ring[n - 1], ring[..n - 1];
    assert LinkedAt(p, ring, n - 1) && LinkedAt(p, ring, 0) && LinkedAt(p, ring, n - 2);
    var q := Dequeued(p, t);
    forall i | 0 <= i < |r|
      ensures LinkedAt(q, r, i)
    {
      assert LinkedAt(p, ring, i);
      assert ring[i] != t;
    }
  }

  /** Rotate t to the end, drop it there, rotate back. */
  lemma DequeueLinks(p: seq<Slot>, ring: seq<nat>, k: nat)
    requires Linked(p, ring) && Distinct(ring) && k < |ring| && |ring| > 1
    ensures ring[k] < |p| && 0 <= p[ring[k]].prev < |p| && 0 <= p[ring[k]].next < |p|
    ensures Linked(Dequeued(p, ring[k]), Without(ring, ring[k]))
    ensures Tasks(Dequeued(p, ring[k])) == Tasks(p)
  {
    var n, t, r := |ring|, ring[k], Rotated(ring, k);
    RotateLinks(p, ring, k);
    RotatedAt(ring, k);
    DequeueLast(p, r);
    WithoutAt(ring, k);
    var x := r[..n - 1];
    assert x == ring[k + 1..] + ring[..k];
    if k < n - 1 {
      RotateLinks(Dequeued(p, t), x, n - k - 2);
      assert Rotated(x, n - k - 2) == ring[..k] + ring[k + 1..];
    } else {
      assert x == ring[..k] + ring[k + 1..];
    }
  }

  class TaskQueue {
    const pool: array<Slot>
    var readyHead: int
    var current: int
    /** The ring as a sequence from ready_head. */
    ghost var ring: seq<nat>

    ghost function Model(): Sched
      reads this, pool
    {
      Sched(ring, if current < 0 then None else Some(current), Tasks(pool[..]))
    }

    /** The pointers represent `ring`. */
    ghost predicate Consistent()
      reads this, pool
    {
      && pool.Length == MAX_TASKS
      && NULL <= current < MAX_TASKS
      && readyHead == (if ring == [] then NULL else ring[0])
      && Linked(pool[..], ring) && Loose(pool[..], ring)
    }

    ghost predicate Valid()
      reads this, pool
    {
      Consistent() && Inv(Model())
    }

    /** sched_init: every slot dead, then the idle task alone in the ring and current. */
    constructor ()
      ensures Valid() && Model() == Initial()
    {
      pool := new Slot[MAX_TASKS](_ => Slot(Task(0, Dead, 0, 0, 0), NULL, NULL));
      readyHead, current, ring := 0, 0, [0];
      new;
      pool[0] := Slot(Task(0, Ready, 0, 0, 0), 0, 0);
      assert Tasks(pool[..]) == Initial().pool;
      assert LinkedAt(pool[..], [0], 0);
      InitialIs();
    }

    method SetTask(t: nat, task: Task)
      requires Consistent() && t < MAX_TASKS
      modifies pool
      ensures Consistent() && Model() == WithTask(old(Model()), t, task)
    {
      ghost var p := pool[..];
      pool[t] := pool[t].(task := task);
      SameLinks(p, pool[..], ring);
      assert Tasks(pool[..]) == Tasks(p)[t := task];
    }

    /** enqueue_task: append behind the tail, that is, just before the head. */
    method Enqueue(t: nat)
      requires Consistent() && t < MAX_TASKS && t !in ring && Distinct(ring)
      modifies this`readyHead, this`ring, pool
      ensures Consistent() && Model() == old(Model()).(ring := old(ring) + [t])
    {
      ghost var p := pool[..];
      if readyHead == NULL {
        readyHead := t;
        pool[t] := pool[t].(next := t, prev := t);
        ring := [t];
        assert old(ring) + [t] == ring;
        assert LinkedAt(pool[..], ring, 0);
        assert Tasks(pool[..]) == Tasks(p);
      } else {
        EnqueueLinks(p, ring, t);
        var tail := pool[readyHead].prev;
        pool[tail] := pool[tail].(next := t);
        pool[t] := pool[t].(prev := tail, next := readyHead);
        pool[readyHead] := pool[readyHead].(prev := t);
        assert pool[..] == Enqueued(p, readyHead, t);
        assert tail in ring by { assert LinkedAt(p, ring, 0); }
        ring := ring + [t];
      }
    }

    /** The stores of dequeue_task when t is not alone in the ring. */
    method Unlink(t: nat, ghost k: nat)
      requires Consistent() && Distinct(ring) && k < |ring| && ring[k] == t && |ring| > 1
      modifies this`readyHead, this`ring, pool
      ensures Consistent() && Model() == old(Model()).(ring := Without(old(ring), t))
    {
      hide Without;
      ghost var p := pool[..];
      WithoutAt(ring, k);
      DequeueLinks(p, ring, k);
      assert LinkedAt(p, ring, k);
      if readyHead == t { readyHead := pool[t].next; }
      var before, after := pool[t].prev, pool[t].next;
      pool[before] := pool[before].(next := after);
      pool[after] := pool[after].(prev := before);
      pool[t] := pool[t].(next := NULL, prev := NULL);
      assert pool[..] == Dequeued(p, t);
      ring := Without(ring, t);
    }

    /** dequeue_task: unlink t; the head moves on if it was t. */
    method Dequeue(t: nat)
      requires Consistent() && t in ring && Distinct(ring)
      modifies this`readyHead, this`ring, pool
      ensures Consistent() && Model() == old(Model()).(ring := Without(old(ring), t))
    {
      ghost var p, n := pool[..], |ring|;
      ghost var k :| 0 <= k < n && ring[k] == t;
      assert LinkedAt(p, ring, k);
      if pool[t].next == t {
        assert n == 1;
        readyHead := NULL;
        pool[t] := pool[t].(next := NULL, prev := NULL);
        ring := [];
        assert Tasks(pool[..]) == Tasks(p);
      } else {
        assert n > 1;
        Unlink(t, k);
      }
    }

    /** The do-while scan of schedule: the first candidate, or the head again. */
    method FindNext() returns (next: int, ghost k: nat)
      requires Valid() && ring != []
      ensures k == ScanFrom(Model(), 0)
      ensures next == if k < |ring| then ring[k] else ring[0]
    {
      ghost var s := Model();
      var prev, start := current, readyHead;
      next, k := readyHead, 0;
      while true
        invariant k < |ring| && next == ring[k]
        invariant forall j :: 0 <= j < k ==> !Candidate(s, ring[j])
        decreases |ring| - k
      {
        assert LinkedAt(pool[..], ring, k);
        assert s.pool[next] == pool[next].task;
        if pool[next].task.state.Ready? && next != prev { break; }
        assert !Candidate(s, ring[k]);
        next, k := pool[next].next, k + 1;
        if next == start { break; }
      }
      ScanIs(s, k);
    }

    /** schedule: scan, then switch the states and advance the head past the chosen task. */
    method Schedule()
      requires Valid()
      modifies this`readyHead, this`current, this`ring, pool
      ensures Valid() && Model() == SchedModel.Schedule(old(Model()))
    {
      if readyHead == NULL { return; }
      ghost var s := Model();
      assert Inv(SchedModel.Schedule(s)) by { ScheduleKeeps(s); }
      var prev := current;
      var next, k := FindNext();
      assert s.pool[next] == pool[next].task;
      if next == prev || !pool[next].task.state.Ready? { return; }
      assert LinkedAt(pool[..], ring, k);
      RotateLinks(pool[..], ring, k);
      readyHead := pool[next].next;
      current := next;
      ring := Rotated(ring, k);
      SwitchStates(next, prev);
    }

    /** The next task runs; the previous one is ready again if it was still running. */
    method SwitchStates(next: nat, prev: int)
      requires Consistent() && next < MAX_TASKS && NULL <= prev < MAX_TASKS
      modifies pool
      ensures Consistent()
      ensures var s := old(Model());
              Model() == s.(pool := Preempted(s.pool[next := s.pool[next].(state := Running)], if prev < 0 then None else Some(prev)))
    {
      ghost var s := Model();
      assert s.pool[next] == pool[next].task;
      SetTask(next, pool[next].task.(state := Running));
      if prev != NULL {
        assert Model().pool[prev] == pool[prev].task;
        if pool[prev].task.state.Running? { SetTask(prev, pool[prev].task.(state := Ready)); }
      }
    }

    method WakeSleepers(now: nat)
      requires Valid()
      modifies pool
      ensures Valid() && Model() == Awakened(old(Model()), now)
    {
      ghost var s := Model();
      var i := 0;
      while i < MAX_TASKS
        invariant 0 <= i <= MAX_TASKS && Consistent()
        invariant forall j :: 0 <= j < MAX_TASKS ==> Model().pool[j] == if j < i then Wake(s.pool[j], now) else s.pool[j]
      {
        var t := pool[i].task;
        assert s.pool[i] == t;
        if t.state.Sleeping? && t.wake <= now {
          SetTask(i, t.(state := Ready));
        }
        i := i + 1;
      }
      assert Model().pool == Awakened(s, now).pool;
      AwakenedKeeps(s, now);
    }

    /** The running task's time slice, refilled when it runs out. */
    method Charge(c: nat) returns (expired: bool)
      requires Consistent() && c < MAX_TASKS
      modifies pool
      ensures Consistent() && Model() == WithTask(old(Model()), c, TickTask(old(Model()).pool[c]))
      ensures expired <==> Expires(old(Model()).pool[c])
    {
      ghost var w := Model();
      assert w.pool[c] == pool[c].task;
      if pool[c].task.slice > 0 {
        SetTask(c, pool[c].task.(slice := pool[c].task.slice - 1));
      }
      assert Model().pool[c] == pool[c].task;
      expired := pool[c].task.slice == 0;
      if expired {
        SetTask(c, pool[c].task.(slice := 10 + pool[c].task.priority));
      }
    }

    /** sched_tick: wake sleepers in the whole pool, then charge the current task. */
    method Tick(now: nat)
      requires Valid()
      modifies this`readyHead, this`current, this`ring, pool
      ensures Valid() && Model() == SchedModel.Tick(old(Model()), now)
    {
      hide Inv, SchedModel.Schedule, Awakened, TickTask;
      ghost var s := Model();
      WakeSleepers(now);
      if current != NULL {
        ChargeKeeps(s, now);
        var expired := Charge(current);
        if expired { Schedule(); }
      }
    }

    /** task_yield. */
    method Yield()
      requires Valid() && Legal(Model(), Event.Yield)
      modifies this`readyHead, this`current, this`ring, pool
      ensures Valid() && Model() == Step(old(Model()), Event.Yield)
    {
      assert Model().pool[current] == pool[current].task;
      SetTask(current, pool[current].task.(slice := 0));
      Schedule();
    }

    /** task_sleep, with the wake-up tick already computed. */
    method Sleep(wake: nat)
      requires Valid() && Legal(Model(), Event.Sleep(wake))
      modifies this`readyHead, this`current, this`ring, pool
      ensures Valid() && Model() == Step(old(Model()), Event.Sleep(wake))
    {
      assert Model().pool[current] == pool[current].task;
      SetTask(current, pool[current].task.(wake := wake, state := Sleeping));
      Schedule();
    }

    method Bury(t: nat)
      requires Valid() && t in ring
      modifies this`readyHead, this`ring, pool
      ensures Valid() && Model() == Buried(old(Model()), t) && current == old(current)
    {
      ghost var s := Model();
      BuriedKeeps(s, t);
      assert s.pool[t] == pool[t].task;
      SetTask(t, pool[t].task.(state := Zombie));
      Dequeue(t);
    }

    /** task_exit, up to the final halt. */
    method Exit()
      requires Valid() && Legal(Model(), Event.Exit)
      modifies this`readyHead, this`current, this`ring, pool
      ensures Valid() && Model() == Step(old(Model()), Event.Exit)
    {
      Bury(current);
      Schedule();
    }

    /** task_find_by_pid. */
    method FindTask(pid: nat) returns (t: int)
      requires Valid()
      ensures t == match FindByPid(Model().pool, pid, 0) case None => NULL case Some(i) => i
    {
      ghost var s := Model();
      t := 0;
      while t < MAX_TASKS
        invariant 0 <= t <= MAX_TASKS && FindByPid(s.pool, pid, 0) == FindByPid(s.pool, pid, t)
      {
        assert s.pool[t] == pool[t].task;
        if pool[t].task.pid == pid && !pool[t].task.state.Dead? { return; }
        t := t + 1;
      }
      t := NULL;
    }

    /** task_kill. The task found is marked a zombie and leaves the ring. A zombie found again has null
        links, through which dequeue_task would store: safe is false there, and before the stores nothing
        has changed. */
    method Kill(pid: nat) returns (safe: bool)
      requires Valid() && current != NULL
      modifies this`readyHead, this`ring, pool
      ensures Valid()
      ensures var t := FindByPid(old(Model()).pool, pid, 0);
              && (safe <==> t.None? || t == old(Model()).current || t.value in old(ring))
              && Model() == if t.Some? && t.value in old(ring) then Step(old(Model()), Event.Kill(t.value)) else old(Model())
    {
      var t := FindTask(pid);
      if t == NULL || t == current { return true; }
      FoundInRing(Model(), pid);
      if t in ring { LinksInverse(pool[..], ring, t); }
      safe := pool[t].prev != NULL;
      if safe { Bury(t); } else { MarkAgain(t); }
    }

    /** Marking a zombie changes nothing. */
    method MarkAgain(t: nat)
      requires Valid() && t < MAX_TASKS && pool[t].task.state.Zombie?
      modifies pool
      ensures Valid() && Model() == old(Model())
    {
      ghost var s := Model();
      assert s.pool[t] == pool[t].task;
      SetTask(t, pool[t].task.(state := Zombie));
      assert s.pool[t := s.pool[t]] == s.pool;
    }

    /** The queue part of task_create. */
    method Create(slot: nat, pid: nat, priority: nat)
      requires Valid() && Legal(Model(), Event.Create(slot, pid, priority))
      modifies this`readyHead, this`ring, pool
      ensures Valid() && Model() == Step(old(Model()), Event.Create(slot, pid, priority))
    {
      SetTask(slot, Task(pid, Ready, priority, 10 + priority, 0));
      Enqueue(slot);
    }
  }

  lemma ScanIs(s: Sched, k: nat)
    requires Inv(s) && k <= |s.ring| && (k < |s.ring| ==> Candidate(s, s.ring[k]))
    requires forall j :: 0 <= j < k ==> !Candidate(s, s.ring[j])
    ensures ScanFrom(s, 0) == k
  {
  }
}
