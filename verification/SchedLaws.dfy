/** What each scheduler event does, said of the ring and the pool alone, and what that means over runs
    for a task that sleeps, runs or is preempted. */
module SchedLaws {
  import opened Common
  import opened SchedModel

  // -------------------------------------------------------------- one event

  ghost predicate IsReady(s: Sched, k: nat)
    requires k < |s.ring|
  {
    s.ring[k] < |s.pool| && s.pool[s.ring[k]].state == Ready && s.current != Some(s.ring[k])
  }

  /** What a task looks like after the one in slot t got the CPU. */
  ghost predicate Switched(s: Sched, r: Sched, t: nat, u: nat)
    requires u < |s.pool| == |r.pool|
  {
    r.pool[u] ==
      if u == t then s.pool[u].(state := Running)
      else if s.current == Some(u) && s.pool[u].state == Running then s.pool[u].(state := Ready)
      else s.pool[u]
  }

  /** The first ready task of the ring that is not current gets the CPU and moves to the end, with all
      that stood before it; the one that was running is ready. */
  ghost predicate Hands(s: Sched, r: Sched, k: nat)
    requires k < |s.ring|
  {
    && IsReady(s, k) && (forall j :: 0 <= j < k ==> !IsReady(s, j))
    && r.current == Some(s.ring[k]) && r.ring == s.ring[k + 1..] + s.ring[..k + 1] && |r.pool| == |s.pool|
    && forall u :: 0 <= u < |s.pool| ==> Switched(s, r, s.ring[k], u)
  }

  ghost predicate Dispatches(s: Sched, r: Sched) {
    || (exists k :: 0 <= k < |s.ring| && Hands(s, r, k))
    || ((forall k :: 0 <= k < |s.ring| ==> !IsReady(s, k)) && r == s)
  }

  lemma ScheduleLaw(s: Sched)
    requires Inv(s)
    ensures Dispatches(s, Schedule(s))
  {
    var k, r := ScanFrom(s, 0), Schedule(s);
    assert forall j :: 0 <= j < |s.ring| ==> (IsReady(s, j) <==> Candidate(s, s.ring[j]));
    if k < |s.ring| {
      forall u | 0 <= u < |s.pool| ensures Switched(s, r, s.ring[k], u) { }
      assert Hands(s, r, k);
    }
  }

  /** w is s with the sleepers ready whose tick has come. */
  ghost predicate Woken(s: Sched, w: Sched, now: nat) {
    && w.ring == s.ring && w.current == s.current && |w.pool| == |s.pool|
    && forall u :: 0 <= u < |s.pool| ==>
         w.pool[u] == if s.pool[u].state == Sleeping && s.pool[u].wake <= now then s.pool[u].(state := Ready) else s.pool[u]
  }

  /** A timer tick wakes the due sleepers and takes one tick off the current slice; a slice that is used
      up is filled again with 10 + priority, and the next task gets the CPU. */
  lemma TimerLaw(s: Sched, now: nat) returns (w: Sched)
    requires Inv(s) && Legal(s, Timer(now))
    ensures Woken(s, w, now)
    ensures var c := s.current.value; var t := w.pool[c];
            if t.slice > 1 then Step(s, Timer(now)) == w.(pool := w.pool[c := t.(slice := t.slice - 1)])
            else Dispatches(w.(pool := w.pool[c := t.(slice := 10 + t.priority)]), Step(s, Timer(now)))
  {
    hide Schedule, Dispatches;
    w := Awakened(s, now);
    ChargeKeeps(s, now);
    var c := s.current.value;
    var w' := WithTask(w, c, TickTask(w.pool[c]));
    if w.pool[c].slice <= 1 { ScheduleLaw(w'); }
  }

  /** task_yield: an empty slice, and the next task gets the CPU. task_sleep: the caller sleeps until its
      tick, still queued, and the next task gets the CPU. */
  lemma CallerLaw(s: Sched, wake: nat)
    requires Inv(s) && Legal(s, Yield)
    ensures var c := s.current.value; Dispatches(s.(pool := s.pool[c := s.pool[c].(slice := 0)]), Step(s, Yield))
    ensures var c := s.current.value;
            Dispatches(s.(pool := s.pool[c := s.pool[c].(state := Sleeping, wake := wake)]), Step(s, Event.Sleep(wake)))
  {
    hide Schedule, Dispatches;
    StepKeeps(s, Yield);
    StepKeeps(s, Event.Sleep(wake));
    var c := s.current.value;
    ScheduleLaw(WithTask(s, c, s.pool[c].(slice := 0)));
    ScheduleLaw(WithTask(s, c, s.pool[c].(wake := wake, state := Sleeping)));
  }

  /** b is s with the task at place k of the ring taken out as a zombie. */
  ghost predicate TakenOut(s: Sched, b: Sched, k: nat) {
    && k < |s.ring| && s.ring[k] < |s.pool| && b.current == s.current && b.ring == s.ring[..k] + s.ring[k + 1..]
    && b.pool == s.pool[s.ring[k] := s.pool[s.ring[k]].(state := Zombie)]
  }

  lemma {:induction false} WithoutPlace(ring: seq<nat>, t: nat) returns (k: nat)
    requires Distinct(ring) && t in ring
    ensures k < |ring| && ring[k] == t && Without(ring, t) == ring[..k] + ring[k + 1..]
  {
    if ring[0] == t {
      k := 0;
    } else {
      assert Distinct(ring[1..]) by { assert forall i :: 0 <= i < |ring| - 1 ==> ring[1..][i] == ring[i + 1]; }
      assert t in ring[1..] by { assert ring == [ring[0]] + ring[1..]; }
      var j := WithoutPlace(ring[1..], t);
      k := j + 1;
      assert [ring[0]] + (ring[1..][..j] + ring[1..][j + 1..]) == ring[..k] + ring[k + 1..];
    }
  }

  /** task_exit takes the caller out of the ring as a zombie and hands on the CPU; task_kill takes out any
      other task, and nothing else happens. */
  lemma EndLaw(s: Sched, t: nat) returns (b: Sched, k: nat)
    requires Inv(s) && Legal(s, Event.Kill(t))
    ensures TakenOut(s, b, k) && s.ring[k] == t
    ensures s.current == Some(t) ==> Dispatches(b, Step(s, Event.Exit)) && Step(s, Event.Kill(t)) == s
    ensures s.current != Some(t) ==> Step(s, Event.Kill(t)) == b
  {
    hide Schedule, Dispatches;
    k := WithoutPlace(s.ring, t);
    b := Buried(s, t);
    if s.current == Some(t) {
      BuriedKeeps(s, t);
      ScheduleLaw(b);
    }
  }

  /** task_create queues the new task last, ready, with a slice of 10 + priority. */
  lemma CreateLaw(s: Sched, slot: nat, pid: nat, priority: nat)
    requires Inv(s) && Legal(s, Create(slot, pid, priority))
    ensures var r := Step(s, Create(slot, pid, priority));
            && r.ring == s.ring + [slot] && r.current == s.current && |r.pool| == |s.pool| == 256
            && forall u :: 0 <= u < |s.pool| ==>
                 r.pool[u] == if u == slot then Task(pid, Ready, priority, 10 + priority, 0) else s.pool[u]
  {
  }

  /** What sched_init leaves: 256 slots, all dead but slot 0, the idle task, ready with an empty slice,
      queued and current. */
  lemma InitialLaw()
    ensures var s := Initial();
            && s.ring == [0] && s.current == Some(0) && |s.pool| == 256 && s.pool[0] == Task(0, Ready, 0, 0, 0)
            && forall t :: 0 < t < 256 ==> s.pool[t] == Task(0, Dead, 0, 0, 0)
  {
  }

  // ------------------------------------------------------------------ sleepers

  /** A sleeper stays asleep through a tick exactly when its own tick has not come. */
  lemma TimerWakes(s: Sched, now: nat, t: nat)
    requires Inv(s) && Legal(s, Timer(now)) && t < |s.pool| && s.pool[t].state.Sleeping?
    ensures |Step(s, Timer(now)).pool| == |s.pool|
    ensures Step(s, Timer(now)).pool[t].state.Sleeping? <==> now < s.pool[t].wake
  {
    hide Step, Dispatches;
    var c := s.current.value;
    var w := TimerLaw(s, now);
    if w.pool[c].slice <= 1 {
      StateStays(w.(pool := w.pool[c := w.pool[c].(slice := 10 + w.pool[c].priority)]), Step(s, Timer(now)), t);
    }
  }

  /** Handing on the CPU puts nobody to sleep and wakes nobody. */
  lemma StateStays(s: Sched, r: Sched, t: nat)
    requires Dispatches(s, r) && t < |s.pool|
    ensures |r.pool| == |s.pool| && (r.pool[t].state.Sleeping? <==> s.pool[t].state.Sleeping?)
  {
    if k :| 0 <= k < |s.ring| && Hands(s, r, k) {
      assert IsReady(s, k) && Switched(s, r, s.ring[k], t);
    }
  }

  ghost predicate Asleep(s: Sched, t: nat, wake: nat) {
    Inv(s) && s.current.Some? && t in s.ring && s.current != Some(t) && s.pool[t].state.Sleeping? && s.pool[t].wake == wake
  }

  /** No timer of the run reaches this tick, and nobody kills t. */
  ghost predicate TooEarly(es: seq<Event>, t: nat, wake: nat) {
    forall i :: 0 <= i < |es| ==> es[i] != Kill(t) && (es[i].Timer? ==> es[i].now < wake)
  }

  lemma DispatchKeepsAsleep(s: Sched, r: Sched, t: nat, wake: nat)
    requires Dispatches(s, r) && Inv(r) && r.current.Some?
    requires s.current != Some(t) && t < |s.pool| && t in s.ring && s.pool[t].state.Sleeping? && s.pool[t].wake == wake
    ensures Asleep(r, t, wake)
  {
    if k :| 0 <= k < |s.ring| && Hands(s, r, k) {
      assert IsReady(s, k) && s.ring[k] != t;
      assert s.ring == s.ring[..k + 1] + s.ring[k + 1..];
      assert Switched(s, r, s.ring[k], t);
    }
  }

  lemma StaysAsleep(s: Sched, e: Event, t: nat, wake: nat)
    requires Asleep(s, t, wake) && Legal(s, e) && e != Kill(t) && (e.Timer? ==> e.now < wake)
    ensures Asleep(Step(s, e), t, wake)
  {
    hide Step, Dispatches, Hands;
    var c, r := s.current.value, Step(s, e);
    match e
    case Timer(now) =>
      var w := TimerLaw(s, now);
      if w.pool[c].slice <= 1 { DispatchKeepsAsleep(w.(pool := w.pool[c := w.pool[c].(slice := 10 + w.pool[c].priority)]), r, t, wake); }
    case Yield =>
      CallerLaw(s, 0);
      DispatchKeepsAsleep(s.(pool := s.pool[c := s.pool[c].(slice := 0)]), r, t, wake);
    case Sleep(tick) =>
      CallerLaw(s, tick);
      DispatchKeepsAsleep(s.(pool := s.pool[c := s.pool[c].(state := Sleeping, wake := tick)]), r, t, wake);
    case Exit =>
      var b, k := EndLaw(s, c);
      InWithout(s.ring, k, t);
      DispatchKeepsAsleep(b, r, t, wake);
    case Kill(u) =>
      var b, k := EndLaw(s, u);
      InWithout(s.ring, k, t);
    case Create(slot, pid, priority) =>
      CreateLaw(s, slot, pid, priority);
  }

  lemma InWithout(ring: seq<nat>, k: nat, t: nat)
    requires k < |ring| && t in ring && ring[k] != t
    ensures t in ring[..k] + ring[k + 1..]
  {
    var i :| 0 <= i < |ring| && ring[i] == t;
    assert i < k ==> (ring[..k] + ring[k + 1..])[i] == t;
    assert i > k ==> (ring[..k] + ring[k + 1..])[i - 1] == t;
  }

  /** A sleeper sleeps: as long as no timer reaches its tick, it is not dispatched, whatever else
      happens. */
  lemma {:induction false} SleepsOn(s: Sched, es: seq<Event>, t: nat, wake: nat)
    requires Asleep(s, t, wake) && LegalRun(s, es) && TooEarly(es, t, wake)
    ensures !Dispatched(s, es, t) && Asleep(After(s, es), t, wake)
    decreases |es|
  {
    if es != [] {
      StaysAsleep(s, es[0], t, wake);
      SleepsOn(Step(s, es[0]), es[1..], t, wake);
    }
  }

  /** The first timer that reaches its tick makes it wait for the CPU, or gives it the CPU. */
  lemma WakesUp(s: Sched, now: nat, t: nat, wake: nat)
    requires Asleep(s, t, wake) && Legal(s, Timer(now)) && wake <= now
    ensures Step(s, Timer(now)).current == Some(t) || Waits(Step(s, Timer(now)), t)
  {
    hide Step, Hands;
    var c, r := s.current.value, Step(s, Timer(now));
    var w := TimerLaw(s, now);
    if w.pool[c].slice <= 1 {
      StillWaits(w.(pool := w.pool[c := w.pool[c].(slice := 10 + w.pool[c].priority)]), r, t);
    }
  }

  lemma StillWaits(s: Sched, r: Sched, t: nat)
    requires Dispatches(s, r) && Inv(r) && r.current.Some?
    requires s.current != Some(t) && t < |s.pool| && t in s.ring && s.pool[t].state.Ready?
    ensures r.current == Some(t) || Waits(r, t)
  {
    if k :| 0 <= k < |s.ring| && Hands(s, r, k) {
      assert s.ring == s.ring[..k + 1] + s.ring[k + 1..];
      assert Switched(s, r, s.ring[k], t);
    }
  }

  /** The latency of a sleep: from the first timer at or after its tick, the task gets the CPU within as
      many schedules, or ticks, as BoundedWaiting grants a ready task at its place in the ring. */
  lemma SleepLatency(s: Sched, es: seq<Event>, mid: Sched, now: nat, r: Sched, fs: seq<Event>, t: nat, wake: nat, p: nat)
    requires Asleep(s, t, wake) && LegalRun(s, es) && TooEarly(es, t, wake) && mid == After(s, es)
    requires Inv(mid) && Legal(mid, Timer(now)) && wake <= now && r == Step(mid, Timer(now))
    requires LegalRun(r, fs) && PrioritiesUpTo(r, p) && Spares(fs, t, p)
    ensures !Dispatched(s, es, t) && (r.current == Some(t) || Waits(r, t))
    ensures r.current != Some(t) ==>
              && (Ticks(fs) >= (Distance(r.ring, t) + 1) * (10 + p) ==> Dispatched(r, fs, t))
              && (TotalCalls(r, fs) >= Distance(r.ring, t) + 1 ==> Dispatched(r, fs, t))
  {
    hide Step, After, LegalRun, Legal, Dispatched, Ticks, TotalCalls, Distance, TooEarly, Spares, PrioritiesUpTo;
    SleepsOn(s, es, t, wake);
    WakesUp(mid, now, t, wake);
    if r.current != Some(t) { BoundedWaiting(r, fs, t, p); }
  }

  // ------------------------------------------------------------ the running task

  /** A task that loses the CPU while it runs waits for its next turn. */
  lemma PreemptedWaits(s: Sched, e: Event)
    requires Inv(s) && Legal(s, e) && (e.Timer? || e.Yield?) && s.pool[s.current.value].state.Running?
    ensures var c, r := s.current.value, Step(s, e);
            (r.current == s.current && r.pool[c].state.Running?) || (s.current.value in s.ring && Waits(r, c))
  {
    hide Step, Hands, Dispatches;
    var c, r := s.current.value, Step(s, e);
    if e.Yield? {
      CallerLaw(s, 0);
      LosesCpu(s.(pool := s.pool[c := s.pool[c].(slice := 0)]), r, c);
    } else {
      var w := TimerLaw(s, e.now);
      if w.pool[c].slice <= 1 { LosesCpu(w.(pool := w.pool[c := w.pool[c].(slice := 10 + w.pool[c].priority)]), r, c); }
    }
  }

  lemma LosesCpu(s: Sched, r: Sched, c: nat)
    requires Dispatches(s, r) && Inv(r) && r.current.Some? && s.current == Some(c) && c < |s.pool| && c in s.ring && s.pool[c].state.Running?
    ensures (r.current == s.current && r.pool[c].state.Running?) || Waits(r, c)
  {
    if k :| 0 <= k < |s.ring| && Hands(s, r, k) {
      assert IsReady(s, k);
      assert s.ring == s.ring[..k + 1] + s.ring[k + 1..];
      assert Switched(s, r, s.ring[k], c);
    }
  }

  /** Left alone, the current task keeps the CPU for exactly its slice: through every tick but the last,
      and then the next ready task has it. */
  lemma {:induction false} KeepsItsSlice(s: Sched, es: seq<Event>)
    requires Inv(s) && s.current.Some? && LegalRun(s, es) && forall i :: 0 <= i < |es| ==> es[i].Timer?
    ensures var c := s.current.value; |es| < s.pool[c].slice ==>
              After(s, es).current == Some(c) && Inv(After(s, es)) && After(s, es).pool[c].slice == s.pool[c].slice - |es|
    decreases |es|
  {
    var c := s.current.value;
    if es != [] && |es| < s.pool[c].slice {
      var w := TimerLaw(s, es[0].now);
      KeepsItsSlice(Step(s, es[0]), es[1..]);
    }
  }

  lemma SliceEnds(s: Sched, now: nat, t: nat)
    requires Inv(s) && Legal(s, Timer(now)) && s.pool[s.current.value].slice <= 1 && Waits(s, t)
    ensures Step(s, Timer(now)).current != s.current
  {
    hide Step, Hands;
    var w := TimerLaw(s, now);
    var c := s.current.value;
    var w' := w.(pool := w.pool[c := w.pool[c].(slice := 10 + w.pool[c].priority)]);
    var i :| 0 <= i < |s.ring| && s.ring[i] == t;
    assert IsReady(w', i);
    var k :| 0 <= k < |w'.ring| && Hands(w', Step(s, Timer(now)), k);
    assert Hands(w', Step(s, Timer(now)), k) ==> IsReady(w', k) && Step(s, Timer(now)).current == Some(w'.ring[k]) by { HandsIs(w', Step(s, Timer(now)), k); }
  }

  lemma HandsIs(s: Sched, r: Sched, k: nat)
    requires k < |s.ring| && Hands(s, r, k)
    ensures IsReady(s, k) && r.current == Some(s.ring[k])
  {
  }
}
