/** The round-robin scheduler of kernel/sched/scheduler.c as a pure state machine: the ready
    ring as a sequence that starts at ready_head, the running task, and the task pool.
    Context switches change no scheduler data and are not represented. */
module SchedModel {
  import opened Common

  const MAX_TASKS: nat := 256

  datatype State = Ready | Running | Sleeping | Blocked | Zombie | Dead

  datatype Task = Task(pid: nat, state: State, priority: nat, slice: nat, wake: nat)

  /** Tasks are named by their slot in the pool. */
  datatype Sched = Sched(ring: seq<nat>, current: Option<nat>, pool: seq<Task>)

  // ---------------------------------------------------------------- invariant

  predicate InRing(state: State) { state.Ready? || state.Running? || state.Sleeping? || state.Blocked? }

  /** The ring holds exactly the live tasks once each; only the current task can be running;
      no slice exceeds 10 + priority. */
  ghost predicate Inv(s: Sched) {
    && |s.pool| == MAX_TASKS
    && Distinct(s.ring)
    && (forall i :: 0 <= i < |s.ring| ==> s.ring[i] < MAX_TASKS)
    && (forall t :: 0 <= t < MAX_TASKS ==> (InRing(s.pool[t].state) <==> t in s.ring))
    && (s.current.Some? ==> s.current.value < MAX_TASKS)
    && (forall t :: 0 <= t < MAX_TASKS && s.pool[t].state.Running? ==> s.current == Some(t))
    && (forall t :: 0 <= t < MAX_TASKS ==> s.pool[t].slice <= 10 + s.pool[t].priority)
  }

  // --------------------------------------------------------------- operations

  predicate Candidate(s: Sched, t: nat)
    requires t < |s.pool|
  {
    s.pool[t].state.Ready? && s.current != Some(t)
  }

  /** The scan of schedule(): the first candidate at or after position i of the ring. */
  function ScanFrom(s: Sched, i: nat): (k: nat)
    requires i <= |s.ring| && forall j :: 0 <= j < |s.ring| ==> s.ring[j] < |s.pool|
    ensures i <= k <= |s.ring|
    ensures k < |s.ring| ==> Candidate(s, s.ring[k])
    ensures forall j :: i <= j < k ==> !Candidate(s, s.ring[j])
    decreases |s.ring| - i
  {
    if i == |s.ring| then i
    else if Candidate(s, s.ring[i]) then i
    else ScanFrom(s, i + 1)
  }

  function Rotated(ring: seq<nat>, k: nat): seq<nat>
    requires k < |ring|
  {
    ring[k + 1..] + ring[..k + 1]
  }

  /** The previous task goes back to ready only if it was still running. */
  function Preempted(pool: seq<Task>, prev: Option<nat>): seq<Task>
    requires prev.Some? ==> prev.value < |pool|
  {
    if prev.Some? && pool[prev.value].state.Running? then
      pool[prev.value := pool[prev.value].(state := Ready)]
    else pool
  }

  function Schedule(s: Sched): Sched
    requires Inv(s)
  {
    var k := ScanFrom(s, 0);
    if k == |s.ring| then s
    else
      var t := s.ring[k];
      Sched(Rotated(s.ring, k), Some(t), Preempted(s.pool[t := s.pool[t].(state := Running)], s.current))
  }

  function Wake(t: Task, now: nat): Task {
    if t.state.Sleeping? && t.wake <= now then t.(state := Ready) else t
  }

  function Awakened(s: Sched, now: nat): Sched {
    s.(pool := seq(|s.pool|, i requires 0 <= i < |s.pool| => Wake(s.pool[i], now)))
  }

  /** Whether a tick uses up the current slice. */
  predicate Expires(t: Task) { t.slice <= 1 }

  function WithTask(s: Sched, t: nat, task: Task): Sched
    requires t < |s.pool|
  {
    s.(pool := s.pool[t := task])
  }

  function TickTask(t: Task): Task {
    t.(slice := if Expires(t) then 10 + t.priority else t.slice - 1)
  }

  function Tick(s: Sched, now: nat): Sched
    requires Inv(s)
  {
    var w := Awakened(s, now);
    AwakenedKeeps(s, now);
    if s.current.None? then w
    else
      var c := s.current.value;
      var w' := WithTask(w, c, TickTask(w.pool[c]));
      if Expires(w.pool[c]) then Schedule(w') else w'
  }

  function Without(ring: seq<nat>, t: nat): seq<nat>
  {
    if ring == [] then [] else if ring[0] == t then ring[1..] else [ring[0]] + Without(ring[1..], t)
  }

  /** Zombies leave the ring. */
  function Buried(s: Sched, t: nat): Sched
    requires t < |s.pool|
  {
    Sched(Without(s.ring, t), s.current, s.pool[t := s.pool[t].(state := Zombie)])
  }

  datatype Event =
    | Timer(now: nat)
    | Yield
    | Sleep(wake: nat)
    | Exit
    | Kill(target: nat)
    | Create(slot: nat, pid: nat, priority: nat)

  /** What the kernel needs of a caller: the calling task is in the ring; a victim is in the
      ring; a new slot is neither in the ring nor current. */
  ghost predicate Legal(s: Sched, e: Event) {
    match e
    case Timer(_) => s.current.Some?
    case Yield => s.current.Some? && s.current.value in s.ring
    case Sleep(_) => s.current.Some? && s.current.value in s.ring
    case Exit => s.current.Some? && s.current.value in s.ring
    case Kill(t) => s.current.Some? && t in s.ring
    case Create(t, _, _) => s.current.Some? && t < MAX_TASKS && t !in s.ring && s.current != Some(t)
  }

  ghost function Step(s: Sched, e: Event): (r: Sched)
    requires Inv(s) && Legal(s, e)
    ensures Inv(r) && r.current.Some?
  {
    StepKeeps(s, e);
    match e
    case Timer(now) => Tick(s, now)
    case Yield =>
      var c := s.current.value; Schedule(WithTask(s, c, s.pool[c].(slice := 0)))
    case Sleep(wake) =>
      var c := s.current.value; Schedule(WithTask(s, c, s.pool[c].(wake := wake, state := Sleeping)))
    case Exit => Schedule(Buried(s, s.current.value))
    case Kill(t) => if s.current == Some(t) then s else Buried(s, t)
    case Create(t, pid, priority) =>
      Sched(s.ring + [t], s.current, s.pool[t := Task(pid, Ready, priority, 10 + priority, 0)])
  }

  /** task_find_by_pid, from slot i on: the first slot with this pid that is not dead. */
  function FindByPid(pool: seq<Task>, pid: nat, i: nat): (r: Option<nat>)
    requires i <= |pool|
    ensures r.Some? ==> i <= r.value < |pool| && pool[r.value].pid == pid && !pool[r.value].state.Dead?
    ensures r.None? ==> forall j :: i <= j < |pool| ==> pool[j].pid != pid || pool[j].state.Dead?
    decreases |pool| - i
  {
    if i == |pool| then None
    else if pool[i].pid == pid && !pool[i].state.Dead? then Some(i)
    else FindByPid(pool, pid, i + 1)
  }

  /** A zombie is still found by its pid, and is then the one slot found that is not queued. */
  lemma FoundInRing(s: Sched, pid: nat)
    requires Inv(s) && FindByPid(s.pool, pid, 0).Some?
    ensures var t := FindByPid(s.pool, pid, 0).value; t in s.ring <==> !s.pool[t].state.Zombie?
  {
  }

  /** What sched_init leaves: every slot dead but slot 0, the idle task, current and alone. */
  function Initial(): Sched {
    Sched([0], Some(0), seq(MAX_TASKS, i => if i == 0 then Task(0, Ready, 0, 0, 0) else Task(0, Dead, 0, 0, 0)))
  }

  lemma InitialIs()
    ensures Inv(Initial())
  {
  }

  // ------------------------------------------------- every operation keeps Inv

  lemma AwakenedKeeps(s: Sched, now: nat)
    requires Inv(s)
    ensures Inv(Awakened(s, now))
  {
  }

  lemma ScheduleKeeps(s: Sched)
    requires Inv(s)
    ensures Inv(Schedule(s))
    ensures s.current.Some? ==> Schedule(s).current.Some?
  {
    var k := ScanFrom(s, 0);
    if k < |s.ring| {
      var t, r := s.ring[k], Rotated(s.ring, k);
      RotatedAt(s.ring, k);
      var p1 := s.pool[t := s.pool[t].(state := Running)];
      assert forall u :: 0 <= u < MAX_TASKS ==> (InRing(p1[u].state) <==> u in r);
    }
  }

  lemma RotatedAt(ring: seq<nat>, k: nat)
    requires k < |ring|
    ensures |Rotated(ring, k)| == |ring|
    ensures forall t :: t in Rotated(ring, k) <==> t in ring
    ensures Distinct(ring) ==> Distinct(Rotated(ring, k))
  {
    assert ring == ring[..k + 1] + ring[k + 1..];
  }

  /** Removing t: everything else keeps its order and moves up by at most one place. */
  lemma {:induction false} WithoutIs(ring: seq<nat>, t: nat)
    requires Distinct(ring)
    ensures Distinct(Without(ring, t))
    ensures forall u :: u in Without(ring, t) <==> u in ring && u != t
  {
    if ring != [] {
      assert Distinct(ring[1..]) by { assert forall i :: 0 <= i < |ring| - 1 ==> ring[1..][i] == ring[i + 1]; }
      WithoutIs(ring[1..], t);
      assert ring == [ring[0]] + ring[1..];
      assert ring[0] !in ring[1..];
      if ring[0] != t {
        var w := Without(ring[1..], t);
        assert ring[0] !in w;
        assert forall i :: 0 < i < |[ring[0]] + w| ==> ([ring[0]] + w)[i] == w[i - 1];
      }
    }
  }

  lemma BuriedKeeps(s: Sched, t: nat)
    requires Inv(s) && t in s.ring && (s.pool[t].state.Running? ==> s.current == Some(t))
    ensures Inv(Buried(s, t))
  {
    WithoutIs(s.ring, t);
    var w := Without(s.ring, t);
    forall i | 0 <= i < |w|
      ensures w[i] < MAX_TASKS
    {
      assert w[i] in s.ring;
    }
  }

  /** Charging the current task, with or without expiry, keeps the invariant. */
  lemma ChargeKeeps(s: Sched, now: nat)
    requires Inv(s) && s.current.Some?
    ensures Inv(Tick(s, now)) && Tick(s, now).current.Some?
    ensures Inv(WithTask(Awakened(s, now), s.current.value, TickTask(Awakened(s, now).pool[s.current.value])))
  {
    hide Schedule, ScanFrom;
    AwakenedKeeps(s, now);
    var w, c := Awakened(s, now), s.current.value;
    assert Inv(WithTask(w, c, TickTask(w.pool[c])));
    if Expires(w.pool[c]) { ScheduleKeeps(WithTask(w, c, TickTask(w.pool[c]))); }
  }

  lemma StepKeeps(s: Sched, e: Event)
    requires Inv(s) && Legal(s, e)
    ensures match e
            case Timer(now) => Inv(Tick(s, now)) && Tick(s, now).current.Some?
            case Yield =>
              var s1 := WithTask(s, s.current.value, s.pool[s.current.value].(slice := 0));
              Inv(s1) && Inv(Schedule(s1)) && Schedule(s1).current.Some?
            case Sleep(wake) =>
              var s1 := WithTask(s, s.current.value, s.pool[s.current.value].(wake := wake, state := Sleeping));
              Inv(s1) && Inv(Schedule(s1)) && Schedule(s1).current.Some?
            case Exit =>
              var s1 := Buried(s, s.current.value); Inv(s1) && Inv(Schedule(s1)) && Schedule(s1).current.Some?
            case Kill(t) => Inv(Buried(s, t))
            case Create(t, pid, priority) =>
              Inv(Sched(s.ring + [t], s.current, s.pool[t := Task(pid, Ready, priority, 10 + priority, 0)]))
  {
    hide Schedule, Awakened, ScanFrom;
    match e
    case Timer(now) => ChargeKeeps(s, now);
    case Yield =>
      ScheduleKeeps(WithTask(s, s.current.value, s.pool[s.current.value].(slice := 0)));
    case Sleep(wake) =>
      ScheduleKeeps(WithTask(s, s.current.value, s.pool[s.current.value].(wake := wake, state := Sleeping)));
    case Exit =>
      BuriedKeeps(s, s.current.value);
      ScheduleKeeps(Buried(s, s.current.value));
    case Kill(t) => BuriedKeeps(s, t);
    case Create(t, pid, priority) =>
  }

  // --------------------------------------------------------- bounded waiting

  /** How far t is from ready_head. */
  function Distance(ring: seq<nat>, t: nat): (d: nat)
    requires t in ring
    ensures d < |ring| && ring[d] == t
    ensures forall j :: 0 <= j < d ==> ring[j] != t
  {
    if ring[0] == t then 0 else 1 + Distance(ring[1..], t)
  }

  /** t is in the ring, ready, and not the current task. */
  ghost predicate Waits(s: Sched, t: nat) {
    Inv(s) && s.current.Some? && t in s.ring && s.current != Some(t) && s.pool[t].state.Ready?
  }

  ghost predicate PrioritiesUpTo(s: Sched, p: nat) {
    forall t :: 0 <= t < |s.pool| ==> s.pool[t].priority <= p
  }

  /** The number of schedule() calls the event makes. */
  function Calls(s: Sched, e: Event): nat
    requires e.Timer? && s.current.Some? ==> s.current.value < |s.pool|
  {
    match e
    case Timer(_) => if s.current.Some? && Expires(s.pool[s.current.value]) then 1 else 0
    case Yield => 1
    case Sleep(_) => 1
    case Exit => 1
    case Kill(_) => 0
    case Create(_, _, _) => 0
  }

  /** One call of schedule() either dispatches t or brings it strictly closer to the head. */
  lemma ScheduleApproaches(s: Sched, t: nat)
    requires Waits(s, t)
    ensures var r := Schedule(s);
            r.current == Some(t) || (Waits(r, t) && Distance(r.ring, t) < Distance(s.ring, t))
  {
    var k, d := ScanFrom(s, 0), Distance(s.ring, t);
    assert k <= d by { assert Candidate(s, s.ring[d]); }
    assert Inv(Schedule(s)) by { ScheduleKeeps(s); }
    if k < d {
      RotatedDistance(s.ring, k, t);
      assert s.ring[k] != t;
    }
  }

  lemma RotatedDistance(ring: seq<nat>, k: nat, t: nat)
    requires Distinct(ring) && t in ring && k < Distance(ring, t)
    ensures t in Rotated(ring, k) && Distance(Rotated(ring, k), t) == Distance(ring, t) - k - 1
  {
    var d := Distance(ring, t);
    RotatedAt(ring, k);
    assert Rotated(ring, k)[d - k - 1] == ring[d];
    PositionIs(Rotated(ring, k), t, d - k - 1);
  }

  lemma PositionIs(ring: seq<nat>, t: nat, i: nat)
    requires Distinct(ring) && i < |ring| && ring[i] == t
    ensures t in ring && Distance(ring, t) == i
  {
  }

  /** Removing another task never moves t away from the head. */
  lemma {:induction false} WithoutApproaches(ring: seq<nat>, u: nat, t: nat)
    requires t in ring && u != t
    ensures t in Without(ring, u) && Distance(Without(ring, u), t) <= Distance(ring, t)
  {
    if ring[0] != u && ring[0] != t {
      WithoutApproaches(ring[1..], u, t);
      assert ([ring[0]] + Without(ring[1..], u))[1..] == Without(ring[1..], u);
    }
  }

  lemma {:induction false} AppendKeepsDistance(ring: seq<nat>, u: nat, t: nat)
    requires t in ring
    ensures Distance(ring + [u], t) == Distance(ring, t)
  {
    if ring[0] != t {
      AppendKeepsDistance(ring[1..], u, t);
      assert (ring + [u])[1..] == ring[1..] + [u];
    }
  }

  /** The ranking function: distance first, then what is left of the current slice. */
  ghost function Rank(s: Sched, t: nat, p: nat): nat
    requires Waits(s, t)
  {
    var slice := s.pool[s.current.value].slice;
    Distance(s.ring, t) * (10 + p) + if slice == 0 then 1 else slice
  }

  /** After schedule() the rank is at most what distance alone was worth before. */
  lemma ScheduleRank(s: Sched, t: nat, p: nat)
    requires Waits(s, t) && PrioritiesUpTo(s, p)
    ensures var r := Schedule(s);
            && PrioritiesUpTo(r, p)
            && (r.current == Some(t) ||
                (Waits(r, t) && Distance(r.ring, t) < Distance(s.ring, t) && Rank(r, t, p) <= Distance(s.ring, t) * (10 + p)))
  {
    hide Schedule, Distance, Inv, PrioritiesUpTo;
    ScheduleKeepsPriorities(s, p);
    ScheduleApproaches(s, t);
    var r := Schedule(s);
    if r.current != Some(t) {
      RankBound(r, t, p);
      Scaled(Distance(r.ring, t) + 1, Distance(s.ring, t), p);
    }
  }

  lemma ScheduleKeepsPriorities(s: Sched, p: nat)
    requires Inv(s) && PrioritiesUpTo(s, p)
    ensures PrioritiesUpTo(Schedule(s), p)
  {
    forall u | 0 <= u < MAX_TASKS
      ensures Schedule(s).pool[u].priority == s.pool[u].priority
    {
    }
  }

  lemma RankBound(s: Sched, t: nat, p: nat)
    requires Waits(s, t) && PrioritiesUpTo(s, p)
    ensures Rank(s, t, p) <= (Distance(s.ring, t) + 1) * (10 + p)
  {
    var d, c := Distance(s.ring, t), s.current.value;
    assert s.pool[c].slice <= 10 + s.pool[c].priority;
    assert (d + 1) * (10 + p) == d * (10 + p) + (10 + p);
  }

  /** Every event but a kill of t either dispatches t, or keeps it waiting with a distance
      reduced by every schedule() call and a rank reduced by every timer tick. */
  ghost predicate Progress(s: Sched, e: Event, r: Sched, t: nat, p: nat)
    requires Waits(s, t) && Legal(s, e)
  {
    && PrioritiesUpTo(r, p)
    && (r.current == Some(t) ||
        (&& Waits(r, t)
         && Distance(r.ring, t) + Calls(s, e) <= Distance(s.ring, t)
         && Rank(r, t, p) + (if e.Timer? then 1 else 0) <= Rank(s, t, p)))
  }

  lemma TimerProgress(s: Sched, now: nat, t: nat, p: nat)
    requires Waits(s, t) && PrioritiesUpTo(s, p)
    ensures Progress(s, Timer(now), Step(s, Timer(now)), t, p)
  {
    var c := s.current.value;
    AwakenedKeeps(s, now);
    var w := Awakened(s, now);
    var w' := WithTask(w, c, TickTask(w.pool[c]));
    assert Waits(w', t) && PrioritiesUpTo(w', p);
    if Expires(w.pool[c]) { ScheduleRank(w', t, p); }
  }

  lemma CallerProgress(s: Sched, e: Event, t: nat, p: nat)
    requires Waits(s, t) && Legal(s, e) && PrioritiesUpTo(s, p) && (e.Yield? || e.Sleep?)
    ensures Progress(s, e, Step(s, e), t, p)
  {
    var c := s.current.value;
    var s1 := WithTask(s, c, if e.Yield? then s.pool[c].(slice := 0) else s.pool[c].(wake := e.wake, state := Sleeping));
    assert Waits(s1, t) && PrioritiesUpTo(s1, p);
    ScheduleRank(s1, t, p);
  }

  /** Burying another task leaves t waiting, no further from the head. */
  lemma BuriedWaits(s: Sched, u: nat, t: nat, p: nat)
    requires Waits(s, t) && PrioritiesUpTo(s, p) && u in s.ring && u != t
    requires s.pool[u].state.Running? ==> s.current == Some(u)
    ensures var s1 := Buried(s, u);
            && Waits(s1, t) && PrioritiesUpTo(s1, p)
            && Distance(s1.ring, t) <= Distance(s.ring, t) && Distance(s1.ring, t) * (10 + p) <= Distance(s.ring, t) * (10 + p)
  {
    BuriedKeeps(s, u);
    WithoutApproaches(s.ring, u, t);
    Scaled(Distance(Without(s.ring, u), t), Distance(s.ring, t), p);
  }

  lemma ExitProgress(s: Sched, t: nat, p: nat)
    requires Waits(s, t) && Legal(s, Exit) && PrioritiesUpTo(s, p)
    ensures Progress(s, Exit, Step(s, Exit), t, p)
  {
    hide Buried, Without, Distance, Schedule;
    BuriedWaits(s, s.current.value, t, p);
    ScheduleRank(Buried(s, s.current.value), t, p);
  }

  lemma Scaled(a: nat, b: nat, p: nat)
    requires a <= b
    ensures a * (10 + p) <= b * (10 + p)
  {
  }

  lemma KillProgress(s: Sched, u: nat, t: nat, p: nat)
    requires Waits(s, t) && Legal(s, Kill(u)) && PrioritiesUpTo(s, p) && u != t
    ensures Progress(s, Kill(u), Step(s, Kill(u)), t, p)
  {
    WithoutApproaches(s.ring, u, t);
    Scaled(Distance(Without(s.ring, u), t), Distance(s.ring, t), p);
  }

  lemma CreateProgress(s: Sched, e: Event, t: nat, p: nat)
    requires Waits(s, t) && Legal(s, e) && PrioritiesUpTo(s, p) && e.Create? && e.priority <= p
    ensures Progress(s, e, Step(s, e), t, p)
  {
    AppendKeepsDistance(s.ring, e.slot, t);
  }

  ghost predicate LegalRun(s: Sched, es: seq<Event>)
    requires Inv(s)
    decreases |es|
  {
    es == [] || (Legal(s, es[0]) && LegalRun(Step(s, es[0]), es[1..]))
  }

  /** No event kills t, and no created task has a priority above p. */
  ghost predicate Spares(es: seq<Event>, t: nat, p: nat) {
    forall i :: 0 <= i < |es| ==> es[i] != Kill(t) && (es[i].Create? ==> es[i].priority <= p)
  }

  /** t is the current task at some point of the run. */
  ghost predicate Dispatched(s: Sched, es: seq<Event>, t: nat)
    requires Inv(s) && LegalRun(s, es)
    decreases |es|
  {
    s.current == Some(t) || (es != [] && Dispatched(Step(s, es[0]), es[1..], t))
  }

  ghost function TotalCalls(s: Sched, es: seq<Event>): nat
    requires Inv(s) && LegalRun(s, es)
    decreases |es|
  {
    if es == [] then 0 else Calls(s, es[0]) + TotalCalls(Step(s, es[0]), es[1..])
  }

  function Ticks(es: seq<Event>): nat {
    if es == [] then 0 else (if es[0].Timer? then 1 else 0) + Ticks(es[1..])
  }

  lemma {:induction false} StillWaiting(s: Sched, es: seq<Event>, t: nat, p: nat)
    requires Waits(s, t) && PrioritiesUpTo(s, p) && LegalRun(s, es) && Spares(es, t, p)
    requires !Dispatched(s, es, t)
    ensures TotalCalls(s, es) <= Distance(s.ring, t)
    ensures Ticks(es) < Rank(s, t, p)
    decreases |es|
  {
    if es != [] {
      var e, r := es[0], Step(s, es[0]);
      match e {
        case Timer(now) => TimerProgress(s, now, t, p);
        case Yield => CallerProgress(s, e, t, p);
        case Sleep(_) => CallerProgress(s, e, t, p);
        case Exit => ExitProgress(s, t, p);
        case Kill(u) => KillProgress(s, u, t, p);
        case Create(_, _, _) => CreateProgress(s, e, t, p);
      }
      StillWaiting(r, es[1..], t, p);
    }
  }

  /** Bounded waiting: a ready task at distance d is dispatched within d + 1 schedule() calls,
      and within (d + 1) * (10 + p) timer ticks when no priority exceeds p, whatever other tasks
      are created, killed, put to sleep, woken, or yield meanwhile. */
  lemma BoundedWaiting(s: Sched, es: seq<Event>, t: nat, p: nat)
    requires Waits(s, t) && PrioritiesUpTo(s, p) && LegalRun(s, es) && Spares(es, t, p)
    ensures TotalCalls(s, es) >= Distance(s.ring, t) + 1 ==> Dispatched(s, es, t)
    ensures Ticks(es) >= (Distance(s.ring, t) + 1) * (10 + p) ==> Dispatched(s, es, t)
  {
    if !Dispatched(s, es, t) {
      StillWaiting(s, es, t, p);
      RankBound(s, t, p);
    }
  }

  ghost function After(s: Sched, es: seq<Event>): Sched
    requires Inv(s) && LegalRun(s, es)
    decreases |es|
  {
    if es == [] then s else After(Step(s, es[0]), es[1..])
  }

  lemma {:induction false} RunKeeps(s: Sched, es: seq<Event>)
    requires Inv(s) && LegalRun(s, es)
    ensures Inv(After(s, es))
    decreases |es|
  {
    if es != [] { RunKeeps(Step(s, es[0]), es[1..]); }
  }

  /** In every state reachable from sched_init: no task is queued twice, a zombie is never in the
      ring and every live task is, at most the current task runs, and slices stay bounded. */
  lemma RunsAreSafe(es: seq<Event>)
    requires Inv(Initial()) && LegalRun(Initial(), es)
    ensures var s := After(Initial(), es);
            && Distinct(s.ring)
            && |s.pool| == MAX_TASKS
            && (forall t :: 0 <= t < MAX_TASKS && (s.pool[t].state.Zombie? || s.pool[t].state.Dead?) ==> t !in s.ring)
            && (forall t :: 0 <= t < MAX_TASKS && s.pool[t].state.Ready? ==> t in s.ring)
            && (forall t :: 0 <= t < MAX_TASKS && s.pool[t].state.Running? ==> s.current == Some(t))
            && (forall t :: 0 <= t < MAX_TASKS ==> s.pool[t].slice <= 10 + s.pool[t].priority)
  {
    RunKeeps(Initial(), es);
  }

  // ------------------------------------------------------------- alloc_task

  /** alloc_task: the first slot that is dead or has pid 0. */
  function AllocSlot(pool: seq<Task>): (k: nat)
    ensures k <= |pool|
    ensures k < |pool| ==> pool[k].state.Dead? || pool[k].pid == 0
    ensures forall j :: 0 <= j < k ==> !pool[j].state.Dead? && pool[j].pid != 0
  {
    if pool == [] || pool[0].state.Dead? || pool[0].pid == 0 then 0 else 1 + AllocSlot(pool[1..])
  }

  /** The slot alloc_task picks is still in the ring exactly when a live task with pid 0 comes
      before every dead slot and every other slot of pid 0. */
  lemma AllocInRing(s: Sched)
    requires Inv(s)
    ensures AllocSlot(s.pool) in s.ring <==>
              exists t :: 0 <= t < MAX_TASKS && InRing(s.pool[t].state) && s.pool[t].pid == 0 &&
                forall u :: 0 <= u < t ==> !s.pool[u].state.Dead? && s.pool[u].pid != 0
  {
    var k := AllocSlot(s.pool);
    if k in s.ring { assert InRing(s.pool[k].state); }
  }

  /** As long as the idle task of sched_init is alive, alloc_task picks the idle task itself, queued as
      it is. */
  lemma AllocPicksIdle(s: Sched)
    requires Inv(s) && 0 in s.ring && s.pool[0].pid == 0
    ensures AllocSlot(s.pool) == 0 && AllocSlot(s.pool) in s.ring
    ensures !Legal(s, Create(AllocSlot(s.pool), 1, 0))
  {
  }
}
