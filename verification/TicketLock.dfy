/** The ticket spinlock of kernel/include/spinlock.h as a concurrent protocol: each atomic
    access is one step of one thread. The lock words are 32-bit and wrap around. */
module TicketLock {
  import opened Common

  /** Where a thread stands: not in the lock code, spinning with a ticket, inside the critical
      section, or between the load and the compare-exchange of spin_trylock. */
  datatype Thread = Idle | Waiting(ticket: nat) | Holding | Trying(seen: nat)

  /** The two lock words and the threads, plus what an observer records: tickets handed out and
      unlocks so far, the running number each thread drew or loaded, and the numbers of the
      critical sections in the order they were entered. The record only feeds the record. */
  datatype Lock = Lock(next: nat, serving: nat, threads: map<nat, Thread>,
                       issued: nat, served: nat, number: map<nat, nat>, entered: seq<nat>)

  datatype Action = Take(t: nat) | Spin(t: nat) | Load(t: nat) | Exchange(t: nat) | Unlock(t: nat)

  predicate Is(s: Lock, t: nat, th: Thread) { t in s.threads && s.threads[t] == th }

  predicate Holds(s: Lock, t: nat) { Is(s, t, Holding) }

  function With(s: Lock, t: nat, th: Thread): Lock { s.(threads := s.threads[t := th]) }

  function Number(s: Lock, t: nat): nat { if t in s.number then s.number[t] else 0 }

  /** Which program point each access belongs to; unlock is called by holders only. */
  predicate Enabled(s: Lock, a: Action) {
    && a.t in s.threads
    && match a
       case Take(t) => s.threads[t].Idle?
       case Spin(t) => s.threads[t].Waiting?
       case Load(t) => s.threads[t].Idle?
       case Exchange(t) => s.threads[t].Trying?
       case Unlock(t) => s.threads[t].Holding?
  }

  /** The effect of one atomic access. */
  function Step(s: Lock, a: Action): Lock
    requires Enabled(s, a)
  {
    match a
    case Take(t) =>
      With(s, t, Waiting(s.next)).(next := (s.next + 1) % TWO32, issued := s.issued + 1, number := s.number[t := s.issued])
    case Spin(t) =>
      if s.serving == s.threads[t].ticket then With(s, t, Holding).(entered := s.entered + [Number(s, t)]) else s
    case Load(t) =>
      With(s, t, Trying(s.serving)).(number := s.number[t := s.served])
    case Exchange(t) =>
      if s.next == s.threads[t].seen then
        With(s, t, Holding).(next := (s.threads[t].seen + 1) % TWO32, issued := s.issued + 1,
                             number := s.number[t := s.issued], entered := s.entered + [s.issued])
      else With(s, t, Idle)
    case Unlock(t) =>
      With(s, t, Idle).(serving := (s.serving + 1) % TWO32, served := s.served + 1)
  }

  /** The environment's promise: fewer than 2^32 tickets outstanding, and a compare-exchange that finds
      the word it loaded finds it because the lock is free. */
  predicate Promised(s: Lock, a: Action)
    requires Enabled(s, a)
  {
    match a
    case Take(_) => s.issued + 1 - s.served < TWO32
    case Exchange(t) => s.next == s.threads[t].seen ==> s.served == s.issued
    case _ => true
  }

  function Init(ts: set<nat>): Lock {
    Lock(0, 0, map t | t in ts :: Idle, 0, 0, map[], [])
  }

  // ---------------------------------------------------------------- invariant

  predicate Owns(s: Lock, t: nat) { t in s.threads && (s.threads[t].Waiting? || s.threads[t].Holding?) }

  ghost predicate ThreadOk(s: Lock, t: nat)
    requires t in s.threads
  {
    match s.threads[t]
    case Idle => true
    case Waiting(k) => t in s.number && s.served <= s.number[t] < s.issued && k == s.number[t] % TWO32
    case Holding => t in s.number && s.number[t] == s.served < s.issued
    case Trying(k) => t in s.number && s.number[t] <= s.served && k == s.number[t] % TWO32
  }

  /** Some thread waits or works with number n. */
  ghost predicate Owned(s: Lock, n: nat) { exists t :: Owns(s, t) && t in s.number && s.number[t] == n }

  ghost predicate Held(s: Lock) { exists t :: Holds(s, t) }

  ghost predicate Counters(s: Lock) {
    && s.served <= s.issued < s.served + TWO32
    && s.next == s.issued % TWO32 && s.serving == s.served % TWO32
  }

  /** Critical sections were entered as numbers 0, 1, 2, ... without a gap. */
  ghost predicate InOrder(s: Lock) {
    && (forall k :: 0 <= k < |s.entered| ==> s.entered[k] == k)
    && |s.entered| == s.served + if Held(s) then 1 else 0
  }

  ghost predicate Inv(s: Lock) {
    && Counters(s)
    && (forall t :: t in s.threads ==> ThreadOk(s, t))
    && (forall t, u :: Owns(s, t) && Owns(s, u) && t != u ==> s.number[t] != s.number[u])
    && (forall n: nat {:trigger Owned(s, n)} :: s.served <= n < s.issued ==> Owned(s, n))
    && InOrder(s)
  }

  /** Mutual exclusion. */
  lemma AtMostOne(s: Lock, t: nat, u: nat)
    requires Inv(s) && Holds(s, t) && Holds(s, u)
    ensures t == u
  {
    assert ThreadOk(s, t) && ThreadOk(s, u);
    assert Owns(s, t) && Owns(s, u);
  }

  /** Numbers less than 2^32 apart that agree modulo 2^32 are equal. */
  lemma SameNumber(a: nat, b: nat)
    requires a <= b < a + TWO32 && a % TWO32 == b % TWO32
    ensures a == b
  {
  }

  lemma NextNumber(n: nat)
    ensures (n % TWO32 + 1) % TWO32 == (n + 1) % TWO32
  {
  }

  lemma TakeKeeps(s: Lock, t: nat)
    requires Inv(s) && Enabled(s, Take(t)) && Promised(s, Take(t))
    ensures Inv(Step(s, Take(t)))
  {
    var r := Step(s, Take(t));
    NextNumber(s.issued);
    forall u | u in r.threads
      ensures ThreadOk(r, u)
    {
      assert ThreadOk(s, u);
    }
    forall n: nat | s.served <= n < r.issued
      ensures Owned(r, n)
    {
      if n == s.issued {
        assert Owns(r, t);
      } else {
        assert Owned(s, n);
        var u :| Owns(s, u) && u in s.number && s.number[u] == n;
        assert Owns(r, u) && r.number[u] == n;
      }
    }
    assert Held(r) <==> Held(s) by { assert forall u :: Holds(r, u) <==> Holds(s, u); }
  }

  /** The spinning thread that sees its ticket served is the oldest one, and nobody holds. */
  lemma SpinKeeps(s: Lock, t: nat)
    requires Inv(s) && Enabled(s, Spin(t))
    ensures Inv(Step(s, Spin(t)))
  {
    var r := Step(s, Spin(t));
    assert ThreadOk(s, t);
    if s.serving == s.threads[t].ticket {
      SameNumber(s.served, s.number[t]);
      assert !Held(s) by {
        forall u
          ensures !Holds(s, u)
        {
          if u in s.threads { assert ThreadOk(s, u) && Owns(s, t); }
        }
      }
      assert Holds(r, t);
      forall u | u in r.threads
        ensures ThreadOk(r, u)
      {
        assert ThreadOk(s, u);
      }
      SameOwners(s, r);
    }
  }

  lemma SameOwners(s: Lock, r: Lock)
    requires Inv(s) && r.number == s.number && r.served == s.served && r.issued == s.issued
    requires forall u :: Owns(r, u) <==> Owns(s, u)
    ensures forall n: nat {:trigger Owned(r, n)} :: r.served <= n < r.issued ==> Owned(r, n)
  {
    forall n: nat | r.served <= n < r.issued
      ensures Owned(r, n)
    {
      assert Owned(s, n);
      var u :| Owns(s, u) && u in s.number && s.number[u] == n;
      assert Owns(r, u);
    }
  }

  lemma LoadKeeps(s: Lock, t: nat)
    requires Inv(s) && Enabled(s, Load(t))
    ensures Inv(Step(s, Load(t)))
  {
    var r := Step(s, Load(t));
    forall u | u in r.threads
      ensures ThreadOk(r, u)
    {
      assert ThreadOk(s, u);
    }
    forall n: nat | r.served <= n < r.issued
      ensures Owned(r, n)
    {
      assert Owned(s, n);
      var u :| Owns(s, u) && u in s.number && s.number[u] == n;
      assert Owns(r, u);
    }
    assert Held(r) <==> Held(s) by { assert forall u :: Holds(r, u) <==> Holds(s, u); }
  }

  /** The exchange finds the word it loaded exactly when a multiple of 2^32 tickets lies between the
      ticket it saw being served and the one it asks for; with fewer than 2^32, when there is none. */
  lemma ExchangeMatches(s: Lock, t: nat)
    requires Inv(s) && Enabled(s, Exchange(t))
    ensures t in s.number && s.number[t] <= s.served
    ensures s.next == s.threads[t].seen <==> (s.issued - s.number[t]) % TWO32 == 0
    ensures s.issued - s.number[t] < TWO32 ==> Promised(s, Exchange(t))
  {
    assert ThreadOk(s, t);
    SameResidue(s.number[t], s.issued);
  }

  lemma SameResidue(a: nat, b: nat)
    requires a <= b
    ensures a % TWO32 == b % TWO32 <==> (b - a) % TWO32 == 0
  {
  }

  lemma NobodyHolds(s: Lock)
    requires Inv(s) && s.served == s.issued
    ensures !Held(s)
  {
    forall u ensures !Holds(s, u) { if u in s.threads { assert ThreadOk(s, u); } }
  }

  lemma ExchangeKeeps(s: Lock, t: nat)
    requires Inv(s) && Enabled(s, Exchange(t)) && Promised(s, Exchange(t))
    ensures Inv(Step(s, Exchange(t)))
  {
    var r := Step(s, Exchange(t));
    assert ThreadOk(s, t);
    forall u | u in s.threads && u != t
      ensures ThreadOk(s, u)
    {
    }
    if s.next == s.threads[t].seen {
      NobodyHolds(s);
      NextNumber(s.issued);
      assert Holds(r, t) && Owns(r, t);
      assert Owned(r, s.issued);
    } else {
      SameOwners(s, r);
      assert Held(r) <==> Held(s) by { assert forall u :: Holds(r, u) <==> Holds(s, u); }
    }
  }

  lemma UnlockKeeps(s: Lock, t: nat)
    requires Inv(s) && Enabled(s, Unlock(t))
    ensures Inv(Step(s, Unlock(t)))
  {
    var r := Step(s, Unlock(t));
    assert ThreadOk(s, t) && Owns(s, t) && Holds(s, t);
    NextNumber(s.served);
    forall u | u in r.threads
      ensures ThreadOk(r, u)
    {
      assert ThreadOk(s, u);
      if u != t && Owns(s, u) { assert s.number[u] != s.number[t]; }
    }
    forall n: nat | r.served <= n < r.issued
      ensures Owned(r, n)
    {
      assert Owned(s, n);
      var u :| Owns(s, u) && u in s.number && s.number[u] == n;
      assert Owns(r, u);
    }
    assert !Held(r) by {
      forall u
        ensures !Holds(r, u)
      {
        if u != t && Holds(s, u) { AtMostOne(s, t, u); }
      }
    }
  }

  lemma StepKeeps(s: Lock, a: Action)
    requires Inv(s) && Enabled(s, a) && Promised(s, a)
    ensures Inv(Step(s, a))
  {
    match a
    case Take(t) => TakeKeeps(s, t);
    case Spin(t) => SpinKeeps(s, t);
    case Load(t) => LoadKeeps(s, t);
    case Exchange(t) => ExchangeKeeps(s, t);
    case Unlock(t) => UnlockKeeps(s, t);
  }

  // -------------------------------------------------------------------- runs

  /** r is reached from s by these accesses; `promised` adds the environment's promise. */
  ghost predicate Run(s: Lock, acts: seq<Action>, r: Lock, promised: bool) {
    if acts == [] then r == s
    else
      var n := |acts| - 1;
      exists q :: Run(s, acts[..n], q, promised) && Enabled(q, acts[n]) && (promised ==> Promised(q, acts[n])) && r == Step(q, acts[n])
  }

  lemma {:induction false} RunKeeps(s: Lock, acts: seq<Action>, r: Lock)
    requires Inv(s) && Run(s, acts, r, true)
    ensures Inv(r)
  {
    if acts != [] {
      var n := |acts| - 1;
      var q :| Run(s, acts[..n], q, true) && Enabled(q, acts[n]) && Promised(q, acts[n]) && r == Step(q, acts[n]);
      RunKeeps(s, acts[..n], q);
      StepKeeps(q, acts[n]);
    }
  }

  ghost predicate Exclusive(s: Lock) { forall t, u :: Holds(s, t) && Holds(s, u) ==> t == u }

  /** In every interleaving: at most one thread holds the lock, and critical sections are entered
      in ticket order, although the lock words wrap around. */
  lemma RunsAreExclusive(ts: set<nat>, acts: seq<Action>, r: Lock)
    requires Run(Init(ts), acts, r, true)
    ensures Exclusive(r)
    ensures forall k :: 0 <= k < |r.entered| ==> r.entered[k] == k
  {
    assert Inv(Init(ts));
    RunKeeps(Init(ts), acts, r);
    InvExclusive(r);
  }

  lemma InvExclusive(s: Lock)
    requires Inv(s)
    ensures Exclusive(s)
  {
    forall t, u | Holds(s, t) && Holds(s, u) ensures t == u { AtMostOne(s, t, u); }
  }

  /** The promise about trylock is exactly what exclusion needs: an exchange is followed by exclusion
      in all runs that keep the promise if and only if it keeps the promise itself. Exclusion right
      after it is lost if and only if it succeeds while the lock is held. */
  lemma ExchangeExact(s: Lock, t: nat)
    requires Inv(s) && Enabled(s, Exchange(t))
    ensures Exclusive(Step(s, Exchange(t))) <==> !(s.next == s.threads[t].seen && Held(s))
    ensures (forall acts, r :: Run(Step(s, Exchange(t)), acts, r, true) ==> Exclusive(r)) <==> Promised(s, Exchange(t))
  {
    var n := Step(s, Exchange(t));
    RightAfter(s, t);
    if Promised(s, Exchange(t)) {
      ExchangeKeeps(s, t);
      forall acts, r | Run(n, acts, r, true) ensures Exclusive(r) {
        RunKeeps(n, acts, r);
        InvExclusive(r);
      }
    } else if Held(s) {
      assert Run(n, [], n, true);
    } else {
      var u := LetIn(s, t);
      assert Run(n, [], n, true) && [Spin(u)][..0] == [];
      assert Run(n, [Spin(u)], Step(n, Spin(u)), true);
    }
  }

  lemma RightAfter(s: Lock, t: nat)
    requires Inv(s) && Enabled(s, Exchange(t))
    ensures Exclusive(Step(s, Exchange(t))) <==> !(s.next == s.threads[t].seen && Held(s))
  {
    var n := Step(s, Exchange(t));
    assert forall u :: u != t ==> (Holds(n, u) <==> Holds(s, u));
    assert !Holds(s, t);
    InvExclusive(s);
    if s.next == s.threads[t].seen && Held(s) {
      var u :| Holds(s, u);
      assert Holds(n, t) && Holds(n, u);
    }
  }

  /** A thread that jumped the queue is joined by the one whose ticket is being served. */
  lemma LetIn(s: Lock, t: nat) returns (u: nat)
    requires Inv(s) && Enabled(s, Exchange(t)) && !Promised(s, Exchange(t)) && !Held(s)
    ensures var n := Step(s, Exchange(t)); Enabled(n, Spin(u)) && !Exclusive(Step(n, Spin(u)))
  {
    SomebodyProceeds(s);
    u :| Enabled(s, Spin(u)) && Holds(Step(s, Spin(u)), u);
    assert !Holds(s, u);
    var n := Step(s, Exchange(t));
    assert Holds(Step(n, Spin(u)), t) && Holds(Step(n, Spin(u)), u) && u != t;
  }

  /** No deadlock: while tickets are outstanding, somebody holds the lock or the next load of
      now_serving lets somebody in. */
  lemma SomebodyProceeds(s: Lock)
    requires Inv(s) && s.served < s.issued && !Held(s)
    ensures exists t :: Enabled(s, Spin(t)) && Holds(Step(s, Spin(t)), t)
  {
    assert Owned(s, s.served);
    var t :| Owns(s, t) && t in s.number && s.number[t] == s.served;
    assert ThreadOk(s, t);
    assert !Holds(s, t);
    assert Enabled(s, Spin(t)) && Holds(Step(s, Spin(t)), t);
  }

  /** How many critical sections must end before waiting thread t gets in. */
  ghost function Ahead(s: Lock, t: nat): nat
    requires Inv(s) && t in s.threads && s.threads[t].Waiting?
  {
    assert ThreadOk(s, t);
    s.number[t] - s.served
  }

  /** First come, first served: only an unlock moves a waiting thread, by exactly one place, and
      it gets in exactly when nobody is ahead. */
  lemma WaitingAdvances(s: Lock, a: Action, t: nat)
    requires Inv(s) && Enabled(s, a) && Promised(s, a) && t in s.threads && s.threads[t].Waiting?
    ensures Inv(Step(s, a)) && t in Step(s, a).threads
    ensures Step(s, a).threads[t].Waiting? ==> Ahead(Step(s, a), t) == Ahead(s, t) - if a.Unlock? then 1 else 0
    ensures Holds(Step(s, a), t) <==> a == Spin(t) && Ahead(s, t) == 0
  {
    StepKeeps(s, a);
    assert ThreadOk(s, t);
    if a == Spin(t) && s.serving == s.threads[t].ticket { SameNumber(s.served, s.number[t]); }
  }

  // --------------------------------------------------------- the window is tight

  /** Thread 1 holds ticket k while thread 0 is still between the load and the exchange of a
      trylock that began when ticket 0 was being served. */
  function Round(k: nat): Lock {
    Lock((k + 1) % TWO32, k % TWO32, map[0 := Trying(0), 1 := Holding], k + 1, k, map[0 := 0, 1 := k], seq(k + 1, i => i))
  }

  function Rounds(k: nat): seq<Action> {
    if k == 0 then [Take(1), Spin(1), Load(0)] else Rounds(k - 1) + [Unlock(1), Take(1), Spin(1)]
  }

  lemma RunOn(s: Lock, acts: seq<Action>, q: Lock, a: Action)
    requires Run(s, acts, q, false) && Enabled(q, a)
    ensures Run(s, acts + [a], Step(q, a), false)
  {
    assert (acts + [a])[..|acts|] == acts;
  }

  lemma RunThree(s: Lock, acts: seq<Action>, q: Lock, a: Action, b: Action, c: Action)
    requires Run(s, acts, q, false) && Enabled(q, a) && Enabled(Step(q, a), b) && Enabled(Step(Step(q, a), b), c)
    ensures Run(s, acts + [a, b, c], Step(Step(Step(q, a), b), c), false)
  {
    RunOn(s, acts, q, a);
    RunOn(s, acts + [a], Step(q, a), b);
    RunOn(s, acts + [a] + [b], Step(Step(q, a), b), c);
    assert acts + [a] + [b] + [c] == acts + [a, b, c];
  }

  lemma FirstRound()
    ensures Run(Init({0, 1}), Rounds(0), Round(0), false)
  {
    var s := Init({0, 1});
    RunThree(s, [], s, Take(1), Spin(1), Load(0));
    var r := Step(Step(Step(s, Take(1)), Spin(1)), Load(0));
    assert [] + [Take(1), Spin(1), Load(0)] == Rounds(0);
    assert r.threads == Round(0).threads && r.number == Round(0).number && r.entered == Round(0).entered;
  }

  lemma NextRound(k: nat)
    ensures var s := Round(k);
            && Enabled(s, Unlock(1)) && Enabled(Step(s, Unlock(1)), Take(1))
            && Enabled(Step(Step(s, Unlock(1)), Take(1)), Spin(1))
            && Step(Step(Step(s, Unlock(1)), Take(1)), Spin(1)) == Round(k + 1)
  {
    NextNumber(k);
    NextNumber(k + 1);
    var r := Step(Step(Step(Round(k), Unlock(1)), Take(1)), Spin(1));
    assert r.threads == Round(k + 1).threads && r.number == Round(k + 1).number && r.entered == Round(k + 1).entered;
  }

  lemma {:induction false} RoundReached(k: nat)
    ensures Run(Init({0, 1}), Rounds(k), Round(k), false)
  {
    if k == 0 {
      FirstRound();
    } else {
      RoundReached(k - 1);
      NextRound(k - 1);
      RunThree(Init({0, 1}), Rounds(k - 1), Round(k - 1), Unlock(1), Take(1), Spin(1));
    }
  }

  /** Counting the window from the load is not enough: with one ticket outstanding at the load
      and only 2^32 - 1 tickets issued between load and exchange, two threads hold the lock. One
      round more and the exchange fails, so a longer window alone does no harm. */
  lemma WindowIsTight()
    ensures var acts := Rounds(TWO32 - 1); var s := Round(TWO32 - 1);
            && Run(Init({0, 1}), acts, s, false)
            && s.issued - Round(0).issued == TWO32 - 1
            && Enabled(s, Exchange(0)) && !Promised(s, Exchange(0))
            && Holds(Step(s, Exchange(0)), 0) && Holds(Step(s, Exchange(0)), 1)
    ensures Run(Init({0, 1}), Rounds(TWO32), Round(TWO32), false) && Promised(Round(TWO32), Exchange(0))
  {
    RoundReached(TWO32 - 1);
    RoundReached(TWO32);
  }
}
