/** kernel/ipc/pipe.c as a state machine: readers and writers share one pipe and run in turns, each
    turn lasting until the call returns or yields. Every byte carries the thread that moved it, so
    order is kept per thread as well as overall. */
module PipeModel {
  import opened Common

  const SIZE: nat := 4096

  type Tid = nat

  datatype Activity =
    | Idle
    | Reading(len: nat, got: seq<Byte>)
    | Writing(data: seq<Byte>, written: nat)

  /** Calls that have returned. A read notes how many bytes had been taken and put when it returned. */
  datatype Call =
    | ReadDone(t: Tid, len: nat, got: seq<Byte>, closed: bool, taken: nat, put: nat)
    | WriteDone(t: Tid, data: seq<Byte>)
    | Refused(t: Tid)

  type Moved = seq<(Tid, Byte)>

  datatype System = System(queue: seq<Byte>, readClosed: bool, writeClosed: bool,
                           threads: map<Tid, Activity>, accepted: Moved, delivered: Moved, log: seq<Call>)

  datatype Event =
    | BeginRead(t: Tid, len: nat)
    | BeginWrite(t: Tid, data: seq<Byte>)
    | Turn(t: Tid)
    | CloseRead
    | CloseWrite

  const EMPTY: System := System([], false, false, map[], [], [], [])

  function Doing(s: System, t: Tid): Activity { if t in s.threads then s.threads[t] else Idle }

  function Tag(t: Tid, bytes: seq<Byte>): (r: Moved)
    ensures |r| == |bytes| && forall i :: 0 <= i < |bytes| ==> r[i] == (t, bytes[i])
  {
    seq(|bytes|, i requires 0 <= i < |bytes| => (t, bytes[i]))
  }

  function Bytes(m: Moved): (r: seq<Byte>)
    ensures |r| == |m| && forall i :: 0 <= i < |m| ==> r[i] == m[i].1
  {
    seq(|m|, i requires 0 <= i < |m| => m[i].1)
  }

  /** The bytes thread t moved. */
  function Of(m: Moved, t: Tid): seq<Byte> {
    if m == [] then []
    else
      var (u, b) := m[|m| - 1];
      if u == t then Of(m[..|m| - 1], t) + [b] else Of(m[..|m| - 1], t)
  }

  // ------------------------------------------------------------------- steps

  /** A reader's turn: it takes what it can, and returns when full or when the pipe is drained and
      the write end closed. */
  function ReadTurn(s: System, t: Tid, len: nat, got: seq<Byte>): System
    requires |got| <= len
  {
    var n := Min(|s.queue|, len - |got|);
    var now := got + s.queue[..n];
    var queue, delivered := s.queue[n..], s.delivered + Tag(t, s.queue[..n]);
    if |now| == len || s.writeClosed then
      s.(queue := queue, delivered := delivered, threads := s.threads[t := Idle],
         log := s.log + [ReadDone(t, len, now, s.writeClosed, |delivered|, |s.accepted|)])
    else
      s.(queue := queue, delivered := delivered, threads := s.threads[t := Reading(len, now)])
  }

  /** A writer's turn: it puts what fits, and returns when all is written. */
  function WriteTurn(s: System, t: Tid, data: seq<Byte>, written: nat): System
    requires written <= |data| && |s.queue| <= SIZE
  {
    var n := Min(SIZE - |s.queue|, |data| - written);
    var bytes := data[written..written + n];
    var queue, accepted := s.queue + bytes, s.accepted + Tag(t, bytes);
    if written + n == |data| then
      s.(queue := queue, accepted := accepted, threads := s.threads[t := Idle], log := s.log + [WriteDone(t, data)])
    else
      s.(queue := queue, accepted := accepted, threads := s.threads[t := Writing(data, written + n)])
  }

  /** Progress markers make sense. */
  predicate Shaped(s: System) {
    && |s.queue| <= SIZE
    && forall t :: t in s.threads ==>
         match s.threads[t]
         case Idle => true
         case Reading(len, got) => |got| <= len
         case Writing(data, written) => written <= |data|
  }

  function Step(s: System, e: Event): System
    requires Shaped(s)
  {
    match e
    case BeginRead(t, len) => if Doing(s, t).Idle? then s.(threads := s.threads[t := Reading(len, [])]) else s
    case BeginWrite(t, data) =>
      if !Doing(s, t).Idle? then s
      else if s.readClosed then s.(log := s.log + [Refused(t)])
      else s.(threads := s.threads[t := Writing(data, 0)])
    case Turn(t) =>
      (match Doing(s, t)
       case Idle => s
       case Reading(len, got) => ReadTurn(s, t, len, got)
       case Writing(data, written) => WriteTurn(s, t, data, written))
    case CloseRead => s.(readClosed := true)
    case CloseWrite => s.(writeClosed := true)
  }

  // --------------------------------------------------------------- invariant

  /** What the calls of t that have returned read. */
  function ReadBy(log: seq<Call>, t: Tid): seq<Byte> {
    if log == [] then []
    else
      var c := log[|log| - 1];
      var before := ReadBy(log[..|log| - 1], t);
      if c.ReadDone? && c.t == t then before + c.got else before
  }

  function WrittenBy(log: seq<Call>, t: Tid): seq<Byte> {
    if log == [] then []
    else
      var c := log[|log| - 1];
      var before := WrittenBy(log[..|log| - 1], t);
      if c.WriteDone? && c.t == t then before + c.data else before
  }

  /** All t has read or written so far, the call in progress included. */
  function HasRead(s: System, t: Tid): seq<Byte> {
    match Doing(s, t)
    case Reading(_, got) => ReadBy(s.log, t) + got
    case _ => ReadBy(s.log, t)
  }

  function HasWritten(s: System, t: Tid): seq<Byte>
    requires Shaped(s)
  {
    match Doing(s, t)
    case Writing(data, written) => WrittenBy(s.log, t) + data[..written]
    case _ => WrittenBy(s.log, t)
  }

  /** A read returns fewer bytes only with the write end closed and nothing left in the pipe. */
  predicate Honest(c: Call) {
    c.ReadDone? ==> |c.got| <= c.len && (|c.got| < c.len ==> c.closed && c.taken == c.put)
  }

  ghost predicate Inv(s: System) {
    && Shaped(s)
    && Conserved(s)
    && (forall t :: Accounted(s, t))
    && (forall k :: 0 <= k < |s.log| ==> Honest(s.log[k]))
  }

  // ------------------------------------------------------------------ lemmas

  lemma OfOne(m: Moved, x: (Tid, Byte), t: Tid)
    ensures Of(m + [x], t) == if x.0 == t then Of(m, t) + [x.1] else Of(m, t)
  {
    assert (m + [x])[..|m|] == m;
  }

  lemma {:induction false} OfTagged(m: Moved, u: Tid, bytes: seq<Byte>, t: Tid)
    ensures Of(m + Tag(u, bytes), t) == if u == t then Of(m, t) + bytes else Of(m, t)
    decreases |bytes|
  {
    var n := |bytes|;
    if n == 0 {
      assert m + Tag(u, bytes) == m;
    } else {
      var init, last := bytes[..n - 1], bytes[n - 1];
      assert m + Tag(u, bytes) == m + Tag(u, init) + [(u, last)];
      OfTagged(m, u, init, t);
      OfOne(m + Tag(u, init), (u, last), t);
      assert bytes == init + [last];
    }
  }

  lemma BytesTagged(m: Moved, u: Tid, bytes: seq<Byte>)
    ensures Bytes(m + Tag(u, bytes)) == Bytes(m) + bytes
  {
  }

  lemma LogSnoc(log: seq<Call>, c: Call, t: Tid)
    ensures ReadBy(log + [c], t) == if c.ReadDone? && c.t == t then ReadBy(log, t) + c.got else ReadBy(log, t)
    ensures WrittenBy(log + [c], t) == if c.WriteDone? && c.t == t then WrittenBy(log, t) + c.data else WrittenBy(log, t)
  {
    assert (log + [c])[..|log|] == log;
  }

  /** Thread u's account: what it moved is what its calls show. */
  ghost predicate Accounted(s: System, u: Tid)
    requires Shaped(s)
  {
    Of(s.delivered, u) == HasRead(s, u) && Of(s.accepted, u) == HasWritten(s, u)
  }

  /** Delivered, then buffered, is accepted. */
  predicate Conserved(s: System) { Bytes(s.delivered) + s.queue == Bytes(s.accepted) }

  lemma Moves(a: seq<Byte>, b: seq<Byte>, n: nat)
    requires n <= |b|
    ensures a + b[..n] + b[n..] == a + b
  {
    assert b == b[..n] + b[n..];
  }

  lemma ReadTurnConserves(s: System, t: Tid)
    requires Shaped(s) && Doing(s, t).Reading? && Conserved(s)
    ensures var r := ReadTurn(s, t, Doing(s, t).len, Doing(s, t).got); Shaped(r) && Conserved(r)
  {
    var n := Min(|s.queue|, Doing(s, t).len - |Doing(s, t).got|);
    BytesTagged(s.delivered, t, s.queue[..n]);
    Moves(Bytes(s.delivered), s.queue, n);
  }

  /** r follows s by something only t does. */
  ghost predicate Acts(s: System, r: System, t: Tid, put: seq<Byte>, taken: seq<Byte>) {
    && (forall u :: u != t ==> Doing(r, u) == Doing(s, u))
    && r.accepted == s.accepted + Tag(t, put) && r.delivered == s.delivered + Tag(t, taken)
    && (r.log == s.log || (|r.log| == |s.log| + 1 && r.log[..|s.log|] == s.log && r.log[|s.log|].t == t))
  }

  lemma OthersKeep(s: System, r: System, t: Tid, put: seq<Byte>, taken: seq<Byte>, u: Tid)
    requires Shaped(s) && Shaped(r) && Acts(s, r, t, put, taken) && u != t && Accounted(s, u)
    ensures Accounted(r, u)
  {
    hide Of, WrittenBy, ReadBy, Tag, Shaped;
    OfTagged(s.accepted, t, put, u);
    OfTagged(s.delivered, t, taken, u);
    if r.log != s.log {
      LogSnoc(s.log, r.log[|s.log|], u);
      assert r.log == s.log + [r.log[|s.log|]];
    }
  }

  lemma ReaderKeeps(s: System, t: Tid)
    requires Shaped(s) && Doing(s, t).Reading? && Accounted(s, t)
    requires Shaped(ReadTurn(s, t, Doing(s, t).len, Doing(s, t).got))
    ensures Accounted(ReadTurn(s, t, Doing(s, t).len, Doing(s, t).got), t)
  {
    hide Of, WrittenBy, ReadBy, Tag, Shaped;
    var len, got := Doing(s, t).len, Doing(s, t).got;
    var r := ReadTurn(s, t, len, got);
    var bytes := s.queue[..Min(|s.queue|, len - |got|)];
    OfTagged(s.delivered, t, bytes, t);
    var w := ReadBy(s.log, t);
    assert w + got + bytes == w + (got + bytes);
    assert Of(r.delivered, t) == w + (got + bytes);
    if r.threads[t].Idle? {
      LogSnoc(s.log, r.log[|s.log|], t);
    }
    assert HasRead(r, t) == w + (got + bytes) && HasWritten(r, t) == HasWritten(s, t);
  }

  lemma ReadTurnHonest(s: System, t: Tid)
    requires Inv(s) && Doing(s, t).Reading?
    ensures var r := ReadTurn(s, t, Doing(s, t).len, Doing(s, t).got);
            forall k :: 0 <= k < |r.log| ==> Honest(r.log[k])
  {
    var r := ReadTurn(s, t, Doing(s, t).len, Doing(s, t).got);
    ReadTurnConserves(s, t);
    assert |r.delivered| + |r.queue| == |r.accepted|;
  }

  lemma ReadTurnKeeps(s: System, t: Tid)
    requires Inv(s) && Doing(s, t).Reading?
    ensures Inv(ReadTurn(s, t, Doing(s, t).len, Doing(s, t).got))
  {
    var r := ReadTurn(s, t, Doing(s, t).len, Doing(s, t).got);
    ReadTurnConserves(s, t);
    ReadTurnHonest(s, t);
    var bytes := s.queue[..Min(|s.queue|, Doing(s, t).len - |Doing(s, t).got|)];
    assert Acts(s, r, t, [], bytes) by { assert Tag(t, []) == []; }
    forall u ensures Accounted(r, u) {
      assert Accounted(s, u);
      if u == t { ReaderKeeps(s, t); } else { OthersKeep(s, r, t, [], bytes, u); }
    }
  }

  lemma WriteTurnConserves(s: System, t: Tid)
    requires Shaped(s) && Doing(s, t).Writing? && Conserved(s)
    ensures var r := WriteTurn(s, t, Doing(s, t).data, Doing(s, t).written); Shaped(r) && Conserved(r)
  {
    var data, written := Doing(s, t).data, Doing(s, t).written;
    var bytes := data[written..written + Min(SIZE - |s.queue|, |data| - written)];
    BytesTagged(s.accepted, t, bytes);
    assert Bytes(s.delivered) + (s.queue + bytes) == Bytes(s.delivered) + s.queue + bytes;
  }

  lemma Grown(w: seq<Byte>, data: seq<Byte>, i: nat, j: nat)
    requires i <= j <= |data|
    ensures w + data[..i] + data[i..j] == w + data[..j]
  {
    assert data[..i] + data[i..j] == data[..j];
  }

  lemma WriterKeeps(s: System, t: Tid)
    requires Shaped(s) && Doing(s, t).Writing? && Accounted(s, t)
    requires Shaped(WriteTurn(s, t, Doing(s, t).data, Doing(s, t).written))
    ensures Accounted(WriteTurn(s, t, Doing(s, t).data, Doing(s, t).written), t)
  {
    hide Of, WrittenBy, ReadBy, Tag;
    var data, written := Doing(s, t).data, Doing(s, t).written;
    var r := WriteTurn(s, t, data, written);
    var n := Min(SIZE - |s.queue|, |data| - written);
    var bytes := data[written..written + n];
    OfTagged(s.accepted, t, bytes, t);
    var w := WrittenBy(s.log, t);
    assert Of(r.accepted, t) == Of(s.accepted, t) + bytes;
    Grown(w, data, written, written + n);
    if written + n == |data| {
      LogSnoc(s.log, WriteDone(t, data), t);
      assert data[..written + n] == data;
      assert HasWritten(r, t) == w + data;
    } else {
      assert Doing(r, t) == Writing(data, written + n);
      assert HasWritten(r, t) == w + data[..written + n];
    }
    assert HasRead(r, t) == HasRead(s, t);
  }

  lemma WriteTurnKeeps(s: System, t: Tid)
    requires Inv(s) && Doing(s, t).Writing?
    ensures Inv(WriteTurn(s, t, Doing(s, t).data, Doing(s, t).written))
  {
    var r := WriteTurn(s, t, Doing(s, t).data, Doing(s, t).written);
    WriteTurnConserves(s, t);
    var data, written := Doing(s, t).data, Doing(s, t).written;
    var bytes := data[written..written + Min(SIZE - |s.queue|, |data| - written)];
    assert Acts(s, r, t, bytes, []) by { assert Tag(t, []) == []; }
    forall u ensures Accounted(r, u) {
      assert Accounted(s, u);
      if u == t { WriterKeeps(s, t); } else { OthersKeep(s, r, t, bytes, [], u); }
    }
  }

  lemma BeginWriteKeeps(s: System, t: Tid, data: seq<Byte>)
    requires Inv(s)
    ensures Inv(Step(s, BeginWrite(t, data)))
  {
    var r := Step(s, BeginWrite(t, data));
    forall u ensures Accounted(r, u) {
      assert Accounted(s, u);
      assert HasRead(r, u) == HasRead(s, u) && HasWritten(r, u) == HasWritten(s, u) by {
        LogSnoc(s.log, Refused(t), u);
        assert data[..0] == [];
      }
    }
  }

  lemma StepKeeps(s: System, e: Event)
    requires Inv(s)
    ensures Inv(Step(s, e))
  {
    var r := Step(s, e);
    match e
    case Turn(t) =>
      if Doing(s, t).Reading? { ReadTurnKeeps(s, t); }
      if Doing(s, t).Writing? { WriteTurnKeeps(s, t); }
    case BeginWrite(t, data) =>
      BeginWriteKeeps(s, t, data);
    case _ =>
      forall u ensures Accounted(r, u) { assert Accounted(s, u); }
  }

  // -------------------------------------------------------------------- runs

  function Run(events: seq<Event>): (s: System)
    ensures Inv(s)
  {
    if events == [] then EmptyInv(); EMPTY
    else
      var s := Run(events[..|events| - 1]);
      StepKeeps(s, events[|events| - 1]);
      Step(s, events[|events| - 1])
  }

  lemma EmptyInv()
    ensures Inv(EMPTY)
  {
  }

  /** Pipe FIFO, over every interleaving: delivered followed by buffered bytes are the accepted ones, at
      most SIZE are buffered, each thread got and put its bytes in the order of its own calls, and a
      read was short only when the write end was closed and the pipe drained. */
  lemma RunsAreFifo(events: seq<Event>)
    ensures var s := Run(events);
            && Bytes(s.delivered) + s.queue == Bytes(s.accepted) && |s.queue| <= SIZE
            && (forall t :: Of(s.delivered, t) == HasRead(s, t) && Of(s.accepted, t) == HasWritten(s, t))
            && (forall k :: 0 <= k < |s.log| && s.log[k].ReadDone? ==>
                  && |s.log[k].got| <= s.log[k].len
                  && (|s.log[k].got| < s.log[k].len ==> s.log[k].closed && s.log[k].taken == s.log[k].put))
  {
    var s := Run(events);
    forall t ensures Of(s.delivered, t) == HasRead(s, t) && Of(s.accepted, t) == HasWritten(s, t) { assert Accounted(s, t); }
    forall k | 0 <= k < |s.log| && s.log[k].ReadDone?
      ensures |s.log[k].got| <= s.log[k].len
      ensures |s.log[k].got| < s.log[k].len ==> s.log[k].closed && s.log[k].taken == s.log[k].put
    {
      assert Honest(s.log[k]);
    }
  }

  predicate AllBy(m: Moved, t: Tid) {
    forall i :: 0 <= i < |m| ==> m[i].0 == t
  }

  lemma {:induction false} OfAll(m: Moved, t: Tid)
    requires AllBy(m, t)
    ensures Of(m, t) == Bytes(m)
  {
    if m != [] {
      OfAll(m[..|m| - 1], t);
      assert m == m[..|m| - 1] + [m[|m| - 1]];
    }
  }

  /** Only w writes and only r reads. */
  predicate Between(events: seq<Event>, w: Tid, r: Tid) {
    forall k :: 0 <= k < |events| ==>
      (events[k].BeginWrite? ==> events[k].t == w) && (events[k].BeginRead? ==> events[k].t == r)
  }

  /** Thread t takes only the part it has in a run between w and r. */
  predicate Role(a: Activity, t: Tid, w: Tid, r: Tid) {
    (a.Writing? ==> t == w) && (a.Reading? ==> t == r)
  }

  lemma StepBetween(s: System, e: Event, w: Tid, r: Tid)
    requires Shaped(s) && AllBy(s.accepted, w) && AllBy(s.delivered, r) && forall t :: Role(Doing(s, t), t, w, r)
    requires (e.BeginWrite? ==> e.t == w) && (e.BeginRead? ==> e.t == r)
    ensures var n := Step(s, e); AllBy(n.accepted, w) && AllBy(n.delivered, r) && forall t :: Role(Doing(n, t), t, w, r)
  {
    var n := Step(s, e);
    assert e.Turn? ==> Role(Doing(s, e.t), e.t, w, r);
    forall t ensures Role(Doing(n, t), t, w, r) { assert Role(Doing(s, t), t, w, r); }
  }

  lemma {:induction false} BetweenMoves(events: seq<Event>, w: Tid, r: Tid)
    requires Between(events, w, r)
    ensures AllBy(Run(events).accepted, w) && AllBy(Run(events).delivered, r)
    ensures forall t :: Role(Doing(Run(events), t), t, w, r)
    decreases |events|
  {
    if events != [] {
      var init, e := events[..|events| - 1], events[|events| - 1];
      BetweenMoves(init, w, r);
      StepBetween(Run(init), e, w, r);
      assert Run(events) == Step(Run(init), e);
    }
  }

  /** One writer, one reader: what the reader has got is a prefix of what the writer has put, and all
      of it once the pipe is empty. */
  lemma OneToOne(events: seq<Event>, w: Tid, r: Tid)
    requires Between(events, w, r)
    ensures var s := Run(events); HasRead(s, r) + s.queue == HasWritten(s, w)
  {
    var s := Run(events);
    BetweenMoves(events, w, r);
    OfAll(s.accepted, w);
    OfAll(s.delivered, r);
    assert Accounted(s, r) && Accounted(s, w);
  }

  /** A reader that wants bytes and a writer that has some are never both stuck. */
  lemma SomebodyMoves(s: System, r: Tid, w: Tid)
    requires Inv(s) && Doing(s, r).Reading? && |Doing(s, r).got| < Doing(s, r).len
    requires Doing(s, w).Writing? && Doing(s, w).written < |Doing(s, w).data|
    ensures Step(s, Turn(r)).delivered != s.delivered || Step(s, Turn(w)).accepted != s.accepted
  {
    assert |s.queue| > 0 ==> |Step(s, Turn(r)).delivered| > |s.delivered|;
    assert |s.queue| < SIZE ==> |Step(s, Turn(w)).accepted| > |s.accepted|;
  }

  // ------------------------------------------------------------ a stuck writer

  /** t reads and still wants bytes. */
  predicate Wants(s: System, t: Tid) { Doing(s, t).Reading? && |Doing(s, t).got| < Doing(s, t).len }

  /** w has bytes to write and the pipe is full. */
  predicate Waits(s: System, w: Tid) {
    Doing(s, w).Writing? && Doing(s, w).written < |Doing(s, w).data| && |s.queue| == SIZE
  }

  predicate NoReads(events: seq<Event>) { forall k :: 0 <= k < |events| ==> !events[k].BeginRead? }

  lemma StepStaysFull(s: System, w: Tid, e: Event)
    requires Inv(s) && Waits(s, w) && !e.BeginRead? && forall t :: !Wants(s, t)
    ensures var r := Step(s, e); Doing(r, w) == Doing(s, w) && r.queue == s.queue && forall t :: !Wants(r, t)
  {
    var r := Step(s, e);
    assert e.Turn? ==> !Wants(s, e.t);
    forall t ensures !Wants(r, t) { assert !Wants(s, t); }
  }

  lemma {:induction false} StaysFull(s: System, w: Tid, events: seq<Event>)
    requires Inv(s) && Waits(s, w) && NoReads(events) && forall t :: !Wants(s, t)
    ensures Doing(RunFrom(s, events), w) == Doing(s, w)
    decreases |events|
  {
    if events != [] {
      StepKeeps(s, events[0]);
      StepStaysFull(s, w, events[0]);
      StaysFull(Step(s, events[0]), w, events[1..]);
    }
  }

  /** A reader that wants bytes makes room, and the writer's next turn uses it. */
  lemma ReaderHelps(s: System, w: Tid, t: Tid)
    requires Inv(s) && Waits(s, w) && Wants(s, t)
    ensures Doing(RunFrom(s, [Turn(t), Turn(w)]), w) != Doing(s, w)
  {
    var s1 := Step(s, Turn(t));
    StepKeeps(s, Turn(t));
    assert |s1.queue| < SIZE && Doing(s1, w) == Doing(s, w);
    var s2 := Step(s1, Turn(w));
    StepKeeps(s1, Turn(w));
    assert Doing(s2, w) != Doing(s, w);
    assert [Turn(t), Turn(w)][1..] == [Turn(w)] && [Turn(w)][1..] == [];
    assert RunFrom(s1, [Turn(w)]) == RunFrom(s2, []);
  }

  /** The read end is tested only when a write begins. So, closed read end or not, a writer on a full
      pipe waits through every run without a new read exactly when no read in progress wants bytes. */
  lemma WriterWaits(s: System, w: Tid)
    requires Inv(s) && Waits(s, w)
    ensures (forall events :: NoReads(events) ==> Doing(RunFrom(s, events), w) == Doing(s, w)) <==> (forall t :: !Wants(s, t))
  {
    if t :| Wants(s, t) {
      ReaderHelps(s, w, t);
      assert NoReads([Turn(t), Turn(w)]);
    } else {
      forall events | NoReads(events) ensures Doing(RunFrom(s, events), w) == Doing(s, w) { StaysFull(s, w, events); }
    }
  }

  /** Such a state comes about: one write too long for the pipe, and the reader closes. */
  lemma ClosedWhileWaiting(data: seq<Byte>)
    requires |data| > SIZE
    ensures var s := Run([BeginWrite(0, data), Turn(0), CloseRead]);
            s.readClosed && Waits(s, 0) && Doing(s, 0) == Writing(data, SIZE) && forall t :: !Wants(s, t)
  {
    RunSnoc([], BeginWrite(0, data));
    RunSnoc([BeginWrite(0, data)], Turn(0));
    RunSnoc([BeginWrite(0, data), Turn(0)], CloseRead);
    assert [BeginWrite(0, data)] + [Turn(0)] + [CloseRead] == [BeginWrite(0, data), Turn(0), CloseRead];
    assert [] + [BeginWrite(0, data)] == [BeginWrite(0, data)];
  }

  lemma RunSnoc(events: seq<Event>, e: Event)
    ensures Run(events + [e]) == Step(Run(events), e)
  {
    assert (events + [e])[..|events|] == events;
  }

  function RunFrom(s: System, events: seq<Event>): System
    requires Inv(s)
    decreases |events|
  {
    if events == [] then s else StepKeeps(s, events[0]); RunFrom(Step(s, events[0]), events[1..])
  }
}
