/** What each event does to a pipe and its threads, and what callers can rely on at its ends. */
module PipeLaws {
  import opened Common
  import opened PipeModel

  /** r differs from s only in what thread t does. */
  ghost predicate OnlyDoing(s: System, r: System, t: Tid, now: Activity) {
    r == s.(threads := s.threads[t := now])
  }

  /** A call starts only on an idle thread: a read in any case, a write unless the read end is closed; a
      write on a closed read end is refused at once. */
  lemma BeginLaw(s: System, t: Tid, len: nat, data: seq<Byte>)
    requires Shaped(s)
    ensures !Doing(s, t).Idle? ==> Step(s, BeginRead(t, len)) == s && Step(s, BeginWrite(t, data)) == s
    ensures Doing(s, t).Idle? ==> OnlyDoing(s, Step(s, BeginRead(t, len)), t, Reading(len, []))
    ensures Doing(s, t).Idle? && !s.readClosed ==> OnlyDoing(s, Step(s, BeginWrite(t, data)), t, Writing(data, 0))
    ensures Doing(s, t).Idle? && s.readClosed ==> Step(s, BeginWrite(t, data)) == s.(log := s.log + [Refused(t)])
  {
  }

  lemma CloseLaw(s: System)
    requires Shaped(s)
    ensures Step(s, CloseRead) == s.(readClosed := true) && Step(s, CloseWrite) == s.(writeClosed := true)
    ensures EMPTY == System([], false, false, map[], [], [], [])
  {
  }

  /** A reader's turn takes the oldest bytes, as many as are there and wanted. It returns when it has all
      it wants, or the write end is closed; otherwise it goes on reading. */
  lemma ReadLaw(s: System, t: Tid)
    requires Shaped(s) && Doing(s, t).Reading?
    ensures var len, got, r := Doing(s, t).len, Doing(s, t).got, Step(s, Turn(t));
            var n := if |s.queue| < len - |got| then |s.queue| else len - |got|;
            var now := got + s.queue[..n];
            && r.queue == s.queue[n..] && r.accepted == s.accepted && Bytes(r.delivered) == Bytes(s.delivered) + s.queue[..n]
            && r.readClosed == s.readClosed && r.writeClosed == s.writeClosed
            && (|now| == len || s.writeClosed ==>
                  Doing(r, t) == Idle && |r.log| == |s.log| + 1 && r.log[..|s.log|] == s.log
                  && var c := r.log[|s.log|]; c.ReadDone? && c.t == t && c.len == len && c.got == now && c.closed == s.writeClosed)
            && (|now| < len && !s.writeClosed ==> Doing(r, t) == Reading(len, now) && r.log == s.log)
            && (forall u :: u != t ==> Doing(r, u) == Doing(s, u))
  {
    var len, got := Doing(s, t).len, Doing(s, t).got;
    var n := if |s.queue| < len - |got| then |s.queue| else len - |got|;
    BytesTagged(s.delivered, t, s.queue[..n]);
  }

  /** A writer's turn puts the next bytes, as many as are left and fit in 4096. It returns when all are
      written, read end closed or not. */
  lemma WriteLaw(s: System, t: Tid)
    requires Shaped(s) && Doing(s, t).Writing?
    ensures var data, written, r := Doing(s, t).data, Doing(s, t).written, Step(s, Turn(t));
            var n := if 4096 - |s.queue| < |data| - written then 4096 - |s.queue| else |data| - written;
            && r.queue == s.queue + data[written..written + n] && r.delivered == s.delivered
            && Bytes(r.accepted) == Bytes(s.accepted) + data[written..written + n]
            && r.readClosed == s.readClosed && r.writeClosed == s.writeClosed
            && (written + n == |data| ==> Doing(r, t) == Idle && r.log == s.log + [WriteDone(t, data)])
            && (written + n < |data| ==> Doing(r, t) == Writing(data, written + n) && r.log == s.log)
            && (forall u :: u != t ==> Doing(r, u) == Doing(s, u))
  {
    var data, written := Doing(s, t).data, Doing(s, t).written;
    var n := if 4096 - |s.queue| < |data| - written then 4096 - |s.queue| else |data| - written;
    BytesTagged(s.accepted, t, data[written..written + n]);
  }

  lemma IdleLaw(s: System, t: Tid)
    requires Shaped(s) && Doing(s, t).Idle?
    ensures Step(s, Turn(t)) == s
  {
  }

  /** Once the write end is closed, every reader returns with its next turn: a reader that finds the pipe
      empty with what it has, nothing at all if nothing had come. */
  lemma EndOfFile(s: System, t: Tid)
    requires Shaped(s) && Doing(s, t).Reading?
    ensures var closed := Step(s, CloseWrite);
            && Shaped(closed) && Doing(Step(closed, Turn(t)), t) == Idle
            && (s.queue == [] ==> var log := Step(closed, Turn(t)).log; |log| == |s.log| + 1 && log[|s.log|].ReadDone? && log[|s.log|].got == Doing(s, t).got)
  {
    var closed := Step(s, CloseWrite);
    ReadLaw(closed, t);
    if s.queue == [] { assert Doing(s, t).got + [] == Doing(s, t).got; }
  }

  /** On an open pipe a reader that wants more than there is waits, and one for nothing returns at once. */
  lemma ReaderWaits(s: System, t: Tid)
    requires Shaped(s) && Doing(s, t).Reading? && !s.writeClosed
    ensures Doing(Step(s, Turn(t)), t) == Idle <==> Doing(s, t).len <= |Doing(s, t).got| + |s.queue|
  {
    ReadLaw(s, t);
  }
}
