/** The ring buffer of kernel/ipc/pipe.c. A turn of pipe_read or pipe_write is what runs between two
    calls of task_yield. */
module Pipe {
  import opened Common
  import opened PipeModel

  /** Place i after pos in the ring. */
  function Slot(pos: nat, i: nat): (r: nat)
    ensures r < SIZE
  {
    (pos + i) % SIZE
  }

  class Ring {
    const buf: array<Byte>
    var readPos: nat
    var writePos: nat
    var used: nat
    var readClosed: bool
    var writeClosed: bool

    ghost predicate Valid()
      reads this
    {
      buf.Length == SIZE && readPos < SIZE && used <= SIZE && writePos == Slot(readPos, used)
    }

    /** The bytes in the pipe, oldest first. */
    ghost function Contents(): (q: seq<Byte>)
      requires Valid()
      reads this, buf
      ensures |q| == used && forall i :: 0 <= i < used ==> q[i] == buf[Slot(readPos, i)]
    {
      seq(used, i requires 0 <= i < used && Valid() reads this, buf => buf[Slot(readPos, i)])
    }

    /** A zeroed struct pipe. */
    constructor ()
      ensures Valid() && Contents() == [] && !readClosed && !writeClosed && fresh(buf)
    {
      buf := new Byte[SIZE](_ => 0);
      readPos, writePos, used, readClosed, writeClosed := 0, 0, 0, false, false;
    }

    method Take() returns (b: Byte)
      requires Valid() && used > 0
      modifies this`readPos, this`used
      ensures Valid() && Contents() == old(Contents())[1..] && b == old(Contents())[0]
    {
      b := buf[readPos];
      assert Slot(readPos, 0) == readPos;
      readPos := (readPos + 1) % SIZE;
      used := used - 1;
      assert forall i: nat :: i < used ==> Slot(readPos, i) == Slot(old(readPos), i + 1);
    }

    method Put(b: Byte)
      requires Valid() && used < SIZE
      modifies this`writePos, this`used, buf
      ensures Valid() && Contents() == old(Contents()) + [b]
    {
      buf[writePos] := b;
      writePos := (writePos + 1) % SIZE;
      used := used + 1;
      assert forall i: nat :: i < used - 1 ==> Slot(readPos, i) != Slot(readPos, used - 1);
    }

    /** The loop of pipe_read until it returns or yields. */
    method Drain(dst: array<Byte>, start: nat, len: nat) returns (read: nat, done: bool)
      requires Valid() && start <= len <= dst.Length && dst != buf
      modifies this`readPos, this`used, dst
      ensures Valid() && read == start + Min(|old(Contents())|, len - start)
      ensures Contents() == old(Contents())[read - start..]
      ensures dst[..read] == old(dst[..start]) + old(Contents())[..read - start]
      ensures forall k :: read <= k < dst.Length ==> dst[k] == old(dst[k])
      ensures done <==> read == len || writeClosed
    {
      read := start;
      ghost var before := Contents();
      while read < len
        invariant Valid() && start <= read <= len && read - start <= |before|
        invariant Contents() == before[read - start..]
        invariant dst[..read] == old(dst[..start]) + before[..read - start]
        invariant forall k :: read <= k < dst.Length ==> dst[k] == old(dst[k])
      {
        if used == 0 { return read, writeClosed; }
        var b := Take();
        dst[read] := b;
        read := read + 1;
      }
      done := true;
    }

    /** A turn of pipe_read is the model's read turn on the contents. */
    method ReadTurn(dst: array<Byte>, start: nat, len: nat) returns (read: nat, done: bool)
      requires Valid() && start <= len <= dst.Length && dst != buf
      modifies this`readPos, this`used, dst
      ensures Valid() && start <= read <= len && (done <==> read == len || writeClosed)
      ensures forall k :: read <= k < dst.Length ==> dst[k] == old(dst[k])
      ensures forall s: System, t ::
                s.queue == old(Contents()) && s.writeClosed == writeClosed ==>
                  var r := PipeModel.ReadTurn(s, t, len, old(dst[..start]));
                  && r.queue == Contents() && r.delivered == s.delivered + Tag(t, dst[start..read])
                  && r.threads[t] == if done then Idle else Reading(len, dst[..read])
    {
      read, done := Drain(dst, start, len);
      assert dst[start..read] == dst[..read][start..] == old(Contents())[..read - start];
    }

    /** pipe_write past its closed check until it returns or yields. */
    method WriteTurn(src: seq<Byte>, start: nat) returns (written: nat, done: bool)
      requires Valid() && start <= |src|
      modifies this`writePos, this`used, buf
      ensures Valid() && written == start + Min(SIZE - |old(Contents())|, |src| - start)
      ensures Contents() == old(Contents()) + src[start..written]
      ensures done <==> written == |src|
      ensures forall s: System, t ::
                s.queue == old(Contents()) ==>
                  var r := PipeModel.WriteTurn(s, t, src, start);
                  && r.queue == Contents() && r.accepted == s.accepted + Tag(t, src[start..written])
                  && r.threads[t] == if done then Idle else Writing(src, written)
    {
      written := start;
      ghost var before := Contents();
      while written < |src|
        invariant Valid() && start <= written <= |src| && |before| + (written - start) <= SIZE
        invariant Contents() == before + src[start..written]
      {
        if used == SIZE { return written, false; }
        Put(src[written]);
        written := written + 1;
      }
      done := true;
    }

    method CloseRead()
      modifies this`readClosed
      ensures readClosed
    {
      readClosed := true;
    }

    method CloseWrite()
      modifies this`writeClosed
      ensures writeClosed
    {
      writeClosed := true;
    }
  }
}
