/** The byte ring of a kernel FIFO: index arithmetic in 32 bits, wrapped copies, and the bounded queue they refine. */
module RingBuffer {

  type byte = bv8

  const TWO_31 := 0x8000_0000
  const TWO_32 := 0x1_0000_0000

  /** Unsigned 32-bit wrap, and the reading of a 32-bit word as a signed int. */
  function U32(x: int): nat { x % TWO_32 }

  function AsInt(x: int): int
  {
    var u := U32(x);
    if u < TWO_31 then u else u - TWO_32
  }

  /** An index below 2 * size brought back below size. */
  function Wrap(x: nat, size: nat): (r: nat)
    requires x < 2 * size
    ensures r < size
  {
    if x < size then x else x - size
  }

  /** How many cells ahead of index from the cell i lies. */
  function Ahead(from: nat, i: nat, size: nat): (d: nat)
    requires from < size && i < size
    ensures d < size && Wrap(from + d, size) == i
  {
    if from <= i then i - from else i + size - from
  }

  /** The n ring cells from index from on, in order. */
  function Cells(data: seq<byte>, size: nat, from: nat, n: nat): (r: seq<byte>)
    requires size <= |data| && from < size && n <= size
    ensures |r| == n && forall k :: 0 <= k < n ==> r[k] == data[Wrap(from + k, size)]
  {
    seq(n, k requires 0 <= k < n => data[Wrap(from + k, size)])
  }

  /** Bytes stored: start is where the next byte goes in, end where the next one comes out. */
  function Stored(size: nat, start: nat, end: nat): (n: nat)
    requires start < size && end < size
    ensures n < size && Wrap(end + n, size) == start
  {
    if end <= start then start - end else start + size - end
  }

  predicate Indices(size: nat, start: nat, end: nat) {
    0 < size <= TWO_31 && start < size && end < size
  }

  /** The room kfifo_write_fifo computes, and the amount kfifo_read_fifo computes, in C's int arithmetic. */
  function WriterRoom(size: nat, start: nat, end: nat): int {
    var curfree := AsInt(start - end);
    var wrapped := if curfree < 0 then AsInt(curfree + size) else curfree;
    AsInt(size - wrapped - 1)
  }

  function ReaderAmount(size: nat, start: nat, end: nat): int {
    var cursize := AsInt(end - start);
    if cursize < 0 then AsInt(cursize + size) else cursize
  }

  /** The writer's room is what is left of size - 1 bytes; 32-bit wrap and signed reading do no harm up to 2^31. */
  lemma RoomExact(size: nat, start: nat, end: nat)
    requires Indices(size, start, end)
    ensures WriterRoom(size, start, end) == size - 1 - Stored(size, start, end)
  {
    SmallInt(start - end);
    if start < end {
      SmallInt(start - end + size);
    }
    SmallInt(size - 1 - Stored(size, start, end));
  }

  /** Numbers of 31 bits and their negations are read as themselves. */
  lemma SmallInt(x: int)
    requires -0x8000_0000 <= x < 0x8000_0000
    ensures AsInt(x) == x
  {}

  /** A FIFO of size 0 has no such bound: the room reads as 2^32 - 1 and every write is let through. */
  lemma ZeroSizeUnbounded(len: nat)
    requires len < TWO_32
    ensures !(U32(0 - 1) < len) && !(U32(WriterRoom(0, 0, 0)) < len)
  {}

  /** The reader computes the difference the other way round: what it takes for the amount stored is the complement
      of that amount modulo size. */
  lemma ReaderComplement(size: nat, start: nat, end: nat)
    requires Indices(size, start, end)
    ensures ReaderAmount(size, start, end) ==
      (if Stored(size, start, end) == 0 then 0 else size - Stored(size, start, end))
  {}

  /** With one byte stored in a page a read of 4095 passes; with 4095 stored a read of 2 is refused. */
  lemma ReaderTestWrong()
    ensures Stored(4096, 1, 0) == 1 && ReaderAmount(4096, 1, 0) == 4095
    ensures Stored(4096, 4095, 0) == 4095 && ReaderAmount(4096, 4095, 0) == 1
  {}

  /** So the reader's test agrees with "the bytes requested are there" except between the stored amount and its
      complement, whichever way round they are. */
  lemma ReaderTestRight(size: nat, start: nat, end: nat, len: nat)
    requires Indices(size, start, end)
    ensures var n := Stored(size, start, end); var free := size - n;
      (len <= ReaderAmount(size, start, end) <==> len <= n) <==>
      (n == 0 || !(if n < free then n < len <= free else free < len <= n))
  {
    ReaderComplement(size, start, end);
  }

  datatype Error = Success | Locked | Permission | Full | BufferLength

  class Fifo {
    var size: nat
    var start: nat
    var end: nat
    var data: array<byte>
    var recv: seq<nat>
    var send: seq<nat>

    ghost predicate Valid()
      reads this, data
    {
      Indices(size, start, end) && size <= data.Length
    }

    /** The queue the ring stands for, oldest byte first. */
    ghost function Contents(): (s: seq<byte>)
      requires Valid()
      reads this, data
      ensures |s| == Stored(size, start, end)
    {
      Cells(data[..], size, end, Stored(size, start, end))
    }

    /** The part of kfifo_create_fifo that sizes the ring: the ring is rounded up to whole pages, the region mapped
        for it has (requested + 4096) / 4096 of them. */
    constructor (requested: nat, recv: seq<nat>, send: seq<nat>)
      requires 1 <= requested <= 0x7000_0000
      ensures Valid() && Contents() == [] && this.recv == recv && this.send == send
      ensures requested <= size < requested + 4096 && size % 4096 == 0
    {
      size := U32(requested + 4096 - 1) / 4096 * 4096;
      start, end := 0, 0;
      data := new byte[U32(requested + 4096) / 4096 * 4096];
      this.recv, this.send := recv, send;
    }

    /** memcpy into the mapped ring, within its pages. */
    method CopyIn(at: nat, src: seq<byte>)
      requires at + |src| <= data.Length
      modifies data
      ensures forall i :: 0 <= i < data.Length ==>
        data[i] == if at <= i < at + |src| then src[i - at] else old(data[i])
    {
      for k := 0 to |src|
        invariant forall i :: 0 <= i < data.Length ==>
          data[i] == if at <= i < at + k then src[i - at] else old(data[i])
      {
        data[at + k] := src[k];
      }
    }

    /** The two-branch copy of kfifo_write_fifo: the cell d ahead of start takes byte d. */
    method CopyWrapped(buf: seq<byte>)
      requires Valid() && |buf| < size
      modifies data
      ensures Written(old(data[..]), data[..], size, start, buf)
    {
      if |buf| <= size - start {
        CopyIn(start, buf);
      } else {
        var first := size - start;
        CopyIn(start, buf[..first]);
        CopyIn(0, buf[first..]);
      }
    }

    /** The free space kfifo_write_fifo computes. */
    method Room() returns (curfree: int)
      requires Valid()
      ensures curfree == size - 1 - Stored(size, start, end)
    {
      RoomExact(size, start, end);
      curfree := AsInt(start - end);
      if curfree < 0 {
        curfree := AsInt(curfree + size);
      }
      curfree := AsInt(size - curfree - 1);
    }

    /** The amount kfifo_read_fifo computes. */
    method Amount() returns (cursize: int)
      requires Valid()
      ensures cursize == ReaderAmount(size, start, end)
    {
      cursize := AsInt(end - start);
      if cursize < 0 {
        cursize := AsInt(cursize + size);
      }
    }

    /** An index moved on by len cells, with one wrap. */
    method Advance(at: nat, len: nat) returns (r: nat)
      requires Valid() && at < size && len < size
      ensures r == Wrap(at + len, size)
    {
      r := U32(at + len);
      if size <= r {
        r := r - size;
      }
    }

    /** The two-branch copy of kfifo_read_fifo. */
    method CopyOut(len: nat) returns (out: seq<byte>)
      requires Valid() && len < size
      ensures out == Cells(data[..], size, end, len)
    {
      if len <= size - end {
        out := data[end..end + len];
      } else {
        out := data[end..size] + data[0..len - (size - end)];
      }
    }

    /** kfifo_write_fifo once the FIFO is locked: the bytes go in exactly if they fit and the process may send; a buffer
        too large for the ring is told first, then the want of room, then that of the right to send. */
    method Write(pid: nat, buf: seq<byte>) returns (err: Error)
      requires Valid() && |buf| < TWO_32
      modifies this`start, data
      ensures Valid() && |data[..]| == |old(data[..])|
      ensures err.Success? <==> pid in send && |buf| + |old(Contents())| <= size - 1
      ensures err.BufferLength? <==> size <= |buf|
      ensures err.Full? <==> |buf| < size && size - 1 < |buf| + |old(Contents())|
      ensures err.Permission? <==> pid !in send && |buf| + |old(Contents())| <= size - 1
      ensures Contents() == if err.Success? then old(Contents()) + buf else old(Contents())
    {
      var len := |buf|;
      if size - 1 < len {
        return BufferLength;
      }
      var curfree := Room();
      if curfree < len {
        return Full;
      }
      if pid !in send {
        return Permission;
      }
      ghost var was := data[..];
      CopyWrapped(buf);
      WriteAppends(was, data[..], size, start, end, buf);
      start := Advance(start, len);
      return Success;
    }

    /** kfifo_read_fifo once the FIFO is locked. It answers by the amount it computes, not by the amount stored. */
    method Read(pid: nat, len: nat) returns (err: Error, out: seq<byte>)
      requires Valid()
      modifies this`end
      ensures Valid()
      ensures err.Permission? <==> pid !in recv
      ensures var stored := |old(Contents())|;
        err.Success? <==> pid in recv && len <= if stored == 0 then 0 else size - stored
      ensures err.Success? || err.Permission? || err.BufferLength?
      ensures !err.Success? ==> out == [] && Contents() == old(Contents())
      ensures err.Success? ==> |out| == len
      ensures err.Success? && len <= |old(Contents())| ==> out + Contents() == old(Contents())
      ensures err.Success? && len > |old(Contents())| ==> |Contents()| == |old(Contents())| + size - len
    {
      out := [];
      if pid !in recv {
        return Permission, out;
      }
      var cursize := Amount();
      ReaderComplement(size, start, end);
      if cursize < len {
        return BufferLength, out;
      }
      out := Remove(len);
      return Success, out;
    }

    /** The copy out and the step of end. */
    method Remove(len: nat) returns (out: seq<byte>)
      requires Valid() && len < size
      modifies this`end
      ensures Valid() && |out| == len
      ensures len <= |old(Contents())| ==> out + Contents() == old(Contents())
      ensures len > |old(Contents())| ==> |Contents()| == |old(Contents())| + size - len
    {
      out := CopyOut(len);
      if len <= Stored(size, start, end) {
        ReadRemoves(data[..], size, start, end, len);
      }
      end := Advance(end, len);
    }
  }

  /** after is before with buf written into the ring from start on. */
  ghost predicate Written(before: seq<byte>, after: seq<byte>, size: nat, start: nat, buf: seq<byte>)
    requires size <= |before| && start < size
  {
    && |after| == |before|
    && forall i :: 0 <= i < size ==>
         after[i] == (var d := Ahead(start, i, size); if d < |buf| then buf[d] else before[i])
  }

  /** Writing what fits appends it to the queue. */
  lemma WriteAppends(before: seq<byte>, after: seq<byte>, size: nat, start: nat, end: nat, buf: seq<byte>)
    requires Indices(size, start, end) && size <= |before| && |buf| < size - Stored(size, start, end)
    requires Written(before, after, size, start, buf)
    ensures var n := Stored(size, start, end); var start' := Wrap(start + |buf|, size);
      && Stored(size, start', end) == n + |buf|
      && Cells(after, size, end, n + |buf|) == Cells(before, size, end, n) + buf
  {}

  /** Reading no more than is stored takes the oldest bytes off the queue. */
  lemma ReadRemoves(data: seq<byte>, size: nat, start: nat, end: nat, len: nat)
    requires Indices(size, start, end) && size <= |data| && len <= Stored(size, start, end)
    ensures var n := Stored(size, start, end); var end' := Wrap(end + len, size);
      && Stored(size, start, end') == n - len
      && Cells(data, size, end, len) + Cells(data, size, end', n - len) == Cells(data, size, end, n)
  {}
}
