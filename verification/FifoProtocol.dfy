/** Readers and writers of one FIFO stepping through the list lock and the FIFO lock in any interleaving.
    test_and_set is one atomic exchange; each byte of a copy is a step of its own. */
module FifoProtocol {
  import opened RingBuffer

  /** Where a thread stands inside kfifo_write_fifo or kfifo_read_fifo. */
  datatype Pc =
    | Idle
    | WriterHasList(buf: seq<byte>)
    | WriterFound(buf: seq<byte>)
    | WriterLocked(buf: seq<byte>)
    | WriterCopying(buf: seq<byte>, k: nat)
    | WriterPublished
    | ReaderHasList(len: nat)
    | ReaderHasBoth(len: nat)
    | ReaderLocked(len: nat)
    | ReaderCopying(len: nat, out: seq<byte>)
    | ReaderPublished
  {
    predicate HoldsList() { WriterHasList? || ReaderHasList? || ReaderHasBoth? }

    predicate HoldsFifo() {
      || WriterLocked? || WriterCopying? || WriterPublished?
      || ReaderHasBoth? || ReaderLocked? || ReaderCopying? || ReaderPublished?
    }
  }

  datatype Call = Write(buf: seq<byte>) | Read(len: nat)

  /** accepted and delivered record the bytes of published writes and reads. */
  datatype State = State(
    size: nat, start: nat, end: nat, data: seq<byte>,
    listLock: bool, lock: bool, threads: map<nat, Pc>,
    accepted: seq<byte>, delivered: seq<byte>)
  {
    predicate Sized() { Indices(size, start, end) && size <= |data| }

    function Stored(): nat
      requires Sized()
    {
      RingBuffer.Stored(size, start, end)
    }

    function Goto(t: nat, pc: Pc): State { this.(threads := threads[t := pc]) }
  }

  /** A step of thread t: the call it makes when idle, and what the access lists say if it asks. */
  datatype Event = Event(t: nat, call: Call, permitted: bool)

  ghost predicate Enabled(s: State, e: Event) { s.Sized() && e.t in s.threads }

  /** The tests of kfifo_write_fifo: go on to the copy, or give up the lock. */
  function WriterTest(s: State, t: nat, buf: seq<byte>, permitted: bool): State
    requires s.Sized()
  {
    if permitted && |buf| <= s.size - 1 - s.Stored() then s.Goto(t, WriterCopying(buf, 0))
    else s.(lock := false).Goto(t, Idle)
  }

  /** Byte k of a write, or its publication. Both bounds hold in every reachable state. */
  function WriterCopy(s: State, t: nat, buf: seq<byte>, k: nat): State
    requires s.Sized()
  {
    if k < |buf| && s.start + k < 2 * s.size then
      s.(data := s.data[Wrap(s.start + k, s.size) := buf[k]]).Goto(t, WriterCopying(buf, k + 1))
    else if s.start + |buf| < 2 * s.size then
      s.(start := Wrap(s.start + |buf|, s.size), accepted := s.accepted + buf).Goto(t, WriterPublished)
    else s
  }

  function ReaderTest(s: State, t: nat, len: nat, permitted: bool): State
    requires s.Sized()
  {
    if !permitted || ReaderAmount(s.size, s.start, s.end) < len then s.(lock := false).Goto(t, Idle)
    else s.Goto(t, ReaderCopying(len, []))
  }

  function ReaderCopy(s: State, t: nat, len: nat, out: seq<byte>): State
    requires s.Sized()
  {
    if |out| < len && s.end + |out| < 2 * s.size then
      s.Goto(t, ReaderCopying(len, out + [s.data[Wrap(s.end + |out|, s.size)]]))
    else if s.end + len < 2 * s.size then
      s.(end := Wrap(s.end + len, s.size), delivered := s.delivered + out).Goto(t, ReaderPublished)
    else s
  }

  /** The remaining steps take or give up locks: test_and_set sets the lock whatever it finds there. */
  function LockStep(s: State, t: nat, call: Call, pc: Pc): State {
    match pc
    case Idle =>
      if s.listLock then s
      else s.(listLock := true).Goto(t, if call.Write? then WriterHasList(call.buf) else ReaderHasList(call.len))
    case WriterHasList(buf) => s.(listLock := false).Goto(t, WriterFound(buf))
    case WriterFound(buf) =>
      if s.lock then s.Goto(t, Idle) else s.(lock := true).Goto(t, WriterLocked(buf))
    case ReaderHasList(len) =>
      if s.lock then s.(listLock := false).Goto(t, Idle) else s.(lock := true).Goto(t, ReaderHasBoth(len))
    case ReaderHasBoth(len) => s.(listLock := false).Goto(t, ReaderLocked(len))
    case WriterPublished => s.(lock := false).Goto(t, Idle)
    case ReaderPublished => s.(lock := false).Goto(t, Idle)
    case _ => s
  }

  function Next(s: State, e: Event): State
    requires s.Sized() && e.t in s.threads
  {
    match s.threads[e.t]
    case WriterLocked(buf) => WriterTest(s, e.t, buf, e.permitted)
    case WriterCopying(buf, k) => WriterCopy(s, e.t, buf, k)
    case ReaderLocked(len) => ReaderTest(s, e.t, len, e.permitted)
    case ReaderCopying(len, out) => ReaderCopy(s, e.t, len, out)
    case pc => LockStep(s, e.t, e.call, pc)
  }

  ghost predicate ListOwner(s: State, t: nat) { t in s.threads && s.threads[t].HoldsList() }
  ghost predicate FifoOwner(s: State, t: nat) { t in s.threads && s.threads[t].HoldsFifo() }

  /** Each lock is set exactly while one thread holds it. */
  ghost predicate Exclusive(s: State) {
    && (forall t, u :: FifoOwner(s, t) && FifoOwner(s, u) ==> t == u)
    && (forall t, u :: ListOwner(s, t) && ListOwner(s, u) ==> t == u)
    && (s.lock <==> exists t :: FifoOwner(s, t))
    && (s.listLock <==> exists t :: ListOwner(s, t))
  }

  /** What a thread in the middle of a copy may rely on. */
  ghost predicate CopyOk(s: State, pc: Pc)
    requires s.Sized()
  {
    match pc
    case WriterCopying(buf, k) =>
      && k <= |buf| < s.size - s.Stored()
      && forall i :: 0 <= i < k ==> s.data[Wrap(s.start + i, s.size)] == buf[i]
    case ReaderCopying(len, out) =>
      && |out| <= len <= ReaderAmount(s.size, s.start, s.end) < s.size
      && out == Cells(s.data, s.size, s.end, |out|)
    case _ => true
  }

  ghost predicate CopiesOk(s: State) {
    s.Sized() && forall t :: t in s.threads ==> CopyOk(s, s.threads[t])
  }

  /** The bytes accepted are those delivered followed by those in the ring. */
  ghost predicate Queue(s: State) {
    s.Sized() && s.accepted == s.delivered + Cells(s.data, s.size, s.end, s.Stored())
  }

  ghost predicate Inv(s: State) { Exclusive(s) && CopiesOk(s) }

  /** Thread t is about to publish a read of more bytes than the ring stores. */
  ghost predicate OverRead(s: State, t: nat) {
    && s.Sized() && t in s.threads && s.threads[t].ReaderCopying?
    && |s.threads[t].out| == s.threads[t].len && s.Stored() < s.threads[t].len
  }

  /** A thread holds a lock after a step only if it held it before or found it free, and it frees what it gives up. */
  lemma OwnLocks(s: State, e: Event)
    requires Enabled(s, e)
    requires FifoOwner(s, e.t) ==> s.lock
    requires ListOwner(s, e.t) ==> s.listLock
    ensures var s', t := Next(s, e), e.t;
      && (FifoOwner(s', t) ==> s'.lock && (FifoOwner(s, t) || !s.lock))
      && (!FifoOwner(s', t) ==> s'.lock == (s.lock && !FifoOwner(s, t)))
      && (ListOwner(s', t) ==> s'.listLock && (ListOwner(s, t) || !s.listLock))
      && (!ListOwner(s', t) ==> s'.listLock == (s.listLock && !ListOwner(s, t)))
  {}

  lemma OtherThreads(s: State, e: Event)
    requires Enabled(s, e)
    ensures Next(s, e).threads.Keys == s.threads.Keys
    ensures forall u :: u in s.threads && u != e.t ==> Next(s, e).threads[u] == s.threads[u]
  {
    match s.threads[e.t] {
      case WriterLocked(_) =>
      case WriterCopying(_, _) =>
      case ReaderLocked(_) =>
      case ReaderCopying(_, _) =>
      case pc => LockStepThreads(s, e.t, e.call, pc);
    }
  }

  lemma LockStepThreads(s: State, t: nat, call: Call, pc: Pc)
    requires t in s.threads
    ensures var s' := LockStep(s, t, call, pc);
      && s'.threads.Keys == s.threads.Keys
      && (forall u :: u in s.threads && u != t ==> s'.threads[u] == s.threads[u])
      && (s'.threads[t] == s.threads[t] || !(s'.threads[t].WriterCopying? || s'.threads[t].ReaderCopying?))
  {}

  lemma NextExclusive(s: State, e: Event)
    requires Exclusive(s) && Enabled(s, e)
    ensures Exclusive(Next(s, e))
  {
    var s' := Next(s, e);
    OwnLocks(s, e);
    OtherThreads(s, e);
    forall u | u != e.t
      ensures FifoOwner(s', u) <==> FifoOwner(s, u)
      ensures ListOwner(s', u) <==> ListOwner(s, u)
    {}
    assert FifoOwner(s', e.t) ==> s'.lock;
    assert ListOwner(s', e.t) ==> s'.listLock;
  }

  /** A thread that is not copying has nothing to rely on; while one holds the FIFO, no other is copying. */
  lemma OthersIdle(s: State, t: nat, u: nat)
    requires Exclusive(s) && t in s.threads && u in s.threads && t != u && s.threads[t].HoldsFifo()
    ensures !s.threads[u].HoldsFifo()
  {
    assert FifoOwner(s, t);
    assert !FifoOwner(s, u);
  }

  /** Writing byte k does not disturb the bytes already written. */
  lemma WriterStep(s: State, t: nat, buf: seq<byte>, k: nat)
    requires s.Sized() && CopyOk(s, WriterCopying(buf, k)) && k < |buf|
    ensures var s' := WriterCopy(s, t, buf, k);
      s'.Sized() && s'.threads == s.threads[t := WriterCopying(buf, k + 1)] && CopyOk(s', WriterCopying(buf, k + 1))
  {}

  lemma ReaderStep(s: State, t: nat, len: nat, out: seq<byte>)
    requires s.Sized() && CopyOk(s, ReaderCopying(len, out)) && |out| < len
    ensures var s' := ReaderCopy(s, t, len, out);
      && s'.Sized() && s'.threads[t].ReaderCopying? && CopyOk(s', s'.threads[t])
      && s'.threads.Keys == s.threads.Keys + {t}
  {}

  lemma ReaderStarts(s: State, t: nat, len: nat, permitted: bool)
    requires s.Sized()
    ensures var s' := ReaderTest(s, t, len, permitted); s'.Sized() && CopyOk(s', s'.threads[t])
  {}

  lemma WriterStarts(s: State, t: nat, buf: seq<byte>, permitted: bool)
    requires s.Sized()
    ensures var s' := WriterTest(s, t, buf, permitted); s'.Sized() && CopyOk(s', s'.threads[t])
  {}

  /** CopyOk reads only the ring. */
  lemma CopyOkRing(s: State, s': State, pc: Pc)
    requires s.Sized() && s'.Sized() && CopyOk(s, pc)
    requires s'.size == s.size && s'.start == s.start && s'.end == s.end && s'.data == s.data
    ensures CopyOk(s', pc)
  {}

  lemma CopyingOwn(s: State, e: Event)
    requires Inv(s) && Enabled(s, e) && (s.threads[e.t].WriterCopying? || s.threads[e.t].ReaderCopying?)
    ensures Next(s, e).Sized() && e.t in Next(s, e).threads && CopyOk(Next(s, e), Next(s, e).threads[e.t])
  {
    assert CopyOk(s, s.threads[e.t]);
    match s.threads[e.t] {
      case WriterCopying(buf, k) =>
        if k < |buf| {
          WriterStep(s, e.t, buf, k);
        }
      case ReaderCopying(len, out) =>
        if |out| < len {
          ReaderStep(s, e.t, len, out);
        }
    }
  }

  lemma NextCopyOwn(s: State, e: Event)
    requires Inv(s) && Enabled(s, e)
    ensures Next(s, e).Sized() && e.t in Next(s, e).threads && CopyOk(Next(s, e), Next(s, e).threads[e.t])
  {
    match s.threads[e.t] {
      case WriterCopying(_, _) => CopyingOwn(s, e);
      case ReaderCopying(_, _) => CopyingOwn(s, e);
      case ReaderLocked(len) => ReaderStarts(s, e.t, len, e.permitted);
      case WriterLocked(buf) => WriterStarts(s, e.t, buf, e.permitted);
      case pc => LockStepThreads(s, e.t, e.call, pc);
    }
  }

  /** Only the owner of the FIFO's lock changes the ring. */
  lemma RingKept(s: State, e: Event)
    requires Enabled(s, e) && !s.threads[e.t].HoldsFifo()
    ensures var s' := Next(s, e);
      s'.size == s.size && s'.start == s.start && s'.end == s.end && s'.data == s.data
  {}

  lemma NextCopyOther(s: State, e: Event, u: nat)
    requires Inv(s) && Enabled(s, e) && u in s.threads && u != e.t && Next(s, e).Sized()
    ensures CopyOk(Next(s, e), s.threads[u])
  {
    assert CopyOk(s, s.threads[u]);
    if s.threads[e.t].HoldsFifo() {
      OthersIdle(s, e.t, u);
    } else {
      RingKept(s, e);
      CopyOkRing(s, Next(s, e), s.threads[u]);
    }
  }

  lemma NextCopies(s: State, e: Event)
    requires Inv(s) && Enabled(s, e)
    ensures CopiesOk(Next(s, e))
  {
    NextCopyOwn(s, e);
    var s' := Next(s, e);
    forall u | u in s'.threads ensures CopyOk(s', s'.threads[u]) {
      OtherThreads(s, e);
      if u != e.t {
        NextCopyOther(s, e, u);
      }
    }
  }

  /** The bytes of an unfinished write lie outside the queue. */
  lemma WriteOutside(s: State, t: nat, buf: seq<byte>, k: nat)
    requires Queue(s) && CopyOk(s, WriterCopying(buf, k)) && k < |buf|
    ensures Queue(WriterCopy(s, t, buf, k))
  {
    var s' := WriterCopy(s, t, buf, k);
    assert Cells(s'.data, s.size, s.end, s.Stored()) == Cells(s.data, s.size, s.end, s.Stored());
  }

  lemma PublishWrite(s: State, t: nat, buf: seq<byte>)
    requires Queue(s) && CopyOk(s, WriterCopying(buf, |buf|))
    ensures Queue(WriterCopy(s, t, buf, |buf|))
  {
    var n, cells := s.Stored(), Cells(s.data, s.size, s.end, s.Stored());
    CellsAfterWrite(s, buf);
    var s' := WriterCopy(s, t, buf, |buf|);
    assert s'.Stored() == n + |buf| && Cells(s'.data, s'.size, s'.end, s'.Stored()) == cells + buf;
    assert s.delivered + (cells + buf) == (s.delivered + cells) + buf;
  }

  lemma CellsAfterWrite(s: State, buf: seq<byte>)
    requires s.Sized() && CopyOk(s, WriterCopying(buf, |buf|))
    ensures var n := s.Stored();
      && RingBuffer.Stored(s.size, Wrap(s.start + |buf|, s.size), s.end) == n + |buf|
      && Cells(s.data, s.size, s.end, n + |buf|) == Cells(s.data, s.size, s.end, n) + buf
  {
    CopiedIsWritten(s, buf);
    WriteAppends(s.data, s.data, s.size, s.start, s.end, buf);
  }

  lemma CopiedIsWritten(s: State, buf: seq<byte>)
    requires s.Sized() && CopyOk(s, WriterCopying(buf, |buf|))
    ensures Written(s.data, s.data, s.size, s.start, buf)
  {}

  lemma CellsAfterRead(s: State, out: seq<byte>, end: nat, rest: seq<byte>)
    requires s.Sized() && CopyOk(s, ReaderCopying(|out|, out)) && |out| <= s.Stored()
    requires end == Wrap(s.end + |out|, s.size) && rest == Cells(s.data, s.size, end, s.Stored() - |out|)
    ensures RingBuffer.Stored(s.size, s.start, end) == s.Stored() - |out|
    ensures Cells(s.data, s.size, s.end, s.Stored()) == out + rest
  {
    ReadRemoves(s.data, s.size, s.start, s.end, |out|);
  }

  lemma PublishRead(s: State, t: nat, out: seq<byte>)
    requires Queue(s) && CopyOk(s, ReaderCopying(|out|, out)) && |out| <= s.Stored()
    ensures Queue(ReaderCopy(s, t, |out|, out))
  {
    var end := Wrap(s.end + |out|, s.size);
    var rest := Cells(s.data, s.size, end, s.Stored() - |out|);
    CellsAfterRead(s, out, end, rest);
    var s' := ReaderCopy(s, t, |out|, out);
    Requeued(s.accepted, s.delivered, out, rest);
    QueueIs(s', rest);
  }

  lemma Requeued(accepted: seq<byte>, delivered: seq<byte>, out: seq<byte>, rest: seq<byte>)
    requires accepted == delivered + (out + rest)
    ensures accepted == (delivered + out) + rest
  {}

  lemma QueueIs(s: State, cells: seq<byte>)
    requires s.Sized() && cells == Cells(s.data, s.size, s.end, s.Stored()) && s.accepted == s.delivered + cells
    ensures Queue(s)
  {}

  /** Every step but those of a copy leaves the ring and the counts alone. */
  lemma OtherStepsKeep(s: State, e: Event)
    requires s.Sized() && e.t in s.threads && Queue(s)
    requires !s.threads[e.t].WriterCopying? && !s.threads[e.t].ReaderCopying?
    ensures Queue(Next(s, e))
  {
    var t := Next(s, e);
    assert t.data == s.data && t.size == s.size && t.start == s.start && t.end == s.end;
    assert t.accepted == s.accepted && t.delivered == s.delivered;
  }

  /** A step keeps the queue: published writes append, and published reads that the ring can serve take off the
      front. */
  lemma NextQueue(s: State, e: Event)
    requires Inv(s) && Enabled(s, e) && Queue(s) && !OverRead(s, e.t)
    ensures Queue(Next(s, e))
  {
    assert CopyOk(s, s.threads[e.t]);
    match s.threads[e.t] {
      case WriterCopying(buf, k) =>
        if k < |buf| {
          WriteOutside(s, e.t, buf, k);
        } else {
          PublishWrite(s, e.t, buf);
        }
      case ReaderCopying(len, out) =>
        if |out| == len {
          PublishRead(s, e.t, out);
        } else {
          ReaderStep(s, e.t, len, out);
        }
      case _ => OtherStepsKeep(s, e);
    }
  }

  /** What a reader takes for the stored amount. */
  function Claimed(s: State): nat
    requires s.Sized()
  {
    if s.Stored() == 0 then 0 else s.size - s.Stored()
  }

  /** A step begins a copy exactly if the thread holds the FIFO, the access list names its process, and the test of the
      amount passes: the writer's is right, the reader's takes the complement of the stored amount for that amount. */
  lemma CopyBegins(s: State, e: Event)
    requires Enabled(s, e) && !s.threads[e.t].WriterCopying? && !s.threads[e.t].ReaderCopying?
    ensures var pc, after := s.threads[e.t], Next(s, e).threads[e.t];
      && (after.WriterCopying? <==>
            pc.WriterLocked? && e.permitted && |pc.buf| + s.Stored() <= s.size - 1)
      && (after.ReaderCopying? <==>
            pc.ReaderLocked? && e.permitted && pc.len <= Claimed(s))
      && (after.WriterCopying? ==> after == WriterCopying(pc.buf, 0))
      && (after.ReaderCopying? ==> after == ReaderCopying(pc.len, []))
  {
    ReaderComplement(s.size, s.start, s.end);
    if !s.threads[e.t].WriterLocked? && !s.threads[e.t].ReaderLocked? {
      LockStepThreads(s, e.t, e.call, s.threads[e.t]);
    }
  }

  /** Thread e.t alone gets from s to r in n steps. */
  ghost predicate Alone(s: State, e: Event, n: nat, r: State)
    decreases n
  {
    if n == 0 then r == s else Enabled(s, e) && Alone(Next(s, e), e, n - 1, r)
  }

  lemma {:induction false} AloneOn(s: State, e: Event, m: nat, r: State, n: nat, q: State)
    requires Alone(s, e, m, r) && Alone(r, e, n, q)
    ensures Alone(s, e, m + n, q)
    decreases m
  {
    if m > 0 {
      AloneOn(Next(s, e), e, m - 1, r, n, q);
    }
  }

  /** Only the ring, what went in and out of it, and where thread t stands differ. */
  ghost predicate OnlyMoved(s: State, t: nat, pc: Pc, r: State) {
    && r.Sized() && r.size == s.size && r.lock == s.lock && r.listLock == s.listLock
    && r.threads == s.threads[t := pc]
  }

  /** A copy into the ring and its publication, undisturbed. */
  lemma {:induction false} WriteAlone(s: State, e: Event, buf: seq<byte>, k: nat) returns (r: State)
    requires Queue(s) && e.t in s.threads && s.threads[e.t] == WriterCopying(buf, k) && CopyOk(s, s.threads[e.t])
    ensures Alone(s, e, |buf| - k + 1, r) && OnlyMoved(s, e.t, WriterPublished, r)
    ensures Queue(r) && r.accepted == s.accepted + buf && r.delivered == s.delivered
    decreases |buf| - k
  {
    var s' := Next(s, e);
    if k < |buf| {
      WriterStep(s, e.t, buf, k);
      WriteOutside(s, e.t, buf, k);
      r := WriteAlone(s', e, buf, k + 1);
    } else {
      PublishWrite(s, e.t, buf);
      r := s';
      assert Alone(s', e, 0, r);
    }
  }

  /** A copy out of the ring and its publication, undisturbed. */
  lemma {:induction false} ReadAlone(s: State, e: Event, len: nat, out: seq<byte>) returns (r: State, all: seq<byte>)
    requires Queue(s) && e.t in s.threads && s.threads[e.t] == ReaderCopying(len, out) && CopyOk(s, s.threads[e.t])
    ensures Alone(s, e, len - |out| + 1, r) && OnlyMoved(s, e.t, ReaderPublished, r) && |all| == len
    ensures r.accepted == s.accepted && r.delivered == s.delivered + all && (len <= s.Stored() ==> Queue(r))
    decreases len - |out|
  {
    if |out| < len {
      var more := NextByte(s, e, len, out);
      r, all := ReadAlone(Next(s, e), e, len, more);
    } else {
      all := out;
      r := PublishAlone(s, e, out);
    }
  }

  lemma NextByte(s: State, e: Event, len: nat, out: seq<byte>) returns (more: seq<byte>)
    requires Queue(s) && e.t in s.threads && s.threads[e.t] == ReaderCopying(len, out) && CopyOk(s, s.threads[e.t])
    requires |out| < len
    ensures var s' := Next(s, e);
      && Queue(s') && s'.threads == s.threads[e.t := ReaderCopying(len, more)] && CopyOk(s', ReaderCopying(len, more))
      && |more| == |out| + 1 && s' == s.(threads := s'.threads)
  {
    ReaderStep(s, e.t, len, out);
    more := Next(s, e).threads[e.t].out;
  }

  lemma PublishAlone(s: State, e: Event, out: seq<byte>) returns (r: State)
    requires Queue(s) && e.t in s.threads && s.threads[e.t] == ReaderCopying(|out|, out) && CopyOk(s, s.threads[e.t])
    ensures Alone(s, e, 1, r) && OnlyMoved(s, e.t, ReaderPublished, r)
    ensures r.accepted == s.accepted && r.delivered == s.delivered + out && (|out| <= s.Stored() ==> Queue(r))
  {
    r := Next(s, e);
    if |out| <= s.Stored() {
      PublishRead(s, e.t, out);
    }
    assert Alone(r, e, 0, r);
  }

  /** The first steps of a call, with both locks free: the thread gets to its tests, holding the FIFO alone. */
  lemma EnterAlone(s: State, e: Event) returns (r: State)
    requires s.Sized() && e.t in s.threads && s.threads[e.t].Idle? && !s.lock && !s.listLock
    ensures Alone(s, e, 3, r)
    ensures r == s.(lock := true).Goto(e.t,
              if e.call.Write? then WriterLocked(e.call.buf) else ReaderLocked(e.call.len))
  {
    var s1 := Next(s, e);
    var s2 := Next(s1, e);
    r := Next(s2, e);
    assert Alone(r, e, 0, r) && Alone(s2, e, 1, r) && Alone(s1, e, 2, r);
  }

  /** A call that finds a lock taken returns at once, with nothing changed: it never waits for it. */
  lemma LockedReturns(s: State, e: Event) returns (n: nat)
    requires s.Sized() && e.t in s.threads && s.threads[e.t].Idle? && (s.lock || s.listLock)
    ensures Alone(s, e, n, s) && 1 <= n <= 3
  {
    var s1 := Next(s, e);
    assert Alone(s, e, 0, s);
    if s.listLock {
      n := 1;
    } else if e.call.Read? {
      assert s.threads[e.t := ReaderHasList(e.call.len)][e.t := Idle] == s.threads;
      assert Next(s1, e) == s;
      assert Alone(s1, e, 1, s);
      n := 2;
    } else {
      var s2 := Next(s1, e);
      assert s2.threads == s.threads[e.t := WriterFound(e.call.buf)];
      assert s.threads[e.t := WriterFound(e.call.buf)][e.t := Idle] == s.threads;
      assert Next(s2, e) == s;
      assert Alone(s2, e, 1, s) && Alone(s1, e, 2, s);
      n := 3;
    }
  }

  /** The last step: the FIFO's lock is given up. */
  lemma LeaveAlone(s: State, e: Event) returns (r: State)
    requires s.Sized() && e.t in s.threads && (s.threads[e.t].WriterPublished? || s.threads[e.t].ReaderPublished?)
    ensures Alone(s, e, 1, r) && r == s.(lock := false).Goto(e.t, Idle)
  {
    r := Next(s, e);
    assert Alone(r, e, 0, r);
  }

  /** A write that nobody disturbs returns with both locks free. The bytes join the queue exactly if the process may
      send and they fit; otherwise nothing has changed. */
  lemma WriteCompletes(s: State, e: Event) returns (n: nat, r: State)
    requires Queue(s) && e.t in s.threads && s.threads[e.t].Idle? && !s.lock && !s.listLock && e.call.Write?
    ensures Alone(s, e, n, r) && OnlyMoved(s, e.t, Idle, r) && r.delivered == s.delivered && Queue(r)
    ensures var buf := e.call.buf;
      if e.permitted && |buf| + s.Stored() <= s.size - 1 then r.accepted == s.accepted + buf else r == s
  {
    var buf := e.call.buf;
    var s4 := TestAlone(s, e);
    if s4.threads[e.t].WriterCopying? {
      var s5 := WriteAlone(s4, e, buf, 0);
      r := LeaveAlone(s5, e);
      AloneOn(s4, e, |buf| + 1, s5, 1, r);
      AloneOn(s, e, 4, s4, |buf| + 2, r);
      n := |buf| + 6;
    } else {
      n, r := 4, s4;
    }
  }

  /** The first four: the thread copies, or has given up. */
  lemma TestAlone(s: State, e: Event) returns (r: State)
    requires Queue(s) && e.t in s.threads && s.threads[e.t].Idle? && !s.lock && !s.listLock
    ensures Alone(s, e, 4, r)
    ensures var go := e.permitted &&
        (if e.call.Write? then |e.call.buf| + s.Stored() <= s.size - 1
         else e.call.len <= Claimed(s));
      r == if go then s.(lock := true).Goto(e.t, Starts(e.call)) else s
    ensures e.t in r.threads && CopyOk(r, r.threads[e.t]) && Queue(r)
  {
    var s3 := EnterAlone(s, e);
    CopyBegins(s3, e);
    r := Next(s3, e);
    assert Alone(r, e, 0, r) && Alone(s3, e, 1, r);
    AloneOn(s, e, 3, s3, 1, r);
    ReaderComplement(s.size, s.start, s.end);
    assert r.threads == if r.threads[e.t].Idle? then s.threads else s.threads[e.t := Starts(e.call)];
  }

  function Starts(call: Call): Pc {
    match call
    case Write(buf) => WriterCopying(buf, 0)
    case Read(len) => ReaderCopying(len, [])
  }

  /** A read has taken len bytes, out: the oldest ones if as many were stored. */
  ghost predicate Took(s: State, t: nat, len: nat, r: State, out: seq<byte>)
    requires s.Sized()
  {
    && OnlyMoved(s, t, Idle, r) && |out| == len
    && r.accepted == s.accepted && r.delivered == s.delivered + out && (len <= s.Stored() ==> Queue(r))
  }

  lemma ReadAndLeave(s: State, e: Event, len: nat) returns (r: State, out: seq<byte>)
    requires Queue(s) && e.t in s.threads && s.threads[e.t] == ReaderCopying(len, []) && CopyOk(s, s.threads[e.t])
    ensures Alone(s, e, len + 2, r) && Took(s.(lock := false), e.t, len, r, out)
  {
    var s1;
    s1, out := ReadAlone(s, e, len, []);
    r := LeaveAlone(s1, e);
    AloneOn(s, e, len + 1, s1, 1, r);
  }

  lemma TookFrom(s: State, s': State, t: nat, pc: Pc, len: nat, r: State, out: seq<byte>)
    requires s.Sized() && !s.lock && s' == s.Goto(t, pc) && Took(s', t, len, r, out)
    ensures Took(s, t, len, r, out)
  {
    assert s'.threads[t := Idle] == s.threads[t := Idle];
  }

  /** So does a read. It takes the number of bytes asked for exactly if the process may receive and they are at most
      what the reader takes for the stored amount; they are the oldest bytes stored if as many are stored. */
  lemma ReadCompletes(s: State, e: Event) returns (n: nat, r: State, out: seq<byte>)
    requires Queue(s) && e.t in s.threads && s.threads[e.t].Idle? && !s.lock && !s.listLock && e.call.Read?
    ensures Alone(s, e, n, r)
    ensures if e.permitted && e.call.len <= Claimed(s) then Took(s, e.t, e.call.len, r, out) else r == s
  {
    n, out := 4, [];
    r := TestAlone(s, e);
    if e.permitted && e.call.len <= Claimed(s) {
      n, r, out := ReadOn(s, e, e.call.len, r);
    }
  }

  lemma ReadOn(s: State, e: Event, len: nat, s4: State) returns (n: nat, r: State, out: seq<byte>)
    requires Queue(s) && e.t in s.threads && !s.lock && Alone(s, e, 4, s4) && Queue(s4)
    requires s4 == s.(lock := true).Goto(e.t, ReaderCopying(len, [])) && CopyOk(s4, s4.threads[e.t])
    ensures Alone(s, e, n, r) && Took(s, e.t, len, r, out)
  {
    r, out := ReadAndLeave(s4, e, len);
    AloneOn(s, e, 4, s4, len + 2, r);
    n := len + 6;
    TookFrom(s, s4.(lock := false), e.t, ReaderCopying(len, []), len, r, out);
  }

  /** Publishing a read of more than the ring stores delivers more bytes than were ever accepted. */
  lemma OverReadOverruns(s: State, e: Event)
    requires Inv(s) && Enabled(s, e) && Queue(s) && OverRead(s, e.t)
    ensures |Next(s, e).delivered| > |Next(s, e).accepted|
  {
    assert CopyOk(s, s.threads[e.t]);
  }

  /** A run: each event in turn, from s. */
  ghost predicate Runs(s: State, events: seq<Event>)
    decreases |events|
  {
    events != [] ==> Enabled(s, events[0]) && Runs(Next(s, events[0]), events[1..])
  }

  ghost predicate NoOverRead(s: State, events: seq<Event>)
    requires Runs(s, events)
    decreases |events|
  {
    events != [] ==> !OverRead(s, events[0].t) && NoOverRead(Next(s, events[0]), events[1..])
  }

  ghost predicate PrefixThroughout(s: State, events: seq<Event>)
    requires Runs(s, events)
    decreases |events|
  {
    s.delivered <= s.accepted && (events != [] ==> PrefixThroughout(Next(s, events[0]), events[1..]))
  }

  ghost predicate ExclusiveThroughout(s: State, events: seq<Event>)
    requires Runs(s, events)
    decreases |events|
  {
    Exclusive(s) && (events != [] ==> ExclusiveThroughout(Next(s, events[0]), events[1..]))
  }

  ghost predicate Initial(s: State) {
    && s.Sized() && s.start == s.end && !s.lock && !s.listLock && s.accepted == [] && s.delivered == []
    && forall t :: t in s.threads ==> s.threads[t].Idle?
  }

  lemma {:induction false} ExclusiveKept(s: State, events: seq<Event>)
    requires Exclusive(s) && Runs(s, events)
    ensures ExclusiveThroughout(s, events)
    decreases |events|
  {
    if events != [] {
      NextExclusive(s, events[0]);
      ExclusiveKept(Next(s, events[0]), events[1..]);
    }
  }

  /** In every interleaving at most one thread holds the FIFO's lock, and at most one the list lock. */
  lemma MutualExclusion(s: State, events: seq<Event>)
    requires Initial(s) && Runs(s, events)
    ensures ExclusiveThroughout(s, events)
  {
    assert forall t :: !FifoOwner(s, t) && !ListOwner(s, t);
    ExclusiveKept(s, events);
  }

  lemma {:induction false} PrefixExactly(s: State, events: seq<Event>)
    requires Inv(s) && Queue(s) && Runs(s, events)
    ensures PrefixThroughout(s, events) <==> NoOverRead(s, events)
    decreases |events|
  {
    if events != [] {
      var e, next := events[0], Next(s, events[0]);
      NextExclusive(s, e);
      NextCopies(s, e);
      if OverRead(s, e.t) {
        OverReadOverruns(s, e);
        assert !(next.delivered <= next.accepted);
        assert !PrefixThroughout(next, events[1..]);
      } else {
        NextQueue(s, e);
        PrefixExactly(next, events[1..]);
      }
    }
  }

  /** In every interleaving, the bytes delivered to readers are at every moment a prefix of the bytes accepted from
      writers if and only if no read that the code accepts asks for more than the ring stores. */
  lemma DeliveredIsPrefix(s: State, events: seq<Event>)
    requires Initial(s) && Runs(s, events)
    ensures PrefixThroughout(s, events) <==> NoOverRead(s, events)
  {
    assert forall t :: !FifoOwner(s, t) && !ListOwner(s, t);
    PrefixExactly(s, events);
  }
}
