/** Kernel event queues: what blocks a process, and what wakes it. */
module Kqueue {
  import opened Common

  datatype Flag = FifoReadable | FifoWritable | ProcQuit

  datatype Process = Process(status: Status, kqueueBlock: nat)
  datatype Event = Event(flag: Flag, ident: nat, parent: nat, triggered: bool)

  /** A kqueue and its events, newest first. */
  datatype Queue = Queue(pid: nat, events: seq<nat>)

  /** A FIFO as far as events go: the bytes it stores and the events hooked to it, newest first. */
  datatype Fifo = Fifo(count: nat, hooks: seq<nat>)

  datatype Error = Success | NoQueue | NotOwner

  /** Processes by pid, kqueues and FIFOs by id, events by address. */
  datatype State = State(
    procs: map<nat, Process>, queues: map<nat, Queue>, events: map<nat, Event>, fifos: map<nat, Fifo>,
    nextQueue: nat, nextEvent: nat)

  /** Every queue has a live owner and lists exactly its own events; hooks are events. */
  ghost predicate Linked(s: State) {
    && (forall q :: q in s.queues ==> q < s.nextQueue && s.queues[q].pid in s.procs && Distinct(s.queues[q].events))
    && (forall q, e :: q in s.queues && e in s.queues[q].events ==> e in s.events && s.events[e].parent == q)
    && (forall e :: e in s.events ==>
          e < s.nextEvent && s.events[e].parent in s.queues && e in s.queues[s.events[e].parent].events)
    && (forall f, e :: f in s.fifos && e in s.fifos[f].hooks ==> e in s.events)
  }

  /** Process p, waiting, owns the queue it waits on, and no event of that queue is triggered. */
  ghost predicate WaitsRightly(s: State, p: nat)
    requires Linked(s) && p in s.procs
  {
    s.procs[p].status.Waiting? ==>
      && s.procs[p].kqueueBlock in s.queues
      && s.queues[s.procs[p].kqueueBlock].pid == p
      && forall e :: e in s.events && s.events[e].parent == s.procs[p].kqueueBlock ==> !s.events[e].triggered
  }

  ghost predicate NoLostWakeup(s: State) {
    Linked(s) && forall p :: p in s.procs ==> WaitsRightly(s, p)
  }

  /** kqueue_trigger_event. */
  function Trigger(s: State, e: nat): State
    requires e in s.events
  {
    var q := s.events[e].parent;
    var s1 := s.(events := s.events[e := s.events[e].(triggered := true)]);
    if q in s.queues && s.queues[q].pid in s.procs then
      var p := s.queues[q].pid;
      if s.procs[p].status.Waiting? && s.procs[p].kqueueBlock == q
      then s1.(procs := s.procs[p := s.procs[p].(status := Running)]) else s1
    else s1
  }

  function Untrigger(s: State, e: nat): State
    requires e in s.events
  {
    s.(events := s.events[e := s.events[e].(triggered := false)])
  }

  /** The walk of a FIFO write over a list of events: trigger those waiting for data. */
  function TriggerAll(s: State, list: seq<nat>): State
    requires forall e :: e in list ==> e in s.events
  {
    if list == [] then s
    else
      var s1 := TriggerAll(s, list[..|list| - 1]);
      var e := list[|list| - 1];
      if e in s1.events && s1.events[e].flag.FifoReadable? then Trigger(s1, e) else s1
  }

  function UntriggerAll(s: State, list: seq<nat>): State
    requires forall e :: e in list ==> e in s.events
  {
    if list == [] then s
    else
      var s1 := UntriggerAll(s, list[..|list| - 1]);
      var e := list[|list| - 1];
      if e in s1.events && s1.events[e].flag.FifoReadable? then Untrigger(s1, e) else s1
  }

  /** The events a FIFO read walks over: the first hook, then on along that event's own queue, because the walk
      steps by next and not by hook_next. */
  function ReadWalk(s: State, f: nat): seq<nat>
    requires f in s.fifos
  {
    var hooks := s.fifos[f].hooks;
    if hooks == [] || hooks[0] !in s.events || s.events[hooks[0]].parent !in s.queues then []
    else
      var list := s.queues[s.events[hooks[0]].parent].events;
      list[IndexOf(list, hooks[0])..]
  }

  /** That is: nothing if the FIFO has no hook, and otherwise all of that queue's list from the first hook on. */
  lemma ReadWalkIs(s: State, f: nat)
    requires Linked(s) && f in s.fifos
    ensures var hooks, walk := s.fifos[f].hooks, ReadWalk(s, f);
      if hooks == [] then walk == []
      else
        && hooks[0] in s.events && s.events[hooks[0]].parent in s.queues
        && var list := s.queues[s.events[hooks[0]].parent].events;
           0 < |walk| <= |list| && walk[0] == hooks[0] && walk == list[|list| - |walk|..]
  {
    var hooks := s.fifos[f].hooks;
    if hooks != [] {
      assert hooks[0] in hooks;
      var list := s.queues[s.events[hooks[0]].parent].events;
      assert hooks[0] in list;
    }
  }

  lemma TriggerLinked(s: State, e: nat)
    requires Linked(s) && e in s.events
    ensures Linked(Trigger(s, e))
  {}

  lemma TriggerKeeps(s: State, e: nat)
    requires NoLostWakeup(s) && e in s.events
    ensures NoLostWakeup(Trigger(s, e))
  {
    var t := Trigger(s, e);
    TriggerLinked(s, e);
    forall p | p in t.procs ensures WaitsRightly(t, p) {
      assert WaitsRightly(s, p);
    }
  }

  lemma UntriggerKeeps(s: State, e: nat)
    requires NoLostWakeup(s) && e in s.events
    ensures NoLostWakeup(Untrigger(s, e))
  {
    var t := Untrigger(s, e);
    forall p | p in t.procs ensures WaitsRightly(t, p) {
      assert WaitsRightly(s, p);
    }
  }

  /** Process p waits on the queue of a readable event of the list. */
  ghost predicate Woken(s: State, list: seq<nat>, p: nat)
    requires p in s.procs
  {
    s.procs[p].status.Waiting? &&
    (exists e :: e in list && e in s.events && Wakes(s, e, p))
  }

  ghost predicate Wakes(s: State, e: nat, p: nat)
    requires p in s.procs && e in s.events
  {
    s.events[e].flag.FifoReadable? && s.events[e].parent == s.procs[p].kqueueBlock
  }

  ghost predicate Readable(s: State, list: seq<nat>, e: nat)
    requires e in s.events
  {
    e in list && s.events[e].flag.FifoReadable?
  }

  /** Triggering a list changes nothing but what is triggered and who runs. */
  lemma {:induction false} TriggerAllFrame(s: State, list: seq<nat>)
    requires forall e :: e in list ==> e in s.events
    ensures var t := TriggerAll(s, list);
      t == s.(events := t.events, procs := t.procs) && t.events.Keys == s.events.Keys && t.procs.Keys == s.procs.Keys
  {
    if list != [] {
      assert forall x :: x in list[..|list| - 1] ==> x in list;
      TriggerAllFrame(s, list[..|list| - 1]);
    }
  }

  lemma {:induction false} TriggerAllKeeps(s: State, list: seq<nat>)
    requires NoLostWakeup(s) && forall e :: e in list ==> e in s.events
    ensures NoLostWakeup(TriggerAll(s, list))
  {
    if list != [] {
      var init, e := list[..|list| - 1], list[|list| - 1];
      assert forall x :: x in init ==> x in list;
      TriggerAllKeeps(s, init);
      TriggerAllFrame(s, init);
      TriggerKeeps(TriggerAll(s, init), e);
    }
  }

  lemma {:induction false} TriggerAllLinked(s: State, list: seq<nat>)
    requires Linked(s) && forall e :: e in list ==> e in s.events
    ensures Linked(TriggerAll(s, list))
  {
    if list != [] {
      var init, e := list[..|list| - 1], list[|list| - 1];
      assert forall x :: x in init ==> x in list;
      TriggerAllLinked(s, init);
      TriggerAllFrame(s, init);
      TriggerLinked(TriggerAll(s, init), e);
    }
  }

  /** Exactly its readable events become triggered. */
  lemma {:induction false} TriggerAllEvents(s: State, list: seq<nat>, x: nat)
    requires x in s.events && forall e :: e in list ==> e in s.events
    ensures x in TriggerAll(s, list).events
    ensures TriggerAll(s, list).events[x] ==
      (if Readable(s, list, x) then s.events[x].(triggered := true) else s.events[x])
  {
    if list != [] {
      var init, e := list[..|list| - 1], list[|list| - 1];
      assert forall y :: y in list <==> y in init || y == e;
      TriggerAllEvents(s, init, x);
      TriggerAllEvents(s, init, e);
    }
  }

  ghost predicate OwnsItsQueue(s: State, p: nat)
    requires p in s.procs
  {
    s.procs[p].status.Waiting? ==> s.procs[p].kqueueBlock in s.queues && s.queues[s.procs[p].kqueueBlock].pid == p
  }

  /** Exactly the processes waiting on the queue of one of its readable events become runnable. */
  lemma {:induction false} TriggerAllWakes(s: State, list: seq<nat>, p: nat)
    requires p in s.procs && OwnsItsQueue(s, p) && forall e :: e in list ==> e in s.events
    ensures p in TriggerAll(s, list).procs
    ensures TriggerAll(s, list).procs[p] ==
      (if Woken(s, list, p) then s.procs[p].(status := Running) else s.procs[p])
  {
    if list != [] {
      var init, e := list[..|list| - 1], list[|list| - 1];
      assert forall y :: y in list <==> y in init || y == e;
      TriggerAllFrame(s, init);
      TriggerAllEvents(s, init, e);
      TriggerAllWakes(s, init, p);
      WokenStep(s, init, e, p);
      assert list == init + [e];
    }
  }

  lemma WokenStep(s: State, init: seq<nat>, e: nat, p: nat)
    requires p in s.procs && e in s.events
    ensures Woken(s, init + [e], p) <==> (Woken(s, init, p) || (s.procs[p].status.Waiting? && Wakes(s, e, p)))
  {}

  lemma {:induction false} UntriggerAllFrame(s: State, list: seq<nat>)
    requires forall e :: e in list ==> e in s.events
    ensures var t := UntriggerAll(s, list); t == s.(events := t.events) && t.events.Keys == s.events.Keys
  {
    if list != [] {
      assert forall x :: x in list[..|list| - 1] ==> x in list;
      UntriggerAllFrame(s, list[..|list| - 1]);
    }
  }

  lemma {:induction false} UntriggerAllKeeps(s: State, list: seq<nat>)
    requires NoLostWakeup(s) && forall e :: e in list ==> e in s.events
    ensures NoLostWakeup(UntriggerAll(s, list))
  {
    if list != [] {
      var init, e := list[..|list| - 1], list[|list| - 1];
      assert forall x :: x in init ==> x in list;
      UntriggerAllKeeps(s, init);
      UntriggerAllFrame(s, init);
      UntriggerKeeps(UntriggerAll(s, init), e);
    }
  }

  lemma {:induction false} UntriggerAllEvents(s: State, list: seq<nat>, x: nat)
    requires x in s.events && forall e :: e in list ==> e in s.events
    ensures x in UntriggerAll(s, list).events
    ensures UntriggerAll(s, list).events[x] ==
      (if Readable(s, list, x) then s.events[x].(triggered := false) else s.events[x])
  {
    if list != [] {
      var init, e := list[..|list| - 1], list[|list| - 1];
      assert forall y :: y in list <==> y in init || y == e;
      UntriggerAllEvents(s, init, x);
      UntriggerAllEvents(s, init, e);
    }
  }

  /** After a write that leaves count bytes in FIFO f, every readable event hooked to it is triggered. */
  function AfterWrite(s: State, f: nat, count: nat): State
    requires f in s.fifos && forall e :: e in s.fifos[f].hooks ==> e in s.events
  {
    TriggerAll(s.(fifos := s.fifos[f := s.fifos[f].(count := count)]), s.fifos[f].hooks)
  }

  /** After a read that leaves count bytes, events are cleared only if the FIFO is empty. */
  function AfterRead(s: State, f: nat, count: nat): State
    requires f in s.fifos && forall e :: e in ReadWalk(s, f) ==> e in s.events
  {
    var s1 := s.(fifos := s.fifos[f := s.fifos[f].(count := count)]);
    if count == 0 then UntriggerAll(s1, ReadWalk(s, f)) else s1
  }

  /** kqueue_block for the running process p: whether it blocks, and the state after. */
  function Blocked(s: State, q: nat, p: nat): (State, Error)
    requires p in s.procs
  {
    if q !in s.queues then (s, NoQueue)
    else if s.queues[q].pid != p then (s, NotOwner)
    else if exists i :: 0 <= i < |s.queues[q].events| && IsTriggered(s, s.queues[q].events[i]) then (s, Success)
    else (s.(procs := s.procs[p := Process(Waiting, q)]), Success)
  }

  predicate IsTriggered(s: State, e: nat) { e in s.events && s.events[e].triggered }

  /** kqueue_event with the FIFO filter. */
  function Added(s: State, q: nat, p: nat, ident: nat, flag: Flag): (State, Error) {
    if q !in s.queues then (s, NoQueue)
    else if s.queues[q].pid != p then (s, NotOwner)
    else
      var e, hooked := s.nextEvent, ident in s.fifos;
      var ready := hooked && flag.FifoReadable? && s.fifos[ident].count != 0;
      (s.(events := s.events[e := Event(flag, ident, q, ready)],
          queues := s.queues[q := s.queues[q].(events := [e] + s.queues[q].events)],
          fifos := if hooked then s.fifos[ident := s.fifos[ident].(hooks := [e] + s.fifos[ident].hooks)] else s.fifos,
          nextEvent := e + 1), Success)
  }

  /** The loop of kqueue_poll from a list position on, got events already reported. */
  function Poll(s: State, list: seq<nat>, limit: nat, got: nat): (State, seq<nat>)
    decreases |list|
  {
    if list == [] then (s, [])
    else
      var e := list[0];
      var s1 := if IsTriggered(s, e) then Untrigger(s, e) else s;
      var taken := if IsTriggered(s, e) then [e] else [];
      if limit <= got + |taken| then (s1, taken)
      else
        var (s2, more) := Poll(s1, list[1..], limit, got + |taken|);
        (s2, taken + more)
  }

  /** The triggered events of a list, in order. */
  function TriggeredOf(s: State, list: seq<nat>): seq<nat> {
    if list == [] then []
    else (if IsTriggered(s, list[0]) then [list[0]] else []) + TriggeredOf(s, list[1..])
  }

  function FirstN(list: seq<nat>, n: nat): seq<nat> { if n < |list| then list[..n] else list }

  ghost predicate ClearedExactly(s: State, t: State, taken: seq<nat>) {
    && t == s.(events := t.events) && t.events.Keys == s.events.Keys
    && forall e :: e in s.events ==>
         t.events[e] == (if e in taken then s.events[e].(triggered := false) else s.events[e])
  }

  lemma {:induction false} TriggeredOfSame(s: State, t: State, list: seq<nat>)
    requires forall e :: e in list ==> IsTriggered(s, e) == IsTriggered(t, e)
    ensures TriggeredOf(s, list) == TriggeredOf(t, list)
  {
    if list != [] {
      assert list[0] in list && forall e :: e in list[1..] ==> e in list;
      TriggeredOfSame(s, t, list[1..]);
    }
  }

  lemma {:induction false} TriggeredOfIn(s: State, list: seq<nat>, e: nat)
    ensures e in TriggeredOf(s, list) <==> e in list && IsTriggered(s, e)
  {
    if list != [] {
      TriggeredOfIn(s, list[1..], e);
    }
  }

  lemma UntriggerOther(s: State, e: nat, rest: seq<nat>)
    requires e in s.events && e !in rest
    ensures TriggeredOf(Untrigger(s, e), rest) == TriggeredOf(s, rest)
  {
    TriggeredOfSame(s, Untrigger(s, e), rest);
  }

  /** Poll reports the first triggered events, as many as are still allowed, */
  lemma {:induction false} PollReports(s: State, list: seq<nat>, limit: nat, got: nat)
    requires Distinct(list) && got < limit
    ensures Poll(s, list, limit, got).1 == FirstN(TriggeredOf(s, list), limit - got)
    decreases |list|
  {
    if list != [] {
      var e, rest := list[0], list[1..];
      if IsTriggered(s, e) {
        UntriggerOther(s, e, rest);
        if got + 1 < limit {
          PollReports(Untrigger(s, e), rest, limit, got + 1);
        }
      } else {
        PollReports(s, rest, limit, got);
      }
    }
  }

  /** and clears exactly those. */
  lemma {:induction false} PollClears(s: State, list: seq<nat>, limit: nat, got: nat)
    ensures ClearedExactly(s, Poll(s, list, limit, got).0, Poll(s, list, limit, got).1)
    decreases |list|
  {
    if list != [] {
      var e, rest := list[0], list[1..];
      if IsTriggered(s, e) {
        if got + 1 < limit {
          PollClears(Untrigger(s, e), rest, limit, got + 1);
        }
      } else if got < limit {
        PollClears(s, rest, limit, got);
      }
    }
  }

  /** With a limit of 0 the first event is reported all the same, past the end of the caller's array. */
  lemma PollZero(s: State, list: seq<nat>)
    ensures Poll(s, list, 0, 0).1 == if list != [] && IsTriggered(s, list[0]) then [list[0]] else []
  {}

  /** kqueue_poll never writes past the limit unless the limit is 0 and the newest event is triggered. */
  lemma PollWithinLimit(s: State, list: seq<nat>, limit: nat)
    requires Distinct(list)
    ensures |Poll(s, list, limit, 0).1| <= limit <==> (limit > 0 || list == [] || !IsTriggered(s, list[0]))
  {
    if limit > 0 {
      PollReports(s, list, limit, 0);
    } else {
      PollZero(s, list);
    }
  }

  /** An event of queue q is triggered. */
  ghost predicate Ready(s: State, q: nat) {
    exists e :: e in s.events && s.events[e].parent == q && s.events[e].triggered
  }

  /** The caller of a queue's operation gets these answers by the queues alone. */
  ghost predicate Answers(s: State, q: nat, p: nat, err: Error) {
    && (err.NoQueue? <==> q !in s.queues)
    && (err.NotOwner? <==> q in s.queues && s.queues[q].pid != p)
  }

  /** kqueue_block leaves everything as it was but for one thing: with nothing triggered on its own queue the process
      waits on that queue. */
  lemma BlocksExactly(s: State, q: nat, p: nat)
    requires Linked(s) && p in s.procs
    ensures var (t, err) := Blocked(s, q, p);
      && Answers(s, q, p, err)
      && t == if err.Success? && !Ready(s, q) then s.(procs := s.procs[p := Process(Waiting, q)]) else s
  {
    if q in s.queues {
      var list := s.queues[q].events;
      forall e | e in s.events && s.events[e].parent == q ensures exists i :: 0 <= i < |list| && list[i] == e {
        assert e in list;
      }
      forall i | 0 <= i < |list| ensures list[i] in s.events && s.events[list[i]].parent == q {
        ListedEvents(s, q, i);
      }
    }
  }

  /** The FIFO named by ident exists and stores bytes. */
  predicate HasData(s: State, ident: nat) { ident in s.fifos && s.fifos[ident].count != 0 }

  /** t is s with one more event e, first on the list of queue q and on that of the FIFO it names, if there is one. */
  ghost predicate Gains(s: State, t: State, e: nat, q: nat, ident: nat, flag: Flag) {
    && e !in s.events && e in t.events && q in s.queues
    && t.events[e] == Event(flag, ident, q, flag.FifoReadable? && HasData(s, ident))
    && t.events.Keys == s.events.Keys + {e} && (forall x :: x in s.events ==> t.events[x] == s.events[x])
    && t.queues == s.queues[q := Queue(s.queues[q].pid, [e] + s.queues[q].events)]
    && t.fifos.Keys == s.fifos.Keys && t.procs == s.procs && t.nextQueue == s.nextQueue
    && forall f :: f in s.fifos ==>
         t.fifos[f] == Fifo(s.fifos[f].count, (if f == ident then [e] else []) + s.fifos[f].hooks)
  }

  /** kqueue_event gives the queue a new event, which starts triggered exactly if it waits for data and there is some;
      refused, it changes nothing. */
  lemma AddsExactly(s: State, q: nat, p: nat, ident: nat, flag: Flag)
    requires Linked(s)
    ensures var (t, err) := Added(s, q, p, ident, flag);
      && Answers(s, q, p, err)
      && if err.Success? then Gains(s, t, s.nextEvent, q, ident, flag) else t == s
  {}

  /** What user processes and FIFO traffic can do, one step at a time. */
  datatype Step =
    | Spawn(p: nat)
    | OpenFifo(f: nat)
    | CreateQueue(p: nat)
    | AddEvent(q: nat, p: nat, ident: nat, flag: Flag)
    | WriteFifo(f: nat, count: nat)
    | ReadFifo(f: nat, count: nat)
    | BlockOn(q: nat, p: nat)
    | PollQueue(q: nat, limit: nat)

  /** A call is made by a process that runs; an empty FIFO has nothing to read. */
  ghost predicate Legal(s: State, step: Step) {
    Linked(s) &&
    match step
    case Spawn(p) => p !in s.procs
    case OpenFifo(f) => f !in s.fifos
    case CreateQueue(p) => p in s.procs
    case AddEvent(q, p, _, _) => p in s.procs && s.procs[p].status.Running?
    case WriteFifo(f, _) => f in s.fifos
    case ReadFifo(f, count) => f in s.fifos && (s.fifos[f].count == 0 ==> count == 0)
    case BlockOn(q, p) => p in s.procs && s.procs[p].status.Running?
    case PollQueue(q, _) => q in s.queues
  }

  lemma ReadWalkEvents(s: State, f: nat)
    requires Linked(s) && f in s.fifos
    ensures forall e :: e in ReadWalk(s, f) ==> e in s.events
  {
    var hooks, walk := s.fifos[f].hooks, ReadWalk(s, f);
    if walk != [] {
      assert hooks[0] in hooks;
      var q := s.events[hooks[0]].parent;
      var list := s.queues[q].events;
      var from := IndexOf(list, hooks[0]);
      forall i | 0 <= i < |walk| ensures walk[i] in s.events {
        assert walk[i] == list[from + i] && list[from + i] in list;
      }
    }
  }

  ghost function Apply(s: State, step: Step): State
    requires Legal(s, step)
  {
    match step
    case Spawn(p) => s.(procs := s.procs[p := Process(Running, 0)])
    case OpenFifo(f) => s.(fifos := s.fifos[f := Fifo(0, [])])
    case CreateQueue(p) => s.(queues := s.queues[s.nextQueue := Queue(p, [])], nextQueue := s.nextQueue + 1)
    case AddEvent(q, p, ident, flag) => Added(s, q, p, ident, flag).0
    case WriteFifo(f, count) => AfterWrite(s, f, count)
    case ReadFifo(f, count) => ReadWalkEvents(s, f); AfterRead(s, f, count)
    case BlockOn(q, p) => Blocked(s, q, p).0
    case PollQueue(q, limit) => Poll(s, s.queues[q].events, limit, 0).0
  }

  lemma ListedEvents(s: State, q: nat, i: nat)
    requires Linked(s) && q in s.queues && i < |s.queues[q].events|
    ensures var e := s.queues[q].events[i]; e in s.events && e < s.nextEvent && s.events[e].parent == q
  {}

  lemma AddKeepsQueues(s: State, q: nat, p: nat, ident: nat, flag: Flag)
    requires Linked(s) && q in s.queues && s.queues[q].pid == p
    ensures var t := Added(s, q, p, ident, flag).0;
      && (forall x :: x in t.queues ==> Distinct(t.queues[x].events))
      && (forall x, e :: x in t.queues && e in t.queues[x].events ==> e in t.events && t.events[e].parent == x)
  {
    var list := s.queues[q].events;
    forall i | 0 <= i < |list| ensures list[i] != s.nextEvent {
      ListedEvents(s, q, i);
    }
    var t := Added(s, q, p, ident, flag).0;
    forall x, e | x in t.queues && e in t.queues[x].events ensures e in t.events && t.events[e].parent == x {
      if x != q || e != s.nextEvent {
        assert e in s.queues[x].events;
        assert e in s.events && e != s.nextEvent;
      }
    }
  }

  lemma AddKeepsEvents(s: State, q: nat, p: nat, ident: nat, flag: Flag)
    requires Linked(s) && q in s.queues && s.queues[q].pid == p
    ensures var t := Added(s, q, p, ident, flag).0;
      forall x :: x in t.events ==> t.events[x].parent in t.queues && x in t.queues[t.events[x].parent].events
  {}

  lemma AddKeepsLinked(s: State, q: nat, p: nat, ident: nat, flag: Flag)
    requires Linked(s)
    ensures Linked(Added(s, q, p, ident, flag).0)
  {
    if q in s.queues && s.queues[q].pid == p {
      AddKeepsQueues(s, q, p, ident, flag);
      AddKeepsEvents(s, q, p, ident, flag);
    }
  }

  lemma AddKeeps(s: State, q: nat, p: nat, ident: nat, flag: Flag)
    requires NoLostWakeup(s) && Legal(s, AddEvent(q, p, ident, flag))
    ensures NoLostWakeup(Added(s, q, p, ident, flag).0)
  {
    AddKeepsLinked(s, q, p, ident, flag);
    var t := Added(s, q, p, ident, flag).0;
    forall x | x in t.procs ensures WaitsRightly(t, x) {
      assert WaitsRightly(s, x);
    }
  }

  lemma BlockKeeps(s: State, q: nat, p: nat)
    requires NoLostWakeup(s) && Legal(s, BlockOn(q, p))
    ensures NoLostWakeup(Blocked(s, q, p).0)
  {
    var t := Blocked(s, q, p).0;
    assert Linked(t);
    forall x | x in t.procs ensures WaitsRightly(t, x) {
      assert WaitsRightly(s, x);
      if x == p && t != s {
        forall e | e in s.events && s.events[e].parent == q ensures !s.events[e].triggered {
          var i :| 0 <= i < |s.queues[q].events| && s.queues[q].events[i] == e;
          assert !IsTriggered(s, s.queues[q].events[i]);
        }
      }
    }
  }

  lemma ClearedLinked(s: State, t: State, taken: seq<nat>)
    requires Linked(s) && ClearedExactly(s, t, taken)
    ensures Linked(t)
  {
    forall e | e in s.events ensures t.events[e].parent == s.events[e].parent {}
    ClearedListed(s, t, taken);
  }

  lemma ClearedListed(s: State, t: State, taken: seq<nat>)
    requires Linked(s) && ClearedExactly(s, t, taken)
    ensures forall q, e :: q in t.queues && e in t.queues[q].events ==> e in t.events && t.events[e].parent == q
  {}

  lemma ClearedKeeps(s: State, t: State, taken: seq<nat>)
    requires NoLostWakeup(s) && ClearedExactly(s, t, taken)
    ensures NoLostWakeup(t)
  {
    ClearedLinked(s, t, taken);
    forall x | x in t.procs ensures WaitsRightly(t, x) {
      assert WaitsRightly(s, x);
    }
  }

  lemma SpawnKeeps(s: State, p: nat)
    requires NoLostWakeup(s) && p !in s.procs
    ensures NoLostWakeup(s.(procs := s.procs[p := Process(Running, 0)]))
  {
    var t := s.(procs := s.procs[p := Process(Running, 0)]);
    forall x | x in t.procs ensures WaitsRightly(t, x) {
      assert x != p ==> WaitsRightly(s, x);
    }
  }

  lemma OpenKeeps(s: State, f: nat)
    requires NoLostWakeup(s) && f !in s.fifos
    ensures NoLostWakeup(s.(fifos := s.fifos[f := Fifo(0, [])]))
  {
    var t := s.(fifos := s.fifos[f := Fifo(0, [])]);
    forall x | x in t.procs ensures WaitsRightly(t, x) {
      assert WaitsRightly(s, x);
    }
  }

  /** The new queue's id was no queue's before, so nobody waits on it and no event belongs to it. */
  lemma CreateKeeps(s: State, p: nat)
    requires NoLostWakeup(s) && p in s.procs
    ensures s.nextQueue !in s.queues && NoLostWakeup(Apply(s, CreateQueue(p)))
  {
    var t := Apply(s, CreateQueue(p));
    CreateLinked(s, p);
    forall x | x in t.procs ensures WaitsRightly(t, x) {
      assert WaitsRightly(s, x);
    }
  }

  lemma CreateLinked(s: State, p: nat)
    requires Linked(s) && p in s.procs
    ensures Linked(Apply(s, CreateQueue(p)))
  {}

  lemma CountKeepsLinked(s: State, f: nat, count: nat)
    requires Linked(s) && f in s.fifos
    ensures Linked(s.(fifos := s.fifos[f := s.fifos[f].(count := count)]))
  {}

  lemma WriteLinked(s: State, f: nat, count: nat)
    requires Linked(s) && f in s.fifos
    ensures Linked(AfterWrite(s, f, count))
  {
    CountKeepsLinked(s, f, count);
    TriggerAllLinked(s.(fifos := s.fifos[f := s.fifos[f].(count := count)]), s.fifos[f].hooks);
  }

  lemma CountKeeps(s: State, f: nat, count: nat)
    requires NoLostWakeup(s) && f in s.fifos
    ensures NoLostWakeup(s.(fifos := s.fifos[f := s.fifos[f].(count := count)]))
  {
    var t := s.(fifos := s.fifos[f := s.fifos[f].(count := count)]);
    assert Linked(t);
    forall x | x in t.procs ensures WaitsRightly(t, x) {
      assert WaitsRightly(s, x);
    }
  }

  lemma ReadKeeps(s: State, f: nat, count: nat)
    requires NoLostWakeup(s) && f in s.fifos
    ensures (forall e :: e in ReadWalk(s, f) ==> e in s.events) && NoLostWakeup(AfterRead(s, f, count))
  {
    CountKeeps(s, f, count);
    ReadWalkEvents(s, f);
    UntriggerAllKeeps(s.(fifos := s.fifos[f := s.fifos[f].(count := count)]), ReadWalk(s, f));
  }

  lemma ApplyKeeps(s: State, step: Step)
    requires NoLostWakeup(s) && Legal(s, step)
    ensures NoLostWakeup(Apply(s, step))
  {
    match step
    case AddEvent(q, p, ident, flag) => AddKeeps(s, q, p, ident, flag);
    case WriteFifo(f, count) =>
      CountKeeps(s, f, count);
      TriggerAllKeeps(s.(fifos := s.fifos[f := s.fifos[f].(count := count)]), s.fifos[f].hooks);
    case ReadFifo(f, count) => ReadKeeps(s, f, count);
    case BlockOn(q, p) => BlockKeeps(s, q, p);
    case PollQueue(q, limit) =>
      PollClears(s, s.queues[q].events, limit, 0);
      ClearedKeeps(s, Apply(s, step), Poll(s, s.queues[q].events, limit, 0).1);
    case Spawn(p) => SpawnKeeps(s, p);
    case OpenFifo(f) => OpenKeeps(s, f);
    case CreateQueue(p) => CreateKeeps(s, p);
  }

  ghost predicate Run(s: State, steps: seq<Step>, last: State)
    decreases |steps|
  {
    if steps == [] then last == s else Legal(s, steps[0]) && Run(Apply(s, steps[0]), steps[1..], last)
  }

  const BOOT := State(map[], map[], map[], map[], 1, 0)

  lemma {:induction false} RunKeeps(s: State, steps: seq<Step>, last: State)
    requires NoLostWakeup(s) && Run(s, steps, last)
    ensures NoLostWakeup(last)
    decreases |steps|
  {
    if steps != [] {
      ApplyKeeps(s, steps[0]);
      RunKeeps(Apply(s, steps[0]), steps[1..], last);
    }
  }

  /** After every run from boot, a process that waits owns the queue it waits on, and none of its events is
      triggered. */
  lemma NobodySleepsThrough(steps: seq<Step>, last: State, p: nat)
    requires Run(BOOT, steps, last) && p in last.procs && last.procs[p].status.Waiting?
    ensures var q := last.procs[p].kqueueBlock;
      && q in last.queues && last.queues[q].pid == p
      && forall i :: 0 <= i < |last.queues[q].events| ==> !IsTriggered(last, last.queues[q].events[i])
  {
    RunKeeps(BOOT, steps, last);
    assert WaitsRightly(last, p);
    var q := last.procs[p].kqueueBlock;
    forall i | 0 <= i < |last.queues[q].events| ensures !IsTriggered(last, last.queues[q].events[i]) {
      assert last.queues[q].events[i] in last.queues[q].events;
    }
  }

  /** In every reachable state a write to FIFO f leaves each readable event hooked to f triggered and the owner of its
      queue, if it waited on that queue, running. */
  lemma WriteWakes(steps: seq<Step>, s: State, f: nat, count: nat, e: nat)
    requires Run(BOOT, steps, s) && f in s.fifos && e in s.fifos[f].hooks
    ensures Linked(s) && e in s.events
    ensures var t := AfterWrite(s, f, count);
      s.events[e].flag.FifoReadable? ==>
        && e in t.events && t.events[e].triggered
        && var owner := s.queues[s.events[e].parent].pid;
           owner in t.procs && !(t.procs[owner].status.Waiting? && t.procs[owner].kqueueBlock == s.events[e].parent)
  {
    RunKeeps(BOOT, steps, s);
    var s1 := s.(fifos := s.fifos[f := s.fifos[f].(count := count)]);
    var hooks := s.fifos[f].hooks;
    TriggerAllEvents(s1, hooks, e);
    var owner := s.queues[s.events[e].parent].pid;
    assert WaitsRightly(s, owner);
    TriggerAllWakes(s1, hooks, owner);
    assert s.events[e].flag.FifoReadable? ==> Wakes(s1, e, owner) || s.procs[owner].kqueueBlock != s.events[e].parent;
  }

  /** What a read that empties FIFO f ought to do: clear exactly the readable events hooked to f. */
  ghost predicate ReadClearsHooks(s: State, f: nat)
    requires Linked(s) && f in s.fifos
  {
    ReadWalkEvents(s, f);
    var t := AfterRead(s, f, 0);
    forall e :: e in s.events ==>
      e in t.events && t.events[e].triggered == (s.events[e].triggered && !Readable(s, s.fifos[f].hooks, e))
  }

  /** It does so exactly when the triggered readable events along the first hook's own queue, from that hook on,
      are those hooked to f. */
  lemma ReadClearsHooksExactly(s: State, f: nat)
    requires Linked(s) && f in s.fifos
    ensures ReadClearsHooks(s, f) <==>
      forall e :: e in s.events && s.events[e].triggered && s.events[e].flag.FifoReadable? ==>
        (e in ReadWalk(s, f) <==> e in s.fifos[f].hooks)
  {
    ReadWalkEvents(s, f);
    var s1 := s.(fifos := s.fifos[f := s.fifos[f].(count := 0)]);
    var t := AfterRead(s, f, 0);
    forall e | e in s.events
      ensures e in t.events && t.events[e].triggered == (s.events[e].triggered && !Readable(s, ReadWalk(s, f), e))
    {
      UntriggerAllEvents(s1, ReadWalk(s, f), e);
    }
  }

  /** A process watching FIFO 7 and then FIFO 8 on one kqueue: emptying FIFO 8 also clears the event of FIFO 7,
      which still holds data, and the process then blocks. */
  const WATCHER := State(
    map[1 := Process(Running, 0)], map[1 := Queue(1, [1, 0])],
    map[0 := Event(FifoReadable, 7, 1, true), 1 := Event(FifoReadable, 8, 1, true)],
    map[7 := Fifo(5, [0]), 8 := Fifo(5, [1])], 2, 2)

  const MISSED := WATCHER.(
    events := map[0 := Event(FifoReadable, 7, 1, false), 1 := Event(FifoReadable, 8, 1, false)],
    fifos := map[7 := Fifo(5, [0]), 8 := Fifo(0, [1])])

  lemma WatcherGood()
    ensures NoLostWakeup(WATCHER)
  {
    WatcherReached();
    RunKeeps(BOOT, SETUP + WATCH + FILL, WATCHER);
  }

  /** The calls that lead to it, the state after the first four and the state before the two writes. */
  const SETUP := [Spawn(1), OpenFifo(7), OpenFifo(8), CreateQueue(1)]
  const WATCH := [AddEvent(1, 1, 7, FifoReadable), AddEvent(1, 1, 8, FifoReadable)]
  const FILL := [WriteFifo(7, 5), WriteFifo(8, 5)]

  const READY := State(map[1 := Process(Running, 0)], map[1 := Queue(1, [])], map[],
    map[7 := Fifo(0, []), 8 := Fifo(0, [])], 2, 0)
  const WATCHED := WATCHER.(
    events := map[0 := Event(FifoReadable, 7, 1, false), 1 := Event(FifoReadable, 8, 1, false)],
    fifos := map[7 := Fifo(0, [0]), 8 := Fifo(0, [1])])

  lemma {:induction false} RunOn(s: State, steps: seq<Step>, t: State, more: seq<Step>, last: State)
    requires Run(s, steps, t) && Run(t, more, last)
    ensures Run(s, steps + more, last)
    decreases |steps|
  {
    if steps == [] {
      assert steps + more == more;
    } else {
      RunOn(Apply(s, steps[0]), steps[1..], t, more, last);
      assert (steps + more)[1..] == steps[1..] + more;
    }
  }

  lemma OneStep(s: State, step: Step)
    requires Legal(s, step)
    ensures Run(s, [step], Apply(s, step))
  {
    assert [step][1..] == [];
  }

  lemma SetUp()
    ensures Run(BOOT, SETUP, READY)
  {
    var s1 := Apply(BOOT, SETUP[0]);
    var s2 := Apply(s1, SETUP[1]);
    var s3 := Apply(s2, SETUP[2]);
    assert SETUP[1..][0] == SETUP[1] && SETUP[2..][0] == SETUP[2] && SETUP[3..][0] == SETUP[3];
    assert Apply(s3, SETUP[3]) == READY;
    assert SETUP[4..] == [];
    assert Run(READY, SETUP[4..], READY);
    assert SETUP[3..][1..] == SETUP[4..];
    assert Run(s3, SETUP[3..], READY);
    assert SETUP[2..][1..] == SETUP[3..];
    assert Run(s2, SETUP[2..], READY);
    assert SETUP[1..][1..] == SETUP[2..];
  }

  /** A process can watch two FIFOs on one kqueue, and both can be written before it looks. */
  lemma WatcherReached()
    ensures Run(BOOT, SETUP + WATCH + FILL, WATCHER)
  {
    SetUp();
    WatchBoth();
    AddKeepsLinked(READY, 1, 1, 7, FifoReadable);
    WatchFirst();
    WatchSecond();
    AddKeepsLinked(FIRST, 1, 1, 8, FifoReadable);
    FillBoth();
    RunOn(BOOT, SETUP, READY, WATCH, WATCHED);
    RunOn(BOOT, SETUP + WATCH, WATCHED, FILL, WATCHER);
  }

  const FIRST := State(map[1 := Process(Running, 0)], map[1 := Queue(1, [0])],
    map[0 := Event(FifoReadable, 7, 1, false)], map[7 := Fifo(0, [0]), 8 := Fifo(0, [])], 2, 1)
  const HALF := WATCHER.(
    events := map[0 := Event(FifoReadable, 7, 1, true), 1 := Event(FifoReadable, 8, 1, false)],
    fifos := map[7 := Fifo(5, [0]), 8 := Fifo(0, [1])])

  lemma WatchBoth()
    ensures Run(READY, WATCH, WATCHED)
  {
    WatchFirst();
    WatchSecond();
    AddKeepsLinked(READY, 1, 1, 7, FifoReadable);
    OneStep(READY, WATCH[0]);
    OneStep(FIRST, WATCH[1]);
    RunOn(READY, [WATCH[0]], FIRST, [WATCH[1]], WATCHED);
  }

  lemma WatchFirst()
    ensures Linked(READY) && Added(READY, 1, 1, 7, FifoReadable).0 == FIRST
  {
    assert [0] + READY.queues[1].events == [0] == [0] + READY.fifos[7].hooks;
    assert READY.events[0 := Event(FifoReadable, 7, 1, false)] == FIRST.events;
    assert READY.queues[1 := Queue(1, [0])] == FIRST.queues;
    assert READY.fifos[7 := Fifo(0, [0])] == FIRST.fifos;
  }

  lemma WatchSecond()
    ensures Added(FIRST, 1, 1, 8, FifoReadable).0 == WATCHED
  {
    assert [1] + FIRST.queues[1].events == [1, 0] && [1] + FIRST.fifos[8].hooks == [1];
    assert FIRST.events[1 := Event(FifoReadable, 8, 1, false)] == WATCHED.events;
    assert FIRST.queues[1 := Queue(1, [1, 0])] == WATCHED.queues;
    assert FIRST.fifos[8 := Fifo(0, [1])] == WATCHED.fifos;
  }

  lemma FillBoth()
    requires Linked(WATCHED)
    ensures Run(WATCHED, FILL, WATCHER)
  {
    FillFirst();
    FillSecond();
    WriteLinked(WATCHED, 7, 5);
    OneStep(WATCHED, FILL[0]);
    OneStep(HALF, FILL[1]);
    RunOn(WATCHED, [FILL[0]], HALF, [FILL[1]], WATCHER);
  }

  lemma FillFirst()
    ensures AfterWrite(WATCHED, 7, 5) == HALF
  {
    var s1 := WATCHED.(fifos := WATCHED.fifos[7 := Fifo(5, [0])]);
    TriggerOne(s1, 0);
    assert s1.fifos == HALF.fifos && s1.events[0 := HALF.events[0]] == HALF.events;
  }

  lemma FillSecond()
    ensures AfterWrite(HALF, 8, 5) == WATCHER
  {
    var s1 := HALF.(fifos := HALF.fifos[8 := Fifo(5, [1])]);
    TriggerOne(s1, 1);
    assert s1.fifos == WATCHER.fifos && s1.events[1 := WATCHER.events[1]] == WATCHER.events;
  }

  lemma TriggerOne(s: State, e: nat)
    requires e in s.events && s.events[e].flag.FifoReadable?
    ensures TriggerAll(s, [e]) == Trigger(s, e)
  {
    assert [e][..0] == [];
    assert TriggerAll(s, []) == s;
  }

  lemma WatcherRead()
    ensures ReadWalk(WATCHER, 8) == [1, 0] && AfterRead(WATCHER, 8, 0) == MISSED
  {
    var walk := [1, 0];
    assert walk[..1] == [1] && walk[..0] == [] && [1][..0] == [];
    var s1 := WATCHER.(fifos := WATCHER.fifos[8 := Fifo(0, [1])]);
    assert UntriggerAll(s1, [1]) == Untrigger(s1, 1);
    assert UntriggerAll(s1, walk) == Untrigger(Untrigger(s1, 1), 0);
  }

  const ASLEEP := MISSED.(procs := map[1 := Process(Waiting, 1)])

  /** FIFO 7 still stores five bytes, and the process that watches it goes to sleep. */
  lemma ReadingOneFifoHidesAnother()
    ensures Blocked(MISSED, 1, 1) == (ASLEEP, Success) && ASLEEP.fifos[7].count == 5
  {
    var list := MISSED.queues[1].events;
    assert |list| == 2 && !IsTriggered(MISSED, list[0]) && !IsTriggered(MISSED, list[1]);
    assert MISSED.procs[1 := Process(Waiting, 1)] == map[1 := Process(Waiting, 1)];
  }

  /** Ten calls from boot leave a process asleep next to the data it watches for. */
  lemma AsleepReached()
    ensures Run(BOOT, SETUP + WATCH + FILL + [ReadFifo(8, 0)] + [BlockOn(1, 1)], ASLEEP)
  {
    var steps := SETUP + WATCH + FILL;
    WatcherReached();
    RunKeeps(BOOT, steps, WATCHER);
    WatcherRead();
    OneStep(WATCHER, ReadFifo(8, 0));
    RunOn(BOOT, steps, WATCHER, [ReadFifo(8, 0)], MISSED);
    RunKeeps(BOOT, steps + [ReadFifo(8, 0)], MISSED);
    ReadingOneFifoHidesAnother();
    OneStep(MISSED, BlockOn(1, 1));
    RunOn(BOOT, steps + [ReadFifo(8, 0)], MISSED, [BlockOn(1, 1)], ASLEEP);
  }

  /** Hooks are on the list of the FIFO they name, and an event is triggered only if it waits for data there. */
  ghost predicate TriggersSound(s: State) {
    && (forall f, e :: f in s.fifos && e in s.fifos[f].hooks ==> e in s.events && s.events[e].ident == f)
    && (forall e :: e in s.events && s.events[e].triggered ==> WaitsForData(s, e))
  }

  ghost predicate WaitsForData(s: State, e: nat)
    requires e in s.events
  {
    var f := s.events[e].ident;
    s.events[e].flag.FifoReadable? && f in s.fifos && e in s.fifos[f].hooks
  }

  /** Nothing but what is triggered has changed for events and hooks, and only hooked readable events became so. */
  lemma SoundKept(s: State, t: State)
    requires TriggersSound(s) && t.events.Keys == s.events.Keys && t.fifos.Keys == s.fifos.Keys
    requires forall f :: f in s.fifos ==> t.fifos[f].hooks == s.fifos[f].hooks
    requires forall e :: e in s.events ==>
      t.events[e].(triggered := true) == s.events[e].(triggered := true)
      && (t.events[e].triggered ==> s.events[e].triggered || WaitsForData(s, e))
    ensures TriggersSound(t)
  {
    forall e | e in t.events && t.events[e].triggered ensures WaitsForData(t, e) {
      assert t.events[e].(triggered := true).flag == s.events[e].flag;
      assert t.events[e].(triggered := true).ident == s.events[e].ident;
    }
    forall f, e | f in t.fifos && e in t.fifos[f].hooks ensures e in t.events && t.events[e].ident == f {
      assert t.events[e].(triggered := true).ident == s.events[e].ident;
    }
  }

  lemma WriteSound(s: State, f: nat, count: nat)
    requires TriggersSound(s) && Legal(s, WriteFifo(f, count))
    ensures TriggersSound(Apply(s, WriteFifo(f, count)))
  {
    var s1 := s.(fifos := s.fifos[f := s.fifos[f].(count := count)]);
    var hooks := s.fifos[f].hooks;
    TriggerAllFrame(s1, hooks);
    forall e | e in s.events
      ensures e in TriggerAll(s1, hooks).events
      ensures TriggerAll(s1, hooks).events[e] ==
        if Readable(s1, hooks, e) then s.events[e].(triggered := true) else s.events[e]
    {
      TriggerAllEvents(s1, hooks, e);
    }
    SoundKept(s, TriggerAll(s1, hooks));
  }

  lemma ReadSound(s: State, f: nat, count: nat)
    requires TriggersSound(s) && Legal(s, ReadFifo(f, count))
    ensures TriggersSound(Apply(s, ReadFifo(f, count)))
  {
    ReadWalkEvents(s, f);
    var s1, walk := s.(fifos := s.fifos[f := s.fifos[f].(count := count)]), ReadWalk(s, f);
    UntriggerAllFrame(s1, walk);
    forall e | e in s.events
      ensures e in UntriggerAll(s1, walk).events
      ensures UntriggerAll(s1, walk).events[e] ==
        if Readable(s1, walk, e) then s.events[e].(triggered := false) else s.events[e]
    {
      UntriggerAllEvents(s1, walk, e);
    }
    SoundKept(s, AfterRead(s, f, count));
  }

  lemma AddSound(s: State, q: nat, p: nat, ident: nat, flag: Flag)
    requires TriggersSound(s) && Linked(s)
    ensures TriggersSound(Added(s, q, p, ident, flag).0)
  {
    var (t, err) := Added(s, q, p, ident, flag);
    AddsExactly(s, q, p, ident, flag);
    if err.Success? {
      GainSound(s, t, s.nextEvent, q, ident, flag);
    }
  }

  lemma GainSound(s: State, t: State, n: nat, q: nat, ident: nat, flag: Flag)
    requires TriggersSound(s) && Gains(s, t, n, q, ident, flag)
    ensures TriggersSound(t)
  {
    forall f, e | f in t.fifos && e in t.fifos[f].hooks ensures e in t.events && t.events[e].ident == f {
      assert e == n || e in s.fifos[f].hooks;
    }
    forall e | e in t.events && t.events[e].triggered ensures WaitsForData(t, e) {
      if e != n {
        assert e in s.events && WaitsForData(s, e);
        assert e in t.fifos[s.events[e].ident].hooks;
      } else {
        assert t.fifos[ident].hooks[0] == n;
      }
    }
  }

  lemma PollSound(s: State, q: nat, limit: nat)
    requires TriggersSound(s) && Legal(s, PollQueue(q, limit))
    ensures TriggersSound(Apply(s, PollQueue(q, limit)))
  {
    PollClears(s, s.queues[q].events, limit, 0);
    SoundKept(s, Apply(s, PollQueue(q, limit)));
  }

  lemma ApplySound(s: State, step: Step)
    requires TriggersSound(s) && Legal(s, step)
    ensures TriggersSound(Apply(s, step))
  {
    match step
    case WriteFifo(f, count) => WriteSound(s, f, count);
    case ReadFifo(f, count) => ReadSound(s, f, count);
    case AddEvent(q, p, ident, flag) => AddSound(s, q, p, ident, flag);
    case PollQueue(q, limit) => PollSound(s, q, limit);
    case OpenFifo(f) => OpenSound(s, f);
    case BlockOn(q, p) => BlockSound(s, q, p);
    case _ =>
  }

  lemma OpenSound(s: State, f: nat)
    requires TriggersSound(s) && f !in s.fifos
    ensures TriggersSound(s.(fifos := s.fifos[f := Fifo(0, [])]))
  {
    var t := s.(fifos := s.fifos[f := Fifo(0, [])]);
    assert forall e :: e in t.events && t.events[e].triggered ==> WaitsForData(s, e) && WaitsForData(t, e);
  }

  lemma BlockSound(s: State, q: nat, p: nat)
    requires TriggersSound(s) && Linked(s) && p in s.procs
    ensures TriggersSound(Blocked(s, q, p).0)
  {
    BlocksExactly(s, q, p);
  }

  lemma {:induction false} RunSound(s: State, steps: seq<Step>, last: State)
    requires TriggersSound(s) && Run(s, steps, last)
    ensures TriggersSound(last)
    decreases |steps|
  {
    if steps != [] {
      ApplySound(s, steps[0]);
      RunSound(Apply(s, steps[0]), steps[1..], last);
    }
  }

  /** After every run from boot an event that is triggered waits for data, and in the FIFO that it names. */
  lemma TriggeredWaitsForData(steps: seq<Step>, last: State, e: nat)
    requires Run(BOOT, steps, last) && e in last.events && last.events[e].triggered
    ensures last.events[e].flag.FifoReadable?
    ensures last.events[e].ident in last.fifos && e in last.fifos[last.events[e].ident].hooks
  {
    RunSound(BOOT, steps, last);
  }

  /** e waits for data in FIFO f, and there is some. */
  ghost predicate Due(s: State, f: nat, e: nat) {
    && f in s.fifos && s.fifos[f].count != 0 && e in s.fifos[f].hooks
    && e in s.events && s.events[e].flag.FifoReadable?
  }

  /** Every event that is due is triggered. */
  ghost predicate Signalled(s: State) {
    forall f, e :: Due(s, f, e) ==> s.events[e].triggered
  }

  /** The events kqueue_poll reports, by the state before the call: the first triggered ones up to the limit; with
      limit 0 the newest event, if triggered. */
  function Reported(s: State, list: seq<nat>, limit: nat): seq<nat> {
    if limit > 0 then FirstN(TriggeredOf(s, list), limit)
    else if list != [] && IsTriggered(s, list[0]) then [list[0]]
    else []
  }

  lemma PollIsReported(s: State, list: seq<nat>, limit: nat)
    requires Distinct(list)
    ensures Poll(s, list, limit, 0).1 == Reported(s, list, limit)
  {
    if limit > 0 {
      PollReports(s, list, limit, 0);
    } else {
      PollZero(s, list);
    }
  }

  /** The events a poll would report are not due; those that a read emptying FIFO f would walk over are not due to
      another FIFO. Every other step is harmless. */
  ghost predicate Harmless(s: State, step: Step)
    requires Legal(s, step)
  {
    match step
    case ReadFifo(f, count) => count == 0 ==> forall g, e :: Due(s, g, e) && g != f ==> e !in ReadWalk(s, f)
    case PollQueue(q, limit) => forall f, e :: Due(s, f, e) ==> e !in Reported(s, s.queues[q].events, limit)
    case _ => true
  }

  lemma EmptyingHarmless(s: State, f: nat)
    requires Signalled(s) && Legal(s, ReadFifo(f, 0))
    ensures Signalled(Apply(s, ReadFifo(f, 0))) <==> Harmless(s, ReadFifo(f, 0))
  {
    ReadWalkEvents(s, f);
    var s1 := s.(fifos := s.fifos[f := s.fifos[f].(count := 0)]);
    var t := AfterRead(s, f, 0);
    UntriggerAllFrame(s1, ReadWalk(s, f));
    forall g: nat, e: nat | e in s.events
      ensures Due(t, g, e) <==> Due(s, g, e) && g != f
      ensures Due(s, g, e) ==> (t.events[e].triggered <==> e !in ReadWalk(s, f))
    {
      UntriggerAllEvents(s1, ReadWalk(s, f), e);
      assert Due(s, g, e) ==> s.events[e].triggered;
    }
    assert forall g: nat, e: nat :: Due(t, g, e) ==> Due(s, g, e) && g != f;
    assert forall g: nat, e: nat :: Due(s, g, e) && g != f ==> Due(t, g, e);
  }

  lemma LeavingHarmless(s: State, f: nat, count: nat)
    requires Signalled(s) && Legal(s, ReadFifo(f, count)) && count != 0
    ensures Signalled(Apply(s, ReadFifo(f, count)))
  {
    var t := Apply(s, ReadFifo(f, count));
    assert t == s.(fifos := s.fifos[f := s.fifos[f].(count := count)]);
    assert forall g: nat, e: nat :: Due(t, g, e) ==> Due(s, g, e);
  }

  lemma PollHarmless(s: State, q: nat, limit: nat)
    requires Signalled(s) && Legal(s, PollQueue(q, limit))
    ensures Signalled(Apply(s, PollQueue(q, limit))) <==> Harmless(s, PollQueue(q, limit))
  {
    var (t, taken) := Poll(s, s.queues[q].events, limit, 0);
    PollClears(s, s.queues[q].events, limit, 0);
    PollIsReported(s, s.queues[q].events, limit);
    forall f, e ensures Due(t, f, e) <==> Due(s, f, e) {
      assert e in s.events ==> t.events[e].flag == s.events[e].flag;
    }
    forall f, e | Due(s, f, e) ensures t.events[e].triggered <==> e !in taken {
      assert s.events[e].triggered;
    }
    assert forall f, e :: Due(s, f, e) ==> Due(t, f, e);
    assert forall f, e :: Due(t, f, e) ==> Due(s, f, e);
  }

  lemma WriteSignals(s: State, f: nat, count: nat)
    requires Signalled(s) && Legal(s, WriteFifo(f, count))
    ensures Signalled(Apply(s, WriteFifo(f, count)))
  {
    var s1 := s.(fifos := s.fifos[f := s.fifos[f].(count := count)]);
    var t := AfterWrite(s, f, count);
    TriggerAllFrame(s1, s.fifos[f].hooks);
    forall g: nat, e: nat | Due(t, g, e) ensures t.events[e].triggered {
      TriggerAllEvents(s1, s.fifos[f].hooks, e);
      assert g != f ==> Due(s, g, e);
    }
  }

  lemma AddSignals(s: State, q: nat, p: nat, ident: nat, flag: Flag)
    requires Signalled(s) && Linked(s)
    ensures Signalled(Added(s, q, p, ident, flag).0)
  {
    var t := Added(s, q, p, ident, flag).0;
    if q in s.queues && s.queues[q].pid == p {
      forall g: nat, e: nat | Due(t, g, e) ensures t.events[e].triggered {
        assert e != s.nextEvent ==> Due(s, g, e);
        assert e == s.nextEvent && e in s.events ==> e < s.nextEvent;
      }
    }
  }

  /** Blocking, and every step that neither reads nor polls, keeps the events that are due triggered; a read or a poll
      does exactly when it is harmless. */
  lemma SignalsKeptExactly(s: State, step: Step)
    requires Signalled(s) && Legal(s, step)
    ensures Signalled(Apply(s, step)) <==> Harmless(s, step)
  {
    var t := Apply(s, step);
    match step
    case ReadFifo(f, count) =>
      if count == 0 {
        EmptyingHarmless(s, f);
      } else {
        LeavingHarmless(s, f, count);
      }
    case PollQueue(q, limit) => PollHarmless(s, q, limit);
    case WriteFifo(f, count) => WriteSignals(s, f, count);
    case AddEvent(q, p, ident, flag) => AddSignals(s, q, p, ident, flag);
    case _ => assert forall f, e :: Due(t, f, e) ==> Due(s, f, e);
  }

  ghost predicate HarmlessRun(s: State, steps: seq<Step>, last: State)
    decreases |steps|
  {
    if steps == [] then last == s
    else Legal(s, steps[0]) && Harmless(s, steps[0]) && HarmlessRun(Apply(s, steps[0]), steps[1..], last)
  }

  lemma {:induction false} HarmlessKeeps(s: State, steps: seq<Step>, last: State)
    requires NoLostWakeup(s) && Signalled(s) && HarmlessRun(s, steps, last)
    ensures NoLostWakeup(last) && Signalled(last)
    decreases |steps|
  {
    if steps != [] {
      ApplyKeeps(s, steps[0]);
      SignalsKeptExactly(s, steps[0]);
      HarmlessKeeps(Apply(s, steps[0]), steps[1..], last);
    }
  }

  /** After a run from boot of harmless steps, a process that waits has nothing to read: each FIFO to which a readable
      event of its queue is hooked is empty. */
  lemma WaitersFindNothing(steps: seq<Step>, last: State, p: nat, f: nat, e: nat)
    requires HarmlessRun(BOOT, steps, last) && p in last.procs && last.procs[p].status.Waiting?
    requires f in last.fifos && e in last.fifos[f].hooks && e in last.events
    requires last.events[e].flag.FifoReadable? && last.events[e].parent == last.procs[p].kqueueBlock
    ensures last.fifos[f].count == 0
  {
    HarmlessKeeps(BOOT, steps, last);
    assert WaitsRightly(last, p);
    assert !Due(last, f, e);
  }
}
