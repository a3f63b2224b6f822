/** The kqueue calls on the kernel's own lists: queues and FIFOs on a list each, every event on the list of its queue
    by next and on the list of its FIFO by hook_next. */
module KqueueKernel {
  import opened Common
  import opened Kqueue

  class KqueueNode {
    const pid: nat
    const id: nat
    const next: KqueueNode?
    var eventList: KeventNode?

    constructor (pid: nat, id: nat, next: KqueueNode?)
      ensures this.pid == pid && this.id == id && this.next == next && eventList == null
    {
      this.pid, this.id, this.next, eventList := pid, id, next, null;
    }
  }

  /** hook_next keeps whatever the slab left there until the event is hooked. */
  class KeventNode {
    const flag: Flag
    const ident: nat
    const parent: KqueueNode
    const next: KeventNode?
    var hookNext: KeventNode?
    var triggered: bool

    constructor (flag: Flag, ident: nat, parent: KqueueNode, next: KeventNode?)
      ensures this.flag == flag && this.ident == ident && this.parent == parent && this.next == next && !triggered
    {
      this.flag, this.ident, this.parent, this.next, triggered := flag, ident, parent, next, false;
    }
  }

  class FifoNode {
    const id: nat
    const next: FifoNode?
    var count: nat
    var keList: KeventNode?

    constructor (id: nat, next: FifoNode?)
      ensures this.id == id && this.next == next && count == 0 && keList == null
    {
      this.id, this.next, count, keList := id, next, 0, null;
    }
  }

  /** kqueue_event before the hook: the event is on its queue's list. */
  function Enlisted(s: State, q: nat, ident: nat, flag: Flag): State
    requires q in s.queues
  {
    s.(events := s.events[s.nextEvent := Event(flag, ident, q, false)],
      queues := s.queues[q := s.queues[q].(events := [s.nextEvent] + s.queues[q].events)],
      nextEvent := s.nextEvent + 1)
  }

  function HookedTo(s: State, e: nat, f: nat): State
    requires f in s.fifos
  {
    s.(fifos := s.fifos[f := s.fifos[f].(hooks := [e] + s.fifos[f].hooks)])
  }

  function Flagged(s: State, e: nat, b: bool): State
    requires e in s.events
  {
    s.(events := s.events[e := s.events[e].(triggered := b)])
  }

  /** kfifo_add_kqueue_event. */
  function Hooked(s: State, e: nat): State
    requires e in s.events
  {
    var f := s.events[e].ident;
    if f !in s.fifos then s
    else if s.events[e].flag.FifoReadable? && s.fifos[f].count != 0 then Flagged(HookedTo(s, e, f), e, true)
    else HookedTo(s, e, f)
  }

  /** Event e is on no FIFO's list. */
  ghost predicate Unhooked(s: State, e: nat) {
    forall f :: f in s.fifos ==> e !in s.fifos[f].hooks
  }

  lemma AddedInTwo(s: State, q: nat, ident: nat, flag: Flag)
    requires q in s.queues
    ensures Added(s, q, s.queues[q].pid, ident, flag) == (Hooked(Enlisted(s, q, ident, flag), s.nextEvent), Success)
  {
    var e := s.nextEvent;
    var fresh1 := s.events[e := Event(flag, ident, q, false)];
    assert forall b :: fresh1[e := Event(flag, ident, q, b)] == s.events[e := Event(flag, ident, q, b)];
  }

  lemma EnlistedLinked(s: State, q: nat, ident: nat, flag: Flag)
    requires Linked(s) && q in s.queues
    ensures Linked(Enlisted(s, q, ident, flag))
  {
    AddKeepsQueues(s, q, s.queues[q].pid, ident, flag);
    AddKeepsEvents(s, q, s.queues[q].pid, ident, flag);
  }

  lemma HookedToLinked(s: State, e: nat, f: nat)
    requires Linked(s) && e in s.events && f in s.fifos
    ensures Linked(HookedTo(s, e, f))
  {}

  lemma FlaggedLinked(s: State, e: nat, b: bool)
    requires Linked(s) && e in s.events
    ensures Linked(Flagged(s, e, b))
  {}

  /** An event not yet made is hooked nowhere. */
  lemma NewUnhooked(s: State, q: nat, ident: nat, flag: Flag)
    requires Linked(s) && q in s.queues
    ensures Unhooked(Enlisted(s, q, ident, flag), s.nextEvent)
  {
    forall f | f in s.fifos ensures s.nextEvent !in s.fifos[f].hooks {
      forall x | x in s.fifos[f].hooks ensures x != s.nextEvent {
        assert s.events[x].parent in s.queues;
      }
    }
  }

  /** What poll copies out for one event. */
  datatype Change = Change(flag: Flag, ident: nat)

  class Kernel {
    var kqueueList: KqueueNode?
    var fifoList: FifoNode?
    var nextKqueueId: nat
    var procs: map<nat, Process>
    /** The queues and FIFOs in list order, the events in the order of their creation. */
    ghost var queues: seq<KqueueNode>
    ghost var fifos: seq<FifoNode>
    ghost var events: seq<KeventNode>
    ghost var state: State

    /** The node of the event at position i of a list of events. */
    ghost function EventAt(list: seq<nat>, i: nat): KeventNode?
      reads this`events
    {
      if i < |list| && list[i] < |events| then events[list[i]] else null
    }

    /** Following next, or hook_next, leads along the list. */
    ghost predicate NextsAlong(list: seq<nat>)
      reads this`events
    {
      && (forall i :: 0 <= i < |list| ==> list[i] < |events|)
      && (forall i {:trigger events[list[i]].next} :: 0 <= i < |list| ==> events[list[i]].next == EventAt(list, i + 1))
    }

    ghost predicate HooksAlong(list: seq<nat>)
      reads this`events, events`hookNext
    {
      && (forall i :: 0 <= i < |list| ==> list[i] < |events|)
      && (forall i {:trigger events[list[i]].hookNext} :: 0 <= i < |list| ==>
            events[list[i]].hookNext == EventAt(list, i + 1))
    }

    ghost predicate QueueShown(k: nat)
      requires k < |queues|
      reads this`queues, this`events, this`state, queues`eventList
    {
      var kq := queues[k];
      && kq.id == |queues| - k && kq.next == (if k + 1 < |queues| then queues[k + 1] else null)
      && kq.id in state.queues && state.queues[kq.id].pid == kq.pid
      && kq.eventList == EventAt(state.queues[kq.id].events, 0) && NextsAlong(state.queues[kq.id].events)
    }

    ghost predicate QueuesShown()
      reads this`queues, this`events, this`state, this`kqueueList, this`nextKqueueId, queues`eventList
    {
      && state.nextQueue == nextKqueueId == |queues| + 1
      && kqueueList == (if |queues| == 0 then null else queues[0])
      && (forall q :: q in state.queues <==> 1 <= q <= |queues|)
      && (forall k :: 0 <= k < |queues| ==> QueueShown(k))
    }

    ghost predicate EventShown(e: nat)
      requires e < |events|
      reads this`queues, this`events, this`state, events`triggered
    {
      && events[e].parent in queues && e in state.events
      && state.events[e] == Event(events[e].flag, events[e].ident, events[e].parent.id, events[e].triggered)
    }

    ghost predicate EventsShown()
      reads this`queues, this`events, this`state, events`triggered
    {
      && state.nextEvent == |events| && Distinct(events)
      && (forall e :: e in state.events ==> e < |events|)
      && (forall e :: 0 <= e < |events| ==> EventShown(e))
    }

    ghost predicate FifoShown(k: nat)
      requires k < |fifos|
      reads this`fifos, this`events, this`state, fifos`count, fifos`keList, events`hookNext
    {
      var fifo := fifos[k];
      && fifo.next == (if k + 1 < |fifos| then fifos[k + 1] else null)
      && fifo.id in state.fifos && state.fifos[fifo.id].count == fifo.count
      && fifo.keList == EventAt(state.fifos[fifo.id].hooks, 0) && HooksAlong(state.fifos[fifo.id].hooks)
    }

    ghost predicate FifosShown()
      reads this`fifos, this`fifoList, this`events, this`state, fifos`count, fifos`keList, events`hookNext
    {
      && fifoList == (if |fifos| == 0 then null else fifos[0])
      && (forall i, j :: 0 <= i < j < |fifos| ==> fifos[i].id != fifos[j].id)
      && (forall f :: f in state.fifos ==> exists k :: 0 <= k < |fifos| && fifos[k].id == f)
      && (forall k :: 0 <= k < |fifos| ==> FifoShown(k))
    }

    ghost predicate Valid()
      reads this, queues, events, fifos
    {
      Linked(state) && state.procs == procs && QueuesShown() && EventsShown() && FifosShown()
    }

    /** The process list is Scheduler's part; here processes are found by pid. */
    constructor ()
      ensures Valid() && state == BOOT
    {
      kqueueList, fifoList, nextKqueueId, procs := null, null, 1, map[];
      queues, fifos, events, state := [], [], [], BOOT;
    }

    /** The search every call starts with. */
    method FindQueue(q: nat) returns (kq: KqueueNode?)
      requires Valid()
      ensures q !in state.queues ==> kq == null
      ensures q in state.queues ==> kq != null && kq.id == q && kq in queues && kq == queues[|queues| - q]
    {
      kq := kqueueList;
      ghost var k := 0;
      while kq != null && kq.id != q
        invariant 0 <= k <= |queues| && kq == if k < |queues| then queues[k] else null
        invariant q in state.queues ==> k <= |queues| - q
        decreases |queues| - k
      {
        assert QueueShown(k);
        kq := kq.next;
        k := k + 1;
      }
      if k < |queues| {
        assert QueueShown(k);
      }
    }

    method FindFifo(f: nat) returns (fifo: FifoNode?)
      requires Valid()
      ensures f !in state.fifos ==> fifo == null
      ensures f in state.fifos ==> fifo != null && fifo.id == f && fifo in fifos
    {
      fifo := fifoList;
      ghost var k := 0;
      while fifo != null && fifo.id != f
        invariant 0 <= k <= |fifos| && fifo == if k < |fifos| then fifos[k] else null
        invariant forall j :: 0 <= j < k ==> fifos[j].id != f
        decreases |fifos| - k
      {
        assert FifoShown(k);
        fifo := fifo.next;
        k := k + 1;
      }
      if k < |fifos| {
        assert FifoShown(k);
      }
    }

    /** What shows in nodes that have not changed still shows. */
    twostate lemma QueuesKept()
      requires old(QueuesShown()) && queues == old(queues) && kqueueList == old(kqueueList)
      requires nextKqueueId == old(nextKqueueId) && state.nextQueue == old(state).nextQueue
      requires state.queues == old(state).queues && old(events) <= events
      requires forall k :: 0 <= k < |queues| ==> queues[k].eventList == old(queues[k].eventList)
      ensures QueuesShown()
    {
      forall k | 0 <= k < |queues| ensures QueueShown(k) {
        assert old(QueueShown(k));
        AlongKept(state.queues[queues[k].id].events);
      }
    }

    twostate lemma AlongKept(list: seq<nat>)
      requires old(NextsAlong(list)) && old(events) <= events
      ensures NextsAlong(list) && EventAt(list, 0) == old(EventAt(list, 0))
    {}

    twostate lemma HooksKept(list: seq<nat>)
      requires old(HooksAlong(list)) && old(events) <= events
      requires forall x :: 0 <= x < |old(events)| ==> events[x].hookNext == old(events[x].hookNext)
      ensures HooksAlong(list) && EventAt(list, 0) == old(EventAt(list, 0))
    {}

    twostate lemma FifosKept()
      requires old(FifosShown()) && fifos == old(fifos) && fifoList == old(fifoList) && old(events) <= events
      requires state.fifos == old(state).fifos
      requires forall k :: 0 <= k < |fifos| ==>
        fifos[k].count == old(fifos[k].count) && fifos[k].keList == old(fifos[k].keList)
      requires forall x :: 0 <= x < |old(events)| ==> events[x].hookNext == old(events[x].hookNext)
      ensures FifosShown()
    {
      forall k | 0 <= k < |fifos| ensures FifoShown(k) {
        assert old(FifoShown(k));
        HooksKept(state.fifos[fifos[k].id].hooks);
      }
    }

    twostate lemma EventsKept()
      requires old(EventsShown()) && events == old(events) && state.nextEvent == old(state).nextEvent
      requires state.events == old(state).events
      requires forall kq :: kq in old(queues) ==> kq in queues
      requires forall x :: 0 <= x < |events| ==> events[x].triggered == old(events[x].triggered)
      ensures EventsShown()
    {
      forall x | 0 <= x < |events| ensures EventShown(x) {
        assert old(EventShown(x));
      }
    }

    /** A new queue goes to the front of the list. */
    twostate lemma QueuePushed(new kq: KqueueNode)
      requires old(QueuesShown()) && queues == [kq] + old(queues) && kqueueList == kq && events == old(events)
      requires nextKqueueId == old(nextKqueueId) + 1 && state.nextQueue == nextKqueueId
      requires kq.id == old(nextKqueueId) && kq.next == old(kqueueList) && kq.eventList == null
      requires state.queues == old(state).queues[kq.id := Queue(kq.pid, [])]
      requires forall k :: 0 <= k < |old(queues)| ==> old(queues)[k].eventList == old(queues[k].eventList)
      ensures QueuesShown()
    {
      forall k | 0 <= k < |queues| ensures QueueShown(k) {
        if 0 < k {
          assert queues[k] == old(queues)[k - 1] && old(QueueShown(k - 1));
        }
      }
    }

    /** create_kqueue: the id was nobody's, and the queue it now names is pid's and empty. */
    method CreateKqueue(pid: nat) returns (id: nat)
      requires Valid() && pid in procs
      modifies this`kqueueList, this`nextKqueueId, this`queues, this`state
      ensures Valid() && state == Apply(old(state), CreateQueue(pid))
      ensures id !in old(state).queues && id in state.queues && state.queues[id] == Queue(pid, [])
      ensures NoLostWakeup(old(state)) ==> NoLostWakeup(state)
    {
      id := nextKqueueId;
      CreateLinked(state, pid);
      if NoLostWakeup(state) {
        CreateKeeps(state, pid);
      }
      var newkq := new KqueueNode(pid, id, kqueueList);
      nextKqueueId := nextKqueueId + 1;
      kqueueList := newkq;
      queues, state := [newkq] + queues, Apply(state, CreateQueue(pid));
      QueuePushed(newkq);
      EventsKept();
      FifosKept();
    }

    /** The owner an event's queue names is a process. */
    lemma Owned(e: nat)
      requires Valid() && e < |events|
      ensures events[e].parent.id in state.queues
      ensures events[e].parent.pid == state.queues[events[e].parent.id].pid && events[e].parent.pid in procs
    {
      assert EventShown(e);
      var k :| 0 <= k < |queues| && queues[k] == events[e].parent;
      assert QueueShown(k);
    }

    twostate lemma FlagShown(e: nat)
      requires old(EventsShown()) && e < |events| && events == old(events) && queues == old(queues)
      requires forall x :: 0 <= x < |events| && x != e ==> events[x].triggered == old(events[x].triggered)
      requires state.nextEvent == old(state).nextEvent && e in old(state).events
      requires state.events == old(state).events[e := old(state).events[e].(triggered := events[e].triggered)]
      ensures EventsShown()
    {
      forall x | 0 <= x < |events| ensures EventShown(x) {
        assert old(EventShown(x));
      }
    }

    /** kqueue_untrigger_event, and the test_and_set of kfifo_add_kqueue_event: nobody is woken. */
    method SetTriggered(ke: KeventNode, ghost e: nat, b: bool)
      requires Valid() && e < |events| && ke == events[e] && e in state.events
      modifies this`state, ke`triggered
      ensures Valid() && state == Flagged(old(state), e, b)
    {
      FlaggedLinked(state, e, b);
      assert EventShown(e);
      ke.triggered := b;
      state := Flagged(state, e, b);
      QueuesKept();
      FifosKept();
      FlagShown(e);
    }

    /** Process pid runs again. */
    method Wake(pid: nat)
      requires Valid() && pid in procs
      modifies this`procs, this`state
      ensures Valid() && pid in old(state).procs
      ensures state == old(state).(procs := old(state).procs[pid := old(state).procs[pid].(status := Running)])
    {
      procs := procs[pid := procs[pid].(status := Running)];
      state := state.(procs := procs);
      QueuesKept();
      EventsKept();
      FifosKept();
    }

    /** kqueue_trigger_event: the event is triggered, and its queue's owner is not, or no longer, waiting for it. */
    method TriggerEvent(ke: KeventNode, ghost e: nat)
      requires Valid() && e < |events| && ke == events[e] && e in state.events
      modifies this`procs, this`state, ke`triggered
      ensures Valid() && state == Trigger(old(state), e)
      ensures e in state.events && state.events[e].triggered && !WaitsFor(state, e)
      ensures NoLostWakeup(old(state)) ==> NoLostWakeup(state)
    {
      TriggerMeans(state, e);
      assert EventShown(e);
      Owned(e);
      var curproc := ke.parent.pid;
      SetTriggered(ke, e, true);
      if procs[curproc].status.Waiting? && procs[curproc].kqueueBlock == ke.parent.id {
        Wake(curproc);
      }
    }

    /** The new event goes to the front of its queue's list. */
    twostate lemma EventPushed(new ke: KeventNode, kq: KqueueNode)
      requires old(QueuesShown()) && queues == old(queues) && kqueueList == old(kqueueList) && kq in queues
      requires nextKqueueId == old(nextKqueueId) && state.nextQueue == old(state).nextQueue
      requires events == old(events) + [ke] && ke.parent == kq && ke.next == old(kq.eventList) && kq.eventList == ke
      requires forall k :: 0 <= k < |queues| && queues[k] != kq ==> queues[k].eventList == old(queues[k].eventList)
      requires kq.id in old(state).queues && state.queues ==
        old(state).queues[kq.id := Queue(kq.pid, [|old(events)|] + old(state).queues[kq.id].events)]
      ensures QueuesShown()
    {
      forall k | 0 <= k < |queues| ensures queues[k].id == |queues| - k {
        assert old(QueueShown(k));
      }
      forall k | 0 <= k < |queues| ensures QueueShown(k) {
        assert old(QueueShown(k));
        AlongKept(old(state).queues[queues[k].id].events);
        if queues[k] == kq {
          AlongPushed(old(state).queues[kq.id].events);
        } else {
          OtherId(k, kq);
        }
      }
    }

    lemma OtherId(k: nat, kq: KqueueNode)
      requires k < |queues| && kq in queues && queues[k] != kq
      requires forall i :: 0 <= i < |queues| ==> queues[i].id == |queues| - i
      ensures queues[k].id != kq.id
    {}

    lemma AlongPushed(list: seq<nat>)
      requires NextsAlong(list) && 0 < |events| && events[|events| - 1].next == EventAt(list, 0)
      ensures NextsAlong([|events| - 1] + list) && EventAt([|events| - 1] + list, 0) == events[|events| - 1]
    {
      var longer := [|events| - 1] + list;
      forall i | 0 <= i < |longer| ensures longer[i] < |events| && events[longer[i]].next == EventAt(longer, i + 1) {
        assert 0 < i ==> longer[i] == list[i - 1];
      }
    }

    twostate lemma EventAdded(new ke: KeventNode)
      requires old(EventsShown()) && events == old(events) + [ke] && ke !in old(events) && queues == old(queues)
      requires ke.parent in queues && state.nextEvent == |events|
      requires state.events == old(state).events[|old(events)| := Event(ke.flag, ke.ident, ke.parent.id, ke.triggered)]
      requires forall x :: 0 <= x < |old(events)| ==> events[x].triggered == old(events[x].triggered)
      ensures EventsShown()
    {
      forall x | 0 <= x < |events| ensures EventShown(x) {
        assert x < |old(events)| ==> old(EventShown(x)) && events[x] == old(events)[x];
      }
    }

    /** The first half of kqueue_event: the new event enters the list of its queue. */
    method Enlist(kq: KqueueNode, ident: nat, flag: Flag) returns (newev: KeventNode)
      requires Valid() && kq in queues && kq.id in state.queues && state.queues[kq.id].pid == kq.pid
      modifies this`state, this`events, kq`eventList
      ensures Valid() && state == Enlisted(old(state), kq.id, ident, flag)
      ensures events == old(events) + [newev] && fresh(newev) && newev.flag == flag && newev.ident == ident
      ensures !newev.triggered
    {
      EnlistedLinked(state, kq.id, ident, flag);
      newev := new KeventNode(flag, ident, kq, kq.eventList);
      kq.eventList := newev;
      events, state := events + [newev], Enlisted(state, kq.id, ident, flag);
      EventPushed(newev, kq);
      EventAdded(newev);
      FifosKept();
    }

    /** The event goes to the front of its FIFO's list. */
    twostate lemma HookPushed(new e: nat, fifo: FifoNode)
      requires old(FifosShown()) && fifos == old(fifos) && fifoList == old(fifoList) && events == old(events)
      requires e < |events| && fifo in fifos && fifo.keList == events[e] && events[e].hookNext == old(fifo.keList)
      requires fifo.id in old(state).fifos && Unhooked(old(state), e)
      requires state.fifos == old(state).fifos[fifo.id := Fifo(fifo.count, [e] + old(state).fifos[fifo.id].hooks)]
      requires forall x :: 0 <= x < |events| && x != e ==> events[x].hookNext == old(events[x].hookNext)
      requires forall k :: 0 <= k < |fifos| ==> fifos[k].count == old(fifos[k].count)
      requires forall k :: 0 <= k < |fifos| && fifos[k] != fifo ==> fifos[k].keList == old(fifos[k].keList)
      ensures FifosShown()
    {
      forall k | 0 <= k < |fifos| ensures FifoShown(k) {
        assert old(FifoShown(k));
        var hooks := old(state).fifos[fifos[k].id].hooks;
        forall i | 0 <= i < |hooks| ensures events[hooks[i]].hookNext == EventAt(hooks, i + 1) {
          assert hooks[i] in hooks;
          assert old(events[hooks[i]].hookNext == EventAt(hooks, i + 1));
        }
        assert HooksAlong(hooks) && EventAt(hooks, 0) == old(EventAt(hooks, 0));
        if fifos[k] == fifo {
          HooksPushed(e, hooks);
        }
      }
    }

    lemma HooksPushed(e: nat, list: seq<nat>)
      requires HooksAlong(list) && e < |events| && events[e].hookNext == EventAt(list, 0)
      ensures HooksAlong([e] + list) && EventAt([e] + list, 0) == events[e]
    {
      var longer := [e] + list;
      forall i | 0 <= i < |longer|
        ensures longer[i] < |events| && events[longer[i]].hookNext == EventAt(longer, i + 1)
      {
        assert 0 < i ==> longer[i] == list[i - 1];
      }
    }

    /** The event enters the list of FIFO fifo. */
    method PushHook(ke: KeventNode, ghost e: nat, fifo: FifoNode)
      requires Valid() && e < |events| && ke == events[e] && e in state.events && fifo in fifos
      requires fifo.id in state.fifos && Unhooked(state, e)
      modifies this`state, ke`hookNext, fifo`keList
      ensures Valid() && fifo.id in old(state).fifos && state == HookedTo(old(state), e, fifo.id)
    {
      HookedToLinked(state, e, fifo.id);
      ShownCount(fifo);
      ke.hookNext := fifo.keList;
      fifo.keList := ke;
      state := HookedTo(state, e, fifo.id);
      QueuesKept();
      EventsKept();
      HookPushed(e, fifo);
    }

    /** kfifo_add_kqueue_event: if the FIFO exists the event enters its list, triggered at once if there is data. */
    method AddHook(ke: KeventNode, ghost e: nat)
      requires Valid() && e < |events| && ke == events[e] && e in state.events && !ke.triggered
      requires Unhooked(state, e)
      modifies this`state, ke`hookNext, ke`triggered, fifos`keList
      ensures Valid() && state == Hooked(old(state), e)
      ensures Signalled(old(state)) ==> Signalled(state)
      ensures HooksIn(old(state), state, e)
    {
      ghost var s := state;
      HookOn(ke, e);
      HookMeans(s, state, e);
    }

    /** Its code. */
    method HookOn(ke: KeventNode, ghost e: nat)
      requires Valid() && e < |events| && ke == events[e] && e in state.events && !ke.triggered
      requires Unhooked(state, e)
      modifies this`state, ke`hookNext, ke`triggered, fifos`keList
      ensures Valid() && state == Hooked(old(state), e)
    {
      assert EventShown(e);
      var fifo := FindFifo(ke.ident);
      if fifo == null {
        return;
      }
      PushHook(ke, e, fifo);
      ShownCount(fifo);
      match ke.flag {
        case FifoReadable =>
          if fifo.count != 0 {
            SetTriggered(ke, e, true);
          }
        case _ =>
      }
    }

    lemma ShownCount(fifo: FifoNode)
      requires FifosShown() && fifo in fifos
      ensures fifo.id in state.fifos && state.fifos[fifo.id].count == fifo.count
      ensures fifo.keList == EventAt(state.fifos[fifo.id].hooks, 0) && HooksAlong(state.fifos[fifo.id].hooks)
    {
      var k :| 0 <= k < |fifos| && fifos[k] == fifo;
      assert FifoShown(k);
    }

    /** The second half of kqueue_event. */
    method AddTo(kq: KqueueNode, ident: nat, flag: Flag)
      requires Valid() && kq in queues && kq.id in state.queues && state.queues[kq.id].pid == kq.pid
      modifies this`state, this`events, kq`eventList, fifos`keList
      ensures Valid() && (state, Success) == Added(old(state), kq.id, kq.pid, ident, flag)
    {
      ghost var s := state;
      AddedInTwo(s, kq.id, ident, flag);
      NewUnhooked(s, kq.id, ident, flag);
      var newev := Enlist(kq, ident, flag);
      AddHook(newev, s.nextEvent);
    }

    /** kqueue_event for the FIFO filter. The search, the two refusals, and on success a new event on both lists: one
        for a FIFO that holds data starts triggered, and a waiting process still has nothing to see. */
    method KqueueEvent(q: nat, pid: nat, ident: nat, flag: Flag) returns (err: Error)
      requires Valid()
      modifies this`state, this`events, queues`eventList, fifos`keList
      ensures Valid() && (state, err) == Added(old(state), q, pid, ident, flag)
      ensures Answers(old(state), q, pid, err) && (!err.Success? ==> state == old(state))
      ensures err.Success? ==> Gains(old(state), state, old(state).nextEvent, q, ident, flag)
      ensures Signalled(old(state)) ==> Signalled(state)
      ensures NoLostWakeup(old(state)) && pid in procs && procs[pid].status.Running? ==> NoLostWakeup(state)
    {
      ghost var s := state;
      err := MakeEvent(q, pid, ident, flag);
      AddMeans(s, q, pid, ident, flag, state, err);
    }

    /** Its code. */
    method MakeEvent(q: nat, pid: nat, ident: nat, flag: Flag) returns (err: Error)
      requires Valid()
      modifies this`state, this`events, queues`eventList, fifos`keList
      ensures Valid() && (state, err) == Added(old(state), q, pid, ident, flag)
    {
      var kq := FindQueue(q);
      if kq == null {
        return NoQueue;
      }
      assert QueueShown(|queues| - q);
      if kq.pid != pid {
        return NotOwner;
      }
      AddTo(kq, ident, flag);
      return Success;
    }

    /** One turn of the walk of kfifo_write_fifo. */
    method TurnHook(ke: KeventNode, ghost hooks: seq<nat>, ghost i: nat) returns (after: KeventNode?)
      requires Valid() && HooksAlong(hooks) && i < |hooks| && ke == EventAt(hooks, i) && hooks[i] in state.events
      modifies this`state, this`procs, ke`triggered
      ensures Valid() && after == EventAt(hooks, i + 1) && hooks[i] in old(state).events
      ensures state ==
        if old(state).events[hooks[i]].flag.FifoReadable? then Trigger(old(state), hooks[i]) else old(state)
    {
      assert EventShown(hooks[i]);
      after := ke.hookNext;
      if ke.flag.FifoReadable? {
        TriggerEvent(ke, hooks[i]);
      }
    }

    /** The hooks visited so far, one more. */
    method VisitHook(ghost s: State, ghost hooks: seq<nat>, ke: KeventNode, ghost visited: seq<nat>)
      returns (after: KeventNode?, ghost further: seq<nat>)
      requires Valid() && HooksAlong(hooks) && |visited| < |hooks| && ke == EventAt(hooks, |visited|)
      requires (forall e :: e in hooks ==> e in s.events) && visited == hooks[..|visited|]
      requires (forall e :: e in visited ==> e in s.events) && state == TriggerAll(s, visited)
      modifies this`state, this`procs, ke`triggered
      ensures Valid() && further == hooks[..|visited| + 1] && after == EventAt(hooks, |visited| + 1)
      ensures (forall e :: e in further ==> e in s.events) && state == TriggerAll(s, further)
    {
      assert hooks[|visited|] in hooks;
      TriggerOneMore(s, visited, hooks[|visited|]);
      further := visited + [hooks[|visited|]];
      after := TurnHook(ke, hooks, |visited|);
    }

    /** The walk of kfifo_write_fifo by hook_next: it visits exactly the FIFO's hooks. */
    method TriggerHooks(fifo: FifoNode, ghost f: nat) returns (ghost visited: seq<nat>)
      requires Valid() && fifo in fifos && fifo.id == f && f in state.fifos
      modifies this`state, this`procs, events`triggered
      ensures Valid() && f in old(state).fifos && visited == old(state).fifos[f].hooks
      ensures (forall e :: e in visited ==> e in old(state).events) && state == TriggerAll(old(state), visited)
    {
      ghost var s, hooks := state, state.fifos[f].hooks;
      assert forall e :: e in hooks ==> e in s.events;
      ShownCount(fifo);
      var ke := fifo.keList;
      visited := [];
      while ke != null
        invariant Valid() && |visited| <= |hooks| && visited == hooks[..|visited|] && ke == EventAt(hooks, |visited|)
        invariant (forall e :: e in visited ==> e in s.events) && state == TriggerAll(s, visited)
        invariant events == old(events) && HooksAlong(hooks)
        decreases |hooks| - |visited|
      {
        ke, visited := VisitHook(s, hooks, ke, visited);
      }
      assert visited == hooks;
    }

    twostate lemma CountShown(fifo: FifoNode, new count: nat)
      requires old(FifosShown()) && fifos == old(fifos) && fifoList == old(fifoList) && events == old(events)
      requires fifo in fifos && fifo.count == count && fifo.id in old(state).fifos
      requires state.fifos == old(state).fifos[fifo.id := old(state).fifos[fifo.id].(count := count)]
      requires forall x :: 0 <= x < |events| ==> events[x].hookNext == old(events[x].hookNext)
      requires forall k :: 0 <= k < |fifos| ==> fifos[k].keList == old(fifos[k].keList)
      requires forall k :: 0 <= k < |fifos| && fifos[k] != fifo ==> fifos[k].count == old(fifos[k].count)
      ensures FifosShown()
    {
      forall k | 0 <= k < |fifos| ensures FifoShown(k) {
        assert old(FifoShown(k));
        HooksKept(old(state).fifos[fifos[k].id].hooks);
      }
    }

    /** FIFO f stores count bytes now. */
    method SetCount(fifo: FifoNode, ghost f: nat, count: nat)
      requires Valid() && fifo in fifos && fifo.id == f && f in state.fifos
      modifies this`state, fifo`count
      ensures Valid() && f in old(state).fifos && fifo.count == count
      ensures state == old(state).(fifos := old(state).fifos[f := old(state).fifos[f].(count := count)])
    {
      CountKeepsLinked(state, f, count);
      fifo.count := count;
      state := state.(fifos := state.fifos[f := state.fifos[f].(count := count)]);
      QueuesKept();
      EventsKept();
      CountShown(fifo, count);
    }

    /** The end of a FIFO write that leaves count bytes: the walk triggers exactly the FIFO's hooks, and every process
        that waits for one of them runs again. */
    method FifoWritten(f: nat, count: nat) returns (ghost visited: seq<nat>)
      requires Valid() && f in state.fifos
      modifies this`state, this`procs, events`triggered, fifos`count
      ensures Valid() && f in old(state).fifos && visited == old(state).fifos[f].hooks
      ensures (forall e :: e in visited ==> e in old(state).events) && state == AfterWrite(old(state), f, count)
      ensures Wrote(old(state), state, f, count)
      ensures Signalled(old(state)) ==> Signalled(state)
      ensures NoLostWakeup(old(state)) ==> NoLostWakeup(state)
    {
      WriteMeans(state, f, count);
      var fifo := FindFifo(f);
      SetCount(fifo, f, count);
      visited := TriggerHooks(fifo, f);
    }

    /** One turn of the walk of kfifo_read_fifo. */
    method TurnNext(ke: KeventNode, count: nat, ghost walk: seq<nat>, ghost i: nat) returns (after: KeventNode?)
      requires Valid() && NextsAlong(walk) && i < |walk| && ke == EventAt(walk, i) && walk[i] in state.events
      modifies this`state, ke`triggered
      ensures Valid() && after == EventAt(walk, i + 1) && walk[i] in old(state).events
      ensures state == if old(state).events[walk[i]].flag.FifoReadable? && count == 0
        then Untrigger(old(state), walk[i]) else old(state)
    {
      assert EventShown(walk[i]);
      after := ke.next;
      if ke.flag.FifoReadable? {
        if count == 0 {
          SetTriggered(ke, walk[i], false);
        }
      }
    }

    /** The events visited so far, one more. */
    method VisitNext(ghost s: State, ghost walk: seq<nat>, ke: KeventNode, count: nat, ghost visited: seq<nat>)
      returns (after: KeventNode?, ghost further: seq<nat>)
      requires Valid() && NextsAlong(walk) && |visited| < |walk| && ke == EventAt(walk, |visited|)
      requires (forall e :: e in walk ==> e in s.events) && visited == walk[..|visited|]
      requires forall e :: e in visited ==> e in s.events
      requires state == if count == 0 then UntriggerAll(s, visited) else s
      modifies this`state, ke`triggered
      ensures Valid() && further == walk[..|visited| + 1] && after == EventAt(walk, |visited| + 1)
      ensures forall e :: e in further ==> e in s.events
      ensures state == if count == 0 then UntriggerAll(s, further) else s
    {
      assert walk[|visited|] in walk;
      UntriggerOneMore(s, visited, walk[|visited|]);
      further := visited + [walk[|visited|]];
      after := TurnNext(ke, count, walk, |visited|);
    }

    /** The walk of kfifo_read_fifo by next, from the first hook: it visits that event and those after it on the list of
        that event's queue, and no other hook. */
    method UntriggerNexts(fifo: FifoNode, ghost f: nat) returns (ghost visited: seq<nat>)
      requires Valid() && fifo in fifos && fifo.id == f && f in state.fifos
      modifies this`state, events`triggered
      ensures Valid() && f in old(state).fifos && visited == ReadWalk(old(state), f)
      ensures (forall e :: e in visited ==> e in old(state).events)
      ensures state == if fifo.count == 0 then UntriggerAll(old(state), visited) else old(state)
    {
      ghost var s, walk := state, ReadWalk(state, f);
      ReadWalkEvents(s, f);
      ShownCount(fifo);
      WalkAlong(f);
      var ke, count := fifo.keList, fifo.count;
      visited := [];
      while ke != null
        invariant Valid() && |visited| <= |walk| && visited == walk[..|visited|] && ke == EventAt(walk, |visited|)
        invariant forall e :: e in visited ==> e in s.events
        invariant state == if count == 0 then UntriggerAll(s, visited) else s
        invariant events == old(events) && NextsAlong(walk)
        decreases |walk| - |visited|
      {
        ke, visited := VisitNext(s, walk, ke, count, visited);
      }
      assert visited == walk;
    }

    /** The first hook starts a piece of its queue's list. */
    lemma WalkAlong(f: nat)
      requires Valid() && f in state.fifos && HooksAlong(state.fifos[f].hooks)
      ensures NextsAlong(ReadWalk(state, f)) && EventAt(ReadWalk(state, f), 0) == EventAt(state.fifos[f].hooks, 0)
    {
      var hooks, walk := state.fifos[f].hooks, ReadWalk(state, f);
      if hooks != [] {
        assert hooks[0] in hooks && EventShown(hooks[0]);
        Owned(hooks[0]);
        var q := state.events[hooks[0]].parent;
        assert QueueShown(|queues| - q);
        var list := state.queues[q].events;
        SuffixAlong(list, IndexOf(list, hooks[0]));
      }
    }

    lemma SuffixAlong(list: seq<nat>, from: nat)
      requires NextsAlong(list) && from <= |list|
      ensures NextsAlong(list[from..]) && EventAt(list[from..], 0) == EventAt(list, from)
    {
      var rest := list[from..];
      forall i | 0 <= i < |rest| ensures rest[i] < |events| && events[rest[i]].next == EventAt(rest, i + 1) {
        assert rest[i] == list[from + i];
        assert events[list[from + i]].next == EventAt(list, from + i + 1);
      }
    }

    /** The end of a FIFO read that leaves count bytes. */
    method FifoRead(f: nat, count: nat) returns (ghost visited: seq<nat>)
      requires Valid() && f in state.fifos
      modifies this`state, events`triggered, fifos`count
      ensures Valid() && f in old(state).fifos && visited == ReadWalk(old(state), f)
      ensures (forall e :: e in visited ==> e in old(state).events) && state == AfterRead(old(state), f, count)
      ensures TookFrom(old(state), state, f, count, visited) && Walked(old(state), f, visited)
      ensures NoLostWakeup(old(state)) ==> NoLostWakeup(state)
    {
      ghost var s := state;
      ReadMeans(s, f, count);
      visited := ReadOn(f, count);
      ReadOutcome(s, f, count, visited, state);
    }

    method ReadOn(f: nat, count: nat) returns (ghost visited: seq<nat>)
      requires Valid() && f in state.fifos
      modifies this`state, events`triggered, fifos`count
      ensures Valid() && f in old(state).fifos
      ensures ReadLeads(old(state), f, count, visited, state)
    {
      var fifo := FindFifo(f);
      SetCount(fifo, f, count);
      visited := UntriggerNexts(fifo, f);
    }

    /** The loop of kqueue_block over the queue's list. */
    method AnyTriggered(kq: KqueueNode) returns (level: nat)
      requires Valid() && kq in queues && kq.id in state.queues
      ensures level == 1 <==>
        exists i :: 0 <= i < |state.queues[kq.id].events| && IsTriggered(state, state.queues[kq.id].events[i])
    {
      ghost var list := state.queues[kq.id].events;
      ShownList(kq);
      level := 0;
      var curevent := kq.eventList;
      ghost var i: nat := 0;
      while curevent != null
        invariant i <= |list| && curevent == EventAt(list, i)
        invariant level == 1 <==> exists j :: 0 <= j < i && IsTriggered(state, list[j])
        decreases |list| - i
      {
        assert EventShown(list[i]);
        if curevent.triggered {
          level := 1;
        }
        curevent := curevent.next;
        i := i + 1;
      }
    }

    lemma ShownList(kq: KqueueNode)
      requires QueuesShown() && kq in queues
      ensures kq.id in state.queues && state.queues[kq.id].pid == kq.pid
      ensures kq.eventList == EventAt(state.queues[kq.id].events, 0) && NextsAlong(state.queues[kq.id].events)
    {
      var k :| 0 <= k < |queues| && queues[k] == kq;
      assert QueueShown(k);
    }

    /** Process pid waits on queue q. */
    method Wait(pid: nat, q: nat)
      requires Valid() && pid in procs
      modifies this`procs, this`state
      ensures Valid() && state == old(state).(procs := old(state).procs[pid := Process(Waiting, q)])
    {
      procs := procs[pid := Process(Waiting, q)];
      state := state.(procs := procs);
      QueuesKept();
      EventsKept();
      FifosKept();
    }

    /** The rest of kqueue_block, once its queue is found. */
    method BlockOnQueue(kq: KqueueNode, pid: nat)
      requires Valid() && kq in queues && kq.id in state.queues && state.queues[kq.id].pid == pid && pid in procs
      modifies this`procs, this`state
      ensures Valid() && pid in old(state).procs && (state, Success) == Blocked(old(state), kq.id, pid)
      ensures NoLostWakeup(old(state)) && old(procs)[pid].status.Running? ==> NoLostWakeup(state)
    {
      BlockMeans(state, kq.id, pid);
      var level := AnyTriggered(kq);
      if level != 1 {
        Wait(pid, kq.id);
      }
    }

    /** kqueue_block for the running process, up to the call of schedule: it goes to sleep only if it will be woken. */
    method BlockProcess(q: nat, pid: nat) returns (err: Error)
      requires Valid() && pid in procs
      modifies this`procs, this`state
      ensures Valid() && pid in old(state).procs && (state, err) == Blocked(old(state), q, pid)
      ensures Answers(old(state), q, pid, err) && (!err.Success? ==> state == old(state))
      ensures err.Success? && Ready(old(state), q) ==> state == old(state)
      ensures err.Success? && !Ready(old(state), q) ==>
        state == old(state).(procs := old(state).procs[pid := Process(Waiting, q)])
      ensures NoLostWakeup(old(state)) && old(procs)[pid].status.Running? ==> NoLostWakeup(state)
    {
      BlocksExactly(state, q, pid);
      var kq := FindQueue(q);
      if kq == null {
        return NoQueue;
      }
      ShownList(kq);
      if kq.pid != pid {
        return NotOwner;
      }
      BlockOnQueue(kq, pid);
      return Success;
    }

    /** The body of the loop of kqueue_poll on event e. */
    method Report(ke: KeventNode, ghost e: nat, changes: seq<Change>) returns (more: seq<Change>)
      requires Valid() && e < |events| && ke == events[e] && e in state.events
      modifies this`state, ke`triggered
      ensures Valid() && e in old(state).events
      ensures state == if old(state).events[e].triggered then Untrigger(old(state), e) else old(state)
      ensures more == changes +
        (if old(state).events[e].triggered then [Change(old(state).events[e].flag, old(state).events[e].ident)] else [])
    {
      assert EventShown(e);
      more := changes;
      if ke.triggered {
        more := more + [Change(ke.flag, ke.ident)];
        SetTriggered(ke, e, false);
      }
    }

    /** One iteration of the loop of kqueue_poll; done when the limit is reached. */
    method PollOne(ke: KeventNode, limit: nat, changes: seq<Change>, ghost s: State, ghost list: seq<nat>, ghost i: nat,
                   ghost taken: seq<nat>)
      returns (more: seq<Change>, done: bool, ghost taken1: seq<nat>)
      requires Valid() && i < |list| && list[i] < |events| && ke == events[list[i]] && list[i] in state.events
      requires changes == ChangesOf(s, taken) && SameKinds(s, state)
      requires Expect(s, list, limit, state, list[i..], taken)
      modifies this`state, ke`triggered
      ensures Valid() && more == ChangesOf(s, taken1) && SameKinds(s, state)
      ensures done ==> Poll(s, list, limit, 0) == (state, taken1)
      ensures !done ==> Expect(s, list, limit, state, list[i + 1..], taken1)
    {
      ghost var e := list[i];
      assert list[i..][1..] == list[i + 1..];
      PollStep(s, list, limit, state, list[i..], taken);
      taken1 := if IsTriggered(state, e) then taken + [e] else taken;
      ChangesStep(s, state, e, taken);
      more := Report(ke, e, changes);
      done := limit <= |more|;
    }

    /** The loop of kqueue_poll, about to look at the event of list position i, or finished. */
    ghost predicate Polling(s: State, list: seq<nat>, limit: nat, i: nat, curevent: KeventNode?, changes: seq<Change>,
                            taken: seq<nat>)
      reads this`state, this`events
    {
      && changes == ChangesOf(s, taken)
      && if curevent == null then Poll(s, list, limit, 0) == (state, taken)
         else i < |list| && curevent == EventAt(list, i) && SameKinds(s, state)
              && Expect(s, list, limit, state, list[i..], taken)
    }

    lemma PollingStarts(list: seq<nat>, limit: nat)
      ensures Polling(state, list, limit, 0, EventAt(list, 0), [], []) || (list != [] && list[0] >= |events|)
    {
      PollStart(state, list, limit);
      if list == [] {
        PollEnd(state, list, limit, state, list[0..], []);
      }
    }

    /** One turn of the loop, up to the next event; null once it is done. */
    method PollFrom(ke: KeventNode, limit: nat, changes: seq<Change>, ghost s: State, ghost list: seq<nat>,
                    ghost i: nat, ghost taken: seq<nat>)
      returns (more: seq<Change>, after: KeventNode?, ghost taken1: seq<nat>)
      requires Valid() && NextsAlong(list) && Polling(s, list, limit, i, ke, changes, taken)
      modifies this`state, ke`triggered
      ensures Valid() && Polling(s, list, limit, i + 1, after, more, taken1)
    {
      assert EventShown(list[i]);
      var done;
      more, done, taken1 := PollOne(ke, limit, changes, s, list, i, taken);
      if done {
        after := null;
      } else {
        after := ke.next;
        if after == null {
          PollEnd(s, list, limit, state, list[i + 1..], taken1);
        }
      }
    }

    /** The loop of kqueue_poll. */
    method PollList(kq: KqueueNode, limit: nat, ghost list: seq<nat>) returns (changes: seq<Change>)
      requires Valid() && kq in queues && kq.id in state.queues && list == state.queues[kq.id].events
      modifies this`state, events`triggered
      ensures Valid() && Polled(old(state), list, limit, state, changes)
    {
      ghost var s, taken, i: nat := state, [], 0;
      ShownList(kq);
      PollingStarts(list, limit);
      changes := [];
      var curevent := kq.eventList;
      while curevent != null
        invariant Valid() && NextsAlong(list) && events == old(events) && (curevent != null ==> curevent in events)
        invariant Polling(s, list, limit, i, curevent, changes, taken)
        decreases if curevent == null then 0 else |list| - i
      {
        changes, curevent, taken := PollFrom(curevent, limit, changes, s, list, i, taken);
        i := i + 1;
      }
      PollDone(s, list, limit, state, taken);
    }

    /** kqueue_poll: it reports and clears the first triggered events of the queue. */
    method PollQueue(q: nat, pid: nat, limit: nat) returns (err: Error, changes: seq<Change>)
      requires Valid()
      modifies this`state, events`triggered
      ensures Valid()
      ensures err == if q !in old(state).queues then NoQueue
        else if old(state).queues[q].pid != pid then NotOwner else Success
      ensures !err.Success? ==> state == old(state) && changes == []
      ensures err.Success? ==> Polled(old(state), old(state).queues[q].events, limit, state, changes)
      ensures err.Success? ==> Reports(old(state), old(state).queues[q].events, limit, state, changes)
    {
      var kq := FindQueue(q);
      if kq == null {
        return NoQueue, [];
      }
      ShownList(kq);
      if kq.pid != pid {
        return NotOwner, [];
      }
      err := Success;
      ghost var s := state;
      changes := PollList(kq, limit, state.queues[q].events);
      PolledReports(s, s.queues[q].events, limit, state, changes);
    }

    /** The list part of kfifo_create_fifo. */
    method OpenFifo(f: nat)
      requires Valid() && f !in state.fifos
      modifies this`state, this`fifos, this`fifoList
      ensures Valid() && state == Apply(old(state), Step.OpenFifo(f))
      ensures state == old(state).(fifos := old(state).fifos[f := Fifo(0, [])])
    {
      OpenLinked(state, f);
      var newfifo := new FifoNode(f, fifoList);
      fifoList := newfifo;
      fifos, state := [newfifo] + fifos, Apply(state, Step.OpenFifo(f));
      QueuesKept();
      EventsKept();
      FifoPushed(newfifo);
    }

    twostate lemma FifoPushed(new fifo: FifoNode)
      requires old(FifosShown()) && fifos == [fifo] + old(fifos) && fifoList == fifo && events == old(events)
      requires fifo.next == old(fifoList) && fifo.keList == null && fifo.count == 0 && fifo.id !in old(state).fifos
      requires state.fifos == old(state).fifos[fifo.id := Fifo(0, [])]
      requires forall x :: 0 <= x < |events| ==> events[x].hookNext == old(events[x].hookNext)
      requires forall k :: 0 <= k < |old(fifos)| ==>
        old(fifos)[k].count == old(fifos[k].count) && old(fifos)[k].keList == old(fifos[k].keList)
      ensures FifosShown()
    {
      forall k | 0 <= k < |old(fifos)| ensures old(fifos)[k].id in old(state).fifos {
        assert old(FifoShown(k));
      }
      forall k | 0 <= k < |fifos| ensures FifoShown(k) {
        if 0 < k {
          assert fifos[k] == old(fifos)[k - 1] && old(FifoShown(k - 1));
          HooksKept(state.fifos[fifos[k].id].hooks);
        }
      }
      forall f | f in state.fifos ensures exists k :: 0 <= k < |fifos| && fifos[k].id == f {
        if f == fifo.id {
          assert fifos[0].id == f;
        } else {
          var k :| 0 <= k < |old(fifos)| && old(fifos)[k].id == f;
          assert fifos[k + 1].id == f;
        }
      }
    }
  }

  lemma TriggerOneMore(s: State, list: seq<nat>, e: nat)
    requires e in s.events && forall x :: x in list ==> x in s.events
    ensures (forall x :: x in list + [e] ==> x in s.events) && e in TriggerAll(s, list).events
    ensures TriggerAll(s, list + [e]) ==
      var t := TriggerAll(s, list); if t.events[e].flag.FifoReadable? then Trigger(t, e) else t
  {
    TriggerAllFrame(s, list);
    assert (list + [e])[..|list|] == list;
  }

  lemma UntriggerOneMore(s: State, list: seq<nat>, e: nat)
    requires e in s.events && forall x :: x in list ==> x in s.events
    ensures (forall x :: x in list + [e] ==> x in s.events) && e in UntriggerAll(s, list).events
    ensures s.events[e].flag == UntriggerAll(s, list).events[e].flag
    ensures UntriggerAll(s, list + [e]) ==
      var t := UntriggerAll(s, list); if t.events[e].flag.FifoReadable? then Untrigger(t, e) else t
  {
    UntriggerAllEvents(s, list, e);
    assert (list + [e])[..|list|] == list;
  }

  ghost predicate ReadLeads(s: State, f: nat, count: nat, visited: seq<nat>, t: State)
    requires f in s.fifos
  {
    var s1 := s.(fifos := s.fifos[f := s.fifos[f].(count := count)]);
    && visited == ReadWalk(s1, f) && (forall e :: e in visited ==> e in s1.events)
    && t == if count == 0 then UntriggerAll(s1, visited) else s1
  }

  lemma ReadOutcome(s: State, f: nat, count: nat, visited: seq<nat>, t: State)
    requires Linked(s) && f in s.fifos && ReadLeads(s, f, count, visited, t)
    ensures visited == ReadWalk(s, f) && (forall e :: e in visited ==> e in s.events) && t == AfterRead(s, f, count)
  {}

  /** The owner of the queue of event e waits on that queue. */
  predicate WaitsFor(s: State, e: nat)
    requires e in s.events
  {
    var q := s.events[e].parent;
    && q in s.queues && s.queues[q].pid in s.procs
    && s.procs[s.queues[q].pid].status.Waiting? && s.procs[s.queues[q].pid].kqueueBlock == q
  }

  lemma TriggerMeans(s: State, e: nat)
    requires Linked(s) && e in s.events
    ensures e in Trigger(s, e).events && Trigger(s, e).events[e].triggered && !WaitsFor(Trigger(s, e), e)
    ensures NoLostWakeup(s) ==> NoLostWakeup(Trigger(s, e))
  {
    if NoLostWakeup(s) {
      TriggerKeeps(s, e);
    }
  }

  /** t is s with event e hooked to the FIFO it names, if there is one; it is triggered now exactly if it was before, or
      waits for data and there is some. No other event has changed. */
  ghost predicate HooksIn(s: State, t: State, e: nat)
    requires e in s.events
  {
    var f := s.events[e].ident;
    && t.events.Keys == s.events.Keys && t.fifos.Keys == s.fifos.Keys
    && t.events[e] == s.events[e].(
         triggered := s.events[e].triggered || (s.events[e].flag.FifoReadable? && HasData(s, f)))
    && (forall x :: x in s.events && x != e ==> t.events[x] == s.events[x])
    && (forall g :: g in s.fifos ==>
          t.fifos[g] == Fifo(s.fifos[g].count, (if g == f then [e] else []) + s.fifos[g].hooks))
    && t.queues == s.queues && t.procs == s.procs
  }

  lemma HookMeans(s: State, t: State, e: nat)
    requires Linked(s) && e in s.events && Unhooked(s, e) && t == Hooked(s, e)
    ensures Signalled(s) ==> Signalled(t)
    ensures HooksIn(s, t, e)
  {
    HooksExactly(s, e);
    if Signalled(s) {
      HookSignals(s, t, e);
    }
  }

  lemma HooksExactly(s: State, e: nat)
    requires e in s.events
    ensures HooksIn(s, Hooked(s, e), e)
  {}

  lemma HookSignals(s: State, t: State, e: nat)
    requires Signalled(s) && e in s.events && Unhooked(s, e) && HooksIn(s, t, e)
    ensures Signalled(t)
  {
    forall f: nat, x: nat | Due(t, f, x) ensures t.events[x].triggered {
      if x != e {
        assert x in s.fifos[f].hooks;
        assert Due(s, f, x);
      } else {
        assert e !in s.fifos[f].hooks;
      }
    }
  }

  /** FIFO f stores count bytes; nothing has changed besides which of its readable hooks are triggered, all of them now,
      and which processes run, those that waited on the queue of one of them besides those before. */
  ghost predicate Wrote(s: State, t: State, f: nat, count: nat)
    requires f in s.fifos
  {
    && t == s.(events := t.events, procs := t.procs, fifos := s.fifos[f := s.fifos[f].(count := count)])
    && t.events.Keys == s.events.Keys && t.procs.Keys == s.procs.Keys
    && (forall e :: e in s.events ==>
          t.events[e] == if Readable(s, s.fifos[f].hooks, e) then s.events[e].(triggered := true) else s.events[e])
    && (NoLostWakeup(s) ==> forall p :: p in s.procs ==>
          t.procs[p] == if Woken(s, s.fifos[f].hooks, p) then s.procs[p].(status := Running) else s.procs[p])
  }

  lemma WritesExactly(s: State, f: nat, count: nat)
    requires Linked(s) && f in s.fifos
    ensures Wrote(s, AfterWrite(s, f, count), f, count)
  {
    var s1, hooks := s.(fifos := s.fifos[f := s.fifos[f].(count := count)]), s.fifos[f].hooks;
    var t := AfterWrite(s, f, count);
    TriggerAllFrame(s1, hooks);
    forall e | e in s.events
      ensures t.events[e] == if Readable(s, hooks, e) then s.events[e].(triggered := true) else s.events[e]
    {
      TriggerAllEvents(s1, hooks, e);
    }
    if NoLostWakeup(s) {
      forall p | p in s.procs
        ensures t.procs[p] == if Woken(s, hooks, p) then s.procs[p].(status := Running) else s.procs[p]
      {
        assert WaitsRightly(s, p);
        TriggerAllWakes(s1, hooks, p);
        assert forall e :: e in hooks ==> (Wakes(s1, e, p) <==> Wakes(s, e, p));
      }
    }
  }

  /** FIFO f stores count bytes; nothing else has changed unless it is empty, and then the readable events visited, and
      they alone, are not triggered. */
  ghost predicate TookFrom(s: State, t: State, f: nat, count: nat, visited: seq<nat>)
    requires f in s.fifos
  {
    && t == s.(events := t.events, fifos := s.fifos[f := s.fifos[f].(count := count)])
    && t.events.Keys == s.events.Keys
    && (forall e :: e in s.events ==>
          t.events[e] ==
            if count == 0 && Readable(s, visited, e) then s.events[e].(triggered := false) else s.events[e])
  }

  /** The walk went from the FIFO's first hook to the end of the list of that event's queue. */
  ghost predicate Walked(s: State, f: nat, visited: seq<nat>)
    requires f in s.fifos
  {
    var hooks := s.fifos[f].hooks;
    if hooks == [] then visited == []
    else
      && hooks[0] in s.events && s.events[hooks[0]].parent in s.queues
      && var list := s.queues[s.events[hooks[0]].parent].events;
         0 < |visited| <= |list| && visited[0] == hooks[0] && visited == list[|list| - |visited|..]
  }

  lemma ReadsExactly(s: State, f: nat, count: nat)
    requires Linked(s) && f in s.fifos && forall e :: e in ReadWalk(s, f) ==> e in s.events
    ensures TookFrom(s, AfterRead(s, f, count), f, count, ReadWalk(s, f))
  {
    var s1, walk := s.(fifos := s.fifos[f := s.fifos[f].(count := count)]), ReadWalk(s, f);
    UntriggerAllFrame(s1, walk);
    forall e | e in s.events
      ensures e in UntriggerAll(s1, walk).events
      ensures UntriggerAll(s1, walk).events[e] ==
        if Readable(s, walk, e) then s.events[e].(triggered := false) else s.events[e]
    {
      UntriggerAllEvents(s1, walk, e);
    }
  }

  lemma WriteMeans(s: State, f: nat, count: nat)
    requires Linked(s) && f in s.fifos
    ensures Wrote(s, AfterWrite(s, f, count), f, count)
    ensures Signalled(s) ==> Signalled(AfterWrite(s, f, count))
    ensures NoLostWakeup(s) ==> NoLostWakeup(AfterWrite(s, f, count))
  {
    WritesExactly(s, f, count);
    if Signalled(s) {
      WriteSignals(s, f, count);
    }
    if NoLostWakeup(s) {
      ApplyKeeps(s, WriteFifo(f, count));
    }
  }

  lemma ReadMeans(s: State, f: nat, count: nat)
    requires Linked(s) && f in s.fifos
    ensures forall e :: e in ReadWalk(s, f) ==> e in s.events
    ensures TookFrom(s, AfterRead(s, f, count), f, count, ReadWalk(s, f)) && Walked(s, f, ReadWalk(s, f))
    ensures NoLostWakeup(s) ==> NoLostWakeup(AfterRead(s, f, count))
  {
    ReadWalkEvents(s, f);
    ReadWalkIs(s, f);
    ReadsExactly(s, f, count);
    if NoLostWakeup(s) {
      ReadKeeps(s, f, count);
    }
  }

  lemma AddMeans(s: State, q: nat, p: nat, ident: nat, flag: Flag, t: State, err: Error)
    requires Linked(s) && (t, err) == Added(s, q, p, ident, flag)
    ensures Answers(s, q, p, err) && if err.Success? then Gains(s, t, s.nextEvent, q, ident, flag) else t == s
    ensures Signalled(s) ==> Signalled(t)
    ensures NoLostWakeup(s) && p in s.procs && s.procs[p].status.Running? ==> NoLostWakeup(t)
  {
    AddsExactly(s, q, p, ident, flag);
    if Signalled(s) {
      AddSignals(s, q, p, ident, flag);
    }
    if NoLostWakeup(s) && p in s.procs && s.procs[p].status.Running? {
      AddKeeps(s, q, p, ident, flag);
    }
  }

  lemma OpenLinked(s: State, f: nat)
    requires Linked(s) && f !in s.fifos
    ensures Linked(s.(fifos := s.fifos[f := Fifo(0, [])]))
  {}

  lemma BlockMeans(s: State, q: nat, p: nat)
    requires Linked(s) && p in s.procs
    ensures NoLostWakeup(s) && s.procs[p].status.Running? ==> NoLostWakeup(Blocked(s, q, p).0)
  {
    if NoLostWakeup(s) && s.procs[p].status.Running? {
      BlockKeeps(s, q, p);
    }
  }

  function ChangesOf(s: State, taken: seq<nat>): (c: seq<Change>)
    ensures |c| == |taken|
  {
    if taken == [] then []
    else
      var e := taken[|taken| - 1];
      ChangesOf(s, taken[..|taken| - 1])
      + [if e in s.events then Change(s.events[e].flag, s.events[e].ident) else Change(ProcQuit, 0)]
  }

  lemma ChangesStep(s: State, t: State, e: nat, taken: seq<nat>)
    requires SameKinds(s, t) && e in t.events
    ensures ChangesOf(s, taken + [e]) == ChangesOf(s, taken) + [Change(t.events[e].flag, t.events[e].ident)]
    ensures SameKinds(s, Untrigger(t, e))
  {
    assert (taken + [e])[..|taken|] == taken;
  }

  ghost predicate SameKinds(s: State, t: State) {
    s.events.Keys == t.events.Keys
    && forall e :: e in s.events ==> s.events[e].flag == t.events[e].flag && s.events[e].ident == t.events[e].ident
  }

  /** From state t with rest of the list to go, the poll of s ends as the poll of the whole list does. */
  ghost predicate Expect(s: State, list: seq<nat>, limit: nat, t: State, rest: seq<nat>, taken: seq<nat>) {
    var (last, more) := Poll(t, rest, limit, |taken|);
    Poll(s, list, limit, 0) == (last, taken + more)
  }

  /** The poll of list leaves t and reports the changes of the events it takes. */
  ghost predicate Polled(s: State, list: seq<nat>, limit: nat, t: State, changes: seq<Change>) {
    var (last, taken) := Poll(s, list, limit, 0);
    t == last && changes == ChangesOf(s, taken)
  }

  /** The changes are what the events to be reported say, in their order, and those alone have been cleared. */
  ghost predicate Reports(s: State, list: seq<nat>, limit: nat, t: State, changes: seq<Change>) {
    var taken := Reported(s, list, limit);
    && ClearedExactly(s, t, taken) && |changes| == |taken|
    && forall i :: 0 <= i < |taken| ==>
         taken[i] in s.events && changes[i] == Change(s.events[taken[i]].flag, s.events[taken[i]].ident)
  }

  lemma PolledReports(s: State, list: seq<nat>, limit: nat, t: State, changes: seq<Change>)
    requires Distinct(list) && Polled(s, list, limit, t, changes)
    ensures Reports(s, list, limit, t, changes)
  {
    PollIsReported(s, list, limit);
    PollClears(s, list, limit, 0);
    var taken := Reported(s, list, limit);
    forall i | 0 <= i < |taken|
      ensures taken[i] in s.events && changes[i] == Change(s.events[taken[i]].flag, s.events[taken[i]].ident)
    {
      ReportedTriggered(s, list, limit, i);
      ChangesAt(s, taken, i);
    }
  }

  lemma ReportedTriggered(s: State, list: seq<nat>, limit: nat, i: nat)
    requires i < |Reported(s, list, limit)|
    ensures IsTriggered(s, Reported(s, list, limit)[i])
  {
    if limit > 0 {
      assert Reported(s, list, limit)[i] == TriggeredOf(s, list)[i];
      TriggeredOfIn(s, list, TriggeredOf(s, list)[i]);
    }
  }

  lemma {:induction false} ChangesAt(s: State, taken: seq<nat>, i: nat)
    requires i < |taken| && taken[i] in s.events
    ensures ChangesOf(s, taken)[i] == Change(s.events[taken[i]].flag, s.events[taken[i]].ident)
  {
    if i < |taken| - 1 {
      ChangesAt(s, taken[..|taken| - 1], i);
    }
  }

  lemma PollStart(s: State, list: seq<nat>, limit: nat)
    ensures Expect(s, list, limit, s, list[0..], [])
  {
    assert list[0..] == list && [] + Poll(s, list, limit, 0).1 == Poll(s, list, limit, 0).1;
  }

  lemma PollEnd(s: State, list: seq<nat>, limit: nat, t: State, rest: seq<nat>, taken: seq<nat>)
    requires Expect(s, list, limit, t, rest, taken) && rest == []
    ensures Poll(s, list, limit, 0) == (t, taken)
  {
    assert taken + [] == taken;
  }

  lemma PollDone(s: State, list: seq<nat>, limit: nat, t: State, taken: seq<nat>)
    requires Poll(s, list, limit, 0) == (t, taken)
    ensures Polled(s, list, limit, t, ChangesOf(s, taken))
  {}

  lemma PollStep(s: State, list: seq<nat>, limit: nat, t: State, rest: seq<nat>, taken: seq<nat>)
    requires rest != [] && Expect(s, list, limit, t, rest, taken)
    ensures var e := rest[0];
      var t1 := if IsTriggered(t, e) then Untrigger(t, e) else t;
      var taken1 := if IsTriggered(t, e) then taken + [e] else taken;
      if limit <= |taken1| then Poll(s, list, limit, 0) == (t1, taken1)
      else Expect(s, list, limit, t1, rest[1..], taken1)
  {
    var e := rest[0];
    var t1 := if IsTriggered(t, e) then Untrigger(t, e) else t;
    var taken1 := if IsTriggered(t, e) then taken + [e] else taken;
    var step := if IsTriggered(t, e) then [e] else [];
    assert taken + step == taken1;
    if limit > |taken1| {
      var more := Poll(t1, rest[1..], limit, |taken1|).1;
      assert taken + (step + more) == taken1 + more;
    }
  }
}
