/** The process list and schedule on it. */
module Scheduler {
  import opened Common
  import opened Scheduling

  datatype Frame = Frame(words: seq<int>)

  class Context {
    var registers: Frame
    var pid: nat
    var status: Status
    var next: Context?

    constructor (registers: Frame, pid: nat)
      ensures this.registers == registers && this.pid == pid && status == Running && next == null
    {
      this.registers, this.pid, status, next := registers, pid, Running, null;
    }
  }

  class Processes {
    var contextList: Context?
    var cur: Context?
    var kernelReenter: bool
    var nextAvailPid: nat
    /** The processes in list order. */
    ghost var chain: seq<Context>

    ghost predicate Valid()
      reads this, chain
    {
      && (forall i, j :: 0 <= i < j < |chain| ==> chain[i] != chain[j])
      && contextList == At(chain, 0)
      && (forall i {:trigger chain[i].next} :: 0 <= i < |chain| ==> chain[i].next == At(chain, i + 1))
      && (forall i {:trigger chain[i].pid} :: 0 <= i < |chain| ==> chain[i].pid == i + 1)
      && nextAvailPid == |chain| + 1
      && (cur != null ==> cur in chain)
    }

    ghost function Statuses(): (s: seq<Status>)
      reads this, chain
      ensures |s| == |chain| && forall i :: 0 <= i < |s| ==> s[i] == chain[i].status
    {
      seq(|chain|, i requires 0 <= i < |chain| reads this, chain => chain[i].status)
    }

    ghost function Registers(): (s: seq<Frame>)
      reads this, chain
      ensures |s| == |chain| && forall i :: 0 <= i < |s| ==> s[i] == chain[i].registers
    {
      seq(|chain|, i requires 0 <= i < |chain| reads this, chain => chain[i].registers)
    }

    constructor ()
      ensures Valid() && chain == [] && !kernelReenter
    {
      contextList, cur, kernelReenter, nextAvailPid, chain := null, null, false, 1, [];
    }

    /** create_process: the new process goes to the end of the list. */
    method CreateProcess(registers: Frame) returns (pid: nat)
      requires Valid()
      modifies this`contextList, this`nextAvailPid, this`chain, chain`next
      ensures Valid() && |chain| == |old(chain)| + 1 && fresh(chain[|chain| - 1])
      ensures chain == old(chain) + [chain[|chain| - 1]]
      ensures pid == |chain| && chain[|chain| - 1].registers == registers && chain[|chain| - 1].status == Running
    {
      var newContext := new Context(registers, nextAvailPid);
      pid := nextAvailPid;
      if contextList == null {
        contextList := newContext;
      } else {
        var t: Context := contextList;
        ghost var i := 0;
        while t.next != null
          invariant 0 <= i < |chain| && t == chain[i]
          decreases |chain| - i
        {
          t := t.next;
          i := i + 1;
        }
        assert i == |chain| - 1;
        t.next := newContext;
      }
      nextAvailPid := nextAvailPid + 1;
      chain := chain + [newContext];
    }

    /** get_process. */
    method GetProcess(pid: nat) returns (c: Context?)
      requires Valid()
      ensures c == if 1 <= pid <= |chain| then chain[pid - 1] else null
    {
      if contextList == null {
        return null;
      }
      var p: Context := contextList;
      ghost var i := 0;
      while p.pid != pid && p.next != null
        invariant 0 <= i < |chain| && p == chain[i] && forall j :: 0 <= j < i ==> chain[j].pid != pid
        decreases |chain| - i
      {
        p := p.next;
        i := i + 1;
      }
      assert i < |chain| - 1 ==> p.pid == pid;
      return if p.pid != pid then null else p;
    }

    /** One step of the round: the next process, the first one after the last. */
    method Advance(c: Context, ghost o: nat, ghost k: nat) returns (d: Context)
      requires Valid() && o < |chain| && k < |chain| && c == chain[Ahead(|chain|, o, k)]
      ensures d == chain[Ahead(|chain|, o, k + 1)]
    {
      if c.next == null {
        assert contextList == chain[0];
        d := contextList;
      } else {
        d := c.next;
      }
    }

    /** What the interrupts taken while halted do to the statuses. */
    method Deliver(update: Interrupt)
      requires Valid() && |update| == |chain|
      modifies chain`status
      ensures Valid() && Statuses() == update
    {
      var c, i := contextList, 0;
      while c != null
        invariant Valid() && 0 <= i <= |chain| && c == At(chain, i)
        invariant forall j :: 0 <= j < i ==> chain[j].status == update[j]
        decreases |chain| - i
      {
        c.status := update[i];
        c := c.next;
        i := i + 1;
      }
    }

    /** The halt of schedule, up to its end. */
    method Halt(update: Interrupt)
      requires Valid() && |update| == |chain| && !kernelReenter
      modifies this`kernelReenter, chain`status
      ensures Valid() && Statuses() == update && !kernelReenter
    {
      kernelReenter := true;
      Deliver(update);
      kernelReenter := false;
    }

    /** One lap of the loop of schedule from the current process; null when it comes round without finding any. */
    method Lap(orig: Context, ghost o: nat) returns (found: Context?)
      requires Valid() && o < |chain| && orig == chain[o]
      ensures var r := FirstAfter(Statuses(), o, 0);
        found == if r.None? then null else At(chain, r.value)
    {
      found := orig;
      ghost var k := 0;
      while true
        invariant 0 <= k < |chain| && found == chain[Ahead(|chain|, o, k)]
        invariant FirstAfter(Statuses(), o, k) == FirstAfter(Statuses(), o, 0)
        decreases |chain| - k
      {
        found := Advance(found, o, k);
        k := k + 1;
        assert Statuses()[Ahead(|chain|, o, k)] == found.status;
        if found.status == Running {
          return;
        }
        assert found == orig ==> k == |chain|;
        if found == orig {
          return null;
        }
      }
    }

    /** The loop of schedule: laps, and a halt after each lap that finds nothing running. */
    method Search(orig: Context, interrupts: seq<Interrupt>, ghost o: nat) returns (found: Context?)
      requires Valid() && !kernelReenter && o < |chain| && orig == chain[o]
      requires forall i :: 0 <= i < |interrupts| ==> |interrupts[i]| == |chain|
      modifies this`kernelReenter, chain`status
      ensures Valid()
      ensures var (last, r) := Choose(old(Statuses()), o, interrupts);
        && Statuses() == last && kernelReenter == r.None?
        && found == if r.None? then null else At(chain, r.value)
    {
      ghost var all := Choose(Statuses(), o, interrupts);
      assert interrupts[0..] == interrupts;
      var used := 0;
      while true
        invariant Valid() && 0 <= used <= |interrupts| && !kernelReenter
        invariant Choose(Statuses(), o, interrupts[used..]) == all
        decreases |interrupts| - used
      {
        var done;
        found, done := Turn(orig, interrupts, used, o);
        if done {
          return;
        }
        used := used + 1;
      }
    }

    /** One lap, and the halt after it if nothing was found; done when a process is found or the interrupts run out. */
    method Turn(orig: Context, interrupts: seq<Interrupt>, used: nat, ghost o: nat)
      returns (found: Context?, done: bool)
      requires Valid() && !kernelReenter && o < |chain| && orig == chain[o] && used <= |interrupts|
      requires forall i :: 0 <= i < |interrupts| ==> |interrupts[i]| == |chain|
      modifies this`kernelReenter, chain`status
      ensures Valid()
      ensures done ==>
        var (last, r) := Choose(old(Statuses()), o, interrupts[used..]);
        && Statuses() == last && kernelReenter == r.None?
        && found == if r.None? then null else At(chain, r.value)
      ensures !done ==> used < |interrupts| && !kernelReenter
      ensures !done ==>
        Choose(Statuses(), o, interrupts[used + 1..]) == Choose(old(Statuses()), o, interrupts[used..])
    {
      ChooseStep(Statuses(), o, interrupts, used);
      found := Lap(orig, o);
      done := true;
      if found != null {
        return;
      }
      if used == |interrupts| {
        kernelReenter := true;
        return;
      }
      Halt(interrupts[used]);
      assert Statuses()[o] == orig.status;
      if orig.status == Running {
        found := orig;
        return;
      }
      done := false;
    }

    /** The processes are those of m: who runs, and the frame kept for each. */
    ghost predicate Shows(m: Machine<Frame>)
      reads this, chain
    {
      m.cur < |chain| && cur == chain[m.cur] && m.frames == Registers()
    }

    /** schedule as a step of the machine of frames: a switch to the process chosen, which gets the frame given, or
        nothing at all when the call is nested in a halt. */
    method Step(regs: Frame, interrupts: seq<Interrupt>, ghost m: Machine<Frame>)
      returns (out: Frame, chosen: bool, ghost n: Machine<Frame>)
      requires Valid() && Shows(m)
      requires forall i :: 0 <= i < |interrupts| ==> |interrupts[i]| == |chain|
      modifies this`cur, this`kernelReenter, chain`registers, chain`status
      ensures Valid() && chain == old(chain)
      ensures old(kernelReenter) ==> Shows(m) && out == regs && n == Next(m, Nested(regs))
      ensures !old(kernelReenter) && chosen ==>
        var i := Choose(old(Statuses()), m.cur, interrupts).1;
        && i.Some? && n == Next(m, Call(regs, i.value)) && Shows(n)
        && n.log == m.log + [Switch(m.cur, regs, i.value, out)]
    {
      ghost var i := Choose(Statuses(), m.cur, interrupts).1;
      ghost var frames := Registers();
      out, chosen := Schedule(regs, interrupts, m.cur);
      n := m;
      if chosen {
        n := Next(m, Call(regs, i.value));
        assert Registers() == frames[m.cur := regs];
      } else if old(kernelReenter) {
        assert Registers() == frames;
      }
    }

    /** schedule, called by the process at position o. With nothing to run it halts and takes the given interrupts one
        by one; chosen is false when they run out first. A call nested in a halt changes nothing. */
    method Schedule(regs: Frame, interrupts: seq<Interrupt>, ghost o: nat) returns (out: Frame, chosen: bool)
      requires Valid() && o < |chain| && cur == chain[o]
      requires forall i :: 0 <= i < |interrupts| ==> |interrupts[i]| == |chain|
      modifies this`cur, this`kernelReenter, chain`registers, chain`status
      ensures Valid()
      ensures forall i :: 0 <= i < |chain| && (i != o || old(kernelReenter)) ==>
        chain[i].registers == old(chain[i].registers)
      ensures if old(kernelReenter)
        then out == regs && !chosen && kernelReenter && Statuses() == old(Statuses()) && cur == old(cur)
        else Scheduled(old(Statuses()), o, regs, interrupts, out, chosen)
    {
      if kernelReenter {
        return regs, false;
      }
      cur.registers := regs;
      assert Statuses() == old(Statuses());
      var found := Search(cur, interrupts, o);
      if found == null {
        return regs, false;
      }
      cur := found;
      return cur.registers, true;
    }

    /** The outcome of schedule for the process at position o, with its frame saved. */
    ghost predicate Scheduled(status: seq<Status>, o: nat, regs: Frame, interrupts: seq<Interrupt>, out: Frame,
                              chosen: bool)
      requires o < |chain| && |status| == |chain| && forall i :: 0 <= i < |interrupts| ==> |interrupts[i]| == |status|
      reads this, chain
    {
      var (last, r) := Choose(status, o, interrupts);
      && Statuses() == last && chain[o].registers == regs
      && chosen == r.Some? && kernelReenter == r.None?
      && (r.Some? ==> cur == chain[r.value] && out == chain[r.value].registers)
    }
  }

  ghost function At(chain: seq<Context>, i: nat): Context? {
    if i < |chain| then chain[i] else null
  }
}
