/** Round-robin choice over the process list, as a function of the statuses in list order. */
module Scheduling {
  import opened Common

  /** The position k steps after i. */
  function Ahead(n: nat, i: nat, k: nat): (j: nat)
    requires i < n && k <= n
    ensures j < n
  {
    if i + k < n then i + k else i + k - n
  }

  /** The first position that is running among those k + 1, k + 2, ... n steps after cur. */
  function FirstAfter(status: seq<Status>, cur: nat, k: nat): (r: Option<nat>)
    requires cur < |status| && k <= |status|
    decreases |status| - k
  {
    if k == |status| then None
    else
      var j := Ahead(|status|, cur, k + 1);
      if status[j].Running? then Some(j) else FirstAfter(status, cur, k + 1)
  }

  /** Process j is d steps ahead of cur, going round at most once; a process is n steps ahead of itself. */
  function Steps(n: nat, cur: nat, j: nat): (d: nat)
    requires cur < n && j < n
    ensures 1 <= d <= n && Ahead(n, cur, d) == j
  {
    if cur < j then j - cur else j + n - cur
  }

  /** The choice is the running process fewest steps ahead; there is none only if none is running. */
  lemma {:induction false} FirstAfterNearest(status: seq<Status>, cur: nat, k: nat)
    requires cur < |status| && k <= |status|
    ensures var r := FirstAfter(status, cur, k); var n := |status|;
      && (r.Some? ==> r.value < n && status[r.value].Running? && k < Steps(n, cur, r.value))
      && (r.Some? ==> forall j :: 0 <= j < n && status[j].Running? && k < Steps(n, cur, j) ==>
            Steps(n, cur, r.value) <= Steps(n, cur, j))
      && (r.None? ==> forall j :: 0 <= j < n && status[j].Running? ==> Steps(n, cur, j) <= k)
    decreases |status| - k
  {
    var n := |status|;
    if k < n {
      var j := Ahead(n, cur, k + 1);
      assert Steps(n, cur, j) == k + 1;
      if !status[j].Running? {
        FirstAfterNearest(status, cur, k + 1);
        forall i | 0 <= i < n && status[i].Running? && k < Steps(n, cur, i) ensures k + 1 < Steps(n, cur, i) {}
      }
    }
  }

  /** What interrupts do to the statuses while the processor is halted. */
  type Interrupt = seq<Status>

  /** schedule's choice from position cur. With nothing running it halts until the next interrupt, and then looks at
      cur itself before going round again; None when the interrupts given do not make anything run. */
  function Choose(status: seq<Status>, cur: nat, interrupts: seq<Interrupt>): (r: (seq<Status>, Option<nat>))
    requires cur < |status| && forall i :: 0 <= i < |interrupts| ==> |interrupts[i]| == |status|
    ensures |r.0| == |status| && (r.1.Some? ==> r.1.value < |status|)
    decreases |interrupts|
  {
    var first := FirstAfter(status, cur, 0);
    FirstAfterNearest(status, cur, 0);
    if first.Some? then (status, first)
    else if interrupts == [] then (status, None)
    else if interrupts[0][cur].Running? then (interrupts[0], Some(cur))
    else Choose(interrupts[0], cur, interrupts[1..])
  }

  /** schedule halts only when no process is running; otherwise one lap decides, for the nearest running process
      ahead, and no interrupt is waited for. */
  lemma HaltsOnlyWhenIdle(status: seq<Status>, cur: nat, interrupts: seq<Interrupt>)
    requires cur < |status| && forall i :: 0 <= i < |interrupts| ==> |interrupts[i]| == |status|
    ensures FirstAfter(status, cur, 0).None? <==> forall j :: 0 <= j < |status| ==> !status[j].Running?
    ensures (exists j :: 0 <= j < |status| && status[j].Running?) ==>
      var r := Choose(status, cur, interrupts);
      && r.0 == status && r.1.Some? && status[r.1.value].Running?
      && forall j :: 0 <= j < |status| && status[j].Running? ==>
           Steps(|status|, cur, r.1.value) <= Steps(|status|, cur, j)
  {
    FirstAfterNearest(status, cur, 0);
    if j :| 0 <= j < |status| && status[j].Running? {
      assert 0 < Steps(|status|, cur, j);
    }
  }

  /** Whatever schedule chooses is running, also after a halt. */
  lemma {:induction false} ChosenRuns(status: seq<Status>, cur: nat, interrupts: seq<Interrupt>)
    requires cur < |status| && forall i :: 0 <= i < |interrupts| ==> |interrupts[i]| == |status|
    ensures var r := Choose(status, cur, interrupts); r.1.Some? ==> r.0[r.1.value].Running?
    decreases |interrupts|
  {
    FirstAfterNearest(status, cur, 0);
    if interrupts != [] {
      ChosenRuns(interrupts[0], cur, interrupts[1..]);
    }
  }

  ghost predicate Idle(status: seq<Status>) { forall j :: 0 <= j < |status| ==> !status[j].Running? }

  /** The statuses as schedule sees them after u halts. */
  function Seen(status: seq<Status>, interrupts: seq<Interrupt>, u: nat): seq<Status>
    requires u <= |interrupts|
  {
    if u == 0 then status else interrupts[u - 1]
  }

  /** After the first interrupt, the u-th, that leaves a process running, schedule takes the process that called it if
      that one runs, and the nearest one ahead otherwise; if there is none it halts for good. */
  lemma {:induction false} WakesNearest(status: seq<Status>, cur: nat, interrupts: seq<Interrupt>, u: nat)
    requires cur < |status| && forall i :: 0 <= i < |interrupts| ==> |interrupts[i]| == |status|
    requires u <= |interrupts| && forall i :: 0 <= i < u ==> Idle(Seen(status, interrupts, i))
    ensures var (last, r) := Choose(status, cur, interrupts); var seen := Seen(status, interrupts, u);
      && (u == |interrupts| && Idle(seen) ==> last == seen && r.None?)
      && (u > 0 && seen[cur].Running? ==> last == seen && r == Some(cur))
      && (!Idle(seen) && (u == 0 || !seen[cur].Running?) ==> last == seen && r == FirstAfter(seen, cur, 0) && r.Some?)
    decreases u
  {
    HaltsOnlyWhenIdle(status, cur, interrupts);
    if u > 0 {
      assert Idle(Seen(status, interrupts, 0));
      forall i | 0 <= i < u - 1 ensures Idle(Seen(interrupts[0], interrupts[1..], i)) {
        assert Seen(interrupts[0], interrupts[1..], i) == Seen(status, interrupts, i + 1);
      }
      assert Seen(interrupts[0], interrupts[1..], u - 1) == Seen(status, interrupts, u);
      HaltsOnlyWhenIdle(interrupts[0], cur, interrupts[1..]);
      WakesNearest(interrupts[0], cur, interrupts[1..], u - 1);
    }
  }

  /** One halt, with used interrupts already taken. */
  lemma ChooseStep(status: seq<Status>, cur: nat, interrupts: seq<Interrupt>, used: nat)
    requires cur < |status| && forall i :: 0 <= i < |interrupts| ==> |interrupts[i]| == |status|
    requires used <= |interrupts|
    ensures var first := FirstAfter(status, cur, 0); var r := Choose(status, cur, interrupts[used..]);
      && (first.Some? ==> r == (status, first))
      && (first.None? && used == |interrupts| ==> r == (status, None))
      && (first.None? && used < |interrupts| ==>
            r == if interrupts[used][cur].Running? then (interrupts[used], Some(cur))
                 else Choose(interrupts[used], cur, interrupts[used + 1..]))
  {}

  /** Who runs after the given calls of schedule, the statuses being whatever they are at each call. */
  function After(calls: seq<seq<Status>>, n: nat, cur: nat): (r: nat)
    requires cur < n && forall t :: 0 <= t < |calls| ==> |calls[t]| == n
    ensures r < n
    decreases |calls|
  {
    if calls == [] then cur
    else
      var before := After(calls[..|calls| - 1], n, cur);
      var r := Choose(calls[|calls| - 1], before, []).1;
      if r.Some? then r.value else before
  }

  lemma OneCall(status: seq<Status>, cur: nat, p: nat)
    requires cur < |status| && p < |status| && status[p].Running?
    ensures var r := Choose(status, cur, []).1; var n := |status|;
      r.Some? && (r.value == p || Steps(n, r.value, p) < Steps(n, cur, p))
  {
    HaltsOnlyWhenIdle(status, cur, []);
  }

  /** Fairness: a process that is running at each of n successive calls is chosen by one of them. */
  lemma Fair(calls: seq<seq<Status>>, n: nat, cur: nat, p: nat)
    requires cur < n && p < n && |calls| == n
    requires forall t :: 0 <= t < n ==> |calls[t]| == n && calls[t][p].Running?
    ensures exists t :: 1 <= t <= n && After(calls[..t], n, cur) == p
  {
    var t := 0;
    assert calls[..0] == [];
    while t < n && (t == 0 || After(calls[..t], n, cur) != p)
      invariant 0 <= t <= n
      invariant t == 0 || After(calls[..t], n, cur) == p || Steps(n, After(calls[..t], n, cur), p) <= n - t
    {
      assert calls[..t + 1][..t] == calls[..t] && calls[..t + 1][t] == calls[t];
      OneCall(calls[t], After(calls[..t], n, cur), p);
      t := t + 1;
    }
    assert t >= 1;
  }

  /** One switch: process out gives way with frame saved, and process chosen gets frame given. */
  datatype Switch<F> = Switch(out: nat, saved: F, chosen: nat, given: F)

  /** The frames kept for the processes, who runs, the frame each process was born with, and every switch so far. */
  datatype Machine<F> = Machine(cur: nat, frames: seq<F>, born: seq<F>, log: seq<Switch<F>>)

  /** What reaches schedule: a call with a frame, the choice being i; a call nested inside a halt; a new process. */
  datatype Event<F> = Call(regs: F, i: nat) | Nested(regs: F) | Spawn(frame: F)

  ghost predicate Sound<F>(m: Machine<F>) {
    && m.cur < |m.frames| == |m.born|
    && forall t :: 0 <= t < |m.log| ==> m.log[t].out < |m.born| && m.log[t].chosen < |m.born|
  }

  ghost predicate Possible<F>(m: Machine<F>, e: Event<F>) {
    m.cur < |m.frames| && (e.Call? ==> e.i < |m.frames|)
  }

  function Next<F>(m: Machine<F>, e: Event<F>): Machine<F>
    requires m.cur < |m.frames| && (e.Call? ==> e.i < |m.frames|)
  {
    match e
    case Call(regs, i) =>
      var frames := m.frames[m.cur := regs];
      m.(cur := i, frames := frames, log := m.log + [Switch(m.cur, regs, i, frames[i])])
    case Nested(_) => m
    case Spawn(frame) => m.(frames := m.frames + [frame], born := m.born + [frame])
  }

  /** The frame process p last gave up in the first t switches, the one it was born with if none. */
  ghost function LastSaved<F>(m: Machine<F>, t: nat, p: nat): F
    requires t <= |m.log| && p < |m.born|
  {
    if t == 0 then m.born[p]
    else if m.log[t - 1].out == p then m.log[t - 1].saved
    else LastSaved(m, t - 1, p)
  }

  lemma {:induction false} LastSavedKept<F>(m: Machine<F>, e: Event<F>, t: nat, p: nat)
    requires Sound(m) && Possible(m, e) && t <= |m.log| && p < |m.born|
    ensures LastSaved(Next(m, e), t, p) == LastSaved(m, t, p)
  {
    if t > 0 {
      LastSavedKept(m, e, t - 1, p);
    }
  }

  /** Every process is kept the frame it last gave up, and every switch gave the chosen process that frame. */
  ghost predicate Faithful<F>(m: Machine<F>) {
    && Sound(m)
    && (forall p :: 0 <= p < |m.born| ==> m.frames[p] == LastSaved(m, |m.log|, p))
    && (forall t :: 0 <= t < |m.log| ==> m.log[t].given == LastSaved(m, t + 1, m.log[t].chosen))
  }

  lemma NextFaithful<F>(m: Machine<F>, e: Event<F>)
    requires Faithful(m) && Possible(m, e)
    ensures Faithful(Next(m, e))
  {
    var n := Next(m, e);
    forall p | 0 <= p < |n.born| ensures n.frames[p] == LastSaved(n, |n.log|, p) {
      if p < |m.born| {
        LastSavedKept(m, e, |m.log|, p);
      } else {
        NeverSaved(n, |n.log|, p);
      }
    }
    forall t | 0 <= t < |n.log| ensures n.log[t].given == LastSaved(n, t + 1, n.log[t].chosen) {
      if t < |m.log| {
        LastSavedKept(m, e, t + 1, m.log[t].chosen);
      }
    }
  }

  lemma {:induction false} NeverSaved<F>(m: Machine<F>, t: nat, p: nat)
    requires t <= |m.log| && p < |m.born| && forall u :: 0 <= u < t ==> m.log[u].out != p
    ensures LastSaved(m, t, p) == m.born[p]
  {
    if t > 0 {
      NeverSaved(m, t - 1, p);
    }
  }

  ghost predicate Run<F>(m: Machine<F>, events: seq<Event<F>>, last: Machine<F>)
    decreases |events|
  {
    if events == [] then last == m else Possible(m, events[0]) && Run(Next(m, events[0]), events[1..], last)
  }

  /** Over every run, the frame a process gets when chosen is the frame saved when it was last switched out, or the
      one it was born with: whatever the other processes and nested calls did in between. */
  lemma {:induction false} FramesRoundTrip<F>(m: Machine<F>, events: seq<Event<F>>, last: Machine<F>)
    requires Faithful(m) && Run(m, events, last)
    ensures Sound(last)
    ensures forall t :: 0 <= t < |last.log| ==> last.log[t].given == LastSaved(last, t + 1, last.log[t].chosen)
    decreases |events|
  {
    if events != [] {
      NextFaithful(m, events[0]);
      FramesRoundTrip(Next(m, events[0]), events[1..], last);
    }
  }
}
