/** kfifo_update_senders: give a forked child the send rights of its parent by splicing one new entry into each
    send list. The same entry is spliced after every entry of the parent. */
module Senders {

  /** Index of the first entry of pid in l, |l| if none, and of the last, -1 if none. */
  function First(l: seq<nat>, pid: nat): (i: nat)
    ensures i <= |l| && (i < |l| ==> l[i] == pid)
    ensures forall j :: 0 <= j < i ==> l[j] != pid
  {
    FirstFrom(l, pid, 0)
  }

  function FirstFrom(l: seq<nat>, pid: nat, n: nat): (i: nat)
    requires n <= |l|
    ensures n <= i <= |l| && (i < |l| ==> l[i] == pid)
    ensures forall j :: n <= j < i ==> l[j] != pid
    decreases |l| - n
  {
    if n == |l| || l[n] == pid then n else FirstFrom(l, pid, n + 1)
  }

  function Last(l: seq<nat>, pid: nat): (i: int)
    ensures -1 <= i < |l| && (0 <= i ==> l[i] == pid)
    ensures forall j :: i < j < |l| ==> l[j] != pid
  {
    LastBelow(l, pid, |l|)
  }

  function LastBelow(l: seq<nat>, pid: nat, n: nat): (i: int)
    requires n <= |l|
    ensures -1 <= i < n && (0 <= i ==> l[i] == pid)
    ensures forall j :: i < j < n ==> l[j] != pid
  {
    if n == 0 then -1 else if l[n - 1] == pid then n - 1 else LastBelow(l, pid, n - 1)
  }

  /** x in place of everything between positions f and e. */
  function Cut<T>(s: seq<T>, f: nat, e: nat, x: T): (r: seq<T>)
    requires f <= e < |s|
    ensures |r| == |s| + 1 - (e - f)
    ensures forall i :: 0 <= i < |r| ==> r[i] == if i <= f then s[i] else if i == f + 1 then x else s[i - 1 + e - f]
  {
    s[..f + 1] + [x] + s[e + 1..]
  }

  lemma FirstBeforeLast(l: seq<nat>, pid: nat)
    requires pid in l
    ensures First(l, pid) <= Last(l, pid)
  {}

  /** The list after the splice: everything between the first and the last entry of oldpid is lost. */
  function Splice(l: seq<nat>, oldpid: nat, newpid: nat): seq<nat> {
    if oldpid in l then
      FirstBeforeLast(l, oldpid);
      Cut(l, First(l, oldpid), Last(l, oldpid), newpid)
    else l
  }

  /** Entries of the same pid stand next to each other. */
  ghost predicate Adjacent(l: seq<nat>) {
    forall i, j, k :: 0 <= i <= j <= k < |l| && l[i] == l[k] ==> l[j] == l[i]
  }

  /** The entry at k has another entry of its pid before the first or after the last entry of oldpid. */
  ghost predicate Outside(l: seq<nat>, k: nat, oldpid: nat)
    requires k < |l|
  {
    (exists i :: 0 <= i < First(l, oldpid) && l[i] == l[k]) || (exists i :: Last(l, oldpid) < i < |l| && l[i] == l[k])
  }

  lemma InSplice(l: seq<nat>, oldpid: nat, newpid: nat, p: nat)
    requires oldpid in l
    ensures var f, e := First(l, oldpid), Last(l, oldpid);
      p in Splice(l, oldpid, newpid) <==> p in l[..f] || p == oldpid || p == newpid || p in l[e + 1..]
  {}

  lemma OutsideIn(l: seq<nat>, k: nat, oldpid: nat)
    requires k < |l| && oldpid in l
    ensures Outside(l, k, oldpid) <==> l[k] in l[..First(l, oldpid)] || l[k] in l[Last(l, oldpid) + 1..]
  {}

  /** The new pid joins the senders and none is lost, exactly when every entry standing between two of oldpid is of
      oldpid or newpid, or has its like outside. */
  lemma SpliceKeepsSenders(l: seq<nat>, oldpid: nat, newpid: nat)
    requires oldpid in l
    ensures (forall p :: p in Splice(l, oldpid, newpid) <==> p in l || p == newpid) <==>
      (forall k :: First(l, oldpid) < k < Last(l, oldpid) ==>
        l[k] == oldpid || l[k] == newpid || Outside(l, k, oldpid))
  {
    var f, e, r := First(l, oldpid), Last(l, oldpid), Splice(l, oldpid, newpid);
    forall p ensures p in r <==> p in l[..f] || p == oldpid || p == newpid || p in l[e + 1..] {
      InSplice(l, oldpid, newpid, p);
    }
    forall k | 0 <= k < |l| ensures Outside(l, k, oldpid) <==> l[k] in l[..f] || l[k] in l[e + 1..] {
      OutsideIn(l, k, oldpid);
    }
    if forall k :: f < k < e ==> l[k] == oldpid || l[k] == newpid || Outside(l, k, oldpid) {
      forall p | p in l ensures p in r {
        var k :| 0 <= k < |l| && l[k] == p;
        OutsideIfNotBetween(l, k, oldpid);
      }
    } else {
      var k :| f < k < e && !(l[k] == oldpid || l[k] == newpid || Outside(l, k, oldpid));
      assert l[k] in l && l[k] !in r;
    }
  }

  lemma OutsideIfNotBetween(l: seq<nat>, k: nat, oldpid: nat)
    requires k < |l| && oldpid in l
    ensures l[k] == oldpid || First(l, oldpid) < k < Last(l, oldpid) || Outside(l, k, oldpid)
  {}

  /** Equal pids adjacent, and newpid, if listed at all, right after the entries of oldpid. */
  ghost predicate Ready(l: seq<nat>, oldpid: nat, newpid: nat) {
    && oldpid != newpid && Adjacent(l)
    && (newpid in l ==> oldpid in l && Last(l, oldpid) + 1 < |l| && l[Last(l, oldpid) + 1] == newpid)
  }

  lemma BlockOfOne(l: seq<nat>, pid: nat, k: nat)
    requires Adjacent(l) && pid in l && First(l, pid) <= k <= Last(l, pid)
    ensures l[k] == pid
  {}

  /** On adjacent lists the splice keeps adjacency and loses no one, also when the same child is spliced again. */
  lemma SpliceReady(l: seq<nat>, oldpid: nat, newpid: nat)
    requires Ready(l, oldpid, newpid)
    ensures var r := Splice(l, oldpid, newpid);
      && Ready(r, oldpid, newpid)
      && forall p :: p in r <==> p in l || (oldpid in l && p == newpid)
  {
    if oldpid in l {
      forall k | First(l, oldpid) < k < Last(l, oldpid) ensures l[k] == oldpid {
        BlockOfOne(l, oldpid, k);
      }
      SpliceKeepsSenders(l, oldpid, newpid);
      SpliceAdjacent(l, oldpid, newpid);
      var f, r := First(l, oldpid), Splice(l, oldpid, newpid);
      assert r[f] == oldpid && r[f + 1] == newpid;
      NothingLater(l, oldpid, newpid);
    }
  }

  /** Position i of the spliced list comes from position Origin of the old one; the new entry has none. */
  function Origin(l: seq<nat>, oldpid: nat, i: nat): int {
    if i <= First(l, oldpid) then i else i - 1 + Last(l, oldpid) - First(l, oldpid)
  }

  /** Where entry i of the spliced list is found in the old one; the new entry counts as the one after oldpid's. */
  function Source(l: seq<nat>, oldpid: nat, i: nat): int {
    if i == First(l, oldpid) + 1 then Last(l, oldpid) + 1 else Origin(l, oldpid, i)
  }

  lemma SpliceSource(l: seq<nat>, oldpid: nat, newpid: nat, i: nat)
    requires Ready(l, oldpid, newpid) && oldpid in l && i < |Splice(l, oldpid, newpid)|
    requires i != First(l, oldpid) + 1 || newpid in l
    ensures 0 <= Source(l, oldpid, i) < |l| && Splice(l, oldpid, newpid)[i] == l[Source(l, oldpid, i)]
  {}

  lemma SpliceAdjacent(l: seq<nat>, oldpid: nat, newpid: nat)
    requires Ready(l, oldpid, newpid) && oldpid in l
    ensures Adjacent(Splice(l, oldpid, newpid))
  {
    var f, r := First(l, oldpid), Splice(l, oldpid, newpid);
    forall i, j, k | 0 <= i <= j <= k < |r| && r[i] == r[k] ensures r[j] == r[i] {
      if i < j < k {
        if newpid in l || (i != f + 1 && k != f + 1) {
          SpliceSource(l, oldpid, newpid, i);
          SpliceSource(l, oldpid, newpid, k);
        }
        if newpid in l || j != f + 1 {
          SpliceSource(l, oldpid, newpid, j);
        }
      }
    }
  }

  lemma NothingLater(l: seq<nat>, oldpid: nat, newpid: nat)
    requires oldpid in l && oldpid != newpid
    ensures Last(Splice(l, oldpid, newpid), oldpid) == First(l, oldpid)
  {}

  /** One fork: its parent, its child, and how many regions the parent has; every region calls for a splice. */
  datatype ForkCall = ForkCall(parent: nat, child: nat, regions: nat)

  function Repeat(l: seq<nat>, oldpid: nat, newpid: nat, times: nat): seq<nat>
    decreases times
  {
    if times == 0 then l else Repeat(Splice(l, oldpid, newpid), oldpid, newpid, times - 1)
  }

  lemma {:induction false} RepeatReady(l: seq<nat>, oldpid: nat, newpid: nat, times: nat)
    requires Ready(l, oldpid, newpid)
    ensures var r := Repeat(l, oldpid, newpid, times);
      && Adjacent(r)
      && forall p :: p in r <==> p in l || (oldpid in l && p == newpid && times > 0)
    decreases times
  {
    if times > 0 {
      SpliceReady(l, oldpid, newpid);
      RepeatReady(Splice(l, oldpid, newpid), oldpid, newpid, times - 1);
    }
  }

  /** The send list after a run of forks. */
  function AfterForks(l: seq<nat>, forks: seq<ForkCall>): seq<nat>
    decreases |forks|
  {
    if forks == [] then l
    else AfterForks(Repeat(l, forks[0].parent, forks[0].child, forks[0].regions), forks[1..])
  }

  /** Each child gets a pid that is on the list nowhere yet. */
  ghost predicate FreshChildren(l: seq<nat>, forks: seq<ForkCall>)
    decreases |forks|
  {
    forks == [] ||
    (forks[0].child !in l && forks[0].child != forks[0].parent &&
     FreshChildren(Repeat(l, forks[0].parent, forks[0].child, forks[0].regions), forks[1..]))
  }

  /** Who may send after the forks: the senders before, and the child of every sender that forked with a region. */
  ghost function Granted(senders: set<nat>, forks: seq<ForkCall>): set<nat>
    decreases |forks|
  {
    if forks == [] then senders
    else
      var f := forks[0];
      Granted(if f.parent in senders && f.regions > 0 then senders + {f.child} else senders, forks[1..])
  }

  ghost function SendersOf(l: seq<nat>): set<nat> { set p | p in l }

  /** Over every run of forks no sender is lost, and exactly the children of senders join. */
  lemma {:induction false} ForksKeepSenders(l: seq<nat>, forks: seq<ForkCall>)
    requires Adjacent(l) && FreshChildren(l, forks)
    ensures Adjacent(AfterForks(l, forks))
    ensures SendersOf(AfterForks(l, forks)) == Granted(SendersOf(l), forks)
    decreases |forks|
  {
    if forks != [] {
      var f := forks[0];
      RepeatReady(l, f.parent, f.child, f.regions);
      var next := Repeat(l, f.parent, f.child, f.regions);
      assert SendersOf(next) ==
        if f.parent in SendersOf(l) && f.regions > 0 then SendersOf(l) + {f.child} else SendersOf(l);
      ForksKeepSenders(next, forks[1..]);
    }
  }

  class AclEntry {
    var pid: nat
    var next: AclEntry?

    constructor (pid: nat)
      ensures this.pid == pid
    {
      this.pid := pid;
    }
  }

  /** nodes is the list starting at head, in order, with the given pids. */
  ghost predicate Listed(head: AclEntry?, nodes: seq<AclEntry>, pids: seq<nat>)
    reads nodes
  {
    && |nodes| == |pids|
    && (forall i, j :: 0 <= i < j < |nodes| ==> nodes[i] != nodes[j])
    && head == At(nodes, 0)
    && (forall i {:trigger nodes[i].next} :: 0 <= i < |nodes| ==> nodes[i].next == At(nodes, i + 1))
    && (forall i {:trigger nodes[i].pid} :: 0 <= i < |nodes| ==> nodes[i].pid == pids[i])
  }

  /** Node i of a list, null past its end. */
  ghost function At(nodes: seq<AclEntry>, i: nat): AclEntry? {
    if i < |nodes| then nodes[i] else null
  }

  /** The state of the walk of kfifo_update_senders at node i: every entry of oldpid passed so far leads to the new
      entry, and the new entry leads on from the last of them. */
  ghost predicate Walked(nodes: seq<AclEntry>, l: seq<nat>, i: nat, oldpid: nat, newacl: AclEntry)
    requires |nodes| == |l| && i <= |l|
    reads nodes, newacl
  {
    && (forall j {:trigger nodes[j].pid} :: 0 <= j < |l| ==> nodes[j].pid == l[j])
    && (forall j {:trigger nodes[j].next} :: 0 <= j < |l| ==>
          nodes[j].next == if j < i && l[j] == oldpid then newacl else At(nodes, j + 1))
    && (LastBelow(l, oldpid, i) >= 0 ==> newacl.next == At(nodes, LastBelow(l, oldpid, i) + 1))
  }

  /** One iteration of the walk. */
  method Visit(curacl: AclEntry, oldpid: nat, newacl: AclEntry, ghost nodes: seq<AclEntry>, ghost l: seq<nat>,
               ghost i: nat)
    returns (next: AclEntry?)
    requires |nodes| == |l| && i < |l| && curacl == nodes[i] && newacl !in nodes
    requires forall j :: 0 <= j < |nodes| && j != i ==> nodes[j] != curacl
    requires Walked(nodes, l, i, oldpid, newacl)
    modifies curacl`next, newacl`next
    ensures Walked(nodes, l, i + 1, oldpid, newacl) && next == At(nodes, i + 1)
  {
    next := curacl;
    if curacl.pid == oldpid {
      newacl.next := curacl.next;
      curacl.next := newacl;
      next := newacl;
    }
    next := next.next;
  }

  /** kfifo_update_senders on one send list. The head of the list stays where it is. */
  method UpdateSenders(sendlist: AclEntry?, oldpid: nat, newpid: nat, ghost nodes: seq<AclEntry>, ghost l: seq<nat>)
    returns (ghost after: seq<AclEntry>)
    requires Listed(sendlist, nodes, l)
    modifies nodes
    ensures Listed(sendlist, after, Splice(l, oldpid, newpid))
    ensures forall n :: n in after ==> n in nodes || fresh(n)
  {
    var newacl := new AclEntry(newpid);
    Walk(sendlist, oldpid, newacl, nodes, l);
    after := SplicedNodes(nodes, l, oldpid, newacl);
    SplicedMembers(nodes, l, oldpid, newacl);
    WalkedToEnd(nodes, l, oldpid, newacl);
  }

  lemma SplicedMembers(nodes: seq<AclEntry>, l: seq<nat>, oldpid: nat, newacl: AclEntry)
    requires |nodes| == |l|
    ensures forall n :: n in SplicedNodes(nodes, l, oldpid, newacl) ==> n in nodes || n == newacl
  {}

  /** The walk along the list. */
  method Walk(sendlist: AclEntry?, oldpid: nat, newacl: AclEntry, ghost nodes: seq<AclEntry>, ghost l: seq<nat>)
    requires Listed(sendlist, nodes, l) && newacl !in nodes
    modifies nodes, newacl`next
    ensures Walked(nodes, l, |l|, oldpid, newacl)
  {
    var curacl := sendlist;
    ghost var i := 0;
    while curacl != null
      invariant i <= |l| && curacl == At(nodes, i) && Walked(nodes, l, i, oldpid, newacl)
      decreases |l| - i
    {
      curacl := Visit(curacl, oldpid, newacl, nodes, l, i);
      i := i + 1;
    }
  }

  ghost function SplicedNodes(nodes: seq<AclEntry>, l: seq<nat>, oldpid: nat, newacl: AclEntry): seq<AclEntry>
    requires |nodes| == |l|
  {
    if oldpid in l then
      FirstBeforeLast(l, oldpid);
      Cut(nodes, First(l, oldpid), Last(l, oldpid), newacl)
    else nodes
  }

  lemma CutDistinct(nodes: seq<AclEntry>, f: nat, e: nat, x: AclEntry)
    requires f <= e < |nodes| && x !in nodes
    requires forall i, j :: 0 <= i < j < |nodes| ==> nodes[i] != nodes[j]
    ensures forall i, j :: 0 <= i < j < |Cut(nodes, f, e, x)| ==> Cut(nodes, f, e, x)[i] != Cut(nodes, f, e, x)[j]
  {}

  /** How the walk leaves the links when oldpid stands first at f and last at e. */
  ghost predicate Rerouted(nodes: seq<AclEntry>, f: nat, e: nat, x: AclEntry)
    requires f <= e < |nodes|
    reads nodes, x
  {
    && (forall j {:trigger nodes[j].next} :: 0 <= j < |nodes| && (j < f || e < j) ==> nodes[j].next == At(nodes, j + 1))
    && nodes[f].next == x && x.next == At(nodes, e + 1)
  }

  lemma CutNext(nodes: seq<AclEntry>, f: nat, e: nat, x: AclEntry, i: nat)
    requires f <= e < |nodes| && i < |Cut(nodes, f, e, x)| && Rerouted(nodes, f, e, x)
    ensures Cut(nodes, f, e, x)[i].next == At(Cut(nodes, f, e, x), i + 1)
  {}

  lemma CutPid(nodes: seq<AclEntry>, l: seq<nat>, f: nat, e: nat, x: AclEntry, i: nat)
    requires f <= e < |nodes| == |l| && i < |Cut(nodes, f, e, x)|
    requires forall j {:trigger nodes[j].pid} :: 0 <= j < |l| ==> nodes[j].pid == l[j]
    ensures |Cut(l, f, e, x.pid)| == |Cut(nodes, f, e, x)| && Cut(nodes, f, e, x)[i].pid == Cut(l, f, e, x.pid)[i]
  {}

  lemma CutListed(nodes: seq<AclEntry>, l: seq<nat>, f: nat, e: nat, x: AclEntry)
    requires f <= e < |nodes| == |l| && x !in nodes && Rerouted(nodes, f, e, x)
    requires forall i, j :: 0 <= i < j < |nodes| ==> nodes[i] != nodes[j]
    requires forall j {:trigger nodes[j].pid} :: 0 <= j < |l| ==> nodes[j].pid == l[j]
    ensures Listed(nodes[0], Cut(nodes, f, e, x), Cut(l, f, e, x.pid))
  {
    var after, r := Cut(nodes, f, e, x), Cut(l, f, e, x.pid);
    CutDistinct(nodes, f, e, x);
    forall i | 0 <= i < |after| ensures after[i].next == At(after, i + 1) {
      CutNext(nodes, f, e, x, i);
    }
    forall i | 0 <= i < |after| ensures after[i].pid == r[i] {
      CutPid(nodes, l, f, e, x, i);
    }
  }

  /** At the end of the walk the nodes reachable from the head are those of the spliced list. */
  lemma WalkedToEnd(nodes: seq<AclEntry>, l: seq<nat>, oldpid: nat, newacl: AclEntry)
    requires |nodes| == |l| && newacl !in nodes && Walked(nodes, l, |l|, oldpid, newacl)
    requires forall i, j :: 0 <= i < j < |nodes| ==> nodes[i] != nodes[j]
    ensures Listed(At(nodes, 0), SplicedNodes(nodes, l, oldpid, newacl), Splice(l, oldpid, newacl.pid))
  {
    if oldpid in l {
      FirstBeforeLast(l, oldpid);
      assert Rerouted(nodes, First(l, oldpid), Last(l, oldpid), newacl);
      CutListed(nodes, l, First(l, oldpid), Last(l, oldpid), newacl);
    }
  }
}
