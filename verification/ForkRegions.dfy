/** The loop of fork over the parent's region list. */
module ForkRegions {
  import opened Common
  import opened Segments
  import opened RegionList
  import FixedCreate
  import Fork
  import ForkWalks
  import Links

  /** A fresh space whose default stack region is taken off the list again. */
  method FreshChild() returns (child: AddressSpace)
    ensures fresh(child) && fresh(child.nodes) && child.Valid() && child.segs == [INITIAL_FREE]
    ensures child.Linked([Links.Home])
  {
    child := new AddressSpace();
    ghost var free := child.chain[1];
    ghost var _ := child.Unlink(child.stack, 1, child.first, 0);
    assert child.segs == [INITIAL_FREE];
    assert child.chain[1] == free && free.LinkOf().Home?;
  }

  lemma WholeTarget(s: Segment)
    requires s.WellFormed() && 0 < s.length
    ensures FixedCreate.Target(s.va, s.End())
  {}

  /** What the create for region n of the parent needs. */
  lemma NextTarget(parent: seq<Segment>, n: nat)
    requires Fork.Forkable(parent) && n < |parent| && ForkWalks.Walked(parent, n).Some?
    ensures Aligned(ForkWalks.Walked(parent, n).value.0)
    ensures Fork.Copied(parent[n].info.kind) ==> FixedCreate.Target(parent[n].va, parent[n].End())
  {
    ForkWalks.WalkedRefines(parent, n);
    Fork.ChildAligned(parent, n);
    if Fork.Copied(parent[n].info.kind) {
      WholeTarget(parent[n]);
    }
  }

  /** The switch of fork on one region of the parent; false when the create steps past the end of the child's list or
      deletes a region whose walk does not come home. */
  method CopyOne(child: AddressSpace, mr: Region, ghost parent: seq<Segment>, ghost n: nat,
                 ghost links: seq<Links.Link>)
    returns (ok: bool, ghost after: seq<Links.Link>)
    requires child.Valid() && mr !in child.nodes && child.Linked(links)
    requires Fork.Forkable(parent) && n < |parent|
    requires mr.Value() == parent[n] && ForkWalks.Walked(parent, n) == Some((child.segs, links))
    modifies child`chain, child`segs, child`nodes, child`stack
    modifies child.nodes`next, child.nodes`length, child.nodes`kind, child.nodes`va
    ensures child.Valid() && fresh(child.nodes - old(child.nodes)) && (ok ==> child.Linked(after))
    ensures ForkWalks.Walked(parent, n + 1) == if ok then Some((child.segs, after)) else None
    ensures ok ==> child.stack == if mr.kind.Stack? then child.chain[1] else old(child.stack)
  {
    NextTarget(parent, n);
    ok, after := true, links;
    match mr.kind {
      case Anon | Core | Library =>
        var newr;
        newr, after := child.CreateFixed(mr.va, mr.length, mr.kind, mr.attributes, mr.parameter, links);
        ok := newr != null;
      case Stack =>
        var newr;
        newr, after := child.CreateFixed(mr.va, mr.length, mr.kind, mr.attributes, mr.parameter, links);
        child.stack := newr;
        ok := newr != null;
      case _ =>
    }
  }

  lemma StopsForGood(parent: seq<Segment>, n: nat, m: nat)
    requires n <= m <= |parent| && ForkWalks.Walked(parent, n).None?
    ensures ForkWalks.Walked(parent, m).None?
    decreases m - n
  {
    if n < m {
      StopsForGood(parent, n, m - 1);
    }
  }

  /** The loop of fork, up to the region that stops it or the last one. */
  method CopyAll(parent: AddressSpace, child: AddressSpace, ghost ps: seq<Segment>)
    returns (completed: bool, ghost links: seq<Links.Link>)
    requires parent.Valid() && ps == parent.segs && Fork.Forkable(ps)
    requires child.Valid() && child != parent && child.nodes !! parent.nodes
    requires child.segs == [INITIAL_FREE] && child.Linked([Links.Home])
    modifies child`chain, child`segs, child`nodes, child`stack
    modifies child.nodes`next, child.nodes`length, child.nodes`kind, child.nodes`va
    ensures child.Valid() && fresh(child.nodes - old(child.nodes))
    ensures ForkWalks.Walked(ps, |ps|) == if completed then Some((child.segs, links)) else None
  {
    var mr := parent.first.next;
    ghost var n: nat := 0;
    completed, links := true, [Links.Home];
    while completed && !mr.kind.Sentinel?
      invariant child.Valid() && fresh(child.nodes - old(child.nodes))
      invariant n <= |ps| && mr == parent.chain[n + 1] && (completed ==> child.Linked(links))
      invariant ForkWalks.Walked(ps, n) == if completed then Some((child.segs, links)) else None
      decreases |ps| - n
    {
      assert ps[n] == mr.Value();
      completed, links := CopyOne(child, mr, ps, n, links);
      mr := mr.next;
      n := n + 1;
    }
    if !completed {
      StopsForGood(ps, n, |ps|);
    }
  }

  /** The region part of fork, for a parent without IPC regions: it completes exactly if each create that meets a
      complete overlap covers the original FREE node and leaves something FREE above, and the child then tells about
      every address in use what the parent tells. */
  method CopyRegions(parent: AddressSpace) returns (child: AddressSpace, completed: bool)
    requires parent.Valid() && Fork.Forkable(parent.segs)
    ensures fresh(child) && fresh(child.nodes) && child.Valid() && parent.Valid() && parent.segs == old(parent.segs)
    ensures completed ==> Fork.Child(parent.segs, |parent.segs|) == Some(child.segs)
    ensures completed <==> ForkWalks.AllFinish(parent.segs, |parent.segs|)
    ensures completed ==>
      forall a :: KindAt(parent.segs, a) != Some(Free) ==> InfoAt(child.segs, a) == InfoAt(parent.segs, a)
  {
    child := FreshChild();
    ghost var links;
    completed, links := CopyAll(parent, child, parent.segs);
    Outcome(parent.segs, child.segs, links, completed);
  }

  lemma Outcome(parent: seq<Segment>, child: seq<Segment>, links: seq<Links.Link>, completed: bool)
    requires Fork.Forkable(parent)
    requires ForkWalks.Walked(parent, |parent|) == if completed then Some((child, links)) else None
    ensures completed ==> Fork.Child(parent, |parent|) == Some(child)
    ensures completed <==> ForkWalks.AllFinish(parent, |parent|)
    ensures completed ==> forall a :: KindAt(parent, a) != Some(Free) ==> InfoAt(child, a) == InfoAt(parent, a)
  {
    ForkWalks.WalkedRefines(parent, |parent|);
    ForkWalks.ForkCompletes(parent);
  }
}
