/** fork with the walks that its creates make: a region covered by a create is passed to delete_region, and of the
    FREE pieces in the child's list only the original FREE node has a sharedmem_next of its own. The others are upper
    parts of splits. */
module ForkWalks {
  import opened Common
  import opened Segments
  import opened Fork
  import opened Links
  import FixedCreate
  import Coalesce

  /** The child's list, and the links of its regions, after the first n regions of the parent; None if a create steps
      past the end of the list or deletes a region whose walk does not come home. */
  function Walked(parent: seq<Segment>, n: nat): (r: Option<(seq<Segment>, seq<Link>)>)
    requires n <= |parent|
    ensures r.Some? ==> |r.value.0| == |r.value.1|
  {
    if n == 0 then Some(([INITIAL_FREE], [Home]))
    else
      var before := Walked(parent, n - 1);
      if before.None? then None
      else
        var s := parent[n - 1];
        if Copied(s.info.kind) then Links.Create(before.value.0, before.value.1, s.va, s.length, s.info) else before
  }

  lemma {:induction false} WalkedRefines(parent: seq<Segment>, n: nat)
    requires n <= |parent|
    ensures Walked(parent, n).Some? ==> Child(parent, n) == Some(Walked(parent, n).value.0)
  {
    if n > 0 {
      WalkedRefines(parent, n - 1);
      var before, s := Walked(parent, n - 1), parent[n - 1];
      if before.Some? && Copied(s.info.kind) {
        CreateRefines(before.value.0, before.value.1, s.va, s.length, s.info);
      }
    }
  }

  /** fork has made r of the first n regions; see FixedCreate.Ends. */
  ghost predicate Leads(parent: seq<Segment>, n: nat, r: Option<(seq<Segment>, seq<Link>)>) {
    n <= |parent| && forall m: nat {:trigger FixedCreate.Asked(m)} ::
      FixedCreate.Asked(m) && m == n ==> Walked(parent, n) == r
  }

  /** Region n is the first to meet a complete overlap, and nothing below it is still FREE: what it covers is the
      original FREE node. */
  ghost predicate OnOriginal(parent: seq<Segment>, n: nat)
    requires n < |parent|
  {
    CleanUpTo(parent, n) && forall a :: a < parent[n].va ==> !StillFree(parent, n, a)
  }

  /** The create for region n ends: it meets no complete overlap, or it covers the original FREE node and some address
      above is still FREE. */
  ghost predicate Finishes(parent: seq<Segment>, n: nat)
    requires n < |parent|
  {
    Clean(parent, n) || (OnOriginal(parent, n) && Passable(parent, n))
  }

  ghost predicate AllFinish(parent: seq<Segment>, n: nat)
    requires n <= |parent|
  {
    forall i :: 0 <= i < n ==> Finishes(parent, i)
  }

  /** The links of c copies and k pieces: the copies and the first piece point to themselves. */
  function Marks(c: nat, k: nat): (r: seq<Link>)
    ensures |r| == c + k && forall j {:trigger r[j]} :: 0 <= j < c + k ==> r[j] == if j <= c then Home else Stray
  {
    seq(c + k, j => if j <= c then Home else Stray)
  }

  lemma MarksCut(c: nat, k: nat, p: nat, pieces: nat)
    requires p < k && 1 <= pieces <= 2
    ensures Cut(Marks(c, k), c + p, pieces) == Marks(c, k + pieces - 1)
  {}

  lemma MarksPush(c: nat, k: nat)
    requires 0 < k
    ensures [Home] + Marks(c, k) == Marks(c + 1, k)
  {}

  /** No piece but the first is shut. */
  ghost predicate OnlyFirstShut(parent: seq<Segment>, n: nat, fs: seq<Segment>)
    requires n <= |parent|
  {
    forall k :: 1 <= k < |fs| ==> Open(parent, n, fs[k])
  }

  /** Then a region that covers a piece covers the first one exactly if it is on the original node. */
  lemma OnOriginalIffFirst(parent: seq<Segment>, n: nat, fs: seq<Segment>, p: nat)
    requires Below(parent, n) && Pieces(parent, n, fs) && (AllOpen(parent, n, fs) <==> CleanUpTo(parent, n))
    requires OnlyFirstShut(parent, n, fs) && p < |fs| && fs[p].va == parent[n].va && Open(parent, n, fs[p])
    ensures OnOriginal(parent, n) <==> p == 0
  {
    if p == 0 {
      assert AllOpen(parent, n, fs);
      forall a | a < parent[n].va ensures !StillFree(parent, n, a) {
        NoneBelow(fs, a);
      }
    } else if CleanUpTo(parent, n) {
      assert FreePiece(fs[0]) && fs[0].Has(fs[0].va) && fs[0].End() < fs[p].va;
    }
  }

  lemma NoneBelow(fs: seq<Segment>, a: int)
    requires Ascending(fs) && 0 < |fs| && a < fs[0].va
    ensures Find(fs, a) == |fs|
  {
    forall k | 0 <= k < |fs| ensures !fs[k].Has(a) {
      assert 0 < k ==> FreePiece(fs[0]) && fs[0].End() < fs[k].va;
    }
    FindNone(fs, a);
  }

  lemma StepMisses(segs: seq<Segment>, links: seq<Link>, i: nat, addr: int, stop: int,
                   out: Option<(seq<Segment>, seq<Link>)>)
    requires i < |segs| == |links| && Misses(segs[i], addr, stop) && addr < stop
    requires Links.Ends(segs, links, i + 1, addr, stop, out)
    ensures Links.Ends(segs, links, i, addr, stop, out)
  {
    TrimMisses(segs[i], addr, stop);
    assert FixedCreate.Splice(segs, i, [segs[i]]) == segs;
    StepTurns(segs, links, i, segs, links, i + 1, addr, stop);
  }

  /** The scan passes over regions that share no address with the target. */
  lemma {:induction false} ScanSkips(segs: seq<Segment>, links: seq<Link>, i: nat, j: nat, addr: int, stop: int,
                                     out: Option<(seq<Segment>, seq<Link>)>)
    requires i <= j <= |segs| && addr < stop && Links.Ends(segs, links, j, addr, stop, out)
    requires forall k :: i <= k < j ==> Misses(segs[k], addr, stop)
    ensures Links.Ends(segs, links, i, addr, stop, out)
    decreases j - i
  {
    if i < j {
      ScanSkips(segs, links, i + 1, j, addr, stop, out);
      StepMisses(segs, links, i, addr, stop, out);
    }
  }

  /** Only p meets the target, which does not cover it; trimmed or split, it leaves after and rest. */
  ghost predicate Trims(child: seq<Segment>, links: seq<Link>, p: nat, s: Segment, addr: int, stop: int,
                        t: seq<Segment>, after: seq<Segment>, rest: seq<Link>)
  {
    && p < |child| == |links| && addr < stop && OnlyMeets(child, addr, stop, p) && child[p] == s
    && !s.Inside(addr, stop) && t == FixedCreate.Trim(s, addr, stop)
    && FixedCreate.Splice(child, p, t) == after && Cut(links, p, |t|) == rest
  }

  lemma ScanTrims(child: seq<Segment>, links: seq<Link>, p: nat, s: Segment, addr: int, stop: int, t: seq<Segment>,
                  after: seq<Segment>, rest: seq<Link>)
    requires Trims(child, links, p, s, addr, stop, t, after, rest)
    ensures Links.Ends(child, links, 0, addr, stop, Some((after, rest)))
  {
    var out := Some((after, rest));
    RestMisses(child, p, addr, stop, t, after);
    Links.EndsHere(after, rest, addr, stop, out);
    ScanSkips(after, rest, p + |t|, |after|, addr, stop, out);
    StepIs(child, p, addr, stop, t, after);
    StepTurns(child, links, p, after, rest, p + |t|, addr, stop);
    ScanSkips(child, links, 0, p, addr, stop, out);
  }

  /** If the region is covered, its deletion changes nothing and the loop skips the region after it, unless the walk
      does not come home or there is no region after it. */
  lemma ScanLeaves(child: seq<Segment>, links: seq<Link>, p: nat, addr: int, stop: int, low: int, high: int)
    requires p < |child| == |links| && addr < stop && OnlyMeets(child, addr, stop, p)
    requires child[p].Inside(addr, stop) && child[p].IsFree() && !links[p].Ring?
    requires low == child[p].va - 1 && high == child[p].End() + 1
    requires KindAt(child, low) != Some(Free) && KindAt(child, high) != Some(Free)
    ensures Links.Ends(child, links, 0, addr, stop,
              if p + 1 < |child| && links[p].Home? then Some((child, links)) else None)
  {
    var out := if p + 1 < |child| && links[p].Home? then Some((child, links)) else None;
    if p + 1 < |child| && links[p].Home? {
      Links.EndsHere(child, links, addr, stop, out);
      ScanSkips(child, links, p + 2, |child|, addr, stop, out);
      LeavesTurn(child, links, p, addr, stop);
    } else {
      LostEnds(child, links, p, addr, stop, out);
    }
    ScanSkips(child, links, 0, p, addr, stop, out);
  }

  lemma LeavesTurn(child: seq<Segment>, links: seq<Link>, p: nat, addr: int, stop: int)
    requires p + 1 < |child| == |links| && child[p].Inside(addr, stop) && child[p].IsFree() && links[p].Home?
    requires KindAt(child, child[p].va - 1) != Some(Free) && KindAt(child, child[p].End() + 1) != Some(Free)
    ensures Turns(child, links, p, child, links, p + 2, addr, stop)
  {
    DeleteNothing(child, p, p + 2);
    LinksUnmoved(child, links, p);
    StepTurns(child, links, p, child, links, p + 2, addr, stop);
  }

  lemma LinksUnmoved(segs: seq<Segment>, links: seq<Link>, p: nat)
    requires p < |segs| == |links| && links[p].Home?
    requires KindAt(segs, segs[p].va - 1) != Some(Free) && KindAt(segs, segs[p].End() + 1) != Some(Free)
    ensures Links.Delete(segs, links, p) == links
  {
    assert Coalesce.MergeLeft(segs, p) == (segs, p) == Coalesce.MergeRight(segs, p);
  }

  /** The create for region n over the copies and the pieces, from fs to gs; it does not end if walked is false. */
  ghost predicate Creates(parent: seq<Segment>, n: nat, copies: seq<Segment>, fs: seq<Segment>, gs: seq<Segment>,
                          walked: bool)
    requires n < |parent|
  {
    Links.Ends(copies + fs, Marks(|copies|, |fs|), 0, parent[n].va, parent[n].End(),
      if walked then Some((copies + gs, Marks(|copies|, |gs|))) else None)
  }

  /** gs are the pieces once piece p has been trimmed or split; see FixedCreate.Ends. */
  ghost predicate Splits(fs: seq<Segment>, p: nat, addr: int, stop: int, gs: seq<Segment>) {
    p < |fs| && forall j: nat {:trigger FixedCreate.Asked(j)} ::
      FixedCreate.Asked(j) && j == p ==> gs == FixedCreate.Splice(fs, p, FixedCreate.Trim(fs[p], addr, stop))
  }

  lemma PieceTrims(parent: seq<Segment>, n: nat, copies: seq<Segment>, fs: seq<Segment>, p: nat)
    returns (gs: seq<Segment>, child: seq<Segment>, links: seq<Link>, after: seq<Segment>, rest: seq<Link>)
    requires Below(parent, n) && Pieces(parent, n, fs) && copies == Copies(parent, n)
    requires p < |fs| && fs[p].va <= parent[n].va && PartEnd(parent[n]) <= fs[p].End()
    requires !fs[p].Inside(parent[n].va, parent[n].End())
    ensures Splits(fs, p, parent[n].va, parent[n].End(), gs)
    ensures child == copies + fs && links == Marks(|copies|, |fs|)
    ensures after == copies + gs && rest == Marks(|copies|, |gs|)
    ensures Links.Ends(child, links, 0, parent[n].va, parent[n].End(), Some((after, rest)))
  {
    OnlyPiece(parent, n, copies, fs, p);
    gs, child, links, after, rest := OnlyTrims(copies, fs, p, parent[n].va, parent[n].End());
  }

  lemma OnlyTrims(copies: seq<Segment>, fs: seq<Segment>, p: nat, addr: int, stop: int)
    returns (gs: seq<Segment>, child: seq<Segment>, links: seq<Link>, after: seq<Segment>, rest: seq<Link>)
    requires p < |fs| && addr < stop && OnlyMeets(copies + fs, addr, stop, |copies| + p) && !fs[p].Inside(addr, stop)
    ensures Splits(fs, p, addr, stop, gs)
    ensures child == copies + fs && links == Marks(|copies|, |fs|)
    ensures after == copies + gs && rest == Marks(|copies|, |gs|)
    ensures Links.Ends(child, links, 0, addr, stop, Some((after, rest)))
  {
    var t;
    gs, child, links, t, after, rest := TrimsBehind(copies, fs, p, addr, stop);
    ScanTrims(child, links, |copies| + p, fs[p], addr, stop, t, after, rest);
  }

  lemma TrimsBehind(copies: seq<Segment>, fs: seq<Segment>, p: nat, addr: int, stop: int)
    returns (gs: seq<Segment>, child: seq<Segment>, links: seq<Link>, t: seq<Segment>, after: seq<Segment>,
             rest: seq<Link>)
    requires p < |fs| && addr < stop && OnlyMeets(copies + fs, addr, stop, |copies| + p) && !fs[p].Inside(addr, stop)
    ensures Splits(fs, p, addr, stop, gs)
    ensures child == copies + fs && links == Marks(|copies|, |fs|)
    ensures after == copies + gs && rest == Marks(|copies|, |gs|)
    ensures Trims(child, links, |copies| + p, fs[p], addr, stop, t, after, rest)
  {
    t := FixedCreate.Trim(fs[p], addr, stop);
    gs := FixedCreate.Splice(fs, p, t);
    child, links, after, rest := copies + fs, Marks(|copies|, |fs|), copies + gs, Marks(|copies|, |gs|);
    MarksCut(|copies|, |fs|, p, |t|);
    SpliceShows(copies, fs, p, t, gs, child, after);
  }

  lemma SpliceShows(copies: seq<Segment>, fs: seq<Segment>, p: nat, t: seq<Segment>, gs: seq<Segment>,
                    child: seq<Segment>, after: seq<Segment>)
    requires p < |fs| && 1 <= |t| && gs == FixedCreate.Splice(fs, p, t) && child == copies + fs && after == copies + gs
    ensures |copies| + p < |child| && child[|copies| + p] == fs[p]
    ensures FixedCreate.Splice(child, |copies| + p, t) == after
  {
    SpliceBehind(copies, fs, p, t, gs);
  }

  lemma Shown(parent: seq<Segment>, n: nat, copies: seq<Segment>, fs: seq<Segment>, gs: seq<Segment>,
              child: seq<Segment>, links: seq<Link>, after: seq<Segment>, rest: seq<Link>)
    requires n < |parent| && child == copies + fs && links == Marks(|copies|, |fs|)
    requires after == copies + gs && rest == Marks(|copies|, |gs|)
    requires Links.Ends(child, links, 0, parent[n].va, parent[n].End(), Some((after, rest)))
    ensures Creates(parent, n, copies, fs, gs, true)
  {}

  lemma CreateLeaves(parent: seq<Segment>, n: nat, copies: seq<Segment>, fs: seq<Segment>, p: nat)
    requires Below(parent, n) && Pieces(parent, n, fs) && copies == Copies(parent, n) && !Clean(parent, n)
    requires p < |fs| && fs[p].va == parent[n].va && fs[p].End() == PartEnd(parent[n]) && fs[p].IsFree()
    ensures Creates(parent, n, copies, fs, fs, p == 0 && 1 < |fs|)
  {
    OnlyPiece(parent, n, copies, fs, p);
    UncleanWalls(parent, n, copies, fs);
    LeavesBehind(copies, fs, p, parent[n].va, parent[n].End(), parent[n].va - 1, PartEnd(parent[n]) + 1);
  }

  lemma LeavesBehind(copies: seq<Segment>, fs: seq<Segment>, p: nat, addr: int, stop: int, low: int, high: int)
    requires p < |fs| && addr < stop && OnlyMeets(copies + fs, addr, stop, |copies| + p)
    requires fs[p].Inside(addr, stop) && fs[p].IsFree() && low == fs[p].va - 1 && high == fs[p].End() + 1
    requires KindAt(copies + fs, low) != Some(Free) && KindAt(copies + fs, high) != Some(Free)
    ensures Links.Ends(copies + fs, Marks(|copies|, |fs|), 0, addr, stop,
              if p == 0 && 1 < |fs| then Some((copies + fs, Marks(|copies|, |fs|))) else None)
  {
    ScanLeaves(copies + fs, Marks(|copies|, |fs|), |copies| + p, addr, stop, low, high);
  }

  lemma CreateMisses(parent: seq<Segment>, n: nat, copies: seq<Segment>, fs: seq<Segment>)
    requires Forkable(parent) && n < |parent| && Pieces(parent, n, fs) && copies == Copies(parent, n)
    requires Copied(parent[n].info.kind) && STACK_START <= parent[n].va
    ensures Creates(parent, n, copies, fs, fs, true)
  {
    var s, child, links := parent[n], copies + fs, Marks(|copies|, |fs|);
    forall k | 0 <= k < |child| ensures Misses(child[k], s.va, s.End()) {
      if k < |copies| {
        CopiesApart(parent, n, n, k);
      } else {
        assert FreePiece(fs[k - |copies|]);
      }
    }
    Links.EndsHere(child, links, s.va, s.End(), Some((child, links)));
    ScanSkips(child, links, 0, |child|, s.va, s.End(), Some((child, links)));
  }

  /** What fork has to work with when it reaches region n. */
  ghost predicate Ready(parent: seq<Segment>, n: nat, fs: seq<Segment>)
    requires n <= |parent|
  {
    && Pieces(parent, n, fs) && OnlyFirstShut(parent, n, fs)
    && (AllOpen(parent, n, fs) <==> CleanUpTo(parent, n))
  }

  lemma NextClean(parent: seq<Segment>, n: nat, copies: seq<Segment>, fs: seq<Segment>, p: nat)
    returns (gs: seq<Segment>)
    requires Below(parent, n) && Ready(parent, n, fs) && copies == Copies(parent, n) && Clean(parent, n)
    requires p < |fs| && fs[p].va <= parent[n].va && PartEnd(parent[n]) <= fs[p].End() && Open(parent, n, fs[p])
    requires !fs[p].Inside(parent[n].va, parent[n].End())
    ensures Ready(parent, n + 1, gs) && Creates(parent, n, copies, fs, gs, true)
  {
    var child, links, after, rest;
    gs, child, links, after, rest := PieceTrims(parent, n, copies, fs, p);
    TrimmedReady(parent, n, fs, p, gs);
    Shown(parent, n, copies, fs, gs, child, links, after, rest);
  }

  lemma TrimmedReady(parent: seq<Segment>, n: nat, fs: seq<Segment>, p: nat, gs: seq<Segment>)
    requires Below(parent, n) && Ready(parent, n, fs) && Clean(parent, n)
    requires p < |fs| && fs[p].va <= parent[n].va && PartEnd(parent[n]) <= fs[p].End() && Open(parent, n, fs[p])
    requires !fs[p].Inside(parent[n].va, parent[n].End()) && Splits(fs, p, parent[n].va, parent[n].End(), gs)
    ensures Ready(parent, n + 1, gs)
  {
    assert FixedCreate.Asked(p);
    Further(parent, n);
    TrimmedPieces(parent, n, fs, p);
    TrimmedAllOpen(parent, n, fs, p);
    TrimmedOnlyFirst(parent, n, fs, p, gs);
  }

  lemma TrimmedOnlyFirst(parent: seq<Segment>, n: nat, fs: seq<Segment>, p: nat, gs: seq<Segment>)
    requires Below(parent, n) && Pieces(parent, n, fs) && OnlyFirstShut(parent, n, fs)
    requires p < |fs| && fs[p].va <= parent[n].va && PartEnd(parent[n]) <= fs[p].End() && Open(parent, n, fs[p])
    requires !fs[p].Inside(parent[n].va, parent[n].End())
    requires gs == FixedCreate.Splice(fs, p, FixedCreate.Trim(fs[p], parent[n].va, parent[n].End()))
    ensures OnlyFirstShut(parent, n + 1, gs)
  {
    forall k | 1 <= k < |gs| ensures Open(parent, n + 1, gs[k]) {
      TrimmedOpenAt(parent, n, fs, p, k);
    }
  }

  lemma NextOriginal(parent: seq<Segment>, n: nat, fs: seq<Segment>)
    requires Below(parent, n) && Ready(parent, n, fs) && !Clean(parent, n)
    requires 1 < |fs| && fs[0].va == parent[n].va && fs[0].End() == PartEnd(parent[n])
    ensures Ready(parent, n + 1, fs)
  {
    Further(parent, n);
    ShutPieces(parent, n, fs, 0);
    assert FreePiece(fs[0]) && fs[0].Has(fs[0].va);
    forall k | 1 <= k < |fs| ensures Open(parent, n + 1, fs[k]) {
      OthersMiss(parent, n, fs, 0, k);
      assert FreePiece(fs[k]);
      OtherKept(parent, n, fs[k]);
    }
  }

  lemma NextSame(parent: seq<Segment>, n: nat, fs: seq<Segment>)
    requires Forkable(parent) && n < |parent| && Ready(parent, n, fs)
    requires !Copied(parent[n].info.kind) || STACK_START <= parent[n].va
    ensures Ready(parent, n + 1, fs) && Clean(parent, n)
  {
    Further(parent, n);
    SamePieces(parent, n, fs);
    forall a ensures StillFree(parent, n, a) <==> StillFree(parent, n + 1, a) {}
  }

  /** The create for one region fork copies. */
  lemma NextCopied(parent: seq<Segment>, n: nat, copies: seq<Segment>, fs: seq<Segment>) returns (gs: seq<Segment>)
    requires Forkable(parent) && n < |parent| && Ready(parent, n, fs) && copies == Copies(parent, n)
    requires Copied(parent[n].info.kind)
    ensures Finishes(parent, n) ==> Ready(parent, n + 1, gs)
    ensures Creates(parent, n, copies, fs, gs, Finishes(parent, n))
  {
    gs := fs;
    if STACK_START <= parent[n].va {
      NextSame(parent, n, fs);
      CreateMisses(parent, n, copies, fs);
    } else {
      var p := PartInOne(parent, n, fs);
      CleanIffBigger(parent, n, fs, p);
      if Clean(parent, n) {
        gs := NextClean(parent, n, copies, fs, p);
      } else {
        NextUnclean(parent, n, copies, fs, p);
      }
    }
  }

  lemma NextUnclean(parent: seq<Segment>, n: nat, copies: seq<Segment>, fs: seq<Segment>, p: nat)
    requires Below(parent, n) && Ready(parent, n, fs) && copies == Copies(parent, n) && !Clean(parent, n)
    requires p < |fs| && fs[p].va <= parent[n].va && PartEnd(parent[n]) <= fs[p].End() && Open(parent, n, fs[p])
    requires fs[p].Inside(parent[n].va, parent[n].End())
    ensures Finishes(parent, n) ==> Ready(parent, n + 1, fs)
    ensures Creates(parent, n, copies, fs, fs, Finishes(parent, n))
  {
    assert FreePiece(fs[p]);
    OnOriginalIffFirst(parent, n, fs, p);
    AboveIffNotLast(parent, n, fs, p);
    CreateLeaves(parent, n, copies, fs, p);
    if Finishes(parent, n) {
      NextOriginal(parent, n, fs);
    }
  }

  lemma LeadsCopied(parent: seq<Segment>, n: nat, child: seq<Segment>, links: seq<Link>,
                    out: Option<(seq<Segment>, seq<Link>)>)
    requires n < |parent| && |child| == |links| && Leads(parent, n, Some((child, links)))
    requires Copied(parent[n].info.kind) && Links.Ends(child, links, 0, parent[n].va, parent[n].End(), out)
    ensures Leads(parent, n + 1,
              if out.Some? then Some(([parent[n]] + out.value.0, [Home] + out.value.1)) else None)
  {
    assert FixedCreate.Asked(n) && FixedCreate.Asked(0);
  }

  lemma LeadsSkips(parent: seq<Segment>, n: nat, r: Option<(seq<Segment>, seq<Link>)>)
    requires n < |parent| && Leads(parent, n, r) && (Copied(parent[n].info.kind) ==> r.None?)
    ensures Leads(parent, n + 1, r)
  {
    assert FixedCreate.Asked(n);
  }

  /** The child after n regions, with fs for its pieces. */
  ghost predicate Stands(parent: seq<Segment>, n: nat, copies: seq<Segment>, fs: seq<Segment>, walked: bool) {
    Leads(parent, n, if walked then Some((copies + fs, Marks(|copies|, |fs|))) else None)
  }

  lemma NextRegion(parent: seq<Segment>, n: nat, copies: seq<Segment>, fs: seq<Segment>, more: seq<Segment>)
    returns (gs: seq<Segment>)
    requires Forkable(parent) && n < |parent| && Ready(parent, n, fs) && copies == Copies(parent, n)
    requires Stands(parent, n, copies, fs, true) && more == Copies(parent, n + 1)
    ensures Finishes(parent, n) ==> Ready(parent, n + 1, gs)
    ensures Stands(parent, n + 1, more, gs, Finishes(parent, n))
  {
    if !Copied(parent[n].info.kind) {
      gs := fs;
      NextSame(parent, n, fs);
      LeadsSkips(parent, n, Some((copies + fs, Marks(|copies|, |fs|))));
    } else {
      gs := NextCopied(parent, n, copies, fs);
      LeadsCopied(parent, n, copies + fs, Marks(|copies|, |fs|),
        if Finishes(parent, n) then Some((copies + gs, Marks(|copies|, |gs|))) else None);
      CopyPushed(parent[n], copies, gs, more);
    }
  }

  lemma CopyPushed(s: Segment, copies: seq<Segment>, gs: seq<Segment>, more: seq<Segment>)
    requires more == [s] + copies
    ensures [s] + (copies + gs) == more + gs
    ensures 0 < |gs| ==> [Home] + Marks(|copies|, |gs|) == Marks(|more|, |gs|)
  {
    if 0 < |gs| {
      MarksPush(|copies|, |gs|);
    }
  }

  lemma {:induction false} AllStand(parent: seq<Segment>, n: nat, copies: seq<Segment>) returns (fs: seq<Segment>)
    requires Forkable(parent) && n <= |parent| && copies == Copies(parent, n)
    ensures Stands(parent, n, copies, fs, AllFinish(parent, n))
    ensures AllFinish(parent, n) ==> Ready(parent, n, fs)
  {
    if n == 0 {
      fs := [INITIAL_FREE];
      InitialStands(parent, copies);
    } else {
      var fewer := Copies(parent, n - 1);
      fs := AllStand(parent, n - 1, fewer);
      fs := NextStands(parent, n - 1, fewer, fs, copies);
    }
  }

  lemma NextStands(parent: seq<Segment>, n: nat, copies: seq<Segment>, fs: seq<Segment>, more: seq<Segment>)
    returns (gs: seq<Segment>)
    requires Forkable(parent) && n < |parent| && copies == Copies(parent, n) && more == Copies(parent, n + 1)
    requires Stands(parent, n, copies, fs, AllFinish(parent, n)) && (AllFinish(parent, n) ==> Ready(parent, n, fs))
    ensures Stands(parent, n + 1, more, gs, AllFinish(parent, n + 1))
    ensures AllFinish(parent, n + 1) ==> Ready(parent, n + 1, gs)
  {
    OneMore(parent, n);
    gs := fs;
    if AllFinish(parent, n) {
      gs := NextRegion(parent, n, copies, fs, more);
    } else {
      LeadsSkips(parent, n, None);
    }
  }

  lemma OneMore(parent: seq<Segment>, n: nat)
    requires n < |parent|
    ensures AllFinish(parent, n + 1) <==> AllFinish(parent, n) && Finishes(parent, n)
  {}

  lemma InitialStands(parent: seq<Segment>, copies: seq<Segment>)
    requires copies == Copies(parent, 0)
    ensures Stands(parent, 0, copies, [INITIAL_FREE], AllFinish(parent, 0)) && Ready(parent, 0, [INITIAL_FREE])
  {
    InitialPieces(parent);
    assert copies + [INITIAL_FREE] == [INITIAL_FREE];
    assert Marks(0, 1) == [Home];
  }

  /** fork completes, whatever the unset pointers hold, exactly if every region whose create meets a complete overlap is
      the first one that does, has nothing FREE below it, and something above. The child then says of every address in
      use what the parent says. */
  lemma ForkCompletes(parent: seq<Segment>)
    requires Forkable(parent)
    ensures var r := Walked(parent, |parent|);
      && (r.Some? <==> AllFinish(parent, |parent|))
      && (r.Some? ==> forall a :: KindAt(parent, a) != Some(Free) ==> InfoAt(r.value.0, a) == InfoAt(parent, a))
  {
    var fs := AllStand(parent, |parent|, Copies(parent, |parent|));
    assert FixedCreate.Asked(|parent|);
    WalkedRefines(parent, |parent|);
    ForkReproduces(parent);
  }

  /** Four pages of CORE, listed so that the last one to be copied fits the gap that a split has left, then one FREE
      page, the rest and the stack. */
  function CorePage(k: nat): Segment { Segment(USER_START + 4096 * k, 1, Info(Core, 0, 0)) }

  const GAP := Segment(USER_START + 4096, 1, FREE_INFO)
  const REST := Segment(USER_START + 4096 * 5, 0x7_0000 - 5, FREE_INFO)
  const GAPPED := [CorePage(0), CorePage(4), CorePage(2), CorePage(3), GAP, REST, INITIAL_STACK]

  lemma GappedForkable()
    ensures Forkable(GAPPED) && Coalesced(GAPPED)
  {
    forall a | USER_START <= a < USER_END ensures Find(GAPPED, a) < 7 {
      assert GAPPED[0].Has(a) || GAPPED[1].Has(a) || GAPPED[2].Has(a) || GAPPED[3].Has(a) || GAPPED[4].Has(a)
        || GAPPED[5].Has(a) || GAPPED[6].Has(a);
    }
  }

  lemma GappedStrays()
    ensures AllPassable(GAPPED, 7) && !AllFinish(GAPPED, 7)
  {
    assert StillFree(GAPPED, 0, GAPPED[0].End()) && StillFree(GAPPED, 1, GAPPED[1].End());
    assert StillFree(GAPPED, 2, GAPPED[2].va - 1) && StillFree(GAPPED, 3, REST.va);
    assert GAPPED[2].Has(GAPPED[3].va - 1) && GAPPED[1].Has(GAPPED[3].End());
    assert StillFree(GAPPED, 3, GAP.va) && GAP.va < GAPPED[3].va;
    assert !Clean(GAPPED, 3) && !OnOriginal(GAPPED, 3);
    assert !Finishes(GAPPED, 3);
  }

  /** Copying it stays on the child's list, but the create for page 3 deletes the upper part of the split made for
      page 2, and the walk from its unset pointer does not come home. */
  lemma GapStrays()
    ensures Forkable(GAPPED) && Child(GAPPED, 7).Some? && Walked(GAPPED, 7).None?
  {
    GappedForkable();
    GappedStrays();
    ForkReproduces(GAPPED);
    ForkCompletes(GAPPED);
  }
}
