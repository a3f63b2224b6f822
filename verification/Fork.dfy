/** The region part of fork: a fresh space without its default stack, into which the parent's regions are
    re-created in list order. */
module Fork {
  import opened Common
  import opened Segments
  import FixedCreate
  import Coalesce

  /** The types fork re-creates at the same address; IPC regions are cloned and the rest skipped. */
  predicate Copied(kind: RegionType) {
    kind.Anon? || kind.Core? || kind.Library? || kind.Stack?
  }

  ghost predicate IsUser(s: Segment) {
    s.info.kind == Anon || s.info.kind == Core || s.info.kind == Library || s.info.kind == Stack
  }

  /** Of such a parent fork copies whatever is not FREE. */
  lemma AllButFreeCopied(parent: seq<Segment>, n: nat)
    requires Forkable(parent) && n < |parent|
    ensures Copied(parent[n].info.kind) <==> !parent[n].IsFree()
  {}

  /** The child's list after the first n regions of the parent; None if a create steps past the end of the list. */
  function Child(parent: seq<Segment>, n: nat): Option<seq<Segment>>
    requires n <= |parent|
  {
    if n == 0 then Some([INITIAL_FREE])
    else match Child(parent, n - 1)
      case None => None
      case Some(child) =>
        var s := parent[n - 1];
        if Copied(s.info.kind) then FixedCreate.Create(child, s.va, s.length, s.info) else Some(child)
  }

  /** A parent tiling without IPC, KERNEL or empty live regions: each is FREE, or it holds anonymous memory, a core, a
      library or a stack, and is not empty. */
  ghost predicate Forkable(parent: seq<Segment>) {
    Tiles(parent) && forall i :: 0 <= i < |parent| ==> parent[i].IsFree() || (IsUser(parent[i]) && 0 < parent[i].length)
  }

  /** Address a lies below the default stack area and in none of the first n regions that fork copies. */
  ghost predicate StillFree(parent: seq<Segment>, n: nat, a: int)
    requires n <= |parent|
  {
    && USER_START <= a < STACK_START
    && forall j :: 0 <= j < n && Copied(parent[j].info.kind) ==> !parent[j].Has(a)
  }

  /** When fork reaches region n it meets no complete overlap: the region starts in the default stack area,
      or an address bordering it is still FREE in the child. */
  ghost predicate Clean(parent: seq<Segment>, n: nat)
    requires n < |parent|
  {
    var s := parent[n];
    Copied(s.info.kind) ==>
      STACK_START <= s.va || StillFree(parent, n, s.va - 1) || StillFree(parent, n, s.End())
  }

  ghost predicate CleanUpTo(parent: seq<Segment>, n: nat)
    requires n <= |parent|
  {
    forall i :: 0 <= i < n ==> Clean(parent, i)
  }

  /** The create for region n does not run off the list: it meets no complete overlap, or some address above the
      region is still FREE. */
  ghost predicate Passable(parent: seq<Segment>, n: nat)
    requires n < |parent|
  {
    Clean(parent, n) || exists a :: parent[n].End() <= a && StillFree(parent, n, a)
  }

  /** The regions fork has re-created, newest first. */
  function Copies(parent: seq<Segment>, n: nat): seq<Segment>
    requires n <= |parent|
  {
    if n == 0 then []
    else if Copied(parent[n - 1].info.kind) then [parent[n - 1]] + Copies(parent, n - 1)
    else Copies(parent, n - 1)
  }

  /** A FREE region below the default stack area. */
  predicate FreePiece(p: Segment) {
    p.info == FREE_INFO && 0 < p.length && p.WellFormed() && p.End() <= STACK_START
  }

  ghost predicate Open(parent: seq<Segment>, n: nat, p: Segment)
    requires n <= |parent|
  {
    forall a {:trigger p.Has(a)} :: p.Has(a) ==> StillFree(parent, n, a)
  }

  /** Every address of p has been copied: the complete overlap left p listed under the new region. */
  ghost predicate Shut(parent: seq<Segment>, n: nat, p: Segment)
    requires n <= |parent|
  {
    forall a {:trigger p.Has(a)} :: p.Has(a) ==> !StillFree(parent, n, a)
  }

  /** FREE pieces in ascending order that do not touch. */
  ghost predicate Ascending(fs: seq<Segment>) {
    && (forall k :: 0 <= k < |fs| ==> FreePiece(fs[k]))
    && (forall j, k :: 0 <= j < k < |fs| ==> fs[j].End() < fs[k].va)
  }

  /** Each piece is still free or copied as a whole, the last still free. */
  ghost predicate Whole(parent: seq<Segment>, n: nat, fs: seq<Segment>)
    requires n <= |parent|
  {
    && (forall k :: 0 <= k < |fs| ==> Open(parent, n, fs[k]) || Shut(parent, n, fs[k]))
    && 0 < |fs| && Open(parent, n, fs[|fs| - 1])
  }

  /** The pieces hold every address that is still free. */
  ghost predicate HoldFree(parent: seq<Segment>, n: nat, fs: seq<Segment>)
    requires n <= |parent|
  {
    forall a :: StillFree(parent, n, a) ==> Find(fs, a) < |fs|
  }

  ghost predicate AllOpen(parent: seq<Segment>, n: nat, fs: seq<Segment>)
    requires n <= |parent|
  {
    forall k :: 0 <= k < |fs| ==> Open(parent, n, fs[k])
  }

  ghost predicate Pieces(parent: seq<Segment>, n: nat, fs: seq<Segment>)
    requires n <= |parent|
  {
    Ascending(fs) && Whole(parent, n, fs) && HoldFree(parent, n, fs)
  }

  /** No region stops fork. */
  ghost predicate AllPassable(parent: seq<Segment>, n: nat)
    requires n <= |parent|
  {
    forall i :: 0 <= i < n ==> Passable(parent, i)
  }

  /** What lookup must say in the child after n regions. */
  ghost predicate Mirrors(parent: seq<Segment>, n: nat, child: seq<Segment>, a: int)
    requires n <= |parent|
  {
    var k := Find(parent, a);
    if k < n && Copied(parent[k].info.kind) then InfoAt(child, a) == Some(parent[k].info)
    else if USER_START <= a < STACK_START then InfoAt(child, a) == Some(FREE_INFO)
    else InfoAt(child, a) == None
  }

  lemma StillFreeIff(parent: seq<Segment>, n: nat, a: int)
    requires Forkable(parent) && n <= |parent|
    ensures StillFree(parent, n, a) <==>
      (USER_START <= a < STACK_START && !(Find(parent, a) < n && Copied(parent[Find(parent, a)].info.kind)))
  {}

  /** Lookup meets the copies first. */
  lemma {:induction false} CopiesTell(parent: seq<Segment>, n: nat, fs: seq<Segment>, a: int)
    requires Forkable(parent) && n <= |parent|
    ensures var k := Find(parent, a);
      InfoAt(Copies(parent, n) + fs, a) ==
        if k < n && Copied(parent[k].info.kind) then Some(parent[k].info) else InfoAt(fs, a)
  {
    if n == 0 {
      assert Copies(parent, 0) + fs == fs;
    } else {
      CopiesTell(parent, n - 1, fs, a);
      if Copied(parent[n - 1].info.kind) {
        PushTells(parent[n - 1], Copies(parent, n - 1), fs, a);
        if parent[n - 1].Has(a) {
          FindUnique(parent, n - 1, a);
        }
      }
    }
  }

  lemma PushTells(s: Segment, copies: seq<Segment>, fs: seq<Segment>, a: int)
    ensures InfoAt([s] + copies + fs, a) == if s.Has(a) then Some(s.info) else InfoAt(copies + fs, a)
  {
    FixedCreate.PushAt(copies + fs, s);
    assert [s] + copies + fs == [s] + (copies + fs);
  }

  lemma PiecesTell(parent: seq<Segment>, n: nat, fs: seq<Segment>, a: int)
    requires Forkable(parent) && n <= |parent| && Pieces(parent, n, fs)
    ensures Mirrors(parent, n, Copies(parent, n) + fs, a)
  {
    CopiesTell(parent, n, fs, a);
    StillFreeIff(parent, n, a);
    var k := Find(fs, a);
    if k < |fs| {
      assert FreePiece(fs[k]);
    }
  }

  /** The copies are apart from the regions still to come, and from one another. */
  lemma {:induction false} CopiesApart(parent: seq<Segment>, n: nat, m: nat, i: nat)
    requires Forkable(parent) && n <= m < |parent| && i < |Copies(parent, n)|
    ensures 0 < Copies(parent, n)[i].length && !Copies(parent, n)[i].IsFree()
    ensures Copies(parent, n)[i].Apart(parent[m])
  {
    if Copied(parent[n - 1].info.kind) {
      if i == 0 {
        assert parent[n - 1].Apart(parent[m]);
      } else {
        CopiesApart(parent, n - 1, m, i - 1);
      }
    } else {
      CopiesApart(parent, n - 1, m, i);
    }
  }

  /** Where the addresses of region n below the default stack area end. */
  function PartEnd(s: Segment): int { if s.End() < STACK_START then s.End() else STACK_START }

  /** The next region to copy, and it is not in the default stack area. */
  ghost predicate Below(parent: seq<Segment>, n: nat) {
    && Forkable(parent) && n < |parent|
    && Copied(parent[n].info.kind) && parent[n].va < STACK_START
  }

  lemma PartStillFree(parent: seq<Segment>, n: nat, a: int)
    requires Forkable(parent) && n < |parent| && parent[n].Has(a) && a < STACK_START
    ensures StillFree(parent, n, a)
  {
    FindUnique(parent, n, a);
  }

  /** The addresses next to a piece lie in none. */
  lemma Bordered(fs: seq<Segment>, p: nat)
    requires Ascending(fs) && p < |fs|
    ensures Find(fs, fs[p].va - 1) == |fs| && Find(fs, fs[p].End()) == |fs|
  {
    forall k | 0 <= k < |fs| ensures !fs[k].Has(fs[p].va - 1) && !fs[k].Has(fs[p].End()) {
      assert k < p ==> fs[k].End() < fs[p].va;
      assert p < k ==> fs[p].End() < fs[k].va;
    }
    FindNone(fs, fs[p].va - 1);
    FindNone(fs, fs[p].End());
  }

  /** It lies in one piece. */
  lemma PartInOne(parent: seq<Segment>, n: nat, fs: seq<Segment>) returns (p: nat)
    requires Below(parent, n) && Pieces(parent, n, fs)
    ensures p < |fs| && fs[p].va <= parent[n].va && PartEnd(parent[n]) <= fs[p].End() && Open(parent, n, fs[p])
  {
    var s := parent[n];
    PartStillFree(parent, n, s.va);
    p := Find(fs, s.va);
    Bordered(fs, p);
    if fs[p].End() < PartEnd(s) {
      PartStillFree(parent, n, fs[p].End());
    }
  }

  /** So no other piece shares an address with it. */
  lemma OthersMiss(parent: seq<Segment>, n: nat, fs: seq<Segment>, p: nat, k: nat)
    requires Below(parent, n) && Pieces(parent, n, fs)
    requires p < |fs| && fs[p].va <= parent[n].va && PartEnd(parent[n]) <= fs[p].End()
    requires k < |fs| && k != p
    ensures !fs[k].Meets(parent[n].va, parent[n].End())
  {
    assert k < p ==> fs[k].End() < fs[p].va;
    assert p < k ==> fs[p].End() < fs[k].va;
  }

  lemma NoneAbove(fs: seq<Segment>, a: int)
    requires Ascending(fs) && 0 < |fs| && fs[|fs| - 1].End() <= a
    ensures Find(fs, a) == |fs|
  {
    forall k | 0 <= k < |fs| ensures !fs[k].Has(a) {
      assert k < |fs| - 1 ==> fs[k].End() < fs[|fs| - 1].va;
    }
    FindNone(fs, a);
  }

  /** The create meets a complete overlap with that piece exactly if they are the same interval. */
  lemma CleanIffBigger(parent: seq<Segment>, n: nat, fs: seq<Segment>, p: nat)
    requires Below(parent, n) && Pieces(parent, n, fs)
    requires p < |fs| && fs[p].va <= parent[n].va && PartEnd(parent[n]) <= fs[p].End() && Open(parent, n, fs[p])
    ensures Clean(parent, n) <==> !fs[p].Inside(parent[n].va, parent[n].End())
  {
    var s := parent[n];
    if fs[p].va < s.va {
      assert fs[p].Has(s.va - 1);
    } else if s.End() < fs[p].End() {
      assert fs[p].Has(s.End());
    } else {
      Bordered(fs, p);
    }
  }

  /** Above it something is still free exactly if the piece is not the last. */
  lemma AboveIffNotLast(parent: seq<Segment>, n: nat, fs: seq<Segment>, p: nat)
    requires Below(parent, n) && Pieces(parent, n, fs)
    requires p < |fs| && fs[p].va <= parent[n].va && PartEnd(parent[n]) <= fs[p].End()
    requires fs[p].Inside(parent[n].va, parent[n].End())
    ensures p + 1 < |fs| <==> exists a :: parent[n].End() <= a && StillFree(parent, n, a)
  {
    var s, l := parent[n], fs[|fs| - 1];
    if p + 1 < |fs| {
      assert fs[p].End() < l.va && FreePiece(l);
      assert l.Has(l.va) && s.End() <= l.va;
    } else {
      forall a | s.End() <= a ensures !StillFree(parent, n, a) {
        NoneAbove(fs, a);
      }
    }
  }

  predicate Misses(s: Segment, addr: int, stop: int) { 0 < s.length && !s.Meets(addr, stop) }

  /** fork has made r of the first n regions. */
  ghost predicate Makes(parent: seq<Segment>, n: nat, r: Option<seq<Segment>>) {
    n <= |parent| && forall m: nat {:trigger FixedCreate.Asked(m)} ::
      FixedCreate.Asked(m) && m == n ==> Child(parent, n) == r
  }

  lemma TrimMisses(s: Segment, addr: int, stop: int)
    requires Misses(s, addr, stop) && addr < stop
    ensures !s.Inside(addr, stop) && FixedCreate.Trim(s, addr, stop) == [s]
  {}

  lemma StepMisses(segs: seq<Segment>, i: nat, addr: int, stop: int, out: Option<seq<Segment>>)
    requires i < |segs| && Misses(segs[i], addr, stop) && addr < stop && FixedCreate.Ends(segs, i + 1, addr, stop, out)
    ensures FixedCreate.Ends(segs, i, addr, stop, out)
  {
    TrimMisses(segs[i], addr, stop);
    assert FixedCreate.Splice(segs, i, [segs[i]]) == segs;
    assert FixedCreate.Step(segs, i, addr, stop) == (segs, i + 1);
    assert FixedCreate.Asked(i + 1);
  }

  /** The scan passes over regions that share no address with the target. */
  lemma {:induction false} ScanSkips(segs: seq<Segment>, i: nat, j: nat, addr: int, stop: int,
                                     out: Option<seq<Segment>>)
    requires i <= j <= |segs| && addr < stop && FixedCreate.Ends(segs, j, addr, stop, out)
    requires forall k :: i <= k < j ==> Misses(segs[k], addr, stop)
    ensures FixedCreate.Ends(segs, i, addr, stop, out)
    decreases j - i
  {
    if i < j {
      ScanSkips(segs, i + 1, j, addr, stop, out);
      StepMisses(segs, i, addr, stop, out);
    }
  }

  lemma EndsHere(segs: seq<Segment>, addr: int, stop: int)
    ensures FixedCreate.Ends(segs, |segs|, addr, stop, Some(segs))
  {}

  /** Everything but the region at p is passed over. */
  ghost predicate OnlyMeets(child: seq<Segment>, addr: int, stop: int, p: nat) {
    forall k :: 0 <= k < |child| && k != p ==> Misses(child[k], addr, stop)
  }

  lemma OnlyPiece(parent: seq<Segment>, n: nat, copies: seq<Segment>, fs: seq<Segment>, p: nat)
    requires Below(parent, n) && Pieces(parent, n, fs) && copies == Copies(parent, n)
    requires p < |fs| && fs[p].va <= parent[n].va && PartEnd(parent[n]) <= fs[p].End()
    ensures OnlyMeets(copies + fs, parent[n].va, parent[n].End(), |copies| + p)
  {
    var child := copies + fs;
    forall k | 0 <= k < |child| && k != |copies| + p
      ensures Misses(child[k], parent[n].va, parent[n].End())
    {
      if k < |copies| {
        CopiesApart(parent, n, n, k);
      } else {
        OthersMiss(parent, n, fs, p, k - |copies|);
        assert FreePiece(fs[k - |copies|]);
      }
    }
  }

  /** The scan of a list in which only p meets the target, and is not covered by it, trims or splits p. */
  lemma ScanTrims(child: seq<Segment>, p: nat, s: Segment, addr: int, stop: int, t: seq<Segment>, after: seq<Segment>)
    requires p < |child| && addr < stop && OnlyMeets(child, addr, stop, p) && child[p] == s && !s.Inside(addr, stop)
    requires t == FixedCreate.Trim(s, addr, stop) && FixedCreate.Splice(child, p, t) == after
    ensures FixedCreate.Ends(child, 0, addr, stop, Some(after))
  {
    RestMisses(child, p, addr, stop, t, after);
    EndsHere(after, addr, stop);
    ScanSkips(after, p + |t|, |after|, addr, stop, Some(after));
    StepTrims(child, p, addr, stop, t, after, Some(after));
    ScanSkips(child, 0, p, addr, stop, Some(after));
  }

  lemma RestMisses(child: seq<Segment>, p: nat, addr: int, stop: int, t: seq<Segment>, after: seq<Segment>)
    requires p < |child| && OnlyMeets(child, addr, stop, p) && 1 <= |t| && FixedCreate.Splice(child, p, t) == after
    ensures forall k :: p + |t| <= k < |after| ==> Misses(after[k], addr, stop)
  {}

  lemma StepTrims(child: seq<Segment>, p: nat, addr: int, stop: int, t: seq<Segment>, after: seq<Segment>,
                  out: Option<seq<Segment>>)
    requires p < |child| && !child[p].Inside(addr, stop) && t == FixedCreate.Trim(child[p], addr, stop)
    requires FixedCreate.Splice(child, p, t) == after && FixedCreate.Ends(after, p + |t|, addr, stop, out)
    ensures FixedCreate.Ends(child, p, addr, stop, out)
  {
    StepIs(child, p, addr, stop, t, after);
    assert FixedCreate.Asked(p + |t|);
  }

  lemma StepIs(child: seq<Segment>, p: nat, addr: int, stop: int, t: seq<Segment>, after: seq<Segment>)
    requires p < |child| && !child[p].Inside(addr, stop) && t == FixedCreate.Trim(child[p], addr, stop)
    requires FixedCreate.Splice(child, p, t) == after
    ensures FixedCreate.Step(child, p, addr, stop) == (after, p + |t|)
  {}

  /** Deleting a FREE region bordered by nothing FREE changes nothing. */
  lemma DeleteNothing(segs: seq<Segment>, p: nat, q: nat)
    requires p < |segs| && q <= |segs| && segs[p].IsFree()
    requires KindAt(segs, segs[p].va - 1) != Some(Free) && KindAt(segs, segs[p].End() + 1) != Some(Free)
    ensures Coalesce.Delete(segs, p) == segs && Coalesce.NextAfterDelete(segs, p, q) == q
  {
    assert Coalesce.MergeLeft(segs, p) == (segs, p) == Coalesce.MergeRight(segs, p);
  }

  lemma StepLeaves(child: seq<Segment>, p: nat, addr: int, stop: int, out: Option<seq<Segment>>)
    requires p < |child| && child[p].Inside(addr, stop) && child[p].IsFree()
    requires KindAt(child, child[p].va - 1) != Some(Free) && KindAt(child, child[p].End() + 1) != Some(Free)
    requires if p + 1 < |child| then FixedCreate.Ends(child, p + 2, addr, stop, out) else out == None
    ensures FixedCreate.Ends(child, p, addr, stop, out)
  {
    if p + 1 < |child| {
      DeleteNothing(child, p, p + 2);
      assert FixedCreate.Asked(p + 2);
    }
  }

  /** If the region is covered, its deletion changes nothing, but the loop skips the region after it. */
  lemma ScanLeaves(child: seq<Segment>, p: nat, addr: int, stop: int, low: int, high: int)
    requires p < |child| && addr < stop && OnlyMeets(child, addr, stop, p)
    requires child[p].Inside(addr, stop) && child[p].IsFree()
    requires low == child[p].va - 1 && high == child[p].End() + 1
    requires KindAt(child, low) != Some(Free) && KindAt(child, high) != Some(Free)
    ensures FixedCreate.Ends(child, 0, addr, stop, if p + 1 < |child| then Some(child) else None)
  {
    var out := if p + 1 < |child| then Some(child) else None;
    if p + 1 < |child| {
      EndsHere(child, addr, stop);
      ScanSkips(child, p + 2, |child|, addr, stop, out);
    }
    StepLeaves(child, p, addr, stop, out);
    ScanSkips(child, 0, p, addr, stop, out);
  }

  /** An address next to a region that is not clean is FREE no more, and so is the rest of its page. */
  lemma UncleanWalls(parent: seq<Segment>, n: nat, copies: seq<Segment>, fs: seq<Segment>)
    requires Below(parent, n) && Pieces(parent, n, fs) && copies == Copies(parent, n) && !Clean(parent, n)
    ensures var child := copies + fs;
      && KindAt(child, parent[n].va - 1) != Some(Free)
      && KindAt(child, PartEnd(parent[n]) + 1) != Some(Free)
  {
    NotFreeAt(parent, n, copies, fs, parent[n].va - 1);
    PartEndTaken(parent, n);
    NotFreeAt(parent, n, copies, fs, PartEnd(parent[n]) + 1);
  }

  lemma PartEndTaken(parent: seq<Segment>, n: nat)
    requires Below(parent, n) && !Clean(parent, n)
    ensures !StillFree(parent, n, PartEnd(parent[n]) + 1)
  {
    assert parent[n].WellFormed();
    EndAligned(parent[n]);
    if StillFree(parent, n, PartEnd(parent[n]) + 1) {
      SamePage(parent, n, PartEnd(parent[n]));
    }
  }

  lemma NotFreeAt(parent: seq<Segment>, n: nat, copies: seq<Segment>, fs: seq<Segment>, a: int)
    requires Forkable(parent) && n <= |parent| && Pieces(parent, n, fs) && copies == Copies(parent, n)
    requires !StillFree(parent, n, a)
    ensures KindAt(copies + fs, a) != Some(Free)
  {
    PiecesTell(parent, n, fs, a);
    StillFreeIff(parent, n, a);
  }

  lemma SamePage(parent: seq<Segment>, n: nat, a: int)
    requires AllWellFormed(parent) && n <= |parent| && a % 4096 == 0 && USER_START <= a && StillFree(parent, n, a + 1)
    ensures StillFree(parent, n, a)
  {
    forall j | 0 <= j < n && Copied(parent[j].info.kind) ensures !parent[j].Has(a) {
      assert parent[j].WellFormed();
      EndAligned(parent[j]);
    }
  }

  /** The pieces after region n has been copied, when its create trims piece p. */
  lemma TrimmedPieces(parent: seq<Segment>, n: nat, fs: seq<Segment>, p: nat)
    requires Below(parent, n) && Pieces(parent, n, fs)
    requires p < |fs| && fs[p].va <= parent[n].va && PartEnd(parent[n]) <= fs[p].End() && Open(parent, n, fs[p])
    requires !fs[p].Inside(parent[n].va, parent[n].End())
    ensures Pieces(parent, n + 1,
              FixedCreate.Splice(fs, p, FixedCreate.Trim(fs[p], parent[n].va, parent[n].End())))
  {
    TrimmedAscending(fs, p, parent[n].va, parent[n].End());
    TrimmedAllWhole(parent, n, fs, p);
    TrimmedHoldFree(parent, n, fs, p);
  }

  lemma TrimmedAllWhole(parent: seq<Segment>, n: nat, fs: seq<Segment>, p: nat)
    requires Below(parent, n) && Pieces(parent, n, fs)
    requires p < |fs| && fs[p].va <= parent[n].va && PartEnd(parent[n]) <= fs[p].End() && Open(parent, n, fs[p])
    requires !fs[p].Inside(parent[n].va, parent[n].End())
    ensures Whole(parent, n + 1,
              FixedCreate.Splice(fs, p, FixedCreate.Trim(fs[p], parent[n].va, parent[n].End())))
  {
    var next := FixedCreate.Splice(fs, p, FixedCreate.Trim(fs[p], parent[n].va, parent[n].End()));
    forall k | 0 <= k < |next|
      ensures Open(parent, n + 1, next[k]) || Shut(parent, n + 1, next[k])
    {
      TrimmedWhole(parent, n, fs, p, k);
    }
    TrimmedWhole(parent, n, fs, p, |next| - 1);
  }

  lemma TrimmedHoldFree(parent: seq<Segment>, n: nat, fs: seq<Segment>, p: nat)
    requires Below(parent, n) && Pieces(parent, n, fs) && p < |fs|
    requires !fs[p].Inside(parent[n].va, parent[n].End())
    ensures HoldFree(parent, n + 1,
              FixedCreate.Splice(fs, p, FixedCreate.Trim(fs[p], parent[n].va, parent[n].End())))
  {
    forall a | StillFree(parent, n + 1, a)
      ensures var next := FixedCreate.Splice(fs, p, FixedCreate.Trim(fs[p], parent[n].va, parent[n].End()));
        Find(next, a) < |next|
    {
      TrimmedHolds(parent, n, fs, p, a);
    }
  }

  lemma TrimmedWhole(parent: seq<Segment>, n: nat, fs: seq<Segment>, p: nat, k: nat)
    requires Below(parent, n) && Pieces(parent, n, fs)
    requires p < |fs| && fs[p].va <= parent[n].va && PartEnd(parent[n]) <= fs[p].End() && Open(parent, n, fs[p])
    requires !fs[p].Inside(parent[n].va, parent[n].End())
    ensures var next := FixedCreate.Splice(fs, p, FixedCreate.Trim(fs[p], parent[n].va, parent[n].End()));
      k < |next| ==>
        && (Open(parent, n + 1, next[k]) || Shut(parent, n + 1, next[k]))
        && (k + 1 == |next| ==> Open(parent, n + 1, next[k]))
  {
    var t := FixedCreate.Trim(fs[p], parent[n].va, parent[n].End());
    if p <= k < p + |t| {
      TrimmedOpen(parent, n, fs, p, k - p);
    } else if k < |fs| + |t| - 1 {
      OtherWhole(parent, n, fs, p, if k < p then k else k - |t| + 1);
    }
  }

  lemma OtherWhole(parent: seq<Segment>, n: nat, fs: seq<Segment>, p: nat, o: nat)
    requires Below(parent, n) && Pieces(parent, n, fs)
    requires p < |fs| && fs[p].va <= parent[n].va && PartEnd(parent[n]) <= fs[p].End()
    requires o < |fs| && o != p
    ensures Open(parent, n + 1, fs[o]) || Shut(parent, n + 1, fs[o])
    ensures o + 1 == |fs| ==> Open(parent, n + 1, fs[o])
  {
    OthersMiss(parent, n, fs, p, o);
    assert FreePiece(fs[o]);
    OtherKept(parent, n, fs[o]);
  }

  lemma TrimmedAscending(fs: seq<Segment>, p: nat, addr: int, stop: int)
    requires Ascending(fs) && p < |fs| && FixedCreate.Target(addr, stop) && !fs[p].Inside(addr, stop)
    ensures Ascending(FixedCreate.Splice(fs, p, FixedCreate.Trim(fs[p], addr, stop)))
  {
    var t := FixedCreate.Trim(fs[p], addr, stop);
    var next := FixedCreate.Splice(fs, p, t);
    FixedCreate.TrimPieces(fs[p], addr, stop);
    forall k | 0 <= k < |next| ensures FreePiece(next[k]) {
      if p <= k < p + |t| {
        assert FixedCreate.Piece(t[k - p], fs[p], addr, stop) && 0 < t[k - p].length;
      }
    }
    forall j, k | 0 <= j < k < |next| ensures next[j].End() < next[k].va {
      if p <= j < p + |t| {
        assert FixedCreate.Piece(t[j - p], fs[p], addr, stop);
      }
      if p <= k < p + |t| {
        assert FixedCreate.Piece(t[k - p], fs[p], addr, stop);
      }
    }
  }

  lemma TrimmedOpen(parent: seq<Segment>, n: nat, fs: seq<Segment>, p: nat, k: nat)
    requires Below(parent, n) && p < |fs| && Open(parent, n, fs[p]) && FreePiece(fs[p])
    requires !fs[p].Inside(parent[n].va, parent[n].End())
    requires k < |FixedCreate.Trim(fs[p], parent[n].va, parent[n].End())|
    ensures Open(parent, n + 1, FixedCreate.Trim(fs[p], parent[n].va, parent[n].End())[k])
  {
    FixedCreate.TrimPieces(fs[p], parent[n].va, parent[n].End());
    RestOpen(parent, n, fs[p], FixedCreate.Trim(fs[p], parent[n].va, parent[n].End())[k]);
  }

  lemma RestOpen(parent: seq<Segment>, n: nat, p: Segment, q: Segment)
    requires n < |parent| && Open(parent, n, p) && FixedCreate.Piece(q, p, parent[n].va, parent[n].End())
    ensures Open(parent, n + 1, q)
  {
    forall a | q.Has(a) ensures StillFree(parent, n + 1, a) {
      assert p.Has(a) && !parent[n].Has(a);
    }
  }

  /** A piece that region n misses is as free, or as shut, as before. */
  lemma OtherKept(parent: seq<Segment>, n: nat, o: Segment)
    requires n < |parent| && !o.Meets(parent[n].va, parent[n].End()) && 0 < o.length
    ensures Open(parent, n, o) <==> Open(parent, n + 1, o)
    ensures Shut(parent, n, o) <==> Shut(parent, n + 1, o)
  {
    forall a | o.Has(a) ensures StillFree(parent, n, a) <==> StillFree(parent, n + 1, a) {
      assert !parent[n].Has(a);
    }
  }

  lemma TrimmedHolds(parent: seq<Segment>, n: nat, fs: seq<Segment>, p: nat, a: int)
    requires Below(parent, n) && Pieces(parent, n, fs) && p < |fs|
    requires !fs[p].Inside(parent[n].va, parent[n].End()) && StillFree(parent, n + 1, a)
    ensures var next := FixedCreate.Splice(fs, p, FixedCreate.Trim(fs[p], parent[n].va, parent[n].End()));
      Find(next, a) < |next|
  {
    var s := parent[n];
    var t := FixedCreate.Trim(fs[p], s.va, s.End());
    var next := FixedCreate.Splice(fs, p, t);
    FixedCreate.TrimPieces(fs[p], s.va, s.End());
    assert StillFree(parent, n, a) && !s.Has(a);
    var q := Find(fs, a);
    if q == p {
      assert next[p].Has(a) || (|t| == 2 && next[p + 1].Has(a));
    } else {
      assert next[if q < p then q else q + |t| - 1].Has(a);
    }
  }

  /** The same when the piece is the region itself: it stays, shut. */
  lemma ShutPieces(parent: seq<Segment>, n: nat, fs: seq<Segment>, p: nat)
    requires Below(parent, n) && Pieces(parent, n, fs) && p + 1 < |fs|
    requires fs[p].va == parent[n].va && fs[p].End() == PartEnd(parent[n])
    ensures Pieces(parent, n + 1, fs) && Shut(parent, n + 1, fs[p])
  {
    assert forall a :: fs[p].Has(a) ==> parent[n].Has(a);
    forall k | 0 <= k < |fs| && k != p
      ensures Open(parent, n, fs[k]) ==> Open(parent, n + 1, fs[k])
      ensures Shut(parent, n, fs[k]) ==> Shut(parent, n + 1, fs[k])
    {
      OthersMiss(parent, n, fs, p, k);
      assert FreePiece(fs[k]);
      OtherKept(parent, n, fs[k]);
    }
    assert forall a :: StillFree(parent, n + 1, a) ==> StillFree(parent, n, a);
  }

  /** And for a region that fork does not copy, or copies into the default stack area. */
  lemma SamePieces(parent: seq<Segment>, n: nat, fs: seq<Segment>)
    requires Forkable(parent) && n < |parent| && Pieces(parent, n, fs)
    requires !Copied(parent[n].info.kind) || STACK_START <= parent[n].va
    ensures Pieces(parent, n + 1, fs)
  {
    forall a ensures StillFree(parent, n, a) <==> StillFree(parent, n + 1, a) {}
  }

  lemma SpliceBehind(s: seq<Segment>, u: seq<Segment>, p: nat, t: seq<Segment>, v: seq<Segment>)
    requires p < |u| && 1 <= |t| && v == FixedCreate.Splice(u, p, t)
    ensures FixedCreate.Splice(s + u, |s| + p, t) == s + v
  {}

  /** Region n has been copied, or skipped: the pieces are now gs, all of them still free if they were and the region
      is clean. */
  ghost predicate Next(parent: seq<Segment>, n: nat, fs: seq<Segment>, gs: seq<Segment>)
    requires n < |parent|
  {
    && Pieces(parent, n + 1, gs)
    && (AllOpen(parent, n + 1, gs) <==> AllOpen(parent, n, fs) && Clean(parent, n))
  }

  /** A clean region trims or splits the piece it lies in. */
  lemma NextClean(parent: seq<Segment>, n: nat, copies: seq<Segment>, fs: seq<Segment>, p: nat)
    returns (gs: seq<Segment>)
    requires Below(parent, n) && Pieces(parent, n, fs) && copies == Copies(parent, n)
    requires p < |fs| && fs[p].va <= parent[n].va && PartEnd(parent[n]) <= fs[p].End() && Open(parent, n, fs[p])
    requires !fs[p].Inside(parent[n].va, parent[n].End())
    ensures Next(parent, n, fs, gs)
    ensures FixedCreate.Ends(copies + fs, 0, parent[n].va, parent[n].End(), Some(copies + gs))
  {
    CleanIffBigger(parent, n, fs, p);
    TrimmedPieces(parent, n, fs, p);
    TrimmedAllOpen(parent, n, fs, p);
    gs := FixedCreate.Splice(fs, p, FixedCreate.Trim(fs[p], parent[n].va, parent[n].End()));
    CreateTrims(parent, n, copies, fs, p, gs);
  }

  lemma CreateTrims(parent: seq<Segment>, n: nat, copies: seq<Segment>, fs: seq<Segment>, p: nat, gs: seq<Segment>)
    requires Below(parent, n) && Pieces(parent, n, fs) && copies == Copies(parent, n)
    requires p < |fs| && fs[p].va <= parent[n].va && PartEnd(parent[n]) <= fs[p].End()
    requires !fs[p].Inside(parent[n].va, parent[n].End())
    requires gs == FixedCreate.Splice(fs, p, FixedCreate.Trim(fs[p], parent[n].va, parent[n].End()))
    ensures FixedCreate.Ends(copies + fs, 0, parent[n].va, parent[n].End(), Some(copies + gs))
  {
    var t := FixedCreate.Trim(fs[p], parent[n].va, parent[n].End());
    OnlyPiece(parent, n, copies, fs, p);
    TrimsBehind(copies, fs, p, parent[n].va, parent[n].End(), t);
    SpliceBehind(copies, fs, p, t, gs);
    EndsSame(copies + fs, parent[n].va, parent[n].End(), FixedCreate.Splice(copies + fs, |copies| + p, t), copies + gs);
  }

  lemma TrimsBehind(copies: seq<Segment>, fs: seq<Segment>, p: nat, addr: int, stop: int, t: seq<Segment>)
    requires p < |fs| && addr < stop && OnlyMeets(copies + fs, addr, stop, |copies| + p) && !fs[p].Inside(addr, stop)
    requires t == FixedCreate.Trim(fs[p], addr, stop)
    ensures FixedCreate.Ends(copies + fs, 0, addr, stop, Some(FixedCreate.Splice(copies + fs, |copies| + p, t)))
  {
    ScanTrims(copies + fs, |copies| + p, fs[p], addr, stop, t, FixedCreate.Splice(copies + fs, |copies| + p, t));
  }

  lemma EndsSame(child: seq<Segment>, addr: int, stop: int, s: seq<Segment>, t: seq<Segment>)
    requires s == t && FixedCreate.Ends(child, 0, addr, stop, Some(s))
    ensures FixedCreate.Ends(child, 0, addr, stop, Some(t))
  {}

  /** Any other leaves it shut, or runs off the list. */
  lemma NextUnclean(parent: seq<Segment>, n: nat, copies: seq<Segment>, fs: seq<Segment>, p: nat)
    requires Below(parent, n) && Pieces(parent, n, fs) && copies == Copies(parent, n)
    requires p < |fs| && fs[p].va <= parent[n].va && PartEnd(parent[n]) <= fs[p].End() && Open(parent, n, fs[p])
    requires fs[p].Inside(parent[n].va, parent[n].End())
    ensures !Clean(parent, n) && (Passable(parent, n) <==> p + 1 < |fs|)
    ensures p + 1 < |fs| ==> Next(parent, n, fs, fs)
    ensures FixedCreate.Ends(copies + fs, 0, parent[n].va, parent[n].End(),
              if p + 1 < |fs| then Some(copies + fs) else None)
  {
    CleanIffBigger(parent, n, fs, p);
    AboveIffNotLast(parent, n, fs, p);
    assert FreePiece(fs[p]);
    CreateLeaves(parent, n, copies, fs, p);
    if p + 1 < |fs| {
      ShutPieces(parent, n, fs, p);
      assert fs[p].Has(fs[p].va);
    }
  }

  lemma CreateLeaves(parent: seq<Segment>, n: nat, copies: seq<Segment>, fs: seq<Segment>, p: nat)
    requires Below(parent, n) && Pieces(parent, n, fs) && copies == Copies(parent, n) && !Clean(parent, n)
    requires p < |fs| && fs[p].va == parent[n].va && fs[p].End() == PartEnd(parent[n]) && fs[p].IsFree()
    ensures FixedCreate.Ends(copies + fs, 0, parent[n].va, parent[n].End(),
              if p + 1 < |fs| then Some(copies + fs) else None)
  {
    OnlyPiece(parent, n, copies, fs, p);
    UncleanWalls(parent, n, copies, fs);
    LeavesBehind(copies, fs, p, parent[n].va, parent[n].End(), parent[n].va - 1, PartEnd(parent[n]) + 1);
  }

  lemma LeavesBehind(copies: seq<Segment>, fs: seq<Segment>, p: nat, addr: int, stop: int, low: int, high: int)
    requires p < |fs| && addr < stop && OnlyMeets(copies + fs, addr, stop, |copies| + p)
    requires fs[p].Inside(addr, stop) && fs[p].IsFree() && low == fs[p].va - 1 && high == fs[p].End() + 1
    requires KindAt(copies + fs, low) != Some(Free) && KindAt(copies + fs, high) != Some(Free)
    ensures FixedCreate.Ends(copies + fs, 0, addr, stop, if p + 1 < |fs| then Some(copies + fs) else None)
  {
    ScanLeaves(copies + fs, |copies| + p, addr, stop, low, high);
  }

  lemma TrimmedAllOpen(parent: seq<Segment>, n: nat, fs: seq<Segment>, p: nat)
    requires Below(parent, n) && Pieces(parent, n, fs)
    requires p < |fs| && fs[p].va <= parent[n].va && PartEnd(parent[n]) <= fs[p].End() && Open(parent, n, fs[p])
    requires !fs[p].Inside(parent[n].va, parent[n].End())
    ensures AllOpen(parent, n, fs) <==>
      AllOpen(parent, n + 1, FixedCreate.Splice(fs, p, FixedCreate.Trim(fs[p], parent[n].va, parent[n].End())))
  {
    var t := FixedCreate.Trim(fs[p], parent[n].va, parent[n].End());
    var next := FixedCreate.Splice(fs, p, t);
    if AllOpen(parent, n, fs) {
      forall k | 0 <= k < |next| ensures Open(parent, n + 1, next[k]) {
        TrimmedOpenAt(parent, n, fs, p, k);
      }
    }
    if AllOpen(parent, n + 1, next) {
      forall o | 0 <= o < |fs| ensures Open(parent, n, fs[o]) {
        if o != p {
          TrimmedOpenAt(parent, n, fs, p, if o < p then o else o + |t| - 1);
        }
      }
    }
  }

  lemma TrimmedOpenAt(parent: seq<Segment>, n: nat, fs: seq<Segment>, p: nat, k: nat)
    requires Below(parent, n) && Pieces(parent, n, fs)
    requires p < |fs| && fs[p].va <= parent[n].va && PartEnd(parent[n]) <= fs[p].End() && Open(parent, n, fs[p])
    requires !fs[p].Inside(parent[n].va, parent[n].End())
    ensures var t := FixedCreate.Trim(fs[p], parent[n].va, parent[n].End());
      k < |fs| + |t| - 1 ==>
        (Open(parent, n + 1, FixedCreate.Splice(fs, p, t)[k]) <==>
          p <= k < p + |t| || Open(parent, n, fs[if k < p then k else k - |t| + 1]))
  {
    var t := FixedCreate.Trim(fs[p], parent[n].va, parent[n].End());
    if p <= k < p + |t| {
      TrimmedOpen(parent, n, fs, p, k - p);
    } else if k < |fs| + |t| - 1 {
      var o := if k < p then k else k - |t| + 1;
      OthersMiss(parent, n, fs, p, o);
      assert FreePiece(fs[o]);
      OtherKept(parent, n, fs[o]);
    }
  }

  /** The scan for one region fork copies: it completes exactly if the region is passable. */
  lemma NextCopied(parent: seq<Segment>, n: nat, copies: seq<Segment>, fs: seq<Segment>) returns (gs: seq<Segment>)
    requires Forkable(parent) && n < |parent| && Pieces(parent, n, fs) && copies == Copies(parent, n)
    requires Copied(parent[n].info.kind)
    ensures Passable(parent, n) ==> Next(parent, n, fs, gs)
    ensures FixedCreate.Ends(copies + fs, 0, parent[n].va, parent[n].End(),
              if Passable(parent, n) then Some(copies + gs) else None)
  {
    gs := fs;
    if STACK_START <= parent[n].va {
      SamePieces(parent, n, fs);
      ScanMisses(parent, n, copies, fs);
    } else {
      var p := PartInOne(parent, n, fs);
      if fs[p].Inside(parent[n].va, parent[n].End()) {
        NextUnclean(parent, n, copies, fs, p);
      } else {
        CleanIffBigger(parent, n, fs, p);
        gs := NextClean(parent, n, copies, fs, p);
      }
    }
  }

  lemma ChildCopied(parent: seq<Segment>, n: nat, child: seq<Segment>, out: Option<seq<Segment>>)
    requires n < |parent| && Makes(parent, n, Some(child)) && Copied(parent[n].info.kind)
    requires FixedCreate.Ends(child, 0, parent[n].va, parent[n].End(), out)
    ensures Makes(parent, n + 1, if out.Some? then Some([parent[n]] + out.value) else None)
  {
    assert FixedCreate.Asked(n) && FixedCreate.Asked(0);
  }

  lemma ChildSkips(parent: seq<Segment>, n: nat, r: Option<seq<Segment>>)
    requires n < |parent| && Makes(parent, n, r) && (Copied(parent[n].info.kind) ==> r.None?)
    ensures Makes(parent, n + 1, r)
  {
    assert FixedCreate.Asked(n);
  }

  /** One region of the parent: fork goes on exactly if the region is passable. */
  lemma NextPieces(parent: seq<Segment>, n: nat, fs: seq<Segment>) returns (gs: seq<Segment>)
    requires Forkable(parent) && n < |parent| && Pieces(parent, n, fs)
    requires Makes(parent, n, Some(Copies(parent, n) + fs))
    ensures Passable(parent, n) ==> Next(parent, n, fs, gs)
    ensures Makes(parent, n + 1, if Passable(parent, n) then Some(Copies(parent, n + 1) + gs) else None)
  {
    var copies := Copies(parent, n);
    if !Copied(parent[n].info.kind) {
      gs := fs;
      SamePieces(parent, n, fs);
      ChildSkips(parent, n, Some(copies + fs));
    } else {
      gs := NextCopied(parent, n, copies, fs);
      ChildCopied(parent, n, copies + fs, if Passable(parent, n) then Some(copies + gs) else None);
      assert [parent[n]] + (copies + gs) == Copies(parent, n + 1) + gs;
    }
  }

  lemma ScanMisses(parent: seq<Segment>, n: nat, copies: seq<Segment>, fs: seq<Segment>)
    requires Forkable(parent) && n < |parent| && Pieces(parent, n, fs) && copies == Copies(parent, n)
    requires Copied(parent[n].info.kind) && STACK_START <= parent[n].va
    ensures FixedCreate.Ends(copies + fs, 0, parent[n].va, parent[n].End(), Some(copies + fs))
  {
    var s := parent[n];
    var child := copies + fs;
    forall k | 0 <= k < |child| ensures Misses(child[k], s.va, s.End()) {
      if k < |copies| {
        CopiesApart(parent, n, n, k);
      } else {
        assert FreePiece(fs[k - |copies|]);
      }
    }
    EndsHere(child, s.va, s.End());
    ScanSkips(child, 0, |child|, s.va, s.End(), Some(child));
  }

  /** The child after n regions, with fs for its pieces, if all of them are passable. */
  ghost predicate Shaped(parent: seq<Segment>, n: nat, copies: seq<Segment>, fs: seq<Segment>, passed: bool)
    requires n <= |parent|
  {
    && Makes(parent, n, if passed then Some(copies + fs) else None)
    && (passed ==> Pieces(parent, n, fs) && (AllOpen(parent, n, fs) <==> CleanUpTo(parent, n)))
  }

  lemma NextShape(parent: seq<Segment>, n: nat, copies: seq<Segment>, fs: seq<Segment>, more: seq<Segment>)
    returns (gs: seq<Segment>)
    requires Forkable(parent) && n < |parent| && copies == Copies(parent, n) && more == Copies(parent, n + 1)
    requires Shaped(parent, n, copies, fs, AllPassable(parent, n))
    ensures Shaped(parent, n + 1, more, gs, AllPassable(parent, n + 1))
  {
    Further(parent, n);
    gs := fs;
    if AllPassable(parent, n) {
      gs := NextPieces(parent, n, fs);
    } else {
      ChildSkips(parent, n, None);
    }
  }

  /** The child is the copies, newest first, and the FREE pieces in ascending order. */
  lemma {:induction false} ShapeReached(parent: seq<Segment>, n: nat, copies: seq<Segment>)
    returns (fs: seq<Segment>)
    requires Forkable(parent) && n <= |parent| && copies == Copies(parent, n)
    ensures Shaped(parent, n, copies, fs, AllPassable(parent, n))
  {
    if n == 0 {
      fs := [INITIAL_FREE];
      InitialPieces(parent);
    } else {
      var fewer := Copies(parent, n - 1);
      fs := ShapeReached(parent, n - 1, fewer);
      fs := NextShape(parent, n - 1, fewer, fs, copies);
    }
  }

  lemma ChildShape(parent: seq<Segment>, n: nat) returns (fs: seq<Segment>)
    requires Forkable(parent) && n <= |parent|
    ensures Child(parent, n) == if AllPassable(parent, n) then Some(Copies(parent, n) + fs) else None
    ensures AllPassable(parent, n) ==> Pieces(parent, n, fs) && (AllOpen(parent, n, fs) <==> CleanUpTo(parent, n))
  {
    fs := ShapeReached(parent, n, Copies(parent, n));
    assert FixedCreate.Asked(n);
  }

  lemma Further(parent: seq<Segment>, n: nat)
    requires n < |parent|
    ensures CleanUpTo(parent, n + 1) <==> CleanUpTo(parent, n) && Clean(parent, n)
    ensures AllPassable(parent, n + 1) <==> AllPassable(parent, n) && Passable(parent, n)
  {}

  lemma InitialPieces(parent: seq<Segment>)
    ensures Pieces(parent, 0, [INITIAL_FREE]) && AllOpen(parent, 0, [INITIAL_FREE])
    ensures Makes(parent, 0, Some(Copies(parent, 0) + [INITIAL_FREE]))
  {
    assert Copies(parent, 0) + [INITIAL_FREE] == [INITIAL_FREE];
    forall a ensures StillFree(parent, 0, a) <==> [INITIAL_FREE][0].Has(a) {}
  }

  /** The child's regions are disjoint exactly if no piece is shut. */
  lemma DisjointIffOpen(parent: seq<Segment>, n: nat, fs: seq<Segment>)
    requires Forkable(parent) && n <= |parent| && Pieces(parent, n, fs)
    ensures Disjoint(Copies(parent, n) + fs) <==> AllOpen(parent, n, fs)
  {
    var copies := Copies(parent, n);
    var child := copies + fs;
    if AllOpen(parent, n, fs) {
      forall i, j | 0 <= i < j < |child| ensures child[i].Apart(child[j]) {
        if j < |copies| {
          CopiesDisjoint(parent, n, i, j);
        } else if i < |copies| {
          assert FreePiece(fs[j - |copies|]);
          CopyMissesOpen(parent, n, i, fs[j - |copies|]);
        } else {
          assert fs[i - |copies|].End() < fs[j - |copies|].va;
        }
      }
    } else {
      var k :| 0 <= k < |fs| && !Open(parent, n, fs[k]);
      assert FreePiece(fs[k]) && fs[k].Has(fs[k].va);
      ShutUnderCopy(parent, n, fs, k);
    }
  }

  lemma {:induction false} CopiesDisjoint(parent: seq<Segment>, n: nat, i: nat, j: nat)
    requires Forkable(parent) && n <= |parent| && i < j < |Copies(parent, n)|
    ensures Copies(parent, n)[i].Apart(Copies(parent, n)[j])
  {
    if !Copied(parent[n - 1].info.kind) {
      CopiesDisjoint(parent, n - 1, i, j);
    } else if i == 0 {
      CopiesApart(parent, n - 1, n - 1, j - 1);
    } else {
      CopiesDisjoint(parent, n - 1, i - 1, j - 1);
    }
  }

  lemma {:induction false} CopyMissesOpen(parent: seq<Segment>, n: nat, i: nat, p: Segment)
    requires Forkable(parent) && n <= |parent| && i < |Copies(parent, n)|
    requires Open(parent, n, p) && FreePiece(p)
    ensures Copies(parent, n)[i].Apart(p)
  {
    var s := parent[n - 1];
    if !Copied(s.info.kind) {
      CopyMissesOpen(parent, n - 1, i, p);
    } else if 0 < i {
      CopyMissesOpen(parent, n - 1, i - 1, p);
    } else {
      assert p.Has(s.va) ==> s.Has(s.va);
      assert s.Has(p.va) ==> p.Has(p.va);
    }
  }

  /** A shut piece lies under the copies: lookup meets one of them first at its addresses. */
  lemma ShutUnderCopy(parent: seq<Segment>, n: nat, fs: seq<Segment>, k: nat)
    requires Forkable(parent) && n <= |parent| && Pieces(parent, n, fs)
    requires k < |fs| && Shut(parent, n, fs[k])
    ensures !Disjoint(Copies(parent, n) + fs)
  {
    var child, a := Copies(parent, n) + fs, fs[k].va;
    assert FreePiece(fs[k]) && fs[k].Has(a);
    PiecesTell(parent, n, fs, a);
    StillFreeIff(parent, n, a);
    var c := Find(child, a);
    assert child[|Copies(parent, n)| + k] == fs[k];
    assert !child[c].Apart(fs[k]);
  }

  /** The creates of fork stay on the child's list exactly when each region is passable, and the child then says of
      every address in use, at the same address, the type, attributes and parameter the parent says. The child's type
      map equals the parent's on every address exactly when the parent has no FREE address in the default stack area,
      which the child does not cover once its default stack is removed. ForkWalks adds the walks of the deletions. */
  lemma ForkReproduces(parent: seq<Segment>)
    requires Forkable(parent)
    ensures var r := Child(parent, |parent|);
      && (r.Some? <==> AllPassable(parent, |parent|))
      && (r.Some? ==>
          && (forall a :: KindAt(parent, a) != Some(Free) ==> InfoAt(r.value, a) == InfoAt(parent, a))
          && ((forall a :: KindAt(r.value, a) == KindAt(parent, a)) <==>
              (forall a :: STACK_START <= a < USER_END ==> KindAt(parent, a) != Some(Free))))
  {
    var fs := ChildShape(parent, |parent|);
    var r := Child(parent, |parent|);
    if r.Some? {
      var child := r.value;
      forall a
        ensures KindAt(parent, a) != Some(Free) ==> InfoAt(child, a) == InfoAt(parent, a)
        ensures KindAt(child, a) == KindAt(parent, a) <==>
          !(STACK_START <= a < USER_END && KindAt(parent, a) == Some(Free))
      {
        PiecesTell(parent, |parent|, fs, a);
      }
    }
  }

  /** The child's regions stay disjoint, coalesced and well-formed exactly as long as every region is clean: one that
      is not leaves a FREE piece listed under it, for good, or runs off the list. */
  lemma ProperIffClean(parent: seq<Segment>, n: nat)
    requires Forkable(parent) && n <= |parent|
    ensures var r := Child(parent, n);
      && (r.Some? ==> AllWellFormed(r.value) && AllNonEmpty(r.value) && Coalesced(r.value))
      && ((r.Some? && Disjoint(r.value)) <==> CleanUpTo(parent, n))
  {
    var fs := ChildShape(parent, n);
    if Child(parent, n).Some? {
      DisjointIffOpen(parent, n, fs);
      ShapeFacts(parent, n, fs);
    }
  }

  lemma ShapeFacts(parent: seq<Segment>, n: nat, fs: seq<Segment>)
    requires Forkable(parent) && n <= |parent| && Pieces(parent, n, fs)
    ensures var child := Copies(parent, n) + fs; AllNonEmpty(child) && Coalesced(child) && AllWellFormed(child)
  {
    var copies := Copies(parent, n);
    var child := copies + fs;
    forall k | 0 <= k < |child|
      ensures child[k].WellFormed() && 0 < child[k].length && (k < |copies| <==> !child[k].IsFree())
    {
      if k < |copies| {
        CopyWellFormed(parent, n, k);
      } else {
        assert FreePiece(fs[k - |copies|]);
      }
    }
    forall i, j | 0 <= i < |child| && 0 <= j < |child| ensures !Touch(child[i], child[j]) {
      if |copies| <= i < j {
        assert fs[i - |copies|].End() < fs[j - |copies|].va;
      } else if |copies| <= j < i {
        assert fs[j - |copies|].End() < fs[i - |copies|].va;
      }
    }
  }

  /** The list stays page-aligned even with regions that overlap. */
  lemma ChildAligned(parent: seq<Segment>, n: nat)
    requires Forkable(parent) && n <= |parent| && Child(parent, n).Some?
    ensures Aligned(Child(parent, n).value)
  {
    var fs := ChildShape(parent, n);
    ShapeFacts(parent, n, fs);
  }

  lemma {:induction false} CopyWellFormed(parent: seq<Segment>, n: nat, i: nat)
    requires Forkable(parent) && n <= |parent| && i < |Copies(parent, n)|
    ensures var c := Copies(parent, n)[i]; c.WellFormed() && 0 < c.length && !c.IsFree()
  {
    if !Copied(parent[n - 1].info.kind) {
      CopyWellFormed(parent, n - 1, i);
    } else if 0 < i {
      CopyWellFormed(parent, n - 1, i - 1);
    }
  }

  /** fork meets a complete overlap at region n exactly when that region is not clean. */
  lemma CleanIffNoneInside(parent: seq<Segment>, n: nat)
    requires Forkable(parent) && n < |parent| && Copied(parent[n].info.kind) && Child(parent, n).Some?
    ensures Clean(parent, n) <==>
      FixedCreate.NoneInside(Child(parent, n).value, 0, parent[n].va, parent[n].End())
  {
    var fs := ChildShape(parent, n);
    NoneInsideCopies(parent, n);
    CleanIffNoneInPieces(parent, n, fs);
    NoneInBoth(Copies(parent, n), fs, parent[n].va, parent[n].End());
  }

  lemma NoneInBoth(s: seq<Segment>, t: seq<Segment>, addr: int, stop: int)
    ensures FixedCreate.NoneInside(s + t, 0, addr, stop) <==>
      FixedCreate.NoneInside(s, 0, addr, stop) && FixedCreate.NoneInside(t, 0, addr, stop)
  {
    assert forall k :: 0 <= k < |s| ==> (s + t)[k] == s[k];
    assert forall k :: 0 <= k < |t| ==> t[k] == (s + t)[|s| + k];
  }

  lemma CleanIffNoneInPieces(parent: seq<Segment>, n: nat, fs: seq<Segment>)
    requires Forkable(parent) && n < |parent| && Copied(parent[n].info.kind) && Pieces(parent, n, fs)
    ensures Clean(parent, n) <==> FixedCreate.NoneInside(fs, 0, parent[n].va, parent[n].End())
  {
    if STACK_START <= parent[n].va {
      forall k | 0 <= k < |fs| ensures !fs[k].Inside(parent[n].va, parent[n].End()) {
        assert FreePiece(fs[k]);
      }
    } else {
      var p := PartInOne(parent, n, fs);
      CleanIffBigger(parent, n, fs, p);
      forall k | 0 <= k < |fs| && k != p ensures !fs[k].Inside(parent[n].va, parent[n].End()) {
        OthersMiss(parent, n, fs, p, k);
        assert FreePiece(fs[k]);
      }
    }
  }

  lemma NoneInsideCopies(parent: seq<Segment>, n: nat)
    requires Forkable(parent) && n < |parent| && Copied(parent[n].info.kind)
    ensures FixedCreate.NoneInside(Copies(parent, n), 0, parent[n].va, parent[n].End())
  {
    forall k | 0 <= k < |Copies(parent, n)| ensures !Copies(parent, n)[k].Inside(parent[n].va, parent[n].End()) {
      CopiesApart(parent, n, n, k);
    }
  }
}
