/** delete_region and clone_region as a whole: page tables, frames, sharing rings and region lists. */
module UserMemory {
  import opened Common
  import opened Segments
  import opened RegionList
  import BestFit
  import Coalesce
  import Links
  import Runs
  import Sharing

  /** The frames the physical allocator counts as used. */
  class Frames {
    var held: set<int>

    constructor ()
      ensures held == {}
    {
      held := {};
    }
  }

  /** sharedNext on the live regions, as a map. */
  ghost function Succ(live: set<Region>): map<Region, Region>
    requires forall r :: r in live ==> r.sharedNext != null
    reads live`sharedNext
  {
    map r: Region | r in live :: (var n: Region := r.sharedNext; n)
  }

  ghost predicate InRings(live: set<Region>)
    reads live`sharedNext
  {
    (forall r :: r in live ==> r.sharedNext != null) && Sharing.Rings(Succ(live))
  }

  /** Reading the pointers of all live regions. */
  lemma SuccIs(live: set<Region>, succ: map<Region, Region>)
    requires Sharing.Rings(succ) && succ.Keys == live
    requires forall r :: r in live ==> r.sharedNext == succ[r]
    ensures InRings(live) && Succ(live) == succ
  {
    assert Succ(live) == succ;
  }

  /** The walk of delete_region from a live region, along the pointers, comes home, and its link says so. */
  lemma LiveComesHome(live: set<Region>, mr: Region) returns (k: nat)
    requires InRings(live) && mr in live && !mr.kind.Free?
    ensures 1 <= k <= |Succ(live)| && Sharing.Iterate(Succ(live), mr, k) == mr
    ensures mr.LinkOf() == if mr.sharedNext == mr then Links.Home else Links.Ring
  {
    k := Sharing.ReturnsHome(Succ(live), mr);
  }

  /** A missing page table entry reads as frame 0. */
  function PageAt(pages: map<int, int>, a: int): int { if a in pages then pages[a] else 0 }

  ghost function PagesOf(va: int, length: int): set<int> {
    set k | 0 <= k < length :: va + 4096 * k
  }

  ghost function FramesOf(pages: map<int, int>, va: int, length: int): set<int> {
    set k | 0 <= k < length :: PageAt(pages, va + 4096 * k)
  }

  /** The pages of an interval, and the frames they map. */
  lemma PagesAre(pages: map<int, int>, va: int, length: int, a: int)
    ensures a in PagesOf(va, length) <==> va <= a < va + 4096 * length && (a - va) % 4096 == 0
    ensures a in PagesOf(va, length) ==> PageAt(pages, a) in FramesOf(pages, va, length)
    ensures forall f :: f in FramesOf(pages, va, length) ==>
      exists b :: b in PagesOf(va, length) && PageAt(pages, b) == f
  {
    if va <= a < va + 4096 * length && (a - va) % 4096 == 0 {
      var k := (a - va) / 4096;
      assert va + 4096 * k == a;
    }
    forall f | f in FramesOf(pages, va, length) ensures exists b :: b in PagesOf(va, length) && PageAt(pages, b) == f {
      var k :| 0 <= k < length && PageAt(pages, va + 4096 * k) == f;
      assert va + 4096 * k in PagesOf(va, length);
    }
  }

  /** The page loop of delete_region: unmap every page, releasing its frame when the region is not shared. */
  method ReleasePages(space: AddressSpace, mr: Region, mem: Frames)
    requires space.Valid()
    modifies space`pages, mem`held
    ensures space.Valid()
    ensures space.pages == old(space.pages) - PagesOf(mr.va, mr.length)
    ensures mem.held == if mr.sharedNext == mr then old(mem.held) - FramesOf(old(space.pages), mr.va, mr.length)
                        else old(mem.held)
  {
    var k := 0;
    while k < mr.length
      invariant space.Valid()
      invariant 0 <= k && (k <= mr.length || k == 0)
      invariant space.pages == old(space.pages) - PagesOf(mr.va, k)
      invariant mem.held == if mr.sharedNext == mr then old(mem.held) - FramesOf(old(space.pages), mr.va, k)
                            else old(mem.held)
    {
      var address := mr.va + 4096 * k;
      assert address !in PagesOf(mr.va, k);
      if mr.sharedNext == mr {
        mem.held := mem.held - {PageAt(space.pages, address)};
      }
      space.pages := space.pages - {address};
      assert PagesOf(mr.va, k + 1) == PagesOf(mr.va, k) + {address};
      assert FramesOf(old(space.pages), mr.va, k + 1)
          == FramesOf(old(space.pages), mr.va, k) + {PageAt(old(space.pages), address)};
      k := k + 1;
    }
  }

  /** The ring unlink of delete_region: walk to the predecessor and bypass mr. */
  method UnlinkRing(mr: Region, ghost space: AddressSpace, ghost live: set<Region>)
    requires InRings(live) && mr in live && space.Valid()
    modifies live`sharedNext
    ensures space.Valid()
    ensures InRings(live - {mr}) && Succ(live - {mr}) == Sharing.Deleted(old(Succ(live)), mr)
  {
    ghost var succ := Succ(live);
    Sharing.DeletedRings(succ, mr);
    ghost var before := Sharing.Predecessor(succ, mr);
    if mr.sharedNext != mr {
      var mr2 := mr.sharedNext;
      ghost var n := Sharing.HasPeriod(succ, mr);
      ghost var k := 1;
      assert mr2 == Sharing.Iterate(succ, mr, 1);
      while mr2.sharedNext != mr
        invariant 1 <= k < n && mr2 == Sharing.Iterate(succ, mr, k)
        decreases n - k
      {
        mr2 := mr2.sharedNext;
        k := k + 1;
        assert mr2 == Sharing.Next(succ, Sharing.Iterate(succ, mr, k - 1));
      }
      assert Sharing.Next(succ, mr2) == mr == Sharing.Next(succ, before);
      Sharing.OneBefore<Region>(succ, mr2, before);
      mr2.sharedNext := mr.sharedNext;
    } else {
      assert Sharing.Next(succ, mr) == mr == Sharing.Next(succ, before);
    }
    ghost var after := Sharing.Deleted(succ, mr);
    assert after.Keys == live - {mr};
    SuccIs(live - {mr}, after);
  }

  /** The list part of delete_region leaves the rings of the remaining live regions alone. */
  method Unlist(mr: Region, space: AddressSpace, ghost i: nat, ghost live: set<Region>)
    requires space.Valid() && i < |space.segs| && space.chain[i + 1] == mr && InRings(live)
    modifies space`chain, space`segs, space.nodes`next, space.nodes`length, space.nodes`kind
    ensures space.Valid() && space.segs == Coalesce.Delete(old(space.segs), i)
    ensures InRings(live) && Succ(live) == old(Succ(live))
  {
    var _ := space.MergeAndFree(mr, i, space.chain[i + 2]);
  }

  /** delete_region: region i of its space, one of the live regions. */
  method DeleteRegion(mr: Region, space: AddressSpace, ghost i: nat, ghost live: set<Region>, mem: Frames)
    requires mr.parent == space && space.Valid() && i < |space.segs| && space.chain[i + 1] == mr
    requires InRings(live) && mr in live
    modifies space`pages, space`chain, space`segs, mem`held, live`sharedNext
    modifies space.nodes`next, space.nodes`length, space.nodes`kind
    ensures space.Valid() && space.segs == Coalesce.Delete(old(space.segs), i)
    ensures InRings(live - {mr}) && Succ(live - {mr}) == Sharing.Deleted(old(Succ(live)), mr)
    ensures space.pages == old(space.pages) - PagesOf(old(mr.va), old(mr.length))
    ensures mem.held ==
      if old(mr.sharedNext) == mr then old(mem.held) - FramesOf(old(space.pages), old(mr.va), old(mr.length))
      else old(mem.held)
  {
    ReleasePages(space, mr, mem);
    UnlinkRing(mr, space, live);
    Unlist(mr, space, i, live - {mr});
  }

  /** The ring step of clone_region: the clone takes over its source's pointer, and the source points to the clone. It
      is the same step when no clone was made; the first write then goes through null, and the second clears the
      source's pointer, so its ring is a ring no more. */
  method JoinRing(source: Region, made: Region?, ghost live: set<Region>)
    requires InRings(live) && source in live && made !in live
    modifies Written(source, made)`sharedNext
    ensures made == null ==> source.sharedNext == null && !InRings(live)
    ensures made != null ==>
      InRings(live + {made}) && Succ(live + {made}) == Sharing.Cloned(old(Succ(live)), source, made)
    ensures made != null ==> source.sharedNext == made && made.sharedNext == old(source.sharedNext)
  {
    ghost var succ := Succ(live);
    if made != null {
      made.sharedNext := source.sharedNext;
    }
    source.sharedNext := made;
    if made != null {
      ghost var after := Sharing.Cloned<Region>(succ, source, made);
      Sharing.ClonedRings<Region>(succ, source, made);
      assert after.Keys == live + {made};
      SuccIs(live + {made}, after);
    }
  }

  /** The regions whose pointers clone_region writes. */
  ghost function Written(source: Region, made: Region?): set<Region> {
    if made == null then {source} else {source, made}
  }

  function Page(va: int, k: int): int { va + 4096 * k }

  /** Each page of the first interval maps what the same page of the second does. */
  ghost predicate Mirror(pages: map<int, int>, va: int, sources: map<int, int>, from: int, length: int) {
    forall k | 0 <= k < length :: PageAt(pages, Page(va, k)) == PageAt(sources, Page(from, k))
  }

  /** The page loop of clone_region: page k of the clone maps what page k of the source maps. */
  method CopyPages(dest: AddressSpace, va: int, src: AddressSpace, from: int, length: nat)
    requires dest == src ==> va + 4096 * length <= from || from + 4096 * length <= va
    requires dest.Valid()
    modifies dest`pages
    ensures dest.Valid()
    ensures Mirror(dest.pages, va, old(src.pages), from, length)
    ensures forall a :: a !in PagesOf(va, length) ==> PageAt(dest.pages, a) == PageAt(old(dest.pages), a)
  {
    var k := 0;
    while k < length
      invariant 0 <= k <= length && dest.Valid()
      invariant Mirror(dest.pages, va, old(src.pages), from, k)
      invariant dest == src ==> (forall i | k <= i < length ::
        PageAt(dest.pages, Page(from, i)) == PageAt(old(src.pages), Page(from, i)))
      invariant forall a :: a !in PagesOf(va, k) ==> PageAt(dest.pages, a) == PageAt(old(dest.pages), a)
    {
      dest.pages := dest.pages[Page(va, k) := PageAt(src.pages, Page(from, k))];
      assert PagesOf(va, k + 1) == PagesOf(va, k) + {va + 4096 * k};
      k := k + 1;
    }
  }

  /** The create of clone_region. Its source keeps its place, and the new region lies apart from it. */
  method CreateClone(dest: AddressSpace, source: Region, src: AddressSpace, ghost j: nat)
    returns (made: Region?)
    requires dest.Valid() && src.Valid() && (dest == src || dest.nodes !! src.nodes)
    requires j < |src.segs| && src.chain[j + 1] == source && !source.kind.Free? && 0 < source.length
    requires Proper(dest.segs)
    modifies dest`chain, dest`segs, dest`nodes, dest.first`next, dest.nodes`length
    ensures dest.Valid() && fresh(dest.nodes - old(dest.nodes)) && source.length == old(source.length)
    ensures var r := BestFit.Create(old(dest.segs), source.length, source.Value().info);
      if r.None? then made == null && dest.segs == old(dest.segs)
      else made != null && fresh(made) && dest.segs == r.value && dest.chain[1] == made
    ensures made != null && dest == src ==>
      made.va + 4096 * source.length <= source.va || source.va + 4096 * source.length <= made.va
  {
    assert src.segs[j] == source.Value();
    ghost var was, value := dest.segs, source.Value();
    made := dest.CreateBestFit(source.length, source.kind, source.attributes, source.parameter);
    if dest == src {
      ghost var k := BestFit.Smallest(was, |was|, value.length);
      if made == null {
        assert dest.segs[j] == source.Value();
      } else {
        BestFit.CarveApart(was, k.value, dest.segs, value.length, value.info, j);
        assert dest.segs[j + 1] == source.Value() && dest.segs[0] == made.Value();
      }
    }
  }

  /** clone_region: a best-fit region of the same size and kind, on the ring of its source and mapping its frames. The
      result of create_region is not tested: without room in the destination the clone is null, its source's pointer is
      cleared, and what the page loop then does is not part of this model. */
  method CloneRegion(dest: AddressSpace, source: Region, src: AddressSpace, ghost j: nat, ghost live: set<Region>)
    returns (made: Region?)
    requires dest.Valid() && src.Valid() && (dest == src || dest.nodes !! src.nodes)
    requires j < |src.segs| && src.chain[j + 1] == source && !source.kind.Free? && 0 < source.length
    requires Proper(dest.segs) && InRings(live) && source in live
    modifies dest`chain, dest`segs, dest`nodes, dest`pages, dest.first`next, dest.nodes`length, source`sharedNext
    ensures dest.Valid() && fresh(dest.nodes - old(dest.nodes)) && source.length == old(source.length)
    ensures var r := BestFit.Create(old(dest.segs), source.length, source.Value().info);
      if r.None? then made == null && dest.segs == old(dest.segs)
      else made != null && fresh(made) && dest.segs == r.value && dest.chain[1] == made
    ensures made != null <==> BestFit.HasRoom(old(dest.segs), old(source.length))
    ensures made == null ==> source.sharedNext == null && !InRings(live)
    ensures made != null ==>
      && InRings(live + {made}) && Succ(live + {made}) == Sharing.Cloned(old(Succ(live)), source, made)
      && Mirror(dest.pages, made.va, old(src.pages), source.va, source.length)
      && (forall a :: a !in PagesOf(made.va, source.length) ==> PageAt(dest.pages, a) == PageAt(old(dest.pages), a))
  {
    BestFit.CreateIffRoom(dest.segs, source.length, source.Value().info);
    made := CreateClone(dest, source, src, j);
    Attach(dest, made, source, src, live);
  }

  /** The rest of clone_region: the clone joins the ring and maps the frames of its source. */
  method Attach(dest: AddressSpace, made: Region?, source: Region, src: AddressSpace, ghost live: set<Region>)
    requires dest.Valid() && InRings(live) && source in live && made !in live && 0 < source.length
    requires made != null && dest == src ==>
      made.va + 4096 * source.length <= source.va || source.va + 4096 * source.length <= made.va
    modifies dest`pages, Written(source, made)`sharedNext
    ensures dest.Valid()
    ensures made == null ==> source.sharedNext == null && !InRings(live)
    ensures made != null ==>
      && InRings(live + {made}) && Succ(live + {made}) == Sharing.Cloned(old(Succ(live)), source, made)
      && Mirror(dest.pages, made.va, old(src.pages), source.va, source.length)
      && (forall a :: a !in PagesOf(made.va, source.length) ==> PageAt(dest.pages, a) == PageAt(old(dest.pages), a))
  {
    JoinRing(source, made, live);
    if made != null {
      CopyPages(dest, made.va, src, source.va, source.length);
    }
  }

  /** Deleting a clone whose source is still on its ring undoes the clone and releases no frame. */
  method CloseWindow(made: Region, dest: AddressSpace, mem: Frames, ghost source: Region,
                     ghost live: set<Region>, ghost succ: map<Region, Region>)
    requires dest.Valid() && made.parent == dest && |dest.segs| > 0 && dest.chain[1] == made
    requires made !in live && succ.Keys == live && source in live && Sharing.Rings(succ)
    requires InRings(live + {made}) && Succ(live + {made}) == Sharing.Cloned(succ, source, made)
    modifies dest`pages, dest`chain, dest`segs, mem`held, live`sharedNext, made`sharedNext
    modifies dest.nodes`next, dest.nodes`length, dest.nodes`kind
    ensures dest.Valid() && dest.segs == Coalesce.Delete(old(dest.segs), 0)
    ensures InRings(live) && Succ(live) == succ && mem.held == old(mem.held)
    ensures dest.pages == old(dest.pages) - PagesOf(old(made.va), old(made.length))
  {
    Sharing.CloneDeleteRestores<Region>(succ, source, made);
    assert made.sharedNext != made by {
      assert made in Succ(live + {made}) && Succ(live + {made})[made] == Sharing.Next(succ, source);
    }
    assert live + {made} - {made} == live;
    DeleteRegion(made, dest, 0, live + {made}, mem);
  }

  /** Where the clone goes. */
  ghost function WindowAt(segs: seq<Segment>, length: int, info: Info): int
    requires BestFit.Create(segs, length, info).Some?
  {
    BestFit.Create(segs, length, info).value[0].va
  }

  /** Mapping the pages at va and unmapping them again leaves every other page as it was. */
  lemma WindowUnmapped(before: map<int, int>, open: map<int, int>, va: int, length: int)
    requires forall a :: a !in PagesOf(va, length) ==> PageAt(open, a) == PageAt(before, a)
    ensures forall a ::
      PageAt(open - PagesOf(va, length), a) == if a in PagesOf(va, length) then 0 else PageAt(before, a)
  {}

  /** The window of a FIFO write: the receiver's region is cloned into the writer's space and the clone deleted. If the
      writer has room, region types, sharing rings and allocated frames are as before, the pages of the window are
      unmapped and every other page maps what it mapped. If not, the receiver's pointer is cleared, so its ring is
      broken; the copy through the null clone that follows is not part of this model. */
  method Window(dest: AddressSpace, source: Region, src: AddressSpace, ghost j: nat, ghost live: set<Region>,
                mem: Frames)
    returns (done: bool)
    requires dest.Valid() && src.Valid() && (dest == src || dest.nodes !! src.nodes)
    requires j < |src.segs| && src.chain[j + 1] == source && !source.kind.Free? && 0 < source.length
    requires Tiles(dest.segs) && Coalesced(dest.segs) && InRings(live) && source in live
    modifies dest`chain, dest`segs, dest`nodes, dest`pages, dest.first`next, live`sharedNext, mem`held
    modifies dest.nodes`next, dest.nodes`length, dest.nodes`kind
    ensures done <==> BestFit.Create(old(dest.segs), old(source.length), old(source.Value().info)).Some?
    ensures dest.Valid() && (if done then Runs.Restored(old(dest.segs), dest.segs) else dest.segs == old(dest.segs))
    ensures done <==> BestFit.HasRoom(old(dest.segs), old(source.length))
    ensures done ==> InRings(live) && Succ(live) == old(Succ(live)) && mem.held == old(mem.held)
    ensures !done ==> source.sharedNext == null && !InRings(live)
    ensures done ==>
      var window := PagesOf(WindowAt(old(dest.segs), old(source.length), old(source.Value().info)), old(source.length));
      forall a :: PageAt(dest.pages, a) == if a in window then 0 else PageAt(old(dest.pages), a)
  {
    ghost var length, info := source.length, source.Value().info;
    var made := CloneRegion(dest, source, src, j, live);
    done := made != null;
    if done {
      assert made.Value() == dest.segs[0];
      WindowUnmapped(old(dest.pages), dest.pages, made.va, length);
      Runs.WindowInvisible(old(dest.segs), length, info);
      CloseWindow(made, dest, mem, source, live, old(Succ(live)));
    }
  }
}
