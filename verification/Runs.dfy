/** Whole runs of region operations on one address space. */
module Runs {
  import opened Common
  import opened Segments
  import BestFit
  import FixedCreate
  import CompleteOverlap
  import RunsOff
  import Coalesce
  import Expand
  import Links

  /** The list of regions, and what the sharedmem_next of each is good for. */
  datatype Space = Space(segs: seq<Segment>, links: seq<Links.Link>)

  /** clone_region acts on the destination space as BestFit with the length and info of the source region, whose ring,
      or stray pointer, the clone joins. Relink is what clones and deletions elsewhere do to region i's pointer. */
  datatype Op =
    | BestFitCreate(length: int, info: Info, link: Links.Link)
    | FixedAddressCreate(addr: int, length: int, info: Info)
    | DeleteRegion(i: nat)
    | ExpandUpward(i: nat, size: nat)
    | Relink(i: nat, link: Links.Link)

  ghost predicate Legal(s: Space, op: Op) {
    |s.segs| == |s.links| &&
    match op
    case BestFitCreate(length, info, _) => 0 < length && !info.kind.Free?
    case FixedAddressCreate(addr, length, info) =>
      && !info.kind.Free?
      && FixedCreate.Target(addr, addr + 4096 * length)
      && FixedCreate.NoneInside(s.segs, 0, addr, addr + 4096 * length)
    case DeleteRegion(i) => i < |s.segs|
    case ExpandUpward(i, size) => i < |s.segs| && 0 < s.segs[i].length && !s.segs[i].IsFree()
    case Relink(i, link) => i < |s.segs| && !s.segs[i].IsFree() && !s.links[i].Stray?
  }

  /** A best-fit create that finds no room leaves the space as it is; a fixed create past the end of the list, a
      deletion whose walk does not come home, and an expansion into space that is not FREE, stop the kernel. */
  ghost function Apply(s: Space, op: Op): Option<Space>
    requires Legal(s, op)
  {
    match op
    case BestFitCreate(length, info, link) =>
      var r := BestFit.Create(s.segs, length, info);
      if r.Some? then Some(Space(r.value, [link] + s.links)) else Some(s)
    case FixedAddressCreate(addr, length, info) =>
      var r := Links.Create(s.segs, s.links, addr, length, info);
      if r.Some? then Some(Space(r.value.0, r.value.1)) else None
    case DeleteRegion(i) =>
      if s.links[i].Stray? then None
      else Some(Space(Coalesce.Delete(s.segs, i), Links.Delete(s.segs, s.links, i)))
    case ExpandUpward(i, size) =>
      var r := Expand.Upward(s.segs, i, size);
      if r.Some? then Some(Space(r.value, s.links)) else None
    case Relink(i, link) => Some(s.(links := s.links[i := link]))
  }

  /** A tiling with no two FREE regions side by side. */
  ghost predicate Tiled(s: Space) { Tiles(s.segs) && Coalesced(s.segs) && |s.segs| == |s.links| }

  /** A legal operation completes unless it deletes a region whose pointer strays or expands into space in use, and
      whatever operation completes keeps the tiling. */
  lemma ApplyKeepsTiling(s: Space, op: Op)
    requires Tiled(s) && Legal(s, op)
    ensures Apply(s, op).None? <==>
      || (op.DeleteRegion? && s.links[op.i].Stray?)
      || (op.ExpandUpward? && !Expand.FreePages(s.segs, s.segs[op.i].End(), op.size))
    ensures Apply(s, op).Some? ==> Tiled(Apply(s, op).value)
  {
    match op
    case BestFitCreate(length, info, _) => BestFit.CreateCarvesFree(s.segs, length, info);
    case FixedAddressCreate(addr, length, info) =>
      FixedCreate.CreateOverrides(s.segs, addr, length, info);
      Links.ScanNoneInside(s.segs, s.links, 0, addr, addr + 4096 * length);
      Links.CreateRefines(s.segs, s.links, addr, length, info);
    case DeleteRegion(i) => Coalesce.DeleteKeepsTiling(s.segs, i);
    case ExpandUpward(i, size) => Expand.UpwardGrows(s.segs, i, size);
    case Relink(_, _) =>
  }

  /** What lookup tells after an operation that completes. */
  ghost predicate Told(s: Space, op: Op, t: seq<Segment>)
    requires Legal(s, op)
  {
    match op
    case BestFitCreate(length, info, _) =>
      if BestFit.HasRoom(s.segs, length) then
        && t != [] && t[0].length == length
        && (forall a :: InfoAt(t, a) == if t[0].Has(a) then Some(info) else InfoAt(s.segs, a))
        && (forall a :: t[0].Has(a) ==> KindAt(s.segs, a) == Some(Free))
      else t == s.segs
    case FixedAddressCreate(addr, length, info) =>
      forall a :: InfoAt(t, a) == if addr <= a < addr + 4096 * length then Some(info) else InfoAt(s.segs, a)
    case DeleteRegion(i) =>
      && (forall a :: KindAt(t, a) == if s.segs[i].Has(a) then Some(Free) else KindAt(s.segs, a))
      && (forall a :: KindAt(t, a) != Some(Free) ==> InfoAt(t, a) == InfoAt(s.segs, a))
    case ExpandUpward(i, size) =>
      Expand.Retold(s.segs, t, s.segs[i].End(), s.segs[i].End() + 4096 * size, Some(s.segs[i].info))
    case Relink(_, _) => t == s.segs
  }

  lemma ApplyTells(s: Space, op: Op)
    requires Tiled(s) && Legal(s, op) && Apply(s, op).Some?
    ensures Told(s, op, Apply(s, op).value.segs)
  {
    match op
    case BestFitCreate(length, info, _) =>
      BestFit.CreateIffRoom(s.segs, length, info);
      BestFit.CreateCarvesFree(s.segs, length, info);
    case FixedAddressCreate(addr, length, info) =>
      FixedCreate.CreateOverrides(s.segs, addr, length, info);
      Links.CreateRefines(s.segs, s.links, addr, length, info);
    case DeleteRegion(i) =>
      Coalesce.DeleteFrees(s.segs, i);
      Coalesce.DeleteKeepsUsed(s.segs, i);
    case ExpandUpward(i, size) => Expand.UpwardGrows(s.segs, i, size);
    case Relink(_, _) =>
  }

  /** s leads to last by the given operations, each legal when it is made, and completed. */
  ghost predicate Run(s: Space, ops: seq<Op>, last: Space)
    decreases |ops|
  {
    if ops == [] then last == s
    else
      && Legal(s, ops[0])
      && Apply(s, ops[0]).Some?
      && Run(Apply(s, ops[0]).value, ops[1..], last)
  }

  lemma {:induction false} RunKeepsTiling(s: Space, ops: seq<Op>, last: Space)
    requires Tiled(s) && Run(s, ops, last)
    ensures Tiled(last)
    decreases |ops|
  {
    if ops != [] {
      ApplyKeepsTiling(s, ops[0]);
      RunKeepsTiling(Apply(s, ops[0]).value, ops[1..], last);
    }
  }

  const START := Space(INITIAL, [Links.Home, Links.Home])

  lemma StartTiled()
    ensures Tiled(START)
  {
    InitialTiles();
  }

  /** After any run from create_address_space, every user address is held by exactly one region, the one lookup
      returns; no other address is held; and no two FREE regions touch. */
  lemma ReachableTiling(ops: seq<Op>, last: Space)
    requires Run(START, ops, last)
    ensures Coalesced(last.segs)
    ensures forall a :: USER_START <= a < USER_END <==> Find(last.segs, a) < |last.segs|
    ensures forall a, i :: 0 <= i < |last.segs| && last.segs[i].Has(a) ==> i == Find(last.segs, a)
  {
    StartTiled();
    RunKeepsTiling(START, ops, last);
    forall a, i | 0 <= i < |last.segs| && last.segs[i].Has(a) ensures i == Find(last.segs, a) {
      FindUnique(last.segs, i, a);
    }
  }

  /** No legal create of a run from create_address_space steps past the end of the region list. */
  lemma LegalNeverRunsOff(ops: seq<Op>, last: Space, op: Op)
    requires Run(START, ops, last) && Legal(last, op) && op.FixedAddressCreate?
    ensures FixedCreate.Create(last.segs, op.addr, op.length, op.info).Some? && Apply(last, op).Some?
  {
    StartTiled();
    RunKeepsTiling(START, ops, last);
    ApplyKeepsTiling(last, op);
    FixedCreate.CreateOverrides(last.segs, op.addr, op.length, op.info);
  }

  /** After such a run, a fixed create between walls, over live regions only, completes exactly when an even number of
      wholly covered regions ends the list and none of those the loop gets to strays; and it keeps the tiling exactly
      when it is legal: no other is safe. */
  lemma LegalExactly(ops: seq<Op>, last: Space, addr: int, length: int, info: Info)
    requires Run(START, ops, last) && !info.kind.Free?
    requires FixedCreate.Target(addr, addr + 4096 * length)
    requires CompleteOverlap.Walled(last.segs, addr, addr + 4096 * length)
    requires forall j :: 0 <= j < |last.segs| && last.segs[j].Inside(addr, addr + 4096 * length) ==>
      0 < last.segs[j].length && !last.segs[j].IsFree()
    ensures |last.segs| == |last.links|
    ensures Links.EndsExactly(last.segs, last.links, addr, addr + 4096 * length,
              Links.Create(last.segs, last.links, addr, length, info))
    ensures SafeExactly(last, addr, length, info)
  {
    StartTiled();
    RunKeepsTiling(START, ops, last);
    TiledExactly(last, addr, length, info);
  }

  lemma TiledExactly(s: Space, addr: int, length: int, info: Info)
    requires Tiled(s) && !info.kind.Free?
    requires FixedCreate.Target(addr, addr + 4096 * length)
    requires CompleteOverlap.Walled(s.segs, addr, addr + 4096 * length)
    requires forall j :: 0 <= j < |s.segs| && s.segs[j].Inside(addr, addr + 4096 * length) ==>
      0 < s.segs[j].length && !s.segs[j].IsFree()
    ensures Links.EndsExactly(s.segs, s.links, addr, addr + 4096 * length,
              Links.Create(s.segs, s.links, addr, length, info))
    ensures SafeExactly(s, addr, length, info)
  {
    Links.CreateEndsExactly(s.segs, s.links, addr, length, info);
    TiledSafe(s, addr, length, info);
  }

  /** It completes and keeps the tiling exactly when it is legal. */
  ghost predicate SafeExactly(s: Space, addr: int, length: int, info: Info)
    requires |s.segs| == |s.links|
  {
    var r := Links.Create(s.segs, s.links, addr, length, info);
    (r.Some? && Tiles(r.value.0)) <==> Legal(s, FixedAddressCreate(addr, length, info))
  }

  lemma TiledSafe(s: Space, addr: int, length: int, info: Info)
    requires Tiled(s) && !info.kind.Free?
    requires FixedCreate.Target(addr, addr + 4096 * length)
    requires CompleteOverlap.Walled(s.segs, addr, addr + 4096 * length)
    requires forall j :: 0 <= j < |s.segs| && s.segs[j].Inside(addr, addr + 4096 * length) ==> 0 < s.segs[j].length
    ensures SafeExactly(s, addr, length, info)
  {
    Links.CreateRefines(s.segs, s.links, addr, length, info);
    CompleteOverlap.TilesIffNoneInside(s.segs, addr, length, info);
    if FixedCreate.NoneInside(s.segs, 0, addr, addr + 4096 * length) {
      Links.ScanNoneInside(s.segs, s.links, 0, addr, addr + 4096 * length);
    }
  }

  ghost predicate AllHome(s: Space) { Links.Sound(s.segs, s.links) && Links.NoStray(s.links) }

  /** The operation splits no region, deletes none that is on a ring and stays listed on its own, and links none to
      nowhere. */
  ghost predicate Gentle(s: Space, op: Op)
    requires Legal(s, op)
  {
    match op
    case BestFitCreate(length, info, link) => BestFit.HasRoom(s.segs, length) ==> !link.Stray?
    case FixedAddressCreate(addr, length, info) => Links.NoneStraddles(s.segs, 0, addr, addr + 4096 * length)
    case DeleteRegion(i) => s.links[i].Home? || KindAt(s.segs, s.segs[i].va - 1) == Some(Free)
    case ExpandUpward(_, _) => true
    case Relink(_, link) => !link.Stray?
  }

  /** Those, and only those, leave every pointer leading home. */
  lemma GentleExactly(s: Space, op: Op)
    requires Tiled(s) && AllHome(s) && Legal(s, op) && Apply(s, op).Some?
    ensures AllHome(Apply(s, op).value) <==> Gentle(s, op)
  {
    match op
    case BestFitCreate(_, _, _) => BestFitHome(s, op);
    case FixedAddressCreate(_, _, _) => FixedHome(s, op);
    case DeleteRegion(_) => DeletedHome(s, op);
    case ExpandUpward(_, _) => ExpandedHome(s, op);
    case Relink(_, _) => RelinkedHome(s, op);
  }

  lemma BestFitHome(s: Space, op: Op)
    requires AllHome(s) && Legal(s, op) && op.BestFitCreate?
    ensures Apply(s, op).Some? && (AllHome(Apply(s, op).value) <==> Gentle(s, op))
  {
    BestFit.CreateIffRoom(s.segs, op.length, op.info);
    if BestFit.HasRoom(s.segs, op.length) {
      PushedHome(s, Apply(s, op).value, op.link);
    }
  }

  lemma FixedHome(s: Space, op: Op)
    requires AllHome(s) && Legal(s, op) && op.FixedAddressCreate? && Apply(s, op).Some?
    ensures AllHome(Apply(s, op).value) <==> Gentle(s, op)
  {
    Links.CreateStrays(s.segs, s.links, op.addr, op.length, op.info);
  }

  lemma DeletedHome(s: Space, op: Op)
    requires AllHome(s) && Legal(s, op) && op.DeleteRegion?
    ensures Apply(s, op).Some? && (AllHome(Apply(s, op).value) <==> Gentle(s, op))
  {
    Links.DeleteStrays(s.segs, s.links, op.i);
  }

  lemma RelinkedHome(s: Space, op: Op)
    requires AllHome(s) && Legal(s, op) && op.Relink?
    ensures AllHome(Apply(s, op).value) <==> Gentle(s, op)
  {
    assert Apply(s, op).value.links[op.i] == op.link;
  }

  lemma PushedHome(s: Space, t: Space, link: Links.Link)
    requires AllHome(s) && |t.segs| == |s.segs| + 1 && t.links == [link] + s.links
    requires !t.segs[0].IsFree() && forall j :: 1 <= j < |t.segs| ==> t.segs[j].info == s.segs[j - 1].info
    ensures AllHome(t) <==> !link.Stray?
  {
    assert t.links[0] == link && forall j :: 0 < j < |t.links| ==> t.links[j] == s.links[j - 1];
  }

  lemma ExpandedHome(s: Space, op: Op)
    requires AllHome(s) && Legal(s, op) && op.ExpandUpward? && Apply(s, op).Some?
    ensures AllHome(Apply(s, op).value) && Gentle(s, op)
  {
    Expand.TakenSameKinds(s.segs, s.segs[op.i].End(), op.size);
  }

  ghost predicate GentleRun(s: Space, ops: seq<Op>, last: Space)
    decreases |ops|
  {
    if ops == [] then last == s
    else
      && Legal(s, ops[0]) && Gentle(s, ops[0])
      && Apply(s, ops[0]).Some?
      && GentleRun(Apply(s, ops[0]).value, ops[1..], last)
  }

  lemma {:induction false} GentleStaysHome(s: Space, ops: seq<Op>, last: Space)
    requires Tiled(s) && AllHome(s) && GentleRun(s, ops, last)
    ensures Tiled(last) && AllHome(last)
    decreases |ops|
  {
    if ops != [] {
      ApplyKeepsTiling(s, ops[0]);
      GentleExactly(s, ops[0]);
      GentleStaysHome(Apply(s, ops[0]).value, ops[1..], last);
    }
  }

  /** After a run of such operations from create_address_space every deletion completes. */
  lemma DeletesComplete(ops: seq<Op>, last: Space, i: nat)
    requires GentleRun(START, ops, last) && i < |last.segs|
    ensures Legal(last, DeleteRegion(i)) && Apply(last, DeleteRegion(i)).Some?
  {
    StartTiled();
    GentleStaysHome(START, ops, last);
  }

  /** A tiling in which lookup finds every type it found before, and everything about addresses in use. */
  ghost predicate Restored(before: seq<Segment>, after: seq<Segment>) {
    && Tiles(after) && Coalesced(after)
    && (forall a :: KindAt(after, a) == KindAt(before, a))
    && (forall a :: KindAt(before, a) != Some(Free) ==> InfoAt(after, a) == InfoAt(before, a))
  }

  /** The temporary window of a FIFO write: a best-fit clone followed by its deletion restores the space. The clone
      may fit exactly and leave an empty FREE region. */
  lemma WindowInvisible(segs: seq<Segment>, length: int, info: Info)
    requires Tiles(segs) && Coalesced(segs) && 0 < length && !info.kind.Free?
    requires BestFit.Create(segs, length, info).Some?
    ensures Restored(segs, Coalesce.Delete(BestFit.Create(segs, length, info).value, 0))
  {
    BestFit.CreateCarvesFree(segs, length, info);
    var made := BestFit.Create(segs, length, info).value;
    Coalesce.DeleteFrees(made, 0);
    Coalesce.DeleteKeepsUsed(made, 0);
    Coalesce.DeleteKeepsTiling(made, 0);
    var after := Coalesce.Delete(made, 0);
    forall a
      ensures KindAt(after, a) == KindAt(segs, a)
      ensures KindAt(segs, a) != Some(Free) ==> InfoAt(after, a) == InfoAt(segs, a)
    {
      assert InfoAt(made, a) == if made[0].Has(a) then Some(info) else InfoAt(segs, a);
    }
  }
}
