/** What fixed-address create does when a region lies wholly inside the target. The comment on create_region says
    such regions are deleted; the code marks them FREE, leaves them listed, and skips the region after each. */
module CompleteOverlap {
  import opened Common
  import opened Segments
  import opened FixedCreate
  import opened Coalesce

  /** Outside [addr, stop) lookup finds every type t has, and at addresses in use attributes and parameter too. */
  ghost predicate SameOutside(s: seq<Segment>, t: seq<Segment>, addr: int, stop: int) {
    forall a :: a < addr || stop <= a ==>
      KindAt(s, a) == KindAt(t, a) && (KindAt(t, a) != Some(Free) ==> InfoAt(s, a) == InfoAt(t, a))
  }

  lemma TrimSameOutside(segs: seq<Segment>, i: nat, t: seq<Segment>, addr: int, stop: int)
    requires Proper(segs) && Trimmed(segs, i, t, addr, stop)
    ensures Proper(Splice(segs, i, t)) && SameOutside(Splice(segs, i, t), segs, addr, stop)
  {
    TrimKeepsProper(segs, i, t, addr, stop);
    forall a | a < addr || stop <= a
      ensures KindAt(Splice(segs, i, t), a) == KindAt(segs, a) && InfoAt(Splice(segs, i, t), a) == InfoAt(segs, a)
    {
      TrimAt(segs, i, t, addr, stop, a);
      KindOfInfo(Splice(segs, i, t), segs, a);
    }
  }

  lemma StepKeepsOutside(segs: seq<Segment>, i: nat, addr: int, stop: int)
    requires Proper(segs) && Target(addr, stop) && i < |segs| && !RunsOff(segs, i, addr, stop)
    ensures var after := Step(segs, i, addr, stop).0; Proper(after) && SameOutside(after, segs, addr, stop)
  {
    if segs[i].Inside(addr, stop) {
      DeleteFrees(segs, i);
      DeleteKeepsUsed(segs, i);
    } else {
      TrimSameOutside(segs, i, Trim(segs[i], addr, stop), addr, stop);
    }
  }

  /** Every completed scan, complete overlaps or not, keeps what lookup tells outside the target. */
  lemma {:induction false} ScanKeepsOutside(segs: seq<Segment>, i: nat, addr: int, stop: int)
    requires Proper(segs) && Target(addr, stop) && i <= |segs|
    ensures var r := Scan(segs, i, addr, stop);
      r.Some? ==> Proper(r.value) && SameOutside(r.value, segs, addr, stop)
    decreases |segs| - i
  {
    if i < |segs| && !RunsOff(segs, i, addr, stop) {
      StepKeepsOutside(segs, i, addr, stop);
      var (after, next) := Step(segs, i, addr, stop);
      ScanKeepsOutside(after, next, addr, stop);
    }
  }

  /** Lookup sees an interval override after every completed fixed create: what the loop leaves behind inside the
      target is shadowed by the new region at the head of the list, and outside the target every type is kept, with
      attributes and parameter of the addresses in use. */
  lemma CreateShadows(segs: seq<Segment>, addr: int, length: int, info: Info)
    requires Proper(segs) && Target(addr, addr + 4096 * length)
    ensures var r := Create(segs, addr, length, info);
      r.Some? ==>
        && (forall a :: addr <= a < addr + 4096 * length ==> Find(r.value, a) == 0 && InfoAt(r.value, a) == Some(info))
        && SameOutside(r.value, segs, addr, addr + 4096 * length)
  {
    var stop := addr + 4096 * length;
    ScanKeepsOutside(segs, 0, addr, stop);
    var r := Scan(segs, 0, addr, stop);
    if r.Some? {
      PushAt(r.value, Segment(addr, length, info));
    }
  }

  /** Region e is not empty and lies wholly inside the target. */
  ghost predicate Leftover(segs: seq<Segment>, e: nat, addr: int, stop: int) {
    e < |segs| && 0 < segs[e].length && segs[e].Inside(addr, stop)
  }

  /** Nothing FREE borders the target. */
  ghost predicate Walled(segs: seq<Segment>, addr: int, stop: int) {
    KindAt(segs, addr - 1) != Some(Free) && KindAt(segs, stop) != Some(Free)
  }

  lemma MergeLeftWalled(segs: seq<Segment>, i: nat, addr: int, stop: int)
    requires Proper(segs) && Target(addr, stop) && Walled(segs, addr, stop)
    requires i < |segs| && segs[i].Inside(addr, stop)
    ensures Walled(MergeLeft(segs, i).0, addr, stop)
  {
    MergeLeftKeeps(segs, i);
    KindOfInfo(MergeLeft(segs, i).0, segs, addr - 1);
    KindOfInfo(MergeLeft(segs, i).0, segs, stop);
  }

  /** Merging to the left cannot reach below a walled target. */
  lemma MergeLeftInside(segs: seq<Segment>, i: nat, addr: int, stop: int)
    requires Proper(segs) && Target(addr, stop) && Walled(segs, addr, stop)
    requires i < |segs| && segs[i].Inside(addr, stop)
    ensures var (s, m) := MergeLeft(segs, i); s[m].Inside(addr, stop)
  {
    var l := Find(segs, segs[i].va - 1);
    LeftFollows(segs, i);
    if l < |segs| && segs[l].IsFree() && segs[l].va < addr {
      FindUnique(segs, l, addr - 1);
    }
  }

  lemma MergeLeftStays(segs: seq<Segment>, i: nat, e: nat, addr: int, stop: int) returns (e': nat)
    requires Proper(segs) && Target(addr, stop) && Walled(segs, addr, stop)
    requires i < |segs| && segs[i].Inside(addr, stop) && Leftover(segs, e, addr, stop)
    ensures Leftover(MergeLeft(segs, i).0, e', addr, stop)
  {
    var (s, m) := MergeLeft(segs, i);
    var l := Find(segs, segs[i].va - 1);
    MergeLeftInside(segs, i, addr, stop);
    e' := if |s| == |segs| then e else if e == i || e == l then m else Shift(e, i);
  }

  lemma AbsorbStays(segs: seq<Segment>, m: nat, x: nat, e: nat, addr: int, stop: int) returns (e': nat)
    requires AllWellFormed(segs) && m < |segs| && x < |segs| && m != x && Follows(segs[m], segs[x])
    requires segs[m].Inside(addr, stop) && segs[x].End() <= stop && Leftover(segs, e, addr, stop)
    ensures Leftover(Absorb(segs, m, x), e', addr, stop)
  {
    e' := if e == m || e == x then Shift(m, x) else Shift(e, x);
  }

  lemma FinishStays(segs: seq<Segment>, m: nat, e: nat, addr: int, stop: int) returns (e': nat)
    requires Proper(segs) && Target(addr, stop) && Walled(segs, addr, stop)
    requires m < |segs| && segs[m].Inside(addr, stop)
    requires segs[m].length == 0 ==> KindAt(segs, segs[m].va - 1) != Some(Free)
    requires Leftover(segs, e, addr, stop)
    ensures Leftover(Finish(segs, m), e', addr, stop)
  {
    var x := Find(segs, segs[m].End() + 1);
    RightFollows(segs, m);
    e' := e;
    if x < |segs| && segs[x].IsFree() {
      if stop < segs[x].End() {
        FindUnique(segs, x, stop);
      }
      e' := AbsorbStays(segs, m, x, e, addr, stop);
    }
    MarkStays(MergeRight(segs, m).0, MergeRight(segs, m).1, e', addr, stop);
  }

  lemma MarkStays(segs: seq<Segment>, n: nat, e: nat, addr: int, stop: int)
    requires n < |segs| && Leftover(segs, e, addr, stop)
    ensures Leftover(segs[n := MarkFree(segs[n])], e, addr, stop)
  {}

  lemma DeleteStays(segs: seq<Segment>, i: nat, e: nat, addr: int, stop: int) returns (e': nat)
    requires Proper(segs) && Target(addr, stop) && Walled(segs, addr, stop)
    requires i < |segs| && segs[i].Inside(addr, stop) && Leftover(segs, e, addr, stop)
    ensures Leftover(Delete(segs, i), e', addr, stop) && Walled(Delete(segs, i), addr, stop)
  {
    e' := MergeLeftStays(segs, i, e, addr, stop);
    MergeLeftInside(segs, i, addr, stop);
    MergeLeftWalled(segs, i, addr, stop);
    MergeLeftProper(segs, i);
    var m := MergeLeft(segs, i);
    e' := FinishStays(m.0, m.1, e', addr, stop);
    DeleteFrees(segs, i);
  }

  lemma StepLeaves(segs: seq<Segment>, i: nat, e: nat, addr: int, stop: int) returns (e': nat)
    requires Proper(segs) && Target(addr, stop) && Walled(segs, addr, stop)
    requires i < |segs| && !RunsOff(segs, i, addr, stop) && Leftover(segs, e, addr, stop)
    ensures var after := Step(segs, i, addr, stop).0; Leftover(after, e', addr, stop) && Walled(after, addr, stop)
  {
    if segs[i].Inside(addr, stop) {
      e' := DeleteStays(segs, i, e, addr, stop);
    } else {
      var t := Trim(segs[i], addr, stop);
      TrimSameOutside(segs, i, t, addr, stop);
      e' := if e < i then e else e + |t| - 1;
    }
  }

  /** With no FREE space bordering the target, what lies inside it is still there when the loop ends. */
  lemma {:induction false} ScanLeaves(segs: seq<Segment>, i: nat, e: nat, addr: int, stop: int) returns (e': nat)
    requires Proper(segs) && Target(addr, stop) && Walled(segs, addr, stop) && i <= |segs|
    requires Leftover(segs, e, addr, stop)
    ensures var r := Scan(segs, i, addr, stop); r.Some? ==> Leftover(r.value, e', addr, stop)
    decreases |segs| - i
  {
    e' := e;
    if i < |segs| && !RunsOff(segs, i, addr, stop) {
      e' := StepLeaves(segs, i, e, addr, stop);
      StepKeepsOutside(segs, i, addr, stop);
      var (after, next) := Step(segs, i, addr, stop);
      e' := ScanLeaves(after, next, e', addr, stop);
    }
  }

  lemma KindOfInfo(s: seq<Segment>, t: seq<Segment>, a: int)
    requires InfoAt(s, a) == InfoAt(t, a)
    ensures KindAt(s, a) == KindAt(t, a)
  {}

  lemma LeftoverBreaks(segs: seq<Segment>, e: nat, addr: int, length: int, info: Info)
    requires Proper(segs) && Target(addr, addr + 4096 * length) && Walled(segs, addr, addr + 4096 * length)
    requires Leftover(segs, e, addr, addr + 4096 * length)
    ensures var r := Create(segs, addr, length, info); r.Some? ==> !Disjoint(r.value)
  {
    var e' := ScanLeaves(segs, 0, e, addr, addr + 4096 * length);
    var out := Scan(segs, 0, addr, addr + 4096 * length);
    if out.Some? {
      PushOverlaps(out.value, e', Segment(addr, length, info));
    }
  }

  lemma PushOverlaps(out: seq<Segment>, e: nat, s: Segment)
    requires Leftover(out, e, s.va, s.End())
    ensures !Disjoint([s] + out)
  {
    assert !([s] + out)[0].Apart(([s] + out)[e + 1]);
  }

  /** For a target bordered by no FREE space and holding no empty region, a fixed create completes and keeps the
      tiling if and only if no region lies wholly inside the target. */
  lemma TilesIffNoneInside(segs: seq<Segment>, addr: int, length: int, info: Info)
    requires Tiles(segs)
    requires Target(addr, addr + 4096 * length) && Walled(segs, addr, addr + 4096 * length)
    requires forall j :: 0 <= j < |segs| && segs[j].Inside(addr, addr + 4096 * length) ==> 0 < segs[j].length
    ensures var r := Create(segs, addr, length, info);
      (r.Some? && Tiles(r.value)) <==> NoneInside(segs, 0, addr, addr + 4096 * length)
  {
    var stop := addr + 4096 * length;
    if NoneInside(segs, 0, addr, stop) {
      CreateOverrides(segs, addr, length, info);
    } else {
      var e :| 0 <= e < |segs| && segs[e].Inside(addr, stop);
      LeftoverBreaks(segs, e, addr, length, info);
    }
  }

  /** A tiled space, as two CORE regions around one page of library, where replacing that page breaks the tiling. */
  const CORE_INFO := Info(Core, 0, 0)
  const LIBRARY_INFO := Info(Library, 0, 0)
  const BELOW := Segment(USER_START, 1, CORE_INFO)
  const PAGE := Segment(USER_START + 4096, 1, LIBRARY_INFO)
  const ABOVE := Segment(USER_START + 8192, 0x7_FFFE, CORE_INFO)

  const LEFT := PAGE.(info := Info(Free, 0, 0))

  /** Replacing the middle page leaves it in the list, FREE, under the new region. */
  lemma ReplaceLeavesPage()
    ensures Create([BELOW, PAGE, ABOVE], PAGE.va, 1, CORE_INFO)
      == Some([Segment(PAGE.va, 1, CORE_INFO), BELOW, LEFT, ABOVE])
  {
    var segs, out, addr, stop := [BELOW, PAGE, ABOVE], [BELOW, LEFT, ABOVE], PAGE.va, PAGE.va + 4096;
    assert Step(segs, 0, addr, stop) == (segs, 1) by { assert Splice(segs, 0, [BELOW]) == segs; }
    assert Step(segs, 1, addr, stop) == (out, 3) by { DeletePage(); }
    assert Scan(segs, 0, addr, stop) == Scan(segs, 1, addr, stop) == Scan(out, 3, addr, stop) == Some(out);
    assert [Segment(PAGE.va, 1, CORE_INFO)] + out == [Segment(PAGE.va, 1, CORE_INFO), BELOW, LEFT, ABOVE];
  }

  lemma ReplaceBreaksTiling()
    ensures Tiles([BELOW, PAGE, ABOVE])
    ensures !Tiles([Segment(PAGE.va, 1, CORE_INFO), BELOW, LEFT, ABOVE])
  {
    var segs, made := [BELOW, PAGE, ABOVE], [Segment(PAGE.va, 1, CORE_INFO), BELOW, LEFT, ABOVE];
    assert !made[0].Apart(made[2]);
    forall a | USER_START <= a < USER_END ensures Find(segs, a) < 3 {
      assert segs[0].Has(a) || segs[1].Has(a) || segs[2].Has(a);
    }
  }

  /** The same space with the middle page listed last: the loop runs past the end of the list. */
  lemma ReplaceRunsOff()
    ensures Tiles([BELOW, ABOVE, PAGE]) && Create([BELOW, ABOVE, PAGE], PAGE.va, 1, CORE_INFO).None?
  {
    var last, stop := [BELOW, ABOVE, PAGE], PAGE.va + 4096;
    assert Step(last, 0, PAGE.va, stop) == (last, 1) by { assert Splice(last, 0, [BELOW]) == last; }
    assert Step(last, 1, PAGE.va, stop) == (last, 2) by { assert Splice(last, 1, [ABOVE]) == last; }
    assert Scan(last, 0, PAGE.va, stop) == Scan(last, 1, PAGE.va, stop) == Scan(last, 2, PAGE.va, stop);
    LastTiles();
  }

  lemma LastTiles()
    ensures Tiles([BELOW, ABOVE, PAGE])
  {
    var last := [BELOW, ABOVE, PAGE];
    forall a | USER_START <= a < USER_END ensures Find(last, a) < 3 {
      assert last[0].Has(a) || last[1].Has(a) || last[2].Has(a);
    }
  }

  lemma DeletePage()
    ensures var segs := [BELOW, PAGE, ABOVE];
      && Delete(segs, 1) == [BELOW, LEFT, ABOVE]
      && NextAfterDelete(segs, 1, 3) == 3
  {}
}
