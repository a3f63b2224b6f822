/** create_region at a given address: trim or split what overlaps [addr, stop), then put the new region first. */
module FixedCreate {
  import opened Common
  import opened Segments
  import Coalesce

  /** What remains of a region that does not lie wholly inside [addr, stop): trimmed on the right,
      trimmed on the left, split in two, or untouched. */
  function Trim(s: Segment, addr: int, stop: int): (r: seq<Segment>)
    ensures 1 <= |r| <= 2
  {
    if s.va <= addr && s.End() <= stop && addr < s.End() then
      [s.(length := s.length - (s.End() - addr) / 4096)]
    else if stop < s.End() && addr <= s.va && s.va < stop then
      [s.(va := stop, length := s.length - (stop - s.va) / 4096)]
    else if s.va < addr && stop < s.End() then
      [s.(length := (addr - s.va) / 4096), Segment(stop, (s.End() - stop) / 4096, s.info)]
    else
      [s]
  }

  /** Element i replaced by one or two others. */
  function Splice(segs: seq<Segment>, i: nat, t: seq<Segment>): (r: seq<Segment>)
    requires i < |segs| && 1 <= |t|
    ensures |r| == |segs| + |t| - 1
    ensures forall j {:trigger r[j]} :: 0 <= j < i ==> r[j] == segs[j]
    ensures forall j :: 0 <= j < |t| ==> r[i + j] == t[j]
    ensures forall j :: i + |t| <= j < |r| ==> r[j] == segs[j - |t| + 1]
  {
    segs[..i] + t + segs[i + 1..]
  }

  /** A complete overlap in last position: the loop steps past the end of the list. */
  predicate RunsOff(segs: seq<Segment>, i: nat, addr: int, stop: int) {
    i + 1 == |segs| && segs[i].Inside(addr, stop)
  }

  /** One iteration of the loop at list position i, and the position of the next one. A region wholly inside is
      passed to delete_region, and the loop then steps over the region after it. */
  function Step(segs: seq<Segment>, i: nat, addr: int, stop: int): (r: (seq<Segment>, nat))
    requires i < |segs| && !RunsOff(segs, i, addr, stop)
    ensures r.1 <= |r.0| && |r.0| - r.1 < |segs| - i
  {
    if segs[i].Inside(addr, stop) then
      (Coalesce.Delete(segs, i), Coalesce.NextAfterDelete(segs, i, i + 2))
    else
      var t := Trim(segs[i], addr, stop);
      (Splice(segs, i, t), i + |t|)
  }

  /** The loop of create_region from list position i; None when it steps past the end of the list. */
  function Scan(segs: seq<Segment>, i: nat, addr: int, stop: int): Option<seq<Segment>>
    requires i <= |segs|
    decreases |segs| - i
  {
    if i == |segs| then Some(segs)
    else if RunsOff(segs, i, addr, stop) then None
    else
      var (after, next) := Step(segs, i, addr, stop);
      Scan(after, next, addr, stop)
  }

  /** Asking for a position by name: Ends speaks of Scan only where one is asked for, so that a proof does not unfold
      the scan at every step. */
  predicate Asked(i: nat) { true }

  /** The scan from position i on ends with out. */
  ghost predicate Ends(segs: seq<Segment>, i: nat, addr: int, stop: int, out: Option<seq<Segment>>) {
    i <= |segs| && forall j: nat {:trigger Asked(j)} :: Asked(j) && j == i ==> Scan(segs, i, addr, stop) == out
  }

  function Create(segs: seq<Segment>, addr: int, length: int, info: Info): Option<seq<Segment>> {
    match Scan(segs, 0, addr, addr + 4096 * length)
    case None => None
    case Some(out) => Some([Segment(addr, length, info)] + out)
  }

  /** No region from position i on takes the complete-overlap branch. */
  ghost predicate NoneInside(segs: seq<Segment>, i: nat, addr: int, stop: int) {
    forall j :: i <= j < |segs| ==> !segs[j].Inside(addr, stop)
  }

  /** A page-aligned, non-empty interval of user space. */
  ghost predicate Target(addr: int, stop: int) {
    addr % 4096 == 0 && stop % 4096 == 0 && USER_START <= addr < stop <= USER_END
  }

  /** p is a piece of s with nothing in [addr, stop). */
  ghost predicate Piece(p: Segment, s: Segment, addr: int, stop: int) {
    && p.WellFormed() && p.info == s.info && !p.Meets(addr, stop)
    && s.va <= p.va && p.End() <= s.End()
    && (p.va == s.va || p.va == stop) && (p.End() == s.End() || p.End() == addr)
  }

  /** The pieces are what s has outside [addr, stop), neither more nor less. */
  lemma TrimPieces(s: Segment, addr: int, stop: int)
    requires s.WellFormed() && Target(addr, stop) && !s.Inside(addr, stop)
    ensures var t := Trim(s, addr, stop);
      && (forall k :: 0 <= k < |t| ==> Piece(t[k], s, addr, stop))
      && (|t| == 2 ==> t[0].End() == addr && t[1].va == stop)
      && (0 < s.length ==> AllNonEmpty(t))
      && (forall a :: a < addr || stop <= a ==>
            (s.Has(a) <==> t[0].Has(a) || (|t| == 2 && t[1].Has(a))))
  {
    var t := Trim(s, addr, stop);
    var q, u, v := s.va / 4096, addr / 4096, stop / 4096;
    assert s.va == 4096 * q && addr == 4096 * u && stop == 4096 * v;
    if s.va <= addr && s.End() <= stop && addr < s.End() {
      assert t[0].End() == addr;
    } else if stop < s.End() && addr <= s.va && s.va < stop {
      assert t[0].End() == s.End();
    } else if s.va < addr && stop < s.End() {
      assert t[0].End() == addr && t[1].End() == s.End();
    }
  }

  /** One trimming step. */
  ghost predicate Trimmed(segs: seq<Segment>, i: nat, t: seq<Segment>, addr: int, stop: int) {
    && i < |segs| && Target(addr, stop) && !segs[i].Inside(addr, stop)
    && t == Trim(segs[i], addr, stop)
  }

  lemma PieceApart(p: Segment, s: Segment, o: Segment, addr: int, stop: int)
    requires s.WellFormed() && o.WellFormed() && Piece(p, s, addr, stop) && s.Apart(o)
    ensures p.Apart(o)
  {}

  lemma TrimKeepsProper(segs: seq<Segment>, i: nat, t: seq<Segment>, addr: int, stop: int)
    requires Proper(segs) && Trimmed(segs, i, t, addr, stop)
    ensures Proper(Splice(segs, i, t))
  {
    var after := Splice(segs, i, t);
    TrimPieces(segs[i], addr, stop);
    forall j, k | 0 <= j < k < |after| ensures after[j].Apart(after[k]) {
      if i <= j && k < i + |t| {
        assert t[0].End() == addr && t[1].va == stop;
      } else {
        var p := if j < i then j else if j < i + |t| then i else j - |t| + 1;
        var q := if k < i then k else if k < i + |t| then i else k - |t| + 1;
        ApartSymmetric(segs, p, q);
        if p == i {
          PieceApart(after[j], segs[i], segs[q], addr, stop);
        } else if q == i {
          PieceApart(after[k], segs[i], segs[p], addr, stop);
        }
      }
    }
    forall j | 0 <= j < |after| ensures after[j].WellFormed() {
      if i <= j < i + |t| {
        assert Piece(t[j - i], segs[i], addr, stop);
      }
    }
  }

  lemma TrimAt(segs: seq<Segment>, i: nat, t: seq<Segment>, addr: int, stop: int, a: int)
    requires Proper(segs) && Trimmed(segs, i, t, addr, stop)
    requires a < addr || stop <= a
    ensures InfoAt(Splice(segs, i, t), a) == InfoAt(segs, a)
  {
    var after := Splice(segs, i, t);
    TrimKeepsProper(segs, i, t, addr, stop);
    TrimPieces(segs[i], addr, stop);
    var k := Find(segs, a);
    if k == |segs| {
      forall j | 0 <= j < |after| ensures !after[j].Has(a) {
        if i <= j < i + |t| {
          assert after[j] == t[j - i];
        }
      }
    } else if k == i {
      FindUnique(after, if t[0].Has(a) then i else i + 1, a);
    } else {
      FindUnique(after, if k < i then k else k + |t| - 1, a);
    }
  }

  lemma TrimKeepsCoalesced(segs: seq<Segment>, i: nat, t: seq<Segment>, addr: int, stop: int)
    requires Proper(segs) && Coalesced(segs) && Trimmed(segs, i, t, addr, stop)
    ensures Coalesced(Splice(segs, i, t))
  {
    var after := Splice(segs, i, t);
    TrimPieces(segs[i], addr, stop);
    forall j, k | 0 <= j < |after| && 0 <= k < |after| ensures !Touch(after[j], after[k]) {
      var p := if j < i then j else if j < i + |t| then i else j - |t| + 1;
      var q := if k < i then k else if k < i + |t| then i else k - |t| + 1;
      assert !Touch(segs[p], segs[q]);
      if p != q {
        ApartSymmetric(segs, p, q);
      }
      if p == i {
        assert Piece(after[j], segs[i], addr, stop);
      }
      if q == i {
        assert Piece(after[k], segs[i], addr, stop);
      }
    }
  }

  /** The loop visits the upper part of a split too, and leaves it alone. */
  lemma UpperUntouched(segs: seq<Segment>, i: nat, addr: int, stop: int)
    requires Aligned(segs) && i < |segs| && Target(addr, stop) && !segs[i].Inside(addr, stop)
    requires |Trim(segs[i], addr, stop)| == 2
    ensures var after := Splice(segs, i, Trim(segs[i], addr, stop));
      && |Trim(after[i + 1], addr, stop)| == 1
      && Scan(after, i + 1, addr, stop) == Scan(after, i + 2, addr, stop)
  {
    var s, after := segs[i], Splice(segs, i, Trim(segs[i], addr, stop));
    var upper := Trim(s, addr, stop)[1];
    assert after[i + 1] == upper && upper.End() == s.End() > stop;
    assert Splice(after, i + 1, [upper]) == after;
    assert Step(after, i + 1, addr, stop) == (after, i + 2);
  }

  /** So the scan may go on from the very next node, split or not. */
  lemma VisitNext(segs: seq<Segment>, i: nat, addr: int, stop: int)
    requires Aligned(segs) && i < |segs| && Target(addr, stop) && !segs[i].Inside(addr, stop)
    ensures var t := Trim(segs[i], addr, stop); var after := Splice(segs, i, t);
      && Aligned(after)
      && Scan(after, i + 1, addr, stop) == Scan(segs, i, addr, stop)
      && (|t| == 2 ==> |Trim(after[i + 1], addr, stop)| == 1)
  {
    TrimKeepsAligned(segs, i, addr, stop);
    if |Trim(segs[i], addr, stop)| == 2 {
      UpperUntouched(segs, i, addr, stop);
    }
  }

  /** A region with addresses on both sides of the target is split. */
  predicate Straddles(s: Segment, addr: int, stop: int) { s.va < addr && stop < s.End() }

  lemma TrimSplits(s: Segment, addr: int, stop: int)
    requires Straddles(s, addr, stop)
    ensures Trim(s, addr, stop) ==
      [s.(length := (addr - s.va) / 4096), Segment(stop, (s.End() - stop) / 4096, s.info)]
  {}

  /** The upper part starts where the target ends, and is not empty. */
  lemma UpperAt(s: Segment, t: seq<Segment>, addr: int, stop: int)
    requires s.va % 4096 == 0 && Target(addr, stop) && t == Trim(s, addr, stop) && |t| == 2
    ensures t[1].va == stop && 0 < t[1].length
  {
    TrimSplits(s, addr, stop);
  }

  lemma SplitIffStraddles(s: Segment, addr: int, stop: int)
    ensures |Trim(s, addr, stop)| == 2 <==> Straddles(s, addr, stop)
  {}

  lemma TrimKeepsAligned(segs: seq<Segment>, i: nat, addr: int, stop: int)
    requires Aligned(segs) && i < |segs| && Target(addr, stop)
    ensures Aligned(Splice(segs, i, Trim(segs[i], addr, stop)))
  {
    var t := Trim(segs[i], addr, stop);
    var after := Splice(segs, i, t);
    forall j | 0 <= j < |after| ensures after[j].va % 4096 == 0 {
      if i <= j < i + |t| {
        assert after[j] == t[j - i];
      } else {
        assert after[j] == segs[if j < i then j else j - |t| + 1];
      }
    }
  }

  /** Without complete overlaps the loop clears the target and leaves every other address as it was. */
  lemma {:induction false} ScanClears(segs: seq<Segment>, i: nat, addr: int, stop: int)
    requires Proper(segs) && Target(addr, stop) && i <= |segs|
    requires NoneInside(segs, i, addr, stop)
    requires forall j :: 0 <= j < i ==> !segs[j].Meets(addr, stop)
    ensures var r := Scan(segs, i, addr, stop);
      && r.Some? && Proper(r.value) && (Coalesced(segs) ==> Coalesced(r.value))
      && (forall j :: 0 <= j < |r.value| ==> !r.value[j].Meets(addr, stop))
      && (forall a :: a < addr || stop <= a ==> InfoAt(r.value, a) == InfoAt(segs, a))
    decreases |segs| - i
  {
    if i < |segs| {
      var t := Trim(segs[i], addr, stop);
      var after := Splice(segs, i, t);
      TrimKeepsProper(segs, i, t, addr, stop);
      if Coalesced(segs) {
        TrimKeepsCoalesced(segs, i, t, addr, stop);
      }
      TrimPieces(segs[i], addr, stop);
      forall j | 0 <= j < i + |t| ensures !after[j].Meets(addr, stop) {
        if i <= j {
          assert Piece(t[j - i], segs[i], addr, stop);
        }
      }
      ScanClears(after, i + |t|, addr, stop);
      forall a | a < addr || stop <= a
        ensures InfoAt(Scan(segs, i, addr, stop).value, a) == InfoAt(segs, a)
      {
        TrimAt(segs, i, t, addr, stop, a);
      }
    }
  }

  /** Interval override on any disjoint list: inside the target lookup returns the new region, every other address
      keeps its type, attributes and parameter. */
  lemma CreateOverridesProper(segs: seq<Segment>, addr: int, length: int, info: Info)
    requires Proper(segs) && Target(addr, addr + 4096 * length)
    requires NoneInside(segs, 0, addr, addr + 4096 * length)
    ensures var r := Create(segs, addr, length, info);
      && r.Some? && Proper(r.value) && (Coalesced(segs) && !info.kind.Free? ==> Coalesced(r.value))
      && r.value[0] == Segment(addr, length, info)
      && forall a :: if addr <= a < addr + 4096 * length then Find(r.value, a) == 0
                     else InfoAt(r.value, a) == InfoAt(segs, a)
  {
    ScanClears(segs, 0, addr, addr + 4096 * length);
    PushNew(Scan(segs, 0, addr, addr + 4096 * length).value, Segment(addr, length, info));
  }

  /** Fixed-address create is interval override, and the tiling survives it. */
  lemma CreateOverrides(segs: seq<Segment>, addr: int, length: int, info: Info)
    requires Tiles(segs) && Target(addr, addr + 4096 * length)
    requires NoneInside(segs, 0, addr, addr + 4096 * length)
    ensures var r := Create(segs, addr, length, info);
      && r.Some? && Tiles(r.value) && (Coalesced(segs) && !info.kind.Free? ==> Coalesced(r.value))
      && r.value[0] == Segment(addr, length, info)
      && forall a :: if addr <= a < addr + 4096 * length then Find(r.value, a) == 0
                     else InfoAt(r.value, a) == InfoAt(segs, a)
  {
    CreateOverridesProper(segs, addr, length, info);
    var made := Create(segs, addr, length, info).value;
    forall a | USER_START <= a < USER_END ensures Find(made, a) < |made| {
      if !(addr <= a < addr + 4096 * length) {
        assert InfoAt(segs, a).Some?;
        assert InfoAt(made, a).Some?;
      }
    }
  }

  /** Trimming never empties a region. */
  lemma {:induction false} ScanKeepsNonEmpty(segs: seq<Segment>, i: nat, addr: int, stop: int)
    requires Proper(segs) && Target(addr, stop) && i <= |segs| && NoneInside(segs, i, addr, stop) && AllNonEmpty(segs)
    ensures var r := Scan(segs, i, addr, stop); r.Some? && AllNonEmpty(r.value)
    decreases |segs| - i
  {
    if i < |segs| {
      var t := Trim(segs[i], addr, stop);
      TrimKeepsProper(segs, i, t, addr, stop);
      TrimPieces(segs[i], addr, stop);
      ScanKeepsNonEmpty(Splice(segs, i, t), i + |t|, addr, stop);
    }
  }

  lemma CreateKeepsNonEmpty(segs: seq<Segment>, addr: int, length: int, info: Info)
    requires Proper(segs) && AllNonEmpty(segs) && Target(addr, addr + 4096 * length)
    requires NoneInside(segs, 0, addr, addr + 4096 * length)
    ensures var r := Create(segs, addr, length, info); r.Some? && AllNonEmpty(r.value)
  {
    ScanKeepsNonEmpty(segs, 0, addr, addr + 4096 * length);
  }

  lemma PushNew(out: seq<Segment>, s: Segment)
    requires Proper(out) && s.WellFormed() && 0 < s.length
    requires forall j :: 0 <= j < |out| ==> !out[j].Meets(s.va, s.End())
    ensures Proper([s] + out) && (Coalesced(out) && !s.IsFree() ==> Coalesced([s] + out))
    ensures forall a :: if s.Has(a) then Find([s] + out, a) == 0 else InfoAt([s] + out, a) == InfoAt(out, a)
  {
    var made := [s] + out;
    forall j, k | 0 <= j < k < |made| ensures made[j].Apart(made[k]) {
      if 0 < j {
        assert out[j - 1].Apart(out[k - 1]);
      } else {
        assert !out[k - 1].Meets(s.va, s.End());
      }
    }
    if Coalesced(out) && !s.IsFree() {
      forall j, k | 0 <= j < |made| && 0 <= k < |made| ensures !Touch(made[j], made[k]) {
        if 0 < j && 0 < k {
          assert !Touch(out[j - 1], out[k - 1]);
        }
      }
    }
    PushAt(out, s);
  }

  /** The newest region shadows whatever else holds an address. */
  lemma PushAt(out: seq<Segment>, s: Segment)
    ensures forall a :: if s.Has(a) then Find([s] + out, a) == 0 else InfoAt([s] + out, a) == InfoAt(out, a)
    ensures forall a :: !s.Has(a) ==> KindAt([s] + out, a) == KindAt(out, a)
  {
    assert ([s] + out)[1..] == out;
  }
}
