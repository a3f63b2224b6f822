/** delete_region on the region list: merge with a FREE neighbour on either side, then mark FREE. */
module Coalesce {
  import opened Common
  import opened Segments

  function Remove<T>(s: seq<T>, x: nat): (r: seq<T>)
    requires x < |s|
    ensures |r| == |s| - 1
    ensures forall q :: 0 <= q < |r| ==> r[q] == s[if q < x then q else q + 1]
  {
    s[..x] + s[x + 1..]
  }

  /** Where an index lands once x has been removed. */
  function Shift(p: nat, x: nat): int { if p < x then p else p - 1 }

  /** Where position p, or the first remaining one after it, lands once x has been removed. */
  function After(p: nat, x: nat): nat { if x < p then p - 1 else p }

  /** Region m grows by the length of x, and x leaves the list. */
  function Absorb(segs: seq<Segment>, m: nat, x: nat): seq<Segment>
    requires m < |segs| && x < |segs|
  {
    Remove(segs[m := segs[m].(length := segs[m].length + segs[x].length)], x)
  }

  /** The list and the index of the region being deleted after the merge with the earlier region. */
  function MergeLeft(segs: seq<Segment>, i: nat): (r: (seq<Segment>, nat))
    requires i < |segs|
    ensures r.1 < |r.0|
    ensures |r.0| <= |segs|
  {
    var l := Find(segs, segs[i].va - 1);
    if l < |segs| && segs[l].IsFree() then (Absorb(segs, l, i), Shift(l, i)) else (segs, i)
  }

  function MergeRight(segs: seq<Segment>, m: nat): (r: (seq<Segment>, nat))
    requires m < |segs|
    ensures r.1 < |r.0|
    ensures |r.0| <= |segs|
  {
    var x := Find(segs, segs[m].End() + 1);
    if x < |segs| && segs[x].IsFree() then (Absorb(segs, m, x), Shift(m, x)) else (segs, m)
  }

  function MarkFree(s: Segment): Segment { s.(info := s.info.(kind := Free)) }

  /** The region list after delete_region of region i. */
  function Delete(segs: seq<Segment>, i: nat): (r: seq<Segment>)
    requires i < |segs|
    ensures |r| <= |segs|
  {
    var (s, m) := MergeLeft(segs, i);
    Finish(s, m)
  }

  /** The second half of delete_region: merge with the later region and mark FREE. */
  function Finish(segs: seq<Segment>, m: nat): (r: seq<Segment>)
    requires m < |segs|
    ensures |r| <= |segs|
  {
    var (s, n) := MergeRight(segs, m);
    s[n := MarkFree(s[n])]
  }

  /** Where the region at position p, or the first remaining one after it, lands after each merge. */
  function NextLeft(segs: seq<Segment>, i: nat, p: nat): (q: nat)
    requires i < |segs| && p <= |segs|
    ensures q <= |MergeLeft(segs, i).0| && |MergeLeft(segs, i).0| - q <= |segs| - p
  {
    var l := Find(segs, segs[i].va - 1);
    if l < |segs| && segs[l].IsFree() then After(p, i) else p
  }

  function NextRight(segs: seq<Segment>, m: nat, p: nat): (q: nat)
    requires m < |segs| && p <= |segs|
    ensures q <= |MergeRight(segs, m).0| && |MergeRight(segs, m).0| - q <= |segs| - p
  {
    var x := Find(segs, segs[m].End() + 1);
    if x < |segs| && segs[x].IsFree() then After(p, x) else p
  }

  function NextAfterDelete(segs: seq<Segment>, i: nat, p: nat): (q: nat)
    requires i < |segs| && p <= |segs|
    ensures q <= |Delete(segs, i)| && |Delete(segs, i)| - q <= |segs| - p
  {
    var (s, m) := MergeLeft(segs, i);
    NextRight(s, m, NextLeft(segs, i, p))
  }

  /** delete_region moves no region's start, whatever the list. */
  lemma DeleteKeepsAligned(segs: seq<Segment>, i: nat)
    requires Aligned(segs) && i < |segs|
    ensures Aligned(Delete(segs, i))
  {
    var (s, m) := MergeLeft(segs, i);
    assert Aligned(s);
    assert Aligned(MergeRight(s, m).0);
  }

  /** x starts where m ends, or x is empty. */
  predicate Follows(m: Segment, x: Segment) { x.length == 0 || m.End() == x.va }

  lemma AbsorbPairApart(segs: seq<Segment>, m: nat, x: nat, p: nat, q: nat)
    requires Proper(segs) && m < |segs| && x < |segs| && m != x && Follows(segs[m], segs[x])
    requires p < |segs| && q < |segs| && p != x && q != x && p != q
    ensures var joined := segs[m := segs[m].(length := segs[m].length + segs[x].length)];
      joined[p].Apart(joined[q])
  {}

  lemma AbsorbKeepsProper(segs: seq<Segment>, m: nat, x: nat)
    requires Proper(segs) && m < |segs| && x < |segs| && m != x && Follows(segs[m], segs[x])
    ensures Proper(Absorb(segs, m, x))
  {
    var after := Absorb(segs, m, x);
    forall i, j | 0 <= i < j < |after| ensures after[i].Apart(after[j]) {
      AbsorbPairApart(segs, m, x, if i < x then i else i + 1, if j < x then j else j + 1);
    }
    assert segs[m].(length := segs[m].length + segs[x].length).WellFormed();
  }

  /** Absorbing hands the addresses of x to m and touches no other address. */
  lemma AbsorbAt(segs: seq<Segment>, m: nat, x: nat, a: int)
    requires Proper(segs) && m < |segs| && x < |segs| && m != x && Follows(segs[m], segs[x])
    ensures InfoAt(Absorb(segs, m, x), a) == if segs[x].Has(a) then Some(segs[m].info) else InfoAt(segs, a)
  {
    var after := Absorb(segs, m, x);
    AbsorbKeepsProper(segs, m, x);
    var k := Find(segs, a);
    if segs[x].Has(a) {
      FindUnique(after, Shift(m, x), a);
    } else if k < |segs| {
      FindUnique(after, Shift(k, x), a);
    } else {
      FindNone(after, a);
    }
  }

  /** The region found just below i ends where i starts. */
  lemma LeftFollows(segs: seq<Segment>, i: nat)
    requires Proper(segs) && i < |segs|
    ensures var l := Find(segs, segs[i].va - 1); l < |segs| ==> l != i && Follows(segs[l], segs[i])
  {}

  /** The region found just above m starts where m ends, provided nothing FREE lies just below an empty m. */
  lemma RightFollows(segs: seq<Segment>, m: nat)
    requires Proper(segs) && m < |segs|
    requires segs[m].length == 0 ==> KindAt(segs, segs[m].va - 1) != Some(Free)
    ensures var x := Find(segs, segs[m].End() + 1);
      x < |segs| && segs[x].IsFree() ==> x != m && Follows(segs[m], segs[x])
  {}

  lemma MergeLeftKeeps(segs: seq<Segment>, i: nat)
    requires Proper(segs) && i < |segs|
    ensures var (s, m) := MergeLeft(segs, i);
      && Proper(s)
      && (s[m].length == 0 ==> KindAt(s, s[m].va - 1) != Some(Free))
      && s[m].va <= segs[i].va && segs[i].End() <= s[m].End()
      && forall a :: if segs[i].Has(a) then s[m].Has(a)
                     else InfoAt(s, a) == InfoAt(segs, a) && (s[m].Has(a) ==> KindAt(s, a) == Some(Free))
  {
    var (s, m) := MergeLeft(segs, i);
    var l := Find(segs, segs[i].va - 1);
    LeftFollows(segs, i);
    if l < |segs| && segs[l].IsFree() {
      AbsorbKeepsProper(segs, l, i);
      forall a | !segs[i].Has(a)
        ensures InfoAt(s, a) == InfoAt(segs, a) && (s[m].Has(a) ==> KindAt(s, a) == Some(Free))
      {
        AbsorbAt(segs, l, i, a);
        if s[m].Has(a) {
          FindUnique(s, m, a);
        }
      }
    }
  }

  lemma MergeRightKeeps(segs: seq<Segment>, m: nat)
    requires Proper(segs) && m < |segs|
    requires segs[m].length == 0 ==> KindAt(segs, segs[m].va - 1) != Some(Free)
    ensures var (s, n) := MergeRight(segs, m);
      && Proper(s)
      && s[n].va == segs[m].va && segs[m].End() <= s[n].End()
      && s[n].info == segs[m].info
      && forall a :: if segs[m].Has(a) then s[n].Has(a)
                     else if s[n].Has(a) then KindAt(segs, a) == Some(Free)
                     else InfoAt(s, a) == InfoAt(segs, a)
  {
    var (s, n) := MergeRight(segs, m);
    var x := Find(segs, segs[m].End() + 1);
    RightFollows(segs, m);
    if x < |segs| && segs[x].IsFree() {
      AbsorbKeepsProper(segs, m, x);
      forall a | !segs[m].Has(a)
        ensures if s[n].Has(a) then KindAt(segs, a) == Some(Free) else InfoAt(s, a) == InfoAt(segs, a)
      {
        AbsorbAt(segs, m, x, a);
        if segs[x].Has(a) {
          FindUnique(segs, x, a);
        }
      }
    }
  }

  /** delete_region makes exactly the deleted interval FREE and changes the type of no other address. */
  lemma DeleteFrees(segs: seq<Segment>, i: nat)
    requires Proper(segs) && i < |segs|
    ensures Proper(Delete(segs, i))
    ensures forall a :: KindAt(Delete(segs, i), a) == if segs[i].Has(a) then Some(Free) else KindAt(segs, a)
  {
    var m := MergeLeft(segs, i);
    MergeLeftProper(segs, i);
    DeleteProper(segs, i);
    forall a
      ensures KindAt(Delete(segs, i), a) == if segs[i].Has(a) then Some(Free) else KindAt(segs, a)
    {
      MergeLeftKindAt(segs, i, a);
      FinishKindAt(m.0, m.1, a);
    }
  }

  lemma FinishProper(segs: seq<Segment>, m: nat)
    requires Proper(segs) && m < |segs|
    requires segs[m].length == 0 ==> KindAt(segs, segs[m].va - 1) != Some(Free)
    ensures Proper(Finish(segs, m))
  {
    MergeRightProper(segs, m);
    MarkFreeAt(MergeRight(segs, m).0, MergeRight(segs, m).1);
  }

  lemma DeleteProper(segs: seq<Segment>, i: nat)
    requires Proper(segs) && i < |segs|
    ensures Proper(Delete(segs, i))
  {
    MergeLeftProper(segs, i);
    FinishProper(MergeLeft(segs, i).0, MergeLeft(segs, i).1);
  }

  lemma MergeLeftKindAt(segs: seq<Segment>, i: nat, a: int)
    requires Proper(segs) && i < |segs|
    ensures var (s, m) := MergeLeft(segs, i);
      && (segs[i].Has(a) ==> s[m].Has(a))
      && (!segs[i].Has(a) ==> KindAt(s, a) == KindAt(segs, a) && (s[m].Has(a) ==> KindAt(s, a) == Some(Free)))
  {
    MergeLeftKeeps(segs, i);
  }

  lemma FinishKindAt(segs: seq<Segment>, m: nat, a: int)
    requires Proper(segs) && m < |segs|
    requires segs[m].length == 0 ==> KindAt(segs, segs[m].va - 1) != Some(Free)
    ensures KindAt(Finish(segs, m), a) == if segs[m].Has(a) then Some(Free) else KindAt(segs, a)
  {
    var (s, n) := MergeRight(segs, m);
    MergeRightKeeps(segs, m);
    MarkFreeAt(s, n);
  }

  /** Nothing changes about an address still in use. */
  lemma DeleteKeepsUsed(segs: seq<Segment>, i: nat)
    requires Proper(segs) && i < |segs|
    ensures forall a :: KindAt(Delete(segs, i), a) != Some(Free) ==> InfoAt(Delete(segs, i), a) == InfoAt(segs, a)
  {
    forall a | KindAt(Delete(segs, i), a) != Some(Free) ensures InfoAt(Delete(segs, i), a) == InfoAt(segs, a) {
      DeleteKeepsUsedAt(segs, i, a);
    }
  }

  lemma DeleteKeepsUsedAt(segs: seq<Segment>, i: nat, a: int)
    requires Proper(segs) && i < |segs| && KindAt(Delete(segs, i), a) != Some(Free)
    ensures InfoAt(Delete(segs, i), a) == InfoAt(segs, a)
  {
    var m := MergeLeft(segs, i);
    MergeLeftProper(segs, i);
    FinishAt(m.0, m.1, a);
    MergeLeftAt(segs, i, a);
  }

  lemma MergeLeftAt(segs: seq<Segment>, i: nat, a: int)
    requires Proper(segs) && i < |segs|
    ensures var (s, m) := MergeLeft(segs, i); !s[m].Has(a) ==> InfoAt(s, a) == InfoAt(segs, a)
  {
    MergeLeftKeeps(segs, i);
  }

  lemma FinishAt(segs: seq<Segment>, m: nat, a: int)
    requires Proper(segs) && m < |segs|
    requires segs[m].length == 0 ==> KindAt(segs, segs[m].va - 1) != Some(Free)
    ensures KindAt(Finish(segs, m), a) != Some(Free) ==>
      InfoAt(Finish(segs, m), a) == InfoAt(segs, a) && !segs[m].Has(a)
  {
    var (s, n) := MergeRight(segs, m);
    MergeRightKeeps(segs, m);
    MarkFreeAt(s, n);
  }

  lemma MarkFreeAt(segs: seq<Segment>, m: nat)
    requires Proper(segs) && m < |segs|
    ensures var after := segs[m := MarkFree(segs[m])];
      && Proper(after)
      && (forall a :: KindAt(after, a) == if segs[m].Has(a) then Some(Free) else KindAt(segs, a))
      && (forall a :: !segs[m].Has(a) ==> InfoAt(after, a) == InfoAt(segs, a))
  {
    var after := segs[m := MarkFree(segs[m])];
    forall j, k | 0 <= j < k < |after| ensures after[j].Apart(after[k]) {
      assert segs[j].Apart(segs[k]);
    }
    forall a
      ensures KindAt(after, a) == if segs[m].Has(a) then Some(Free) else KindAt(segs, a)
      ensures !segs[m].Has(a) ==> InfoAt(after, a) == InfoAt(segs, a)
    {
      var k := Find(segs, a);
      if segs[m].Has(a) {
        FindUnique(after, m, a);
      } else if k < |segs| {
        FindUnique(after, k, a);
      } else {
        FindNone(after, a);
      }
    }
  }

  /** s is FREE, non-empty, and ends where t starts. */
  predicate EndsAt(s: Segment, t: Segment) { s.FreeSpace() && s.End() == t.va }

  /** t is FREE, non-empty, and starts where s ends. */
  predicate StartsAt(s: Segment, t: Segment) { t.FreeSpace() && s.End() == t.va }

  /** No two FREE regions other than m touch, and none ends where m starts. */
  ghost predicate LeftClean(segs: seq<Segment>, m: nat)
    requires m < |segs|
  {
    && (forall j, k | 0 <= j < |segs| && 0 <= k < |segs| && j != m && k != m :: !Touch(segs[j], segs[k]))
    && (forall j | 0 <= j < |segs| && j != m :: !EndsAt(segs[j], segs[m]))
  }

  ghost predicate RightClean(segs: seq<Segment>, m: nat)
    requires m < |segs|
  {
    forall j | 0 <= j < |segs| && j != m :: !StartsAt(segs[m], segs[j])
  }

  lemma MergeLeftCleans(segs: seq<Segment>, i: nat)
    requires Proper(segs) && Coalesced(segs) && i < |segs|
    ensures var (s, m) := MergeLeft(segs, i); LeftClean(s, m)
  {
    var (s, m) := MergeLeft(segs, i);
    var l := Find(segs, segs[i].va - 1);
    if l < |segs| && segs[l].IsFree() {
      AbsorbLeftCleans(segs, l, i);
    } else {
      forall j | 0 <= j < |s| && j != m ensures !EndsAt(s[j], s[m]) {
        if EndsAt(s[j], s[m]) {
          FindUnique(segs, j, segs[i].va - 1);
        }
      }
    }
  }

  lemma AbsorbLeftCleans(segs: seq<Segment>, l: nat, i: nat)
    requires Coalesced(segs) && l < |segs| && i < |segs| && l != i && segs[l].FreeSpace()
    ensures LeftClean(Absorb(segs, l, i), Shift(l, i))
  {
    var s, m := Absorb(segs, l, i), Shift(l, i);
    forall j | 0 <= j < |s| && j != m ensures !EndsAt(s[j], s[m]) {
      var p := if j < i then j else j + 1;
      assert !Touch(segs[p], segs[l]);
    }
    forall j, k | 0 <= j < |s| && 0 <= k < |s| && j != m && k != m ensures !Touch(s[j], s[k]) {
      assert !Touch(segs[if j < i then j else j + 1], segs[if k < i then k else k + 1]);
    }
  }

  lemma AbsorbRightCleans(segs: seq<Segment>, m: nat, x: nat)
    requires m < |segs| && x < |segs| && m != x && LeftClean(segs, m)
    requires segs[x].FreeSpace() && Follows(segs[m], segs[x])
    ensures LeftClean(Absorb(segs, m, x), Shift(m, x)) && RightClean(Absorb(segs, m, x), Shift(m, x))
  {
    var s, n := Absorb(segs, m, x), Shift(m, x);
    forall j | 0 <= j < |s| && j != n ensures !EndsAt(s[j], s[n]) && !StartsAt(s[n], s[j]) {
      var p := if j < x then j else j + 1;
      assert !EndsAt(segs[p], segs[m]);
      assert !Touch(segs[x], segs[p]);
    }
    forall j, k | 0 <= j < |s| && 0 <= k < |s| && j != n && k != n ensures !Touch(s[j], s[k]) {
      assert !Touch(segs[if j < x then j else j + 1], segs[if k < x then k else k + 1]);
    }
  }

  lemma MergeRightCleans(segs: seq<Segment>, m: nat)
    requires Proper(segs) && m < |segs| && LeftClean(segs, m)
    requires segs[m].length == 0 ==> KindAt(segs, segs[m].va - 1) != Some(Free)
    ensures var (s, n) := MergeRight(segs, m); LeftClean(s, n) && RightClean(s, n)
  {
    var (s, n) := MergeRight(segs, m);
    var x := Find(segs, segs[m].End() + 1);
    if x < |segs| && segs[x].IsFree() {
      RightFollows(segs, m);
      AbsorbRightCleans(segs, m, x);
    } else {
      forall j | 0 <= j < |s| && j != n ensures !StartsAt(s[n], s[j]) {
        NothingFreeAbove(segs, m, j);
      }
    }
  }

  lemma NothingFreeAbove(segs: seq<Segment>, m: nat, j: nat)
    requires Proper(segs) && m < |segs| && j < |segs|
    requires KindAt(segs, segs[m].End() + 1) != Some(Free)
    ensures !StartsAt(segs[m], segs[j])
  {}

  lemma MarkFreeCoalesces(segs: seq<Segment>, m: nat)
    requires AllWellFormed(segs) && m < |segs| && LeftClean(segs, m) && RightClean(segs, m)
    ensures Coalesced(segs[m := MarkFree(segs[m])])
  {}

  lemma MergeLeftProper(segs: seq<Segment>, i: nat)
    requires Proper(segs) && i < |segs|
    ensures var (s, m) := MergeLeft(segs, i);
      Proper(s) && (s[m].length == 0 ==> KindAt(s, s[m].va - 1) != Some(Free))
  {
    MergeLeftKeeps(segs, i);
  }

  lemma MergeRightProper(segs: seq<Segment>, m: nat)
    requires Proper(segs) && m < |segs|
    requires segs[m].length == 0 ==> KindAt(segs, segs[m].va - 1) != Some(Free)
    ensures Proper(MergeRight(segs, m).0)
  {
    MergeRightKeeps(segs, m);
  }

  lemma FinishCoalesces(segs: seq<Segment>, m: nat)
    requires Proper(segs) && m < |segs| && LeftClean(segs, m)
    requires segs[m].length == 0 ==> KindAt(segs, segs[m].va - 1) != Some(Free)
    ensures Coalesced(Finish(segs, m))
  {
    MergeRightProper(segs, m);
    MergeRightCleans(segs, m);
    MarkFreeCoalesces(MergeRight(segs, m).0, MergeRight(segs, m).1);
  }

  lemma DeleteCoalesces(segs: seq<Segment>, i: nat)
    requires Proper(segs) && Coalesced(segs) && i < |segs|
    ensures Coalesced(Delete(segs, i))
  {
    var m := MergeLeft(segs, i);
    MergeLeftProper(segs, i);
    MergeLeftCleans(segs, i);
    FinishCoalesces(m.0, m.1);
  }

  /** Deletion keeps the tiling and leaves no two FREE regions side by side. */
  lemma DeleteKeepsTiling(segs: seq<Segment>, i: nat)
    requires Tiles(segs) && Coalesced(segs) && i < |segs|
    ensures Tiles(Delete(segs, i)) && Coalesced(Delete(segs, i))
  {
    var after := Delete(segs, i);
    DeleteFrees(segs, i);
    DeleteCoalesces(segs, i);
    forall a | USER_START <= a < USER_END ensures Find(after, a) < |after| {
      assert KindAt(segs, a).Some?;
      assert KindAt(after, a).Some?;
    }
  }
}
