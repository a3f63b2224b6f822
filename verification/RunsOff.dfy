/** When a fixed create steps past the end of the list: every complete overlap makes the loop skip one region, so what
    counts is how many of them end the list. */
module RunsOff {
  import opened Common
  import opened Segments
  import opened FixedCreate
  import opened Coalesce
  import opened CompleteOverlap

  /** How many regions at the end of the list lie wholly inside the target. */
  function Trailing(segs: seq<Segment>, addr: int, stop: int): (k: nat)
    ensures k <= |segs|
    ensures forall j :: |segs| - k <= j < |segs| ==> segs[j].Inside(addr, stop)
    ensures k < |segs| ==> !segs[|segs| - 1 - k].Inside(addr, stop)
  {
    var n := |segs|;
    if n == 0 || !segs[n - 1].Inside(addr, stop) then 0 else 1 + Trailing(segs[..n - 1], addr, stop)
  }

  lemma TrailingFrom(segs: seq<Segment>, i: nat, addr: int, stop: int)
    requires i <= |segs|
    ensures var k := Trailing(segs, addr, stop);
      Trailing(segs[i..], addr, stop) == if k < |segs| - i then k else |segs| - i
  {
    var tail := segs[i..];
    var k, m := Trailing(segs, addr, stop), Trailing(tail, addr, stop);
    assert forall j :: i <= j < |segs| ==> segs[j] == tail[j - i];
  }

  /** No region from position i on is FREE and shares an address with the target. */
  ghost predicate NoFreeAhead(segs: seq<Segment>, i: nat, addr: int, stop: int) {
    forall j :: i <= j < |segs| && segs[j].IsFree() ==> !segs[j].Meets(addr, stop)
  }

  /** What a deletion inside a walled target merges with lies before position p. */
  lemma MergesBefore(segs: seq<Segment>, p: nat, b: int, addr: int, stop: int)
    requires Proper(segs) && Target(addr, stop) && Walled(segs, addr, stop) && NoFreeAhead(segs, p, addr, stop)
    requires addr - 1 <= b <= stop + 1 && KindAt(segs, b) == Some(Free)
    ensures Find(segs, b) < p
  {
    var k := Find(segs, b);
    if stop <= b {
      FindUnique(segs, k, stop);
    }
  }

  lemma MergeLeftTail(segs: seq<Segment>, i: nat, p: nat, addr: int, stop: int)
    requires Proper(segs) && Target(addr, stop) && Walled(segs, addr, stop) && NoFreeAhead(segs, p, addr, stop)
    requires i < p <= |segs| && segs[i].Inside(addr, stop)
    ensures var (s, m) := MergeLeft(segs, i); var q := NextLeft(segs, i, p);
      m < q && s[q..] == segs[p..] && NoFreeAhead(s, q, addr, stop)
  {
    if KindAt(segs, segs[i].va - 1) == Some(Free) {
      MergesBefore(segs, p, segs[i].va - 1, addr, stop);
      LeftFollows(segs, i);
    }
    var (s, m) := MergeLeft(segs, i);
    var q := NextLeft(segs, i, p);
    assert s[q..] == segs[p..];
    SameTail(segs, p, s, q, addr, stop);
  }

  lemma FinishTail(segs: seq<Segment>, m: nat, p: nat, addr: int, stop: int)
    requires Proper(segs) && Target(addr, stop) && Walled(segs, addr, stop) && NoFreeAhead(segs, p, addr, stop)
    requires m < p <= |segs| && segs[m].Inside(addr, stop)
    requires segs[m].length == 0 ==> KindAt(segs, segs[m].va - 1) != Some(Free)
    ensures Finish(segs, m)[NextRight(segs, m, p)..] == segs[p..]
  {
    if KindAt(segs, segs[m].End() + 1) == Some(Free) {
      MergesBefore(segs, p, segs[m].End() + 1, addr, stop);
      RightFollows(segs, m);
    }
  }

  /** With nothing FREE from position p on, deletion changes nothing there. */
  lemma DeleteKeepsTail(segs: seq<Segment>, i: nat, p: nat, addr: int, stop: int)
    requires Proper(segs) && Target(addr, stop) && Walled(segs, addr, stop) && NoFreeAhead(segs, p, addr, stop)
    requires i < p <= |segs| && segs[i].Inside(addr, stop)
    ensures Delete(segs, i)[NextAfterDelete(segs, i, p)..] == segs[p..]
  {
    var m := MergeLeft(segs, i);
    MergeLeftTail(segs, i, p, addr, stop);
    MergeLeftInside(segs, i, addr, stop);
    MergeLeftWalled(segs, i, addr, stop);
    MergeLeftProper(segs, i);
    FinishTail(m.0, m.1, NextLeft(segs, i, p), addr, stop);
  }

  lemma StepKeepsTail(segs: seq<Segment>, i: nat, p: nat, addr: int, stop: int)
    requires Proper(segs) && Target(addr, stop) && Walled(segs, addr, stop) && NoFreeAhead(segs, p, addr, stop)
    requires i < |segs| && !RunsOff(segs, i, addr, stop) && p == if segs[i].Inside(addr, stop) then i + 2 else i + 1
    ensures var (after, next) := Step(segs, i, addr, stop); after[next..] == segs[p..]
  {
    if segs[i].Inside(addr, stop) {
      DeleteKeepsTail(segs, i, p, addr, stop);
    }
  }

  lemma SameTail(segs: seq<Segment>, p: nat, after: seq<Segment>, next: nat, addr: int, stop: int)
    requires p <= |segs| && next <= |after| && after[next..] == segs[p..] && NoFreeAhead(segs, p, addr, stop)
    ensures NoFreeAhead(after, next, addr, stop)
  {
    forall j | next <= j < |after| && after[j].IsFree() ensures !after[j].Meets(addr, stop) {
      assert after[j] == after[next..][j - next] == segs[p..][j - next];
    }
  }

  /** What one iteration leaves to the next ones. */
  lemma StepTail(segs: seq<Segment>, i: nat, addr: int, stop: int)
    requires Proper(segs) && Target(addr, stop) && Walled(segs, addr, stop) && NoFreeAhead(segs, i, addr, stop)
    requires i < |segs| && !RunsOff(segs, i, addr, stop)
    ensures var (after, next) := Step(segs, i, addr, stop);
      && after[next..] == segs[if segs[i].Inside(addr, stop) then i + 2 else i + 1..]
      && Proper(after) && Walled(after, addr, stop) && NoFreeAhead(after, next, addr, stop)
  {
    var p := if segs[i].Inside(addr, stop) then i + 2 else i + 1;
    StepKeepsOutside(segs, i, addr, stop);
    StepKeepsTail(segs, i, p, addr, stop);
    var (after, next) := Step(segs, i, addr, stop);
    SameTail(segs, p, after, next, addr, stop);
  }

  /** Whether the regions ahead end in an odd number of wholly covered ones. */
  predicate OddAhead(segs: seq<Segment>, i: nat, addr: int, stop: int)
    requires i <= |segs|
  {
    Trailing(segs[i..], addr, stop) % 2 == 1
  }

  lemma OddNext(segs: seq<Segment>, i: nat, addr: int, stop: int)
    requires i < |segs|
    ensures RunsOff(segs, i, addr, stop) ==> OddAhead(segs, i, addr, stop)
    ensures !segs[i].Inside(addr, stop) ==> OddAhead(segs, i, addr, stop) == OddAhead(segs, i + 1, addr, stop)
    ensures segs[i].Inside(addr, stop) && i + 2 <= |segs| ==>
      OddAhead(segs, i, addr, stop) == OddAhead(segs, i + 2, addr, stop)
  {
    var k := Trailing(segs, addr, stop);
    TrailingFrom(segs, i, addr, stop);
    TrailingFrom(segs, i + 1, addr, stop);
    if i + 2 <= |segs| {
      TrailingFrom(segs, i + 2, addr, stop);
    }
    if !segs[i].Inside(addr, stop) {
      assert k < |segs| - i;
    } else if k < |segs| - i {
      assert k < |segs| - i - 1;
    }
  }

  lemma {:induction false} ScanRunsOff(segs: seq<Segment>, i: nat, addr: int, stop: int)
    requires Proper(segs) && Target(addr, stop) && Walled(segs, addr, stop) && NoFreeAhead(segs, i, addr, stop)
    requires i <= |segs|
    ensures Scan(segs, i, addr, stop).None? <==> OddAhead(segs, i, addr, stop)
    decreases |segs| - i
  {
    if i < |segs| {
      OddNext(segs, i, addr, stop);
      if !RunsOff(segs, i, addr, stop) {
        StepTail(segs, i, addr, stop);
        var (after, next) := Step(segs, i, addr, stop);
        ScanRunsOff(after, next, addr, stop);
      }
    }
  }

  lemma NoneFreeAhead(segs: seq<Segment>, addr: int, stop: int)
    requires Proper(segs) && Target(addr, stop) && Walled(segs, addr, stop)
    requires forall j :: 0 <= j < |segs| && segs[j].Inside(addr, stop) ==> !segs[j].FreeSpace()
    ensures NoFreeAhead(segs, 0, addr, stop)
  {
    forall j | 0 <= j < |segs| && segs[j].IsFree() ensures !segs[j].Meets(addr, stop) {
      if segs[j].Has(addr - 1) {
        FindUnique(segs, j, addr - 1);
      } else if segs[j].Has(stop) {
        FindUnique(segs, j, stop);
      }
    }
  }

  /** A fixed create over no FREE space, and bordered by none, steps past the end of the list exactly when the number
      of wholly covered regions at the end of the list is odd: the first of them is always visited, and each one
      visited makes the loop skip the next. */
  lemma RunsOffIffOdd(segs: seq<Segment>, addr: int, length: int, info: Info)
    requires Proper(segs) && Target(addr, addr + 4096 * length) && Walled(segs, addr, addr + 4096 * length)
    requires forall j :: 0 <= j < |segs| && segs[j].Inside(addr, addr + 4096 * length) ==> !segs[j].FreeSpace()
    ensures Create(segs, addr, length, info).None? <==> Trailing(segs, addr, addr + 4096 * length) % 2 == 1
  {
    var stop := addr + 4096 * length;
    NoneFreeAhead(segs, addr, stop);
    ScanRunsOff(segs, 0, addr, stop);
    assert segs[0..] == segs;
  }
}
