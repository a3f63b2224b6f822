/** What the sharedmem_next of each listed region is good for. delete_region walks it before it merges, whatever the
    region's type, so a deletion, and a fixed create that covers a region, ends only if the walk comes home. */
module Links {
  import opened Common
  import opened Segments
  import FixedCreate
  import Coalesce
  import RunsOff
  import CompleteOverlap

  /** A region points to itself; or it is on a ring; or nothing brings its walk home: the pointer of a split's upper
      part, which the code leaves unset, the one a region keeps when it is taken off its ring, and a cleared one. */
  datatype Link = Home | Ring | Stray

  /** What deletion makes of a region's own link. */
  function Freed(link: Link): Link { if link.Home? then Home else Stray }

  /** The links after each merge of delete_region, and once the region is FREE. */
  function MergeLeft(segs: seq<Segment>, links: seq<Link>, i: nat): (r: seq<Link>)
    requires i < |segs| == |links|
    ensures |r| == |Coalesce.MergeLeft(segs, i).0|
  {
    if KindAt(segs, segs[i].va - 1) == Some(Free) then Coalesce.Remove(links, i) else links
  }

  function MergeRight(segs: seq<Segment>, links: seq<Link>, m: nat): (r: seq<Link>)
    requires m < |segs| == |links|
    ensures |r| == |Coalesce.MergeRight(segs, m).0|
  {
    var x := Find(segs, segs[m].End() + 1);
    if x < |segs| && segs[x].IsFree() then Coalesce.Remove(links, x) else links
  }

  function Finish(segs: seq<Segment>, links: seq<Link>, m: nat): (r: seq<Link>)
    requires m < |segs| == |links|
    ensures |r| == |Coalesce.Finish(segs, m)|
  {
    var n := Coalesce.MergeRight(segs, m).1;
    var right := MergeRight(segs, links, m);
    right[n := Freed(right[n])]
  }

  function Delete(segs: seq<Segment>, links: seq<Link>, i: nat): (r: seq<Link>)
    requires i < |segs| == |links|
    ensures |r| == |Coalesce.Delete(segs, i)|
  {
    var (s, m) := Coalesce.MergeLeft(segs, i);
    Finish(s, MergeLeft(segs, links, i), m)
  }

  /** A trimmed region keeps its link; the upper part of a split has none. */
  function Cut(links: seq<Link>, i: nat, pieces: nat): (r: seq<Link>)
    requires i < |links| && 1 <= pieces <= 2
    ensures |r| == |links| + pieces - 1
  {
    if pieces == 1 then links else links[..i + 1] + [Stray] + links[i + 1..]
  }

  /** The loop of create_region with the walks of the deletions it makes; None when it steps past the end of the list or
      deletes a region whose walk does not come home. */
  function Scan(segs: seq<Segment>, links: seq<Link>, i: nat, addr: int, stop: int)
    : (r: Option<(seq<Segment>, seq<Link>)>)
    requires i <= |segs| == |links|
    ensures r.Some? ==> |r.value.0| == |r.value.1|
    decreases |segs| - i
  {
    if i == |segs| then Some((segs, links))
    else if segs[i].Inside(addr, stop) && (links[i].Stray? || i + 1 == |segs|) then None
    else
      var (after, next) := FixedCreate.Step(segs, i, addr, stop);
      Scan(after, Turned(segs, links, i, addr, stop), next, addr, stop)
  }

  /** The links after one turn of the loop. */
  function Turned(segs: seq<Segment>, links: seq<Link>, i: nat, addr: int, stop: int): (r: seq<Link>)
    requires i < |segs| == |links| && !FixedCreate.RunsOff(segs, i, addr, stop)
    ensures |r| == |FixedCreate.Step(segs, i, addr, stop).0|
  {
    if segs[i].Inside(addr, stop) then Delete(segs, links, i)
    else Cut(links, i, |FixedCreate.Trim(segs[i], addr, stop)|)
  }

  /** The scan from position i on ends with out; see FixedCreate.Ends. */
  ghost predicate Ends(segs: seq<Segment>, links: seq<Link>, i: nat, addr: int, stop: int,
                       out: Option<(seq<Segment>, seq<Link>)>)
  {
    && i <= |segs| == |links|
    && forall j: nat {:trigger FixedCreate.Asked(j)} ::
         FixedCreate.Asked(j) && j == i ==> Scan(segs, links, i, addr, stop) == out
  }

  /** One turn of the loop leads to position next of after. */
  ghost predicate Turns(segs: seq<Segment>, links: seq<Link>, i: nat, after: seq<Segment>, rest: seq<Link>, next: nat,
                        addr: int, stop: int)
  {
    && |after| - next < |segs| - i
    && forall out {:trigger Ends(after, rest, next, addr, stop, out)}
                  {:trigger Ends(segs, links, i, addr, stop, out)} ::
         Ends(after, rest, next, addr, stop, out) <==> Ends(segs, links, i, addr, stop, out)
  }

  lemma StepTurns(segs: seq<Segment>, links: seq<Link>, i: nat, after: seq<Segment>, rest: seq<Link>, next: nat,
                  addr: int, stop: int)
    requires i < |segs| == |links| && !(segs[i].Inside(addr, stop) && (links[i].Stray? || i + 1 == |segs|))
    requires FixedCreate.Step(segs, i, addr, stop) == (after, next) && Turned(segs, links, i, addr, stop) == rest
    ensures Turns(segs, links, i, after, rest, next, addr, stop)
  {
    assert Scan(segs, links, i, addr, stop) == Scan(after, rest, next, addr, stop);
    forall out ensures Ends(after, rest, next, addr, stop, out) <==> Ends(segs, links, i, addr, stop, out) {
      EndsByScan(segs, links, i, after, rest, next, addr, stop, out);
    }
  }

  lemma EndsByScan(segs: seq<Segment>, links: seq<Link>, i: nat, after: seq<Segment>, rest: seq<Link>, next: nat,
                   addr: int, stop: int, out: Option<(seq<Segment>, seq<Link>)>)
    requires i <= |segs| == |links| && next <= |after| == |rest|
    requires Scan(segs, links, i, addr, stop) == Scan(after, rest, next, addr, stop)
    ensures Ends(after, rest, next, addr, stop, out) <==> Ends(segs, links, i, addr, stop, out)
  {
    assert FixedCreate.Asked(next) && FixedCreate.Asked(i);
  }

  /** The loop visits the upper part of a split too, and leaves it alone. */
  lemma UpperTurns(segs: seq<Segment>, links: seq<Link>, i: nat, addr: int, stop: int)
    requires i < |segs| == |links| && addr < stop && 0 < segs[i].length && segs[i].va == stop
    ensures Turns(segs, links, i, segs, links, i + 1, addr, stop)
  {
    assert FixedCreate.Trim(segs[i], addr, stop) == [segs[i]] && FixedCreate.Splice(segs, i, [segs[i]]) == segs;
    StepTurns(segs, links, i, segs, links, i + 1, addr, stop);
  }

  lemma LostEnds(segs: seq<Segment>, links: seq<Link>, i: nat, addr: int, stop: int,
                 out: Option<(seq<Segment>, seq<Link>)>)
    requires i < |segs| == |links| && segs[i].Inside(addr, stop) && (links[i].Stray? || i + 1 == |segs|)
    ensures Ends(segs, links, i, addr, stop, out) <==> out == None
  {
    assert FixedCreate.Asked(i);
  }

  lemma EndsHere(segs: seq<Segment>, links: seq<Link>, addr: int, stop: int, out: Option<(seq<Segment>, seq<Link>)>)
    requires |segs| == |links|
    ensures Ends(segs, links, |segs|, addr, stop, out) <==> out == Some((segs, links))
  {
    assert FixedCreate.Asked(|segs|);
  }

  /** create_region at a given address; the new region points to itself. */
  function Create(segs: seq<Segment>, links: seq<Link>, addr: int, length: int, info: Info)
    : (r: Option<(seq<Segment>, seq<Link>)>)
    requires |segs| == |links|
    ensures r.Some? ==> |r.value.0| == |r.value.1|
  {
    match Scan(segs, links, 0, addr, addr + 4096 * length)
    case None => None
    case Some((out, after)) => Some(([Segment(addr, length, info)] + out, [Home] + after))
  }

  /** When it ends, the list is the one FixedCreate specifies. */
  lemma {:induction false} ScanRefines(segs: seq<Segment>, links: seq<Link>, i: nat, addr: int, stop: int)
    requires i <= |segs| == |links|
    ensures var r := Scan(segs, links, i, addr, stop);
      r.Some? ==> FixedCreate.Scan(segs, i, addr, stop) == Some(r.value.0)
    decreases |segs| - i
  {
    if i < |segs| && !(segs[i].Inside(addr, stop) && (links[i].Stray? || i + 1 == |segs|)) {
      var (after, next) := FixedCreate.Step(segs, i, addr, stop);
      ScanRefines(after, Turned(segs, links, i, addr, stop), next, addr, stop);
    }
  }

  lemma CreateRefines(segs: seq<Segment>, links: seq<Link>, addr: int, length: int, info: Info)
    requires |segs| == |links|
    ensures var r := Create(segs, links, addr, length, info);
      r.Some? ==> FixedCreate.Create(segs, addr, length, info) == Some(r.value.0)
  {
    ScanRefines(segs, links, 0, addr, addr + 4096 * length);
  }

  /** The loop gets to the region at position j of the list as it was unless it deletes the one before. */
  predicate Visits(segs: seq<Segment>, j: nat, addr: int, stop: int)
    requires j <= |segs|
  {
    j == 0 || !(Visits(segs, j - 1, addr, stop) && segs[j - 1].Inside(addr, stop))
  }

  /** That is, if an even number of covered regions stands immediately before it. */
  lemma {:induction false} VisitsIffEven(segs: seq<Segment>, j: nat, addr: int, stop: int)
    requires j <= |segs|
    ensures Visits(segs, j, addr, stop) <==> RunsOff.Trailing(segs[..j], addr, stop) % 2 == 0
  {
    if j > 0 {
      VisitsIffEven(segs, j - 1, addr, stop);
      assert segs[..j][..j - 1] == segs[..j - 1];
    }
  }

  /** The rest of the list, of which nothing has been touched yet, lets the loop come to its end. */
  predicate Comes(segs: seq<Segment>, links: seq<Link>, addr: int, stop: int)
    requires |segs| == |links|
    decreases |segs|
  {
    segs == [] ||
    if segs[0].Inside(addr, stop) then !links[0].Stray? && 1 < |segs| && Comes(segs[2..], links[2..], addr, stop)
    else Comes(segs[1..], links[1..], addr, stop)
  }

  /** No region that the loop gets to and deletes, from position p on, strays or stands last. */
  ghost predicate Walks(segs: seq<Segment>, links: seq<Link>, p: nat, addr: int, stop: int)
    requires |segs| == |links|
  {
    forall j :: p <= j < |segs| && Visits(segs, j, addr, stop) && segs[j].Inside(addr, stop) ==>
      !links[j].Stray? && j + 1 < |segs|
  }

  lemma {:induction false} ComesIffWalks(segs: seq<Segment>, links: seq<Link>, p: nat, addr: int, stop: int)
    requires p <= |segs| == |links| && Visits(segs, p, addr, stop)
    ensures Comes(segs[p..], links[p..], addr, stop) <==> Walks(segs, links, p, addr, stop)
    decreases |segs| - p
  {
    if p < |segs| {
      assert segs[p..][1..] == segs[p + 1..] && links[p..][1..] == links[p + 1..];
      if !segs[p].Inside(addr, stop) {
        ComesIffWalks(segs, links, p + 1, addr, stop);
      } else if p + 1 < |segs| {
        assert segs[p..][2..] == segs[p + 2..] && links[p..][2..] == links[p + 2..];
        ComesIffWalks(segs, links, p + 2, addr, stop);
      }
    }
  }

  lemma DeleteKeepsTail(segs: seq<Segment>, links: seq<Link>, i: nat, p: nat, addr: int, stop: int)
    requires Proper(segs) && FixedCreate.Target(addr, stop) && CompleteOverlap.Walled(segs, addr, stop)
    requires RunsOff.NoFreeAhead(segs, p, addr, stop)
    requires i < p <= |segs| == |links| && segs[i].Inside(addr, stop)
    ensures Delete(segs, links, i)[Coalesce.NextAfterDelete(segs, i, p)..] == links[p..]
  {
    RunsOff.MergeLeftTail(segs, i, p, addr, stop);
    CompleteOverlap.MergeLeftInside(segs, i, addr, stop);
    CompleteOverlap.MergeLeftWalled(segs, i, addr, stop);
    Coalesce.MergeLeftProper(segs, i);
    var (s, m) := Coalesce.MergeLeft(segs, i);
    var q := Coalesce.NextLeft(segs, i, p);
    var left := MergeLeft(segs, links, i);
    assert left[q..] == links[p..];
    FinishKeepsTail(s, left, m, q, addr, stop);
  }

  lemma FinishKeepsTail(segs: seq<Segment>, links: seq<Link>, m: nat, p: nat, addr: int, stop: int)
    requires Proper(segs) && FixedCreate.Target(addr, stop) && CompleteOverlap.Walled(segs, addr, stop)
    requires RunsOff.NoFreeAhead(segs, p, addr, stop)
    requires m < p <= |segs| == |links| && segs[m].Inside(addr, stop)
    requires segs[m].length == 0 ==> KindAt(segs, segs[m].va - 1) != Some(Free)
    ensures Finish(segs, links, m)[Coalesce.NextRight(segs, m, p)..] == links[p..]
  {
    var x := Find(segs, segs[m].End() + 1);
    Coalesce.RightFollows(segs, m);
    if x < |segs| && segs[x].IsFree() {
      RunsOff.MergesBefore(segs, p, segs[m].End() + 1, addr, stop);
    }
    FinishTail(segs, links, m, p, x);
  }

  lemma FinishTail(segs: seq<Segment>, links: seq<Link>, m: nat, p: nat, x: nat)
    requires m < p <= |segs| == |links| && x == Find(segs, segs[m].End() + 1)
    requires x < |segs| && segs[x].IsFree() ==> x < p && x != m
    ensures Finish(segs, links, m)[Coalesce.NextRight(segs, m, p)..] == links[p..]
  {
    if x < |segs| && segs[x].IsFree() {
      assert Coalesce.Remove(links, x)[p - 1..] == links[p..];
    }
  }

  /** What the rest of the scan works on. */
  ghost predicate Ahead(segs: seq<Segment>, links: seq<Link>, i: nat, tail: seq<Segment>, rest: seq<Link>,
                        addr: int, stop: int)
  {
    && Proper(segs) && CompleteOverlap.Walled(segs, addr, stop) && RunsOff.NoFreeAhead(segs, i, addr, stop)
    && i <= |segs| == |links| && segs[i..] == tail && links[i..] == rest
  }

  lemma OtherAhead(segs: seq<Segment>, links: seq<Link>, i: nat, tail: seq<Segment>, rest: seq<Link>,
                   addr: int, stop: int)
    returns (after: seq<Segment>, left: seq<Link>, next: nat)
    requires FixedCreate.Target(addr, stop) && Ahead(segs, links, i, tail, rest, addr, stop)
    requires i < |segs| && !segs[i].Inside(addr, stop)
    ensures Turns(segs, links, i, after, left, next, addr, stop)
    ensures Ahead(after, left, next, tail[1..], rest[1..], addr, stop)
  {
    RunsOff.StepTail(segs, i, addr, stop);
    after, next := FixedCreate.Step(segs, i, addr, stop).0, FixedCreate.Step(segs, i, addr, stop).1;
    left := Turned(segs, links, i, addr, stop);
    StepTurns(segs, links, i, after, left, next, addr, stop);
  }

  lemma InsideAhead(segs: seq<Segment>, links: seq<Link>, i: nat, tail: seq<Segment>, rest: seq<Link>,
                    addr: int, stop: int)
    returns (after: seq<Segment>, left: seq<Link>, next: nat)
    requires FixedCreate.Target(addr, stop) && Ahead(segs, links, i, tail, rest, addr, stop)
    requires i + 1 < |segs| && segs[i].Inside(addr, stop) && !links[i].Stray?
    ensures Turns(segs, links, i, after, left, next, addr, stop)
    ensures Ahead(after, left, next, tail[2..], rest[2..], addr, stop)
  {
    RunsOff.StepTail(segs, i, addr, stop);
    DeleteKeepsTail(segs, links, i, i + 2, addr, stop);
    after, next := FixedCreate.Step(segs, i, addr, stop).0, FixedCreate.Step(segs, i, addr, stop).1;
    left := Turned(segs, links, i, addr, stop);
    StepTurns(segs, links, i, after, left, next, addr, stop);
  }

  lemma {:induction false} ScanIffComes(segs: seq<Segment>, links: seq<Link>, i: nat, tail: seq<Segment>,
                                        rest: seq<Link>, addr: int, stop: int)
    returns (out: Option<(seq<Segment>, seq<Link>)>)
    requires FixedCreate.Target(addr, stop) && Ahead(segs, links, i, tail, rest, addr, stop)
    ensures |tail| == |rest| && Ends(segs, links, i, addr, stop, out) && (out.Some? <==> Comes(tail, rest, addr, stop))
    decreases |segs| - i
  {
    if i == |segs| {
      out := Some((segs, links));
      EndsHere(segs, links, addr, stop, out);
    } else {
      assert tail[0] == segs[i] && rest[0] == links[i];
      if !segs[i].Inside(addr, stop) {
        var after, left, next := OtherAhead(segs, links, i, tail, rest, addr, stop);
        out := ScanIffComes(after, left, next, tail[1..], rest[1..], addr, stop);
      } else if links[i].Stray? || i + 1 == |segs| {
        out := None;
        LostEnds(segs, links, i, addr, stop, out);
      } else {
        var after, left, next := InsideAhead(segs, links, i, tail, rest, addr, stop);
        out := ScanIffComes(after, left, next, tail[2..], rest[2..], addr, stop);
      }
    }
  }

  /** A fixed create over no FREE space, and bordered by none, ends exactly if the regions it deletes all find home and
      none of them stands last in the list. */
  lemma ScanEndsIff(segs: seq<Segment>, links: seq<Link>, addr: int, stop: int)
    returns (out: Option<(seq<Segment>, seq<Link>)>)
    requires |segs| == |links| && Proper(segs) && FixedCreate.Target(addr, stop)
    requires CompleteOverlap.Walled(segs, addr, stop)
    requires forall j :: 0 <= j < |segs| && segs[j].Inside(addr, stop) ==> !segs[j].FreeSpace()
    ensures Ends(segs, links, 0, addr, stop, out)
    ensures out.Some? <==> Walks(segs, links, 0, addr, stop)
  {
    RunsOff.NoneFreeAhead(segs, addr, stop);
    assert segs[0..] == segs && links[0..] == links && segs[..0] == [];
    out := ScanIffComes(segs, links, 0, segs, links, addr, stop);
    ComesIffWalks(segs, links, 0, addr, stop);
  }

  /** A create that covers no region makes no deletion and always ends. */
  lemma {:induction false} ScanNoneInside(segs: seq<Segment>, links: seq<Link>, i: nat, addr: int, stop: int)
    requires Proper(segs) && FixedCreate.Target(addr, stop) && i <= |segs| == |links|
    requires FixedCreate.NoneInside(segs, i, addr, stop)
    ensures Scan(segs, links, i, addr, stop).Some?
    decreases |segs| - i
  {
    if i < |segs| {
      var t := FixedCreate.Trim(segs[i], addr, stop);
      FixedCreate.TrimKeepsProper(segs, i, t, addr, stop);
      ScanNoneInside(FixedCreate.Splice(segs, i, t), Cut(links, i, |t|), i + |t|, addr, stop);
    }
  }

  /** No region that the loop gets to and deletes strays. */
  ghost predicate NoneStrays(segs: seq<Segment>, links: seq<Link>, addr: int, stop: int)
    requires |segs| == |links|
  {
    forall j :: 0 <= j < |segs| && Visits(segs, j, addr, stop) && segs[j].Inside(addr, stop) ==> !links[j].Stray?
  }

  lemma WalksIffEven(segs: seq<Segment>, links: seq<Link>, addr: int, stop: int,
                     r: Option<(seq<Segment>, seq<Link>)>)
    requires |segs| == |links| && (r.Some? <==> Walks(segs, links, 0, addr, stop))
    ensures EndsExactly(segs, links, addr, stop, r)
  {
    assert segs[..|segs|] == segs;
    VisitsIffEven(segs, |segs|, addr, stop);
  }

  /** In other words: exactly if an even number of covered regions ends the list and none that it deletes strays. */
  lemma CreateEndsExactly(segs: seq<Segment>, links: seq<Link>, addr: int, length: int, info: Info)
    requires |segs| == |links| && Proper(segs) && FixedCreate.Target(addr, addr + 4096 * length)
    requires CompleteOverlap.Walled(segs, addr, addr + 4096 * length)
    requires forall j :: 0 <= j < |segs| && segs[j].Inside(addr, addr + 4096 * length) ==> !segs[j].FreeSpace()
    ensures EndsExactly(segs, links, addr, addr + 4096 * length, Create(segs, links, addr, length, info))
  {
    var out := ScanEndsIff(segs, links, addr, addr + 4096 * length);
    WalksIffEven(segs, links, addr, addr + 4096 * length, out);
    CreateByScan(segs, links, addr, length, info, out);
  }

  lemma CreateByScan(segs: seq<Segment>, links: seq<Link>, addr: int, length: int, info: Info,
                     out: Option<(seq<Segment>, seq<Link>)>)
    requires |segs| == |links| && Ends(segs, links, 0, addr, addr + 4096 * length, out)
    ensures Create(segs, links, addr, length, info).Some? <==> out.Some?
  {
    assert FixedCreate.Asked(0);
  }

  ghost predicate EndsExactly(segs: seq<Segment>, links: seq<Link>, addr: int, stop: int,
                              r: Option<(seq<Segment>, seq<Link>)>)
    requires |segs| == |links|
  {
    r.Some? <==> RunsOff.Trailing(segs, addr, stop) % 2 == 0 && NoneStrays(segs, links, addr, stop)
  }

  /** A FREE region is on no ring. */
  ghost predicate Sound(segs: seq<Segment>, links: seq<Link>) {
    |segs| == |links| && forall j :: 0 <= j < |segs| && segs[j].IsFree() ==> !links[j].Ring?
  }

  ghost predicate NoStray(links: seq<Link>) { forall j :: 0 <= j < |links| ==> !links[j].Stray? }

  /** A region that ends up with a stray pointer by its own deletion was on a ring and merged into no earlier one. */
  lemma DeleteStrays(segs: seq<Segment>, links: seq<Link>, i: nat)
    requires i < |segs| && Sound(segs, links) && NoStray(links)
    ensures Sound(Coalesce.Delete(segs, i), Delete(segs, links, i))
    ensures NoStray(Delete(segs, links, i)) <==> links[i].Home? || KindAt(segs, segs[i].va - 1) == Some(Free)
  {
    var (s, m) := Coalesce.MergeLeft(segs, i);
    var left := MergeLeft(segs, links, i);
    JoinSound(segs, links, i);
    FinishStrays(s, left, m);
  }

  lemma JoinSound(segs: seq<Segment>, links: seq<Link>, i: nat)
    requires i < |segs| && Sound(segs, links) && NoStray(links)
    ensures var (s, m) := Coalesce.MergeLeft(segs, i); var left := MergeLeft(segs, links, i);
      && Sound(s, left) && NoStray(left)
      && (left[m].Home? <==> links[i].Home? || KindAt(segs, segs[i].va - 1) == Some(Free))
  {
    var l := Find(segs, segs[i].va - 1);
    if KindAt(segs, segs[i].va - 1) == Some(Free) {
      assert l != i;
    }
  }

  lemma FinishStrays(segs: seq<Segment>, links: seq<Link>, m: nat)
    requires m < |segs| && Sound(segs, links) && NoStray(links)
    ensures Sound(Coalesce.Finish(segs, m), Finish(segs, links, m))
    ensures NoStray(Finish(segs, links, m)) <==> links[m].Home?
  {
    RightSound(segs, links, m);
    FreedStrays(Coalesce.MergeRight(segs, m).0, MergeRight(segs, links, m), Coalesce.MergeRight(segs, m).1);
  }

  lemma RightSound(segs: seq<Segment>, links: seq<Link>, m: nat)
    requires m < |segs| && Sound(segs, links) && NoStray(links)
    ensures var (s, n) := Coalesce.MergeRight(segs, m); var right := MergeRight(segs, links, m);
      Sound(s, right) && NoStray(right) && right[n] == links[m]
  {
    var x := Find(segs, segs[m].End() + 1);
    if x < |segs| && segs[x].IsFree() {
      assert x != m;
    }
  }

  lemma FreedStrays(segs: seq<Segment>, links: seq<Link>, n: nat)
    requires n < |segs| && Sound(segs, links) && NoStray(links)
    ensures Sound(segs[n := Coalesce.MarkFree(segs[n])], links[n := Freed(links[n])])
    ensures NoStray(links[n := Freed(links[n])]) <==> links[n].Home?
  {
    assert links[n := Freed(links[n])][n] == Freed(links[n]);
  }

  /** A create that covers no region leaves a stray pointer exactly if it splits a region. */
  lemma {:induction false} ScanStrays(segs: seq<Segment>, links: seq<Link>, i: nat, addr: int, stop: int)
    requires i <= |segs| && Sound(segs, links) && Scan(segs, links, i, addr, stop).Some?
    requires FixedCreate.NoneInside(segs, i, addr, stop)
    ensures var r := Scan(segs, links, i, addr, stop).value;
      && Sound(r.0, r.1)
      && (NoStray(r.1) <==>
          NoStray(links) && NoneStraddles(segs, i, addr, stop))
    decreases |segs| - i
  {
    if i < |segs| {
      var t := FixedCreate.Trim(segs[i], addr, stop);
      OtherStep(segs, links, i, t, addr, stop);
      CutStrays(segs, links, i, t, addr, stop);
      AheadSame(segs, i, t, addr, stop);
      ScanStrays(FixedCreate.Splice(segs, i, t), Cut(links, i, |t|), i + |t|, addr, stop);
    }
  }

  lemma CutStrays(segs: seq<Segment>, links: seq<Link>, i: nat, t: seq<Segment>, addr: int, stop: int)
    requires i < |segs| && Sound(segs, links) && t == FixedCreate.Trim(segs[i], addr, stop)
    ensures Sound(FixedCreate.Splice(segs, i, t), Cut(links, i, |t|))
    ensures NoStray(Cut(links, i, |t|)) <==> NoStray(links) && !FixedCreate.Straddles(segs[i], addr, stop)
  {
    FixedCreate.SplitIffStraddles(segs[i], addr, stop);
    CutNoStray(links, i, |t|);
    CutSound(segs, links, i, t);
  }

  lemma OtherStep(segs: seq<Segment>, links: seq<Link>, i: nat, t: seq<Segment>, addr: int, stop: int)
    requires i < |segs| == |links| && !segs[i].Inside(addr, stop) && t == FixedCreate.Trim(segs[i], addr, stop)
    ensures FixedCreate.Step(segs, i, addr, stop) == (FixedCreate.Splice(segs, i, t), i + |t|)
    ensures Turned(segs, links, i, addr, stop) == Cut(links, i, |t|)
  {}

  /** What is ahead of the loop does not change by a trim. */
  lemma AheadSame(segs: seq<Segment>, i: nat, t: seq<Segment>, addr: int, stop: int)
    requires i < |segs| && 1 <= |t|
    ensures var after := FixedCreate.Splice(segs, i, t);
      && (FixedCreate.NoneInside(segs, i + 1, addr, stop) ==> FixedCreate.NoneInside(after, i + |t|, addr, stop))
      && (NoneStraddles(after, i + |t|, addr, stop) <==> NoneStraddles(segs, i + 1, addr, stop))
  {
    var after := FixedCreate.Splice(segs, i, t);
    assert forall j :: i + 1 <= j < |segs| ==> segs[j] == after[j + |t| - 1];
  }

  ghost predicate NoneStraddles(segs: seq<Segment>, i: nat, addr: int, stop: int) {
    forall j :: i <= j < |segs| ==> !FixedCreate.Straddles(segs[j], addr, stop)
  }

  lemma CutNoStray(links: seq<Link>, i: nat, pieces: nat)
    requires i < |links| && 1 <= pieces <= 2
    ensures NoStray(Cut(links, i, pieces)) <==> NoStray(links) && pieces == 1
  {
    var cut := Cut(links, i, pieces);
    assert pieces == 2 ==> cut[i + 1].Stray?;
  }

  lemma CutSound(segs: seq<Segment>, links: seq<Link>, i: nat, t: seq<Segment>)
    requires i < |segs| && Sound(segs, links) && 1 <= |t| <= 2 && forall k :: 0 <= k < |t| ==> t[k].info == segs[i].info
    ensures Sound(FixedCreate.Splice(segs, i, t), Cut(links, i, |t|))
  {
    var after, cut := FixedCreate.Splice(segs, i, t), Cut(links, i, |t|);
    forall j | 0 <= j < |after| && after[j].IsFree() ensures !cut[j].Ring? {
      if i <= j < i + |t| {
        assert after[j] == t[j - i];
      } else {
        assert after[j] == segs[if j < i then j else j - |t| + 1];
      }
    }
  }

  lemma CreateStrays(segs: seq<Segment>, links: seq<Link>, addr: int, length: int, info: Info)
    requires Sound(segs, links) && Create(segs, links, addr, length, info).Some? && !info.kind.Free?
    requires FixedCreate.NoneInside(segs, 0, addr, addr + 4096 * length)
    ensures var r := Create(segs, links, addr, length, info).value;
      && Sound(r.0, r.1)
      && (NoStray(r.1) <==> NoStray(links) && NoneStraddles(segs, 0, addr, addr + 4096 * length))
  {
    ScanStrays(segs, links, 0, addr, addr + 4096 * length);
    var out := Scan(segs, links, 0, addr, addr + 4096 * length).value;
    PushSound(out.0, out.1, Segment(addr, length, info), Home);
  }

  lemma PushSound(segs: seq<Segment>, links: seq<Link>, made: Segment, link: Link)
    requires Sound(segs, links) && !made.IsFree()
    ensures Sound([made] + segs, [link] + links)
    ensures NoStray([link] + links) <==> NoStray(links) && !link.Stray?
  {
    var more := [link] + links;
    assert more[0] == link && forall j :: 0 <= j < |links| ==> links[j] == more[j + 1];
  }
}
