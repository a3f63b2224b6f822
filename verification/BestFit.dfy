/** create_region without an address: carve the top of a smallest sufficient FREE region. */
module BestFit {
  import opened Common
  import opened Segments

  /** The scan for the smallest FREE region among the first n; a later one of equal length wins. */
  function Smallest(segs: seq<Segment>, n: nat, length: int): (r: Option<nat>)
    requires n <= |segs|
    ensures r.Some? ==> r.value < n && segs[r.value].IsFree() && length <= segs[r.value].length
  {
    if n == 0 then None
    else
      var best := Smallest(segs, n - 1, length);
      var current := segs[n - 1];
      if !(current.IsFree() && length <= current.length) then best
      else if best.None? || current.length <= segs[best.value].length then Some(n - 1)
      else best
  }

  /** The scan fails only when nothing fits, and otherwise finds the last of the smallest regions that fit. */
  lemma {:induction false} SmallestIsBest(segs: seq<Segment>, n: nat, length: int)
    requires n <= |segs|
    ensures var r := Smallest(segs, n, length);
      && (r.None? <==> forall j :: 0 <= j < n ==> !(segs[j].IsFree() && length <= segs[j].length))
      && (r.Some? ==> forall j :: 0 <= j < n && segs[j].IsFree() && length <= segs[j].length ==>
            segs[r.value].length < segs[j].length || (segs[r.value].length == segs[j].length && j <= r.value))
  {
    if n > 0 {
      SmallestIsBest(segs, n - 1, length);
    }
  }

  /** The regions after a best-fit create, the new one first; None when no FREE region is large enough. */
  function Create(segs: seq<Segment>, length: int, info: Info): Option<seq<Segment>> {
    match Smallest(segs, |segs|, length)
    case None => None
    case Some(k) =>
      var left := segs[k].length - length;
      Some([Segment(segs[k].va + 4096 * left, length, info)] + segs[k := segs[k].(length := left)])
  }

  /** Some FREE region is long enough. */
  ghost predicate HasRoom(segs: seq<Segment>, length: int) {
    exists q :: 0 <= q < |segs| && segs[q].IsFree() && length <= segs[q].length
  }

  lemma CreateIffRoom(segs: seq<Segment>, length: int, info: Info)
    ensures Create(segs, length, info).Some? <==> HasRoom(segs, length)
  {
    SmallestIsBest(segs, |segs|, length);
  }

  ghost predicate Carved(segs: seq<Segment>, k: nat, made: seq<Segment>, length: int, info: Info) {
    && k < |segs| && segs[k].IsFree() && length <= segs[k].length && 0 < length
    && var left := segs[k].length - length;
    made == [Segment(segs[k].va + 4096 * left, length, info)] + segs[k := segs[k].(length := left)]
  }

  lemma CarveKeepsProper(segs: seq<Segment>, k: nat, made: seq<Segment>, length: int, info: Info)
    requires Proper(segs) && Carved(segs, k, made, length, info)
    ensures Proper(made)
  {
    forall i, j | 0 <= i < j < |made| ensures made[i].Apart(made[j]) {
      if i == 0 {
        if j - 1 != k {
          ApartSymmetric(segs, j - 1, k);
        }
      } else {
        assert segs[i - 1].Apart(segs[j - 1]);
      }
    }
  }

  /** A region that is not the one carved stays what it was, apart from the new one. */
  lemma CarveApart(segs: seq<Segment>, k: nat, made: seq<Segment>, length: int, info: Info, j: nat)
    requires Proper(segs) && Carved(segs, k, made, length, info) && j < |segs| && !segs[j].IsFree()
    ensures made[j + 1] == segs[j] && made[0].Apart(segs[j])
  {}

  lemma CarveAt(segs: seq<Segment>, k: nat, made: seq<Segment>, length: int, info: Info, a: int)
    requires Proper(segs) && Carved(segs, k, made, length, info)
    ensures InfoAt(made, a) == if made[0].Has(a) then Some(info) else InfoAt(segs, a)
    ensures made[0].Has(a) ==> Find(segs, a) == k
  {
    CarveKeepsProper(segs, k, made, length, info);
    if made[0].Has(a) {
      FindUnique(segs, k, a);
    } else {
      var i := Find(segs, a);
      if i < |segs| {
        FindUnique(made, i + 1, a);
      } else {
        FindNone(made, a);
      }
    }
  }

  /** s is the top of a FREE region, and no FREE region it would fit in is smaller. */
  ghost predicate TopOfSmallest(segs: seq<Segment>, s: Segment) {
    exists k | 0 <= k < |segs| && segs[k].IsFree() && s.length <= segs[k].length && s.End() == segs[k].End() ::
      forall j | 0 <= j < |segs| && segs[j].IsFree() && s.length <= segs[j].length :: segs[k].length <= segs[j].length
  }

  /** Best-fit create fails only when no FREE region is large enough. Otherwise it takes the top of a smallest
      sufficient one, changes nothing else, and keeps the tiling and the coalescing. */
  lemma CreateCarvesFree(segs: seq<Segment>, length: int, info: Info)
    requires Tiles(segs) && Coalesced(segs) && 0 < length && !info.kind.Free?
    ensures var r := Create(segs, length, info);
      && (r.None? <==> forall j :: 0 <= j < |segs| ==> !(segs[j].IsFree() && length <= segs[j].length))
      && (r.Some? ==>
        && Tiles(r.value) && Coalesced(r.value)
        && r.value[0].length == length
        && TopOfSmallest(segs, r.value[0])
        && (forall a :: InfoAt(r.value, a) == if r.value[0].Has(a) then Some(info) else InfoAt(segs, a))
        && (forall a :: r.value[0].Has(a) ==> KindAt(segs, a) == Some(Free)))
  {
    var r := Create(segs, length, info);
    SmallestIsBest(segs, |segs|, length);
    if r.Some? {
      var k := Smallest(segs, |segs|, length).value;
      var made := r.value;
      CarveKeepsProper(segs, k, made, length, info);
      forall a
        ensures InfoAt(made, a) == if made[0].Has(a) then Some(info) else InfoAt(segs, a)
        ensures made[0].Has(a) ==> KindAt(segs, a) == Some(Free)
      {
        CarveAt(segs, k, made, length, info, a);
      }
      assert Covers(made) by {
        forall a | USER_START <= a < USER_END ensures Find(made, a) < |made| {
          assert InfoAt(made, a).Some?;
        }
      }
      CarveKeepsCoalesced(segs, k, made, length, info);
    }
  }

  lemma CarveKeepsCoalesced(segs: seq<Segment>, k: nat, made: seq<Segment>, length: int, info: Info)
    requires Proper(segs) && Coalesced(segs) && Carved(segs, k, made, length, info) && !info.kind.Free?
    ensures Coalesced(made)
  {}
}
