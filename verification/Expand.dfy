/** expand_region upwards: a region grows over the FREE space behind it, a page at a time. */
module Expand {
  import opened Common
  import opened Segments

  /** Take the page at a from the front of the region that lookup finds there; None when it is not FREE, where the
      kernel stops. */
  function TakePage(segs: seq<Segment>, a: int): (r: Option<seq<Segment>>)
    ensures r.Some? ==> |r.value| == |segs|
  {
    var k := Find(segs, a);
    if k == |segs| || !segs[k].IsFree() then None
    else Some(segs[k := segs[k].(va := segs[k].va + 4096, length := segs[k].length - 1)])
  }

  /** The list after n pages have been taken from address a on. */
  function TakePages(segs: seq<Segment>, a: int, n: nat): (r: Option<seq<Segment>>)
    ensures r.Some? ==> |r.value| == |segs|
  {
    if n == 0 then Some(segs)
    else
      var before := TakePages(segs, a, n - 1);
      if before.None? then None else TakePage(before.value, a + 4096 * (n - 1))
  }

  /** expand_region of the region at i by size pages. */
  function Upward(segs: seq<Segment>, i: nat, size: nat): Option<seq<Segment>>
    requires i < |segs|
  {
    var taken := TakePages(segs, segs[i].End(), size);
    if taken.None? then None
    else Some(taken.value[i := taken.value[i].(length := segs[i].length + size)])
  }

  /** Only FREE regions lose pages. */
  lemma {:induction false} OthersUntouched(segs: seq<Segment>, a: int, n: nat, i: nat)
    requires TakePages(segs, a, n).Some? && i < |segs| && !segs[i].IsFree()
    ensures TakePages(segs, a, n).value[i] == segs[i]
  {
    if n > 0 {
      OthersUntouched(segs, a, n - 1, i);
    }
  }

  /** And taking pages changes no region's type. */
  lemma {:induction false} TakenSameKinds(segs: seq<Segment>, a: int, n: nat)
    requires TakePages(segs, a, n).Some?
    ensures forall j :: 0 <= j < |segs| ==> TakePages(segs, a, n).value[j].info == segs[j].info
  {
    if n > 0 {
      TakenSameKinds(segs, a, n - 1);
    }
  }

  lemma NextPage(segs: seq<Segment>, a: int, n: nat, t: seq<Segment>, page: int)
    requires 0 < n && TakePages(segs, a, n - 1) == Some(t) && page == a + 4096 * (n - 1)
    ensures TakePages(segs, a, n) == TakePage(t, page)
  {}

  lemma {:induction false} StopsForGood(segs: seq<Segment>, a: int, n: nat, m: nat)
    requires n <= m && TakePages(segs, a, n).None?
    ensures TakePages(segs, a, m).None?
  {
    if n < m {
      StopsForGood(segs, a, n, m - 1);
    }
  }

  /** Lookup in t tells what it told in segs, except that [from, to) now tells what. */
  ghost predicate Retold(segs: seq<Segment>, t: seq<Segment>, from: int, to: int, what: Option<Info>) {
    forall x {:trigger InfoAt(t, x)} :: InfoAt(t, x) == if from <= x < to then what else InfoAt(segs, x)
  }

  /** n pages from the end of region i on have been taken: no region holds them, and every other address is as it
      was. */
  ghost predicate Taken(segs: seq<Segment>, i: nat, n: nat, t: seq<Segment>) {
    && i < |segs| == |t| && t[i] == segs[i] && Proper(t)
    && Retold(segs, t, segs[i].End(), segs[i].End() + 4096 * n, None)
  }

  lemma HolderTells(t: seq<Segment>, k: nat, x: int)
    requires Disjoint(t) && k < |t| && t[k].Has(x)
    ensures InfoAt(t, x) == Some(t[k].info)
  {}

  /** The next page to take is the first of the region that holds it. */
  lemma FrontOfRegion(segs: seq<Segment>, i: nat, n: nat, t: seq<Segment>, k: nat)
    requires Proper(segs) && Taken(segs, i, n, t) && 0 < segs[i].length && k < |t|
    requires t[k].Has(segs[i].End() + 4096 * n)
    ensures k != i && t[k].va == segs[i].End() + 4096 * n
  {
    ApartSymmetric(t, i, k);
    if t[k].va < segs[i].End() + 4096 * n {
      HolderTells(t, k, t[k].va);
    }
  }

  lemma TakePageKeepsProper(t: seq<Segment>, a: int)
    requires Proper(t) && TakePage(t, a).Some? && t[Find(t, a)].va == a
    ensures Proper(TakePage(t, a).value)
  {
    var k := Find(t, a);
    var u := TakePage(t, a).value;
    forall x, y | 0 <= x < y < |u| ensures u[x].Apart(u[y]) {
      assert t[x].Apart(t[y]);
    }
  }

  lemma TakePageAt(t: seq<Segment>, a: int, x: int)
    requires Proper(t) && TakePage(t, a).Some? && t[Find(t, a)].va == a
    ensures InfoAt(TakePage(t, a).value, x) == if a <= x < a + 4096 then None else InfoAt(t, x)
  {
    var k := Find(t, a);
    var u := TakePage(t, a).value;
    TakePageKeepsProper(t, a);
    if a <= x < a + 4096 {
      forall j | 0 <= j < |u| ensures !u[j].Has(x) {
        if j != k {
          ApartSymmetric(t, j, k);
        }
      }
      FindNone(u, x);
    } else {
      var j := Find(t, x);
      if j < |t| {
        FindUnique(u, j, x);
      } else {
        FindNone(u, x);
      }
    }
  }

  lemma RetoldFurther(segs: seq<Segment>, t: seq<Segment>, from: int, a: int)
    requires Proper(t) && TakePage(t, a).Some? && t[Find(t, a)].va == a && from <= a && Retold(segs, t, from, a, None)
    ensures Retold(segs, TakePage(t, a).value, from, a + 4096, None)
  {
    var u := TakePage(t, a).value;
    forall x ensures InfoAt(u, x) == if from <= x < a + 4096 then None else InfoAt(segs, x) {
      TakePageAt(t, a, x);
    }
  }

  lemma OnePageMore(segs: seq<Segment>, i: nat, n: nat, t: seq<Segment>, u: seq<Segment>)
    requires Proper(segs) && Taken(segs, i, n, t) && 0 < segs[i].length && !segs[i].IsFree()
    requires TakePage(t, segs[i].End() + 4096 * n) == Some(u)
    ensures Taken(segs, i, n + 1, u)
  {
    var a := segs[i].End() + 4096 * n;
    FrontOfRegion(segs, i, n, t, Find(t, a));
    TakePageKeepsProper(t, a);
    RetoldFurther(segs, t, segs[i].End(), a);
  }

  lemma {:induction false} PagesTaken(segs: seq<Segment>, i: nat, n: nat, u: seq<Segment>)
    requires Proper(segs) && i < |segs| && 0 < segs[i].length && !segs[i].IsFree()
    requires TakePages(segs, segs[i].End(), n) == Some(u)
    ensures Taken(segs, i, n, u)
  {
    OthersUntouched(segs, segs[i].End(), n, i);
    if n > 0 {
      var t := TakePages(segs, segs[i].End(), n - 1).value;
      PagesTaken(segs, i, n - 1, t);
      NextPage(segs, segs[i].End(), n, t, segs[i].End() + 4096 * (n - 1));
      OnePageMore(segs, i, n - 1, t, u);
    }
  }

  /** A region losing its front page stops touching the region before it and touches no other. */
  lemma TakePageKeepsCoalesced(t: seq<Segment>, a: int)
    requires Proper(t) && Coalesced(t) && TakePage(t, a).Some? && t[Find(t, a)].va == a
    ensures Coalesced(TakePage(t, a).value)
  {
    var k := Find(t, a);
    var u := TakePage(t, a).value;
    forall x, y | 0 <= x < |u| && 0 <= y < |u| ensures !Touch(u[x], u[y]) {
      assert !Touch(t[x], t[y]);
      if y == k && x != k {
        ApartSymmetric(t, x, k);
      }
    }
  }

  lemma {:induction false} PagesTakenCoalesced(segs: seq<Segment>, i: nat, n: nat)
    requires Proper(segs) && Coalesced(segs) && i < |segs| && 0 < segs[i].length && !segs[i].IsFree()
    requires TakePages(segs, segs[i].End(), n).Some?
    ensures Coalesced(TakePages(segs, segs[i].End(), n).value)
  {
    if n > 0 {
      var a := segs[i].End() + 4096 * (n - 1);
      var t := TakePages(segs, segs[i].End(), n - 1).value;
      PagesTakenCoalesced(segs, i, n - 1);
      PagesTaken(segs, i, n - 1, t);
      NextPage(segs, segs[i].End(), n, t, a);
      FrontOfRegion(segs, i, n - 1, t, Find(t, a));
      TakePageKeepsCoalesced(t, a);
    }
  }

  /** The last of n pages is taken exactly if it was FREE. */
  lemma LastTaken(segs: seq<Segment>, i: nat, n: nat)
    requires Proper(segs) && i < |segs| && 0 < segs[i].length && !segs[i].IsFree() && 0 < n
    requires TakePages(segs, segs[i].End(), n - 1).Some?
    ensures TakePages(segs, segs[i].End(), n).Some? <==> KindAt(segs, segs[i].End() + 4096 * (n - 1)) == Some(Free)
  {
    var t := TakePages(segs, segs[i].End(), n - 1).value;
    PagesTaken(segs, i, n - 1, t);
    NextPage(segs, segs[i].End(), n, t, segs[i].End() + 4096 * (n - 1));
    SameKind(segs, t, segs[i].End(), segs[i].End() + 4096 * (n - 1));
  }

  lemma SameKind(segs: seq<Segment>, t: seq<Segment>, from: int, a: int)
    requires Retold(segs, t, from, a, None)
    ensures TakePage(t, a).Some? <==> KindAt(segs, a) == Some(Free)
  {
    assert InfoAt(t, a) == InfoAt(segs, a);
  }

  /** The n pages from a on start in FREE regions. */
  predicate FreePages(segs: seq<Segment>, a: int, n: nat) {
    n == 0 || (FreePages(segs, a, n - 1) && KindAt(segs, a + 4096 * (n - 1)) == Some(Free))
  }

  lemma {:induction false} TakenIffFree(segs: seq<Segment>, i: nat, n: nat)
    requires Proper(segs) && i < |segs| && 0 < segs[i].length && !segs[i].IsFree()
    ensures TakePages(segs, segs[i].End(), n).Some? <==> FreePages(segs, segs[i].End(), n)
  {
    if n > 0 {
      TakenIffFree(segs, i, n - 1);
      if TakePages(segs, segs[i].End(), n - 1).Some? {
        LastTaken(segs, i, n);
      }
    }
  }

  /** Then every address in them is FREE. */
  lemma {:induction false} FreePagesFree(segs: seq<Segment>, a: int, n: nat, x: int)
    requires Proper(segs) && a % 4096 == 0 && FreePages(segs, a, n) && a <= x < a + 4096 * n
    ensures KindAt(segs, x) == Some(Free)
  {
    if x < a + 4096 * (n - 1) {
      FreePagesFree(segs, a, n - 1, x);
    } else {
      var page := a + 4096 * (n - 1);
      var k := Find(segs, page);
      LaterPage(a, n - 1);
      PageWhole(segs[k], page, x);
      FindUnique(segs, k, x);
    }
  }

  lemma FreePagesIff(segs: seq<Segment>, i: nat, n: nat)
    requires Proper(segs) && i < |segs|
    ensures FreePages(segs, segs[i].End(), n) <==>
      forall x :: segs[i].End() <= x < segs[i].End() + 4096 * n ==> KindAt(segs, x) == Some(Free)
  {
    var a := segs[i].End();
    EndAligned(segs[i]);
    if FreePages(segs, a, n) {
      forall x | a <= x < a + 4096 * n ensures KindAt(segs, x) == Some(Free) {
        FreePagesFree(segs, a, n, x);
      }
    } else {
      var k := BlockedPage(segs, a, n);
    }
  }

  /** The first page that does not start in a FREE region. */
  lemma {:induction false} BlockedPage(segs: seq<Segment>, a: int, n: nat) returns (k: nat)
    requires !FreePages(segs, a, n)
    ensures k < n && KindAt(segs, a + 4096 * k) != Some(Free)
  {
    k := n - 1;
    if !FreePages(segs, a, n - 1) {
      k := BlockedPage(segs, a, n - 1);
    }
  }

  lemma LaterPage(a: int, n: nat)
    requires a % 4096 == 0
    ensures (a + 4096 * n) % 4096 == 0
  {}

  lemma PageWhole(s: Segment, page: int, x: int)
    requires s.WellFormed() && page % 4096 == 0 && s.Has(page) && page <= x < page + 4096
    ensures s.Has(x)
  {}

  /** Growing region i again over pages taken for it. */
  lemma GrownProper(segs: seq<Segment>, i: nat, size: nat, t: seq<Segment>)
    requires Taken(segs, i, size, t) && Proper(segs) && 0 < segs[i].length && segs[i].End() + 4096 * size <= USER_END
    ensures Proper(t[i := t[i].(length := segs[i].length + size)])
  {
    var r := t[i := t[i].(length := segs[i].length + size)];
    forall x, y | 0 <= x < y < |r| ensures r[x].Apart(r[y]) {
      assert t[x].Apart(t[y]);
      var o := if x == i then y else x;
      if (x == i || y == i) && 0 < t[o].length {
        HolderTells(t, o, t[o].va);
      }
    }
  }

  lemma GrownAt(segs: seq<Segment>, i: nat, size: nat, t: seq<Segment>, x: int)
    requires Taken(segs, i, size, t) && Proper(segs) && 0 < segs[i].length && segs[i].End() + 4096 * size <= USER_END
    ensures var r := t[i := t[i].(length := segs[i].length + size)];
      InfoAt(r, x) == if segs[i].End() <= x < segs[i].End() + 4096 * size then Some(segs[i].info) else InfoAt(segs, x)
  {
    var r := t[i := t[i].(length := segs[i].length + size)];
    GrownProper(segs, i, size, t);
    if segs[i].End() <= x < segs[i].End() + 4096 * size {
      FindUnique(r, i, x);
    } else {
      assert InfoAt(t, x) == InfoAt(segs, x);
      var j := Find(t, x);
      if j < |t| {
        FindUnique(r, j, x);
      } else {
        FindNone(r, x);
      }
    }
  }

  lemma GrownCovers(segs: seq<Segment>, i: nat, size: nat, t: seq<Segment>)
    requires Taken(segs, i, size, t) && Tiles(segs) && 0 < segs[i].length && segs[i].End() + 4096 * size <= USER_END
    ensures Tiles(t[i := t[i].(length := segs[i].length + size)])
  {
    var r := t[i := t[i].(length := segs[i].length + size)];
    GrownProper(segs, i, size, t);
    forall x | USER_START <= x < USER_END ensures Find(r, x) < |r| {
      GrownAt(segs, i, size, t, x);
    }
  }

  /** Free pages lie in user space. */
  lemma {:induction false} FreePagesInside(segs: seq<Segment>, a: int, n: nat)
    requires AllWellFormed(segs) && a % 4096 == 0 && a <= USER_END && FreePages(segs, a, n)
    ensures a + 4096 * n <= USER_END
  {}

  lemma GrownRetold(segs: seq<Segment>, i: nat, size: nat, t: seq<Segment>)
    requires Taken(segs, i, size, t) && Proper(segs) && 0 < segs[i].length && segs[i].End() + 4096 * size <= USER_END
    ensures Retold(segs, t[i := t[i].(length := segs[i].length + size)], segs[i].End(), segs[i].End() + 4096 * size,
              Some(segs[i].info))
  {
    var r := t[i := t[i].(length := segs[i].length + size)];
    forall x ensures InfoAt(r, x) ==
      if segs[i].End() <= x < segs[i].End() + 4096 * size then Some(segs[i].info) else InfoAt(segs, x)
    {
      GrownAt(segs, i, size, t, x);
    }
  }

  lemma GrownCoalesced(t: seq<Segment>, i: nat, length: int)
    requires Coalesced(t) && i < |t| && !t[i].IsFree()
    ensures Coalesced(t[i := t[i].(length := length)])
  {
    var r := t[i := t[i].(length := length)];
    forall x, y | 0 <= x < |r| && 0 <= y < |r| ensures !Touch(r[x], r[y]) {
      assert !Touch(t[x], t[y]);
    }
  }

  /** expand_region upwards succeeds exactly if every page behind the region that it needs is FREE. Then it gives those
      pages to the region, changes nothing else, and keeps the tiling and its FREE regions coalesced. */
  lemma UpwardGrows(segs: seq<Segment>, i: nat, size: nat)
    requires Tiles(segs) && i < |segs| && 0 < segs[i].length && !segs[i].IsFree()
    ensures Upward(segs, i, size).Some? <==> FreePages(segs, segs[i].End(), size)
    ensures Upward(segs, i, size).Some? <==>
      forall x :: segs[i].End() <= x < segs[i].End() + 4096 * size ==> KindAt(segs, x) == Some(Free)
    ensures Upward(segs, i, size).Some? ==>
      var r := Upward(segs, i, size).value;
      && Tiles(r) && (Coalesced(segs) ==> Coalesced(r)) && r[i] == segs[i].(length := segs[i].length + size)
      && Retold(segs, r, segs[i].End(), segs[i].End() + 4096 * size, Some(segs[i].info))
  {
    TakenIffFree(segs, i, size);
    FreePagesIff(segs, i, size);
    if TakePages(segs, segs[i].End(), size).Some? {
      var t := TakePages(segs, segs[i].End(), size).value;
      PagesTaken(segs, i, size, t);
      EndAligned(segs[i]);
      FreePagesInside(segs, segs[i].End(), size);
      GrownCovers(segs, i, size, t);
      GrownRetold(segs, i, size, t);
      if Coalesced(segs) {
        PagesTakenCoalesced(segs, i, size);
        GrownCoalesced(t, i, segs[i].length + size);
      }
    }
  }
}
