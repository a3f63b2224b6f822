/** The slab allocator as lists of pages and, for each page, the chain of its free object indices. */
module SlabLists {
  import opened Common

  const PAGE_SIZE := 4096
  const HEADER := 12

  /** Objects of the given size in one page, behind the page's header. */
  function Capacity(size: nat): nat
    requires 0 < size
  {
    (PAGE_SIZE - HEADER) / size
  }

  /** An object: its page and its index there. */
  datatype Obj = Obj(page: nat, index: nat)

  /** num_objects, the three page lists, the chains, and as a record the objects handed out and not yet returned. */
  datatype State = State(cap: nat, empty: seq<nat>, partial: seq<nat>, full: seq<nat>,
                         free: map<nat, seq<nat>>, objects: int, live: set<Obj>)

  /** A free chain: distinct indices of the page. */
  ghost predicate Chain(f: seq<nat>, cap: nat) { Distinct(f) && forall i :: 0 <= i < |f| ==> f[i] < cap }

  /** Every page is on one list, once. */
  ghost predicate Listed(s: State) {
    && Distinct(s.empty) && Distinct(s.partial) && Distinct(s.full)
    && (forall p :: p in s.empty ==> p in s.free && p !in s.partial && p !in s.full)
    && (forall p :: p in s.partial ==> p in s.free && p !in s.full)
    && (forall p :: p in s.full ==> p in s.free)
    && (forall p :: p in s.free ==> p in s.empty || p in s.partial || p in s.full)
  }

  /** The live objects are those in no chain. */
  ghost predicate LiveExact(s: State) {
    forall o: Obj :: o in s.live <==> o.page in s.free && o.index < s.cap && o.index !in s.free[o.page]
  }

  ghost predicate Inv(s: State) {
    && 2 <= s.cap && Listed(s) && LiveExact(s)
    && (forall p :: p in s.free ==> Chain(s.free[p], s.cap))
    && (forall p :: p in s.empty ==> |s.free[p]| == s.cap)
    && (forall p :: p in s.partial ==> 0 < |s.free[p]|)
    && s.objects == |s.live|
  }

  /** The chain of a wholly free page: 0, 1, ... in order. */
  function UpTo(n: nat): (s: seq<nat>)
    ensures |s| == n
  {
    if n == 0 then [] else UpTo(n - 1) + [n - 1]
  }

  lemma {:induction false} UpToAt(n: nat, i: nat)
    requires i < n
    ensures UpTo(n)[i] == i && i in UpTo(n)
  {
    if i < n - 1 {
      UpToAt(n - 1, i);
      assert UpTo(n)[i] == UpTo(n - 1)[i];
    }
  }

  lemma UpToChain(n: nat)
    ensures Chain(UpTo(n), n)
  {}

  /** create_slab: one page, wholly free. */
  function Created(cap: nat, page: nat): State { State(cap, [page], [], [], map[page := UpTo(cap)], 0, {}) }

  /** The head of the partial list is wholly free: taking an object from it makes allocate_from_slab look for the page
      on the empty list, where it is not. */
  predicate Wedged(s: State) {
    s.partial != [] && s.partial[0] in s.free && |s.free[s.partial[0]]| == s.cap
  }

  /** Take the first free object of page p. */
  function Take(s: State, p: nat): State
    requires p in s.free && s.free[p] != []
  {
    s.(free := s.free[p := s.free[p][1..]], objects := s.objects + 1, live := s.live + {Obj(p, s.free[p][0])})
  }

  /** A fresh page, wholly free, as the whole empty list. */
  function Grown(s: State, page: nat): State {
    s.(empty := [page], free := s.free[page := UpTo(s.cap)])
  }

  /** The state allocate_from_slab takes an object from, after growing if neither list has a page to offer. */
  function Start(s: State, page: nat): State {
    if s.partial == [] && s.empty == [] then Grown(s, page) else s
  }

  /** File page p under its new count, once the first object of state s has been taken from it. */
  function File(s: State, p: nat): State
    requires p in s.free
  {
    if s.partial != [] then
      if s.free[p] == [] then s.(partial := s.partial[1..], full := [p] + s.full) else s
    else if s.empty != [] then s.(empty := s.empty[1..], partial := [p]) else s
  }

  /** The page allocate_from_slab takes an object from. */
  function HeadPage(s: State): nat {
    if s.partial != [] then s.partial[0] else if s.empty != [] then s.empty[0] else 0
  }

  /** Page p heads the partial list, or the empty list if there is no partial page, and is on no other list. */
  predicate Heads(p: nat, empties: seq<nat>, partials: seq<nat>, fulls: seq<nat>) {
    && p !in fulls
    && if partials != [] then p == partials[0] && p !in partials[1..] && p !in empties
       else empties != [] && p == empties[0] && p !in empties[1..]
  }

  /** Page p is where allocate_from_slab takes an object from. */
  predicate Offers(s: State, p: nat) {
    p in s.free && s.free[p] != [] && Heads(p, s.empty, s.partial, s.full) && (s.partial == [] ==> |s.free[p]| == s.cap)
  }

  /** Taking an object leaves the lists alone; afterwards a page one object short of wholly free was the head of the
      partial list exactly if the slab was wedged. */
  lemma TakeFacts(s: State, p: nat)
    requires Offers(s, p)
    ensures var t := Take(s, p);
      && t.empty == s.empty && t.partial == s.partial && t.full == s.full && t.cap == s.cap
      && p in t.free && |t.free[p]| == |s.free[p]| - 1 && Heads(p, t.empty, t.partial, t.full)
      && (t.partial == [] ==> |t.free[p]| == t.cap - 1)
      && (Wedged(s) <==> t.partial != [] && |t.free[p]| == t.cap - 1)
  {}

  /** The state and the object that the steps of an allocation lead to: start, take, file. */
  function After(s: State, page: nat): State
    requires Offers(Start(s, page), HeadPage(Start(s, page)))
  {
    var t := Start(s, page);
    File(Take(t, HeadPage(t)), HeadPage(t))
  }

  function Given(s: State, page: nat): Obj
    requires Offers(Start(s, page), HeadPage(Start(s, page)))
  {
    var t := Start(s, page);
    Obj(HeadPage(t), t.free[HeadPage(t)][0])
  }

  /** allocate_from_slab, given the page it gets if it has to grow; None when it is wedged. */
  function Allocate(s: State, page: nat): Option<(State, Obj)> {
    var t := Start(s, page);
    if Wedged(s) || !Offers(t, HeadPage(t)) then None else Some((After(s, page), Given(s, page)))
  }

  /** Put object o back at the front of its page's chain. */
  function Return(s: State, o: Obj): State
    requires o.page in s.free
  {
    s.(free := s.free[o.page := [o.index] + s.free[o.page]], objects := s.objects - 1, live := s.live - {o})
  }

  /** Move a wholly free page from the partial list to the empty list, if it stands on it behind the head. */
  function Refile(s: State, p: nat): State
    requires p in s.free
  {
    var k := IndexOf(s.partial, p);
    if |s.free[p]| == s.cap && 0 < k < |s.partial| then
      s.(partial := s.partial[..k] + s.partial[k + 1..], empty := [p] + s.empty)
    else s
  }

  /** deallocate_from_slab. A page that becomes wholly free moves to the empty list if it stands on the partial list
      behind the head; at the head, or on the full list, it stays where it is. */
  function Deallocate(s: State, o: Obj): State {
    if o.page !in s.free then s else Refile(Return(s, o), o.page)
  }

  ghost function Elements(f: seq<nat>): set<nat> { set k | k in f }

  ghost function Range(n: nat): (r: set<nat>)
    ensures |r| == n && forall k: nat :: k in r <==> k < n
  {
    if n == 0 then {} else
      Range(n - 1) + {n - 1}
  }

  lemma {:induction false} ElementsSize(f: seq<nat>)
    requires Distinct(f)
    ensures |Elements(f)| == |f|
  {
    if f != [] {
      ElementsSize(f[1..]);
      assert f[0] !in f[1..];
      assert f == [f[0]] + f[1..];
      assert Elements(f) == Elements(f[1..]) + {f[0]};
    }
  }

  lemma {:induction false} SubsetSize(s: set<nat>, r: set<nat>)
    requires s <= r
    ensures |s| <= |r|
  {
    if s != {} {
      var x :| x in s;
      SubsetSize(s - {x}, r - {x});
    }
  }

  /** A chain as long as the page has no index left out, and none is longer. */
  lemma FullChain(f: seq<nat>, cap: nat)
    requires Chain(f, cap)
    ensures |f| <= cap
    ensures |f| == cap ==> forall i :: 0 <= i < cap ==> i in f
  {
    ElementsSize(f);
    assert Elements(f) <= Range(cap);
    SubsetSize(Elements(f), Range(cap));
    if |f| == cap {
      forall i | 0 <= i < cap ensures i in f {
        if i !in f {
          assert Elements(f) <= Range(cap) - {i};
          SubsetSize(Elements(f), Range(cap) - {i});
        }
      }
    }
  }

  lemma CreatedGood(cap: nat, page: nat)
    requires 2 <= cap
    ensures Inv(Created(cap, page))
  {
    var s := Created(cap, page);
    UpToChain(cap);
    forall o: Obj ensures !(o.page in s.free && o.index < s.cap && o.index !in s.free[o.page]) {
      if o.index < cap {
        UpToAt(cap, o.index);
      }
    }
  }

  /** Popping a chain takes its head off it and nothing else. */
  lemma PopChain(f: seq<nat>, cap: nat)
    requires Chain(f, cap) && f != []
    ensures Chain(f[1..], cap) && f[0] < cap
    ensures forall i :: i in f[1..] <==> i in f && i != f[0]
  {}

  lemma PushChain(f: seq<nat>, cap: nat, i: nat)
    requires Chain(f, cap) && i < cap && i !in f
    ensures Chain([i] + f, cap)
  {}

  /** What Take does to a good state, apart from the lists. */
  lemma TakeGood(s: State, p: nat)
    requires LiveExact(s) && p in s.free && s.free[p] != [] && s.objects == |s.live|
    requires forall q :: q in s.free ==> Chain(s.free[q], s.cap)
    ensures var t, o := Take(s, p), Obj(p, s.free[p][0]);
      && o !in s.live && o.index < s.cap && t.live == s.live + {o} && LiveExact(t) && t.objects == |t.live|
      && forall q :: q in t.free ==> Chain(t.free[q], t.cap)
  {
    PopChain(s.free[p], s.cap);
    assert s.free[p][0] in s.free[p];
  }

  /** What allocate_from_slab promises: an object that was not live becomes live, and nothing else. */
  ghost predicate Handed(s: State, r: Option<(State, Obj)>) {
    r.Some? && r.value.1 !in s.live && r.value.1.index < s.cap
    && r.value.0.live == s.live + {r.value.1} && Inv(r.value.0)
  }

  lemma AllocatePartial(s: State, page: nat)
    requires Inv(s) && !Wedged(s) && s.partial != []
    ensures Handed(s, Allocate(s, page))
  {
    var p := s.partial[0];
    assert p in s.partial;
    TakeGood(s, p);
    var t := Allocate(s, page).value.0;
    if |s.free[p]| == 1 {
      PopList(s.partial);
      PushList(s.full, p);
    }
    assert Listed(t);
  }

  lemma PopList(l: seq<nat>)
    requires Distinct(l) && l != []
    ensures Distinct(l[1..]) && forall x :: x in l[1..] <==> x in l && x != l[0]
  {}

  lemma PushList(l: seq<nat>, x: nat)
    requires Distinct(l) && x !in l
    ensures Distinct([x] + l) && forall y :: y in [x] + l <==> y in l || y == x
  {}

  lemma AllocateEmpty(s: State, page: nat)
    requires Inv(s) && s.partial == [] && s.empty != []
    ensures Handed(s, Allocate(s, page))
  {
    var p := s.empty[0];
    assert p in s.empty;
    TakeGood(s, p);
    PopList(s.empty);
    assert Listed(Allocate(s, page).value.0);
  }

  /** A fresh page adds no live object. */
  lemma GrownGood(s: State, p: nat)
    requires Inv(s) && s.empty == [] && p !in s.free
    ensures Inv(Grown(s, p))
  {
    var s1 := Grown(s, p);
    UpToChain(s.cap);
    forall o: Obj ensures o in s1.live <==> o.page in s1.free && o.index < s1.cap && o.index !in s1.free[o.page] {
      if o.page == p && o.index < s.cap {
        UpToAt(s.cap, o.index);
      }
    }
    assert Listed(s1);
  }

  /** allocate_from_slab hands out an object that is not live, and fails exactly when the head of the partial list is
      wholly free. */
  lemma AllocateSafe(s: State, page: nat)
    requires Inv(s) && page !in s.free
    ensures Allocate(s, page).None? <==> Wedged(s)
    ensures !Wedged(s) ==> Handed(s, Allocate(s, page))
  {
    if !Wedged(s) {
      if s.partial != [] {
        AllocatePartial(s, page);
      } else if s.empty != [] {
        AllocateEmpty(s, page);
      } else {
        GrownGood(s, page);
        AllocateEmpty(Grown(s, page), page);
      }
    }
  }

  /** The object comes from the head of the partial list, failing that of the empty list, failing that from the new
      page, and is the first of that page's chain. */
  lemma AllocatesFirst(s: State, page: nat)
    requires Inv(s) && page !in s.free && !Wedged(s)
    ensures Allocate(s, page).Some?
    ensures var o := Allocate(s, page).value.1;
      && o.page == (if s.partial != [] then s.partial[0] else if s.empty != [] then s.empty[0] else page)
      && if o.page in s.free then s.free[o.page] != [] && o.index == s.free[o.page][0] else o.index == 0
  {
    AllocateSafe(s, page);
    UpToAt(s.cap, 0);
    if s.partial != [] {
      assert s.partial[0] in s.partial;
    } else if s.empty != [] {
      assert s.empty[0] in s.empty;
    }
  }

  lemma IndexFound(l: seq<nat>, x: nat)
    ensures x in l <==> IndexOf(l, x) < |l|
  {}

  lemma DropList(l: seq<nat>, k: nat)
    requires Distinct(l) && k < |l|
    ensures Distinct(l[..k] + l[k + 1..]) && forall x :: x in l[..k] + l[k + 1..] <==> x in l && x != l[k]
  {}

  /** Returning a live object makes exactly that one free. */
  lemma ReturnSafe(s: State, o: Obj)
    requires Inv(s) && o in s.live
    ensures o.page in s.free && o.index !in s.free[o.page] && o.page !in s.empty
    ensures Inv(Return(s, o)) && Return(s, o).live == s.live - {o}
  {
    PushChain(s.free[o.page], s.cap, o.index);
    FullChain(s.free[o.page], s.cap);
    assert LiveExact(Return(s, o));
  }

  lemma DeallocateSafe(s: State, o: Obj)
    requires Inv(s) && o in s.live
    ensures var t := Deallocate(s, o); Inv(t) && t.live == s.live - {o}
  {
    ReturnSafe(s, o);
    IndexFound(s.partial, o.page);
    var k := IndexOf(s.partial, o.page);
    if |Return(s, o).free[o.page]| == s.cap && 0 < k < |s.partial| {
      DropList(s.partial, k);
      PushList(s.empty, o.page);
      assert Listed(Deallocate(s, o));
    }
  }

  /** If its page is the one allocated from next, the object just returned is handed out again. */
  lemma ReusesLast(s: State, o: Obj, page: nat)
    requires Inv(s) && o in s.live && page !in s.free && !Wedged(Deallocate(s, o))
    requires Deallocate(s, o).partial != [] && Deallocate(s, o).partial[0] == o.page
    ensures Allocate(Deallocate(s, o), page).Some? && Allocate(Deallocate(s, o), page).value.1 == o
  {
    DeallocateSafe(s, o);
    AllocatesFirst(Deallocate(s, o), page);
  }

  /** The steps of returning a live object: put it back, refile its page. */
  lemma DeallocateSteps(s: State, o: Obj)
    requires Inv(s) && o in s.live
    ensures o.page in s.free && o.index < s.cap && o.index !in s.free[o.page]
    ensures Distinct(s.partial) && forall p :: p in s.partial ==> p !in s.empty && p !in s.full
    ensures Deallocate(s, o) == Refile(Return(s, o), o.page) && Inv(Deallocate(s, o))
    ensures Deallocate(s, o).objects == s.objects - 1 && Deallocate(s, o).cap == s.cap
  {
    DeallocateSafe(s, o);
  }

  lemma StartOffers(s: State, page: nat)
    requires Inv(s) && page !in s.free
    ensures Offers(Start(s, page), HeadPage(Start(s, page)))
  {
    var t := Start(s, page);
    if s.partial == [] && s.empty == [] {
      GrownGood(s, page);
    }
    if t.partial != [] {
      PopList(t.partial);
      assert t.partial[0] in t.partial;
    } else {
      PopList(t.empty);
      assert t.empty[0] in t.empty;
    }
  }

  /** The steps of an allocation that is not wedged: start, take, file. */
  lemma AllocateSteps(s: State, page: nat)
    requires Inv(s) && page !in s.free
    ensures Offers(Start(s, page), HeadPage(Start(s, page))) && 2 <= s.cap
    ensures !Wedged(s) ==> Allocate(s, page) == Some((After(s, page), Given(s, page)))
    ensures !Wedged(s) ==> Inv(After(s, page)) && After(s, page).objects == s.objects + 1 && After(s, page).cap == s.cap
  {
    StartOffers(s, page);
    AllocateSafe(s, page);
  }

  datatype Call = Alloc(page: nat) | Free(o: Obj)

  /** A run from s to last: pages newly obtained are not in use, nothing is returned that is not live, and no
      allocation is wedged. */
  ghost predicate Run(s: State, calls: seq<Call>, last: State)
    decreases |calls|
  {
    if calls == [] then last == s
    else match calls[0]
      case Alloc(p) => p !in s.free && Allocate(s, p).Some? && Run(Allocate(s, p).value.0, calls[1..], last)
      case Free(o) => o in s.live && Run(Deallocate(s, o), calls[1..], last)
  }

  lemma {:induction false} RunKeeps(s: State, calls: seq<Call>, last: State)
    requires Inv(s) && Run(s, calls, last)
    ensures Inv(last) && last.cap == s.cap
    decreases |calls|
  {
    if calls != [] {
      match calls[0]
      case Alloc(p) =>
        AllocateSafe(s, p);
        RunKeeps(Allocate(s, p).value.0, calls[1..], last);
      case Free(o) =>
        DeallocateSafe(s, o);
        RunKeeps(Deallocate(s, o), calls[1..], last);
    }
  }

  /** After every such run num_objects counts the live objects, every chain holds distinct indices of its page, and
      the next allocation either hands out an object that nobody holds or is wedged, just when the head of the partial
      list is wholly free. */
  lemma SlabSafe(cap: nat, first: nat, calls: seq<Call>, last: State, page: nat)
    requires 2 <= cap && Run(Created(cap, first), calls, last) && page !in last.free
    ensures last.objects == |last.live|
    ensures forall p :: p in last.free ==> Chain(last.free[p], cap)
    ensures Allocate(last, page).None? <==> Wedged(last)
    ensures Allocate(last, page).Some? ==> Allocate(last, page).value.1 !in last.live
  {
    CreatedGood(cap, first);
    RunKeeps(Created(cap, first), calls, last);
    AllocateSafe(last, page);
  }

  /** Allocating one object from a fresh slab and returning it is enough to wedge the next allocation. */
  lemma AllocateFreeAllocate(cap: nat, first: nat, page: nat)
    requires 2 <= cap && page != first
    ensures var s1 := Allocate(Created(cap, first), page).value.0;
      var s2 := Deallocate(s1, Obj(first, 0));
      Run(Created(cap, first), [Alloc(page), Free(Obj(first, 0))], s2) && Wedged(s2)
  {
    var s := Created(cap, first);
    CreatedGood(cap, first);
    AllocateSafe(s, page);
    var s1 := Allocate(s, page).value.0;
    assert IndexOf(s1.partial, first) == 0;
    var calls := [Alloc(page), Free(Obj(first, 0))];
    UpToAt(cap, 0);
    assert calls[1..] == [Free(Obj(first, 0))] && calls[1..][1..] == [];
    assert Allocate(s, page).value.1 == Obj(first, 0);
  }

  /** Only the head of the partial list may be wholly free. */
  ghost predicate Calm(s: State) {
    forall i :: 0 < i < |s.partial| && s.partial[i] in s.free ==> |s.free[s.partial[i]]| < s.cap
  }

  /** o is the only live object of the page at the head of the partial list. */
  predicate EmptiesHead(s: State, o: Obj) {
    s.partial != [] && o.page == s.partial[0] && o.page in s.free && |s.free[o.page]| + 1 == s.cap
  }

  lemma AllocateCalm(s: State, page: nat)
    requires Inv(s) && Calm(s) && page !in s.free && Allocate(s, page).Some?
    ensures Calm(Allocate(s, page).value.0) && !Wedged(Allocate(s, page).value.0)
  {
    var t := Allocate(s, page).value.0;
    if s.partial != [] && |s.free[s.partial[0]]| == 1 {
      assert forall i :: 0 <= i < |t.partial| ==> t.partial[i] == s.partial[i + 1];
    } else if s.partial != [] {
      FullChain(s.free[s.partial[0]], s.cap);
    }
  }

  /** Only page p, behind the head, may be wholly free too. */
  ghost predicate CalmBut(s: State, p: nat) {
    forall i :: 0 < i < |s.partial| && s.partial[i] in s.free && s.partial[i] != p ==> |s.free[s.partial[i]]| < s.cap
  }

  lemma ReturnWedges(s: State, o: Obj)
    requires Inv(s) && Calm(s) && o in s.live
    ensures CalmBut(Return(s, o), o.page)
    ensures Wedged(Return(s, o)) <==> Wedged(s) || EmptiesHead(s, o)
    ensures |Return(s, o).free[o.page]| <= s.cap
  {
    PushChain(s.free[o.page], s.cap, o.index);
    FullChain([o.index] + s.free[o.page], s.cap);
  }

  lemma RefileCalms(s: State, p: nat)
    requires CalmBut(s, p) && p in s.free && |s.free[p]| <= s.cap && Distinct(s.partial)
    ensures Calm(Refile(s, p)) && (Wedged(Refile(s, p)) <==> Wedged(s))
  {}

  /** Returning an object wedges the slab exactly when it was the only live one of the head page, and a wedged slab
      stays wedged. */
  lemma DeallocateWedges(s: State, o: Obj)
    requires Inv(s) && Calm(s) && o in s.live
    ensures Calm(Deallocate(s, o))
    ensures Wedged(Deallocate(s, o)) <==> Wedged(s) || EmptiesHead(s, o)
  {
    ReturnWedges(s, o);
    RefileCalms(Return(s, o), o.page);
  }

  /** Some call of the run returns the only live object of the head page. */
  ghost predicate HeadEmptied(s: State, calls: seq<Call>)
    decreases |calls|
  {
    calls != [] && match calls[0]
      case Alloc(p) => Allocate(s, p).Some? && HeadEmptied(Allocate(s, p).value.0, calls[1..])
      case Free(o) => EmptiesHead(s, o) || HeadEmptied(Deallocate(s, o), calls[1..])
  }

  lemma {:induction false} WedgedAlong(s: State, calls: seq<Call>, last: State)
    requires Inv(s) && Calm(s) && Run(s, calls, last)
    ensures Wedged(last) <==> Wedged(s) || HeadEmptied(s, calls)
    decreases |calls|
  {
    if calls != [] {
      match calls[0]
      case Alloc(p) =>
        AllocateSafe(s, p);
        AllocateCalm(s, p);
        WedgedAlong(Allocate(s, p).value.0, calls[1..], last);
      case Free(o) =>
        DeallocateSafe(s, o);
        DeallocateWedges(s, o);
        WedgedAlong(Deallocate(s, o), calls[1..], last);
    }
  }

  /** A slab allocates safely after a run exactly if no call of the run returned the only live object of the page then
      at the head of the partial list. */
  lemma WedgedExactly(cap: nat, first: nat, calls: seq<Call>, last: State, page: nat)
    requires 2 <= cap && Run(Created(cap, first), calls, last) && page !in last.free
    ensures Allocate(last, page).Some? <==> !HeadEmptied(Created(cap, first), calls)
  {
    CreatedGood(cap, first);
    WedgedAlong(Created(cap, first), calls, last);
    SlabSafe(cap, first, calls, last, page);
  }

  lemma AllocateKeepsFull(s: State, p: nat, page: nat)
    requires Inv(s) && p in s.full && page !in s.free && Allocate(s, page).Some?
    ensures p in Allocate(s, page).value.0.full && Allocate(s, page).value.1.page != p
  {
    if s.partial != [] {
      assert s.partial[0] in s.partial;
    } else if s.empty != [] {
      assert s.empty[0] in s.empty;
    }
  }

  /** A page that was full once stays on the full list, whatever is returned to it, and is never allocated from. */
  lemma {:induction false} FullForever(s: State, calls: seq<Call>, last: State, p: nat, page: nat)
    requires Inv(s) && Run(s, calls, last) && p in s.full && page !in last.free
    ensures p in last.full
    ensures Allocate(last, page).Some? ==> Allocate(last, page).value.1.page != p
    decreases |calls|
  {
    if calls == [] {
      if Allocate(s, page).Some? {
        AllocateKeepsFull(s, p, page);
      }
    } else {
      match calls[0]
      case Alloc(q) =>
        AllocateSafe(s, q);
        AllocateKeepsFull(s, p, q);
        FullForever(Allocate(s, q).value.0, calls[1..], last, p, page);
      case Free(o) =>
        DeallocateSafe(s, o);
        FullForever(Deallocate(s, o), calls[1..], last, p, page);
    }
  }

  /** Where an object lies. */
  function Address(o: Obj, size: nat): nat { o.page * PAGE_SIZE + HEADER + o.index * size }

  /** Every object lies in its page behind the header, and masking and dividing its address as deallocate_from_slab
      does gives back its page and index. */
  lemma AddressRecovered(o: Obj, size: nat)
    requires 4 <= size && o.index < Capacity(size)
    ensures o.page * PAGE_SIZE + HEADER <= Address(o, size)
    ensures Address(o, size) + size <= (o.page + 1) * PAGE_SIZE
    ensures Address(o, size) / PAGE_SIZE == o.page
    ensures (Address(o, size) % PAGE_SIZE - HEADER) / size == o.index
  {
    var a := Address(o, size);
    Multiple(o.index, Capacity(size), size);
    assert Capacity(size) * size <= PAGE_SIZE - HEADER;
    assert a == o.page * PAGE_SIZE + (HEADER + o.index * size) && HEADER + o.index * size < PAGE_SIZE;
    assert a / PAGE_SIZE == o.page && a % PAGE_SIZE == HEADER + o.index * size;
    Quotient(o.index, size);
  }

  /** No object shares a byte with the three words of its page's header, and a page holds as many objects as fit behind
      them. */
  lemma HeaderKept(o: Obj, size: nat)
    requires 4 <= size
    ensures o.page * 4096 + 3 * 4 <= Address(o, size)
    ensures Capacity(size) * size <= 4096 - 3 * 4 < (Capacity(size) + 1) * size
  {}

  lemma Multiple(i: nat, n: nat, size: nat)
    requires i < n
    ensures i * size + size <= n * size
  {
    assert (i + 1) * size <= n * size;
  }

  lemma Quotient(i: nat, size: nat)
    requires 0 < size
    ensures i * size / size == i
  {
    var q, r := i * size / size, i * size % size;
    assert i * size == size * q + r;
    assert (i - q) * size == r;
    if q < i {
      Multiple(0, i - q, size);
    }
  }

  /** No byte belongs to two objects. */
  lemma ObjectsDisjoint(a: Obj, b: Obj, size: nat)
    requires 4 <= size && a.index < Capacity(size) && b.index < Capacity(size) && a != b
    ensures Address(a, size) + size <= Address(b, size) || Address(b, size) + size <= Address(a, size)
  {
    AddressRecovered(a, size);
    AddressRecovered(b, size);
    if a.page != b.page {
      assert (a.page + 1) * PAGE_SIZE <= b.page * PAGE_SIZE || (b.page + 1) * PAGE_SIZE <= a.page * PAGE_SIZE;
    } else if a.index < b.index {
      Multiple(a.index, b.index, size);
    } else {
      Multiple(b.index, a.index, size);
    }
  }
}
