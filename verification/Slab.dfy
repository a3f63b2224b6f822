/** The slab allocator's structures in memory: pages that thread their free objects, and the three lists of pages. */
module Slab {
  import opened Common
  import S = SlabLists

  /** What a chain of indices has at position i, or -1 past its end. */
  function Head(f: seq<nat>, i: nat): int { if i < |f| then f[i] else -1 }

  /** A page of objects: the header's fields, and the first word of each object. */
  class Sbuf {
    const page: nat
    var numFree: int
    var firstFree: int
    var next: Sbuf?
    var words: seq<int>

    /** The header and the words of the free objects spell out the chain f; the words of the other objects are their
        owners'. */
    ghost predicate Threads(f: seq<nat>, cap: nat)
      reads this`numFree, this`firstFree, this`words
    {
      && |words| == cap && numFree == |f| && firstFree == Head(f, 0) && S.Chain(f, cap)
      && forall i {:trigger words[f[i]]} :: 0 <= i < |f| ==> words[f[i]] == Head(f, i + 1)
    }

    /** A page with every object free. */
    constructor (page: nat, cap: nat)
      requires 0 < cap
      ensures this.page == page && next == null && Threads(S.UpTo(cap), cap)
    {
      this.page := page;
      numFree := cap;
      firstFree := 0;
      next := null;
      words := [];
      new;
      S.UpToChain(cap);
      forall j | 0 <= j < cap ensures S.UpTo(cap)[j] == j {
        S.UpToAt(cap, j);
      }
      for i := 0 to cap
        invariant |words| == i && numFree == cap && firstFree == 0 && next == null
        invariant forall j {:trigger words[j]} :: 0 <= j < i ==> words[j] == Head(S.UpTo(cap), j + 1)
      {
        words := words + [if i == cap - 1 then -1 else i + 1];
      }
    }

    /** Take the first free object. */
    method Pop(ghost f: seq<nat>, ghost cap: nat) returns (i: nat)
      requires Threads(f, cap) && f != []
      modifies this`numFree, this`firstFree
      ensures i == f[0] && Threads(f[1..], cap)
    {
      S.PopChain(f, cap);
      i := firstFree;
      firstFree := words[i];
      numFree := numFree - 1;
      assert forall j :: 0 <= j < |f[1..]| ==> f[1..][j] == f[j + 1];
    }

    /** Put object i at the front of the free objects. */
    method Push(ghost f: seq<nat>, ghost cap: nat, i: nat)
      requires Threads(f, cap) && i < cap && i !in f
      modifies this`numFree, this`firstFree, this`words
      ensures Threads([i] + f, cap) && forall j :: 0 <= j < cap && j != i ==> words[j] == old(words[j])
    {
      S.PushChain(f, cap, i);
      words := words[i := firstFree];
      firstFree := i;
      numFree := numFree + 1;
      ghost var g := [i] + f;
      forall j | 0 <= j < |g| ensures words[g[j]] == Head(g, j + 1) {
        if j > 0 {
          assert g[j] == f[j - 1] && f[j - 1] in f;
        }
      }
    }

    /** The owner of a live object writes over it. */
    method Write(ghost f: seq<nat>, ghost cap: nat, i: nat, v: int)
      requires Threads(f, cap) && i < cap && i !in f
      modifies this`words
      ensures Threads(f, cap) && words == old(words)[i := v]
    {
      words := words[i := v];
    }
  }

  /** Where an allocation ends: with an object, reading through null, or looping. */
  datatype Outcome = Object(address: nat) | NullRead | Spins

  ghost function At(memory: map<nat, Sbuf>, list: seq<nat>, i: nat): Sbuf? {
    if i < |list| && list[i] in memory then memory[list[i]] else null
  }

  /** The list that starts at head holds exactly the pages of list, in order. */
  ghost predicate Links(memory: map<nat, Sbuf>, nodes: set<Sbuf>, head: Sbuf?, list: seq<nat>)
    reads nodes`next
  {
    && head == At(memory, list, 0)
    && (forall i :: 0 <= i < |list| ==> list[i] in memory && memory[list[i]] in nodes)
    && forall i {:trigger memory[list[i]].next} :: 0 <= i < |list| ==>
      memory[list[i]].next == At(memory, list, i + 1)
  }

  /** Every page threads its chain. */
  ghost predicate Pages(memory: map<nat, Sbuf>, nodes: set<Sbuf>, free: map<nat, seq<nat>>, cap: nat)
    reads nodes`numFree, nodes`firstFree, nodes`words
  {
    && (forall p :: p in free ==> p in memory)
    && forall p :: p in memory ==>
         p in free && memory[p] in nodes && memory[p].page == p && memory[p].Threads(free[p], cap)
  }

  lemma LinksGrow(memory: map<nat, Sbuf>, nodes: set<Sbuf>, head: Sbuf?, list: seq<nat>, sb: Sbuf)
    requires Links(memory, nodes, head, list) && sb.page !in memory && sb.next == null
    ensures Links(memory[sb.page := sb], nodes + {sb}, sb, [sb.page])
    ensures Links(memory[sb.page := sb], nodes + {sb}, null, [])
    ensures Links(memory[sb.page := sb], nodes + {sb}, head, list)
  {}

  lemma PagesGrow(memory: map<nat, Sbuf>, nodes: set<Sbuf>, free: map<nat, seq<nat>>, cap: nat, page: nat, sb: Sbuf,
                  f: seq<nat>)
    requires Pages(memory, nodes, free, cap) && page !in memory && sb.page == page && sb.Threads(f, cap)
    ensures Pages(memory[page := sb], nodes + {sb}, free[page := f], cap)
  {}

  class SlabEntry {
    const size: nat
    var numObjects: int
    var empty: Sbuf?
    var partial: Sbuf?
    var full: Sbuf?
    /** The pages in use, by number. */
    var memory: map<nat, Sbuf>
    ghost var nodes: set<Sbuf>
    ghost var state: S.State

    ghost predicate Lists(nodes: set<Sbuf>, empties: seq<nat>, partials: seq<nat>, fulls: seq<nat>)
      reads this`memory, this`empty, this`partial, this`full, nodes`next
    {
      && Links(memory, nodes, empty, empties) && Links(memory, nodes, partial, partials)
      && Links(memory, nodes, full, fulls)
    }

    /** The memory spells out s. */
    ghost predicate Spells(s: S.State)
      reads this`memory, this`nodes, this`empty, this`partial, this`full, nodes
    {
      Pages(memory, nodes, s.free, s.cap) && Lists(nodes, s.empty, s.partial, s.full)
    }

    /** How an allocation from the wedged state s ends. */
    ghost predicate Wedge(s: S.State, r: Outcome) {
      if s.empty == [] then r == NullRead else if |s.empty| == 1 then r.Object? else r == Spins
    }

    /** An allocation from s leads to t and hands out the object r. */
    ghost predicate Handed(s: S.State, newPage: nat, t: S.State, r: Outcome) {
      var a := S.Allocate(s, newPage);
      a.Some? && a.value.0 == t && r == Object(S.Address(a.value.1, size))
    }

    ghost predicate Valid()
      reads this, nodes
    {
      4 <= size && state.cap == S.Capacity(size) && numObjects == state.objects && Spells(state) && S.Inv(state)
    }

    /** create_slab. */
    constructor (size: nat, page: nat)
      requires 4 <= size && 2 <= S.Capacity(size)
      ensures Valid() && state == S.Created(S.Capacity(size), page) && this.size == size && fresh(nodes)
    {
      this.size := size;
      var cap := S.Capacity(size);
      var sb := new Sbuf(page, cap);
      numObjects := 0;
      empty := sb;
      partial := null;
      full := null;
      memory := map[page := sb];
      nodes := {sb};
      state := S.Created(cap, page);
      S.CreatedGood(cap, page);
    }

    /** Make the new page sb the empty list. */
    method Adopt(sb: Sbuf, ghost nodes: set<Sbuf>, ghost free: map<nat, seq<nat>>, ghost cap: nat,
                 ghost f: seq<nat>, ghost fulls: seq<nat>)
      requires sb.page !in memory && sb.next == null && sb.Threads(f, cap)
      requires Pages(memory, nodes, free, cap)
      requires partial == null && Links(memory, nodes, full, fulls)
      modifies this`memory, this`empty
      ensures memory == old(memory)[sb.page := sb]
      ensures Pages(memory, nodes + {sb}, free[sb.page := f], cap)
      ensures Lists(nodes + {sb}, [sb.page], [], fulls)
    {
      PagesGrow(memory, nodes, free, cap, sb.page, sb, f);
      LinksGrow(memory, nodes, full, fulls, sb);
      memory := memory[sb.page := sb];
      empty := sb;
    }

    /** Take the first free object of page cur. */
    method TakeFrom(cur: Sbuf, ghost s: S.State, ghost t: S.State) returns (i: nat)
      requires Spells(s) && cur.page in memory && memory[cur.page] == cur && s.free[cur.page] != []
      requires t == S.Take(s, cur.page)
      modifies cur`numFree, cur`firstFree, this`numObjects
      ensures Spells(t) && i == s.free[cur.page][0]
      ensures numObjects == old(numObjects) + 1 && cur.numFree == |t.free[cur.page]|
    {
      i := cur.Pop(s.free[cur.page], s.cap);
      numObjects := numObjects + 1;
      assert Lists(nodes, s.empty, s.partial, s.full);
    }

    /** Move the head of the partial list to the full list. */
    method MoveToFull(cur: Sbuf, ghost nodes: set<Sbuf>, ghost p: nat, ghost empties: seq<nat>, ghost rest: seq<nat>,
                      ghost fulls: seq<nat>)
      requires Lists(nodes, empties, [p] + rest, fulls) && partial == cur && cur.page == p
      requires p !in empties && p !in rest && p !in fulls
      requires forall q :: q in memory ==> memory[q].page == q
      modifies this`partial, this`full, cur`next
      ensures Lists(nodes, empties, rest, [p] + fulls)
    {
      ghost var partials, filled := [p] + rest, [p] + fulls;
      assert forall i :: 0 <= i < |rest| ==> rest[i] == partials[i + 1];
      assert forall i :: 0 < i < |filled| ==> filled[i] == fulls[i - 1];
      partial := cur.next;
      cur.next := full;
      full := cur;
    }

    /** Get a new page when both lists that offer one are empty. */
    method Grow(newPage: nat, ghost s: S.State, ghost t: S.State)
      requires t == S.Grown(s, newPage) && Spells(s) && newPage !in memory && partial == null
      requires 4 <= size && 0 < s.cap == S.Capacity(size)
      modifies this`memory, this`empty, this`nodes
      ensures newPage in memory && fresh(memory[newPage]) && nodes == old(nodes) + {memory[newPage]}
      ensures memory == old(memory)[newPage := memory[newPage]] && empty == memory[newPage]
      ensures Spells(t)
    {
      var sb := new Sbuf(newPage, S.Capacity(size));
      Install(sb, s, t);
    }

    method Install(sb: Sbuf, ghost s: S.State, ghost t: S.State)
      requires t == S.Grown(s, sb.page) && Spells(s) && sb.page !in memory && partial == null
      requires sb.next == null && sb.Threads(S.UpTo(s.cap), s.cap)
      modifies this`memory, this`empty, this`nodes
      ensures nodes == old(nodes) + {sb} && memory == old(memory)[sb.page := sb] && empty == sb && Spells(t)
    {
      Adopt(sb, nodes, s.free, s.cap, S.UpTo(s.cap), s.full);
      nodes := nodes + {sb};
    }

    /** Move page cur, just taken from while wholly free, from the empty list to the partial list. The walk along the
        empty list never advances, so unless cur is its head the first step decides: it reads through null if the list
        is empty, ends if there is one page, and loops otherwise. */
    method MoveToPartial(cur: Sbuf, address: nat, ghost rest: seq<nat>, ghost fulls: seq<nat>) returns (r: Outcome)
      requires empty != null && empty != cur ==> empty.next != cur
      requires empty == cur ==> partial == null && Lists(nodes, [cur.page] + rest, [], fulls)
      requires empty == cur ==> cur.page !in rest && cur.page !in fulls
      requires forall q :: q in memory ==> memory[q].page == q
      modifies this`empty, this`partial, cur`next
      ensures old(empty) == cur ==> r == Object(address) && Lists(nodes, rest, [cur.page], fulls)
      ensures old(empty) == null ==> r == NullRead
      ensures old(empty) != cur && old(empty) != null ==>
        r == if old(empty.next) != null then Spins else Object(address)
      ensures old(empty) != cur && r.Object? ==> partial == cur && cur.next == old(partial)
    {
      var temp := empty;
      if temp == null {
        return NullRead;
      }
      if temp == cur {
        ghost var empties := [cur.page] + rest;
        assert forall i :: 0 <= i < |rest| ==> rest[i] == empties[i + 1];
        empty := temp.next;
      } else if temp.next != null {
        return Spins;
      }
      cur.next := partial;
      partial := cur;
      r := Object(address);
    }

    /** cur is the page s has just been taken from. */
    ghost predicate Taken(cur: Sbuf, s: S.State)
      reads this`empty, this`partial, this`memory, cur`numFree
    {
      && cur == (if partial != null then partial else empty)
      && cur.page in s.free && cur.numFree == |s.free[cur.page]| && 4 <= size && 2 <= s.cap == S.Capacity(size)
      && S.Heads(cur.page, s.empty, s.partial, s.full) && (s.partial == [] ==> cur.numFree == s.cap - 1)
    }

    /** The last part of allocate_from_slab: file the page just taken from under its new count. */
    method File(cur: Sbuf, address: nat, ghost s: S.State) returns (r: Outcome)
      requires Spells(s) && Taken(cur, s)
      modifies this`empty, this`partial, this`full, cur`next
      ensures s.partial != [] && cur.numFree == s.cap - 1 ==> Wedge(s, r) && (r.Object? ==> partial == cur == cur.next)
      ensures !(s.partial != [] && cur.numFree == s.cap - 1) ==> r == Object(address) && Spells(S.File(s, cur.page))
    {
      assert Pages(memory, nodes, s.free, s.cap);
      if cur.numFree == 0 {
        assert s.partial == [cur.page] + s.partial[1..];
        MoveToFull(cur, nodes, cur.page, s.empty, s.partial[1..], s.full);
        r := Object(address);
      } else if cur.numFree == S.Capacity(size) - 1 {
        assert s.partial == [] ==> s.empty == [cur.page] + s.empty[1..];
        r := MoveToPartial(cur, address, if s.partial == [] then s.empty[1..] else [], s.full);
      } else {
        r := Object(address);
      }
    }

    /** The second half of allocate_from_slab: take an object from cur and file the page. */
    method TakeAndFile(cur: Sbuf, ghost s: S.State) returns (r: Outcome)
      requires Spells(s) && cur.page in memory && memory[cur.page] == cur && S.Offers(s, cur.page)
      requires cur == if partial != null then partial else empty
      requires 4 <= size && 2 <= s.cap == S.Capacity(size)
      modifies this`numObjects, this`empty, this`partial, this`full
      modifies cur`numFree, cur`firstFree, cur`next
      ensures !S.Wedged(s) ==> Spells(S.File(S.Take(s, cur.page), cur.page))
      ensures !S.Wedged(s) ==> r == Object(S.Address(S.Obj(cur.page, s.free[cur.page][0]), size))
      ensures !S.Wedged(s) ==> numObjects == old(numObjects) + 1
      ensures S.Wedged(s) ==> Wedge(s, r) && (r.Object? ==> partial == cur == cur.next)
    {
      ghost var t := S.Take(s, cur.page);
      S.TakeFacts(s, cur.page);
      var i := TakeFrom(cur, s, t);
      r := File(cur, S.Address(S.Obj(cur.page, i), size), t);
    }

    /** The first half of allocate_from_slab: the page to take from, newly obtained if need be. */
    method Current(newPage: nat, ghost s: S.State) returns (cur: Sbuf)
      requires Spells(s) && newPage !in memory && 4 <= size && 0 < s.cap == S.Capacity(size)
      modifies this`memory, this`empty, this`nodes
      ensures fresh(nodes - old(nodes)) && Spells(S.Start(s, newPage))
      ensures cur.page in memory && memory[cur.page] == cur && cur in nodes
      ensures cur == (if partial != null then partial else empty)
      ensures cur.page == S.HeadPage(S.Start(s, newPage))
    {
      if partial == null && empty == null {
        Grow(newPage, s, S.Grown(s, newPage));
      }
      cur := if partial != null then partial else empty;
    }

    /** The code of allocate_from_slab, over the state s. */
    method FromState(newPage: nat, ghost s: S.State, ghost t: S.State, ghost o: S.Obj) returns (r: Outcome)
      requires Spells(s) && newPage !in memory && 4 <= size && 2 <= s.cap == S.Capacity(size)
      requires S.Offers(S.Start(s, newPage), S.HeadPage(S.Start(s, newPage)))
      requires t == S.After(s, newPage) && o == S.Given(s, newPage)
      modifies this`memory, this`nodes, this`empty, this`partial, this`full, this`numObjects
      modifies nodes`numFree, nodes`firstFree, nodes`next
      ensures fresh(nodes - old(nodes))
      ensures !S.Wedged(s) ==> Spells(t) && r == Object(S.Address(o, size)) && numObjects == old(numObjects) + 1
      ensures S.Wedged(s) ==> Wedge(s, r) && (r.Object? ==> partial != null && partial.next == partial)
    {
      var cur := Current(newPage, s);
      r := TakeAndFile(cur, S.Start(s, newPage));
    }

    /** Record the state that the memory now spells out. */
    ghost method Become(t: S.State)
      requires 4 <= size && t.cap == S.Capacity(size) && numObjects == t.objects && Spells(t) && S.Inv(t)
      modifies this`state
      ensures Valid() && state == t
    {
      state := t;
    }

    /** allocate_from_slab. Unless the slab is wedged it hands out what the lists say and stays valid; what is stored in
        the objects is not touched. Wedged, it reads through null, loops, or links the head page to itself. */
    method Allocate(newPage: nat) returns (r: Outcome)
      requires Valid() && newPage !in memory
      modifies this`memory, this`nodes, this`empty, this`partial, this`full, this`numObjects, this`state
      modifies nodes`numFree, nodes`firstFree, nodes`next
      ensures fresh(nodes - old(nodes))
      ensures !S.Wedged(old(state)) ==> Valid() && Handed(old(state), newPage, state, r)
      ensures S.Wedged(old(state)) ==>
        Wedge(old(state), r) && (r.Object? ==> partial != null && partial.next == partial)
    {
      ghost var s := state;
      S.AllocateSteps(s, newPage);
      ghost var t, o := S.After(s, newPage), S.Given(s, newPage);
      r := FromState(newPage, s, t, o);
      if !S.Wedged(s) {
        Become(t);
      }
    }

    /** The walk of deallocate_from_slab: the page before sb on the partial list. */
    method FindBefore(sb: Sbuf, ghost partials: seq<nat>) returns (cur: Sbuf?)
      requires Links(memory, nodes, partial, partials) && Distinct(partials)
      requires sb.page in memory && memory[sb.page] == sb && forall q :: q in memory ==> memory[q].page == q
      ensures var k := IndexOf(partials, sb.page);
        cur == if 0 < k < |partials| then At(memory, partials, k - 1) else null
    {
      cur := partial;
      ghost var i := 0;
      while cur != null && cur.next != sb
        invariant i <= |partials| && cur == At(memory, partials, i)
        invariant forall j :: 0 < j <= i && j < |partials| ==> partials[j] != sb.page
        decreases |partials| - i
      {
        assert memory[partials[i]] == cur;
        assert i + 1 < |partials| ==> memory[partials[i + 1]] == cur.next;
        cur := cur.next;
        i := i + 1;
      }
      assert cur != null ==> memory[partials[i]] == cur;
    }

    /** Move page sb from behind cur on the partial list to the front of the empty list. */
    method MoveToEmpty(cur: Sbuf, sb: Sbuf, ghost k: nat, ghost empties: seq<nat>, ghost partials: seq<nat>,
                       ghost fulls: seq<nat>)
      requires Lists(nodes, empties, partials, fulls) && 0 < k < |partials| && Distinct(partials)
      requires memory[partials[k - 1]] == cur && memory[partials[k]] == sb
      requires forall q :: q in memory ==> memory[q].page == q
      requires cur.page !in empties && cur.page !in fulls && sb.page !in empties && sb.page !in fulls
      modifies this`empty, cur`next, sb`next
      ensures Lists(nodes, [sb.page] + empties, partials[..k] + partials[k + 1..], fulls)
    {
      ghost var emptied, rest := [sb.page] + empties, partials[..k] + partials[k + 1..];
      assert forall i :: 0 < i < |emptied| ==> emptied[i] == empties[i - 1];
      assert forall i :: 0 <= i < |rest| ==> rest[i] == partials[if i < k then i else i + 1];
      cur.next := sb.next;
      sb.next := empty;
      empty := sb;
    }

    /** Thread object i of page sb back in. */
    method PutBack(sb: Sbuf, i: nat, ghost s: S.State, ghost t: S.State)
      requires sb.page in s.free && t == S.Return(s, S.Obj(sb.page, i))
      requires Spells(s) && sb.page in memory && memory[sb.page] == sb && i < s.cap && i !in s.free[sb.page]
      modifies sb`numFree, sb`firstFree, sb`words, this`numObjects
      ensures Spells(t) && numObjects == old(numObjects) - 1
      ensures forall j :: 0 <= j < s.cap && j != i ==> sb.words[j] == old(sb.words[j])
    {
      sb.Push(s.free[sb.page], s.cap, i);
      numObjects := numObjects - 1;
      assert Lists(nodes, s.empty, s.partial, s.full);
    }

    /** The last part of deallocate_from_slab: a page now wholly free moves to the empty list, if the walk finds it. */
    method Refile(sb: Sbuf, ghost s: S.State)
      requires Spells(s) && sb.page in memory && memory[sb.page] == sb && 4 <= size && s.cap == S.Capacity(size)
      requires Distinct(s.partial) && forall p :: p in s.partial ==> p !in s.empty && p !in s.full
      modifies this`empty, nodes`next
      ensures Spells(S.Refile(s, sb.page))
    {
      assert Pages(memory, nodes, s.free, s.cap);
      if sb.numFree == S.Capacity(size) {
        var cur := FindBefore(sb, s.partial);
        if cur == null {
          return;
        }
        ghost var k := IndexOf(s.partial, sb.page);
        assert s.partial[k] in s.partial && s.partial[k - 1] in s.partial;
        MoveToEmpty(cur, sb, k, s.empty, s.partial, s.full);
      }
    }

    /** Find the page by masking the address and the index by dividing. */
    method Locate(address: nat, ghost o: S.Obj) returns (sb: Sbuf, i: nat)
      requires o.page in memory && 4 <= size && o.index < S.Capacity(size) && address == S.Address(o, size)
      requires memory[o.page].page == o.page
      ensures sb == memory[o.page] && i == o.index && S.Obj(sb.page, i) == o
    {
      S.AddressRecovered(o, size);
      sb := memory[address / S.PAGE_SIZE];
      i := (address % S.PAGE_SIZE - S.HEADER) / size;
    }

    /** The code of deallocate_from_slab, over the state s. */
    method Back(address: nat, ghost o: S.Obj, ghost s: S.State)
      requires Spells(s) && 4 <= size && s.cap == S.Capacity(size) && address == S.Address(o, size)
      requires o.page in memory && o.index < s.cap && o.index !in s.free[o.page]
      requires Distinct(s.partial) && forall p :: p in s.partial ==> p !in s.empty && p !in s.full
      modifies this`empty, this`numObjects, nodes`numFree, nodes`firstFree, nodes`next, {memory[o.page]}`words
      ensures Spells(S.Refile(S.Return(s, o), o.page)) && numObjects == old(numObjects) - 1
      ensures forall i :: 0 <= i < s.cap && i != o.index ==> memory[o.page].words[i] == old(memory[o.page].words[i])
    {
      var sb, i := Locate(address, o);
      ghost var t := S.Return(s, o);
      PutBack(sb, i, s, t);
      Refile(sb, t);
    }

    /** deallocate_from_slab, for the address of a live object. It writes over no other object. */
    method Deallocate(address: nat, ghost o: S.Obj)
      requires Valid() && o in state.live && address == S.Address(o, size)
      modifies this`empty, this`numObjects, this`state, nodes`numFree, nodes`firstFree, nodes`next
      modifies {memory[o.page]}`words
      ensures Valid() && state == S.Deallocate(old(state), o)
      ensures forall i :: 0 <= i < state.cap && i != o.index ==> memory[o.page].words[i] == old(memory[o.page].words[i])
    {
      S.DeallocateSteps(state, o);
      Back(address, o, state);
      Become(S.Deallocate(state, o));
    }

    /** The owner of a live object writes into it. */
    method Store(o: S.Obj, v: int)
      requires Valid() && o in state.live
      modifies nodes`words
      ensures Valid()
    {
      S.DeallocateSteps(state, o);
      memory[o.page].Write(state.free[o.page], state.cap, o.index, v);
      assert Lists(nodes, state.empty, state.partial, state.full);
      assert Pages(memory, nodes, state.free, state.cap);
    }
  }
}
