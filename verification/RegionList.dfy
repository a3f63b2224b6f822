/** Address spaces as the kernel keeps them: singly linked region nodes between two sentinels. */
module RegionList {
  import opened Common
  import opened Segments
  import BestFit
  import Coalesce
  import Expand
  import FixedCreate
  import Links

  class Region {
    var va: int
    var length: int
    var kind: RegionType
    var attributes: int
    var parameter: int
    var parent: AddressSpace?
    var next: Region?
    var sharedNext: Region?

    /** A region fresh from the slab: no field has a known value. */
    constructor () {}

    constructor Sentinel(next: Region?)
      ensures kind.Sentinel? && this.next == next
    {
      kind := RegionType.Sentinel;
      this.next := next;
    }

    /** The upper part of a split: everything but sharedNext is copied or given; null stands for whatever the slab left
        there. */
    constructor Upper(of: Region, va: int, length: int)
      ensures Value() == Segment(va, length, of.Value().info) && parent == of.parent && sharedNext == null
    {
      attributes := of.attributes;
      kind := of.kind;
      parameter := of.parameter;
      parent := of.parent;
      this.va := va;
      this.length := length;
      sharedNext := null;
    }

    /** The end of create_region: the start address is already set. */
    method Fill(length: int, kind: RegionType, attributes: int, parameter: int, parent: AddressSpace)
      modifies this
      ensures Value() == Segment(old(va), length, Info(kind, attributes, parameter))
      ensures this.parent == parent && sharedNext == this
    {
      this.length := length;
      this.kind := kind;
      this.attributes := attributes;
      this.parameter := parameter;
      this.parent := parent;
      sharedNext := this;
    }

    constructor Initial(va: int, length: int, kind: RegionType, next: Region)
      ensures this.va == va && this.length == length && this.kind == kind
      ensures attributes == 0 && parameter == 0 && this.next == next && sharedNext == this
    {
      this.va, this.length, this.kind, attributes, parameter := va, length, kind, 0, 0;
      this.next, sharedNext := next, this;
    }

    /** What sharedNext is good for. A FREE region is on no ring, so a pointer to another region is one it has kept. */
    ghost function LinkOf(): Links.Link
      reads this`sharedNext, this`kind
    {
      LinkBy(this, sharedNext, kind)
    }

    /** Whether the walk of delete_region from here comes home. */
    method ComesHome() returns (home: bool)
      ensures home <==> !LinkOf().Stray?
    {
      home := sharedNext == this || (sharedNext != null && !kind.Free?);
    }

    ghost function Value(): Segment
      reads this`va, this`length, this`kind, this`attributes, this`parameter
    {
      Segment(va, length, Info(kind, attributes, parameter))
    }
  }

  class AddressSpace {
    const first: Region
    const last: Region
    var stack: Region?
    /** What the page tables translate: page address to frame number. */
    var pages: map<int, int>
    /** The nodes in list order, sentinels included. */
    ghost var chain: seq<Region>
    /** The nodes this space may change; a node it unlinks stays among them. */
    ghost var nodes: set<Region>
    /** The abstract value of the list: what the nodes between the sentinels say. */
    ghost var segs: seq<Segment>

    ghost predicate Valid()
      reads this`chain, this`segs, this`nodes
      reads nodes`next, nodes`kind, nodes`parent, nodes`va, nodes`length, nodes`attributes, nodes`parameter
    {
      && (forall i {:trigger chain[i]} :: 0 <= i < |chain| ==> chain[i] in nodes)
      && 2 <= |chain| && chain[0] == first && chain[|chain| - 1] == last
      && Distinct(chain)
      && (forall i {:trigger chain[i].next} :: 0 <= i < |chain| - 1 ==> chain[i].next == chain[i + 1])
      && last.next == null
      && first.kind.Sentinel? && last.kind.Sentinel?
      && (forall i {:trigger chain[i].kind} :: 0 < i < |chain| - 1 ==> !chain[i].kind.Sentinel?)
      && (forall i {:trigger chain[i].parent} :: 0 < i < |chain| - 1 ==> chain[i].parent == this)
      && |segs| == |chain| - 2
      && (forall i {:trigger segs[i]} :: 0 <= i < |segs| ==> segs[i] == chain[i + 1].Value())
    }

    /** The links of the listed regions. */
    ghost predicate Linked(links: seq<Links.Link>)
      reads this`chain, chain`sharedNext, chain`kind
    {
      |links| + 2 == |chain| && forall j {:trigger links[j]} :: 0 <= j < |links| ==> links[j] == chain[j + 1].LinkOf()
    }

    /** create_address_space: a FREE region below the default stack. */
    constructor ()
      ensures Valid() && fresh(nodes)
      ensures |chain| == 4 && stack == chain[2] && pages == map[]
      ensures chain[1].sharedNext == chain[1] && chain[2].sharedNext == chain[2]
      ensures segs == INITIAL
    {
      var bottom := new Region.Sentinel(null);
      var top := new Region.Initial(STACK_START, 0x1_0000, Stack, bottom);
      var free := new Region.Initial(USER_START, (STACK_START - USER_START) / 4096, Free, top);
      var head := new Region.Sentinel(free);
      first, last, stack := head, bottom, top;
      chain, segs := [head, free, top, bottom], [free.Value(), top.Value()];
      nodes := {head, free, top, bottom};
      pages := map[];
      new;
      free.parent, top.parent := this, this;
      assert free.Value() == INITIAL_FREE && top.Value() == INITIAL_STACK;
    }

    /** determine_memory_region: the first region holding addr, null when there is none. */
    method Determine(addr: int) returns (m: Region?)
      requires Valid()
      ensures var k := Find(segs, addr); m == if k < |segs| then chain[k + 1] else null
    {
      m := first.next;
      ghost var i := 0;
      while m != last
        invariant 0 <= i <= |segs| && m == chain[i + 1]
        invariant forall j :: 0 <= j < i ==> !segs[j].Has(addr)
        decreases |chain| - i
      {
        assert segs[i] == m.Value();
        if m.va <= addr && addr < m.va + 4096 * m.length {
          return;
        }
        m := m.next;
        i := i + 1;
      }
      m := null;
    }

    /** The walk of delete_region to the node before x. */
    method Before(x: Region, ghost k: nat) returns (counter: Region)
      requires Valid() && 0 < k < |chain| - 1 && chain[k] == x
      ensures counter == chain[k - 1]
    {
      counter := first;
      ghost var c := 0;
      while counter.next != x
        invariant 0 <= c < k && counter == chain[c]
        decreases k - c
      {
        counter := counter.next;
        c := c + 1;
      }
      assert chain[c + 1] == chain[k];
    }

    /** The node before x steps over x. */
    method Bypass(counter: Region, x: Region, ghost k: nat)
      requires Valid() && k < |segs| && chain[k] == counter && chain[k + 1] == x
      modifies this`chain, this`segs, counter`next
      ensures Valid() && chain == Coalesce.Remove(old(chain), k + 1)
      ensures segs == Coalesce.Remove(old(segs), k)
    {
      ghost var was := chain;
      counter.next := counter.next.next;
      chain := Coalesce.Remove(was, k + 1);
      segs := Coalesce.Remove(segs, k);
      RemoveDistinct(was, k + 1);
      forall i | 0 <= i < |chain| - 1 ensures chain[i].next == chain[i + 1] {
        var p := if i <= k then i else i + 1;
        assert chain[i] == was[p];
        assert p != k ==> was[p] != counter;
      }
      forall j | 0 <= j < |segs| ensures segs[j] == chain[j + 1].Value() {
        assert chain[j + 1] == was[if j < k then j + 1 else j + 2];
      }
    }

    /** The unlink of delete_region. The node at list position p, x itself included, still leads to the one
        after it. */
    method Unlink(x: Region, ghost k: nat, ghost node: Region, ghost p: nat) returns (ghost q: nat)
      requires Valid() && k < |segs| && chain[k + 1] == x && p <= |segs| && chain[p] == node
      modifies this`chain, this`segs, nodes`next
      ensures Valid() && chain == Coalesce.Remove(old(chain), k + 1)
      ensures segs == Coalesce.Remove(old(segs), k)
      ensures q == Coalesce.After(p, k) && q <= |segs| && node.next == chain[q + 1]
    {
      var counter := Before(x, k + 1);
      q := Coalesce.After(p, k);
      ghost var was := chain;
      assert x != counter && x.next == was[k + 2];
      Bypass(counter, x, k);
      if p == k + 1 {
        assert chain[k + 1] == was[k + 2];
      } else {
        assert chain[q] == node;
      }
    }

    method SetLength(m: Region, ghost i: nat, length: int)
      requires Valid() && i < |segs| && chain[i + 1] == m
      modifies m`length, this`segs
      ensures Valid() && segs == old(segs)[i := old(segs)[i].(length := length)]
    {
      m.length := length;
      segs := segs[i := segs[i].(length := length)];
    }

    method SetStart(m: Region, ghost i: nat, va: int)
      requires Valid() && i < |segs| && chain[i + 1] == m
      modifies m`va, this`segs
      ensures Valid() && segs == old(segs)[i := old(segs)[i].(va := va)]
    {
      m.va := va;
      segs := segs[i := segs[i].(va := va)];
    }

    /** m loses pages at its front. */
    method CutFront(m: Region, ghost i: nat, pages: int, va: int)
      requires Valid() && i < |segs| && chain[i + 1] == m
      modifies m`va, m`length, this`segs
      ensures Valid() && segs == old(segs)[i := old(segs)[i].(va := va, length := old(segs)[i].length - pages)]
    {
      ghost var was := segs;
      assert segs[i] == m.Value();
      SetLength(m, i, m.length - pages);
      SetStart(m, i, va);
      assert segs == was[i := was[i].(va := va, length := was[i].length - pages)];
    }

    /** m grows by the length of x, and x leaves the list. */
    method Absorb(m: Region, x: Region, ghost i: nat, ghost k: nat, ghost node: Region, ghost p: nat)
      returns (ghost q: nat)
      requires Valid() && i < |segs| && k < |segs| && i != k && chain[i + 1] == m && chain[k + 1] == x
      requires p <= |segs| && chain[p] == node
      modifies this`chain, this`segs, nodes`next, m`length
      ensures Valid() && segs == Coalesce.Absorb(old(segs), i, k)
      ensures chain == Coalesce.Remove(old(chain), k + 1) && m == chain[Coalesce.Shift(i, k) + 1]
      ensures q == Coalesce.After(p, k) && q <= |segs| && node.next == chain[q + 1]
    {
      SetLength(m, i, m.length + x.length);
      q := Unlink(x, k, node, p);
    }

    /** The region that lookup finds just below mr, if it is FREE, absorbs mr. */
    method JoinLeft(mr: Region, ghost i: nat, ghost l: nat)
      returns (m: Region, ghost joins: bool, ghost k: nat, ghost p: nat)
      requires Valid() && i < |segs| && chain[i + 1] == mr && l == Find(segs, segs[i].va - 1)
      modifies this`chain, this`segs, nodes`next, nodes`length
      ensures Valid() && joins == (l < |old(segs)| && old(segs)[l].IsFree())
      ensures !joins ==> segs == old(segs) && chain == old(chain) && m == mr
      ensures joins ==> segs == Coalesce.Absorb(old(segs), l, i) && chain == Coalesce.Remove(old(chain), i + 1)
      ensures k == (if joins then Coalesce.Shift(l, i) else i) && k < |segs| && m == chain[k + 1] && m in nodes
      ensures p == (if joins then i + 1 else i + 2) && p < |chain| && chain[p] == old(chain)[i + 2]
    {
      assert segs[i] == mr.Value();
      m, joins, k, p := mr, false, i, i + 2;
      var cur := Determine(mr.va - 1);
      if cur != null {
        assert segs[l] == cur.Value();
        if cur.kind.Free? {
          joins, p := true, i + 1;
          ghost var _ := Absorb(cur, mr, l, i, first, 0);
          m, k := cur, Coalesce.Shift(l, i);
        }
      }
    }

    /** The first merge of delete_region, with the region before mr; m is the node that now stands for mr.
        The node after mr stays listed, at position p. */
    method MergeLeft(mr: Region, ghost i: nat, ghost after: Region)
      returns (m: Region, ghost k: nat, ghost p: nat)
      requires Valid() && i < |segs| && chain[i + 1] == mr && chain[i + 2] == after
      modifies this`chain, this`segs, nodes`next, nodes`length
      ensures Valid() && (segs, k) == Coalesce.MergeLeft(old(segs), i)
      ensures k < |segs| && m == chain[k + 1] && m in nodes
      ensures chain == ChainLeft(old(chain), old(segs), i)
      ensures after != last ==> p == Coalesce.NextLeft(old(segs), i, i + 2) && p <= |segs| && chain[p] == after
    {
      ghost var l, joins := Find(segs, segs[i].va - 1), false;
      MergesLeft(chain, segs, i, l);
      m, joins, k, p := JoinLeft(mr, i, l);
    }

    /** m absorbs the region that lookup finds just above it, if that is FREE. */
    method JoinRight(m: Region, ghost k: nat, ghost x: nat, ghost node: Region, ghost p: nat)
      returns (ghost n: nat, ghost q: nat, ghost joins: bool)
      requires Valid() && k < |segs| && chain[k + 1] == m && p <= |segs| && chain[p] == node
      requires x == Find(segs, segs[k].End() + 1)
      modifies this`chain, this`segs, nodes`next, m`length
      ensures Valid() && joins == (x < |old(segs)| && old(segs)[x].IsFree())
      ensures !joins ==> segs == old(segs) && chain == old(chain) && q == p
      ensures joins ==> segs == Coalesce.Absorb(old(segs), k, x) && chain == Coalesce.Remove(old(chain), x + 1)
      ensures joins ==> q == Coalesce.After(p, x) && x != k
      ensures n == (if joins then Coalesce.Shift(k, x) else k) && n < |segs| && m == chain[n + 1]
      ensures q <= |segs| && node.next == chain[q + 1]
    {
      assert segs[k] == m.Value();
      n, q, joins := k, p, false;
      var cur := Determine(m.va + 4096 * m.length + 1);
      if cur != null {
        assert segs[x] == cur.Value();
        if cur.kind.Free? {
          n, joins := Coalesce.Shift(k, x), true;
          q := Absorb(m, cur, k, x, node, p);
        }
      }
    }

    /** The second merge, with the region after m. The node at list position p, unlinked or not, still leads
        to the one after it, now at position q + 1. */
    method MergeRight(m: Region, ghost k: nat, ghost node: Region, ghost p: nat) returns (ghost n: nat, ghost q: nat)
      requires Valid() && k < |segs| && chain[k + 1] == m && p <= |segs| && chain[p] == node
      modifies this`chain, this`segs, nodes`next, m`length
      ensures Valid() && (segs, n) == Coalesce.MergeRight(old(segs), k)
      ensures n < |segs| && m == chain[n + 1]
      ensures chain == ChainRight(old(chain), old(segs), k)
      ensures q == Coalesce.NextRight(old(segs), k, p) && q <= |segs| && node.next == chain[q + 1]
    {
      ghost var x, joins := Find(segs, segs[k].End() + 1), false;
      MergesRight(chain, segs, k, p, x);
      n, q, joins := JoinRight(m, k, x, node, p);
    }

    method MarkFree(m: Region, ghost k: nat)
      requires Valid() && k < |segs| && chain[k + 1] == m
      modifies this`segs, m`kind
      ensures Valid() && segs == old(segs)[k := Coalesce.MarkFree(old(segs)[k])]
    {
      m.kind := Free;
      segs := segs[k := Coalesce.MarkFree(segs[k])];
    }

    /** The second merge and the change of type. */
    method Finish(m: Region, ghost k: nat, ghost node: Region, ghost p: nat) returns (ghost q: nat)
      requires Valid() && k < |segs| && chain[k + 1] == m && p <= |segs| && chain[p] == node
      modifies this`chain, this`segs, nodes`next, m`length, m`kind
      ensures Valid() && segs == Coalesce.Finish(old(segs), k)
      ensures chain == ChainRight(old(chain), old(segs), k)
      ensures q == Coalesce.NextRight(old(segs), k, p) && q <= |segs| && node.next == chain[q + 1]
    {
      ghost var n;
      n, q := MergeRight(m, k, node, p);
      MarkFree(m, n);
    }

    /** The list part of delete_region: both merges, then the type becomes FREE. The node after mr, whether or not
        it stays listed, then leads where FixedCreate.Step says. */
    method MergeAndFree(mr: Region, ghost i: nat, ghost after: Region) returns (ghost q: nat)
      requires Valid() && i < |segs| && chain[i + 1] == mr && chain[i + 2] == after
      modifies this`chain, this`segs, nodes`next, nodes`length, nodes`kind
      ensures Valid() && segs == Coalesce.Delete(old(segs), i)
      ensures chain == ChainAfterDelete(old(chain), old(segs), i)
      ensures after != last ==>
        q == Coalesce.NextAfterDelete(old(segs), i, i + 2) && q <= |segs| && after.next == chain[q + 1]
    {
      var m;
      ghost var k, p;
      m, k, p := MergeLeft(mr, i, after);
      q := Finish(m, k, if after != last then after else first, if after != last then p else 0);
    }

    /** Take one page from the front of the FREE region that holds a; not ok if there is none. */
    method TakePage(a: int) returns (ok: bool)
      requires Valid()
      modifies this`segs, nodes`va, nodes`length
      ensures Valid() && Expand.TakePage(old(segs), a) == if ok then Some(segs) else None
    {
      var newrange := Determine(a);
      ghost var k := Find(segs, a);
      if newrange == null || !newrange.kind.Free? {
        return false;
      }
      assert segs[k] == newrange.Value();
      CutFront(newrange, k, 1, newrange.va + 4096);
      ok := true;
    }

    /** The loop of expand_region upwards; not ok where the kernel stops at a page that is not FREE. */
    method TakePages(mr: Region, ghost i: nat, size: nat) returns (ok: bool)
      requires Valid() && i < |segs| && chain[i + 1] == mr && !segs[i].IsFree()
      modifies this`segs, nodes`va, nodes`length
      ensures Valid() && ok == Expand.TakePages(old(segs), old(segs)[i].End(), size).Some?
      ensures ok ==> segs == Expand.TakePages(old(segs), old(segs)[i].End(), size).value
    {
      ghost var was, end, n := segs, segs[i].End(), 0;
      assert segs[i] == mr.Value();
      var oldsize, curpage := mr.length, mr.length;
      while curpage < oldsize + size
        invariant n <= size && curpage == oldsize + n && end == was[i].End() == was[i].va + 4096 * oldsize
        invariant Valid() && Expand.TakePages(was, end, n) == Some(segs)
        decreases size - n
      {
        Expand.OthersUntouched(was, end, n, i);
        assert segs[i] == mr.Value();
        var a := mr.va + 4096 * curpage;
        Expand.NextPage(was, end, n + 1, segs, a);
        ok := TakePage(a);
        if !ok {
          Expand.StopsForGood(was, end, n + 1, size);
          return;
        }
        curpage, n := curpage + 1, n + 1;
      }
      ok := true;
    }

    /** expand_region upwards. */
    method ExpandUpward(mr: Region, ghost i: nat, size: nat) returns (ok: bool)
      requires Valid() && i < |segs| && chain[i + 1] == mr && !segs[i].IsFree()
      modifies this`segs, nodes`va, nodes`length
      ensures ok == Expand.Upward(old(segs), i, size).Some?
      ensures ok ==> Valid() && segs == Expand.Upward(old(segs), i, size).value
    {
      ghost var was := segs;
      ok := TakePages(mr, i, size);
      if ok {
        Expand.OthersUntouched(was, was[i].End(), size, i);
        assert segs[i] == mr.Value();
        SetLength(mr, i, mr.length + size);
      }
    }

    /** The scan of create_region for a smallest FREE region of at least the given length. */
    method FindSmallest(length: int) returns (smallest: Region?)
      requires Valid()
      ensures var best := BestFit.Smallest(segs, |segs|, length);
        smallest == if best.None? then null else chain[best.value + 1]
    {
      smallest := null;
      var current := first.next;
      ghost var i := 0;
      while current != last
        invariant 0 <= i <= |segs| && current == chain[i + 1]
        invariant var best := BestFit.Smallest(segs, i, length);
          smallest == if best.None? then null else chain[best.value + 1]
        decreases |chain| - i
      {
        assert segs[i] == current.Value();
        if current.kind.Free? && length <= current.length {
          if smallest == null {
            smallest := current;
          } else if current.length <= smallest.length {
            smallest := current;
          }
        }
        current := current.next;
        i := i + 1;
      }
    }

    /** Shorten a FREE region by length pages and let a new node start where it now ends. */
    method CarveTop(smallest: Region, ghost k: nat, length: int) returns (made: Region)
      requires Valid() && k < |segs| && chain[k + 1] == smallest
      modifies this`segs, smallest`length
      ensures Valid() && segs == old(segs)[k := old(segs)[k].(length := old(segs)[k].length - length)]
      ensures fresh(made) && made.va == segs[k].End()
    {
      made := new Region();
      assert segs[k] == smallest.Value();
      SetLength(smallest, k, smallest.length - length);
      assert segs[k] == smallest.Value();
      made.va := smallest.va + 4096 * smallest.length;
    }

    /** create_region without an address: carve the top of the region found, and list the new one first. */
    method CreateBestFit(length: int, kind: RegionType, attributes: int, parameter: int) returns (made: Region?)
      requires Valid() && !kind.Sentinel?
      modifies this`chain, this`segs, this`nodes, first`next, nodes`length
      ensures Valid() && fresh(nodes - old(nodes))
      ensures var r := BestFit.Create(old(segs), length, Info(kind, attributes, parameter));
        if r.None? then made == null && segs == old(segs) && chain == old(chain)
        else
          && made != null && fresh(made) && made.sharedNext == made && segs == r.value
          && chain == Insert(old(chain), 1, made)
    {
      var smallest := FindSmallest(length);
      if smallest == null {
        return null;
      }
      ghost var r := BestFit.Create(segs, length, Info(kind, attributes, parameter));
      made := CarveTop(smallest, BestFit.Smallest(segs, |segs|, length).value, length);
      assert r.value == [Segment(made.va, length, Info(kind, attributes, parameter))] + segs;
      PushFront(made, length, kind, attributes, parameter);
    }

    /** The branches of create_region that trim a node on the right or on the left. */
    method TrimEnds(current: Region, ghost i: nat, addr: int, stop: int, curStop: int)
      requires Valid() && i < |segs| && chain[i + 1] == current && curStop == segs[i].End()
      requires !(segs[i].va < addr && stop < curStop)
      modifies this`segs, current`va, current`length
      ensures Valid() && segs == old(segs)[i := FixedCreate.Trim(old(segs)[i], addr, stop)[0]]
    {
      assert segs[i] == current.Value();
      if current.va <= addr && curStop <= stop && addr < curStop {
        SetLength(current, i, current.length - (curStop - addr) / 4096);
      } else if stop < curStop && addr <= current.va && current.va < stop {
        CutFront(current, i, (stop - current.va) / 4096, stop);
      }
    }

    /** All of them. A split lists the upper part after the node; its sharedNext is left as the slab handed it out. */
    method TrimNode(current: Region, ghost i: nat, addr: int, stop: int) returns (newsplit: Region?)
      requires Valid() && i < |segs| && chain[i + 1] == current
      modifies this`chain, this`segs, this`nodes, current`va, current`length, current`next
      ensures Valid() && fresh(nodes - old(nodes))
      ensures var t := FixedCreate.Trim(old(segs)[i], addr, stop);
        segs == if |t| == 1 then old(segs)[i := t[0]] else Insert(old(segs)[i := t[0]], i + 1, t[1])
      ensures newsplit != null <==> |FixedCreate.Trim(old(segs)[i], addr, stop)| == 2
      ensures chain == if newsplit == null then old(chain) else Insert(old(chain), i + 2, newsplit)
      ensures newsplit != null ==> newsplit !in old(nodes) && newsplit.sharedNext == null
    {
      assert segs[i] == current.Value();
      ghost var t := FixedCreate.Trim(segs[i], addr, stop);
      newsplit := null;
      var curStop := current.va + 4096 * current.length;
      FixedCreate.SplitIffStraddles(segs[i], addr, stop);
      if current.va < addr && stop < curStop {
        FixedCreate.TrimSplits(segs[i], addr, stop);
        newsplit := SplitNode(current, i, addr, stop, curStop, t[0], t[1]);
      } else {
        TrimEnds(current, i, addr, stop, curStop);
      }
    }

    /** The split of create_region: the node keeps what lies below addr, a new node takes what lies from stop on. */
    method SplitNode(current: Region, ghost i: nat, addr: int, stop: int, curStop: int,
                     ghost lower: Segment, ghost upper: Segment)
      returns (newsplit: Region)
      requires Valid() && i < |segs| && chain[i + 1] == current
      requires lower == segs[i].(length := (addr - segs[i].va) / 4096)
      requires upper == Segment(stop, (curStop - stop) / 4096, segs[i].info)
      modifies this`chain, this`segs, this`nodes, current`length, current`next
      ensures Valid() && fresh(nodes - old(nodes)) && chain == Insert(old(chain), i + 2, newsplit)
      ensures segs == Insert(old(segs)[i := lower], i + 1, upper)
      ensures fresh(newsplit) && newsplit.sharedNext == null
    {
      assert segs[i] == current.Value();
      newsplit := new Region.Upper(current, stop, (curStop - stop) / 4096);
      SetLength(current, i, (addr - current.va) / 4096);
      assert newsplit.Value() == upper && segs == old(segs)[i := lower];
      LinkAfter(current, i + 1, newsplit);
    }

    /** A new node is listed after the one at list position c. */
    method LinkAfter(current: Region, ghost c: nat, x: Region)
      requires Valid() && c <= |segs| && chain[c] == current
      requires x !in nodes && x.parent == this && !x.kind.Sentinel?
      modifies this`chain, this`segs, this`nodes, current`next, x`next
      ensures Valid() && nodes == old(nodes) + {x} && chain == Insert(old(chain), c + 1, x)
      ensures segs == Insert(old(segs), c, x.Value())
    {
      ghost var was := chain;
      x.next := current.next;
      current.next := x;
      chain := Insert(was, c + 1, x);
      segs := Insert(segs, c, x.Value());
      nodes := nodes + {x};
      InsertDistinct(was, c + 1, x);
      forall j | 0 <= j < |chain| ensures chain[j] in nodes {
        assert j != c + 1 ==> chain[j] == was[if j < c + 1 then j else j - 1];
      }
      forall j | 0 <= j < |chain| - 1 ensures chain[j].next == chain[j + 1] {
        assert j != c + 1 ==> chain[j] == was[if j < c + 1 then j else j - 1];
      }
      forall j | 0 <= j < |segs| ensures segs[j] == chain[j + 1].Value() {
        assert j != c ==> chain[j + 1] == was[if j < c then j + 1 else j];
      }
    }

    /** The end of create_region: fill in the new node and put it first in the list. */
    method PushFront(made: Region, length: int, kind: RegionType, attributes: int, parameter: int)
      requires Valid() && made !in nodes && !kind.Sentinel?
      modifies this`chain, this`segs, this`nodes, first`next, made
      ensures Valid() && nodes == old(nodes) + {made} && chain == Insert(old(chain), 1, made) && made.sharedNext == made
      ensures segs == [Segment(old(made.va), length, Info(kind, attributes, parameter))] + old(segs)
    {
      made.Fill(length, kind, attributes, parameter, this);
      LinkAfter(first, 0, made);
    }

    /** Deleting region i leaves the links that Links specifies. */
    twostate lemma LinksDeleted(i: nat, new links: seq<Links.Link>)
      requires old(Valid()) && Valid() && old(Linked(links)) && i < |old(segs)| && |links| == |old(segs)|
      requires segs == Coalesce.Delete(old(segs), i) && chain == ChainAfterDelete(old(chain), old(segs), i)
      requires forall r :: r in old(nodes) ==> r.sharedNext == old(r.sharedNext)
      ensures Linked(Links.Delete(old(segs), links, i))
    {
      var nexts := map r | r in old(nodes) :: r.sharedNext;
      forall j | 0 <= j < |links| ensures TellsAt(old(chain)[j + 1], nexts, old(segs)[j], links[j]) {
        assert old(segs[j] == chain[j + 1].Value()) && links[j] == old(chain[j + 1].LinkOf());
      }
      TellsDeleted(old(chain), nexts, old(segs), links, i);
      var after := Links.Delete(old(segs), links, i);
      forall j | 0 <= j < |segs| ensures after[j] == chain[j + 1].LinkOf() {
        assert segs[j] == chain[j + 1].Value() && TellsAt(chain[j + 1], nexts, segs[j], after[j]);
      }
    }

    twostate lemma LinksCut(i: nat, new links: seq<Links.Link>, new newsplit: Region?, new t: seq<Segment>)
      requires old(Valid()) && Valid() && old(Linked(links)) && i < |old(segs)| && |links| == |old(segs)|
      requires 1 <= |t| <= 2 && (newsplit != null <==> |t| == 2) && (newsplit != null ==> newsplit.sharedNext == null)
      requires chain == if newsplit == null then old(chain) else Insert(old(chain), i + 2, newsplit)
      requires segs == FixedCreate.Splice(old(segs), i, t)
      requires forall k :: 0 <= k < |t| ==> t[k].info == old(segs)[i].info
      requires forall r :: r in old(nodes) ==> r.sharedNext == old(r.sharedNext)
      ensures Linked(Links.Cut(links, i, |t|))
    {
      var cut := Links.Cut(links, i, |t|);
      forall j | 0 <= j < |segs| ensures cut[j] == chain[j + 1].LinkOf() {
        assert segs[j] == chain[j + 1].Value();
        if |t| == 1 || j != i + 1 {
          var p := if |t| == 1 || j <= i then j else j - 1;
          assert i <= j < i + |t| ==> segs[j] == t[j - i];
          assert chain[j + 1] == old(chain)[p + 1] && cut[j] == links[p];
          assert old(segs[p] == chain[p + 1].Value());
        }
      }
    }

    /** The loop of create_region on a region wholly inside the target: delete it, then go on from the node after
        the next one; null when its walk does not come home or that steps past the last sentinel. */
    method VisitInside(current: Region, ghost i: nat, ghost upper: bool, addr: int, stop: int,
                       ghost links: seq<Links.Link>, ghost out: Option<(seq<Segment>, seq<Links.Link>)>)
      returns (next: Region?, ghost q: nat, ghost after: seq<Links.Link>)
      requires Valid() && Aligned(segs) && i < |segs| && chain[i + 1] == current && segs[i].Inside(addr, stop)
      requires Linked(links) && Links.Ends(segs, links, i, addr, stop, out)
      modifies this`chain, this`segs, nodes`next, nodes`length, nodes`kind
      ensures Valid() && Aligned(segs)
      ensures next == null <==> links[i].Stray? || FixedCreate.RunsOff(old(segs), i, addr, stop)
      ensures next == null ==> out == None
      ensures next != null ==> Linked(after) && Goes(old(segs), i, upper, segs, after, q, false, addr, stop, out)
      ensures next != null ==> next == chain[q + 1]
    {
      q, after := i, links;
      assert links[i] == current.LinkOf();
      var home := current.ComesHome();
      if !home {
        Links.LostEnds(segs, links, i, addr, stop, out);
        return null, q, after;
      }
      next, q, after := DeleteCovered(current, i, upper, addr, stop, links, out);
    }

    method DeleteCovered(current: Region, ghost i: nat, ghost upper: bool, addr: int, stop: int,
                         ghost links: seq<Links.Link>, ghost out: Option<(seq<Segment>, seq<Links.Link>)>)
      returns (next: Region?, ghost q: nat, ghost after: seq<Links.Link>)
      requires Valid() && Aligned(segs) && i < |segs| && chain[i + 1] == current && segs[i].Inside(addr, stop)
      requires Linked(links) && !links[i].Stray? && Links.Ends(segs, links, i, addr, stop, out)
      modifies this`chain, this`segs, nodes`next, nodes`length, nodes`kind
      ensures Valid() && Aligned(segs)
      ensures next == null <==> FixedCreate.RunsOff(old(segs), i, addr, stop)
      ensures next == null ==> out == None
      ensures next != null ==> Linked(after) && Goes(old(segs), i, upper, segs, after, q, false, addr, stop, out)
      ensures next != null ==> next == chain[q + 1]
    {
      var newnext := current.next;
      Coalesce.DeleteKeepsAligned(segs, i);
      InsideGoes(segs, links, i, addr, stop, out);
      after := Links.Delete(segs, links, i);
      q := MergeAndFree(current, i, newnext);
      LinksDeleted(i, links);
      next := newnext.next;
    }

    /** The loop on any other region: trim it and go on from the node after it. A split is flagged, since the loop
        then visits its upper part. */
    method VisitOther(current: Region, ghost i: nat, ghost upper: bool, addr: int, stop: int,
                      ghost links: seq<Links.Link>, ghost out: Option<(seq<Segment>, seq<Links.Link>)>)
      returns (next: Region?, ghost split: bool, ghost after: seq<Links.Link>)
      requires Valid() && Aligned(segs) && FixedCreate.Target(addr, stop)
      requires i < |segs| && chain[i + 1] == current && !segs[i].Inside(addr, stop)
      requires upper ==> !FixedCreate.Straddles(segs[i], addr, stop)
      requires Linked(links) && Links.Ends(segs, links, i, addr, stop, out)
      modifies this`chain, this`segs, this`nodes, current`va, current`length, current`next
      ensures Valid() && Aligned(segs) && fresh(nodes - old(nodes))
      ensures Linked(after) && Goes(old(segs), i, upper, segs, after, i + 1, split, addr, stop, out)
      ensures next != null && next == chain[i + 2]
    {
      ghost var t := FixedCreate.Trim(segs[i], addr, stop);
      OtherGoes(segs, links, i, t, addr, stop, out);
      after, split := Links.Cut(links, i, |t|), |t| == 2;
      var newsplit := TrimNode(current, i, addr, stop);
      LinksCut(i, links, newsplit, t);
      next := current.next;
    }

    /** One iteration of the loop at list position i, where upper says that the node is the upper part of a split. */
    method Visit(current: Region, ghost i: nat, ghost upper: bool, addr: int, stop: int,
                 ghost links: seq<Links.Link>, ghost out: Option<(seq<Segment>, seq<Links.Link>)>)
      returns (next: Region?, ghost q: nat, ghost split: bool, ghost after: seq<Links.Link>)
      requires Valid() && Aligned(segs) && FixedCreate.Target(addr, stop) && i < |segs| && chain[i + 1] == current
      requires upper ==> !FixedCreate.Straddles(segs[i], addr, stop)
      requires Linked(links) && Links.Ends(segs, links, i, addr, stop, out)
      modifies this`chain, this`segs, this`nodes, nodes`next, nodes`length, nodes`kind, nodes`va
      ensures Valid() && Aligned(segs) && fresh(nodes - old(nodes))
      ensures next == null ==> out == None
      ensures next != null ==> Linked(after) && Goes(old(segs), i, upper, segs, after, q, split, addr, stop, out)
      ensures next != null ==> next == chain[q + 1]
    {
      assert segs[i] == current.Value();
      var curStop := current.va + 4096 * current.length;
      split := false;
      q := i + 1;
      if addr <= current.va && curStop <= stop {
        next, q, after := VisitInside(current, i, upper, addr, stop, links, out);
      } else {
        next, split, after := VisitOther(current, i, upper, addr, stop, links, out);
      }
    }

    /** The whole loop; false when it steps past the last sentinel or deletes a region whose walk does not come home. */
    method ScanList(addr: int, stop: int, ghost links: seq<Links.Link>)
      returns (completed: bool, ghost after: seq<Links.Link>)
      requires Valid() && Aligned(segs) && FixedCreate.Target(addr, stop) && Linked(links)
      modifies this`chain, this`segs, this`nodes, nodes`next, nodes`length, nodes`kind, nodes`va
      ensures Valid() && fresh(nodes - old(nodes))
      ensures Links.Scan(old(segs), links, 0, addr, stop) == if completed then Some((segs, after)) else None
      ensures completed ==> Linked(after)
    {
      var current: Region? := first.next;
      ghost var i: nat, split: bool, out := 0, false, Links.Scan(segs, links, 0, addr, stop);
      after := links;
      while current != last
        invariant Valid() && Aligned(segs) && fresh(nodes - old(nodes)) && Linked(after)
        invariant i <= |segs| && current == chain[i + 1] && Links.Ends(segs, after, i, addr, stop, out)
        invariant split ==> i < |segs| && !FixedCreate.Straddles(segs[i], addr, stop)
        decreases Left(segs, i, split)
      {
        current, i, split, after := Visit(current, i, split, addr, stop, after, out);
        if current == null {
          return false, after;
        }
      }
      Links.EndsHere(segs, after, addr, stop, out);
      return true, after;
    }

    /** create_region at a given address; null when the loop steps past the last sentinel or deletes a region whose walk
        does not come home. */
    method CreateFixed(addr: int, length: int, kind: RegionType, attributes: int, parameter: int,
                       ghost links: seq<Links.Link>)
      returns (made: Region?, ghost after: seq<Links.Link>)
      requires Valid() && Aligned(segs) && !kind.Sentinel? && Linked(links)
      requires FixedCreate.Target(addr, addr + 4096 * length)
      modifies this`chain, this`segs, this`nodes, nodes`next, nodes`length, nodes`kind, nodes`va
      ensures Valid() && fresh(nodes - old(nodes))
      ensures var r := Links.Create(old(segs), links, addr, length, Info(kind, attributes, parameter));
        if r.None? then made == null
        else
          && made != null && fresh(made) && made.sharedNext == made && chain[1] == made
          && r.value == (segs, after) && Linked(after)
    {
      var completed;
      completed, after := ScanList(addr, addr + 4096 * length, links);
      if !completed {
        return null, after;
      }
      made := new Region();
      made.va := addr;
      PushFront(made, length, kind, attributes, parameter);
      after := [Links.Home] + after;
    }
  }

  /** Iterations the scan can still make: each region once, and once more for the upper part of a split. */
  ghost function Left(segs: seq<Segment>, i: nat, split: bool): int {
    2 * (|segs| - i) - (if split then 1 else 0)
  }

  /** The scan from position q of after still ends with out, in fewer iterations than from position i of before. The
      flags say whether each position holds the upper part of a split. */
  ghost predicate Goes(before: seq<Segment>, i: nat, upper: bool, after: seq<Segment>, links: seq<Links.Link>, q: nat,
                       split: bool, addr: int, stop: int, out: Option<(seq<Segment>, seq<Links.Link>)>)
  {
    && i <= |before| && q <= |after|
    && Links.Ends(after, links, q, addr, stop, out)
    && (split ==> q < |after| && !FixedCreate.Straddles(after[q], addr, stop))
    && Left(after, q, split) < Left(before, i, upper)
  }

  lemma InsideGoes(segs: seq<Segment>, links: seq<Links.Link>, i: nat, addr: int, stop: int,
                   out: Option<(seq<Segment>, seq<Links.Link>)>)
    requires i < |segs| == |links| && segs[i].Inside(addr, stop) && !links[i].Stray?
    requires Links.Ends(segs, links, i, addr, stop, out)
    ensures i + 1 == |segs| ==> out == None
    ensures i + 1 < |segs| ==>
      Links.Ends(Coalesce.Delete(segs, i), Links.Delete(segs, links, i), Coalesce.NextAfterDelete(segs, i, i + 2), addr,
        stop, out)
  {
    if i + 1 == |segs| {
      Links.LostEnds(segs, links, i, addr, stop, out);
    } else {
      Links.StepTurns(segs, links, i, Coalesce.Delete(segs, i), Links.Delete(segs, links, i),
        Coalesce.NextAfterDelete(segs, i, i + 2), addr, stop);
    }
  }

  lemma OtherGoes(segs: seq<Segment>, links: seq<Links.Link>, i: nat, t: seq<Segment>, addr: int, stop: int,
                  out: Option<(seq<Segment>, seq<Links.Link>)>)
    requires Aligned(segs) && i < |segs| == |links| && FixedCreate.Target(addr, stop) && !segs[i].Inside(addr, stop)
    requires t == FixedCreate.Trim(segs[i], addr, stop) && Links.Ends(segs, links, i, addr, stop, out)
    ensures var after := FixedCreate.Splice(segs, i, t);
      && after == (if |t| == 1 then segs[i := t[0]] else Insert(segs[i := t[0]], i + 1, t[1]))
      && Aligned(after) && Links.Ends(after, Links.Cut(links, i, |t|), i + 1, addr, stop, out)
      && (|t| == 2 ==> !FixedCreate.Straddles(after[i + 1], addr, stop))
      && (|t| == 2 <==> FixedCreate.Straddles(segs[i], addr, stop))
      && (forall k :: 0 <= k < |t| ==> t[k].info == segs[i].info)
  {
    var after, cut := FixedCreate.Splice(segs, i, t), Links.Cut(links, i, |t|);
    SpliceIsInsert(segs, i, t);
    FixedCreate.TrimKeepsAligned(segs, i, addr, stop);
    FixedCreate.SplitIffStraddles(segs[i], addr, stop);
    Links.OtherStep(segs, links, i, t, addr, stop);
    Links.StepTurns(segs, links, i, after, cut, i + |t|, addr, stop);
    if |t| == 2 {
      FixedCreate.UpperAt(segs[i], t, addr, stop);
      Links.UpperTurns(after, cut, i + 1, addr, stop);
    }
  }

  ghost function LinkBy(r: Region, next: Region?, kind: RegionType): Links.Link {
    if next == r then Links.Home else if next == null || kind.Free? then Links.Stray else Links.Ring
  }

  /** The links, by the pointers and types of the listed regions. */
  ghost predicate Tells(chain: seq<Region>, nexts: map<Region, Region?>, segs: seq<Segment>, links: seq<Links.Link>) {
    && |chain| == |segs| + 2 && |links| == |segs|
    && forall j :: 0 <= j < |links| ==> TellsAt(chain[j + 1], nexts, segs[j], links[j])
  }

  ghost predicate TellsAt(r: Region, nexts: map<Region, Region?>, s: Segment, link: Links.Link) {
    r in nexts && link == LinkBy(r, nexts[r], s.info.kind)
  }

  lemma TellsDeleted(chain: seq<Region>, nexts: map<Region, Region?>, segs: seq<Segment>, links: seq<Links.Link>,
                     i: nat)
    requires Tells(chain, nexts, segs, links) && i < |segs|
    ensures Tells(ChainAfterDelete(chain, segs, i), nexts, Coalesce.Delete(segs, i), Links.Delete(segs, links, i))
  {
    var (s, m) := Coalesce.MergeLeft(segs, i);
    TellsLeft(chain, nexts, segs, links, i);
    TellsFinish(ChainLeft(chain, segs, i), nexts, s, Links.MergeLeft(segs, links, i), m);
  }

  lemma TellsAbsorb(chain: seq<Region>, nexts: map<Region, Region?>, segs: seq<Segment>, links: seq<Links.Link>,
                    m: nat, x: nat)
    requires Tells(chain, nexts, segs, links) && m < |segs| && x < |segs|
    ensures Tells(Coalesce.Remove(chain, x + 1), nexts, Coalesce.Absorb(segs, m, x), Coalesce.Remove(links, x))
  {
    var c, s, l := Coalesce.Remove(chain, x + 1), Coalesce.Absorb(segs, m, x), Coalesce.Remove(links, x);
    forall j | 0 <= j < |l| ensures TellsAt(c[j + 1], nexts, s[j], l[j]) {
      var p := if j < x then j else j + 1;
      assert TellsAt(chain[p + 1], nexts, segs[p], links[p]);
    }
  }

  lemma TellsFreed(chain: seq<Region>, nexts: map<Region, Region?>, segs: seq<Segment>, links: seq<Links.Link>, n: nat)
    requires Tells(chain, nexts, segs, links) && n < |segs|
    ensures Tells(chain, nexts, segs[n := Coalesce.MarkFree(segs[n])], links[n := Links.Freed(links[n])])
  {
    var s, l := segs[n := Coalesce.MarkFree(segs[n])], links[n := Links.Freed(links[n])];
    forall j | 0 <= j < |l| ensures TellsAt(chain[j + 1], nexts, s[j], l[j]) {
      assert TellsAt(chain[j + 1], nexts, segs[j], links[j]);
    }
  }

  lemma TellsLeft(chain: seq<Region>, nexts: map<Region, Region?>, segs: seq<Segment>, links: seq<Links.Link>, i: nat)
    requires Tells(chain, nexts, segs, links) && i < |segs|
    ensures Tells(ChainLeft(chain, segs, i), nexts, Coalesce.MergeLeft(segs, i).0, Links.MergeLeft(segs, links, i))
  {
    var l := Find(segs, segs[i].va - 1);
    MergesLeft(chain, segs, i, l);
    if l < |segs| && segs[l].IsFree() {
      TellsAbsorb(chain, nexts, segs, links, l, i);
    }
  }

  lemma TellsRight(chain: seq<Region>, nexts: map<Region, Region?>, segs: seq<Segment>, links: seq<Links.Link>, m: nat)
    requires Tells(chain, nexts, segs, links) && m < |segs|
    ensures Tells(ChainRight(chain, segs, m), nexts, Coalesce.MergeRight(segs, m).0, Links.MergeRight(segs, links, m))
  {
    var x := Find(segs, segs[m].End() + 1);
    MergesRight(chain, segs, m, 0, x);
    if x < |segs| && segs[x].IsFree() {
      TellsAbsorb(chain, nexts, segs, links, m, x);
    }
  }

  lemma TellsFinish(chain: seq<Region>, nexts: map<Region, Region?>, segs: seq<Segment>, links: seq<Links.Link>, m: nat)
    requires Tells(chain, nexts, segs, links) && m < |segs|
    ensures Tells(ChainRight(chain, segs, m), nexts, Coalesce.Finish(segs, m), Links.Finish(segs, links, m))
  {
    var (s, n) := Coalesce.MergeRight(segs, m);
    TellsRight(chain, nexts, segs, links, m);
    TellsFreed(ChainRight(chain, segs, m), nexts, s, Links.MergeRight(segs, links, m), n);
  }

  /** The node list after each merge of delete_region. */
  ghost function ChainLeft(chain: seq<Region>, segs: seq<Segment>, i: nat): seq<Region>
    requires |chain| == |segs| + 2 && i < |segs|
  {
    var l := Find(segs, segs[i].va - 1);
    if l < |segs| && segs[l].IsFree() then Coalesce.Remove(chain, i + 1) else chain
  }

  ghost function ChainRight(chain: seq<Region>, segs: seq<Segment>, m: nat): seq<Region>
    requires |chain| == |segs| + 2 && m < |segs|
  {
    var x := Find(segs, segs[m].End() + 1);
    if x < |segs| && segs[x].IsFree() then Coalesce.Remove(chain, x + 1) else chain
  }

  ghost function ChainAfterDelete(chain: seq<Region>, segs: seq<Segment>, i: nat): seq<Region>
    requires |chain| == |segs| + 2 && i < |segs|
  {
    var (s, m) := Coalesce.MergeLeft(segs, i);
    ChainRight(ChainLeft(chain, segs, i), s, m)
  }

  function Insert<T>(s: seq<T>, k: nat, x: T): (r: seq<T>)
    requires k <= |s|
    ensures |r| == |s| + 1
    ensures forall j :: 0 <= j < |r| ==> r[j] == if j < k then s[j] else if j == k then x else s[j - 1]
  {
    s[..k] + [x] + s[k..]
  }

  /** What a merge does, by what lookup found. */
  lemma MergesRight(chain: seq<Region>, segs: seq<Segment>, k: nat, p: nat, x: nat)
    requires |chain| == |segs| + 2 && k < |segs| && p <= |segs| && x == Find(segs, segs[k].End() + 1)
    ensures x < |segs| && segs[x].IsFree() ==>
      && Coalesce.MergeRight(segs, k) == (Coalesce.Absorb(segs, k, x), Coalesce.Shift(k, x))
      && ChainRight(chain, segs, k) == Coalesce.Remove(chain, x + 1)
      && Coalesce.NextRight(segs, k, p) == Coalesce.After(p, x)
    ensures !(x < |segs| && segs[x].IsFree()) ==>
      && Coalesce.MergeRight(segs, k) == (segs, k) && ChainRight(chain, segs, k) == chain
      && Coalesce.NextRight(segs, k, p) == p
  {}

  lemma MergesLeft(chain: seq<Region>, segs: seq<Segment>, i: nat, l: nat)
    requires |chain| == |segs| + 2 && i < |segs| && l == Find(segs, segs[i].va - 1)
    ensures l < |segs| && segs[l].IsFree() ==>
      && Coalesce.MergeLeft(segs, i) == (Coalesce.Absorb(segs, l, i), Coalesce.Shift(l, i))
      && ChainLeft(chain, segs, i) == Coalesce.Remove(chain, i + 1)
      && (i + 2 <= |segs| ==> Coalesce.NextLeft(segs, i, i + 2) == i + 1)
    ensures !(l < |segs| && segs[l].IsFree()) ==>
      && Coalesce.MergeLeft(segs, i) == (segs, i) && ChainLeft(chain, segs, i) == chain
      && (i + 2 <= |segs| ==> Coalesce.NextLeft(segs, i, i + 2) == i + 2)
  {}

  lemma SpliceIsInsert(s: seq<Segment>, i: nat, t: seq<Segment>)
    requires i < |s| && 1 <= |t| <= 2
    ensures FixedCreate.Splice(s, i, t) == if |t| == 1 then s[i := t[0]] else Insert(s[i := t[0]], i + 1, t[1])
  {}

  lemma InsertDistinct<T>(s: seq<T>, k: nat, x: T)
    requires Distinct(s) && k <= |s| && x !in s
    ensures Distinct(Insert(s, k, x))
  {}

  lemma RemoveDistinct<T>(s: seq<T>, k: nat)
    requires Distinct(s) && k < |s|
    ensures Distinct(Coalesce.Remove(s, k))
  {}
}
