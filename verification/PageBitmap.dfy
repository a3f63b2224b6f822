/** The bitmap of physical pages, one bit a page, and the set of pages it stands for. */
module PageBitmap {

  /** 1 << i. */
  function Mask(i: nat): bv32 { if i == 0 then 1 else Mask(i - 1) << 1 }

  /** Bit k of the bitmap: the page is in use. */
  predicate Used(bits: seq<bv32>, k: nat)
    requires k < 32 * |bits|
  {
    bits[k / 32] & Mask(k % 32) != 0
  }

  function SetBit(bits: seq<bv32>, k: nat): seq<bv32>
    requires k < 32 * |bits|
  {
    bits[k / 32 := bits[k / 32] | Mask(k % 32)]
  }

  function ClearBit(bits: seq<bv32>, k: nat): seq<bv32>
    requires k < 32 * |bits|
  {
    bits[k / 32 := bits[k / 32] & !Mask(k % 32)]
  }

  lemma {:induction false} MaskShifts(i: nat, n: nat)
    requires Mask(i) == 0
    ensures Mask(i + n) == 0
  {
    if n > 0 {
      MaskShifts(i, n - 1);
      assert (0 as bv32) << 1 == 0;
    }
  }

  lemma TopMask()
    ensures Mask(31) == 0x8000_0000
  {
    assert Mask(8) == 0x100;
    assert Mask(16) == 0x1_0000;
    assert Mask(24) == 0x100_0000;
  }

  lemma MaskNonZero(i: nat)
    requires i < 32
    ensures Mask(i) != 0
  {
    if Mask(i) == 0 {
      MaskShifts(i, 31 - i);
      TopMask();
    }
  }

  lemma ShiftedApart(a: bv32, b: bv32)
    ensures a & b == 0 ==> (a << 1) & (b << 1) == 0
    ensures 1 & (b << 1) == 0
  {}

  lemma {:induction false} MasksApart(i: nat, j: nat)
    requires i < j
    ensures Mask(i) & Mask(j) == 0
  {
    ShiftedApart(if i == 0 then 0 else Mask(i - 1), Mask(j - 1));
    if i > 0 {
      MasksApart(i - 1, j - 1);
    }
  }

  lemma KeptByOr(w: bv32, m: bv32, n: bv32)
    requires m & n == 0
    ensures (w | m) & n == w & n
  {}

  lemma KeptByAnd(w: bv32, m: bv32, n: bv32)
    requires m & n == 0
    ensures (w & !m) & n == w & n
  {}

  lemma TakenByOr(w: bv32, m: bv32)
    ensures (w | m) & m == m
  {}

  lemma TakenByAnd(w: bv32, m: bv32)
    ensures (w & !m) & m == 0
  {}

  lemma Commutes(a: bv32, b: bv32)
    ensures a & b == b & a
  {}

  lemma Apart(k: nat, j: nat)
    requires k != j
    ensures Mask(k) & Mask(j) == 0
  {}

  /** In one word, setting bit k leaves every other bit alone. */
  lemma OtherBitsSet(w: bv32, k: nat, j: nat)
    requires k != j
    ensures (w | Mask(k)) & Mask(j) == w & Mask(j)
  {
    Apart(k, j);
    KeptByOr(w, Mask(k), Mask(j));
  }

  lemma OtherBitsClear(w: bv32, k: nat, j: nat)
    requires k != j
    ensures (w & !Mask(k)) & Mask(j) == w & Mask(j)
  {
    Apart(k, j);
    KeptByAnd(w, Mask(k), Mask(j));
  }

  lemma SamePlace(k: nat, j: nat)
    ensures k / 32 == j / 32 && k % 32 == j % 32 ==> k == j
  {}

  /** Setting bit k changes exactly the use of page k, and so does clearing it. */
  lemma SetChanges(bits: seq<bv32>, k: nat, j: nat)
    requires k < 32 * |bits| && j < 32 * |bits|
    ensures Used(SetBit(bits, k), j) <==> j == k || Used(bits, j)
  {
    SamePlace(k, j);
    if k == j {
      MaskNonZero(k % 32);
      TakenByOr(bits[k / 32], Mask(k % 32));
    } else if k / 32 == j / 32 {
      OtherBitsSet(bits[k / 32], k % 32, j % 32);
    }
  }

  lemma ClearChanges(bits: seq<bv32>, k: nat, j: nat)
    requires k < 32 * |bits| && j < 32 * |bits|
    ensures Used(ClearBit(bits, k), j) <==> j != k && Used(bits, j)
  {
    SamePlace(k, j);
    if k == j {
      TakenByAnd(bits[k / 32], Mask(k % 32));
    } else if k / 32 == j / 32 {
      OtherBitsClear(bits[k / 32], k % 32, j % 32);
    }
  }

  lemma EveryBit(w: bv32)
    requires w & 0x1 != 0 && w & 0x2 != 0 && w & 0x4 != 0 && w & 0x8 != 0
    requires w & 0x10 != 0 && w & 0x20 != 0 && w & 0x40 != 0 && w & 0x80 != 0
    requires w & 0x100 != 0 && w & 0x200 != 0 && w & 0x400 != 0 && w & 0x800 != 0
    requires w & 0x1000 != 0 && w & 0x2000 != 0 && w & 0x4000 != 0 && w & 0x8000 != 0
    requires w & 0x10000 != 0 && w & 0x20000 != 0 && w & 0x40000 != 0 && w & 0x80000 != 0
    requires w & 0x100000 != 0 && w & 0x200000 != 0 && w & 0x400000 != 0 && w & 0x800000 != 0
    requires w & 0x1000000 != 0 && w & 0x2000000 != 0 && w & 0x4000000 != 0 && w & 0x8000000 != 0
    requires w & 0x10000000 != 0 && w & 0x20000000 != 0 && w & 0x40000000 != 0 && w & 0x80000000 != 0
    ensures w == 0xFFFF_FFFF
  {}

  lemma FullMeets(m: bv32)
    ensures 0xFFFF_FFFF & m == m
  {}

  /** Every bit of 0xFFFFFFFF is set, and it is the only such word. */
  lemma FullWord(i: nat)
    requires i < 32
    ensures 0xFFFF_FFFF & Mask(i) != 0
  {
    MaskNonZero(i);
    FullMeets(Mask(i));
  }

  lemma OnlyFullWord(w: bv32)
    requires forall i :: 0 <= i < 32 ==> w & Mask(i) != 0
    ensures w == 0xFFFF_FFFF
  {
    assert Mask(0) == 0x1 && Mask(1) == 0x2 && Mask(2) == 0x4 && Mask(3) == 0x8;
    assert Mask(4) == 0x10 && Mask(5) == 0x20 && Mask(6) == 0x40 && Mask(7) == 0x80;
    assert Mask(8) == 0x100 && Mask(9) == 0x200 && Mask(10) == 0x400 && Mask(11) == 0x800;
    assert Mask(12) == 0x1000 && Mask(13) == 0x2000 && Mask(14) == 0x4000 && Mask(15) == 0x8000;
    assert Mask(16) == 0x10000 && Mask(17) == 0x20000 && Mask(18) == 0x40000 && Mask(19) == 0x80000;
    assert Mask(20) == 0x100000 && Mask(21) == 0x200000 && Mask(22) == 0x400000 && Mask(23) == 0x800000;
    assert Mask(24) == 0x1000000 && Mask(25) == 0x2000000 && Mask(26) == 0x4000000 && Mask(27) == 0x8000000;
    assert Mask(28) == 0x10000000 && Mask(29) == 0x20000000 && Mask(30) == 0x40000000 && Mask(31) == 0x80000000;
    EveryBit(w);
  }
  /** The pages whose bits are clear in the first words of the bitmap. */
  ghost function Free(bits: seq<bv32>, words: nat): set<nat>
    requires words <= |bits|
  {
    set k: nat | k < 32 * words && !Used(bits, k)
  }

  lemma FreeAfterSet(bits: seq<bv32>, words: nat, k: nat)
    requires words <= |bits| && k < 32 * |bits|
    ensures Free(SetBit(bits, k), words) == Free(bits, words) - {k}
  {
    forall j: nat | j < 32 * words ensures Used(SetBit(bits, k), j) <==> j == k || Used(bits, j) {
      SetChanges(bits, k, j);
    }
  }

  lemma FreeAfterClear(bits: seq<bv32>, words: nat, k: nat)
    requires words <= |bits| && k < 32 * words
    ensures Free(ClearBit(bits, k), words) == Free(bits, words) + {k}
  {
    forall j: nat | j < 32 * words ensures Used(ClearBit(bits, k), j) <==> j != k && Used(bits, j) {
      ClearChanges(bits, k, j);
    }
  }

  ghost predicate IsLowest(free: set<nat>, k: nat) { k in free && forall j :: j in free ==> k <= j }

  lemma {:induction false} LowestExists(free: set<nat>)
    requires free != {}
    ensures exists k :: IsLowest(free, k)
  {
    var j :| j in free;
    if free == {j} {
      assert IsLowest(free, j);
    } else {
      LowestExists(free - {j});
      var k :| IsLowest(free - {j}, k);
      var l := if k < j then k else j;
      forall x | x in free ensures l <= x {
        assert x == j || x in free - {j};
      }
      assert IsLowest(free, l);
    }
  }

  ghost function Lowest(free: set<nat>): (k: nat)
    requires free != {}
    ensures IsLowest(free, k)
  {
    LowestExists(free);
    var k :| IsLowest(free, k);
    k
  }

  lemma Quotient(w: nat, offset: nat)
    requires offset < 32
    ensures (32 * w + offset) / 32 == w && (32 * w + offset) % 32 == offset
  {}

  lemma UsedIfFull(bits: seq<bv32>, j: nat)
    requires j < 32 * |bits| && bits[j / 32] == 0xFFFF_FFFF
    ensures Used(bits, j)
  {
    FullWord(j % 32);
  }

  lemma ClearAt(bits: seq<bv32>, w: nat, i: nat)
    requires w < |bits| && i < 32 && bits[w] & Mask(i) == 0
    ensures !Used(bits, 32 * w + i)
  {
    Quotient(w, i);
  }

  lemma SetAt(bits: seq<bv32>, w: nat, i: nat)
    requires w < |bits| && i < 32 && bits[w] & Mask(i) != 0
    ensures Used(bits, 32 * w + i)
  {}

  /** Page k is the lowest free one if it is clear and every page below is in use. */
  lemma ScanFinds(bits: seq<bv32>, words: nat, k: nat)
    requires k < 32 * words <= 32 * |bits| && !Used(bits, k) && forall j: nat :: j < k ==> Used(bits, j)
    ensures Free(bits, words) != {} && Lowest(Free(bits, words)) == k
  {
    assert k in Free(bits, words);
    assert Lowest(Free(bits, words)) in Free(bits, words);
  }

  lemma ScanFails(bits: seq<bv32>, words: nat)
    requires words <= |bits| && forall j: nat :: j < 32 * words ==> Used(bits, j)
    ensures Free(bits, words) == {}
  {}

  /** The pages, their count as free_pages has it, and as a record the pages given out and not yet returned. */
  datatype Pool = Pool(free: set<nat>, count: int, held: set<nat>)

  ghost predicate Consistent(p: Pool) { p.count == |p.free| && p.free !! p.held }

  /** allocate_page. */
  ghost function Allocated(p: Pool): Pool
    requires p.free != {}
  {
    var k := Lowest(p.free);
    Pool(p.free - {k}, p.count - 1, p.held + {k})
  }

  /** deallocate_page. */
  function Deallocated(p: Pool, k: nat): Pool { Pool(p.free + {k}, p.count + 1, p.held - {k}) }

  datatype Call = Alloc | Dealloc(k: nat)

  /** A run from p to last in which only pages that are held are returned. An allocation with a count of 0 fails and
      changes nothing. */
  ghost predicate Run(p: Pool, calls: seq<Call>, last: Pool)
    decreases |calls|
  {
    if calls == [] then last == p
    else match calls[0]
      case Alloc =>
        if p.count == 0 then Run(p, calls[1..], last) else p.free != {} && Run(Allocated(p), calls[1..], last)
      case Dealloc(k) => k in p.held && Run(Deallocated(p, k), calls[1..], last)
  }

  ghost function Pages(p: Pool): set<nat> { p.free + p.held }

  lemma AllocatedKeeps(p: Pool)
    requires Consistent(p) && p.free != {}
    ensures Consistent(Allocated(p)) && Pages(Allocated(p)) == Pages(p) && Lowest(p.free) !in p.held
    ensures Allocated(p).count + |Allocated(p).held| == p.count + |p.held|
  {
    var k := Lowest(p.free);
    assert k in p.free;
  }

  lemma DeallocatedKeeps(p: Pool, k: nat)
    requires Consistent(p) && k in p.held
    ensures var q := Deallocated(p, k);
      Consistent(q) && Pages(q) == Pages(p) && q.count + |q.held| == p.count + |p.held|
  {}

  /** No page is given out while it is held, every page is free or held throughout, and the count stays the number of
      free pages, so allocate_page never fails to find the page that a nonzero count promises. */
  lemma {:induction false} RunConserves(p: Pool, calls: seq<Call>, last: Pool)
    requires Consistent(p) && Run(p, calls, last)
    ensures Consistent(last) && Pages(last) == Pages(p) && last.count + |last.held| == p.count + |p.held|
    ensures last.count != 0 ==> last.free != {} && Lowest(last.free) !in last.held
    decreases |calls|
  {
    if calls == [] {
      if p.count != 0 {
        assert p.free != {};
        AllocatedKeeps(p);
      }
    } else {
      match calls[0]
      case Alloc =>
        if p.count == 0 {
          RunConserves(p, calls[1..], last);
        } else {
          AllocatedKeeps(p);
          RunConserves(Allocated(p), calls[1..], last);
        }
      case Dealloc(k) =>
        DeallocatedKeeps(p, k);
        RunConserves(Deallocated(p, k), calls[1..], last);
    }
  }

  /** Returning a page keeps the count right exactly if the page was not free. */
  lemma CountKept(p: Pool, k: nat)
    requires Consistent(p)
    ensures Consistent(Deallocated(p, k)) <==> k !in p.free
  {}

  /** Returning the page just allocated undoes the allocation. */
  lemma ReturnUndoes(p: Pool)
    requires Consistent(p) && p.free != {}
    ensures Deallocated(Allocated(p), Lowest(p.free)) == p
  {}
}
