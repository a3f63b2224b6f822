/** The abstract value of an address space: the list of its regions, in list order.
    The list is not sorted by address; lookup takes the first region holding an address. */
module Segments {
  import opened Common

  const USER_START := 0x4000_0000
  const STACK_START := 0xB000_0000
  const USER_END := 0xC000_0000

  datatype RegionType = Stack | Core | Library | Anon | Ipc | Sentinel | Free | Kernel

  /** What a region says about its addresses, besides where it lies. */
  datatype Info = Info(kind: RegionType, attributes: int, parameter: int)

  datatype Segment = Segment(va: int, length: int, info: Info) {
    function End(): int { va + 4096 * length }

    predicate Has(a: int) { va <= a < End() }

    predicate IsFree() { info.kind.Free? }

    predicate FreeSpace() { IsFree() && 0 < length }

    /** Page-aligned, of non-negative length, inside user space. */
    predicate WellFormed() {
      && 0 <= length
      && va % 4096 == 0
      && USER_START <= va
      && End() <= USER_END
    }

    predicate Apart(t: Segment) {
      length == 0 || t.length == 0 || End() <= t.va || t.End() <= va
    }

    /** The complete-overlap test of create_region. */
    predicate Inside(addr: int, stop: int) { addr <= va && End() <= stop }

    /** Shares an address with [addr, stop). */
    predicate Meets(addr: int, stop: int) {
      0 < length && va < stop && addr < End()
    }
  }

  ghost predicate AllWellFormed(segs: seq<Segment>) {
    forall i :: 0 <= i < |segs| ==> segs[i].WellFormed()
  }

  /** Every region starts at a page boundary, and so, regions being whole pages, ends at one. */
  ghost predicate Aligned(segs: seq<Segment>) {
    forall i :: 0 <= i < |segs| ==> segs[i].va % 4096 == 0
  }

  ghost predicate Disjoint(segs: seq<Segment>) {
    forall i, j :: 0 <= i < j < |segs| ==> segs[i].Apart(segs[j])
  }

  ghost predicate Proper(segs: seq<Segment>) { AllWellFormed(segs) && Disjoint(segs) }

  ghost predicate AllNonEmpty(segs: seq<Segment>) {
    forall j :: 0 <= j < |segs| ==> 0 < segs[j].length
  }

  ghost predicate Covers(segs: seq<Segment>) {
    forall a :: USER_START <= a < USER_END ==> Find(segs, a) < |segs|
  }

  /** The regions tile user space: every user address lies in exactly one of them, no other address in any. */
  ghost predicate Tiles(segs: seq<Segment>) { Proper(segs) && Covers(segs) }

  /** s and t are FREE, non-empty, and t starts where s ends. */
  predicate Touch(s: Segment, t: Segment) { s.FreeSpace() && t.FreeSpace() && s.End() == t.va }

  /** No two non-empty FREE regions touch. */
  ghost predicate Coalesced(segs: seq<Segment>) {
    forall i, j :: 0 <= i < |segs| && 0 <= j < |segs| ==> !Touch(segs[i], segs[j])
  }

  /** Index of the first region holding a, or |segs|: the walk of determine_memory_region. */
  function Find(segs: seq<Segment>, a: int): (k: nat)
    ensures k <= |segs|
    ensures k < |segs| ==> segs[k].Has(a)
    ensures forall j :: 0 <= j < k ==> !segs[j].Has(a)
  {
    FindFrom(segs, a, 0)
  }

  function FindFrom(segs: seq<Segment>, a: int, i: nat): (k: nat)
    requires i <= |segs|
    ensures i <= k <= |segs|
    ensures k < |segs| ==> segs[k].Has(a)
    ensures forall j :: i <= j < k ==> !segs[j].Has(a)
    decreases |segs| - i
  {
    if i == |segs| || segs[i].Has(a) then i else FindFrom(segs, a, i + 1)
  }

  /** What lookup tells about an address. */
  function InfoAt(segs: seq<Segment>, a: int): Option<Info> {
    var k := Find(segs, a);
    if k < |segs| then Some(segs[k].info) else None
  }

  function KindAt(segs: seq<Segment>, a: int): Option<RegionType> {
    var k := Find(segs, a);
    if k < |segs| then Some(segs[k].info.kind) else None
  }

  /** In a disjoint list the holder of an address is unique, so lookup returns it whatever the list order. */
  lemma FindUnique(segs: seq<Segment>, i: nat, a: int)
    requires Disjoint(segs)
    requires i < |segs| && segs[i].Has(a)
    ensures Find(segs, a) == i
  {}

  /** An address that no region holds is not found. */
  lemma FindNone(segs: seq<Segment>, a: int)
    requires forall j :: 0 <= j < |segs| ==> !segs[j].Has(a)
    ensures Find(segs, a) == |segs|
  {}

  lemma EndAligned(s: Segment)
    requires s.WellFormed()
    ensures s.End() % 4096 == 0
  {}

  lemma ApartSymmetric(segs: seq<Segment>, i: nat, j: nat)
    requires Disjoint(segs) && i < |segs| && j < |segs| && i != j
    ensures segs[i].Apart(segs[j])
  {}

  /** create_address_space: all FREE below the stack region. */
  const FREE_INFO := Info(Free, 0, 0)
  const INITIAL_FREE := Segment(USER_START, 0x7_0000, FREE_INFO)
  const INITIAL_STACK := Segment(STACK_START, 0x1_0000, Info(Stack, 0, 0))
  const INITIAL := [INITIAL_FREE, INITIAL_STACK]

  lemma InitialTiles()
    ensures Tiles(INITIAL) && Coalesced(INITIAL)
    ensures forall a :: 0x4000_0000 <= a < 0xB000_0000 <==> KindAt(INITIAL, a) == Some(Free)
    ensures forall a :: 0xB000_0000 <= a < 0xC000_0000 <==> KindAt(INITIAL, a) == Some(Stack)
  {
    forall a
      ensures Find(INITIAL, a) == if INITIAL[0].Has(a) then 0 else if INITIAL[1].Has(a) then 1 else 2
    {}
    forall a | USER_START <= a < USER_END ensures Find(INITIAL, a) < |INITIAL| {
      assert INITIAL[0].Has(a) || INITIAL[1].Has(a);
    }
  }
}
