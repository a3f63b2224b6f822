/** The physical page allocator over its bitmap. */
module PhysicalMemory {
  import B = PageBitmap

  /** What allocate_page does: return a number, 0 when no page is counted free, or print and loop. */
  datatype Allocation = Page(number: int) | Spins

  class MemoryDomain {
    const startPage: int
    const totalPages: nat
    const bitmap: array<bv32>
    var freePages: int
    /** The pages whose bits are clear, among those the allocator scans. */
    ghost var free: set<nat>

    /** Words the allocator scans: it goes up to and including the one at total_pages / 32. */
    function Words(): nat { totalPages / 32 + 1 }

    ghost predicate Valid()
      reads this, bitmap
    {
      Words() <= bitmap.Length && free == B.Free(bitmap[..], Words())
    }

    constructor (startPage: int, totalPages: nat, bitmap: array<bv32>, freePages: int)
      requires totalPages / 32 + 1 <= bitmap.Length
      ensures Valid() && this.startPage == startPage && this.totalPages == totalPages
      ensures this.bitmap == bitmap && this.freePages == freePages
    {
      this.startPage, this.totalPages, this.bitmap, this.freePages := startPage, totalPages, bitmap, freePages;
      free := B.Free(bitmap[..], totalPages / 32 + 1);
    }

    /** The allocator looks at every page of the domain, and what it gives out is one of them exactly if one is free:
        the rest of the last word it scans counts as pages too. */
    lemma PagesScanned(k: nat)
      requires Valid() && k < totalPages
      ensures k < 32 * bitmap.Length && (k in free <==> !B.Used(bitmap[..], k))
      ensures k in free ==> free != {} && B.Lowest(free) < totalPages
      ensures free != {} && B.Lowest(free) < totalPages ==> exists j :: 0 <= j < totalPages && !B.Used(bitmap[..], j)
    {
      assert totalPages < 32 * Words();
    }

    /** The first word that is not full, or Words() if there is none. Every page before it is in use. */
    method FindWord() returns (w: nat)
      requires Words() <= bitmap.Length
      ensures w <= Words() && forall j: nat :: j < 32 * w ==> B.Used(bitmap[..], j)
      ensures w < Words() ==> bitmap[w] != 0xFFFF_FFFF
    {
      w := 0;
      while w <= totalPages / 32
        invariant w <= Words() && forall j: nat :: j < 32 * w ==> B.Used(bitmap[..], j)
      {
        if bitmap[w] != 0xFFFF_FFFF {
          return;
        }
        forall j: nat | 32 * w <= j < 32 * (w + 1) ensures B.Used(bitmap[..], j) {
          B.UsedIfFull(bitmap[..], j);
        }
        w := w + 1;
      }
    }

    /** The lowest clear bit of a word that is not full. */
    method FindOffset(w: nat) returns (offset: nat)
      requires w < bitmap.Length && bitmap[w] != 0xFFFF_FFFF
      ensures offset < 32 && !B.Used(bitmap[..], 32 * w + offset)
      ensures forall j: nat :: 32 * w <= j < 32 * w + offset ==> B.Used(bitmap[..], j)
    {
      offset := LowestClear(bitmap[w]);
      B.ClearAt(bitmap[..], w, offset);
      forall j: nat | 32 * w <= j < 32 * w + offset ensures B.Used(bitmap[..], j) {
        B.SetAt(bitmap[..], w, j - 32 * w);
      }
    }

    /** Or a bit into its word. */
    method Mark(w: nat, offset: nat)
      requires Valid() && w < Words() && offset < 32
      modifies this`free, bitmap
      ensures Valid() && free == old(free) - {32 * w + offset}
    {
      ghost var bits, k := bitmap[..], 32 * w + offset;
      B.Quotient(w, offset);
      B.FreeAfterSet(bits, Words(), k);
      bitmap[w] := bitmap[w] | B.Mask(offset);
      assert bitmap[..] == B.SetBit(bits, k);
      free := free - {k};
    }

    /** Mask a bit out of its word. */
    method Unmark(w: nat, offset: nat)
      requires Valid() && w < Words() && offset < 32
      modifies this`free, bitmap
      ensures Valid() && free == old(free) + {32 * w + offset}
    {
      ghost var bits, k := bitmap[..], 32 * w + offset;
      B.Quotient(w, offset);
      B.FreeAfterClear(bits, Words(), k);
      bitmap[w] := bitmap[w] & !B.Mask(offset);
      assert bitmap[..] == B.ClearBit(bits, k);
      free := free + {k};
    }

    /** allocate_page: the lowest free page, whose bit alone is set; 0 if none is counted free; and no return if one is
        counted free but none is. */
    method AllocatePage() returns (r: Allocation)
      requires Valid()
      modifies this`freePages, this`free, bitmap
      ensures Valid()
      ensures old(freePages) == 0 ==> r == Page(0)
      ensures old(freePages) != 0 && old(free) == {} ==> r == Spins
      ensures old(freePages) == 0 || old(free) == {} ==> free == old(free) && freePages == old(freePages)
      ensures old(freePages) != 0 && old(free) != {} ==>
        r == Page(startPage + B.Lowest(old(free))) && free == old(free) - {B.Lowest(old(free))}
        && freePages == old(freePages) - 1
    {
      if freePages == 0 {
        return Page(0);
      }
      var w := FindWord();
      if w == Words() {
        B.ScanFails(bitmap[..], Words());
        return Spins;
      }
      var offset := FindOffset(w);
      B.ScanFinds(bitmap[..], Words(), 32 * w + offset);
      Mark(w, offset);
      freePages := freePages - 1;
      r := Page(32 * w + offset + startPage);
    }

    /** set_page_status: 1 sets the page's bit, anything else clears it. */
    method SetPageStatus(p: int, s: int)
      requires Valid() && 0 <= p - startPage < 32 * Words()
      modifies this`free, bitmap
      ensures Valid()
      ensures free == if s == 1 then old(free) - {p - startPage} else old(free) + {p - startPage}
    {
      var page := p - startPage;
      if s == 1 {
        Mark(page / 32, page % 32);
      } else {
        Unmark(page / 32, page % 32);
      }
    }

    /** deallocate_page. */
    method DeallocatePage(page: int)
      requires Valid() && 0 <= page - startPage < 32 * Words()
      modifies this`freePages, this`free, bitmap
      ensures Valid() && free == old(free) + {page - startPage} && freePages == old(freePages) + 1
    {
      SetPageStatus(page, 0);
      freePages := freePages + 1;
    }
  }

  /** The lowest clear bit of a word that is not full. */
  method LowestClear(word: bv32) returns (offset: nat)
    requires word != 0xFFFF_FFFF
    ensures offset < 32 && word & B.Mask(offset) == 0
    ensures forall i :: 0 <= i < offset ==> word & B.Mask(i) != 0
  {
    offset := 0;
    while offset < 32
      invariant offset <= 32 && forall i :: 0 <= i < offset ==> word & B.Mask(i) != 0
    {
      B.Commutes(word, B.Mask(offset));
      if B.Mask(offset) & word == 0 {
        return;
      }
      offset := offset + 1;
    }
    B.OnlyFullWord(word);
  }
}
