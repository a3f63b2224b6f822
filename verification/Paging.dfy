/** The paging code over a directory, page tables in physical memory, and the kernel's window table. */
module Paging {
  import opened Common
  import T = PageTables
  import B = PageBitmap
  import P = PhysicalMemory

  class Pager {
    const directory: array<nat>
    /** The entries of the kernel's page tables, table after table. */
    const windows: array<nat>
    const domain: P.MemoryDomain
    /** The words of every frame. */
    var memory: map<nat, seq<nat>>

    ghost predicate Apart()
      reads this
    {
      && directory != windows && directory as object != domain.bitmap && windows as object != domain.bitmap
      && domain.startPage == 0 && directory.Length == T.ENTRIES && windows.Length == T.WINDOWS
    }

    ghost function State(): T.Space
      reads this, directory, windows, domain
    {
      T.Space(directory[..], memory, domain.free, windows[..])
    }

    /** The allocator's count is right, and the tables are in order. */
    ghost predicate Valid()
      reads this, directory, windows, domain, domain.bitmap
    {
      Apart() && domain.Valid() && domain.freePages == |domain.free| && T.Inv(State())
    }

    constructor (directory: array<nat>, windows: array<nat>, domain: P.MemoryDomain, memory: map<nat, seq<nat>>)
      ensures this.directory == directory && this.windows == windows && this.domain == domain && this.memory == memory
    {
      this.directory, this.windows, this.domain, this.memory := directory, windows, domain, memory;
    }

    /** get_unused_kernel_virtual_page's search; the number of entries if every one is used. */
    method FindUnused() returns (slot: nat)
      requires windows.Length == T.WINDOWS
      ensures slot == T.FirstUnused(windows[..], T.ENTRIES)
    {
      slot := T.ENTRIES;
      while slot < T.WINDOWS
        invariant T.ENTRIES <= slot <= T.WINDOWS
        invariant T.FirstUnused(windows[..], T.ENTRIES) == T.FirstUnused(windows[..], slot)
      {
        if !T.KernelUsed(windows[slot]) {
          return;
        }
        slot := slot + 1;
      }
    }

    /** get_mapped_kernel_virtual_page: open a window on the frame at a page-aligned address. The slot found holds
        zero, so or-ing the flags and the address into it stores their sum. */
    method OpenWindow(address: nat) returns (slot: nat)
      requires T.CleanWindows(windows[..]) && address % T.PAGE == 0
      modifies windows
      ensures slot == T.FirstUnused(old(windows[..]), T.ENTRIES)
      ensures windows[..] ==
        if slot < T.WINDOWS then old(windows[..])[slot := address / T.PAGE * T.PAGE + T.WINDOW] else old(windows[..])
    {
      slot := FindUnused();
      if slot < T.WINDOWS {
        windows[slot] := windows[slot] + T.WINDOW;
        windows[slot] := windows[slot] + address;
      }
    }

    /** free_kernel_virtual_page. */
    method CloseWindow(slot: nat)
      requires slot < windows.Length
      modifies windows
      ensures windows[..] == old(windows[..])[slot := 0]
    {
      windows[slot] := 0;
    }

    /** user_address_to_physical, for the page of the address. */
    method UserAddressToPhysical(virtaddr: nat) returns (r: Option<nat>)
      requires Valid() && virtaddr < T.SPACE
      modifies windows
      ensures Valid() && windows[..] == old(windows[..])
      ensures r == match old(T.Lookup(State(), virtaddr / T.PAGE)) case None => None case Some(l) => Some(l.0)
      ensures r.Some? <==> directory[virtaddr / T.PAGE / T.ENTRIES] == 0 || T.Unused(old(windows[..])) != {}
    {
      T.LookupAnswers(State(), virtaddr / T.PAGE);
      var v := virtaddr / T.PAGE;
      if directory[v / T.ENTRIES] == 0 {
        return Some(0);
      }
      ghost var was := windows[..];
      T.EntryParts(T.FrameOf(directory[v / T.ENTRIES]) * T.PAGE);
      var slot := OpenWindow(T.FrameOf(directory[v / T.ENTRIES]) * T.PAGE);
      if slot == T.WINDOWS {
        return None;
      }
      var phys := T.FrameOf(memory[T.FrameOf(windows[slot])][v % T.ENTRIES]) * T.PAGE;
      CloseWindow(slot);
      assert windows[..] == was;
      r := Some(phys);
    }

    /** Allocate a frame; not ok when none is left, where the code would go on with frame 0. */
    method NewFrame() returns (ok: bool, frame: nat)
      requires Valid()
      modifies domain`freePages, domain`free, domain.bitmap
      ensures ok == (old(domain.free) != {})
      ensures Apart() && domain.Valid() && domain.freePages == |domain.free|
      ensures ok ==> frame == B.Lowest(old(domain.free)) && State() == T.Backed(old(State()))
      ensures !ok ==> State() == old(State())
    {
      if domain.freePages == 0 {
        return false, 0;
      }
      assert domain.free != {};
      var r := domain.AllocatePage();
      ok, frame := true, r.number;
    }

    /** Give directory entry d a table if it has none. */
    method EnsureTable(d: nat) returns (ok: bool)
      requires Valid() && d < T.ENTRIES
      modifies directory, domain`freePages, domain`free, domain.bitmap
      ensures ok == old(T.WithTable(State(), d)).Some?
      ensures Apart() && domain.Valid() && domain.freePages == |domain.free|
      ensures ok ==> State() == old(T.WithTable(State(), d)).value
    {
      if T.Present(directory[d]) {
        return true;
      }
      var frame;
      ok, frame := NewFrame();
      if ok {
        directory[d] := T.Entry(frame * T.PAGE, T.USER);
      }
    }

    /** Write page v's entry through a window on its table. The window stays open. */
    method WriteEntry(v: nat, address: nat, ghost t: T.Space) returns (ok: bool)
      requires Apart() && t == State() && T.Frames(t) && T.CleanWindows(t.windows)
      requires v < T.ENTRIES * T.ENTRIES && T.FrameOf(t.pd[v / T.ENTRIES]) in t.memory
      modifies this`memory, windows
      ensures ok == (T.FirstUnused(t.windows, T.ENTRIES) < T.WINDOWS)
      ensures ok ==> State() == T.Written(t, v, address)
    {
      T.EntryParts(T.FrameOf(directory[v / T.ENTRIES]) * T.PAGE);
      var slot := OpenWindow(T.FrameOf(directory[v / T.ENTRIES]) * T.PAGE);
      if slot == T.WINDOWS {
        return false;
      }
      memory := T.Store(memory, T.FrameOf(windows[slot]), v % T.ENTRIES, T.Entry(address, T.USER));
      ok := true;
    }

    /** The body of the loop: map page v to the frame of the address. */
    method MapPage(v: nat, address: nat, ghost s: T.Space) returns (ok: bool)
      requires Valid() && v < T.ENTRIES * T.ENTRIES && s == State()
      modifies this`memory, directory, windows, domain`freePages, domain`free, domain.bitmap
      ensures ok == T.MapPage(s, v, address).Some?
      ensures ok ==> Valid() && T.MapPage(s, v, address) == Some(State())
    {
      ok := EnsureTable(v / T.ENTRIES);
      if ok {
        T.WithTableKeeps(s, v / T.ENTRIES);
        ok := WriteEntry(v, address, State());
        if ok {
          T.MapPageMaps(s, v, address);
        }
      }
    }

    /** The address for the next page: the one given, or that of a new frame. */
    method Supply(phys: nat, curPhys: nat) returns (ok: bool, address: nat)
      requires Valid()
      modifies domain`freePages, domain`free, domain.bitmap
      ensures ok <==> phys != 0 || old(domain.free) != {}
      ensures ok ==> Valid() && T.Supplies(old(State()), phys != 0, State(), address)
      ensures ok && phys != 0 ==> address == curPhys
    {
      if phys != 0 {
        return true, curPhys;
      }
      ghost var t := State();
      var frame;
      ok, frame := NewFrame();
      address := frame * T.PAGE;
      if ok {
        T.BackedGood(t);
      }
    }

    /** One turn of the loop, the one for page i of the region. */
    method MapNext(page: nat, phys: nat, curPhys: nat, ghost s: T.Space, ghost v: nat, ghost n: nat, ghost i: nat)
        returns (ok: bool, nextPhys: nat)
      requires Valid() && i < n && page == v + i && page < T.ENTRIES * T.ENTRIES
      requires T.Stands(s, v, n, phys != 0, phys, i, State())
      requires phys != 0 ==> curPhys == T.Nth(phys, i)
      modifies this`memory, directory, windows, domain`freePages, domain`free, domain.bitmap
      ensures ok ==> Valid() && T.Stands(s, v, n, phys != 0, phys, i + 1, State())
      ensures ok && phys != 0 ==> nextPhys == T.Following(curPhys)
      ensures !ok ==> !T.Affords(s, v, n, phys != 0)
    {
      ghost var t := State();
      var address;
      ok, address := Supply(phys, curPhys);
      if !ok {
        T.NoFrameLeft(s, v, n, phys, i, t);
        return false, 0;
      }
      ghost var b := State();
      T.TurnStands(s, v, n, phys != 0, phys, i, t, b, address, page, T.MapPage(b, page, address));
      ok := MapPage(page, address, b);
      nextPhys := T.Following(address);
    }

    /** The loop of map_user_region_to_physical. */
    method MapPages(virtualAddress: nat, length: nat, phys: nat, v: nat) returns (ok: bool)
      requires Valid() && virtualAddress + length * T.PAGE <= T.SPACE && virtualAddress == v * T.PAGE
      modifies this`memory, directory, windows, domain`freePages, domain`free, domain.bitmap
      ensures ok <==> T.Affords(old(State()), v, length, phys != 0)
      ensures ok ==> Valid() && T.Reaches(old(State()), v, length, phys != 0, phys, State())
    {
      ghost var s, i: nat := State(), 0;
      var curVirt, curPhys, stop := virtualAddress, phys, virtualAddress + length * T.PAGE;
      T.PageTurn(v, 0, length);
      while curVirt < stop
        invariant i <= length && curVirt == (v + i) * T.PAGE && (curVirt < stop <==> i < length)
        invariant Valid() && T.Stands(s, v, length, phys != 0, phys, i, State())
        invariant phys != 0 ==> curPhys == T.Nth(phys, i)
        decreases length - i
      {
        T.PageTurn(v, i, length);
        T.PageTurn(v, i + 1, length);
        ok, curPhys := MapNext(curVirt / T.PAGE, phys, curPhys, s, v, length, i);
        if !ok {
          return;
        }
        curVirt := curVirt + T.PAGE;
        i := i + 1;
      }
      ok := true;
      T.NothingLeft(s, v, length, phys != 0, phys, State());
    }

    /** map_user_region_to_physical. */
    method MapRegion(virtualAddress: nat, length: nat, phys: nat) returns (ok: bool)
      requires Valid() && virtualAddress + length * T.PAGE <= T.SPACE && phys < T.SPACE
      modifies this`memory, directory, windows, domain`freePages, domain`free, domain.bitmap
      ensures virtualAddress % T.PAGE != 0 ==> ok && State() == old(State())
      ensures virtualAddress % T.PAGE == 0 ==>
        var needed := (if phys == 0 then length else 0) + |T.Missing(old(State()), virtualAddress / T.PAGE, length)|;
        (ok <==> length <= |T.Unused(old(windows[..]))| && needed <= |old(domain.free)|)
      ensures virtualAddress % T.PAGE == 0 && ok ==> Valid()
      ensures virtualAddress % T.PAGE == 0 && ok ==>
        && T.Reaches(old(State()), virtualAddress / T.PAGE, length, phys != 0, phys, State())
        && T.RegionMapped(old(State()), virtualAddress / T.PAGE, length, phys != 0, phys, State())
    {
      if virtualAddress % T.PAGE != 0 {
        return true;
      }
      var v := virtualAddress / T.PAGE;
      ok := MapPages(virtualAddress, length, phys, v);
      if ok {
        T.RegionReached(old(State()), v, length, phys != 0, phys, State());
      }
    }
  }
}
