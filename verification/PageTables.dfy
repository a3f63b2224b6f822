/** Two-level page tables, the windows through which the kernel reaches them, and translation. */
module PageTables {
  import opened Common
  import B = PageBitmap

  const PAGE := 4096
  const ENTRIES := 1024
  const WINDOWS := 16 * 1024
  const SPACE := 0x1_0000_0000
  /** PTE_PRESENT_BIT | PTE_RW_BIT | PTE_US_BIT */
  const USER := 7
  /** PTE_KUSED_BIT | PTE_PRESENT_BIT | PTE_GLOBAL_BIT | PTE_RW_BIT */
  const WINDOW := 0x303

  /** set_pte and set_pde. */
  function Entry(address: nat, flags: nat): nat { address / PAGE * PAGE + flags }

  predicate Present(e: nat) { e % 2 == 1 }

  predicate KernelUsed(e: nat) { e / 512 % 2 == 1 }

  function FrameOf(e: nat): nat { e / PAGE }

  /** A directory, the words of every frame, the free frames, and the entries of the kernel's page tables. */
  datatype Space = Space(pd: seq<nat>, memory: map<nat, seq<nat>>, free: set<nat>, windows: seq<nat>)

  ghost predicate Frames(s: Space) {
    && (forall f :: f in s.memory ==> |s.memory[f]| == ENTRIES)
    && (forall f :: f in s.free ==> f in s.memory)
  }

  /** Each directory entry is zero or present, and each present one has a table of its own, in use. */
  ghost predicate Tables(s: Space) {
    && |s.pd| == ENTRIES
    && (forall d :: 0 <= d < ENTRIES ==> s.pd[d] == 0 || Present(s.pd[d]))
    && (forall d :: 0 <= d < ENTRIES && Present(s.pd[d]) ==>
          FrameOf(s.pd[d]) in s.memory && FrameOf(s.pd[d]) !in s.free)
    && (forall d, e {:trigger FrameOf(s.pd[d]), FrameOf(s.pd[e])} ::
          0 <= d < e < ENTRIES && Present(s.pd[d]) && Present(s.pd[e]) ==> FrameOf(s.pd[d]) != FrameOf(s.pd[e]))
  }

  /** A kernel entry not marked as used is zero, so or-ing an address and flags into it stores them. */
  ghost predicate CleanWindows(windows: seq<nat>) {
    |windows| == WINDOWS && forall i :: ENTRIES <= i < WINDOWS && !KernelUsed(windows[i]) ==> windows[i] == 0
  }

  ghost predicate Inv(s: Space) { Frames(s) && Tables(s) && CleanWindows(s.windows) }

  /** What a word of a page table translates to. */
  function Decode(word: nat): Option<nat> { if Present(word) then Some(FrameOf(word)) else None }

  /** The frame that virtual page v translates to. */
  ghost function Translate(s: Space, v: nat): Option<nat>
    requires Inv(s) && v < ENTRIES * ENTRIES
  {
    var e := s.pd[v / ENTRIES];
    if Present(e) then Decode(s.memory[FrameOf(e)][v % ENTRIES]) else None
  }

  /** The first entry from i on that is not used, or the number of entries if there is none. */
  function FirstUnused(windows: seq<nat>, i: nat): (r: nat)
    requires i <= |windows|
    ensures i <= r <= |windows| && (r < |windows| ==> !KernelUsed(windows[r]))
    ensures forall j :: i <= j < r ==> KernelUsed(windows[j])
    decreases |windows| - i
  {
    if i == |windows| || !KernelUsed(windows[i]) then i else FirstUnused(windows, i + 1)
  }

  /** The table for directory entry d, from a new frame if it has none. The frame is not cleared. */
  ghost function WithTable(s: Space, d: nat): Option<Space>
    requires d < |s.pd|
  {
    if Present(s.pd[d]) then Some(s)
    else if s.free == {} then None
    else
      var k := B.Lowest(s.free);
      Some(s.(pd := s.pd[d := Entry(k * PAGE, USER)], free := s.free - {k}))
  }

  /** Write one word of a frame. */
  function Store(memory: map<nat, seq<nat>>, frame: nat, i: nat, word: nat): map<nat, seq<nat>>
    requires frame in memory && i < |memory[frame]|
  {
    var table: seq<nat> := memory[frame][i := word];
    memory[frame := table]
  }

  /** Page v's entry written through a newly opened window on its table. */
  ghost function Written(t: Space, v: nat, address: nat): Space
    requires |t.pd| == ENTRIES && Frames(t) && |t.windows| == WINDOWS && v < ENTRIES * ENTRIES
    requires FirstUnused(t.windows, ENTRIES) < WINDOWS && FrameOf(t.pd[v / ENTRIES]) in t.memory
  {
    var frame := FrameOf(t.pd[v / ENTRIES]);
    t.(windows := t.windows[FirstUnused(t.windows, ENTRIES) := frame * PAGE + WINDOW],
       memory := Store(t.memory, frame, v % ENTRIES, Entry(address, USER)))
  }

  /** One turn of map_user_region_to_physical: map page v to the frame of the address. None when no frame or no window
      is left. The window stays open. */
  ghost function MapPage(s: Space, v: nat, address: nat): Option<Space>
    requires Inv(s) && v < ENTRIES * ENTRIES
  {
    var r := WithTable(s, v / ENTRIES);
    if r.None? || FirstUnused(r.value.windows, ENTRIES) == WINDOWS then None
    else if FrameOf(r.value.pd[v / ENTRIES]) !in r.value.memory then None
    else Some(Written(r.value, v, address))
  }

  lemma FlagsDropped(q: nat, flags: nat)
    requires flags < PAGE
    ensures (q * PAGE + flags) / PAGE == q
  {}

  lemma FlagsRead(q: nat)
    ensures (q * PAGE + USER) % 2 == 1 && (q * PAGE + WINDOW) / 512 % 2 == 1
  {
    assert q * PAGE + USER == 2 * (2048 * q + 3) + 1;
    assert q * PAGE + WINDOW == 512 * (8 * q + 1) + 259;
  }

  lemma EntryParts(address: nat)
    ensures Present(Entry(address, USER)) && FrameOf(Entry(address, USER)) == address / PAGE
    ensures KernelUsed(address / PAGE * PAGE + WINDOW) && FrameOf(address / PAGE * PAGE + WINDOW) == address / PAGE
  {
    FlagsDropped(address / PAGE, USER);
    FlagsDropped(address / PAGE, WINDOW);
    FlagsRead(address / PAGE);
  }

  /** A new table keeps every translation there was and exposes what its frame held. */
  lemma WithTableKeeps(s: Space, d: nat)
    requires Inv(s) && d < ENTRIES && WithTable(s, d).Some?
    ensures var t := WithTable(s, d).value;
      && Inv(t) && Present(t.pd[d]) && t.memory == s.memory && t.windows == s.windows
      && (forall e :: 0 <= e < ENTRIES && e != d ==> t.pd[e] == s.pd[e])
      && (Present(s.pd[d]) ==> t == s)
      && (!Present(s.pd[d]) ==>
            s.free != {} && FrameOf(t.pd[d]) == B.Lowest(s.free) && t.free == s.free - {B.Lowest(s.free)})
  {
    if !Present(s.pd[d]) {
      EntryParts(B.Lowest(s.free) * PAGE);
    }
  }

  /** The slots from which a window can be opened. */
  ghost function Unused(windows: seq<nat>): set<nat>
    requires |windows| == WINDOWS
  {
    set i: nat | ENTRIES <= i < WINDOWS && !KernelUsed(windows[i])
  }

  /** A page is open to user code, for writing too, if its directory entry and its own are present and have both the
      bit for writing and the one for user code. */
  ghost predicate UserPage(s: Space, v: nat)
    requires Inv(s) && v < ENTRIES * ENTRIES
  {
    var e := s.pd[v / ENTRIES];
    Present(e) && Writable(e) && ForUser(e)
    && var word := s.memory[FrameOf(e)][v % ENTRIES]; Present(word) && Writable(word) && ForUser(word)
  }

  predicate Writable(e: nat) { e / 2 % 2 == 1 }
  predicate ForUser(e: nat) { e / 4 % 2 == 1 }

  /** Every table there is serves user code. */
  ghost predicate UserTables(s: Space)
    requires Inv(s)
  {
    forall d :: 0 <= d < ENTRIES && Present(s.pd[d]) ==> Writable(s.pd[d]) && ForUser(s.pd[d])
  }

  lemma UserBits(q: nat)
    ensures Present(q * PAGE + USER) && Writable(q * PAGE + USER) && ForUser(q * PAGE + USER)
  {
    assert (q * PAGE + USER) / 2 == 2048 * q + 3 == 2 * (1024 * q + 1) + 1;
    assert (q * PAGE + USER) / 4 == 1024 * q + 1 == 2 * (512 * q) + 1;
  }

  /** Opening a window uses up one slot. */
  lemma WindowOpens(windows: seq<nat>, frame: nat)
    requires CleanWindows(windows) && FirstUnused(windows, ENTRIES) < WINDOWS
    ensures var slot := FirstUnused(windows, ENTRIES);
      var after := windows[slot := frame * PAGE + WINDOW];
      CleanWindows(after) && slot in Unused(windows) && Unused(after) == Unused(windows) - {slot}
  {}

  /** The entry of a window maps its frame, for the kernel to write, and is marked used. */
  lemma WindowServes(frame: nat)
    ensures var e := frame * PAGE + WINDOW; Present(e) && Writable(e) && KernelUsed(e) && FrameOf(e) == frame
  {
    FlagsDropped(frame, WINDOW);
    FlagsRead(frame);
    assert frame * PAGE + WINDOW == 2 * (2048 * frame + 385) + 1;
    assert (frame * PAGE + WINDOW) / 2 == 2 * (1024 * frame + 192) + 1;
  }

  lemma StoreKeeps(t: Space, frame: nat, i: nat, word: nat)
    requires Frames(t) && frame in t.memory && i < ENTRIES
    ensures Frames(t.(memory := Store(t.memory, frame, i, word)))
    ensures Store(t.memory, frame, i, word).Keys == t.memory.Keys
  {}

  /** Mapping a page makes it translate to the frame of the address and keeps the tables in order. */
  lemma MapPageMaps(s: Space, v: nat, address: nat)
    requires Inv(s) && v < ENTRIES * ENTRIES && MapPage(s, v, address).Some?
    ensures var t := MapPage(s, v, address).value;
      && Inv(t) && Translate(t, v) == Some(address / PAGE) && t.free <= s.free
      && |Unused(t.windows)| + 1 == |Unused(s.windows)|
      && (forall d :: 0 <= d < ENTRIES && Present(s.pd[d]) ==> t.pd[d] == s.pd[d])
  {
    var d := v / ENTRIES;
    WithTableKeeps(s, d);
    var t := WithTable(s, d).value;
    var frame := FrameOf(t.pd[d]);
    WindowOpens(t.windows, frame);
    EntryParts(address);
    StoreKeeps(t, frame, v % ENTRIES, Entry(address, USER));
  }

  lemma SlotIffUnused(windows: seq<nat>)
    requires |windows| == WINDOWS
    ensures FirstUnused(windows, ENTRIES) < WINDOWS <==> Unused(windows) != {}
  {
    if FirstUnused(windows, ENTRIES) < WINDOWS {
      assert FirstUnused(windows, ENTRIES) in Unused(windows);
    }
  }

  /** One turn goes through exactly if there is a window left and, for a page whose table is missing, a frame; it uses
      them up and makes no other table. */
  lemma MapPageCosts(s: Space, v: nat, address: nat)
    requires Inv(s) && v < ENTRIES * ENTRIES
    ensures var d, r := v / ENTRIES, MapPage(s, v, address);
      && (r.Some? <==> Unused(s.windows) != {} && (Present(s.pd[d]) || s.free != {}))
      && (r.Some? ==>
        && |Unused(r.value.windows)| + 1 == |Unused(s.windows)|
        && |r.value.free| + (if Present(s.pd[d]) then 0 else 1) == |s.free|
        && |r.value.pd| == ENTRIES && Present(r.value.pd[d])
        && forall e :: 0 <= e < ENTRIES && e != d ==> r.value.pd[e] == s.pd[e])
  {
    var d := v / ENTRIES;
    SlotIffUnused(s.windows);
    if WithTable(s, d).Some? {
      WithTableKeeps(s, d);
      if MapPage(s, v, address).Some? {
        MapPageMaps(s, v, address);
      }
    }
  }

  /** Directory entry d is that of one of the n pages from v on. */
  predicate Touches(v: nat, n: nat, d: nat) { 0 < n && v / ENTRIES <= d <= (v + n - 1) / ENTRIES }

  /** The tables those pages still need. */
  ghost function Missing(s: Space, v: nat, n: nat): set<nat>
    requires |s.pd| == ENTRIES
  {
    set d: nat | d < ENTRIES && Touches(v, n, d) && !Present(s.pd[d])
  }

  /** There is a window for each of the n pages, a frame for each table they need, and, if no address is given, a frame
      for each page. */
  ghost predicate Affords(s: Space, v: nat, n: nat, given: bool)
    requires |s.pd| == ENTRIES && |s.windows| == WINDOWS
  {
    n <= |Unused(s.windows)| && (if given then 0 else n) + |Missing(s, v, n)| <= |s.free|
  }

  lemma TouchesNext(v: nat, n: nat, d: nat)
    ensures Touches(v, n + 1, d) <==> d == v / ENTRIES || Touches(v + 1, n, d)
  {}

  /** Once page v has its table, what is missing is what the n pages from w on miss. */
  lemma MissingNext(s: Space, t: Space, v: nat, m: nat, w: nat, n: nat)
    requires |s.pd| == ENTRIES == |t.pd| && v / ENTRIES < ENTRIES && Present(t.pd[v / ENTRIES])
    requires w == v + 1 && m == n + 1
    requires forall e :: 0 <= e < ENTRIES && e != v / ENTRIES ==> t.pd[e] == s.pd[e]
    ensures |Missing(s, v, m)| == |Missing(t, w, n)| + if Present(s.pd[v / ENTRIES]) then 0 else 1
  {
    var d := v / ENTRIES;
    forall e: nat ensures Touches(v, m, e) <==> e == d || Touches(w, n, e) {
      TouchesNext(v, n, e);
    }
    assert Missing(t, w, n) == Missing(s, v, m) - {d};
    assert d in Missing(s, v, m) <==> !Present(s.pd[d]);
  }

  /** One turn of the loop, n pages before its end, b being s with a frame taken for the page if none is given: it goes
      through if the rest can be afforded, and then what is left affords the rest exactly if it did before. */
  lemma AffordsTurn(s: Space, given: bool, b: Space, v: nat, address: nat, n: nat)
    requires Inv(s) && Inv(b) && v < ENTRIES * ENTRIES && Supplies(s, given, b, address)
    ensures MapPage(b, v, address).None? ==> !Affords(s, v, n + 1, given)
    ensures var r := MapPage(b, v, address);
      r.Some? ==>
        && |r.value.pd| == ENTRIES && |r.value.windows| == WINDOWS
        && (Affords(r.value, v + 1, n, given) <==> Affords(s, v, n + 1, given))
  {
    MapPageCosts(b, v, address);
    var r := MapPage(b, v, address);
    assert |b.free| == |s.free| - if given then 0 else 1;
    if r.Some? {
      MapPageMaps(b, v, address);
      MissingNext(s, r.value, v, n + 1, v + 1, n);
    } else if !Present(s.pd[v / ENTRIES]) {
      TouchesNext(v, n, v / ENTRIES);
      assert v / ENTRIES in Missing(s, v, n + 1);
    }
  }

  function Following(address: nat): nat { (address + PAGE) % SPACE }

  /** The address i pages on from first. */
  function Nth(first: nat, i: nat): nat { if i == 0 then first else Following(Nth(first, i - 1)) }

  lemma Wraps(x: nat, y: nat)
    ensures (x % SPACE + y) % SPACE == (x + y) % SPACE
  {}

  /** It is the sum, in 32-bit arithmetic. */
  lemma {:induction false} NthIsSum(first: nat, i: nat)
    requires first < SPACE
    ensures Nth(first, i) == (first + i * PAGE) % SPACE
  {
    if i > 0 {
      NthIsSum(first, i - 1);
      Wraps(first + (i - 1) * PAGE, PAGE);
      assert first + (i - 1) * PAGE + PAGE == first + i * PAGE;
    }
  }

  lemma PageOf(v: nat)
    ensures v * PAGE / PAGE == v
  {}

  /** Where the loop over n pages from page v on stands after i of them. */
  lemma PageTurn(v: nat, i: nat, n: nat)
    requires v * PAGE + n * PAGE <= SPACE
    ensures (v + i) * PAGE < v * PAGE + n * PAGE <==> i < n
    ensures (v + i) * PAGE / PAGE == v + i && (v + i) * PAGE + PAGE == (v + (i + 1)) * PAGE
    ensures i < n ==> v + i < ENTRIES * ENTRIES
  {
    PageOf(v + i);
  }

  lemma SamePage(u: nat, v: nat)
    ensures u / ENTRIES == v / ENTRIES && u % ENTRIES == v % ENTRIES ==> u == v
  {}

  /** Mapping page v changes no other page's translation, except that the pages of a newly made table translate as the
      words left in its frame say. */
  lemma MapPageOthers(s: Space, v: nat, address: nat, u: nat)
    requires Inv(s) && v < ENTRIES * ENTRIES && u < ENTRIES * ENTRIES && u != v && MapPage(s, v, address).Some?
    ensures Inv(MapPage(s, v, address).value)
    ensures Translate(MapPage(s, v, address).value, u) ==
      if u / ENTRIES == v / ENTRIES && !Present(s.pd[u / ENTRIES]) then Leftover(s, u) else Translate(s, u)
  {
    MapPageMaps(s, v, address);
    WithTableKeeps(s, v / ENTRIES);
    SamePage(u, v);
  }

  /** What page u would translate to in the next free frame, as it stands. */
  ghost function Leftover(s: Space, u: nat): Option<nat>
    requires Inv(s)
  {
    if s.free == {} then None else Decode(s.memory[B.Lowest(s.free)][u % ENTRIES])
  }

  /** Page v is open to user code in t, and so is what was in s, if the tables of s serve user code. */
  ghost predicate Opens(s: Space, t: Space, v: nat)
    requires Inv(s) && Inv(t) && v < ENTRIES * ENTRIES
  {
    UserTables(s) ==>
      && UserTables(t) && UserPage(t, v)
      && forall u :: 0 <= u < ENTRIES * ENTRIES && UserPage(s, u) ==> UserPage(t, u)
  }

  /** Mapping a page opens it to user code and shuts no other. */
  lemma MapPageOpens(s: Space, v: nat, address: nat)
    requires Inv(s) && v < ENTRIES * ENTRIES && MapPage(s, v, address).Some?
    ensures Inv(MapPage(s, v, address).value) && Opens(s, MapPage(s, v, address).value, v)
  {
    MapPageMaps(s, v, address);
    WithTableKeeps(s, v / ENTRIES);
    UserBits(address / PAGE);
    var t := MapPage(s, v, address).value;
    if UserTables(s) {
      if !Present(s.pd[v / ENTRIES]) {
        EntryParts(B.Lowest(s.free) * PAGE);
        UserBits(B.Lowest(s.free));
      }
      forall u | 0 <= u < ENTRIES * ENTRIES && UserPage(s, u) ensures UserPage(t, u) {
        SamePage(u, v);
      }
    }
  }

  /** Page v is mapped to the frame of the address between s and t, and every other page whose table existed keeps its
      translation. */
  ghost predicate Maps(s: Space, t: Space, v: nat, address: nat, given: bool) {
    && v < ENTRIES * ENTRIES && Inv(s) && Inv(t) && t.free <= s.free && |Unused(t.windows)| + 1 == |Unused(s.windows)|
    && Translate(t, v) == Some(address / PAGE) && Present(t.pd[v / ENTRIES]) && Opens(s, t, v)
    && (forall d :: 0 <= d < ENTRIES && Present(s.pd[d]) ==> Present(t.pd[d]))
    && (forall u :: 0 <= u < ENTRIES * ENTRIES && u != v && Present(s.pd[u / ENTRIES]) ==>
          Translate(t, u) == Translate(s, u))
    && (!given ==> address / PAGE in s.free && address / PAGE !in t.free)
  }

  /** One turn of the loop with an address given. */
  lemma GivenTurn(s: Space, v: nat, address: nat)
    requires Inv(s) && v < ENTRIES * ENTRIES && MapPage(s, v, address).Some?
    ensures Maps(s, MapPage(s, v, address).value, v, address, true)
  {
    MapPageMaps(s, v, address);
    MapPageOpens(s, v, address);
    var t := MapPage(s, v, address).value;
    forall u | 0 <= u < ENTRIES * ENTRIES && u != v && Present(s.pd[u / ENTRIES])
      ensures Translate(t, u) == Translate(s, u)
    {
      MapPageOthers(s, v, address, u);
    }
  }

  /** The state once a frame has been allocated for the next page. */
  ghost function Backed(s: Space): Space
    requires s.free != {}
  {
    s.(free := s.free - {B.Lowest(s.free)})
  }

  lemma BackedOpens(s: Space, t: Space, v: nat)
    requires Inv(s) && s.free != {} && Inv(t) && v < ENTRIES * ENTRIES && Inv(Backed(s)) && Opens(Backed(s), t, v)
    ensures Opens(s, t, v)
  {
    assert forall u :: 0 <= u < ENTRIES * ENTRIES ==> (UserPage(s, u) <==> UserPage(Backed(s), u));
  }

  /** One turn of the loop with none given: the page gets a newly allocated frame. */
  lemma FreshTurn(s: Space, v: nat)
    requires Inv(s) && v < ENTRIES * ENTRIES && s.free != {}
    requires MapPage(Backed(s), v, B.Lowest(s.free) * PAGE).Some?
    ensures Maps(s, MapPage(Backed(s), v, B.Lowest(s.free) * PAGE).value, v, B.Lowest(s.free) * PAGE, false)
  {
    var b, address := Backed(s), B.Lowest(s.free) * PAGE;
    GivenTurn(b, v, address);
    EntryParts(address);
    var t := MapPage(b, v, address).value;
    BackedOpens(s, t, v);
    forall u | 0 <= u < ENTRIES * ENTRIES && u != v && Present(s.pd[u / ENTRIES])
      ensures Translate(t, u) == Translate(s, u)
    {
      assert Translate(b, u) == Translate(s, u);
    }
  }

  /** n pages from v on are mapped one after another between s and last: to consecutive addresses from first on, in
      32-bit arithmetic, if one is given, and to newly allocated frames otherwise. */
  ghost predicate Reaches(s: Space, v: nat, n: nat, given: bool, first: nat, last: Space)
    decreases n, 0
  {
    if n == 0 then Inv(s) && last == s else ReachesBefore(s, v, n - 1, given, first, last)
  }

  /** The same with m pages mapped before the last one. */
  ghost predicate ReachesBefore(s: Space, v: nat, m: nat, given: bool, first: nat, last: Space)
    decreases m, 1
  {
    exists t, address: nat :: Reaches(s, v, m, given, first, t) && MapsNext(t, last, v, m, address, given, first)
  }

  ghost predicate MapsNext(t: Space, last: Space, v: nat, m: nat, address: nat, given: bool, first: nat) {
    Maps(t, last, v + m, address, given) && (given ==> address == Nth(first, m))
  }

  lemma BackedGood(s: Space)
    requires Inv(s) && s.free != {}
    ensures Inv(Backed(s))
  {}

  /** The state a turn maps the next page from, and the address it maps it to. */
  ghost predicate Supplies(t: Space, given: bool, b: Space, address: nat) {
    if given then b == t else t.free != {} && b == Backed(t) && address == B.Lowest(t.free) * PAGE
  }

  lemma TurnMaps(page: nat, given: bool, t: Space, b: Space, address: nat, last: Space)
    requires Inv(t) && Inv(b) && page < ENTRIES * ENTRIES && Supplies(t, given, b, address)
    requires MapPage(b, page, address) == Some(last)
    ensures Maps(t, last, page, address, given)
  {
    if given {
      GivenTurn(t, page, address);
    } else {
      FreshTurn(t, page);
    }
  }

  /** One more turn. */
  lemma TurnReaches(s: Space, v: nat, i: nat, given: bool, first: nat, t: Space, address: nat, last: Space)
    requires Reaches(s, v, i, given, first, t) && Maps(t, last, v + i, address, given)
    requires given ==> address == Nth(first, i)
    ensures Reaches(s, v, i + 1, given, first, last)
  {
    assert MapsNext(t, last, v, i, address, given, first);
    assert ReachesBefore(s, v, i, given, first, last);
  }

  /** The loop over n pages from v on, from s, stands at t after i of them, and what is left affords the rest exactly if
      the whole was affordable. */
  ghost predicate Stands(s: Space, v: nat, n: nat, given: bool, first: nat, i: nat, t: Space) {
    && i <= n && Inv(s) && Inv(t) && Reaches(s, v, i, given, first, t)
    && (Affords(t, v + i, n - i, given) <==> Affords(s, v, n, given))
  }

  /** It ends, at t or for good. */
  lemma TurnStands(s: Space, v: nat, n: nat, given: bool, first: nat, i: nat, t: Space, b: Space, address: nat,
                   page: nat, last: Option<Space>)
    requires Stands(s, v, n, given, first, i, t) && i < n && page == v + i && page < ENTRIES * ENTRIES
    requires Inv(b) && Supplies(t, given, b, address) && (given ==> address == Nth(first, i))
    requires last == MapPage(b, page, address)
    ensures last.None? ==> !Affords(s, v, n, given)
    ensures last.Some? ==> Inv(last.value) && Stands(s, v, n, given, first, i + 1, last.value)
  {
    AffordsTurn(t, given, b, page, address, n - i - 1);
    if last.Some? {
      TurnMaps(page, given, t, b, address, last.value);
      StandsNext(s, v, n, given, first, i, t, address, page, last.value);
    }
  }

  lemma StandsNext(s: Space, v: nat, n: nat, given: bool, first: nat, i: nat, t: Space, address: nat, page: nat,
                   last: Space)
    requires Stands(s, v, n, given, first, i, t) && i < n && page == v + i && (given ==> address == Nth(first, i))
    requires Maps(t, last, page, address, given)
    requires Affords(last, page + 1, n - i - 1, given) <==> Affords(t, page, n - i, given)
    ensures Stands(s, v, n, given, first, i + 1, last)
  {
    TurnReaches(s, v, i, given, first, t, address, last);
  }

  lemma NothingLeft(s: Space, v: nat, n: nat, given: bool, first: nat, t: Space)
    requires Stands(s, v, n, given, first, n, t)
    ensures Affords(s, v, n, given) && Reaches(s, v, n, given, first, t)
  {
    assert Missing(t, v + n, 0) == {};
  }

  /** Without a frame for its page a turn cannot be made. */
  lemma NoFrameLeft(s: Space, v: nat, n: nat, first: nat, i: nat, t: Space)
    requires Stands(s, v, n, false, first, i, t) && i < n && t.free == {}
    ensures !Affords(s, v, n, false)
  {}

  lemma {:induction false} ReachesGood(s: Space, v: nat, n: nat, given: bool, first: nat, last: Space)
    requires Reaches(s, v, n, given, first, last)
    ensures Inv(s) && Inv(last) && last.free <= s.free && |Unused(last.windows)| + n == |Unused(s.windows)|
    ensures forall d :: 0 <= d < ENTRIES && Present(s.pd[d]) ==> Present(last.pd[d])
    decreases n
  {
    if n > 0 {
      var t, address: nat :|
        Reaches(s, v, n - 1, given, first, t) && MapsNext(t, last, v, n - 1, address, given, first);
      ReachesGood(s, v, n - 1, given, first, t);
    }
  }

  /** Mapping a region keeps the translation of every page outside it whose table existed. */
  lemma {:induction false} OthersKept(s: Space, v: nat, n: nat, given: bool, first: nat, last: Space, u: nat)
    requires Reaches(s, v, n, given, first, last) && Inv(s) && Inv(last)
    requires u < ENTRIES * ENTRIES && !(v <= u < v + n) && Present(s.pd[u / ENTRIES])
    ensures Translate(last, u) == Translate(s, u)
    decreases n
  {
    if n > 0 {
      var t, address: nat :|
        Reaches(s, v, n - 1, given, first, t) && MapsNext(t, last, v, n - 1, address, given, first);
      ReachesGood(s, v, n - 1, given, first, t);
      OthersKept(s, v, n - 1, given, first, t, u);
    }
  }

  /** With an address given, page i of the region translates to the frame of first + i * 4096. */
  lemma {:induction false} GivenMapped(s: Space, v: nat, n: nat, first: nat, last: Space, i: nat)
    requires Reaches(s, v, n, true, first, last) && Inv(last) && i < n && v + n <= ENTRIES * ENTRIES
    ensures Translate(last, v + i) == Some(Nth(first, i) / PAGE)
    decreases n
  {
    var t, address: nat :|
        Reaches(s, v, n - 1, true, first, t) && MapsNext(t, last, v, n - 1, address, true, first);
    if i < n - 1 {
      GivenMapped(s, v, n - 1, first, t, i);
    }
  }

  /** With none given, each page of the region translates to a frame that was free and no longer is. */
  lemma {:induction false} FreshMapped(s: Space, v: nat, n: nat, first: nat, last: Space, i: nat)
    requires Reaches(s, v, n, false, first, last) && Inv(last) && i < n && v + n <= ENTRIES * ENTRIES
    ensures Translate(last, v + i).Some? && Translate(last, v + i).value in s.free - last.free
    decreases n
  {
    var t, address: nat :|
        Reaches(s, v, n - 1, false, first, t) && MapsNext(t, last, v, n - 1, address, false, first);
    ReachesGood(s, v, n - 1, false, first, t);
    if i < n - 1 {
      FreshMapped(s, v, n - 1, first, t, i);
    }
  }

  /** The tables serve user code throughout, and each page of the region is open to it in the end. */
  lemma {:induction false} RegionForUser(s: Space, v: nat, n: nat, given: bool, first: nat, last: Space, i: nat)
    requires Reaches(s, v, n, given, first, last) && Inv(s) && Inv(last) && UserTables(s) && v + n <= ENTRIES * ENTRIES
    ensures UserTables(last) && (i < n ==> UserPage(last, v + i))
    decreases n
  {
    if n > 0 {
      var t, address: nat :|
        Reaches(s, v, n - 1, given, first, t) && MapsNext(t, last, v, n - 1, address, given, first);
      ReachesGood(s, v, n - 1, given, first, t);
      RegionForUser(s, v, n - 1, given, first, t, i);
    }
  }

  /** Those frames are pairwise distinct. */
  lemma {:induction false} FreshDistinct(s: Space, v: nat, n: nat, first: nat, last: Space, i: nat, j: nat)
    requires Reaches(s, v, n, false, first, last) && Inv(last) && i < j < n && v + n <= ENTRIES * ENTRIES
    ensures Translate(last, v + i) != Translate(last, v + j)
    decreases n
  {
    var t, address: nat :|
        Reaches(s, v, n - 1, false, first, t) && MapsNext(t, last, v, n - 1, address, false, first);
    FreshMapped(s, v, n - 1, first, t, i);
    if j < n - 1 {
      FreshDistinct(s, v, n - 1, first, t, i, j);
      FreshMapped(s, v, n - 1, first, t, j);
    }
  }

  /** The n pages from v on translate to the frames of consecutive addresses from first on, in 32-bit arithmetic. */
  ghost predicate GivenPages(v: nat, n: nat, first: nat, last: Space)
    requires Inv(last) && v + n <= ENTRIES * ENTRIES
  {
    forall u :: v <= u < v + n ==> Translate(last, u) == Some((first + (u - v) * PAGE) % SPACE / PAGE)
  }

  /** They translate to as many different frames, which were free and no longer are. */
  ghost predicate FreshPages(s: Space, v: nat, n: nat, last: Space)
    requires Inv(last) && v + n <= ENTRIES * ENTRIES
  {
    && (forall u :: v <= u < v + n ==> Translate(last, u).Some? && Translate(last, u).value in s.free - last.free)
    && (forall u, w :: v <= u < w < v + n ==> Translate(last, u) != Translate(last, w))
  }

  /** Every page outside whose table existed translates as before. */
  ghost predicate OutsidePages(s: Space, v: nat, n: nat, last: Space)
    requires Inv(s) && Inv(last)
  {
    forall u :: 0 <= u < ENTRIES * ENTRIES && !(v <= u < v + n) && Present(s.pd[u / ENTRIES]) ==>
      Translate(last, u) == Translate(s, u)
  }

  /** What mapping n pages from v on does. */
  ghost predicate RegionMapped(s: Space, v: nat, n: nat, given: bool, first: nat, last: Space) {
    && Inv(s) && Inv(last) && v + n <= ENTRIES * ENTRIES
    && (if given then GivenPages(v, n, first, last) else FreshPages(s, v, n, last))
    && (UserTables(s) ==> UserTables(last) && forall u :: v <= u < v + n ==> UserPage(last, u))
    && OutsidePages(s, v, n, last) && |Unused(last.windows)| + n == |Unused(s.windows)|
  }

  lemma GivenReached(s: Space, v: nat, n: nat, first: nat, last: Space)
    requires Reaches(s, v, n, true, first, last) && Inv(last) && v + n <= ENTRIES * ENTRIES && first < SPACE
    ensures GivenPages(v, n, first, last)
  {
    forall u | v <= u < v + n ensures Translate(last, u) == Some((first + (u - v) * PAGE) % SPACE / PAGE) {
      GivenMapped(s, v, n, first, last, u - v);
      NthIsSum(first, u - v);
    }
  }

  lemma FreshReached(s: Space, v: nat, n: nat, first: nat, last: Space)
    requires Reaches(s, v, n, false, first, last) && Inv(last) && v + n <= ENTRIES * ENTRIES
    ensures FreshPages(s, v, n, last)
  {
    forall u | v <= u < v + n ensures Translate(last, u).Some? && Translate(last, u).value in s.free - last.free {
      FreshMapped(s, v, n, first, last, u - v);
    }
    forall u, w | v <= u < w < v + n ensures Translate(last, u) != Translate(last, w) {
      FreshDistinct(s, v, n, first, last, u - v, w - v);
    }
  }

  lemma OutsideReached(s: Space, v: nat, n: nat, given: bool, first: nat, last: Space)
    requires Reaches(s, v, n, given, first, last) && Inv(s) && Inv(last)
    ensures OutsidePages(s, v, n, last)
  {
    forall u | 0 <= u < ENTRIES * ENTRIES && !(v <= u < v + n) && Present(s.pd[u / ENTRIES])
      ensures Translate(last, u) == Translate(s, u)
    {
      OthersKept(s, v, n, given, first, last, u);
    }
  }

  lemma RegionReached(s: Space, v: nat, n: nat, given: bool, first: nat, last: Space)
    requires Reaches(s, v, n, given, first, last) && v + n <= ENTRIES * ENTRIES && first < SPACE
    ensures RegionMapped(s, v, n, given, first, last)
  {
    ReachesGood(s, v, n, given, first, last);
    if given {
      GivenReached(s, v, n, first, last);
    } else {
      FreshReached(s, v, n, first, last);
    }
    OutsideReached(s, v, n, given, first, last);
    if UserTables(s) {
      RegionForUser(s, v, n, given, first, last, 0);
      forall u | v <= u < v + n ensures UserPage(last, u) {
        RegionForUser(s, v, n, given, first, last, u - v);
      }
    }
  }

  /** user_address_to_physical: the address that page v's word holds, whether or not it is present, and the state once
      the window is closed again. None when no window is left. */
  ghost function Lookup(s: Space, v: nat): Option<(nat, Space)>
    requires Inv(s) && v < ENTRIES * ENTRIES
  {
    var e := s.pd[v / ENTRIES];
    if e == 0 then Some((0, s))
    else
      var slot := FirstUnused(s.windows, ENTRIES);
      if slot == WINDOWS then None
      else
        var windows: seq<nat> := s.windows[slot := FrameOf(e) * PAGE + WINDOW];
        Some((FrameOf(s.memory[FrameOf(windows[slot])][v % ENTRIES]) * PAGE, s.(windows := windows[slot := 0])))
  }

  /** It answers exactly if the directory has no entry there or a window can be opened. */
  lemma LookupAnswers(s: Space, v: nat)
    requires Inv(s) && v < ENTRIES * ENTRIES
    ensures Lookup(s, v).Some? <==> s.pd[v / ENTRIES] == 0 || Unused(s.windows) != {}
  {
    SlotIffUnused(s.windows);
  }

  /** A lookup leaves everything as it was, the kernel's window table included, and agrees with translation on every
      page that is mapped. On one that is not it answers 0 unless its table holds a word that is not present. */
  lemma LookupAgrees(s: Space, v: nat)
    requires Inv(s) && v < ENTRIES * ENTRIES && Lookup(s, v).Some?
    ensures Lookup(s, v).value.1 == s
    ensures Translate(s, v).Some? ==> Lookup(s, v).value.0 == Translate(s, v).value * PAGE
    ensures Translate(s, v).None? && Lookup(s, v).value.0 != 0 ==>
      Present(s.pd[v / ENTRIES]) && !Present(s.memory[FrameOf(s.pd[v / ENTRIES])][v % ENTRIES])
  {}

  /** A page of a region mapped to a given address looks up as its own page of that address. */
  lemma MappedLooksUp(s: Space, v: nat, n: nat, first: nat, last: Space, i: nat)
    requires Reaches(s, v, n, true, first, last) && Inv(last) && i < n && v + n <= ENTRIES * ENTRIES
    requires Lookup(last, v + i).Some?
    ensures Lookup(last, v + i).value.0 == Nth(first, i) / PAGE * PAGE
  {
    LookupAgrees(last, v + i);
    GivenMapped(s, v, n, first, last, i);
  }
}
