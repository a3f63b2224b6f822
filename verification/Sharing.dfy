/** Rings of regions sharing one set of frames: the sharedmem_next pointers as a map on the live regions.
    A closed injective map on a finite set is a union of disjoint cycles. */
module Sharing {

  ghost function Next<T>(succ: map<T, T>, x: T): T
    requires x in succ
  {
    succ[x]
  }

  ghost predicate Rings<T>(succ: map<T, T>) {
    && (forall x {:trigger Next(succ, x)} | x in succ :: Next(succ, x) in succ)
    && (forall x, y {:trigger Next(succ, x), Next(succ, y)} | x in succ && y in succ ::
          Next(succ, x) == Next(succ, y) ==> x == y)
  }

  ghost function Iterate<T>(succ: map<T, T>, x: T, k: nat): (r: T)
    requires Rings(succ) && x in succ
    ensures r in succ
  {
    if k == 0 then x else Next(succ, Iterate(succ, x, k - 1))
  }

  ghost predicate Reaches<T>(succ: map<T, T>, x: T, y: T)
    requires Rings(succ) && x in succ
  {
    exists k: nat :: Iterate(succ, x, k) == y
  }

  lemma {:induction false} Pigeonhole<T>(s: seq<T>, holes: set<T>) returns (i: nat, j: nat)
    requires forall k :: 0 <= k < |s| ==> s[k] in holes
    requires |holes| < |s|
    ensures i < j < |s| && s[i] == s[j]
    decreases |holes|
  {
    var last := s[|s| - 1];
    if k :| 0 <= k < |s| - 1 && s[k] == last {
      i, j := k, |s| - 1;
    } else {
      i, j := Pigeonhole(s[..|s| - 1], holes - {last});
    }
  }

  lemma {:induction false} IterateAdds<T>(succ: map<T, T>, x: T, j: nat, k: nat)
    requires Rings(succ) && x in succ
    ensures Iterate(succ, Iterate(succ, x, j), k) == Iterate(succ, x, j + k)
  {
    if k > 0 {
      IterateAdds(succ, x, j, k - 1);
    }
  }

  lemma {:induction false} IterateInjective<T>(succ: map<T, T>, x: T, i: nat, d: nat)
    requires Rings(succ) && x in succ && Iterate(succ, x, i) == Iterate(succ, x, i + d)
    ensures Iterate(succ, x, d) == x
  {
    if i > 0 {
      IterateInjective(succ, x, i - 1, d);
    }
  }

  /** Following the ring from x comes back to x within as many steps as there are regions. */
  lemma ReturnsHome<T>(succ: map<T, T>, x: T) returns (k: nat)
    requires Rings(succ) && x in succ
    ensures 1 <= k <= |succ| && Iterate(succ, x, k) == x
  {
    var path := seq(|succ| + 1, (n: nat) => Iterate(succ, x, n));
    assert |succ.Keys| == |succ|;
    var i, j := Pigeonhole(path, succ.Keys);
    k := j - i;
    IterateInjective(succ, x, i, k);
  }

  /** The length of the ring of x: the first return. */
  ghost predicate Period<T>(succ: map<T, T>, x: T, n: nat)
    requires Rings(succ) && x in succ
  {
    1 <= n <= |succ| && Iterate(succ, x, n) == x && forall k :: 1 <= k < n ==> Iterate(succ, x, k) != x
  }

  lemma HasPeriod<T>(succ: map<T, T>, x: T) returns (n: nat)
    requires Rings(succ) && x in succ
    ensures Period(succ, x, n)
  {
    var k := ReturnsHome(succ, x);
    n := 1;
    while Iterate(succ, x, n) != x
      invariant 1 <= n <= k
      invariant forall m :: 1 <= m < n ==> Iterate(succ, x, m) != x
      decreases k - n
    {
      n := n + 1;
    }
  }

  lemma OnePredecessor<T>(succ: map<T, T>, x: T)
    requires Rings(succ) && x in succ
    ensures exists p :: p in succ && Next(succ, p) == x
  {
    var n := ReturnsHome(succ, x);
    assert Next(succ, Iterate(succ, x, n - 1)) == x;
  }

  /** The region before x in its ring. */
  ghost function Predecessor<T>(succ: map<T, T>, x: T): (p: T)
    requires Rings(succ) && x in succ
    ensures p in succ && Next(succ, p) == x
  {
    OnePredecessor(succ, x);
    var p :| p in succ && Next(succ, p) == x;
    p
  }

  lemma OneBefore<T>(succ: map<T, T>, x: T, y: T)
    requires Rings(succ) && x in succ && y in succ && Next(succ, x) == Next(succ, y)
    ensures x == y
  {}

  /** The rings after create_region (a ring of its own), clone_region (inserted after the source)
      and delete_region (bypassed by its predecessor). */
  ghost function Created<T>(succ: map<T, T>, x: T): map<T, T> { succ[x := x] }

  ghost function Cloned<T>(succ: map<T, T>, source: T, x: T): map<T, T>
    requires source in succ
  {
    succ[x := Next(succ, source)][source := x]
  }

  ghost function Deleted<T>(succ: map<T, T>, x: T): map<T, T>
    requires Rings(succ) && x in succ
  {
    succ[Predecessor(succ, x) := Next(succ, x)] - {x}
  }

  lemma CreatedRings<T>(succ: map<T, T>, x: T)
    requires Rings(succ) && x !in succ
    ensures Rings(Created(succ, x))
  {
    var after := Created(succ, x);
    forall y, z | y in after && z in after
      ensures Next(after, y) in after && (Next(after, y) == Next(after, z) ==> y == z)
    {
      assert (y != x ==> Next(succ, y) in succ) && (z != x ==> Next(succ, z) in succ);
    }
  }

  lemma ClonedRings<T>(succ: map<T, T>, source: T, x: T)
    requires Rings(succ) && source in succ && x !in succ
    ensures Rings(Cloned(succ, source, x))
  {
    var after := Cloned(succ, source, x);
    forall y, z | y in after && z in after
      ensures Next(after, y) in after && (Next(after, y) == Next(after, z) ==> y == z)
    {
      assert Next(succ, source) in succ;
      assert (y != x ==> Next(succ, y) in succ) && (z != x ==> Next(succ, z) in succ);
    }
  }

  lemma DeletedRings<T>(succ: map<T, T>, x: T)
    requires Rings(succ) && x in succ
    ensures Rings(Deleted(succ, x))
  {
    var after, p := Deleted(succ, x), Predecessor(succ, x);
    forall y, z | y in after && z in after
      ensures Next(after, y) in after && (Next(after, y) == Next(after, z) ==> y == z)
    {
      assert Next(succ, y) in succ && Next(succ, z) in succ && Next(succ, x) in succ && Next(succ, p) == x;
    }
  }

  /** Deleting a clone restores the rings: it is always the source that precedes a fresh clone. */
  lemma CloneDeleteRestores<T>(succ: map<T, T>, source: T, x: T)
    requires Rings(succ) && source in succ && x !in succ
    ensures Rings(Cloned(succ, source, x)) && Deleted(Cloned(succ, source, x), x) == succ
  {
    var mid := Cloned(succ, source, x);
    ClonedRings(succ, source, x);
    assert Next(mid, source) == x && Next(mid, Predecessor(mid, x)) == x;
    assert Next(mid, x) == Next(succ, source);
    assert mid.Keys == succ.Keys + {x};
    assert Deleted(mid, x).Keys == succ.Keys;
  }

  lemma ReachTransitive<T>(succ: map<T, T>, x: T, y: T, z: T)
    requires Rings(succ) && x in succ && y in succ && Reaches(succ, x, y) && Reaches(succ, y, z)
    ensures Reaches(succ, x, z)
  {
    var j: nat :| Iterate(succ, x, j) == y;
    var k: nat :| Iterate(succ, y, k) == z;
    IterateAdds(succ, x, j, k);
  }

  lemma ReachOne<T>(succ: map<T, T>, x: T)
    requires Rings(succ) && x in succ
    ensures Reaches(succ, x, x) && Reaches(succ, x, Next(succ, x))
  {
    assert Iterate(succ, x, 0) == x;
    assert Iterate(succ, x, 1) == Next(succ, x);
  }

  /** Going round the ring, the source of a path is reached again from its end. */
  lemma ReachFromNext<T>(succ: map<T, T>, x: T, y: T)
    requires Rings(succ) && x in succ && Reaches(succ, x, y)
    ensures Reaches(succ, Next(succ, x), y)
  {
    var k: nat :| Iterate(succ, x, k) == y;
    if k == 0 {
      k := ReturnsHome(succ, x);
    }
    assert Iterate(succ, x, 1) == Next(succ, x);
    IterateAdds(succ, x, 1, k - 1);
    assert Iterate(succ, Next(succ, x), k - 1) == y;
  }

  /** A clone stays in the way of no path. */
  lemma {:induction false} ClonedReaches<T>(succ: map<T, T>, source: T, x: T, y: T, k: nat)
    requires Rings(succ) && source in succ && x !in succ && y in succ
    ensures Rings(Cloned(succ, source, x)) && Reaches(Cloned(succ, source, x), y, Iterate(succ, y, k))
  {
    var after := Cloned(succ, source, x);
    ClonedRings(succ, source, x);
    ReachOne(after, y);
    if k > 0 {
      ClonedReaches(succ, source, x, y, k - 1);
      var z := Iterate(succ, y, k - 1);
      ReachOne(after, z);
      ReachTransitive(after, y, z, Next(after, z));
      if z == source {
        ReachOne(after, x);
        ReachTransitive(after, y, x, Next(succ, source));
      }
    }
  }

  /** Regions other than x that shared a ring still do once x is gone. */
  lemma {:induction false} DeletedReaches<T>(succ: map<T, T>, x: T, y: T, k: nat)
    requires Rings(succ) && x in succ && y in succ && y != x
    ensures Rings(Deleted(succ, x))
    ensures var z := Iterate(succ, y, k);
      Reaches(Deleted(succ, x), y, if z == x then Next(succ, x) else z)
    ensures Iterate(succ, y, k) == x ==> Next(succ, x) != x
  {
    var after := Deleted(succ, x);
    DeletedRings(succ, x);
    ReachOne(after, y);
    if k > 0 {
      DeletedReaches(succ, x, y, k - 1);
      var z := Iterate(succ, y, k - 1);
      if z != x {
        ReachOne(after, z);
        ReachTransitive(after, y, z, Next(after, z));
      }
    }
  }

  /** The live regions of all address spaces, the frames each maps, and the frames allocated for them. */
  datatype State<T> = State(succ: map<T, T>, frames: map<T, set<nat>>, held: set<nat>)

  ghost predicate Maps<T>(s: State<T>, x: T, f: nat) { x in s.frames && f in s.frames[x] }

  /** Neighbours on a ring map the same frames. */
  ghost predicate SameFrames<T>(s: State<T>)
    requires Rings(s.succ) && s.frames.Keys == s.succ.Keys
  {
    forall x {:trigger Next(s.succ, x)} | x in s.succ :: s.frames[Next(s.succ, x)] == s.frames[x]
  }

  /** Regions with a frame in common are on one ring. */
  ghost predicate OneRing<T>(s: State<T>)
    requires Rings(s.succ) && s.frames.Keys == s.succ.Keys
  {
    forall x, y, f | x in s.frames && y in s.frames && Maps(s, x, f) && Maps(s, y, f) :: Reaches(s.succ, x, y)
  }

  /** The frames held are those some live region maps. */
  ghost predicate HeldIsMapped<T>(s: State<T>) {
    && (forall x, f | x in s.frames && Maps(s, x, f) :: f in s.held)
    && (forall f | f in s.held :: IsMapped(s, f))
  }

  ghost predicate IsMapped<T>(s: State<T>, f: nat) { exists x :: x in s.frames && Maps(s, x, f) }

  ghost predicate Good<T>(s: State<T>) {
    && Rings(s.succ) && s.frames.Keys == s.succ.Keys
    && SameFrames(s) && OneRing(s) && HeldIsMapped(s)
  }

  datatype Op<T> = Create(x: T, taken: set<nat>) | Clone(source: T, x: T) | Delete(x: T)

  ghost predicate Legal<T>(s: State<T>, op: Op<T>) {
    match op
    case Create(x, taken) => x !in s.succ && taken !! s.held
    case Clone(source, x) => source in s.succ && x !in s.succ
    case Delete(x) => x in s.succ
  }

  /** The frames delete_region releases: those of a region alone in its ring. */
  ghost function Released<T>(s: State<T>, x: T): set<nat>
    requires Good(s) && x in s.succ
  {
    if Next(s.succ, x) == x then s.frames[x] else {}
  }

  ghost function Apply<T>(s: State<T>, op: Op<T>): State<T>
    requires Good(s) && Legal(s, op)
  {
    match op
    case Create(x, taken) => State(Created(s.succ, x), s.frames[x := taken], s.held + taken)
    case Clone(source, x) => State(Cloned(s.succ, source, x), s.frames[x := s.frames[source]], s.held)
    case Delete(x) => State(Deleted(s.succ, x), s.frames - {x}, s.held - Released(s, x))
  }

  lemma {:induction false} AloneReaches<T>(succ: map<T, T>, x: T, k: nat)
    requires Rings(succ) && x in succ && Next(succ, x) == x
    ensures Iterate(succ, x, k) == x
  {
    if k > 0 {
      AloneReaches(succ, x, k - 1);
    }
  }

  /** delete_region's test for an unshared region is right: a region is alone in its ring exactly when no other
      live region maps any of its frames. */
  lemma AloneIffUnshared<T>(s: State<T>, x: T)
    requires Good(s) && x in s.succ && s.frames[x] != {}
    ensures Next(s.succ, x) == x <==> forall y, f :: y in s.frames && y != x && f in s.frames[x] ==> !Maps(s, y, f)
  {
    var z := Next(s.succ, x);
    if z == x {
      forall y, f | y in s.frames && f in s.frames[x] && Maps(s, y, f) ensures y == x {
        assert Maps(s, x, f);
        var k: nat :| Iterate(s.succ, x, k) == y;
        AloneReaches(s.succ, x, k);
      }
    } else {
      var f :| f in s.frames[x];
      assert Maps(s, z, f);
    }
  }

  lemma CreateKeepsGood<T>(s: State<T>, x: T, taken: set<nat>)
    requires Good(s) && Legal(s, Create(x, taken))
    ensures Good(Apply(s, Create(x, taken)))
  {
    var t := Apply(s, Create(x, taken));
    CreatedRings(s.succ, x);
    assert SameFrames(t) by {
      forall y | y in t.succ ensures t.frames[Next(t.succ, y)] == t.frames[y] {
        assert y != x ==> Next(s.succ, y) in s.succ;
      }
    }
    CreateKeepsOneRing(s, x, taken);
    assert HeldIsMapped(t) by {
      forall y, f | y in t.frames && Maps(t, y, f) ensures f in t.held {
        assert y != x ==> Maps(s, y, f);
      }
      forall f | f in t.held ensures IsMapped(t, f) {
        var y :| if f in taken then y == x else y in s.frames && Maps(s, y, f);
        assert Maps(t, y, f);
      }
    }
  }

  lemma CreateKeepsOneRing<T>(s: State<T>, x: T, taken: set<nat>)
    requires Good(s) && Legal(s, Create(x, taken))
    ensures var t := Apply(s, Create(x, taken)); Rings(t.succ) && OneRing(t)
  {
    var t := Apply(s, Create(x, taken));
    CreatedRings(s.succ, x);
    forall y, z, f | y in t.frames && z in t.frames && Maps(t, y, f) && Maps(t, z, f)
      ensures Reaches(t.succ, y, z)
    {
      assert (y != x ==> Maps(s, y, f)) && (z != x ==> Maps(s, z, f));
      if y == z {
        ReachOne(t.succ, y);
      } else {
        assert y != x && z != x;
        var k: nat :| Iterate(s.succ, y, k) == z;
        CreatedReaches(s.succ, x, y, k);
      }
    }
  }

  lemma {:induction false} CreatedReaches<T>(succ: map<T, T>, x: T, y: T, k: nat)
    requires Rings(succ) && x !in succ && y in succ
    ensures Rings(Created(succ, x)) && Iterate(Created(succ, x), y, k) == Iterate(succ, y, k)
  {
    CreatedRings(succ, x);
    if k > 0 {
      CreatedReaches(succ, x, y, k - 1);
    }
  }

  lemma CloneKeepsGood<T>(s: State<T>, source: T, x: T)
    requires Good(s) && Legal(s, Clone(source, x))
    ensures Good(Apply(s, Clone(source, x)))
  {
    var t := Apply(s, Clone(source, x));
    ClonedRings(s.succ, source, x);
    assert SameFrames(t) by {
      forall y | y in t.succ ensures t.frames[Next(t.succ, y)] == t.frames[y] {
        assert Next(s.succ, source) in s.succ;
        assert y != x ==> Next(s.succ, y) in s.succ;
      }
    }
    assert OneRing(t) by {
      forall y, z, f | y in t.frames && z in t.frames && Maps(t, y, f) && Maps(t, z, f)
        ensures Reaches(t.succ, y, z)
      {
        assert Maps(s, if y == x then source else y, f) && Maps(s, if z == x then source else z, f);
        CloneReaches(s, source, x, y, z);
      }
    }
    assert HeldIsMapped(t) by {
      forall y, f | y in t.frames && Maps(t, y, f) ensures f in t.held {
        assert Maps(s, if y == x then source else y, f);
      }
      forall f | f in t.held ensures IsMapped(t, f) {
        var y :| y in s.frames && Maps(s, y, f);
        assert Maps(t, y, f);
      }
    }
  }

  /** With x standing for its source, whatever was on one ring is on one ring with the clone. */
  lemma CloneReaches<T>(s: State<T>, source: T, x: T, y: T, z: T)
    requires Good(s) && Legal(s, Clone(source, x))
    requires (y == x || y in s.succ) && (z == x || z in s.succ)
    requires Reaches(s.succ, if y == x then source else y, if z == x then source else z)
    ensures Rings(Cloned(s.succ, source, x)) && Reaches(Cloned(s.succ, source, x), y, z)
  {
    var succ, after := s.succ, Cloned(s.succ, source, x);
    ClonedRings(succ, source, x);
    ReachOne(after, y);
    if y == x && z != x {
      ReachFromNext(succ, source, z);
      var k: nat :| Iterate(succ, Next(succ, source), k) == z;
      ClonedReaches(succ, source, x, Next(succ, source), k);
      ReachTransitive(after, x, Next(succ, source), z);
    } else if y != x {
      var w := if z == x then source else z;
      var k: nat :| Iterate(succ, y, k) == w;
      ClonedReaches(succ, source, x, y, k);
      if z == x {
        ReachOne(after, source);
        ReachTransitive(after, y, source, x);
      }
    }
  }

  lemma DeleteKeepsGood<T>(s: State<T>, x: T)
    requires Good(s) && Legal(s, Delete(x))
    ensures Good(Apply(s, Delete(x)))
  {
    var t := Apply(s, Delete(x));
    DeletedRings(s.succ, x);
    assert SameFrames(t) by {
      forall y | y in t.succ ensures t.frames[Next(t.succ, y)] == t.frames[y] {
        assert Next(s.succ, y) in s.succ && Next(s.succ, x) in s.succ;
        assert s.frames[Next(s.succ, Predecessor(s.succ, x))] == s.frames[Predecessor(s.succ, x)];
      }
    }
    assert OneRing(t) by {
      forall y, z, f | y in t.frames && z in t.frames && Maps(t, y, f) && Maps(t, z, f)
        ensures Reaches(t.succ, y, z)
      {
        assert Maps(s, y, f) && Maps(s, z, f);
        var k: nat :| Iterate(s.succ, y, k) == z;
        DeletedReaches(s.succ, x, y, k);
      }
    }
    DeleteKeepsHeld(s, x);
  }

  lemma DeleteKeepsHeld<T>(s: State<T>, x: T)
    requires Good(s) && Legal(s, Delete(x))
    ensures HeldIsMapped(Apply(s, Delete(x)))
  {
    var t := Apply(s, Delete(x));
    forall y, f | y in t.frames && Maps(t, y, f) ensures f in t.held {
      assert Maps(s, y, f);
      if f in s.frames[x] {
        AloneIffUnshared(s, x);
      }
    }
    forall f | f in t.held ensures IsMapped(t, f) {
      var y :| y in s.frames && Maps(s, y, f);
      if y != x {
        assert Maps(t, y, f);
      } else {
        assert Maps(t, Next(s.succ, x), f);
      }
    }
  }

  lemma ApplyKeepsGood<T>(s: State<T>, op: Op<T>)
    requires Good(s) && Legal(s, op)
    ensures Good(Apply(s, op))
  {
    match op
    case Create(x, taken) => CreateKeepsGood(s, x, taken);
    case Clone(source, x) => CloneKeepsGood(s, source, x);
    case Delete(x) => DeleteKeepsGood(s, x);
  }

  ghost predicate Run<T>(s: State<T>, ops: seq<Op<T>>, last: State<T>)
    decreases |ops|
  {
    if ops == [] then last == s
    else Good(s) && Legal(s, ops[0]) && Run(Apply(s, ops[0]), ops[1..], last)
  }

  /** How often a run allocates frame f, and how often it releases it. */
  ghost function Allocations<T>(ops: seq<Op<T>>, f: nat): nat {
    if ops == [] then 0
    else (if ops[0].Create? && f in ops[0].taken then 1 else 0) + Allocations(ops[1..], f)
  }

  ghost function Releases<T>(s: State<T>, ops: seq<Op<T>>, last: State<T>, f: nat): nat
    requires Run(s, ops, last)
    decreases |ops|
  {
    if ops == [] then 0
    else
      (if ops[0].Delete? && f in Released(s, ops[0].x) then 1 else 0)
      + Releases(Apply(s, ops[0]), ops[1..], last, f)
  }

  ghost function HeldCount<T>(s: State<T>, f: nat): nat { if f in s.held then 1 else 0 }

  lemma {:induction false} RunBalances<T>(s: State<T>, ops: seq<Op<T>>, last: State<T>, f: nat)
    requires Good(s) && Run(s, ops, last)
    ensures Good(last)
    ensures HeldCount(s, f) + Allocations(ops, f) == Releases(s, ops, last, f) + HeldCount(last, f)
    decreases |ops|
  {
    if ops != [] {
      ApplyKeepsGood(s, ops[0]);
      RunBalances(Apply(s, ops[0]), ops[1..], last, f);
      if ops[0].Delete? && f in Released(s, ops[0].x) {
        assert Maps(s, ops[0].x, f);
      }
    }
  }

  ghost function Empty<T>(): State<T> { State(map[], map[], {}) }

  /** Over every run of creates, clones and deletes, the sharing pointers stay a union of disjoint cycles, and each
      allocation of a frame is followed by exactly one release, made when its last sharer goes:
      the count is off by one just while some live region maps the frame. */
  lemma FramesReleasedOnce<T>(ops: seq<Op<T>>, last: State<T>, f: nat)
    requires Run(Empty(), ops, last)
    ensures Rings(last.succ)
    ensures Allocations(ops, f) == Releases(Empty(), ops, last, f) + (if IsMapped(last, f) then 1 else 0)
  {
    RunBalances(Empty(), ops, last, f);
  }

  /** A create at a given address over part of a live region: x gives up pages, and with them the frames lost, but
      nothing is released. */
  ghost function Trimmed<T>(s: State<T>, x: T, lost: set<nat>): State<T>
    requires x in s.frames
  {
    State(s.succ, s.frames[x := s.frames[x] - lost], s.held)
  }

  /** One that splits x: the upper pages go to a new region y, whose sharedmem_next is whatever its memory held. */
  ghost function Split<T>(s: State<T>, x: T, lost: set<nat>, y: T, upper: set<nat>, next: T): State<T>
    requires x in s.frames
  {
    State(s.succ[y := next], s.frames[x := s.frames[x] - lost - upper][y := upper], s.held)
  }

  /** After either, the frames of x and y together are those of x without the lost ones. */
  ghost predicate Cut<T>(s: State<T>, x: T, lost: set<nat>, t: State<T>) {
    && t.held == s.held
    && (forall f :: IsMapped(t, f) <==>
          (exists z :: z in s.frames && Maps(s, z, f) && (z == x ==> f !in lost)))
  }

  lemma TrimmedCuts<T>(s: State<T>, x: T, lost: set<nat>)
    requires x in s.frames
    ensures Cut(s, x, lost, Trimmed(s, x, lost))
  {
    var t := Trimmed(s, x, lost);
    forall f, z | z in s.frames ensures Maps(t, z, f) <==> Maps(s, z, f) && (z == x ==> f !in lost) {}
    assert t.frames.Keys == s.frames.Keys;
  }

  lemma SplitCuts<T>(s: State<T>, x: T, lost: set<nat>, y: T, upper: set<nat>, next: T)
    requires x in s.frames && y !in s.frames && lost !! upper && lost + upper <= s.frames[x]
    ensures Cut(s, x, lost, Split(s, x, lost, y, upper, next))
  {
    var t := Split(s, x, lost, y, upper, next);
    forall f ensures IsMapped(t, f) <==> (exists z :: z in s.frames && Maps(s, z, f) && (z == x ==> f !in lost)) {
      if z :| z in t.frames && Maps(t, z, f) {
        assert Maps(s, if z == y then x else z, f);
      }
      if z :| z in s.frames && Maps(s, z, f) && (z == x ==> f !in lost) {
        assert Maps(t, if z == x && f in upper then y else z, f);
      }
    }
  }

  /** The frames held are still exactly those mapped if and only if the region gave up nothing or shares its frames:
      what an unshared region gives up stays allocated with nobody to release it. */
  lemma CutKeepsHeld<T>(s: State<T>, x: T, lost: set<nat>, t: State<T>)
    requires Good(s) && x in s.succ && lost <= s.frames[x] && Cut(s, x, lost, t)
    ensures HeldIsMapped(t) <==> lost == {} || Next(s.succ, x) != x
  {
    if lost != {} && Next(s.succ, x) == x {
      var f :| f in lost;
      assert Maps(s, x, f);
      AloneIffUnshared(s, x);
      assert f in t.held && !IsMapped(t, f);
    } else {
      CutHeldMapped(s, x, lost, t);
      forall z, f | z in t.frames && Maps(t, z, f) ensures f in t.held {
        assert IsMapped(t, f);
      }
    }
  }

  lemma CutHeldMapped<T>(s: State<T>, x: T, lost: set<nat>, t: State<T>)
    requires Good(s) && x in s.succ && lost <= s.frames[x] && Cut(s, x, lost, t)
    requires lost == {} || Next(s.succ, x) != x
    ensures forall f :: f in t.held ==> IsMapped(t, f)
  {
    forall f | f in t.held ensures IsMapped(t, f) {
      var z :| z in s.frames && Maps(s, z, f);
      if z == x && f in lost {
        assert Maps(s, Next(s.succ, x), f);
      }
    }
  }

  /** A trim keeps the rings, but a shared region no longer maps what its neighbours map; so after a trim that takes
      anything one of the two is lost. */
  lemma TrimLeaves<T>(s: State<T>, x: T, lost: set<nat>)
    requires Good(s) && x in s.succ && lost <= s.frames[x]
    ensures var t := Trimmed(s, x, lost);
      && Rings(t.succ) && t.frames.Keys == t.succ.Keys
      && (HeldIsMapped(t) <==> lost == {} || Next(s.succ, x) != x)
      && (SameFrames(t) <==> lost == {} || Next(s.succ, x) == x)
      && (Good(t) <==> lost == {})
  {
    var t := Trimmed(s, x, lost);
    assert t.frames.Keys == s.frames.Keys;
    TrimmedCuts(s, x, lost);
    CutKeepsHeld(s, x, lost, t);
    if lost == {} {
      assert s.frames[x] - lost == s.frames[x];
      assert t.frames == s.frames;
    } else if Next(s.succ, x) == x {
      AloneKeepsSame(s, x, lost);
    } else {
      assert t.frames[Next(t.succ, x)] != t.frames[x];
    }
  }

  lemma AloneKeepsSame<T>(s: State<T>, x: T, lost: set<nat>)
    requires Good(s) && x in s.succ && Next(s.succ, x) == x && Trimmed(s, x, lost).frames.Keys == s.succ.Keys
    ensures SameFrames(Trimmed(s, x, lost))
  {
    var t := Trimmed(s, x, lost);
    forall y | y in t.succ ensures t.frames[Next(t.succ, y)] == t.frames[y] {
      if y != x {
        assert Next(s.succ, y) != Next(s.succ, x);
      }
    }
  }

  /** A split keeps the rings exactly if the pointer it leaves unset happens to point at the new region itself: every
      other region is already somebody's next. */
  lemma SplitLeaves<T>(s: State<T>, x: T, lost: set<nat>, y: T, upper: set<nat>, next: T)
    requires Good(s) && x in s.succ && y !in s.succ && lost !! upper && lost + upper <= s.frames[x]
    ensures var t := Split(s, x, lost, y, upper, next);
      && (Rings(t.succ) <==> next == y)
      && (HeldIsMapped(t) <==> lost == {} || Next(s.succ, x) != x)
  {
    var t := Split(s, x, lost, y, upper, next);
    SplitCuts(s, x, lost, y, upper, next);
    CutKeepsHeld(s, x, lost, t);
    if next == y {
      CreatedRings(s.succ, y);
    } else if next in s.succ {
      var p := Predecessor(s.succ, next);
      assert Next(t.succ, p) == Next(t.succ, y);
    } else {
      assert Next(t.succ, y) !in t.succ;
    }
  }

  /** clone_region without room for the clone: its source's pointer is cleared and leads to no region any more. */
  ghost function Unlinked<T>(s: State<T>, source: T): State<T>
    requires source in s.succ
  {
    s.(succ := s.succ - {source})
  }

  /** A clone keeps the rings, and frames held and mapped in step, exactly if there is room for it. */
  lemma CloneGoodIffRoom<T>(s: State<T>, source: T, x: T, room: bool)
    requires Good(s) && Legal(s, Clone(source, x))
    ensures Good(if room then Apply(s, Clone(source, x)) else Unlinked(s, source)) <==> room
  {
    if room {
      CloneKeepsGood(s, source, x);
    } else {
      assert source in s.frames && source !in Unlinked(s, source).succ;
    }
  }

  /** Every other region of that ring has lost its way home: the walk of delete_region from it comes to the cleared
      pointer before it comes home. */
  lemma UnlinkedWalk<T>(succ: map<T, T>, x: T, y: T) returns (k: nat)
    requires Rings(succ) && x in succ && y in succ && Reaches(succ, x, y) && x != y
    ensures Iterate(succ, x, k) == y && forall j :: 1 <= j <= k ==> Iterate(succ, x, j) != x
  {
    var n: nat :| Iterate(succ, x, n) == y;
    k := 0;
    while Iterate(succ, x, k) != y
      invariant k <= n && forall j :: 0 <= j < k ==> Iterate(succ, x, j) != y
      decreases n - k
    {
      k := k + 1;
    }
    forall j | 1 <= j <= k ensures Iterate(succ, x, j) != x {
      if Iterate(succ, x, j) == x {
        IterateAdds(succ, x, j, k - j);
      }
    }
  }

  /** The walk of delete_region from a region y whose pointer leads into the rings, but which is on none, never comes to
      y: the unset pointer of a split's upper part, and the one a region keeps when it is taken off its ring. */
  lemma {:induction false} StrayWalk<T>(succ: map<T, T>, y: T, next: T, k: nat)
    requires Rings(succ) && y !in succ && next in succ
    ensures Iterate(succ, next, k) in succ && Next(succ, Iterate(succ, next, k)) != y
  {}

  /** After its deletion a shared region's own pointer is such a one. */
  lemma DeletedStrays<T>(succ: map<T, T>, x: T, k: nat)
    requires Rings(succ) && x in succ && Next(succ, x) != x
    ensures var after := Deleted(succ, x);
      && Rings(after) && x !in after && Next(succ, x) in after
      && Next(after, Iterate(after, Next(succ, x), k)) != x
  {
    DeletedRings(succ, x);
    assert Next(succ, x) in succ;
    StrayWalk(Deleted(succ, x), x, Next(succ, x), k);
  }
}
