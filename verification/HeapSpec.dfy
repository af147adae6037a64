/** The kernel heap as a value: an address-ordered free list, the blocks handed
    out, and the units of address space acquired so far. One unit is the size of
    a block header, as in section 8.7 of K&R, "The C Programming Language". */
module HeapSpec {

  datatype Block = Block(start: nat, len: nat) {
    function End(): nat { start + len }
  }

  /** `ring` lists the free list in address order, beginning at its lowest
      header; the successor of the last element is the first one. */
  datatype State = State(ring: seq<Block>, live: map<nat, nat>, arena: set<nat>)

  predicate From(start: nat, u: nat) { start <= u }

  function Range(start: nat, len: nat): (r: set<nat>)
    ensures forall u: nat :: u in r <==> start <= u < start + len
  {
    set u: nat | u < start + len && From(start, u)
  }

  ghost function Units(ring: seq<Block>): set<nat> {
    set i: nat, u: nat | i < |ring| && u in Range(ring[i].start, ring[i].len) :: u
  }

  ghost function LiveUnits(live: map<nat, nat>): set<nat> {
    set h: nat, u: nat | h in live && u in Range(h, live[h]) :: u
  }

  function Next(i: nat, n: nat): nat
    requires i < n
  {
    if i + 1 == n then 0 else i + 1
  }

  function Prev(i: nat, n: nat): nat
    requires i < n
  {
    if i == 0 then n - 1 else i - 1
  }

  /** Strictly increasing addresses, with a gap of at least one unit between
      consecutive blocks: sorted, disjoint and fully coalesced. */
  ghost predicate Separated(ring: seq<Block>) {
    forall i, j :: 0 <= i < j < |ring| ==> ring[i].End() < ring[j].start
  }

  /** The header `base` is on the list and is the only empty block. */
  ghost predicate Anchored(base: nat, ring: seq<Block>) {
    && Block(base, 0) in ring
    && forall i :: 0 <= i < |ring| && ring[i].len == 0 ==> ring[i].start == base
  }

  ghost predicate LiveApart(live: map<nat, nat>) {
    && (forall h :: h in live ==> live[h] >= 1)
    && (forall h, g :: h in live && g in live && h < g ==> h + live[h] <= g)
  }

  ghost predicate Inv(base: nat, s: State) {
    && base >= 1
    && Separated(s.ring)
    && Anchored(base, s.ring)
    && LiveApart(s.live)
    && LiveUnits(s.live) !! Units(s.ring)
    && s.arena == LiveUnits(s.live) + Units(s.ring)
    && base !in s.arena
    && base - 1 !in s.arena
  }

  // ----- the operations

  /** How many blocks start below address `a`. */
  function Below(ring: seq<Block>, a: nat): (k: nat)
    requires Separated(ring)
    ensures k <= |ring|
    ensures forall i :: 0 <= i < k ==> ring[i].start < a
    ensures forall i :: k <= i < |ring| ==> a <= ring[i].start
  {
    if ring == [] then 0
    else if ring[|ring| - 1].start < a then |ring|
    else Below(ring[..|ring| - 1], a)
  }

  /** Joins element `i` to its upper neighbour if the two touch. */
  function JoinAt(ring: seq<Block>, i: nat): seq<Block> {
    if i + 1 < |ring| && ring[i].End() == ring[i + 1].start
    then ring[..i] + [Block(ring[i].start, ring[i].len + ring[i + 1].len)] + ring[i + 2..]
    else ring
  }

  /** Puts `b` in front of `ring[k]`, joining it to whichever neighbours it touches. */
  function Insert(ring: seq<Block>, k: nat, b: Block): seq<Block>
    requires k <= |ring|
  {
    var upper := JoinAt(ring[..k] + [b] + ring[k..], k);
    if k == 0 then upper else JoinAt(upper, k - 1)
  }

  /** Cuts `n` units off the tail end of `ring[i]`. */
  function Cut(ring: seq<Block>, i: nat, n: nat): seq<Block>
    requires i < |ring| && n <= ring[i].len
  {
    if ring[i].len == n then ring[..i] + ring[i + 1..]
    else ring[i := Block(ring[i].start, ring[i].len - n)]
  }

  function Initial(base: nat): State {
    State([Block(base, 0)], map[], {})
  }

  function Freed(s: State, h: nat): State
    requires Separated(s.ring) && h in s.live
  {
    State(Insert(s.ring, Below(s.ring, h), Block(h, s.live[h])), s.live - {h}, s.arena)
  }

  function Taken(s: State, i: nat, n: nat): State
    requires i < |s.ring| && n <= s.ring[i].len
  {
    State(Cut(s.ring, i, n), s.live[s.ring[i].End() - n := n], s.arena)
  }

  /** A fresh chunk of address space, before it is freed into the list. */
  function Acquired(s: State, v: nat, n: nat): State {
    State(s.ring, s.live[v := n], s.arena + Range(v, n))
  }

  ghost predicate FreshChunk(base: nat, s: State, v: nat, n: nat) {
    && n >= 1
    && Range(v, n) !! s.arena
    && !(v <= base <= v + n)
  }

  // ----- the free list as the maximal runs of free units

  ghost predicate MaximalRun(free: set<nat>, b: Block) {
    && b.len >= 1
    && Range(b.start, b.len) <= free
    && b.End() !in free
    && (b.start == 0 || b.start - 1 !in free)
  }

  lemma BlockUnits(ring: seq<Block>, i: nat, u: nat)
    requires i < |ring| && ring[i].start <= u < ring[i].End()
    ensures u in Units(ring)
  {
    assert u in Range(ring[i].start, ring[i].len);
  }

  lemma NothingJustOutside(ring: seq<Block>, i: nat)
    requires Separated(ring) && i < |ring| && ring[i].len >= 1
    ensures ring[i].End() !in Units(ring)
    ensures ring[i].start == 0 || ring[i].start - 1 !in Units(ring)
  {
    forall j | 0 <= j < |ring|
      ensures !(ring[j].start <= ring[i].End() < ring[j].End())
      ensures !(ring[j].start <= ring[i].start - 1 < ring[j].End())
    {
      assert j == i || j < i || i < j;
    }
  }

  /** A run of free units never straddles two list elements. */
  lemma RunInOneBlock(ring: seq<Block>, v: nat, n: nat) returns (i: nat)
    requires Separated(ring) && n >= 1
    requires Range(v, n) <= Units(ring)
    ensures i < |ring| && ring[i].start <= v && v + n <= ring[i].End()
  {
    assert v in Range(v, n);
    i :| i < |ring| && v in Range(ring[i].start, ring[i].len);
    NothingJustOutside(ring, i);
    assert ring[i].End() !in Range(v, n);
  }

  /** The non-empty list elements are exactly the maximal runs of free units. */
  lemma FreeBlocksAreMaximalRuns(ring: seq<Block>, b: Block)
    requires Separated(ring)
    ensures (b in ring && b.len >= 1) <==> MaximalRun(Units(ring), b)
  {
    if b in ring && b.len >= 1 {
      var i :| 0 <= i < |ring| && ring[i] == b;
      NothingJustOutside(ring, i);
      forall u | u in Range(b.start, b.len) ensures u in Units(ring) {
        BlockUnits(ring, i, u);
      }
    }
    if MaximalRun(Units(ring), b) {
      var i := RunInOneBlock(ring, b.start, b.len);
      if ring[i].start < b.start {
        BlockUnits(ring, i, b.start - 1);
      }
      if b.End() < ring[i].End() {
        BlockUnits(ring, i, b.End());
      }
      assert ring[i] == b;
    }
  }

  /** The first element of a sorted list has the lowest address of all. */
  lemma SortedFirst(r: seq<Block>, b: Block)
    requires Separated(r) && b in r
    ensures r[0].start <= b.start && (b.start == r[0].start ==> b == r[0])
  {
    var i :| 0 <= i < |r| && r[i] == b;
    if i > 0 {
      assert r[0].End() < r[i].start;
    }
  }

  lemma SortedRest(r: seq<Block>, b: Block)
    requires Separated(r) && r != []
    ensures Separated(r[1..]) && (b in r[1..] <==> b in r && b != r[0])
  {
    if b in r[1..] {
      var i :| 0 <= i < |r[1..]| && r[1..][i] == b;
      assert r[0].End() < r[i + 1].start;
    }
    assert r == [r[0]] + r[1..];
  }

  lemma {:induction false} SortedListUnique(r: seq<Block>, t: seq<Block>)
    requires Separated(r) && Separated(t)
    requires forall b :: b in r <==> b in t
    ensures r == t
    decreases |r|
  {
    hide Separated;
    assert t != [] ==> t[0] in r;
    if r == [] {
    } else {
      assert r[0] in t;
      SortedFirst(t, r[0]);
      SortedFirst(r, t[0]);
      assert r[0] == t[0];
      SortedRest(r, r[0]);
      SortedRest(t, t[0]);
      forall b ensures b in r[1..] <==> b in t[1..] {
        SortedRest(r, b);
        SortedRest(t, b);
      }
      SortedListUnique(r[1..], t[1..]);
      assert r == [r[0]] + r[1..] && t == [t[0]] + t[1..];
    }
  }

  /** The free list depends only on which blocks are live. */
  lemma FreeListDetermined(base: nat, s: State, t: State)
    requires Inv(base, s) && Inv(base, t)
    requires s.live == t.live && s.arena == t.arena
    ensures s.ring == t.ring
  {
    assert Units(s.ring) == s.arena - LiveUnits(s.live);
    assert Units(t.ring) == t.arena - LiveUnits(t.live);
    forall b ensures b in s.ring <==> b in t.ring {
      FreeBlocksAreMaximalRuns(s.ring, b);
      FreeBlocksAreMaximalRuns(t.ring, b);
    }
    SortedListUnique(s.ring, t.ring);
  }

  // ----- what each operation keeps

  /** A live block overlaps no free block and does not touch `base`. */
  lemma LiveBlockApart(base: nat, s: State, h: nat)
    requires Inv(base, s) && h in s.live
    ensures forall i :: 0 <= i < |s.ring| ==>
              (s.ring[i].End() <= h && s.ring[i].start < h) || h + s.live[h] <= s.ring[i].start
    ensures !(h <= base <= h + s.live[h])
  {
    var n := s.live[h];
    assert forall u: nat :: u in Range(h, n) ==> u in LiveUnits(s.live);
    assert base !in Range(h, n) && base - 1 !in Range(h, n);
    forall i | 0 <= i < |s.ring|
      ensures (s.ring[i].End() <= h && s.ring[i].start < h) || h + n <= s.ring[i].start
    {
      var b := s.ring[i];
      if b.len >= 1 {
        TailInUnits(s.ring, i, b.len);
        assert Range(b.start, b.len) !! Range(h, n);
        assert h in Range(h, n) && b.start in Range(b.start, b.len);
      }
    }
  }

  /** Ordered, and touching only inside positions `lo` to `hi`. */
  ghost predicate TouchesOnly(ring: seq<Block>, lo: int, hi: int) {
    forall i, j :: 0 <= i < j < |ring| ==>
      && ring[i].End() <= ring[j].start
      && (ring[i].End() == ring[j].start ==> lo <= i && j <= hi && j == i + 1)
  }

  ghost predicate Fits(ring: seq<Block>, b: Block, k: nat) {
    && k <= |ring| && b.len >= 1
    && (forall i :: 0 <= i < k ==> ring[i].End() <= b.start)
    && (forall i :: k <= i < |ring| ==> b.End() <= ring[i].start)
  }

  lemma JoinOrder(r: seq<Block>, lo: int, i: nat)
    requires TouchesOnly(r, lo, i + 1) && i + 1 < |r|
    ensures TouchesOnly(JoinAt(r, i), lo, i)
  {
  }

  lemma NoTouch(r: seq<Block>, lo: int, hi: int)
    requires TouchesOnly(r, lo, hi) && (hi <= lo || hi <= 0)
    ensures Separated(r)
  {
  }

  lemma JoinUnits(r: seq<Block>, i: nat)
    ensures Units(JoinAt(r, i)) == Units(r)
  {
    var t := JoinAt(r, i);
    if t != r {
      forall u: nat | u in Units(r) ensures u in Units(t) {
        var j: nat :| j < |r| && u in Range(r[j].start, r[j].len);
        BlockUnits(t, if j <= i then j else j - 1, u);
      }
      forall u: nat | u in Units(t) ensures u in Units(r) {
        var j: nat :| j < |t| && u in Range(t[j].start, t[j].len);
        if j < i { BlockUnits(r, j, u); }
        else if j > i { BlockUnits(r, j + 1, u); }
        else if u < r[i].End() { BlockUnits(r, i, u); }
        else { BlockUnits(r, i + 1, u); }
      }
    }
  }

  lemma PlaceUnits(ring: seq<Block>, k: nat, b: Block)
    requires k <= |ring|
    ensures Units(ring[..k] + [b] + ring[k..]) == Units(ring) + Range(b.start, b.len)
  {
    var t := ring[..k] + [b] + ring[k..];
    forall u: nat | u in Units(ring) ensures u in Units(t) {
      var j: nat :| j < |ring| && u in Range(ring[j].start, ring[j].len);
      BlockUnits(t, if j < k then j else j + 1, u);
    }
    forall u: nat | u in Range(b.start, b.len) ensures u in Units(t) {
      BlockUnits(t, k, u);
    }
    forall u: nat | u in Units(t) ensures u in Units(ring) + Range(b.start, b.len) {
      var j: nat :| j < |t| && u in Range(t[j].start, t[j].len);
      if j < k { BlockUnits(ring, j, u); }
      else if j > k { BlockUnits(ring, j - 1, u); }
    }
  }

  lemma JoinAnchored(base: nat, r: seq<Block>, i: nat)
    requires Anchored(base, r)
    requires i + 1 < |r| && r[i].End() == r[i + 1].start ==> r[i].len >= 1 && r[i + 1].len >= 1
    ensures Anchored(base, JoinAt(r, i))
  {
    var j :| 0 <= j < |r| && r[j] == Block(base, 0);
    var t := JoinAt(r, i);
    if t != r {
      assert t[if j <= i then j else j - 1] == r[j];
    }
  }

  lemma PlaceOrder(ring: seq<Block>, k: nat, b: Block)
    requires Separated(ring) && Fits(ring, b, k)
    ensures TouchesOnly(ring[..k] + [b] + ring[k..], k - 1, k + 1)
  {
    var r := ring[..k] + [b] + ring[k..];
    assert forall i :: 0 <= i < |r| ==> r[i] == if i < k then ring[i] else if i == k then b else ring[i - 1];
  }

  lemma PlaceAnchored(base: nat, ring: seq<Block>, k: nat, b: Block)
    requires Anchored(base, ring) && k <= |ring| && b.len >= 1
    ensures Anchored(base, ring[..k] + [b] + ring[k..])
  {
    var r := ring[..k] + [b] + ring[k..];
    var j :| 0 <= j < |ring| && ring[j] == Block(base, 0);
    assert r[if j < k then j else j + 1] == ring[j];
  }

  /** Joining upwards after placing `b` at `k`. */
  lemma JoinUpper(base: nat, ring: seq<Block>, k: nat, b: Block)
    requires Separated(ring) && Anchored(base, ring) && Fits(ring, b, k)
    requires !(b.start <= base <= b.End())
    ensures
      var r := JoinAt(ring[..k] + [b] + ring[k..], k);
      && |r| > k && r[k].start == b.start && r[k].len >= 1
      && (k > 0 ==> r[k - 1] == ring[k - 1])
      && TouchesOnly(r, k - 1, k) && Anchored(base, r)
      && Units(r) == Units(ring) + Range(b.start, b.len)
  {
    var r := ring[..k] + [b] + ring[k..];
    PlaceUnits(ring, k, b);
    PlaceOrder(ring, k, b);
    PlaceAnchored(base, ring, k, b);
    JoinUnits(r, k);
    assert k < |ring| ==> r[k + 1] == ring[k];
    JoinAnchored(base, r, k);
    if k + 1 < |r| { JoinOrder(r, k - 1, k); }
  }

  /** Inserting keeps the list sorted and fully coalesced, and adds exactly the
      units of the new block. */
  lemma InsertCorrect(base: nat, ring: seq<Block>, k: nat, b: Block)
    requires Separated(ring) && Anchored(base, ring) && Fits(ring, b, k)
    requires !(b.start <= base <= b.End())
    ensures Separated(Insert(ring, k, b))
    ensures Anchored(base, Insert(ring, k, b))
    ensures Units(Insert(ring, k, b)) == Units(ring) + Range(b.start, b.len)
  {
    hide Anchored, Units, TouchesOnly, Separated, JoinAt;
    JoinUpper(base, ring, k, b);
    if k > 0 {
      var r := JoinAt(ring[..k] + [b] + ring[k..], k);
      JoinUnits(r, k - 1);
      JoinAnchored(base, r, k - 1);
      JoinOrder(r, k - 1, k - 1);
      NoTouch(JoinAt(r, k - 1), k - 1, k - 1);
    } else {
      NoTouch(JoinAt(ring[..k] + [b] + ring[k..], k), k - 1, k);
    }
  }

  lemma TailInUnits(ring: seq<Block>, i: nat, n: nat)
    requires i < |ring| && n <= ring[i].len
    ensures Range(ring[i].End() - n, n) <= Units(ring)
  {
    forall u | u in Range(ring[i].End() - n, n) ensures u in Units(ring) {
      BlockUnits(ring, i, u);
    }
  }

  /** The tail of one block overlaps no other block. */
  lemma TailAlone(ring: seq<Block>, i: nat, n: nat, j: nat, u: nat)
    requires Separated(ring) && i < |ring| && j < |ring| && i != j && n <= ring[i].len
    requires ring[j].start <= u < ring[j].End()
    ensures u !in Range(ring[i].End() - n, n)
  {
    assert i < j || j < i;
  }

  lemma SkipAt(ring: seq<Block>, i: nat, j: nat)
    requires i < |ring| && j < |ring| - 1
    ensures (ring[..i] + ring[i + 1..])[j] == ring[if j < i then j else j + 1]
  {
  }

  lemma RemovedInside(ring: seq<Block>, i: nat, u: nat)
    requires Separated(ring) && i < |ring| && u in Units(ring[..i] + ring[i + 1..])
    ensures u in Units(ring) && u !in Range(ring[i].start, ring[i].len)
  {
    var t := ring[..i] + ring[i + 1..];
    var j: nat :| j < |t| && u in Range(t[j].start, t[j].len);
    SkipAt(ring, i, j);
    var j' := if j < i then j else j + 1;
    TailAlone(ring, i, ring[i].len, j', u);
    BlockUnits(ring, j', u);
  }

  lemma KeptInside(ring: seq<Block>, i: nat, u: nat)
    requires i < |ring| && u in Units(ring) && u !in Range(ring[i].start, ring[i].len)
    ensures u in Units(ring[..i] + ring[i + 1..])
  {
    var j: nat :| j < |ring| && u in Range(ring[j].start, ring[j].len);
    var j' := if j < i then j else j - 1;
    SkipAt(ring, i, j');
    BlockUnits(ring[..i] + ring[i + 1..], j', u);
  }

  lemma RemoveUnits(ring: seq<Block>, i: nat)
    requires Separated(ring) && i < |ring|
    ensures Units(ring[..i] + ring[i + 1..]) == Units(ring) - Range(ring[i].start, ring[i].len)
  {
    hide Separated, Units, Range;
    var t, range := ring[..i] + ring[i + 1..], Range(ring[i].start, ring[i].len);
    forall u: nat | u in Units(ring) && u !in range ensures u in Units(t) {
      KeptInside(ring, i, u);
    }
    forall u: nat | u in Units(t) ensures u in Units(ring) && u !in range {
      RemovedInside(ring, i, u);
    }
  }

  lemma ShrinkUnits(ring: seq<Block>, i: nat, n: nat)
    requires Separated(ring) && i < |ring| && n <= ring[i].len
    ensures Units(ring[i := Block(ring[i].start, ring[i].len - n)]) == Units(ring) - Range(ring[i].End() - n, n)
  {
    var t := ring[i := Block(ring[i].start, ring[i].len - n)];
    forall u: nat | u in Units(ring) && u !in Range(ring[i].End() - n, n) ensures u in Units(t) {
      var j: nat :| j < |ring| && u in Range(ring[j].start, ring[j].len);
      BlockUnits(t, j, u);
    }
    forall u: nat | u in Units(t) ensures u in Units(ring) && u !in Range(ring[i].End() - n, n) {
      var j: nat :| j < |t| && u in Range(t[j].start, t[j].len);
      if j != i {
        TailAlone(ring, i, n, j, u);
      }
      BlockUnits(ring, j, u);
    }
  }

  lemma CutUnits(ring: seq<Block>, i: nat, n: nat)
    requires Separated(ring) && i < |ring| && 1 <= n <= ring[i].len
    ensures Units(Cut(ring, i, n)) == Units(ring) - Range(ring[i].End() - n, n)
  {
    if ring[i].len == n {
      RemoveUnits(ring, i);
    } else {
      ShrinkUnits(ring, i, n);
    }
  }

  lemma CutOrder(ring: seq<Block>, i: nat, n: nat)
    requires Separated(ring) && i < |ring| && 1 <= n <= ring[i].len
    ensures Separated(Cut(ring, i, n))
  {
    var t := Cut(ring, i, n);
    if ring[i].len == n {
      assert forall j :: 0 <= j < |t| ==> t[j] == ring[if j < i then j else j + 1];
    }
  }

  lemma CutAnchored(base: nat, ring: seq<Block>, i: nat, n: nat)
    requires Anchored(base, ring) && i < |ring| && 1 <= n <= ring[i].len
    ensures Anchored(base, Cut(ring, i, n))
  {
    var t := Cut(ring, i, n);
    var j :| 0 <= j < |ring| && ring[j] == Block(base, 0);
    assert t[if ring[i].len == n && j > i then j - 1 else j] == ring[j];
  }

  lemma AddLiveApart(live: map<nat, nat>, h: nat, n: nat)
    requires LiveApart(live) && n >= 1 && Range(h, n) !! LiveUnits(live)
    ensures LiveApart(live[h := n]) && h !in live
  {
    assert h in Range(h, n);
    assert h in live ==> h in Range(h, live[h]);
    forall g | g in live && g != h ensures if g < h then g + live[g] <= h else h + n <= g {
      assert g in Range(g, live[g]);
      assert h in Range(g, live[g]) <==> g <= h < g + live[g];
      assert g in Range(h, n) <==> h <= g < h + n;
    }
  }

  lemma AddLiveUnits(live: map<nat, nat>, h: nat, n: nat)
    requires h !in live
    ensures LiveUnits(live[h := n]) == LiveUnits(live) + Range(h, n)
  {
    var l := live[h := n];
    forall u | u in LiveUnits(live) ensures u in LiveUnits(l) {
      var g: nat :| g in live && u in Range(g, live[g]);
      assert g in l && u in Range(g, l[g]);
    }
    forall u | u in Range(h, n) ensures u in LiveUnits(l) {
      assert h in l && u in Range(h, l[h]);
    }
    forall u | u in LiveUnits(l) ensures u in LiveUnits(live) + Range(h, n) {
      var g: nat :| g in l && u in Range(g, l[g]);
      assert g == h || (g in live && l[g] == live[g]);
    }
  }

  lemma DropLive(live: map<nat, nat>, h: nat)
    requires LiveApart(live) && h in live
    ensures LiveApart(live - {h})
    ensures LiveUnits(live - {h}) == LiveUnits(live) - Range(h, live[h])
    ensures Range(h, live[h]) <= LiveUnits(live)
  {
    var l := live - {h};
    forall u | u in LiveUnits(live) && u !in Range(h, live[h]) ensures u in LiveUnits(l) {
      var g: nat :| g in live && u in Range(g, live[g]);
      assert g in l && u in Range(g, l[g]);
    }
    forall u | u in LiveUnits(l) ensures u !in Range(h, live[h]) && u in LiveUnits(live) {
      var g: nat :| g in l && u in Range(g, l[g]);
      assert g in live && live[g] == l[g];
    }
  }

  // ----- every step keeps the invariant

  lemma InitialInv(base: nat)
    requires base >= 1
    ensures Inv(base, Initial(base))
  {
    var r := [Block(base, 0)];
    assert forall i: nat :: i < |r| ==> Range(r[i].start, r[i].len) == {};
    assert Units(r) == {};
  }

  lemma FreedInv(base: nat, s: State, h: nat)
    requires Inv(base, s) && h in s.live
    ensures Inv(base, Freed(s, h))
    ensures Units(Freed(s, h).ring) == Units(s.ring) + Range(h, s.live[h])
  {
    LiveBlockApart(base, s, h);
    InsertCorrect(base, s.ring, Below(s.ring, h), Block(h, s.live[h]));
    DropLive(s.live, h);
  }

  lemma HandOver(base: nat, s: State, t: State, units: set<nat>)
    requires Inv(base, s) && s.arena == t.arena
    requires Separated(t.ring) && Anchored(base, t.ring) && LiveApart(t.live)
    requires units <= Units(s.ring)
    requires LiveUnits(t.live) == LiveUnits(s.live) + units
    requires Units(t.ring) == Units(s.ring) - units
    ensures Inv(base, t)
  {
  }

  lemma TakenInv(base: nat, s: State, i: nat, n: nat)
    requires Inv(base, s) && i < |s.ring| && 1 <= n <= s.ring[i].len
    ensures Inv(base, Taken(s, i, n))
    ensures Units(Taken(s, i, n).ring) == Units(s.ring) - Range(s.ring[i].End() - n, n)
    ensures s.ring[i].End() - n !in s.live
  {
    var h := s.ring[i].End() - n;
    TailInUnits(s.ring, i, n);
    CutUnits(s.ring, i, n);
    CutOrder(s.ring, i, n);
    CutAnchored(base, s.ring, i, n);
    AddLiveApart(s.live, h, n);
    AddLiveUnits(s.live, h, n);
    var t := Taken(s, i, n);
    assert t.ring == Cut(s.ring, i, n) && t.live == s.live[h := n];
    HandOver(base, s, t, Range(h, n));
  }

  lemma AcquiredInv(base: nat, s: State, v: nat, n: nat)
    requires Inv(base, s) && FreshChunk(base, s, v, n)
    ensures Inv(base, Acquired(s, v, n)) && v !in s.live
  {
    AddLiveApart(s.live, v, n);
    AddLiveUnits(s.live, v, n);
  }

  // ----- whole runs

  /** One observable step: a live block freed, a block cut from a free one, or a
      fresh chunk acquired and freed into the list. */
  ghost predicate Step(base: nat, s: State, t: State)
    requires Inv(base, s)
  {
    || (exists h :: h in s.live && t == Freed(s, h))
    || (exists i: nat, n: nat :: i < |s.ring| && 1 <= n <= s.ring[i].len && t == Taken(s, i, n))
    || (exists v: nat, n: nat :: FreshChunk(base, s, v, n) && t == Grown(s, v, n))
  }

  function Grown(s: State, v: nat, n: nat): State
    requires Separated(s.ring)
  {
    Freed(Acquired(s, v, n), v)
  }

  lemma GrownInv(base: nat, s: State, v: nat, n: nat)
    requires Inv(base, s) && FreshChunk(base, s, v, n)
    ensures Inv(base, Grown(s, v, n))
    ensures Grown(s, v, n).live == s.live
    ensures Grown(s, v, n).arena == s.arena + Range(v, n)
    ensures Units(Grown(s, v, n).ring) == Units(s.ring) + Range(v, n)
  {
    AcquiredInv(base, s, v, n);
    FreedInv(base, Acquired(s, v, n), v);
    assert s.live[v := n] - {v} == s.live;
  }

  lemma StepInv(base: nat, s: State, t: State)
    requires Inv(base, s) && Step(base, s, t)
    ensures Inv(base, t) && s.arena <= t.arena
  {
    if h :| h in s.live && t == Freed(s, h) {
      FreedInv(base, s, h);
    } else if i: nat, n: nat :| i < |s.ring| && 1 <= n <= s.ring[i].len && t == Taken(s, i, n) {
      TakenInv(base, s, i, n);
    } else {
      var v: nat, n: nat :| FreshChunk(base, s, v, n) && t == Grown(s, v, n);
      GrownInv(base, s, v, n);
    }
  }

  ghost predicate IsRun(base: nat, run: seq<State>) {
    && |run| >= 1
    && run[0] == Initial(base)
    && forall k :: 0 <= k < |run| - 1 ==> Inv(base, run[k]) ==> Step(base, run[k], run[k + 1])
  }

  /** In every state of every run: one sorted, fully coalesced list through
      `base`, and free and live blocks that partition the acquired units. */
  lemma {:induction false} EveryRunKeepsInv(base: nat, run: seq<State>, k: nat)
    requires base >= 1 && IsRun(base, run) && k < |run|
    ensures Inv(base, run[k])
  {
    if k == 0 {
      InitialInv(base);
    } else {
      EveryRunKeepsInv(base, run, k - 1);
      StepInv(base, run[k - 1], run[k]);
    }
  }

  /** Two runs, however different, that end with the same live blocks and the
      same acquired units end with the same free list. */
  lemma RunsAgree(base: nat, run: seq<State>, run': seq<State>)
    requires base >= 1 && IsRun(base, run) && IsRun(base, run')
    requires run[|run| - 1].live == run'[|run'| - 1].live
    requires run[|run| - 1].arena == run'[|run'| - 1].arena
    ensures run[|run| - 1] == run'[|run'| - 1]
  {
    EveryRunKeepsInv(base, run, |run| - 1);
    EveryRunKeepsInv(base, run', |run'| - 1);
    FreeListDetermined(base, run[|run| - 1], run'[|run'| - 1]);
  }

  /** Freeing a block just cut from the list restores the list element for element. */
  lemma FreeUndoesTake(base: nat, s: State, i: nat, n: nat)
    requires Inv(base, s) && i < |s.ring| && 1 <= n <= s.ring[i].len
    ensures Inv(base, Taken(s, i, n))
    ensures Freed(Taken(s, i, n), s.ring[i].End() - n) == s
  {
    TakenInv(base, s, i, n);
    var h := s.ring[i].End() - n;
    var t := Taken(s, i, n);
    FreedInv(base, t, h);
    assert t.live - {h} == s.live;
    FreeListDetermined(base, Freed(t, h), s);
  }

  ghost predicate HasFit(ring: seq<Block>, n: nat) {
    exists i :: 0 <= i < |ring| && ring[i].len >= n
  }

  /** After growth a fit exists, whether the chunk stood alone or was joined. */
  lemma GrownFits(base: nat, s: State, v: nat, n: nat)
    requires Inv(base, s) && FreshChunk(base, s, v, n)
    ensures HasFit(Grown(s, v, n).ring, n)
  {
    GrownInv(base, s, v, n);
    var i := RunInOneBlock(Grown(s, v, n).ring, v, n);
  }
}
