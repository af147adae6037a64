/** The kernel heap in memory: kmalloc, kfree and heap growth over header fields
    that are relinked and resized in place. */
module KernelHeap {
  import opened Wrappers
  import opened HeapSpec

  const WORD: nat := 0x1_0000_0000
  const HEADER_BYTES: nat := 8
  const FRAME_BYTES: nat := 0x1000
  const MIN_BLOCK_SIZE: nat := 1024

  /** Units for a request, in 32-bit arithmetic: the payload and one header. */
  function UnitsFor(nbytes: nat): (n: nat)
    ensures n >= 1
  {
    (nbytes + HEADER_BYTES - 1) % WORD / HEADER_BYTES + 1
  }

  function DivCeil(num: nat, den: nat): nat
    requires den > 0
  {
    (num - 1) % WORD / den + 1
  }

  /** Page frames asked for when the heap grows for `nunits` units. */
  function ChunkFrames(nunits: nat): nat {
    var n := if nunits < MIN_BLOCK_SIZE then MIN_BLOCK_SIZE else nunits;
    DivCeil(n * HEADER_BYTES % WORD, FRAME_BYTES)
  }

  function ChunkUnits(nunits: nat): nat {
    ChunkFrames(nunits) * FRAME_BYTES % WORD / HEADER_BYTES
  }

  /** The payload of the block holds the request exactly when adding the rounding
      term does not overflow 32 bits. */
  lemma PayloadHoldsRequest(nbytes: nat)
    requires nbytes < WORD
    ensures HEADER_BYTES * (UnitsFor(nbytes) - 1) >= nbytes <==> nbytes <= WORD - HEADER_BYTES
  {
  }

  /** No unit is wasted: one fewer would not hold the request. */
  lemma UnitsMinimal(nbytes: nat)
    requires 0 < nbytes <= WORD - HEADER_BYTES
    ensures 8 * (UnitsFor(nbytes) - 2) < nbytes <= 8 * (UnitsFor(nbytes) - 1)
  {
  }

  /** The heap grows by the fewest pages that hold the request, and 1024 units at least. */
  lemma ChunkMinimal(nunits: nat)
    requires 1 <= nunits < 0x1FFF_FFFF
    ensures
      var bytes := 8 * if nunits < 1024 then 1024 else nunits;
      (ChunkFrames(nunits) - 1) * 4096 < bytes <= ChunkFrames(nunits) * 4096
  {
    var n := if nunits < 1024 then 1024 else nunits;
    SmallMod(8 * n);
  }

  /** A chunk that lies inside the 4 GB address space and does not start at address
      zero is large enough for the request it was acquired for. */
  lemma ChunkLargeEnough(nbytes: nat, v: nat)
    requires nbytes < WORD && v > 0
    requires v * HEADER_BYTES + ChunkFrames(UnitsFor(nbytes)) * FRAME_BYTES <= WORD
    ensures ChunkUnits(UnitsFor(nbytes)) >= UnitsFor(nbytes)
    ensures ChunkUnits(UnitsFor(nbytes)) * HEADER_BYTES == ChunkFrames(UnitsFor(nbytes)) * FRAME_BYTES
  {
    hide DivCeil;
    var nunits := UnitsFor(nbytes);
    var n := if nunits < MIN_BLOCK_SIZE then MIN_BLOCK_SIZE else nunits;
    UnitsBound(nbytes);
    FramesCover(n);
    WholeUnits(ChunkFrames(nunits));
  }

  lemma UnitsBound(nbytes: nat)
    ensures 1 <= UnitsFor(nbytes) <= 0x2000_0000
  {
  }

  lemma WholeUnits(frames: nat)
    requires frames * FRAME_BYTES < WORD
    ensures frames * FRAME_BYTES % WORD / HEADER_BYTES * HEADER_BYTES == frames * FRAME_BYTES
  {
    var bytes := frames * FRAME_BYTES;
    assert bytes == HEADER_BYTES * (512 * frames);
    SmallMod(bytes);
    EightTimes(512 * frames);
  }

  lemma SmallMod(n: nat)
    requires n < WORD
    ensures n % WORD == n
  {
  }

  lemma EightTimes(n: nat)
    ensures HEADER_BYTES * n / HEADER_BYTES == n
  {
  }

  lemma FramesCover(n: nat)
    requires 1 <= n <= 0x2000_0000
    ensures
      var bytes := DivCeil(n * HEADER_BYTES % WORD, FRAME_BYTES) * FRAME_BYTES;
      bytes < WORD ==> n * HEADER_BYTES <= bytes
  {
    if n == 0x2000_0000 {
      assert n * HEADER_BYTES % WORD == 0;
    } else {
      assert n * HEADER_BYTES % WORD == n * HEADER_BYTES;
    }
  }

  // ----- the links in memory

  ghost predicate LinkAt(ring: seq<Block>, next: map<int, int>, size: map<int, int>, i: nat)
    requires i < |ring|
  {
    && ring[i].start in next
    && next[ring[i].start] == ring[Next(i, |ring|)].start
    && ring[i].start in size
    && size[ring[i].start] == ring[i].len
  }

  ghost predicate Linked(ring: seq<Block>, next: map<int, int>, size: map<int, int>) {
    forall i :: 0 <= i < |ring| ==> LinkAt(ring, next, size, i)
  }

  /** The list element in front of position `k`, cyclically. */
  function Front(k: nat, n: nat): nat
    requires n > 0
  {
    if k == 0 then n - 1 else k - 1
  }

  lemma LinkPlace(ring: seq<Block>, next: map<int, int>, size: map<int, int>, k: nat, b: Block, p: int, q: int)
    requires Linked(ring, next, size) && |ring| > 0 && k <= |ring|
    requires forall i, j :: 0 <= i < j < |ring| ==> ring[i].start != ring[j].start
    requires forall i :: 0 <= i < |ring| ==> ring[i].start != b.start
    requires b.start in size && size[b.start] == b.len
    requires p == ring[Front(k, |ring|)].start && p in next && next[p] == q
    ensures Linked(ring[..k] + [b] + ring[k..], next[b.start := q][p := b.start], size)
  {
    var n := |ring|;
    var t := ring[..k] + [b] + ring[k..];
    var next' := next[b.start := q][p := b.start];
    assert LinkAt(ring, next, size, Front(k, n));
    forall i | 0 <= i < |t| ensures LinkAt(t, next', size, i) {
      if i != k {
        var j := if i < k then i else i - 1;
        assert t[i] == ring[j] && LinkAt(ring, next, size, j);
      }
    }
  }

  lemma LinkJoin(ring: seq<Block>, next: map<int, int>, size: map<int, int>, i: nat, p: int, q: int)
    requires Linked(ring, next, size) && i + 1 < |ring| && ring[i].End() == ring[i + 1].start
    requires forall i, j :: 0 <= i < j < |ring| ==> ring[i].start != ring[j].start
    requires p == ring[i].start && q == ring[i + 1].start
    requires p in size && q in size && q in next
    ensures Linked(JoinAt(ring, i), next[p := next[q]], size[p := size[p] + size[q]])
  {
    var t := JoinAt(ring, i);
    var next', size' := next[p := next[q]], size[p := size[p] + size[q]];
    assert LinkAt(ring, next, size, i) && LinkAt(ring, next, size, i + 1);
    forall m | 0 <= m < |t| ensures LinkAt(t, next', size', m) {
      if m != i {
        var j := if m < i then m else m + 1;
        assert t[m] == ring[j] && LinkAt(ring, next, size, j);
      }
    }
  }

  ghost predicate Sized(live: map<nat, nat>, size: map<int, int>) {
    forall h :: h in live ==> h in size && size[h] == live[h]
  }

  ghost predicate Distinct(ring: seq<Block>) {
    forall i, j :: 0 <= i < j < |ring| ==> ring[i].start != ring[j].start
  }

  /** Where a detached block may go: position `k`, clear of `base`. */
  ghost predicate Placeable(base: nat, ring: seq<Block>, k: nat, b: Block) {
    && Separated(ring)
    && Anchored(base, ring)
    && Fits(ring, b, k)
    && !(b.start <= base <= b.End())
  }

  /** What kfree's comparisons against `p` and `p->next` decide. */
  lemma Neighbours(base: nat, ring: seq<Block>, next: map<int, int>, size: map<int, int>, k: nat, b: Block, p: int)
    requires Placeable(base, ring, k, b) && Linked(ring, next, size)
    requires |ring| > 0 && p == ring[Front(k, |ring|)].start
    ensures Distinct(ring) && forall i :: 0 <= i < |ring| ==> ring[i].start != b.start
    ensures p in next && p in size && next[p] in next && next[p] in size
    ensures next[p] == ring[if k == |ring| then 0 else k].start && size[p] == ring[Front(k, |ring|)].len
    ensures b.End() == next[p] <==> k < |ring| && b.End() == ring[k].start
    ensures b.End() == next[p] ==> |ring| >= 2
    ensures p + size[p] == b.start <==> k > 0 && ring[k - 1].End() == b.start
  {
    var n := |ring|;
    assert LinkAt(ring, next, size, Front(k, n));
    var i := Next(Front(k, n), n);
    assert i == if k == n then 0 else k;
    assert LinkAt(ring, next, size, i);
    var j :| 0 <= j < n && ring[j] == Block(base, 0);
  }

  lemma UpperShape(ring: seq<Block>, k: nat, b: Block)
    requires |ring| > 0 && k <= |ring| && Distinct(ring)
    requires forall i :: 0 <= i < |ring| ==> ring[i].start != b.start
    requires k < |ring| && b.End() == ring[k].start ==> |ring| >= 2
    ensures
      var r := JoinAt(ring[..k] + [b] + ring[k..], k);
      && Distinct(r)
      && (if k > 0 then k < |r| && r[k - 1] == ring[k - 1] && r[k].start == b.start
          else |r| > 1 && r[|r| - 1].start == ring[|ring| - 1].start)
  {
    PlaceDistinct(ring, k, b);
    var r := ring[..k] + [b] + ring[k..];
    JoinDistinct(r, k);
    hide Distinct;
    assert k < |ring| ==> r[k + 1] == ring[k];
  }

  lemma PlaceDistinct(ring: seq<Block>, k: nat, b: Block)
    requires k <= |ring| && Distinct(ring) && forall i :: 0 <= i < |ring| ==> ring[i].start != b.start
    ensures Distinct(ring[..k] + [b] + ring[k..])
  {
  }

  lemma JoinDistinct(r: seq<Block>, i: nat)
    requires Distinct(r)
    ensures Distinct(JoinAt(r, i))
  {
    var t := JoinAt(r, i);
    if t != r {
      assert forall j :: 0 <= j < |t| ==> t[j].start == r[if j <= i then j else j + 1].start;
    }
  }

  /** Joining a placed block upwards, in the list and in memory alike. */
  lemma UpperLinks(ring: seq<Block>, next: map<int, int>, size: map<int, int>, k: nat, b: Block, p: int, nx: int,
                   sz: int)
    requires Linked(ring, next, size) && |ring| > 0 && k <= |ring| && Distinct(ring)
    requires forall i :: 0 <= i < |ring| ==> ring[i].start != b.start
    requires b.start in size && size[b.start] == b.len
    requires p == ring[Front(k, |ring|)].start && p in next && next[p] in next && next[p] in size
    requires b.End() == next[p] <==> k < |ring| && b.End() == ring[k].start
    requires b.End() == next[p] ==> |ring| >= 2
    requires nx == if b.End() == next[p] then next[next[p]] else next[p]
    requires sz == if b.End() == next[p] then b.len + size[next[p]] else b.len
    ensures Linked(JoinAt(ring[..k] + [b] + ring[k..], k), next[b.start := nx][p := b.start], size[b.start := sz])
  {
    var q, h := next[p], b.start;
    LinkPlace(ring, next, size, k, b, p, q);
    var r := ring[..k] + [b] + ring[k..];
    var next1 := next[h := q][p := h];
    assert Distinct(r);
    if b.End() == q {
      assert r[k + 1] == ring[k];
      assert LinkAt(ring, next, size, Front(k, |ring|));
      assert p != q;
      LinkJoin(r, next1, size, k, h, q);
      assert next1[h := next1[q]] == next[h := nx][p := h];
    } else {
      RewriteSame(size, h);
    }
  }

  lemma LowerLinks(r: seq<Block>, next: map<int, int>, size: map<int, int>, k: nat, p: int, h: nat)
    requires Distinct(r) && Linked(r, next, size)
    requires if k > 0 then k < |r| && r[k - 1].start == p && r[k].start == h else |r| > 1 && r[|r| - 1].start == p
    requires p in size && h in size && h in next
    ensures
      var t := if k == 0 then r else JoinAt(r, k - 1);
      var down := k > 0 && r[k - 1].End() == h;
      && |t| > 0 && Front(k, |t|) < |t| && t[Front(k, |t|)].start == p
      && (down ==> Linked(t, next[p := next[h]], size[p := size[p] + size[h]]))
      && (!down ==> Linked(t, next, size))
  {
    if k > 0 && r[k - 1].End() == h {
      LinkJoin(r, next, size, k - 1, p, h);
    }
  }

  lemma RewriteSame(m: map<int, int>, a: int)
    requires a in m
    ensures m[a := m[a]] == m
  {
  }

  lemma RewriteTwice(m: map<int, int>, a: int, x: int, b: int, y: int, z: int)
    ensures m[a := x][b := y][b := z] == m[a := x][b := z]
  {
  }

  ghost predicate FreedMemory(t: seq<Block>, k: nat, p: int, next: map<int, int>, size: map<int, int>) {
    && |t| > 0
    && Front(k, |t|) < |t|
    && t[Front(k, |t|)].start == p
    && Linked(t, next, size)
  }

  /** Joining downwards as well: the memory kfree leaves behind links exactly the
      list with the block inserted, and `p` is still on it. */
  lemma FreedLinks(base: nat, ring: seq<Block>, next: map<int, int>, size: map<int, int>, k: nat, b: Block, p: int,
                   nx: int, sz: int)
    requires Placeable(base, ring, k, b) && Linked(ring, next, size)
    requires b.start in size && size[b.start] == b.len
    requires |ring| > 0 && p == ring[Front(k, |ring|)].start
    requires p in next && p in size && next[p] in next && next[p] in size
    requires nx == if b.End() == next[p] then next[next[p]] else next[p]
    requires sz == if b.End() == next[p] then b.len + size[next[p]] else b.len
    ensures p + size[p] == b.start ==>
              FreedMemory(Insert(ring, k, b), k, p, next[b.start := nx][p := nx],
                          size[b.start := sz][p := size[p] + sz])
    ensures p + size[p] != b.start ==>
              FreedMemory(Insert(ring, k, b), k, p, next[b.start := nx][p := b.start], size[b.start := sz])
  {
    hide Separated, Anchored, Linked, Distinct, JoinAt;
    Neighbours(base, ring, next, size, k, b, p);
    var h := b.start;
    UpperLinks(ring, next, size, k, b, p, nx, sz);
    UpperShape(ring, k, b);
    var r := JoinAt(ring[..k] + [b] + ring[k..], k);
    LowerLinks(r, next[h := nx][p := h], size[h := sz], k, p, h);
    RewriteTwice(next, h, nx, p, h, nx);
  }

  /** How many steps along the ring lead from position `i` to position `j`. */
  function Distance(i: nat, j: nat, n: nat): nat
    requires i < n && j < n
  {
    if i <= j then j - i else n - i + j
  }

  /** A free header is not the header of a live block. */
  lemma HeadersApart(base: nat, s: State, i: nat, h: nat)
    requires Inv(base, s) && i < |s.ring| && h in s.live
    ensures s.ring[i].start != h
  {
    LiveBlockApart(base, s, h);
  }

  lemma HeadersNonNull(base: nat, s: State, i: nat)
    requires Inv(base, s) && 0 !in s.arena && i < |s.ring|
    ensures s.ring[i].start != 0
  {
    if s.ring[i].len >= 1 {
      BlockUnits(s.ring, i, s.ring[i].start);
    }
  }

  /** Taking a whole block: its predecessor is linked past it. */
  lemma UnlinkWhole(ring: seq<Block>, next: map<int, int>, size: map<int, int>, i: nat, p: int, q: int)
    requires Linked(ring, next, size) && Distinct(ring) && i < |ring| && |ring| >= 2
    requires p == ring[Prev(i, |ring|)].start && q == ring[Next(i, |ring|)].start
    ensures Linked(ring[..i] + ring[i + 1..], next[p := q], size)
  {
    var t := ring[..i] + ring[i + 1..];
    var next' := next[p := q];
    forall m | 0 <= m < |t| ensures LinkAt(t, next', size, m) {
      var j := if m < i then m else m + 1;
      assert t[m] == ring[j] && LinkAt(ring, next, size, j);
    }
  }

  /** Taking the tail of a block: only sizes change. */
  lemma ShrinkBlock(ring: seq<Block>, next: map<int, int>, size: map<int, int>, i: nat, n: nat, h: int)
    requires Linked(ring, next, size) && Separated(ring) && i < |ring| && 1 <= n < ring[i].len
    requires h == ring[i].End() - n
    ensures Linked(Cut(ring, i, n), next, size[ring[i].start := ring[i].len - n][h := n])
  {
    var t := Cut(ring, i, n);
    var size' := size[ring[i].start := ring[i].len - n][h := n];
    forall m | 0 <= m < |t| ensures LinkAt(t, next, size', m) {
      assert LinkAt(ring, next, size, m);
      assert t[m].start == ring[m].start;
      assert m < i || m == i || i < m;
    }
  }

  /** The search of kfree stops at the right element and nowhere else. */
  lemma SearchStops(base: nat, ring: seq<Block>, k: nat, b: Block, i: nat)
    requires Placeable(base, ring, k, b) && i < |ring|
    ensures
      var p, q := ring[i].start, ring[Next(i, |ring|)].start;
      Around(p, b.start, q) <==> i == Front(k, |ring|)
  {
    assert forall j :: 0 <= j < |ring| && ring[j].len == 0 ==> ring[j].start == base;
    assert forall j :: 0 <= j < |ring| ==> (ring[j].start < b.start <==> j < k);
  }

  lemma LivePlaceable(base: nat, s: State, h: nat)
    requires Inv(base, s) && h in s.live
    ensures Placeable(base, s.ring, Below(s.ring, h), Block(h, s.live[h]))
  {
    LiveBlockApart(base, s, h);
  }

  /** A fresh chunk's header is on no list. */
  lemma ChunkHeader(base: nat, s: State, next: map<int, int>, size: map<int, int>, v: nat, n: nat)
    requires Inv(base, s) && FreshChunk(base, s, v, n) && Linked(s.ring, next, size) && Sized(s.live, size)
    ensures Linked(s.ring, next, size[v := n]) && Sized(s.live[v := n], size[v := n])
  {
    assert v in Range(v, n);
    forall i | 0 <= i < |s.ring| ensures s.ring[i].start != v {
      if s.ring[i].len >= 1 {
        BlockUnits(s.ring, i, s.ring[i].start);
      }
    }
    var size' := size[v := n];
    forall i | 0 <= i < |s.ring| ensures LinkAt(s.ring, next, size', i) {
      assert LinkAt(s.ring, next, size, i);
    }
  }

  /** Position `j` lies strictly between `f` and `i` on the way round the ring;
      `i == f` means a whole lap. */
  predicate Passed(f: nat, i: nat, j: nat) {
    if f < i then f < j < i else f < j || j < i
  }

  function LapLeft(f: nat, i: nat, n: nat): nat
    requires f < n && i < n
  {
    if f < i then n - (i - f) else f - i
  }

  /** Position `i` is the first fitting one met on the way round from `f`. */
  ghost predicate FirstFit(ring: seq<Block>, f: nat, n: nat, i: nat) {
    && i < |ring|
    && ring[i].len >= n
    && forall j :: 0 <= j < |ring| && Passed(f, i, j) ==> ring[j].len < n
  }

  /** A request served from the list as it was, by first fit from position `f`; the next
      search starts at `fp`, the element in front of the one served. */
  ghost predicate ServedFrom(s: State, f: nat, n: nat, t: State, r: int, fp: int) {
    exists i: nat ::
      && FirstFit(s.ring, f, n, i) && t == Taken(s, i, n) && r == s.ring[i].End() - n + 1
      && fp == s.ring[if i == 0 then |s.ring| - 1 else i - 1].start
  }

  /** Element `p` of the list is the one in front of address `h`, and `q` the next one:
      `h` lies between them, or outside both where the list wraps around. */
  predicate Around(p: int, h: int, q: int) {
    p < h < q || (p >= q && (h > p || h < q))
  }

  ghost predicate InFront(ring: seq<Block>, h: int, p: int) {
    exists i :: 0 <= i < |ring| && ring[i].start == p && Around(p, h, ring[Next(i, |ring|)].start)
  }

  /** A request served after growth by `k` units at `v`, by first fit from the element in
      front of the new chunk. */
  ghost predicate ServedGrown(s: State, v: nat, k: nat, n: nat, t: State, r: int, fp: int) {
    && Separated(s.ring)
    && exists f: nat ::
         && f < |Grown(s, v, k).ring| && InFront(s.ring, v, Grown(s, v, k).ring[f].start)
         && ServedFrom(Grown(s, v, k), f, n, t, r, fp)
  }

  lemma LapShowsNoFit(ring: seq<Block>, f: nat, n: nat)
    requires f < |ring| && ring[f].len < n
    requires forall j :: 0 <= j < |ring| && Passed(f, f, j) ==> ring[j].len < n
    ensures !HasFit(ring, n)
  {
  }

  class KernelHeap {
    /** The unit address of the static header that anchors the list. */
    const base: nat
    /** Where searches start; 0 until the first request. */
    var freep: int
    /** The two header fields, by unit address. */
    var next: map<int, int>
    var size: map<int, int>

    ghost var s: State
    ghost var at: nat

    ghost predicate Valid()
      reads this
    {
      && Inv(base, s)
      && 0 !in s.arena
      && if freep == 0 then s == Initial(base)
         else Ready()
    }

    ghost predicate Ready()
      reads this
    {
      && at < |s.ring|
      && freep == s.ring[at].start
      && Linked(s.ring, next, size)
      && Sized(s.live, size)
    }

    constructor (base: nat)
      requires base >= 1
      ensures Valid() && this.base == base && s == Initial(base)
    {
      this.base := base;
      freep := 0;
      next, size := map[], map[];
      s := Initial(base);
      at := 0;
      new;
      InitialInv(base);
    }

    ghost predicate Detached(k: nat, b: Block)
      reads this
    {
      && Ready()
      && Placeable(base, s.ring, k, b)
      && b.start in size && size[b.start] == b.len
    }

    /** The search of kfree: the list element after which `bp` belongs. */
    method FindFront(bp: nat, ghost k: nat, ghost b: Block) returns (p: int)
      requires Detached(k, b) && b.start == bp
      ensures |s.ring| > 0 && p == s.ring[Front(k, |s.ring|)].start
    {
      p := freep;
      ghost var n := |s.ring|;
      ghost var i: nat := at;
      assert LinkAt(s.ring, next, size, i);
      SearchStops(base, s.ring, k, b, i);
      while !(bp > p && bp < next[p])
        invariant i < n && p == s.ring[i].start && LinkAt(s.ring, next, size, i)
        invariant
          var q := s.ring[Next(i, n)].start;
          Around(p, bp, q) <==> i == Front(k, n)
        decreases Distance(i, Front(k, n), n)
      {
        if p >= next[p] && (bp > p || bp < next[p]) {
          break;
        }
        p := next[p];
        i := Next(i, n);
        assert LinkAt(s.ring, next, size, i);
        SearchStops(base, s.ring, k, b, i);
      }
    }
  
    /** The pointer surgery of kfree, as the code performs it on the fields. */
    method JoinFields(bp: int, p: int)
      requires p in next && p in size && bp in size && next[p] in next && next[p] in size && bp != p && bp != next[p]
      modifies `next, `size
      ensures
        var q := old(next)[p];
        var up := bp + old(size)[bp] == q;
        var nx := if up then old(next)[q] else q;
        var sz := if up then old(size)[bp] + old(size)[q] else old(size)[bp];
        if p + old(size)[p] == bp
        then next == old(next)[bp := nx][p := nx] && size == old(size)[bp := sz][p := old(size)[p] + sz]
        else next == old(next)[bp := nx][p := bp] && size == old(size)[bp := sz]
    {
      if bp + size[bp] == next[p] {
        size := size[bp := size[bp] + size[next[p]]];
        next := next[bp := next[next[p]]];
      } else {
        next := next[bp := next[p]];
        RewriteSame(size, bp);
      }
      if p + size[p] == bp {
        size := size[p := size[p] + size[bp]];
        next := next[p := next[bp]];
      } else {
        next := next[p := bp];
      }
    }

    /** The same surgery seen as an insertion into the list. */
    method Relink(bp: nat, p: int, ghost k: nat, ghost b: Block)
      requires Detached(k, b) && b.start == bp
      requires |s.ring| > 0 && p == s.ring[Front(k, |s.ring|)].start
      modifies `next, `size, `freep
      ensures freep == p && FreedMemory(Insert(s.ring, k, b), k, p, next, size)
      ensures forall x :: x in old(size) && x != bp && x != p ==> x in size && size[x] == old(size)[x]
    {
      hide Separated, Anchored, Distinct, JoinAt, Insert, Linked;
      Neighbours(base, s.ring, next, size, k, b, p); 
      ghost var nx := if b.End() == next[p] then next[next[p]] else next[p];
      ghost var sz := if b.End() == next[p] then b.len + size[next[p]] else b.len;
      FreedLinks(base, s.ring, next, size, k, b, p, nx, sz);
      JoinFields(bp, p);
      freep := p;
    }

    ghost predicate LiveReady(bp: nat)
      reads this
    {
      && Inv(base, s)
      && 0 !in s.arena
      && Ready()
      && bp in s.live
    }

    lemma DetachLive(bp: nat) returns (k: nat, b: Block)
      requires LiveReady(bp)
      ensures k == Below(s.ring, bp) && b == Block(bp, s.live[bp])
      ensures Detached(k, b) && Insert(s.ring, k, b) == Freed(s, bp).ring
      ensures |s.ring| > 0 && s.ring[Front(k, |s.ring|)].start != 0
      ensures s.ring[Front(k, |s.ring|)].start !in s.live
      ensures Inv(base, Freed(s, bp))
    {
      k, b := Below(s.ring, bp), Block(bp, s.live[bp]);
      LivePlaceable(base, s, bp);
      FreedInv(base, s, bp);
      var i := Front(k, |s.ring|);
      HeadersNonNull(base, s, i);
      if s.ring[i].start in s.live {
        HeadersApart(base, s, i, s.ring[i].start);
      }
    }

    /** The body of kfree below its NULL test. */
    method FreeBlock(bp: nat)
      requires LiveReady(bp)
      modifies this
      ensures Inv(base, s) && Ready() && freep != 0
      ensures s == Freed(old(s), bp) && InFront(old(s).ring, bp, freep)
    {
      hide Separated, Anchored, Linked, Insert, Units, LiveUnits, LiveApart, Placeable;
      ghost var k, b := DetachLive(bp);
      SearchStops(base, s.ring, k, b, Front(k, |s.ring|));
      var p := FindFront(bp, k, b);
      Relink(bp, p, k, b);
      s := Freed(s, bp);
      at := Front(k, |s.ring|);
    }

    /** Freeing NULL does nothing; freeing a live block inserts it in the list. */
    method KFree(ap: int)
      requires Valid()
      requires ap != 0 ==> ap >= 1 && ap - 1 in s.live
      modifies this
      ensures Valid()
      ensures ap == 0 ==> unchanged(this)
      ensures ap != 0 ==> s == Freed(old(s), ap - 1) && freep != 0 && InFront(old(s).ring, ap - 1, freep)
    {
      if ap == 0 {
        return;
      }
      FreeBlock(ap - 1);
    }
  
    /** What the page-frame allocator and the page tables may hand out: address
        space that is fresh, not at address zero and clear of `base`. */
    ghost predicate Grantable(nunits: nat, grant: Option<nat>)
      reads this
    {
      grant.Some? ==>
        var v := grant.value;
        && v > 0
        && v * HEADER_BYTES + ChunkFrames(nunits) * FRAME_BYTES <= WORD
        && FreshChunk(base, s, v, ChunkUnits(nunits))
    }

    /** Grows the heap by one chunk, or reports failure with 0. */
    method AcquireMoreHeap(nunits: nat, grant: Option<nat>) returns (p: int)
      requires Inv(base, s) && 0 !in s.arena && Ready() && Grantable(nunits, grant)
      modifies this
      ensures Inv(base, s) && 0 !in s.arena && Ready()
      ensures p == 0 <==> grant.None?
      ensures grant.None? ==> unchanged(this)
      ensures grant.Some? ==> p == freep && s == Grown(old(s), grant.value, ChunkUnits(nunits))
      ensures grant.Some? ==> InFront(old(s).ring, grant.value, freep)
    {
      match grant {
        case None =>
          p := 0;
          HeadersNonNull(base, s, at);
        case Some(v) =>
          ChunkHeader(base, s, next, size, v, ChunkUnits(nunits));
          AcquiredInv(base, s, v, ChunkUnits(nunits));
          size := size[v := ChunkUnits(nunits)];
          s := Acquired(s, v, ChunkUnits(nunits));
          FreeBlock(v);
          p := freep;
      }
    }

    ghost predicate Cuttable(i: nat, nunits: nat, p: int, prevp: int)
      reads this
    {
      && Inv(base, s) && 0 !in s.arena && Ready()
      && i < |s.ring| && p == s.ring[i].start && prevp == s.ring[Prev(i, |s.ring|)].start
      && 1 <= nunits <= s.ring[i].len
    }

    lemma CutHeaders(i: nat, nunits: nat, p: int, prevp: int)
      requires Cuttable(i, nunits, p, prevp)
      ensures p in next && p in size && size[p] == s.ring[i].len && prevp in next
      ensures next[p] == s.ring[Next(i, |s.ring|)].start && prevp != 0 && p !in s.live
      ensures |s.ring| >= 2 && Distinct(s.ring)
    {
      assert LinkAt(s.ring, next, size, i) && LinkAt(s.ring, next, size, Prev(i, |s.ring|));
      HeadersNonNull(base, s, Prev(i, |s.ring|));
      if p in s.live {
        HeadersApart(base, s, i, p);
      }
      var j :| 0 <= j < |s.ring| && s.ring[j] == Block(base, 0);
    }

    ghost predicate TakenMemory(i: nat, n: nat, next': map<int, int>, size': map<int, int>, at': nat, p': int)
      requires i < |s.ring| && n <= s.ring[i].len
      reads this
    {
      var t := Taken(s, i, n);
      && Linked(t.ring, next', size')
      && Sized(t.live, size')
      && at' < |t.ring| && t.ring[at'].start == p'
    }

    lemma TakeWhole(i: nat, n: nat, p: int, prevp: int)
      requires Cuttable(i, n, p, prevp) && s.ring[i].len == n && p in next
      ensures TakenMemory(i, n, next[prevp := next[p]], size, if i == 0 then |s.ring| - 2 else i - 1, prevp)
    {
      CutHeaders(i, n, p, prevp);
      UnlinkWhole(s.ring, next, size, i, prevp, next[p]);
    }

    lemma TakeTail(i: nat, n: nat, p: int, prevp: int)
      requires Cuttable(i, n, p, prevp) && n < s.ring[i].len
      ensures TakenMemory(i, n, next, size[p := s.ring[i].len - n][p + (s.ring[i].len - n) := n],
                          Prev(i, |s.ring|), prevp)
    {
      CutHeaders(i, n, p, prevp);
      TakenInv(base, s, i, n);
      ShrinkBlock(s.ring, next, size, i, n, p + (s.ring[i].len - n));
      assert Cut(s.ring, i, n)[Prev(i, |s.ring|)].start == prevp;
    }

    /** Takes `nunits` units from the end of the block at `p`. */
    method TakeFrom(p: int, prevp: int, nunits: nat, ghost i: nat) returns (r: int)
      requires Cuttable(i, nunits, p, prevp)
      modifies this
      ensures Valid() && freep != 0
      ensures s == Taken(old(s), i, nunits) && r == old(s).ring[i].End() - nunits + 1
      ensures freep == old(s).ring[if i == 0 then |old(s).ring| - 1 else i - 1].start
    {
      hide Separated, Anchored, Linked, Sized, Cut, Units, LiveUnits, LiveApart;
      CutHeaders(i, nunits, p, prevp);
      TakenInv(base, s, i, nunits);
      var h := p;
      if size[p] == nunits {
        TakeWhole(i, nunits, p, prevp);
        next := next[prevp := next[p]];
        at := if i == 0 then |s.ring| - 2 else i - 1;
      } else {
        TakeTail(i, nunits, p, prevp);
        size := size[p := size[p] - nunits];
        h := p + size[p];
        size := size[h := nunits];
        at := Prev(i, |s.ring|);
      }
      freep := prevp;
      s := Taken(s, i, nunits);
      r := h + 1;
    }
  
    ghost predicate Steady()
      reads this
    {
      Inv(base, s) && 0 !in s.arena && Ready()
    }

    /** The scan stands at position `i`, with `p` and `prevp` there and in front. */
    ghost predicate Scanning(i: nat, p: int, prevp: int, nunits: nat)
      reads this
    {
      && Steady()
      && i < |s.ring| && p == s.ring[i].start && prevp == s.ring[Prev(i, |s.ring|)].start
      && forall j :: 0 <= j < |s.ring| && Passed(at, i, j) ==> s.ring[j].len < nunits
    }

    lemma ScanStart(nunits: nat) returns (i: nat)
      requires Steady()
      ensures i < |s.ring| && freep in next && i == Next(at, |s.ring|) && Scanning(i, next[freep], freep, nunits)
    {
      assert LinkAt(s.ring, next, size, at);
      i := Next(at, |s.ring|);
    }

    lemma ScanStep(i: nat, p: int, prevp: int, nunits: nat)
      requires Scanning(i, p, prevp, nunits)
      ensures i < |s.ring| && p in size && size[p] == s.ring[i].len && p in next && p != 0
      ensures p == freep <==> i == at
      ensures p == freep && size[p] < nunits ==> !HasFit(s.ring, nunits)
      ensures p != freep && size[p] < nunits ==> Scanning(Next(i, |s.ring|), next[p], p, nunits)
      ensures p != freep ==> LapLeft(at, Next(i, |s.ring|), |s.ring|) < LapLeft(at, i, |s.ring|)
    {
      assert LinkAt(s.ring, next, size, i);
      HeadersNonNull(base, s, i);
      assert at < i || i < at || at == i;
      if i == at && s.ring[i].len < nunits {
        LapShowsNoFit(s.ring, at, nunits);
      }
    }

    /** Grows the heap after a lap without a fit; the next lap starts at the list head and
        finds one. */
    method GrowInLap(nunits: nat, grant: Option<nat>) returns (p: int, ghost i: nat)
      requires Steady() && nunits >= 1 && Grantable(nunits, grant)
      requires grant.Some? ==> ChunkUnits(nunits) >= nunits
      modifies this
      ensures p == 0 <==> grant.None?
      ensures grant.None? ==> unchanged(this)
      ensures Steady() && (grant.Some? ==> GrownBy(old(s), grant.value, ChunkUnits(nunits), s, freep))
      ensures grant.Some? ==> p == freep && HasFit(s.ring, nunits)
      ensures grant.Some? ==>
                i < |s.ring| && freep in next && i == Next(at, |s.ring|) && Scanning(i, next[freep], freep, nunits)
    {
      assert Separated(s.ring);
      hide Inv, Separated, Linked, Sized, Cut, Insert, InFront, Grown, ChunkUnits, ChunkFrames, HasFit;
      ghost var was := s;
      p := AcquireMoreHeap(nunits, grant);
      i := 0;
      if p != 0 {
        ChunkFits(base, was, grant.value, nunits);
        i := ScanStart(nunits);
      }
    }

    /** The search loop of kmalloc, which may grow the heap in mid-iteration. */
    method Search(nunits: nat, grant: Option<nat>) returns (r: int)
      requires Steady() && nunits >= 1 && Grantable(nunits, grant)
      requires grant.Some? ==> ChunkUnits(nunits) >= nunits
      modifies this
      ensures Valid() && freep != 0
      ensures r == 0 <==> !HasFit(old(s).ring, nunits) && grant.None?
      ensures r == 0 ==> s == old(s)
      ensures HasFit(old(s).ring, nunits) ==> ServedFrom(old(s), old(at), nunits, s, r, freep)
      ensures !HasFit(old(s).ring, nunits) && grant.Some? ==>
                ServedGrown(old(s), grant.value, ChunkUnits(nunits), nunits, s, r, freep)
    {
      hide Inv, Separated, Linked, Sized, Cut, Insert, Taken, InFront, ServedFrom, ServedGrown, Grown, GrownBy;
      hide ChunkUnits, ChunkFrames, FreshChunk, HasFit, Scanning, FirstFit, Passed, LapLeft;
      var prevp := freep;
      ghost var i: nat := ScanStart(nunits);
      var p := next[prevp];
      ghost var grown := false;
      while true
        invariant Steady() && i < |s.ring| && Scanning(i, p, prevp, nunits)
        invariant !grown ==> s == old(s) && at == old(at)
        invariant grown ==>
            && grant.Some? && !HasFit(old(s).ring, nunits) && HasFit(s.ring, nunits)
            && GrownBy(old(s), grant.value, ChunkUnits(nunits), s, freep)
        decreases !grown, LapLeft(at, i, |s.ring|)
      {
        ScanStep(i, p, prevp, nunits);
        if size[p] >= nunits {
          ScanCut(i, p, prevp, nunits);
          ghost var s1, f := s, at;
          r := TakeFrom(p, prevp, nunits, i);
          ServedHere(s1, f, nunits, i, s, r, freep);
          if grown {
            ServedAfterGrowth(base, old(s), grant.value, ChunkUnits(nunits), s1, f, nunits, s, r, freep);
          }
          return;
        }
        if p == freep {
          p, i := GrowInLap(nunits, grant);
          if p == 0 {
            return 0;
          }
          grown := true;
        } else {
          i := Next(i, |s.ring|);
        }
        prevp := p;
        p := next[p];
      }
    }

    /** A fit that is found is the first one from the list head. */
    lemma ScanCut(i: nat, p: int, prevp: int, nunits: nat)
      requires Scanning(i, p, prevp, nunits) && p in size && size[p] >= nunits && nunits >= 1
      requires i < |s.ring| && size[p] == s.ring[i].len
      ensures Cuttable(i, nunits, p, prevp) && FirstFit(s.ring, at, nunits, i) && Separated(s.ring)
    {
    }
  
    /** Allocates `nbytes` bytes. `grant` is the chunk the frame allocator and the
        page tables would supply if the heap had to grow. */
    method KMalloc(nbytes: nat, grant: Option<nat>) returns (r: int)
      requires Valid() && nbytes < WORD && Grantable(UnitsFor(nbytes), grant)
      modifies this
      ensures Valid()
      ensures nbytes == 0 ==> unchanged(this)
      ensures r == 0 <==> nbytes == 0 || (!HasFit(old(s).ring, UnitsFor(nbytes)) && grant.None?)
      ensures r == 0 ==> s == old(s)
      ensures r != 0 && HasFit(old(s).ring, UnitsFor(nbytes)) ==>
                ServedFrom(old(s), old(if freep == 0 then 0 else at), UnitsFor(nbytes), s, r, freep)
      ensures r != 0 && !HasFit(old(s).ring, UnitsFor(nbytes)) ==>
                && grant.Some?
                && ServedGrown(old(s), grant.value, ChunkUnits(UnitsFor(nbytes)), UnitsFor(nbytes), s, r, freep)
    {
      if nbytes == 0 {
        return 0;
      }
      if freep == 0 {
        next, size := next[base := base], size[base := 0];
        freep := base;
        at := 0;
      }
      if grant.Some? {
        ChunkLargeEnough(nbytes, grant.value);
      }
      r := Search(UnitsFor(nbytes), grant);
    }
  }

  // ----- what a caller sees of the list

  lemma ServedHere(s: State, f: nat, n: nat, i: nat, t: State, r: int, fp: int)
    requires FirstFit(s.ring, f, n, i) && t == Taken(s, i, n) && r == s.ring[i].End() - n + 1
    requires fp == s.ring[Prev(i, |s.ring|)].start
    ensures ServedFrom(s, f, n, t, r, fp) && HasFit(s.ring, n)
  {
    hide Cut, Passed;
  }

  /** `t` is `s` grown by `k` units at `v`, with `p` the element in front of them. */
  ghost predicate GrownBy(s: State, v: nat, k: nat, t: State, p: int) {
    Separated(s.ring) && t == Grown(s, v, k) && InFront(s.ring, v, p)
  }

  lemma ServedAfterGrowth(base: nat, s: State, v: nat, k: nat, g: State, f: nat, n: nat, t: State, r: int, fp: int)
    requires f < |g.ring| && GrownBy(s, v, k, g, g.ring[f].start) && ServedFrom(g, f, n, t, r, fp)
    ensures ServedGrown(s, v, k, n, t, r, fp)
  {
    hide InFront, ServedFrom, Grown;
  }

  lemma ChunkFits(base: nat, s: State, v: nat, nunits: nat)
    requires Inv(base, s) && FreshChunk(base, s, v, ChunkUnits(nunits)) && ChunkUnits(nunits) >= nunits
    ensures HasFit(Grown(s, v, ChunkUnits(nunits)).ring, nunits)
  {
    GrownFits(base, s, v, ChunkUnits(nunits));
  }

  /** The position a request was served from. */
  lemma ServedAt(s: State, f: nat, n: nat, t: State, r: int, fp: int) returns (i: nat)
    requires ServedFrom(s, f, n, t, r, fp)
    ensures FirstFit(s.ring, f, n, i) && i < |s.ring| && n <= s.ring[i].len
    ensures t == Taken(s, i, n) && r == s.ring[i].End() - n + 1 && fp == s.ring[Prev(i, |s.ring|)].start
  {
    hide Cut, Passed;
    i :| FirstFit(s.ring, f, n, i) && t == Taken(s, i, n) && r == s.ring[i].End() - n + 1
         && fp == s.ring[if i == 0 then |s.ring| - 1 else i - 1].start;
  }

  /** The units served are the last ones of a maximal run of free units, and exactly they
      change hands. */
  lemma ServedAtTail(base: nat, s: State, f: nat, n: nat, t: State, r: int, fp: int)
    requires Inv(base, s) && n >= 1 && ServedFrom(s, f, n, t, r, fp)
    ensures r >= 1 && Range(r - 1, n) <= Units(s.ring) && r - 1 + n !in Units(s.ring)
    ensures t.live == s.live[r - 1 := n] && Units(t.ring) == Units(s.ring) - Range(r - 1, n)
  {
    hide Cut, Units;
    var i := ServedAt(s, f, n, t, r, fp);
    TailInUnits(s.ring, i, n);
    NothingJustOutside(s.ring, i);
    CutUnits(s.ring, i, n);
  }

  /** The element behind `f` is the first one a search from `f` looks at. */
  lemma LooksNext(ring: seq<Block>, f: nat, n: nat, i: nat, j: nat)
    requires f < |ring| && j == Next(f, |ring|) && ring[j].len >= n && FirstFit(ring, f, n, i)
    ensures i == j
  {
    if i != j {
      assert Passed(f, i, j);
    }
  }

  /** If the units just below a served block are still free, the next equal request is
      served from them: from the same element, and in front of the same one. */
  lemma NextFromSameBlock(base: nat, s: State, f: nat, n: nat, t: State, r: int, fp: int,
                          f': nat, u: State, r': int, fp': int)
    requires Inv(base, s) && n >= 1 && ServedFrom(s, f, n, t, r, fp)
    requires f' < |t.ring| && t.ring[f'].start == fp && ServedFrom(t, f', n, u, r', fp')
    requires r - 1 >= n && Range(r - 1 - n, n) <= Units(t.ring)
    ensures r' == r - n && fp' == fp
  {
    hide Units, Range;
    var i := ServedAt(s, f, n, t, r, fp);
    ServedAtTail(base, s, f, n, t, r, fp);
    TakenInv(base, s, i, n);
    StillThere(base, s, i, n);
    var prev := Prev(i, |s.ring|);
    assert t.ring[prev].start == fp;
    assert f' == prev by {
      assert f' < prev || prev < f' || f' == prev;
    }
    var i' := ServedAt(t, f', n, u, r', fp');
    LooksNext(t.ring, f', n, i', i);
  }

  /** The element that was cut is still on the list and still fits. */
  lemma StillThere(base: nat, s: State, i: nat, n: nat)
    requires Inv(base, s) && i < |s.ring| && 1 <= n <= s.ring[i].len && s.ring[i].End() >= 2 * n
    requires Range(s.ring[i].End() - 2 * n, n) <= Units(Taken(s, i, n).ring)
    ensures
      var t := Taken(s, i, n);
      && |t.ring| == |s.ring| && t.ring == s.ring[i := Block(s.ring[i].start, s.ring[i].len - n)]
      && t.ring[i].len >= n
  {
    hide Cut;
    var t, h := Taken(s, i, n), s.ring[i].End() - n;
    TakenInv(base, s, i, n);
    var j := RunInOneBlock(t.ring, h - n, n);
    CutUnits(s.ring, i, n);
    NothingJustOutside(s.ring, i);
    assert h - 1 in Range(h - n, n);
    assert s.ring[i].len > n;
    CutShrinks(s.ring, i, n);
    assert j < i || i < j || i == j;
  }

  lemma CutShrinks(ring: seq<Block>, i: nat, n: nat)
    requires i < |ring| && n < ring[i].len
    ensures Cut(ring, i, n) == ring[i := Block(ring[i].start, ring[i].len - n)]
  {
  }

  /** A freed block that touches no free unit below it stands alone behind the element
      where searches start now. */
  lemma FreedPosition(base: nat, s: State, h: nat, fp: int) returns (k: nat)
    requires Inv(base, s) && h in s.live && (h == 0 || h - 1 !in Units(s.ring)) && InFront(s.ring, h, fp)
    ensures
      var t := Freed(s, h);
      && k < |t.ring| && t.ring[k].start == h && t.ring[k].len >= s.live[h]
      && t.ring[Prev(k, |t.ring|)].start == fp
  {
    k := Below(s.ring, h);
    var b := Block(h, s.live[h]);
    LivePlaceable(base, s, h);
    var i :| 0 <= i < |s.ring| && s.ring[i].start == fp && Around(fp, h, s.ring[Next(i, |s.ring|)].start);
    SearchStops(base, s.ring, k, b, i);
    FreedStart(base, s, h, k, b);
  }

  lemma FreedStart(base: nat, s: State, h: nat, k: nat, b: Block)
    requires Inv(base, s) && h in s.live && (h == 0 || h - 1 !in Units(s.ring))
    requires k == Below(s.ring, h) && b == Block(h, s.live[h]) && Placeable(base, s.ring, k, b)
    ensures
      var t := Insert(s.ring, k, b);
      && k < |t| && t[k].start == h && t[k].len >= b.len
      && t[Prev(k, |t|)].start == s.ring[Front(k, |s.ring|)].start
  {
    hide Inv, Placeable, Below, JoinAt, Units;
    NotTouched(base, s, h, k, b);
    PlacedShape(base, s.ring, k, b);
    JoinedLength(s.ring, k, b);
    if k > 0 {
      NoJoin(JoinAt(s.ring[..k] + [b] + s.ring[k..], k), k - 1);
    }
  }

  lemma NoJoin(r: seq<Block>, i: nat)
    requires i + 1 < |r| && r[i].End() != r[i + 1].start
    ensures JoinAt(r, i) == r
  {
  }

  lemma NotTouched(base: nat, s: State, h: nat, k: nat, b: Block)
    requires Inv(base, s) && h in s.live && (h == 0 || h - 1 !in Units(s.ring))
    requires b == Block(h, s.live[h]) && Placeable(base, s.ring, k, b)
    ensures k > 0 && k <= |s.ring| ==> s.ring[k - 1].End() != h
  {
    if 0 < k <= |s.ring| && s.ring[k - 1].End() == h && s.ring[k - 1].len >= 1 {
      BlockUnits(s.ring, k - 1, h - 1);
    }
  }

  lemma PlacedShape(base: nat, ring: seq<Block>, k: nat, b: Block)
    requires Placeable(base, ring, k, b)
    ensures |ring| > 0 && k <= |ring|
    ensures
      var r := JoinAt(ring[..k] + [b] + ring[k..], k);
      if k > 0 then k < |r| && r[k - 1] == ring[k - 1] && r[k].start == b.start
      else |r| > 1 && r[|r| - 1].start == ring[|ring| - 1].start
  {
    hide JoinAt, Separated;
    PlaceableDistinct(base, ring, k, b);
    UpperShape(ring, k, b);
  }

  lemma JoinedLength(ring: seq<Block>, k: nat, b: Block)
    requires k <= |ring|
    ensures
      var r := JoinAt(ring[..k] + [b] + ring[k..], k);
      k < |r| && r[k].start == b.start && r[k].len >= b.len
  {
    var r := ring[..k] + [b] + ring[k..];
    assert r[k] == b;
  }

  lemma PlaceableDistinct(base: nat, ring: seq<Block>, k: nat, b: Block)
    requires Placeable(base, ring, k, b)
    ensures |ring| > 0 && k <= |ring| && Distinct(ring)
    ensures forall i :: 0 <= i < |ring| ==> ring[i].start != b.start
    ensures k < |ring| && b.End() == ring[k].start ==> |ring| >= 2
  {
  }

  /** An equal or smaller request after a free comes from the freed block, if nothing
      free lies right below it: from the end of the run that it starts now. */
  lemma FreeThenServe(base: nat, s: State, h: nat, fp: int, f: nat, n: nat, u: State, r: int, fp': int)
    requires Inv(base, s) && h in s.live && (h == 0 || h - 1 !in Units(s.ring)) && InFront(s.ring, h, fp)
    requires 1 <= n <= s.live[h]
    requires f < |Freed(s, h).ring| && Freed(s, h).ring[f].start == fp && ServedFrom(Freed(s, h), f, n, u, r, fp')
    ensures fp' == fp && r - 1 >= h && r - 1 + n !in Units(Freed(s, h).ring)
    ensures forall x :: h <= x < r - 1 + n ==> x in Units(Freed(s, h).ring)
  {
    hide Insert, Units;
    FreedInv(base, s, h);
    var t := Freed(s, h);
    var k := FreedPosition(base, s, h, fp);
    assert f == Prev(k, |t.ring|);
    var i := ServedAt(t, f, n, u, r, fp');
    LooksNext(t.ring, f, n, i, k);
    ServedAtTail(base, t, f, n, u, r, fp');
    forall x: nat | h <= x < r - 1 + n ensures x in Units(t.ring) {
      BlockUnits(t.ring, k, x);
    }
  }

  /** Freeing what was just served gives back the heap as it was before. */
  lemma FreeUndoesServe(base: nat, s: State, f: nat, n: nat, t: State, r: int, fp: int)
    requires Inv(base, s) && n >= 1 && ServedFrom(s, f, n, t, r, fp)
    ensures Inv(base, t) && r >= 1 && r - 1 in t.live && Freed(t, r - 1) == s
  {
    hide Insert, Cut, Below;
    var i := ServedAt(s, f, n, t, r, fp);
    FreeUndoesTake(base, s, i, n);
    assert t.live == Taken(s, i, n).live && r - 1 in t.live;
    assert Freed(t, r - 1) == Freed(Taken(s, i, n), s.ring[i].End() - n);
  }

  /** A request served without growth and then freed leaves the free list, the
      live blocks and the arena as they were. */
  method AllocateAndFree(heap: KernelHeap, nbytes: nat)
    requires heap.Valid() && 0 < nbytes < WORD && HasFit(heap.s.ring, UnitsFor(nbytes))
    modifies heap
    ensures heap.Valid() && heap.s == old(heap.s)
  {
    ghost var f := if heap.freep == 0 then 0 else heap.at;
    var r := heap.KMalloc(nbytes, None);
    FreeUndoesServe(heap.base, old(heap.s), f, UnitsFor(nbytes), heap.s, r, heap.freep);
    heap.KFree(r);
  }

  /** Two equal requests in a row: if the units below the first block are still free after
      it, the second block lies right below the first. */
  method AllocateTwice(heap: KernelHeap, nbytes: nat) returns (a: int, b: int, ghost mid: State)
    requires heap.Valid() && 0 < nbytes < WORD && HasFit(heap.s.ring, UnitsFor(nbytes))
    modifies heap
    ensures heap.Valid() && a >= 1
    ensures
      var n := UnitsFor(nbytes);
      a - 1 >= n && Range(a - 1 - n, n) <= Units(mid.ring) ==> b == a - n
  {
    hide Units, Range, UnitsFor;
    ghost var n, s, f := UnitsFor(nbytes), heap.s, if heap.freep == 0 then 0 else heap.at;
    a := heap.KMalloc(nbytes, None);
    mid := heap.s;
    ghost var fp, f' := heap.freep, heap.at;
    ServedAtTail(heap.base, s, f, n, mid, a, fp);
    b := heap.KMalloc(nbytes, None);
    if a - 1 >= n && Range(a - 1 - n, n) <= Units(mid.ring) {
      var j := RunInOneBlock(mid.ring, a - 1 - n, n);
      NextFromSameBlock(heap.base, s, f, n, mid, a, fp, f', heap.s, b, heap.freep);
    }
  }

  /** Allocating as much as was just freed gives the freed block back, if it touched no
      free unit. */
  method FreeAndAllocate(heap: KernelHeap, ap: int, nbytes: nat) returns (r: int)
    requires heap.Valid() && ap >= 1 && ap - 1 in heap.s.live && 0 < nbytes < WORD
    requires heap.s.live[ap - 1] == UnitsFor(nbytes)
    requires ap - 1 == 0 || ap - 2 !in Units(heap.s.ring)
    requires ap - 1 + UnitsFor(nbytes) !in Units(heap.s.ring)
    modifies heap
    ensures heap.Valid() && r == ap
  {
    hide Units, Range, UnitsFor, Insert, Inv, HasFit, ServedFrom, InFront, Taken, Freed;
    ghost var n, s, h: nat := UnitsFor(nbytes), heap.s, ap - 1;
    heap.KFree(ap);
    ghost var t, fp, f := heap.s, heap.freep, heap.at;
    FreedFits(heap.base, s, h, n, fp);
    r := heap.KMalloc(nbytes, None);
    FreedServed(heap.base, s, h, fp, f, n, heap.s, r, heap.freep);
  }

  lemma FreedFits(base: nat, s: State, h: nat, n: nat, fp: int)
    requires Inv(base, s) && h in s.live && (h == 0 || h - 1 !in Units(s.ring)) && InFront(s.ring, h, fp)
    requires n == s.live[h]
    ensures HasFit(Freed(s, h).ring, n)
  {
    hide Insert, Units;
    var k := FreedPosition(base, s, h, fp);
  }

  lemma FreedServed(base: nat, s: State, h: nat, fp: int, f: nat, n: nat, u: State, r: int, fp': int)
    requires Inv(base, s) && h in s.live && (h == 0 || h - 1 !in Units(s.ring)) && InFront(s.ring, h, fp)
    requires 1 <= n == s.live[h] && h + n !in Units(s.ring)
    requires f < |Freed(s, h).ring| && Freed(s, h).ring[f].start == fp && ServedFrom(Freed(s, h), f, n, u, r, fp')
    ensures r == h + 1
  {
    hide Insert, Units, ServedFrom, InFront;
    FreeThenServe(base, s, h, fp, f, n, u, r, fp');
    FreedEnd(base, s, h);
    var units := Units(Freed(s, h).ring);
    assert h + n !in units;
    assert h + n < r - 1 + n ==> h + n in units;
  }

  lemma FreedEnd(base: nat, s: State, h: nat)
    requires Inv(base, s) && h in s.live
    ensures Separated(s.ring) && Units(Freed(s, h).ring) == Units(s.ring) + Range(h, s.live[h])
  {
    hide Insert;
    FreedInv(base, s, h);
    LivePlaceable(base, s, h);
    InsertCorrect(base, s.ring, Below(s.ring, h), Block(h, s.live[h]));
  }
}
