/** What the page frame allocator computes, on plain bits and frame addresses:
    memory regions flattened into a list of frames, and the first-fit scan. */
module FrameSpec {
  import opened Wrappers

  const FOUR_KB: nat := 0x1000
  const WORD: nat := 0x1_0000_0000

  datatype Region = Region(addr: nat, len: nat) {
    function Count(): nat { len / FOUR_KB }
  }

  /** Page-aligned, sorted, disjoint regions, none at address zero; a region may
      be empty. */
  ghost predicate WellFormed(rs: seq<Region>) {
    && (forall i :: 0 <= i < |rs| ==>
          && rs[i].addr > 0
          && rs[i].addr % FOUR_KB == 0 && rs[i].len % FOUR_KB == 0
          && rs[i].addr + rs[i].len <= WORD)
    && (forall i, j :: 0 <= i < j < |rs| ==> rs[i].addr + rs[i].len <= rs[j].addr)
  }

  function RegionFrames(r: Region): (fs: seq<nat>)
    ensures |fs| == r.Count()
    ensures forall k :: 0 <= k < |fs| ==> fs[k] == r.addr + FOUR_KB * k
  {
    seq(r.Count(), k requires 0 <= k => r.addr + FOUR_KB * k)
  }

  /** All page frames, in the order of their bits. */
  function Frames(rs: seq<Region>): seq<nat> {
    if rs == [] then [] else RegionFrames(rs[0]) + Frames(rs[1..])
  }

  predicate InRegion(r: Region, paddr: nat) {
    r.addr <= paddr < r.addr + r.len
  }

  /** Frames `idx` up to `idx + n` exist and lie in one region. */
  ghost predicate OneRegion(rs: seq<Region>, idx: nat, n: nat) {
    && idx + n <= |Frames(rs)|
    && exists i :: 0 <= i < |rs| && AllIn(rs[i], Frames(rs), idx, n)
  }

  ghost predicate AllIn(r: Region, fs: seq<nat>, idx: nat, n: nat)
    requires idx + n <= |fs|
  {
    forall k :: idx <= k < idx + n ==> InRegion(r, fs[k])
  }

  // ----- frames and regions

  lemma {:induction false} FrameBounds(rs: seq<Region>, k: nat) returns (i: nat)
    requires WellFormed(rs) && k < |Frames(rs)|
    ensures i < |rs| && InRegion(rs[i], Frames(rs)[k])
    ensures Frames(rs)[k] % FOUR_KB == 0 && Frames(rs)[k] > 0 && Frames(rs)[k] + FOUR_KB <= WORD
  {
    var c := rs[0].Count();
    if k < c {
      i := 0;
    } else {
      i := FrameBounds(rs[1..], k - c);
      i := i + 1;
    }
  }

  /** Frame addresses strictly increase, so every frame has one bit. */
  lemma {:induction false} FramesIncrease(rs: seq<Region>, j: nat, k: nat)
    requires WellFormed(rs) && j < k < |Frames(rs)|
    ensures Frames(rs)[j] < Frames(rs)[k]
  {
    var c := rs[0].Count();
    if c <= j {
      FramesIncrease(rs[1..], j - c, k - c);
    } else if c <= k {
      var i := FrameBounds(rs[1..], k - c);
      assert rs[1..][i] == rs[i + 1];
    }
  }

  lemma OutsideHead(rs: seq<Region>, k: nat)
    requires WellFormed(rs) && rs != [] && rs[0].Count() <= k < |Frames(rs)|
    ensures !InRegion(rs[0], Frames(rs)[k])
  {
    var i := FrameBounds(rs[1..], k - rs[0].Count());
    assert InRegion(rs[i + 1], Frames(rs)[k]);
  }

  lemma OneRegionHead(rs: seq<Region>, idx: nat, n: nat)
    requires WellFormed(rs) && rs != [] && idx < rs[0].Count() && n >= 1
    ensures OneRegion(rs, idx, n) <==> idx + n <= rs[0].Count()
  {
    var c := rs[0].Count();
    var fs := Frames(rs);
    if idx + n <= c {
      assert AllIn(rs[0], fs, idx, n);
    } else if c < |fs| {
      OutsideHead(rs, c);
      forall i | 0 <= i < |rs| && idx + n <= |fs| ensures !AllIn(rs[i], fs, idx, n) {
        assert InRegion(rs[0], fs[idx]);
        assert i == 0 || !InRegion(rs[i], fs[idx]);
        assert i != 0 || !InRegion(rs[i], fs[c]);
      }
    }
  }

  lemma NoRegion(idx: nat, n: nat)
    requires n >= 1
    ensures !OneRegion([], idx, n)
  {
  }

  lemma {:induction false} TailFrames(rs: seq<Region>)
    requires rs != []
    ensures |Frames(rs)| == rs[0].Count() + |Frames(rs[1..])|
    ensures forall k :: rs[0].Count() <= k < |Frames(rs)| ==> Frames(rs)[k] == Frames(rs[1..])[k - rs[0].Count()]
  {
    assert Frames(rs) == RegionFrames(rs[0]) + Frames(rs[1..]);
  }

  lemma OneRegionDrop(rs: seq<Region>, idx: nat, n: nat)
    requires WellFormed(rs) && rs != [] && rs[0].Count() <= idx && n >= 1 && OneRegion(rs, idx, n)
    ensures OneRegion(rs[1..], idx - rs[0].Count(), n)
  {
    var c := rs[0].Count();
    var fs, gs := Frames(rs), Frames(rs[1..]);
    TailFrames(rs);
    var i :| 0 <= i < |rs| && AllIn(rs[i], fs, idx, n);
    OutsideHead(rs, idx);
    assert rs[1..][i - 1] == rs[i];
    forall k | idx - c <= k < idx - c + n ensures InRegion(rs[i], gs[k]) {
      assert fs[k + c] == gs[k];
    }
    assert AllIn(rs[1..][i - 1], gs, idx - c, n);
  }

  lemma OneRegionTail(rs: seq<Region>, idx: nat, n: nat)
    requires WellFormed(rs) && rs != [] && rs[0].Count() <= idx && n >= 1
    ensures OneRegion(rs, idx, n) <==> OneRegion(rs[1..], idx - rs[0].Count(), n)
  {
    var c := rs[0].Count();
    var fs, gs := Frames(rs), Frames(rs[1..]);
    TailFrames(rs);
    if OneRegion(rs, idx, n) {
      OneRegionDrop(rs, idx, n);
    }
    if OneRegion(rs[1..], idx - c, n) {
      var i :| 0 <= i < |rs[1..]| && AllIn(rs[1..][i], gs, idx - c, n);
      assert rs[i + 1] == rs[1..][i];
      forall k | idx <= k < idx + n ensures InRegion(rs[i + 1], fs[k]) {
        assert fs[k] == gs[k - c];
      }
      assert AllIn(rs[i + 1], fs, idx, n);
    }
  }

  /** A run inside one region is physically contiguous. */
  lemma {:induction false} RunContiguous(rs: seq<Region>, idx: nat, n: nat, k: nat)
    requires WellFormed(rs) && OneRegion(rs, idx, n) && k < n
    ensures Frames(rs)[idx + k] == Frames(rs)[idx] + FOUR_KB * k
  {
    var c := rs[0].Count();
    if idx < c {
      OneRegionHead(rs, idx, n);
    } else {
      OneRegionTail(rs, idx, n);
      TailFrames(rs);
      RunContiguous(rs[1..], idx - c, n, k);
    }
  }

  /** The frames of the regions from `i` on are the frames from `c` on. */
  ghost predicate Suffix(rs: seq<Region>, i: nat, c: nat)
    requires i <= |rs|
  {
    && c + |Frames(rs[i..])| == |Frames(rs)|
    && forall k :: c <= k < |Frames(rs)| ==> Frames(rs)[k] == Frames(rs[i..])[k - c]
  }

  lemma SuffixStart(rs: seq<Region>)
    ensures Suffix(rs, 0, 0)
  {
    assert rs[0..] == rs;
  }

  lemma SuffixStep(rs: seq<Region>, i: nat, c: nat)
    requires i < |rs| && Suffix(rs, i, c)
    ensures Suffix(rs, i + 1, c + rs[i].Count())
    ensures c + rs[i].Count() <= |Frames(rs)|
    ensures forall k :: c <= k < c + rs[i].Count() ==> Frames(rs)[k] == rs[i].addr + FOUR_KB * (k - c)
  {
    TailFrames(rs[i..]);
    assert rs[i..][1..] == rs[i + 1..];
  }

  lemma SuffixEnd(rs: seq<Region>, c: nat)
    requires Suffix(rs, |rs|, c)
    ensures c == |Frames(rs)|
  {
  }

  /** Frames of later regions lie above region `i`. */
  // ----- the scan

  /** A free run of `n` frames inside one region. */
  ghost predicate Good(bits: seq<bool>, rs: seq<Region>, n: nat, a: nat) {
    && a + n <= |bits|
    && (forall k :: a <= k < a + n ==> bits[k])
    && OneRegion(rs, a, n)
  }

  /** The scan bit by bit, from bit `pos` with `found` free bits just behind it. A
      run that does not fit in one region is dropped as a whole. */
  ghost function Scan(bits: seq<bool>, rs: seq<Region>, n: nat, pos: nat, found: nat): Option<nat>
    requires found <= pos <= |bits| && (n >= 1 ==> found < n)
    decreases |bits| - pos
  {
    if pos == |bits| then None
    else if !bits[pos] then Scan(bits, rs, n, pos + 1, 0)
    else if found + 1 != n then Scan(bits, rs, n, pos + 1, found + 1)
    else if OneRegion(rs, pos + 1 - n, n) then Some(pos + 1 - n)
    else Scan(bits, rs, n, pos + 1, 0)
  }

  lemma ScanStep(bits: seq<bool>, rs: seq<Region>, n: nat, pos: nat, found: nat)
    requires found <= pos < |bits| && (n >= 1 ==> found < n)
    ensures !bits[pos] ==> Scan(bits, rs, n, pos, found) == Scan(bits, rs, n, pos + 1, 0)
    ensures bits[pos] && found + 1 != n ==> Scan(bits, rs, n, pos, found) == Scan(bits, rs, n, pos + 1, found + 1)
    ensures bits[pos] && found + 1 == n ==>
              Scan(bits, rs, n, pos, found) ==
              if OneRegion(rs, pos + 1 - n, n) then Some(pos + 1 - n) else Scan(bits, rs, n, pos + 1, 0)
  {
  }

  lemma ScanEnd(bits: seq<bool>, rs: seq<Region>, n: nat, found: nat)
    requires found <= |bits| && (n >= 1 ==> found < n)
    ensures Scan(bits, rs, n, |bits|, found) == None
  {
  }

  /** Skipping a whole word of cleared bits changes nothing. */
  lemma {:induction false} SkipCleared(bits: seq<bool>, rs: seq<Region>, n: nat, pos: nat, found: nat, hi: nat)
    requires found <= pos <= hi <= |bits| && (n >= 1 ==> found < n)
    requires forall k :: pos <= k < hi ==> !bits[k]
    requires pos == hi ==> found == 0
    ensures Scan(bits, rs, n, pos, found) == Scan(bits, rs, n, hi, 0)
    decreases hi - pos
  {
    if pos == hi {
    } else {
      SkipCleared(bits, rs, n, pos + 1, 0, hi);
    }
  }

  /** What the scan finds is a free run inside one region; asked for no frames it
      finds nothing. */
  lemma {:induction false} ScanSound(bits: seq<bool>, rs: seq<Region>, n: nat, pos: nat, found: nat)
    requires found <= pos <= |bits| && (n >= 1 ==> found < n)
    requires forall k :: pos - found <= k < pos ==> bits[k]
    ensures
      var r := Scan(bits, rs, n, pos, found);
      r.Some? ==> n >= 1 && Good(bits, rs, n, r.value) && r.value + n <= |Frames(rs)|
    decreases |bits| - pos
  {
    if pos == |bits| {
    } else {
      if !bits[pos] {
        ScanSound(bits, rs, n, pos + 1, 0);
      } else if found + 1 != n {
        ScanSound(bits, rs, n, pos + 1, found + 1);
      } else if !OneRegion(rs, pos + 1 - n, n) {
        ScanSound(bits, rs, n, pos + 1, 0);
      }
    }
  }

  /** Only the first non-empty region is large enough for `n` frames. */
  ghost predicate OnlyFirstHolds(rs: seq<Region>, n: nat) {
    forall i, j :: 0 <= j < i < |rs| && rs[i].Count() >= n ==> rs[j].Count() == 0
  }

  lemma {:induction false} Holder(rs: seq<Region>, a: nat, n: nat) returns (i: nat)
    requires WellFormed(rs) && n >= 1 && OneRegion(rs, a, n)
    ensures i < |rs| && rs[i].Count() >= n
    ensures i == 0 <==> a < rs[0].Count()
  {
    assert rs != [];
    hide OneRegion, Frames;
    if a < rs[0].Count() {
      OneRegionHead(rs, a, n);
      i := 0;
    } else {
      OneRegionTail(rs, a, n);
      i := Holder(rs[1..], a - rs[0].Count(), n);
      i := i + 1;
    }
  }

  /** If a run fits, so does the same run moved down. */
  lemma {:induction false} FitsLower(rs: seq<Region>, n: nat, a: nat, b: nat)
    requires WellFormed(rs) && n >= 1 && OnlyFirstHolds(rs, n)
    requires OneRegion(rs, b, n) && a < b
    ensures OneRegion(rs, a, n)
  {
    hide OneRegion, Frames;
    var i := Holder(rs, b, n);
    if i == 0 {
      OneRegionHead(rs, b, n);
      OneRegionHead(rs, a, n);
    } else {
      OneRegionTail(rs, a, n);
      OneRegionTail(rs, b, n);
      FitsLower(rs[1..], n, a, b);
    }
  }

  /** First fit: where one frame is asked for, or only the first non-empty region
      is large enough, the scan finds the lowest free run and misses none. */
  lemma {:induction false} ScanFirstFit(bits: seq<bool>, rs: seq<Region>, n: nat, pos: nat, found: nat)
    requires WellFormed(rs) && n >= 1 && (n == 1 || OnlyFirstHolds(rs, n))
    requires found <= pos <= |bits| && found < n
    requires forall k :: pos - found <= k < pos ==> bits[k]
    requires forall a :: 0 <= a < pos - found ==> !Good(bits, rs, n, a)
    ensures
      var r := Scan(bits, rs, n, pos, found);
      forall b: nat :: r == None || b < r.value ==> !Good(bits, rs, n, b)
    decreases |bits| - pos
  {
    if pos == |bits| {
    } else {
      if !bits[pos] {
        ScanFirstFit(bits, rs, n, pos + 1, 0);
      } else if found + 1 != n {
        ScanFirstFit(bits, rs, n, pos + 1, found + 1);
      } else if !OneRegion(rs, pos + 1 - n, n) {
        forall a | 0 <= a < pos + 1 ensures !Good(bits, rs, n, a) {
          if pos + 1 - n < a && OneRegion(rs, a, n) {
            FitsLower(rs, n, pos + 1 - n, a);
          }
        }
        ScanFirstFit(bits, rs, n, pos + 1, 0);
      }
    }
  }

  // ----- exactly when the scan is complete

  /** The index of the first frame of region `i`. */
  function Start(rs: seq<Region>, i: nat): nat
    requires i < |rs|
  {
    if i == 0 then 0 else rs[0].Count() + Start(rs[1..], i - 1)
  }

  lemma {:induction false} FrameAt(rs: seq<Region>, i: nat, k: nat)
    requires i < |rs| && k < rs[i].Count()
    ensures Start(rs, i) + k < |Frames(rs)| && Frames(rs)[Start(rs, i) + k] == rs[i].addr + FOUR_KB * k
  {
    if i == 0 {
    } else {
      FrameAt(rs[1..], i - 1, k);
    }
  }

  lemma {:induction false} StartAfter(rs: seq<Region>, j: nat, i: nat)
    requires j < i < |rs|
    ensures Start(rs, j) + rs[j].Count() <= Start(rs, i)
  {
    if j == 0 {
    } else {
      StartAfter(rs[1..], j - 1, i - 1);
    }
  }

  lemma {:induction false} ScanSet(bits: seq<bool>, rs: seq<Region>, n: nat, pos: nat, found: nat, m: nat)
    requires found <= pos && pos + m <= |bits| && found + m < n
    requires forall k :: pos <= k < pos + m ==> bits[k]
    ensures Scan(bits, rs, n, pos, found) == Scan(bits, rs, n, pos + m, found + m)
    decreases m
  {
    if m == 0 {
    } else {
      ScanSet(bits, rs, n, pos + 1, found + 1, m - 1);
    }
  }

  lemma HeldRun(rs: seq<Region>, i: nat, n: nat)
    requires WellFormed(rs) && i < |rs| && 1 <= n <= rs[i].Count()
    ensures OneRegion(rs, Start(rs, i), n)
  {
    var s := Start(rs, i);
    FrameAt(rs, i, n - 1);
    forall k | s <= k < s + n ensures InRegion(rs[i], Frames(rs)[k]) {
      FrameAt(rs, i, k - s);
    }
    assert AllIn(rs[i], Frames(rs), s, n);
  }

  /** A run that starts one frame before a region does not fit in one region. */
  lemma StraddlesNone(rs: seq<Region>, i: nat, n: nat)
    requires WellFormed(rs) && i < |rs| && 1 <= Start(rs, i) && 2 <= n && rs[i].Count() >= 1
    ensures !OneRegion(rs, Start(rs, i) - 1, n)
  {
    hide Frames, Start;
    var s, fs := Start(rs, i), Frames(rs);
    FrameAt(rs, i, 0);
    FramesIncrease(rs, s - 1, s);
    forall m | 0 <= m < |rs| && s - 1 + n <= |fs| ensures !AllIn(rs[m], fs, s - 1, n) {
      assert InRegion(rs[i], fs[s]);
      assert m == i || !InRegion(rs[m], fs[s]);
      assert m != i || !InRegion(rs[m], fs[s - 1]);
    }
  }

  lemma ScanMisses(bits: seq<bool>, rs: seq<Region>, n: nat, a: nat)
    requires n >= 2 && a >= 1 && a + n <= |bits|
    requires forall k :: 0 <= k < |bits| ==> (bits[k] <==> a - 1 <= k < a + n)
    requires !OneRegion(rs, a - 1, n)
    ensures Scan(bits, rs, n, 0, 0) == None
  {
    hide OneRegion;
    SkipCleared(bits, rs, n, 0, 0, a - 1);
    ScanSet(bits, rs, n, a - 1, 0, n - 1);
    assert Scan(bits, rs, n, a + n - 2, n - 1) == Scan(bits, rs, n, a + n - 1, 0);
    assert Scan(bits, rs, n, a + n - 1, 0) == Scan(bits, rs, n, a + n, 1);
    if a + n < |bits| {
      SkipCleared(bits, rs, n, a + n, 1, |bits|);
    }
  }

  /** Where a later region is large enough, some bitmap has a free run that the
      scan misses: one frame before that region and `n` frames in it. */
  lemma MissedRun(rs: seq<Region>, n: nat) returns (bits: seq<bool>, a: nat)
    requires WellFormed(rs) && n >= 2 && !OnlyFirstHolds(rs, n)
    ensures |bits| == |Frames(rs)| && Good(bits, rs, n, a) && Scan(bits, rs, n, 0, 0) == None
  {
    hide Frames, Start, Scan;
    var i, j :| 0 <= j < i < |rs| && rs[i].Count() >= n && rs[j].Count() != 0;
    a := Start(rs, i);
    StartAfter(rs, j, i);
    HeldRun(rs, i, n);
    StraddlesNone(rs, i, n);
    bits := seq(|Frames(rs)|, k requires 0 <= k => a - 1 <= k < a + n);
    ScanMisses(bits, rs, n, a);
  }

  /** The scan misses no free run, on any bitmap, exactly when one frame is asked
      for or no region but the first non-empty one holds `n` frames. */
  lemma ScanCompleteIff(rs: seq<Region>, n: nat)
    requires WellFormed(rs) && n >= 1
    ensures (forall bits: seq<bool>, a: nat :: Good(bits, rs, n, a) ==> Scan(bits, rs, n, 0, 0).Some?)
            <==> n == 1 || OnlyFirstHolds(rs, n)
  {
    if n == 1 || OnlyFirstHolds(rs, n) {
      forall bits: seq<bool>, a: nat | Good(bits, rs, n, a) ensures Scan(bits, rs, n, 0, 0).Some? {
        ScanFirstFit(bits, rs, n, 0, 0);
      }
    } else {
      var bits, a := MissedRun(rs, n);
    }
  }

  // ----- bitmaps as sets of free frames

  function Toggled(bits: seq<bool>, a: nat, n: nat): (r: seq<bool>)
    ensures |r| == |bits|
    ensures forall k :: 0 <= k < |bits| ==> r[k] == (bits[k] != (a <= k < a + n))
  {
    seq(|bits|, k requires 0 <= k < |bits| => bits[k] != (a <= k < a + n))
  }

  ghost function FreeSet(bits: seq<bool>, rs: seq<Region>): set<nat> {
    set k | 0 <= k < |Frames(rs)| && k < |bits| && bits[k] :: Frames(rs)[k]
  }

  function NthFrame(paddr: nat, k: nat): nat {
    paddr + FOUR_KB * k
  }

  function Run(paddr: nat, n: nat): set<nat> {
    set k: nat | k < n :: NthFrame(paddr, k)
  }

  /** Taking a good run removes exactly its frames from the free set. */
  lemma TakeRun(bits: seq<bool>, rs: seq<Region>, a: nat, n: nat)
    requires WellFormed(rs) && n >= 1 && Good(bits, rs, n, a)
    ensures Run(Frames(rs)[a], n) <= FreeSet(bits, rs)
    ensures FreeSet(Toggled(bits, a, n), rs) == FreeSet(bits, rs) - Run(Frames(rs)[a], n)
  {
    hide AllIn, Frames;
    var fs, p := Frames(rs), Frames(rs)[a];
    var run, bits' := Run(p, n), Toggled(bits, a, n);
    forall k | a <= k < a + n ensures fs[k] == NthFrame(p, k - a) {
      RunContiguous(rs, a, n, k - a);
    }
    forall x | x in run ensures x in FreeSet(bits, rs) && x !in FreeSet(bits', rs) {
      var k: nat :| k < n && x == NthFrame(p, k);
      assert x == fs[a + k];
      forall m | 0 <= m < |fs| && m != a + k ensures fs[m] != x {
        Distinct(rs, m, a + k);
      }
    }
    forall x | x in FreeSet(bits, rs) ensures x in FreeSet(bits', rs) || x in run {
      var k :| 0 <= k < |fs| && k < |bits| && bits[k] && x == fs[k];
      if a <= k < a + n {
        assert NthFrame(p, k - a) in run;
      }
    }
  }

  lemma Distinct(rs: seq<Region>, j: nat, k: nat)
    requires WellFormed(rs) && j < |Frames(rs)| && k < |Frames(rs)| && j != k
    ensures Frames(rs)[j] != Frames(rs)[k]
  {
    if j < k { FramesIncrease(rs, j, k); } else { FramesIncrease(rs, k, j); }
  }

  /** Setting a frame's bit adds exactly that frame. */
  lemma GiveFrame(bits: seq<bool>, rs: seq<Region>, k: nat)
    requires k < |bits| && k < |Frames(rs)|
    ensures FreeSet(bits[k := true], rs) == FreeSet(bits, rs) + {Frames(rs)[k]}
  {
    hide Frames;
    forall x | x in FreeSet(bits, rs) + {Frames(rs)[k]} ensures x in FreeSet(bits[k := true], rs) {
      if x == Frames(rs)[k] {
        assert bits[k := true][k];
      } else {
        var m :| 0 <= m < |Frames(rs)| && m < |bits| && bits[m] && x == Frames(rs)[m];
        assert bits[k := true][m];
      }
    }
  }

  /** What an allocation means for the set of free frames. */
  lemma AllocationFrames(bits: seq<bool>, rs: seq<Region>, n: nat)
    requires WellFormed(rs) && n >= 1 && |Frames(rs)| <= |bits| && Scan(bits, rs, n, 0, 0).Some?
    ensures
      var a := Scan(bits, rs, n, 0, 0).value;
      && a + n <= |Frames(rs)| && Frames(rs)[a] > 0
      && Run(Frames(rs)[a], n) <= FreeSet(bits, rs)
      && FreeSet(Toggled(bits, a, n), rs) == FreeSet(bits, rs) - Run(Frames(rs)[a], n)
      && forall k :: 0 <= k < n ==> Frames(rs)[a + k] == NthFrame(Frames(rs)[a], k)
  {
    hide Scan, OneRegion, Frames;
    ScanSound(bits, rs, n, 0, 0);
    var a := Scan(bits, rs, n, 0, 0).value;
    TakeRun(bits, rs, a, n);
    var i := FrameBounds(rs, a);
    forall k | 0 <= k < n ensures Frames(rs)[a + k] == NthFrame(Frames(rs)[a], k) {
      RunContiguous(rs, a, n, k);
    }
  }

  /** A one-frame request gets the lowest free frame, and fails only when none is free. */
  lemma OneFrame(bits: seq<bool>, rs: seq<Region>)
    requires WellFormed(rs) && |Frames(rs)| <= |bits|
    ensures
      var r := Scan(bits, rs, 1, 0, 0);
      && (r == None <==> FreeSet(bits, rs) == {})
      && (r.Some? ==>
            && r.value < |Frames(rs)|
            && Frames(rs)[r.value] in FreeSet(bits, rs)
            && forall x :: x in FreeSet(bits, rs) ==> Frames(rs)[r.value] <= x)
  {
    hide Scan, Frames, OneRegion;
    ScanSound(bits, rs, 1, 0, 0);
    ScanFirstFit(bits, rs, 1, 0, 0);
    var r := Scan(bits, rs, 1, 0, 0);
    if r.Some? {
      TakeRun(bits, rs, r.value, 1);
      assert NthFrame(Frames(rs)[r.value], 0) in Run(Frames(rs)[r.value], 1);
    }
    forall x | x in FreeSet(bits, rs) ensures r.Some? && Frames(rs)[r.value] <= x {
      var k :| 0 <= k < |Frames(rs)| && k < |bits| && bits[k] && x == Frames(rs)[k];
      SingleFits(rs, k);
      assert Good(bits, rs, 1, k);
      if r.value < k {
        FramesIncrease(rs, r.value, k);
      }
    }
  }

  lemma SingleFits(rs: seq<Region>, k: nat)
    requires WellFormed(rs) && k < |Frames(rs)|
    ensures OneRegion(rs, k, 1)
  {
    var i := FrameBounds(rs, k);
    assert AllIn(rs[i], Frames(rs), k, 1);
  }

  lemma ToggledTwice(bits: seq<bool>, a: nat, n: nat)
    ensures Toggled(Toggled(bits, a, n), a, n) == bits
  {
  }

  lemma GoodBits(bits: seq<bool>, rs: seq<Region>, n: nat, a: nat)
    requires Good(bits, rs, n, a)
    ensures a + n <= |bits| && forall k :: a <= k < a + n ==> bits[k]
  {
  }

  lemma ToggleNone(bits: seq<bool>, a: nat)
    ensures Toggled(bits, a, 0) == bits && forall paddr :: Run(paddr, 0) == {}
  {
  }

  /** All frames the allocator manages. */
  ghost function FrameSet(rs: seq<Region>): set<nat> {
    set k | 0 <= k < |Frames(rs)| :: Frames(rs)[k]
  }

  lemma FreeAreFrames(bits: seq<bool>, rs: seq<Region>)
    ensures FreeSet(bits, rs) <= FrameSet(rs)
  {
  }

  lemma SingleRun(paddr: nat)
    ensures Run(paddr, 1) == {paddr}
  {
    assert NthFrame(paddr, 0) in Run(paddr, 1);
  }

  lemma BehindFrame(bits: seq<bool>, rs: seq<Region>, paddr: nat) returns (k: nat)
    requires paddr in FrameSet(rs) && paddr !in FreeSet(bits, rs) && |Frames(rs)| <= |bits|
    ensures k < |Frames(rs)| && Frames(rs)[k] == paddr && !bits[k]
  {
    k :| 0 <= k < |Frames(rs)| && Frames(rs)[k] == paddr;
  }

  // ----- the bit behind an address

  /** The bit that is computed for an address, after `c` bytes of earlier regions, in
      32-bit arithmetic; `len` for an address above every region. */
  function IndexFor(rs: seq<Region>, paddr: nat, c: nat, len: nat): nat {
    if rs == [] then len
    else if paddr < rs[0].addr + rs[0].len then (c + paddr - rs[0].addr) % WORD / FOUR_KB
    else IndexFor(rs[1..], paddr, c + rs[0].len, len)
  }

  /** For a frame it is the frame's own bit. */
  lemma {:induction false} IndexOfFrame(rs: seq<Region>, k: nat, c: nat, len: nat)
    requires WellFormed(rs) && k < |Frames(rs)| && c % FOUR_KB == 0 && c + FOUR_KB * |Frames(rs)| < WORD
    ensures IndexFor(rs, Frames(rs)[k], c, len) == c / FOUR_KB + k
  {
    var n := rs[0].Count();
    if k < n {
      assert Frames(rs)[k] == rs[0].addr + FOUR_KB * k;
    } else {
      TailFrames(rs);
      PastHead(rs, k);
      hide Frames;
      IndexOfFrame(rs[1..], k - n, c + rs[0].len, len);
    }
  }

  lemma {:induction false} IndexAbove(rs: seq<Region>, paddr: nat, c: nat, len: nat)
    requires forall i :: 0 <= i < |rs| ==> rs[i].addr + rs[i].len <= paddr
    ensures IndexFor(rs, paddr, c, len) == len
  {
    if rs == [] {
    } else {
      assert rs[0].addr + rs[0].len <= paddr;
      IndexAbove(rs[1..], paddr, c + rs[0].len, len);
    }
  }

  lemma PastHead(rs: seq<Region>, k: nat)
    requires WellFormed(rs) && rs != [] && rs[0].Count() <= k < |Frames(rs)|
    ensures WellFormed(rs[1..]) && rs[0].len == FOUR_KB * rs[0].Count()
    ensures rs[0].addr + rs[0].len <= Frames(rs)[k]
  {
    TailFrames(rs);
    hide Frames;
    var i := FrameBounds(rs[1..], k - rs[0].Count());
    assert rs[1..][i] == rs[i + 1];
  }

  /** The bitmap after an address is freed: the bit is flipped, whatever it was. */
  function FreedBits(bits: seq<bool>, idx: nat, len: nat): seq<bool> {
    if idx == len || idx >= |bits| then bits else bits[idx := !bits[idx]]
  }

  lemma ClearedBit(bits: seq<bool>, rs: seq<Region>, k: nat)
    requires WellFormed(rs) && k < |bits| && k < |Frames(rs)|
    ensures Frames(rs)[k] !in FreeSet(bits[k := false], rs)
  {
    hide Frames;
    forall j | 0 <= j < |Frames(rs)| && j != k ensures Frames(rs)[j] != Frames(rs)[k] {
      Distinct(rs, j, k);
    }
  }

  /** Freeing adds exactly the frame at the address to the free frames if and only if
      there is a frame at the address and it is in use. */
  lemma FreesIff(bits: seq<bool>, rs: seq<Region>, paddr: nat, len: nat)
    requires WellFormed(rs) && |Frames(rs)| == len <= |bits| && FOUR_KB * len < WORD
    ensures
      var bits' := FreedBits(bits, IndexFor(rs, paddr, 0, len), len);
      FreeSet(bits', rs) == FreeSet(bits, rs) + {paddr} <==> paddr in FrameSet(rs) && paddr !in FreeSet(bits, rs)
  {
    var idx := IndexFor(rs, paddr, 0, len);
    var bits' := FreedBits(bits, idx, len);
    FreeAreFrames(bits', rs);
    if paddr in FrameSet(rs) {
      var k :| 0 <= k < |Frames(rs)| && Frames(rs)[k] == paddr;
      IndexOfFrame(rs, k, 0, len);
      hide Frames, IndexFor;
      SetBit(bits, rs, k);
      if bits[k] {
        ClearedBit(bits, rs, k);
      } else {
        ClearedBit(bits, rs, k);
        assert bits[k := false] == bits;
        GiveFrame(bits, rs, k);
      }
    }
  }

  lemma ToggleFree(bits: seq<bool>, a: nat, i: nat)
    requires a + i < |bits|
    ensures Toggled(bits, a, i)[a + i] == bits[a + i]
    ensures Toggled(bits, a, i + 1) == Toggled(bits, a, i)[a + i := !bits[a + i]]
  {
  }

  lemma InFree(bits: seq<bool>, rs: seq<Region>, k: nat)
    requires WellFormed(rs) && k < |Frames(rs)| <= |bits|
    ensures Frames(rs)[k] in FreeSet(bits, rs) <==> bits[k]
  {
    hide Frames;
    if !bits[k] {
      ClearedBit(bits, rs, k);
      assert bits[k := false] == bits;
    }
  }

  /** The `n` frames from `paddr` on are behind the bits from `a` on. */
  ghost predicate FrameRun(rs: seq<Region>, a: nat, n: nat, paddr: nat) {
    && a + n <= |Frames(rs)|
    && forall k :: a <= k < a + n ==> Frames(rs)[k] == NthFrame(paddr, k - a)
  }

  ghost predicate InUse(bits: seq<bool>, a: nat, n: nat) {
    a + n <= |bits| && forall k :: a <= k < a + n ==> !bits[k]
  }

  lemma RunFrame(rs: seq<Region>, a: nat, n: nat, paddr: nat, k: nat)
    requires WellFormed(rs) && FrameRun(rs, a, n, paddr) && k < |Frames(rs)|
    ensures Frames(rs)[k] in Run(paddr, n) <==> a <= k < a + n
  {
    hide Frames;
    if a <= k < a + n {
      assert NthFrame(paddr, k - a) in Run(paddr, n);
    } else if Frames(rs)[k] in Run(paddr, n) {
      var i: nat :| i < n && Frames(rs)[k] == NthFrame(paddr, i);
      assert Frames(rs)[a + i] == NthFrame(paddr, i);
      Distinct(rs, k, a + i);
    }
  }

  lemma AllFrames(bits: seq<bool>, rs: seq<Region>, a: nat, n: nat, paddr: nat, x: nat)
    requires FrameRun(rs, a, n, paddr) && x in FreeSet(bits, rs) + Run(paddr, n)
    ensures x in FrameSet(rs)
  {
    hide Frames;
    FreeAreFrames(bits, rs);
    if x in Run(paddr, n) {
      var i: nat :| i < n && x == NthFrame(paddr, i);
      assert Frames(rs)[a + i] == x;
    }
  }

  /** Freeing a run adds exactly its frames if and only if all of them are in use. */
  lemma RunFreesIff(bits: seq<bool>, rs: seq<Region>, a: nat, n: nat, paddr: nat)
    requires WellFormed(rs) && FrameRun(rs, a, n, paddr) && |Frames(rs)| <= |bits|
    ensures FreeSet(Toggled(bits, a, n), rs) == FreeSet(bits, rs) + Run(paddr, n) <==> InUse(bits, a, n)
  {
    hide Frames, FreeSet, Run, FrameRun, WellFormed;
    var bits' := Toggled(bits, a, n);
    forall k | 0 <= k < |Frames(rs)|
      ensures Frames(rs)[k] in FreeSet(bits, rs) <==> bits[k]
      ensures Frames(rs)[k] in FreeSet(bits', rs) <==> bits'[k]
      ensures Frames(rs)[k] in Run(paddr, n) <==> a <= k < a + n
    {
      InFree(bits, rs, k);
      InFree(bits', rs, k);
      RunFrame(rs, a, n, paddr, k);
    }
    RunBits(bits, rs, a, n, paddr);
    if InUse(bits, a, n) {
      FreeAreFrames(bits', rs);
      forall x | x in FreeSet(bits, rs) + Run(paddr, n) ensures x in FreeSet(bits', rs) {
        AllFrames(bits, rs, a, n, paddr, x);
        var k :| 0 <= k < |Frames(rs)| && Frames(rs)[k] == x;
      }
      forall x | x in FreeSet(bits', rs) ensures x in FreeSet(bits, rs) + Run(paddr, n) {
        var k :| 0 <= k < |Frames(rs)| && Frames(rs)[k] == x;
      }
    } else {
      var k :| a <= k < a + n && bits[k];
      assert Frames(rs)[k] in FreeSet(bits, rs) && Frames(rs)[k] !in FreeSet(bits', rs);
    }
  }

  lemma RunBits(bits: seq<bool>, rs: seq<Region>, a: nat, n: nat, paddr: nat)
    requires FrameRun(rs, a, n, paddr) && |Frames(rs)| <= |bits|
    ensures a + n <= |Frames(rs)|
  {
  }

  // ----- whole runs

  /** The bitmap, and the frames handed out. */
  datatype Use = Use(bits: seq<bool>, live: set<nat>)

  /** A request for `n` frames, or the return of the frame behind bit `k`. */
  datatype Request = Take(n: nat) | Give(k: nat)

  /** Only frames that are handed out are returned. */
  ghost predicate Proper(rs: seq<Region>, u: Use, r: Request) {
    r.Give? ==> r.k < |Frames(rs)| && r.k < |u.bits| && Frames(rs)[r.k] in u.live
  }

  /** What a request does: the scan and its toggled bits, or one toggled bit. */
  ghost function Served(rs: seq<Region>, u: Use, r: Request): Use
    requires Proper(rs, u, r)
  {
    match r
    case Take(n) =>
      var a := Scan(u.bits, rs, n, 0, 0);
      if a.None? || a.value >= |Frames(rs)| then u
      else Use(Toggled(u.bits, a.value, n), u.live + Run(Frames(rs)[a.value], n))
    case Give(k) => Use(u.bits[k := !u.bits[k]], u.live - {Frames(rs)[k]})
  }

  /** Free and live frames partition the frames of the regions, and the bits past the
      last frame are those of the bitmap `was`. */
  ghost predicate Partition(rs: seq<Region>, was: seq<bool>, u: Use) {
    && |was| == |u.bits| >= |Frames(rs)|
    && FreeSet(u.bits, rs) !! u.live && FreeSet(u.bits, rs) + u.live == FrameSet(rs)
    && u.bits[|Frames(rs)|..] == was[|Frames(rs)|..]
  }

  lemma TakePartition(rs: seq<Region>, was: seq<bool>, u: Use, n: nat)
    requires WellFormed(rs) && Partition(rs, was, u)
    ensures Partition(rs, was, Served(rs, u, Take(n)))
    ensures Served(rs, u, Take(n)).live >= u.live
    ensures Scan(u.bits, rs, n, 0, 0).Some? ==>
              var a := Scan(u.bits, rs, n, 0, 0).value;
              a + n <= |Frames(rs)| && n >= 1 && Run(Frames(rs)[a], n) !! u.live
                && Served(rs, u, Take(n)).live == u.live + Run(Frames(rs)[a], n)
  {
    hide Scan, Frames, FreeSet, FrameSet, Run;
    var r := Scan(u.bits, rs, n, 0, 0);
    if r.Some? {
      ScanSound(u.bits, rs, n, 0, 0);
      AllocationFrames(u.bits, rs, n);
    }
  }

  lemma SetBit(bits: seq<bool>, rs: seq<Region>, k: nat)
    requires k < |Frames(rs)| && k < |bits|
    ensures bits[k] ==> Frames(rs)[k] in FreeSet(bits, rs)
  {
    hide Frames;
  }

  lemma GivePartition(rs: seq<Region>, was: seq<bool>, u: Use, k: nat)
    requires WellFormed(rs) && Partition(rs, was, u) && Proper(rs, u, Give(k))
    ensures Partition(rs, was, Served(rs, u, Give(k)))
    ensures FreeSet(Served(rs, u, Give(k)).bits, rs) == FreeSet(u.bits, rs) + {Frames(rs)[k]}
  {
    hide Scan, Frames, FreeSet, FrameSet;
    SetBit(u.bits, rs, k);
    GiveFrame(u.bits, rs, k);
  }

  ghost predicate IsRun(rs: seq<Region>, run: seq<Use>, reqs: seq<Request>) {
    && |run| == |reqs| + 1
    && |run[0].bits| >= |Frames(rs)| && run[0].live == FrameSet(rs) - FreeSet(run[0].bits, rs)
    && forall i :: 0 <= i < |reqs| ==> Proper(rs, run[i], reqs[i]) && run[i + 1] == Served(rs, run[i], reqs[i])
  }

  /** Over every run of allocations and returns of live frames, from any bitmap: free
      and live frames partition the regions' frames, and no bit past the last frame
      is ever touched. */
  lemma {:induction false} EveryRunKeepsFrames(rs: seq<Region>, run: seq<Use>, reqs: seq<Request>, k: nat)
    requires WellFormed(rs) && IsRun(rs, run, reqs) && k < |run|
    ensures Partition(rs, run[0].bits, run[k])
    decreases k
  {
    hide Scan, Frames, FreeSet, FrameSet, Run, Served;
    if k == 0 {
      FreeAreFrames(run[0].bits, rs);
    } else {
      EveryRunKeepsFrames(rs, run, reqs, k - 1);
      var u, r := run[k - 1], reqs[k - 1];
      assert Proper(rs, u, r) && run[k] == Served(rs, u, r);
      if r.Take? {
        TakePartition(rs, run[0].bits, u, r.n);
      } else {
        GivePartition(rs, run[0].bits, u, r.k);
      }
    }
  }
}
