/** Where the heap's chunks come from: frames from the frame allocator, mapped at
    kernel addresses that the page tables leave free. */
module HeapGrowth {
  import opened Wrappers
  import opened HeapSpec
  import opened KernelHeap
  import PagingSpec
  import Paging
  import FrameSpec

  const PAGE_UNITS: nat := 512

  ghost predicate Mapped(mem: PagingSpec.Memory, kd: nat, u: nat) {
    PagingSpec.Lookup(mem, kd, u / PAGE_UNITS).Some?
  }

  /** All units of the heap, the static header and the unit before it are mapped. */
  ghost predicate Housed(base: nat, arena: set<nat>, mem: PagingSpec.Memory, kd: nat) {
    && base >= 1 && Mapped(mem, kd, base) && Mapped(mem, kd, base - 1)
    && forall u :: u in arena ==> Mapped(mem, kd, u)
  }

  /** Chunks hold whole pages; up to 4 MB nothing wraps around. */
  lemma ChunkPages(nunits: nat)
    requires ChunkFrames(nunits) <= PagingSpec.ENTRIES
    ensures ChunkFrames(nunits) >= 1 && ChunkUnits(nunits) == PAGE_UNITS * ChunkFrames(nunits)
    ensures PagingSpec.RoundUp(ChunkFrames(nunits) * FRAME_BYTES) == ChunkFrames(nunits) * FRAME_BYTES
  {
  }

  /** A chunk on pages that were not mapped is fresh and clear of the static header. */
  lemma UnmappedIsFresh(base: nat, s: State, mem: PagingSpec.Memory, kd: nat, p: nat, n: nat)
    requires Housed(base, s.arena, mem, kd) && PagingSpec.Unmapped(mem, kd, p, n) && n >= 1
    ensures FreshChunk(base, s, p * PAGE_UNITS, n * PAGE_UNITS)
  {
    hide PagingSpec.Lookup;
    var v, k := p * PAGE_UNITS, n * PAGE_UNITS;
    forall u: nat | v <= u < v + k ensures !Mapped(mem, kd, u) {
      assert p <= u / PAGE_UNITS < p + n;
    }
  }

  lemma StillMapped(mem: PagingSpec.Memory, mem': PagingSpec.Memory, kd: nat, p: nat, paddr: nat, n: nat, u: nat)
    requires PagingSpec.Overridden(mem, mem', kd, p, paddr, n, 1, 0) && u / PAGE_UNITS < PagingSpec.PAGES
    requires Mapped(mem, kd, u) || p <= u / PAGE_UNITS < p + n
    ensures Mapped(mem', kd, u)
  {
    hide PagingSpec.Lookup;
  }

  /** Mapping more pages keeps everything housed, and houses the new units. */
  lemma StillHoused(base: nat, arena: set<nat>, mem: PagingSpec.Memory, mem': PagingSpec.Memory, kd: nat,
                    p: nat, paddr: nat, n: nat, k: nat)
    requires Housed(base, arena, mem, kd) && PagingSpec.Overridden(mem, mem', kd, p, paddr, n, 1, 0) && k <= n
    requires p + n <= PagingSpec.PAGES
    requires base / PAGE_UNITS < PagingSpec.PAGES && forall u :: u in arena ==> u / PAGE_UNITS < PagingSpec.PAGES
    ensures Housed(base, arena + Range(p * PAGE_UNITS, k * PAGE_UNITS), mem', kd)
  {
    var chunk := Range(p * PAGE_UNITS, k * PAGE_UNITS);
    assert (base - 1) / PAGE_UNITS <= base / PAGE_UNITS;
    StillMapped(mem, mem', kd, p, paddr, n, base);
    StillMapped(mem, mem', kd, p, paddr, n, base - 1);
    forall u | u in arena + chunk ensures Mapped(mem', kd, u) {
      if u in arena {
        assert Mapped(mem, kd, u);
      } else {
        assert p <= u / PAGE_UNITS < p + n;
      }
      StillMapped(mem, mem', kd, p, paddr, n, u);
    }
  }

  /** What is housed lies in the address space. */
  lemma HousedBelow(base: nat, arena: set<nat>, mem: PagingSpec.Memory, kd: nat)
    requires Housed(base, arena, mem, kd) && PagingSpec.Tables(mem)
    ensures base / PAGE_UNITS < PagingSpec.PAGES && forall u :: u in arena ==> u / PAGE_UNITS < PagingSpec.PAGES
  {
    forall u: nat | Mapped(mem, kd, u) ensures u / PAGE_UNITS < PagingSpec.PAGES {
    }
  }

  lemma InvTables(mem: PagingSpec.Memory, dirs: set<nat>, free: set<nat>, pool: set<nat>, kd: nat, kp: nat)
    requires PagingSpec.Inv(mem, dirs, free, pool, kd, kp)
    ensures PagingSpec.Tables(mem) && kd in dirs
  {
  }

  lemma RunBelow(bits: seq<bool>, rs: seq<FrameSpec.Region>, n: nat)
    requires FrameSpec.WellFormed(rs) && n >= 1 && |FrameSpec.Frames(rs)| <= |bits|
    requires FrameSpec.Scan(bits, rs, n, 0, 0).Some?
    ensures
      var a := FrameSpec.Scan(bits, rs, n, 0, 0).value;
      && a < |FrameSpec.Frames(rs)|
      && var paddr := FrameSpec.Frames(rs)[a];
         paddr > 0 && paddr % FRAME_BYTES == 0 && paddr + n * FRAME_BYTES <= WORD
  {
    hide FrameSpec.Scan, FrameSpec.Frames;
    FrameSpec.AllocationFrames(bits, rs, n);
    var a := FrameSpec.Scan(bits, rs, n, 0, 0).value;
    var i := FrameSpec.FrameBounds(rs, a);
    var j := FrameSpec.FrameBounds(rs, a + n - 1);
    assert FrameSpec.Frames(rs)[a + (n - 1)] == FrameSpec.NthFrame(FrameSpec.Frames(rs)[a], n - 1);
  }

  /** Takes `n` contiguous frames; the page tables stay clear of them. */
  method TakeFrames(m: Paging.Paging, n: nat) returns (paddr: nat)
    requires m.Valid() && n >= 1
    modifies m.pfa.words
    ensures m.Valid()
    ensures paddr == 0 <==> FrameSpec.Scan(old(m.pfa.Bits()), m.pfa.regions, n, 0, 0) == None
    ensures paddr == 0 ==> m.pfa.FreeFrames() == old(m.pfa.FreeFrames())
    ensures paddr != 0 ==>
              && paddr % FRAME_BYTES == 0 && paddr + n * FRAME_BYTES <= WORD
              && FrameSpec.Run(paddr, n) <= old(m.pfa.FreeFrames())
              && m.pfa.FreeFrames() == old(m.pfa.FreeFrames()) - FrameSpec.Run(paddr, n)
  {
    hide FrameSpec.Scan, FrameSpec.Frames, FrameSpec.FreeSet, FrameSpec.Run, FrameSpec.Good, PagingSpec.Inv;
    ghost var bits, r := m.pfa.Bits(), FrameSpec.Scan(m.pfa.Bits(), m.pfa.regions, n, 0, 0);
    ghost var free, pool := m.pfa.FreeFrames(), FrameSpec.FrameSet(m.pfa.regions);
    if r.Some? {
      FrameSpec.AllocationFrames(bits, m.pfa.regions, n);
      RunBelow(bits, m.pfa.regions, n);
    }
    paddr := m.pfa.Allocate(n);
    PagingSpec.FewerFree(m.mem, m.dirs, free, m.pfa.FreeFrames(), pool, m.kd, m.kp);
  }

  /** Why the heap could not grow: no run of frames was found, no address range, or no
      frame for a page table. */
  ghost predicate CannotGrow(bits: seq<bool>, regions: seq<FrameSpec.Region>, mem: PagingSpec.Memory, kd: nat,
                             frames: nat,
                             free: set<nat>) {
    || FrameSpec.Scan(bits, regions, frames, 0, 0) == None
    || PagingSpec.NoneIn(mem, kd, frames, PagingSpec.KERNEL_SLOT * PagingSpec.ENTRIES, PagingSpec.PAGES)
    || free == {}
  }

  /** Maps `n` pages of frames from `paddr` on at a free kernel address. */
  method MapFrames(m: Paging.Paging, paddr: nat, n: nat) returns (vaddr: nat)
    requires m.Valid() && 1 <= n <= PagingSpec.ENTRIES && paddr % FRAME_BYTES == 0 && paddr + n * FRAME_BYTES <= WORD
    modifies m`mem, m.pfa.words
    ensures m.Valid()
    ensures vaddr % FRAME_BYTES == 0 && vaddr + n * FRAME_BYTES <= WORD
    ensures vaddr != 0 ==>
              && PagingSpec.Overridden(old(m.mem), m.mem, m.kd, vaddr / FRAME_BYTES, paddr, n, 1, 0)
              && PagingSpec.Unmapped(old(m.mem), m.kd, vaddr / FRAME_BYTES, n)
    ensures vaddr == 0 ==>
              || PagingSpec.NoneIn(old(m.mem), m.kd, n, PagingSpec.KERNEL_SLOT * PagingSpec.ENTRIES, PagingSpec.PAGES)
              || m.pfa.FreeFrames() == {}
    ensures exists p: nat, k: nat ::
              p + k <= PagingSpec.PAGES && PagingSpec.Overridden(old(m.mem), m.mem, m.kd, p, paddr, k, 1, 0)
  {
    hide PagingSpec.Inv, PagingSpec.Lookup, PagingSpec.TableOf, PagingSpec.Overridden, PagingSpec.Unmapped;
    hide PagingSpec.NoneIn;
    hide PagingSpec.OthersKept, FrameSpec.FreeSet, FrameSpec.FrameSet, FrameSpec.WellFormed, FrameSpec.Frames;
    var bytes := n * FRAME_BYTES;
    assert PagingSpec.RoundUp(bytes) == bytes && bytes / FRAME_BYTES == n;
    ghost var mem0 := m.mem;
    PagingSpec.NothingYet(mem0, m.dirs, m.kd, 0, paddr, 1, 0);
    InvTables(mem0, m.dirs, m.pfa.FreeFrames(), FrameSpec.FrameSet(m.pfa.regions), m.kd, m.kp);
    vaddr := m.FindNextVaddr(bytes);
    if vaddr == 0 {
      return;
    }
    PagingSpec.SuitableRange(mem0, m.kd, vaddr / FRAME_BYTES, n);
    var mapped;
    ghost var k;
    mapped, k := m.Map(m.kd, paddr, vaddr, bytes, 1, 0);
    if mapped < bytes {
      vaddr := 0;
    }
  }

  /** Acquires a chunk for `nunits` units: what it hands out is always fresh address
      space, mapped to frames that were free, and nothing that was mapped is lost. */
  method AcquireChunk(base: nat, ghost s: State, m: Paging.Paging, nunits: nat) returns (grant: Option<nat>)
    requires m.Valid() && Housed(base, s.arena, m.mem, m.kd) && ChunkFrames(nunits) <= PagingSpec.ENTRIES
    modifies m`mem, m.pfa.words
    ensures m.Valid() && Housed(base, s.arena, m.mem, m.kd)
    ensures grant.None? ==>
              CannotGrow(old(m.pfa.Bits()), m.pfa.regions, old(m.mem), m.kd, ChunkFrames(nunits), m.pfa.FreeFrames())
    ensures grant.Some? ==>
              var v, n := grant.value, ChunkUnits(nunits);
              && v > 0 && v * HEADER_BYTES + ChunkFrames(nunits) * FRAME_BYTES <= WORD
              && FreshChunk(base, s, v, n)
              && Housed(base, s.arena + Range(v, n), m.mem, m.kd)
  {
    hide PagingSpec.Inv, PagingSpec.Lookup, PagingSpec.Overridden, PagingSpec.Unmapped, PagingSpec.NoneIn;
    hide FrameSpec.Scan, FrameSpec.Run, FrameSpec.FreeSet, FrameSpec.FrameSet, FrameSpec.WellFormed, FrameSpec.Frames;
    hide Housed, FreshChunk, Range, ChunkFrames, ChunkUnits;
    ChunkPages(nunits);
    var frames := ChunkFrames(nunits);
    ghost var mem0 := m.mem;
    InvTables(mem0, m.dirs, m.pfa.FreeFrames(), FrameSpec.FrameSet(m.pfa.regions), m.kd, m.kp);
    HousedBelow(base, s.arena, mem0, m.kd);
    var paddr := TakeFrames(m, frames);
    if paddr == 0 {
      return None;
    }
    var vaddr := MapFrames(m, paddr, frames);
    ghost var p: nat, k: nat :| p + k <= PagingSpec.PAGES &&
        PagingSpec.Overridden(mem0, m.mem, m.kd, p, paddr, k, 1, 0);
    StillHoused(base, s.arena, mem0, m.mem, m.kd, p, paddr, k, 0);
    NoUnits(s.arena, p * PAGE_UNITS);
    if vaddr == 0 {
      return None;
    }
    p := vaddr / FRAME_BYTES;
    StillHoused(base, s.arena, mem0, m.mem, m.kd, p, paddr, frames, frames);
    UnmappedIsFresh(base, s, mem0, m.kd, p, frames);
    return Some(vaddr / HEADER_BYTES);
  }

  lemma NoUnits(arena: set<nat>, v: nat)
    ensures arena + Range(v, 0) == arena
  {
  }

  // ----- the heap on its page tables

  /** Heap, page tables and frame allocator are sound, and the heap is mapped. */
  ghost predicate Together(heap: KernelHeap, m: Paging.Paging)
    reads heap, m, m.pfa, m.pfa.words
  {
    heap.Valid() && m.Valid() && Housed(heap.base, heap.s.arena, m.mem, m.kd)
  }

  /** Serving a request hands out units of the heap and changes none. */
  lemma ServedInside(base: nat, s: State, f: nat, n: nat, t: State, r: int, fp: int)
    requires Inv(base, s) && n >= 1 && ServedFrom(s, f, n, t, r, fp)
    ensures t.arena == s.arena && r >= 1 && forall u :: r - 1 <= u < r - 1 + n ==> u in s.arena
  {
    hide Cut;
    var i := ServedAt(s, f, n, t, r, fp);
    forall u: nat | s.ring[i].start <= u < s.ring[i].End() ensures u in s.arena {
      BlockUnits(s.ring, i, u);
    }
  }

  lemma ServedMapped(base: nat, s: State, f: nat, n: nat, t: State, r: int, fp: int, mem: PagingSpec.Memory, kd: nat)
    requires Inv(base, s) && n >= 1 && ServedFrom(s, f, n, t, r, fp) && Housed(base, s.arena, mem, kd)
    ensures Housed(base, t.arena, mem, kd) && forall u: nat :: r - 1 <= u < r - 1 + n ==> Mapped(mem, kd, u)
  {
    hide Inv, ServedFrom;
    ServedInside(base, s, f, n, t, r, fp);
  }

  lemma GrownArena(base: nat, s: State, v: nat, n: nat)
    requires Inv(base, s) && FreshChunk(base, s, v, n)
    ensures Inv(base, Grown(s, v, n)) && Grown(s, v, n).arena == s.arena + Range(v, n)
  {
    GrownInv(base, s, v, n);
  }

  lemma GrownFrom(s: State, v: nat, k: nat, n: nat, t: State, r: int, fp: int) returns (f: nat)
    requires ServedGrown(s, v, k, n, t, r, fp)
    ensures Separated(s.ring) && ServedFrom(Grown(s, v, k), f, n, t, r, fp)
  {
    hide Separated, ServedFrom, Freed, Acquired, InFront;
    f :| f < |Grown(s, v, k).ring| && InFront(s.ring, v, Grown(s, v, k).ring[f].start)
         && ServedFrom(Grown(s, v, k), f, n, t, r, fp);
  }

  lemma InvSeparated(base: nat, s: State)
    requires Inv(base, s)
    ensures Separated(s.ring)
  {
  }

  /** Allocates from a heap that lives on the page tables: a chunk is acquired only
      when nothing fits, and every unit handed out is mapped. */
  method KMallocMapped(heap: KernelHeap, m: Paging.Paging, nbytes: nat) returns (r: int, ghost grant: Option<nat>)
    requires Together(heap, m) && nbytes < WORD && ChunkFrames(UnitsFor(nbytes)) <= PagingSpec.ENTRIES
    modifies heap, m`mem, m.pfa.words
    ensures Together(heap, m)
    ensures nbytes == 0 || HasFit(old(heap.s).ring, UnitsFor(nbytes)) ==>
              grant.None? && m.mem == old(m.mem) && m.pfa.words[..] == old(m.pfa.words[..])
    ensures r == 0 <==> nbytes == 0 || (!HasFit(old(heap.s).ring, UnitsFor(nbytes)) && grant.None?)
    ensures r == 0 ==> heap.s == old(heap.s)
    ensures r == 0 && nbytes != 0 ==>
              CannotGrow(old(m.pfa.Bits()), m.pfa.regions, old(m.mem), m.kd, ChunkFrames(UnitsFor(nbytes)),
                  m.pfa.FreeFrames())
    ensures r != 0 && grant.None? ==>
              ServedFrom(old(heap.s), old(if heap.freep == 0 then 0 else heap.at), UnitsFor(nbytes), heap.s, r,
                         heap.freep)
    ensures r != 0 && grant.Some? ==>
              ServedGrown(old(heap.s), grant.value, ChunkUnits(UnitsFor(nbytes)), UnitsFor(nbytes), heap.s, r,
                          heap.freep)
    ensures r != 0 ==> forall u: nat :: r - 1 <= u < r - 1 + UnitsFor(nbytes) ==> Mapped(m.mem, m.kd, u)
  {
    hide Inv, Housed, Mapped, HasFit, ServedFrom, ServedGrown, CannotGrow, FreshChunk, Range, Freed, Acquired;
    hide ChunkFrames, ChunkUnits, UnitsFor, PagingSpec.Inv, PagingSpec.Lookup, Separated;
    hide FrameSpec.FreeSet, FrameSpec.FrameSet, FrameSpec.WellFormed, FrameSpec.Frames, FrameSpec.Scan;
    ghost var n, s0, f0 := UnitsFor(nbytes), heap.s, if heap.freep == 0 then 0 else heap.at;
    InvSeparated(heap.base, s0);
    grant := None;
    r := heap.KMalloc(nbytes, None);
    if r != 0 {
      assert HasFit(s0.ring, n);
      ServedMapped(heap.base, s0, f0, n, heap.s, r, heap.freep, m.mem, m.kd);
      return;
    }
    if nbytes == 0 {
      return;
    }
    var g := AcquireChunk(heap.base, heap.s, m, UnitsFor(nbytes));
    grant := g;
    if g.None? {
      return;
    }
    r := heap.KMalloc(nbytes, g);
    ghost var s1 := Grown(s0, g.value, ChunkUnits(n));
    ghost var f := GrownFrom(s0, g.value, ChunkUnits(n), n, heap.s, r, heap.freep);
    GrownArena(heap.base, s0, g.value, ChunkUnits(n));
    ServedMapped(heap.base, s1, f, n, heap.s, r, heap.freep, m.mem, m.kd);
  }

  ghost predicate IsFreed(s: State, h: int, t: State) {
    Separated(s.ring) && h in s.live && t == Freed(s, h)
  }

  /** Freeing touches no page table and no frame, and leaves the heap mapped. */
  method KFreeMapped(heap: KernelHeap, m: Paging.Paging, ap: int)
    requires Together(heap, m) && (ap != 0 ==> ap >= 1 && ap - 1 in heap.s.live)
    modifies heap
    ensures Together(heap, m) && heap.s.arena == old(heap.s).arena
    ensures ap != 0 ==> IsFreed(old(heap.s), ap - 1, heap.s)
    ensures ap == 0 ==> heap.s == old(heap.s)
  {
    hide Housed, Insert, Below, PagingSpec.Inv;
    heap.KFree(ap);
  }
}
