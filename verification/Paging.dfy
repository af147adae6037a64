/** The kernel's paging code: tables reached through one temporary slot that sits
    inside the kernel table, and frames for new tables from the allocator. */
module Paging {
  import opened Wrappers
  import opened PagingSpec
  import opened UnmapSpec
  import opened TableRuns
  import FrameSpec
  import FrameAllocator

  class Paging {
    const kd: nat
    const kp: nat
    const pfa: FrameAllocator.FrameAllocator
    var mem: Memory
    ghost var dirs: set<nat>

    ghost predicate Valid()
      reads this, pfa, pfa.words
    {
      && pfa.Valid()
      && Inv(mem, dirs, pfa.FreeFrames(), FrameSpec.FrameSet(pfa.regions), kd, kp)
    }

    constructor (kd: nat, kp: nat, pfa: FrameAllocator.FrameAllocator, mem: Memory, ghost dirs: set<nat>)
      requires pfa.Valid()
      requires Inv(mem, dirs, pfa.FreeFrames(), FrameSpec.FrameSet(pfa.regions), kd, kp)
      ensures Valid() && this.kd == kd && this.kp == kp && this.pfa == pfa && this.mem == mem && this.dirs == dirs
    {
      this.kd, this.kp, this.pfa, this.mem, this.dirs := kd, kp, pfa, mem, dirs;
    }

    ghost predicate Slotted()
      reads this
    {
      kp in mem && |mem[kp]| == ENTRIES
    }

    // ----- the temporary slot

    function TemporaryEntry(): Entry
      requires Slotted()
      reads this
    {
      mem[kp][TMP_IDX]
    }

    /** The frame seen through the temporary slot. */
    function Window(): nat
      requires Slotted()
      reads this
    {
      Addr(TemporaryEntry())
    }

    method SetTemporaryEntry(e: Entry)
      requires Slotted()
      modifies `mem
      ensures Slotted() && mem == Showing(old(mem), kp, e)
    {
      mem := mem[kp := mem[kp][TMP_IDX := e]];
    }

    method MapTemporary(paddr: nat)
      requires Slotted() && paddr % FOUR_KB == 0 && paddr < WORD
      modifies `mem
      ensures Slotted() && mem == Showing(old(mem), kp, MakePte(paddr, 1, 0)) && Window() == paddr
    {
      MadeEntries(paddr, 0, 1, 0);
      mem := mem[kp := mem[kp][TMP_IDX := MakePte(paddr, 1, 0)]];
    }

    /** Fills entries of the table in the window, up to the first one in the way. */
    method PtMap(slot: nat, paddr: nat, vaddr: nat, size: nat, rw: nat, pl: nat) returns (mapped: nat)
      requires Slotted() && Window() in mem && |mem[Window()]| == ENTRIES
      requires Window() == kp ==> slot == KERNEL_SLOT
      requires size % FOUR_KB == 0
      modifies `mem
      ensures mapped % FOUR_KB == 0 && mapped <= size
      ensures
        var t, i, m := old(Window()), vaddr / FOUR_KB % ENTRIES, mapped / FOUR_KB;
        && i + m <= ENTRIES
        && mem == old(mem)[t := Filled(old(mem)[t], i, m, paddr, rw, pl)]
        && Clear(old(mem)[t], slot, i, m)
        && (mapped < size ==> Blocked(old(mem)[t], slot, i + m))
    {
      hide Filled, MakePte, Clear;
      ghost var t, rows := Window(), mem[Window()];
      ghost var i: nat := vaddr / FOUR_KB % ENTRIES;
      var idx := vaddr / FOUR_KB % ENTRIES;
      var p := paddr;
      mapped := 0;
      ghost var m: nat := 0;
      FillNothing(rows, i, paddr, rw, pl);
      ClearStart(rows, slot, i);
      while mapped < size && idx < ENTRIES
        invariant mapped == m * FOUR_KB && mapped <= size && idx == i + m <= ENTRIES && p == paddr + FOUR_KB * m
        invariant Slotted() && Window() == t
        invariant mem == old(mem)[t := Filled(rows, i, m, paddr, rw, pl)] && Clear(rows, slot, i, m)
      {
        assert mapped / FOUR_KB == m;
        FillNext(rows, i, m, paddr, rw, pl);
        if IsPresent(mem[Window()][idx]) {
          return;
        } else if slot == KERNEL_SLOT && idx == TMP_IDX {
          return;
        }
        ClearNext(rows, slot, i, m);
        mem := mem[Window() := mem[Window()][idx := MakePte(p, rw, pl)]];
        p := p + FOUR_KB;
        mapped := mapped + FOUR_KB;
        idx := idx + 1;
        m := m + 1;
      }
      assert mapped / FOUR_KB == m;
    }

    /** One frame from the allocator, or 0 if none is free. */
    method AllocateFrame() returns (f: nat)
      requires pfa.Valid()
      modifies pfa.words
      ensures pfa.Valid() && f % FOUR_KB == 0 && f < WORD
      ensures f == 0 <==> old(pfa.FreeFrames()) == {}
      ensures f == 0 ==> pfa.FreeFrames() == old(pfa.FreeFrames())
      ensures f != 0 ==>
                && f in old(pfa.FreeFrames()) && f in FrameSpec.FrameSet(pfa.regions)
                && pfa.FreeFrames() == old(pfa.FreeFrames()) - {f}
    {
      hide FrameSpec.Scan, FrameSpec.Good, FrameSpec.FreeSet, FrameSpec.Frames;
      ghost var bits, r := pfa.Bits(), FrameSpec.Scan(pfa.Bits(), pfa.regions, 1, 0, 0);
      FrameSpec.OneFrame(bits, pfa.regions);
      FrameSpec.FreeAreFrames(bits, pfa.regions);
      if r.Some? {
        FrameSpec.AllocationFrames(bits, pfa.regions, 1);
        ghost var i := FrameSpec.FrameBounds(pfa.regions, r.value);
        FrameSpec.SingleRun(FrameSpec.Frames(pfa.regions)[r.value]);
      }
      f := pfa.Allocate(1);
    }

    /** The first half of a mapping step: the table behind slot `s`, existing or
        new and cleared, brought into the window. */
    method OpenTable(d: nat, s: nat) returns (ok: bool, t: nat)
      requires Valid() && d in dirs && s < ENTRIES
      modifies `mem, pfa.words
      ensures pfa.Valid()
      ensures ok <==> TableOf(old(mem), d, s).Some? || old(pfa.FreeFrames()) != {}
      ensures !ok ==> mem == old(mem) && pfa.FreeFrames() == old(pfa.FreeFrames())
      ensures ok ==> t % FOUR_KB == 0 && t < WORD && kp in old(mem) && |old(mem)[kp]| == ENTRIES
      ensures ok ==> Slotted() && Window() == t && t in mem && |mem[t]| == ENTRIES && (t == kp ==> s == KERNEL_SLOT)
      ensures ok && TableOf(old(mem), d, s).Some? ==>
                && t == TableOf(old(mem), d, s).value
                && mem == Showing(old(mem), kp, MakePte(t, 1, 0))
                && pfa.FreeFrames() == old(pfa.FreeFrames())
      ensures ok && TableOf(old(mem), d, s) == None ==>
                && t in old(pfa.FreeFrames()) && t in FrameSpec.FrameSet(pfa.regions) && t != kp
                && pfa.FreeFrames() == old(pfa.FreeFrames()) - {t}
                && mem == Showing(old(mem)[t := NoEntries()], kp, MakePte(t, 1, 0))
    {
      hide Inv, MakePte;
      KernelTable(mem, dirs, pfa.FreeFrames(), FrameSpec.FrameSet(pfa.regions), kd, kp);
      DirTable(mem, dirs, pfa.FreeFrames(), FrameSpec.FrameSet(pfa.regions), kd, kp, d, s);
      TestsAgree(mem[d][s]);
      AddrAligned(mem[d][s]);
      if !IsPresent(mem[d][s]) {
        t := AllocateFrame();
        if t == 0 {
          return false, 0;
        }
        MapTemporary(t);
        ShowScratch(old(mem), kp, t, NoEntries(), MakePte(t, 1, 0));
        mem := mem[Window() := NoEntries()];
      } else {
        t := Addr(mem[d][s]);
        MapTemporary(t);
      }
      ok := true;
    }
  
    /** A mapping step has table `t` in the window, over the memory `base`. */
    ghost predicate Opened(base: Memory, d: nat, s: nat, t: nat)
      reads this
    {
      && kp in base && |base[kp]| == ENTRIES && t in base && |base[t]| == ENTRIES
      && d in base && |base[d]| == ENTRIES && d != t && d != kp
      && (t == kp ==> s == KERNEL_SLOT)
      && Slotted() && Window() == t && mem == Showing(base, kp, MakePte(t, 1, 0))
    }

    /** The second half of a mapping step: fill entries through the window, enter a
        new table in the directory, and put the temporary entry back. */
    method FillTable(d: nat, s: nat, t: nat, paddr: nat, vaddr: nat, size: nat, rw: nat, pl: nat, tmp: Entry,
                     ghost base: Memory) returns (mapped: nat)
      requires Opened(base, d, s, t) && tmp == base[kp][TMP_IDX] && s < ENTRIES && size % FOUR_KB == 0
      modifies `mem
      ensures mapped % FOUR_KB == 0 && mapped <= size
      ensures
        var i, m := vaddr / FOUR_KB % ENTRIES, mapped / FOUR_KB;
        var rows := Filled(base[t], i, m, paddr, rw, pl);
        && Clear(base[t], s, i, m)
        && (mapped < size ==> Blocked(base[t], s, i + m))
        && (m == 0 ==> mem == base)
        && mem == if m == 0 || IsPresent(base[d][s]) then base[t := rows]
                  else base[t := rows][d := base[d][s := MakePde(t, 0, rw, pl)]]
    {
      hide Filled, MakePte, MakePde, Clear, Blocked;
      mapped := PtMap(s, paddr, vaddr, size, rw, pl);
      ghost var i, m: nat := vaddr / FOUR_KB % ENTRIES, mapped / FOUR_KB;
      if t == kp {
        WindowEntry(base[t], MakePte(t, 1, 0), i, m);
      }
      ClearBound(base[t], s, i, m);
      FinishFill(base, kp, d, s, t, i, m, paddr, rw, pl, MakePde(t, 0, rw, pl));
      if mapped == 0 {
        SetTemporaryEntry(tmp);
        return;
      }
      if !IsPresent(mem[d][s]) {
        mem := mem[d := mem[d][s := MakePde(t, 0, rw, pl)]];
      }
      SetTemporaryEntry(tmp);
    }
  
    /** One step of a mapping: as many pages as fit behind the slot of `vaddr`, up
        to the first one in the way; 0 if there is none or no table frame. */
    method MapSlot(d: nat, paddr: nat, vaddr: nat, size: nat, rw: nat, pl: nat) returns (mapped: nat, ghost t: nat)
      requires Valid() && d in dirs && size % FOUR_KB == 0 && vaddr < WORD
      modifies `mem, pfa.words
      ensures pfa.Valid() && mapped % FOUR_KB == 0 && mapped <= size && t % FOUR_KB == 0 && t < WORD
      ensures
        var s, i, m := vaddr / FOUR_KB / ENTRIES, vaddr / FOUR_KB % ENTRIES, mapped / FOUR_KB;
        var rows := RowsBehind(old(mem), d, s);
        && Clear(rows, s, i, m)
        && (mapped < size ==>
              Blocked(rows, s, i + m) || (TableOf(old(mem), d, s) == None && old(pfa.FreeFrames()) == {}))
        && SlotMapped(old(mem), old(pfa.FreeFrames()), FrameSpec.FrameSet(pfa.regions), mem, pfa.FreeFrames(),
                      d, s, t, i, m, paddr, rw, pl)
    {
      hide Inv, Filled, MakePte, MakePde, Clear, Blocked, Sane, Addr;
      hide FrameSpec.FreeSet, FrameSpec.FrameSet, FrameSpec.WellFormed, FrameSpec.Frames;
      var s := vaddr / FOUR_KB / ENTRIES;
      KernelTable(mem, dirs, pfa.FreeFrames(), FrameSpec.FrameSet(pfa.regions), kd, kp);
      DirTable(mem, dirs, pfa.FreeFrames(), FrameSpec.FrameSet(pfa.regions), kd, kp, d, s);
      TestsAgree(mem[d][s]);
      var tmp := TemporaryEntry();
      var ok, table := OpenTable(d, s);
      t := table;
      if !ok {
        ClearStart(RowsBehind(mem, d, s), s, vaddr / FOUR_KB % ENTRIES);
        return 0, 0;
      }
      ghost var base := if TableOf(old(mem), d, s).Some? then old(mem) else old(mem)[t := NoEntries()];
      assert base[t] == RowsBehind(old(mem), d, s);
      mapped := FillTable(d, s, table, paddr, vaddr, size, rw, pl, tmp, base);
      OverwriteRows(old(mem), t, NoEntries(), Filled(base[t], vaddr / FOUR_KB % ENTRIES, mapped / FOUR_KB, paddr, rw,
                    pl));
    }
  
    /** The state a mapping loop is in after `n` pages. */
    ghost predicate MappedSoFar(mem0: Memory, free0: set<nat>, tmp: Entry, d: nat, p: nat, paddr: nat, n: nat,
                                rw: nat, pl: nat)
      reads this, pfa, pfa.words
    {
      && Valid()
      && pfa.FreeFrames() <= free0 && FreshTables(mem0, mem, dirs, d, free0)
      && FreshRights(mem0, mem, dirs, d, rw, pl)
      && Slotted() && TemporaryEntry() == tmp
      && Overridden(mem0, mem, d, p, paddr, n, rw, pl)
      && Unmapped(mem0, d, p, n)
      && OthersKept(mem0, mem, dirs, d)
    }

    /** One mapping step on behalf of the loop below. */
    method MapMore(d: nat, paddr: nat, vaddr: nat, size: nat, rw: nat, pl: nat,
                   ghost mem0: Memory, ghost free0: set<nat>, ghost tmp: Entry,
                   ghost p0: nat, ghost paddr0: nat, ghost n: nat)
      returns (mapped: nat)
      requires MappedSoFar(mem0, free0, tmp, d, p0, paddr0, n, rw, pl) && d in dirs
      requires size > 0 && size % FOUR_KB == 0 && vaddr % FOUR_KB == 0 && paddr % FOUR_KB == 0
      requires vaddr + size <= WORD && paddr + size <= WORD
      requires vaddr / FOUR_KB == p0 + n && paddr == paddr0 + FOUR_KB * n
      modifies `mem, pfa.words
      ensures mapped % FOUR_KB == 0 && mapped <= size
      ensures MappedSoFar(mem0, free0, tmp, d, p0, paddr0, n + mapped / FOUR_KB, rw, pl)
      ensures mapped == 0 ==>
                || pfa.FreeFrames() == {}
                || Lookup(old(mem), d, p0 + n).Some? || p0 + n == TMP_PAGE
    {
      hide Inv, Lookup, SlotMapped, Clear, Overridden, Unmapped, OthersKept, FreshTables, FreshRights, RowsBehind;
      hide TableOf;
      hide FrameSpec.FreeSet, FrameSpec.FrameSet, FrameSpec.WellFormed, FrameSpec.Frames;
      ghost var free, pool := pfa.FreeFrames(), FrameSpec.FrameSet(pfa.regions);
      ghost var p: nat := vaddr / FOUR_KB;
      ghost var t;
      mapped, t := MapSlot(d, paddr, vaddr, size, rw, pl);
      ghost var m: nat := mapped / FOUR_KB;
      MapStep(old(mem), dirs, free, pool, kd, kp, mem, pfa.FreeFrames(), d, p, t, m, paddr, rw, pl);
      MapStepTmp(old(mem), dirs, free, pool, kd, kp, mem, pfa.FreeFrames(), d, p / ENTRIES, t, p % ENTRIES, m, paddr,
                 rw, pl);
      OverrideMore(mem0, old(mem), mem, d, p0, paddr0, n, m, rw, pl);
      UnmappedMore(mem0, old(mem), d, p0, paddr0, n, m, rw, pl);
      OthersMore(mem0, old(mem), mem, dirs, d);
      RightsMore(mem0, old(mem), mem, dirs, d, rw, pl, free0, free);
      FreshMore(mem0, old(mem), mem, dirs, d, free0, free);
      if mapped == 0 && Blocked(RowsBehind(old(mem), d, p / ENTRIES), p / ENTRIES, p % ENTRIES) {
        BlockedPage(old(mem), dirs, free, pool, kd, kp, d, p, 0);
      }
      if mapped == 0 && free == {} {
        StillNone(old(mem), free, pool, mem, pfa.FreeFrames(), d, p / ENTRIES, t, p % ENTRIES, m, paddr, rw, pl);
      }
    }
  
    /** Maps `size` bytes, rounded up to whole pages, from `vaddr` to `paddr`. */
    method Map(d: nat, paddr: nat, vaddr: nat, size: nat, rw: nat, pl: nat) returns (total: nat, ghost n: nat)
      requires Valid() && d in dirs && vaddr % FOUR_KB == 0 && paddr % FOUR_KB == 0
      requires vaddr + RoundUp(size) <= WORD && paddr + RoundUp(size) <= WORD
      modifies `mem, pfa.words
      ensures total == RoundUp(size) || total == 0
      ensures n <= RoundUp(size) / FOUR_KB && (total > 0 || size == 0 ==> n == RoundUp(size) / FOUR_KB)
      ensures kp in old(mem) && |old(mem)[kp]| == ENTRIES
      ensures MappedSoFar(old(mem), old(pfa.FreeFrames()), old(mem)[kp][TMP_IDX], d, vaddr / FOUR_KB, paddr, n, rw, pl)
      ensures total == 0 && size > 0 ==>
                pfa.FreeFrames() == {} || Obstructed(old(mem), d, vaddr / FOUR_KB, RoundUp(size) / FOUR_KB)
    {
      hide Inv, Lookup, Overridden, Unmapped, OthersKept, FreshTables, FreshRights, TableOf, Obstructed;
      hide FrameSpec.FreeSet, FrameSpec.FrameSet, FrameSpec.WellFormed, FrameSpec.Frames;
      KernelTable(mem, dirs, pfa.FreeFrames(), FrameSpec.FrameSet(pfa.regions), kd, kp);
      ghost var tmp, p, all: nat := TemporaryEntry(), vaddr / FOUR_KB, RoundUp(size) / FOUR_KB;
      n := 0;
      NothingYet(mem, dirs, d, p, paddr, rw, pl);
      NoRights(mem, dirs, d, rw, pl);
      NothingFresh(mem, dirs, d, pfa.FreeFrames());
      var left := RoundUp(size);
      total := 0;
      while left != 0
        invariant total == FOUR_KB * n && left == RoundUp(size) - total && left >= 0 && left % FOUR_KB == 0
        invariant MappedSoFar(old(mem), old(pfa.FreeFrames()), tmp, d, p, paddr, n, rw, pl)
        decreases left
      {
        ghost var before := mem;
        assert (vaddr + total) / FOUR_KB == p + n;
        var mapped := MapMore(d, paddr + total, vaddr + total, left, rw, pl, old(mem), old(pfa.FreeFrames()), tmp,
            p, paddr, n);
        if mapped == 0 {
          if pfa.FreeFrames() != {} {
            StillObstructed(old(mem), before, d, p, paddr, n, all, rw, pl);
          }
          total := 0;
          return;
        }
        left := left - mapped;
        total := total + mapped;
        n := n + mapped / FOUR_KB;
      }
    }
  
    // ----- unmapping

    /** Clears entries of the table in the window; the temporary entry stops it. */
    method PtUnmap(slot: nat, vaddr: nat, size: nat) returns (freed: nat)
      requires Slotted() && Window() in mem && |mem[Window()]| == ENTRIES
      requires Window() == kp ==> slot == KERNEL_SLOT
      requires size % FOUR_KB == 0
      modifies `mem
      ensures freed % FOUR_KB == 0 && freed <= size
      ensures
        var t, i, m := old(Window()), vaddr / FOUR_KB % ENTRIES, freed / FOUR_KB;
        && i + m <= ENTRIES
        && (slot == KERNEL_SLOT ==> i + m <= TMP_IDX)
        && mem == old(mem)[t := Emptied(old(mem)[t], i, m)]
        && (freed < size ==> i + m == ENTRIES || (slot == KERNEL_SLOT && i + m == TMP_IDX))
    {
      hide Emptied;
      ghost var t, rows := Window(), mem[Window()];
      ghost var i: nat := vaddr / FOUR_KB % ENTRIES;
      var idx := vaddr / FOUR_KB % ENTRIES;
      freed := 0;
      ghost var m: nat := 0;
      EmptyNothing(rows, i);
      while freed < size && idx < ENTRIES
        invariant freed == m * FOUR_KB && freed <= size && idx == i + m <= ENTRIES
        invariant Slotted() && Window() == t && (slot == KERNEL_SLOT ==> i + m <= TMP_IDX)
        invariant mem == old(mem)[t := Emptied(rows, i, m)]
      {
        assert freed / FOUR_KB == m;
        EmptyNext(rows, i, m);
        if slot == KERNEL_SLOT && idx == TMP_IDX {
          return;
        }
        if IsPresent(mem[Window()][idx]) {
          mem := mem[Window() := mem[Window()][idx := ABSENT]];
        }
        freed := freed + FOUR_KB;
        idx := idx + 1;
        m := m + 1;
      }
      assert freed / FOUR_KB == m;
    }
  
    /** `d` can be edited, even if tables that others enter have become free. */
    ghost predicate CanEdit(d: nat)
      reads this, pfa, pfa.words
    {
      pfa.Valid() && Editable(mem, dirs, pfa.FreeFrames(), FrameSpec.FrameSet(pfa.regions), kd, kp, d)
    }

    /** One round clears `n` of the pages a size stands for, behind one present slot:
        all of them, or up to the end of the table or the temporary page. */
    ghost predicate Unmappable(d: nat, p: nat, size: nat, n: nat)
      reads this
    {
      && p < PAGES && TableOf(mem, d, p / ENTRIES).Some? && size % FOUR_KB == 0
      && n >= 1 && n == Portion(p, size / FOUR_KB)
    }

    /** Clears the pages through the window and puts the temporary entry back. */
    method ClearPages(d: nat, vaddr: nat, size: nat, ghost n: nat) returns (freed: nat, t: nat)
      requires CanEdit(d) && Unmappable(d, vaddr / FOUR_KB, size, n)
      modifies `mem
      ensures freed == FOUR_KB * n && TableOf(old(mem), d, vaddr / FOUR_KB / ENTRIES) == Some(t) && t in old(mem)
      ensures kp in old(mem) && |old(mem)[kp]| == ENTRIES
      ensures Slotted() && TemporaryEntry() == old(mem)[kp][TMP_IDX]
      ensures mem == old(mem)[t := Emptied(old(mem)[t], vaddr / FOUR_KB % ENTRIES, n)]
    {
      hide Inv, Emptied, MakePte, DirOk;
      var s := vaddr / FOUR_KB / ENTRIES;
      ghost var pool := FrameSpec.FrameSet(pfa.regions);
      KernelTable(mem, dirs, {}, pool, kd, kp);
      DirTable(mem, dirs, {}, pool, kd, kp, d, s);
      AddrAligned(mem[d][s]);
      t := Addr(mem[d][s]);
      var tmp := TemporaryEntry();
      MapTemporary(t);
      freed := PtUnmap(s, vaddr, size);
      ghost var i: nat := vaddr / FOUR_KB % ENTRIES;
      RestoreAfterEmpty(old(mem), kp, t, MakePte(t, 1, 0), i, n);
      SetTemporaryEntry(tmp);
      if t == kp {
        EmptyKeepsTmp(old(mem)[t], i, n);
      }
    }

    /** Gives the table of a cleared slot back to the frame allocator. */
    method GiveBack(d: nat, s: nat, t: nat)
      requires CanEdit(d) && s < ENTRIES && s != KERNEL_SLOT && TableOf(mem, d, s) == Some(t)
      requires forall v: nat :: v < PAGES && v / ENTRIES == s ==> Lookup(mem, d, v) == None
      modifies `mem, pfa.words
      ensures CanEdit(d) && Removed(old(mem), mem, d, s * ENTRIES, 0) && OthersKept(old(mem), mem, dirs, d)
      ensures GivenBack(old(mem), mem, dirs, d, old(pfa.FreeFrames()), pfa.FreeFrames(), {s})
      ensures kp in mem && kp in old(mem) && mem[kp] == old(mem)[kp]
    {
      hide Inv, DirOk, Lookup, Removed, OthersKept, GivenBack, TableOf;
      hide FrameSpec.FreeSet, FrameSpec.FrameSet, FrameSpec.WellFormed, FrameSpec.Frames;
      ghost var free, pool := pfa.FreeFrames(), FrameSpec.FrameSet(pfa.regions);
      DirTable(mem, dirs, {}, pool, kd, kp, d, s);
      EditableTable(mem, dirs, free, pool, kd, kp, d, s);
      DropStep(mem, dirs, free, pool, kd, kp, d, s, t);
      ghost var k := FrameSpec.BehindFrame(pfa.Bits(), pfa.regions, t);
      pfa.LiveIndex(t, k);
      pfa.Free(t);
      mem := mem[d := mem[d][s := ABSENT]];
    }

    /** One round of the unmapping loop: clear the pages, and give back the table of
        a slot that was cleared as a whole. */
    method UnmapSlot(d: nat, vaddr: nat, size: nat, ghost n: nat) returns (freed: nat)
      requires CanEdit(d) && Unmappable(d, vaddr / FOUR_KB, size, n)
      modifies `mem, pfa.words
      ensures CanEdit(d) && freed == FOUR_KB * n
      ensures kp in old(mem) && |old(mem)[kp]| == ENTRIES
      ensures Slotted() && TemporaryEntry() == old(mem)[kp][TMP_IDX]
      ensures Removed(old(mem), mem, d, vaddr / FOUR_KB, n) && OthersKept(old(mem), mem, dirs, d)
      ensures GivenBack(old(mem), mem, dirs, d, old(pfa.FreeFrames()), pfa.FreeFrames(),
                        if n == ENTRIES then {vaddr / FOUR_KB / ENTRIES} else {})
    {
      hide Inv, DirOk, Emptied, Lookup, Removed, OthersKept, GivenBack, TableOf;
      hide FrameSpec.FreeSet, FrameSpec.FrameSet, FrameSpec.WellFormed, FrameSpec.Frames;
      ghost var free, pool := pfa.FreeFrames(), FrameSpec.FrameSet(pfa.regions);
      var s := vaddr / FOUR_KB / ENTRIES;
      ghost var p: nat := vaddr / FOUR_KB;
      var t;
      freed, t := ClearPages(d, vaddr, size, n);
      EmptiedStep(old(mem), dirs, {}, pool, kd, kp, d, p, t, n);
      GivenNothing(old(mem), mem, dirs, d, free);
      EditableMore(old(mem), mem, dirs, free, free, pool, kd, kp, d, {});
      if freed == FOUR_KB * ENTRIES && s != KERNEL_SLOT {
        assert p == s * ENTRIES;
        SlotCleared(old(mem), mem, d, s);
        ghost var cleared := mem;
        GiveBack(d, s, t);
        RemovedThenSame(old(mem), cleared, mem, d, p, n, s * ENTRIES);
        OthersMore(old(mem), cleared, mem, dirs, d);
        GivenMore(old(mem), cleared, mem, dirs, d, free, free, pfa.FreeFrames(), {}, {s});
        assert {} + {s} == {s};
      }
    }

    /** How far the unmapping of a range from page `p` on has come: page `q` is next. */
    ghost predicate Sweeping(was: Memory, free: set<nat>, d: nat, p: nat, q: nat)
      reads this, pfa, pfa.words
    {
      CanEdit(d) && Progress(was, mem, dirs, d, free, pfa.FreeFrames(), p, q)
    }

    /** One round of the loop, which unmaps pages or skips an absent slot. */
    method UnmapRound(d: nat, vaddr: nat, size: nat, last: nat, ghost was: Memory, ghost free: set<nat>,
                      ghost p: nat, ghost n: nat, ghost q: nat) returns (next: nat, freed: nat)
      requires Sweeping(was, free, d, p, q) && Slotted() && vaddr == FOUR_KB * q && size == FOUR_KB * n
      requires q < p + n < PAGES && (q == p || q % ENTRIES == 0) && !Stalls(was, d, p, n)
      modifies `mem, pfa.words
      ensures next == FOUR_KB * (q + Stride(was, d, q, n))
      ensures Sweeping(was, free, d, p, q + Stride(was, d, q, n))
      ensures Slotted() && TemporaryEntry() == old(TemporaryEntry())
      ensures freed == if TableOf(was, d, q / ENTRIES) == None then last else next - vaddr
    {
      hide Inv, DirOk, Removed, OthersKept, GivenBack, TableOf, Stalls, WholeSlots, Stop, StuckAt, Progress, Stride;
      hide Portion;
      hide FrameSpec.FreeSet, FrameSpec.FrameSet, FrameSpec.WellFormed, FrameSpec.Frames;
      ghost var m: nat, free1 := Stride(was, d, q, n), pfa.FreeFrames();
      var s := vaddr / FOUR_KB / ENTRIES;
      assert s == q / ENTRIES;
      StandsInside(was, mem, dirs, d, free, free1, p, n, q);
      DirTable(mem, dirs, {}, FrameSpec.FrameSet(pfa.regions), kd, kp, d, s);
      PresentTable(mem, d, s);
      if !IsPresent(mem[d][s]) {
        next, freed := RoundUpSlot(vaddr), last;
        RoundUpStride(vaddr);
        ProgressSkip(was, mem, dirs, d, free, free1, p, q, m);
      } else {
        freed := UnmapSlot(d, vaddr, size, m);
        next := vaddr + freed;
        ProgressMore(was, old(mem), mem, dirs, d, free, free1, pfa.FreeFrames(), p, q, m);
      }
    }

    /** The loop over the rounds. */
    method UnmapLoop(d: nat, vaddr: nat, end: nat, size: nat, ghost p: nat, ghost n: nat) returns (freed: nat)
      requires CanEdit(d) && vaddr == FOUR_KB * p && size == FOUR_KB * n && end == vaddr + size
      requires p + n < PAGES && !Stalls(mem, d, p, n) && Stop(mem, d, p, n) < PAGES
      modifies `mem, pfa.words
      ensures kp in old(mem) && |old(mem)[kp]| == ENTRIES
      ensures Slotted() && TemporaryEntry() == old(mem)[kp][TMP_IDX]
      ensures freed == FOUR_KB * LastRound(old(mem), d, p, n)
      ensures Sweeping(old(mem), old(pfa.FreeFrames()), d, p, Stop(old(mem), d, p, n))
    {
      hide Inv, DirOk, Lookup, Removed, OthersKept, GivenBack, TableOf, WholeSlots, Stop, Swept, Stalls, LastRound;
      hide Stride;
      hide Progress, Editable, FrameSpec.FreeSet, FrameSpec.FrameSet, FrameSpec.WellFormed, FrameSpec.Frames;
      ghost var was, free, q := mem, pfa.FreeFrames(), p;
      EditableKernel(mem, dirs, free, FrameSpec.FrameSet(pfa.regions), kd, kp, d);
      SweepStart(mem, dirs, d, free, p, n);
      freed := 0;
      var v := vaddr;
      while v < end
        invariant v == FOUR_KB * q && Sweeping(was, free, d, p, q)
        invariant Slotted() && TemporaryEntry() == was[kp][TMP_IDX]
        invariant q < p + n ==> q == p || q % ENTRIES == 0
        invariant q == p && n > 0 ==> freed == 0
        invariant q >= p + n ==> q == Stop(was, d, p, n) && freed == FOUR_KB * LastRound(was, d, p, n)
        decreases end - v
      {
        SweepStep(was, d, p, n, q);
        SweepLast(was, d, p, n, q);
        v, freed := UnmapRound(d, v, size, freed, was, free, p, n, q);
        q := q + Stride(was, d, q, n);
      }
    }

    /** Unmaps `size` bytes, rounded up to whole pages, from `vaddr` on, slot by slot;
        nothing, if the range reaches the end of the address space. Separation is
        kept if and only if no table that was given back is entered elsewhere. */
    method Unmap(d: nat, vaddr: nat, size: nat) returns (freed: nat)
      requires Valid() && d in dirs && vaddr % FOUR_KB == 0 && vaddr < WORD && size < WORD
      requires
        var p, n := vaddr / FOUR_KB, RoundUp(size) / FOUR_KB;
        p + n < PAGES ==> !Stalls(mem, d, p, n) && Stop(mem, d, p, n) < PAGES
      modifies `mem, pfa.words
      ensures kp in old(mem) && |old(mem)[kp]| == ENTRIES
      ensures Slotted() && TemporaryEntry() == old(mem)[kp][TMP_IDX]
      ensures vaddr + RoundUp(size) >= WORD ==>
                freed == 0 && mem == old(mem) && pfa.FreeFrames() == old(pfa.FreeFrames()) && Valid()
      ensures vaddr + RoundUp(size) < WORD ==>
                var p, n := vaddr / FOUR_KB, RoundUp(size) / FOUR_KB;
                var gone := WholeSlots(p, p + Swept(p, n));
                && freed == FOUR_KB * LastRound(old(mem), d, p, n)
                && Removed(old(mem), mem, d, p, Swept(p, n)) && OthersKept(old(mem), mem, dirs, d)
                && GivenBack(old(mem), mem, dirs, d, old(pfa.FreeFrames()), pfa.FreeFrames(), gone)
                && CanEdit(d)
                && (Valid() <==> forall r :: r in gone ==> Unshared(old(mem), dirs, d, r))
    {
      hide Inv, DirOk, Lookup, Removed, OthersKept, GivenBack, TableOf, WholeSlots, Stop, Swept, Stalls, LastRound;
      hide Stride;
      hide RoundUp, Unshared, Progress, Editable, CanEdit, Sweeping, FrameSpec.FreeSet, FrameSpec.FrameSet;
      hide FrameSpec.WellFormed;
      hide FrameSpec.Frames;
      ghost var free, pool, was := pfa.FreeFrames(), FrameSpec.FrameSet(pfa.regions), mem;
      KernelTable(mem, dirs, free, pool, kd, kp);
      MayEdit(d);
      var left := RoundUp(size) % WORD;
      var end := (vaddr + left) % WORD;
      if end <= vaddr {
        freed := 0;
        NothingToUnmap(vaddr, size);
        if vaddr + RoundUp(size) < WORD {
          SweepNothing(mem, dirs, d, free, pool, kd, kp, vaddr / FOUR_KB);
        }
        return;
      }
      SomethingToUnmap(vaddr, size);
      freed := UnmapLoop(d, vaddr, end, left, vaddr / FOUR_KB, left / FOUR_KB);
      SweptUp(was, free, d, vaddr / FOUR_KB, left / FOUR_KB);
    }

    lemma MayEdit(d: nat)
      requires Valid() && d in dirs
      ensures CanEdit(d)
    {
      InvEditable(mem, dirs, pfa.FreeFrames(), FrameSpec.FrameSet(pfa.regions), kd, kp, d);
    }

    /** What holds when the loop has stopped. */
    lemma SweptUp(was: Memory, free: set<nat>, d: nat, p: nat, n: nat)
      requires Inv(was, dirs, free, FrameSpec.FrameSet(pfa.regions), kd, kp) && !Stalls(was, d, p, n)
      requires Sweeping(was, free, d, p, Stop(was, d, p, n))
      ensures
        var gone := WholeSlots(p, p + Swept(p, n));
        && Removed(was, mem, d, p, Swept(p, n)) && OthersKept(was, mem, dirs, d)
        && GivenBack(was, mem, dirs, d, free, pfa.FreeFrames(), gone) && CanEdit(d)
        && (Valid() <==> forall r :: r in gone ==> Unshared(was, dirs, d, r))
    {
      hide Inv, Editable, Progress, Removed, OthersKept, GivenBack, WholeSlots, Stalls, Stop, Swept, Unshared;
      SweepDone(was, mem, dirs, free, pfa.FreeFrames(), FrameSpec.FrameSet(pfa.regions), kd, kp, d, p, n);
    }

    // ----- sharing the kernel's tables

    /** Copies the present kernel slots into a process directory, which then sees the
        kernel's pages. */
    method LoadKernelSlots(d: nat)
      requires Valid() && d in dirs
      modifies `mem
      ensures Valid() && HasDirectories(old(mem), kd, d)
      ensures mem == old(mem)[d := Copied(old(mem), kd, d, ENTRIES)]
      ensures forall v: nat :: v < PAGES && v / ENTRIES >= KERNEL_SLOT && TableOf(old(mem), kd, v / ENTRIES).Some? ==>
                Lookup(mem, d, v) == Lookup(old(mem), kd, v)
    {
      hide Inv, Lookup, TableOf;
      ghost var was, free, pool := mem, pfa.FreeFrames(), FrameSpec.FrameSet(pfa.regions);
      LoadedInv(mem, dirs, free, pool, kd, kp, d);
      var i := KERNEL_SLOT;
      assert Copied(was, kd, d, i) == was[d];
      while i < ENTRIES
        invariant KERNEL_SLOT <= i <= ENTRIES && kd in mem && d in mem && |mem[kd]| == |mem[d]| == ENTRIES
        invariant mem == was[d := Copied(was, kd, d, i)]
      {
        assert mem[kd][i] == was[kd][i];
        if IsPresent(mem[kd][i]) {
          mem := mem[d := mem[d][i := mem[kd][i]]];
        }
        assert mem[d] == Copied(was, kd, d, i + 1);
        i := i + 1;
      }
      forall v: nat | v < PAGES && v / ENTRIES >= KERNEL_SLOT && TableOf(was, kd, v / ENTRIES).Some?
        ensures Lookup(mem, d, v) == Lookup(was, kd, v)
      {
        LoadedLookup(was, dirs, free, pool, kd, kp, d, v);
      }
    }

    // ----- finding address space

    /** The first run of `n` usable entries in the table in the window, as an
        address; 0 if there is none. */
    method PtFind(slot: nat, size: nat, ghost n: nat) returns (vaddr: nat)
      requires Slotted() && Window() in mem && |mem[Window()]| == ENTRIES
      requires n >= 1 && RoundUp(size) == FOUR_KB * n && slot >= 1
      ensures LowestRun(mem[Window()], slot, n, vaddr)
    {
      hide Clear;
      ghost var rows := mem[Window()];
      var toFind, found: nat, start: nat := RoundUp(size) / FOUR_KB, 0, 0;
      var i := 0;
      ClearStart(rows, slot, 0);
      while i < ENTRIES
        invariant i <= ENTRIES && found <= i && found < n && (found > 0 ==> start == i - found)
        invariant Clear(rows, slot, i - found, found) && NoRunBelow(rows, slot, n, i - found)
      {
        if IsPresent(mem[Window()][i]) || (slot == KERNEL_SLOT && i == TMP_IDX) {
          BlockedRun(rows, slot, n, i, found);
          found := 0;
          ClearStart(rows, slot, i + 1);
        } else {
          ClearNext(rows, slot, i - found, found);
          if found == 0 {
            start := i;
          }
          found := found + 1;
          if found == toFind {
            assert (slot * ENTRIES + start) / ENTRIES == slot && (slot * ENTRIES + start) % ENTRIES == start;
            return FOUR_KB * (slot * ENTRIES + start);
          }
        }
        i := i + 1;
      }
      TooShort(rows, slot, n, found);
      return 0;
    }
  
    /** One slot of the search: brings its table into the window, looks, and puts
        the temporary entry back. */
    method FindInSlot(s: nat, size: nat, ghost n: nat) returns (vaddr: nat)
      requires Valid() && KERNEL_SLOT <= s < ENTRIES && 1 <= n <= ENTRIES && RoundUp(size) == FOUR_KB * n
      modifies `mem
      ensures mem == old(mem) && LowestBehind(mem, kd, s, n, vaddr)
    {
      hide Inv, LowestBehind, LowestRun, MakePte;
      hide FrameSpec.FreeSet, FrameSpec.FrameSet, FrameSpec.WellFormed, FrameSpec.Frames;
      ghost var free, pool := pfa.FreeFrames(), FrameSpec.FrameSet(pfa.regions);
      KernelTable(mem, dirs, free, pool, kd, kp);
      InvKernel(mem, dirs, free, pool, kd, kp);
      DirTable(mem, dirs, free, pool, kd, kp, kd, s);
      TestsAgree(mem[kd][s]);
      AddrAligned(mem[kd][s]);
      if IsPresent(mem[kd][s]) {
        var tmp, t := TemporaryEntry(), Addr(mem[kd][s]);
        MapTemporary(t);
        ShowAndRestore(old(mem), kp, MakePte(t, 1, 0));
        vaddr := PtFind(s, size, n);
        SetTemporaryEntry(tmp);
        if t == kp {
          LowestThroughWindow(mem[t], MakePte(t, 1, 0), n, vaddr);
        }
        assert mem[t] == RowsBehind(mem, kd, s);
        LowestPages(mem, dirs, free, pool, kd, kp, kd, s, n, vaddr);
      } else {
        AbsentSlot(mem, dirs, free, pool, kd, kp, kd, s, n);
        vaddr := FOUR_KB * (s * ENTRIES);
      }
    }

    /** The lowest kernel address from which `size` bytes can be mapped; 0 if there
        is none. */
    method FindNextVaddr(size: nat) returns (vaddr: nat)
      requires Valid() && 0 < size <= FOUR_KB * ENTRIES
      modifies `mem
      ensures mem == old(mem)
      ensures vaddr == 0 ==> NoneIn(mem, kd, RoundUp(size) / FOUR_KB, KERNEL_SLOT * ENTRIES, PAGES)
      ensures vaddr != 0 ==>
                && vaddr % FOUR_KB == 0 && KERNEL_SLOT * ENTRIES <= vaddr / FOUR_KB
                && Suitable(mem, kd, vaddr / FOUR_KB, RoundUp(size) / FOUR_KB)
                && NoneIn(mem, kd, RoundUp(size) / FOUR_KB, KERNEL_SLOT * ENTRIES, vaddr / FOUR_KB)
                && vaddr >= 0xC000_0000 && !(vaddr <= 0xC03F_F000 < vaddr + RoundUp(size))
    {
      hide Inv, Suitable;
      ghost var n: nat := RoundUp(size) / FOUR_KB;
      vaddr := 0;
      var s := KERNEL_SLOT;
      while s < ENTRIES
        invariant KERNEL_SLOT <= s <= ENTRIES && mem == old(mem) && vaddr == 0
        invariant NoneIn(mem, kd, n, KERNEL_SLOT * ENTRIES, s * ENTRIES)
      {
        vaddr := FindInSlot(s, size, n);
        if vaddr != 0 {
          NoneMore(mem, kd, n, KERNEL_SLOT * ENTRIES, s * ENTRIES, vaddr / FOUR_KB);
          SuitableRange(mem, kd, vaddr / FOUR_KB, n);
          ClearAddresses(vaddr, RoundUp(size));
          return;
        }
        NoneMore(mem, kd, n, KERNEL_SLOT * ENTRIES, s * ENTRIES, (s + 1) * ENTRIES);
        s := s + 1;
      }
    }
  }

  /** Mapping an address range the search has found fails only for lack of a frame
      for a table; a successful mapping that is undone again restores every
      translation of the kernel. Separation is lost exactly when a whole slot was
      unmapped whose table was there before and is entered in another directory. */
  method FindMapUnmap(m: Paging, paddr: nat, size: nat, rw: nat, pl: nat) returns (vaddr: nat, mapped: nat)
    requires m.Valid() && 0 < size <= FOUR_KB * ENTRIES && paddr % FOUR_KB == 0 && paddr + RoundUp(size) <= WORD
    modifies m`mem, m.pfa.words
    ensures vaddr == 0 ==> NoneIn(m.mem, m.kd, RoundUp(size) / FOUR_KB, KERNEL_SLOT * ENTRIES, PAGES)
    ensures vaddr != 0 && mapped == 0 ==> m.pfa.FreeFrames() == {}
    ensures mapped != 0 && vaddr + RoundUp(size) < WORD ==>
              forall v: nat :: v < PAGES ==> Lookup(m.mem, m.kd, v) == old(Lookup(m.mem, m.kd, v))
    ensures m.CanEdit(m.kd)
    ensures
      var s := vaddr / FOUR_KB / ENTRIES;
      m.Valid() <==>
        || mapped == 0 || vaddr + RoundUp(size) >= WORD
        || RoundUp(size) < FOUR_KB * ENTRIES
        || TableOf(old(m.mem), m.kd, s) == None || Unshared(old(m.mem), m.dirs, m.kd, s)
  {
    hide Inv, Lookup, TableOf, Overridden, Unmapped, Removed, OthersKept, NoneIn, FreshTables, FreshRights;
    hide GivenBack, WholeSlots;
    hide Stalls, Stop, Swept, Unshared, DirOk, Editable;
    hide FrameSpec.FreeSet, FrameSpec.FrameSet, FrameSpec.WellFormed, FrameSpec.Frames;
    mapped := 0;
    ghost var mem0, n: nat, free, pool := m.mem, RoundUp(size) / FOUR_KB, m.pfa.FreeFrames(),
        FrameSpec.FrameSet(m.pfa.regions);
    InvKernel(mem0, m.dirs, free, pool, m.kd, m.kp);
    vaddr := m.FindNextVaddr(size);
    InvEditable(m.mem, m.dirs, m.pfa.FreeFrames(), pool, m.kd, m.kp, m.kd);
    if vaddr == 0 {
      return;
    }
    ghost var p: nat := vaddr / FOUR_KB;
    SuitableRange(mem0, m.kd, p, n);
    ghost var k;
    mapped, k := m.Map(m.kd, paddr, vaddr, size, rw, pl);
    InvEditable(m.mem, m.dirs, m.pfa.FreeFrames(), pool, m.kd, m.kp, m.kd);
    if mapped != 0 && vaddr + RoundUp(size) < WORD {
      ghost var mem1 := m.mem;
      MappedSlot(mem1, mem0, m.kd, p, paddr, n, rw, pl);
      OneSlotRange(mem1, m.kd, p, n);
      FreshUnshared(mem0, mem1, m.dirs, free, pool, m.kd, m.kp, m.kd, p / ENTRIES);
      var freed := m.Unmap(m.kd, vaddr, size);
      UnmapUndoesMap(mem0, mem1, m.mem, m.kd, p, paddr, n, rw, pl);
    }
  }
}
