/** Unmapping: clearing entries of one table, giving a table back to the frame
    allocator, and the loop over the slots of a range. */
module UnmapSpec {
  import opened Wrappers
  import opened PagingSpec

  // ----- clearing entries of one table

  /** The translation of `d` is that of `mem` without `n` pages from page `p` on. */
  ghost predicate Removed(mem: Memory, mem': Memory, d: nat, p: nat, n: nat) {
    forall v: nat :: v < PAGES ==>
      Lookup(mem', d, v) == if p <= v < p + n then None else Lookup(mem, d, v)
  }

  lemma EmptyNothing(t: Table, i: nat)
    ensures Emptied(t, i, 0) == t
  {
  }

  lemma EmptyNext(t: Table, i: nat, m: nat)
    requires i + m < |t|
    ensures |Emptied(t, i, m)| == |t| && Emptied(t, i, m)[i + m] == t[i + m]
    ensures Emptied(t, i, m + 1) ==
            if IsPresent(t[i + m]) then Emptied(t, i, m)[i + m := ABSENT] else Emptied(t, i, m)
  {
  }

  lemma EmptiedLookup(mem: Memory, dirs: set<nat>, free: set<nat>, pool: set<nat>, kd: nat, kp: nat,
                      d: nat, p: nat, t: nat, m: nat, v: nat)
    requires Inv(mem, dirs, free, pool, kd, kp) && d in dirs && p < PAGES && v < PAGES
    requires TableOf(mem, d, p / ENTRIES) == Some(t) && t in mem && p % ENTRIES + m <= ENTRIES
    ensures Lookup(mem[t := Emptied(mem[t], p % ENTRIES, m)], d, v) ==
            if p <= v < p + m then None else Lookup(mem, d, v)
  {
    hide Inv, Lookup, TableOf, Emptied, HwPresent, PageOf;
    InvTables(mem, dirs, free, pool, kd, kp, t);
    var s, i, rows := p / ENTRIES, p % ENTRIES, Emptied(mem[t], p % ENTRIES, m);
    if v / ENTRIES == s {
      EditSame(mem, dirs, free, pool, kd, kp, d, s, t, rows, v);
      EditSame(mem, dirs, free, pool, kd, kp, d, s, t, mem[t], v);
      assert mem[t := mem[t]] == mem;
      EmptiedEntry(mem[t], i, m, v % ENTRIES);
    } else {
      OwnTable(mem, dirs, free, pool, kd, kp, d, s, v / ENTRIES);
      EditOther(mem, dirs, free, pool, kd, kp, d, s, t, rows, d, v);
    }
  }

  lemma EmptiedEntry(t: Table, i: nat, m: nat, k: nat)
    requires k < |t| && Sane(t[k])
    ensures
      var e := Emptied(t, i, m)[k];
      if i <= k < i + m then !HwPresent(e) else e == t[k]
  {
    TestsAgree(t[k]);
  }

  /** Clearing entries of one table unmaps exactly those pages. */
  lemma EmptiedStep(mem: Memory, dirs: set<nat>, free: set<nat>, pool: set<nat>, kd: nat, kp: nat,
                    d: nat, p: nat, t: nat, m: nat)
    requires Inv(mem, dirs, free, pool, kd, kp) && d in dirs && p < PAGES
    requires TableOf(mem, d, p / ENTRIES) == Some(t) && t in mem && p % ENTRIES + m <= ENTRIES
    ensures
      var mem' := mem[t := Emptied(mem[t], p % ENTRIES, m)];
      && Inv(mem', dirs, free, pool, kd, kp)
      && Removed(mem, mem', d, p, m)
      && OthersKept(mem, mem', dirs, d)
      && forall e, r: nat :: e in dirs ==> TableOf(mem', e, r) == TableOf(mem, e, r)
  {
    hide Inv, Lookup, Private;
    InvTables(mem, dirs, free, pool, kd, kp, t);
    DirTable(mem, dirs, free, pool, kd, kp, d, p / ENTRIES);
    var rows := Emptied(mem[t], p % ENTRIES, m);
    var mem' := mem[t := rows];
    EditInv(mem, dirs, free, pool, kd, kp, d, p / ENTRIES, t, rows);
    forall v: nat | v < PAGES ensures Lookup(mem', d, v) == if p <= v < p + m then None else Lookup(mem, d, v) {
      EmptiedLookup(mem, dirs, free, pool, kd, kp, d, p, t, m, v);
    }
    forall e, r: nat | e in dirs ensures TableOf(mem', e, r) == TableOf(mem, e, r) {
      EditTables(mem, dirs, t, rows, e, r);
    }
    forall e, v: nat | e in dirs && e != d && v < PAGES && Private(mem, d, e, v)
      ensures Lookup(mem', e, v) == Lookup(mem, e, v) && Private(mem', d, e, v)
    {
      PrivateElse(mem, d, e, v, p / ENTRIES, t);
      EditOther(mem, dirs, free, pool, kd, kp, d, p / ENTRIES, t, rows, e, v);
      PrivateSame(mem, mem', dirs, d, e, v);
    }
  }

  lemma PrivateElse(mem: Memory, d: nat, e: nat, v: nat, s: nat, t: nat)
    requires Private(mem, d, e, v) && s < ENTRIES && TableOf(mem, d, s) == Some(t)
    ensures TableOf(mem, e, v / ENTRIES) != Some(t)
  {
  }

  lemma PrivateSame(mem: Memory, mem': Memory, dirs: set<nat>, d: nat, e: nat, v: nat)
    requires Private(mem, d, e, v) && d in dirs && e in dirs
    requires forall e, r: nat :: e in dirs ==> TableOf(mem', e, r) == TableOf(mem, e, r)
    ensures Private(mem', d, e, v)
  {
  }

  lemma EmptyKeepsTmp(t: Table, i: nat, m: nat)
    requires |t| == ENTRIES && (i + m <= TMP_IDX || m == 0)
    ensures Emptied(t, i, m)[TMP_IDX] == t[TMP_IDX]
  {
  }

  lemma RemovedThenSame(mem: Memory, mem1: Memory, mem2: Memory, d: nat, p: nat, n: nat, q: nat)
    requires Removed(mem, mem1, d, p, n) && Removed(mem1, mem2, d, q, 0)
    ensures Removed(mem, mem2, d, p, n)
  {
  }

  lemma SlotCleared(mem: Memory, mem': Memory, d: nat, s: nat)
    requires Removed(mem, mem', d, s * ENTRIES, ENTRIES) && s < ENTRIES
    ensures forall v: nat :: v < PAGES && v / ENTRIES == s ==> Lookup(mem', d, v) == None
  {
  }

  lemma RemoveNothing(mem: Memory, dirs: set<nat>, d: nat, p: nat)
    ensures Removed(mem, mem, d, p, 0) && OthersKept(mem, mem, dirs, d)
  {
  }

  /** Mapping a free range and unmapping it again restores the translation. */
  lemma UnmapUndoesMap(mem: Memory, mem1: Memory, mem2: Memory, d: nat, p: nat, paddr: nat, n: nat, rw: nat, pl: nat)
    requires Overridden(mem, mem1, d, p, paddr, n, rw, pl) && Unmapped(mem, d, p, n) && Removed(mem1, mem2, d, p, n)
    ensures forall v: nat :: v < PAGES ==> Lookup(mem2, d, v) == Lookup(mem, d, v)
  {
  }

  lemma RemoveMore(mem: Memory, mem1: Memory, mem2: Memory, d: nat, p: nat, n: nat, m: nat)
    requires Removed(mem, mem1, d, p, n) && Removed(mem1, mem2, d, p + n, m)
    ensures Removed(mem, mem2, d, p, n + m)
  {
    hide Lookup;
  }

  /** Where nothing was mapped nothing needs to be removed. */
  lemma RemovedLess(mem: Memory, mem': Memory, d: nat, p: nat, n: nat, m: nat)
    requires Removed(mem, mem', d, p, n) && m <= n
    requires forall v: nat :: p + m <= v < p + n && v < PAGES ==> Lookup(mem, d, v) == None
    ensures Removed(mem, mem', d, p, m)
  {
    hide Lookup;
  }

  lemma NothingBehind(mem: Memory, d: nat, q: nat, m: nat)
    requires TableOf(mem, d, q / ENTRIES) == None && q % ENTRIES + m <= ENTRIES
    ensures forall v: nat :: q <= v < q + m ==> Lookup(mem, d, v) == None
    ensures Removed(mem, mem, d, q, m)
  {
    forall v: nat | q <= v < q + m ensures Lookup(mem, d, v) == None {
      assert v / ENTRIES == q / ENTRIES;
    }
  }

  // ----- giving a table back

  /** A table taken away from behind its slot. */
  function WithoutTable(mem: Memory, d: nat, s: nat): Memory
    requires d in mem && s < |mem[d]|
  {
    mem[d := mem[d][s := ABSENT]]
  }

  lemma DropTableLookup(mem: Memory, dirs: set<nat>, free: set<nat>, pool: set<nat>, kd: nat, kp: nat,
                        d: nat, s: nat, e: nat, v: nat)
    requires Inv(mem, dirs, free, pool, kd, kp)
    requires d in dirs && s < ENTRIES && e in dirs && v / ENTRIES < ENTRIES
    ensures d in mem && s < |mem[d]|
    ensures Lookup(WithoutTable(mem, d, s), e, v) ==
            if e == d && v / ENTRIES == s then None else Lookup(mem, e, v)
  {
    hide Inv, TableOf, Lookup, WithoutTable;
    DirTable(mem, dirs, free, pool, kd, kp, d, s);
    DirTable(mem, dirs, free, pool, kd, kp, e, v / ENTRIES);
    WithoutTables(mem, d, s, e, v / ENTRIES);
    SameRows(mem, WithoutTable(mem, d, s), e, v);
  }

  lemma WithoutTables(mem: Memory, d: nat, s: nat, e: nat, r: nat)
    requires d in mem && s < |mem[d]|
    ensures TableOf(WithoutTable(mem, d, s), e, r) == if e == d && r == s then None else TableOf(mem, e, r)
    ensures forall t :: t in mem && t != d ==> t in WithoutTable(mem, d, s) && WithoutTable(mem, d, s)[t] == mem[t]
  {
    hide Addr;
  }

  /** The same rows behind a slot give the same translation, and no table gives none. */
  lemma SameRows(mem: Memory, mem': Memory, e: nat, v: nat)
    requires
      var t := TableOf(mem, e, v / ENTRIES);
      && (TableOf(mem', e, v / ENTRIES) == t || TableOf(mem', e, v / ENTRIES) == None)
      && (t.Some? ==> t.value in mem && t.value in mem' && mem'[t.value] == mem[t.value])
    ensures Lookup(mem', e, v) == if TableOf(mem', e, v / ENTRIES) == None then None else Lookup(mem, e, v)
    ensures TableOf(mem, e, v / ENTRIES) == None ==> Lookup(mem, e, v) == None
  {
    hide TableOf, PageOf;
  }

  /** The table behind slot `s` of `d` is entered in no other directory. */
  ghost predicate Unshared(mem: Memory, dirs: set<nat>, d: nat, s: nat) {
    forall e, r :: e in dirs && e != d && 0 <= r < ENTRIES ==> TableOf(mem, e, r) != TableOf(mem, d, s)
  }

  /** What `d` needs to be edited further: tables and directories are apart, and no
      table of `d` itself is free, whatever has become of tables others enter. */
  ghost predicate Editable(mem: Memory, dirs: set<nat>, free: set<nat>, pool: set<nat>, kd: nat, kp: nat, d: nat) {
    && d in dirs
    && Inv(mem, dirs, {}, pool, kd, kp)
    && DirOk(mem, dirs, free, kp, d)
  }

  lemma InvEditable(mem: Memory, dirs: set<nat>, free: set<nat>, pool: set<nat>, kd: nat, kp: nat, d: nat)
    requires Inv(mem, dirs, free, pool, kd, kp) && d in dirs
    ensures Editable(mem, dirs, free, pool, kd, kp, d)
  {
    hide TableOf;
    FewerFree(mem, dirs, free, {}, pool, kd, kp);
  }

  lemma EditableTable(mem: Memory, dirs: set<nat>, free: set<nat>, pool: set<nat>, kd: nat, kp: nat, d: nat, s: nat)
    requires Editable(mem, dirs, free, pool, kd, kp, d) && s < ENTRIES && s != KERNEL_SLOT && TableOf(mem, d, s).Some?
    ensures TableOf(mem, d, s).value in pool && TableOf(mem, d, s).value !in free
  {
    hide TableOf;
  }

  /** `mem` has the tables of `was` without those behind the slots `gone` of `d`,
      which are free now. */
  ghost predicate GivenBack(was: Memory, mem: Memory, dirs: set<nat>, d: nat, free: set<nat>, free': set<nat>,
                            gone: set<nat>) {
    && (forall e, r :: e in dirs && 0 <= r < ENTRIES ==>
          TableOf(mem, e, r) == if e == d && r in gone then None else TableOf(was, e, r))
    && (forall r :: r in gone ==> r < ENTRIES && r != KERNEL_SLOT && TableOf(was, d, r).Some?)
    && free' == free + TablesBehind(was, d, gone)
  }

  ghost function TablesBehind(mem: Memory, d: nat, slots: set<nat>): set<nat> {
    set s | s in slots && TableOf(mem, d, s).Some? :: TableOf(mem, d, s).value
  }

  lemma GivenNothing(mem: Memory, mem': Memory, dirs: set<nat>, d: nat, free: set<nat>)
    requires forall e, r: nat :: e in dirs ==> TableOf(mem', e, r) == TableOf(mem, e, r)
    ensures GivenBack(mem, mem', dirs, d, free, free, {})
  {
    hide TableOf;
  }

  lemma GivenMore(was: Memory, mem: Memory, mem': Memory, dirs: set<nat>, d: nat, free: set<nat>, free1: set<nat>,
                  free2: set<nat>, gone: set<nat>, more: set<nat>)
    requires GivenBack(was, mem, dirs, d, free, free1, gone) && GivenBack(mem, mem', dirs, d, free1, free2, more)
    requires d in dirs && gone !! more
    ensures GivenBack(was, mem', dirs, d, free, free2, gone + more)
  {
    hide TableOf;
    forall r | r in more ensures TableOf(mem, d, r) == TableOf(was, d, r) {
    }
    assert TablesBehind(mem, d, more) == TablesBehind(was, d, more);
    assert TablesBehind(was, d, gone + more) == TablesBehind(was, d, gone) + TablesBehind(was, d, more);
  }

  lemma EditableMore(was: Memory, mem: Memory, dirs: set<nat>, free: set<nat>, free': set<nat>, pool: set<nat>,
                     kd: nat, kp: nat, d: nat, gone: set<nat>)
    requires Editable(was, dirs, free, pool, kd, kp, d) && Inv(mem, dirs, {}, pool, kd, kp)
    requires GivenBack(was, mem, dirs, d, free, free', gone)
    ensures Editable(mem, dirs, free', pool, kd, kp, d)
  {
    hide TableOf;
    assert DirOk(was, dirs, {}, kp, d) && DirOk(mem, dirs, {}, kp, d);
    assert d !in free' by { NoDirBehind(was, dirs, kp, d, d, gone); }
    forall s | 0 <= s < ENTRIES && TableOf(mem, d, s).Some? ensures TableOf(mem, d, s).value !in free' {
      assert s !in gone && TableOf(mem, d, s) == TableOf(was, d, s);
      forall r | r in gone ensures TableOf(was, d, r) != TableOf(was, d, s) {
        assert r < s || s < r;
      }
    }
  }

  /** A directory is not among the tables of another one. */
  lemma NoDirBehind(mem: Memory, dirs: set<nat>, kp: nat, d: nat, e: nat, slots: set<nat>)
    requires DirOk(mem, dirs, {}, kp, d) && e in dirs && forall r :: r in slots ==> r < ENTRIES
    ensures e !in TablesBehind(mem, d, slots)
  {
    hide TableOf;
  }

  /** Separation survives the return of tables if and only if no other directory
      enters any of them. */
  lemma GivenBackIff(was: Memory, mem: Memory, dirs: set<nat>, free: set<nat>, free': set<nat>, pool: set<nat>,
                     kd: nat, kp: nat, d: nat, gone: set<nat>)
    requires Inv(was, dirs, free, pool, kd, kp) && Inv(mem, dirs, {}, pool, kd, kp) && d in dirs
    requires GivenBack(was, mem, dirs, d, free, free', gone)
    ensures Inv(mem, dirs, free', pool, kd, kp) <==> forall r :: r in gone ==> Unshared(was, dirs, d, r)
  {
    hide TableOf, Unshared, Tables, OneSlot, Pooled;
    if forall r :: r in gone ==> Unshared(was, dirs, d, r) {
      forall e | e in dirs ensures DirOk(mem, dirs, free', kp, e) {
        StaysApart(was, mem, dirs, free, free', pool, kd, kp, d, gone, e);
      }
    }
    if r :| r in gone && !Unshared(was, dirs, d, r) {
      SharedIsFree(was, mem, dirs, free, free', kp, d, gone, r);
    }
  }

  lemma StaysApart(was: Memory, mem: Memory, dirs: set<nat>, free: set<nat>, free': set<nat>, pool: set<nat>,
                   kd: nat, kp: nat, d: nat, gone: set<nat>, e: nat)
    requires Inv(was, dirs, free, pool, kd, kp) && Inv(mem, dirs, {}, pool, kd, kp) && d in dirs && e in dirs
    requires GivenBack(was, mem, dirs, d, free, free', gone)
    requires forall r :: r in gone ==> Unshared(was, dirs, d, r)
    ensures DirOk(mem, dirs, free', kp, e)
  {
    hide TableOf, Unshared, Tables, OneSlot, Pooled;
    assert DirOk(was, dirs, free, kp, d) && DirOk(was, dirs, free, kp, e) && DirOk(mem, dirs, {}, kp, e);
    NoDirBehind(was, dirs, kp, d, e, gone);
    forall s | 0 <= s < ENTRIES && TableOf(mem, e, s).Some? ensures TableOf(mem, e, s).value !in free' {
      assert TableOf(mem, e, s) == TableOf(was, e, s);
      forall r | r in gone ensures TableOf(was, d, r) != TableOf(was, e, s) {
        if e == d {
          assert s !in gone && (r < s || s < r);
        } else {
          UnsharedFrom(was, dirs, d, r, e, s);
        }
      }
    }
  }

  lemma UnsharedFrom(mem: Memory, dirs: set<nat>, d: nat, s: nat, e: nat, r: nat)
    requires Unshared(mem, dirs, d, s) && e in dirs && e != d && r < ENTRIES
    ensures TableOf(mem, e, r) != TableOf(mem, d, s)
  {
    hide TableOf;
  }

  /** A table that was given back and is still entered elsewhere breaks separation. */
  lemma SharedIsFree(was: Memory, mem: Memory, dirs: set<nat>, free: set<nat>, free': set<nat>, kp: nat, d: nat,
                     gone: set<nat>, r: nat)
    requires GivenBack(was, mem, dirs, d, free, free', gone) && r in gone && !Unshared(was, dirs, d, r)
    ensures exists e :: e in dirs && !DirOk(mem, dirs, free', kp, e)
  {
    hide TableOf;
    var e, s :| e in dirs && e != d && 0 <= s < ENTRIES && TableOf(was, e, s) == TableOf(was, d, r);
    assert TableOf(mem, e, s) == TableOf(was, e, s);
    assert TableOf(was, d, r).value in TablesBehind(was, d, gone);
    assert !DirOk(mem, dirs, free', kp, e);
  }

  lemma DroppedTables(mem: Memory, dirs: set<nat>, free: set<nat>, d: nat, s: nat)
    requires d in mem && s < |mem[d]| && |mem[d]| == ENTRIES && s != KERNEL_SLOT && TableOf(mem, d, s).Some?
    ensures GivenBack(mem, WithoutTable(mem, d, s), dirs, d, free, free + {TableOf(mem, d, s).value}, {s})
  {
    hide Addr;
    assert TablesBehind(mem, d, {s}) == {TableOf(mem, d, s).value};
  }

  /** Taking a table away keeps tables and directories apart. */
  lemma DropTableApart(mem: Memory, dirs: set<nat>, pool: set<nat>, kd: nat, kp: nat, d: nat, s: nat)
    requires Inv(mem, dirs, {}, pool, kd, kp) && d in dirs && s < ENTRIES && s != KERNEL_SLOT &&
        TableOf(mem, d, s).Some?
    ensures d in mem && s < |mem[d]|
    ensures Inv(WithoutTable(mem, d, s), dirs, {}, pool, kd, kp)
  {
    assert DirOk(mem, dirs, {}, kp, d);
    var mem' := WithoutTable(mem, d, s);
    DroppedTables(mem, dirs, {}, d, s);
    hide TableOf;
    assert Tables(mem');
    forall e | e in dirs ensures DirOk(mem', dirs, {}, kp, e) {
      assert DirOk(mem, dirs, {}, kp, e);
    }
    assert TableOf(mem', kd, KERNEL_SLOT) == TableOf(mem, kd, KERNEL_SLOT);
  }

  /** Giving back one table keeps the separation of tables, directories and free
      frames if and only if no other directory enters it. */
  lemma DropTableIff(mem: Memory, dirs: set<nat>, free: set<nat>, pool: set<nat>, kd: nat, kp: nat, d: nat, s: nat,
                     t: nat)
    requires Inv(mem, dirs, free, pool, kd, kp)
    requires d in dirs && s < ENTRIES && s != KERNEL_SLOT && TableOf(mem, d, s) == Some(t)
    ensures d in mem && s < |mem[d]|
    ensures Inv(WithoutTable(mem, d, s), dirs, free + {t}, pool, kd, kp) <==> Unshared(mem, dirs, d, s)
  {
    hide Inv, TableOf, Unshared, WithoutTable, GivenBack;
    DirTable(mem, dirs, free, pool, kd, kp, d, s);
    FewerFree(mem, dirs, free, {}, pool, kd, kp);
    DropTableApart(mem, dirs, pool, kd, kp, d, s);
    DroppedTables(mem, dirs, free, d, s);
    GivenBackIff(mem, WithoutTable(mem, d, s), dirs, free, free + {t}, pool, kd, kp, d, {s});
  }

  /** Giving back the table of a slot just cleared changes no translation, shared or
      not. */
  lemma DropStep(mem: Memory, dirs: set<nat>, free: set<nat>, pool: set<nat>, kd: nat, kp: nat, d: nat, s: nat, t: nat)
    requires Editable(mem, dirs, free, pool, kd, kp, d) && s < ENTRIES && s != KERNEL_SLOT
    requires TableOf(mem, d, s) == Some(t)
    requires forall v: nat :: v < PAGES && v / ENTRIES == s ==> Lookup(mem, d, v) == None
    ensures d in mem && s < |mem[d]|
    ensures
      var mem' := WithoutTable(mem, d, s);
      && Editable(mem', dirs, free + {t}, pool, kd, kp, d)
      && Removed(mem, mem', d, s * ENTRIES, 0)
      && OthersKept(mem, mem', dirs, d)
      && kp in mem && kp in mem' && mem'[kp] == mem[kp]
      && GivenBack(mem, mem', dirs, d, free, free + {t}, {s})
  {
    hide Inv, Lookup, Private, TableOf, DirOk, GivenBack;
    DirTable(mem, dirs, {}, pool, kd, kp, d, s);
    KernelTable(mem, dirs, {}, pool, kd, kp);
    DropTableApart(mem, dirs, pool, kd, kp, d, s);
    DroppedTables(mem, dirs, free, d, s);
    var mem' := WithoutTable(mem, d, s);
    EditableMore(mem, mem', dirs, free, free + {t}, pool, kd, kp, d, {s});
    forall v: nat | v < PAGES ensures Lookup(mem', d, v) == Lookup(mem, d, v) {
      DropTableLookup(mem, dirs, {}, pool, kd, kp, d, s, d, v);
    }
    forall e, v: nat | e in dirs && e != d && v < PAGES && Private(mem, d, e, v)
      ensures Lookup(mem', e, v) == Lookup(mem, e, v) && Private(mem', d, e, v)
    {
      DropTableLookup(mem, dirs, {}, pool, kd, kp, d, s, e, v);
      PrivateDropped(mem, d, s, e, v);
    }
  }

  lemma PrivateDropped(mem: Memory, d: nat, s: nat, e: nat, v: nat)
    requires d in mem && s < |mem[d]| && e != d && Private(mem, d, e, v)
    ensures Private(WithoutTable(mem, d, s), d, e, v)
  {
    hide Addr;
    var mem' := WithoutTable(mem, d, s);
    assert TableOf(mem', e, v / ENTRIES) == TableOf(mem, e, v / ENTRIES);
    assert forall r :: 0 <= r < ENTRIES ==> TableOf(mem', d, r) == TableOf(mem, d, r) || TableOf(mem', d, r) == None;
  }

  // ----- the loop over the slots of a range

  /** How far one round gets in a present slot: the size is not reduced from round to
      round, and the end of the table and the temporary page stop it. */
  function Portion(q: nat, n: nat): nat {
    var limit := (if q / ENTRIES == KERNEL_SLOT then TMP_IDX else ENTRIES) - q % ENTRIES;
    if n < limit then n else limit
  }

  /** How far one round gets: an absent slot is skipped up to its end, but not from
      its start. */
  ghost function Stride(mem: Memory, d: nat, q: nat, n: nat): nat {
    if TableOf(mem, d, q / ENTRIES) == None then (ENTRIES - q % ENTRIES) % ENTRIES else Portion(q, n)
  }

  /** An absent slot at its start, or the temporary page of a present kernel slot. */
  ghost predicate StuckAt(mem: Memory, d: nat, q: nat) {
    if TableOf(mem, d, q / ENTRIES) == None then q % ENTRIES == 0 else q == TMP_PAGE
  }

  /** One round makes no progress exactly there. */
  lemma StuckIff(mem: Memory, d: nat, q: nat, n: nat)
    requires n >= 1
    ensures Stride(mem, d, q, n) == 0 <==> StuckAt(mem, d, q)
  {
    hide TableOf;
  }

  ghost predicate Stalls(mem: Memory, d: nat, p: nat, n: nat) {
    exists q: nat :: p <= q < p + n && StuckAt(mem, d, q)
  }

  /** The page the loop stands at after `k` rounds. */
  ghost function Stand(mem: Memory, d: nat, p: nat, n: nat, k: nat): nat {
    if k == 0 then p
    else
      var q := Stand(mem, d, p, n, k - 1);
      if q < p + n then q + Stride(mem, d, q, n) else q
  }

  /** Where the loop comes to stand when it does not stall. */
  ghost function Stop(mem: Memory, d: nat, p: nat, n: nat): nat {
    if n > 0 && p % ENTRIES + n <= ENTRIES && TableOf(mem, d, p / ENTRIES) == None then (p / ENTRIES + 1) * ENTRIES
    else p + Swept(p, n)
  }

  /** How many pages unmapping `n` pages from page `p` on sweeps over: in the last
      slot the size counts in full. */
  function Swept(p: nat, n: nat): nat {
    if p % ENTRIES + n <= ENTRIES then n
    else
      var last := (p + n - 1) / ENTRIES * ENTRIES;
      last - p + Portion(last, n)
  }

  /** A round never passes a place where the loop is stuck. */
  lemma StrideBelow(mem: Memory, d: nat, q: nat, n: nat, x: nat)
    requires q <= x && StuckAt(mem, d, x)
    ensures q + Stride(mem, d, q, n) <= x
  {
    hide TableOf;
    if q / ENTRIES < x / ENTRIES {
      assert (q / ENTRIES + 1) * ENTRIES <= x / ENTRIES * ENTRIES;
    }
  }

  lemma {:induction false} StallForGood(mem: Memory, d: nat, p: nat, n: nat, x: nat, k: nat)
    requires p <= x < p + n && StuckAt(mem, d, x)
    ensures p <= Stand(mem, d, p, n, k) <= x
  {
    if k == 0 {
    } else {
      StallForGood(mem, d, p, n, x, k - 1);
      StrideBelow(mem, d, Stand(mem, d, p, n, k - 1), n, x);
    }
  }

  /** One round that is not stuck, from a place the loop can stand at. */
  lemma SweepStep(mem: Memory, d: nat, p: nat, n: nat, q: nat)
    requires p <= q < p + n && (q == p || q % ENTRIES == 0) && !Stalls(mem, d, p, n)
    ensures
      var q' := q + Stride(mem, d, q, n);
      && q' > q && q' <= (q / ENTRIES + 1) * ENTRIES
      && (q' < p + n ==> q' % ENTRIES == 0 && q' / ENTRIES == q / ENTRIES + 1)
      && (q' >= p + n ==> q' == Stop(mem, d, p, n))
  {
    assert !StuckAt(mem, d, q);
    hide TableOf;
    StuckIff(mem, d, q, n);
    var s, last := q / ENTRIES, (p + n - 1) / ENTRIES;
    var q' := q + Stride(mem, d, q, n);
    assert q == s * ENTRIES + q % ENTRIES && s <= last;
    if s == KERNEL_SLOT && TableOf(mem, d, s).Some? {
      assert TMP_PAGE / ENTRIES == s;
      assert !(p <= TMP_PAGE < p + n) by { assert StuckAt(mem, d, TMP_PAGE); }
    }
    if s < last {
      assert (s + 1) * ENTRIES <= last * ENTRIES <= p + n - 1;
      if q > p {
        assert n > ENTRIES;
      }
    } else if q > p {
      assert p / ENTRIES < last;
      assert q == last * ENTRIES && TableOf(mem, d, s).Some?;
    }
  }

  /** Without a stall the loop stands at slot starts until it stops. */
  lemma {:induction false} StandsAt(mem: Memory, d: nat, p: nat, n: nat, k: nat)
    requires !Stalls(mem, d, p, n)
    ensures
      var q := Stand(mem, d, p, n, k);
      if q < p + n then p <= q && (q == p || q % ENTRIES == 0) else q == Stop(mem, d, p, n)
  {
    hide TableOf;
    if k == 0 {
      assert n == 0 ==> Stop(mem, d, p, n) == p;
    } else {
      StandsAt(mem, d, p, n, k - 1);
      var q := Stand(mem, d, p, n, k - 1);
      if q < p + n {
        SweepStep(mem, d, p, n, q);
      }
    }
  }

  lemma {:induction false} StopsAfter(mem: Memory, d: nat, p: nat, n: nat, k: nat) returns (k': nat)
    requires !Stalls(mem, d, p, n)
    ensures Stand(mem, d, p, n, k') == Stop(mem, d, p, n) >= p + n
    decreases p + n - Stand(mem, d, p, n, k)
  {
    hide TableOf;
    StandsAt(mem, d, p, n, k);
    var q := Stand(mem, d, p, n, k);
    if q < p + n {
      SweepStep(mem, d, p, n, q);
      assert Stand(mem, d, p, n, k + 1) == q + Stride(mem, d, q, n);
      k' := StopsAfter(mem, d, p, n, k + 1);
    } else {
      k' := k;
    }
  }

  /** The loop comes to an end inside the address space if and only if it meets no
      absent slot at its start and no temporary page in the range, and does not sweep
      up to the very end of the address space. */
  lemma EndsIff(mem: Memory, d: nat, p: nat, n: nat)
    requires p + n < PAGES
    ensures (exists k: nat :: p + n <= Stand(mem, d, p, n, k) < PAGES) <==>
        !Stalls(mem, d, p, n) && Stop(mem, d, p, n) < PAGES
  {
    hide TableOf, StuckAt;
    if Stalls(mem, d, p, n) {
      var x: nat :| p <= x < p + n && StuckAt(mem, d, x);
      forall k: nat ensures Stand(mem, d, p, n, k) < p + n {
        StallForGood(mem, d, p, n, x, k);
      }
    } else {
      var k := StopsAfter(mem, d, p, n, 0);
      forall k: nat ensures Stand(mem, d, p, n, k) < p + n || Stand(mem, d, p, n, k) == Stop(mem, d, p, n) {
        StandsAt(mem, d, p, n, k);
      }
    }
  }

  // ----- what the loop removes

  /** Nothing more than asked for is swept exactly when the range stays in one slot,
      ends at the end of one, or ends at the temporary page. */
  lemma SweptIs(p: nat, n: nat)
    requires !(p <= TMP_PAGE < p + n)
    ensures Swept(p, n) >= n
    ensures Swept(p, n) == n <==> p % ENTRIES + n <= ENTRIES || (p + n) % ENTRIES == 0 || p + n == TMP_PAGE
  {
    if p % ENTRIES + n > ENTRIES {
      var last := (p + n - 1) / ENTRIES;
      assert last > p / ENTRIES;
      assert (p + n) % ENTRIES == 0 <==> p + n == (last + 1) * ENTRIES;
    }
  }

  /** Unmapping removes exactly the range asked for if and only if no page past its
      end that is swept along was mapped. */
  lemma UnmapsExactlyIff(mem: Memory, mem': Memory, d: nat, p: nat, n: nat)
    requires Removed(mem, mem', d, p, Swept(p, n)) && n <= Swept(p, n) && p + Swept(p, n) <= PAGES
    ensures Removed(mem, mem', d, p, n) <==>
            forall v: nat :: p + n <= v < p + Swept(p, n) ==> Lookup(mem, d, v) == None
  {
    hide Lookup, Swept;
    if Removed(mem, mem', d, p, n) {
      forall v: nat | p + n <= v < p + Swept(p, n) ensures Lookup(mem, d, v) == None {
        assert v < PAGES && Lookup(mem', d, v) == Lookup(mem, d, v);
      }
    }
  }

  /** One page too many: unmapping the two pages on either side of a slot boundary
      also unmaps the page after them. */
  lemma SweptTooFar(mem: Memory, mem': Memory, d: nat, s: nat)
    requires 1 <= s < ENTRIES && s != KERNEL_SLOT + 1
    requires Removed(mem, mem', d, s * ENTRIES - 1, Swept(s * ENTRIES - 1, 2))
    requires Lookup(mem, d, s * ENTRIES + 1).Some?
    ensures Lookup(mem', d, s * ENTRIES + 1) == None && !Removed(mem, mem', d, s * ENTRIES - 1, 2)
  {
    hide Lookup;
    var v := s * ENTRIES + 1;
    assert Swept(s * ENTRIES - 1, 2) == 3;
    assert v < PAGES && Lookup(mem', d, v) == None;
  }

  predicate Whole(p: nat, q: nat, s: nat) { p <= s * ENTRIES && (s + 1) * ENTRIES <= q }

  /** The slots that lie as a whole between pages `p` and `q`. */
  ghost function WholeSlots(p: nat, q: nat): set<nat> {
    set s | 0 <= s < ENTRIES && Whole(p, q, s)
  }

  /** A round clears at most one whole slot. */
  lemma WholeNext(p: nat, q: nat, m: nat)
    requires p <= q && (q == p || q % ENTRIES == 0) && q % ENTRIES + m <= ENTRIES && q < PAGES
    ensures WholeSlots(p, q + m) == WholeSlots(p, q) + if m == ENTRIES then {q / ENTRIES} else {}
    ensures q / ENTRIES !in WholeSlots(p, q)
  {
    var s, before, after := q / ENTRIES, WholeSlots(p, q), WholeSlots(p, q + m);
    forall r | r in after && r !in before ensures m == ENTRIES && r == s {
      assert q < (r + 1) * ENTRIES <= q + m;
    }
    forall r | r in before ensures r in after && r != s {
      assert (r + 1) * ENTRIES <= q;
    }
  }

  /** Rounds up to the start of a slot. */
  function RoundUpSlot(vaddr: nat): nat {
    var m := vaddr % (FOUR_KB * ENTRIES);
    if m == 0 then vaddr else vaddr + (FOUR_KB * ENTRIES - m)
  }

  lemma RoundUpStride(vaddr: nat)
    requires vaddr % FOUR_KB == 0
    ensures
      var q := vaddr / FOUR_KB;
      RoundUpSlot(vaddr) == vaddr + FOUR_KB * ((ENTRIES - q % ENTRIES) % ENTRIES)
  {
    var q := vaddr / FOUR_KB;
    var s, i := q / ENTRIES, q % ENTRIES;
    assert vaddr == FOUR_KB * q && q == s * ENTRIES + i;
    SlotRemainder(s, FOUR_KB * i);
  }

  lemma SlotRemainder(s: nat, r: nat)
    requires r < FOUR_KB * ENTRIES
    ensures (s * (FOUR_KB * ENTRIES) + r) % (FOUR_KB * ENTRIES) == r
  {
  }

  /** The slot the loop stands at has the table it had. */
  lemma SlotAhead(was: Memory, mem: Memory, dirs: set<nat>, d: nat, free: set<nat>, free': set<nat>, p: nat, q: nat)
    requires Progress(was, mem, dirs, d, free, free', p, q) && d in dirs && q < PAGES
    ensures TableOf(mem, d, q / ENTRIES) == TableOf(was, d, q / ENTRIES)
  {
    hide TableOf, Removed, OthersKept;
    assert q / ENTRIES !in WholeSlots(p, q);
  }

  lemma PresentTable(mem: Memory, d: nat, s: nat)
    requires d in mem && s < |mem[d]| && Sane(mem[d][s])
    ensures IsPresent(mem[d][s]) <==> TableOf(mem, d, s).Some?
  {
    TestsAgree(mem[d][s]);
  }

  /** `mem` is `was` with the pages from `p` up to `q` unmapped, and the tables of the
      slots that lie between them as a whole given back. */
  ghost predicate Progress(was: Memory, mem: Memory, dirs: set<nat>, d: nat, free: set<nat>, free': set<nat>, p: nat,
                           q: nat) {
    && p <= q
    && Removed(was, mem, d, p, q - p) && OthersKept(was, mem, dirs, d)
    && GivenBack(was, mem, dirs, d, free, free', WholeSlots(p, q))
  }

  /** Skipping an absent slot that the range starts inside of. */
  lemma ProgressSkip(was: Memory, mem: Memory, dirs: set<nat>, d: nat, free: set<nat>, free': set<nat>, p: nat,
                     q: nat, m: nat)
    requires Progress(was, mem, dirs, d, free, free', p, q) && (q == p || q % ENTRIES == 0) && q < PAGES
    requires TableOf(mem, d, q / ENTRIES) == None && m < ENTRIES && q % ENTRIES + m <= ENTRIES
    ensures Progress(was, mem, dirs, d, free, free', p, q + m)
  {
    hide Lookup, OthersKept, GivenBack, WholeSlots, TableOf;
    NothingBehind(mem, d, q, m);
    RemoveMore(was, mem, mem, d, p, q - p, m);
    WholeNext(p, q, m);
    assert WholeSlots(p, q) + {} == WholeSlots(p, q);
  }

  /** Unmapping behind a present slot. */
  lemma ProgressMore(was: Memory, mem: Memory, mem': Memory, dirs: set<nat>, d: nat, free: set<nat>, free1: set<nat>,
                     free2: set<nat>, p: nat, q: nat, m: nat)
    requires Progress(was, mem, dirs, d, free, free1, p, q) && (q == p || q % ENTRIES == 0) && q < PAGES
    requires d in dirs && q % ENTRIES + m <= ENTRIES
    requires Removed(mem, mem', d, q, m) && OthersKept(mem, mem', dirs, d)
    requires GivenBack(mem, mem', dirs, d, free1, free2, if m == ENTRIES then {q / ENTRIES} else {})
    ensures Progress(was, mem', dirs, d, free, free2, p, q + m)
  {
    hide Removed, OthersKept, GivenBack, WholeSlots, TableOf;
    RemoveMore(was, mem, mem', d, p, q - p, m);
    OthersMore(was, mem, mem', dirs, d);
    WholeNext(p, q, m);
    GivenMore(was, mem, mem', dirs, d, free, free1, free2, WholeSlots(p, q),
              if m == ENTRIES then {q / ENTRIES} else {});
  }

  /** What the last round of the loop clears. */
  ghost function LastRound(mem: Memory, d: nat, p: nat, n: nat): nat {
    if p % ENTRIES + n > ENTRIES then Portion((p + n - 1) / ENTRIES * ENTRIES, n)
    else if n > 0 && TableOf(mem, d, p / ENTRIES) == None then 0
    else n
  }

  lemma SweepStart(mem: Memory, dirs: set<nat>, d: nat, free: set<nat>, p: nat, n: nat)
    ensures Progress(mem, mem, dirs, d, free, free, p, p)
    ensures n == 0 ==> Stop(mem, d, p, n) == p && LastRound(mem, d, p, n) == 0
  {
    RemoveNothing(mem, dirs, d, p);
    GivenNothing(mem, mem, dirs, d, free);
    assert WholeSlots(p, p) == {};
  }

  lemma SweepLast(mem: Memory, d: nat, p: nat, n: nat, q: nat)
    requires p <= q < p + n && (q == p || q % ENTRIES == 0) && !Stalls(mem, d, p, n)
    ensures q + Stride(mem, d, q, n) >= p + n ==>
              LastRound(mem, d, p, n) == if TableOf(mem, d, q / ENTRIES) == None then 0 else Stride(mem, d, q, n)
    ensures q > p && q + Stride(mem, d, q, n) >= p + n ==> TableOf(mem, d, q / ENTRIES).Some?
  {
    hide TableOf, Portion, Stalls;
    SweepStep(mem, d, p, n, q);
    if q + Stride(mem, d, q, n) >= p + n {
      LastPosition(p, n, q, q + Stride(mem, d, q, n));
      if p % ENTRIES + n > ENTRIES {
        NotStuck(mem, d, p, n, q);
      }
    }
  }

  lemma NotStuck(mem: Memory, d: nat, p: nat, n: nat, q: nat)
    requires p <= q < p + n && !Stalls(mem, d, p, n)
    ensures !StuckAt(mem, d, q)
  {
    hide StuckAt;
  }

  /** The last round starts where the range does, or at the start of its last slot. */
  lemma LastPosition(p: nat, n: nat, q: nat, q': nat)
    requires p <= q < p + n <= q' <= (q / ENTRIES + 1) * ENTRIES && (q == p || q % ENTRIES == 0)
    ensures
      if p % ENTRIES + n <= ENTRIES then q == p
      else q > p && q == (p + n - 1) / ENTRIES * ENTRIES && q % ENTRIES == 0
  {
    var last := (p + n - 1) / ENTRIES;
    assert q / ENTRIES == last;
    assert p % ENTRIES + n > ENTRIES ==> p / ENTRIES < last;
  }

  /** What a round of the loop may rely on. */
  lemma StandsInside(was: Memory, mem: Memory, dirs: set<nat>, d: nat, free: set<nat>, free': set<nat>, p: nat,
                     n: nat, q: nat)
    requires Progress(was, mem, dirs, d, free, free', p, q) && d in dirs && p + n < PAGES && !Stalls(was, d, p, n)
    requires q < p + n && (q == p || q % ENTRIES == 0)
    ensures p <= q < PAGES && TableOf(mem, d, q / ENTRIES) == TableOf(was, d, q / ENTRIES)
    ensures
      var m := Stride(was, d, q, n);
      && m >= 1 && q % ENTRIES + m <= ENTRIES
      && (TableOf(was, d, q / ENTRIES) == None ==> m == (ENTRIES - q % ENTRIES) % ENTRIES)
      && (TableOf(was, d, q / ENTRIES).Some? ==> m == Portion(q, n))
  {
    hide TableOf, Removed, OthersKept, GivenBack, WholeSlots, Stalls, StuckAt, Stop;
    SlotAhead(was, mem, dirs, d, free, free', p, q);
    SweepStep(was, d, p, n, q);
  }

  /** What holds when the loop has stopped. */
  lemma SweepDone(was: Memory, mem: Memory, dirs: set<nat>, free: set<nat>, free': set<nat>, pool: set<nat>,
                  kd: nat, kp: nat, d: nat, p: nat, n: nat)
    requires Inv(was, dirs, free, pool, kd, kp) && Editable(mem, dirs, free', pool, kd, kp, d) && !Stalls(was, d, p, n)
    requires Progress(was, mem, dirs, d, free, free', p, Stop(was, d, p, n))
    ensures
      var gone := WholeSlots(p, p + Swept(p, n));
      && Removed(was, mem, d, p, Swept(p, n)) && OthersKept(was, mem, dirs, d)
      && GivenBack(was, mem, dirs, d, free, free', gone)
      && (Inv(mem, dirs, free', pool, kd, kp) <==> forall r :: r in gone ==> Unshared(was, dirs, d, r))
  {
    hide Inv, Removed, OthersKept, GivenBack, WholeSlots, Stalls, Stop, Swept, Unshared;
    SweptRemoved(was, mem, d, p, n);
    GivenBackIff(was, mem, dirs, free, free', pool, kd, kp, d, WholeSlots(p, p + Swept(p, n)));
  }

  /** Seen from the end, the loop has removed what is swept. */
  lemma SweptRemoved(was: Memory, mem: Memory, d: nat, p: nat, n: nat)
    requires p <= Stop(was, d, p, n) && Removed(was, mem, d, p, Stop(was, d, p, n) - p) && !Stalls(was, d, p, n)
    ensures Removed(was, mem, d, p, Swept(p, n))
    ensures WholeSlots(p, Stop(was, d, p, n)) == WholeSlots(p, p + Swept(p, n))
  {
    hide Lookup;
    if Stop(was, d, p, n) != p + Swept(p, n) {
      var m := Stop(was, d, p, n) - p;
      assert !StuckAt(was, d, p);
      NothingBehind(was, d, p, m);
      RemovedLess(was, mem, d, p, m, n);
      NoWhole(p, p + m);
      NoWhole(p, p + n);
    }
  }

  lemma NoWhole(p: nat, q: nat)
    requires p % ENTRIES != 0 && q <= (p / ENTRIES + 1) * ENTRIES
    ensures WholeSlots(p, q) == {}
  {
    forall s | 0 <= s < ENTRIES ensures !Whole(p, q, s) {
      assert p / ENTRIES * ENTRIES < p;
    }
  }

  /** A table that a mapping has made anew is entered nowhere else; an old one is
      shared as it was. */
  lemma FreshUnshared(mem: Memory, mem': Memory, dirs: set<nat>, free: set<nat>, pool: set<nat>, kd: nat, kp: nat,
                      d: nat, s: nat)
    requires Inv(mem, dirs, free, pool, kd, kp) && FreshTables(mem, mem', dirs, d, free)
    requires d in dirs && s < ENTRIES && TableOf(mem', d, s).Some?
    ensures Unshared(mem', dirs, d, s) <==> TableOf(mem, d, s) == None || Unshared(mem, dirs, d, s)
  {
    hide TableOf, Inv;
    forall e, r | e in dirs && e != d && 0 <= r < ENTRIES
      ensures TableOf(mem', e, r) == TableOf(mem, e, r)
      ensures TableOf(mem, d, s) == None ==> TableOf(mem, e, r) != TableOf(mem', d, s)
    {
      DirTable(mem, dirs, free, pool, kd, kp, e, r);
    }
  }

  /** A range behind one present slot, clear of the temporary page. */
  lemma OneSlotRange(mem: Memory, d: nat, p: nat, n: nat)
    requires p % ENTRIES + n <= ENTRIES && !(p <= TMP_PAGE < p + n) && TableOf(mem, d, p / ENTRIES).Some? && n >= 1
    ensures !Stalls(mem, d, p, n) && Stop(mem, d, p, n) == p + n && Swept(p, n) == n
    ensures p < PAGES ==> WholeSlots(p, p + n) == if n == ENTRIES then {p / ENTRIES} else {}
  {
    hide TableOf;
    forall q: nat | p <= q < p + n ensures !StuckAt(mem, d, q) {
      assert q / ENTRIES == p / ENTRIES;
    }
    if p < PAGES {
      WholeNext(p, p, n);
      assert WholeSlots(p, p) == {};
    }
  }

  lemma NothingToUnmap(vaddr: nat, size: nat)
    requires vaddr % FOUR_KB == 0 && vaddr < WORD && size < WORD
    requires (vaddr + RoundUp(size) % WORD) % WORD <= vaddr
    ensures vaddr + RoundUp(size) >= WORD || RoundUp(size) == 0
  {
  }

  lemma SomethingToUnmap(vaddr: nat, size: nat)
    requires vaddr % FOUR_KB == 0 && vaddr < WORD && size < WORD
    requires (vaddr + RoundUp(size) % WORD) % WORD > vaddr
    ensures vaddr + RoundUp(size) < WORD && RoundUp(size) % WORD == RoundUp(size) > 0
    ensures vaddr / FOUR_KB + RoundUp(size) / FOUR_KB < PAGES
  {
  }

  lemma SweepNothing(mem: Memory, dirs: set<nat>, d: nat, free: set<nat>, pool: set<nat>, kd: nat, kp: nat, p: nat)
    requires Inv(mem, dirs, free, pool, kd, kp) && d in dirs
    ensures LastRound(mem, d, p, 0) == 0 && Swept(p, 0) == 0 && WholeSlots(p, p) == {}
    ensures Removed(mem, mem, d, p, 0) && OthersKept(mem, mem, dirs, d) && GivenBack(mem, mem, dirs, d, free, free, {})
  {
    RemoveNothing(mem, dirs, d, p);
    GivenNothing(mem, mem, dirs, d, free);
  }

  lemma EditableKernel(mem: Memory, dirs: set<nat>, free: set<nat>, pool: set<nat>, kd: nat, kp: nat, d: nat)
    requires Editable(mem, dirs, free, pool, kd, kp, d)
    ensures kp in mem && |mem[kp]| == ENTRIES && d in dirs
  {
    hide Inv, DirOk;
    KernelTable(mem, dirs, {}, pool, kd, kp);
  }
}
