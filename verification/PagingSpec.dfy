/** Two-level page tables as values: entries, tables in physical frames, and the
    walk the processor performs (32-bit paging, section 4.3 of the Intel SDM,
    volume 3A). */
module PagingSpec {
  import opened Wrappers

  const FOUR_KB: nat := 0x1000
  const WORD: nat := 0x1_0000_0000
  const ENTRIES: nat := 1024
  /** The directory slot of the kernel, and the temporary page inside it. */
  const KERNEL_SLOT: nat := 768
  const TMP_IDX: nat := 1023
  const TMP_PAGE: nat := KERNEL_SLOT * ENTRIES + TMP_IDX

  /** A directory or table entry: config byte, low and high part of the address. */
  datatype Entry = Entry(config: nat, low: nat, high: nat)

  type Table = seq<Entry>
  /** The frames that hold tables or directories, by physical address. */
  type Memory = map<nat, Table>

  const ABSENT: Entry := Entry(0, 0, 0)

  /** The test the kernel makes on an entry. */
  predicate IsPresent(e: Entry) { e.config != 0 }

  /** The bit the processor looks at. */
  predicate HwPresent(e: Entry) { e.config % 2 == 1 }

  /** Every reachable entry is all zero or has its present bit set. */
  predicate Sane(e: Entry) {
    e == ABSENT || (HwPresent(e) && e.config < 0x100 && e.low < 0x100 && e.high < 0x10000)
  }

  function Addr(e: Entry): nat {
    e.high * 0x10000 + e.low / 16 * 16 * 0x100
  }

  function MakePte(paddr: nat, rw: nat, pl: nat): Entry {
    Entry(8 + pl % 2 * 4 + rw % 2 * 2 + 1, paddr / 0x1000 % 16 * 16, paddr / 0x10000 % 0x10000)
  }

  function MakePde(paddr: nat, ps: nat, rw: nat, pl: nat): Entry {
    Entry(ps % 2 * 128 + 8 + pl % 2 * 4 + rw % 2 * 2 + 1, paddr / 0x1000 % 16 * 16, paddr / 0x10000 % 0x10000)
  }

  /** Both tests agree on a sane entry. */
  lemma TestsAgree(e: Entry)
    requires Sane(e)
    ensures IsPresent(e) <==> HwPresent(e)
  {
  }

  /** A sane entry is a zero word or has the present bit of its word set. */
  lemma SaneWords(e: Entry)
    requires Sane(e)
    ensures Word(e) == 0 || Word(e) % 2 == 1
  {
    if e != ABSENT {
      WordFlags(e);
    }
  }

  /** The entry as the 32-bit word the processor reads. */
  function Word(e: Entry): nat { e.config + 0x100 * e.low + 0x1_0000 * e.high }

  /** The words follow the processor's layout: the frame in bits 31 to 12, present in bit
      0, writable in bit 1, user in bit 2, write-through in bit 3 and, in a directory, the
      page size in bit 7. */
  lemma EntryWords(paddr: nat, ps: nat, rw: nat, pl: nat)
    requires paddr % 0x1000 == 0 && paddr < WORD
    ensures Word(MakePte(paddr, rw, pl)) == paddr + 8 + 4 * (pl % 2) + 2 * (rw % 2) + 1
    ensures Word(MakePde(paddr, ps, rw, pl)) == paddr + 0x80 * (ps % 2) + 8 + 4 * (pl % 2) + 2 * (rw % 2) + 1
  {
    var n := paddr / 0x1000;
    assert paddr == n * 0x1000;
  }

  /** Address and present bit are where the processor looks for them in the word. */
  lemma EntryFields(e: Entry)
    requires e.config < 0x100 && e.low < 0x100 && e.high < 0x1_0000
    ensures Addr(e) == Word(e) / 0x1000 * 0x1000 && (HwPresent(e) <==> Word(e) % 2 == 1)
    ensures PageOf(e) == Page(Word(e) / 0x1000 * 0x1000, Word(e) / 2 % 2 == 1, Word(e) / 4 % 2 == 1)
  {
    WordAddress(e);
    WordFlags(e);
    hide Word, Addr;
  }

  lemma WordAddress(e: Entry)
    requires e.config < 0x100 && e.low < 0x100
    ensures Word(e) / 0x1000 * 0x1000 == Addr(e)
  {
    WordFrame(e.config, e.low, e.high);
    TimesPage(16 * e.high, e.low / 16);
  }

  lemma TimesPage(a: nat, b: nat)
    ensures (a + b) * 0x1000 == a * 0x1000 + b * 16 * 0x100
  {
  }

  lemma WordFlags(e: Entry)
    ensures Word(e) % 2 == e.config % 2 && Word(e) / 2 % 2 == e.config / 2 % 2 && Word(e) / 4 % 2 == e.config / 4 % 2
  {
    var w, c, high := Word(e), e.config, 0x20 * e.low + 0x2000 * e.high;
    assert w == c + 2 * (4 * high);
    HalfPlus(c, 4 * high);
    assert w / 2 == c / 2 + 2 * (2 * high);
    HalfPlus(c / 2, 2 * high);
    assert w / 2 / 2 == c / 2 / 2 + 2 * high;
    HalfPlus(c / 2 / 2, high);
    Quarter(w);
    Quarter(c);
  }

  lemma HalfPlus(c: nat, k: nat)
    ensures (c + 2 * k) / 2 == c / 2 + k && (c + 2 * k) % 2 == c % 2
  {
  }

  lemma Quarter(n: nat)
    ensures n / 2 / 2 == n / 4
  {
  }

  lemma WordFrame(config: nat, low: nat, high: nat)
    requires config < 0x100 && low < 0x100
    ensures (config + 0x100 * low + 0x1_0000 * high) / 0x1000 == 16 * high + low / 16
  {
    var a, b := low / 16, low % 16;
    assert low == 16 * a + b;
    WordParts(16 * high + a, 0x100 * b + config);
  }

  lemma WordParts(frame: nat, rest: nat)
    requires rest < 0x1000
    ensures (0x1000 * frame + rest) / 0x1000 == frame
  {
  }

  /** Entries give back the page-aligned address and the permissions they were made for. */
  lemma MadeEntries(paddr: nat, ps: nat, rw: nat, pl: nat)
    requires paddr % FOUR_KB == 0 && paddr < WORD
    ensures Addr(MakePte(paddr, rw, pl)) == paddr && HwPresent(MakePte(paddr, rw, pl)) && Sane(MakePte(paddr, rw, pl))
    ensures Addr(MakePde(paddr, ps, rw, pl)) == paddr && HwPresent(MakePde(paddr, ps, rw, pl))
    ensures Sane(MakePde(paddr, ps, rw, pl))
    ensures PageOf(MakePte(paddr, rw, pl)) == Page(paddr, rw % 2 == 1, pl % 2 == 1)
    ensures PageOf(MakePde(paddr, ps, rw, pl)) == Page(paddr, rw % 2 == 1, pl % 2 == 1)
  {
    AddressParts(paddr);
  }

  lemma AddressParts(paddr: nat)
    requires paddr % FOUR_KB == 0 && paddr < WORD
    ensures paddr / 0x10000 % 0x10000 * 0x10000 + paddr / 0x1000 % 16 * 16 / 16 * 16 * 0x100 == paddr
  {
    var n := paddr / 0x1000;
    assert paddr == n * 0x1000 && paddr / 0x10000 == n / 16;
  }

  lemma AddrAligned(e: Entry)
    requires Sane(e)
    ensures Addr(e) % FOUR_KB == 0 && Addr(e) < WORD
  {
  }

  /** Rounds up to whole pages. */
  function RoundUp(n: nat): (r: nat)
    ensures r % FOUR_KB == 0 && n <= r < n + FOUR_KB
  {
    var m := n % FOUR_KB;
    if m == 0 then n else n + (FOUR_KB - m)
  }

  // ----- translation

  ghost predicate Tables(mem: Memory) {
    forall f :: f in mem ==> |mem[f]| == ENTRIES && forall i :: 0 <= i < ENTRIES ==> Sane(mem[f][i])
  }

  /** The table behind slot `s` of directory `d`, if there is one. */
  ghost function TableOf(mem: Memory, d: nat, s: nat): Option<nat> {
    if d in mem && s < |mem[d]| && HwPresent(mem[d][s]) then Some(Addr(mem[d][s])) else None
  }

  /** What an entry says about a page: its frame, and whether it may be written and used
      in user mode. */
  datatype Page = Page(frame: nat, writable: bool, user: bool)

  function PageOf(e: Entry): Page {
    Page(Addr(e), e.config / 2 % 2 == 1, e.config / 4 % 2 == 1)
  }

  /** What the processor finds for page `v` through directory `d`. */
  ghost function Lookup(mem: Memory, d: nat, v: nat): Option<Page> {
    var t := TableOf(mem, d, v / ENTRIES);
    if t.Some? && t.value in mem && v % ENTRIES < |mem[t.value]| && HwPresent(mem[t.value][v % ENTRIES])
    then Some(PageOf(mem[t.value][v % ENTRIES]))
    else None
  }

  // ----- separation

  /** Distinct slots of one directory lead to distinct tables, none of them free,
      none of them a directory; only the kernel slot leads to the kernel table. */
  ghost predicate DirOk(mem: Memory, dirs: set<nat>, free: set<nat>, kp: nat, d: nat) {
    && d in mem && d !in free
    && (forall s :: 0 <= s < ENTRIES && TableOf(mem, d, s).Some? ==>
          var t := TableOf(mem, d, s).value;
          t in mem && t !in dirs && t !in free && (t == kp ==> s == KERNEL_SLOT))
    && (forall s, r :: 0 <= s < r < ENTRIES && TableOf(mem, d, s).Some? ==> TableOf(mem, d, s) != TableOf(mem, d, r))
  }

  /** Every table is one the frame allocator hands out, the kernel's own aside. */
  ghost predicate Pooled(mem: Memory, dirs: set<nat>, pool: set<nat>, kp: nat) {
    forall d, s :: d in dirs && 0 <= s < ENTRIES && TableOf(mem, d, s).Some? ==>
      TableOf(mem, d, s).value == kp || TableOf(mem, d, s).value in pool
  }

  /** A table that several directories enter is behind the same slot in all of them. */
  ghost predicate OneSlot(mem: Memory, dirs: set<nat>) {
    forall d, e, s, r :: d in dirs && e in dirs && 0 <= s < r < ENTRIES && TableOf(mem, d, s).Some? ==>
      TableOf(mem, d, s) != TableOf(mem, e, r)
  }

  /** The invariant of every reachable state: `kd` is the kernel's directory and
      `kp` the table behind its kernel slot. */
  ghost predicate Inv(mem: Memory, dirs: set<nat>, free: set<nat>, pool: set<nat>, kd: nat, kp: nat) {
    && Tables(mem)
    && kd in dirs
    && TableOf(mem, kd, KERNEL_SLOT) == Some(kp)
    && (forall d :: d in dirs ==> DirOk(mem, dirs, free, kp, d))
    && Pooled(mem, dirs, pool, kp)
    && OneSlot(mem, dirs)
  }

  // ----- the operations

  function NoEntries(): Table {
    seq(ENTRIES, i => ABSENT)
  }

  /** Entries `i` up to `i + m` filled with consecutive frames from `paddr` on. */
  function Filled(t: Table, i: nat, m: nat, paddr: nat, rw: nat, pl: nat): (r: Table)
    ensures |r| == |t|
    ensures forall k :: 0 <= k < |t| ==>
              r[k] == if i <= k < i + m then MakePte(paddr + FOUR_KB * (k - i), rw, pl) else t[k]
  {
    seq(|t|, k requires 0 <= k < |t| => if i <= k < i + m then MakePte(paddr + FOUR_KB * (k - i), rw, pl) else t[k])
  }

  function Emptied(t: Table, i: nat, m: nat): (r: Table)
    ensures |r| == |t|
    ensures forall k :: 0 <= k < |t| ==> r[k] == if i <= k < i + m && IsPresent(t[k]) then ABSENT else t[k]
  {
    seq(|t|, k requires 0 <= k < |t| => if i <= k < i + m && IsPresent(t[k]) then ABSENT else t[k])
  }

  /** Entry `k` of the table behind `slot` is absent and not the temporary entry. */
  predicate Usable(t: Table, slot: nat, k: nat) {
    k < |t| && !IsPresent(t[k]) && !(slot == KERNEL_SLOT && k == TMP_IDX)
  }

  /** Entries `i` up to `i + m` of the table behind `slot` can be mapped. */
  ghost predicate Clear(t: Table, slot: nat, i: nat, m: nat) {
    && i + m <= |t|
    && forall k :: i <= k < i + m ==> Usable(t, slot, k)
  }

  /** Entry `k` is in the way of a mapping. */
  ghost predicate Blocked(t: Table, slot: nat, k: nat) {
    k < |t| ==> !Usable(t, slot, k)
  }

  lemma ClearAgree(t: Table, u: Table, i: nat, m: nat)
    requires |t| == |u| && forall k :: 0 <= k < |t| && k != TMP_IDX ==> t[k] == u[k]
    requires Clear(t, KERNEL_SLOT, i, m)
    ensures Clear(u, KERNEL_SLOT, i, m)
  {
    forall k | i <= k < i + m ensures Usable(u, KERNEL_SLOT, k) {
      assert Usable(t, KERNEL_SLOT, k);
    }
  }

  /** What the window itself holds does not matter to either test. */
  lemma WindowEntry(t: Table, e: Entry, i: nat, m: nat)
    requires |t| == ENTRIES
    ensures Clear(t[TMP_IDX := e], KERNEL_SLOT, i, m) <==> Clear(t, KERNEL_SLOT, i, m)
    ensures Blocked(t[TMP_IDX := e], KERNEL_SLOT, i + m) <==> Blocked(t, KERNEL_SLOT, i + m)
  {
    var u := t[TMP_IDX := e];
    if Clear(t, KERNEL_SLOT, i, m) { ClearAgree(t, u, i, m); }
    if Clear(u, KERNEL_SLOT, i, m) { ClearAgree(u, t, i, m); }
  }

  // ----- what editing a table does to translations

  /** Editing the table behind one slot leaves every other slot alone, in this
      directory and in all others that do not share the table. */
  lemma EditOther(mem: Memory, dirs: set<nat>, free: set<nat>, pool: set<nat>, kd: nat, kp: nat,
                  d: nat, s: nat, t: nat, rows: Table, e: nat, v: nat)
    requires Inv(mem, dirs, free, pool, kd, kp)
    requires d in dirs && s < ENTRIES && TableOf(mem, d, s) == Some(t)
    requires e in dirs && v / ENTRIES < ENTRIES && TableOf(mem, e, v / ENTRIES) != Some(t)
    ensures Lookup(mem[t := rows], e, v) == Lookup(mem, e, v)
  {
    assert DirOk(mem, dirs, free, kp, d) && DirOk(mem, dirs, free, kp, e);
  }

  lemma EditSame(mem: Memory, dirs: set<nat>, free: set<nat>, pool: set<nat>, kd: nat, kp: nat,
                 d: nat, s: nat, t: nat, rows: Table, v: nat)
    requires Inv(mem, dirs, free, pool, kd, kp)
    requires d in dirs && s < ENTRIES && TableOf(mem, d, s) == Some(t) && |rows| == ENTRIES
    requires v / ENTRIES == s
    ensures Lookup(mem[t := rows], d, v) ==
            if HwPresent(rows[v % ENTRIES]) then Some(PageOf(rows[v % ENTRIES])) else None
  {
    assert DirOk(mem, dirs, free, kp, d);
  }

  lemma EditTables(mem: Memory, dirs: set<nat>, t: nat, rows: Table, d: nat, s: nat)
    requires t !in dirs && d in dirs
    ensures TableOf(mem[t := rows], d, s) == TableOf(mem, d, s)
  {
  }

  /** Editing a table keeps the invariant. */
  lemma EditInv(mem: Memory, dirs: set<nat>, free: set<nat>, pool: set<nat>, kd: nat, kp: nat,
                d: nat, s: nat, t: nat, rows: Table)
    requires Inv(mem, dirs, free, pool, kd, kp)
    requires d in dirs && s < ENTRIES && TableOf(mem, d, s) == Some(t)
    requires |rows| == ENTRIES && forall i :: 0 <= i < ENTRIES ==> Sane(rows[i])
    ensures Inv(mem[t := rows], dirs, free, pool, kd, kp)
  {
    var mem' := mem[t := rows];
    assert DirOk(mem, dirs, free, kp, d);
    forall e | e in dirs ensures DirOk(mem', dirs, free, kp, e) {
      assert DirOk(mem, dirs, free, kp, e);
      forall r ensures TableOf(mem', e, r) == TableOf(mem, e, r) {
        EditTables(mem, dirs, t, rows, e, r);
      }
    }
    forall e, r: nat | e in dirs ensures TableOf(mem', e, r) == TableOf(mem, e, r) {
      EditTables(mem, dirs, t, rows, e, r);
    }
    assert Tables(mem');
  }

  /** A new table put behind an absent slot. */
  function WithTable(mem: Memory, d: nat, s: nat, f: nat, rows: Table, pde: Entry): Memory
    requires d in mem && s < |mem[d]|
  {
    mem[f := rows][d := mem[d][s := pde]]
  }

  lemma NewTableTables(mem: Memory, dirs: set<nat>, d: nat, s: nat, f: nat, rows: Table, pde: Entry, e: nat, r: nat)
    requires d in mem && |mem[d]| == ENTRIES && s < ENTRIES && d in dirs && f !in dirs && e in dirs
    requires HwPresent(pde) && Addr(pde) == f
    ensures TableOf(WithTable(mem, d, s, f, rows, pde), e, r) ==
            if e == d && r == s then Some(f) else TableOf(mem, e, r)
  {
  }

  /** Adding a fresh table keeps the invariant. */
  lemma NewTableInv(mem: Memory, dirs: set<nat>, free: set<nat>, pool: set<nat>, kd: nat, kp: nat,
                    d: nat, s: nat, f: nat, rows: Table, pde: Entry)
    requires Inv(mem, dirs, free, pool, kd, kp)
    requires d in dirs && s < ENTRIES && TableOf(mem, d, s) == None && f in free && f in pool
    requires |rows| == ENTRIES && forall i :: 0 <= i < ENTRIES ==> Sane(rows[i])
    requires HwPresent(pde) && Sane(pde) && Addr(pde) == f
    ensures d in mem && s < |mem[d]|
    ensures Inv(WithTable(mem, d, s, f, rows, pde), dirs, free - {f}, pool, kd, kp)
  {
    assert DirOk(mem, dirs, free, kp, d) && DirOk(mem, dirs, free, kp, kd);
    var mem' := WithTable(mem, d, s, f, rows, pde);
    forall e, r: nat | e in dirs
      ensures TableOf(mem', e, r) == if e == d && r == s then Some(f) else TableOf(mem, e, r)
    {
      assert DirOk(mem, dirs, free, kp, e);
      NewTableTables(mem, dirs, d, s, f, rows, pde, e, r);
    }
    forall e | e in dirs ensures DirOk(mem', dirs, free - {f}, kp, e) {
      assert DirOk(mem, dirs, free, kp, e);
    }
  }

  /** Adding a fresh table changes the translations behind its slot only. */
  lemma NewTableLookup(mem: Memory, dirs: set<nat>, free: set<nat>, pool: set<nat>, kd: nat, kp: nat,
                       d: nat, s: nat, f: nat, rows: Table, pde: Entry, e: nat, v: nat)
    requires Inv(mem, dirs, free, pool, kd, kp)
    requires d in dirs && s < ENTRIES && TableOf(mem, d, s) == None && f in free
    requires |rows| == ENTRIES && HwPresent(pde) && Addr(pde) == f
    requires e in dirs && v / ENTRIES < ENTRIES
    ensures d in mem && s < |mem[d]|
    ensures Lookup(WithTable(mem, d, s, f, rows, pde), e, v) ==
            if e == d && v / ENTRIES == s
            then if HwPresent(rows[v % ENTRIES]) then Some(PageOf(rows[v % ENTRIES])) else None
            else Lookup(mem, e, v)
  {
    assert DirOk(mem, dirs, free, kp, d) && DirOk(mem, dirs, free, kp, e);
    NewTableTables(mem, dirs, d, s, f, rows, pde, e, v / ENTRIES);
  }

  lemma {:induction false} FewerFree(mem: Memory, dirs: set<nat>, free: set<nat>, free': set<nat>, pool: set<nat>,
                                     kd: nat, kp: nat)
    requires Inv(mem, dirs, free, pool, kd, kp) && free' <= free
    ensures Inv(mem, dirs, free', pool, kd, kp)
  {
    hide TableOf;
    forall d | d in dirs ensures DirOk(mem, dirs, free', kp, d) {
      assert DirOk(mem, dirs, free, kp, d);
    }
  }

  // ----- the temporary slot

  /** Memory while the temporary slot shows frame `t`. */
  function Showing(mem: Memory, kp: nat, e: Entry): Memory
    requires kp in mem && |mem[kp]| == ENTRIES
  {
    mem[kp := mem[kp][TMP_IDX := e]]
  }

  lemma ShowScratch(mem: Memory, kp: nat, t: nat, rows: Table, e: Entry)
    requires kp in mem && |mem[kp]| == ENTRIES && t != kp
    ensures Showing(mem, kp, e)[t := rows] == Showing(mem[t := rows], kp, e)
  {
  }

  lemma RestoreAfterEmpty(mem: Memory, kp: nat, t: nat, e: Entry, i: nat, m: nat)
    requires kp in mem && |mem[kp]| == ENTRIES && t in mem && |mem[t]| == ENTRIES
    requires t == kp ==> i + m <= TMP_IDX
    ensures
      var shown := Showing(mem, kp, e);
      var emptied := shown[t := Emptied(shown[t], i, m)];
      && |emptied[kp]| == ENTRIES
      && emptied[kp][TMP_IDX] == e
      && Showing(emptied, kp, mem[kp][TMP_IDX]) == mem[t := Emptied(mem[t], i, m)]
  {
    var shown := Showing(mem, kp, e);
    var emptied := shown[t := Emptied(shown[t], i, m)];
    assert emptied[kp][TMP_IDX := mem[kp][TMP_IDX]] ==
           if t == kp then Emptied(mem[t], i, m) else mem[kp];
  }

  /** Writing a frame that is no table and no directory changes no translation. */
  lemma ScratchFrame(mem: Memory, dirs: set<nat>, free: set<nat>, pool: set<nat>, kd: nat, kp: nat, f: nat, rows: Table)
    requires Inv(mem, dirs, free, pool, kd, kp) && f in free
    requires |rows| == ENTRIES && forall i :: 0 <= i < ENTRIES ==> Sane(rows[i])
    ensures Inv(mem[f := rows], dirs, free - {f}, pool, kd, kp)
    ensures forall e, v: nat :: e in dirs && v / ENTRIES < ENTRIES ==> Lookup(mem[f := rows], e, v) == Lookup(mem, e, v)
  {
    var mem' := mem[f := rows];
    assert forall e :: e in dirs ==> DirOk(mem, dirs, free, kp, e);
    forall e, r: nat | e in dirs ensures TableOf(mem', e, r) == TableOf(mem, e, r) {
      EditTables(mem, dirs, f, rows, e, r);
    }
    forall e | e in dirs ensures DirOk(mem', dirs, free - {f}, kp, e) {
      assert DirOk(mem, dirs, free, kp, e);
    }
    forall e, v: nat | e in dirs && v / ENTRIES < ENTRIES ensures Lookup(mem', e, v) == Lookup(mem, e, v) {
      assert DirOk(mem, dirs, free, kp, e);
    }
  }

  /** The outcome of mapping `m` pages from entry `i` on behind slot `s`: into the
      table already there, into a fresh frame `t`, or not at all. */
  ghost predicate SlotMapped(mem: Memory, free: set<nat>, pool: set<nat>, mem': Memory, free': set<nat>,
                             d: nat, s: nat, t: nat, i: nat, m: nat, paddr: nat, rw: nat, pl: nat) {
    && d in mem && |mem[d]| == ENTRIES && s < ENTRIES
    && match TableOf(mem, d, s)
       case Some(table) =>
         t == table && t in mem && free' == free && mem' == mem[t := Filled(mem[t], i, m, paddr, rw, pl)]
       case None =>
         if free == {} then m == 0 && mem' == mem && free' == free
         else
           && t in free && t in pool && free' == free - {t}
           && mem' == if m == 0 then mem[t := NoEntries()]
                      else WithTable(mem, d, s, t, Filled(NoEntries(), i, m, paddr, rw, pl), MakePde(t, 0, rw, pl))
  }

  lemma FilledSane(t: Table, i: nat, m: nat, paddr: nat, rw: nat, pl: nat)
    requires forall k :: 0 <= k < |t| ==> Sane(t[k])
    ensures forall k :: 0 <= k < |t| ==> Sane(Filled(t, i, m, paddr, rw, pl)[k])
  {
  }

  /** Mapping behind one slot keeps the invariant. */
  lemma SlotMappedInv(mem: Memory, dirs: set<nat>, free: set<nat>, pool: set<nat>, kd: nat, kp: nat,
                      mem': Memory, free': set<nat>,
                      d: nat, s: nat, t: nat, i: nat, m: nat, paddr: nat, rw: nat, pl: nat)
    requires Inv(mem, dirs, free, pool, kd, kp) && d in dirs
    requires SlotMapped(mem, free, pool, mem', free', d, s, t, i, m, paddr, rw, pl)
    requires t % FOUR_KB == 0 && t < WORD
    ensures Inv(mem', dirs, free', pool, kd, kp)
  {
    hide Inv, Filled;
    if TableOf(mem, d, s).Some? {
      InvTables(mem, dirs, free, pool, kd, kp, t);
      FilledSane(mem[t], i, m, paddr, rw, pl);
      EditInv(mem, dirs, free, pool, kd, kp, d, s, t, Filled(mem[t], i, m, paddr, rw, pl));
    } else if free != {} {
      FilledSane(NoEntries(), i, m, paddr, rw, pl);
      MadeEntries(t, 0, rw, pl);
      if m == 0 {
        ScratchFrame(mem, dirs, free, pool, kd, kp, t, NoEntries());
      } else {
        NewTableInv(mem, dirs, free, pool, kd, kp, d, s, t, Filled(NoEntries(), i, m, paddr, rw, pl),
                    MakePde(t, 0, rw, pl));
      }
    }
  }

  lemma InvTables(mem: Memory, dirs: set<nat>, free: set<nat>, pool: set<nat>, kd: nat, kp: nat, t: nat)
    requires Inv(mem, dirs, free, pool, kd, kp) && t in mem
    ensures |mem[t]| == ENTRIES && forall i :: 0 <= i < ENTRIES ==> Sane(mem[t][i])
  {
  }

  /** Mapping behind one slot overrides exactly the pages asked for. */
  lemma SlotMappedLookup(mem: Memory, dirs: set<nat>, free: set<nat>, pool: set<nat>, kd: nat, kp: nat,
                         mem': Memory, free': set<nat>,
                         d: nat, s: nat, t: nat, i: nat, m: nat, paddr: nat, rw: nat, pl: nat, v: nat)
    requires Inv(mem, dirs, free, pool, kd, kp) && d in dirs && v / ENTRIES < ENTRIES
    requires SlotMapped(mem, free, pool, mem', free', d, s, t, i, m, paddr, rw, pl)
    requires t % FOUR_KB == 0 && t < WORD && i + m <= ENTRIES
    requires paddr % FOUR_KB == 0 && paddr + FOUR_KB * m <= WORD
    ensures Lookup(mem', d, v) ==
            if s * ENTRIES + i <= v < s * ENTRIES + i + m
            then Some(Page(paddr + FOUR_KB * (v - s * ENTRIES - i), rw % 2 == 1, pl % 2 == 1))
            else Lookup(mem, d, v)
  {
    hide Inv, SlotMapped;
    if TableOf(mem, d, s).Some? {
      OldTableLookup(mem, dirs, free, pool, kd, kp, mem', free', d, s, t, i, m, paddr, rw, pl, v);
    } else if free != {} {
      FreshTableLookup(mem, dirs, free, pool, kd, kp, mem', free', d, s, t, i, m, paddr, rw, pl, v);
    } else {
      NoTableLookup(mem, free, pool, mem', free', d, s, t, i, m, paddr, rw, pl);
    }
  }

  lemma NoTableLookup(mem: Memory, free: set<nat>, pool: set<nat>, mem': Memory, free': set<nat>,
                      d: nat, s: nat, t: nat, i: nat, m: nat, paddr: nat, rw: nat, pl: nat)
    requires SlotMapped(mem, free, pool, mem', free', d, s, t, i, m, paddr, rw, pl)
    requires TableOf(mem, d, s) == None && free == {}
    ensures mem' == mem && m == 0
  {
    hide TableOf;
  }

  lemma FilledEntry(t: Table, i: nat, m: nat, paddr: nat, rw: nat, pl: nat, k: nat)
    requires k < |t| && paddr % FOUR_KB == 0 && paddr + FOUR_KB * m <= WORD
    ensures
      var e := Filled(t, i, m, paddr, rw, pl)[k];
      if i <= k < i + m
      then HwPresent(e) && PageOf(e) == Page(paddr + FOUR_KB * (k - i), rw % 2 == 1, pl % 2 == 1)
      else e == t[k]
  {
    hide MakePte, PageOf, HwPresent;
    if i <= k < i + m {
      MadeEntries(paddr + FOUR_KB * (k - i), 0, rw, pl);
    }
  }

  lemma OldTableLookup(mem: Memory, dirs: set<nat>, free: set<nat>, pool: set<nat>, kd: nat, kp: nat,
                       mem': Memory, free': set<nat>,
                       d: nat, s: nat, t: nat, i: nat, m: nat, paddr: nat, rw: nat, pl: nat, v: nat)
    requires Inv(mem, dirs, free, pool, kd, kp) && d in dirs && v / ENTRIES < ENTRIES
    requires SlotMapped(mem, free, pool, mem', free', d, s, t, i, m, paddr, rw, pl) && TableOf(mem, d, s).Some?
    requires i + m <= ENTRIES && paddr % FOUR_KB == 0 && paddr + FOUR_KB * m <= WORD
    ensures Lookup(mem', d, v) ==
            if s * ENTRIES + i <= v < s * ENTRIES + i + m
            then Some(Page(paddr + FOUR_KB * (v - s * ENTRIES - i), rw % 2 == 1, pl % 2 == 1))
            else Lookup(mem, d, v)
  {
    hide Inv, Lookup, MakePte, PageOf, HwPresent;
    InvTables(mem, dirs, free, pool, kd, kp, t);
    var rows := Filled(mem[t], i, m, paddr, rw, pl);
    if v / ENTRIES == s {
      FilledEntry(mem[t], i, m, paddr, rw, pl, v % ENTRIES);
      EditSame(mem, dirs, free, pool, kd, kp, d, s, t, rows, v);
      EditSame(mem, dirs, free, pool, kd, kp, d, s, t, mem[t], v);
      assert mem[t := mem[t]] == mem;
    } else {
      OwnTable(mem, dirs, free, pool, kd, kp, d, s, v / ENTRIES);
      EditOther(mem, dirs, free, pool, kd, kp, d, s, t, rows, d, v);
    }
  }

  lemma FreshTableLookup(mem: Memory, dirs: set<nat>, free: set<nat>, pool: set<nat>, kd: nat, kp: nat,
                         mem': Memory, free': set<nat>,
                         d: nat, s: nat, t: nat, i: nat, m: nat, paddr: nat, rw: nat, pl: nat, v: nat)
    requires Inv(mem, dirs, free, pool, kd, kp) && d in dirs && v / ENTRIES < ENTRIES
    requires SlotMapped(mem, free, pool, mem', free', d, s, t, i, m, paddr, rw, pl)
    requires TableOf(mem, d, s) == None && free != {}
    requires t % FOUR_KB == 0 && t < WORD && i + m <= ENTRIES
    requires paddr % FOUR_KB == 0 && paddr + FOUR_KB * m <= WORD
    ensures Lookup(mem', d, v) ==
            if s * ENTRIES + i <= v < s * ENTRIES + i + m
            then Some(Page(paddr + FOUR_KB * (v - s * ENTRIES - i), rw % 2 == 1, pl % 2 == 1))
            else Lookup(mem, d, v)
  {
    hide Inv, MakePte, MakePde, PageOf;
    if m == 0 {
      ScratchFrame(mem, dirs, free, pool, kd, kp, t, NoEntries());
    } else {
      MadeEntries(t, 0, rw, pl);
      FilledEntry(NoEntries(), i, m, paddr, rw, pl, v % ENTRIES);
      NewTableLookup(mem, dirs, free, pool, kd, kp, d, s, t, Filled(NoEntries(), i, m, paddr, rw, pl),
                     MakePde(t, 0, rw, pl), d, v);
    }
  }

  lemma OwnTable(mem: Memory, dirs: set<nat>, free: set<nat>, pool: set<nat>, kd: nat, kp: nat, d: nat, s: nat, r: nat)
    requires Inv(mem, dirs, free, pool, kd, kp) && d in dirs
    requires s < ENTRIES && r < ENTRIES && s != r && TableOf(mem, d, s).Some?
    ensures TableOf(mem, d, s) != TableOf(mem, d, r)
  {
    assert DirOk(mem, dirs, free, kp, d);
  }

  lemma KernelTable(mem: Memory, dirs: set<nat>, free: set<nat>, pool: set<nat>, kd: nat, kp: nat)
    requires Inv(mem, dirs, free, pool, kd, kp)
    ensures kp in mem && |mem[kp]| == ENTRIES && kp !in dirs && kp !in free
  {
    assert DirOk(mem, dirs, free, kp, kd);
  }

  lemma DirTable(mem: Memory, dirs: set<nat>, free: set<nat>, pool: set<nat>, kd: nat, kp: nat, d: nat, s: nat)
    requires Inv(mem, dirs, free, pool, kd, kp) && d in dirs && s < ENTRIES
    ensures d in mem && |mem[d]| == ENTRIES && d !in free && Sane(mem[d][s])
    ensures TableOf(mem, d, s).Some? ==>
              var t := TableOf(mem, d, s).value;
              t in mem && |mem[t]| == ENTRIES && t !in dirs && t !in free && (t == kp ==> s == KERNEL_SLOT)
  {
    assert DirOk(mem, dirs, free, kp, d);
  }

  /** Memory `base` with `t` in the window and entries filled through it. */
  function FilledThrough(base: Memory, kp: nat, t: nat, i: nat, m: nat, paddr: nat, rw: nat, pl: nat): Memory
    requires kp in base && |base[kp]| == ENTRIES && t in base
  {
    var shown := Showing(base, kp, MakePte(t, 1, 0));
    shown[t := Filled(shown[t], i, m, paddr, rw, pl)]
  }

  lemma ClearBound(t: Table, slot: nat, i: nat, m: nat)
    requires Clear(t, slot, i, m) && |t| == ENTRIES
    ensures i + m <= ENTRIES && (slot == KERNEL_SLOT && m > 0 && i <= TMP_IDX ==> i + m <= TMP_IDX)
  {
    assert i <= TMP_IDX < i + m ==> Usable(t, slot, TMP_IDX);
  }

  /** After filling through the window, restoring the temporary entry leaves the
      table filled and everything else as it was. */
  lemma FinishFill(base: Memory, kp: nat, d: nat, s: nat, t: nat, i: nat, m: nat, paddr: nat, rw: nat, pl: nat,
                   pde: Entry)
    requires kp in base && |base[kp]| == ENTRIES && t in base && |base[t]| == ENTRIES
    requires d in base && d != t && d != kp && s < |base[d]|
    requires t == kp ==> i + m <= TMP_IDX || m == 0
    ensures
      var filled := FilledThrough(base, kp, t, i, m, paddr, rw, pl);
      var rows := Filled(base[t], i, m, paddr, rw, pl);
      && (m == 0 ==> rows == base[t])
      && kp in filled && |filled[kp]| == ENTRIES && d in filled && filled[d] == base[d]
      && (m == 0 ==> Showing(filled, kp, base[kp][TMP_IDX]) == base)
      && Showing(filled, kp, base[kp][TMP_IDX]) == base[t := rows]
      && Showing(filled[d := filled[d][s := pde]], kp, base[kp][TMP_IDX]) == base[t := rows][d := base[d][s := pde]]
  {
    var filled := FilledThrough(base, kp, t, i, m, paddr, rw, pl);
    var rows := Filled(base[t], i, m, paddr, rw, pl);
    assert m == 0 ==> rows == base[t];
    assert filled[kp][TMP_IDX := base[kp][TMP_IDX]] == if t == kp then rows else base[kp];
  }

  lemma OverwriteRows(mem: Memory, t: nat, rows: Table, rows': Table)
    ensures mem[t := rows][t := rows'] == mem[t := rows']
  {
  }

  lemma FillNothing(t: Table, i: nat, paddr: nat, rw: nat, pl: nat)
    ensures Filled(t, i, 0, paddr, rw, pl) == t
  {
  }

  lemma FillNext(t: Table, i: nat, m: nat, paddr: nat, rw: nat, pl: nat)
    requires i + m < |t|
    ensures |Filled(t, i, m, paddr, rw, pl)| == |t| && Filled(t, i, m, paddr, rw, pl)[i + m] == t[i + m]
    ensures Filled(t, i, m + 1, paddr, rw, pl) ==
            Filled(t, i, m, paddr, rw, pl)[i + m := MakePte(paddr + FOUR_KB * m, rw, pl)]
  {
    hide MakePte;
  }

  lemma ClearNext(t: Table, slot: nat, i: nat, m: nat)
    requires Clear(t, slot, i, m) && i + m < |t| && !Blocked(t, slot, i + m)
    ensures Clear(t, slot, i, m + 1)
  {
    hide Usable;
  }

  lemma TmpKept(t: Table, slot: nat, i: nat, m: nat, paddr: nat, rw: nat, pl: nat)
    requires |t| == ENTRIES && Clear(t, slot, i, m) && slot == KERNEL_SLOT
    ensures Filled(t, i, m, paddr, rw, pl)[TMP_IDX] == t[TMP_IDX]
  {
    ClearBound(t, slot, i, m);
  }

  // ----- mapping steps as changes of the translation

  /** Page `v` of directory `e` is reached through a table that `d` does not use. */
  ghost predicate Private(mem: Memory, d: nat, e: nat, v: nat) {
    TableOf(mem, e, v / ENTRIES).Some? ==>
      forall s :: 0 <= s < ENTRIES ==> TableOf(mem, d, s) != TableOf(mem, e, v / ENTRIES)
  }

  /** A mapping step never changes what other directories see through tables of
      their own. */
  lemma SlotMappedOthers(mem: Memory, dirs: set<nat>, free: set<nat>, pool: set<nat>, kd: nat, kp: nat,
                         mem': Memory, free': set<nat>,
                         d: nat, s: nat, t: nat, i: nat, m: nat, paddr: nat, rw: nat, pl: nat, e: nat, v: nat)
    requires Inv(mem, dirs, free, pool, kd, kp) && d in dirs && e in dirs && e != d && v / ENTRIES < ENTRIES
    requires SlotMapped(mem, free, pool, mem', free', d, s, t, i, m, paddr, rw, pl)
    requires t % FOUR_KB == 0 && t < WORD && Private(mem, d, e, v)
    ensures Lookup(mem', e, v) == Lookup(mem, e, v) && Private(mem', d, e, v)
  {
    hide Inv, Filled;
    DirTable(mem, dirs, free, pool, kd, kp, d, s);
    DirTable(mem, dirs, free, pool, kd, kp, e, v / ENTRIES);
    MadeEntries(t, 0, rw, pl);
    if TableOf(mem, d, s).Some? {
      EditOther(mem, dirs, free, pool, kd, kp, d, s, t, Filled(mem[t], i, m, paddr, rw, pl), e, v);
    } else if free != {} {
      if m == 0 {
        ScratchFrame(mem, dirs, free, pool, kd, kp, t, NoEntries());
      } else {
        NewTableLookup(mem, dirs, free, pool, kd, kp, d, s, t, Filled(NoEntries(), i, m, paddr, rw, pl),
                       MakePde(t, 0, rw, pl), e, v);
      }
    }
    assert forall r :: 0 <= r < ENTRIES ==> TableOf(mem', d, r) == TableOf(mem, d, r) || TableOf(mem', d, r) == Some(t);
  }

  ghost function RowsBehind(mem: Memory, d: nat, s: nat): Table {
    if TableOf(mem, d, s).Some? && TableOf(mem, d, s).value in mem then mem[TableOf(mem, d, s).value] else NoEntries()
  }

  /** A page and the entry behind its slot. */
  lemma RowLookup(mem: Memory, dirs: set<nat>, free: set<nat>, pool: set<nat>, kd: nat, kp: nat, d: nat, v: nat)
    requires Inv(mem, dirs, free, pool, kd, kp) && d in dirs && v / ENTRIES < ENTRIES
    ensures
      var rows := RowsBehind(mem, d, v / ENTRIES);
      && |rows| == ENTRIES
      && (Lookup(mem, d, v).Some? <==> IsPresent(rows[v % ENTRIES]))
  {
    hide Inv;
    DirTable(mem, dirs, free, pool, kd, kp, d, v / ENTRIES);
    if TableOf(mem, d, v / ENTRIES).Some? {
      InvTables(mem, dirs, free, pool, kd, kp, TableOf(mem, d, v / ENTRIES).value);
      TestsAgree(mem[TableOf(mem, d, v / ENTRIES).value][v % ENTRIES]);
    }
  }

  /** What the entry tests of a mapping step say about pages. */
  lemma ClearPages(mem: Memory, dirs: set<nat>, free: set<nat>, pool: set<nat>, kd: nat, kp: nat,
                   d: nat, p: nat, m: nat, v: nat)
    requires Inv(mem, dirs, free, pool, kd, kp) && d in dirs && p / ENTRIES < ENTRIES
    requires Clear(RowsBehind(mem, d, p / ENTRIES), p / ENTRIES, p % ENTRIES, m) && p <= v < p + m
    ensures Lookup(mem, d, v) == None && v != TMP_PAGE && v / ENTRIES == p / ENTRIES
  {
    hide Inv;
    RowLookup(mem, dirs, free, pool, kd, kp, d, p);
    var rows := RowsBehind(mem, d, p / ENTRIES);
    assert v / ENTRIES == p / ENTRIES && v % ENTRIES == p % ENTRIES + (v - p);
    RowLookup(mem, dirs, free, pool, kd, kp, d, v);
    assert Usable(rows, p / ENTRIES, v % ENTRIES);
  }

  lemma BlockedPage(mem: Memory, dirs: set<nat>, free: set<nat>, pool: set<nat>, kd: nat, kp: nat,
                    d: nat, p: nat, m: nat)
    requires Inv(mem, dirs, free, pool, kd, kp) && d in dirs && p / ENTRIES < ENTRIES
    requires Blocked(RowsBehind(mem, d, p / ENTRIES), p / ENTRIES, p % ENTRIES + m) && p % ENTRIES + m < ENTRIES
    ensures Lookup(mem, d, p + m).Some? || p + m == TMP_PAGE
  {
    hide Inv;
    var v := p + m;
    assert v / ENTRIES == p / ENTRIES && v % ENTRIES == p % ENTRIES + m;
    RowLookup(mem, dirs, free, pool, kd, kp, d, v);
  }

  lemma ClearStart(t: Table, slot: nat, i: nat)
    requires i <= |t|
    ensures Clear(t, slot, i, 0)
  {
  }

  const PAGES: nat := ENTRIES * ENTRIES

  /** The translation of `d` is that of `mem` overridden by `n` pages from page `p`
      on, mapped to consecutive frames from `paddr` on, writable iff `rw` is odd and open
      to user mode iff `pl` is. */
  ghost predicate Overridden(mem: Memory, mem': Memory, d: nat, p: nat, paddr: nat, n: nat, rw: nat, pl: nat) {
    forall v: nat :: v < PAGES ==>
      Lookup(mem', d, v) == if p <= v < p + n then Some(Page(paddr + FOUR_KB * (v - p), rw % 2 == 1, pl % 2 == 1))
                            else Lookup(mem, d, v)
  }

  ghost predicate Unmapped(mem: Memory, d: nat, p: nat, n: nat) {
    && !(p <= TMP_PAGE < p + n)
    && forall v: nat :: p <= v < p + n ==> Lookup(mem, d, v) == None
  }

  /** What `mem'` may differ in, beyond the translation of `d`. */
  ghost predicate OthersKept(mem: Memory, mem': Memory, dirs: set<nat>, d: nat) {
    forall e, v: nat :: e in dirs && e != d && v < PAGES && Private(mem, d, e, v) ==>
      Lookup(mem', e, v) == Lookup(mem, e, v) && Private(mem', d, e, v)
  }

  lemma OverrideMore(mem: Memory, mem1: Memory, mem2: Memory, d: nat, p: nat, paddr: nat, n: nat, m: nat,
                     rw: nat, pl: nat)
    requires Overridden(mem, mem1, d, p, paddr, n, rw, pl)
    requires Overridden(mem1, mem2, d, p + n, paddr + FOUR_KB * n, m, rw, pl)
    ensures Overridden(mem, mem2, d, p, paddr, n + m, rw, pl)
  {
    hide Lookup;
  }

  lemma UnmappedMore(mem: Memory, mem1: Memory, d: nat, p: nat, paddr: nat, n: nat, m: nat, rw: nat, pl: nat)
    requires Overridden(mem, mem1, d, p, paddr, n, rw, pl) && Unmapped(mem, d, p, n) && Unmapped(mem1, d, p + n, m)
    requires p + n + m <= PAGES
    ensures Unmapped(mem, d, p, n + m)
  {
    hide Lookup;
    forall v: nat | p <= v < p + n + m ensures Lookup(mem, d, v) == None {
      if v < p + n {
        assert Lookup(mem, d, v) == None;
      } else {
        assert Lookup(mem1, d, v) == None;
      }
    }
  }

  lemma OthersMore(mem: Memory, mem1: Memory, mem2: Memory, dirs: set<nat>, d: nat)
    requires OthersKept(mem, mem1, dirs, d) && OthersKept(mem1, mem2, dirs, d)
    ensures OthersKept(mem, mem2, dirs, d)
  {
  }

  /** The tables are those of `mem`, but `d` may have new ones, on frames of `free`. */
  ghost predicate FreshTables(mem: Memory, mem': Memory, dirs: set<nat>, d: nat, free: set<nat>) {
    forall e, r :: e in dirs && 0 <= r < ENTRIES ==>
      || TableOf(mem', e, r) == TableOf(mem, e, r)
      || (e == d && TableOf(mem, e, r) == None && TableOf(mem', e, r).Some? && TableOf(mem', e, r).value in free)
  }

  /** The permissions of directory entries: those of `mem`, and `rw` and `pl` for the new
      entries of `d`. */
  ghost predicate FreshRights(mem: Memory, mem': Memory, dirs: set<nat>, d: nat, rw: nat, pl: nat) {
    forall e, r :: e in dirs && 0 <= r < ENTRIES ==>
      DirectoryPage(mem', e, r) ==
      if e != d || TableOf(mem, e, r).Some? || TableOf(mem', e, r) == None then DirectoryPage(mem, e, r)
      else Some(Page(TableOf(mem', e, r).value, rw % 2 == 1, pl % 2 == 1))
  }

  /** What the entry of slot `s` of a directory says. */
  ghost function DirectoryPage(mem: Memory, d: nat, s: nat): Option<Page> {
    if d in mem && s < |mem[d]| && HwPresent(mem[d][s]) then Some(PageOf(mem[d][s])) else None
  }

  lemma NoRights(mem: Memory, dirs: set<nat>, d: nat, rw: nat, pl: nat)
    ensures FreshRights(mem, mem, dirs, d, rw, pl)
  {
    hide PageOf, Addr;
  }

  lemma RightsMore(mem: Memory, mem1: Memory, mem2: Memory, dirs: set<nat>, d: nat, rw: nat, pl: nat,
                   free: set<nat>, free1: set<nat>)
    requires FreshRights(mem, mem1, dirs, d, rw, pl) && FreshRights(mem1, mem2, dirs, d, rw, pl)
    requires FreshTables(mem, mem1, dirs, d, free) && FreshTables(mem1, mem2, dirs, d, free1)
    ensures FreshRights(mem, mem2, dirs, d, rw, pl)
  {
    hide TableOf, DirectoryPage;
    forall e, r | e in dirs && 0 <= r < ENTRIES
      ensures
        DirectoryPage(mem2, e, r) ==
        if e != d || TableOf(mem, e, r).Some? || TableOf(mem2, e, r) == None then DirectoryPage(mem, e, r)
        else Some(Page(TableOf(mem2, e, r).value, rw % 2 == 1, pl % 2 == 1))
    {
      assert TableOf(mem1, e, r) == TableOf(mem, e, r) || TableOf(mem, e, r) == None;
      assert TableOf(mem2, e, r) == TableOf(mem1, e, r) || TableOf(mem1, e, r) == None;
    }
  }

  lemma NothingFresh(mem: Memory, dirs: set<nat>, d: nat, free: set<nat>)
    ensures FreshTables(mem, mem, dirs, d, free)
  {
    hide TableOf;
  }

  lemma FreshMore(mem: Memory, mem1: Memory, mem2: Memory, dirs: set<nat>, d: nat, free: set<nat>, free1: set<nat>)
    requires FreshTables(mem, mem1, dirs, d, free) && FreshTables(mem1, mem2, dirs, d, free1) && free1 <= free
    ensures FreshTables(mem, mem2, dirs, d, free)
  {
    hide TableOf;
    forall e, r | e in dirs && 0 <= r < ENTRIES
      ensures
        || TableOf(mem2, e, r) == TableOf(mem, e, r)
        || (e == d && TableOf(mem, e, r) == None && TableOf(mem2, e, r).Some? && TableOf(mem2, e, r).value in free)
    {
      assert TableOf(mem1, e, r) == TableOf(mem, e, r) || TableOf(mem, e, r) == None;
    }
  }

  lemma SlotMappedTables(mem: Memory, dirs: set<nat>, free: set<nat>, pool: set<nat>, kd: nat, kp: nat,
                         mem': Memory, free': set<nat>,
                         d: nat, s: nat, t: nat, i: nat, m: nat, paddr: nat, rw: nat, pl: nat)
    requires Inv(mem, dirs, free, pool, kd, kp) && d in dirs
    requires SlotMapped(mem, free, pool, mem', free', d, s, t, i, m, paddr, rw, pl)
    requires t % FOUR_KB == 0 && t < WORD
    ensures FreshTables(mem, mem', dirs, d, free) && free' <= free
  {
    hide Inv, Filled;
    DirTable(mem, dirs, free, pool, kd, kp, d, s);
    if t in dirs {
      DirTable(mem, dirs, free, pool, kd, kp, t, 0);
    }
    forall e, r | e in dirs && 0 <= r < ENTRIES
      ensures TableOf(mem', e, r) == TableOf(mem, e, r)
              || (e == d && r == s && TableOf(mem, d, s) == None && TableOf(mem', e, r) == Some(t) && t in free)
    {
      DirTable(mem, dirs, free, pool, kd, kp, e, r);
      if TableOf(mem, d, s).Some? {
        EditTables(mem, dirs, t, Filled(mem[t], i, m, paddr, rw, pl), e, r);
      } else if free != {} && m == 0 {
        EditTables(mem, dirs, t, NoEntries(), e, r);
      } else if free != {} {
        MadeEntries(t, 0, rw, pl);
        NewTableTables(mem, dirs, d, s, t, Filled(NoEntries(), i, m, paddr, rw, pl), MakePde(t, 0, rw, pl), e, r);
      }
    }
  }

  lemma SlotMappedRights(mem: Memory, dirs: set<nat>, free: set<nat>, pool: set<nat>, kd: nat, kp: nat,
                         mem': Memory, free': set<nat>,
                         d: nat, s: nat, t: nat, i: nat, m: nat, paddr: nat, rw: nat, pl: nat)
    requires Inv(mem, dirs, free, pool, kd, kp) && d in dirs
    requires SlotMapped(mem, free, pool, mem', free', d, s, t, i, m, paddr, rw, pl)
    requires t % FOUR_KB == 0 && t < WORD
    ensures FreshRights(mem, mem', dirs, d, rw, pl)
  {
    hide Inv, Filled, MakePde, MakePte, Addr, PageOf;
    DirTable(mem, dirs, free, pool, kd, kp, d, s);
    if t in dirs {
      DirTable(mem, dirs, free, pool, kd, kp, t, 0);
    }
    MadeEntries(t, 0, rw, pl);
    forall e, r | e in dirs && 0 <= r < ENTRIES
      ensures
        DirectoryPage(mem', e, r) ==
        if e != d || TableOf(mem, e, r).Some? || TableOf(mem', e, r) == None then DirectoryPage(mem, e, r)
        else Some(Page(TableOf(mem', e, r).value, rw % 2 == 1, pl % 2 == 1))
    {
      DirTable(mem, dirs, free, pool, kd, kp, e, r);
    }
  }

  /** One mapping step, seen as a change of the translation. */
  lemma MapStep(mem: Memory, dirs: set<nat>, free: set<nat>, pool: set<nat>, kd: nat, kp: nat,
                mem': Memory, free': set<nat>, d: nat, p: nat, t: nat, m: nat, paddr: nat, rw: nat, pl: nat)
    requires Inv(mem, dirs, free, pool, kd, kp) && d in dirs && p < PAGES
    requires SlotMapped(mem, free, pool, mem', free', d, p / ENTRIES, t, p % ENTRIES, m, paddr, rw, pl)
    requires Clear(RowsBehind(mem, d, p / ENTRIES), p / ENTRIES, p % ENTRIES, m)
    requires t % FOUR_KB == 0 && t < WORD && paddr % FOUR_KB == 0 && paddr + FOUR_KB * m <= WORD
    ensures Inv(mem', dirs, free', pool, kd, kp)
    ensures Overridden(mem, mem', d, p, paddr, m, rw, pl) && Unmapped(mem, d, p, m) && OthersKept(mem, mem', dirs, d)
    ensures FreshTables(mem, mem', dirs, d, free) && free' <= free && FreshRights(mem, mem', dirs, d, rw, pl)
  {
    hide Inv, Lookup, TableOf, SlotMapped, Clear, Private, FreshTables, FreshRights;
    SlotMappedRights(mem, dirs, free, pool, kd, kp, mem', free', d, p / ENTRIES, t, p % ENTRIES, m, paddr, rw, pl);
    SlotMappedTables(mem, dirs, free, pool, kd, kp, mem', free', d, p / ENTRIES, t, p % ENTRIES, m, paddr, rw, pl);
    RowLookup(mem, dirs, free, pool, kd, kp, d, p);
    ClearBound(RowsBehind(mem, d, p / ENTRIES), p / ENTRIES, p % ENTRIES, m);
    SlotMappedInv(mem, dirs, free, pool, kd, kp, mem', free', d, p / ENTRIES, t, p % ENTRIES, m, paddr, rw, pl);
    forall v: nat | v < PAGES
      ensures Lookup(mem', d, v) ==
              if p <= v < p + m then Some(Page(paddr + FOUR_KB * (v - p), rw % 2 == 1, pl % 2 ==
                  1)) else Lookup(mem, d, v)
    {
      SlotMappedLookup(mem, dirs, free, pool, kd, kp, mem', free', d, p / ENTRIES, t, p % ENTRIES, m, paddr, rw, pl, v);
    }
    forall v: nat | p <= v < p + m ensures Lookup(mem, d, v) == None {
      ClearPages(mem, dirs, free, pool, kd, kp, d, p, m, v);
    }
    if p <= TMP_PAGE < p + m {
      ClearPages(mem, dirs, free, pool, kd, kp, d, p, m, TMP_PAGE);
    }
    forall e, v: nat | e in dirs && e != d && v < PAGES && Private(mem, d, e, v)
      ensures Lookup(mem', e, v) == Lookup(mem, e, v) && Private(mem', d, e, v)
    {
      SlotMappedOthers(mem, dirs, free, pool, kd, kp, mem', free', d, p / ENTRIES, t, p % ENTRIES, m, paddr, rw, pl,
                       e, v);
    }
  }

  /** Some page of the range is mapped already, or is the temporary page. */
  ghost predicate Obstructed(mem: Memory, d: nat, p: nat, n: nat) {
    exists v: nat :: p <= v < p + n && (Lookup(mem, d, v).Some? || v == TMP_PAGE)
  }

  /** A mapping step leaves the temporary entry as it found it. */
  lemma MapStepTmp(mem: Memory, dirs: set<nat>, free: set<nat>, pool: set<nat>, kd: nat, kp: nat,
                   mem': Memory, free': set<nat>, d: nat, s: nat, t: nat, i: nat, m: nat, paddr: nat, rw: nat, pl: nat)
    requires Inv(mem, dirs, free, pool, kd, kp) && d in dirs && s < ENTRIES
    requires SlotMapped(mem, free, pool, mem', free', d, s, t, i, m, paddr, rw, pl)
    requires Clear(RowsBehind(mem, d, s), s, i, m)
    ensures kp in mem && kp in mem' && |mem[kp]| == ENTRIES && |mem'[kp]| == ENTRIES
    ensures mem'[kp][TMP_IDX] == mem[kp][TMP_IDX]
  {
    hide Inv, Filled, Clear;
    KernelTable(mem, dirs, free, pool, kd, kp);
    DirTable(mem, dirs, free, pool, kd, kp, d, s);
    if TableOf(mem, d, s) == Some(kp) {
      TmpKept(mem[kp], s, i, m, paddr, rw, pl);
    }
  }

  lemma StillObstructed(mem: Memory, mem': Memory, d: nat, p: nat, paddr: nat, n: nat, total: nat, rw: nat, pl: nat)
    requires Overridden(mem, mem', d, p, paddr, n, rw, pl) && n < total && p + total <= PAGES
    requires Lookup(mem', d, p + n).Some? || p + n == TMP_PAGE
    ensures Obstructed(mem, d, p, total)
  {
    assert Lookup(mem, d, p + n) == Lookup(mem', d, p + n);
  }

  lemma NothingYet(mem: Memory, dirs: set<nat>, d: nat, p: nat, paddr: nat, rw: nat, pl: nat)
    ensures Overridden(mem, mem, d, p, paddr, 0, rw, pl) && Unmapped(mem, d, p, 0) && OthersKept(mem, mem, dirs, d)
  {
  }

  lemma StillNone(mem: Memory, free: set<nat>, pool: set<nat>, mem': Memory, free': set<nat>,
                  d: nat, s: nat, t: nat, i: nat, m: nat, paddr: nat, rw: nat, pl: nat)
    requires SlotMapped(mem, free, pool, mem', free', d, s, t, i, m, paddr, rw, pl) && free == {}
    ensures free' == {}
  {
  }

  // ----- looking for free address space

  /** `n` pages from page `p` on lie behind one slot, unmapped, clear of the
      temporary page. */
  ghost predicate Suitable(mem: Memory, d: nat, p: nat, n: nat) {
    p < PAGES && p % ENTRIES + n <= ENTRIES && Unmapped(mem, d, p, n)
  }

  lemma UnmappedPage(mem: Memory, d: nat, p: nat, n: nat, v: nat)
    requires Unmapped(mem, d, p, n) && p <= v < p + n
    ensures Lookup(mem, d, v) == None && v != TMP_PAGE
  {
    hide Lookup;
  }

  lemma PageInSlot(p: nat, k: nat)
    requires p % ENTRIES + k < ENTRIES
    ensures (p + k) / ENTRIES == p / ENTRIES && (p + k) % ENTRIES == p % ENTRIES + k
  {
  }

  lemma SuitableIsClear(mem: Memory, dirs: set<nat>, free: set<nat>, pool: set<nat>, kd: nat, kp: nat, d: nat,
                        p: nat, n: nat)
    requires Inv(mem, dirs, free, pool, kd, kp) && d in dirs && Suitable(mem, d, p, n)
    ensures Clear(RowsBehind(mem, d, p / ENTRIES), p / ENTRIES, p % ENTRIES, n)
  {
    hide Inv, RowsBehind, Lookup, Unmapped;
    var s, i, rows := p / ENTRIES, p % ENTRIES, RowsBehind(mem, d, p / ENTRIES);
    RowLookup(mem, dirs, free, pool, kd, kp, d, p);
    forall k | i <= k < i + n ensures Usable(rows, s, k) {
      var v := p + (k - i);
      PageInSlot(p, k - i);
      UnmappedPage(mem, d, p, n, v);
      RowLookup(mem, dirs, free, pool, kd, kp, d, v);
    }
  }

  lemma ClearIsSuitable(mem: Memory, dirs: set<nat>, free: set<nat>, pool: set<nat>, kd: nat, kp: nat, d: nat,
                        p: nat, n: nat)
    requires Inv(mem, dirs, free, pool, kd, kp) && d in dirs && p < PAGES
    requires Clear(RowsBehind(mem, d, p / ENTRIES), p / ENTRIES, p % ENTRIES, n)
    ensures Suitable(mem, d, p, n)
  {
    hide Inv, RowsBehind, Lookup;
    RowLookup(mem, dirs, free, pool, kd, kp, d, p);
    ClearBound(RowsBehind(mem, d, p / ENTRIES), p / ENTRIES, p % ENTRIES, n);
    forall v: nat | p <= v < p + n ensures Lookup(mem, d, v) == None {
      ClearPages(mem, dirs, free, pool, kd, kp, d, p, n, v);
    }
    if p <= TMP_PAGE < p + n {
      ClearPages(mem, dirs, free, pool, kd, kp, d, p, n, TMP_PAGE);
    }
  }

  /** No run of `n` clear entries starts below entry `hi`. */
  ghost predicate NoRunBelow(t: Table, slot: nat, n: nat, hi: int) {
    forall b: nat :: b < hi ==> !Clear(t, slot, b, n)
  }

  lemma BlockedRun(t: Table, slot: nat, n: nat, i: nat, found: nat)
    requires NoRunBelow(t, slot, n, i - found) && found <= i < |t| && found < n && Blocked(t, slot, i)
    ensures NoRunBelow(t, slot, n, i + 1)
  {
    forall b: nat | b < i + 1 ensures !Clear(t, slot, b, n) {
      if i - found <= b && b + n <= |t| {
        assert b <= i < b + n;
        assert IsPresent(t[i]) || (slot == KERNEL_SLOT && i == TMP_IDX);
      }
    }
  }

  lemma ShowAndRestore(mem: Memory, kp: nat, e: Entry)
    requires kp in mem && |mem[kp]| == ENTRIES
    ensures Showing(Showing(mem, kp, e), kp, mem[kp][TMP_IDX]) == mem
  {
    assert mem[kp][TMP_IDX := e][TMP_IDX := mem[kp][TMP_IDX]] == mem[kp];
  }

  /** Nothing suitable starts in the slots from `lo` up to `hi`. */
  ghost predicate NoneIn(mem: Memory, d: nat, n: nat, lo: nat, hi: nat) {
    forall q: nat :: lo <= q < hi ==> !Suitable(mem, d, q, n)
  }

  lemma NoneInSlot(mem: Memory, dirs: set<nat>, free: set<nat>, pool: set<nat>, kd: nat, kp: nat,
                   d: nat, s: nat, n: nat, hi: nat)
    requires Inv(mem, dirs, free, pool, kd, kp) && d in dirs && s < ENTRIES && hi <= ENTRIES
    requires NoRunBelow(RowsBehind(mem, d, s), s, n, hi)
    ensures NoneIn(mem, d, n, s * ENTRIES, s * ENTRIES + hi)
  {
    hide Inv, RowsBehind, Suitable, Clear;
    forall q: nat | s * ENTRIES <= q < s * ENTRIES + hi ensures !Suitable(mem, d, q, n) {
      assert q / ENTRIES == s && q % ENTRIES < hi;
      if Suitable(mem, d, q, n) {
        SuitableIsClear(mem, dirs, free, pool, kd, kp, d, q, n);
      }
    }
  }

  lemma NoneMore(mem: Memory, d: nat, n: nat, lo: nat, mid: nat, hi: nat)
    requires NoneIn(mem, d, n, lo, mid) && NoneIn(mem, d, n, mid, hi)
    ensures NoneIn(mem, d, n, lo, hi)
  {
  }

  lemma TooShort(t: Table, slot: nat, n: nat, found: nat)
    requires |t| == ENTRIES && found <= ENTRIES && found < n && NoRunBelow(t, slot, n, ENTRIES - found)
    ensures NoRunBelow(t, slot, n, ENTRIES)
  {
  }

  lemma InvKernel(mem: Memory, dirs: set<nat>, free: set<nat>, pool: set<nat>, kd: nat, kp: nat)
    requires Inv(mem, dirs, free, pool, kd, kp)
    ensures kd in dirs && TableOf(mem, kd, KERNEL_SLOT) == Some(kp)
  {
  }

  /** Runs found in the kernel table are the same with any entry in the slot. */
  lemma SeenThroughWindow(t: Table, e: Entry, n: nat, i: nat)
    requires |t| == ENTRIES
    ensures Clear(t[TMP_IDX := e], KERNEL_SLOT, i, n) <==> Clear(t, KERNEL_SLOT, i, n)
    ensures NoRunBelow(t[TMP_IDX := e], KERNEL_SLOT, n, i) ==> NoRunBelow(t, KERNEL_SLOT, n, i)
  {
    var u := t[TMP_IDX := e];
    WindowEntry(t, e, i, n);
    forall b: nat | b < i && NoRunBelow(u, KERNEL_SLOT, n, i) ensures !Clear(t, KERNEL_SLOT, b, n) {
      WindowEntry(t, e, b, n);
      assert !Clear(u, KERNEL_SLOT, b, n);
    }
  }

  /** `vaddr` is the lowest suitable address behind slot `s`, or 0 for none. */
  ghost predicate LowestBehind(mem: Memory, d: nat, s: nat, n: nat, vaddr: nat) {
    if vaddr == 0 then NoneIn(mem, d, n, s * ENTRIES, (s + 1) * ENTRIES)
    else
      && vaddr % FOUR_KB == 0 && vaddr / FOUR_KB / ENTRIES == s
      && Suitable(mem, d, vaddr / FOUR_KB, n)
      && NoneIn(mem, d, n, s * ENTRIES, vaddr / FOUR_KB)
  }

  /** The same, said of the rows of one table. */
  ghost predicate LowestRun(rows: Table, s: nat, n: nat, vaddr: nat) {
    if vaddr == 0 then NoRunBelow(rows, s, n, ENTRIES)
    else
      && vaddr % FOUR_KB == 0 && vaddr / FOUR_KB / ENTRIES == s
      && Clear(rows, s, vaddr / FOUR_KB % ENTRIES, n)
      && NoRunBelow(rows, s, n, vaddr / FOUR_KB % ENTRIES)
  }

  lemma LowestThroughWindow(t: Table, e: Entry, n: nat, vaddr: nat)
    requires |t| == ENTRIES && LowestRun(t[TMP_IDX := e], KERNEL_SLOT, n, vaddr)
    ensures LowestRun(t, KERNEL_SLOT, n, vaddr)
  {
    hide Clear, NoRunBelow;
    SeenThroughWindow(t, e, n, if vaddr == 0 then ENTRIES else vaddr / FOUR_KB % ENTRIES);
  }

  lemma LowestPages(mem: Memory, dirs: set<nat>, free: set<nat>, pool: set<nat>, kd: nat, kp: nat,
                    d: nat, s: nat, n: nat, vaddr: nat)
    requires Inv(mem, dirs, free, pool, kd, kp) && d in dirs && s < ENTRIES
    requires LowestRun(RowsBehind(mem, d, s), s, n, vaddr)
    ensures LowestBehind(mem, d, s, n, vaddr)
  {
    hide Inv, Clear, NoRunBelow, Suitable, NoneIn, RowsBehind;
    if vaddr == 0 {
      NoneInSlot(mem, dirs, free, pool, kd, kp, d, s, n, ENTRIES);
    } else {
      ClearIsSuitable(mem, dirs, free, pool, kd, kp, d, vaddr / FOUR_KB, n);
      NoneInSlot(mem, dirs, free, pool, kd, kp, d, s, n, vaddr / FOUR_KB % ENTRIES);
    }
  }

  lemma AbsentSlot(mem: Memory, dirs: set<nat>, free: set<nat>, pool: set<nat>, kd: nat, kp: nat, d: nat, s: nat,
                   n: nat)
    requires Inv(mem, dirs, free, pool, kd, kp) && d in dirs && n <= ENTRIES && KERNEL_SLOT < s < ENTRIES
    requires TableOf(mem, d, s) == None
    ensures LowestBehind(mem, d, s, n, FOUR_KB * (s * ENTRIES))
  {
    hide Inv;
    forall v: nat | s * ENTRIES <= v < s * ENTRIES + n ensures Lookup(mem, d, v) == None && v != TMP_PAGE {
      assert v / ENTRIES == s;
    }
    assert Suitable(mem, d, s * ENTRIES, n);
  }

  lemma SuitableRange(mem: Memory, d: nat, p: nat, n: nat)
    requires Suitable(mem, d, p, n)
    ensures p + n <= PAGES && !Obstructed(mem, d, p, n) && !(p <= TMP_PAGE < p + n)
  {
    assert p <= TMP_PAGE < p + n ==> Lookup(mem, d, TMP_PAGE) == None;
  }

  /** The temporary page is at address 0xC03FF000. */
  lemma ClearAddresses(vaddr: nat, bytes: nat)
    requires vaddr % FOUR_KB == 0 && bytes % FOUR_KB == 0
    requires !(vaddr / FOUR_KB <= TMP_PAGE < vaddr / FOUR_KB + bytes / FOUR_KB) &&
        KERNEL_SLOT * ENTRIES <= vaddr / FOUR_KB
    ensures vaddr >= 0xC000_0000 && !(vaddr <= 0xC03F_F000 < vaddr + bytes)
  {
  }

  lemma MappedSlot(mem': Memory, mem: Memory, d: nat, p: nat, paddr: nat, n: nat, rw: nat, pl: nat)
    requires Overridden(mem, mem', d, p, paddr, n, rw, pl) && p < PAGES && n >= 1
    ensures TableOf(mem', d, p / ENTRIES).Some?
  {
    assert Lookup(mem', d, p).Some?;
  }
}
