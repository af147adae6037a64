/** Page tables over whole runs: from the tables the loader leaves, through mapping
    rounds, cleared entries, tables given back, new directories, and kernel slots
    copied into them. */
module TableRuns {
  import opened Wrappers
  import opened PagingSpec
  import opened UnmapSpec

  // ----- the start

  /** The tables at boot: the kernel's directory enters the kernel's table behind the
      kernel slot, and nothing else. */
  function BootTables(kd: nat, kp: nat, rows: Table): Memory {
    map[kd := NoEntries()[KERNEL_SLOT := MakePde(kp, 0, 1, 0)], kp := rows]
  }

  lemma BootInv(kd: nat, kp: nat, rows: Table, free: set<nat>, pool: set<nat>)
    requires kd != kp && kp % FOUR_KB == 0 && kp < WORD && kd !in free && kp !in free
    requires |rows| == ENTRIES && forall i :: 0 <= i < ENTRIES ==> Sane(rows[i])
    ensures Inv(BootTables(kd, kp, rows), {kd}, free, pool, kd, kp)
  {
    hide MakePde, Addr;
    MadeEntries(kp, 0, 1, 0);
    var mem := BootTables(kd, kp, rows);
    assert forall s: nat :: TableOf(mem, kd, s) == if s == KERNEL_SLOT then Some(kp) else None;
    assert Tables(mem);
  }

  // ----- new directories

  /** A free frame becomes an empty directory. */
  function WithDirectory(mem: Memory, f: nat): Memory { mem[f := NoEntries()] }

  lemma NewDirectoryTables(mem: Memory, f: nat, e: nat, s: nat)
    ensures TableOf(WithDirectory(mem, f), e, s) == if e == f then None else TableOf(mem, e, s)
  {
    hide Addr;
  }

  lemma NewDirectorySane(mem: Memory, f: nat)
    requires Tables(mem)
    ensures Tables(WithDirectory(mem, f))
  {
  }

  lemma NewDirectoryInv(mem: Memory, dirs: set<nat>, free: set<nat>, pool: set<nat>, kd: nat, kp: nat, f: nat)
    requires Inv(mem, dirs, free, pool, kd, kp) && f in free
    ensures Inv(WithDirectory(mem, f), dirs + {f}, free - {f}, pool, kd, kp)
  {
    hide TableOf, Tables;
    var mem', dirs' := WithDirectory(mem, f), dirs + {f};
    NewDirectorySane(mem, f);
    forall e, s: nat ensures TableOf(mem', e, s) == if e == f then None else TableOf(mem, e, s) {
      NewDirectoryTables(mem, f, e, s);
    }
    assert f !in dirs by { assert f in dirs ==> DirOk(mem, dirs, free, kp, f); }
    forall e | e in dirs' ensures DirOk(mem', dirs', free - {f}, kp, e) {
      assert e != f ==> DirOk(mem, dirs, free, kp, e);
    }
  }

  // ----- kernel slots copied into a directory

  /** Directory `d` with the present kernel slots from `KERNEL_SLOT` up to `n`. */
  function Copied(mem: Memory, kd: nat, d: nat, n: nat): (r: Table)
    requires kd in mem && d in mem && |mem[kd]| == |mem[d]| == ENTRIES
    ensures |r| == ENTRIES
    ensures forall s :: 0 <= s < ENTRIES ==>
              r[s] == if KERNEL_SLOT <= s < n && IsPresent(mem[kd][s]) then mem[kd][s] else mem[d][s]
  {
    seq(ENTRIES, s requires 0 <= s < ENTRIES =>
      if KERNEL_SLOT <= s < n && IsPresent(mem[kd][s]) then mem[kd][s] else mem[d][s])
  }

  ghost predicate HasDirectories(mem: Memory, kd: nat, d: nat) {
    kd in mem && d in mem && |mem[kd]| == |mem[d]| == ENTRIES
  }

  /** The tables behind the slots of a directory that has been loaded. */
  lemma LoadedTables(mem: Memory, kd: nat, d: nat, e: nat, s: nat)
    requires HasDirectories(mem, kd, d) && Tables(mem) && s < ENTRIES
    ensures TableOf(mem[d := Copied(mem, kd, d, ENTRIES)], e, s) ==
            if e == d && KERNEL_SLOT <= s && TableOf(mem, kd, s).Some? then TableOf(mem, kd, s) else TableOf(mem, e, s)
  {
    TestsAgree(mem[kd][s]);
  }

  /** Copying the kernel's slots keeps tables, directories and free frames apart. */
  lemma LoadedInv(mem: Memory, dirs: set<nat>, free: set<nat>, pool: set<nat>, kd: nat, kp: nat, d: nat)
    requires Inv(mem, dirs, free, pool, kd, kp) && d in dirs
    ensures HasDirectories(mem, kd, d)
    ensures Inv(mem[d := Copied(mem, kd, d, ENTRIES)], dirs, free, pool, kd, kp)
  {
    assert DirOk(mem, dirs, free, kp, d) && DirOk(mem, dirs, free, kp, kd);
    var mem' := mem[d := Copied(mem, kd, d, ENTRIES)];
    forall e, s: nat | s < ENTRIES
      ensures TableOf(mem', e, s) ==
              if e == d && KERNEL_SLOT <= s && TableOf(mem, kd, s).Some?
                  then TableOf(mem, kd, s) else TableOf(mem, e, s)
    {
      LoadedTables(mem, kd, d, e, s);
    }
    assert Tables(mem');
    hide TableOf;
    forall e | e in dirs ensures DirOk(mem', dirs, free, kp, e) {
      assert DirOk(mem, dirs, free, kp, e);
    }
    assert OneSlot(mem', dirs);
    assert Pooled(mem', dirs, pool, kp);
  }

  /** In a loaded directory the kernel's pages translate as in the kernel's own. */
  lemma LoadedLookup(mem: Memory, dirs: set<nat>, free: set<nat>, pool: set<nat>, kd: nat, kp: nat, d: nat, v: nat)
    requires Inv(mem, dirs, free, pool, kd, kp) && d in dirs && HasDirectories(mem, kd, d) && v < PAGES
    ensures
      var mem' := mem[d := Copied(mem, kd, d, ENTRIES)];
      var shared := v / ENTRIES >= KERNEL_SLOT && TableOf(mem, kd, v / ENTRIES).Some?;
      Lookup(mem', d, v) == Lookup(mem, if shared then kd else d, v)
  {
    hide Inv;
    InvKernel(mem, dirs, free, pool, kd, kp);
    DirTable(mem, dirs, free, pool, kd, kp, kd, v / ENTRIES);
    DirTable(mem, dirs, free, pool, kd, kp, d, v / ENTRIES);
    InvAllTables(mem, dirs, free, pool, kd, kp);
    LoadedTables(mem, kd, d, d, v / ENTRIES);
    hide TableOf;
  }

  lemma InvAllTables(mem: Memory, dirs: set<nat>, free: set<nat>, pool: set<nat>, kd: nat, kp: nat)
    requires Inv(mem, dirs, free, pool, kd, kp)
    ensures Tables(mem)
  {
  }

  // ----- runs

  /** The tables, the directories and the free frames. */
  datatype World = World(mem: Memory, dirs: set<nat>, free: set<nat>)

  datatype Op =
    | MapRound(d: nat, s: nat, t: nat, i: nat, m: nat, paddr: nat, rw: nat, pl: nat)
    | ClearPages(d: nat, p: nat, m: nat)
    | GiveBack(d: nat, s: nat)
    | NewDirectory(f: nat)
    | LoadKernel(d: nat)
    | TakeFrames(fs: set<nat>)     // frames handed out for other uses

  ghost predicate Does(pool: set<nat>, kd: nat, kp: nat, w: World, op: Op, w': World) {
    match op
    case MapRound(d, s, t, i, m, paddr, rw, pl) =>
      && d in w.dirs && t % FOUR_KB == 0 && t < WORD && w'.dirs == w.dirs
      && SlotMapped(w.mem, w.free, pool, w'.mem, w'.free, d, s, t, i, m, paddr, rw, pl)
    case ClearPages(d, p, m) =>
      && d in w.dirs && p < PAGES && p % ENTRIES + m <= ENTRIES && TableOf(w.mem, d, p / ENTRIES).Some?
      && var t := TableOf(w.mem, d, p / ENTRIES).value;
         t in w.mem && w' == w.(mem := w.mem[t := Emptied(w.mem[t], p % ENTRIES, m)])
    case GiveBack(d, s) =>
      && d in w.dirs && s < ENTRIES && s != KERNEL_SLOT && TableOf(w.mem, d, s).Some? && d in w.mem && s < |w.mem[d]|
      && w' == w.(mem := WithoutTable(w.mem, d, s), free := w.free + {TableOf(w.mem, d, s).value})
    case NewDirectory(f) =>
      f in w.free && w' == World(WithDirectory(w.mem, f), w.dirs + {f}, w.free - {f})
    case LoadKernel(d) =>
      d in w.dirs && HasDirectories(w.mem, kd, d) && w' == w.(mem := w.mem[d := Copied(w.mem, kd, d, ENTRIES)])
    case TakeFrames(fs) => w' == w.(free := w.free - fs)
  }

  ghost predicate Sound(pool: set<nat>, kd: nat, kp: nat, w: World) {
    Inv(w.mem, w.dirs, w.free, pool, kd, kp)
  }

  /** The step gives back no table that another directory enters. */
  ghost predicate Safe(w: World, op: Op) {
    op.GiveBack? ==> Unshared(w.mem, w.dirs, op.d, op.s)
  }

  /** A step keeps separation if and only if it gives back no shared table. */
  lemma StepIff(pool: set<nat>, kd: nat, kp: nat, w: World, op: Op, w': World)
    requires Sound(pool, kd, kp, w) && Does(pool, kd, kp, w, op, w')
    ensures Sound(pool, kd, kp, w') <==> Safe(w, op)
  {
    hide Inv, Lookup, TableOf, Emptied, SlotMapped, Unshared, OthersKept, Removed;
    match op
    case MapRound(d, s, t, i, m, paddr, rw, pl) =>
      SlotMappedInv(w.mem, w.dirs, w.free, pool, kd, kp, w'.mem, w'.free, d, s, t, i, m, paddr, rw, pl);
    case ClearPages(d, p, m) =>
      EmptiedStep(w.mem, w.dirs, w.free, pool, kd, kp, d, p, TableOf(w.mem, d, p / ENTRIES).value, m);
    case GiveBack(d, s) =>
      DropTableIff(w.mem, w.dirs, w.free, pool, kd, kp, d, s, TableOf(w.mem, d, s).value);
    case NewDirectory(f) => NewDirectoryInv(w.mem, w.dirs, w.free, pool, kd, kp, f);
    case LoadKernel(d) => LoadedInv(w.mem, w.dirs, w.free, pool, kd, kp, d);
    case TakeFrames(fs) => FewerFree(w.mem, w.dirs, w.free, w.free - fs, pool, kd, kp);
  }

  /** A run from the boot tables. */
  ghost predicate IsRun(pool: set<nat>, kd: nat, kp: nat, rows: Table, run: seq<World>, ops: seq<Op>) {
    && kd != kp && kp % FOUR_KB == 0 && kp < WORD
    && |rows| == ENTRIES && (forall i :: 0 <= i < ENTRIES ==> Sane(rows[i]))
    && |run| == |ops| + 1
    && run[0].mem == BootTables(kd, kp, rows) && run[0].dirs == {kd} && kd !in run[0].free && kp !in run[0].free
    && forall i :: 0 <= i < |ops| ==> Does(pool, kd, kp, run[i], ops[i], run[i + 1])
  }

  lemma {:induction false} SafeRunIsSound(pool: set<nat>, kd: nat, kp: nat, rows: Table, run: seq<World>,
                                          ops: seq<Op>, k: nat)
    requires IsRun(pool, kd, kp, rows, run, ops) && k < |run|
    requires forall i :: 0 <= i < k ==> Safe(run[i], ops[i])
    ensures Sound(pool, kd, kp, run[k])
  {
    hide Does, Safe, Inv, BootTables;
    if k == 0 {
      BootInv(kd, kp, rows, run[0].free, pool);
    } else {
      SafeRunIsSound(pool, kd, kp, rows, run, ops, k - 1);
      StepIff(pool, kd, kp, run[k - 1], ops[k - 1], run[k]);
    }
  }

  /** Tables, directories and free frames stay apart in every state of a run from boot
      if and only if the run never gives back a table that another directory enters. */
  lemma EveryRunIff(pool: set<nat>, kd: nat, kp: nat, rows: Table, run: seq<World>, ops: seq<Op>)
    requires IsRun(pool, kd, kp, rows, run, ops)
    ensures (forall k :: 0 <= k < |run| ==> Sound(pool, kd, kp, run[k]))
            <==> forall i :: 0 <= i < |ops| ==> Safe(run[i], ops[i])
  {
    hide Does, Safe, Inv, BootTables, Sound;
    RunShape(pool, kd, kp, rows, run, ops);
    if forall k :: 0 <= k < |run| ==> Sound(pool, kd, kp, run[k]) {
      forall i | 0 <= i < |ops| ensures Safe(run[i], ops[i]) {
        assert Sound(pool, kd, kp, run[i + 1]);
        StepIff(pool, kd, kp, run[i], ops[i], run[i + 1]);
      }
    }
    if forall i :: 0 <= i < |ops| ==> Safe(run[i], ops[i]) {
      forall k | 0 <= k < |run| ensures Sound(pool, kd, kp, run[k]) {
        SafeRunIsSound(pool, kd, kp, rows, run, ops, k);
      }
    }
  }

  lemma RunShape(pool: set<nat>, kd: nat, kp: nat, rows: Table, run: seq<World>, ops: seq<Op>)
    requires IsRun(pool, kd, kp, rows, run, ops)
    ensures |run| == |ops| + 1 && forall i :: 0 <= i < |ops| ==> Does(pool, kd, kp, run[i], ops[i], run[i + 1])
  {
    hide Does;
  }

  // ----- sharing is reachable

  /** Boot, map a page behind slot 769, make a directory, load the kernel's slots into
      it: the table behind slot 769 is entered twice, and giving it back leaves a free
      frame entered in the new directory. */
  lemma SharedTableFreed(rows: Table) returns (run: seq<World>, ops: seq<Op>)
    requires |rows| == ENTRIES && forall i :: 0 <= i < ENTRIES ==> Sane(rows[i])
    ensures IsRun({0x3000}, 0x1000, 0x2000, rows, run, ops) && |run| == 5
    ensures Sound({0x3000}, 0x1000, 0x2000, run[3]) && !Sound({0x3000}, 0x1000, 0x2000, run[4])
    ensures TableOf(run[4].mem, 0x4000, 769) == Some(0x3000) && 0x3000 in run[4].free
  {
    hide Inv, MakePde, Addr, TableOf, SlotMapped, Tables, BootTables;
    var pool, kd, kp, t, d := {0x3000}, 0x1000, 0x2000, 0x3000, 0x4000;
    var w0 := World(BootTables(kd, kp, rows), {kd}, {t, d});
    BootInv(kd, kp, rows, {t, d}, pool);
    var op0 := MapRound(kd, 769, t, 0, 1, 0, 1, 0);
    var w1 := FirstMapping(w0, pool, kd, kp, rows, t, d);
    var op1, w2 := NewDirectory(d), World(WithDirectory(w1.mem, d), w1.dirs + {d}, w1.free - {d});
    assert Does(pool, kd, kp, w1, op1, w2);
    StepIff(pool, kd, kp, w0, op0, w1);
    StepIff(pool, kd, kp, w1, op1, w2);
    LoadedInv(w2.mem, w2.dirs, w2.free, pool, kd, kp, d);
    var op2, w3 := LoadKernel(d), w2.(mem := w2.mem[d := Copied(w2.mem, kd, d, ENTRIES)]);
    StepIff(pool, kd, kp, w2, op2, w3);
    Loaded769(w1.mem, w2.mem, w3.mem, w2.dirs, w2.free, pool, kd, kp, t, d);
    DirTable(w3.mem, w3.dirs, w3.free, pool, kd, kp, kd, 769);
    DroppedTables(w3.mem, w3.dirs, w3.free, kd, 769);
    var op3, w4 := GiveBack(kd, 769), w3.(mem := WithoutTable(w3.mem, kd, 769), free := w3.free + {t});
    assert Does(pool, kd, kp, w3, op3, w4);
    assert !Unshared(w3.mem, w3.dirs, kd, 769) by {
      assert TableOf(w3.mem, d, 769) == TableOf(w3.mem, kd, 769);
    }
    StepIff(pool, kd, kp, w3, op3, w4);
    run, ops := [w0, w1, w2, w3, w4], [op0, op1, op2, op3];
  }

  lemma Loaded769(mem1: Memory, mem2: Memory, mem3: Memory, dirs: set<nat>, free: set<nat>, pool: set<nat>,
                  kd: nat, kp: nat, t: nat, d: nat)
    requires mem2 == WithDirectory(mem1, d) && Inv(mem2, dirs, free, pool, kd, kp) && kd != d
    requires HasDirectories(mem2, kd, d) && mem3 == mem2[d := Copied(mem2, kd, d, ENTRIES)]
    requires TableOf(mem1, kd, 769) == Some(t)
    ensures TableOf(mem3, kd, 769) == Some(t) && TableOf(mem3, d, 769) == Some(t)
  {
    hide Inv;
    InvAllTables(mem2, dirs, free, pool, kd, kp);
    assert TableOf(mem2, kd, 769) == Some(t);
    hide TableOf;
    LoadedTables(mem2, kd, d, d, 769);
    LoadedTables(mem2, kd, d, kd, 769);
  }

  lemma FirstMapping(w: World, pool: set<nat>, kd: nat, kp: nat, rows: Table, t: nat, d: nat) returns (w': World)
    requires kd != kp && kp % FOUR_KB == 0 && kp < WORD && t != kd && t != kp && t % FOUR_KB == 0 && t < WORD && t != d
    requires |rows| == ENTRIES && w == World(BootTables(kd, kp, rows), {kd}, {t, d}) && t in pool
    ensures Does(pool, kd, kp, w, MapRound(kd, 769, t, 0, 1, 0, 1, 0), w')
    ensures w'.dirs == {kd} && w'.free == {d} && TableOf(w'.mem, kd, 769) == Some(t)
  {
    hide MakePde, Addr;
    MadeEntries(kp, 0, 1, 0);
    MadeEntries(t, 0, 1, 0);
    assert TableOf(w.mem, kd, 769) == None;
    w' := World(WithTable(w.mem, kd, 769, t, Filled(NoEntries(), 0, 1, 0, 1, 0), MakePde(t, 0, 1, 0)), {kd}, {d});
    assert {t, d} - {t} == {d};
  }
}
