/** Processes and their scheduling as a state machine over timer interrupts and the
    process system calls. */
module SchedulerSpec {

  const KERNEL_CS: nat := 0x08
  const KERNEL_DS: nat := 0x10
  const USER_CS: nat := 0x1B

  datatype Regs = Regs(eax: nat, ebx: nat, ecx: nat, edx: nat, ebp: nat, esi: nat, edi: nat,
                       ss: nat, esp: nat, eflags: nat, cs: nat, eip: nat)

  /** A process: its number, its parent's, the context to resume, and the user
      registers of its last trap. */
  datatype Ps = Ps(id: nat, parent: nat, current: Regs, user: Regs)

  datatype Mode = User | InSyscall

  /** The two lists, and a record of what happened to each process: its processor
      mode, the registers given at its last trap, the context last saved when it
      was switched away from, the forks it has made, and the last number issued. */
  datatype World = World(runnable: seq<Ps>, zombies: seq<Ps>,
                         mode: map<nat, Mode>, trapped: map<nat, Regs>, saved: map<nat, Regs>,
                         forks: map<nat, nat>, issued: nat)

  // ----- the lists

  function MaxId(ps: seq<Ps>): (m: nat)
    ensures forall i :: 0 <= i < |ps| ==> ps[i].id <= m
    ensures m == 0 || exists i :: 0 <= i < |ps| && ps[i].id == m
  {
    if ps == [] then 0
    else
      var m := MaxId(ps[..|ps| - 1]);
      if ps[|ps| - 1].id >= m then ps[|ps| - 1].id else m
  }

  function CountChildren(ps: seq<Ps>, pid: nat): nat {
    if ps == [] then 0
    else CountChildren(ps[..|ps| - 1], pid) + if ps[|ps| - 1].parent == pid then 1 else 0
  }

  predicate HasChild(ps: seq<Ps>, pid: nat) {
    exists i :: 0 <= i < |ps| && ps[i].parent == pid
  }

  function NextPid(w: World): nat {
    var r, z := MaxId(w.runnable), MaxId(w.zombies);
    (if r > z then r else z) + 1
  }

  function NumChildren(w: World, pid: nat): nat {
    CountChildren(w.zombies, pid) + CountChildren(w.runnable, pid)
  }

  /** The head goes to the end of the queue. */
  function Rotated(ps: seq<Ps>): seq<Ps> {
    if |ps| <= 1 then ps else ps[1..] + [ps[0]]
  }

  // ----- contexts

  /** What a timer interrupt in kernel mode saves. */
  function KernelContext(cpu: Regs): Regs {
    cpu.(esp := cpu.esp + 12, ss := KERNEL_DS)
  }

  datatype Event =
    | Tick(cpu: Regs)             // the time slice is over
    | Trap(cpu: Regs)             // the running process makes a system call
    | Return(eax: nat)            // a system call returns
    | Yield
    | Fork                        // a successful fork, before it returns
    | Exec(image: Regs)           // a successful execve
    | Exit
    | WaitOn(cpu: Regs)           // wait finds no terminated child yet

  /** When the running process can take a step. Exit and execve need a second
      runnable process. */
  ghost predicate Enabled(w: World, e: Event) {
    && w.runnable != []
    && var p := w.runnable[0];
    && p.id in w.mode
    && match e
       case Tick(cpu) => cpu.cs == if w.mode[p.id].User? then USER_CS else KERNEL_CS
       case Trap(cpu) => w.mode[p.id].User? && cpu.cs == USER_CS
       case Return(_) => w.mode[p.id].InSyscall?
       case Yield => w.mode[p.id].InSyscall?
       case Fork => w.mode[p.id].InSyscall?
       case Exec(image) => w.mode[p.id].InSyscall? && |w.runnable| >= 2 && image.cs == USER_CS
       case Exit => w.mode[p.id].InSyscall? && |w.runnable| >= 2
       case WaitOn(cpu) =>
         && w.mode[p.id].InSyscall? && cpu.cs == KERNEL_CS
         && NumChildren(w, p.id) > 0 && !HasChild(w.zombies, p.id)
  }

  /** Switches away from the head, which has just saved `p`. */
  function SwitchFrom(w: World, p: Ps, mode: Mode): World
    requires w.runnable != []
  {
    w.(runnable := Rotated(w.runnable[0 := p]), mode := w.mode[p.id := mode], saved := w.saved[p.id := p.current])
  }

  ghost function Next(w: World, e: Event): World
    requires Enabled(w, e)
  {
    var p := w.runnable[0];
    match e
    case Tick(cpu) =>
      if cpu.cs == USER_CS then SwitchFrom(w, p.(user := cpu, current := cpu), User)
      else SwitchFrom(w, p.(current := KernelContext(cpu)), InSyscall)
    case Trap(cpu) =>
      w.(runnable := w.runnable[0 := p.(user := cpu)], mode := w.mode[p.id := InSyscall],
          trapped := w.trapped[p.id := cpu])
    case Return(eax) =>
      w.(runnable := w.runnable[0 := p.(user := p.user.(eax := eax))], mode := w.mode[p.id := User])
    case Yield =>
      var user := p.user.(eax := 0);
      SwitchFrom(w, p.(user := user, current := user), User)
    case Fork =>
      var pid := NextPid(w);
      var user := p.user.(eax := 0);
      w.(runnable := w.runnable + [Ps(pid, p.id, user, user)],
         mode := w.mode[pid := User], saved := w.saved[pid := user],
         forks := w.forks[p.id := (if p.id in w.forks then w.forks[p.id] else 0) + 1], issued := pid)
    case Exec(image) =>
      w.(runnable := Rotated(w.runnable[1..] + [Ps(p.id, p.parent, image, image)]),
         mode := w.mode[p.id := User], saved := w.saved[p.id := image])
    case Exit =>
      w.(runnable := Rotated(w.runnable[1..]), zombies := w.zombies + [p])
    case WaitOn(cpu) =>
      SwitchFrom(w, p.(current := cpu.(eax := 0)), InSyscall)
  }

  /** The registers handed back to user mode when a system call returns. */
  ghost function HandedBack(w: World, e: Event): Regs
    requires Enabled(w, e) && e.Return?
  {
    Next(w, e).runnable[0].user
  }

  /** Steps after which the scheduler dispatches the head of the queue. */
  predicate Dispatches(e: Event) { e.Tick? || e.Yield? || e.Exec? || e.Exit? || e.WaitOn? }

  /** Steps that take the running process off the queue. */
  predicate Removes(e: Event) { e.Exec? || e.Exit? }

  // ----- what every step keeps

  ghost function Ids(ps: seq<Ps>): set<nat> {
    set i | 0 <= i < |ps| :: ps[i].id
  }

  ghost predicate Distinct(ps: seq<Ps>) {
    forall i, j :: 0 <= i < j < |ps| ==> ps[i].id != ps[j].id
  }

  ghost function Known(w: World): set<nat> {
    Ids(w.runnable) + Ids(w.zombies)
  }

  /** Every number was issued, and every parent is 0 or a listed process with a
      smaller number. */
  ghost predicate Family(ps: seq<Ps>, known: set<nat>, issued: nat) {
    forall i :: 0 <= i < |ps| ==>
      && 1 <= ps[i].id <= issued
      && (ps[i].parent == 0 || (ps[i].parent < ps[i].id && ps[i].parent in known))
  }

  function ForksOf(w: World, pid: nat): nat {
    if pid in w.forks then w.forks[pid] else 0
  }

  /** A process in a system call still has the registers of its trap. */
  ghost predicate TrapKept(w: World, p: Ps) {
    && p.id in w.mode
    && (w.mode[p.id].InSyscall? ==> p.id in w.trapped && p.user == w.trapped[p.id] && p.user.cs == USER_CS)
  }

  /** A process that does not run will resume the context saved last, in the mode
      it was in. */
  ghost predicate ContextKept(w: World, p: Ps) {
    && p.id in w.mode && p.id in w.saved
    && p.current == w.saved[p.id]
    && p.current.cs == if w.mode[p.id].User? then USER_CS else KERNEL_CS
  }

  ghost predicate Contexts(w: World) {
    && (forall i :: 0 <= i < |w.runnable| ==> TrapKept(w, w.runnable[i]))
    && (forall i :: 1 <= i < |w.runnable| ==> ContextKept(w, w.runnable[i]))
  }

  ghost predicate Lists(w: World) {
    && Distinct(w.runnable) && Distinct(w.zombies) && Ids(w.runnable) !! Ids(w.zombies)
    && Family(w.runnable, Known(w), w.issued) && Family(w.zombies, Known(w), w.issued)
    && (w.issued == 0 || w.issued in Known(w))
    && (forall pid: nat :: pid >= 1 ==> NumChildren(w, pid) == ForksOf(w, pid))
  }

  ghost predicate Inv(w: World) {
    Lists(w) && Contexts(w)
  }

  // ----- list facts

  lemma {:induction false} CountAppend(a: seq<Ps>, b: seq<Ps>, pid: nat)
    ensures CountChildren(a + b, pid) == CountChildren(a, pid) + CountChildren(b, pid)
  {
    if b == [] {
      assert a + b == a;
    } else {
      assert (a + b)[..|a + b| - 1] == a + b[..|b| - 1];
      CountAppend(a, b[..|b| - 1], pid);
    }
  }

  lemma CountHead(ps: seq<Ps>, pid: nat)
    requires ps != []
    ensures CountChildren(ps, pid) == CountChildren(ps[1..], pid) + if ps[0].parent == pid then 1 else 0
  {
    assert ps == ps[..1] + ps[1..];
    CountAppend(ps[..1], ps[1..], pid);
    assert ps[..1][..0] == [];
  }

  lemma CountOne(p: Ps, pid: nat)
    ensures CountChildren([p], pid) == if p.parent == pid then 1 else 0
  {
    assert [p][..0] == [];
  }

  lemma RotateFacts(ps: seq<Ps>, pid: nat)
    ensures CountChildren(Rotated(ps), pid) == CountChildren(ps, pid)
    ensures Ids(Rotated(ps)) == Ids(ps) && |Rotated(ps)| == |ps|
    ensures forall i :: 0 <= i < |ps| ==> Rotated(ps)[i] == ps[if i + 1 < |ps| then i + 1 else 0]
  {
    if |ps| > 1 {
      CountHead(ps, pid);
      CountAppend(ps[1..], [ps[0]], pid);
      CountOne(ps[0], pid);
      IdsAppend(ps[1..], [ps[0]]);
      IdsAppend([ps[0]], ps[1..]);
      assert [ps[0]] + ps[1..] == ps;
    }
  }

  lemma IdsAppend(a: seq<Ps>, b: seq<Ps>)
    ensures Ids(a + b) == Ids(a) + Ids(b)
  {
    var c := a + b;
    forall x | x in Ids(a) + Ids(b) ensures x in Ids(c) {
      if x in Ids(a) {
        var i :| 0 <= i < |a| && a[i].id == x;
        assert c[i].id == x;
      } else {
        var i :| 0 <= i < |b| && b[i].id == x;
        assert c[|a| + i].id == x;
      }
    }
    forall x | x in Ids(c) ensures x in Ids(a) + Ids(b) {
      var i :| 0 <= i < |c| && c[i].id == x;
      if i < |a| { assert a[i].id == x; } else { assert b[i - |a|].id == x; }
    }
  }

  lemma HeadReplaced(ps: seq<Ps>, p: Ps, pid: nat)
    requires ps != [] && p.id == ps[0].id && p.parent == ps[0].parent
    ensures CountChildren(ps[0 := p], pid) == CountChildren(ps, pid) && Ids(ps[0 := p]) == Ids(ps)
  {
    CountHead(ps, pid);
    CountHead(ps[0 := p], pid);
    assert ps[0 := p][1..] == ps[1..];
    IdsAppend([p], ps[1..]);
    IdsAppend([ps[0]], ps[1..]);
    assert [p] + ps[1..] == ps[0 := p] && [ps[0]] + ps[1..] == ps;
    assert Ids([p]) == {p.id} by { assert [p][0].id in Ids([p]); }
    assert Ids([ps[0]]) == {p.id} by { assert [ps[0]][0].id in Ids([ps[0]]); }
  }

  /** The next number is one past the last one issued. */
  lemma NextPidIs(w: World)
    requires Lists(w)
    ensures NextPid(w) == w.issued + 1
  {
    if w.issued != 0 {
      if w.issued in Ids(w.runnable) {
        var i :| 0 <= i < |w.runnable| && w.runnable[i].id == w.issued;
      } else {
        var i :| 0 <= i < |w.zombies| && w.zombies[i].id == w.issued;
      }
    }
  }

  lemma NewNumber(w: World)
    requires Lists(w)
    ensures w.issued + 1 !in Known(w)
  {
    assert forall x :: x in Ids(w.runnable) || x in Ids(w.zombies) ==> x <= w.issued;
  }

  // ----- the lists, step by step

  /** Reordering the queue and updating processes in place keeps the lists sound. */
  lemma SameLists(w: World, w': World)
    requires Lists(w) && w'.zombies == w.zombies && w'.issued == w.issued && w'.forks == w.forks
    requires Distinct(w'.runnable) && Ids(w'.runnable) == Ids(w.runnable)
    requires Family(w'.runnable, Known(w), w.issued)
    requires forall pid: nat :: CountChildren(w'.runnable, pid) == CountChildren(w.runnable, pid)
    ensures Lists(w')
  {
    forall pid: nat | pid >= 1 ensures NumChildren(w', pid) == ForksOf(w', pid) {
      assert NumChildren(w, pid) == ForksOf(w, pid);
    }
  }

  lemma HeadLists(w: World, w': World, p: Ps)
    requires Lists(w) && w.runnable != [] && p.id == w.runnable[0].id && p.parent == w.runnable[0].parent
    requires w'.zombies == w.zombies && w'.issued == w.issued && w'.forks == w.forks
    requires w'.runnable == w.runnable[0 := p]
    ensures Lists(w')
  {
    forall pid: nat
      ensures CountChildren(w'.runnable, pid) == CountChildren(w.runnable, pid) && Ids(w'.runnable) == Ids(w.runnable)
    {
      HeadReplaced(w.runnable, p, pid);
    }
    assert forall i :: 0 <= i < |w.runnable| ==>
             w'.runnable[i].id == w.runnable[i].id && w'.runnable[i].parent == w.runnable[i].parent;
    SameLists(w, w');
  }

  lemma RotateLists(w: World, w': World)
    requires Lists(w) && w'.zombies == w.zombies && w'.issued == w.issued && w'.forks == w.forks
    requires w'.runnable == Rotated(w.runnable)
    ensures Lists(w')
  {
    forall pid: nat ensures CountChildren(w'.runnable, pid) == CountChildren(w.runnable, pid) {
      RotateFacts(w.runnable, pid);
    }
    RotateFacts(w.runnable, 0);
    SameLists(w, w');
  }

  lemma SwitchLists(w: World, p: Ps, mode: Mode)
    requires Lists(w) && w.runnable != [] && p.id == w.runnable[0].id && p.parent == w.runnable[0].parent
    ensures Lists(SwitchFrom(w, p, mode))
  {
    var mid := w.(runnable := w.runnable[0 := p]);
    HeadLists(w, mid, p);
    RotateLists(mid, SwitchFrom(w, p, mode));
  }

  lemma TakeHead(ps: seq<Ps>)
    requires ps != []
    ensures Ids(ps) == {ps[0].id} + Ids(ps[1..])
    ensures Distinct(ps) ==> Distinct(ps[1..]) && ps[0].id !in Ids(ps[1..])
  {
    IdsAppend([ps[0]], ps[1..]);
    assert [ps[0]] + ps[1..] == ps;
    assert Ids([ps[0]]) == {ps[0].id} by { assert [ps[0]][0].id in Ids([ps[0]]); }
  }

  lemma AddLast(ps: seq<Ps>, p: Ps)
    ensures Ids(ps + [p]) == Ids(ps) + {p.id}
    ensures Distinct(ps) && p.id !in Ids(ps) ==> Distinct(ps + [p])
  {
    IdsAppend(ps, [p]);
    assert Ids([p]) == {p.id} by { assert [p][0].id in Ids([p]); }
    if Distinct(ps) && p.id !in Ids(ps) {
      assert forall i :: 0 <= i < |ps| ==> ps[i].id in Ids(ps);
    }
  }

  lemma ForkLists(w: World, w': World, child: Ps)
    requires Lists(w) && w.runnable != [] && child.id == w.issued + 1 && child.parent == w.runnable[0].id
    requires w'.runnable == w.runnable + [child] && w'.zombies == w.zombies && w'.issued == child.id
    requires w'.forks == w.forks[child.parent := ForksOf(w, child.parent) + 1]
    ensures Lists(w')
  {
    var ps := w.runnable;
    AddLast(ps, child);
    assert ps[0].id in Ids(ps);
    forall x | x in Known(w) ensures 1 <= x <= w.issued {
      if x in Ids(w.runnable) {
        var i :| 0 <= i < |w.runnable| && w.runnable[i].id == x;
      } else {
        var i :| 0 <= i < |w.zombies| && w.zombies[i].id == x;
      }
    }
    forall pid: nat | pid >= 1 ensures NumChildren(w', pid) == ForksOf(w', pid) {
      assert NumChildren(w, pid) == ForksOf(w, pid);
      CountAppend(ps, [child], pid);
      CountOne(child, pid);
    }
  }

  lemma ExitLists(w: World, w': World)
    requires Lists(w) && w.runnable != []
    requires w'.runnable == w.runnable[1..] && w'.zombies == w.zombies + [w.runnable[0]]
    requires w'.issued == w.issued && w'.forks == w.forks
    ensures Lists(w')
  {
    TakeHead(w.runnable);
    AddLast(w.zombies, w.runnable[0]);
    assert Known(w') == Known(w);
    forall pid: nat | pid >= 1 ensures NumChildren(w', pid) == ForksOf(w', pid) {
      assert NumChildren(w, pid) == ForksOf(w, pid);
      CountHead(w.runnable, pid);
      CountAppend(w.zombies, [w.runnable[0]], pid);
      CountOne(w.runnable[0], pid);
    }
  }

  lemma ExecLists(w: World, w': World, p: Ps)
    requires Lists(w) && w.runnable != [] && p.id == w.runnable[0].id && p.parent == w.runnable[0].parent
    requires w'.runnable == w.runnable[1..] + [p] && w'.zombies == w.zombies
    requires w'.issued == w.issued && w'.forks == w.forks
    ensures Lists(w')
  {
    TakeHead(w.runnable);
    AddLast(w.runnable[1..], p);
    forall pid: nat ensures CountChildren(w'.runnable, pid) == CountChildren(w.runnable, pid) {
      CountHead(w.runnable, pid);
      CountAppend(w.runnable[1..], [p], pid);
      CountOne(p, pid);
    }
    SameLists(w, w');
  }

  /** Every step keeps the lists sound. */
  lemma NextLists(w: World, e: Event)
    requires Lists(w) && Enabled(w, e)
    ensures Lists(Next(w, e))
  {
    hide Lists;
    var p, w' := w.runnable[0], Next(w, e);
    match e
    case Tick(cpu) =>
      if cpu.cs == USER_CS {
        SwitchLists(w, p.(user := cpu, current := cpu), User);
      } else {
        SwitchLists(w, p.(current := KernelContext(cpu)), InSyscall);
      }
    case Trap(cpu) => HeadLists(w, w', p.(user := cpu));
    case Return(eax) => HeadLists(w, w', p.(user := p.user.(eax := eax)));
    case Yield =>
      var user := p.user.(eax := 0);
      SwitchLists(w, p.(user := user, current := user), User);
    case Fork =>
      NextPidIs(w);
      var user := p.user.(eax := 0);
      ForkLists(w, w', Ps(NextPid(w), p.id, user, user));
    case Exec(image) =>
      var mid := w.(runnable := w.runnable[1..] + [Ps(p.id, p.parent, image, image)]);
      ExecLists(w, mid, Ps(p.id, p.parent, image, image));
      RotateLists(mid, w');
    case Exit =>
      var mid := w.(runnable := w.runnable[1..], zombies := w.zombies + [p]);
      ExitLists(w, mid);
      RotateLists(mid, w');
    case WaitOn(cpu) => SwitchLists(w, p.(current := cpu.(eax := 0)), InSyscall);
  }

  // ----- contexts, step by step

  /** Switching away keeps every context: the one just saved and all others. */
  lemma SwitchContexts(w: World, p: Ps, mode: Mode)
    requires Lists(w) && Contexts(w) && w.runnable != [] && p.id == w.runnable[0].id
    requires p.current.cs == if mode.User? then USER_CS else KERNEL_CS
    requires mode.InSyscall? ==> p.id in w.trapped && p.user == w.trapped[p.id] && p.user.cs == USER_CS
    ensures
      var w' := SwitchFrom(w, p, mode);
      && w'.runnable != []
      && Contexts(w')
      && ContextKept(w', w'.runnable[0])
  {
    var w' := SwitchFrom(w, p, mode);
    var ps := w.runnable[0 := p];
    RotateFacts(ps, 0);
    forall i | 0 <= i < |ps| ensures TrapKept(w', w'.runnable[i]) && ContextKept(w', w'.runnable[i]) {
      var j := if i + 1 < |ps| then i + 1 else 0;
      assert w'.runnable[i] == ps[j];
      if j != 0 {
        assert ps[j] == w.runnable[j] && TrapKept(w, w.runnable[j]) && ContextKept(w, w.runnable[j]);
        assert w.runnable[0].id != w.runnable[j].id;
      }
    }
  }

  lemma HeadContexts(w: World, w': World, p: Ps)
    requires Lists(w) && Contexts(w) && w.runnable != [] && p.id == w.runnable[0].id
    requires w'.runnable == w.runnable[0 := p] && w'.saved == w.saved
    requires TrapKept(w', p)
    requires forall pid :: pid != p.id ==> (pid in w.mode ==> pid in w'.mode && w'.mode[pid] == w.mode[pid])
    requires forall pid :: pid != p.id ==> (pid in w.trapped ==> pid in w'.trapped && w'.trapped[pid] == w.trapped[pid])
    ensures Contexts(w')
  {
    forall i | 1 <= i < |w.runnable| ensures TrapKept(w', w'.runnable[i]) && ContextKept(w', w'.runnable[i]) {
      assert w'.runnable[i] == w.runnable[i] && TrapKept(w, w.runnable[i]) && ContextKept(w, w.runnable[i]);
      assert w.runnable[0].id != w.runnable[i].id;
    }
  }

  lemma ForkContexts(w: World)
    requires Lists(w) && Contexts(w) && Enabled(w, Fork)
    ensures Contexts(Next(w, Fork))
  {
    NextPidIs(w);
    var w', n := Next(w, Fork), |w.runnable|;
    assert TrapKept(w, w.runnable[0]);
    forall i | 0 <= i < n ensures TrapKept(w', w'.runnable[i]) && (i >= 1 ==> ContextKept(w', w'.runnable[i])) {
      assert w'.runnable[i] == w.runnable[i] && TrapKept(w, w.runnable[i]) && w.runnable[i].id <= w.issued;
      assert i >= 1 ==> ContextKept(w, w.runnable[i]);
    }
  }

  /** Removing the head, with or without a new image at the end, and rotating. */
  lemma RemoveContexts(w: World, e: Event)
    requires Lists(w) && Contexts(w) && Enabled(w, e) && Removes(e)
    ensures
      var w' := Next(w, e);
      && w'.runnable != []
      && Contexts(w')
      && ContextKept(w', w'.runnable[0])
  {
    var p, w' := w.runnable[0], Next(w, e);
    var ps := if e.Exit? then w.runnable[1..] else w.runnable[1..] + [Ps(p.id, p.parent, e.image, e.image)];
    RotateFacts(ps, 0);
    forall i | 0 <= i < |ps| ensures TrapKept(w', w'.runnable[i]) && ContextKept(w', w'.runnable[i]) {
      var j := if i + 1 < |ps| then i + 1 else 0;
      assert w'.runnable[i] == ps[j];
      if j < |w.runnable| - 1 {
        assert ps[j] == w.runnable[j + 1] && TrapKept(w, w.runnable[j + 1]) && ContextKept(w, w.runnable[j + 1]);
        assert w.runnable[0].id != w.runnable[j + 1].id;
      }
    }
  }

  /** Every step keeps every context, and a dispatch resumes the head with the
      context saved for it last, in the mode it was in. */
  lemma NextContexts(w: World, e: Event)
    requires Lists(w) && Contexts(w) && Enabled(w, e)
    ensures Contexts(Next(w, e)) && Next(w, e).runnable != []
    ensures Dispatches(e) ==> ContextKept(Next(w, e), Next(w, e).runnable[0])
  {
    hide Lists, Contexts, Rotated;
    var p, w' := w.runnable[0], Next(w, e);
    HeadTrap(w);
    match e
    case Tick(cpu) =>
      if cpu.cs == USER_CS {
        SwitchContexts(w, p.(user := cpu, current := cpu), User);
      } else {
        SwitchContexts(w, p.(current := KernelContext(cpu)), InSyscall);
      }
    case Trap(cpu) => HeadContexts(w, w', p.(user := cpu));
    case Return(eax) => HeadContexts(w, w', p.(user := p.user.(eax := eax)));
    case Yield =>
      var user := p.user.(eax := 0);
      SwitchContexts(w, p.(user := user, current := user), User);
    case Fork => ForkContexts(w);
    case Exec(image) => RemoveContexts(w, e);
    case Exit => RemoveContexts(w, e);
    case WaitOn(cpu) => SwitchContexts(w, p.(current := cpu.(eax := 0)), InSyscall);
  }

  lemma HeadTrap(w: World)
    requires Contexts(w) && w.runnable != []
    ensures TrapKept(w, w.runnable[0])
  {
  }

  // ----- whole runs

  /** The system after boot: one process, about to be dispatched. */
  function Boot(image: Regs): World {
    World([Ps(1, 0, image, image)], [], map[1 := User], map[], map[1 := image], map[], 1)
  }

  ghost predicate IsRun(run: seq<World>, es: seq<Event>) {
    && |run| == |es| + 1
    && (exists image: Regs :: image.cs == USER_CS && run[0] == Boot(image))
    && forall i :: 0 <= i < |es| ==> Enabled(run[i], es[i]) && run[i + 1] == Next(run[i], es[i])
  }

  lemma BootInv(image: Regs)
    requires image.cs == USER_CS
    ensures Inv(Boot(image))
  {
    var w := Boot(image);
    assert w.runnable[0].id in Ids(w.runnable);
    forall pid: nat | pid >= 1 ensures NumChildren(w, pid) == ForksOf(w, pid) {
      CountOne(w.runnable[0], pid);
    }
  }

  /** In every state of every run the lists and the contexts are sound. */
  lemma {:induction false} EveryRunKeepsInv(run: seq<World>, es: seq<Event>, k: nat)
    requires IsRun(run, es) && k < |run|
    ensures Inv(run[k]) && run[k].runnable != []
  {
    if k == 0 {
      var image: Regs :| image.cs == USER_CS && run[0] == Boot(image);
      BootInv(image);
    } else {
      EveryRunKeepsInv(run, es, k - 1);
      NextLists(run[k - 1], es[k - 1]);
      NextContexts(run[k - 1], es[k - 1]);
    }
  }

  /** The process that takes step `i`. */
  function Runs(run: seq<World>, i: nat): nat {
    if i < |run| && run[i].runnable != [] then run[i].runnable[0].id else 0
  }

  lemma ForkIssues(w: World)
    requires Lists(w) && Enabled(w, Fork)
    ensures Next(w, Fork).issued == w.issued + 1 && w.issued + 1 !in Known(w)
    ensures Known(Next(w, Fork)) == Known(w) + {w.issued + 1} && Next(w, Fork).zombies == w.zombies
  {
    var w' := Next(w, Fork);
    NextPidIs(w);
    AddLast(w.runnable, w'.runnable[|w.runnable|]);
    assert w'.runnable == w.runnable + [w'.runnable[|w.runnable|]];
  }

  lemma ExecStays(w: World, image: Regs)
    requires Enabled(w, Exec(image))
    ensures Ids(Next(w, Exec(image)).runnable) == Ids(w.runnable) && Next(w, Exec(image)).zombies == w.zombies
  {
    var p := w.runnable[0];
    var q := Ps(p.id, p.parent, image, image);
    TakeHead(w.runnable);
    AddLast(w.runnable[1..], q);
    RotateFacts(w.runnable[1..] + [q], 0);
  }

  lemma ExitStays(w: World)
    requires Enabled(w, Exit)
    ensures Ids(Next(w, Exit).runnable) + {w.runnable[0].id} == Ids(w.runnable)
    ensures Ids(Next(w, Exit).zombies) == Ids(w.zombies) + {w.runnable[0].id} && w.zombies <= Next(w, Exit).zombies
  {
    TakeHead(w.runnable);
    AddLast(w.zombies, w.runnable[0]);
    RotateFacts(w.runnable[1..], 0);
  }

  lemma RemovalStays(w: World, e: Event)
    requires Enabled(w, e) && Removes(e)
    ensures Known(Next(w, e)) == Known(w) && w.zombies <= Next(w, e).zombies
  {
    hide Enabled, Ids, Next;
    if e.Exec? {
      ExecStays(w, e.image);
    } else {
      ExitStays(w);
    }
  }

  /** No process ever leaves the lists, terminated ones stay terminated, and only a
      fork issues a number, one that was never used. */
  lemma ProcessesStay(w: World, e: Event)
    requires Lists(w) && Enabled(w, e)
    ensures Known(w) <= Known(Next(w, e)) && w.zombies <= Next(w, e).zombies
    ensures Next(w, e).issued == if e.Fork? then w.issued + 1 else w.issued
    ensures e.Fork? ==> w.issued + 1 !in Known(w)
  {
    hide Lists;
    if e.Fork? {
      ForkIssues(w);
    } else if Removes(e) {
      RemovalStays(w, e);
    } else {
      StepHead(w, e);
    }
  }

  /** A step that is no fork, exec or exit only updates the head and may rotate. */
  lemma StepHead(w: World, e: Event)
    requires Enabled(w, e) && !e.Fork? && !Removes(e)
    ensures
      var w' := Next(w, e);
      w'.runnable != [] && |w'.runnable| == |w.runnable|
        && forall i :: 0 <= i < |w.runnable| ==>
             w'.runnable[i].id == w.runnable[if !Dispatches(e) then i else if i + 1 < |w.runnable| then i + 1 else 0].id
    ensures Ids(Next(w, e).runnable) == Ids(w.runnable) && Next(w, e).zombies == w.zombies
  {
    var p := w.runnable[0];
    var q := match e
      case Tick(cpu) => if cpu.cs == USER_CS then p.(user := cpu, current := cpu) else p.(current := KernelContext(cpu))
      case Trap(cpu) => p.(user := cpu)
      case Return(eax) => p.(user := p.user.(eax := eax))
      case Yield => p.(user := p.user.(eax := 0), current := p.user.(eax := 0))
      case WaitOn(cpu) => p.(current := cpu.(eax := 0))
      case _ => p;
    HeadReplaced(w.runnable, q, 0);
    RotateFacts(w.runnable[0 := q], 0);
  }

  /** Numbers handed out by forks strictly increase along every run, and no number
      is given to two processes. */
  lemma {:induction false} ForkNumbersIncrease(run: seq<World>, es: seq<Event>, i: nat, j: nat)
    requires IsRun(run, es) && i < j < |es| && es[i].Fork? && es[j].Fork?
    ensures run[i + 1].issued < run[j + 1].issued && run[j + 1].issued !in Known(run[j])
    decreases j
  {
    EveryRunKeepsInv(run, es, j);
    ProcessesStay(run[j], es[j]);
    IssuedGrows(run, es, i + 1, j);
  }

  lemma {:induction false} IssuedGrows(run: seq<World>, es: seq<Event>, i: nat, j: nat)
    requires IsRun(run, es) && i <= j < |run|
    ensures run[i].issued <= run[j].issued && run[i].zombies <= run[j].zombies && Known(run[i]) <= Known(run[j])
    decreases j
  {
    hide IsRun, Next, Enabled, Lists, Contexts, Known;
    RunLength(run, es);
    if i == j {
    } else {
      IssuedGrows(run, es, i, j - 1);
      EveryRunKeepsInv(run, es, j - 1);
      RunStep(run, es, j - 1);
      ProcessesStay(run[j - 1], es[j - 1]);
      PrefixTrans(run[i].zombies, run[j - 1].zombies, run[j].zombies);
    }
  }

  lemma PrefixTrans(a: seq<Ps>, b: seq<Ps>, c: seq<Ps>)
    requires a <= b && b <= c
    ensures a <= c
  {
    assert a == b[..|a|] && b == c[..|b|];
  }

  /** The number of children the scheduler counts for a process is the number of
      forks it has made, whichever of them have terminated. */
  lemma ChildrenAreForks(run: seq<World>, es: seq<Event>, k: nat, pid: nat)
    requires IsRun(run, es) && k < |run| && pid >= 1
    ensures NumChildren(run[k], pid) == ForksOf(run[k], pid)
  {
    EveryRunKeepsInv(run, es, k);
  }

  /** Once a process has a terminated child, no later wait of it can block. */
  lemma WaitSucceeds(run: seq<World>, es: seq<Event>, i: nat, j: nat, pid: nat)
    requires IsRun(run, es) && i <= j < |es| && HasChild(run[i].zombies, pid) && Runs(run, j) == pid
    ensures !es[j].WaitOn?
  {
    IssuedGrows(run, es, i, j);
    EveryRunKeepsInv(run, es, j);
    var k :| 0 <= k < |run[i].zombies| && run[i].zombies[k].parent == pid;
    assert run[j].zombies[k] == run[i].zombies[k];
  }

  // ----- registers over whole runs

  lemma TrapUntouched(w: World, e: Event, pid: nat)
    requires Enabled(w, e) && (w.runnable[0].id != pid || !e.Trap?) && pid in w.trapped
    ensures pid in Next(w, e).trapped && Next(w, e).trapped[pid] == w.trapped[pid]
  {
  }

  lemma {:induction false} TrapLasts(run: seq<World>, es: seq<Event>, i: nat, j: nat, pid: nat)
    requires IsRun(run, es) && i <= j < |run| && pid in run[i].trapped
    requires forall k :: i <= k < j && Runs(run, k) == pid ==> !es[k].Trap?
    ensures pid in run[j].trapped && run[j].trapped[pid] == run[i].trapped[pid]
    decreases j
  {
    if i == j {
    } else {
      TrapLasts(run, es, i, j - 1, pid);
      assert Runs(run, j - 1) == pid ==> !es[j - 1].Trap?;
      TrapUntouched(run[j - 1], es[j - 1], pid);
    }
  }

  /** A system call that returns hands back the registers given at its trap, with
      only eax replaced, whatever was preempted or scheduled in between. */
  lemma SyscallRoundTrip(run: seq<World>, es: seq<Event>, i: nat, j: nat)
    requires IsRun(run, es) && i < j < |es| && es[i].Trap? && es[j].Return? && Runs(run, i) == Runs(run, j)
    requires forall k :: i < k < j && Runs(run, k) == Runs(run, i) ==> !es[k].Trap?
    ensures HandedBack(run[j], es[j]) == es[i].cpu.(eax := es[j].eax)
  {
    var pid := Runs(run, i);
    EveryRunKeepsInv(run, es, i);
    EveryRunKeepsInv(run, es, j);
    TrapLasts(run, es, i + 1, j, pid);
    HeadTrap(run[j]);
  }

  lemma SavedUntouched(w: World, e: Event, pid: nat)
    requires Lists(w) && Enabled(w, e) && w.runnable[0].id != pid && pid in Known(w) && pid in w.saved
    ensures pid in Next(w, e).saved && Next(w, e).saved[pid] == w.saved[pid]
  {
    NextPidIs(w);
    if pid in Ids(w.runnable) {
      var i :| 0 <= i < |w.runnable| && w.runnable[i].id == pid;
    } else {
      var i :| 0 <= i < |w.zombies| && w.zombies[i].id == pid;
    }
  }

  lemma {:induction false} SavedLasts(run: seq<World>, es: seq<Event>, i: nat, j: nat, pid: nat)
    requires IsRun(run, es) && i <= j < |run| && pid in run[i].saved && pid in Known(run[i])
    requires forall k :: i <= k < j ==> Runs(run, k) != pid
    ensures pid in run[j].saved && run[j].saved[pid] == run[i].saved[pid]
    decreases j
  {
    hide IsRun, Next, Enabled, Lists, Contexts;
    if i == j {
    } else {
      RunLength(run, es);
      RunStep(run, es, j - 1);
      SavedLasts(run, es, i, j - 1, pid);
      EveryRunKeepsInv(run, es, j - 1);
      IssuedGrows(run, es, i, j - 1);
      assert Runs(run, j - 1) != pid;
      SavedUntouched(run[j - 1], es[j - 1], pid);
    }
  }

  /** Steps that leave a process behind to be resumed: the head, or a new child. */
  predicate Leaves(e: Event) { e.Tick? || e.Yield? || e.WaitOn? || e.Exec? || e.Fork? }

  ghost function LeftPid(w: World, e: Event): nat
    requires Enabled(w, e)
  {
    if e.Fork? then w.issued + 1 else w.runnable[0].id
  }

  /** What it should resume: the registers the timer interrupt found, in kernel mode
      past the interrupt frame; after yield, and in a fork's child, the registers of the
      system call with eax zero; in wait the kernel context; after execve the image. */
  /** What the step of the head leaves saved for it, or for its new child: the registers
      a timer interrupt found in user mode; in kernel mode the same, but past the twelve
      bytes of the interrupt frame and with the kernel's stack segment; after yield, and
      for the child of a fork, the registers of the system call with eax zero; in wait the
      kernel context with eax zero; after execve the image. */
  ghost predicate LeftWith(w: World, e: Event, regs: Regs)
    requires Enabled(w, e)
  {
    var pid := w.runnable[0].id;
    && (e.Tick? && e.cpu.cs == 0x1B ==> regs == e.cpu)
    && (e.Tick? && e.cpu.cs == 0x08 ==>
          && regs.esp == e.cpu.esp + 12 && regs.ss == 0x10
          && regs.eax == e.cpu.eax && regs.ebx == e.cpu.ebx && regs.ecx == e.cpu.ecx && regs.edx == e.cpu.edx
          && regs.ebp == e.cpu.ebp && regs.esi == e.cpu.esi && regs.edi == e.cpu.edi
          && regs.eflags == e.cpu.eflags && regs.cs == e.cpu.cs && regs.eip == e.cpu.eip)
    && (e.Yield? || e.Fork? ==> pid in w.trapped && regs == w.trapped[pid].(eax := 0))
    && (e.WaitOn? ==> regs == e.cpu.(eax := 0))
    && (e.Exec? ==> regs == e.image)
  }

  lemma SavedAfter(w: World, e: Event)
    requires Inv(w) && Enabled(w, e) && Leaves(e)
    ensures e.Tick? ==> e.cpu.cs == 0x1B || e.cpu.cs == 0x08
    ensures LeftPid(w, e) in Next(w, e).saved && LeftWith(w, e, Next(w, e).saved[LeftPid(w, e)])
  {
    HeadTrap(w);
    NextPidIs(w);
    hide Lists, Contexts, Rotated, NextPid, Known;
    if e.Fork? {
      SavedByFork(w);
    } else if e.Exec? {
    } else {
      SavedBySwitch(w, e);
    }
  }

  lemma SavedByFork(w: World)
    requires Enabled(w, Fork) && TrapKept(w, w.runnable[0]) && NextPid(w) == w.issued + 1
    ensures LeftPid(w, Fork) in Next(w, Fork).saved && LeftWith(w, Fork, Next(w, Fork).saved[LeftPid(w, Fork)])
  {
    hide NextPid;
  }

  lemma SavedBySwitch(w: World, e: Event)
    requires Enabled(w, e) && TrapKept(w, w.runnable[0]) && (e.Tick? || e.Yield? || e.WaitOn?)
    ensures e.Tick? ==> e.cpu.cs == 0x1B || e.cpu.cs == 0x08
    ensures LeftPid(w, e) in Next(w, e).saved && LeftWith(w, e, Next(w, e).saved[LeftPid(w, e)])
  {
    hide Rotated, NumChildren, HasChild;
  }

  lemma LeftKnown(w: World, e: Event)
    requires Lists(w) && Enabled(w, e) && Leaves(e)
    ensures LeftPid(w, e) in Known(Next(w, e))
  {
    EnabledHead(w, e);
    hide Lists, Next, Enabled, Ids;
    if e.Fork? {
      ForkIssues(w);
    } else {
      ProcessesStay(w, e);
    }
  }

  lemma EnabledHead(w: World, e: Event)
    requires Enabled(w, e)
    ensures w.runnable != [] && w.runnable[0].id in Known(w)
  {
    assert w.runnable[0].id in Ids(w.runnable);
  }

  lemma HeadResumes(w: World, e: Event)
    requires Inv(w) && Enabled(w, e) && Dispatches(e)
    ensures
      var w' := Next(w, e);
      w'.runnable != [] && w'.runnable[0].id in w'.saved && w'.runnable[0].current == w'.saved[w'.runnable[0].id]
  {
    hide Lists, Contexts, Next, Enabled;
    NextContexts(w, e);
  }

  /** Whatever happens in between, a process that is dispatched again resumes what the
      step that took it off the processor left behind for it; and a new child what its
      parent's fork left behind. */
  lemma ResumesWhatItLeft(run: seq<World>, es: seq<Event>, i: nat, j: nat)
    requires IsRun(run, es) && i <= j < |es| && Enabled(run[i], es[i]) && Leaves(es[i]) && Dispatches(es[j])
    requires Runs(run, j + 1) == LeftPid(run[i], es[i])
    requires forall k :: i < k <= j ==> Runs(run, k) != LeftPid(run[i], es[i])
    ensures run[j + 1].runnable != [] && LeftWith(run[i], es[i], run[j + 1].runnable[0].current)
  {
    hide IsRun, Next, Enabled, Lists, Contexts, Known, LeftWith;
    RunLength(run, es);
    RunStep(run, es, i);
    RunStep(run, es, j);
    EveryRunKeepsInv(run, es, i);
    EveryRunKeepsInv(run, es, j);
    SavedAfter(run[i], es[i]);
    LeftKnown(run[i], es[i]);
    SavedLasts(run, es, i + 1, j + 1, LeftPid(run[i], es[i]));
    HeadResumes(run[j], es[j]);
  }

  /** A process preempted in kernel mode resumes past the interrupt frame: with esp twelve
      higher, the kernel's stack segment, and every other register as it was. */
  lemma KernelPreemption(run: seq<World>, es: seq<Event>, i: nat, j: nat)
    requires IsRun(run, es) && i <= j < |es| && es[i].Tick? && es[i].cpu.cs == 0x08 && Dispatches(es[j])
    requires Runs(run, j + 1) == Runs(run, i) && forall k :: i < k <= j ==> Runs(run, k) != Runs(run, i)
    ensures run[j + 1].runnable != []
    ensures
      var cpu, regs := es[i].cpu, run[j + 1].runnable[0].current;
      regs == Regs(cpu.eax, cpu.ebx, cpu.ecx, cpu.edx, cpu.ebp, cpu.esi, cpu.edi,
                   0x10, cpu.esp + 12, cpu.eflags, 0x08, cpu.eip)
  {
    RunStep(run, es, i);
    assert Runs(run, i) == LeftPid(run[i], es[i]);
    hide IsRun, Next, Enabled;
    ResumesWhatItLeft(run, es, i, j);
  }

  // ----- bounded waiting

  /** Where a waiting process stands after a step. */
  function NewIndex(e: Event, d: nat, n: nat): nat
    requires 1 <= d < n
  {
    if !Dispatches(e) then d
    else if !Removes(e) then d - 1
    else
      var n' := if e.Exit? then n - 1 else n;
      if n' == 1 then 0 else if d == 1 then n' - 1 else d - 2
  }

  lemma StepIndex(w: World, e: Event, d: nat)
    requires Enabled(w, e) && 1 <= d < |w.runnable|
    ensures
      var w', d' := Next(w, e), NewIndex(e, d, |w.runnable|);
      d' < |w'.runnable| && w'.runnable[d'].id == w.runnable[d].id
  {
    var p := w.runnable[0];
    if e.Exec? {
      RotateFacts(w.runnable[1..] + [Ps(p.id, p.parent, e.image, e.image)], 0);
    } else if e.Exit? {
      RotateFacts(w.runnable[1..], 0);
    } else if !e.Fork? {
      StepHead(w, e);
    }
  }

  function CountDispatches(es: seq<Event>): nat {
    if es == [] then 0 else CountDispatches(es[..|es| - 1]) + if Dispatches(es[|es| - 1]) then 1 else 0
  }

  function CountRemovals(es: seq<Event>): nat {
    if es == [] then 0 else CountRemovals(es[..|es| - 1]) + if Removes(es[|es| - 1]) then 1 else 0
  }

  lemma RunStep(run: seq<World>, es: seq<Event>, k: nat)
    requires IsRun(run, es) && k < |es|
    ensures |run| == |es| + 1 && Enabled(run[k], es[k]) && run[k + 1] == Next(run[k], es[k])
  {
  }

  lemma CountNext(es: seq<Event>, i: nat, j: nat)
    requires i < j <= |es|
    ensures CountDispatches(es[i..j]) == CountDispatches(es[i..j - 1]) + if Dispatches(es[j - 1]) then 1 else 0
    ensures CountRemovals(es[i..j]) == CountRemovals(es[i..j - 1]) + if Removes(es[j - 1]) then 1 else 0
  {
    assert es[i..j][..|es[i..j]| - 1] == es[i..j - 1];
  }

  /** A step away from the head costs at most `limit - 1` positions. */
  lemma StepCost(e: Event, b: nat, n: nat, limit: nat, c: nat)
    requires 1 <= b < n <= limit && NewIndex(e, b, n) >= 1
    ensures
      var used, left := if Dispatches(e) then 1 else 0, if Removes(e) then 1 else 0;
      && used + NewIndex(e, b, n) + (limit - 1) * c <= b + (limit - 1) * (c + left)
      && (left == 0 ==> used + NewIndex(e, b, n) == b)
  {
    assert (limit - 1) * (c + 1) == (limit - 1) * c + (limit - 1);
  }

  /** As long as a process at position `d` is not dispatched, its position and the
      dispatches so far stay within `d` plus `limit - 1` for every process that
      left the queue. */
  lemma {:induction false} Waiting(run: seq<World>, es: seq<Event>, i: nat, j: nat, d: nat,
                                   limit: nat) returns (d': nat)
    requires IsRun(run, es) && i <= j < |run| && 1 <= d < |run[i].runnable|
    requires forall k :: i <= k <= j ==> |run[k].runnable| <= limit
    requires forall k :: i < k <= j ==> Runs(run, k) != run[i].runnable[d].id
    ensures 1 <= d' < |run[j].runnable| && run[j].runnable[d'].id == run[i].runnable[d].id
    ensures i <= j <= |es|
    ensures CountDispatches(es[i..j]) + d' <= d + (limit - 1) * CountRemovals(es[i..j])
    ensures CountRemovals(es[i..j]) == 0 ==> CountDispatches(es[i..j]) + d' == d
    decreases j
  {
    hide IsRun, Next, Enabled, NewIndex, CountDispatches, CountRemovals;
    if i == j {
      d' := d;
      RunLength(run, es);
      NoneCounted(es[i..j]);
    } else {
      RunLength(run, es);
      RunStep(run, es, j - 1);
      var b := Waiting(run, es, i, j - 1, d, limit);
      StepIndex(run[j - 1], es[j - 1], b);
      d' := NewIndex(es[j - 1], b, |run[j - 1].runnable|);
      assert Runs(run, j) != run[i].runnable[d].id;
      CountNext(es, i, j);
      StepCost(es[j - 1], b, |run[j - 1].runnable|, limit, CountRemovals(es[i..j - 1]));
    }
  }

  lemma RunLength(run: seq<World>, es: seq<Event>)
    requires IsRun(run, es)
    ensures |run| == |es| + 1
  {
  }

  lemma NoneCounted(es: seq<Event>)
    requires es == []
    ensures CountDispatches(es) == 0 && CountRemovals(es) == 0
  {
  }

  /** Bounded waiting: a process at queue position `d` is dispatched within
      `d + (limit - 1) * k` dispatches, where `limit` bounds the queue and `k` counts
      the steps that took a process off it. */
  lemma BoundedWaiting(run: seq<World>, es: seq<Event>, i: nat, j: nat, d: nat, limit: nat)
    requires IsRun(run, es) && i <= j < |run| && 1 <= d < |run[i].runnable|
    requires forall k :: i <= k <= j ==> |run[k].runnable| <= limit
    requires CountDispatches(es[i..j]) >= d + (limit - 1) * CountRemovals(es[i..j])
    ensures exists k :: i < k <= j && Runs(run, k) == run[i].runnable[d].id
  {
    if forall k :: i < k <= j ==> Runs(run, k) != run[i].runnable[d].id {
      var d' := Waiting(run, es, i, j, d, limit);
    }
  }

  /** Round robin: while nothing leaves the queue, a process at position `d` is
      dispatched by exactly the `d`-th dispatch. */
  lemma RoundRobin(run: seq<World>, es: seq<Event>, i: nat, j: nat, d: nat)
    requires IsRun(run, es) && i < j < |run| && 1 <= d < |run[i].runnable|
    requires CountRemovals(es[i..j]) == 0
    requires forall k :: i < k < j ==> Runs(run, k) != run[i].runnable[d].id
    ensures Runs(run, j) == run[i].runnable[d].id <==> Dispatches(es[j - 1]) && CountDispatches(es[i..j]) == d
  {
    hide IsRun, Next, Enabled, Inv, CountDispatches, CountRemovals;
    RunLength(run, es);
    RunStep(run, es, j - 1);
    CountNext(es, i, j);
    var limit := LongestQueue(run, j);
    var b := Waiting(run, es, i, j - 1, d, limit);
    StepIndex(run[j - 1], es[j - 1], b);
    EveryRunKeepsInv(run, es, j);
    HeadOnly(run[j], NewIndex(es[j - 1], b, |run[j - 1].runnable|));
  }

  lemma HeadOnly(w: World, d: nat)
    requires Inv(w) && d < |w.runnable|
    ensures w.runnable[0].id == w.runnable[d].id <==> d == 0
  {
  }

  lemma {:induction false} LongestQueue(run: seq<World>, j: nat) returns (limit: nat)
    requires j <= |run|
    ensures forall k :: 0 <= k < j ==> |run[k].runnable| <= limit
  {
    if j == 0 {
      limit := 0;
    } else {
      limit := LongestQueue(run, j - 1);
      if limit < |run[j - 1].runnable| {
        limit := |run[j - 1].runnable|;
      }
    }
  }
}
