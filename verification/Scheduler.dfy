/** The scheduler's linked process lists, and the timer and system call handlers
    that work on them. */
module Scheduler {
  import opened Wrappers
  import opened SchedulerSpec

  class Element {
    var next: Element?
    var ps: Ps

    constructor (ps: Ps)
      ensures this.ps == ps && next == null
    {
      this.ps, next := ps, null;
    }
  }

  /** The position of the first process with number `pid`. */
  function FirstWith(ps: seq<Ps>, pid: nat): (k: nat)
    ensures k <= |ps|
    ensures forall i :: 0 <= i < k ==> ps[i].id != pid
    ensures k < |ps| ==> ps[k].id == pid
  {
    if ps == [] then 0 else if ps[0].id == pid then 0 else 1 + FirstWith(ps[1..], pid)
  }

  /** A singly linked list with pointers to its first and last element. */
  class PsList {
    var start: Element?
    var end: Element?
    ghost var nodes: seq<Element>
    ghost var repr: set<Element>

    ghost predicate Valid()
      reads this, repr
    {
      && (forall i :: 0 <= i < |nodes| ==> nodes[i] in repr)
      && (nodes == [] ==> start == null && end == null)
      && (nodes != [] ==> start == nodes[0] && end == nodes[|nodes| - 1] && nodes[|nodes| - 1].next == null)
      && (forall i :: 0 <= i < |nodes| - 1 ==> nodes[i].next == nodes[i + 1])
      && (forall i, j :: 0 <= i < j < |nodes| ==> nodes[i] != nodes[j])
    }

    ghost function Contents(): (ps: seq<Ps>)
      requires Valid()
      reads this, repr
      ensures |ps| == |nodes|
      ensures forall i :: 0 <= i < |ps| ==> ps[i] == nodes[i].ps
    {
      seq(|nodes|, i requires 0 <= i < |nodes| && Valid() reads this, repr => nodes[i].ps)
    }

    constructor ()
      ensures Valid() && nodes == [] && repr == {}
    {
      start, end, nodes, repr := null, null, [], {};
    }

    /** Appends a process. */
    method Add(ps: Ps)
      requires Valid()
      modifies this, repr
      ensures Valid() && Contents() == old(Contents()) + [ps]
      ensures fresh(repr - old(repr))
    {
      var ele := new Element(ps);
      if start == null {
        start := ele;
      } else {
        end.next := ele;
      }
      end := ele;
      nodes, repr := nodes + [ele], repr + {ele};
    }

    /** Moves the first process to the end; a single process stays where it is. */
    method Rotate()
      requires Valid() && nodes != []
      modifies this, repr
      ensures Valid() && Contents() == Rotated(old(Contents())) && nodes != []
      ensures repr == old(repr)
    {
      var first := start;
      if first.next != null {
        start := first.next;
        first.next := null;
        end.next := first;
        end := first;
        nodes := nodes[1..] + [first];
      }
    }

    /** Updates the first process in place. */
    method UpdateHead(ps: Ps)
      requires Valid() && nodes != []
      modifies repr
      ensures Valid() && Contents() == old(Contents())[0 := ps] && nodes == old(nodes) && repr == old(repr)
    {
      start.ps := ps;
    }

    method MaxId() returns (max: nat)
      requires Valid()
      ensures max == SchedulerSpec.MaxId(Contents())
    {
      max := 0;
      var p := start;
      ghost var i := 0;
      while p != null
        invariant 0 <= i <= |nodes| && p == (if i < |nodes| then nodes[i] else null)
        invariant max == SchedulerSpec.MaxId(Contents()[..i])
        decreases |nodes| - i
      {
        assert Contents()[..i + 1][..i] == Contents()[..i];
        if p.ps.id >= max {
          max := p.ps.id;
        }
        p := p.next;
        i := i + 1;
      }
      assert Contents()[..i] == Contents();
    }

    method CountChildren(pid: nat) returns (num: nat)
      requires Valid()
      ensures num == SchedulerSpec.CountChildren(Contents(), pid)
    {
      num := 0;
      var e := start;
      ghost var i := 0;
      while e != null
        invariant 0 <= i <= |nodes| && e == (if i < |nodes| then nodes[i] else null)
        invariant num == SchedulerSpec.CountChildren(Contents()[..i], pid)
        decreases |nodes| - i
      {
        assert Contents()[..i + 1][..i] == Contents()[..i];
        if e.ps.parent == pid {
          num := num + 1;
        }
        e := e.next;
        i := i + 1;
      }
      assert Contents()[..i] == Contents();
    }

    method HasChild(pid: nat) returns (has: bool)
      requires Valid()
      ensures has <==> SchedulerSpec.HasChild(Contents(), pid)
    {
      var e := start;
      ghost var i := 0;
      while e != null
        invariant 0 <= i <= |nodes| && e == (if i < |nodes| then nodes[i] else null)
        invariant forall k :: 0 <= k < i ==> Contents()[k].parent != pid
        decreases |nodes| - i
      {
        if e.ps.parent == pid {
          assert Contents()[i].parent == pid;
          return true;
        }
        e := e.next;
        i := i + 1;
      }
      return false;
    }

    /** Unlinks `current`, the element at position `i` behind `prev`. */
    method Unlink(current: Element, prev: Element?, ghost i: nat)
      requires Valid() && i < |nodes| && |nodes| >= 2 && current == nodes[i]
      requires prev == if i == 0 then null else nodes[i - 1]
      modifies this, repr
      ensures Valid() && nodes == old(nodes)[..i] + old(nodes)[i + 1..]
      ensures repr == old(repr) && forall i :: 0 <= i < |old(nodes)| ==> old(nodes)[i].ps == old(nodes[i].ps)
    {
      if prev == null {
        start := current.next;
      } else {
        prev.next := current.next;
      }
      if end == current {
        end := prev;
        prev.next := null;
      }
      nodes := nodes[..i] + nodes[i + 1..];
    }

    /** Unlinks the first process with number `pid`. The code cannot remove the only
        element of a list. */
    method Remove(pid: nat) returns (found: bool)
      requires Valid()
      requires FirstWith(Contents(), pid) < |nodes| ==> |nodes| >= 2
      modifies this, repr
      ensures Valid()
      ensures found <==> FirstWith(old(Contents()), pid) < |old(nodes)|
      ensures !found ==> Contents() == old(Contents()) && nodes == old(nodes)
      ensures found ==>
                var k := FirstWith(old(Contents()), pid);
                Contents() == old(Contents())[..k] + old(Contents())[k + 1..]
      ensures repr == old(repr)
    {
      var current, prev: Element? := start, null;
      ghost var i := 0;
      ghost var ps := Contents();
      while current != null
        invariant 0 <= i <= |nodes| && current == (if i < |nodes| then nodes[i] else null)
        invariant prev == if i == 0 then null else nodes[i - 1]
        invariant i <= FirstWith(ps, pid)
        decreases |nodes| - i
      {
        if current.ps.id == pid {
          assert i == FirstWith(ps, pid);
          Unlink(current, prev, i);
          assert Contents() == ps[..i] + ps[i + 1..];
          return true;
        }
        prev := current;
        current := current.next;
        i := i + 1;
      }
      return false;
    }
  }

  lemma {:induction false} ChildCounted(ps: seq<Ps>, pid: nat)
    ensures SchedulerSpec.HasChild(ps, pid) <==> SchedulerSpec.CountChildren(ps, pid) > 0
  {
    if ps == [] {
    } else {
      var n := |ps| - 1;
      ChildCounted(ps[..n], pid);
      assert SchedulerSpec.HasChild(ps, pid) <==> SchedulerSpec.HasChild(ps[..n], pid) || ps[n].parent == pid by {
        assert forall i :: 0 <= i < n ==> ps[..n][i] == ps[i];
      }
    }
  }

  const PIT_INTERVAL: nat := 2
  const TIME_SLICE: nat := 5 * PIT_INTERVAL

  /** One step of the system keeps everything; a dispatch finds the saved context. */
  lemma StepKeeps(w: World, e: Event)
    requires Inv(w) && Enabled(w, e)
    ensures Inv(Next(w, e)) && Next(w, e).runnable != []
    ensures Dispatches(e) ==> Resumes(Next(w, e), Next(w, e).runnable[0].current)
  {
    hide Lists, Contexts, Enabled, Next;
    NextLists(w, e);
    NextContexts(w, e);
  }

  // What each step does to the lists.

  lemma TrapIs(w: World, cpu: Regs)
    requires Enabled(w, Trap(cpu))
    ensures w.runnable != [] && Next(w, Trap(cpu)).zombies == w.zombies
    ensures Next(w, Trap(cpu)).runnable == w.runnable[0 := w.runnable[0].(user := cpu)]
  {
  }

  lemma ReturnIs(w: World, eax: nat)
    requires Contexts(w) && Enabled(w, Return(eax))
    ensures w.runnable != [] && Next(w, Return(eax)).zombies == w.zombies
    ensures
      var p, w' := w.runnable[0], Next(w, Return(eax));
      && w'.runnable == w.runnable[0 := p.(user := p.user.(eax := eax))]
      && p.id in w'.trapped && p.user == w'.trapped[p.id]
  {
    HeadTrap(w);
  }

  lemma ForkIs(w: World)
    requires Lists(w) && Enabled(w, Fork)
    ensures w.runnable != [] && Next(w, Fork).zombies == w.zombies
    ensures
      var p, pid := w.runnable[0], w.issued + 1;
      var user := p.user.(eax := 0);
      Next(w, Fork).runnable == w.runnable + [Ps(pid, p.id, user, user)] && Next(w, Fork).issued == pid &&
          pid !in Known(w)
  {
    NextPidIs(w);
    NewNumber(w);
  }

  lemma ExecIs(w: World, image: Regs)
    requires Enabled(w, Exec(image))
    ensures |w.runnable| >= 2 && Next(w, Exec(image)).zombies == w.zombies
    ensures
      var p := w.runnable[0];
      Next(w, Exec(image)).runnable == Rotated(w.runnable[1..] + [Ps(p.id, p.parent, image, image)])
  {
  }

  lemma ExitIs(w: World)
    requires Enabled(w, Exit)
    ensures |w.runnable| >= 2 && Next(w, Exit).zombies == w.zombies + [w.runnable[0]]
    ensures Next(w, Exit).runnable == Rotated(w.runnable[1..])
  {
  }

  lemma WaitIs(w: World, cpu: Regs)
    requires Inv(w) && Enabled(w, Fork) && cpu.cs == KERNEL_CS
    ensures w.runnable != []
    ensures
      var p, e := w.runnable[0], WaitOn(cpu);
      && p.id >= 1
      && (ForksOf(w, p.id) == 0 ==> !HasChild(w.zombies, p.id))
      && (Enabled(w, e) <==> ForksOf(w, p.id) > 0 && !HasChild(w.zombies, p.id))
      && (Enabled(w, e) ==>
            && Next(w, e).runnable == Rotated(w.runnable[0 := p.(current := cpu.(eax := 0))])
            && Next(w, e).zombies == w.zombies)
  {
    var p := w.runnable[0];
    assert NumChildren(w, p.id) == ForksOf(w, p.id);
    ChildCounted(w.zombies, p.id);
  }

  /** In `w'` the process that made step `e` has the context saved that `e` leaves it. */
  ghost predicate Left(w: World, e: Event, w': World) {
    Enabled(w, e) && w.runnable[0].id in w'.saved && LeftWith(w, e, w'.saved[w.runnable[0].id])
  }

  lemma StepLeaves(w: World, e: Event)
    requires Inv(w) && Enabled(w, e) && Dispatches(e) && Leaves(e)
    ensures Left(w, e, Next(w, e))
  {
    hide Lists, Contexts, Next, LeftWith;
    SavedAfter(w, e);
  }

  /** `regs` is the context last saved for the process at the head of the queue. */
  ghost predicate Resumes(w: World, regs: Regs) {
    w.runnable != [] && w.runnable[0].id in w.saved && regs == w.saved[w.runnable[0].id]
  }

  lemma NoIds()
    ensures SchedulerSpec.MaxId([]) == 0
  {
  }

  lemma BootLists(image: Regs)
    ensures Boot(image).runnable == [Ps(1, 0, image, image)] && Boot(image).zombies == []
  {
  }

  /** The runnable and the terminated processes, the milliseconds of the current time
      slice, and the abstract state they stand for. */
  class Scheduler {
    const runnable: PsList
    const zombies: PsList
    var ms: nat
    ghost var world: World

    ghost predicate Shape()
      reads this, runnable, zombies, runnable.repr, zombies.repr
    {
      && runnable != zombies && runnable.Valid() && zombies.Valid()
      && runnable.repr !! zombies.repr
    }

    ghost predicate Valid()
      reads this, runnable, zombies, runnable.repr, zombies.repr
    {
      && Shape() && ms < TIME_SLICE
      && world.runnable == runnable.Contents() && world.zombies == zombies.Contents()
      && Inv(world) && world.runnable != []
    }

    /** The system after boot has created its first process. */
    constructor (image: Regs)
      requires image.cs == USER_CS
      ensures Valid() && world == Boot(image)
      ensures fresh(runnable) && fresh(zombies) && fresh(runnable.repr) && fresh(zombies.repr)
    {
      hide PsList.Contents, SchedulerSpec.MaxId, Boot, Inv;
      var pss := new PsList();
      var none := new PsList();
      NoIds();
      assert pss.Contents() == [] && none.Contents() == [];
      hide PsList.Valid;
      var max := pss.MaxId();
      var zmax := none.MaxId();
      pss.Add(Ps((if max > zmax then max else zmax) + 1, 0, image, image));
      BootLists(image);
      BootInv(image);
      runnable, zombies, ms, world := pss, none, 0, Boot(image);
    }

    /** The process that runs. */
    method Current() returns (ps: Ps)
      requires Valid()
      ensures ps == world.runnable[0]
    {
      ps := runnable.start.ps;
    }

    method NextPid() returns (pid: nat)
      requires Valid()
      ensures pid == world.issued + 1 && pid !in Known(world)
    {
      hide PsList.Valid, PsList.Contents, Lists, Contexts, SchedulerSpec.MaxId, Known;
      var r := runnable.MaxId();
      var z := zombies.MaxId();
      pid := (if r > z then r else z) + 1;
      NextPidIs(world);
      NewNumber(world);
    }

    method NumChildren(pid: nat) returns (num: nat)
      requires Valid() && pid >= 1
      ensures num == ForksOf(world, pid)
    {
      var z := zombies.CountChildren(pid);
      var r := runnable.CountChildren(pid);
      num := z + r;
      assert num == SchedulerSpec.NumChildren(world, pid);
    }

    /** Rotates the queue and gives the context of its new head. */
    method Schedule() returns (resumed: Regs)
      requires Shape() && runnable.Contents() != []
      modifies runnable, runnable.repr
      ensures Shape() && runnable.Contents() != [] && runnable.Contents() == Rotated(old(runnable.Contents()))
      ensures zombies.repr == old(zombies.repr) && zombies.Contents() == old(zombies.Contents())
      ensures runnable.repr == old(runnable.repr)
      ensures resumed == runnable.Contents()[0].current
    {
      hide PsList.Valid;
      runnable.Rotate();
      resumed := runnable.start.ps.current;
    }

    /** Saves the head as `ps` and dispatches the next process. */
    method SwitchTo(ps: Ps, ghost e: Event) returns (resumed: Regs)
      requires Valid() && Enabled(world, e) && Dispatches(e) && Leaves(e)
      requires Next(world, e).runnable == Rotated(world.runnable[0 := ps]) && Next(world, e).zombies == world.zombies
      modifies this`world, runnable, runnable.repr
      ensures Valid() && world == Next(old(world), e) && Resumes(world, resumed) && Left(old(world), e, world)
      ensures zombies.repr == old(zombies.repr)
      ensures runnable.repr == old(runnable.repr)
    {
      hide PsList.Valid, PsList.Contents, Inv, Next, Enabled, Left;
      runnable.UpdateHead(ps);
      resumed := Schedule();
      StepKeeps(world, e);
      StepLeaves(world, e);
      world := Next(world, e);
    }

    /** A timer interrupt with the time slice over. */
    method ScheduleOnInterrupt(cpu: Regs) returns (resumed: Regs)
      requires Valid() && Enabled(world, Tick(cpu))
      modifies this`world, runnable, runnable.repr
      ensures Valid() && world == Next(old(world), Tick(cpu)) && Resumes(world, resumed)
      ensures Left(old(world), Tick(cpu), world)
      ensures zombies.repr == old(zombies.repr)
      ensures runnable.repr == old(runnable.repr)
    {
      hide PsList.Valid, PsList.Contents, Inv;
      var ps := Current();
      if cpu.cs == USER_CS {
        resumed := SwitchTo(ps.(user := cpu, current := cpu), Tick(cpu));
      } else {
        resumed := SwitchTo(ps.(current := KernelContext(cpu)), Tick(cpu));
      }
    }

    /** A timer interrupt, one every two milliseconds: it switches processes when ten are
        over. */
    method HandlePit(cpu: Regs) returns (resumed: Option<Regs>)
      requires Valid() && Enabled(world, Tick(cpu))
      modifies this, runnable, runnable.repr
      ensures Valid() && zombies.repr == old(zombies.repr)
      ensures runnable.repr == old(runnable.repr)
      ensures old(ms) + 2 < 10 ==> resumed.None? && ms == old(ms) + 2 && world == old(world)
      ensures old(ms) + 2 >= 10 ==>
                resumed.Some? && ms == 0 && world == Next(old(world), Tick(cpu)) && Resumes(world, resumed.value)
    {
      hide PsList.Valid, PsList.Contents, Inv, Next, Enabled;
      ms, resumed := ms + PIT_INTERVAL, None;
      if ms >= TIME_SLICE {
        ms := 0;
        var regs := ScheduleOnInterrupt(cpu);
        resumed := Some(regs);
      }
    }

    /** A system call begins: the trap registers are recorded. */
    method Trap(cpu: Regs)
      requires Valid() && Enabled(world, SchedulerSpec.Trap(cpu))
      modifies this`world, runnable.repr
      ensures Valid() && world == Next(old(world), SchedulerSpec.Trap(cpu))
    {
      hide PsList.Valid, PsList.Contents, Inv, Next, Enabled;
      var ps := Current();
      TrapIs(world, cpu);
      runnable.UpdateHead(ps.(user := cpu));
      StepKeeps(world, SchedulerSpec.Trap(cpu));
      world := Next(world, SchedulerSpec.Trap(cpu));
    }

    /** A system call returns with `eax`: the registers handed to user mode are those
        of its trap with only eax replaced. */
    method Return(eax: nat) returns (user: Regs)
      requires Valid() && Enabled(world, SchedulerSpec.Return(eax))
      modifies this`world, runnable.repr
      ensures Valid() && world == Next(old(world), SchedulerSpec.Return(eax))
      ensures world.runnable[0].id in world.trapped && user == world.trapped[world.runnable[0].id].(eax := eax)
    {
      hide PsList.Valid, PsList.Contents, Lists, Contexts, Next, Enabled;
      var ps := Current();
      ReturnIs(world, eax);
      user := ps.user.(eax := eax);
      runnable.UpdateHead(ps.(user := user));
      StepKeeps(world, SchedulerSpec.Return(eax));
      world := Next(world, SchedulerSpec.Return(eax));
    }

    method SysYield() returns (resumed: Regs)
      requires Valid() && Enabled(world, Yield)
      modifies this`world, runnable, runnable.repr
      ensures Valid() && world == Next(old(world), Yield) && Resumes(world, resumed)
      ensures Left(old(world), Yield, world)
      ensures zombies.repr == old(zombies.repr)
      ensures runnable.repr == old(runnable.repr)
    {
      hide PsList.Valid, PsList.Contents, Inv;
      var ps := Current();
      var user := ps.user.(eax := 0);
      resumed := SwitchTo(ps.(user := user, current := user), Yield);
    }

    /** Fork: if the process cannot be cloned, -1 is returned and nothing changes;
        otherwise the child's number is new, and the child is last in line with the
        parent's trap registers and eax zero. */
    method SysFork(cloned: bool) returns (result: int)
      requires Valid() && Enabled(world, Fork)
      modifies this`world, runnable, runnable.repr
      ensures Valid() && zombies.repr == old(zombies.repr)
      ensures fresh(runnable.repr - old(runnable.repr))
      ensures !cloned ==> result == -1 && world == old(world)
      ensures cloned ==>
                && world == Next(old(world), Fork) && result == world.issued
                && result >= 1 && world.issued !in Known(old(world))
    {
      hide PsList.Valid, PsList.Contents, Lists, Contexts, Next, Enabled, Known;
      ForkIs(world);
      var pid := NextPid();
      var parent := Current();
      if !cloned {
        return -1;
      }
      var user := parent.user.(eax := 0);
      runnable.Add(Ps(pid, parent.id, user, user));
      StepKeeps(world, Fork);
      world := Next(world, Fork);
      result := pid;
    }

    /** Removes the running process from the queue, which holds another one. */
    method RemoveCurrent(pid: nat)
      requires Shape() && |runnable.Contents()| >= 2 && pid == runnable.Contents()[0].id
      modifies runnable, runnable.repr
      ensures Shape() && runnable.Contents() != [] && runnable.Contents() == old(runnable.Contents())[1..]
      ensures zombies.repr == old(zombies.repr) && zombies.Contents() == old(zombies.Contents())
      ensures runnable.repr == old(runnable.repr)
    {
      hide PsList.Valid, PsList.Contents;
      var found := runnable.Remove(pid);
    }

    /** The process `old` leaves the head of the queue, and `ps` joins the end. */
    method ReplaceProcess(pid: nat, ps: Ps)
      requires Shape() && |runnable.Contents()| >= 2 && pid == runnable.Contents()[0].id
      modifies runnable, runnable.repr
      ensures Shape() && runnable.Contents() == old(runnable.Contents())[1..] + [ps]
      ensures zombies.repr == old(zombies.repr) && zombies.Contents() == old(zombies.Contents())
      ensures fresh(runnable.repr - old(runnable.repr))
    {
      hide PsList.Valid, PsList.Contents;
      RemoveCurrent(pid);
      runnable.Add(ps);
    }

    /** The head of the queue moves to the terminated processes. */
    method TerminateProcess(ps: Ps)
      requires Shape() && |runnable.Contents()| >= 2 && ps == runnable.Contents()[0]
      modifies runnable, runnable.repr, zombies, zombies.repr
      ensures Shape() && runnable.Contents() == old(runnable.Contents())[1..] && runnable.Contents() != []
      ensures zombies.Contents() == old(zombies.Contents()) + [ps]
      ensures runnable.repr == old(runnable.repr) && fresh(zombies.repr - old(zombies.repr))
    {
      hide PsList.Valid, PsList.Contents;
      RemoveCurrent(ps.id);
      zombies.Add(ps);
    }

    /** Execve: if the new image cannot be created, -1 is returned and nothing changes;
        otherwise the image takes the number and the parent of the old process and
        joins the end of the queue, and the next process is dispatched. */
    method SysExecve(image: Option<Regs>) returns (result: Option<int>, resumed: Regs)
      requires Valid() && Enabled(world, if image.Some? then Exec(image.value) else Fork)
      modifies this`world, runnable, runnable.repr
      ensures Valid() && (image.None? <==> result == Some(-1))
      ensures image.None? ==> world == old(world) && runnable.repr == old(runnable.repr)
      ensures image.Some? ==> result.None? && world == Next(old(world), Exec(image.value)) && Resumes(world, resumed)
      ensures zombies.repr == old(zombies.repr)
      ensures fresh(runnable.repr - old(runnable.repr))
    {
      hide PsList.Valid, PsList.Contents, Inv, Next, Enabled, Rotated;
      var ps := Current();
      if image.None? {
        return Some(-1), ps.current;
      }
      var regs := image.value;
      ExecIs(world, regs);
      ReplaceProcess(ps.id, Ps(ps.id, ps.parent, regs, regs));
      resumed := Schedule();
      StepKeeps(world, Exec(regs));
      world := Next(world, Exec(regs));
      result := None;
    }

    /** Exit: the process moves to the terminated ones. */
    method SysExit() returns (resumed: Regs)
      requires Valid() && Enabled(world, Exit)
      modifies this`world, runnable, runnable.repr, zombies, zombies.repr
      ensures Valid() && world == Next(old(world), Exit) && Resumes(world, resumed)
      ensures runnable.repr == old(runnable.repr)
      ensures fresh(zombies.repr - old(zombies.repr))
    {
      hide PsList.Valid, PsList.Contents, Inv, Next, Enabled, Rotated;
      var ps := Current();
      ExitIs(world);
      TerminateProcess(ps);
      resumed := Schedule();
      StepKeeps(world, Exit);
      world := Next(world, Exit);
    }

    /** One turn of wait: it fails without children, succeeds once a child has
        terminated, and otherwise switches to the next process, to look again when
        it is dispatched. `cpu` is the kernel context of the caller. */
    method SysWait(cpu: Regs) returns (result: Option<int>, resumed: Regs)
      requires Valid() && Enabled(world, Fork) && cpu.cs == KERNEL_CS
      modifies this`world, runnable, runnable.repr
      ensures Valid() && zombies.repr == old(zombies.repr)
      ensures runnable.repr == old(runnable.repr)
      ensures
        var pid := old(world).runnable[0].id;
        && (result == Some(-1) <==> ForksOf(old(world), pid) == 0)
        && (result == Some(0) <==> SchedulerSpec.HasChild(old(world).zombies, pid))
        && (result.Some? ==> world == old(world))
        && (result.None? ==>
              && Enabled(old(world), WaitOn(cpu)) && world == Next(old(world), WaitOn(cpu))
              && Resumes(world, resumed) && Left(old(world), WaitOn(cpu), world))
    {
      hide PsList.Valid, PsList.Contents, Inv, Next, Enabled, Rotated, SchedulerSpec.HasChild, ForksOf;
      WaitIs(world, cpu);
      var ps := Current();
      resumed := ps.current;
      var n := NumChildren(ps.id);
      if n == 0 {
        return Some(-1), resumed;
      }
      var has := zombies.HasChild(ps.id);
      if has {
        return Some(0), resumed;
      }
      resumed := SwitchTo(ps.(current := cpu.(eax := 0)), WaitOn(cpu));
      result := None;
    }
  }
}
