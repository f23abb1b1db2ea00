/** The kernel inside its host process: every trap opens the recorded ranges, is handled, and locks
    them again for the process that goes on. */
module Hosts {
  import Bits
  import opened Bytes
  import opened Holes
  import opened Protection
  import Options
  import CallStack
  import Kernels
  import NestedCalls
  import Registers

  function AreaOf(f: CallStack.Frame): Area {
    Area(f.load, f.loadsz, f.stack, f.stacksz)
  }

  /** The regions of the process current after each trap of a run. */
  function TrapAreas(cfg: CallStack.Config, m: CallStack.Machine, es: seq<CallStack.Event>): seq<Area>
    decreases |es|
  {
    if es == [] || !m.Live? then []
    else
      var n := CallStack.Step(cfg, m, es[0]);
      AreaAfter(es[0], n) + TrapAreas(cfg, n, es[1..])
  }

  function AreaAfter(e: CallStack.Event, n: CallStack.Machine): seq<Area> {
    if e.Trap? && n.Live? && n.frames != [] then [AreaOf(n.frames[0])] else []
  }

  // ----- the program

  /** `current_process`, and the fields of it that are needed to lock. */
  method CurrentArea(k: Kernels.Kernel, ghost m: CallStack.Machine, ghost regs: Registers.Regs) returns (cur: Area)
    requires k.status == Kernels.Running && k.chain != [] && k.Refines(m, regs)
    ensures m.Live? && m.frames != [] && cur == AreaOf(m.frames[0])
  {
    k.CurrentProcess();
    var p := k.procs[k.curp];
    cur := Area(p.load, p.loadsz, p.stack, p.stacksz);
  }

  /** `exn_do`: the kernel's handler, which needs the host's pages open, whatever they `was` before. */
  method ExnDo(k: Kernels.Kernel, vm: Vm, ctx: array<u64>, opcode: u16, argv0: Options.Option<Str>, other: int,
               ghost m: CallStack.Machine, ghost was: Pages)
    requires ctx.Length == Registers.NREG && ctx as object != k.ram
    requires vm.table.procmaps as object != ctx && vm.table.procmaps as object != k.ram
    requires k.status == Kernels.Running && k.chain != [] && k.Refines(m, ctx[..])
    requires Opened(vm.table.procmaps[..], was, vm.perm)
    modifies k, k.pool, ctx, k.ram
    ensures k.Refines(CallStack.Syscall(k.cfg, m, opcode, argv0, other), ctx[..]) && (k.status == Kernels.Running ==> k.chain != [])
  {
    k.SyscallHnd(ctx, opcode, argv0, other, m);
  }

  /** `sighnd`. A handler that halts or crashes does not come back to lock: the pages stay open. */
  method SigHnd(k: Kernels.Kernel, vm: Vm, ctx: array<u64>, opcode: u16, argv0: Options.Option<Str>, other: int,
                ghost m: CallStack.Machine)
    requires ctx.Length == Registers.NREG && ctx as object != k.ram
    requires vm.table.procmaps as object != ctx && vm.table.procmaps as object != k.ram
    requires k.status == Kernels.Running && k.chain != [] && k.Refines(m, ctx[..])
    modifies k, k.pool, ctx, k.ram, vm
    ensures var n := CallStack.Syscall(k.cfg, m, opcode, argv0, other);
      && k.Refines(n, ctx[..])
      && (k.status == Kernels.Running ==>
            && k.chain != [] && n.Live? && n.frames != []
            && vm.perm == AfterTraps(old(vm.perm), vm.table.procmaps[..], [AreaOf(n.frames[0])]))
      && (k.status != Kernels.Running ==> Opened(vm.table.procmaps[..], old(vm.perm), vm.perm))
  {
    ghost var perm, es := vm.perm, vm.table.procmaps[..];
    vm.HostVmProt(true, Area(0, 0, 0, 0));
    OpenedIs(perm, es, Area(0, 0, 0, 0));
    ExnDo(k, vm, ctx, opcode, argv0, other, m, perm);
    if k.status == Kernels.Running {
      ghost var n := CallStack.Syscall(k.cfg, m, opcode, argv0, other);
      var cur := CurrentArea(k, n, ctx[..]);
      vm.HostVmProt(false, cur);
      AfterTrapsStep(perm, es, [], cur);
    }
  }

  /** A whole run: the kernel's state is that of the abstract machine, and the pages are those the
      traps leave, each locked for the process the machine then runs. */
  method HandleProtected(k: Kernels.Kernel, vm: Vm, ctx: array<u64>, es: seq<CallStack.Event>, ghost m: CallStack.Machine)
    requires ctx.Length == Registers.NREG && ctx as object != k.ram
    requires vm.table.procmaps as object != ctx && vm.table.procmaps as object != k.ram
    requires k.status == Kernels.Running && k.chain != [] && k.Refines(m, ctx[..])
    modifies k, k.pool, ctx, k.ram, vm
    ensures k.Refines(CallStack.Steps(k.cfg, m, es), ctx[..])
    ensures k.status == Kernels.Running ==>
      vm.perm == AfterTraps(old(vm.perm), vm.table.procmaps[..], TrapAreas(k.cfg, m, es))
    ensures k.status != Kernels.Running ==>
      Opened(vm.table.procmaps[..], AfterTraps(old(vm.perm), vm.table.procmaps[..], TrapAreas(k.cfg, m, es)), vm.perm)
  {
    ghost var n, done := m, [];
    var i := 0;
    while i < |es| && k.status == Kernels.Running
      invariant i <= |es| && k.Refines(n, ctx[..]) && (k.status == Kernels.Running ==> k.chain != [])
      invariant RunSoFar(k.cfg, m, es, i, n, done, k.status == Kernels.Running)
      invariant k.status == Kernels.Running ==> vm.perm == AfterTraps(old(vm.perm), vm.table.procmaps[..], done)
      invariant k.status != Kernels.Running ==>
        Opened(vm.table.procmaps[..], AfterTraps(old(vm.perm), vm.table.procmaps[..], done), vm.perm)
      decreases |es| - i
    {
      RunStep(k.cfg, m, es, i, n, done);
      ghost var next := CallStack.Step(k.cfg, n, es[i]);
      HandleOne(k, vm, ctx, es[i], n);
      AfterTrapsMore(old(vm.perm), vm.table.procmaps[..], done, AreaAfter(es[i], next));
      n, done := next, done + AreaAfter(es[i], next);
      i := i + 1;
    }
    RunDone(k.cfg, m, es, i, n, done, k.status == Kernels.Running);
  }

  /** One event. */
  method HandleOne(k: Kernels.Kernel, vm: Vm, ctx: array<u64>, e: CallStack.Event, ghost m: CallStack.Machine)
    requires ctx.Length == Registers.NREG && ctx as object != k.ram
    requires vm.table.procmaps as object != ctx && vm.table.procmaps as object != k.ram
    requires k.status == Kernels.Running && k.chain != [] && k.Refines(m, ctx[..])
    modifies k, k.pool, ctx, k.ram, vm
    ensures var n := CallStack.Step(k.cfg, m, e);
      && k.Refines(n, ctx[..])
      && (k.status == Kernels.Running ==>
            && k.chain != [] && n.Live?
            && vm.perm == AfterTraps(old(vm.perm), vm.table.procmaps[..], AreaAfter(e, n)))
      && (k.status != Kernels.Running ==> Opened(vm.table.procmaps[..], old(vm.perm), vm.perm))
  {
    match e {
      case User(regs, after) =>
        k.UserStep(ctx, regs, after, m);
      case Trap(opcode, argv0, other) =>
        SigHnd(k, vm, ctx, opcode, argv0, other, m);
    }
  }

  /** After `i` events the machine is `n` and the traps have ended with the processes `done`. */
  ghost predicate RunSoFar(cfg: CallStack.Config, m: CallStack.Machine, es: seq<CallStack.Event>, i: nat,
                           n: CallStack.Machine, done: seq<Area>, running: bool) {
    && i <= |es| && (running <==> n.Live?)
    && CallStack.Steps(cfg, m, es) == CallStack.Steps(cfg, n, es[i..])
    && TrapAreas(cfg, m, es) == done + TrapAreas(cfg, n, es[i..])
  }

  lemma RunStep(cfg: CallStack.Config, m: CallStack.Machine, es: seq<CallStack.Event>, i: nat, n: CallStack.Machine,
                done: seq<Area>)
    requires i < |es| && RunSoFar(cfg, m, es, i, n, done, true)
    ensures var next := CallStack.Step(cfg, n, es[i]);
      RunSoFar(cfg, m, es, i + 1, next, done + AreaAfter(es[i], next), next.Live?)
  {
    assert es[i..][0] == es[i] && es[i..][1..] == es[i + 1..];
    var next := CallStack.Step(cfg, n, es[i]);
    Regroup(done, AreaAfter(es[i], next), TrapAreas(cfg, next, es[i + 1..]));
  }

  lemma Regroup(p: seq<Area>, q: seq<Area>, r: seq<Area>)
    ensures (p + q) + r == p + (q + r)
  {
  }

  lemma RunDone(cfg: CallStack.Config, m: CallStack.Machine, es: seq<CallStack.Event>, i: nat, n: CallStack.Machine,
                done: seq<Area>, running: bool)
    requires RunSoFar(cfg, m, es, i, n, done, running) && (i == |es| || !running)
    ensures CallStack.Steps(cfg, m, es) == n && TrapAreas(cfg, m, es) == done
  {
    if !running {
      NestedCalls.DeadStays(cfg, n, es[i..]);
    }
    assert done + [] == done;
  }

  // ----- what the pages are after a run

  /** The regions of the newest process are whole pages inside the memory hole. */
  lemma CurrentWithin(cfg: CallStack.Config, slots: nat, m: CallStack.Machine)
    requires cfg.Ok() && cfg.mem % Bits.PAGE == 0 && m.Live? && m.frames != [] && CallStack.Inv(cfg, slots, m)
    ensures var cur := AreaOf(m.frames[0]);
      Within(cur, Hole(cfg.mem, cfg.End())) && cur.load % Bits.PAGE == 0 && cur.stack % Bits.PAGE == 0
  {
    CallStack.TopAboveMem(cfg, m.frames[1..], m.frames[0].load);
    NestedCalls.TiledAligned(cfg, m.frames, m.top);
    NestedCalls.TiledAligned(cfg, m.frames[1..], m.frames[0].load);
  }

  /** So are those of every process a trap of the run ends with. */
  lemma {:induction false} AreasWithin(cfg: CallStack.Config, slots: nat, m: CallStack.Machine, es: seq<CallStack.Event>)
    requires cfg.Ok() && cfg.mem % Bits.PAGE == 0 && m.Live? && m.frames != [] && CallStack.Inv(cfg, slots, m)
    ensures forall c | c in TrapAreas(cfg, m, es) :: Within(c, Hole(cfg.mem, cfg.End()))
    decreases |es|
  {
    if es != [] {
      CallStack.StepInv(cfg, slots, m, es[0]);
      var n := CallStack.Step(cfg, m, es[0]);
      if n.Live? {
        CurrentWithin(cfg, slots, n);
        AreasWithin(cfg, slots, n, es[1..]);
      }
    }
  }

  /** Without a trap the process stays the same. */
  lemma {:induction false} NoTrap(cfg: CallStack.Config, slots: nat, m: CallStack.Machine, es: seq<CallStack.Event>)
    requires cfg.Ok() && m.Live? && m.frames != [] && CallStack.Inv(cfg, slots, m)
    requires CallStack.Steps(cfg, m, es).Live? && TrapAreas(cfg, m, es) == []
    ensures CallStack.Steps(cfg, m, es).frames == m.frames
    decreases |es|
  {
    if es != [] {
      var n := CallStack.Step(cfg, m, es[0]);
      CallStack.StepInv(cfg, slots, m, es[0]);
      if !n.Live? {
        NestedCalls.DeadStays(cfg, n, es[1..]);
      } else {
        NoTrap(cfg, slots, n, es[1..]);
      }
    }
  }

  /** The last trap locked for the process that is current now. */
  lemma {:induction false} LastArea(cfg: CallStack.Config, slots: nat, m: CallStack.Machine, es: seq<CallStack.Event>)
    requires cfg.Ok() && m.Live? && m.frames != [] && CallStack.Inv(cfg, slots, m)
    requires CallStack.Steps(cfg, m, es).Live? && TrapAreas(cfg, m, es) != []
    ensures CallStack.Steps(cfg, m, es).frames != []
    ensures var curs := TrapAreas(cfg, m, es); curs[|curs| - 1] == AreaOf(CallStack.Steps(cfg, m, es).frames[0])
    decreases |es|
  {
    var n := CallStack.Step(cfg, m, es[0]);
    CallStack.StepInv(cfg, slots, m, es[0]);
    if !n.Live? {
      NestedCalls.DeadStays(cfg, n, es[1..]);
    } else if TrapAreas(cfg, n, es[1..]) == [] {
      NoTrap(cfg, slots, n, es[1..]);
    } else {
      LastArea(cfg, slots, n, es[1..]);
    }
  }

  /** The memory hole is one of the holes, and the table is the one `host_vm_init` leaves. */
  ghost predicate Mapped(cfg: CallStack.Config, es: seq<Entry>, maps: seq<Mapping>, holes: seq<Hole>) {
    && cfg.Ok() && cfg.mem % Bits.PAGE == 0 && Hole(cfg.mem, cfg.End()) in holes
    && Checked(maps, holes) && AllClear(maps, holes) && PageAligned(maps, holes) && TableOf(es, maps, holes)
  }

  /** After every trap of a booted kernel that comes back: each page in the table is locked, the other
      holes are as they were at the start, and the program and the stack of the process that runs
      are open. */
  lemma TrapsProtect(cfg: CallStack.Config, slots: nat, regs: Registers.Regs, cells: map<int, int>, name: Str, argv: int,
                     events: seq<CallStack.Event>, perm: Pages, es: seq<Entry>, maps: seq<Mapping>, holes: seq<Hole>, a: nat)
    requires Mapped(cfg, es, maps, holes) && a in perm
    requires CallStack.RunFirst(cfg, CallStack.Boot(cfg, slots, regs, cells), name, argv).ret == 0
    requires var m := CallStack.RunFirst(cfg, CallStack.Boot(cfg, slots, regs, cells), name, argv).m;
      m.Live? && CallStack.Steps(cfg, m, events).Live? && TrapAreas(cfg, m, events) != []
    ensures var m := CallStack.RunFirst(cfg, CallStack.Boot(cfg, slots, regs, cells), name, argv).m;
      var n := CallStack.Steps(cfg, m, events);
      var after := AfterTraps(perm, es, TrapAreas(cfg, m, events));
      n.frames != [] && Guarded(cfg, es, holes, AreaOf(n.frames[0]), perm, after, a)
  {
    var m := CallStack.RunFirst(cfg, CallStack.Boot(cfg, slots, regs, cells), name, argv).m;
    CallStack.BootInv(cfg, slots, regs, cells, name, argv);
    RunProtects(cfg, slots, m, events, perm, es, maps, holes, a);
  }

  /** What the permission of the page `a` is, when it was `perm[a]` at the start. */
  ghost predicate Guarded(cfg: CallStack.Config, es: seq<Entry>, holes: seq<Hole>, cur: Area, perm: Pages, after: Pages,
                          a: nat)
    requires a in perm && a in after
  {
    && (InTable(es, a) ==> after[a] == 0)
    && (InHole(holes, a) && !(cfg.mem <= a < cfg.End()) ==> after[a] == perm[a])
    && (cur.stack <= a < cur.stack + cur.stacksz ==> after[a] == 3)
    && (cur.load <= a < cur.load + cur.loadsz && !(cur.stack <= a < cur.stack + cur.stacksz) ==>
          after[a] == 7)
  }

  lemma LastOf(curs: seq<Area>)
    requires curs != []
    ensures curs[..|curs| - 1] + [curs[|curs| - 1]] == curs
  {
  }

  lemma RunProtects(cfg: CallStack.Config, slots: nat, m: CallStack.Machine, events: seq<CallStack.Event>,
                    perm: Pages, es: seq<Entry>, maps: seq<Mapping>, holes: seq<Hole>, a: nat)
    requires Mapped(cfg, es, maps, holes) && a in perm
    requires m.Live? && m.frames != [] && CallStack.Inv(cfg, slots, m)
    requires CallStack.Steps(cfg, m, events).Live? && TrapAreas(cfg, m, events) != []
    ensures var n := CallStack.Steps(cfg, m, events);
      n.frames != [] && Guarded(cfg, es, holes, AreaOf(n.frames[0]), perm, AfterTraps(perm, es, TrapAreas(cfg, m, events)), a)
  {
    var n, curs, mem := CallStack.Steps(cfg, m, events), TrapAreas(cfg, m, events), Hole(cfg.mem, cfg.End());
    CallStack.StepsInv(cfg, slots, m, events);
    AreasWithin(cfg, slots, m, events);
    LastArea(cfg, slots, m, events);
    CurrentWithin(cfg, slots, n);
    TrapsKeepHandler(perm, es, maps, holes, mem, curs, a);
    var front, cur := curs[..|curs| - 1], AreaOf(n.frames[0]);
    LastOf(curs);
    AfterTrapsStep(perm, es, front, cur);
    CurrentOpen(AfterProt(AfterTraps(perm, es, front), es, true, cur), es, cur, a);
  }

  // ----- from the start

  /** What the host gives the kernel: page-aligned memory as one of the holes, and mappings the
      table can be made of. */
  ghost predicate Suitable(cfg: CallStack.Config, lines: seq<Line>, holes: seq<Hole>) {
    var maps := Effective(lines);
    && cfg.Ok() && cfg.mem % Bits.PAGE == 0 && Hole(cfg.mem, cfg.End()) in holes
    && Checked(maps, holes) && AllClear(maps, holes) && PageAligned(maps, holes)
  }

  /** The machine after `run_first` of the shell. */
  function Booted(cfg: CallStack.Config, slots: nat, regs: Registers.Regs, cells: map<int, int>, argv: int): CallStack.Outcome {
    CallStack.RunFirst(cfg, CallStack.Boot(cfg, slots, regs, cells), Kernels.SHELL, argv)
  }

  /** And after what happens then: a shell that cannot be started is a panic. */
  function Ran(cfg: CallStack.Config, o: CallStack.Outcome, events: seq<CallStack.Event>): CallStack.Machine {
    if o.m.Live? && o.ret != 0 then CallStack.Halted else CallStack.Steps(cfg, o.m, events)
  }

  /** `kernel_start` with every trap in the handler that locks; `o` is what starting the shell comes
      to. Nothing is locked before the first trap. */
  method KernelStart(k: Kernels.Kernel, vm: Vm, ctx: array<u64>, argv: int, events: seq<CallStack.Event>, ghost slots: nat)
    returns (ghost o: CallStack.Outcome)
    requires ctx.Length == Registers.NREG && ctx as object != k.ram && k.cfg.Ok()
    requires vm.table.procmaps as object != ctx && vm.table.procmaps as object != k.ram
    requires k.status == Kernels.Running && k.chain == []
    requires k.Refines(CallStack.Boot(k.cfg, slots, ctx[..], k.cells), ctx[..])
    modifies k, k.pool, ctx, k.ram, vm
    ensures o == Booted(k.cfg, slots, old(ctx[..]), old(k.cells), argv)
    ensures k.Refines(Ran(k.cfg, o, events), ctx[..])
    ensures k.status == Kernels.Running ==>
      && o.m.Live? && o.m.frames != [] && CallStack.Inv(k.cfg, slots, o.m) && CallStack.Steps(k.cfg, o.m, events).Live?
      && vm.perm == AfterTraps(old(vm.perm), vm.table.procmaps[..], TrapAreas(k.cfg, o.m, events))
    ensures k.status != Kernels.Running ==>
      if o.m.Live? && o.ret == 0
      then Opened(vm.table.procmaps[..], AfterTraps(old(vm.perm), vm.table.procmaps[..], TrapAreas(k.cfg, o.m, events)), vm.perm)
      else vm.perm == old(vm.perm)
  {
    o := Booted(k.cfg, slots, ctx[..], k.cells, argv);
    CallStack.BootInv(k.cfg, slots, ctx[..], k.cells, Kernels.SHELL, argv);
    var r := k.RunFirst(ctx, Kernels.SHELL, argv, CallStack.Boot(k.cfg, slots, ctx[..], k.cells));
    if k.status != Kernels.Running {
      NestedCalls.DeadStays(k.cfg, o.m, events);
      return;
    }
    if r != 0 {
      k.status := Kernels.Stopped;
      return;
    }
    HandleProtected(k, vm, ctx, events, o.m);
  }

  /** The whole host: the mappings are recorded, the shell is started, and what happens is handled.
      `kept` is false when the table was too small, which is only reported. If the kernel still runs
      after a trap, every page is as it should be. */
  method Start(k: Kernels.Kernel, vm: Vm, ctx: array<u64>, lines: seq<Line>, holes: seq<Hole>, argv: int,
               events: seq<CallStack.Event>, ghost slots: nat)
    returns (halted: bool, kept: bool, ghost o: CallStack.Outcome)
    requires ctx.Length == Registers.NREG && ctx as object != k.ram && k.cfg.Ok()
    requires vm.table.procmaps as object != ctx && vm.table.procmaps as object != k.ram && vm.table.Holds([])
    requires k.status == Kernels.Running && k.chain == []
    requires k.Refines(CallStack.Boot(k.cfg, slots, ctx[..], k.cells), ctx[..])
    modifies k, k.pool, ctx, k.ram, vm, vm.table, vm.table.procmaps
    ensures halted <==> !AllAsserted(Effective(lines), holes)
    ensures !halted ==> o == Booted(k.cfg, slots, old(ctx[..]), old(k.cells), argv)
    ensures !halted ==> k.Refines(Ran(k.cfg, o, events), ctx[..])
    ensures !halted && kept ==> TableOf(vm.table.procmaps[..], Effective(lines), holes)
    ensures !halted && kept && k.status == Kernels.Running && Suitable(k.cfg, lines, holes) ==>
      AllGuarded(k.cfg, o.m, events, vm.table.procmaps[..], holes, old(vm.perm), vm.perm)
  {
    ghost var perm := vm.perm;
    halted, kept := vm.table.HostVmInit(lines, holes);
    if halted {
      o := CallStack.Outcome(CallStack.Halted, 0);
      return;
    }
    o := KernelStart(k, vm, ctx, argv, events, slots);
    if kept && k.status == Kernels.Running && Suitable(k.cfg, lines, holes) {
      GuardedFrom(k.cfg, slots, o.m, events, perm, vm.table.procmaps[..], lines, holes);
    }
  }

  /** Once a trap has come back, every page is as `Guarded` says for the process that then runs. */
  ghost predicate AllGuarded(cfg: CallStack.Config, m: CallStack.Machine, events: seq<CallStack.Event>,
                             es: seq<Entry>, holes: seq<Hole>, perm: Pages, after: Pages) {
    TrapAreas(cfg, m, events) != [] ==>
      var n := CallStack.Steps(cfg, m, events);
      && n.Live? && n.frames != [] && after.Keys == perm.Keys
      && forall a | a in perm :: Guarded(cfg, es, holes, AreaOf(n.frames[0]), perm, after, a)
  }

  lemma GuardedFrom(cfg: CallStack.Config, slots: nat, m: CallStack.Machine, events: seq<CallStack.Event>,
                    perm: Pages, es: seq<Entry>, lines: seq<Line>, holes: seq<Hole>)
    requires Suitable(cfg, lines, holes) && TableOf(es, Effective(lines), holes)
    requires m.Live? && m.frames != [] && CallStack.Inv(cfg, slots, m) && CallStack.Steps(cfg, m, events).Live?
    ensures AllGuarded(cfg, m, events, es, holes, perm, AfterTraps(perm, es, TrapAreas(cfg, m, events)))
  {
    if TrapAreas(cfg, m, events) != [] {
      CallStack.StepsInv(cfg, slots, m, events);
      forall a | a in perm
        ensures var n := CallStack.Steps(cfg, m, events);
          n.frames != [] && Guarded(cfg, es, holes, AreaOf(n.frames[0]), perm, AfterTraps(perm, es, TrapAreas(cfg, m, events)), a)
      {
        RunProtects(cfg, slots, m, events, perm, es, Effective(lines), holes, a);
      }
    }
  }
}
