/** Calling a function in an interrupted context: what `ctx_call_setup`, pushes and
    `ctx_call_end` leave on its stack, and how `tramptramp` uses it. */
module Trampoline {
  import opened Registers

  const WORD: int := 8

  /** The interrupted registers and the words of memory, by address. */
  datatype Cpu = Cpu(regs: seq<int>, mem: map<int, int>) {
    predicate Ok() {
      |regs| == NREG
    }

    function Reg(r: nat): int
      requires Ok() && r < NREG
    {
      regs[r]
    }
  }

  /** `struct context_call_save`. */
  datatype CallSave = CallSave(target: int, spBeforeArg: int)

  /** The registers `tramptramp` pushes, first to last. */
  const SAVED: seq<nat> := [RAX, RCX, RDX, RSI, R8, R9, R10, R11]

  // ----- steps

  function With(c: Cpu, r: nat, v: int): (d: Cpu)
    requires c.Ok() && r < NREG
    ensures d.Ok()
  {
    Cpu(c.regs[r := v], c.mem)
  }

  function Push(c: Cpu, v: int): (d: Cpu)
    requires c.Ok()
    ensures d.Ok()
  {
    var sp := c.Reg(RSP) - WORD;
    Cpu(c.regs[RSP := sp], c.mem[sp := v])
  }

  /** Push in order. */
  function PushAll(c: Cpu, vs: seq<int>): (d: Cpu)
    requires c.Ok()
    ensures d.Ok()
  {
    if vs == [] then c else Push(PushAll(c, vs[..|vs| - 1]), vs[|vs| - 1])
  }

  /** The interrupted context after setting up a call with the words `args`. */
  function Prepared(c: Cpu, entry: int, target: int, args: seq<int>): (d: Cpu)
    requires c.Ok()
    ensures d.Ok()
  {
    var s := With(Push(c, c.Reg(RIP)), RIP, entry);
    Push(Push(PushAll(s, args), s.Reg(RSP)), target)
  }

  /** The registers `rs` of `c`. */
  function Values(c: Cpu, rs: seq<nat>): seq<int>
    requires c.Ok() && forall i | 0 <= i < |rs| :: rs[i] < NREG
  {
    if rs == [] then [] else Values(c, rs[..|rs| - 1]) + [c.regs[rs[|rs| - 1]]]
  }

  /** `tramptramp` up to and including its call: `back` is the address after the call. */
  function Entered(c: Cpu, back: int): (d: Cpu)
    requires c.Ok() && c.Reg(RSP) in c.mem
    ensures d.Ok()
  {
    var s := PushAll(c, Values(c, SAVED));
    var t := With(s, RDI, s.Reg(RSP) + 80);
    With(Push(t, back), RIP, c.mem[c.Reg(RSP)])
  }

  /** The frame `tramptramp` needs back when its call returns: the pushed registers of `c`, the
      stack pointer to leave with, and under it the address to return to. */
  ghost predicate Frame(c: Cpu, mem: map<int, int>, sp: int)
    requires c.Ok()
  {
    && (forall i | 0 <= i < 8 :: Has(mem, Slot(sp, i), c.regs[SAVED[7 - i]]))
    && Has(mem, sp + 72, c.Reg(RSP) - WORD)
    && Has(mem, c.Reg(RSP) - WORD, c.Reg(RIP))
  }

  // ----- the program

  class Thread {
    var cpu: Cpu

    constructor (cpu: Cpu)
      ensures this.cpu == cpu
    {
      this.cpu := cpu;
    }

    method CtxPush(val: int)
      requires cpu.Ok()
      modifies this
      ensures cpu == Push(old(cpu), val)
    {
      cpu := Cpu(cpu.regs[RSP := cpu.regs[RSP] - WORD], cpu.mem);
      cpu := Cpu(cpu.regs, cpu.mem[cpu.regs[RSP] := val]);
    }

    method CtxCallSetup(tramptramp: int, tramp: int) returns (save: CallSave)
      requires cpu.Ok()
      modifies this
      ensures cpu == With(Push(old(cpu), old(cpu).Reg(RIP)), RIP, tramptramp)
      ensures save == CallSave(tramp, old(cpu).Reg(RSP) - WORD)
    {
      CtxPush(cpu.regs[RIP]);
      cpu := Cpu(cpu.regs[RIP := tramptramp], cpu.mem);
      save := CallSave(tramp, cpu.regs[RSP]);
    }

    method CtxCallEnd(save: CallSave)
      requires cpu.Ok()
      modifies this
      ensures cpu == Push(Push(old(cpu), save.spBeforeArg), save.target)
    {
      CtxPush(save.spBeforeArg);
      CtxPush(save.target);
    }

    /** A whole preparation. */
    method Prepare(tramptramp: int, tramp: int, args: seq<int>)
      requires cpu.Ok()
      modifies this
      ensures cpu == Prepared(old(cpu), tramptramp, tramp, args)
    {
      var save := CtxCallSetup(tramptramp, tramp);
      ghost var s := cpu;
      var i := 0;
      while i < |args|
        invariant i <= |args| && cpu.Ok() && cpu == PushAll(s, args[..i])
      {
        assert args[..i + 1][..i] == args[..i];
        CtxPush(args[i]);
        i := i + 1;
      }
      assert args[..i] == args;
      CtxCallEnd(save);
    }

    method PushRegs()
      requires cpu.Ok()
      modifies this
      ensures cpu == PushAll(old(cpu), Values(old(cpu), SAVED))
    {
      ghost var c := cpu;
      var i := 0;
      assert SAVED[..i] == [];
      while i < |SAVED|
        invariant i <= |SAVED| && Pushed(c, cpu, SAVED, i)
      {
        PushOne(c, cpu, SAVED, i);
        CtxPush(cpu.regs[SAVED[i]]);
        i := i + 1;
      }
      assert SAVED[..i] == SAVED;
    }

    /** `tramptramp` up to its call. */
    method TrampEnter(back: int)
      requires cpu.Ok() && cpu.Reg(RSP) in cpu.mem
      modifies this
      ensures cpu == Entered(old(cpu), back)
    {
      ghost var c := cpu;
      PushRegs();
      EightPushed(c);
      var target := cpu.mem[cpu.regs[RSP] + 64];
      cpu := Cpu(cpu.regs[RDI := cpu.regs[RSP] + 80], cpu.mem);
      CtxPush(back);
      cpu := Cpu(cpu.regs[RIP := target], cpu.mem);
    }

    /** `tramptramp` after its call has returned: eight pops, the stack pointer back to where the
        interrupted address is, and a return. The other registers stay as the callee left them. */
    method TrampLeave(ghost c: Cpu)
      requires c.Ok() && cpu.Ok() && Frame(c, cpu.mem, cpu.Reg(RSP))
      modifies this
      ensures cpu.Ok() && cpu.Reg(RIP) == c.Reg(RIP) && cpu.Reg(RSP) == c.Reg(RSP) && cpu.mem == old(cpu.mem)
      ensures forall r | r in SAVED :: cpu.regs[r] == c.regs[r]
      ensures forall r | 0 <= r < NREG && r !in SAVED && r != RIP && r != RSP :: cpu.regs[r] == old(cpu).regs[r]
    {
      ghost var sp := cpu.regs[RSP];
      ghost var first := cpu;
      var i := |SAVED|;
      while i > 0
        invariant 0 <= i <= |SAVED| && cpu.Ok() && cpu.mem == first.mem
        invariant cpu.regs[RSP] == sp + WORD * (|SAVED| - i)
        invariant forall j | i <= j < |SAVED| :: cpu.regs[SAVED[j]] == c.regs[SAVED[j]]
        invariant forall r | 0 <= r < NREG && r !in SAVED && r != RSP :: cpu.regs[r] == first.regs[r]
      {
        i := i - 1;
        var r, at := SAVED[i], cpu.regs[RSP];
        assert at == Slot(sp, 7 - i) && Has(cpu.mem, at, c.regs[SAVED[i]]);
        cpu := Cpu(cpu.regs[r := cpu.mem[at]][RSP := at + WORD], cpu.mem);
      }
      assert cpu.regs[RSP] + 8 == sp + 72;
      cpu := Cpu(cpu.regs[RSP := cpu.mem[cpu.regs[RSP] + 8]], cpu.mem);
      cpu := Cpu(cpu.regs[RIP := cpu.mem[cpu.regs[RSP]]][RSP := cpu.regs[RSP] + WORD], cpu.mem);
    }
  }

  // ----- what the stack looks like

  /** The address `i` words above `base`. */
  function Slot(base: int, i: int): int {
    base + WORD * i
  }

  predicate Has(mem: map<int, int>, a: int, v: int) {
    a in mem && mem[a] == v
  }

  /** Pushing moves the stack pointer and no other register. */
  lemma {:induction false} PushedRegs(c: Cpu, vs: seq<int>)
    requires c.Ok()
    ensures PushAll(c, vs).Reg(RSP) == c.Reg(RSP) - WORD * |vs|
    ensures forall r | 0 <= r < NREG && r != RSP :: PushAll(c, vs).regs[r] == c.regs[r]
  {
    if vs != [] {
      PushedRegs(c, vs[..|vs| - 1]);
    }
  }

  /** The first `i` of the registers `rs` have been pushed. */
  ghost predicate Pushed(c: Cpu, d: Cpu, rs: seq<nat>, i: nat) {
    && c.Ok() && i <= |rs| && (forall k | 0 <= k < |rs| :: rs[k] < NREG && rs[k] != RSP)
    && d.Ok() && d == PushAll(c, Values(c, rs[..i]))
  }

  /** One more register of a list, which the pushes so far have not changed. */
  lemma PushOne(c: Cpu, d: Cpu, rs: seq<nat>, i: nat)
    requires Pushed(c, d, rs, i) && i < |rs|
    ensures Pushed(c, Push(d, d.regs[rs[i]]), rs, i + 1)
  {
    PushedRegs(c, Values(c, rs[..i]));
    var v, w := Values(c, rs[..i]), Values(c, rs[..i + 1]);
    assert rs[..i + 1][..i] == rs[..i];
    assert w == v + [c.regs[rs[i]]] && w[..|w| - 1] == v;
  }

  /** The words are below the old top, the first one highest. */
  lemma {:induction false} PushedWord(c: Cpu, vs: seq<int>, i: nat)
    requires c.Ok() && i < |vs|
    ensures Has(PushAll(c, vs).mem, Slot(c.Reg(RSP), -(i + 1)), vs[i])
  {
    var front := vs[..|vs| - 1];
    PushedRegs(c, front);
    if i < |front| {
      PushedWord(c, front, i);
    }
  }

  /** Nothing from the old top up changes. */
  lemma {:induction false} PushedAbove(c: Cpu, vs: seq<int>, a: int)
    requires c.Ok() && a in c.mem && a >= c.Reg(RSP)
    ensures Has(PushAll(c, vs).mem, a, c.mem[a])
  {
    if vs != [] {
      var front := vs[..|vs| - 1];
      PushedRegs(c, front);
      PushedAbove(c, front, a);
    }
  }

  lemma SavedValues(c: Cpu)
    requires c.Ok()
    ensures var v := Values(c, SAVED); |v| == 8 && forall i | 0 <= i < 8 :: v[i] == c.regs[SAVED[i]]
  {
    ValuesAt(c, SAVED);
  }

  lemma {:induction false} ValuesAt(c: Cpu, rs: seq<nat>)
    requires c.Ok() && forall i | 0 <= i < |rs| :: rs[i] < NREG
    ensures var v := Values(c, rs); |v| == |rs| && forall i | 0 <= i < |rs| :: v[i] == c.regs[rs[i]]
  {
    if rs != [] {
      ValuesAt(c, rs[..|rs| - 1]);
    }
  }

  /** The call target is 64 bytes above the eight pushed registers. */
  lemma EightPushed(c: Cpu)
    requires c.Ok() && c.Reg(RSP) in c.mem
    ensures var d := PushAll(c, Values(c, SAVED));
      d.Reg(RSP) + 64 == c.Reg(RSP) && c.Reg(RSP) in d.mem && d.mem[c.Reg(RSP)] == c.mem[c.Reg(RSP)]
  {
    SavedValues(c);
    PushedRegs(c, Values(c, SAVED));
    PushedAbove(c, Values(c, SAVED), c.Reg(RSP));
  }

  /** The stack `ctx_call_end` leaves: the call target, where to put the stack pointer back, the
      words, and the interrupted address on the bottom. */
  lemma PreparedStack(c: Cpu, entry: int, target: int, args: seq<int>)
    requires c.Ok()
    ensures var p, top := Prepared(c, entry, target, args), c.Reg(RSP) - WORD;
      var sp := p.Reg(RSP);
      && sp == Slot(top, -(|args| + 2)) && p.Reg(RIP) == entry
      && (forall r | 0 <= r < NREG && r != RSP && r != RIP :: p.regs[r] == c.regs[r])
      && Has(p.mem, sp, target) && Has(p.mem, sp + 8, top) && Has(p.mem, top, c.Reg(RIP))
  {
    var s := With(Push(c, c.Reg(RIP)), RIP, entry);
    PushedRegs(s, args);
    PushedAbove(s, args, c.Reg(RSP) - WORD);
  }

  lemma PreparedWord(c: Cpu, entry: int, target: int, args: seq<int>, i: nat)
    requires c.Ok() && i < |args|
    ensures Has(Prepared(c, entry, target, args).mem, Slot(c.Reg(RSP) - WORD, -(i + 1)), args[i])
  {
    var s := With(Push(c, c.Reg(RIP)), RIP, entry);
    PushedRegs(s, args);
    PushedWord(s, args, i);
  }

  /** The stack at the callee's entry: its return address, and the pushed registers above. */
  lemma EnteredStack(p: Cpu, back: int)
    requires p.Ok() && p.Reg(RSP) in p.mem
    ensures var d, sp := Entered(p, back), p.Reg(RSP) - 64;
      && d.Reg(RSP) == sp - WORD && Has(d.mem, d.Reg(RSP), back)
      && d.Reg(RDI) == sp + 80 && d.Reg(RIP) == p.mem[p.Reg(RSP)]
      && forall r | 0 <= r < NREG && r !in {RIP, RSP, RDI} :: d.regs[r] == p.regs[r]
  {
    SavedValues(p);
    PushedRegs(p, Values(p, SAVED));
  }

  lemma EnteredWord(p: Cpu, back: int, i: nat)
    requires p.Ok() && p.Reg(RSP) in p.mem && i < 8
    ensures Has(Entered(p, back).mem, Slot(p.Reg(RSP) - 64, i), p.regs[SAVED[7 - i]])
  {
    SavedValues(p);
    var v := Values(p, SAVED);
    PushedRegs(p, v);
    PushedWord(p, v, 7 - i);
    assert Slot(p.Reg(RSP), -((7 - i) + 1)) == Slot(p.Reg(RSP) - 64, i);
  }

  lemma EnteredAbove(p: Cpu, back: int, a: int)
    requires p.Ok() && p.Reg(RSP) in p.mem && a in p.mem && a >= p.Reg(RSP)
    ensures Has(Entered(p, back).mem, a, p.mem[a])
  {
    SavedValues(p);
    PushedRegs(p, Values(p, SAVED));
    PushedAbove(p, Values(p, SAVED), a);
  }

  /** However many words were pushed, the callee is the target, and gets a pointer to the last of
      them; above them all is the interrupted address. */
  lemma CalleeSees(c: Cpu, entry: int, target: int, args: seq<int>, back: int)
    requires c.Ok()
    ensures var p := Prepared(c, entry, target, args);
      p.Reg(RSP) in p.mem && p.Reg(RIP) == entry &&
      var d := Entered(p, back);
      && d.Reg(RIP) == target && Has(d.mem, d.Reg(RSP), back)
      && (forall r | 0 <= r < NREG && r !in {RIP, RSP, RDI} :: d.regs[r] == c.regs[r])
      && d.Reg(RSP) + WORD == c.Reg(RSP) - WORD * (|args| + 11)
      && Slot(d.Reg(RDI), |args|) == c.Reg(RSP) - WORD
  {
    PreparedStack(c, entry, target, args);
    EnteredStack(Prepared(c, entry, target, args), back);
  }

  /** The words are at the pointer, the last pushed first. */
  lemma CalleeWord(c: Cpu, entry: int, target: int, args: seq<int>, back: int, j: nat)
    requires c.Ok() && j < |args|
    ensures var p := Prepared(c, entry, target, args);
      p.Reg(RSP) in p.mem && Has(Entered(p, back).mem, Slot(Entered(p, back).Reg(RDI), j), args[|args| - 1 - j])
  {
    CalleeSees(c, entry, target, args, back);
    PreparedStack(c, entry, target, args);
    var p, i := Prepared(c, entry, target, args), |args| - 1 - j;
    PreparedWord(c, entry, target, args, i);
    EnteredStack(p, back);
    var a := Slot(c.Reg(RSP) - WORD, -(i + 1));
    assert a == Slot(Entered(p, back).Reg(RDI), j);
    EnteredAbove(p, back, a);
  }

  /** At the callee's entry the frame of the interrupted context is in place. */
  lemma CalleeFrame(c: Cpu, entry: int, target: int, args: seq<int>, back: int)
    requires c.Ok()
    ensures var p := Prepared(c, entry, target, args);
      p.Reg(RSP) in p.mem && Frame(c, Entered(p, back).mem, Entered(p, back).Reg(RSP) + WORD)
  {
    PreparedStack(c, entry, target, args);
    var p := Prepared(c, entry, target, args);
    EnteredStack(p, back);
    EnteredAbove(p, back, p.Reg(RSP) + 8);
    EnteredAbove(p, back, c.Reg(RSP) - WORD);
    var sp := p.Reg(RSP) - 64;
    forall i | 0 <= i < 8
      ensures Has(Entered(p, back).mem, Slot(sp, i), c.regs[SAVED[7 - i]])
    {
      EnteredWord(p, back, i);
      SavedOther(7 - i);
    }
  }

  lemma SavedOther(i: nat)
    requires i < 8
    ensures SAVED[i] < NREG && SAVED[i] != RSP && SAVED[i] != RIP
  {
  }

  /** Whatever the callee does to registers and memory, if it returns with its stack pointer and
      leaves the frame alone, the interrupted context goes on where it was, with the eight
      registers it had; `tramptramp` gives nothing else back. */
  method CallAndReturn(t: Thread, entry: int, target: int, args: seq<int>, back: int, after: Cpu)
    requires t.cpu.Ok() && after.Ok()
    requires after.Reg(RSP) == t.cpu.Reg(RSP) - WORD * (|args| + 11) && Frame(t.cpu, after.mem, after.Reg(RSP))
    modifies t
    ensures t.cpu.Ok() && t.cpu.Reg(RIP) == old(t.cpu).Reg(RIP) && t.cpu.Reg(RSP) == old(t.cpu).Reg(RSP)
    ensures forall r | r in {RAX, RCX, RDX, RSI, R8, R9, R10, R11} :: t.cpu.regs[r] == old(t.cpu).regs[r]
    ensures forall r | 0 <= r < NREG && r !in {RAX, RCX, RDX, RSI, R8, R9, R10, R11, RIP, RSP} :: t.cpu.regs[r] == after.regs[r]
    ensures t.cpu.mem == after.mem
  {
    ghost var c := t.cpu;
    CalleeSees(c, entry, target, args, back);
    CalleeFrame(c, entry, target, args, back);
    t.Prepare(entry, target, args);
    t.TrampEnter(back);
    assert t.cpu.Reg(RSP) + WORD == after.Reg(RSP);
    t.cpu := after;
    t.TrampLeave(c);
  }
}
