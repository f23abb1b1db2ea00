/** The register file of a trapped process and the two copies `hosthal/ctx.c` makes of it. */
module Registers {
  import opened Bits
  import opened Bytes

  const NREG: nat := 23
  const R8: nat := 0
  const R9: nat := 1
  const R10: nat := 2
  const R11: nat := 3
  const RDI: nat := 8
  const RSI: nat := 9
  const RBP: nat := 10
  const RBX: nat := 11
  const RDX: nat := 12
  const RAX: nat := 13
  const RCX: nat := 14
  const RSP: nat := 15
  const RIP: nat := 16

  const ZERO_REGS: seq<u64> := [0, 0, 0, 0, 0, 0, 0, 0, 0, 0, 0, 0, 0, 0, 0, 0, 0, 0, 0, 0, 0, 0, 0]

  type Regs = r: seq<u64> | |r| == NREG witness ZERO_REGS

  /** A value as a 64-bit register holds it. */
  function Word(x: int): u64 {
    x % MOD64
  }

  function Set(r: Regs, i: nat, v: u64): Regs
    requires i < NREG
  {
    r[i := v]
  }

  /** The registers a new process starts with: the rest is its parent's. */
  function Entering(r: Regs, entry: int, stack: int, stacksz: int): Regs {
    r[RSP := Word(stack + stacksz - 16)][RBP := Word(stack + stacksz - 16)][RIP := Word(entry)]
  }

  /** `memcpy` of a whole register set. */
  method CopyRegs(to: array<u64>, from: Regs)
    requires to.Length == NREG
    modifies to
    ensures to[..] == from
  {
    var i := 0;
    while i < NREG
      invariant i <= NREG && to[..i] == from[..i]
    {
      to[i] := from[i];
      i := i + 1;
    }
    assert to[..] == to[..NREG];
  }

  /** The trapped registers go to the caller's save area, the new process's into the trap frame. */
  method CtxSave(ctx: array<u64>, entry: int, stack: int, stacksz: int) returns (save: Regs)
    requires ctx.Length == NREG
    modifies ctx
    ensures save == old(ctx[..])
    ensures ctx[..] == Entering(old(ctx[..]), entry, stack, stacksz)
  {
    save := ctx[..];
    ctx[RSP] := Word(stack + stacksz - 16);
    ctx[RBP] := ctx[RSP];
    ctx[RIP] := Word(entry);
  }

  method CtxRestore(ctx: array<u64>, save: Regs)
    requires ctx.Length == NREG
    modifies ctx
    ensures ctx[..] == save
  {
    CopyRegs(ctx, save);
  }
}
