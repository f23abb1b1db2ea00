/** Runs of the kernel behave like nested calls, whatever happens in between. */
module NestedCalls {
  import opened Bits
  import opened Bytes
  import opened Registers
  import opened CallStack

  /** The `d` oldest frames. */
  ghost function Oldest(m: Machine, d: nat): seq<Frame>
    requires m.Live? && d <= |m.frames|
  {
    m.frames[|m.frames| - d..]
  }

  /** The trap `e` is an `os_run` that starts a child. */
  ghost predicate Starts(cfg: Config, m: Machine, e: Event) {
    m.Live? && e.Trap? && Step(cfg, m, e).Live? && |Step(cfg, m, e).frames| == |m.frames| + 1
  }

  /** All along the run the machine is live and has at least `d` frames. */
  ghost predicate StaysAbove(cfg: Config, m: Machine, es: seq<Event>, d: nat)
    decreases |es|
  {
    m.Live? && |m.frames| >= d && (es != [] ==> StaysAbove(cfg, Step(cfg, m, es[0]), es[1..], d))
  }

  /** A step pushes one frame, pops one, or leaves the frames; slots are neither made nor lost. */
  lemma StepShape(cfg: Config, m: Machine, e: Event)
    requires m.Live? && m.frames != [] && Step(cfg, m, e).Live?
    ensures var n := Step(cfg, m, e);
      && ((|n.frames| > 0 && n.frames[1..] == m.frames) || n.frames == m.frames[1..] || n.frames == m.frames)
      && n.avail + |n.frames| == m.avail + |m.frames|
  {
  }

  lemma StepKeepsOldest(cfg: Config, m: Machine, e: Event, d: nat)
    requires m.Live? && Step(cfg, m, e).Live?
    requires 0 < d <= |m.frames| && d <= |Step(cfg, m, e).frames|
    ensures Oldest(Step(cfg, m, e), d) == Oldest(m, d)
    ensures Step(cfg, m, e).avail + |Step(cfg, m, e).frames| == m.avail + |m.frames|
  {
    StepShape(cfg, m, e);
  }

  lemma {:induction false} RunKeepsOldest(cfg: Config, m: Machine, es: seq<Event>, d: nat)
    requires d > 0 && StaysAbove(cfg, m, es, d)
    ensures var n := Steps(cfg, m, es);
      && n.Live? && |n.frames| >= d && Oldest(n, d) == Oldest(m, d)
      && n.avail + |n.frames| == m.avail + |m.frames|
    decreases |es|
  {
    if es != [] {
      StepKeepsOldest(cfg, m, es[0], d);
      RunKeepsOldest(cfg, Step(cfg, m, es[0]), es[1..], d);
    }
  }

  /** What a successful `os_run` does to the machine. */
  lemma StartedFrame(cfg: Config, m: Machine, e: Event)
    requires Starts(cfg, m, e)
    ensures ToInt32(m.regs[RAX]) == SYS_RUN && e.opcode == INT_0X81
    ensures var n := Step(cfg, m, e);
      && n.frames == [n.frames[0]] + m.frames && n.avail == m.avail - 1
      && n.frames[0].resume == Advanced(m).regs && n.frames[0].freemark == m.top && n.frames[0].code == m.regs[RCX]
  {
  }

  /** The child starts at its entry point, inside its own program, with its stack pointer sixteen
      below the end of its own stack; the other registers are its parent's, but for a zero RAX.
      Its frame keeps what `os_run` was given. */
  lemma ChildStarts(cfg: Config, slots: nat, m: Machine, e: Event)
    requires cfg.Ok() && Starts(cfg, m, e) && Inv(cfg, slots, m) && m.frames != []
    ensures var n := Step(cfg, m, e);
      var f := n.frames[0];
      && f.load == m.top && f.stack + f.stacksz == n.top <= cfg.End() && f.argv == m.regs[RBX] && f.code == m.regs[RCX]
      && f.load <= n.regs[RIP] < f.load + f.loadsz
      && n.regs[RSP] == n.regs[RBP] == n.top - 16
      && n.regs[RAX] == 0
      && forall r | 0 <= r < NREG && r !in {RIP, RSP, RBP, RAX} :: n.regs[r] == m.regs[r]
  {
    TopAboveMem(cfg, m.frames, m.top);
    LoadedRegion(cfg, m.top, e.argv0.value);
    StartedMachine(cfg, m, e);
    var l := Load(cfg, m.top, e.argv0.value);
    ChildRegs(m.regs, l.entry, m.top + l.size);
  }

  /** A call that starts a child found its program and had room for it. */
  lemma StartedLoad(cfg: Config, m: Machine, e: Event)
    requires Starts(cfg, m, e)
    ensures ToInt32(m.regs[RAX]) == SYS_RUN && e.opcode == INT_0X81 && e.argv0.Some? && m.avail != 0
    ensures var l := Load(cfg, m.top, e.argv0.value); l.Loaded? && cfg.End() - (m.top + l.size) >= STACKSZ
  {
  }

  lemma StartedMachine(cfg: Config, m: Machine, e: Event)
    requires Starts(cfg, m, e)
    ensures e.argv0.Some? && Load(cfg, m.top, e.argv0.value).Loaded?
    ensures var l := Load(cfg, m.top, e.argv0.value);
      && cfg.End() - (m.top + l.size) >= STACKSZ
      && Step(cfg, m, e) == Push(m, Child(Advanced(m), l.size, m.regs[RBX], m.regs[RCX]), ChildFirst(m.regs, l.entry, m.top + l.size))
  {
    StartedLoad(cfg, m, e);
    RunMachine(cfg, m, e.argv0.value, m.regs[RBX], m.regs[RCX], Load(cfg, m.top, e.argv0.value));
  }

  lemma RunMachine(cfg: Config, m: Machine, name: Str, argv: int, code: int, l: Loading)
    requires m.Live? && l.Loaded? && cfg.End() - (m.top + l.size) >= STACKSZ
    ensures Returning(AfterLoad(cfg, Advanced(m), l, argv, code)) ==
      Push(m, Child(Advanced(m), l.size, argv, code), ChildFirst(m.regs, l.entry, m.top + l.size))
  {
  }

  /** The registers of a process that has just been started. */
  function ChildFirst(regs: Regs, entry: int, stack: int): Regs {
    Set(Entering(Set(regs, RIP, Word(regs[RIP] as int + 2)), entry, stack, STACKSZ), RAX, 0)
  }

  lemma ChildRegs(regs: Regs, entry: int, stack: int)
    requires 0 <= entry < MOD64 && 16 <= stack + STACKSZ < MOD64 + 16
    ensures var n := ChildFirst(regs, entry, stack);
      && n[RIP] == entry && n[RSP] == n[RBP] == stack + STACKSZ - 16 && n[RAX] == 0
      && forall r | 0 <= r < NREG && r !in {RIP, RSP, RBP, RAX} :: n[r] == regs[r]
  {
  }

  /** A process that is not the first gives way to its caller exactly when it calls `os_exit`,
      which it can at any time. */
  lemma ExitReturnsIff(cfg: Config, m: Machine, e: Event)
    requires m.Live? && |m.frames| > 1
    ensures Step(cfg, m, e).Live? && |Step(cfg, m, e).frames| == |m.frames| - 1 <==>
      e.Trap? && e.opcode == INT_0X81 && ToInt32(m.regs[RAX]) == SYS_EXIT
  {
  }

  /** A step that removes a frame is an `os_exit` of the newest process. */
  lemma EndedFrame(cfg: Config, m: Machine, e: Event)
    requires m.Live? && m.frames != [] && Step(cfg, m, e).Live? && |Step(cfg, m, e).frames| == |m.frames| - 1
    ensures var n, f := Step(cfg, m, e), m.frames[0];
      && n.frames == m.frames[1..] && n.avail == m.avail + 1 && n.top == f.freemark
      && n.regs == Set(f.resume, RAX, 0)
      && n.cells == if f.code != 0 then m.cells[f.code := ToInt32(m.regs[RBX])] else m.cells
    ensures ToInt32(m.regs[RAX]) == SYS_EXIT
  {
  }

  /** Between a successful `os_run` and the exit that comes back to its depth, anything may
      happen above: the caller then goes on with the registers of its trap, RIP past the
      instruction and RAX zero, the exit value is where it asked for it, and the frames, the
      heap top and the number of available slots are as before the call. */
  lemma NestedCall(cfg: Config, m: Machine, call: Event, body: seq<Event>, ret: Event)
    requires m.Live? && m.frames != [] && Starts(cfg, m, call)
    requires StaysAbove(cfg, Step(cfg, m, call), body, |m.frames| + 1)
    requires var n := Steps(cfg, Step(cfg, m, call), body);
      n.Live? && Step(cfg, n, ret).Live? && |Step(cfg, n, ret).frames| == |m.frames|
    ensures var n := Steps(cfg, Step(cfg, m, call), body);
      var r := Step(cfg, n, ret);
      && r.frames == m.frames && r.top == m.top && r.avail == m.avail
      && r.regs == m.regs[RIP := Word(m.regs[RIP] as int + 2)][RAX := 0]
      && r.cells == if m.regs[RCX] != 0 then n.cells[m.regs[RCX] := ToInt32(n.regs[RBX])] else n.cells
  {
    var s := Step(cfg, m, call);
    var d := |m.frames| + 1;
    StartedFrame(cfg, m, call);
    RunKeepsOldest(cfg, s, body, d);
    var n := Steps(cfg, s, body);
    StepShape(cfg, n, ret);
    assert |n.frames| == d && n.frames == Oldest(n, d) == Oldest(s, d) == s.frames;
    EndedFrame(cfg, n, ret);
  }

  /** Once a child has been started, the caller runs again only through such a return: in every
      run that gets back to the caller's depth there is a first exit that does, and there the
      caller is resumed as `NestedCall` says. */
  lemma ReturnExists(cfg: Config, m: Machine, call: Event, es: seq<Event>) returns (k: nat)
    requires m.Live? && m.frames != [] && Starts(cfg, m, call)
    requires var n := Steps(cfg, Step(cfg, m, call), es); n.Live? && |n.frames| <= |m.frames|
    ensures k < |es| && StaysAbove(cfg, Step(cfg, m, call), es[..k], |m.frames| + 1)
    ensures var r := Step(cfg, Steps(cfg, Step(cfg, m, call), es[..k]), es[k]);
      && r.Live? && r.frames == m.frames && r.top == m.top && r.avail == m.avail
      && r.regs == m.regs[RIP := Word(m.regs[RIP] as int + 2)][RAX := 0]
  {
    var s := Step(cfg, m, call);
    StartedFrame(cfg, m, call);
    k := FirstDrop(cfg, s, es, |m.frames| + 1);
    NestedCall(cfg, m, call, es[..k], es[k]);
  }

  /** A run that starts at `d` frames or more and ends below has a first step that goes below. */
  lemma {:induction false} FirstDrop(cfg: Config, m: Machine, es: seq<Event>, d: nat) returns (k: nat)
    requires d > 1 && m.Live? && |m.frames| >= d
    requires var n := Steps(cfg, m, es); n.Live? && |n.frames| < d
    ensures k < |es| && StaysAbove(cfg, m, es[..k], d)
    ensures var n := Step(cfg, Steps(cfg, m, es[..k]), es[k]); n.Live? && |n.frames| == d - 1
    decreases |es|
  {
    var s := Step(cfg, m, es[0]);
    if !s.Live? {
      DeadStays(cfg, s, es[1..]);
    }
    StepShape(cfg, m, es[0]);
    if |s.frames| < d {
      k := 0;
    } else {
      k := FirstDrop(cfg, s, es[1..], d);
      k := k + 1;
      assert es[..k][0] == es[0] && es[..k][1..] == es[1..][..k - 1];
    }
  }

  lemma {:induction false} DeadStays(cfg: Config, m: Machine, es: seq<Event>)
    requires !m.Live?
    ensures Steps(cfg, m, es) == m
    decreases |es|
  {
    if es != [] {
      DeadStays(cfg, m, es[1..]);
    }
  }

  /** A call that fails leaves everything but the result and RIP as it was; it fails exactly when
      there is no program name, no slot, no acceptable executable, or no room for a stack. */
  lemma FailedCall(cfg: Config, m: Machine, e: Event)
    requires m.Live? && e.Trap? && e.opcode == INT_0X81 && ToInt32(m.regs[RAX]) == SYS_RUN
    requires Step(cfg, m, e).Live?
    ensures !Starts(cfg, m, e) <==>
      || e.argv0.None? || m.avail == 0 || Load(cfg, m.top, e.argv0.value).NotLoaded?
      || cfg.End() - (m.top + Load(cfg, m.top, e.argv0.value).size) < STACKSZ
    ensures !Starts(cfg, m, e) ==>
      Step(cfg, m, e) == Live(m.frames, m.top, m.avail, m.regs[RIP := Word(m.regs[RIP] as int + 2)][RAX := MOD32 - 1], m.cells)
  {
  }

  // ----- the other steps

  /** Every call but `os_run` and `os_exit` gives its caller the result, and that is all. */
  lemma OtherCall(cfg: Config, m: Machine, e: Event)
    requires m.Live? && e.Trap? && e.opcode == 0x81cd && m.regs[RAX] % 0x1_0000_0000 in {1, 3, 4}
    ensures Step(cfg, m, e) ==
      Live(m.frames, m.top, m.avail, m.regs[RIP := (m.regs[RIP] + 2) % MOD64][RAX := e.other % 0x1_0000_0000], m.cells)
  {
  }

  /** A trap that is not `int $0x81` changes nothing. */
  lemma ForeignTrap(cfg: Config, m: Machine, e: Event)
    requires m.Live? && e.Trap? && e.opcode != 0x81cd
    ensures Step(cfg, m, e) == m
  {
  }

  /** A process on its own changes nothing of the kernel's. */
  lemma UserAlone(cfg: Config, m: Machine, e: Event)
    requires m.Live? && e.User?
    ensures Step(cfg, m, e) == Live(m.frames, m.top, m.avail, e.regs, e.cells)
  {
  }

  /** The kernel halts exactly when the first process, alone, calls `os_exit`. */
  lemma HaltsIff(cfg: Config, m: Machine, e: Event)
    requires m.Live? && m.frames != []
    ensures Step(cfg, m, e).Halted? <==>
      e.Trap? && e.opcode == 0x81cd && m.regs[RAX] % 0x1_0000_0000 == 2 && |m.frames| == 1
  {
  }

  /** It crashes exactly when the call has no entry in the table, or is an `os_run` with a name and a
      slot whose program leads outside the archive or does not fit. */
  lemma FaultsIff(cfg: Config, m: Machine, e: Event)
    requires m.Live?
    ensures Step(cfg, m, e).Faulted? <==>
      && e.Trap? && e.opcode == 0x81cd
      && var nr := m.regs[RAX] % 0x1_0000_0000;
         nr >= 5 || (nr == 0 && e.argv0.Some? && m.avail != 0 && Load(cfg, m.top, e.argv0.value).BadAccess?)
  {
  }

  // ----- the first process

  /** The first process starts at its entry point, in its own program; its frame has the arguments it
      was given, nowhere for an exit code, and no mark. */
  lemma FirstStarts(cfg: Config, m: Machine, name: Str, argv: int, l: Loading)
    requires cfg.Ok() && m.Live? && m.frames == [] && m.top == cfg.mem && m.avail > 0
    requires l == Load(cfg, m.top, name) && l.Loaded? && cfg.End() - (m.top + l.size) >= 0x2000
    ensures var o := RunFirst(cfg, m, name, argv);
      && o.ret == 0
      && o.m == Live([Frame(0, cfg.mem, l.size, cfg.mem + l.size, 0x2000, argv, 0, ZERO_REGS)],
                     cfg.mem + l.size + 0x2000, m.avail - 1, EntryRegs(m.regs, l.entry), m.cells)
    ensures cfg.mem <= l.entry < cfg.mem + l.size
    ensures EntryRegs(m.regs, l.entry) == m.regs[RIP := l.entry]
  {
    LoadedRegion(cfg, m.top, name);
    FirstMachine(cfg, m, argv, l);
    EntryWord(cfg, l);
  }

  function EntryRegs(regs: Regs, entry: int): Regs {
    Set(regs, RIP, Word(entry))
  }

  lemma EntryWord(cfg: Config, l: Loading)
    requires cfg.Ok() && l.Loaded? && cfg.mem <= l.entry < cfg.End()
    ensures Word(l.entry) == l.entry
  {
  }

  lemma FirstMachine(cfg: Config, m: Machine, argv: int, l: Loading)
    requires m.Live? && m.frames == [] && l.Loaded? && cfg.End() - (m.top + l.size) >= 0x2000
    ensures AfterFirstLoad(cfg, m, l, argv) == Outcome(
        Live([Frame(0, m.top, l.size, m.top + l.size, 0x2000, argv, 0, ZERO_REGS)],
             m.top + l.size + 0x2000, m.avail - 1, EntryRegs(m.regs, l.entry), m.cells), 0)
  {
    assert [First(m, l.size, argv)] + m.frames == [First(m, l.size, argv)];
  }

  /** Otherwise there is none: without a slot the kernel halts, without a program or room for a stack
      nothing has changed, and a program that does not fit crashes it. */
  lemma FirstFails(cfg: Config, m: Machine, name: Str, argv: int, l: Loading)
    requires m.Live? && l == Load(cfg, m.top, name)
    requires m.avail == 0 || !l.Loaded? || cfg.End() - (m.top + l.size) < 0x2000
    ensures RunFirst(cfg, m, name, argv) ==
      if m.avail == 0 then Outcome(Halted, 0) else if l.BadAccess? then Outcome(Faulted, 0) else Outcome(m, -1)
  {
  }

  // ----- the regions of the processes

  /** A region `[lo, hi)` of memory. */
  datatype Region = Region(lo: int, hi: int)

  /** The stack and the program of each process, newest process first. */
  ghost function Regions(frames: seq<Frame>): seq<Region> {
    if frames == [] then []
    else
      var f := frames[0];
      [Region(f.stack, f.stack + f.stacksz), Region(f.load, f.load + f.loadsz)] + Regions(frames[1..])
  }

  /** `rs` covers `[lo, hi)` from the top down without gap or overlap. */
  ghost predicate Covers(rs: seq<Region>, lo: int, hi: int) {
    if rs == [] then lo == hi
    else rs[0].hi == hi && rs[0].lo < rs[0].hi && Covers(rs[1..], lo, rs[0].lo)
  }

  lemma {:induction false} TiledCovers(cfg: Config, frames: seq<Frame>, top: int)
    requires Tiled(cfg, frames, top)
    ensures Covers(Regions(frames), cfg.mem, top)
  {
    if frames != [] {
      var f := frames[0];
      TiledCovers(cfg, frames[1..], f.load);
      var rest := Regions(frames[1..]);
      var rs := Regions(frames);
      assert rs[1..] == [Region(f.load, f.load + f.loadsz)] + rest && rs[1..][1..] == rest;
    }
  }

  ghost predicate Aligned(rs: seq<Region>) {
    forall r | r in rs :: r.lo % PAGE == 0 && r.hi % PAGE == 0
  }

  /** With the memory at a page boundary, so is everything. */
  lemma {:induction false} TiledAligned(cfg: Config, frames: seq<Frame>, top: int)
    requires Tiled(cfg, frames, top) && cfg.mem % PAGE == 0
    ensures top % PAGE == 0 && Aligned(Regions(frames))
  {
    if frames != [] {
      var f := frames[0];
      TiledAligned(cfg, frames[1..], f.load);
      var own := [Region(f.stack, f.stack + f.stacksz), Region(f.load, f.load + f.loadsz)];
      assert Regions(frames) == own + Regions(frames[1..]);
      assert own[0].lo % PAGE == 0 && own[0].hi % PAGE == 0 && own[1].lo % PAGE == 0 && own[1].hi % PAGE == 0;
    }
  }

  /** An address below the top belongs to exactly one region. */
  lemma {:induction false} OneRegion(rs: seq<Region>, lo: int, hi: int, a: int) returns (i: nat)
    requires Covers(rs, lo, hi) && lo <= a < hi
    ensures i < |rs| && rs[i].lo <= a < rs[i].hi
    ensures forall j | 0 <= j < |rs| && rs[j].lo <= a < rs[j].hi :: j == i
  {
    CoversBounds(rs, lo, hi);
    if a >= rs[0].lo {
      i := 0;
    } else {
      i := OneRegion(rs[1..], lo, rs[0].lo, a);
      i := i + 1;
      forall j | 0 <= j < |rs| && rs[j].lo <= a < rs[j].hi
        ensures j == i
      {
        assert j > 0 && rs[j] == rs[1..][j - 1];
      }
    }
  }

  lemma {:induction false} CoversBounds(rs: seq<Region>, lo: int, hi: int)
    requires Covers(rs, lo, hi)
    ensures lo <= hi && forall j | 0 <= j < |rs| :: lo <= rs[j].lo < rs[j].hi <= hi
    ensures forall j | 1 <= j < |rs| :: rs[j].hi <= rs[0].lo
  {
    if rs != [] {
      CoversBounds(rs[1..], lo, rs[0].lo);
      forall j | 1 <= j < |rs|
        ensures lo <= rs[j].lo < rs[j].hi <= rs[0].lo
      {
        assert rs[j] == rs[1..][j - 1];
      }
    }
  }

  /** In every state a booted kernel reaches, each address from `mem` to the heap top is in
      exactly one program or stack of one live process, and nothing else is. */
  lemma MemoryIsShared(cfg: Config, slots: nat, regs: Regs, cells: map<int, int>, name: Str, argv: int,
                       es: seq<Event>)
    requires cfg.Ok()
    requires RunFirst(cfg, Boot(cfg, slots, regs, cells), name, argv).ret == 0
    ensures var n := Steps(cfg, RunFirst(cfg, Boot(cfg, slots, regs, cells), name, argv).m, es);
      n.Live? ==>
        && Covers(Regions(n.frames), cfg.mem, n.top) && n.top <= cfg.End()
        && 1 <= |n.frames| <= slots && n.avail == slots - |n.frames|
        && (cfg.mem % PAGE == 0 ==> Aligned(Regions(n.frames)))
  {
    BootInv(cfg, slots, regs, cells, name, argv);
    var s := RunFirst(cfg, Boot(cfg, slots, regs, cells), name, argv).m;
    StepsInv(cfg, slots, s, es);
    var n := Steps(cfg, s, es);
    if n.Live? {
      TiledCovers(cfg, n.frames, n.top);
      if cfg.mem % PAGE == 0 {
        TiledAligned(cfg, n.frames, n.top);
      }
    }
  }
}
