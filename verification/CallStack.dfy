/** The abstract machine: processes as a stack of calls. A successful `run` pushes a frame, an
    `exit` pops one and resumes the caller. Frames are kept newest first. */
module CallStack {
  import opened Bits
  import opened Bytes
  import opened Options
  import opened Registers
  import Archive
  import Elf

  const STACKSZ: nat := 0x2000
  const INT_0X81: u16 := 0x81cd

  const SYS_RUN: int := 0
  const SYS_EXIT: int := 2
  const NSYSCALLS: int := 5

  /** The memory given to processes and the archive they are loaded from. */
  datatype Config = Config(mem: int, memsz: nat, rootfs: seq<byte>) {
    /** The memory is somewhere, and its size rounded up to a page is a positive int. */
    predicate Ok() {
      mem > 0 && memsz + (PAGE - 1) < 0x8000_0000 && mem + memsz < MOD64
    }

    function End(): int {
      mem + memsz
    }
  }

  /** One process: the heap top before it (NULL for the first), its two regions, where its
      arguments are, where its exit code goes, and the registers its caller goes on with. */
  datatype Frame = Frame(freemark: int, load: int, loadsz: int, stack: int, stacksz: int,
                         argv: int, code: int, resume: Regs)

  /** `cells` is the user memory exit codes are stored in. `hal_halt` ends the run; so does a
      kernel access outside the memory it was given. */
  datatype Machine = Live(frames: seq<Frame>, top: int, avail: int, regs: Regs, cells: map<int, int>)
                   | Halted
                   | Faulted

  /** A process changes its registers and memory as it likes, or traps: then `opcode` is what
      its RIP points to, `argv0` the string at argv[0] if there is one, and `other` the result
      should the call be one of those that leave the process stack alone. */
  datatype Event = User(regs: Regs, cells: map<int, int>)
                 | Trap(opcode: u16, argv0: Option<Str>, other: int)

  // ----- loading

  /** `align(p_memsz, 0xfff)` as an int. */
  function LoadSize(memsz: u64): int {
    ToInt32(Align(memsz, PAGE - 1))
  }

  /** The segment's region, its bytes and its zeros are inside the memory above `top`, and its
      bytes inside the archive. `load` checks none of this. */
  predicate Fits(cfg: Config, top: int, s: Elf.Image)
    requires s.Segment?
  {
    var room := cfg.End() - top;
    && LoadSize(s.memsz) <= room && s.memsz <= room && s.filesz <= room
    && (s.filesz > 0 ==> s.src + s.filesz <= |cfg.rootfs|)
  }

  /** What `find_exe` and the header checks make of a name. */
  function Executable(rootfs: seq<byte>, name: Str): Elf.Image {
    match Archive.Find(rootfs, 0, name)
    case Absent => Elf.Rejected
    case Overrun => Elf.Overrun
    case Found(h) => Elf.Parse(rootfs, Archive.Content(rootfs, h))
  }

  datatype Loading = NotLoaded | BadAccess | Loaded(size: int, entry: int)

  function Load(cfg: Config, top: int, name: Str): Loading {
    LoadImage(cfg, top, Executable(cfg.rootfs, name))
  }

  function LoadImage(cfg: Config, top: int, s: Elf.Image): Loading {
    if s.Rejected? then NotLoaded
    else if s.Segment? && Fits(cfg, top, s) then Loaded(LoadSize(s.memsz), top + (s.entry - s.vaddr))
    else BadAccess
  }

  /** The region of a segment that fits is its size rounded up to whole pages. */
  lemma LoadSizeIsPages(cfg: Config, top: int, s: Elf.Image)
    requires cfg.Ok() && cfg.mem <= top && s.Segment? && Fits(cfg, top, s)
    ensures s.memsz <= LoadSize(s.memsz) && LeastMultiple(LoadSize(s.memsz), s.memsz, 0x1000)
  {
    PageAlign(s.memsz);
  }

  lemma PageAlign(v: nat)
    requires v + (PAGE - 1) < 0x8000_0000
    ensures LeastMultiple(Align(v, PAGE - 1), v, PAGE) && Align(v, PAGE - 1) < 0x8000_0000
  {
    Pow2Of32();
    AlignRoundsUpIff(v, 12);
    var t := NextPage(v);
    assert Align(v, PAGE - 1) <= t;
  }

  lemma NextPage(v: nat) returns (t: nat)
    ensures v <= t <= v + (PAGE - 1) && t % PAGE == 0
  {
    t := v + (PAGE - 1) - (v + (PAGE - 1)) % PAGE;
  }

  lemma LoadedRegion(cfg: Config, top: int, name: Str)
    requires cfg.Ok() && cfg.mem <= top
    ensures var l := Load(cfg, top, name);
      l.Loaded? ==> l.size > 0 && l.size % PAGE == 0 && top + l.size <= cfg.End() && top <= l.entry < top + l.size
  {
    var s := Executable(cfg.rootfs, name);
    if s.Segment? && Fits(cfg, top, s) {
      LoadSizeIsPages(cfg, top, s);
    }
  }

  // ----- system calls

  /** A system call's effect and its result. */
  datatype Outcome = Outcome(m: Machine, ret: int)

  /** `sys_run`. */
  function Run(cfg: Config, m: Machine, argv0: Option<Str>, argv: int, code: int): Outcome
    requires m.Live?
  {
    if argv0.None? || m.avail == 0 then Outcome(m, -1)
    else AfterLoad(cfg, m, Load(cfg, m.top, argv0.value), argv, code)
  }

  /** The rest of `sys_run`: no program, no room for a stack, or a new process. */
  function AfterLoad(cfg: Config, m: Machine, l: Loading, argv: int, code: int): Outcome
    requires m.Live?
  {
    if l.BadAccess? then Outcome(Faulted, 0)
    else if l.NotLoaded? || cfg.End() - (m.top + l.size) < STACKSZ then Outcome(m, -1)
    else Outcome(Push(m, Child(m, l.size, argv, code), Entering(m.regs, l.entry, m.top + l.size, STACKSZ)), 0)
  }

  function Child(m: Machine, size: int, argv: int, code: int): Frame
    requires m.Live?
  {
    Frame(m.top, m.top, size, m.top + size, STACKSZ, argv, code, m.regs)
  }

  function Push(m: Machine, f: Frame, regs: Regs): Machine
    requires m.Live?
  {
    Live([f] + m.frames, f.stack + f.stacksz, m.avail - 1, regs, m.cells)
  }

  /** `sys_exit`: the caller gets its registers back, and the memory and the slot are free. */
  function Exit(m: Machine, status: int): Machine
    requires m.Live?
  {
    if |m.frames| <= 1 then Halted else Pop(m, m.frames[0], status)
  }

  function Pop(m: Machine, f: Frame, status: int): Machine
    requires m.Live? && m.frames != []
  {
    Live(m.frames[1..], f.freemark, m.avail + 1, f.resume,
         if f.code != 0 then m.cells[f.code := status] else m.cells)
  }

  function WithRegs(m: Machine, regs: Regs): Machine
    requires m.Live?
  {
    Live(m.frames, m.top, m.avail, regs, m.cells)
  }

  function Returning(o: Outcome): Machine {
    if o.m.Live? then WithRegs(o.m, Set(o.m.regs, RAX, RetWord(o.ret))) else o.m
  }

  /** RIP moves past the two bytes of the trapping instruction. */
  function Advanced(m: Machine): Machine
    requires m.Live?
  {
    WithRegs(m, Set(m.regs, RIP, Word(m.regs[RIP] as int + 2)))
  }

  /** `syscall_do` on the registers of the trap. */
  function Dispatch(cfg: Config, m: Machine, argv0: Option<Str>, other: int): Outcome
    requires m.Live?
  {
    var nr := ToInt32(m.regs[RAX]);
    if nr == SYS_RUN then Run(cfg, m, argv0, m.regs[RBX], m.regs[RCX])
    else if nr == SYS_EXIT then Outcome(Exit(m, ToInt32(m.regs[RBX])), 0)
    else if 0 <= nr < NSYSCALLS then Outcome(m, other)
    else Outcome(Faulted, 0)
  }

  /** `syscall_hnd`: a trap that is not `int $0x81` is left alone; otherwise the call is made
      and its result is put in RAX of whoever runs next. */
  function Syscall(cfg: Config, m: Machine, opcode: u16, argv0: Option<Str>, other: int): Machine
    requires m.Live?
  {
    if opcode != INT_0X81 then m else Returning(Dispatch(cfg, Advanced(m), argv0, other))
  }

  function Step(cfg: Config, m: Machine, e: Event): Machine {
    if !m.Live? then m
    else if e.User? then Live(m.frames, m.top, m.avail, e.regs, e.cells)
    else Syscall(cfg, m, e.opcode, e.argv0, e.other)
  }

  function Steps(cfg: Config, m: Machine, es: seq<Event>): Machine
    decreases |es|
  {
    if es == [] then m else Steps(cfg, Step(cfg, m, es[0]), es[1..])
  }

  /** `run_first`, before any trap: no slot halts, otherwise its result is 0 or -1. */
  function RunFirst(cfg: Config, m: Machine, name: Str, argv: int): Outcome
    requires m.Live?
  {
    if m.avail == 0 then Outcome(Halted, 0) else AfterFirstLoad(cfg, m, Load(cfg, m.top, name), argv)
  }

  function AfterFirstLoad(cfg: Config, m: Machine, l: Loading, argv: int): Outcome
    requires m.Live?
  {
    if l.BadAccess? then Outcome(Faulted, 0)
    else if l.NotLoaded? || cfg.End() - (m.top + l.size) < STACKSZ then Outcome(m, -1)
    else Outcome(Push(m, First(m, l.size, argv), Set(m.regs, RIP, Word(l.entry))), 0)
  }

  function First(m: Machine, size: int, argv: int): Frame
    requires m.Live?
  {
    Frame(0, m.top, size, m.top + size, STACKSZ, argv, 0, ZERO_REGS)
  }

  function Boot(cfg: Config, slots: nat, regs: Regs, cells: map<int, int>): Machine {
    Live([], cfg.mem, slots, regs, cells)
  }

  // ----- what holds in every reachable state

  /** The regions of the processes, newest first, lie end to end from `mem` up to `top`, and
      every process but the first remembers the top it found. */
  ghost predicate Tiled(cfg: Config, frames: seq<Frame>, top: int) {
    if frames == [] then top == cfg.mem
    else
      var f := frames[0];
      && f.stack + f.stacksz == top && f.stacksz == STACKSZ
      && f.load + f.loadsz == f.stack && f.loadsz > 0 && f.loadsz % PAGE == 0
      && f.freemark == (if |frames| == 1 then 0 else f.load)
      && Tiled(cfg, frames[1..], f.load)
  }

  ghost predicate Inv(cfg: Config, slots: nat, m: Machine) {
    m.Live? ==>
      && Tiled(cfg, m.frames, m.top) && m.top <= cfg.End()
      && m.avail >= 0 && m.avail + |m.frames| == slots
  }

  lemma {:induction false} TopAboveMem(cfg: Config, frames: seq<Frame>, top: int)
    requires Tiled(cfg, frames, top)
    ensures cfg.mem <= top && (frames != [] ==> cfg.mem + STACKSZ < top)
  {
    if frames != [] {
      TopAboveMem(cfg, frames[1..], frames[0].load);
    }
  }

  lemma BootInv(cfg: Config, slots: nat, regs: Regs, cells: map<int, int>, name: Str, argv: int)
    requires cfg.Ok()
    ensures Inv(cfg, slots, Boot(cfg, slots, regs, cells))
    ensures var o := RunFirst(cfg, Boot(cfg, slots, regs, cells), name, argv);
      Inv(cfg, slots, o.m) && (o.m.Live? && o.ret == 0 ==> |o.m.frames| == 1)
  {
    LoadedRegion(cfg, cfg.mem, name);
  }

  lemma RunInv(cfg: Config, slots: nat, m: Machine, argv0: Option<Str>, argv: int, code: int)
    requires cfg.Ok() && m.Live? && m.frames != [] && Inv(cfg, slots, m)
    ensures Inv(cfg, slots, Run(cfg, m, argv0, argv, code).m)
  {
    TopAboveMem(cfg, m.frames, m.top);
    if argv0.Some? {
      LoadedRegion(cfg, m.top, argv0.value);
    }
  }

  lemma ExitInv(cfg: Config, slots: nat, m: Machine, status: int)
    requires cfg.Ok() && m.Live? && Inv(cfg, slots, m)
    ensures Inv(cfg, slots, Exit(m, status))
  {
    if |m.frames| > 1 {
      TopAboveMem(cfg, m.frames[1..], m.frames[0].load);
    }
  }

  lemma StepInv(cfg: Config, slots: nat, m: Machine, e: Event)
    requires cfg.Ok() && Inv(cfg, slots, m) && (m.Live? ==> m.frames != [])
    ensures Inv(cfg, slots, Step(cfg, m, e))
    ensures Step(cfg, m, e).Live? ==> Step(cfg, m, e).frames != []
  {
    if m.Live? && e.Trap? {
      var n := Advanced(m);
      RunInv(cfg, slots, n, e.argv0, n.regs[RBX], n.regs[RCX]);
      ExitInv(cfg, slots, n, ToInt32(n.regs[RBX]));
    }
  }

  /** Tiling and slot accounting hold over every run. */
  lemma {:induction false} StepsInv(cfg: Config, slots: nat, m: Machine, es: seq<Event>)
    requires cfg.Ok() && Inv(cfg, slots, m) && (m.Live? ==> m.frames != [])
    ensures Inv(cfg, slots, Steps(cfg, m, es))
    ensures Steps(cfg, m, es).Live? ==> Steps(cfg, m, es).frames != []
    decreases |es|
  {
    if es != [] {
      StepInv(cfg, slots, m, es[0]);
      StepsInv(cfg, slots, Step(cfg, m, es[0]), es[1..]);
    }
  }
}
