/** The kernel as it keeps its state: process slots from the pool, linked through the word the
    pool also uses for its free list; a mark-and-release heap; the saved registers. Every
    operation refines the call stack. */
module Kernels {
  import opened Bits
  import opened Bytes
  import opened Options
  import opened Registers
  import opened Pools
  import opened CallStack
  import Archive
  import Elf
  import NestedCalls

  /** A `struct proc` without its first word. */
  datatype Proc = Proc(savectx: Regs, freemark: int, load: int, loadsz: int, stack: int, stacksz: int,
                       argv: int, code: int)

  const SHELL: Str := [115, 104, 101, 108, 108]  // "shell"

  lemma ShellName()
    ensures |SHELL| == 5 && forall i | 0 <= i < 5 :: SHELL[i] == "shell"[i] as int
  {
  }

  datatype Status = Running | Stopped | Crashed

  function FrameOf(p: Proc, resume: Regs): Frame {
    Frame(p.freemark, p.load, p.loadsz, p.stack, p.stacksz, p.argv, p.code, resume)
  }

  const NO_PROC: Proc := Proc(ZERO_REGS, 0, 0, 0, 0, 0, 0, 0)

  function ProcAt(procs: map<int, Proc>, b: int): Proc {
    if b in procs then procs[b] else NO_PROC
  }

  /** The frames of a chain of processes: each one's caller holds the registers to resume with. */
  ghost function FramesOf(procs: map<int, Proc>, chain: seq<int>): seq<Frame> {
    if chain == [] then []
    else [FrameOf(ProcAt(procs, chain[0]), CallerRegs(procs, chain[1..]))] + FramesOf(procs, chain[1..])
  }

  ghost function CallerRegs(procs: map<int, Proc>, callers: seq<int>): Regs {
    if callers == [] then ZERO_REGS else ProcAt(procs, callers[0]).savectx
  }

  lemma {:induction false} FramesLength(procs: map<int, Proc>, chain: seq<int>)
    ensures |FramesOf(procs, chain)| == |chain|
  {
    if chain != [] {
      FramesLength(procs, chain[1..]);
    }
  }

  /** The frames do not depend on a process outside the chain. */
  lemma {:induction false} FramesSkip(p: map<int, Proc>, chain: seq<int>, b: int, q: Proc)
    requires b !in chain
    ensures FramesOf(p[b := q], chain) == FramesOf(p, chain)
  {
    if chain != [] {
      assert b != chain[0] && b !in chain[1..];
      FramesSkip(p, chain[1..], b, q);
    }
  }

  /** Nor on the save area of the newest process, which is stale while it runs. */
  lemma FramesSave(p: map<int, Proc>, chain: seq<int>, regs: Regs)
    requires chain != [] && chain[0] !in chain[1..]
    ensures FramesOf(p[chain[0] := ProcAt(p, chain[0]).(savectx := regs)], chain) == FramesOf(p, chain)
  {
    FramesSkip(p, chain[1..], chain[0], ProcAt(p, chain[0]).(savectx := regs));
  }

  /** A new newest process, whose caller's save area has just been filled. */
  lemma FramesPush(p: map<int, Proc>, chain: seq<int>, b: int, child: Proc, regs: Regs)
    requires chain != [] && chain[0] !in chain[1..] && b !in chain
    ensures var q := p[b := child][chain[0] := ProcAt(p, chain[0]).(savectx := regs)];
      FramesOf(q, [b] + chain) == [FrameOf(child, regs)] + FramesOf(p, chain)
  {
    FramesSkip(p, chain, b, child);
    FramesSave(p[b := child], chain, regs);
    assert ([b] + chain)[1..] == chain;
  }

  /** Every process but the first remembers a heap top. */
  predicate Marked(cfg: Config, procs: map<int, Proc>, chain: seq<int>) {
    |chain| <= 1 || (cfg.mem <= ProcAt(procs, chain[0]).freemark <= cfg.End() && Marked(cfg, procs, chain[1..]))
  }

  lemma {:induction false} MarkedSkip(cfg: Config, p: map<int, Proc>, chain: seq<int>, b: int, q: Proc)
    requires Marked(cfg, p, chain)
    requires b in chain ==> ProcAt(p, b).freemark == q.freemark
    ensures Marked(cfg, p[b := q], chain)
  {
    if |chain| > 1 {
      MarkedSkip(cfg, p, chain[1..], b, q);
    }
  }

  /** The bytes `load` leaves in the memory `[o, ...)`: zeros, and the file's bytes over them. */
  function Image(ram: seq<byte>, o: nat, memsz: nat, data: seq<byte>): seq<byte>
    requires o + memsz <= |ram| && o + |data| <= |ram|
  {
    Overlay(Overlay(ram, o, Fill(NUL, memsz)), o, data)
  }

  /** With no more bytes in the file than in memory, the image is the file's bytes followed by
      zeros, and nothing else changes. */
  lemma ImageMeaning(ram: seq<byte>, o: nat, memsz: nat, data: seq<byte>)
    requires o + memsz <= |ram| && |data| <= memsz
    ensures var r := Image(ram, o, memsz, data);
      && r[o..o + memsz] == data + Fill(NUL, memsz - |data|)
      && r[..o] == ram[..o] && r[o + memsz..] == ram[o + memsz..]
  {
    var z := Overlay(ram, o, Fill(NUL, memsz));
    var r := Image(ram, o, memsz, data);
    assert forall i | 0 <= i < |z| :: z[i] == if o <= i < o + memsz then NUL else ram[i];
    assert forall i | 0 <= i < |r| :: r[i] == if o <= i < o + |data| then data[i - o] else z[i];
  }

  /** The bytes of a segment in the archive. */
  function SegmentBytes(rootfs: seq<byte>, s: Elf.Image): seq<byte>
    requires s.Segment? && (s.filesz > 0 ==> s.src + s.filesz <= |rootfs|)
  {
    if s.filesz == 0 then [] else rootfs[s.src..s.src + s.filesz]
  }

  /** The memory after `load` of a name at the heap top `top`. */
  function RamAfterLoad(cfg: Config, top: int, name: Str, ram: seq<byte>): seq<byte>
    requires cfg.mem <= top && |ram| == cfg.memsz
  {
    RamAfterImage(cfg, top, Executable(cfg.rootfs, name), ram)
  }

  function RamAfterImage(cfg: Config, top: int, s: Elf.Image, ram: seq<byte>): seq<byte>
    requires cfg.mem <= top && |ram| == cfg.memsz
  {
    if s.Segment? && Fits(cfg, top, s) then Image(ram, top - cfg.mem, s.memsz, SegmentBytes(cfg.rootfs, s)) else ram
  }

  lemma SpareOutside(chain: seq<int>, b: int, live: set<int>)
    requires multiset(chain) + multiset{b} == multiset(live)
    ensures b !in chain && b in live
  {
    assert (multiset(chain) + multiset{b})[b] <= 1;
    assert b in chain ==> multiset(chain)[b] >= 1;
  }

  lemma ChainLive(chain: seq<int>, spare: multiset<int>, live: set<int>, b: int)
    requires multiset(chain) + spare == multiset(live) && b in chain
    ensures b in live
  {
    assert b in multiset(chain) + spare;
  }

  lemma LiveMore(live: set<int>, b: int)
    requires b !in live
    ensures multiset(live + {b}) == multiset(live) + multiset{b}
  {
  }

  lemma SpareGone(chain: seq<int>, b: int, live: set<int>)
    requires multiset(chain) + multiset{b} == multiset(live)
    ensures multiset(chain) == multiset(live - {b})
  {
    SpareOutside(chain, b, live);
    LiveMore(live - {b}, b);
    assert live - {b} + {b} == live;
    forall c
      ensures multiset(chain)[c] == multiset(live - {b})[c]
    {
      assert (multiset(chain) + multiset{b})[c] == (multiset(live - {b}) + multiset{b})[c];
    }
  }

  lemma HeadOnce(chain: seq<int>, spare: multiset<int>, live: set<int>)
    requires multiset(chain) + spare == multiset(live) && chain != []
    ensures chain[0] !in chain[1..] && chain[0] in live
  {
    assert chain == [chain[0]] + chain[1..];
    assert multiset(chain)[chain[0]] == 1 + multiset(chain[1..])[chain[0]];
    assert (multiset(chain) + spare)[chain[0]] <= 1;
  }

  class Kernel {
    const cfg: Config
    const pool: Pool
    const ram: array<byte>
    var procs: map<int, Proc>
    var curp: int
    var execbufp: int
    var cells: map<int, int>
    var status: Status
    /** The live processes, newest first. */
    ghost var chain: seq<int>

    ghost predicate Heap()
      reads this
    {
      && cfg.Ok() && ram.Length == cfg.memsz
      && (execbufp == NULL || cfg.mem <= execbufp <= cfg.End())
    }

    /** Consistency, with the slots `spare` taken from the pool but not yet running: the live
        blocks of the pool are the processes of the chain, each once, and the spare ones. */
    ghost predicate Core(spare: multiset<int>)
      reads this, pool
    {
      && Heap() && pool.Valid() && pool.g.From(0) <= procs.Keys
      && Linked(pool.word, curp, chain)
      && multiset(chain) + spare == multiset(pool.s.live)
      && Marked(cfg, procs, chain)
    }

    /** The heap top: an unset `execbufp` means nothing has been allocated. */
    function Top(): int
      reads this
    {
      if execbufp == NULL then cfg.mem else execbufp
    }

    /** The machine this state stands for, were it not for the slots still spare. */
    ghost predicate Shows(m: Machine, regs: Regs, spare: nat)
      reads this, pool
    {
      && m.Live? && m.frames == FramesOf(procs, chain) && m.top == Top() && m.regs == regs && m.cells == cells
      && m.avail == Available(pool.g, pool.s) + spare
    }

    /** The simulation relation: what the machine `m` is in terms of this state. */
    ghost predicate Refines(m: Machine, regs: Regs)
      reads this, pool
    {
      match status
      case Stopped => m == Halted
      case Crashed => m == Faulted
      case Running => Core(multiset{}) && Shows(m, regs, 0)
    }

    /** `static` initialisers and `kernel_init`. */
    constructor (cfg: Config, ram: array<byte>, base: int, slots: nat, slotsz: nat,
                 word: map<int, int>, procs: map<int, Proc>, cells: map<int, int>)
      requires cfg.Ok() && ram.Length == cfg.memsz && Geometry(base, slotsz, slots).Ok()
      requires Geometry(base, slotsz, slots).From(0) <= word.Keys * procs.Keys
      ensures status == Running && chain == [] && fresh(pool) && this.ram == ram && this.cfg == cfg
      ensures forall regs: Regs :: Refines(Boot(cfg, slots, regs, cells), regs)
    {
      this.cfg := cfg;
      this.ram := ram;
      this.pool := new Pool(base, slots, slotsz, word);
      this.procs := procs;
      this.curp := NULL;
      this.execbufp := NULL;
      this.cells := cells;
      this.status := Running;
      this.chain := [];
      new;
    }

    method AllocInit()
      modifies this`execbufp
      ensures execbufp == old(Top())
    {
      if execbufp == NULL {
        execbufp := cfg.mem;
      }
    }

    /** The first fit: from the heap top, if the rest of the memory is enough. */
    method Alloc(size: int) returns (p: int)
      requires cfg.Ok()
      modifies this`execbufp
      ensures cfg.End() - old(Top()) < size ==> p == NULL && execbufp == old(Top())
      ensures cfg.End() - old(Top()) >= size ==> p == old(Top()) && execbufp == old(Top()) + size
    {
      AllocInit();
      if cfg.End() - execbufp < size {
        return NULL;
      }
      p := execbufp;
      execbufp := execbufp + size;
    }

    method FreeUp(mark: int)
      modifies this`execbufp
      ensures execbufp == mark
    {
      AllocInit();
      execbufp := mark;
    }

    method FreeMark() returns (mark: int)
      modifies this`execbufp
      ensures mark == old(Top()) == execbufp
    {
      AllocInit();
      mark := execbufp;
    }

    /** `load`: look the name up, check the headers, and copy the segment. Nothing checks that
        `alloc` succeeded or that the copy stays inside, so a copy that does not is a crash. */
    method Load(name: Str, newp: int) returns (r: int, entry: int)
      requires status == Running && Heap() && newp in procs
      modifies this`execbufp, this`procs, this`status, ram
      ensures var s := Executable(cfg.rootfs, name);
        if s.Rejected? then
          r == -1 && status == Running && execbufp == old(execbufp) && procs == old(procs)
        else if s.Segment? && Fits(cfg, old(Top()), s) then
          && r == 0 && status == Running && entry == old(Top()) + (s.entry - s.vaddr)
          && execbufp == old(Top()) + LoadSize(s.memsz)
          && procs == old(procs)[newp := old(procs)[newp].(load := old(Top()), loadsz := LoadSize(s.memsz))]
        else status == Crashed
      ensures status == Running ==> ram[..] == RamAfterLoad(cfg, old(Top()), name, old(ram[..]))
    {
      entry := 0;
      var ch := Archive.FindExe(cfg.rootfs, name);
      if ch.Absent? {
        return -1, 0;
      }
      if ch.Overrun? {
        status := Crashed;
        return 0, 0;
      }
      var s := Elf.ParseHeaders(cfg.rootfs, Archive.Content(cfg.rootfs, ch.h));
      assert s == Executable(cfg.rootfs, name);
      if s.Rejected? {
        return -1, 0;
      }
      if s.Overrun? {
        status := Crashed;
        return 0, 0;
      }
      entry := LoadSegment(s, newp);
      return 0, entry;
    }

    /** The rest of `load`, from its `alloc` on. */
    method LoadSegment(s: Elf.Image, newp: int) returns (entry: int)
      requires status == Running && Heap() && newp in procs && s.Segment?
      modifies this`execbufp, this`procs, this`status, ram
      ensures if Fits(cfg, old(Top()), s) then
          && status == Running && entry == old(Top()) + (s.entry - s.vaddr)
          && execbufp == old(Top()) + LoadSize(s.memsz)
          && procs == old(procs)[newp := old(procs)[newp].(load := old(Top()), loadsz := LoadSize(s.memsz))]
        else status == Crashed
      ensures status == Running ==> ram[..] == RamAfterImage(cfg, old(Top()), s, old(ram[..]))
    {
      entry := 0;
      var loadsz := LoadSize(s.memsz);
      var loadp := Alloc(loadsz);
      if loadp == NULL || cfg.End() < loadp + s.memsz || cfg.End() < loadp + s.filesz
         || (s.filesz > 0 && |cfg.rootfs| < s.src + s.filesz) {
        status := Crashed;
        return;
      }
      CopySegment(loadp - cfg.mem, s);
      entry := loadp + (s.entry - s.vaddr);
      procs := procs[newp := procs[newp].(load := loadp, loadsz := loadsz)];
    }

    /** The two copies, which stay inside the memory. */
    method CopySegment(o: nat, s: Elf.Image)
      requires s.Segment? && o + s.memsz <= ram.Length && o + s.filesz <= ram.Length
      requires s.filesz > 0 ==> s.src + s.filesz <= |cfg.rootfs|
      modifies ram
      ensures ram[..] == Image(old(ram[..]), o, s.memsz, SegmentBytes(cfg.rootfs, s))
    {
      Memset(ram, o, NUL, s.memsz);
      if s.filesz > 0 {
        Memcpy(ram, o, cfg.rootfs, s.src, s.filesz);
      } else {
        assert Overlay(ram[..], o, []) == ram[..];
      }
    }

    /** A spare slot is a live block outside the chain, and the chain has no repetitions. */
    lemma SpareApart(b: int)
      requires Core(multiset{b})
      ensures b !in chain && b in pool.s.live && b in procs && b != NULL
      ensures chain != [] ==> chain[0] !in chain[1..] && chain[0] in procs
    {
      SpareOutside(chain, b, pool.s.live);
      FreeStep(pool.g, pool.s, b);
      if chain != [] {
        HeadOnce(chain, multiset{b}, pool.s.live);
        FreeStep(pool.g, pool.s, chain[0]);
      }
    }

    /** Filling in a spare process and moving the heap top keep the chain and its frames. */
    twostate lemma SpareFilled(b: int)
      requires old(Core(multiset{b})) && Heap() && unchanged(pool)
      requires curp == old(curp) && chain == old(chain) && b in procs && procs == old(procs)[b := procs[b]]
      ensures Core(multiset{b}) && FramesOf(procs, chain) == old(FramesOf(procs, chain))
    {
      SpareOutside(chain, b, pool.s.live);
      FramesSkip(old(procs), chain, b, procs[b]);
      MarkedSkip(cfg, old(procs), chain, b, procs[b]);
    }

    twostate lemma NothingMoved(b: int)
      requires old(Core(multiset{b})) && unchanged(pool)
      requires execbufp == old(execbufp) && curp == old(curp) && chain == old(chain) && procs == old(procs)
      ensures Core(multiset{b}) && FramesOf(procs, chain) == old(FramesOf(procs, chain))
    {
    }

    /** `pool_alloc` for a process. */
    method TakeSlot() returns (newp: int)
      requires Core(multiset{})
      modifies pool
      ensures newp == NULL <==> old(Available(pool.g, pool.s)) == 0
      ensures newp == NULL ==> Core(multiset{}) && pool.s == old(pool.s)
      ensures newp != NULL ==>
        Core(multiset{newp}) && Available(pool.g, pool.s) == old(Available(pool.g, pool.s)) - 1
    {
      AllocStep(pool.g, pool.s);
      newp := pool.Alloc();
      if newp != NULL {
        LiveMore(old(pool.s.live), newp);
      }
    }

    /** `pool_free` of a process that is in no chain: the word that linked it is overwritten. */
    method DropSlot(p: int)
      requires Core(multiset{p})
      modifies pool
      ensures Core(multiset{})
      ensures Available(pool.g, pool.s) == old(Available(pool.g, pool.s)) + 1
    {
      SpareApart(p);
      FreeStep(pool.g, pool.s, p);
      LinkedFrame(pool.word, curp, chain, p, pool.freehead);
      SpareGone(chain, p, pool.s.live);
      pool.Free(p);
    }

    /** The new process becomes the current one: `newp->prev = oldp`, `curp = newp`. */
    method LinkSlot(newp: int, oldp: int)
      requires Core(multiset{newp}) && oldp == curp && newp in procs
      requires chain != [] ==> cfg.mem <= procs[newp].freemark <= cfg.End()
      modifies pool, this`curp, this`chain
      ensures Core(multiset{}) && pool.s == old(pool.s)
      ensures chain == [newp] + old(chain)
    {
      SpareApart(newp);
      ghost var longer := [newp] + chain;
      assert longer[1..] == chain && multiset(longer) == multiset{newp} + multiset(chain);
      LinkedPush(pool.word, curp, chain, newp);
      pool.SetWord(newp, oldp);
      curp := newp;
      chain := longer;
    }

    /** Halfway through `sys_run`: the program is loaded above the machine's heap top. */
    ghost predicate Midway(m: Machine, regs: Regs, newp: int, size: int)
      reads this, pool
    {
      && newp in procs
      && m.Live? && m.frames == FramesOf(procs, chain) && m.regs == regs && m.cells == cells
      && m.avail == Available(pool.g, pool.s) + 1
      && cfg.mem <= m.top == procs[newp].freemark == procs[newp].load <= cfg.End()
      && procs[newp].loadsz == size && Top() == m.top + size
    }

    /** `load`, as far as the heap and the slot are concerned. */
    method LoadSlot(name: Str, newp: int) returns (r: int, entry: int)
      requires status == Running && Heap() && newp in procs
      modifies this`execbufp, this`procs, this`status, ram
      ensures var l, top := CallStack.Load(cfg, old(Top()), name), old(Top());
        if l.BadAccess? then status == Crashed
        else if l.NotLoaded? then r == -1 && status == Running && execbufp == old(execbufp) && procs == old(procs)
        else
          && r == 0 && entry == l.entry && status == Running && top <= execbufp == top + l.size <= cfg.End()
          && procs == old(procs)[newp := old(procs)[newp].(load := top, loadsz := l.size)]
      ensures status == Running ==> ram[..] == RamAfterLoad(cfg, old(Top()), name, old(ram[..]))
    {
      LoadedRegion(cfg, Top(), name);
      r, entry := Load(name, newp);
    }

    /** The newest process has a slot, and its word leads to the rest of the chain. */
    lemma CurrentProcess()
      requires Core(multiset{}) && chain != []
      ensures curp == chain[0] && curp in procs && curp in pool.word && curp in pool.s.live && curp !in chain[1..]
      ensures Linked(pool.word, pool.word[curp], chain[1..])
      ensures pool.word[curp] == NULL <==> |chain| == 1
      ensures |chain| > 1 ==> chain[1] == pool.word[curp] && chain[1] in procs
    {
      HeadOnce(chain, multiset{}, pool.s.live);
      FreeStep(pool.g, pool.s, curp);
      if |chain| > 1 {
        assert chain[1..] != [] && chain[1..][0] == chain[1];
        ChainLive(chain, multiset{}, pool.s.live, chain[1]);
        FreeStep(pool.g, pool.s, chain[1]);
      }
    }

    /** `pool_free(newp)` and `curp = oldp`: the chain goes on where `newp` used to lead. */
    method UnlinkSlot(newp: int, oldp: int)
      requires Core(multiset{}) && |chain| > 1 && newp == curp && newp in pool.word && oldp == pool.word[newp]
      modifies pool, this`curp, this`chain
      ensures Core(multiset{}) && chain == old(chain)[1..]
      ensures Available(pool.g, pool.s) == old(Available(pool.g, pool.s)) + 1
    {
      CurrentProcess();
      ghost var rest := chain[1..];
      assert chain == [newp] + rest && multiset(chain) == multiset(rest) + multiset{newp};
      curp := oldp;
      chain := rest;
      DropSlot(newp);
    }

    /** `newp->freemark = freemark()`. */
    method MarkSlot(newp: int, ghost m: Machine, ghost regs: Regs)
      requires Core(multiset{newp}) && Shows(m, regs, 1)
      modifies this`execbufp, this`procs
      ensures Core(multiset{newp}) && Shows(m, regs, 1)
      ensures newp in procs && procs[newp].freemark == m.top == execbufp
    {
      SpareApart(newp);
      var mark := FreeMark();
      procs := procs[newp := procs[newp].(freemark := mark)];
      SpareFilled(newp);
    }

    /** `load` into a marked slot. */
    method LoadProcess(name: Str, newp: int, ghost m: Machine, ghost regs: Regs) returns (r: int, entry: int)
      requires status == Running && Core(multiset{newp}) && Shows(m, regs, 1)
      requires newp in procs && procs[newp].freemark == m.top == execbufp
      modifies this`execbufp, this`procs, this`status, ram
      ensures var l := CallStack.Load(cfg, m.top, name);
        if l.BadAccess? then status == Crashed
        else
          && status == Running && Core(multiset{newp})
          && (if l.NotLoaded? then r == -1 && Shows(m, regs, 1)
              else r == 0 && entry == l.entry && Midway(m, regs, newp, l.size))
      ensures status == Running ==> ram[..] == RamAfterLoad(cfg, m.top, name, old(ram[..]))
    {
      ghost var top, l := Top(), CallStack.Load(cfg, m.top, name);
      r, entry := LoadSlot(name, newp);
      if status == Running {
        assert m.top == top && (l.Loaded? <==> r == 0);
        if r == 0 {
          SpareFilled(newp);
        } else {
          NothingMoved(newp);
        }
      }
    }

    /** What is undone when the program is not loaded. */
    method FailLoad(newp: int, ghost m: Machine, ghost regs: Regs)
      requires Core(multiset{newp}) && Shows(m, regs, 1)
      modifies pool
      ensures Core(multiset{}) && Shows(m, regs, 0)
    {
      DropSlot(newp);
    }

    /** What is undone when there is no room for the stack. */
    method FailStack(newp: int, ghost m: Machine, ghost regs: Regs)
      requires m.Live? && Core(multiset{newp}) && newp in procs && cfg.mem <= m.top <= cfg.End()
      requires m.Live? && m.frames == FramesOf(procs, chain) && m.regs == regs && m.cells == cells
      requires m.avail == Available(pool.g, pool.s) + 1
      requires m.top == if procs[newp].freemark == NULL then cfg.mem else procs[newp].freemark
      modifies this`execbufp, pool
      ensures Core(multiset{}) && Shows(m, regs, 0)
    {
      FreeUp(procs[newp].freemark);
      DropSlot(newp);
    }

    /** The stack, if there is room for it above the program. */
    method TakeStack(newp: int) returns (stack: int)
      requires Core(multiset{newp}) && newp in procs
      modifies this`execbufp, this`procs
      ensures Core(multiset{newp}) && newp in procs && FramesOf(procs, chain) == old(FramesOf(procs, chain))
      ensures procs == old(procs)[newp := old(procs[newp]).(stacksz := STACKSZ, stack := stack)]
      ensures if cfg.End() - old(Top()) < STACKSZ then stack == NULL && Top() == old(Top())
        else stack == old(Top()) && stack != NULL && Top() == stack + STACKSZ
    {
      SpareApart(newp);
      stack := Alloc(STACKSZ);
      procs := procs[newp := procs[newp].(stacksz := STACKSZ, stack := stack)];
      SpareFilled(newp);
    }

    /** The second half of `sys_run`: the stack, and the switch to the new process. */
    method EnterProcess(ctx: array<u64>, newp: int, entry: int, argv: int, code: int, ghost m: Machine, ghost l: Loading)
      returns (r: int)
      requires ctx.Length == NREG && status == Running && Core(multiset{newp}) && chain != []
      requires l.Loaded? && entry == l.entry && Midway(m, ctx[..], newp, l.size)
      modifies this`execbufp, this`procs, this`curp, this`chain, pool, ctx
      ensures Core(multiset{}) && chain != []
      ensures var o := AfterLoad(cfg, m, l, argv, code); o.m.Live? && r == o.ret && Shows(o.m, ctx[..], 0)
      ensures chain == if r == 0 then [curp] + old(chain) else old(chain)
    {
      var stack := TakeStack(newp);
      if stack == NULL {
        assert AfterLoad(cfg, m, l, argv, code) == Outcome(m, -1);
        FailStack(newp, m, ctx[..]);
        return -1;
      }
      ghost var n := Push(m, Child(m, l.size, argv, code), Entering(m.regs, entry, m.top + l.size, STACKSZ));
      assert AfterLoad(cfg, m, l, argv, code) == Outcome(n, 0);
      Become(ctx, newp, entry, argv, code, m, l.size);
      return 0;
    }

    /** The new process has its stack. */
    method Become(ctx: array<u64>, newp: int, entry: int, argv: int, code: int, ghost m: Machine, ghost size: int)
      requires ctx.Length == NREG && Core(multiset{newp}) && chain != [] && newp in procs
      requires m.Live? && m.frames == FramesOf(procs, chain) && m.regs == ctx[..] && m.cells == cells
      requires m.avail == Available(pool.g, pool.s) + 1 && Top() == m.top + size + STACKSZ
      requires cfg.mem <= m.top == procs[newp].freemark == procs[newp].load <= cfg.End() && procs[newp].loadsz == size
      requires procs[newp].stack == m.top + size && procs[newp].stacksz == STACKSZ
      modifies this`procs, this`curp, this`chain, pool, ctx
      ensures Core(multiset{}) && chain == [curp] + old(chain)
      ensures Shows(Push(m, Child(m, size, argv, code), Entering(m.regs, entry, m.top + size, STACKSZ)), ctx[..], 0)
    {
      SpareApart(newp);
      procs := procs[newp := procs[newp].(argv := argv, code := code)];
      SpareFilled(newp);
      assert FrameOf(procs[newp], m.regs) == Child(m, size, argv, code);
      SwitchTo(ctx, newp, entry);
    }

    /** The registers of the trap are saved, and the new process takes over. */
    method SwitchTo(ctx: array<u64>, newp: int, entry: int)
      requires ctx.Length == NREG && Core(multiset{newp}) && chain != [] && newp in procs
      requires cfg.mem <= procs[newp].freemark <= cfg.End()
      modifies this`procs, this`curp, this`chain, pool, ctx
      ensures Core(multiset{}) && chain == [curp] + old(chain) && pool.s == old(pool.s)
      ensures FramesOf(procs, chain) == [FrameOf(old(procs[newp]), old(ctx[..]))] + old(FramesOf(procs, chain))
      ensures ctx[..] == Entering(old(ctx[..]), entry, old(procs[newp].stack), old(procs[newp].stacksz))
    {
      ghost var was := procs;
      SpareApart(newp);
      var oldp := curp;
      var save := CtxSave(ctx, entry, procs[newp].stack, procs[newp].stacksz);
      assert was[newp := was[newp]] == was;
      FramesPush(was, chain, newp, was[newp], save);
      MarkedSkip(cfg, was, chain, oldp, was[oldp].(savectx := save));
      procs := procs[oldp := procs[oldp].(savectx := save)];
      LinkSlot(newp, oldp);
    }

    /** `sys_run` from `load` on. */
    method StartProcess(ctx: array<u64>, newp: int, name: Str, argv: int, code: int, ghost m: Machine) returns (r: int)
      requires ctx.Length == NREG && ctx as object != ram
      requires status == Running && Core(multiset{newp}) && chain != [] && Shows(m, ctx[..], 1) && m.avail > 0
      requires newp in procs && procs[newp].freemark == m.top == execbufp
      modifies this, pool, ctx, ram
      ensures var o := AfterLoad(cfg, m, CallStack.Load(cfg, m.top, name), argv, code);
        Refines(o.m, ctx[..]) && (status == Running ==> r == o.ret && chain != [])
      ensures status == Running ==> chain == if r == 0 then [curp] + old(chain) else old(chain)
      ensures status == Running ==> ram[..] == RamAfterLoad(cfg, m.top, name, old(ram[..]))
    {
      var r0, entry := LoadProcess(name, newp, m, ctx[..]);
      if status != Running {
        return 0;
      }
      if r0 != 0 {
        FailLoad(newp, m, ctx[..]);
        return -1;
      }
      r := EnterProcess(ctx, newp, entry, argv, code, m, CallStack.Load(cfg, m.top, name));
    }

    /** `sys_run`: push a process, or fail without a trace. The slots of the callers stay theirs,
        and the only memory written is the new program's. */
    method SysRun(ctx: array<u64>, argv0: Option<Str>, argv: int, code: int, ghost m: Machine) returns (r: int)
      requires ctx.Length == NREG && ctx as object != ram
      requires status == Running && chain != [] && Refines(m, ctx[..])
      modifies this, pool, ctx, ram
      ensures var o := Run(cfg, m, argv0, argv, code);
        Refines(o.m, ctx[..]) && (status == Running ==> r == o.ret && chain != [])
      ensures status == Running ==> chain == if r == 0 then [curp] + old(chain) else old(chain)
      ensures status == Running && (argv0.None? || m.avail == 0) ==> ram[..] == old(ram[..])
      ensures status == Running && argv0.Some? && m.avail > 0 ==>
        ram[..] == RamAfterLoad(cfg, m.top, argv0.value, old(ram[..]))
    {
      if argv0.None? {
        return -1;
      }
      var newp := TakeSlot();
      if newp == NULL {
        return -1;
      }
      MarkSlot(newp, m, ctx[..]);
      r := StartProcess(ctx, newp, argv0.value, argv, code, m);
    }

    /** `sys_exit`: everything needed of the slot is read before `pool_free` reuses its word. */
    method SysExit(ctx: array<u64>, code: int, ghost m: Machine) returns (r: int)
      requires ctx.Length == NREG && ctx as object != ram
      requires status == Running && chain != [] && Refines(m, ctx[..])
      modifies this, pool, ctx
      ensures Refines(Exit(m, code), ctx[..]) && (status == Running ==> r == 0 && chain != [])
      ensures status == Running ==> chain == old(chain)[1..]
    {
      var newp := curp;
      CurrentProcess();
      FramesLength(procs, chain);
      var oldp := pool.word[newp];
      if oldp == NULL {
        status := Stopped;
        return 0;
      }
      if procs[newp].code != NULL {
        cells := cells[procs[newp].code := code];
      }
      CtxRestore(ctx, procs[oldp].savectx);
      FreeUp(procs[newp].freemark);
      UnlinkSlot(newp, oldp);
      return 0;
    }

    /** `run_first`: the first process has no caller, no mark and nowhere to leave its exit code. */
    method RunFirst(ctx: array<u64>, name: Str, argv: int, ghost m: Machine) returns (r: int)
      requires ctx.Length == NREG && ctx as object != ram
      requires status == Running && chain == [] && Refines(m, ctx[..]) && m.top == cfg.mem
      modifies this, pool, ctx, ram
      ensures var o := CallStack.RunFirst(cfg, m, name, argv);
        Refines(o.m, ctx[..]) && (status == Running ==> r == o.ret && (r == 0 <==> chain != []))
      ensures status == Running ==> ram[..] == RamAfterLoad(cfg, m.top, name, old(ram[..]))
    {
      var newp := TakeSlot();
      if newp == NULL {
        status := Stopped;
        return 0;
      }
      SpareApart(newp);
      label taken:
      procs := procs[newp := procs[newp].(freemark := NULL)];
      SpareFilled@taken(newp);
      assert Shows(m, ctx[..], 1);
      r := StartFirst(ctx, newp, name, argv, m);
    }

    /** `run_first` from `load` on. */
    method StartFirst(ctx: array<u64>, newp: int, name: Str, argv: int, ghost m: Machine) returns (r: int)
      requires ctx.Length == NREG && ctx as object != ram
      requires status == Running && chain == [] && Core(multiset{newp}) && Shows(m, ctx[..], 1)
      requires m.top == cfg.mem && m.avail > 0 && newp in procs && procs[newp].freemark == NULL
      modifies this, pool, ctx, ram
      ensures var l := CallStack.Load(cfg, m.top, name);
        if l.BadAccess? then status == Crashed
        else
          && status == Running && Core(multiset{})
          && (if l.NotLoaded? || cfg.End() - (m.top + l.size) < STACKSZ then r == -1 && Shows(m, ctx[..], 0) && chain == []
              else r == 0 && chain != [] && Shows(Push(m, First(m, l.size, argv), Set(m.regs, RIP, Word(l.entry))), ctx[..], 0))
      ensures status == Running ==> ram[..] == RamAfterLoad(cfg, m.top, name, old(ram[..]))
    {
      var r0, entry := LoadSlot(name, newp);
      if status != Running {
        return 0;
      }
      if r0 != 0 {
        DropSlot(newp);
        return -1;
      }
      SpareFilled(newp);
      r := EnterFirst(ctx, newp, entry, argv, m, CallStack.Load(cfg, m.top, name).size);
    }

    /** `run_first` after a successful load. */
    method EnterFirst(ctx: array<u64>, newp: int, entry: int, argv: int, ghost m: Machine, ghost size: int)
      returns (r: int)
      requires ctx.Length == NREG && status == Running && Core(multiset{newp}) && chain == [] && newp in procs
      requires m.Live? && m.frames == [] && m.regs == ctx[..] && m.cells == cells && m.avail == Available(pool.g, pool.s) + 1
      requires procs[newp].freemark == NULL && procs[newp].load == m.top == cfg.mem && procs[newp].loadsz == size
      requires Top() == m.top + size
      modifies this`execbufp, this`procs, this`curp, this`chain, pool, ctx
      ensures Core(multiset{})
      ensures if cfg.End() - (m.top + size) < STACKSZ then r == -1 && Shows(m, ctx[..], 0) && chain == []
        else r == 0 && chain != [] && Shows(Push(m, First(m, size, argv), Set(m.regs, RIP, Word(entry))), ctx[..], 0)
    {
      var stack := TakeStack(newp);
      if stack == NULL {
        FailStack(newp, m, ctx[..]);
        return -1;
      }
      procs := procs[newp := procs[newp].(argv := argv, code := NULL)];
      SpareFilled(newp);
      LinkSlot(newp, NULL);
      ctx[RIP] := Word(entry);
      assert FrameOf(procs[newp], ZERO_REGS) == First(m, size, argv);
      return 0;
    }

    /** `syscall_hnd`, with `syscall_do`'s table. A number outside the table is a wild call. */
    method SyscallHnd(ctx: array<u64>, opcode: u16, argv0: Option<Str>, other: int, ghost m: Machine)
      requires ctx.Length == NREG && ctx as object != ram
      requires status == Running && chain != [] && Refines(m, ctx[..])
      modifies this, pool, ctx, ram
      ensures Refines(Syscall(cfg, m, opcode, argv0, other), ctx[..]) && (status == Running ==> chain != [])
    {
      if opcode != INT_0X81 {
        return;
      }
      ctx[RIP] := Word(ctx[RIP] as int + 2);
      ghost var n := Advanced(m);
      var ret := SyscallDo(ctx, argv0, other, n);
      if status == Running {
        ctx[RAX] := RetWord(ret);
      }
    }

    method SyscallDo(ctx: array<u64>, argv0: Option<Str>, other: int, ghost m: Machine) returns (ret: int)
      requires ctx.Length == NREG && ctx as object != ram
      requires status == Running && chain != [] && Refines(m, ctx[..])
      modifies this, pool, ctx, ram
      ensures var o := Dispatch(cfg, m, argv0, other);
        Refines(o.m, ctx[..]) && (status == Running ==> ret == o.ret && chain != [])
    {
      var nr := ToInt32(ctx[RAX]);
      if nr == SYS_RUN {
        ret := SysRun(ctx, argv0, ctx[RBX], ctx[RCX], m);
      } else if nr == SYS_EXIT {
        ret := SysExit(ctx, ToInt32(ctx[RBX]), m);
      } else if 0 <= nr < NSYSCALLS {
        ret := other;
      } else {
        status := Crashed;
        ret := 0;
      }
    }

    /** A process runs on its own. */
    method UserStep(ctx: array<u64>, regs: Regs, after: map<int, int>, ghost m: Machine)
      requires ctx.Length == NREG && status == Running && chain != [] && Refines(m, ctx[..])
      modifies this`cells, ctx
      ensures Refines(Live(m.frames, m.top, m.avail, regs, after), ctx[..]) && chain != []
    {
      CopyRegs(ctx, regs);
      cells := after;
    }

    /** Whatever happens to a kernel that has started its first process, the state stays the one
        of the abstract machine: the chain of `prev` words from `curp` is its stack. */
    method Handle(ctx: array<u64>, es: seq<CallStack.Event>, ghost m: Machine)
      requires ctx.Length == NREG && ctx as object != ram
      requires status == Running && chain != [] && Refines(m, ctx[..])
      modifies this, pool, ctx, ram
      ensures Refines(Steps(cfg, m, es), ctx[..])
    {
      ghost var n := m;
      var i := 0;
      while i < |es| && status == Running
        invariant i <= |es| && Refines(n, ctx[..]) && (status == Running ==> chain != [])
        invariant Steps(cfg, m, es) == Steps(cfg, n, es[i..])
        decreases |es| - i
      {
        assert es[i..][0] == es[i] && es[i..][1..] == es[i + 1..];
        ghost var next := CallStack.Step(cfg, n, es[i]);
        match es[i] {
          case User(regs, after) =>
            UserStep(ctx, regs, after, n);
          case Trap(opcode, argv0, other) =>
            SyscallHnd(ctx, opcode, argv0, other, n);
        }
        n := next;
        i := i + 1;
      }
      if status != Running {
        NestedCalls.DeadStays(cfg, n, es[i..]);
      }
    }

    /** `kernel_start`: the first process is the shell; when it cannot be started the kernel
        panics, otherwise it handles what happens. */
    method KernelStart(ctx: array<u64>, argv: int, es: seq<CallStack.Event>, ghost m: Machine)
      requires ctx.Length == NREG && ctx as object != ram
      requires status == Running && chain == [] && Refines(m, ctx[..]) && m.top == cfg.mem
      modifies this, pool, ctx, ram
      ensures var o := CallStack.RunFirst(cfg, m, SHELL, argv);
        Refines(if o.m.Live? && o.ret != 0 then Halted else Steps(cfg, o.m, es), ctx[..])
    {
      ghost var o := CallStack.RunFirst(cfg, m, SHELL, argv);
      var r := RunFirst(ctx, SHELL, argv, m);
      if status != Running {
        NestedCalls.DeadStays(cfg, o.m, es);
        return;
      }
      if r != 0 {
        status := Stopped;
        return;
      }
      Handle(ctx, es, o.m);
    }

    /** In every such state the two lists that share the slots' first words, the running
        processes from `curp` and the free slots, are without repetition and apart, and with the
        never-used slots they are all the slots. */
    lemma SlotsShared(m: Machine, regs: Regs)
      requires status == Running && Refines(m, regs)
      ensures Linked(pool.word, curp, chain) && Linked(pool.word, pool.freehead, pool.s.free)
      ensures Distinct(chain) && Distinct(pool.s.free) && forall b | b in chain :: b !in pool.s.free
      ensures multiset(chain) + multiset(pool.s.free) + multiset(pool.g.From(pool.s.used)) == multiset(pool.g.From(0))
      ensures |m.frames| == |chain|
    {
      var live := pool.s.live;
      assert multiset(chain) == multiset(live);
      SharedMeans(pool.s.free, live, pool.g.From(pool.s.used), pool.g.From(0));
      FramesLength(procs, chain);
      forall b | b in chain
        ensures b !in pool.s.free
      {
        ChainLive(chain, multiset{}, live, b);
      }
      forall i, j | 0 <= i < j < |chain|
        ensures chain[i] != chain[j]
      {
        if chain[i] == chain[j] {
          TwiceInMultiset(chain, i, j);
          assert false;
        }
      }
    }
  }
}
