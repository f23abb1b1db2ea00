/** From a file in the archive to a program in memory: the archive walk, the header checks and the
    copy taken together. */
module Programs {
  import opened Strings
  import Bits
  import opened Bytes
  import opened CallStack
  import Archive
  import Elf
  import Kernels

  /** `i` is the first file of this name. */
  ghost predicate FirstNamed(files: seq<Archive.Entry>, name: Str, i: nat) {
    i < |files| && Archive.FirstOf(files, name, i)
  }

  /** What is somewhere in a part is in the whole. */
  lemma AtPart(img: seq<byte>, base: nat, data: seq<byte>, o: nat, part: seq<byte>)
    requires At(img, base, data) && At(data, o, part)
    ensures At(img, base + o, part)
  {
    var d := img[base..base + |data|];
    assert d[o..o + |part|] == part;
    forall k | 0 <= k < |part|
      ensures img[base + o + k] == part[k]
    {
      assert d[o..o + |part|][k] == d[o + k] == img[base + (o + k)];
    }
  }

  /** An executable is one wherever it is put. */
  lemma HoldsPart(img: seq<byte>, base: nat, data: seq<byte>, e: Elf.FileHeader, ps: seq<Elf.ProgramHeader>)
    requires At(img, base, data) && Elf.Holds(data, 0, e, ps)
    ensures Elf.Holds(img, base, e, ps)
  {
    AtPart(img, base, data, 0, Elf.PutFileHeader(e));
    forall i | 0 <= i < |ps|
      ensures At(img, Elf.Entry(base + e.phoff, i), Elf.PutProgramHeader(ps[i]))
    {
      AtPart(img, base, data, Elf.Entry(e.phoff, i), Elf.PutProgramHeader(ps[i]));
    }
  }

  /** A name means the first file of that name, at a place where the archive has the file's bytes. */
  lemma NamedFile(rootfs: seq<byte>, files: seq<Archive.Entry>, end: Archive.Entry, name: Str, i: nat) returns (base: nat)
    requires Archive.Stored(rootfs, 0, files, end) && CString(name, NUL) && FirstNamed(files, name, i)
    ensures At(rootfs, base, files[i].data)
    ensures Executable(rootfs, name) == Elf.Parse(rootfs, base)
  {
    var k := Archive.LookupInSerialised(rootfs, files, end, name);
    assert k == i;
    base := Archive.Content(rootfs, Archive.Find(rootfs, 0, name).h);
  }

  /** If that is an executable laid out as the gABI says, it is its first loadable segment. */
  lemma NamedProgram(rootfs: seq<byte>, files: seq<Archive.Entry>, end: Archive.Entry, name: Str, i: nat,
                     e: Elf.FileHeader, ps: seq<Elf.ProgramHeader>) returns (base: nat)
    requires Archive.Stored(rootfs, 0, files, end) && CString(name, NUL) && FirstNamed(files, name, i)
    requires Elf.Holds(files[i].data, 0, e, ps)
    ensures At(rootfs, base, files[i].data)
    ensures Executable(rootfs, name) == Elf.Meaning(base, e, ps)
  {
    base := NamedFile(rootfs, files, end, name, i);
    HoldsPart(rootfs, base, files[i].data, e, ps);
    Elf.ParseMeaning(rootfs, base, e, ps);
  }

  /** A file that does not start with the magic of a 64-bit executable is not loaded. */
  lemma NotExecutable(cfg: Config, top: int, files: seq<Archive.Entry>, end: Archive.Entry, name: Str, i: nat)
    requires Archive.Stored(cfg.rootfs, 0, files, end) && CString(name, NUL) && FirstNamed(files, name, i)
    requires |files[i].data| >= 5 && files[i].data[..5] != [0x7f, 69, 76, 70, 2]
    ensures Load(cfg, top, name).NotLoaded?
  {
    var base := NamedFile(cfg.rootfs, files, end, name, i);
    var data := files[i].data;
    assert data[..5] + data[5..] == data;
    Elf.WrongMagic(cfg.rootfs, base, data[..5], data[5..]);
  }

  /** Neither is one whose header names no program headers, no entry point or another entry size. */
  lemma BadHeader(cfg: Config, top: int, files: seq<Archive.Entry>, end: Archive.Entry, name: Str, i: nat, e: Elf.FileHeader)
    requires Archive.Stored(cfg.rootfs, 0, files, end) && CString(name, NUL) && FirstNamed(files, name, i)
    requires |e.ident| == 16 && At(files[i].data, 0, Elf.PutFileHeader(e))
    requires e.phoff == 0 || e.phnum == 0 || e.entry == 0 || e.phentsize != 56
    ensures Load(cfg, top, name).NotLoaded?
  {
    var base := NamedFile(cfg.rootfs, files, end, name, i);
    HeaderPart(cfg.rootfs, base, files[i].data, e);
    Elf.HeaderRejected(cfg.rootfs, base, e);
  }

  lemma HeaderPart(img: seq<byte>, base: nat, data: seq<byte>, e: Elf.FileHeader)
    requires At(img, base, data) && At(data, 0, Elf.PutFileHeader(e))
    ensures At(img, base, Elf.PutFileHeader(e))
  {
    AtPart(img, base, data, 0, Elf.PutFileHeader(e));
  }

  /** An archive cut off before its trailer crashes the kernel on every name that is not in it. */
  lemma CutOff(cfg: Config, top: int, files: seq<Archive.Entry>, name: Str)
    requires Archive.Unclosed(cfg.rootfs, 0, files, name)
    ensures Load(cfg, top, name).BadAccess?
  {
    Archive.NoTrailer(cfg.rootfs, 0, files, name);
  }

  /** A name no file has is not loaded, and neither is the trailer's. */
  lemma NoProgram(cfg: Config, top: int, files: seq<Archive.Entry>, end: Archive.Entry, name: Str)
    requires Archive.Stored(cfg.rootfs, 0, files, end) && CString(name, NUL) && forall j | 0 <= j < |files| :: files[j].name != name
    ensures Load(cfg, top, name).NotLoaded?
  {
    var k := Archive.LookupInSerialised(cfg.rootfs, files, end, name);
  }

  /** The segment the headers ask for, if they ask for one `load` accepts. */
  ghost predicate Asks(e: Elf.FileHeader, ps: seq<Elf.ProgramHeader>, p: Elf.ProgramHeader) {
    var k := Elf.FirstLoadable(ps, 0);
    k < |ps| && p == ps[k] && p.vaddr <= e.entry < (p.vaddr + p.memsz) % Bits.MOD64
  }

  /** The segment is inside its file, with no more bytes there than in memory. */
  ghost predicate Sound(data: seq<byte>, p: Elf.ProgramHeader) {
    p.offset + p.filesz <= |data| && p.filesz <= p.memsz
  }

  /** `r` is `ram` with the segment's bytes in the file, and zeros after them, from `o` on. */
  ghost predicate Occupies(data: seq<byte>, p: Elf.ProgramHeader, ram: seq<byte>, o: int, r: seq<byte>) {
    && Sound(data, p) && 0 <= o && o + p.memsz <= |r| == |ram|
    && r[o..o + p.memsz] == data[p.offset..p.offset + p.filesz] + Fill(NUL, p.memsz - p.filesz)
    && r[..o] == ram[..o] && r[o + p.memsz..] == ram[o + p.memsz..]
  }

  /** A file of that name that asks for no such segment is turned down. */
  lemma ProgramRefused(cfg: Config, top: int, files: seq<Archive.Entry>, end: Archive.Entry, name: Str, i: nat,
                       e: Elf.FileHeader, ps: seq<Elf.ProgramHeader>)
    requires Archive.Stored(cfg.rootfs, 0, files, end) && CString(name, NUL) && FirstNamed(files, name, i)
    requires Elf.Holds(files[i].data, 0, e, ps)
    ensures Load(cfg, top, name).NotLoaded? <==> forall p :: !Asks(e, ps, p)
  {
    var base := NamedProgram(cfg.rootfs, files, end, name, i, e, ps);
    RefusedMeaning(cfg, top, base, e, ps);
  }

  lemma RefusedMeaning(cfg: Config, top: int, base: nat, e: Elf.FileHeader, ps: seq<Elf.ProgramHeader>)
    ensures LoadImage(cfg, top, Elf.Meaning(base, e, ps)).NotLoaded? <==> forall p :: !Asks(e, ps, p)
  {
    var k := Elf.FirstLoadable(ps, 0);
    if k < |ps| && ps[k].vaddr <= e.entry < (ps[k].vaddr + ps[k].memsz) % Bits.MOD64 {
      assert Asks(e, ps, ps[k]);
    }
  }

  /** A file of that name that asks for a sound segment is loaded exactly when the segment and its
      pages fit the memory left; otherwise the kernel crashes. When it is loaded, the memory from
      the heap top on has the segment's bytes of that file and then zeros, all other memory is as
      it was, and the entry is as far into the segment as the file says. */
  lemma ProgramLoaded(cfg: Config, top: int, files: seq<Archive.Entry>, end: Archive.Entry, name: Str, i: nat,
                      e: Elf.FileHeader, ps: seq<Elf.ProgramHeader>, p: Elf.ProgramHeader, ram: seq<byte>)
    requires cfg.mem <= top && |ram| == cfg.memsz
    requires Archive.Stored(cfg.rootfs, 0, files, end) && CString(name, NUL) && FirstNamed(files, name, i)
    requires Elf.Holds(files[i].data, 0, e, ps) && Asks(e, ps, p) && Sound(files[i].data, p)
    ensures Load(cfg, top, name) ==
      if p.memsz <= cfg.End() - top && LoadSize(p.memsz) <= cfg.End() - top
      then Loaded(LoadSize(p.memsz), top + (e.entry - p.vaddr)) else BadAccess
    ensures Load(cfg, top, name).Loaded? ==>
      Occupies(files[i].data, p, ram, top - cfg.mem, Kernels.RamAfterLoad(cfg, top, name, ram))
  {
    var base := NamedProgram(cfg.rootfs, files, end, name, i, e, ps);
    AskedMeaning(base, e, ps, p);
    var s := Executable(cfg.rootfs, name);
    SegmentLoaded(cfg, top, base, files[i].data, s, p, ram);
  }

  lemma AskedMeaning(base: nat, e: Elf.FileHeader, ps: seq<Elf.ProgramHeader>, p: Elf.ProgramHeader)
    requires Asks(e, ps, p)
    ensures Elf.Meaning(base, e, ps) == Elf.Segment(p.vaddr, p.memsz, base + p.offset, p.filesz, e.entry)
  {
  }

  lemma SegmentLoaded(cfg: Config, top: int, base: nat, data: seq<byte>, s: Elf.Image, p: Elf.ProgramHeader, ram: seq<byte>)
    requires cfg.mem <= top && |ram| == cfg.memsz
    requires s.Segment? && s == Elf.Segment(p.vaddr, p.memsz, base + p.offset, p.filesz, s.entry)
    requires At(cfg.rootfs, base, data) && Sound(data, p)
    ensures LoadImage(cfg, top, s) ==
      if p.memsz <= cfg.End() - top && LoadSize(p.memsz) <= cfg.End() - top
      then Loaded(LoadSize(p.memsz), top + (s.entry - p.vaddr)) else BadAccess
    ensures LoadImage(cfg, top, s).Loaded? ==>
      Occupies(data, p, ram, top - cfg.mem, Kernels.RamAfterImage(cfg, top, s, ram))
  {
    SegmentInFile(cfg.rootfs, base, data, s, p);
    if Fits(cfg, top, s) {
      ImageOccupies(data, p, ram, top - cfg.mem);
    }
  }

  lemma SegmentInFile(rootfs: seq<byte>, base: nat, data: seq<byte>, s: Elf.Image, p: Elf.ProgramHeader)
    requires s.Segment? && s.src == base + p.offset && s.filesz == p.filesz
    requires At(rootfs, base, data) && Sound(data, p)
    ensures s.src + s.filesz <= |rootfs|
    ensures Kernels.SegmentBytes(rootfs, s) == data[p.offset..p.offset + p.filesz]
  {
    AtPart(rootfs, base, data, p.offset, data[p.offset..p.offset + p.filesz]);
  }

  lemma ImageOccupies(data: seq<byte>, p: Elf.ProgramHeader, ram: seq<byte>, o: nat)
    requires Sound(data, p) && o + p.memsz <= |ram|
    ensures Occupies(data, p, ram, o, Kernels.Image(ram, o, p.memsz, data[p.offset..p.offset + p.filesz]))
  {
    Kernels.ImageMeaning(ram, o, p.memsz, data[p.offset..p.offset + p.filesz]);
  }
}
