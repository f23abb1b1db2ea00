/** The 64-bit ELF executables `load` accepts ("Program Header" in chapter 5 of the System V gABI). */
module Elf {
  import Bits
  import opened Bytes

  const MAGIC: seq<byte> := [0x7f, 69, 76, 70, 2]  // 0x7f, "ELF", 64-bit class
  const PT_LOAD: u32 := 1
  const EHDRSZ: nat := 64
  const PHDRSZ: nat := 56

  /** The first loadable segment with the entry point inside it; a file `load` turns down; or a
      file whose headers lead outside the archive. `src` is where in the archive the data is. */
  datatype Image = Rejected | Overrun | Segment(vaddr: u64, memsz: u64, src: nat, filesz: u64, entry: u64)

  /** `memcmp` of the bytes from `o` with `t`. */
  function CompareBytes(img: seq<byte>, o: nat, t: seq<byte>): Comparison
    decreases |t|
  {
    if t == [] then Same
    else if o >= |img| then OffEnd
    else if img[o] == t[0] then CompareBytes(img, o + 1, t[1..])
    else Different
  }

  method Memcmp(img: seq<byte>, o: nat, t: seq<byte>) returns (r: Comparison)
    ensures r == CompareBytes(img, o, t)
  {
    var i := 0;
    while i < |t|
      invariant i <= |t| && CompareBytes(img, o, t) == CompareBytes(img, o + i, t[i..])
    {
      if o + i >= |img| {
        return OffEnd;
      }
      if img[o + i] != t[i] {
        return Different;
      }
      assert t[i..][1..] == t[i + 1..];
      i := i + 1;
    }
    return Same;
  }

  lemma {:induction false} CompareBytesDecides(img: seq<byte>, o: nat, t: seq<byte>)
    ensures CompareBytes(img, o, t).Same? <==> At(img, o, t) || t == []
    decreases |t|
  {
    if t != [] {
      assert t == [t[0]] + t[1..];
      AtConcat(img, o, [t[0]], t[1..]);
      CompareBytesDecides(img, o + 1, t[1..]);
      if o < |img| {
        assert img[o..o + 1] == [img[o]];
      }
    }
  }

  /** The index from `i` of the first PT_LOAD header of the table at `ph`, `n` if there is none;
      -1 when a header outside the archive is asked for its type. */
  function FirstLoad(img: seq<byte>, ph: nat, n: nat, i: nat): (r: int)
    requires i <= n
    ensures -1 <= r <= n
    ensures i <= r < n ==> ph + PHDRSZ * r + 4 <= |img| && Read32(img, ph + PHDRSZ * r) == PT_LOAD
    ensures r >= 0 ==> i <= r && forall j | i <= j < r :: ph + PHDRSZ * j + 4 <= |img| && Read32(img, ph + PHDRSZ * j) != PT_LOAD
    decreases n - i
  {
    if i == n then n
    else if ph + PHDRSZ * i + 4 > |img| then -1
    else if Read32(img, ph + PHDRSZ * i) == PT_LOAD then i
    else FirstLoad(img, ph, n, i + 1)
  }

  /** An accepted segment holds its entry point, without wrap-around. */
  predicate HoldsEntry(s: Image) {
    s.Segment? ==> s.vaddr <= s.entry < s.vaddr + s.memsz < Bits.MOD64
  }

  /** An entry point that passes both tests is in a segment that does not wrap around. */
  lemma NoWrap(vaddr: u64, memsz: u64, entry: u64)
    requires vaddr <= entry < (vaddr + memsz) % Bits.MOD64
    ensures entry < vaddr + memsz < Bits.MOD64
  {
  }

  /** What the header at `base` and the table it points to say, in the order `load` looks. */
  function Parse(img: seq<byte>, base: nat): (s: Image)
    ensures HoldsEntry(s)
  {
    match CompareBytes(img, base, MAGIC)
    case OffEnd => Overrun
    case Different => Rejected
    case Same =>
      if base + 40 > |img| then Overrun
      else if Read64(img, base + 32) == 0 then Rejected
      else if base + 58 > |img| then Overrun
      else if Read16(img, base + 56) == 0 || Read64(img, base + 24) == 0 || Read16(img, base + 54) != PHDRSZ then Rejected
      else ParseTable(img, base, base + Read64(img, base + 32), Read16(img, base + 56), Read64(img, base + 24))
  }

  function ParseTable(img: seq<byte>, base: nat, ph: nat, n: u16, entry: u64): (s: Image)
    ensures HoldsEntry(s)
  {
    var i := FirstLoad(img, ph, n, 0);
    if i == n then Rejected else if i == -1 then Overrun else ParseLoad(img, base, ph + PHDRSZ * i, entry)
  }

  function ParseLoad(img: seq<byte>, base: nat, h: nat, entry: u64): (s: Image)
    ensures HoldsEntry(s)
  {
    if h + 24 > |img| then Overrun
    else
      var vaddr := Read64(img, h + 16);
      if entry < vaddr then Rejected
      else if h + 48 > |img| then Overrun
      else
        var memsz := Read64(img, h + 40);
        if (vaddr + memsz) % Bits.MOD64 <= entry then Rejected
        else
          NoWrap(vaddr, memsz, entry);
          Segment(vaddr, memsz, base + Read64(img, h + 8), Read64(img, h + 32), entry)
  }

  /** The loop of `load` over the program headers. */
  method ScanTable(img: seq<byte>, base: nat, phdrs: nat, phnum: u16, entry: u64) returns (r: Image)
    ensures r == ParseTable(img, base, phdrs, phnum, entry)
  {
    var i := 0;
    while i < phnum
      invariant 0 <= i <= phnum
      invariant FirstLoad(img, phdrs, phnum, 0) == FirstLoad(img, phdrs, phnum, i)
    {
      if phdrs + PHDRSZ * i + 4 > |img| {
        return Overrun;
      }
      if Read32(img, phdrs + PHDRSZ * i) == PT_LOAD {
        return ParseLoad(img, base, phdrs + PHDRSZ * i, entry);
      }
      i := i + 1;
    }
    return Rejected;
  }

  /** The part of `load` that only reads. */
  method ParseHeaders(img: seq<byte>, base: nat) returns (r: Image)
    ensures r == Parse(img, base)
  {
    var c := Memcmp(img, base, MAGIC);
    if c.OffEnd? {
      return Overrun;
    }
    if c.Different? {
      return Rejected;
    }
    if base + 40 > |img| {
      return Overrun;
    }
    var phoff := Read64(img, base + 32);
    if phoff == 0 {
      return Rejected;
    }
    if base + 58 > |img| {
      return Overrun;
    }
    var phnum, entry := Read16(img, base + 56), Read64(img, base + 24);
    if phnum == 0 || entry == 0 || Read16(img, base + 54) != PHDRSZ {
      return Rejected;
    }
    r := ScanTable(img, base, base + phoff, phnum, entry);
  }

  /** The layout the gABI gives the two headers. */
  datatype FileHeader = FileHeader(ident: seq<byte>, etype: u16, machine: u16, version: u32, entry: u64,
                                   phoff: u64, shoff: u64, flags: u32, ehsize: u16, phentsize: u16,
                                   phnum: u16, shentsize: u16, shnum: u16, shstrndx: u16)

  datatype ProgramHeader = ProgramHeader(ptype: u32, flags: u32, offset: u64, vaddr: u64, paddr: u64,
                                         filesz: u64, memsz: u64, palign: u64)

  function PutFileHeader(e: FileHeader): seq<byte> {
    e.ident + Put16(e.etype) + Put16(e.machine) + Put32(e.version) + Put64(e.entry)
    + Put64(e.phoff) + Put64(e.shoff) + Put32(e.flags) + Put16(e.ehsize) + Put16(e.phentsize)
    + Put16(e.phnum) + Put16(e.shentsize) + Put16(e.shnum) + Put16(e.shstrndx)
  }

  function PutProgramHeader(p: ProgramHeader): (s: seq<byte>)
    ensures |s| == PHDRSZ
  {
    Put32(p.ptype) + Put32(p.flags) + Put64(p.offset) + Put64(p.vaddr) + Put64(p.paddr)
    + Put64(p.filesz) + Put64(p.memsz) + Put64(p.palign)
  }

  function Entry(ph: nat, i: nat): nat {
    ph + PHDRSZ * i
  }

  /** The file at `base` has this header and, where it says, this program header table. */
  ghost predicate Holds(img: seq<byte>, base: nat, e: FileHeader, ps: seq<ProgramHeader>) {
    && |e.ident| == 16 && e.ident[..5] == MAGIC
    && e.phentsize == PHDRSZ && e.phnum == |ps| && |ps| > 0 && e.phoff > 0 && e.entry > 0
    && At(img, base, PutFileHeader(e))
    && forall i | 0 <= i < |ps| :: At(img, Entry(base + e.phoff, i), PutProgramHeader(ps[i]))
  }

  function FirstLoadable(ps: seq<ProgramHeader>, i: nat): (r: nat)
    requires i <= |ps|
    ensures i <= r <= |ps|
    ensures r < |ps| ==> ps[r].ptype == 1
    ensures forall j | i <= j < r :: ps[j].ptype != 1
    decreases |ps| - i
  {
    if i == |ps| || ps[i].ptype == PT_LOAD then i else FirstLoadable(ps, i + 1)
  }

  /** What an executable asks for: its first loadable segment, if the entry point is inside. */
  function Meaning(base: nat, e: FileHeader, ps: seq<ProgramHeader>): Image {
    var i := FirstLoadable(ps, 0);
    if i < |ps| && ps[i].vaddr <= e.entry < (ps[i].vaddr + ps[i].memsz) % Bits.MOD64
    then Segment(ps[i].vaddr, ps[i].memsz, base + ps[i].offset, ps[i].filesz, e.entry)
    else Rejected
  }

  /** On a file laid out as the gABI says, `load` reads what the headers mean. */
  lemma ParseMeaning(img: seq<byte>, base: nat, e: FileHeader, ps: seq<ProgramHeader>)
    requires Holds(img, base, e, ps)
    ensures Parse(img, base) == Meaning(base, e, ps)
  {
    GoodHeader(img, base, e);
    TableReads(img, base + e.phoff, ps);
    TableParsed(img, base, e, ps);
  }

  lemma HeaderParsed(img: seq<byte>, base: nat, e: FileHeader)
    requires CompareBytes(img, base, MAGIC).Same? && HeaderReadsAs(img, base, e)
    requires e.phentsize == PHDRSZ && e.phnum > 0 && e.phoff > 0 && e.entry > 0
    ensures Parse(img, base) == ParseTable(img, base, base + e.phoff, e.phnum, e.entry)
  {
  }

  lemma MagicMatches(img: seq<byte>, base: nat, ident: seq<byte>)
    requires |ident| == 16 && ident[..5] == MAGIC && At(img, base, ident)
    ensures CompareBytes(img, base, MAGIC).Same?
  {
    assert ident == ident[..5] + ident[5..];
    AtConcat(img, base, ident[..5], ident[5..]);
    CompareBytesDecides(img, base, ident[..5]);
  }

  /** The fields `load` reads of a program header. */
  predicate ReadsAs(img: seq<byte>, h: nat, p: ProgramHeader) {
    && h + PHDRSZ <= |img|
    && Read32(img, h) == p.ptype && Read64(img, h + 8) == p.offset && Read64(img, h + 16) == p.vaddr
    && Read64(img, h + 32) == p.filesz && Read64(img, h + 40) == p.memsz
  }

  lemma TableParsed(img: seq<byte>, base: nat, e: FileHeader, ps: seq<ProgramHeader>)
    requires e.phnum == |ps|
    requires forall i | 0 <= i < |ps| :: ReadsAs(img, Entry(base + e.phoff, i), ps[i])
    ensures ParseTable(img, base, base + e.phoff, e.phnum, e.entry) == Meaning(base, e, ps)
  {
    var ph := base + e.phoff;
    TableMeaning(img, ph, ps, 0);
    var i := FirstLoadable(ps, 0);
    if i < |ps| {
      assert ReadsAs(img, Entry(ph, i), ps[i]);
      LoadMeaning(img, base, Entry(ph, i), e.entry, ps[i]);
      FoundLoad(img, base, ph, |ps|, i, e.entry);
    }
  }

  lemma FoundLoad(img: seq<byte>, base: nat, ph: nat, n: u16, i: nat, entry: u64)
    requires i < n && FirstLoad(img, ph, n, 0) == i
    ensures ParseTable(img, base, ph, n, entry) == ParseLoad(img, base, Entry(ph, i), entry)
  {
  }

  lemma LoadMeaning(img: seq<byte>, base: nat, h: nat, entry: u64, p: ProgramHeader)
    requires ReadsAs(img, h, p)
    ensures ParseLoad(img, base, h, entry) ==
      if p.vaddr <= entry < (p.vaddr + p.memsz) % Bits.MOD64
      then Segment(p.vaddr, p.memsz, base + p.offset, p.filesz, entry) else Rejected
  {
  }

  lemma {:induction false} TableMeaning(img: seq<byte>, ph: nat, ps: seq<ProgramHeader>, i: nat)
    requires i <= |ps| && forall k | 0 <= k < |ps| :: ReadsAs(img, Entry(ph, k), ps[k])
    ensures FirstLoad(img, ph, |ps|, i) == FirstLoadable(ps, i)
    decreases |ps| - i
  {
    if i < |ps| {
      assert ReadsAs(img, Entry(ph, i), ps[i]);
      TableMeaning(img, ph, ps, i + 1);
    }
  }

  lemma ReadProgramHeader(img: seq<byte>, h: nat, p: ProgramHeader)
    requires At(img, h, PutProgramHeader(p))
    ensures ReadsAs(img, h, p)
  {
    var a := Put32(p.ptype) + Put32(p.flags);
    var b := a + Put64(p.offset);
    var c := b + Put64(p.vaddr);
    var d := c + Put64(p.paddr);
    var f := d + Put64(p.filesz);
    var g := f + Put64(p.memsz);
    AtConcat(img, h, g, Put64(p.palign));
    AtConcat(img, h, f, Put64(p.memsz));
    AtConcat(img, h, d, Put64(p.filesz));
    AtConcat(img, h, c, Put64(p.paddr));
    AtConcat(img, h, b, Put64(p.vaddr));
    AtConcat(img, h, a, Put64(p.offset));
    AtConcat(img, h, Put32(p.ptype), Put32(p.flags));
    ReadPut32(img, h, p.ptype);
    ReadPut64(img, h + 8, p.offset);
    ReadPut64(img, h + 16, p.vaddr);
    ReadPut64(img, h + 32, p.filesz);
    ReadPut64(img, h + 40, p.memsz);
  }

  /** Whatever else is in the file, a header without the five bytes of the magic, without program
      headers or an entry point, or with entries of another size is rejected. */
  lemma HeaderRejected(img: seq<byte>, base: nat, e: FileHeader)
    requires |e.ident| == 16 && At(img, base, PutFileHeader(e))
    requires e.ident[..5] != [0x7f, 69, 76, 70, 2] || e.phoff == 0 || e.phnum == 0 || e.entry == 0 || e.phentsize != 56
    ensures Parse(img, base) == Rejected
  {
    ReadFileHeader(img, base, e);
    if e.ident[..5] == MAGIC {
      MagicMatches(img, base, e.ident);
    } else {
      WrongMagic(img, base, e.ident[..5], e.ident[5..]);
      assert e.ident[..5] + e.ident[5..] == e.ident;
    }
  }

  /** A table whose headers are none of them loadable as far as the archive goes leads outside it. */
  lemma TableOverrun(img: seq<byte>, base: nat, e: FileHeader, ps: seq<ProgramHeader>)
    requires |e.ident| == 16 && e.ident[..5] == MAGIC && At(img, base, PutFileHeader(e))
    requires e.phoff > 0 && e.entry > 0 && e.phentsize == PHDRSZ && |ps| < e.phnum
    requires forall i | 0 <= i < |ps| :: ps[i].ptype != 1 && At(img, Entry(base + e.phoff, i), PutProgramHeader(ps[i]))
    requires Entry(base + e.phoff, |ps|) + 4 > |img|
    ensures Parse(img, base) == Overrun
  {
    GoodHeader(img, base, e);
    TableReads(img, base + e.phoff, ps);
    NoneLoadable(img, base + e.phoff, ps, e.phnum, 0);
  }

  lemma GoodHeader(img: seq<byte>, base: nat, e: FileHeader)
    requires |e.ident| == 16 && e.ident[..5] == MAGIC && At(img, base, PutFileHeader(e))
    requires e.phoff > 0 && e.entry > 0 && e.phentsize == PHDRSZ && e.phnum > 0
    ensures Parse(img, base) == ParseTable(img, base, base + e.phoff, e.phnum, e.entry)
  {
    ReadFileHeader(img, base, e);
    MagicMatches(img, base, e.ident);
    HeaderParsed(img, base, e);
  }

  lemma TableReads(img: seq<byte>, ph: nat, ps: seq<ProgramHeader>)
    requires forall i | 0 <= i < |ps| :: At(img, Entry(ph, i), PutProgramHeader(ps[i]))
    ensures forall i | 0 <= i < |ps| :: ReadsAs(img, Entry(ph, i), ps[i])
  {
    forall i | 0 <= i < |ps|
      ensures ReadsAs(img, Entry(ph, i), ps[i])
    {
      ReadProgramHeader(img, Entry(ph, i), ps[i]);
    }
  }

  lemma {:induction false} NoneLoadable(img: seq<byte>, ph: nat, ps: seq<ProgramHeader>, n: nat, i: nat)
    requires i <= |ps| < n && Entry(ph, |ps|) + 4 > |img|
    requires forall k | 0 <= k < |ps| :: ps[k].ptype != PT_LOAD && ReadsAs(img, Entry(ph, k), ps[k])
    ensures FirstLoad(img, ph, n, i) == -1
    decreases |ps| - i
  {
    if i < |ps| {
      assert ReadsAs(img, Entry(ph, i), ps[i]);
      NoneLoadable(img, ph, ps, n, i + 1);
    }
  }

  /** Nor is more needed of a file with another magic than the magic. */
  lemma WrongMagic(img: seq<byte>, base: nat, five: seq<byte>, rest: seq<byte>)
    requires |five| == 5 && At(img, base, five + rest) && five != [0x7f, 69, 76, 70, 2]
    ensures Parse(img, base) == Rejected
  {
    AtConcat(img, base, five, rest);
    Mismatch(img, base, five, MAGIC);
  }

  lemma {:induction false} Mismatch(img: seq<byte>, o: nat, s: seq<byte>, t: seq<byte>)
    requires |s| == |t| && At(img, o, s) && s != t
    ensures CompareBytes(img, o, t).Different?
    decreases |t|
  {
    assert s == [s[0]] + s[1..] && t == [t[0]] + t[1..];
    AtConcat(img, o, [s[0]], s[1..]);
    assert img[o..o + 1][0] == img[o];
    if s[0] == t[0] {
      Mismatch(img, o + 1, s[1..], t[1..]);
    }
  }

  /** The fields `load` reads of the file header. */
  predicate HeaderReadsAs(img: seq<byte>, base: nat, e: FileHeader) {
    && base + EHDRSZ <= |img|
    && Read64(img, base + 24) == e.entry && Read64(img, base + 32) == e.phoff
    && Read16(img, base + 54) == e.phentsize && Read16(img, base + 56) == e.phnum
  }

  lemma ReadFileHeader(img: seq<byte>, base: nat, e: FileHeader)
    requires |e.ident| == 16 && At(img, base, PutFileHeader(e))
    ensures At(img, base, e.ident) && HeaderReadsAs(img, base, e)
  {
    var a := e.ident + Put16(e.etype) + Put16(e.machine) + Put32(e.version);
    var b := a + Put64(e.entry);
    var c := b + Put64(e.phoff);
    var d := c + Put64(e.shoff) + Put32(e.flags) + Put16(e.ehsize);
    var f := d + Put16(e.phentsize);
    var g := f + Put16(e.phnum);
    var z := g + Put16(e.shentsize) + Put16(e.shnum);
    AtConcat(img, base, z, Put16(e.shstrndx));
    AtConcat(img, base, g + Put16(e.shentsize), Put16(e.shnum));
    AtConcat(img, base, g, Put16(e.shentsize));
    AtConcat(img, base, f, Put16(e.phnum));
    AtConcat(img, base, d, Put16(e.phentsize));
    AtConcat(img, base, c + Put64(e.shoff) + Put32(e.flags), Put16(e.ehsize));
    AtConcat(img, base, c + Put64(e.shoff), Put32(e.flags));
    AtConcat(img, base, c, Put64(e.shoff));
    AtConcat(img, base, b, Put64(e.phoff));
    AtConcat(img, base, a, Put64(e.entry));
    AtConcat(img, base, e.ident + Put16(e.etype) + Put16(e.machine), Put32(e.version));
    AtConcat(img, base, e.ident + Put16(e.etype), Put16(e.machine));
    AtConcat(img, base, e.ident, Put16(e.etype));
    ReadPut64(img, base + 24, e.entry);
    ReadPut64(img, base + 32, e.phoff);
    ReadPut16(img, base + 54, e.phentsize);
    ReadPut16(img, base + 56, e.phnum);
  }
}
