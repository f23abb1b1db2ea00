/** The root file system: an old binary cpio archive, walked from its first header
    (cpio(5), "Old Binary Format"). */
module Archive {
  import opened Strings
  import opened Bits
  import opened Bytes

  const HDRSZ: nat := 26
  const TRAILER: seq<byte> := [84, 82, 65, 73, 76, 69, 82, 33, 33, 33]  // "TRAILER!!!"

  function NameSize(img: seq<byte>, h: nat): u16
    requires h + HDRSZ <= |img|
  {
    Read16(img, h + 20)
  }

  function Name(h: nat): nat {
    h + HDRSZ
  }

  function Content(img: seq<byte>, h: nat): nat
    requires h + HDRSZ <= |img|
  {
    Name(h) + Align(NameSize(img, h), 1)
  }

  /** The size is two half words, the more significant first. Shifting the first one happens in
      a signed int, so a size of 2^31 or more is sign-extended to an unsigned long. */
  function FileSize(img: seq<byte>, h: nat): u64
    requires h + HDRSZ <= |img|
  {
    var v := Read16(img, h + 22) as int * 0x1_0000 + Read16(img, h + 24) as int;
    if v < 0x8000_0000 then v else v + (MOD64 - MOD32)
  }

  function Next(img: seq<byte>, h: nat): nat
    requires h + HDRSZ <= |img|
  {
    Content(img, h) + Align(FileSize(img, h), 1)
  }

  /** `find_exe` on arbitrary bytes: a header, nothing, or a walk off the end of the archive. */
  datatype Lookup = Found(h: nat) | Absent | Overrun

  datatype Verdict = Stop(r: Lookup) | Walk

  /** What the walk decides at one header. */
  function Judge(img: seq<byte>, h: nat, name: seq<byte>): (v: Verdict)
    ensures v.Walk? || v.r.Found? ==> h + HDRSZ < |img|
  {
    match Compare(img, Name(h), TRAILER)
    case OffEnd => Stop(Overrun)
    case Same => Stop(Absent)
    case Different =>
      match Compare(img, Name(h), name)
      case OffEnd => Stop(Overrun)
      case Same => Stop(Found(h))
      case Different => Walk
  }

  function Find(img: seq<byte>, h: nat, name: seq<byte>): (r: Lookup)
    ensures r.Found? ==> h <= r.h && r.h + HDRSZ < |img|
    decreases |img| - h
  {
    var v := Judge(img, h, name);
    if v.Stop? then v.r else Find(img, Next(img, h), name)
  }

  method FindExe(img: seq<byte>, name: seq<byte>) returns (r: Lookup)
    requires CString(name, NUL)
    ensures r == Find(img, 0, name)
  {
    var cph := 0;
    while true
      invariant Find(img, 0, name) == Find(img, cph, name)
      decreases |img| - cph
    {
      var c := Strcmp(img, Name(cph), TRAILER);
      if c.OffEnd? {
        return Overrun;
      }
      if c.Same? {
        return Absent;
      }
      c := Strcmp(img, Name(cph), name);
      if c.OffEnd? {
        return Overrun;
      }
      if c.Same? {
        return Found(cph);
      }
      cph := Next(img, cph);
    }
  }

  /** A file as the archiver sees it. `meta` is the part of the header nobody reads. */
  datatype Entry = Entry(meta: seq<byte>, name: seq<byte>, data: seq<byte>) {
    predicate Ok() {
      |meta| == 20 && CString(name, NUL) && |name| + 1 < 0x1_0000 && |data| < 0x8000_0000
    }
  }

  function Pad(n: nat): seq<byte> {
    Fill(NUL, n % 2)
  }

  function Header(e: Entry): seq<byte>
    requires e.Ok()
  {
    e.meta + Put16(|e.name| + 1) + Put16(|e.data| / 0x1_0000) + Put16(|e.data| % 0x1_0000)
  }

  function Written(e: Entry): seq<byte>
    requires e.Ok()
  {
    Header(e) + (e.name + [NUL]) + Pad(|e.name| + 1) + e.data + Pad(|e.data|)
  }

  function Serialise(es: seq<Entry>): seq<byte>
    requires forall e | e in es :: e.Ok()
  {
    if es == [] then [] else Written(es[0]) + Serialise(es[1..])
  }

  lemma AlignEven(v: nat)
    requires v + 1 < MOD32
    ensures Align(v, 1) == v + v % 2
  {
    assert Pow2(1) == 2;
    AlignRoundsUpIff(v, 1);
    var r := Align(v, 1);
    assert v + v % 2 >= v && (v + v % 2) % 2 == 0;
    assert r <= v + v % 2;
  }

  /** From 2^31 on the size is read as a negative int, made a huge unsigned long. */
  lemma LargeFile(img: seq<byte>, h: nat)
    requires h + HDRSZ <= |img|
    ensures var v := Read16(img, h + 22) * 0x1_0000 + Read16(img, h + 24);
      && FileSize(img, h) % 0x1_0000_0000 == v
      && (FileSize(img, h) < 0x8000_0000 <==> v < 0x8000_0000)
      && (v >= 0x8000_0000 ==> FileSize(img, h) - MOD64 == v - 0x1_0000_0000)
  {
  }

  /** What the walk reads back where an entry was written. */
  lemma ReadBack(img: seq<byte>, h: nat, e: Entry)
    requires e.Ok() && At(img, h, Written(e))
    ensures h + HDRSZ <= |img|
    ensures At(img, Name(h), e.name + [NUL])
    ensures FileSize(img, h) == |e.data|
    ensures At(img, Content(img, h), e.data)
    ensures Next(img, h) == h + |Written(e)|
  {
    var named := Header(e) + (e.name + [NUL]);
    AtConcat(img, h, named + Pad(|e.name| + 1) + e.data, Pad(|e.data|));
    AtConcat(img, h, named + Pad(|e.name| + 1), e.data);
    AtConcat(img, h, named, Pad(|e.name| + 1));
    AtConcat(img, h, Header(e), e.name + [NUL]);
    ReadBackHeader(img, h, e);
    AlignEven(|e.name| + 1);
    AlignEven(|e.data|);
  }

  lemma ReadBackHeader(img: seq<byte>, h: nat, e: Entry)
    requires e.Ok() && At(img, h, Header(e))
    ensures h + HDRSZ <= |img|
    ensures NameSize(img, h) == |e.name| + 1
    ensures FileSize(img, h) == |e.data|
  {
    var n, hi, lo := Put16(|e.name| + 1), Put16(|e.data| / 0x1_0000), Put16(|e.data| % 0x1_0000);
    AtConcat(img, h, e.meta + n + hi, lo);
    AtConcat(img, h, e.meta + n, hi);
    AtConcat(img, h, e.meta, n);
    ReadPut16(img, h + 20, |e.name| + 1);
    ReadPut16(img, h + 22, |e.data| / 0x1_0000);
    ReadPut16(img, h + 24, |e.data| % 0x1_0000);
  }

  /** What the walk reads at `h`: the entry's name, the size of its data, and the data. */
  ghost predicate Reads(img: seq<byte>, h: nat, e: Entry) {
    && CString(e.name, NUL) && h + HDRSZ <= |img| && At(img, Name(h), e.name + [NUL])
    && FileSize(img, h) == |e.data| && At(img, Content(img, h), e.data)
  }

  /** One step of the walk. */
  lemma JudgeRead(img: seq<byte>, h: nat, e: Entry, name: seq<byte>)
    requires CString(name, NUL) && Reads(img, h, e)
    ensures Judge(img, h, name) ==
      if e.name == TRAILER then Stop(Absent) else if e.name == name then Stop(Found(h)) else Walk
  {
    assert CString(TRAILER, NUL);
    CompareDecides(img, Name(h), e.name, TRAILER);
    CompareDecides(img, Name(h), e.name, name);
  }

  lemma FindRead(img: seq<byte>, h: nat, e: Entry, name: seq<byte>)
    requires CString(name, NUL) && Reads(img, h, e)
    ensures Find(img, h, name) ==
      if e.name == TRAILER then Absent else if e.name == name then Found(h) else Find(img, Next(img, h), name)
  {
    JudgeRead(img, h, e, name);
  }

  /** From `h` on, the walk reads the entries one after another and then the trailer. */
  ghost predicate Listed(img: seq<byte>, h: nat, es: seq<Entry>, end: Entry)
    decreases |es|
  {
    if es == [] then Reads(img, h, end) && end.name == TRAILER
    else Reads(img, h, es[0]) && es[0].name != TRAILER && Listed(img, Next(img, h), es[1..], end)
  }

  /** From `h` on, the archive is what an archiver writes for files, none of them named like the
      trailer, and a trailer. */
  ghost predicate Stored(img: seq<byte>, h: nat, es: seq<Entry>, end: Entry) {
    && (forall e | e in es :: e.Ok() && e.name != TRAILER) && end.Ok() && end.name == TRAILER
    && At(img, h, Serialise(es) + Written(end))
  }

  /** The walk reads all of it. */
  lemma {:induction false} SerialisedIsListed(img: seq<byte>, h: nat, es: seq<Entry>, end: Entry)
    requires Stored(img, h, es, end)
    ensures Listed(img, h, es, end)
    decreases |es|
  {
    if es == [] {
      StoredEnd(img, h, end);
    } else {
      StoredFirst(img, h, es, end);
      SerialisedIsListed(img, Next(img, h), es[1..], end);
      ListedFrom(img, h, es, end);
    }
  }

  lemma StoredEnd(img: seq<byte>, h: nat, end: Entry)
    requires Stored(img, h, [], end)
    ensures Listed(img, h, [], end)
  {
    assert Serialise([]) + Written(end) == Written(end);
    WrittenReads(img, h, end);
  }

  lemma StoredFirst(img: seq<byte>, h: nat, es: seq<Entry>, end: Entry)
    requires Stored(img, h, es, end) && es != []
    ensures Reads(img, h, es[0]) && es[0].name != TRAILER && Stored(img, Next(img, h), es[1..], end)
  {
    assert es[0] in es && forall e | e in es[1..] :: e in es;
    FirstReads(img, h, es[0], Serialise(es[1..]), Written(end));
  }

  lemma FirstReads(img: seq<byte>, h: nat, e: Entry, rest: seq<byte>, last: seq<byte>)
    requires e.Ok() && At(img, h, (Written(e) + rest) + last)
    ensures Reads(img, h, e) && At(img, Next(img, h), rest + last)
  {
    AtSplit(img, h, Written(e), rest, last);
    WrittenReads(img, h, e);
  }

  lemma ListedFrom(img: seq<byte>, h: nat, es: seq<Entry>, end: Entry)
    requires es != [] && Reads(img, h, es[0]) && es[0].name != TRAILER && Listed(img, Next(img, h), es[1..], end)
    ensures Listed(img, h, es, end)
  {
  }

  lemma WrittenReads(img: seq<byte>, h: nat, e: Entry)
    requires e.Ok() && At(img, h, Written(e))
    ensures Reads(img, h, e) && Next(img, h) == h + |Written(e)|
  {
    ReadBack(img, h, e);
  }

  lemma AtSplit(img: seq<byte>, h: nat, a: seq<byte>, b: seq<byte>, c: seq<byte>)
    requires At(img, h, (a + b) + c)
    ensures At(img, h, a) && At(img, h + |a|, b + c)
  {
    AtConcat(img, h, a + b, c);
    AtConcat(img, h, a, b);
    AtConcat(img, h + |a|, b, c);
  }

  /** `i` is the place of the first file of this name, or the number of files if there is none. */
  ghost predicate FirstOf(es: seq<Entry>, name: seq<byte>, i: nat) {
    && i <= |es| && (forall j | 0 <= j < i :: es[j].name != name)
    && (i < |es| ==> es[i].name == name)
  }

  /** The file at `i` was found, or there was none. */
  ghost predicate LookedUp(img: seq<byte>, r: Lookup, es: seq<Entry>, i: nat) {
    if i < |es| then r.Found? && Reads(img, r.h, es[i]) else r == Absent
  }

  lemma FoundBehind(img: seq<byte>, r: Lookup, es: seq<Entry>, name: seq<byte>, i: nat)
    requires es != [] && es[0].name != name && FirstOf(es[1..], name, i) && LookedUp(img, r, es[1..], i)
    ensures FirstOf(es, name, i + 1) && LookedUp(img, r, es, i + 1)
  {
    assert forall j | 1 <= j < |es| :: es[j] == es[1..][j - 1];
  }

  /** Looking a name up finds the first file of that name, whose size and content come back;
      nothing is found exactly when no file has the name, so never under the trailer's own. */
  lemma {:induction false} LookupFindsFirst(img: seq<byte>, h: nat, es: seq<Entry>, end: Entry, name: seq<byte>) returns (i: nat)
    requires CString(name, NUL) && Listed(img, h, es, end)
    ensures FirstOf(es, name, i) && LookedUp(img, Find(img, h, name), es, i)
    decreases |es|
  {
    i := 0;
    if es == [] {
      FindRead(img, h, end, name);
    } else {
      FindRead(img, h, es[0], name);
      if es[0].name != name {
        i := LookupFindsFirst(img, Next(img, h), es[1..], end, name);
        FoundBehind(img, Find(img, h, name), es, name, i);
        i := i + 1;
      }
    }
  }

  /** The same for what an archiver writes, whatever follows it. */
  lemma LookupInSerialised(img: seq<byte>, es: seq<Entry>, end: Entry, name: seq<byte>) returns (i: nat)
    requires CString(name, NUL) && Stored(img, 0, es, end)
    ensures FirstOf(es, name, i) && LookedUp(img, Find(img, 0, name), es, i)
  {
    SerialisedIsListed(img, 0, es, end);
    i := LookupFindsFirst(img, 0, es, end, name);
  }

  /** From `h` on, the archive is files of other names and nothing else. */
  ghost predicate Unclosed(img: seq<byte>, h: nat, es: seq<Entry>, name: seq<byte>) {
    && CString(name, NUL) && (forall e | e in es :: e.Ok() && e.name != TRAILER && e.name != name)
    && At(img, h, Serialise(es)) && h + |Serialise(es)| == |img|
  }

  lemma UnclosedFirst(img: seq<byte>, h: nat, es: seq<Entry>, name: seq<byte>)
    requires Unclosed(img, h, es, name) && es != []
    ensures Reads(img, h, es[0]) && es[0].name != TRAILER && es[0].name != name && Unclosed(img, Next(img, h), es[1..], name)
  {
    assert es[0] in es && forall e | e in es[1..] :: e in es;
    FirstOfLast(img, h, es[0], Serialise(es[1..]));
  }

  lemma FirstOfLast(img: seq<byte>, h: nat, e: Entry, rest: seq<byte>)
    requires e.Ok() && At(img, h, Written(e) + rest) && h + |Written(e) + rest| == |img|
    ensures Reads(img, h, e) && At(img, Next(img, h), rest) && Next(img, h) + |rest| == |img|
  {
    AtConcat(img, h, Written(e), rest);
    WrittenReads(img, h, e);
  }

  /** Without a trailer the walk goes off the end, unless it finds the name before. */
  lemma {:induction false} NoTrailer(img: seq<byte>, h: nat, es: seq<Entry>, name: seq<byte>)
    requires Unclosed(img, h, es, name)
    ensures Find(img, h, name) == Overrun
    decreases |es|
  {
    if es == [] {
      PastEnd(img, h, name);
    } else {
      UnclosedFirst(img, h, es, name);
      FindRead(img, h, es[0], name);
      NoTrailer(img, Next(img, h), es[1..], name);
    }
  }

  lemma PastEnd(img: seq<byte>, h: nat, name: seq<byte>)
    requires h >= |img|
    ensures Find(img, h, name) == Overrun
  {
  }

  /** The names the walk looks for. */
  lemma TrailerName()
    ensures |TRAILER| == 10 && forall i | 0 <= i < 10 :: TRAILER[i] == "TRAILER!!!"[i] as int
  {
  }
}
