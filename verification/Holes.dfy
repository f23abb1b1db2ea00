/** Carving the address space: the mappings of the host process, less the parts that must stay
    accessible, recorded in a table of fixed size. */
module Holes {
  import opened Options
  import Bits

  const NPROCMAPS: nat := 128
  const PROT_READ: int := 1
  const PROT_WRITE: int := 2
  const PROT_EXEC: int := 4

  /** One line of the list of mappings: the range, the three permission letters, and the name if
      there is one. */
  datatype Line = Line(from: nat, to: nat, r: char, w: char, x: char, name: Option<string>)

  /** A line with the name it is taken to have. */
  datatype Mapping = Mapping(from: nat, to: nat, r: char, w: char, x: char, name: string)

  datatype Hole = Hole(from: nat, to: nat)

  datatype Piece = Piece(from: nat, to: nat, prot: int)

  /** `struct mmapent`: the size is an unsigned int. */
  datatype Entry = Entry(from: nat, sz: nat, prot: int)

  function ToEntry(p: Piece): Entry {
    Entry(p.from, (p.to - p.from) % Bits.MOD32, p.prot)
  }

  function ToEntries(ps: seq<Piece>): (es: seq<Entry>)
    ensures |es| == |ps| && forall i | 0 <= i < |ps| :: es[i] == ToEntry(ps[i])
  {
    seq(|ps|, i requires 0 <= i < |ps| => ToEntry(ps[i]))
  }

  /** `strstr(s, t)` is not NULL. */
  predicate Contains(s: string, t: string) {
    t <= s || (s != "" && Contains(s[1..], t))
  }

  predicate SkippedName(name: string) {
    name == "[stack]" || Contains(name, "libpthread-")
  }

  predicate Skipped(m: Mapping) {
    SkippedName(m.name)
  }

  /** A line without a name has the one the variable still holds. */
  function Named(l: Line, name: string): Mapping {
    Mapping(l.from, l.to, l.r, l.w, l.x, if l.name.Some? then l.name.value else name)
  }

  /** What the variable holds after these lines: it is only cleared at the end of a turn that does
      not skip. */
  function Carried(lines: seq<Line>): string {
    if lines == [] then ""
    else
      var m := Named(lines[|lines| - 1], Carried(lines[..|lines| - 1]));
      if Skipped(m) then m.name else ""
  }

  /** The lines with the names they are taken to have. */
  function Effective(lines: seq<Line>): seq<Mapping> {
    if lines == [] then []
    else Effective(lines[..|lines| - 1]) + [Named(lines[|lines| - 1], Carried(lines[..|lines| - 1]))]
  }

  /** The lines with their own names. */
  function Own(lines: seq<Line>): (maps: seq<Mapping>)
    ensures |maps| == |lines| && forall k | 0 <= k < |lines| :: maps[k] == Named(lines[k], "")
  {
    seq(|lines|, k requires 0 <= k < |lines| => Named(lines[k], ""))
  }

  predicate LettersOk(m: Mapping) {
    m.r in {'r', '-'} && m.w in {'w', '-'} && m.x in {'x', '-'}
  }

  function Prot(m: Mapping): int {
    (if m.r == 'r' then PROT_READ else 0) + (if m.w == 'w' then PROT_WRITE else 0) + (if m.x == 'x' then PROT_EXEC else 0)
  }

  predicate Starts(m: Mapping, h: Hole) {
    m.from <= h.from < m.to
  }

  /** What is recorded for a hole that starts in a mapping. */
  function Around(m: Mapping, h: Hole): seq<Piece> {
    if Starts(m, h) then
      (if m.from < h.from then [Piece(m.from, h.from, Prot(m))] else [])
      + (if h.to < m.to then [Piece(h.to, m.to, Prot(m))] else [])
    else []
  }

  function AroundAll(m: Mapping, holes: seq<Hole>): seq<Piece> {
    if holes == [] then []
    else AroundAll(m, holes[..|holes| - 1]) + Around(m, holes[|holes| - 1])
  }

  predicate SomeStarts(m: Mapping, holes: seq<Hole>) {
    exists i | 0 <= i < |holes| :: Starts(m, holes[i])
  }

  function Pieces(m: Mapping, holes: seq<Hole>): seq<Piece> {
    if SomeStarts(m, holes) then AroundAll(m, holes) else [Piece(m.from, m.to, Prot(m))]
  }

  function AllPieces(maps: seq<Mapping>, holes: seq<Hole>): seq<Piece> {
    if maps == [] then []
    else
      var m := maps[|maps| - 1];
      AllPieces(maps[..|maps| - 1], holes) + PiecesOf(m, holes)
  }

  function PiecesOf(m: Mapping, holes: seq<Hole>): seq<Piece> {
    if Skipped(m) then [] else Pieces(m, holes)
  }

  /** The asserts on a mapping: known letters, and no hole sticks out of its upper end. */
  predicate Asserted(m: Mapping, holes: seq<Hole>) {
    Skipped(m) || (LettersOk(m) && Fitting(m, holes))
  }

  ghost predicate AllAsserted(maps: seq<Mapping>, holes: seq<Hole>) {
    forall k | 0 <= k < |maps| :: Asserted(maps[k], holes)
  }

  predicate Fitting(m: Mapping, holes: seq<Hole>) {
    forall i | 0 <= i < |holes| && Starts(m, holes[i]) :: holes[i].to <= m.to
  }

  // ----- the program

  class ProcMaps {
    const procmaps: array<Entry>
    var n: nat

    /** The table holds as many of the pieces as there is room for, in order. */
    ghost predicate Holds(all: seq<Piece>)
      reads this, procmaps
    {
      && procmaps.Length == NPROCMAPS
      && n == (if |all| <= NPROCMAPS then |all| else NPROCMAPS)
      && procmaps[..n] == ToEntries(all[..n])
      && forall i | n <= i < NPROCMAPS :: procmaps[i] == Entry(0, 0, 0)
    }

    constructor ()
      ensures Holds([]) && fresh(procmaps)
    {
      procmaps := new Entry[NPROCMAPS](i => Entry(0, 0, 0));
      n := 0;
    }

    method AddProcmap(p: Piece, ghost all: seq<Piece>) returns (ok: bool)
      requires Holds(all)
      modifies this, procmaps
      ensures Holds(all + [p]) && ok == (|all| < NPROCMAPS)
    {
      if NPROCMAPS <= n {
        assert (all + [p])[..n] == all[..n];
        return false;
      }
      assert (all + [p])[..n] == all;
      procmaps[n] := ToEntry(p);
      n := n + 1;
      assert procmaps[..n] == ToEntries(all + [p]);
      return true;
    }

    /** `host_vm_init` on the lines of the list of mappings; a failed assert halts. */
    method HostVmInit(lines: seq<Line>, holes: seq<Hole>) returns (halted: bool, ok: bool)
      requires Holds([])
      modifies this, procmaps
      ensures var maps := Effective(lines);
        && (halted <==> !AllAsserted(maps, holes))
        && (!halted ==> Holds(AllPieces(maps, holes)) && ok == (|AllPieces(maps, holes)| <= 128))
        && (!halted && ok ==> TableOf(procmaps[..], maps, holes))
    {
      ok := true;
      var name := "";
      ghost var all := [];
      var k := 0;
      while k < |lines|
        invariant Scanned(lines, k, name, holes, all)
        invariant Holds(all) && ok == (|all| <= NPROCMAPS)
      {
        ScannedStep(lines, k, name, holes, all);
        var m := Named(lines[k], name);
        var broken, kept := ScanLine(m, holes, all);
        if broken {
          return true, ok;
        }
        ok := ok && kept;
        name := if Skipped(m) then m.name else "";
        all := all + PiecesOf(m, holes);
        k := k + 1;
      }
      ScannedAll(lines, name, holes, all);
      if ok {
        TableHolds(this, Effective(lines), holes);
      }
      return false, ok;
    }

    /** One line, which may be skipped. */
    method ScanLine(m: Mapping, holes: seq<Hole>, ghost all: seq<Piece>) returns (broken: bool, ok: bool)
      requires Holds(all)
      modifies this, procmaps
      ensures broken <==> !Asserted(m, holes)
      ensures !broken ==> Holds(all + PiecesOf(m, holes))
      ensures !broken && |all| <= NPROCMAPS ==> ok == (|all + PiecesOf(m, holes)| <= NPROCMAPS)
    {
      if Skipped(m) {
        assert all + [] == all;
        return false, true;
      }
      broken, ok := Carve(m, holes, all);
    }

    /** One hole: if it starts in the mapping, what is left below and above it is recorded. */
    method CarveHole(m: Mapping, h: Hole, ghost all: seq<Piece>) returns (hit: bool, broken: bool, ok: bool)
      requires Holds(all)
      modifies this, procmaps
      ensures hit == Starts(m, h) && broken == (hit && h.to > m.to)
      ensures !broken ==> Holds(all + Around(m, h)) && ok == (Around(m, h) == [] || |all + Around(m, h)| <= NPROCMAPS)
    {
      ok, broken := true, false;
      hit := m.from <= h.from && h.from < m.to;
      if !hit {
        assert all + Around(m, h) == all;
        return;
      }
      if h.to > m.to {
        broken := true;
        return;
      }
      ghost var now := all;
      if m.from < h.from {
        ok := AddProcmap(Piece(m.from, h.from, Prot(m)), all);
        now := all + [Piece(m.from, h.from, Prot(m))];
      }
      if h.to < m.to {
        var added := AddProcmap(Piece(h.to, m.to, Prot(m)), now);
        ok := ok && added;
        now := now + [Piece(h.to, m.to, Prot(m))];
      }
      assert now == all + Around(m, h);
    }

    /** The loop over the holes, for one mapping. */
    method Carve(m: Mapping, holes: seq<Hole>, ghost all: seq<Piece>) returns (broken: bool, ok: bool)
      requires Holds(all) && !Skipped(m)
      modifies this, procmaps
      ensures broken <==> !Asserted(m, holes)
      ensures !broken ==> Holds(all + Pieces(m, holes))
      ensures !broken && |all| <= NPROCMAPS ==> ok == (|all + Pieces(m, holes)| <= NPROCMAPS)
    {
      if !LettersOk(m) {
        return true, false;
      }
      ok := true;
      var intersects := false;
      ghost var now := all;
      var i := 0;
      while i < |holes|
        invariant i <= |holes| && Carved(m, holes[..i], intersects, all, now)
        invariant Holds(now) && (|all| <= NPROCMAPS ==> ok == (|now| <= NPROCMAPS))
      {
        CarvedStep(m, holes, i, intersects, all, now);
        var hit, bad, added := CarveHole(m, holes[i], now);
        if bad {
          assert Starts(m, holes[i]) && holes[i].to > m.to;
          return true, ok;
        }
        intersects := intersects || hit;
        ok := ok && added;
        now := now + Around(m, holes[i]);
        i := i + 1;
      }
      assert holes[..i] == holes;
      if !intersects {
        NoneStarts(m, holes);
        ok := AddProcmap(Piece(m.from, m.to, Prot(m)), now);
      }
      broken := false;
    }
  }

  /** `maps` have been looked at without a failed assert, and `all` is what is recorded. */
  ghost predicate Recorded(maps: seq<Mapping>, holes: seq<Hole>, all: seq<Piece>) {
    all == AllPieces(maps, holes) && AllAsserted(maps, holes)
  }

  /** So have the first `k` lines, and `name` is what the variable holds. */
  ghost predicate Scanned(lines: seq<Line>, k: nat, name: string, holes: seq<Hole>, all: seq<Piece>) {
    k <= |lines| && name == Carried(lines[..k]) && Recorded(Effective(lines[..k]), holes, all)
  }

  lemma ScannedStep(lines: seq<Line>, k: nat, name: string, holes: seq<Hole>, all: seq<Piece>)
    requires k < |lines| && Scanned(lines, k, name, holes, all)
    ensures var m := Named(lines[k], name);
      if Asserted(m, holes) then Scanned(lines, k + 1, if Skipped(m) then m.name else "", holes, all + PiecesOf(m, holes))
      else !AllAsserted(Effective(lines), holes)
  {
    EffectiveNext(lines, k);
    RecordedNext(Effective(lines[..k]), Named(lines[k], name), holes);
    EffectiveAt(lines, k);
  }

  lemma ScannedAll(lines: seq<Line>, name: string, holes: seq<Hole>, all: seq<Piece>)
    requires Scanned(lines, |lines|, name, holes, all)
    ensures Recorded(Effective(lines), holes, all)
  {
    assert lines[..|lines|] == lines;
  }

  lemma EffectiveNext(lines: seq<Line>, k: nat)
    requires k < |lines|
    ensures var m := Named(lines[k], Carried(lines[..k]));
      && Effective(lines[..k + 1]) == Effective(lines[..k]) + [m]
      && Carried(lines[..k + 1]) == if Skipped(m) then m.name else ""
  {
    assert lines[..k + 1][..k] == lines[..k];
  }

  lemma {:induction false} EffectiveAt(lines: seq<Line>, k: nat)
    requires k < |lines|
    ensures |Effective(lines)| == |lines| && Effective(lines)[k] == Named(lines[k], Carried(lines[..k]))
  {
    var front := lines[..|lines| - 1];
    EffectiveLength(front);
    if k < |front| {
      EffectiveAt(front, k);
      assert front[..k] == lines[..k];
    }
  }

  lemma {:induction false} EffectiveLength(lines: seq<Line>)
    ensures |Effective(lines)| == |lines|
  {
    if lines != [] {
      EffectiveLength(lines[..|lines| - 1]);
    }
  }

  lemma RecordedNext(front: seq<Mapping>, m: Mapping, holes: seq<Hole>)
    ensures AllPieces(front + [m], holes) == AllPieces(front, holes) + PiecesOf(m, holes)
    ensures AllAsserted(front + [m], holes) <==> AllAsserted(front, holes) && Asserted(m, holes)
  {
    var maps := front + [m];
    assert maps[..|maps| - 1] == front && maps[|front|] == m;
    assert forall j | 0 <= j < |front| :: maps[j] == front[j];
  }

  /** `holes` have been looked at, and `now` is what is recorded with them in mind. */
  ghost predicate Carved(m: Mapping, holes: seq<Hole>, intersects: bool, all: seq<Piece>, now: seq<Piece>) {
    now == all + AroundAll(m, holes) && intersects == SomeStarts(m, holes) && Fitting(m, holes)
  }

  lemma CarvedStep(m: Mapping, holes: seq<Hole>, i: nat, intersects: bool, all: seq<Piece>, now: seq<Piece>)
    requires i < |holes| && Carved(m, holes[..i], intersects, all, now)
    ensures (Starts(m, holes[i]) ==> holes[i].to <= m.to) ==>
      Carved(m, holes[..i + 1], intersects || Starts(m, holes[i]), all, now + Around(m, holes[i]))
  {
    PrefixStep(m, holes, i);
    Regroup(all, AroundAll(m, holes[..i]), Around(m, holes[i]));
  }

  lemma Regroup(p: seq<Piece>, q: seq<Piece>, r: seq<Piece>)
    ensures (p + q) + r == p + (q + r)
  {
  }

  lemma PrefixStep(m: Mapping, holes: seq<Hole>, i: nat)
    requires i < |holes|
    ensures SomeStarts(m, holes[..i + 1]) <==> SomeStarts(m, holes[..i]) || Starts(m, holes[i])
    ensures Fitting(m, holes[..i + 1]) <==> Fitting(m, holes[..i]) && (Starts(m, holes[i]) ==> holes[i].to <= m.to)
    ensures AroundAll(m, holes[..i + 1]) == AroundAll(m, holes[..i]) + Around(m, holes[i])
  {
    assert holes[..i + 1][..i] == holes[..i];
    assert Starts(m, holes[i]) ==> Starts(m, holes[..i + 1][i]);
    assert forall j | 0 <= j < i :: holes[..i + 1][j] == holes[..i][j];
    assert holes[..i + 1][i] == holes[i];
  }

  lemma {:induction false} NoneStarts(m: Mapping, holes: seq<Hole>)
    requires !SomeStarts(m, holes)
    ensures AroundAll(m, holes) == []
  {
    if holes != [] {
      var front := holes[..|holes| - 1];
      assert forall i | 0 <= i < |front| :: front[i] == holes[i];
      assert !Starts(m, holes[|holes| - 1]);
      NoneStarts(m, front);
    }
  }

  // ----- what decides about a line

  predicate Occurs(s: string, t: string, i: nat) {
    i + |t| <= |s| && s[i..i + |t|] == t
  }

  lemma {:induction false} ContainsIff(s: string, t: string)
    ensures Contains(s, t) <==> exists i: nat :: Occurs(s, t, i)
    decreases |s|
  {
    if t <= s {
      assert Occurs(s, t, 0);
    } else if s != "" {
      ContainsIff(s[1..], t);
      if i: nat :| Occurs(s[1..], t, i) {
        assert s[i + 1..i + 1 + |t|] == s[1..][i..i + |t|];
        assert Occurs(s, t, i + 1);
      }
      if i: nat :| Occurs(s, t, i) {
        OccursLater(s, t, i);
      }
    }
  }

  lemma OccursLater(s: string, t: string, i: nat)
    requires Occurs(s, t, i) && !(t <= s)
    ensures i > 0 && Occurs(s[1..], t, i - 1)
  {
    assert s[0..|t|] == s[..|t|];
    assert s[1..][i - 1..i - 1 + |t|] == s[i..i + |t|];
  }

  /** The stack and everything with the name of the thread library in it are skipped. */
  lemma SkippedNameIff(name: string)
    ensures SkippedName(name) <==> name == "[stack]" || exists i: nat :: Occurs(name, "libpthread-", i)
  {
    ContainsIff(name, "libpthread-");
  }

  /** The permission bits: 1 to read, 2 to write, 4 to execute. */
  predicate Grants(prot: int, m: Mapping) {
    && 0 <= prot < 8
    && (prot % 2 == 1 <==> m.r == 'r') && (prot / 2 % 2 == 1 <==> m.w == 'w') && (prot / 4 == 1 <==> m.x == 'x')
  }

  lemma ProtGrants(m: Mapping)
    ensures Grants(Prot(m), m)
  {
  }

  /** The bits leave no choice. */
  lemma GrantsOnce(m: Mapping, prot: int)
    requires Grants(prot, m)
    ensures prot == Prot(m)
  {
  }

  /** What makes an assert fail on a line that is not skipped: a letter in the wrong place, or a hole
      that starts in the mapping and ends above it. */
  lemma AssertedIff(m: Mapping, holes: seq<Hole>)
    requires !Skipped(m)
    ensures !Asserted(m, holes) <==>
      || m.r !in "r-" || m.w !in "w-" || m.x !in "x-"
      || exists h :: h in holes && m.from <= h.from < m.to < h.to
  {
    if i :| 0 <= i < |holes| && Starts(m, holes[i]) && holes[i].to > m.to {
      assert holes[i] in holes;
    }
  }

  // ----- what the pieces cover

  predicate In(p: Piece, a: nat) {
    p.from <= a < p.to
  }

  ghost predicate Covered(ps: seq<Piece>, a: nat) {
    exists i | 0 <= i < |ps| :: In(ps[i], a)
  }

  ghost predicate InHole(holes: seq<Hole>, a: nat) {
    exists i | 0 <= i < |holes| :: holes[i].from <= a < holes[i].to
  }

  /** A hole is not empty, and inside the mapping or outside. */
  ghost predicate Separate(m: Mapping, h: Hole) {
    && h.from < h.to
    && (if Starts(m, h) then h.to <= m.to else h.to <= m.from || m.to <= h.from)
  }

  ghost predicate Apart(holes: seq<Hole>) {
    forall i, j | 0 <= i < j < |holes| :: holes[i].to <= holes[j].from || holes[j].to <= holes[i].from
  }

  /** The hole begins below the mapping and reaches into it: no test sees that. */
  predicate Straddles(m: Mapping, h: Hole) {
    h.from < m.from < h.to
  }

  ghost predicate AtMostOne(m: Mapping, holes: seq<Hole>) {
    forall i, j | 0 <= i < j < |holes| :: !(Starts(m, holes[i]) && Starts(m, holes[j]))
  }

  lemma OnlyOne(m: Mapping, holes: seq<Hole>, k: nat, i: nat)
    requires AtMostOne(m, holes) && k < |holes| && i < |holes| && k != i && Starts(m, holes[k])
    ensures !Starts(m, holes[i])
  {
  }

  lemma CoveredConcat(p: seq<Piece>, q: seq<Piece>, a: nat)
    ensures Covered(p + q, a) <==> Covered(p, a) || Covered(q, a)
  {
    if Covered(p, a) {
      var i :| 0 <= i < |p| && In(p[i], a);
      assert (p + q)[i] == p[i];
    }
    if Covered(q, a) {
      var i :| 0 <= i < |q| && In(q[i], a);
      assert (p + q)[|p| + i] == q[i];
    }
    if Covered(p + q, a) {
      var i :| 0 <= i < |p + q| && In((p + q)[i], a);
      assert if i < |p| then (p + q)[i] == p[i] else (p + q)[i] == q[i - |p|];
    }
  }

  lemma AroundCovers(m: Mapping, h: Hole, a: nat)
    requires Starts(m, h)
    ensures Covered(Around(m, h), a) <==> m.from <= a < h.from || h.to <= a < m.to
  {
    var lower := if m.from < h.from then [Piece(m.from, h.from, Prot(m))] else [];
    var upper := if h.to < m.to then [Piece(h.to, m.to, Prot(m))] else [];
    CoveredConcat(lower, upper, a);
    assert m.from <= a < h.from ==> In(lower[0], a);
    assert h.to <= a < m.to ==> In(upper[0], a);
  }

  lemma {:induction false} AroundEach(m: Mapping, holes: seq<Hole>, a: nat)
    ensures Covered(AroundAll(m, holes), a) <==> exists i | 0 <= i < |holes| :: Covered(Around(m, holes[i]), a)
  {
    if holes != [] {
      var front, last := holes[..|holes| - 1], holes[|holes| - 1];
      AroundEach(m, front, a);
      CoveredConcat(AroundAll(m, front), Around(m, last), a);
      assert forall i | 0 <= i < |front| :: front[i] == holes[i];
      assert (exists i | 0 <= i < |holes| :: Covered(Around(m, holes[i]), a)) <==>
        Covered(Around(m, last), a) || exists i | 0 <= i < |front| :: Covered(Around(m, front[i]), a);
    }
  }

  /** With at most one hole in it, a mapping's pieces are the mapping without the holes. */
  lemma PiecesExact(m: Mapping, holes: seq<Hole>, a: nat)
    requires AtMostOne(m, holes) && forall i | 0 <= i < |holes| :: Separate(m, holes[i])
    ensures Covered(Pieces(m, holes), a) <==> m.from <= a < m.to && !InHole(holes, a)
  {
    if SomeStarts(m, holes) {
      var k :| 0 <= k < |holes| && Starts(m, holes[k]);
      AroundEach(m, holes, a);
      AroundCovers(m, holes[k], a);
      forall i | 0 <= i < |holes| && i != k
        ensures !Starts(m, holes[i]) && Around(m, holes[i]) == [] && (m.from <= a < m.to ==> !(holes[i].from <= a < holes[i].to))
      {
        OnlyOne(m, holes, k, i);
        assert Separate(m, holes[i]);
      }
      assert Separate(m, holes[k]);
      assert InHole(holes, a) && m.from <= a < m.to ==> holes[k].from <= a < holes[k].to;
    } else {
      assert forall i | 0 <= i < |holes| :: Separate(m, holes[i]) && !Starts(m, holes[i]);
      assert In(Pieces(m, holes)[0], a) <==> m.from <= a < m.to;
    }
  }

  /** With two holes in it, a mapping's pieces cover one hole when leaving out the other. */
  lemma TwoHolesCovered(m: Mapping, holes: seq<Hole>, i: nat, j: nat) returns (a: nat)
    requires i < j < |holes| && Starts(m, holes[i]) && Starts(m, holes[j])
    requires Apart(holes) && NoneEmpty(holes)
    ensures Covered(Pieces(m, holes), a) && InHole(holes, a)
  {
    assert holes[i].from < holes[i].to && holes[j].from < holes[j].to;
    var lo, hi := if holes[i].to <= holes[j].from then i else j, if holes[i].to <= holes[j].from then j else i;
    a := holes[lo].from;
    AroundCovers(m, holes[hi], a);
    AroundEach(m, holes, a);
  }

  /** A hole that reaches into a mapping from below is not left out of it: if it is the only one, or
      the others are above it, the mapping is covered from its start. */
  lemma StraddledCovered(m: Mapping, holes: seq<Hole>, i: nat)
    requires i < |holes| && Straddles(m, holes[i]) && m.from < m.to
    requires Apart(holes) && NoneEmpty(holes)
    ensures Covered(Pieces(m, holes), m.from) && InHole(holes, m.from)
  {
    if SomeStarts(m, holes) {
      var k :| 0 <= k < |holes| && Starts(m, holes[k]);
      assert holes[k].from < holes[k].to && holes[i].to <= holes[k].from;
      AroundCovers(m, holes[k], m.from);
      AroundEach(m, holes, m.from);
    } else {
      assert In(Pieces(m, holes)[0], m.from);
    }
  }

  /** Where the mappings that are not skipped leave something outside the holes. */
  ghost predicate Outside(maps: seq<Mapping>, holes: seq<Hole>, a: nat) {
    !InHole(holes, a) && exists k | 0 <= k < |maps| :: !Skipped(maps[k]) && maps[k].from <= a < maps[k].to
  }

  ghost predicate NoneEmpty(holes: seq<Hole>) {
    forall i | 0 <= i < |holes| :: holes[i].from < holes[i].to
  }

  /** What the input is like and the program checks: ranges are not empty, holes are apart from each
      other, and no assert fails. */
  ghost predicate Checked(maps: seq<Mapping>, holes: seq<Hole>) {
    && Apart(holes) && NoneEmpty(holes)
    && AllAsserted(maps, holes) && forall k | 0 <= k < |maps| :: maps[k].from < maps[k].to
  }

  /** What it does not check: no second hole starts in a mapping, and none reaches in from below. */
  ghost predicate Clear(m: Mapping, holes: seq<Hole>) {
    AtMostOne(m, holes) && forall i | 0 <= i < |holes| :: !Straddles(m, holes[i])
  }

  ghost predicate AllClear(maps: seq<Mapping>, holes: seq<Hole>) {
    forall k | 0 <= k < |maps| && !Skipped(maps[k]) :: Clear(maps[k], holes)
  }

  lemma ClearSeparate(m: Mapping, holes: seq<Hole>)
    requires NoneEmpty(holes) && !Skipped(m) && Asserted(m, holes) && Clear(m, holes)
    ensures forall i | 0 <= i < |holes| :: Separate(m, holes[i])
  {
    forall i | 0 <= i < |holes|
      ensures Separate(m, holes[i])
    {
      assert holes[i].from < holes[i].to && !Straddles(m, holes[i]);
    }
  }

  /** Some recorded mapping has a piece that covers `a`. */
  ghost predicate SomePiece(maps: seq<Mapping>, holes: seq<Hole>, a: nat) {
    exists k | 0 <= k < |maps| :: PieceOf(maps[k], holes, a)
  }

  ghost predicate PieceOf(m: Mapping, holes: seq<Hole>, a: nat) {
    !Skipped(m) && Covered(Pieces(m, holes), a)
  }

  lemma {:induction false} AllPiecesCover(maps: seq<Mapping>, holes: seq<Hole>, a: nat)
    ensures Covered(AllPieces(maps, holes), a) <==> SomePiece(maps, holes, a)
  {
    if maps != [] {
      var front, last := maps[..|maps| - 1], maps[|maps| - 1];
      AllPiecesCover(front, holes, a);
      CoveredConcat(AllPieces(front, holes), PiecesOf(last, holes), a);
      SomePieceStep(maps, holes, a);
    }
  }

  lemma SomePieceStep(maps: seq<Mapping>, holes: seq<Hole>, a: nat)
    requires maps != []
    ensures SomePiece(maps, holes, a) <==> SomePiece(maps[..|maps| - 1], holes, a) || PieceOf(maps[|maps| - 1], holes, a)
  {
    var front := maps[..|maps| - 1];
    assert forall k | 0 <= k < |front| :: front[k] == maps[k];
    if k :| 0 <= k < |maps| && PieceOf(maps[k], holes, a) {
      assert k < |front| ==> PieceOf(front[k], holes, a);
    }
  }

  ghost predicate Exact(maps: seq<Mapping>, holes: seq<Hole>) {
    forall a: nat :: Covered(AllPieces(maps, holes), a) <==> Outside(maps, holes, a)
  }

  /** When no assert fails, the pieces are exactly the mappings without the holes if and only if no
      mapping that is recorded has two holes in it or one that reaches into it from below. */
  lemma SubtractionExactIff(maps: seq<Mapping>, holes: seq<Hole>)
    requires Checked(maps, holes)
    ensures Exact(maps, holes) <==> AllClear(maps, holes)
  {
    if AllClear(maps, holes) {
      forall a: nat
        ensures Covered(AllPieces(maps, holes), a) <==> Outside(maps, holes, a)
      {
        SubtractionExact(maps, holes, a);
      }
    } else {
      var k :| 0 <= k < |maps| && !Skipped(maps[k]) && !Clear(maps[k], holes);
      var a := HoleCovered(maps[k], holes);
      AllPiecesCover(maps, holes, a);
      assert PieceOf(maps[k], holes, a) && !Outside(maps, holes, a);
    }
  }

  lemma HoleCovered(m: Mapping, holes: seq<Hole>) returns (a: nat)
    requires Apart(holes) && NoneEmpty(holes) && m.from < m.to && !Clear(m, holes)
    ensures Covered(Pieces(m, holes), a) && InHole(holes, a)
  {
    if AtMostOne(m, holes) {
      var i :| 0 <= i < |holes| && Straddles(m, holes[i]);
      StraddledCovered(m, holes, i);
      a := m.from;
    } else {
      var i, j :| 0 <= i < j < |holes| && Starts(m, holes[i]) && Starts(m, holes[j]);
      a := TwoHolesCovered(m, holes, i, j);
    }
  }

  /** A hole over the start of a mapping goes unnoticed: the whole mapping is recorded. */
  lemma HoleOverStart()
    ensures var m, h := Mapping(0x2000, 0x4000, 'r', 'w', '-', ""), Hole(0x1000, 0x3000);
      && Checked([m], [h]) && AtMostOne(m, [h])
      && Covered(AllPieces([m], [h]), 0x2000) && InHole([h], 0x2000) && !Exact([m], [h])
  {
    var m, h := Mapping(0x2000, 0x4000, 'r', 'w', '-', ""), Hole(0x1000, 0x3000);
    assert !Skipped(m);
    assert [h][0] == h && [m][0] == m && Straddles(m, [h][0]);
    StraddledCovered(m, [h], 0);
    AllPiecesCover([m], [h], 0x2000);
    assert PieceOf([m][0], [h], 0x2000);
    assert !Outside([m], [h], 0x2000);
  }

  /** Two holes in one mapping: the first is recorded in what is left around the second. */
  lemma TwoHoles()
    ensures var m, h, g := Mapping(0x1000, 0x9000, 'r', 'w', '-', ""), Hole(0x2000, 0x3000), Hole(0x5000, 0x6000);
      Checked([m], [h, g]) && Covered(AllPieces([m], [h, g]), 0x2000) && InHole([h, g], 0x2000) && !Exact([m], [h, g])
  {
    var m, h, g := Mapping(0x1000, 0x9000, 'r', 'w', '-', ""), Hole(0x2000, 0x3000), Hole(0x5000, 0x6000);
    var maps, holes := [m], [h, g];
    assert !Skipped(m);
    assert maps[0] == m && holes[0] == h && holes[1] == g;
    AroundCovers(m, holes[1], 0x2000);
    AroundEach(m, holes, 0x2000);
    AllPiecesCover(maps, holes, 0x2000);
    assert PieceOf(maps[0], holes, 0x2000);
    assert holes[0].from <= 0x2000 < holes[0].to;
    assert !Outside(maps, holes, 0x2000);
  }

  lemma SubtractionExact(maps: seq<Mapping>, holes: seq<Hole>, a: nat)
    requires Checked(maps, holes) && AllClear(maps, holes)
    ensures Covered(AllPieces(maps, holes), a) <==> Outside(maps, holes, a)
  {
    AllPiecesCover(maps, holes, a);
    forall k | 0 <= k < |maps| && !Skipped(maps[k])
      ensures PieceOf(maps[k], holes, a) <==> maps[k].from <= a < maps[k].to && !InHole(holes, a)
    {
      ClearSeparate(maps[k], holes);
      PiecesExact(maps[k], holes, a);
    }
  }

  /** Every recorded piece lies in a recorded mapping and has its permission. */
  lemma {:induction false} PiecesKeepProt(maps: seq<Mapping>, holes: seq<Hole>, i: nat) returns (k: nat)
    requires Checked(maps, holes) && i < |AllPieces(maps, holes)|
    ensures k < |maps| && !Skipped(maps[k]) && PartOf(AllPieces(maps, holes)[i], maps[k])
  {
    var front, last := maps[..|maps| - 1], maps[|maps| - 1];
    var n := |AllPieces(front, holes)|;
    if i < n {
      CheckedFront(maps, holes);
      k := PiecesKeepProt(front, holes, i);
    } else {
      k := |maps| - 1;
      OwnPieces(last, holes, i - n);
    }
  }

  /** A piece that is not empty, in a mapping and with its permission. */
  predicate PartOf(p: Piece, m: Mapping) {
    p.prot == Prot(m) && m.from <= p.from < p.to <= m.to
  }

  lemma CheckedFront(maps: seq<Mapping>, holes: seq<Hole>)
    requires maps != [] && Checked(maps, holes)
    ensures Checked(maps[..|maps| - 1], holes)
    ensures AllClear(maps, holes) ==> AllClear(maps[..|maps| - 1], holes)
  {
    assert forall k | 0 <= k < |maps| - 1 :: maps[..|maps| - 1][k] == maps[k];
  }

  lemma OwnPieces(m: Mapping, holes: seq<Hole>, i: nat)
    requires i < |Pieces(m, holes)| && NoneEmpty(holes) && m.from < m.to
    ensures PartOf(Pieces(m, holes)[i], m)
  {
    if SomeStarts(m, holes) {
      OwnAround(m, holes, i);
    }
  }

  lemma {:induction false} OwnAround(m: Mapping, holes: seq<Hole>, i: nat)
    requires i < |AroundAll(m, holes)| && NoneEmpty(holes)
    ensures PartOf(AroundAll(m, holes)[i], m)
  {
    var front, last := holes[..|holes| - 1], holes[|holes| - 1];
    if i < |AroundAll(m, front)| {
      assert forall j | 0 <= j < |front| :: front[j] == holes[j];
      OwnAround(m, front, i);
    }
  }

  ghost predicate Disjoint(ps: seq<Piece>) {
    forall i, j | 0 <= i < j < |ps| :: ps[i].to <= ps[j].from || ps[j].to <= ps[i].from
  }

  ghost predicate MapsDisjoint(maps: seq<Mapping>) {
    forall i, j | 0 <= i < j < |maps| :: maps[i].to <= maps[j].from || maps[j].to <= maps[i].from
  }

  lemma {:induction false} OneAround(m: Mapping, holes: seq<Hole>, k: nat)
    requires AtMostOne(m, holes) && k < |holes| && Starts(m, holes[k])
    ensures AroundAll(m, holes) == Around(m, holes[k])
  {
    var front, last := holes[..|holes| - 1], holes[|holes| - 1];
    if k == |front| {
      forall i | 0 <= i < |front|
        ensures !Starts(m, front[i])
      {
        OnlyOne(m, holes, k, i);
      }
      NoneStarts(m, front);
    } else {
      OnlyOne(m, holes, k, |front|);
      assert forall i, j | 0 <= i < j < |front| :: front[i] == holes[i] && front[j] == holes[j];
      OneAround(m, front, k);
    }
  }

  lemma PiecesDisjoint(m: Mapping, holes: seq<Hole>)
    requires AtMostOne(m, holes) && forall i | 0 <= i < |holes| :: Separate(m, holes[i])
    ensures Disjoint(Pieces(m, holes))
  {
    if SomeStarts(m, holes) {
      var k :| 0 <= k < |holes| && Starts(m, holes[k]);
      assert Separate(m, holes[k]);
      OneAround(m, holes, k);
      AroundDisjoint(m, holes[k]);
    }
  }

  lemma AroundDisjoint(m: Mapping, h: Hole)
    requires h.from <= h.to
    ensures Disjoint(Around(m, h))
  {
  }

  /** With the mappings disjoint and clear, so are the pieces. */
  lemma {:induction false} AllPiecesDisjoint(maps: seq<Mapping>, holes: seq<Hole>)
    requires Checked(maps, holes) && AllClear(maps, holes) && MapsDisjoint(maps)
    ensures Disjoint(AllPieces(maps, holes))
  {
    if maps != [] {
      var front, last := maps[..|maps| - 1], maps[|maps| - 1];
      CheckedFront(maps, holes);
      assert MapsDisjoint(front);
      AllPiecesDisjoint(front, holes);
      if !Skipped(last) {
        ClearSeparate(last, holes);
        PiecesDisjoint(last, holes);
        forall i, j | 0 <= i < |AllPieces(front, holes)| && 0 <= j < |Pieces(last, holes)|
          ensures AllPieces(front, holes)[i].to <= Pieces(last, holes)[j].from || Pieces(last, holes)[j].to <= AllPieces(front, holes)[i].from
        {
          var k := PiecesKeepProt(front, holes, i);
          OwnPieces(last, holes, j);
          assert maps[k].to <= maps[|front|].from || maps[|front|].to <= maps[k].from;
        }
      }
    }
  }

  // ----- what the table covers

  /** The table of a list of mappings that could be kept. */
  ghost predicate TableOf(es: seq<Entry>, maps: seq<Mapping>, holes: seq<Hole>) {
    var ps := AllPieces(maps, holes);
    && |ps| <= |es| == NPROCMAPS && es[..|ps|] == ToEntries(ps)
    && forall i | |ps| <= i < |es| :: es[i] == Entry(0, 0, 0)
  }

  lemma TableHolds(t: ProcMaps, maps: seq<Mapping>, holes: seq<Hole>)
    requires t.Holds(AllPieces(maps, holes)) && |AllPieces(maps, holes)| <= NPROCMAPS
    ensures TableOf(t.procmaps[..], maps, holes)
  {
    var ps := AllPieces(maps, holes);
    assert ps[..t.n] == ps && t.procmaps[..][..t.n] == t.procmaps[..t.n];
  }

  predicate InEntry(e: Entry, a: nat) {
    e.from <= a < e.from + e.sz
  }

  ghost predicate InTable(es: seq<Entry>, a: nat) {
    exists i | 0 <= i < |es| :: InEntry(es[i], a)
  }

  /** The table covers exactly what it should. */
  ghost predicate TableExact(es: seq<Entry>, maps: seq<Mapping>, holes: seq<Hole>) {
    forall a: nat :: InTable(es, a) <==> Outside(maps, holes, a)
  }

  /** The size of the piece is one an entry can hold. */
  predicate Small(p: Piece) {
    p.to < p.from + Bits.MOD32
  }

  ghost predicate AllSmall(maps: seq<Mapping>, holes: seq<Hole>) {
    forall i | 0 <= i < |AllPieces(maps, holes)| :: Small(AllPieces(maps, holes)[i])
  }

  /** An entry covers the beginning of its piece, and all of it if and only if the piece is small. */
  lemma EntryOfPiece(p: Piece)
    requires p.from < p.to
    ensures ToEntry(p).from == p.from && ToEntry(p).prot == p.prot && p.from + ToEntry(p).sz <= p.to
    ensures p.from + ToEntry(p).sz == p.to <==> Small(p)
  {
    if Small(p) {
      assert (p.to - p.from) % Bits.MOD32 == p.to - p.from;
    }
  }

  lemma EntryAt(es: seq<Entry>, maps: seq<Mapping>, holes: seq<Hole>, i: nat)
    requires Checked(maps, holes) && TableOf(es, maps, holes) && i < |es|
    ensures var ps := AllPieces(maps, holes);
      if i < |ps| then es[i] == ToEntry(ps[i]) && ps[i].from < ps[i].to && es[i].from + es[i].sz <= ps[i].to
      else es[i] == Entry(0, 0, 0)
  {
    var ps := AllPieces(maps, holes);
    if i < |ps| {
      assert es[i] == es[..|ps|][i];
      var k := PiecesKeepProt(maps, holes, i);
      EntryOfPiece(ps[i]);
    }
  }

  /** The table covers nothing the pieces do not, and all they cover if they are small. */
  lemma TableCovers(es: seq<Entry>, maps: seq<Mapping>, holes: seq<Hole>, a: nat)
    requires Checked(maps, holes) && TableOf(es, maps, holes)
    ensures InTable(es, a) ==> Covered(AllPieces(maps, holes), a)
    ensures AllSmall(maps, holes) ==> (InTable(es, a) <==> Covered(AllPieces(maps, holes), a))
  {
    var ps := AllPieces(maps, holes);
    if i :| 0 <= i < |es| && InEntry(es[i], a) {
      EntryAt(es, maps, holes, i);
      assert In(ps[i], a);
    }
    if i :| AllSmall(maps, holes) && 0 <= i < |ps| && In(ps[i], a) {
      EntryAt(es, maps, holes, i);
      EntryOfPiece(ps[i]);
      assert Small(ps[i]) && InEntry(es[i], a);
    }
  }

  /** With small pieces the table is exact if and only if no recorded mapping has two holes in it or
      one that reaches into it from below. */
  lemma TableExactIffClear(es: seq<Entry>, maps: seq<Mapping>, holes: seq<Hole>)
    requires Checked(maps, holes) && TableOf(es, maps, holes) && AllSmall(maps, holes)
    ensures TableExact(es, maps, holes) <==> AllClear(maps, holes)
  {
    forall a: nat
      ensures InTable(es, a) <==> Covered(AllPieces(maps, holes), a)
    {
      TableCovers(es, maps, holes, a);
    }
    SubtractionExactIff(maps, holes);
  }

  /** The last address of a piece that is too large is in no entry. */
  lemma EndMissing(es: seq<Entry>, maps: seq<Mapping>, holes: seq<Hole>, i: nat) returns (a: nat)
    requires Checked(maps, holes) && AllClear(maps, holes) && MapsDisjoint(maps) && TableOf(es, maps, holes)
    requires i < |AllPieces(maps, holes)| && !Small(AllPieces(maps, holes)[i])
    ensures Outside(maps, holes, a) && !InTable(es, a)
  {
    var ps := AllPieces(maps, holes);
    EntryAt(es, maps, holes, i);
    EntryOfPiece(ps[i]);
    a := ps[i].to - 1;
    assert In(ps[i], a);
    SubtractionExact(maps, holes, a);
    AllPiecesDisjoint(maps, holes);
    forall j | 0 <= j < |es|
      ensures !InEntry(es[j], a)
    {
      EntryAt(es, maps, holes, j);
      assert j < |ps| && j != i ==> ps[i].to <= ps[j].from || ps[j].to <= ps[i].from;
    }
  }

  /** With clear and disjoint mappings it is exact if and only if every piece is smaller than 2^32. */
  lemma TableExactIffSmall(es: seq<Entry>, maps: seq<Mapping>, holes: seq<Hole>)
    requires Checked(maps, holes) && AllClear(maps, holes) && MapsDisjoint(maps) && TableOf(es, maps, holes)
    ensures TableExact(es, maps, holes) <==> AllSmall(maps, holes)
  {
    if AllSmall(maps, holes) {
      TableExactIffClear(es, maps, holes);
    } else {
      var i :| 0 <= i < |AllPieces(maps, holes)| && !Small(AllPieces(maps, holes)[i]);
      var a := EndMissing(es, maps, holes, i);
    }
  }

  /** A mapping of 4 GiB and a page is recorded as one page. */
  lemma LargeMapping(es: seq<Entry>)
    requires TableOf(es, [Mapping(0x1000, 0x1_0000_2000, 'r', 'w', '-', "")], [])
    ensures var maps := [Mapping(0x1000, 0x1_0000_2000, 'r', 'w', '-', "")];
      Checked(maps, []) && AllClear(maps, []) && MapsDisjoint(maps) && Outside(maps, [], 0x2000) && !InTable(es, 0x2000)
  {
    var m := Mapping(0x1000, 0x1_0000_2000, 'r', 'w', '-', "");
    assert !Skipped(m);
    OnePiece(m);
    assert [m][0] == m;
    forall j | 0 <= j < |es|
      ensures !InEntry(es[j], 0x2000)
    {
      EntryAt(es, [m], [], j);
    }
  }

  lemma OnePiece(m: Mapping)
    requires !Skipped(m)
    ensures AllPieces([m], []) == [Piece(m.from, m.to, Prot(m))]
  {
    assert [m][..0] == [] && AllPieces([], []) == [];
  }

  // ----- lines without a name

  /** Each line keeps its range, its letters, and its name if it has one. */
  lemma LinesKept(lines: seq<Line>, k: nat)
    requires k < |lines|
    ensures |Effective(lines)| == |lines|
    ensures var l, m := lines[k], Effective(lines)[k];
      && m.from == l.from && m.to == l.to && m.r == l.r && m.w == l.w && m.x == l.x
      && (l.name.Some? ==> m.name == l.name.value)
  {
    EffectiveAt(lines, k);
  }

  /** A line is skipped if and only if the nearest name at or above it is one to be skipped. */
  lemma {:induction false} SkippedIff(lines: seq<Line>, k: nat)
    requires k < |lines|
    ensures |Effective(lines)| == |lines|
    ensures Skipped(Effective(lines)[k]) <==> NameAbove(lines, k)
    decreases k
  {
    EffectiveAt(lines, k);
    if lines[k].name.Some? {
      assert NamesSkipped(lines, k, k) <==> SkippedName(lines[k].name.value);
      assert forall j | 0 <= j < k :: !NamesSkipped(lines, j, k);
    } else if k > 0 {
      EffectiveAt(lines, k - 1);
      EffectiveNext(lines, k - 1);
      SkippedIff(lines, k - 1);
      NamesAbove(lines, k);
    } else {
      assert lines[..0] == [];
    }
  }

  lemma NamesAbove(lines: seq<Line>, k: nat)
    requires 0 < k < |lines| && lines[k].name.None?
    ensures NameAbove(lines, k) <==> NameAbove(lines, k - 1)
  {
    assert !NamesSkipped(lines, k, k);
    if NameAbove(lines, k) {
      var j :| 0 <= j <= k && NamesSkipped(lines, j, k);
      assert NamesSkipped(lines, j, k - 1);
    }
    if NameAbove(lines, k - 1) {
      var j :| 0 <= j <= k - 1 && NamesSkipped(lines, j, k - 1);
      assert NamesSkipped(lines, j, k);
    }
  }

  /** The name of line `j` is one to be skipped, and from there to `k` no other line has one. */
  ghost predicate NamesSkipped(lines: seq<Line>, j: nat, k: nat)
    requires j <= k < |lines|
  {
    && lines[j].name.Some? && SkippedName(lines[j].name.value)
    && forall i | j < i <= k :: lines[i].name.None?
  }

  /** The nearest name at or above line `k` is one to be skipped. */
  ghost predicate NameAbove(lines: seq<Line>, k: nat)
    requires k < |lines|
  {
    exists j | 0 <= j <= k :: NamesSkipped(lines, j, k)
  }

  /** A line that has no name, and is skipped all the same. */
  ghost predicate Forgotten(lines: seq<Line>, k: nat)
    requires k < |lines|
  {
    lines[k].name.None? && NameAbove(lines, k)
  }

  /** Where a line is forgotten there is nothing but holes. */
  ghost predicate NothingForgotten(lines: seq<Line>, holes: seq<Hole>) {
    forall k, a: nat | 0 <= k < |lines| && Forgotten(lines, k) && lines[k].from <= a < lines[k].to :: InHole(holes, a)
  }

  /** What would be recorded is what is, and the forgotten lines. */
  lemma OwnOutside(lines: seq<Line>, holes: seq<Hole>, a: nat)
    ensures Outside(Own(lines), holes, a) <==>
      Outside(Effective(lines), holes, a)
      || (!InHole(holes, a) && exists k | 0 <= k < |lines| :: Forgotten(lines, k) && lines[k].from <= a < lines[k].to)
  {
    EffectiveLength(lines);
    var own, maps := Own(lines), Effective(lines);
    forall k | 0 <= k < |lines|
      ensures !Skipped(own[k]) <==> !Skipped(maps[k]) || Forgotten(lines, k)
      ensures maps[k].from == own[k].from == lines[k].from && maps[k].to == own[k].to == lines[k].to
    {
      EffectiveAt(lines, k);
      SkippedIff(lines, k);
    }
  }

  /** With clear and disjoint mappings the table covers exactly what the lines say outside the holes
      if and only if every piece is smaller than 2^32 and no line that has something outside the
      holes is forgotten. */
  lemma LinesExactIff(es: seq<Entry>, lines: seq<Line>, holes: seq<Hole>)
    requires var maps := Effective(lines);
      Checked(maps, holes) && AllClear(maps, holes) && MapsDisjoint(maps) && TableOf(es, maps, holes)
    ensures TableExact(es, Own(lines), holes) <==> AllSmall(Effective(lines), holes) && NothingForgotten(lines, holes)
  {
    var maps := Effective(lines);
    TableExactIffSmall(es, maps, holes);
    forall a: nat
      ensures Outside(Own(lines), holes, a) <==> Outside(maps, holes, a) || SeenForgotten(lines, holes, a)
      ensures InTable(es, a) ==> Outside(maps, holes, a)
    {
      OwnOutside(lines, holes, a);
      TableCovers(es, maps, holes, a);
      SubtractionExact(maps, holes, a);
    }
    if a: nat, k :| 0 <= k < |lines| && Forgotten(lines, k) && lines[k].from <= a < lines[k].to && !InHole(holes, a) {
      ForgottenApart(lines, holes, k, a);
      assert SeenForgotten(lines, holes, a);
    }
  }

  ghost predicate SeenForgotten(lines: seq<Line>, holes: seq<Hole>, a: nat) {
    !InHole(holes, a) && exists k | 0 <= k < |lines| :: Forgotten(lines, k) && lines[k].from <= a < lines[k].to
  }

  lemma {:induction false} ForgottenApart(lines: seq<Line>, holes: seq<Hole>, k: nat, a: nat)
    requires MapsDisjoint(Effective(lines)) && k < |lines| && Forgotten(lines, k) && lines[k].from <= a < lines[k].to
    ensures !Outside(Effective(lines), holes, a)
  {
    EffectiveLength(lines);
    var maps := Effective(lines);
    SkippedIff(lines, k);
    EffectiveAt(lines, k);
    forall j | 0 <= j < |maps| && j != k
      ensures !(maps[j].from <= a < maps[j].to)
    {
      assert if j < k then maps[j].to <= maps[k].from || maps[k].to <= maps[j].from
             else maps[k].to <= maps[j].from || maps[j].to <= maps[k].from;
    }
  }

  /** Below a name to be skipped, lines without a name are forgotten: nothing of them is recorded. */
  lemma UnnamedBehind(lines: seq<Line>)
    requires lines != [] && lines[0].name.Some? && SkippedName(lines[0].name.value)
    requires forall k | 1 <= k < |lines| :: lines[k].name.None?
    ensures AllPieces(Effective(lines), []) == [] && forall k | 1 <= k < |lines| :: Forgotten(lines, k)
  {
    EffectiveLength(lines);
    forall k | 0 <= k < |lines|
      ensures NameAbove(lines, k) && Skipped(Effective(lines)[k])
    {
      assert NamesSkipped(lines, 0, k);
      SkippedIff(lines, k);
    }
    AllSkipped(Effective(lines), []);
  }

  /** They would have been recorded under their own. */
  lemma UnnamedSeen(lines: seq<Line>, k: nat)
    requires k < |lines| && lines[k].name.None? && lines[k].from < lines[k].to
    ensures Outside(Own(lines), [], lines[k].from)
  {
    assert !SkippedName("");
    assert !Skipped(Own(lines)[k]) && Own(lines)[k].from <= lines[k].from < Own(lines)[k].to;
  }

  /** A mapping of libpthread, and one without a name behind it. */
  lemma BehindLibpthread(l: Line, u: Line)
    requires l == Line(0x1000, 0x2000, 'r', '-', 'x', Some("libpthread-2.so")) && u == Line(0x2000, 0x3000, 'r', 'w', '-', None)
    ensures AllPieces(Effective([l, u]), []) == [] && Outside(Own([l, u]), [], 0x2000)
  {
    assert "libpthread-" <= "libpthread-2.so";
    assert [l, u][0] == l && [l, u][1] == u;
    UnnamedBehind([l, u]);
    UnnamedSeen([l, u], 1);
  }

  lemma {:induction false} AllSkipped(maps: seq<Mapping>, holes: seq<Hole>)
    requires forall k | 0 <= k < |maps| :: Skipped(maps[k])
    ensures AllPieces(maps, holes) == []
  {
    if maps != [] {
      assert forall k | 0 <= k < |maps| - 1 :: maps[..|maps| - 1][k] == maps[k];
      AllSkipped(maps[..|maps| - 1], holes);
    }
  }
}
