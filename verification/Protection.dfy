/** Locking the host process away from the user's programs: around every trap the recorded
    ranges are opened and then locked again, and the current process's regions are opened. */
module Protection {
  import Bits
  import opened Holes

  /** The regions of the current process. */
  datatype Area = Area(load: int, loadsz: int, stack: int, stacksz: int)

  /** The permission of each page, by the page's address. */
  type Pages = map<nat, int>

  /** `mprotect` works on whole pages and refuses an address inside one. */
  predicate Touches(from: int, size: int, a: nat) {
    from % Bits.PAGE == 0 && from <= a < from + size
  }

  function Protected(perm: Pages, from: int, size: int, prot: int): (r: Pages)
    ensures r.Keys == perm.Keys
  {
    map a | a in perm :: if Touches(from, size, a) then prot else perm[a]
  }

  function ProtectedAll(perm: Pages, es: seq<Entry>, restore: bool): (r: Pages)
    ensures r.Keys == perm.Keys
  {
    if es == [] then perm
    else
      var e := es[|es| - 1];
      Protected(ProtectedAll(perm, es[..|es| - 1], restore), e.from, e.sz, if restore then e.prot else 0)
  }

  /** The state after `host_vm_prot`. */
  function AfterProt(perm: Pages, es: seq<Entry>, restore: bool, cur: Area): (r: Pages)
    ensures r.Keys == perm.Keys
  {
    var all := ProtectedAll(perm, es, restore);
    if restore then all
    else
      Protected(Protected(all, cur.load, cur.loadsz, PROT_READ + PROT_WRITE + PROT_EXEC),
                cur.stack, cur.stacksz, PROT_READ + PROT_WRITE)
  }

  class Vm {
    const table: ProcMaps
    var perm: Pages

    constructor (table: ProcMaps, perm: Pages)
      ensures this.table == table && this.perm == perm
    {
      this.table := table;
      this.perm := perm;
    }

    method SysMprotect(from: int, size: int, prot: int)
      modifies this
      ensures perm == Protected(old(perm), from, size, prot)
    {
      perm := map a | a in perm :: if Touches(from, size, a) then prot else perm[a];
    }

    /** The regions are those of the process current at the call, and only needed to lock. */
    method HostVmProt(restore: bool, cur: Area)
      modifies this
      ensures perm == AfterProt(old(perm), table.procmaps[..], restore, cur)
    {
      var e := 0;
      while e < table.procmaps.Length
        invariant e <= table.procmaps.Length
        invariant perm == ProtectedAll(old(perm), table.procmaps[..e], restore)
      {
        var ent := table.procmaps[e];
        assert table.procmaps[..e + 1][..e] == table.procmaps[..e];
        SysMprotect(ent.from, ent.sz, if restore then ent.prot else 0);
        e := e + 1;
      }
      assert table.procmaps[..e] == table.procmaps[..];
      if !restore {
        SysMprotect(cur.load, cur.loadsz, PROT_READ + PROT_WRITE + PROT_EXEC);
        SysMprotect(cur.stack, cur.stacksz, PROT_READ + PROT_WRITE);
      }
    }
  }

  // ----- one page at a time

  predicate Hits(e: Entry, a: nat) {
    Touches(e.from, e.sz, a)
  }

  ghost predicate HitBy(es: seq<Entry>, a: nat) {
    exists i | 0 <= i < |es| :: Hits(es[i], a)
  }

  lemma HitByNext(es: seq<Entry>, a: nat)
    requires es != []
    ensures HitBy(es, a) <==> HitBy(es[..|es| - 1], a) || Hits(es[|es| - 1], a)
  {
    var front := es[..|es| - 1];
    assert forall i | 0 <= i < |front| :: front[i] == es[i];
  }

  /** A page no entry covers keeps its permission; one that is covered has what its covering
      entries agree on. */
  lemma {:induction false} ProtectedAt(perm: Pages, es: seq<Entry>, restore: bool, a: nat, prot: int)
    requires a in perm
    requires restore ==> forall i | 0 <= i < |es| && Hits(es[i], a) :: es[i].prot == prot
    ensures ProtectedAll(perm, es, restore)[a] == if HitBy(es, a) then (if restore then prot else 0) else perm[a]
  {
    if es != [] {
      var front := es[..|es| - 1];
      assert forall i | 0 <= i < |front| :: front[i] == es[i];
      ProtectedAt(perm, front, restore, a, prot);
      HitByNext(es, a);
    }
  }

  // ----- the recorded table

  /** Mappings start at page boundaries, and holes end at them. */
  ghost predicate PageAligned(maps: seq<Mapping>, holes: seq<Hole>) {
    && (forall k | 0 <= k < |maps| :: maps[k].from % Bits.PAGE == 0)
    && (forall i | 0 <= i < |holes| :: holes[i].to % Bits.PAGE == 0)
  }

  lemma {:induction false} PiecesAligned(maps: seq<Mapping>, holes: seq<Hole>, i: nat)
    requires PageAligned(maps, holes) && i < |AllPieces(maps, holes)|
    ensures AllPieces(maps, holes)[i].from % Bits.PAGE == 0
  {
    var front, last := maps[..|maps| - 1], maps[|maps| - 1];
    assert forall k | 0 <= k < |front| :: front[k] == maps[k];
    var n := |AllPieces(front, holes)|;
    if i < n {
      PiecesAligned(front, holes, i);
    } else {
      assert last.from % Bits.PAGE == 0 by {
        assert maps[|front|] == last;
      }
      OwnAligned(last, holes, i - n);
    }
  }

  lemma OwnAligned(m: Mapping, holes: seq<Hole>, i: nat)
    requires m.from % Bits.PAGE == 0 && (forall j | 0 <= j < |holes| :: holes[j].to % Bits.PAGE == 0)
    requires i < |Pieces(m, holes)|
    ensures Pieces(m, holes)[i].from % Bits.PAGE == 0
  {
    if SomeStarts(m, holes) {
      AroundAligned(m, holes, i);
    }
  }

  lemma {:induction false} AroundAligned(m: Mapping, holes: seq<Hole>, i: nat)
    requires m.from % Bits.PAGE == 0 && (forall j | 0 <= j < |holes| :: holes[j].to % Bits.PAGE == 0)
    requires i < |AroundAll(m, holes)|
    ensures AroundAll(m, holes)[i].from % Bits.PAGE == 0
  {
    var front, last := holes[..|holes| - 1], holes[|holes| - 1];
    assert forall j | 0 <= j < |front| :: front[j] == holes[j];
    assert last.to % Bits.PAGE == 0;
    if i < |AroundAll(m, front)| {
      AroundAligned(m, front, i);
    }
  }

  /** What the table says of a page: the entries that cover it are in its mapping and have its
      permission. */
  lemma TableSays(es: seq<Entry>, maps: seq<Mapping>, holes: seq<Hole>, a: nat)
    requires Checked(maps, holes) && PageAligned(maps, holes) && TableOf(es, maps, holes)
    ensures HitBy(es, a) <==> InTable(es, a)
    ensures MapsDisjoint(maps) ==> forall i, k | 0 <= i < |es| && Hits(es[i], a) && 0 <= k < |maps| && maps[k].from <= a < maps[k].to ::
      !Skipped(maps[k]) && es[i].prot == Prot(maps[k]) && Grants(es[i].prot, maps[k])
  {
    forall i | 0 <= i < |es|
      ensures Hits(es[i], a) <==> InEntry(es[i], a)
    {
      EntryAt(es, maps, holes, i);
      if i < |AllPieces(maps, holes)| {
        PiecesAligned(maps, holes, i);
      }
    }
    assert HitBy(es, a) ==> InTable(es, a);
    forall i, k | MapsDisjoint(maps) && 0 <= i < |es| && Hits(es[i], a) && 0 <= k < |maps| && maps[k].from <= a < maps[k].to
      ensures !Skipped(maps[k]) && es[i].prot == Prot(maps[k]) && Grants(es[i].prot, maps[k])
    {
      ProtGrants(maps[k]);
      EntryAt(es, maps, holes, i);
      var j := PiecesKeepProt(maps, holes, i);
      SameMap(maps, j, k, a);
    }
  }

  lemma SameMap(maps: seq<Mapping>, j: nat, k: nat, a: nat)
    requires MapsDisjoint(maps) && j < |maps| && k < |maps|
    requires maps[j].from <= a < maps[j].to && maps[k].from <= a < maps[k].to
    ensures j == k
  {
  }

  // ----- whole runs

  /** The pages after a run of traps, each with the process current when it ends. */
  function AfterTraps(perm: Pages, es: seq<Entry>, curs: seq<Area>): (r: Pages)
    ensures r.Keys == perm.Keys
  {
    if curs == [] then perm
    else
      var cur := curs[|curs| - 1];
      AfterProt(AfterProt(AfterTraps(perm, es, curs[..|curs| - 1]), es, true, cur), es, false, cur)
  }

  /** The process regions are inside the memory hole. */
  ghost predicate Within(cur: Area, mem: Hole) {
    mem.from <= cur.load && cur.load + cur.loadsz <= mem.to && mem.from <= cur.stack && cur.stack + cur.stacksz <= mem.to
  }

  predicate InArea(cur: Area, a: nat) {
    Touches(cur.load, cur.loadsz, a) || Touches(cur.stack, cur.stacksz, a)
  }

  /** One more trap. */
  lemma AfterTrapsStep(perm: Pages, es: seq<Entry>, curs: seq<Area>, cur: Area)
    ensures AfterTraps(perm, es, curs + [cur]) ==
      AfterProt(AfterProt(AfterTraps(perm, es, curs), es, true, cur), es, false, cur)
  {
    assert (curs + [cur])[..|curs|] == curs;
  }

  lemma {:induction false} AfterTrapsMore(perm: Pages, es: seq<Entry>, curs: seq<Area>, more: seq<Area>)
    ensures AfterTraps(perm, es, curs + more) == AfterTraps(AfterTraps(perm, es, curs), es, more)
  {
    if more == [] {
      assert curs + more == curs;
    } else {
      var front, last := more[..|more| - 1], more[|more| - 1];
      assert curs + more == (curs + front) + [last];
      AfterTrapsStep(perm, es, curs + front, last);
      AfterTrapsMore(perm, es, curs, front);
    }
  }

  /** Opening the ranges gives every page in the table its mapping's permission, whatever was done
      to it before; locking closes it, unless it is the current process's. */
  lemma OpenAndLocked(perm: Pages, es: seq<Entry>, maps: seq<Mapping>, holes: seq<Hole>, cur: Area, k: nat, a: nat)
    requires Checked(maps, holes) && PageAligned(maps, holes) && MapsDisjoint(maps) && TableOf(es, maps, holes)
    requires a in perm && k < |maps| && maps[k].from <= a < maps[k].to && InTable(es, a)
    ensures AfterProt(perm, es, true, cur)[a] == Prot(maps[k])
    ensures !InArea(cur, a) ==> AfterProt(perm, es, false, cur)[a] == 0
  {
    TableSays(es, maps, holes, a);
    ProtectedAt(perm, es, true, a, Prot(maps[k]));
    ProtectedAt(perm, es, false, a, 0);
  }

  /** The entries that cover a page agree on its permission. */
  ghost predicate Agreed(es: seq<Entry>, a: nat, prot: int) {
    HitBy(es, a) && forall i | 0 <= i < |es| && Hits(es[i], a) :: es[i].prot == prot
  }

  /** The pages `now` are `was` opened: those in the table have the permission it says, whatever it
      was before, and the others are as before. */
  ghost predicate Opened(es: seq<Entry>, was: Pages, now: Pages) {
    && now.Keys == was.Keys
    && (forall a, prot | a in was && Agreed(es, a, prot) :: now[a] == prot)
    && forall a | a in was && !HitBy(es, a) :: now[a] == was[a]
  }

  lemma OpenedIs(perm: Pages, es: seq<Entry>, cur: Area)
    ensures Opened(es, perm, AfterProt(perm, es, true, cur))
  {
    forall a, prot | a in perm && Agreed(es, a, prot)
      ensures AfterProt(perm, es, true, cur)[a] == prot
    {
      ProtectedAt(perm, es, true, a, prot);
    }
    forall a | a in perm && !HitBy(es, a)
      ensures AfterProt(perm, es, true, cur)[a] == perm[a]
    {
      ProtectedAt(perm, es, true, a, 0);
    }
  }

  /** On opened pages, a page of a mapping that is in the table can be used as the line says. */
  lemma OpenedGrants(was: Pages, now: Pages, es: seq<Entry>, maps: seq<Mapping>, holes: seq<Hole>, k: nat, a: nat)
    requires Checked(maps, holes) && PageAligned(maps, holes) && MapsDisjoint(maps) && TableOf(es, maps, holes)
    requires Opened(es, was, now) && a in was && k < |maps| && maps[k].from <= a < maps[k].to && InTable(es, a)
    ensures Grants(now[a], maps[k])
  {
    TableSays(es, maps, holes, a);
    ProtGrants(maps[k]);
    assert Agreed(es, a, Prot(maps[k]));
  }

  /** The pages of the current process are open after every trap. */
  lemma CurrentOpen(perm: Pages, es: seq<Entry>, cur: Area, a: nat)
    requires a in perm && cur.load % Bits.PAGE == 0 && cur.stack % Bits.PAGE == 0
    ensures cur.stack <= a < cur.stack + cur.stacksz ==> AfterProt(perm, es, false, cur)[a] == 3
    ensures cur.load <= a < cur.load + cur.loadsz && !(cur.stack <= a < cur.stack + cur.stacksz) ==>
      AfterProt(perm, es, false, cur)[a] == 7
  {
  }

  /** Over any run of traps, with any switches of process: a page that is none of the processes'
      never changes unless it is in the table, and then it ends up locked. */
  lemma {:induction false} TrapsAt(perm: Pages, es: seq<Entry>, curs: seq<Area>, a: nat)
    requires a in perm && forall c | c in curs :: !InArea(c, a)
    ensures AfterTraps(perm, es, curs)[a] == if HitBy(es, a) && curs != [] then 0 else perm[a]
  {
    if curs != [] {
      var front, cur := curs[..|curs| - 1], curs[|curs| - 1];
      TrapsAt(perm, es, front, a);
      var before := AfterTraps(perm, es, front);
      var open := AfterProt(before, es, true, cur);
      if !HitBy(es, a) {
        ProtectedAt(before, es, true, a, 0);
      }
      ProtectedAt(open, es, false, a, 0);
      assert !InArea(cur, a);
    }
  }

  /** Over such a run the pages of the other holes (where the handler itself is) never change, and
      every page in the table ends up locked. */
  lemma TrapsKeepHandler(perm: Pages, es: seq<Entry>, maps: seq<Mapping>, holes: seq<Hole>, mem: Hole, curs: seq<Area>, a: nat)
    requires Checked(maps, holes) && AllClear(maps, holes) && PageAligned(maps, holes) && TableOf(es, maps, holes)
    requires a in perm && mem in holes && forall c | c in curs :: Within(c, mem)
    ensures InHole(holes, a) && !(mem.from <= a < mem.to) ==> AfterTraps(perm, es, curs)[a] == perm[a]
    ensures curs != [] && InTable(es, a) ==> AfterTraps(perm, es, curs)[a] == 0
  {
    TableSays(es, maps, holes, a);
    TableCovers(es, maps, holes, a);
    SubtractionExact(maps, holes, a);
    var i :| 0 <= i < |holes| && holes[i] == mem;
    assert InTable(es, a) ==> !(mem.from <= a < mem.to);
    if !(mem.from <= a < mem.to) {
      assert forall c | c in curs :: Within(c, mem) && !InArea(c, a);
      TrapsAt(perm, es, curs, a);
    }
  }
}
