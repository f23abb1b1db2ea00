/** The block pool: a never-used region served first, then a free list threaded through the
    first machine word of the blocks that were given back. */
module Pools {
  const NULL := 0
  const WORDSZ: nat := 8

  /** Where a pool's blocks are. A block must have room for the link of the free list. */
  datatype Geometry = Geometry(mem: int, membsz: nat, nmemb: nat) {
    ghost predicate Ok() {
      mem > NULL && membsz >= WORDSZ
    }

    /** The address of block `k`, reached as the pool does: one block size at a time. */
    function Block(k: nat): int {
      if k == 0 then mem else Block(k - 1) + membsz
    }

    ghost predicate IsBlock(b: int) {
      exists k: nat :: k < nmemb && b == mem + k * membsz
    }

    /** Blocks `k` and up: with `k` the number already handed out once, the never-used ones. */
    ghost function From(k: nat): set<int>
      decreases nmemb - k
    {
      if k >= nmemb then {} else {Block(k)} + From(k + 1)
    }
  }

  lemma {:induction false} BlockAddress(g: Geometry, k: nat)
    ensures g.Block(k) == g.mem + k * g.membsz
  {
    if k > 0 {
      BlockAddress(g, k - 1);
      assert k * g.membsz == (k - 1) * g.membsz + g.membsz;
    }
  }

  /** Two different blocks start at least a block apart. */
  lemma {:induction false} BlocksApart(g: Geometry, i: nat, j: nat)
    requires i < j
    ensures g.Block(i) + g.membsz <= g.Block(j)
  {
    if i < j - 1 {
      BlocksApart(g, i, j - 1);
    }
  }

  lemma BlockOrder(g: Geometry, i: nat, j: nat)
    requires g.Ok()
    ensures g.Block(i) < g.Block(j) <==> i < j
    ensures g.Block(i) == g.Block(j) <==> i == j
  {
    if i < j {
      BlocksApart(g, i, j);
    } else if j < i {
      BlocksApart(g, j, i);
    }
  }

  lemma {:induction false} FromAbove(g: Geometry, k: nat, b: int)
    requires g.Ok() && b in g.From(k)
    ensures g.Block(k) <= b && g.IsBlock(b)
    decreases g.nmemb - k
  {
    if b == g.Block(k) {
      BlockAddress(g, k);
    } else {
      FromAbove(g, k + 1, b);
    }
  }

  lemma FromStep(g: Geometry, k: nat)
    requires g.Ok() && k < g.nmemb
    ensures g.From(k) == g.From(k + 1) + {g.Block(k)}
    ensures g.Block(k) !in g.From(k + 1)
  {
    if g.Block(k) in g.From(k + 1) {
      FromAbove(g, k + 1, g.Block(k));
    }
  }

  lemma AllBlocks(g: Geometry, b: int)
    requires g.Ok() && b in g.From(0)
    ensures g.IsBlock(b) && b != NULL
  {
    FromAbove(g, 0, b);
  }

  lemma {:induction false} FromSubset(g: Geometry, k: nat, s: set<int>)
    ensures g.From(k) <= s <==> forall i | k <= i < g.nmemb :: g.Block(i) in s
    decreases g.nmemb - k
  {
    if k < g.nmemb {
      FromSubset(g, k + 1, s);
      assert g.From(k) == {g.Block(k)} + g.From(k + 1);
      assert g.From(k) <= s <==> g.Block(k) in s && g.From(k + 1) <= s by {
        if g.From(k) <= s {
          assert g.Block(k) in g.From(k);
        }
      }
      forall i | k <= i < g.nmemb && g.From(k) <= s
        ensures g.Block(i) in s
      {
        assert i == k || k + 1 <= i;
      }
    }
  }

  ghost predicate Distinct(s: seq<int>) {
    forall i, j | 0 <= i < j < |s| :: s[i] != s[j]
  }

  ghost function Elements(s: seq<int>): set<int> {
    set b | b in s
  }

  /** A NULL-terminated list whose links are the words at its elements' addresses. */
  ghost predicate Linked(word: map<int, int>, head: int, list: seq<int>)
    decreases |list|
  {
    if list == [] then head == NULL
    else head == list[0] && head != NULL && head in word && Linked(word, word[head], list[1..])
  }

  /** Writing a word outside a list leaves the list as it is. */
  lemma {:induction false} LinkedFrame(word: map<int, int>, head: int, list: seq<int>, b: int, w: int)
    requires Linked(word, head, list) && b !in list
    ensures Linked(word[b := w], head, list)
    decreases |list|
  {
    if list != [] {
      assert b != list[0] && b !in list[1..];
      LinkedFrame(word, word[head], list[1..], b, w);
    }
  }

  lemma LinkedPush(word: map<int, int>, head: int, list: seq<int>, b: int)
    requires Linked(word, head, list) && b !in list && b != NULL
    ensures Linked(word[b := head], b, [b] + list)
  {
    LinkedFrame(word, head, list, b, head);
    assert ([b] + list)[1..] == list;
  }

  /** The same head and words determine the list: a linked list cannot be read in two ways. */
  lemma {:induction false} LinkedUnique(word: map<int, int>, head: int, l1: seq<int>, l2: seq<int>)
    requires Linked(word, head, l1) && Linked(word, head, l2)
    ensures l1 == l2
    decreases l1
  {
    if l1 != [] {
      LinkedUnique(word, word[head], l1[1..], l2[1..]);
      assert l1 == [head] + l1[1..] && l2 == [head] + l2[1..];
    }
  }

  /** What a pool holds: how many blocks were ever taken from the never-used region, the free
      list with the most recently freed block first, and the blocks now in their users' hands. */
  datatype State = State(used: nat, free: seq<int>, live: set<int>)

  /** The free list, the live blocks and the never-used blocks share out all blocks: every block
      is in exactly one of the three, and in the free list at most once. */
  ghost predicate Shared(free: seq<int>, live: set<int>, unused: set<int>, all: set<int>) {
    multiset(free) + multiset(live) + multiset(unused) == multiset(all)
  }

  lemma SharedMeans(free: seq<int>, live: set<int>, unused: set<int>, all: set<int>)
    requires Shared(free, live, unused, all)
    ensures Distinct(free) && live !! unused && live + unused <= all
    ensures forall b | b in free :: b !in live && b !in unused && b in all
    ensures forall b | b in all :: b in free || b in live || b in unused
  {
    var parts := multiset(free) + multiset(live) + multiset(unused);
    forall b
      ensures multiset(free)[b] + multiset(live)[b] + multiset(unused)[b] <= 1
      ensures b in all <==> multiset(free)[b] + multiset(live)[b] + multiset(unused)[b] == 1
    {
      assert parts[b] == multiset(all)[b];
    }
    forall b
      ensures b in free ==> b !in live && b !in unused && b in all
      ensures !(b in live && b in unused)
      ensures b in live || b in unused ==> b in all
      ensures b in all ==> b in free || b in live || b in unused
    {
      assert b in free <==> multiset(free)[b] > 0;
      assert b in live <==> multiset(live)[b] == 1;
      assert b in unused <==> multiset(unused)[b] == 1;
    }
    forall i, j | 0 <= i < j < |free|
      ensures free[i] != free[j]
    {
      if free[i] == free[j] {
        TwiceInMultiset(free, i, j);
        assert false;
      }
    }
  }

  lemma TwiceInMultiset(s: seq<int>, i: nat, j: nat)
    requires i < j < |s| && s[i] == s[j]
    ensures multiset(s)[s[i]] >= 2
  {
    assert s == s[..j] + s[j..];
    assert s[..j][i] in multiset(s[..j]) && s[j..][0] in multiset(s[j..]);
  }

  ghost predicate Consistent(g: Geometry, s: State) {
    && g.Ok() && s.used <= g.nmemb
    && Shared(s.free, s.live, g.From(s.used), g.From(0))
    && |s.free| + |s.live| == s.used
  }

  lemma SharedMoveUnused(free: seq<int>, live: set<int>, unused: set<int>, all: set<int>, b: int, left: set<int>)
    requires Shared(free, live, unused, all) && unused == left + {b} && b !in left
    ensures Shared(free, live + {b}, left, all) && b !in live && b in all
  {
    SharedMeans(free, live, unused, all);
    assert multiset(unused) == multiset(left) + multiset{b};
    assert multiset(live + {b}) == multiset(live) + multiset{b};
  }

  lemma SharedPop(free: seq<int>, live: set<int>, unused: set<int>, all: set<int>)
    requires Shared(free, live, unused, all) && free != []
    ensures Shared(free[1..], live + {free[0]}, unused, all) && free[0] !in live && free[0] in all
  {
    SharedMeans(free, live, unused, all);
    assert free == [free[0]] + free[1..];
    assert free[0] in free;
    assert multiset(live + {free[0]}) == multiset(live) + multiset{free[0]};
  }

  lemma SharedPush(free: seq<int>, live: set<int>, unused: set<int>, all: set<int>, b: int)
    requires Shared(free, live, unused, all) && b in live
    ensures Shared([b] + free, live - {b}, unused, all) && b !in free && b in all
  {
    SharedMeans(free, live, unused, all);
    assert multiset(live) == multiset(live - {b}) + multiset{b};
  }

  lemma SharedFull(live: set<int>, all: set<int>)
    ensures Shared([], live, {}, all) <==> live == all
  {
    if Shared([], live, {}, all) {
      assert multiset(live) == multiset(all);
      forall b
        ensures b in live <==> b in all
      {
        assert multiset(live)[b] == multiset(all)[b];
      }
    }
  }

  function Available(g: Geometry, s: State): int {
    |s.free| + g.nmemb - s.used
  }

  function AllocResult(g: Geometry, s: State): int {
    if s.used < g.nmemb then g.Block(s.used) else if s.free != [] then s.free[0] else NULL
  }

  function AfterAlloc(g: Geometry, s: State): State {
    if s.used < g.nmemb then s.(used := s.used + 1, live := s.live + {g.Block(s.used)})
    else if s.free != [] then s.(free := s.free[1..], live := s.live + {s.free[0]})
    else s
  }

  function AfterFree(s: State, b: int): State {
    s.(free := [b] + s.free, live := s.live - {b})
  }

  /** An allocation with the result `r` has taken the pool from `s` to `t`: `r` is a block nobody
      held, and NULL exactly when every block was held. */
  ghost predicate Allocated(g: Geometry, s: State, t: State, r: int) {
    && Consistent(g, t)
    && (r == NULL <==> s.live == g.From(0)) && (r == NULL <==> Available(g, s) == 0)
    && (if r == NULL then t == s
        else r in g.From(0) && r !in s.live && t.live == s.live + {r} && Available(g, t) == Available(g, s) - 1)
  }

  lemma AllocStep(g: Geometry, s: State)
    requires Consistent(g, s)
    ensures Allocated(g, s, AfterAlloc(g, s), AllocResult(g, s))
  {
    if s.used < g.nmemb {
      AllocUnused(g, s);
    } else if s.free != [] {
      AllocFreed(g, s);
    } else {
      SharedFull(s.live, g.From(0));
    }
  }

  lemma AllocUnused(g: Geometry, s: State)
    requires Consistent(g, s) && s.used < g.nmemb
    ensures Allocated(g, s, AfterAlloc(g, s), AllocResult(g, s))
  {
    var b := g.Block(s.used);
    FromStep(g, s.used);
    SharedMoveUnused(s.free, s.live, g.From(s.used), g.From(0), b, g.From(s.used + 1));
    AllBlocks(g, b);
  }

  lemma AllocFreed(g: Geometry, s: State)
    requires Consistent(g, s) && s.used == g.nmemb && s.free != []
    ensures Allocated(g, s, AfterAlloc(g, s), AllocResult(g, s))
  {
    SharedPop(s.free, s.live, g.From(s.used), g.From(0));
    AllBlocks(g, s.free[0]);
  }

  lemma FreeStep(g: Geometry, s: State, b: int)
    requires Consistent(g, s) && b in s.live
    ensures Consistent(g, AfterFree(s, b)) && b != NULL && b !in s.free && b in g.From(0)
    ensures Available(g, AfterFree(s, b)) == Available(g, s) + 1
  {
    SharedPush(s.free, s.live, g.From(s.used), g.From(0), b);
    AllBlocks(g, b);
  }

  /** Mark a pool's history by what its users saw. */
  datatype Event = Took(result: int) | Gave(block: int)

  /** Who holds what, from the history alone: taken and not given back since. */
  ghost function Held(log: seq<Event>): set<int> {
    if log == [] then {}
    else
      var before := Held(log[..|log| - 1]);
      match log[|log| - 1]
      case Took(r) => if r == NULL then before else before + {r}
      case Gave(b) => before - {b}
  }

  /** One call moves the pool from `p` to `s`, when the users hold `held` before it. */
  ghost predicate Step(g: Geometry, p: State, held: set<int>, e: Event, s: State) {
    if e.Took? then e.result == AllocResult(g, p) && s == AfterAlloc(g, p)
    else e.block in held && s == AfterFree(p, e.block)
  }

  /** The log is one a new pool can produce for users who give back only what they hold,
      and the pool is then in state `s`. */
  ghost predicate Behaviour(g: Geometry, log: seq<Event>, s: State) {
    if log == [] then s == State(0, [], {})
    else
      var past, last := log[..|log| - 1], log[|log| - 1];
      exists p: State :: Behaviour(g, past, p) && Step(g, p, Held(past), last, s)
  }

  /** Over every history the blocks are shared out exactly, and live means held. */
  lemma {:induction false} HistoryConsistent(g: Geometry, log: seq<Event>, s: State)
    requires g.Ok() && Behaviour(g, log, s)
    ensures Consistent(g, s) && s.live == Held(log)
  {
    if log == [] {
      assert Elements([]) == {};
    } else {
      var past, last := log[..|log| - 1], log[|log| - 1];
      var p: State :| Behaviour(g, past, p) && Step(g, p, Held(past), last, s);
      HistoryConsistent(g, past, p);
      if last.Took? {
        AllocStep(g, p);
      } else {
        FreeStep(g, p, last.block);
      }
    }
  }

  /** After any history: the next block is a real block nobody holds; NULL means all are held. */
  lemma NextAlloc(g: Geometry, log: seq<Event>, s: State)
    requires g.Ok() && Behaviour(g, log, s)
    ensures AllocResult(g, s) !in Held(log)
    ensures AllocResult(g, s) == NULL || g.IsBlock(AllocResult(g, s))
    ensures AllocResult(g, s) == NULL <==> forall k: nat | k < g.nmemb :: g.Block(k) in Held(log)
  {
    HistoryConsistent(g, log, s);
    NextBlock(g, s);
    FromSubset(g, 0, s.live);
  }

  lemma NextBlock(g: Geometry, s: State)
    requires Consistent(g, s)
    ensures AllocResult(g, s) !in s.live
    ensures AllocResult(g, s) == NULL || g.IsBlock(AllocResult(g, s))
    ensures AllocResult(g, s) == NULL <==> g.From(0) <= s.live
  {
    AllocStep(g, s);
    SharedMeans(s.free, s.live, g.From(s.used), g.From(0));
    if AllocResult(g, s) != NULL {
      AllBlocks(g, AllocResult(g, s));
    } else if NULL in s.live {
      AllBlocks(g, NULL);
    }
  }

  /** The blocks that were ever taken are those below `used`. */
  lemma {:induction false} TakenBelow(g: Geometry, log: seq<Event>, s: State, k: nat)
    requires g.Ok() && Behaviour(g, log, s) && k < g.nmemb
    ensures Took(g.Block(k)) in log <==> k < s.used
  {
    if log != [] {
      var past, last := log[..|log| - 1], log[|log| - 1];
      var p: State :| Behaviour(g, past, p) && Step(g, p, Held(past), last, s);
      TakenBelow(g, past, p, k);
      HistoryConsistent(g, past, p);
      assert log == past + [last];
      if last.Took? {
        TakenStep(g, p, k);
      }
    }
  }

  lemma TakenStep(g: Geometry, p: State, k: nat)
    requires Consistent(g, p) && k < g.nmemb
    ensures k < AfterAlloc(g, p).used <==> k < p.used || g.Block(k) == AllocResult(g, p)
  {
    BlockOrder(g, k, p.used);
    if p.used == g.nmemb {
      assert k < p.used;
    }
  }

  /** While there is a block nobody ever took, such a one is served: freed blocks wait. */
  lemma NewBlocksFirst(g: Geometry, log: seq<Event>, s: State, k: nat)
    requires g.Ok() && Behaviour(g, log, s) && k < g.nmemb && Took(g.Block(k)) !in log
    ensures AllocResult(g, s) != NULL && Took(AllocResult(g, s)) !in log
  {
    TakenBelow(g, log, s, k);
    TakenBelow(g, log, s, s.used);
    HistoryConsistent(g, log, s);
    AllocStep(g, s);
  }

  ghost function FreeAll(s: State, bs: seq<int>): State {
    if bs == [] then s else AfterFree(FreeAll(s, bs[..|bs| - 1]), bs[|bs| - 1])
  }

  ghost function AllocMany(g: Geometry, s: State, n: nat): (seq<int>, State)
    decreases n
  {
    if n == 0 then ([], s)
    else
      var (rest, t) := AllocMany(g, AfterAlloc(g, s), n - 1);
      ([AllocResult(g, s)] + rest, t)
  }

  ghost function Reversed(s: seq<int>): seq<int> {
    if s == [] then [] else [s[|s| - 1]] + Reversed(s[..|s| - 1])
  }

  /** With the never-used region gone, what is given back comes out again last-in first-out,
      and taking it all out undoes giving it back. */
  lemma {:induction false} LastInFirstOut(g: Geometry, s: State, bs: seq<int>)
    requires s.used == g.nmemb && Distinct(bs) && Elements(bs) <= s.live
    ensures AllocMany(g, FreeAll(s, bs), |bs|) == (Reversed(bs), s)
  {
    if bs != [] {
      var b, front := bs[|bs| - 1], bs[..|bs| - 1];
      LastInFirstOut(g, s, front);
      var p := FreeAll(s, front);
      FreeAllState(s, front);
      assert b in Elements(bs) && b !in front;
      var t := AfterFree(p, b);
      assert AllocResult(g, t) == b;
      assert AfterAlloc(g, t) == p;
    }
  }

  lemma {:induction false} FreeAllState(s: State, bs: seq<int>)
    ensures FreeAll(s, bs).used == s.used && FreeAll(s, bs).live == s.live - Elements(bs)
  {
    if bs != [] {
      var front := bs[..|bs| - 1];
      FreeAllState(s, front);
      assert bs == front + [bs[|bs| - 1]];
      assert Elements(bs) == Elements(front) + {bs[|bs| - 1]};
    }
  }

  /** The pool as the program keeps it. `word` is the memory of the blocks' first words: the
      pool owns the word of a free block, the user owns the word of a live one. */
  class Pool {
    const mem: int
    const membsz: nat
    const freeend: int
    var freestart: int
    var freehead: int
    var word: map<int, int>
    ghost const g: Geometry
    ghost var s: State

    ghost predicate Valid()
      reads this
    {
      && Consistent(g, s)
      && mem == g.mem && membsz == g.membsz
      && freestart == g.Block(s.used) && freeend == g.Block(g.nmemb)
      && Linked(word, freehead, s.free)
      && g.From(0) <= word.Keys
    }

    constructor (mem: int, nmemb: nat, membsz: nat, word: map<int, int>)
      requires Geometry(mem, membsz, nmemb).Ok()
      requires Geometry(mem, membsz, nmemb).From(0) <= word.Keys
      ensures Valid() && g == Geometry(mem, membsz, nmemb) && s == State(0, [], {})
      ensures this.word == word
    {
      this.mem := mem;
      this.membsz := membsz;
      this.freestart := mem;
      this.freeend := mem + nmemb * membsz;
      this.freehead := NULL;
      this.word := word;
      g := Geometry(mem, membsz, nmemb);
      s := State(0, [], {});
      new;
      BlockAddress(g, nmemb);
      assert Elements([]) == {};
    }

    method Alloc() returns (r: int)
      requires Valid()
      modifies this
      ensures Valid() && word == old(word)
      ensures r == AllocResult(g, old(s)) && s == AfterAlloc(g, old(s))
    {
      ghost var t := AfterAlloc(g, s);
      AllocStep(g, s);
      BlockOrder(g, s.used, g.nmemb);
      if freestart < freeend {
        assert g.Block(s.used + 1) == freestart + membsz && t.free == s.free;
        r := freestart;
        freestart := freestart + membsz;
        s := t;
        return;
      }
      var fb := freehead;
      if fb != NULL {
        assert t.free == s.free[1..] && t.used == s.used;
        freehead := word[fb];
        s := t;
        return fb;
      }
      return NULL;
    }

    method Free(ptr: int)
      requires Valid() && ptr in s.live
      modifies this
      ensures Valid() && s == AfterFree(old(s), ptr)
      ensures word == old(word)[ptr := old(freehead)]
    {
      ghost var t := AfterFree(s, ptr);
      FreeStep(g, s, ptr);
      LinkedPush(word, freehead, s.free, ptr);
      var linked := word[ptr := freehead];
      assert Linked(linked, ptr, t.free) && g.From(0) <= linked.Keys && t.used == s.used;
      word := linked;
      freehead := ptr;
      s := t;
    }

    /** A user may write the first word of a block it holds: no link of the pool is there. */
    method SetWord(ptr: int, w: int)
      requires Valid() && ptr in s.live
      modifies this`word
      ensures Valid() && word == old(word)[ptr := w]
    {
      FreeStep(g, s, ptr);
      LinkedFrame(word, freehead, s.free, ptr, w);
      word := word[ptr := w];
    }
  }
}
