/** `sys_getargv`: the strings of an argument vector are packed into the caller's buffer. The
    copying does not terminate them; between two strings one character is left as it was. */
module Getargv {
  import opened Strings
  import opened Options
  import opened Tokens

  /** Where string `i` goes: after the earlier ones, each with one character more. */
  function Offset(strs: seq<string>): nat {
    if strs == [] then 0 else Offset(strs[..|strs| - 1]) + |strs[|strs| - 1]| + 1
  }

  /** `s` with `t` written over it from `p`. */
  function Write(s: string, p: nat, t: string): (r: string)
    requires p + |t| <= |s|
    ensures |r| == |s| && forall a | 0 <= a < |s| :: r[a] == if p <= a < p + |t| then t[a - p] else s[a]
  {
    s[..p] + t + s[p + |t|..]
  }

  /** `s` with the strings packed into it from `buf`. */
  function Pack(s: string, buf: nat, strs: seq<string>): (r: string)
    requires buf + Offset(strs) <= |s| + 1
    ensures |r| == |s|
  {
    if strs == [] then s
    else
      var front, last := strs[..|strs| - 1], strs[|strs| - 1];
      Write(Pack(s, buf, front), buf + Offset(front), last)
  }

  lemma {:induction false} OffsetMonotone(strs: seq<string>, k: nat)
    requires k <= |strs|
    ensures Offset(strs[..k]) <= Offset(strs)
    ensures k < |strs| ==> Offset(strs[..k]) + |strs[k]| + 1 <= Offset(strs)
  {
    if k < |strs| {
      var front := strs[..|strs| - 1];
      assert front[..k] == strs[..k];
      if k < |front| {
        OffsetMonotone(front, k);
      }
    } else {
      assert strs[..k] == strs;
    }
  }

  lemma OffsetNext(strs: seq<string>, k: nat)
    requires k < |strs|
    ensures Offset(strs[..k + 1]) == Offset(strs[..k]) + |strs[k]| + 1
  {
    assert strs[..k + 1][..k] == strs[..k];
  }

  /** There is room for the strings. */
  predicate Fits(strs: seq<string>, bufsz: int) {
    strs == [] || Offset(strs) - 1 <= bufsz
  }

  /** They fit if and only if each of them, put one character behind the last, ends inside. */
  lemma {:induction false} FitsIff(strs: seq<string>, bufsz: int)
    ensures Fits(strs, bufsz) <==> forall i | 0 <= i < |strs| :: EndsInside(strs, bufsz, i)
  {
    if strs != [] {
      var n := |strs| - 1;
      var front := strs[..n];
      OffsetNext(strs, n);
      assert strs[..n + 1] == strs;
      FitsIff(front, bufsz);
      assert EndsInside(strs, bufsz, n) <==> Fits(strs, bufsz);
      forall i | 0 <= i < n
        ensures EndsInside(strs, bufsz, i) <==> EndsInside(front, bufsz, i)
      {
        assert front[..i] == strs[..i];
      }
      if Fits(strs, bufsz) {
        FitsPrefix(strs, bufsz, n);
      }
    }
  }

  predicate EndsInside(strs: seq<string>, bufsz: int, i: nat)
    requires i < |strs|
  {
    Offset(strs[..i]) + |strs[i]| <= bufsz
  }

  lemma FitsPrefix(strs: seq<string>, bufsz: int, k: nat)
    requires k <= |strs| && Fits(strs, bufsz)
    ensures Fits(strs[..k], bufsz)
  {
    OffsetMonotone(strs, k);
  }

  // ----- the program

  method Strlen(mem: array<char>, s: nat, ghost e: nat) returns (n: nat)
    requires StringFrom(mem[..], s, e)
    ensures n == e - s
  {
    var p := s;
    while mem[p] != NUL
      invariant s <= p <= e
      decreases e - p
    {
      p := p + 1;
    }
    return p - s;
  }

  /** `strcpy` as it is here: everything but the terminator. */
  method Strcpy(mem: array<char>, dest: nat, src: nat, ghost e: nat)
    requires StringFrom(mem[..], src, e) && dest + (e - src) <= mem.Length
    requires dest + (e - src) <= src || e < dest
    modifies mem
    ensures mem[..] == Write(old(mem[..]), dest, old(mem[src..e]))
  {
    var d, s := dest, src;
    while mem[s] != NUL
      invariant src <= s <= e && d == dest + (s - src)
      invariant forall a | 0 <= a < mem.Length :: mem[a] == if dest <= a < d then old(mem[src + (a - dest)]) else old(mem[a])
      decreases e - s
    {
      mem[d] := mem[s];
      d, s := d + 1, s + 1;
    }
  }

  /** At `a` is the string `t`, outside the buffer. */
  ghost predicate Source(s: string, a: nat, t: string, buf: nat, bufsz: int) {
    StringFrom(s, a, a + |t|) && s[a..a + |t|] == t && (a + |t| < buf || buf + bufsz <= a)
  }

  /** The vector points to these strings, and none of them is in the buffer. */
  ghost predicate Sources(s: string, args: seq<nat>, strs: seq<string>, buf: nat, bufsz: int) {
    && |args| == |strs|
    && (args == [] ||
          (Source(s, args[0], strs[0], buf, bufsz) && Sources(s, args[1..], strs[1..], buf, bufsz)))
  }

  lemma {:induction false} SourceAt(s: string, args: seq<nat>, strs: seq<string>, buf: nat, bufsz: int, k: nat)
    requires Sources(s, args, strs, buf, bufsz) && k < |args|
    ensures |args| == |strs| && Source(s, args[k], strs[k], buf, bufsz)
  {
    if k > 0 {
      SourceAt(s, args[1..], strs[1..], buf, bufsz, k - 1);
    }
  }

  /** The first `k` strings have been packed, and they fit. */
  ghost predicate Packing(s: string, t: string, buf: nat, bufsz: int, strs: seq<string>, k: nat) {
    && k <= |strs| && Fits(strs[..k], bufsz) && buf <= |s| && buf + bufsz <= |s|
    && t == Pack(s, buf, strs[..k])
  }

  lemma {:induction false} PackOutside(s: string, buf: nat, bufsz: int, strs: seq<string>, a: nat)
    requires Fits(strs, bufsz) && buf <= |s| && buf + bufsz <= |s| && a < |s| && !(buf <= a < buf + bufsz)
    ensures Pack(s, buf, strs)[a] == s[a]
  {
    if strs != [] {
      PackOutside(s, buf, bufsz, strs[..|strs| - 1], a);
    }
  }

  lemma PackingStep(s: string, t: string, buf: nat, bufsz: int, strs: seq<string>, k: nat)
    requires Packing(s, t, buf, bufsz, strs, k) && k < |strs| && Offset(strs[..k]) + |strs[k]| <= bufsz
    ensures buf + Offset(strs[..k]) + |strs[k]| <= |t|
    ensures Packing(s, Write(t, buf + Offset(strs[..k]), strs[k]), buf, bufsz, strs, k + 1)
  {
    OffsetNext(strs, k);
    assert strs[..k + 1][..k] == strs[..k];
  }

  /** The string to be copied next is still there, and not in the buffer. */
  lemma SourceHere(s: string, t: string, args: seq<nat>, strs: seq<string>, buf: nat, bufsz: int, k: nat)
    requires k < |args| && Sources(s, args, strs, buf, bufsz) && Packing(s, t, buf, bufsz, strs, k)
    ensures |args| == |strs| && Source(t, args[k], strs[k], buf, bufsz)
  {
    SourceAt(s, args, strs, buf, bufsz, k);
    var a, e := args[k], args[k] + |strs[k]|;
    forall j | a <= j <= e
      ensures t[j] == s[j]
    {
      PackOutside(s, buf, bufsz, strs[..k], j);
    }
    assert t[a..e] == s[a..e];
  }

  /** One turn of the loop: the string is copied if there is room for it. */
  method CopyString(mem: array<char>, bufp: nat, room: int, src: nat, ghost str: string) returns (ok: bool, next: nat)
    requires StringFrom(mem[..], src, src + |str|) && mem[src..src + |str|] == str
    requires bufp + room <= mem.Length && (src + |str| < bufp || bufp + room <= src || room < |str|)
    modifies mem
    ensures ok == (|str| <= room)
    ensures ok ==> mem[..] == Write(old(mem[..]), bufp, str) && next == bufp + |str| + 1
    ensures !ok ==> mem[..] == old(mem[..])
  {
    var len := Strlen(mem, src, src + |str|);
    if room < len {
      return false, bufp;
    }
    Strcpy(mem, bufp, src, src + |str|);
    return true, bufp + len + 1;
  }

  /** The same, on what has been packed so far. */
  method PackNext(mem: array<char>, buf: nat, bufsz: int, bufp: nat, src: nat,
                  ghost s: string, ghost strs: seq<string>, ghost k: nat)
    returns (ok: bool, next: nat)
    requires k < |strs| && Source(mem[..], src, strs[k], buf, bufsz)
    requires Packing(s, mem[..], buf, bufsz, strs, k) && bufp == buf + Offset(strs[..k])
    modifies mem
    ensures ok ==> Packing(s, mem[..], buf, bufsz, strs, k + 1) && next == buf + Offset(strs[..k + 1])
    ensures !ok ==> mem[..] == old(mem[..]) && !Fits(strs[..k + 1], bufsz)
  {
    PackingNext(s, mem[..], buf, bufsz, strs, k, bufp);
    ok, next := CopyString(mem, bufp, buf + bufsz - bufp, src, strs[k]);
  }

  lemma PackingNext(s: string, t: string, buf: nat, bufsz: int, strs: seq<string>, k: nat, bufp: nat)
    requires k < |strs| && Packing(s, t, buf, bufsz, strs, k) && bufp == buf + Offset(strs[..k])
    ensures if |strs[k]| <= buf + bufsz - bufp then
        && bufp + |strs[k]| <= |t| && Packing(s, Write(t, bufp, strs[k]), buf, bufsz, strs, k + 1)
        && buf + Offset(strs[..k + 1]) == bufp + |strs[k]| + 1
      else !Fits(strs[..k + 1], bufsz)
  {
    OffsetNext(strs, k);
    if |strs[k]| <= buf + bufsz - bufp {
      PackingStep(s, t, buf, bufsz, strs, k);
    }
  }

  /** The vector `v`, once `v0`, points to the first `k` strings as far as it goes; the word behind
      it has the pointer to the next one if there are more; nothing else is written. */
  ghost predicate Pointing(v: seq<int>, v0: seq<int>, past: Option<int>, buf: nat, strs: seq<string>, k: nat) {
    && |v| == |v0| && k <= |strs| && k <= |v| + 1
    && (forall i | 0 <= i < k && i < |v| :: v[i] == buf + Offset(strs[..i]))
    && (forall j | k <= j < |v| :: v[j] == v0[j])
    && past == if k > |v| then Some(buf + Offset(strs[..|v|])) else None
  }

  /** `argv[argc] = bufp`, where `argc` may be the place behind the vector. */
  method SetPointer(argv: array<int>, argc: nat, bufp: int, ghost v0: seq<int>, ghost buf: nat, ghost strs: seq<string>)
    returns (past: Option<int>)
    requires Pointing(argv[..], v0, None, buf, strs, argc) && argc <= argv.Length && argc < |strs|
    requires bufp == buf + Offset(strs[..argc])
    modifies argv
    ensures Pointing(argv[..], v0, past, buf, strs, argc + 1)
  {
    if argc == argv.Length {
      return Some(bufp);
    }
    argv[argc] := bufp;
    return None;
  }

  /** `argv[argc] = NULL`. */
  method EndVector(argv: array<int>, argc: nat, ghost v0: seq<int>, ghost buf: nat, ghost strs: seq<string>)
    requires Pointing(argv[..], v0, None, buf, strs, argc) && argc < argv.Length
    modifies argv
    ensures argv[argc] == NIL && forall j | 0 <= j < argv.Length && j != argc :: argv[j] == old(argv[j])
  {
    argv[argc] := NIL;
  }

  /** Where `sys_getargv` stops: `k` strings have been packed, and there is no other, no room for
      the next one, or the vector is seen to be too short. */
  ghost predicate StopsAt(strs: seq<string>, bufsz: int, argvsz: int, k: nat) {
    && k <= |strs| && Fits(strs[..k], bufsz) && (k == 0 || k - 1 <= argvsz)
    && (k < |strs| ==> argvsz < k || !Fits(strs[..k + 1], bufsz))
  }

  /** A pointer is stored behind a vector of `argvsz` words. */
  ghost predicate WritesPast(strs: seq<string>, bufsz: int, argvsz: int) {
    0 <= argvsz < |strs| && Fits(strs[..argvsz + 1], bufsz)
  }

  /** What the place says about the call. */
  lemma Stopped(strs: seq<string>, bufsz: int, argvsz: int, k: nat)
    requires StopsAt(strs, bufsz, argvsz, k)
    ensures k > (if argvsz > 0 then argvsz else 0) <==> WritesPast(strs, bufsz, argvsz)
    ensures k < |strs| ==> !(|strs| < argvsz && Fits(strs, bufsz))
  {
    if WritesPast(strs, bufsz, argvsz) && k <= argvsz {
      assert strs[..argvsz + 1][..k + 1] == strs[..k + 1];
      FitsPrefix(strs[..argvsz + 1], bufsz, k + 1);
    }
    if k < |strs| && Fits(strs, bufsz) {
      FitsPrefix(strs, bufsz, k + 1);
    }
  }

  /** Nothing else decides where: the number of strings packed is determined. */
  lemma StopsOnce(strs: seq<string>, bufsz: int, argvsz: int, k: nat, n: nat)
    requires StopsAt(strs, bufsz, argvsz, k) && StopsAt(strs, bufsz, argvsz, n)
    ensures k == n
  {
    if k < n {
      assert strs[..n][..k + 1] == strs[..k + 1];
      FitsPrefix(strs[..n], bufsz, k + 1);
    } else if n < k {
      StopsOnce(strs, bufsz, argvsz, n, k);
    }
  }

  /** With 16 words for pointers and 128 characters, as every program starts, 17 arguments of one
      character each are enough for a store behind the vector. */
  lemma SeventeenArguments(strs: seq<string>)
    requires |strs| == 17 && forall i | 0 <= i < 17 :: |strs[i]| == 1
    ensures WritesPast(strs, 128, 16)
  {
    OffsetOfOnes(strs);
    assert strs[..17] == strs;
  }

  lemma {:induction false} OffsetOfOnes(strs: seq<string>)
    requires forall i | 0 <= i < |strs| :: |strs[i]| == 1
    ensures Offset(strs) == 2 * |strs|
  {
    if strs != [] {
      OffsetOfOnes(strs[..|strs| - 1]);
    }
  }

  /** `sys_getargv` for a vector of `argvsz` words. `past` is what is stored in the word behind it,
      which happens when there are more strings than that and one too many fits. */
  method SysGetargv(mem: array<char>, buf: nat, bufsz: int, argv: array<int>, argvsz: int,
                    args: seq<nat>, ghost strs: seq<string>)
    returns (r: int, past: Option<int>, ghost copied: nat)
    requires mem as object != argv && buf + bufsz <= mem.Length && buf <= mem.Length
    requires argv.Length == if argvsz > 0 then argvsz else 0
    requires Sources(mem[..], args, strs, buf, bufsz)
    modifies mem, argv
    ensures r == if |strs| < argvsz && Fits(strs, bufsz) then |strs| else -1
    ensures StopsAt(strs, bufsz, argvsz, copied) && (r >= 0 ==> copied == r)
    ensures mem[..] == Pack(old(mem[..]), buf, strs[..copied])
    ensures past == if WritesPast(strs, bufsz, argvsz) then Some(buf + Offset(strs[..argvsz])) else None
    ensures forall i | 0 <= i < copied && i < argv.Length :: argv[i] == buf + Offset(strs[..i])
    ensures r >= 0 ==> argv[r] == NIL
    ensures forall j | copied <= j < argv.Length && j != r :: argv[j] == old(argv[j])
  {
    ghost var s, v0 := mem[..], argv[..];
    var argc: nat, bufp := 0, buf;
    past := None;
    while argc < |args|
      invariant argc <= |args| && bufp == buf + Offset(strs[..argc])
      invariant argc > 0 ==> argc - 1 <= argvsz
      invariant Packing(s, mem[..], buf, bufsz, strs, argc)
      invariant Pointing(argv[..], v0, past, buf, strs, argc)
    {
      if argvsz < argc {
        Stopped(strs, bufsz, argvsz, argc);
        return -1, past, argc;
      }
      SourceHere(s, mem[..], args, strs, buf, bufsz, argc);
      var ok, next := PackNext(mem, buf, bufsz, bufp, args[argc], s, strs, argc);
      if !ok {
        Stopped(strs, bufsz, argvsz, argc);
        return -1, past, argc;
      }
      past := SetPointer(argv, argc, bufp, v0, buf, strs);
      argc, bufp := argc + 1, next;
    }
    assert strs[..argc] == strs;
    Stopped(strs, bufsz, argvsz, argc);
    if argvsz <= argc {
      return -1, past, argc;
    }
    EndVector(argv, argc, v0, buf, strs);
    return argc, past, argc;
  }

  // ----- reading the strings back

  /** Each packed string lies in the buffer, and the next one starts after the character that
      follows it. */
  lemma PackedRanges(strs: seq<string>, bufsz: int, i: nat, j: nat)
    requires Fits(strs, bufsz) && i < |strs|
    ensures Offset(strs[..i]) + |strs[i]| <= bufsz
    ensures i < j < |strs| ==> Offset(strs[..i]) + |strs[i]| < Offset(strs[..j])
  {
    OffsetMonotone(strs, i);
    if i < j < |strs| {
      assert strs[..j][..i] == strs[..i] && strs[..j][i] == strs[i];
      OffsetMonotone(strs[..j], i);
    }
  }

  /** `t` is at `p`, and the character after it is as in `s0`. */
  ghost predicate LeftAt(s0: string, s: string, p: nat, t: string) {
    && |s| == |s0| && p + |t| <= |s| && s[p..p + |t|] == t
    && (p + |t| < |s| ==> s[p + |t|] == s0[p + |t|])
  }

  /** The packed memory, at a string and at the character after it. */
  lemma {:induction false} PackedAt(s: string, buf: nat, strs: seq<string>, i: nat, p: nat)
    requires buf + Offset(strs) <= |s| + 1 && i < |strs| && p == buf + Offset(strs[..i])
    ensures p + |strs[i]| + 1 <= buf + Offset(strs)
    ensures LeftAt(s, Pack(s, buf, strs), p, strs[i])
  {
    var n := |strs| - 1;
    OffsetMonotone(strs, i);
    if i == n {
      PackedLast(s, buf, strs, p);
    } else {
      var front := strs[..n];
      assert front[..i] == strs[..i] && front[i] == strs[i];
      PackedAt(s, buf, front, i, p);
      PackedBelow(s, buf, strs, p, strs[i]);
    }
  }

  /** The last string does not reach down to what is below it. */
  lemma PackedBelow(s: string, buf: nat, strs: seq<string>, p: nat, below: string)
    requires strs != [] && buf + Offset(strs) <= |s| + 1
    requires p + |below| + 1 <= buf + Offset(strs[..|strs| - 1]) && LeftAt(s, Pack(s, buf, strs[..|strs| - 1]), p, below)
    ensures LeftAt(s, Pack(s, buf, strs), p, below)
  {
    var front, last := strs[..|strs| - 1], strs[|strs| - 1];
    WriteAbove(s, Pack(s, buf, front), buf + Offset(front), last, p, below);
  }

  lemma PackedLast(s: string, buf: nat, strs: seq<string>, q: nat)
    requires strs != [] && buf + Offset(strs) <= |s| + 1 && q == buf + Offset(strs[..|strs| - 1])
    ensures q + |strs[|strs| - 1]| + 1 == buf + Offset(strs)
    ensures LeftAt(s, Pack(s, buf, strs), q, strs[|strs| - 1])
  {
    var front, last := strs[..|strs| - 1], strs[|strs| - 1];
    PackAbove(s, buf, front, q + |last|);
    WriteHere(s, Pack(s, buf, front), q, last);
  }

  lemma WriteHere(s: string, u: string, q: nat, t: string)
    requires q + |t| <= |u| == |s| && (q + |t| < |s| ==> u[q + |t|] == s[q + |t|])
    ensures LeftAt(s, Write(u, q, t), q, t)
  {
  }

  lemma WriteAbove(s: string, u: string, q: nat, t: string, p: nat, below: string)
    requires q + |t| <= |u| && p + |below| < q && LeftAt(s, u, p, below)
    ensures LeftAt(s, Write(u, q, t), p, below)
  {
    assert Write(u, q, t)[p..p + |below|] == u[p..p + |below|];
  }

  /** Nothing is written from the last string's end on. */
  lemma {:induction false} PackAbove(s: string, buf: nat, strs: seq<string>, a: nat)
    requires buf + Offset(strs) <= |s| + 1 && buf + Offset(strs) <= a + 1
    ensures a < |s| ==> Pack(s, buf, strs)[a] == s[a]
  {
    if strs != [] {
      PackAbove(s, buf, strs[..|strs| - 1], a);
    }
  }

  /** A packed string reads back as it was if and only if the character after it, which nobody
      writes, was already a terminator. */
  lemma ReadsBackIff(s: string, buf: nat, strs: seq<string>, i: nat)
    requires buf + Offset(strs) <= |s| && i < |strs| && CString(strs[i], NUL)
    ensures Offset(strs[..i]) + |strs[i]| + 1 <= Offset(strs)
    ensures ReadString(Pack(s, buf, strs), buf + Offset(strs[..i])) == strs[i] <==>
      s[buf + Offset(strs[..i]) + |strs[i]|] == NUL
  {
    var t, p := Pack(s, buf, strs), buf + Offset(strs[..i]);
    PackedAt(s, buf, strs, i, p);
    var e := p + |strs[i]|;
    forall a | p <= a < e
      ensures t[a] != NUL
    {
      assert t[a] == t[p..e][a - p];
    }
    ReadLength(t, p, e);
    if t[e] == NUL {
      ReadsRange(t, p, e);
    }
  }

  /** One argument in a buffer that held something else does not read back. */
  lemma NotTerminated()
    ensures ReadString(Pack("xyz", 0, ["a"]), 0) == "ayz"
  {
    var t := Pack("xyz", 0, ["a"]);
    assert ["a"][..0] == [] && t == Write(Pack("xyz", 0, []), 0, "a");
    assert t == "ayz";
    assert ReadString(t, 3) == "";
    assert ReadString(t, 2) == "z";
    assert ReadString(t, 1) == "y" + ReadString(t, 2);
  }

  /** A string read from `p` goes past `e` unless there is a terminator there. */
  lemma {:induction false} ReadLength(t: string, p: nat, e: nat)
    requires p <= e < |t| && forall a | p <= a < e :: t[a] != NUL
    ensures |ReadString(t, p)| > e - p <==> t[e] != NUL
    decreases e - p
  {
    if p < e {
      ReadLength(t, p + 1, e);
    }
  }
}
