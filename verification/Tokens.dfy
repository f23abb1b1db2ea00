/** Splitting a string in place: `strtok_r` and the functions it is made of. A pointer is an
    index into the buffer; NIL is the null pointer. */
module Tokens {
  import opened Strings

  const NUL: char := '\0'
  const NIL := -1

  /** A piece `[from, to)` of the buffer. */
  datatype Range = Range(from: nat, to: nat)

  /** The buffer holds a string from `p` that ends with the NUL at `e`. */
  predicate StringFrom(s: string, p: nat, e: nat) {
    p <= e < |s| && s[e] == NUL && forall i | p <= i < e :: s[i] != NUL
  }

  /** The first position from `p` whose character is not in `d`, or the end. */
  function SkipIn(s: string, p: nat, e: nat, d: string): (r: nat)
    requires p <= e <= |s|
    ensures p <= r <= e && (forall i | p <= i < r :: s[i] in d) && (r < e ==> s[r] !in d)
    decreases e - p
  {
    if p < e && s[p] in d then SkipIn(s, p + 1, e, d) else p
  }

  /** The first position from `p` whose character is in `d`, or the end. */
  function SkipOut(s: string, p: nat, e: nat, d: string): (r: nat)
    requires p <= e <= |s|
    ensures p <= r <= e && (forall i | p <= i < r :: s[i] !in d) && (r < e ==> s[r] in d)
    decreases e - p
  {
    if p < e && s[p] !in d then SkipOut(s, p + 1, e, d) else p
  }

  /** Where the search goes on after a token that ends at `b`. */
  function Resume(b: nat, e: nat): nat {
    if b == e then e else b + 1
  }

  /** The tokens of `s[p..e]`. */
  function Ranges(s: string, p: nat, e: nat, d: string): seq<Range>
    requires p <= e <= |s|
    decreases e - p
  {
    var a := SkipIn(s, p, e, d);
    if a == e then []
    else
      var b := SkipOut(s, a, e, d);
      assert a < b;
      [Range(a, b)] + Ranges(s, Resume(b, e), e, d)
  }

  // ----- the functions of the library

  /** `strchr` on a terminated string. */
  method Strchr(s: string, c: char) returns (r: int)
    requires CString(s, NUL)
    ensures r == NIL <==> c !in s
    ensures r != NIL ==> 0 <= r < |s| && s[r] == c && c !in s[..r]
  {
    var p := 0;
    while p < |s|
      invariant p <= |s| && c !in s[..p]
    {
      if s[p] == c {
        return p;
      }
      p := p + 1;
    }
    return NIL;
  }

  method Strspn(buf: array<char>, str: nat, accept: string, ghost e: nat) returns (n: nat)
    requires StringFrom(buf[..], str, e) && CString(accept, NUL)
    ensures str + n == SkipIn(buf[..], str, e, accept)
  {
    var s := str;
    while buf[s] != NUL
      invariant str <= s <= e && SkipIn(buf[..], str, e, accept) == SkipIn(buf[..], s, e, accept)
      decreases e - s
    {
      var hit := Strchr(accept, buf[s]);
      if hit == NIL {
        break;
      }
      s := s + 1;
    }
    return s - str;
  }

  method Strcspn(buf: array<char>, str: nat, reject: string, ghost e: nat) returns (n: nat)
    requires StringFrom(buf[..], str, e) && CString(reject, NUL)
    ensures str + n == SkipOut(buf[..], str, e, reject)
  {
    var s := str;
    while buf[s] != NUL
      invariant str <= s <= e && SkipOut(buf[..], str, e, reject) == SkipOut(buf[..], s, e, reject)
      decreases e - s
    {
      var hit := Strchr(reject, buf[s]);
      if hit != NIL {
        break;
      }
      s := s + 1;
    }
    return s - str;
  }

  /** One call of `strtok_r`: the string is `str`, or where the last call stopped if `str` is
      NULL. The token's end is overwritten unless it is the end of the string. */
  method StrtokR(buf: array<char>, str: int, delim: string, saveptr: int, ghost e: nat) returns (tok: int, save: nat)
    requires str >= NIL && saveptr >= NIL && (str != NIL || saveptr != NIL)
    requires StringFrom(buf[..], if str != NIL then str else saveptr, e) && CString(delim, NUL)
    modifies buf
    ensures var s, p := old(buf[..]), if str != NIL then str else saveptr;
      var a := SkipIn(s, p, e, delim);
      if a == e then tok == NIL && save == e && buf[..] == s
      else
        var b := SkipOut(s, a, e, delim);
        tok == a && save == Resume(b, e) && buf[..] == (if b == e then s else s[b := NUL])
  {
    var s: nat := if str != NIL then str else saveptr;
    var n := Strspn(buf, s, delim, e);
    s := s + n;
    if buf[s] == NUL {
      return NIL, s;
    }
    n := Strcspn(buf, s, delim, e);
    var t := s + n;
    if buf[t] == NUL {
      save := t;
    } else {
      buf[t] := NUL;
      save := t + 1;
    }
    return s, save;
  }

  // ----- what the tokens are

  /** A maximal run of characters that are not delimiters. */
  ghost predicate IsRun(s: string, p: nat, e: nat, d: string, r: Range)
    requires p <= e <= |s|
  {
    && p <= r.from < r.to <= e
    && (forall i | r.from <= i < r.to :: s[i] !in d)
    && (r.from == p || s[r.from - 1] in d)
    && (r.to == e || s[r.to] in d)
  }

  /** The tokens are exactly the maximal delimiter-free runs. */
  lemma {:induction false} TokensAreRuns(s: string, p: nat, e: nat, d: string, r: Range)
    requires p <= e <= |s|
    ensures r in Ranges(s, p, e, d) <==> IsRun(s, p, e, d, r)
    decreases e - p
  {
    var a := SkipIn(s, p, e, d);
    if a == e {
      assert p <= r.from < e ==> s[r.from] in d;
    } else {
      var b := SkipOut(s, a, e, d);
      var q := Resume(b, e);
      TokensAreRuns(s, q, e, d, r);
      assert r in Ranges(s, p, e, d) <==> r == Range(a, b) || r in Ranges(s, q, e, d);
      FirstRun(s, p, e, d, r);
    }
  }

  /** A run is the first one, or one of what follows it. */
  lemma FirstRun(s: string, p: nat, e: nat, d: string, r: Range)
    requires p <= e <= |s| && SkipIn(s, p, e, d) < e
    ensures var a := SkipIn(s, p, e, d);
      var b := SkipOut(s, a, e, d);
      IsRun(s, p, e, d, r) <==> r == Range(a, b) || IsRun(s, Resume(b, e), e, d, r)
  {
    var a := SkipIn(s, p, e, d);
    var b := SkipOut(s, a, e, d);
    var q := Resume(b, e);
    assert a < b && (b < e ==> s[b] in d);
    if IsRun(s, p, e, d, r) {
      assert s[r.from] !in d;
    }
    if IsRun(s, q, e, d, r) {
      assert r.from == q ==> b < e && s[q - 1] in d;
    }
  }

  /** Non-empty pieces in order, with a delimiter after each that is not the last. */
  ghost predicate InOrder(s: string, p: nat, e: nat, d: string, rs: seq<Range>)
    requires p <= e <= |s|
  {
    && (forall i | 0 <= i < |rs| :: p <= rs[i].from < rs[i].to <= e)
    && (forall i, j | 0 <= i < j < |rs| :: rs[i].to < rs[j].from && s[rs[i].to] in d)
  }

  lemma {:induction false} TokensInOrder(s: string, p: nat, e: nat, d: string)
    requires p <= e <= |s|
    ensures InOrder(s, p, e, d, Ranges(s, p, e, d))
    decreases e - p
  {
    var a := SkipIn(s, p, e, d);
    if a < e {
      var b := SkipOut(s, a, e, d);
      TokensInOrder(s, Resume(b, e), e, d);
      OneBefore(s, p, e, d, Range(a, b), Ranges(s, Resume(b, e), e, d));
    }
  }

  lemma OneBefore(s: string, p: nat, e: nat, d: string, r: Range, rest: seq<Range>)
    requires p <= r.from < r.to <= e <= |s| && (r.to < e ==> s[r.to] in d)
    requires InOrder(s, Resume(r.to, e), e, d, rest)
    ensures InOrder(s, p, e, d, [r] + rest)
  {
    var rs := [r] + rest;
    forall i | 1 <= i < |rs|
      ensures rs[i] == rest[i - 1] && r.to < rs[i].from
    {
      assert Resume(r.to, e) <= rest[i - 1].from < rest[i - 1].to <= e;
    }
  }

  /** A string of `n` characters has at most `(n + 1) / 2` tokens. */
  lemma {:induction false} TokenCount(s: string, p: nat, e: nat, d: string)
    requires p <= e <= |s|
    ensures |Ranges(s, p, e, d)| <= (e - p + 1) / 2
    decreases e - p
  {
    var a := SkipIn(s, p, e, d);
    if a < e {
      var b := SkipOut(s, a, e, d);
      TokenCount(s, Resume(b, e), e, d);
    }
  }

  // ----- splitting a whole string

  /** `s` with the ends of the tokens overwritten, but for one that ends with the string. */
  function Cut(s: string, rs: seq<Range>, e: nat): (r: string)
    requires e <= |s|
    ensures |r| == |s|
  {
    if rs == [] then s
    else
      var front, last := Cut(s, rs[..|rs| - 1], e), rs[|rs| - 1];
      if last.to < e then front[last.to := NUL] else front
  }

  /** The string that starts at `p`. */
  function ReadString(s: string, p: nat): string
    decreases |s| - p
  {
    if p >= |s| || s[p] == NUL then "" else [s[p]] + ReadString(s, p + 1)
  }

  function Text(s: string, r: Range): string {
    if r.from <= r.to <= |s| then s[r.from..r.to] else ""
  }

  function Texts(s: string, rs: seq<Range>): seq<string> {
    seq(|rs|, i requires 0 <= i < |rs| => Text(s, rs[i]))
  }

  lemma {:induction false} ReadsRange(s: string, a: nat, b: nat)
    requires StringFrom(s, a, b)
    ensures ReadString(s, a) == s[a..b]
    decreases b - a
  {
    if a < b {
      ReadsRange(s, a + 1, b);
      assert s[a..b] == [s[a]] + s[a + 1..b];
    }
  }

  /** Some token ends at `i`, before the end of the string. */
  predicate EndsAt(rs: seq<Range>, e: nat, i: nat) {
    i < e && exists k | 0 <= k < |rs| :: rs[k].to == i
  }

  /** Nothing is overwritten but the character after each token. */
  lemma {:induction false} CutAt(s: string, rs: seq<Range>, e: nat, i: nat)
    requires i < |s| && e <= |s|
    ensures Cut(s, rs, e)[i] == if EndsAt(rs, e, i) then NUL else s[i]
  {
    if rs != [] {
      var front := rs[..|rs| - 1];
      CutAt(s, front, e, i);
      assert forall k | 0 <= k < |front| :: front[k] == rs[k];
      assert EndsAt(rs, e, i) <==> EndsAt(front, e, i) || (i < e && rs[|rs| - 1].to == i);
    }
  }

  /** Only delimiters are overwritten, and none outside the string. */
  lemma CutDelimiters(s: string, p: nat, e: nat, d: string, i: nat)
    requires p <= e <= |s| && i < |s|
    ensures var c := Cut(s, Ranges(s, p, e, d), e);
      c[i] == s[i] || (c[i] == NUL && p <= i < e && s[i] in d)
  {
    var rs := Ranges(s, p, e, d);
    CutAt(s, rs, e, i);
    if EndsAt(rs, e, i) {
      var k :| 0 <= k < |rs| && rs[k].to == i;
      TokensAreRuns(s, p, e, d, rs[k]);
    }
  }

  /** After the cut, each token is a string of its own. */
  lemma CutTokens(s: string, p: nat, e: nat, d: string, k: nat)
    requires StringFrom(s, p, e) && k < |Ranges(s, p, e, d)|
    ensures var rs := Ranges(s, p, e, d);
      rs[k].from < rs[k].to <= e && ReadString(Cut(s, rs, e), rs[k].from) == s[rs[k].from..rs[k].to]
  {
    var rs := Ranges(s, p, e, d);
    TokensInOrder(s, p, e, d);
    var a, b, c := rs[k].from, rs[k].to, Cut(s, rs, e);
    forall i | a <= i < b
      ensures c[i] == s[i]
    {
      CutAt(s, rs, e, i);
      forall j | 0 <= j < |rs|
        ensures rs[j].to != i
      {
        assert j < k ==> rs[j].to < a;
        assert k < j ==> b < rs[j].from < rs[j].to;
      }
    }
    CutAt(s, rs, e, b);
    assert StringFrom(c, a, b);
    ReadsRange(c, a, b);
    assert c[a..b] == s[a..b];
  }

  lemma AllCutTokens(s: string, p: nat, e: nat, d: string)
    requires StringFrom(s, p, e)
    ensures var rs := Ranges(s, p, e, d);
      forall i | 0 <= i < |rs| :: rs[i].from < rs[i].to <= e && ReadString(Cut(s, rs, e), rs[i].from) == s[rs[i].from..rs[i].to]
  {
    var rs := Ranges(s, p, e, d);
    forall i | 0 <= i < |rs|
      ensures rs[i].from < rs[i].to <= e && ReadString(Cut(s, rs, e), rs[i].from) == s[rs[i].from..rs[i].to]
    {
      CutTokens(s, p, e, d, i);
    }
  }

  /** The tokens of a string depend on nothing outside it. */
  lemma {:induction false} SkipSame(s: string, t: string, p: nat, e: nat, d: string)
    requires p <= e <= |s| == |t| && forall i | p <= i < e :: t[i] == s[i]
    ensures SkipIn(t, p, e, d) == SkipIn(s, p, e, d) && SkipOut(t, p, e, d) == SkipOut(s, p, e, d)
    decreases e - p
  {
    if p < e {
      SkipSame(s, t, p + 1, e, d);
    }
  }

  lemma {:induction false} RangesSame(s: string, t: string, p: nat, e: nat, d: string)
    requires p <= e <= |s| == |t| && forall i | p <= i < e :: t[i] == s[i]
    ensures Ranges(t, p, e, d) == Ranges(s, p, e, d)
    decreases e - p
  {
    SkipSame(s, t, p, e, d);
    var a := SkipIn(s, p, e, d);
    SkipSame(s, t, a, e, d);
    if a < e {
      RangesSame(s, t, Resume(SkipOut(s, a, e, d), e), e, d);
    }
  }

  /** `done` of the tokens `rs` of `s` have been returned; the rest is still to come from `p` on,
      where `t` is untouched. */
  ghost predicate Remaining(s: string, t: string, e: nat, d: string, rs: seq<Range>, done: nat, p: nat) {
    && done <= |rs| && p <= e < |s| == |t|
    && Ranges(s, p, e, d) == rs[done..]
    && forall i | p <= i < |s| :: t[i] == s[i]
  }

  lemma RemainingStep(s: string, t: string, e: nat, d: string, rs: seq<Range>, done: nat, p: nat)
    requires Remaining(s, t, e, d, rs, done, p)
    ensures SkipIn(t, p, e, d) == SkipIn(s, p, e, d)
    ensures var a := SkipIn(s, p, e, d);
      if a == e then done == |rs| && Remaining(s, t, e, d, rs, done, e)
      else
        var b := SkipOut(s, a, e, d);
        && done < |rs| && rs[done] == Range(a, b) && SkipOut(t, a, e, d) == b
        && Remaining(s, if b == e then t else t[b := NUL], e, d, rs, done + 1, Resume(b, e))
  {
    SkipSame(s, t, p, e, d);
    var a := SkipIn(s, p, e, d);
    SkipSame(s, t, a, e, d);
    if a < e {
      var b := SkipOut(s, a, e, d);
      assert rs[done..][0] == rs[done] && rs[done..][1..] == rs[done + 1..];
    } else {
      assert Ranges(s, e, e, d) == [];
    }
  }

  /** All that has been written so far are the ends of the tokens returned. */
  ghost predicate Cutting(s: string, t: string, e: nat, d: string, rs: seq<Range>, done: nat, p: nat) {
    Remaining(s, t, e, d, rs, done, p) && t == Cut(s, rs[..done], e)
  }

  lemma CuttingStep(s: string, t: string, e: nat, d: string, rs: seq<Range>, done: nat, p: nat)
    requires Cutting(s, t, e, d, rs, done, p)
    ensures SkipIn(t, p, e, d) == SkipIn(s, p, e, d)
    ensures var a := SkipIn(s, p, e, d);
      if a == e then done == |rs| && Cutting(s, t, e, d, rs, done, e)
      else
        var b := SkipOut(s, a, e, d);
        && done < |rs| && rs[done] == Range(a, b) && SkipOut(t, a, e, d) == b
        && Cutting(s, if b == e then t else t[b := NUL], e, d, rs, done + 1, Resume(b, e))
  {
    RemainingStep(s, t, e, d, rs, done, p);
    if done < |rs| {
      CutNext(s, rs, done, e);
    }
  }

  lemma CutNext(s: string, rs: seq<Range>, k: nat, e: nat)
    requires k < |rs| && e <= |s|
    ensures Cut(s, rs[..k + 1], e) == (var t := Cut(s, rs[..k], e); if rs[k].to < e then t[rs[k].to := NUL] else t)
  {
    assert rs[..k + 1][..k] == rs[..k];
  }

  /** One call on what earlier calls have left. */
  method NextToken(buf: array<char>, str: int, delim: string, saveptr: int,
                   ghost s: string, ghost e: nat, ghost rs: seq<Range>, ghost done: nat)
    returns (tok: int, save: nat)
    requires str >= NIL && saveptr >= NIL && (str != NIL || saveptr != NIL) && CString(delim, NUL)
    requires var p := if str != NIL then str else saveptr;
      StringFrom(s, p, e) && Cutting(s, buf[..], e, delim, rs, done, p)
    modifies buf
    ensures save <= e
    ensures if done == |rs| then tok == NIL && Cutting(s, buf[..], e, delim, rs, done, save)
      else tok == rs[done].from && Cutting(s, buf[..], e, delim, rs, done + 1, save)
    ensures var p := if str != NIL then str else saveptr; p <= save
  {
    CuttingStep(s, buf[..], e, delim, rs, done, if str != NIL then str else saveptr);
    tok, save := StrtokR(buf, str, delim, saveptr, e);
  }

  /** `argv[argc] = arg`. */
  method SetArg(argv: array<int>, argc: nat, arg: int, ghost rs: seq<Range>)
    requires argc < |rs| < argv.Length && arg == rs[argc].from
    requires forall i | 0 <= i < argc :: argv[i] == rs[i].from
    modifies argv
    ensures forall i | 0 <= i <= argc :: argv[i] == rs[i].from
  {
    argv[argc] := arg;
  }

  /** `argv[argc] = NULL`. */
  method EndArgs(argv: array<int>, argc: nat, ghost rs: seq<Range>)
    requires argc == |rs| < argv.Length && forall i | 0 <= i < argc :: argv[i] == rs[i].from
    modifies argv
    ensures argv[argc] == NIL && forall i | 0 <= i < argc :: argv[i] == rs[i].from
  {
    argv[argc] := NIL;
  }

  /** Calling `strtok_r` with the string, and then with NULL until it returns NULL, into a vector
      that ends with NULL. */
  method Tokenise(buf: array<char>, str: nat, delim: string, argv: array<int>, ghost e: nat) returns (argc: nat)
    requires StringFrom(buf[..], str, e) && CString(delim, NUL) && buf as object != argv
    requires |Ranges(buf[..], str, e, delim)| < argv.Length
    modifies buf, argv
    ensures var s := old(buf[..]);
      var rs := Ranges(s, str, e, delim);
      && argc == |rs| && argv[argc] == NIL && buf[..] == Cut(s, rs, e)
      && (forall i | 0 <= i < argc :: argv[i] == rs[i].from && rs[i].from < rs[i].to <= e)
      && (forall i | 0 <= i < argc :: ReadString(buf[..], argv[i]) == s[rs[i].from..rs[i].to])
  {
    ghost var s := buf[..];
    ghost var rs := Ranges(s, str, e, delim);
    argc := 0;
    CuttingStart(s, str, e, delim);
    var arg, starg := NextToken(buf, str, delim, NIL, s, e, rs, 0);
    while arg != NIL
      invariant argc <= |rs| && str <= starg
      invariant if arg == NIL then argc == |rs| else argc < |rs| && arg == rs[argc].from
      invariant Cutting(s, buf[..], e, delim, rs, if arg == NIL then argc else argc + 1, starg)
      invariant forall i | 0 <= i < argc :: argv[i] == rs[i].from
      decreases |rs| - argc
    {
      SetArg(argv, argc, arg, rs);
      argc := argc + 1;
      arg, starg := NextToken(buf, NIL, delim, starg, s, e, rs, argc);
    }
    CuttingEnd(s, buf[..], str, e, delim, starg);
    EndArgs(argv, argc, rs);
  }

  lemma CuttingStart(s: string, p: nat, e: nat, d: string)
    requires p <= e < |s|
    ensures Cutting(s, s, e, d, Ranges(s, p, e, d), 0, p)
  {
    var rs := Ranges(s, p, e, d);
    assert rs[..0] == [] && rs[0..] == rs;
  }

  /** When all tokens have been returned, the buffer is cut up and each reads as its text. */
  lemma CuttingEnd(s: string, t: string, p: nat, e: nat, d: string, q: nat)
    requires StringFrom(s, p, e) && Cutting(s, t, e, d, Ranges(s, p, e, d), |Ranges(s, p, e, d)|, q)
    ensures var rs := Ranges(s, p, e, d);
      && t == Cut(s, rs, e)
      && forall i | 0 <= i < |rs| :: rs[i].from < rs[i].to <= e && ReadString(t, rs[i].from) == s[rs[i].from..rs[i].to]
  {
    var rs := Ranges(s, p, e, d);
    assert rs[..|rs|] == rs;
    AllCutTokens(s, p, e, d);
  }
}
