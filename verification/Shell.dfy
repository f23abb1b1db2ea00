/** The shell's loop over one line: a tokeniser for the commands, and inside each command a
    second one for its arguments, both writing into the same buffer. */
module Shell {
  import opened Options
  import opened Tokens

  const BUFSZ: nat := 256
  const COMSEP: string := "\n;"
  const ARGSEP: string := " "

  /** The argument vector of the command in a piece of the line. */
  function Args(s: string, r: Range): seq<string> {
    if r.from <= r.to <= |s| then Texts(s, Ranges(s, r.from, r.to, ARGSEP)) else []
  }

  /** What is run: the commands in order, up to the first without arguments. */
  function CommandsOf(s: string, cmds: seq<Range>): seq<seq<string>> {
    if cmds == [] || Args(s, cmds[0]) == [] then []
    else [Args(s, cmds[0])] + CommandsOf(s, cmds[1..])
  }

  function Commands(s: string, e: nat): seq<seq<string>>
    requires e <= |s|
  {
    CommandsOf(s, Ranges(s, 0, e, COMSEP))
  }

  /** `t` is `s` with some separators overwritten. */
  ghost predicate OnlySeparators(s: string, t: string) {
    |t| == |s| && forall i | 0 <= i < |s| :: t[i] == s[i] || (t[i] == NUL && s[i] in COMSEP + ARGSEP)
  }

  /** The strings an argument vector points to. */
  function ReadArgs(s: string, argv: seq<int>): seq<string>
    requires forall i | 0 <= i < |argv| :: argv[i] >= 0
  {
    seq(|argv|, i requires 0 <= i < |argv| => ReadString(s, argv[i]))
  }

  /** Splitting one command: its arguments are those of the line, and the rest of the buffer is
      left alone. 128 arguments fit in any command. */
  method SplitCommand(buffer: array<char>, cmd: nat, argv: array<int>, ghost b: nat, ghost s: string) returns (argc: nat)
    requires buffer.Length == BUFSZ == argv.Length && buffer as object != argv
    requires |s| == BUFSZ && StringFrom(buffer[..], cmd, b) && forall i | cmd <= i < b :: buffer[i] == s[i]
    requires OnlySeparators(s, buffer[..])
    modifies buffer, argv
    ensures argc <= 128 && argv[argc] == NIL && forall i | 0 <= i < argc :: argv[i] >= 0
    ensures ReadArgs(buffer[..], argv[..argc]) == Args(s, Range(cmd, b))
    ensures forall i | 0 <= i < BUFSZ && !(cmd <= i < b) :: buffer[i] == old(buffer[i])
    ensures OnlySeparators(s, buffer[..])
  {
    ghost var t := buffer[..];
    CommandCut(s, t, cmd, b);
    argc := Tokenise(buffer, cmd, ARGSEP, argv, b);
    SameTexts(s, t, cmd, b, buffer[..], argv[..argc]);
  }

  /** Cutting a command up: what is written, and how many tokens there are at most. */
  lemma CommandCut(s: string, t: string, cmd: nat, b: nat)
    requires |s| == BUFSZ && StringFrom(t, cmd, b) && OnlySeparators(s, t) && forall i | cmd <= i < b :: t[i] == s[i]
    ensures var u := Cut(t, Ranges(t, cmd, b, ARGSEP), b);
      OnlySeparators(s, u) && forall i | 0 <= i < BUFSZ && !(cmd <= i < b) :: u[i] == t[i]
    ensures Ranges(t, cmd, b, ARGSEP) == Ranges(s, cmd, b, ARGSEP)
    ensures |Ranges(t, cmd, b, ARGSEP)| <= 128
  {
    RangesSame(s, t, cmd, b, ARGSEP);
    TokenCount(s, cmd, b, ARGSEP);
    var u := Cut(t, Ranges(t, cmd, b, ARGSEP), b);
    forall i | 0 <= i < BUFSZ
      ensures u[i] == t[i] || (u[i] == NUL && cmd <= i < b && s[i] in ARGSEP)
    {
      CutDelimiters(t, cmd, b, ARGSEP, i);
    }
  }

  /** What the vector points to is what the line says. */
  lemma SameTexts(s: string, t: string, cmd: nat, b: nat, u: string, argv: seq<int>)
    requires cmd <= b < |s| == |t| && forall i | cmd <= i < b :: t[i] == s[i]
    requires var rs := Ranges(t, cmd, b, ARGSEP);
      && rs == Ranges(s, cmd, b, ARGSEP) && |argv| == |rs|
      && forall i | 0 <= i < |rs| :: argv[i] == rs[i].from && rs[i].from < rs[i].to <= b && ReadString(u, argv[i]) == t[rs[i].from..rs[i].to]
    ensures (forall i | 0 <= i < |argv| :: argv[i] >= 0) && ReadArgs(u, argv) == Args(s, Range(cmd, b))
  {
    var rs := Ranges(t, cmd, b, ARGSEP);
    TokensInOrder(t, cmd, b, ARGSEP);
    forall i | 0 <= i < |rs|
      ensures argv[i] >= 0 && ReadString(u, argv[i]) == Text(s, rs[i])
    {
      SameText(s, t, cmd, b, rs[i]);
    }
    assert |Args(s, Range(cmd, b))| == |rs|;
  }

  lemma SameText(s: string, t: string, cmd: nat, b: nat, r: Range)
    requires cmd <= r.from < r.to <= b < |s| == |t| && forall i | cmd <= i < b :: t[i] == s[i]
    ensures t[r.from..r.to] == Text(s, r)
  {
  }

  /** `done` of the commands of the line have been reached, and only separators written. */
  ghost predicate Line(s: string, t: string, e: nat, cmds: seq<Range>, done: nat, save: nat) {
    |s| == BUFSZ && Remaining(s, t, e, COMSEP, cmds, done, save) && OnlySeparators(s, t)
  }

  /** A command is a string of its own, in front of where the search goes on. */
  ghost predicate InCommand(s: string, t: string, r: Range, next: nat) {
    StringFrom(t, r.from, r.to) && r.to <= next && |s| == |t| && forall i | r.from <= i < r.to :: t[i] == s[i]
  }

  /** What one call of the outer tokeniser leaves. */
  lemma CommandFound(s: string, t: string, e: nat, cmds: seq<Range>, done: nat, p: nat)
    requires StringFrom(s, p, e) && Line(s, t, e, cmds, done, p)
    ensures StringFrom(t, p, e) && SkipIn(t, p, e, COMSEP) == SkipIn(s, p, e, COMSEP)
    ensures var a := SkipIn(s, p, e, COMSEP);
      if a == e then done == |cmds|
      else
        var b := SkipOut(s, a, e, COMSEP);
        var u := if b == e then t else t[b := NUL];
        && done < |cmds| && cmds[done] == Range(a, b) && SkipOut(t, a, e, COMSEP) == b
        && InCommand(s, u, cmds[done], Resume(b, e)) && Line(s, u, e, cmds, done + 1, Resume(b, e))
  {
    RemainingStep(s, t, e, COMSEP, cmds, done, p);
  }

  /** The next command of the line. */
  method NextCommand(buffer: array<char>, str: int, saveptr: int,
                     ghost s: string, ghost e: nat, ghost cmds: seq<Range>, ghost done: nat)
    returns (cmd: int, save: nat)
    requires str >= NIL && saveptr >= NIL && (str != NIL || saveptr != NIL)
    requires var p := if str != NIL then str else saveptr;
      StringFrom(s, p, e) && Line(s, buffer[..], e, cmds, done, p)
    modifies buffer
    ensures (if str != NIL then str else saveptr) <= save
    ensures if done == |cmds| then cmd == NIL && OnlySeparators(s, buffer[..])
      else cmd == cmds[done].from && InCommand(s, buffer[..], cmds[done], save) && Line(s, buffer[..], e, cmds, done + 1, save)
  {
    CommandFound(s, buffer[..], e, cmds, done, if str != NIL then str else saveptr);
    cmd, save := StrtokR(buffer, str, COMSEP, saveptr, e);
  }

  /** The inner loop, on a vector of its own: the rest of the line is not disturbed. */
  method RunCommand(buffer: array<char>, cmd: nat, ghost s: string, ghost e: nat, ghost cmds: seq<Range>, ghost done: nat,
                    ghost save: nat)
    returns (args: seq<string>)
    requires buffer.Length == BUFSZ && Line(s, buffer[..], e, cmds, done, save)
    requires 0 < done && cmd == cmds[done - 1].from && InCommand(s, buffer[..], cmds[done - 1], save)
    modifies buffer
    ensures args == Args(s, cmds[done - 1]) && Line(s, buffer[..], e, cmds, done, save)
  {
    var argv := new int[BUFSZ];
    var argc := SplitCommand(buffer, cmd, argv, cmds[done - 1].to, s);
    args := ReadArgs(buffer[..], argv[..argc]);
  }

  /** One turn of the shell, from the line read to its end: what is given to `os_run`. */
  method RunLine(buffer: array<char>, ghost e: nat) returns (ran: seq<seq<string>>)
    requires buffer.Length == BUFSZ && StringFrom(buffer[..], 0, e)
    modifies buffer
    ensures ran == Commands(old(buffer[..]), e)
    ensures OnlySeparators(old(buffer[..]), buffer[..])
  {
    ghost var s := buffer[..];
    ghost var cmds := Ranges(s, 0, e, COMSEP);
    ran := [];
    assert cmds[0..] == cmds;
    var cmd, stcmd := NextCommand(buffer, 0, NIL, s, e, cmds, 0);
    ghost var at := 0;
    while cmd != NIL
      invariant at <= |cmds| && OnlySeparators(s, buffer[..])
      invariant CommandsOf(s, cmds) == ran + CommandsOf(s, cmds[at..])
      invariant if at == |cmds| then cmd == NIL
        else cmd == cmds[at].from && InCommand(s, buffer[..], cmds[at], stcmd) && Line(s, buffer[..], e, cmds, at + 1, stcmd)
      decreases |cmds| - at
    {
      CommandsStep(s, cmds, at, ran);
      var args := RunCommand(buffer, cmd, s, e, cmds, at + 1, stcmd);
      if args == [] {
        break;
      }
      ran := ran + [args];
      at := at + 1;
      cmd, stcmd := NextCommand(buffer, NIL, stcmd, s, e, cmds, at);
    }
  }

  /** What runs is the longest run of commands, from the first, that have arguments: the pieces of
      the line between newlines and semicolons, split at spaces. */
  lemma CommandsAre(s: string, e: nat) returns (k: nat)
    requires e <= |s|
    ensures var cmds := Ranges(s, 0, e, "\n;");
      && (forall i | 0 <= i < |cmds| :: cmds[i].from <= cmds[i].to <= |s|)
      && k == |Commands(s, e)| <= |cmds|
      && (forall i | 0 <= i < k :: Commands(s, e)[i] == Texts(s, Ranges(s, cmds[i].from, cmds[i].to, " ")) != [])
      && (k < |cmds| ==> Ranges(s, cmds[k].from, cmds[k].to, " ") == [])
  {
    var cmds := Ranges(s, 0, e, "\n;");
    TokensInOrder(s, 0, e, "\n;");
    k := PrefixAre(s, cmds);
    forall i | 0 <= i < |cmds|
      ensures Args(s, cmds[i]) == Texts(s, Ranges(s, cmds[i].from, cmds[i].to, " "))
    {
    }
  }

  lemma {:induction false} PrefixAre(s: string, cmds: seq<Range>) returns (k: nat)
    ensures k == |CommandsOf(s, cmds)| <= |cmds|
    ensures forall i | 0 <= i < k :: CommandsOf(s, cmds)[i] == Args(s, cmds[i]) != []
    ensures k < |cmds| ==> Args(s, cmds[k]) == []
  {
    k := 0;
    if cmds != [] && Args(s, cmds[0]) != [] {
      k := PrefixAre(s, cmds[1..]);
      PrefixNext(Args(s, cmds[0]), CommandsOf(s, cmds[1..]), s, cmds, k);
      k := k + 1;
    }
  }

  lemma PrefixNext(a: seq<string>, rest: seq<seq<string>>, s: string, cmds: seq<Range>, k: nat)
    requires cmds != [] && a == Args(s, cmds[0]) != [] && k == |rest| < |cmds|
    requires forall i | 0 <= i < k :: rest[i] == Args(s, cmds[1..][i]) != []
    ensures forall i | 0 <= i < k + 1 :: ([a] + rest)[i] == Args(s, cmds[i]) != []
  {
    forall i | 0 <= i < k + 1
      ensures ([a] + rest)[i] == Args(s, cmds[i]) != []
    {
      if i > 0 {
        assert ([a] + rest)[i] == rest[i - 1] && cmds[i] == cmds[1..][i - 1];
      }
    }
  }

  /** One command of the line, or the end at the first without arguments. */
  lemma CommandsStep(s: string, cmds: seq<Range>, at: nat, ran: seq<seq<string>>)
    requires at < |cmds| && CommandsOf(s, cmds) == ran + CommandsOf(s, cmds[at..])
    ensures var args := Args(s, cmds[at]);
      if args == [] then CommandsOf(s, cmds) == ran
      else CommandsOf(s, cmds) == (ran + [args]) + CommandsOf(s, cmds[at + 1..])
  {
    assert cmds[at..][0] == cmds[at] && cmds[at..][1..] == cmds[at + 1..];
  }

  // ----- where the line comes from

  /** What `os_read` delivers: nothing when it fails, otherwise as many characters as it says. */
  type Input = r: Option<string> | r.Some? ==> |r.value| <= BUFSZ witness None

  /** The buffer after the line has been read and ended. A failed read returns -1, which is compared
      as unsigned: like a full buffer, it is not ended. */
  function LineOf(was: string, read: Input): (s: string)
    requires |was| == BUFSZ
    ensures |s| == BUFSZ
  {
    if read.None? then was
    else if |read.value| == BUFSZ then read.value
    else read.value + [NUL] + was[|read.value| + 1..]
  }

  /** The line is a string if and only if less than the buffer was read, or there is a terminator in
      what is in it. */
  lemma TerminatedIff(was: string, read: Input)
    requires |was| == BUFSZ
    ensures (exists e: nat :: StringFrom(LineOf(was, read), 0, e)) <==>
      (read.Some? && |read.value| < BUFSZ) || NUL in (if read.Some? then read.value else was)
  {
    var s := LineOf(was, read);
    if read.Some? && |read.value| < BUFSZ {
      assert s[|read.value|] == NUL;
    }
    if NUL in s {
      FirstNulEnds(s, 0);
      assert StringFrom(s, 0, FirstNul(s, 0));
    }
  }

  /** The first terminator from `p`. */
  function FirstNul(s: string, p: nat): (e: nat)
    decreases |s| - p
  {
    if p >= |s| || s[p] == NUL then p else FirstNul(s, p + 1)
  }

  lemma {:induction false} FirstNulEnds(s: string, p: nat)
    requires p <= |s| && NUL in s[p..]
    ensures StringFrom(s, p, FirstNul(s, p))
    decreases |s| - p
  {
    if s[p] != NUL {
      assert s[p..] == [s[p]] + s[p + 1..];
      FirstNulEnds(s, p + 1);
    }
  }

  /** The string is what was read, or what was there if nothing was, up to its first terminator. */
  lemma LineUpToNul(was: string, read: Input, d: string)
    requires |was| == BUFSZ && d == if read.Some? then read.value else was
    requires |d| < 256 || NUL in d
    ensures var s := LineOf(was, read);
      var e := FirstNul(s, 0);
      StringFrom(s, 0, e) && e <= |d| && s[..e] == d[..e] && (e < |d| ==> d[e] == NUL)
  {
    var s := LineOf(was, read);
    assert s[..|d|] == d && (|d| < 256 ==> s[|d|] == NUL);
    assert s[0..] == s && NUL in s;
    FirstNulEnds(s, 0);
    var e := FirstNul(s, 0);
    assert e <= |d|;
    assert s[..e] == s[..|d|][..e];
  }

  /** 256 characters without a terminator: the tokenisers would go on behind the buffer. */
  lemma FullLine(was: string, data: string)
    requires |was| == 256 == |data| && NUL !in data
    ensures !exists e: nat :: StringFrom(LineOf(was, Some(data)), 0, e)
  {
    TerminatedIff(was, Some(data));
  }

  /** The start of a turn: `buffer[bytes] = '\0'` where there is room for it. */
  method ReadLine(buffer: array<char>, read: Input) returns (bytes: int)
    requires buffer.Length == BUFSZ
    modifies buffer
    ensures buffer[..] == LineOf(old(buffer[..]), read)
    ensures bytes == if read.Some? then |read.value| else -1
  {
    if read.None? {
      return -1;
    }
    OsRead(buffer, read.value);
    bytes := |read.value|;
    if bytes < BUFSZ {
      buffer[bytes] := NUL;
    }
  }

  method OsRead(buffer: array<char>, data: string)
    requires |data| <= buffer.Length
    modifies buffer
    ensures buffer[..] == data + old(buffer[|data|..])
  {
    var i := 0;
    while i < |data|
      invariant i <= |data|
      invariant forall j | 0 <= j < buffer.Length :: buffer[j] == if j < i then data[j] else old(buffer[j])
    {
      buffer[i] := data[i];
      i := i + 1;
    }
  }

  /** One turn of the shell: it ends at the end of the input, and otherwise runs the line. */
  method Turn(buffer: array<char>, read: Input) returns (more: bool, ran: seq<seq<string>>)
    requires buffer.Length == BUFSZ
    requires (read.Some? && |read.value| < BUFSZ) || NUL in (if read.Some? then read.value else buffer[..])
    modifies buffer
    ensures more <==> read != Some("")
    ensures var s := LineOf(old(buffer[..]), read);
      if !more then ran == [] && buffer[..] == s
      else StringFrom(s, 0, FirstNul(s, 0)) && ran == Commands(s, FirstNul(s, 0)) && OnlySeparators(s, buffer[..])
  {
    ghost var s := LineOf(buffer[..], read);
    TerminatedIff(buffer[..], read);
    var bytes := ReadLine(buffer, read);
    if bytes == 0 {
      return false, [];
    }
    ghost var e: nat :| StringFrom(s, 0, e);
    assert s[0..][e] == NUL;
    FirstNulEnds(s, 0);
    ran := RunLine(buffer, FirstNul(s, 0));
    more := true;
  }
}
