/** `vsnprintf`: pieces are copied while they fit, and a piece that does not fit ends the text. */
module Format {
  import opened Strings
  import opened Options
  import Bits
  import opened Tokens
  import Bytes

  const MIN: int := -0x8000_0000
  const SCRATCH: nat := 16

  type int32 = i: int | MIN <= i < 0x8000_0000

  /** A string up to its terminator. */
  type CStr = s: string | CString(s, NUL)

  datatype Arg = Str(s: CStr) | Int(d: int32)

  // ----- the numeral of an int

  /** Division and remainder as in C: toward zero, the remainder with the dividend's sign. */
  function Quot(d: int): (q: int)
    ensures -0x8000_0000 <= d < 0x8000_0000 ==> -0x8000_0000 <= q < 0x8000_0000
  {
    if d >= 0 then d / 10 else -((-d) / 10)
  }

  function Rem(d: int): (r: int)
    ensures -9 <= r <= 9 && d == 10 * Quot(d) + r
  {
    if d >= 0 then d % 10 else -((-d) % 10)
  }

  function DigitChar(r: int): char
    requires -9 <= r <= 9
  {
    ('0' as int + r) as char
  }

  /** Negation with wrap-around: the least int is its own negative. */
  function Negated(d: int32): int32 {
    if d == MIN then MIN else -d
  }

  function Magnitude(d: int): nat {
    if d >= 0 then d else -d
  }

  /** The characters the digit loop writes for a non-zero `d`, first to last. */
  function Emitted(d: int): string
    decreases Magnitude(d)
  {
    if d == 0 then "" else Emitted(Quot(d)) + [DigitChar(Rem(d))]
  }

  /** What `%d` prints. */
  function Printed(d: int32): string {
    if d == 0 then "0" else if d < 0 then "-" + Emitted(Negated(d)) else Emitted(d)
  }

  function Power10(k: nat): nat {
    if k == 0 then 1 else 10 * Power10(k - 1)
  }

  lemma {:induction false} EmittedLength(d: int, k: nat)
    requires Magnitude(d) < Power10(k)
    ensures |Emitted(d)| <= k
    decreases k
  {
    if d != 0 {
      assert k > 0 by {
        assert Power10(0) == 1;
      }
      EmittedLength(Quot(d), k - 1);
    }
  }

  /** A numeral has at most eleven characters, so the scratch buffer is never full. */
  lemma PrintedLength(d: int32)
    ensures 0 < |Printed(d)| <= 11 && |Emitted(Negated(d))| <= 10 && |Emitted(d)| <= 10
  {
    assert Power10(5) == 100000;
    assert Power10(10) == 10000000000;
    EmittedLength(d, 10);
    EmittedLength(Negated(d), 10);
  }

  /** `*p-- = c`: one more character in front of what is there. */
  method PutBack(b: array<char>, p: nat, c: char)
    requires p < b.Length
    modifies b
    ensures b[p..] == [c] + old(b[p + 1..])
  {
    b[p] := c;
  }

  /** The digit loop, from the end of the scratch buffer. */
  method PutDigits(b: array<char>, value: int32) returns (p: nat)
    requires b.Length == SCRATCH && |Emitted(value)| <= 10
    modifies b
    ensures p < SCRATCH && b[p + 1..] == Emitted(value)
  {
    var d := value;
    p := SCRATCH - 1;
    ghost var tail := "";
    while d != 0 && p != 0
      invariant p < SCRATCH && b[p + 1..] == tail && Emitted(d) + tail == Emitted(value)
      decreases p
    {
      var c := DigitChar(Rem(d));
      assert Emitted(Quot(d)) + ([c] + tail) == (Emitted(Quot(d)) + [c]) + tail;
      PutBack(b, p, c);
      tail := [c] + tail;
      p := p - 1;
      d := Quot(d);
    }
  }

  /** The `%d` case: digits go backwards into the scratch buffer, then the sign. */
  method FormatInt(b: array<char>, value: int32) returns (o: nat, os: nat)
    requires b.Length == SCRATCH
    modifies b
    ensures o + os == SCRATCH && b[o..] == Printed(value)
  {
    PrintedLength(value);
    var p: nat := SCRATCH - 1;
    var d: int32 := value;
    if d == 0 {
      PutBack(b, p, '0');
      p := p - 1;
    } else {
      var m := d < 0;
      if m {
        d := Negated(d);
      }
      p := PutDigits(b, d);
      if p != 0 && m {
        PutBack(b, p, '-');
        p := p - 1;
      }
    }
    o := p + 1;
    os := SCRATCH - o;
  }

  // ----- reading a numeral back

  predicate IsDigit(c: char) {
    '0' as int <= c as int <= '9' as int
  }

  /** The value of a string of digits. */
  function Digits(s: string): Option<int> {
    if s == "" then Some(0)
    else
      var front := Digits(s[..|s| - 1]);
      var c := s[|s| - 1];
      if front.Some? && IsDigit(c) then Some(10 * front.value + (c as int - '0' as int)) else None
  }

  function Value(s: string): Option<int> {
    if s == "" || s == "-" then None
    else if s[0] == '-' then
      var n := Digits(s[1..]);
      if n.Some? then Some(-n.value) else None
    else
      var n := Digits(s);
      if n.Some? then Some(n.value) else None
  }

  /** No leading zero, and no sign on zero. */
  predicate Canonical(s: string) {
    s == "0" || (s != "" && s[0] != '0' && (s[0] == '-' ==> |s| > 1 && s[1] != '0'))
  }

  lemma DigitsNext(s: string, c: char)
    ensures Digits(s + [c]) ==
      if Digits(s).Some? && IsDigit(c) then Some(10 * Digits(s).value + (c as int - '0' as int)) else None
  {
    assert (s + [c])[..|s|] == s;
  }

  /** A string of digits without a leading zero, and its value. */
  ghost predicate Numeral(s: string, n: nat) {
    Digits(s) == Some(n) && s != "" && s[0] != '0' && IsDigit(s[0])
  }

  /** One more digit, behind a numeral or as the first. */
  lemma NumeralNext(e: string, q: nat, r: nat, d: nat, s: string)
    requires if q > 0 then Numeral(e, q) else e == ""
    requires r <= 9 && q + r > 0 && d == 10 * q + r && s == e + [DigitChar(r)]
    ensures Numeral(s, d)
  {
    var c := DigitChar(r);
    assert c as int == '0' as int + r;
    DigitsNext(e, c);
    if q == 0 {
      assert e + [c] == [c];
    } else {
      assert (e + [c])[0] == e[0];
    }
  }

  lemma {:induction false} EmittedValue(d: nat)
    requires d > 0
    ensures Numeral(Emitted(d), d)
  {
    if Quot(d) > 0 {
      EmittedValue(Quot(d));
    }
    NumeralNext(Emitted(Quot(d)), Quot(d), Rem(d), d, Emitted(d));
  }

  /** The least int is printed with characters that are not digits: it ends with the one eight
      places below '0'. */
  lemma LeastInt()
    ensures Printed(MIN) == "-./,),(-*,("
    ensures var s := Printed(MIN); |s| > 1 && s[|s| - 1] == '(' && Value(s) == None
  {
    LeastDigits();
    EndsWith(MIN);
    var s := Printed(MIN);
    assert s[1..] == Emitted(MIN);
    assert !IsDigit('(');
  }

  lemma LeastDigits()
    ensures Emitted(MIN) == "./,),(-*,("
  {
    NextDigit(-2, 0, -2, "", ".");
    NextDigit(-21, -2, -1, ".", "./");
    NextDigit(-214, -21, -4, "./", "./,");
    NextDigit(-2147, -214, -7, "./,", "./,)");
    NextDigit(-21474, -2147, -4, "./,)", "./,),");
    NextDigit(-214748, -21474, -8, "./,),", "./,),(");
    NextDigit(-2147483, -214748, -3, "./,),(", "./,),(-");
    NextDigit(-21474836, -2147483, -6, "./,),(-", "./,),(-*");
    NextDigit(-214748364, -21474836, -4, "./,),(-*", "./,),(-*,");
    NextDigit(MIN, -214748364, -8, "./,),(-*,", "./,),(-*,(");
  }

  lemma NextDigit(d: int, q: int, r: int, s: string, t: string)
    requires d < 0 && q <= 0 && -9 <= r <= 0 && d == 10 * q + r
    requires Emitted(q) == s && t == s + [('0' as int + r) as char]
    ensures Emitted(d) == t
  {
    assert Quot(d) == q && Rem(d) == r;
  }

  lemma EndsWith(d: int)
    requires d != 0
    ensures Emitted(d) != "" && Emitted(d)[|Emitted(d)| - 1] == DigitChar(Rem(d))
  {
  }

  /** Reading what `%d` printed gives the int back if and only if it is not the least int. */
  lemma ReadsBackIff(d: int32)
    ensures Value(Printed(d)) == Some(d) <==> d != MIN
    ensures d != MIN ==> Canonical(Printed(d))
  {
    if d == MIN {
      LeastInt();
    } else if d == 0 {
      assert Digits("0"[..0]) == Some(0);
    } else {
      SignedReadsBack(d);
    }
  }

  lemma SignedReadsBack(d: int32)
    requires d != 0 && d != MIN
    ensures Value(Printed(d)) == Some(d) && Canonical(Printed(d))
  {
    var n: nat := if d > 0 then d else -d;
    EmittedValue(n);
    if d > 0 {
      PlainNumeral(Emitted(n), n);
    } else {
      SignedNumeral(Emitted(n), n, d);
    }
  }

  lemma PlainNumeral(e: string, n: nat)
    requires Numeral(e, n)
    ensures Value(e) == Some(n) && Canonical(e)
  {
  }

  lemma SignedNumeral(e: string, n: nat, d: int)
    requires Numeral(e, n) && d + n == 0
    ensures Value("-" + e) == Some(d) && Canonical("-" + e)
  {
    var s := "-" + e;
    assert s[1..] == e;
    assert s[0] == '-' && s[1] == e[0];
  }

  // ----- the pieces of a text

  /** The arguments are of the kinds the format asks for. */
  predicate Matches(f: string, spec: bool, args: seq<Arg>) {
    if f == "" then true
    else if !spec then Matches(f[1..], f[0] == '%', args)
    else if f[0] == 's' then args != [] && args[0].Str? && Matches(f[1..], false, args[1..])
    else if f[0] == 'd' || f[0] == 'c' then args != [] && args[0].Int? && Matches(f[1..], false, args[1..])
    else Matches(f[1..], false, args)
  }

  /** The piece a format character stands for, after a `%` or not. */
  function Piece(c: char, spec: bool, args: seq<Arg>): string
    requires spec && c == 's' ==> args != [] && args[0].Str?
    requires spec && (c == 'd' || c == 'c') ==> args != [] && args[0].Int?
  {
    if !spec then if c == '%' then "" else [c]
    else if c == 's' then args[0].s
    else if c == 'd' then Printed(args[0].d)
    else if c == 'c' then [(args[0].d % 0x100) as char]
    else [c]
  }

  function Rest(c: char, spec: bool, args: seq<Arg>): seq<Arg>
    requires spec && (c == 's' || c == 'd' || c == 'c') ==> args != []
  {
    if spec && (c == 's' || c == 'd' || c == 'c') then args[1..] else args
  }

  /** One piece for each character of the format. */
  function Pieces(f: string, spec: bool, args: seq<Arg>): seq<string>
    requires Matches(f, spec, args)
  {
    if f == "" then []
    else [Piece(f[0], spec, args)] + Pieces(f[1..], !spec && f[0] == '%', Rest(f[0], spec, args))
  }

  /** The text of the pieces up to the first that does not fit in what room there is left. */
  function Kept(ps: seq<string>, room: int): string {
    if ps == [] || |ps[0]| > room then "" else ps[0] + Kept(ps[1..], room - |ps[0]|)
  }

  function Concat(ps: seq<string>): string {
    if ps == [] then "" else ps[0] + Concat(ps[1..])
  }

  /** `Kept` is the longest run of whole pieces whose text fits. */
  lemma {:induction false} KeptLongest(ps: seq<string>, room: nat) returns (k: nat)
    ensures k <= |ps| && Kept(ps, room) == Concat(ps[..k]) && |Kept(ps, room)| <= room
    ensures k < |ps| ==> |Concat(ps[..k + 1])| > room
  {
    k := 0;
    if ps != [] && |ps[0]| <= room {
      k := KeptLongest(ps[1..], room - |ps[0]|);
      assert ps[..k + 1][1..] == ps[1..][..k];
      if k < |ps[1..]| {
        assert ps[..k + 2][1..] == ps[1..][..k + 1];
      }
      k := k + 1;
    } else if ps != [] {
      assert ps[..1] == [ps[0]] && Concat([ps[0]]) == ps[0] + Concat([]);
    }
  }

  lemma {:induction false} KeptNothing(ps: seq<string>)
    ensures Kept(ps, 0) == ""
  {
    if ps != [] {
      KeptNothing(ps[1..]);
    }
  }

  // ----- what a format stands for

  /** The text with no limit on its size. */
  function Whole(f: string, args: seq<Arg>): string
    requires Matches(f, false, args)
  {
    Concat(Pieces(f, false, args))
  }

  /** The format uses up exactly these arguments and does not end inside a conversion. */
  predicate Exactly(f: string, spec: bool, args: seq<Arg>) {
    if f == "" then !spec && args == []
    else if !spec then Exactly(f[1..], f[0] == '%', args)
    else if f[0] == 's' then args != [] && args[0].Str? && Exactly(f[1..], false, args[1..])
    else if f[0] == 'd' || f[0] == 'c' then args != [] && args[0].Int? && Exactly(f[1..], false, args[1..])
    else Exactly(f[1..], false, args)
  }

  /** The text of one format after another is the one text after the other. */
  lemma WholeJoin(f: string, a: seq<Arg>, g: string, b: seq<Arg>)
    requires Exactly(f, false, a) && Matches(g, false, b)
    ensures Matches(f, false, a) && Matches(f + g, false, a + b) && Whole(f + g, a + b) == Whole(f, a) + Whole(g, b)
  {
    PiecesJoin(f, false, a, g, b);
    ConcatJoin(Pieces(f, false, a), Pieces(g, false, b));
  }

  lemma {:induction false} PiecesJoin(f: string, spec: bool, a: seq<Arg>, g: string, b: seq<Arg>)
    requires Exactly(f, spec, a) && Matches(g, false, b)
    ensures Matches(f, spec, a) && Matches(f + g, spec, a + b)
    ensures Pieces(f + g, spec, a + b) == Pieces(f, spec, a) + Pieces(g, false, b)
    decreases |f|
  {
    if f == "" {
      assert f + g == g && a + b == b;
    } else {
      assert (f + g)[0] == f[0] && (f + g)[1..] == f[1..] + g;
      if spec && (f[0] == 's' || f[0] == 'd' || f[0] == 'c') {
        assert (a + b)[0] == a[0] && (a + b)[1..] == a[1..] + b;
        PiecesJoin(f[1..], false, a[1..], g, b);
        InFront(Piece(f[0], spec, a), Pieces(f[1..], false, a[1..]), Pieces(g, false, b));
      } else {
        PiecesJoin(f[1..], !spec && f[0] == '%', a, g, b);
        InFront(Piece(f[0], spec, a), Pieces(f[1..], !spec && f[0] == '%', a), Pieces(g, false, b));
      }
    }
  }

  lemma InFront(s: string, p: seq<string>, q: seq<string>)
    ensures [s] + (p + q) == ([s] + p) + q
  {
  }

  lemma {:induction false} ConcatJoin(p: seq<string>, q: seq<string>)
    ensures Concat(p + q) == Concat(p) + Concat(q)
  {
    if p == [] {
      assert p + q == q;
    } else {
      assert (p + q)[1..] == p[1..] + q;
      ConcatJoin(p[1..], q);
    }
  }

  /** A text without a `%` stands for itself. */
  lemma {:induction false} WholePlain(f: string)
    requires '%' !in f
    ensures Exactly(f, false, []) && Matches(f, false, []) && Whole(f, []) == f
  {
    if f != "" {
      assert f[0] != '%' && '%' !in f[1..];
      WholePlain(f[1..]);
      assert Pieces(f, false, [])[1..] == Pieces(f[1..], false, []);
      assert f == [f[0]] + f[1..];
    }
  }

  /** `%s` stands for its argument. */
  lemma WholeString(s: CStr)
    ensures Exactly("%s", false, [Str(s)]) && Matches("%s", false, [Str(s)]) && Whole("%s", [Str(s)]) == s
  {
    OneConversion('s', [Str(s)], s);
  }

  /** `%c` stands for the character its argument is, as an unsigned byte. */
  lemma WholeChar(d: int32)
    ensures Exactly("%c", false, [Int(d)]) && Matches("%c", false, [Int(d)])
    ensures Whole("%c", [Int(d)]) == [(d % 0x100) as char]
    ensures 0 <= d < 0x80 ==> Whole("%c", [Int(d)]) == [d as char]
  {
    OneConversion('c', [Int(d)], [(d % 0x100) as char]);
  }

  /** `%d` stands for a numeral that reads back as its argument, unless that is the least int. */
  lemma WholeInt(d: int32)
    ensures Exactly("%d", false, [Int(d)]) && Matches("%d", false, [Int(d)])
    ensures d != MIN ==> Value(Whole("%d", [Int(d)])) == Some(d) && Canonical(Whole("%d", [Int(d)]))
  {
    OneConversion('d', [Int(d)], Printed(d));
    ReadsBackIff(d);
  }

  /** `%%` stands for `%`, and `%` before any other character for that character. */
  lemma WholeOther(c: char)
    requires c != 's' && c != 'd' && c != 'c'
    ensures Exactly(['%', c], false, []) && Matches(['%', c], false, []) && Whole(['%', c], []) == [c]
  {
    OneConversion(c, [], [c]);
  }

  /** A `%` at the end stands for nothing. */
  lemma WholeOpen()
    ensures Matches("%", false, []) && Whole("%", []) == ""
  {
    assert "%"[1..] == "" && Pieces("", true, []) == [];
    assert Pieces("%", false, []) == [""];
    assert Concat([""]) == "" + Concat([]);
  }

  lemma OneConversion(c: char, args: seq<Arg>, text: string)
    requires if c == 's' then |args| == 1 && args[0].Str? && text == args[0].s
      else if c == 'd' then |args| == 1 && args[0].Int? && text == Printed(args[0].d)
      else if c == 'c' then |args| == 1 && args[0].Int? && text == [(args[0].d % 0x100) as char]
      else args == [] && text == [c]
    ensures Exactly(['%', c], false, args) && Matches(['%', c], false, args) && Whole(['%', c], args) == text
  {
    var f, rest := ['%', c], Rest(c, true, args);
    assert f[1..] == [c] && [c][1..] == "" && rest == [];
    assert Exactly("", false, rest) && Exactly([c], true, args);
    assert Pieces([c], true, args) == [text] + Pieces("", false, rest) == [text];
    assert Pieces(f, false, args) == [""] + [text];
    assert ["", text][1..] == [text];
    assert Concat([text]) == text + Concat([]);
  }

  // ----- what is written

  /** `os < str + size - p - 1`: the right-hand side is negative for a size of 0, and becomes a huge
      unsigned number. */
  predicate Accepted(os: nat, size: nat, p: nat) {
    os < (size - p - 1) % Bits.MOD64
  }

  /** The characters a text may have, for a size that is not 0. */
  function Room(size: nat): nat {
    if size >= 2 then size - 2 else 0
  }

  /** What is still written of these pieces when `p` characters are. */
  function Taken(ps: seq<string>, size: nat, p: nat): string {
    if size == 0 then Concat(ps) else Kept(ps, Room(size) - p)
  }

  /** The text `vsnprintf` makes. */
  function Text(size: nat, format: CStr, args: seq<Arg>): string
    requires Matches(format, false, args)
  {
    Taken(Pieces(format, false, args), size, 0)
  }

  /** It is the whole text if and only if that is empty or two characters shorter than the size, or
      the size is 0; otherwise it is the beginning of it. */
  lemma TextWholeIff(size: nat, format: CStr, args: seq<Arg>)
    requires Matches(format, false, args)
    ensures Text(size, format, args) == Whole(format, args) <==>
      size == 0 || Whole(format, args) == "" || |Whole(format, args)| + 2 <= size
    ensures Text(size, format, args) <= Whole(format, args)
  {
    if size > 0 {
      KeptAll(Pieces(format, false, args), Room(size));
    }
  }

  /** It ends before the first piece that would leave less than two characters of the size. */
  lemma TextLongest(size: nat, format: CStr, args: seq<Arg>) returns (k: nat)
    requires size >= 2 && Matches(format, false, args)
    ensures var ps := Pieces(format, false, args);
      && k <= |ps| && Text(size, format, args) == Concat(ps[..k]) && |Text(size, format, args)| + 2 <= size
      && (k < |ps| ==> |Concat(ps[..k + 1])| + 2 > size)
  {
    k := KeptLongest(Pieces(format, false, args), size - 2);
  }

  lemma {:induction false} KeptAll(ps: seq<string>, room: int)
    ensures |Concat(ps)| <= room ==> Kept(ps, room) == Concat(ps)
    ensures Kept(ps, room) <= Concat(ps)
    ensures room >= 0 ==> |Kept(ps, room)| <= room
  {
    if ps != [] {
      KeptAll(ps[1..], room - |ps[0]|);
      if |ps[0]| <= room {
        assert ps[0] + Kept(ps[1..], room - |ps[0]|) <= ps[0] + Concat(ps[1..]);
      }
    }
  }

  /** With its terminator it is inside the size given if and only if that is not 0. */
  lemma InsideIff(size: nat, format: CStr, args: seq<Arg>)
    requires Matches(format, false, args)
    ensures |Text(size, format, args)| + 1 <= size <==> size >= 1
  {
    if size >= 1 {
      var k := KeptLongest(Pieces(format, false, args), Room(size));
    }
  }

  /** A size of 0 and the format "a": two characters are written. */
  lemma SizeZero()
    ensures Matches("a", false, []) && Text(0, "a", []) == "a"
  {
    assert Pieces("a", false, []) == ["a"] + Pieces("", false, []);
    assert Concat(["a"]) == "a" + Concat([]);
  }

  // ----- the program

  /** `s` with its beginning overwritten. */
  function Over(s: string, t: string): (r: string)
    requires |t| <= |s|
    ensures |r| == |s|
  {
    t + s[|t|..]
  }

  /** A copy to where the text so far ends. */
  lemma OverMore(s: string, done: string, o: string)
    requires |done| + |o| <= |s|
    ensures Bytes.Overlay(Over(s, done), |done|, o[0..|o|]) == Over(s, done + o)
  {
  }

  /** `*p = '\0'`. */
  method Terminate(str: array<char>, ghost s0: string, ghost done: string, p: nat)
    requires p == |done| < str.Length == |s0| && str[..] == Over(s0, done)
    modifies str
    ensures str[..] == Over(s0, done + [NUL])
  {
    str[p] := NUL;
  }

  /** The piece of one format character, as the loop makes it: in the scratch buffer, or the
      string argument itself. */
  method MakePiece(c: char, spec: bool, args: seq<Arg>) returns (o: string)
    requires spec && c == 's' ==> args != [] && args[0].Str?
    requires spec && (c == 'd' || c == 'c') ==> args != [] && args[0].Int?
    ensures o == Piece(c, spec, args)
  {
    var b := new char[SCRATCH](_ => NUL);
    if !spec {
      if c == '%' {
        return "";
      }
      b[0] := c;
      return b[..1];
    }
    match c {
      case 's' => return args[0].s;
      case 'd' =>
        var p, os := FormatInt(b, args[0].d);
        return b[p..p + os];
      case 'c' =>
        b[0] := (args[0].d % 0x100) as char;
        return b[..1];
      case _ =>
        b[0] := c;
        return b[..1];
    }
  }

  /** `vsnprintf`: the text is the longest run of whole pieces of at most `size - 2` characters, and
      all of them for a size of 0. It is terminated, and nothing after that is written. `str` is
      the memory from the buffer on. */
  method Vsnprintf(str: array<char>, size: nat, format: CStr, args: seq<Arg>) returns (n: nat)
    requires size <= str.Length < Bits.MOD64 && Matches(format, false, args)
    requires |Text(size, format, args)| < str.Length
    modifies str
    ensures n == |Text(size, format, args)|
    ensures str[..] == Over(old(str[..]), Text(size, format, args) + [NUL])
  {
    ghost var text, s0 := Text(size, format, args), str[..];
    var spec := false;
    var p: nat, i: nat, rest := 0, 0, args;
    ghost var done, f: string := "", format;
    while i < |format|
      invariant i <= |format| && f == format[i..]
      invariant StillTo(f, spec, rest, done, size, p, text)
      invariant str[..] == Over(s0, done)
      invariant i == |format| ==> text == done
    {
      var c := format[i];
      assert f[0] == c && f[1..] == format[i + 1..];
      var more, q := PutPiece(str, size, c, spec, rest, p, f, done, s0, text);
      if !more {
        break;
      }
      done := done + Piece(c, spec, rest);
      i, p, f := i + 1, q, f[1..];
      rest, spec := Rest(c, spec, rest), !spec && c == '%';
    }
    Terminate(str, s0, done, p);
    n := p;
  }

  /** One turn of the loop: the piece is copied if it fits, otherwise the text is complete. */
  method PutPiece(str: array<char>, size: nat, c: char, spec: bool, args: seq<Arg>, p: nat,
                  ghost f: string, ghost done: string, ghost s0: string, ghost text: string)
    returns (more: bool, q: nat)
    requires size <= str.Length == |s0| < Bits.MOD64 && |text| < |s0| && f != "" && f[0] == c
    requires |done| <= |s0| && str[..] == Over(s0, done)
    requires StillTo(f, spec, args, done, size, p, text)
    modifies str
    ensures (spec && c == 's' ==> args != [] && args[0].Str?) && (spec && (c == 'd' || c == 'c') ==> args != [] && args[0].Int?)
    ensures var now := done + Piece(c, spec, args);
      if more then
        |now| <= |s0| && str[..] == Over(s0, now) && StillTo(f[1..], !spec && c == '%', Rest(c, spec, args), now, size, q, text)
      else q == p && text == done && str[..] == Over(s0, done)
  {
    NextPiece(f, spec, args, done, size, p, text);
    var o := MakePiece(c, spec, args);
    AcceptedIff(|o|, size, p, |s0|);
    if Accepted(|o|, size, p) {
      OverMore(s0, done, o);
      Bytes.Memcpy(str, p, o, 0, |o|);
      return true, p + |o|;
    }
    return false, p;
  }

  /** The unsigned comparison means that the piece fits, or that nothing ever does not. */
  lemma AcceptedIff(os: nat, size: nat, p: nat, n: nat)
    requires size <= n < Bits.MOD64 && p < n && (size > 0 ==> p <= Room(size))
    ensures size > 0 ==> (Accepted(os, size, p) <==> os + p < size - 1)
    ensures size == 0 && os + p < n ==> Accepted(os, size, p)
  {
    if size == 0 {
      assert (size - p - 1) % Bits.MOD64 == Bits.MOD64 - p - 1;
    } else {
      assert (size - p - 1) % Bits.MOD64 == size - p - 1;
    }
  }

  /** `done` is written, up to `p`, and the whole text is what the rest of the format adds to it. */
  ghost predicate StillTo(f: string, spec: bool, args: seq<Arg>, done: string, size: nat, p: nat, text: string) {
    && Matches(f, spec, args) && p == |done| && (size > 0 ==> p <= Room(size))
    && text == done + Taken(Pieces(f, spec, args), size, p)
  }

  /** The next piece is kept if it fits, and always for a size of 0; otherwise the text ends here. */
  lemma NextPiece(f: string, spec: bool, args: seq<Arg>, done: string, size: nat, p: nat, text: string)
    requires f != "" && StillTo(f, spec, args, done, size, p, text)
    ensures var c := f[0];
      (spec && c == 's' ==> args != [] && args[0].Str?) && (spec && (c == 'd' || c == 'c') ==> args != [] && args[0].Int?)
    ensures var c, o := f[0], Piece(f[0], spec, args);
      && (size == 0 || p + |o| <= Room(size) ==>
            StillTo(f[1..], !spec && c == '%', Rest(c, spec, args), done + o, size, p + |o|, text) && p + |o| <= |text|)
      && (size > 0 && p + |o| >= size - 1 ==> text == done)
  {
    var ps := Pieces(f, spec, args);
    assert ps[1..] == Pieces(f[1..], !spec && f[0] == '%', Rest(f[0], spec, args));
    if size == 0 {
      TextSplit(done, ps[0], Concat(ps[1..]));
    } else {
      if Room(size) == p {
        KeptNothing(ps);
      }
      TextSplit(done, ps[0], Kept(ps[1..], Room(size) - p - |ps[0]|));
    }
  }

  lemma TextSplit(p: string, q: string, r: string)
    ensures p + (q + r) == (p + q) + r
  {
  }
}
