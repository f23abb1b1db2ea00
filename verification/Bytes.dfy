/** Raw bytes, little-endian fields, and the byte loops of the C library. */
module Bytes {
  import opened Strings

  type byte = b: int | 0 <= b < 0x100

  const NUL: byte := 0

  type u16 = x: int | 0 <= x < 0x1_0000
  type u32 = x: int | 0 <= x < 0x1_0000_0000
  type u64 = x: int | 0 <= x < 0x1_0000_0000_0000_0000

  /** A little-endian field at offset `o`. */
  function Read16(s: seq<byte>, o: nat): u16
    requires o + 2 <= |s|
  {
    s[o] as int + 0x100 * (s[o + 1] as int)
  }

  function Read32(s: seq<byte>, o: nat): u32
    requires o + 4 <= |s|
  {
    Read16(s, o) + 0x1_0000 * Read16(s, o + 2)
  }

  function Read64(s: seq<byte>, o: nat): u64
    requires o + 8 <= |s|
  {
    Read32(s, o) + 0x1_0000_0000 * Read32(s, o + 4)
  }

  function Put16(v: u16): (s: seq<byte>)
    ensures |s| == 2
  {
    [v % 0x100, v / 0x100]
  }

  function Put32(v: u32): (s: seq<byte>)
    ensures |s| == 4
  {
    Put16(v % 0x1_0000) + Put16(v / 0x1_0000)
  }

  function Put64(v: u64): (s: seq<byte>)
    ensures |s| == 8
  {
    Put32(v % 0x1_0000_0000) + Put32(v / 0x1_0000_0000)
  }

  /** `part` occupies `s` from offset `o`. */
  predicate At(s: seq<byte>, o: nat, part: seq<byte>) {
    o + |part| <= |s| && s[o..o + |part|] == part
  }

  lemma AtConcat(s: seq<byte>, o: nat, a: seq<byte>, b: seq<byte>)
    ensures At(s, o, a + b) <==> At(s, o, a) && At(s, o + |a|, b)
  {
    if o + |a| + |b| <= |s| {
      var w := s[o..o + |a| + |b|];
      assert w[..|a|] == s[o..o + |a|] && w[|a|..] == s[o + |a|..o + |a| + |b|];
      assert (a + b)[..|a|] == a && (a + b)[|a|..] == b;
      assert w == w[..|a|] + w[|a|..];
    }
  }

  lemma ReadPut16(s: seq<byte>, o: nat, v: u16)
    requires At(s, o, Put16(v))
    ensures Read16(s, o) == v
  {
    assert s[o..o + 2][0] == s[o] && s[o..o + 2][1] == s[o + 1];
  }

  lemma ReadPut32(s: seq<byte>, o: nat, v: u32)
    requires At(s, o, Put32(v))
    ensures Read32(s, o) == v
  {
    AtConcat(s, o, Put16(v % 0x1_0000), Put16(v / 0x1_0000));
    ReadPut16(s, o, v % 0x1_0000);
    ReadPut16(s, o + 2, v / 0x1_0000);
  }

  lemma ReadPut64(s: seq<byte>, o: nat, v: u64)
    requires At(s, o, Put64(v))
    ensures Read64(s, o) == v
  {
    AtConcat(s, o, Put32(v % 0x1_0000_0000), Put32(v / 0x1_0000_0000));
    ReadPut32(s, o, v % 0x1_0000_0000);
    ReadPut32(s, o + 4, v / 0x1_0000_0000);
  }

  /** `s` with `part` written over it from offset `o`. */
  function Overlay<T>(s: seq<T>, o: nat, part: seq<T>): (r: seq<T>)
    requires o + |part| <= |s|
    ensures |r| == |s|
  {
    s[..o] + part + s[o + |part|..]
  }

  /** `n` copies of `c`. */
  function Fill(c: byte, n: nat): (r: seq<byte>)
    ensures |r| == n && forall i | 0 <= i < n :: r[i] == c
  {
    seq(n, _ => c)
  }

  method Memset(a: array<byte>, p: nat, c: byte, n: nat)
    requires p + n <= a.Length
    modifies a
    ensures a[..] == Overlay(old(a[..]), p, Fill(c, n))
  {
    var e := p + n;
    var q := p;
    while q < e
      invariant p <= q <= e
      invariant forall i | 0 <= i < a.Length :: a[i] == if p <= i < q then c else old(a[i])
    {
      a[q] := c;
      q := q + 1;
    }
  }

  /** `memcpy` from memory that does not change. */
  method Memcpy<T>(a: array<T>, p: nat, src: seq<T>, s: nat, n: nat)
    requires p + n <= a.Length && s + n <= |src|
    modifies a
    ensures a[..] == Overlay(old(a[..]), p, src[s..s + n])
  {
    var e := s + n;
    var from, d := s, p;
    while from < e
      invariant s <= from <= e && d == p + (from - s)
      invariant forall i | 0 <= i < a.Length :: a[i] == if p <= i < d then src[s + (i - p)] else old(a[i])
    {
      a[d] := src[from];
      d, from := d + 1, from + 1;
    }
  }

  datatype Comparison = Same | Different | OffEnd

  type Str = s: seq<byte> | CString(s, NUL)

  /** How the NUL-terminated bytes from `o` compare with the C string `t`; a comparison that
      needs a byte outside `img` is off its end. */
  function Compare(img: seq<byte>, o: nat, t: seq<byte>): Comparison
    decreases |t|
  {
    if o >= |img| then OffEnd
    else if t == [] then if img[o] == NUL then Same else Different
    else if img[o] != NUL && img[o] == t[0] then Compare(img, o + 1, t[1..])
    else Different
  }

  /** `strcmp` told apart from zero. */
  method Strcmp(img: seq<byte>, o: nat, t: seq<byte>) returns (r: Comparison)
    requires CString(t, NUL)
    ensures r == Compare(img, o, t)
  {
    var s1, i := o, 0;
    while s1 < |img| && i < |t| && img[s1] != NUL && img[s1] == t[i]
      invariant s1 == o + i && i <= |t|
      invariant Compare(img, o, t) == Compare(img, s1, t[i..])
      decreases |t| - i
    {
      assert t[i..][1..] == t[i + 1..];
      s1, i := s1 + 1, i + 1;
    }
    if s1 >= |img| {
      return OffEnd;
    }
    var c2 := if i < |t| then t[i] else NUL;
    return if img[s1] - c2 == 0 then Same else Different;
  }

  /** On a terminated name the comparison decides equality. */
  lemma {:induction false} CompareDecides(img: seq<byte>, o: nat, name: seq<byte>, t: seq<byte>)
    requires CString(name, NUL) && CString(t, NUL) && At(img, o, name + [NUL])
    ensures Compare(img, o, t) == if name == t then Same else Different
    decreases name
  {
    AtConcat(img, o, name, [NUL]);
    if name != [] {
      assert img[o] == img[o..o + |name|][0] == name[0];
      if t != [] && name[0] == t[0] {
        assert name + [NUL] == [name[0]] + (name[1..] + [NUL]);
        AtConcat(img, o, [name[0]], name[1..] + [NUL]);
        CompareDecides(img, o + 1, name[1..], t[1..]);
        assert name == [name[0]] + name[1..] && t == [t[0]] + t[1..];
      }
    } else {
      assert img[o] == img[o..o + 1][0] == NUL;
    }
  }
}
