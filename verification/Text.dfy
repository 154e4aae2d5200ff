/** JavaScript strings as UTF-16 code units, and their UTF-8 encoding. */
module Text {

  datatype Option<+T> = None | Some(value: T)

  type byte = x: int | 0 <= x < 0x100
  type unit = x: int | 0 <= x < 0x1_0000
  type Bytes = seq<byte>
  type Str = seq<unit>

  predicate IsHigh(u: unit) { 0xD800 <= u < 0xDC00 }
  predicate IsLow(u: unit) { 0xDC00 <= u < 0xE000 }
  predicate IsSurrogate(u: unit) { 0xD800 <= u < 0xE000 }

  /** `s` starts with a surrogate pair. */
  predicate Paired(s: Str) { |s| >= 2 && IsHigh(s[0]) && IsLow(s[1]) }

  /** How many units the first code point of `s` takes. */
  function Width(s: Str): (w: nat)
    requires s != []
    ensures 1 <= w <= |s|
  {
    if Paired(s) then 2 else 1
  }

  predicate WellFormed(s: Str) {
    s == [] || ((Paired(s) || !IsSurrogate(s[0])) && WellFormed(s[Width(s)..]))
  }

  /** The first code point; a lone surrogate reads as U+FFFD, as an encoder replaces it. */
  function FirstPoint(s: Str): (c: nat)
    requires s != []
    ensures c < 0x11_0000
  {
    var u, v := s[0] as int, if |s| > 1 then s[1] as int else 0;
    if Paired(s) then 0x1_0000 + (u - 0xD800) * 0x400 + (v - 0xDC00)
    else if IsSurrogate(s[0]) then 0xFFFD
    else s[0]
  }

  function EncodePoint(c: nat): Bytes
    requires c < 0x11_0000
  {
    var c6 := c / 64;
    var c12 := c6 / 64;
    var c18 := c12 / 64;
    if c < 0x80 then [c]
    else if c < 0x800 then [0xC0 + c6, 0x80 + c % 64]
    else if c < 0x1_0000 then [0xE0 + c12, 0x80 + c6 % 64, 0x80 + c % 64]
    else [0xF0 + c18, 0x80 + c12 % 64, 0x80 + c6 % 64, 0x80 + c % 64]
  }

  function Utf8(s: Str): Bytes {
    if s == [] then [] else EncodePoint(FirstPoint(s)) + Utf8(s[Width(s)..])
  }

  function DecodePoint(b: Bytes): int
    requires 1 <= |b| <= 4
  {
    if |b| == 1 then b[0] as int
    else if |b| == 2 then (b[0] as int - 0xC0) * 64 + (b[1] as int - 0x80)
    else if |b| == 3 then ((b[0] as int - 0xE0) * 64 + (b[1] as int - 0x80)) * 64 + (b[2] as int - 0x80)
    else (((b[0] as int - 0xF0) * 64 + (b[1] as int - 0x80)) * 64 + (b[2] as int - 0x80)) * 64 + (b[3] as int - 0x80)
  }

  lemma DecodeEncodePoint(c: nat)
    requires c < 0x11_0000
    ensures DecodePoint(EncodePoint(c)) == c
  {
  }

  /** The lead byte tells how long an encoded code point is. */
  lemma EncodedLength(c: nat)
    requires c < 0x11_0000
    ensures var b := EncodePoint(c);
      |b| == if b[0] < 0x80 then 1 else if b[0] < 0xE0 then 2 else if b[0] < 0xF0 then 3 else 4
  {
  }

  /** One encoded code point is recognised at the front of any byte string. */
  lemma EncodePointUnique(c: nat, d: nat, x: Bytes, y: Bytes)
    requires c < 0x11_0000 && d < 0x11_0000
    requires EncodePoint(c) + x == EncodePoint(d) + y
    ensures c == d && x == y
  {
    var a, b := EncodePoint(c), EncodePoint(d);
    assert (a + x)[0] == a[0] && (b + y)[0] == b[0];
    EncodedLength(c);
    EncodedLength(d);
    assert a == (a + x)[..|a|] && b == (b + y)[..|b|];
    DecodeEncodePoint(c);
    DecodeEncodePoint(d);
    assert x == (a + x)[|a|..] && y == (b + y)[|b|..];
  }

  /** A code point of a well-formed string tells the units it was read from. */
  lemma FirstPointUnique(s: Str, t: Str)
    requires s != [] && t != [] && WellFormed(s) && WellFormed(t) && FirstPoint(s) == FirstPoint(t)
    ensures Width(s) == Width(t) && s[..Width(s)] == t[..Width(t)]
  {
    assert Paired(s) == Paired(t);
  }

  lemma NothingEncoded(s: Str)
    ensures Utf8(s) == [] <==> s == []
  {
  }

  /** UTF-8 loses nothing of a well-formed string. */
  lemma {:induction false} Utf8Injective(s: Str, t: Str)
    requires WellFormed(s) && WellFormed(t) && Utf8(s) == Utf8(t)
    ensures s == t
  {
    hide FirstPoint, EncodePoint, IsSurrogate;
    if s != [] && t != [] {
      EncodePointUnique(FirstPoint(s), FirstPoint(t), Utf8(s[Width(s)..]), Utf8(t[Width(t)..]));
      FirstPointUnique(s, t);
      Utf8Injective(s[Width(s)..], t[Width(t)..]);
      assert s == s[..Width(s)] + s[Width(s)..] && t == t[..Width(t)] + t[Width(t)..];
    } else {
      NothingEncoded(s);
      NothingEncoded(t);
    }
  }

  lemma FirstOfConcat(s: Str, t: Str)
    requires s != [] && (Paired(s) || !IsSurrogate(s[0]))
    ensures Paired(s + t) == Paired(s) && FirstPoint(s + t) == FirstPoint(s) && (s + t)[Width(s)..] == s[Width(s)..] + t
    ensures IsSurrogate((s + t)[0]) == IsSurrogate(s[0])
  {
    assert (s + t)[0] == s[0] && (|s| > 1 ==> (s + t)[1] == s[1]);
    assert |s| == 1 ==> (s + t)[1..] == t && s[1..] == [];
  }

  lemma {:induction false} Utf8Concat(s: Str, t: Str)
    requires WellFormed(s)
    ensures Utf8(s + t) == Utf8(s) + Utf8(t)
    ensures WellFormed(t) ==> WellFormed(s + t)
  {
    hide EncodePoint, FirstPoint, Paired, IsSurrogate;
    if s == [] {
      assert s + t == t;
    } else {
      FirstOfConcat(s, t);
      var rest := s[Width(s)..];
      Utf8Concat(rest, t);
      assert EncodePoint(FirstPoint(s)) + (Utf8(rest) + Utf8(t)) == (EncodePoint(FirstPoint(s)) + Utf8(rest)) + Utf8(t);
    }
  }

  /** Bytes below 0x80 come from the same unit, and only from it. */
  lemma {:induction false} Utf8KeepsAscii(s: Str, b: byte)
    requires b < 0x80 && b !in s
    ensures b !in Utf8(s)
  {
    if s != [] {
      Utf8KeepsAscii(s[Width(s)..], b);
      assert b !in EncodePoint(FirstPoint(s));
    }
  }

  lemma {:induction false} Utf8Ascii(s: Str)
    requires forall i | 0 <= i < |s| :: s[i] < 0x80
    ensures WellFormed(s) && Utf8(s) == s
  {
    if s != [] {
      Utf8Ascii(s[1..]);
      assert s == [s[0]] + s[1..];
    }
  }

  // ---- separators

  /** `u` stands nowhere in `s`. */
  predicate Free(s: Str, u: unit) {
    forall i | 0 <= i < |s| :: s[i] != u
  }

  lemma FreeAt(s: Str, u: unit, i: nat)
    requires Free(s, u) && i < |s|
    ensures s[i] != u
  {
  }

  lemma SameLength(s: Str, t: Str, x: Str, y: Str)
    requires |s| == |t| && s + x == t + y
    ensures s == t && x == y
  {
    assert s == (s + x)[..|s|] && t == (t + y)[..|t|] && x == (s + x)[|s|..] && y == (t + y)[|t|..];
  }

  /** A text tells what stands before its first `u`, and what after it. */
  lemma FirstSeparator(u: unit, a: Str, x: Str, b: Str, y: Str)
    requires Free(a, u) && Free(b, u) && a + ([u] + x) == b + ([u] + y)
    ensures a == b && x == y
  {
    hide Free;
    var l, r := a + ([u] + x), b + ([u] + y);
    assert l[|a|] == u && r[|b|] == u;
    if |a| < |b| {
      assert r[|a|] == b[|a|];
      FreeAt(b, u, |a|);
    } else if |b| < |a| {
      assert l[|b|] == a[|b|];
      FreeAt(a, u, |b|);
    }
    SameLength(a, b, [u] + x, [u] + y);
    SameLength([u], [u], x, y);
  }

  /** A text tells what stands after its last `u`, and what before it. */
  lemma LastSeparator(u: unit, a: Str, x: Str, b: Str, y: Str)
    requires Free(x, u) && Free(y, u) && a + ([u] + x) == b + ([u] + y)
    ensures a == b && x == y
  {
    hide Free;
    var l, r := a + ([u] + x), b + ([u] + y);
    assert l[|a|] == u && r[|b|] == u;
    if |a| < |b| {
      assert l[|b|] == x[|b| - |a| - 1];
      FreeAt(x, u, |b| - |a| - 1);
    } else if |b| < |a| {
      assert r[|a|] == y[|a| - |b| - 1];
      FreeAt(y, u, |a| - |b| - 1);
    }
    SameLength(a, b, [u] + x, [u] + y);
    SameLength([u], [u], x, y);
  }

  // ---- numbers in text

  function Digit(d: nat): unit
    requires d < 10
  {
    0x30 + d
  }

  /** A count as JSON prints it. */
  function NatText(n: nat): (t: Str)
    ensures t != []
  {
    if n < 10 then [Digit(n)] else NatText(n / 10) + [Digit(n % 10)]
  }

  /** A count that a JavaScript number holds exactly, as every smaller one is. */
  predicate ExactCount(n: nat) {
    n <= 0x20_0000_0000_0000
  }

  function HexDigit(d: nat): (u: unit)
    requires d < 16
    ensures 0x30 <= u <= 0x39 || 0x61 <= u <= 0x66
  {
    if d < 10 then 0x30 + d else 0x57 + d
  }

  /** A Dafny literal as a JavaScript string. */
  function Lit(s: string): (r: Str)
    requires forall i | 0 <= i < |s| :: s[i] < '\U{0080}'
    ensures |r| == |s| && forall i | 0 <= i < |s| :: r[i] == s[i] as int
  {
    seq(|s|, i requires 0 <= i < |s| => var u: unit := s[i] as int; u)
  }

  // ---- sets

  lemma SubsetSize<T>(s: set<T>, t: set<T>)
    requires s <= t
    ensures |s| <= |t|
  {
    if s != {} {
      var x :| x in s;
      SubsetSize(s - {x}, t - {x});
    }
  }
}
