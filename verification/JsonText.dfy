/** How JSON.stringify prints a string: escaped as section 7 of RFC 8259 asks, well-formed for lone surrogates. */
module JsonText {
  import opened Text

  const QUOTE: unit := 0x22
  const BACKSLASH: unit := 0x5C

  function Hex4(u: unit): (h: Str)
    ensures |h| == 4
  {
    var a := u / 16;
    var b := a / 16;
    [HexDigit(b / 16), HexDigit(b % 16), HexDigit(a % 16), HexDigit(u % 16)]
  }

  /** The second unit of a two-unit escape, or 0 when `u` has none. */
  function ShortEscape(u: unit): unit {
    if u == 0x08 then 0x62 else if u == 0x09 then 0x74 else if u == 0x0A then 0x6E
    else if u == 0x0C then 0x66 else if u == 0x0D then 0x72
    else if u == QUOTE || u == BACKSLASH then u else 0
  }

  function EscapeUnit(u: unit): (e: Str) {
    if ShortEscape(u) != 0 then [BACKSLASH, ShortEscape(u)]
    else if u < 0x20 || IsSurrogate(u) then [BACKSLASH, 0x75] + Hex4(u)
    else [u]
  }

  /** What the first code point of `s` prints as. */
  function Head(s: Str): Str
    requires s != []
  {
    if Paired(s) then s[..2] else EscapeUnit(s[0])
  }

  function Escape(s: Str): Str {
    if s == [] then [] else Head(s) + Escape(s[Width(s)..])
  }

  function Quote(s: Str): Str {
    [QUOTE] + Escape(s) + [QUOTE]
  }

  lemma HexInjective(u: unit, v: unit)
    requires Hex4(u) == Hex4(v)
    ensures u == v
  {
    assert forall i | 0 <= i < 4 :: Hex4(u)[i] == Hex4(v)[i];
    assert Hex4(u)[0] == Hex4(v)[0] && Hex4(u)[1] == Hex4(v)[1];
    assert Hex4(u)[2] == Hex4(v)[2] && Hex4(u)[3] == Hex4(v)[3];
  }

  lemma EscapeUnitInjective(u: unit, v: unit)
    requires EscapeUnit(u) == EscapeUnit(v)
    ensures u == v
  {
    var e, f := EscapeUnit(u), EscapeUnit(v);
    assert e[0] == f[0];
    if |e| == 2 {
      assert e[1] == f[1];
    } else if |e| == 6 {
      assert e[2..] == Hex4(u) && f[2..] == Hex4(v);
      HexInjective(u, v);
    }
  }

  /** The first two units of an escaped code point tell its length. */
  lemma HeadLength(s: Str)
    requires s != []
    ensures var h := Head(s);
      && 1 <= |h| && h[0] != QUOTE
      && (h[0] == BACKSLASH ==> |h| == if h[1] == 0x75 then 6 else 2)
      && (h[0] != BACKSLASH ==> |h| == if IsHigh(h[0]) then 2 else 1)
  {
  }

  lemma HeadUnique(s: Str, t: Str, x: Str, y: Str)
    requires s != [] && t != []
    requires Head(s) + x == Head(t) + y
    ensures Width(s) == Width(t) && s[..Width(s)] == t[..Width(t)] && x == y
  {
    var h, k := Head(s), Head(t);
    HeadLength(s);
    HeadLength(t);
    assert (h + x)[0] == h[0] && (k + y)[0] == k[0];
    assert |h| > 1 ==> (h + x)[1] == h[1];
    assert |k| > 1 ==> (k + y)[1] == k[1];
    assert h == (h + x)[..|h|] && k == (k + y)[..|k|];
    assert x == (h + x)[|h|..] && y == (k + y)[|k|..];
    if !Paired(s) && !Paired(t) {
      EscapeUnitInjective(s[0], t[0]);
    }
  }

  /** An escaped string, its closing quote, and what follows. */
  function Closed(s: Str, x: Str): Str {
    Escape(s) + ([QUOTE] + x)
  }

  lemma ClosedStep(s: Str, x: Str)
    ensures s == [] ==> Closed(s, x) == [QUOTE] + x
    ensures s != [] ==> Closed(s, x) == Head(s) + Closed(s[Width(s)..], x)
    ensures Closed(s, x)[0] == QUOTE <==> s == []
  {
    hide Head, EscapeUnit;
    if s != [] {
      HeadLength(s);
    }
  }

  /** The closing quote ends a printed string, so what follows it is determined too. */
  lemma {:induction false} ClosedUnique(s: Str, t: Str, x: Str, y: Str)
    requires Closed(s, x) == Closed(t, y)
    ensures s == t && x == y
  {
    ClosedStep(s, x);
    ClosedStep(t, y);
    if s == [] {
      assert x == Closed(s, x)[1..] && y == Closed(t, y)[1..];
    } else {
      var p, q := s[Width(s)..], t[Width(t)..];
      HeadUnique(s, t, Closed(p, x), Closed(q, y));
      ClosedUnique(p, q, x, y);
      assert s == s[..Width(s)] + p && t == t[..Width(t)] + q;
    }
  }

  lemma QuoteUnique(s: Str, t: Str, x: Str, y: Str)
    requires Quote(s) + x == Quote(t) + y
    ensures s == t && x == y
  {
    assert Quote(s) + x == [QUOTE] + Closed(s, x) && Quote(t) + y == [QUOTE] + Closed(t, y);
    assert Closed(s, x) == ([QUOTE] + Closed(s, x))[1..] && Closed(t, y) == ([QUOTE] + Closed(t, y))[1..];
    ClosedUnique(s, t, x, y);
  }

  /** Text an encoder can take as it is: well-formed, with no control unit in it. */
  predicate Clean(s: Str) {
    WellFormed(s) && forall i | 0 <= i < |s| :: s[i] >= 0x20
  }

  lemma CleanConcat(s: Str, t: Str)
    requires Clean(s) && Clean(t)
    ensures Clean(s + t)
  {
    Utf8Concat(s, t);
  }

  lemma HeadClean(s: Str)
    requires s != []
    ensures Clean(Head(s))
  {
    var h := Head(s);
    if Paired(s) {
      assert Paired(h) && h[2..] == [];
    } else if |h| == 1 {
      assert h[1..] == [];
    } else {
      Utf8Ascii(h);
    }
  }

  lemma {:induction false} EscapeClean(s: Str)
    ensures Clean(Escape(s))
  {
    if s != [] {
      HeadClean(s);
      EscapeClean(s[Width(s)..]);
      CleanConcat(Head(s), Escape(s[Width(s)..]));
    }
  }

  lemma {:induction false} QuoteClean(s: Str)
    ensures Clean(Quote(s))
  {
    EscapeClean(s);
    Utf8Ascii([QUOTE]);
    CleanConcat([QUOTE], Escape(s));
    CleanConcat([QUOTE] + Escape(s), [QUOTE]);
  }

  /** A string of plain ASCII prints as itself between quotes. */
  lemma {:induction false} PlainQuote(s: Str)
    requires forall i | 0 <= i < |s| :: 0x20 <= s[i] < 0x80 && s[i] != QUOTE && s[i] != BACKSLASH
    ensures Escape(s) == s
  {
    if s != [] {
      PlainQuote(s[1..]);
      assert s == [s[0]] + s[1..];
    }
  }
}
