/** JSON Pointers as verdicts print them (RFC 6901). */
module Pointers {
  import opened Text

  const TILDE: unit := 0x7E
  const SLASH: unit := 0x2F
  const ZERO: unit := 0x30
  const ONE: unit := 0x31

  /** `s.replaceAll(u, t)` for a single unit. */
  function ReplaceUnit(s: Str, u: unit, t: Str): Str {
    if s == [] then [] else (if s[0] == u then t else [s[0]]) + ReplaceUnit(s[1..], u, t)
  }

  /** `s.replaceAll("ab", t)` for a pattern of two units, left to right. */
  function ReplacePair(s: Str, a: unit, b: unit, t: Str): Str
    decreases |s|
  {
    if s == [] then []
    else if |s| > 1 && s[0] == a && s[1] == b then t + ReplacePair(s[2..], a, b, t)
    else [s[0]] + ReplacePair(s[1..], a, b, t)
  }

  function Escaped(s: Str): Str {
    ReplaceUnit(ReplaceUnit(s, TILDE, [TILDE, ZERO]), SLASH, [TILDE, ONE])
  }

  /** Section 4: first `~1`, then `~0`. */
  function Unescaped(s: Str): Str {
    ReplacePair(ReplacePair(s, TILDE, ONE, [SLASH]), TILDE, ZERO, [TILDE])
  }

  /** `pointer`. */
  function Pointer(segments: seq<Str>): Str {
    if segments == [] then [] else [SLASH] + (Escaped(segments[0]) + Pointer(segments[1..]))
  }

  /** Every tilde is followed by a zero. */
  predicate TildeZero(s: Str)
    decreases |s|
  {
    s == [] || (if s[0] == TILDE then |s| > 1 && s[1] == ZERO && TildeZero(s[2..]) else TildeZero(s[1..]))
  }

  lemma {:induction false} TildesEscaped(s: Str)
    ensures TildeZero(ReplaceUnit(s, TILDE, [TILDE, ZERO]))
    ensures ReplacePair(ReplaceUnit(s, TILDE, [TILDE, ZERO]), TILDE, ZERO, [TILDE]) == s
  {
    if s != [] {
      TildesEscaped(s[1..]);
      var x, y := ReplaceUnit(s, TILDE, [TILDE, ZERO]), ReplaceUnit(s[1..], TILDE, [TILDE, ZERO]);
      assert s == [s[0]] + s[1..];
      if s[0] == TILDE {
        assert x[2..] == y;
      } else {
        assert x[1..] == y;
      }
    }
  }

  lemma {:induction false} SlashesEscaped(x: Str)
    requires TildeZero(x)
    ensures ReplacePair(ReplaceUnit(x, SLASH, [TILDE, ONE]), TILDE, ONE, [SLASH]) == x
    decreases |x|
  {
    if x != [] {
      var r := ReplaceUnit(x, SLASH, [TILDE, ONE]);
      assert x == [x[0]] + x[1..];
      if x[0] == TILDE {
        SlashesEscaped(x[2..]);
        var y := ReplaceUnit(x[2..], SLASH, [TILDE, ONE]);
        assert x[1..] == [ZERO] + x[2..] && x[1..][1..] == x[2..];
        assert ReplaceUnit(x[1..], SLASH, [TILDE, ONE]) == [ZERO] + y;
        assert r == [TILDE] + ([ZERO] + y) && r[1..] == [ZERO] + y && ([ZERO] + y)[1..] == y;
        assert ReplacePair([ZERO] + y, TILDE, ONE, [SLASH]) == [ZERO] + ReplacePair(y, TILDE, ONE, [SLASH]);
      } else {
        SlashesEscaped(x[1..]);
        var y := ReplaceUnit(x[1..], SLASH, [TILDE, ONE]);
        if x[0] == SLASH {
          assert r[2..] == y;
        } else {
          assert r[1..] == y;
        }
      }
    }
  }

  lemma {:induction false} NoSlash(s: Str)
    ensures forall i | 0 <= i < |ReplaceUnit(s, SLASH, [TILDE, ONE])| :: ReplaceUnit(s, SLASH, [TILDE, ONE])[i] != SLASH
  {
    if s != [] {
      NoSlash(s[1..]);
    }
  }

  /** Unescaping undoes escaping, and an escaped segment holds no slash. */
  lemma UnescapeEscape(s: Str)
    ensures Unescaped(Escaped(s)) == s && forall i | 0 <= i < |Escaped(s)| :: Escaped(s)[i] != SLASH
  {
    TildesEscaped(s);
    SlashesEscaped(ReplaceUnit(s, TILDE, [TILDE, ZERO]));
    NoSlash(ReplaceUnit(s, TILDE, [TILDE, ZERO]));
  }

  /** How many units come before the next slash. */
  function ToSlash(s: Str): (n: nat)
    ensures n <= |s| && (n < |s| ==> s[n] == SLASH) && forall i | 0 <= i < n :: s[i] != SLASH
  {
    if s == [] || s[0] == SLASH then 0 else 1 + ToSlash(s[1..])
  }

  /** A reader of pointers: reference tokens between slashes, unescaped. None for a text that is no pointer. */
  function ParsePointer(s: Str): Option<seq<Str>>
    decreases |s|
  {
    if s == [] then Some([])
    else if s[0] != SLASH then None
    else
      var n := ToSlash(s[1..]);
      var rest := ParsePointer(s[1..][n..]);
      if rest.None? then None else Some([Unescaped(s[1..][..n])] + rest.value)
  }

  lemma StopsAt(e: Str, p: Str)
    requires (forall i | 0 <= i < |e| :: e[i] != SLASH) && (p == [] || p[0] == SLASH)
    ensures ToSlash(e + p) == |e|
  {
    var n := ToSlash(e + p);
    assert forall i | 0 <= i < |e| :: (e + p)[i] == e[i];
    assert p != [] ==> (e + p)[|e|] == p[0];
  }

  /** Reading a printed pointer gives its segments back, so printing is injective on segment lists. */
  lemma {:induction false} ParsePrinted(segments: seq<Str>)
    ensures ParsePointer(Pointer(segments)) == Some(segments)
  {
    if segments != [] {
      hide Escaped, Unescaped;
      ParsePrinted(segments[1..]);
      UnescapeEscape(segments[0]);
      var e, p := Escaped(segments[0]), Pointer(segments[1..]);
      var s := Pointer(segments);
      assert s[1..] == e + p;
      StopsAt(e, p);
      assert (e + p)[..|e|] == e && (e + p)[|e|..] == p;
      assert segments == [segments[0]] + segments[1..];
    }
  }

  lemma PointerInjective(a: seq<Str>, b: seq<Str>)
    requires Pointer(a) == Pointer(b)
    ensures a == b
  {
    ParsePrinted(a);
    ParsePrinted(b);
  }
}
