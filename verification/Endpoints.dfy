/** Pipe scopes: FNV-1a over the canonical data root, and the endpoint names built from it. */
module Endpoints {
  import opened Text
  import opened Verify
  import opened VerifyLaws
  import opened SegmentNames

  const FNV_OFFSET: nat := 0xcbf29ce484222325
  const FNV_PRIME: nat := 0x100000001b3
  const TWO_64: nat := 0x1_0000_0000_0000_0000
  /** The inverse of the prime modulo 2^64. */
  const FNV_INVERSE: nat := 0xce965057aff6957b

  type State = n: nat | n < TWO_64

  // ---- one step

  /** Exclusive or of the low `bits` bits, bit by bit. */
  function XorBits(a: nat, b: nat, bits: nat): (r: nat) {
    if bits == 0 then 0 else 2 * XorBits(a / 2, b / 2, bits - 1) + (if a % 2 == b % 2 then 0 else 1)
  }

  function Pow2(k: nat): nat { if k == 0 then 1 else 2 * Pow2(k - 1) }

  lemma {:induction false} XorBitsTwice(a: nat, b: nat, bits: nat)
    requires a < Pow2(bits)
    ensures XorBits(a, b, bits) < Pow2(bits) && XorBits(XorBits(a, b, bits), b, bits) == a
  {
    if bits > 0 {
      var half := XorBits(a / 2, b / 2, bits - 1);
      var r := XorBits(a, b, bits);
      XorBitsTwice(a / 2, b / 2, bits - 1);
      assert r / 2 == half && (r % 2 == 0 <==> a % 2 == b % 2);
    }
  }

  lemma {:induction false} XorBitsCommutes(a: nat, b: nat, bits: nat)
    ensures XorBits(a, b, bits) == XorBits(b, a, bits)
  {
    if bits > 0 {
      XorBitsCommutes(a / 2, b / 2, bits - 1);
    }
  }

  lemma Pow2Of8()
    ensures Pow2(8) == 256
  {
    assert Pow2(4) == 16;
  }

  function XorBytes(a: byte, b: byte): byte {
    Pow2Of8();
    XorBitsTwice(a, b, 8);
    XorBits(a, b, 8)
  }

  /** `hash ^ byte`: only the low eight bits change. */
  function XorLow(h: State, b: byte): State {
    h - h % 256 + XorBytes(h % 256, b)
  }

  /** `(hash * FNV_PRIME) & MASK_64`. */
  function Multiply(h: State): State {
    (h * FNV_PRIME) % TWO_64
  }

  function Step(h: State, b: byte): State {
    Multiply(XorLow(h, b))
  }

  /** The state before a step. */
  function StepBack(h: State, b: byte): State {
    XorLow((h * FNV_INVERSE) % TWO_64, b)
  }

  lemma XorTwice(a: byte, b: byte)
    ensures XorBytes(XorBytes(a, b), b) == a
  {
    Pow2Of8();
    XorBitsTwice(a, b, 8);
  }

  lemma XorLowTwice(h: State, b: byte)
    ensures XorLow(XorLow(h, b), b) == h
  {
    XorTwice(h % 256, b);
    var q := h / 256;
    assert h == 256 * q + h % 256;
    assert XorLow(h, b) == 256 * q + XorBytes(h % 256, b);
    assert XorLow(h, b) % 256 == XorBytes(h % 256, b);
  }

  lemma ModOf(z: int, h: State)
    ensures (TWO_64 * z + h) % TWO_64 == h
  {
  }

  /** FNV_PRIME * FNV_INVERSE is 1 more than this many times 2^64. */
  const FNV_QUOTIENT: nat := 887285111055

  lemma MultiplyBack(h: State)
    ensures (Multiply(h) * FNV_INVERSE) % TWO_64 == h
    ensures Multiply((h * FNV_INVERSE) % TWO_64) == h
  {
    assert FNV_PRIME * FNV_INVERSE == TWO_64 * FNV_QUOTIENT + 1;
    var q := h * FNV_PRIME / TWO_64;
    ModOf(h * FNV_QUOTIENT - q * FNV_INVERSE, h);
    var r := h * FNV_INVERSE / TWO_64;
    ModOf(h * FNV_QUOTIENT - r * FNV_PRIME, h);
  }

  /** Each byte's step is a bijection on the 64-bit states. */
  lemma StepBijective(h: State, b: byte)
    ensures StepBack(Step(h, b), b) == h && Step(StepBack(h, b), b) == h
  {
    XorLowTwice(h, b);
    MultiplyBack(XorLow(h, b));
    MultiplyBack(h);
    XorLowTwice((h * FNV_INVERSE) % TWO_64, b);
  }

  lemma XorCommutes(a: byte, b: byte)
    ensures XorBytes(a, b) == XorBytes(b, a)
  {
    XorBitsCommutes(a, b, 8);
  }

  /** Two bytes take one state to different states. */
  lemma StepTellsBytes(h: State, b: byte, c: byte)
    requires Step(h, b) == Step(h, c)
    ensures b == c
  {
    MultiplyBack(XorLow(h, b));
    MultiplyBack(XorLow(h, c));
    var a := h % 256;
    assert XorBytes(a, b) == XorBytes(a, c);
    XorTwice(b, a);
    XorTwice(c, a);
    XorCommutes(a, b);
    XorCommutes(a, c);
  }

  function Bit(n: nat, k: nat): (b: nat)
    ensures b < 2
  {
    if k == 0 then n % 2 else Bit(n / 2, k - 1)
  }

  lemma {:induction false} SameBits(x: nat, y: nat, n: nat)
    requires x < Pow2(n) && y < Pow2(n) && forall k: nat | k < n :: Bit(x, k) == Bit(y, k)
    ensures x == y
  {
    if n > 0 {
      forall k: nat | k < n - 1 ensures Bit(x / 2, k) == Bit(y / 2, k) {
        assert Bit(x, k + 1) == Bit(y, k + 1);
      }
      SameBits(x / 2, y / 2, n - 1);
      assert Bit(x, 0) == Bit(y, 0);
    }
  }

  lemma {:induction false} XorBitsAt(a: nat, b: nat, n: nat, k: nat)
    requires k < n
    ensures Bit(XorBits(a, b, n), k) == (Bit(a, k) + Bit(b, k)) % 2
  {
    var half, odd := XorBits(a / 2, b / 2, n - 1), (a % 2 + b % 2) % 2;
    assert XorBits(a, b, n) == 2 * half + odd && (2 * half + odd) / 2 == half && (2 * half + odd) % 2 == odd;
    hide XorBits;
    if k > 0 {
      XorBitsAt(a / 2, b / 2, n - 1, k - 1);
    }
  }

  lemma Doubled(q: nat, p: nat)
    ensures q * (2 * p) == 2 * (q * p)
  {
  }

  lemma {:induction false} BitsOfSum(q: nat, r: nat, m: nat, k: nat)
    requires r < Pow2(m)
    ensures Bit(q * Pow2(m) + r, k) == if k < m then Bit(r, k) else Bit(q, k - m)
  {
    if m > 0 {
      var p, n := q * Pow2(m - 1), q * Pow2(m) + r;
      Doubled(q, Pow2(m - 1));
      assert n == 2 * p + r && n / 2 == p + r / 2 && n % 2 == r % 2;
      if k > 0 {
        hide Pow2;
        BitsOfSum(q, r / 2, m - 1, k - 1);
      }
    }
  }

  lemma {:induction false} Pow2Sum(m: nat, n: nat)
    ensures Pow2(m + n) == Pow2(m) * Pow2(n)
  {
    if m > 0 {
      Pow2Sum(m - 1, n);
      assert 2 * (Pow2(m - 1) * Pow2(n)) == 2 * Pow2(m - 1) * Pow2(n);
    }
  }

  lemma Pow2Of64()
    ensures Pow2(64) == TWO_64
  {
    hide Pow2;
    Pow2Of8();
    Pow2Sum(8, 8);
    Pow2Sum(16, 16);
    Pow2Sum(32, 32);
  }

  lemma {:induction false} NoBits(k: nat)
    ensures Bit(0, k) == 0
  {
    if k > 0 {
      NoBits(k - 1);
    }
  }

  lemma XorLowParts(h: State, b: byte) returns (q: nat, r: byte, x: byte)
    ensures x == XorBits(r, b, 8) && h == q * 256 + r && XorLow(h, b) == q * 256 + x
  {
    q, r := h / 256, h % 256;
    x := XorBytes(r, b);
  }

  lemma XorLowAt(h: State, b: byte, k: nat)
    requires k < 64
    ensures Bit(XorLow(h, b), k) == (Bit(h, k) + Bit(b, k)) % 2
  {
    hide Pow2, XorBits, Bit, XorLow;
    Pow2Of8();
    var q, r, x := XorLowParts(h, b);
    BitsOfSum(q, r, 8, k);
    BitsOfSum(0, b, 8, k);
    BitsOfSum(q, x, 8, k);
    if k < 8 {
      XorBitsAt(r, b, 8, k);
    } else {
      NoBits(k - 8);
    }
  }

  /** One step, from the bits: the state that differs from `h` exactly where the byte has a bit, times the 64-bit FNV prime. */
  lemma StepExact(h: State, b: byte, x: State)
    requires forall k: nat | k < 64 :: Bit(x, k) == (Bit(h, k) + Bit(b, k)) % 2
    ensures Step(h, b) == (x * 0x100000001b3) % 0x1_0000_0000_0000_0000
  {
    hide Bit, Pow2, XorLow;
    Pow2Of64();
    forall k: nat | k < 64 ensures Bit(x, k) == Bit(XorLow(h, b), k) {
      XorLowAt(h, b, k);
    }
    SameBits(x, XorLow(h, b), 64);
  }

  // ---- the hash

  /** The state after the bytes, from `h`. */
  function Hash(h: State, bytes: Bytes): State {
    if bytes == [] then h else Step(Hash(h, bytes[..|bytes| - 1]), bytes[|bytes| - 1])
  }

  method Fnv1a64(bytes: Bytes) returns (hash: State)
    ensures hash == Hash(FNV_OFFSET, bytes)
  {
    hash := FNV_OFFSET;
    for i := 0 to |bytes|
      invariant hash == Hash(FNV_OFFSET, bytes[..i])
    {
      hash := XorLow(hash, bytes[i]);
      hash := Multiply(hash);
      assert bytes[..i + 1][..i] == bytes[..i];
    }
    assert bytes[..|bytes|] == bytes;
  }

  lemma {:induction false} HashOfConcat(h: State, s: Bytes, t: Bytes)
    ensures Hash(h, s + t) == Hash(Hash(h, s), t)
  {
    if t == [] {
      assert s + t == s;
    } else {
      HashOfConcat(h, s, t[..|t| - 1]);
      assert (s + t)[..|s + t| - 1] == s + t[..|t| - 1];
    }
  }

  /** A common suffix never merges distinct states. */
  lemma {:induction false} SuffixKeepsApart(g: State, h: State, suffix: Bytes)
    requires Hash(g, suffix) == Hash(h, suffix)
    ensures g == h
  {
    if suffix != [] {
      var n := |suffix| - 1;
      StepBijective(Hash(g, suffix[..n]), suffix[n]);
      StepBijective(Hash(h, suffix[..n]), suffix[n]);
      SuffixKeepsApart(g, h, suffix[..n]);
    }
  }

  // ---- the scope

  function HexText(n: nat): (t: Str)
    ensures t != []
  {
    if n < 16 then [HexDigit(n)] else HexText(n / 16) + [HexDigit(n % 16)]
  }

  function HexValue(t: Str): int {
    if t == [] then 0
    else HexValue(t[..|t| - 1]) * 16 + (if t[|t| - 1] < 0x3A then t[|t| - 1] as int - 0x30 else t[|t| - 1] as int - 0x57)
  }

  function Scope(h: State): Str {
    PadStart(HexText(h), 16)
  }

  lemma {:induction false} HexTextValue(n: nat)
    ensures HexValue(HexText(n)) == n
  {
    if n < 16 {
      assert HexText(n)[..0] == [];
    } else {
      HexTextValue(n / 16);
      assert HexText(n)[..|HexText(n)| - 1] == HexText(n / 16);
    }
  }

  lemma {:induction false} HexLeadingZero(t: Str)
    ensures HexValue([Digit(0)] + t) == HexValue(t)
  {
    var z := [Digit(0)] + t;
    if t == [] {
      assert z[..0] == [];
    } else {
      HexLeadingZero(t[..|t| - 1]);
      assert z[..|z| - 1] == [Digit(0)] + t[..|t| - 1];
    }
  }

  lemma {:induction false} HexPadValue(t: Str, width: nat)
    ensures HexValue(PadStart(t, width)) == HexValue(t)
    ensures |PadStart(t, width)| == if |t| >= width then |t| else width
    decreases width - |t|
  {
    if |t| < width {
      HexLeadingZero(t);
      HexPadValue([Digit(0)] + t, width);
    }
  }

  function Pow16(k: nat): nat { if k == 0 then 1 else 16 * Pow16(k - 1) }

  lemma {:induction false} HexTextLength(n: nat, k: nat)
    requires k > 0 && n < Pow16(k)
    ensures |HexText(n)| <= k
  {
    if n >= 16 {
      HexTextLength(n / 16, k - 1);
    }
  }

  /** A scope is sixteen digits and tells the whole state. */
  lemma ScopeExact(g: State, h: State)
    ensures |Scope(g)| == 16
    ensures Scope(g) == Scope(h) ==> g == h
  {
    assert Pow16(16) == TWO_64 by {
      assert Pow16(4) == 0x1_0000;
      assert Pow16(8) == 0x1_0000_0000;
      assert Pow16(12) == 0x1_0000_0000_0000;
    }
    HexTextLength(g, 16);
    HexTextValue(g);
    HexTextValue(h);
    HexPadValue(HexText(g), 16);
    HexPadValue(HexText(h), 16);
  }

  /** Two byte strings that differ in exactly one byte always get different sixteen-digit scopes. */
  lemma OneByteApart(prefix: Bytes, b: byte, c: byte, suffix: Bytes)
    requires b != c
    ensures Scope(Hash(FNV_OFFSET, prefix + [b] + suffix)) != Scope(Hash(FNV_OFFSET, prefix + [c] + suffix))
  {
    var h := Hash(FNV_OFFSET, prefix);
    HashOfConcat(FNV_OFFSET, prefix + [b], suffix);
    HashOfConcat(FNV_OFFSET, prefix + [c], suffix);
    HashOfConcat(FNV_OFFSET, prefix, [b]);
    HashOfConcat(FNV_OFFSET, prefix, [c]);
    assert [b][..0] == [] && [c][..0] == [];
    var x, y := Hash(h, [b]), Hash(h, [c]);
    if Scope(Hash(x, suffix)) == Scope(Hash(y, suffix)) {
      ScopeExact(Hash(x, suffix), Hash(y, suffix));
      SuffixKeepsApart(x, y, suffix);
      StepTellsBytes(h, b, c);
    }
  }

  // ---- the canonical data root

  const SLASH: unit := 0x2F

  function Slashed(s: Str): (r: Str)
    ensures |r| == |s| && forall i | 0 <= i < |s| :: r[i] == if s[i] == 0x5C then SLASH else s[i]
  {
    if s == [] then [] else [if s[0] == 0x5C then SLASH else s[0]] + Slashed(s[1..])
  }

  function Stripped(s: Str): Str {
    if |s| > 1 && s[|s| - 1] == SLASH then Stripped(s[..|s| - 1]) else s
  }

  function FoldUnit(u: unit): unit {
    if 0x41 <= u <= 0x5A then u + 0x20 else u
  }

  function Folded(s: Str): (r: Str)
    ensures |r| == |s| && forall i | 0 <= i < |s| :: r[i] == FoldUnit(s[i])
  {
    if s == [] then [] else [FoldUnit(s[0])] + Folded(s[1..])
  }

  function CanonicalRoot(root: Str): Str {
    Folded(Stripped(Slashed(root)))
  }

  /** `canonicalDataRootForScope`: its two loops. */
  method CanonicalDataRootForScope(dataRoot: Str) returns (folded: Str)
    ensures folded == CanonicalRoot(dataRoot)
  {
    var out := Slashed(dataRoot);
    while |out| > 1 && out[|out| - 1] == SLASH
      invariant Stripped(out) == Stripped(Slashed(dataRoot))
      decreases |out|
    {
      out := out[..|out| - 1];
    }
    folded := [];
    for i := 0 to |out|
      invariant |folded| == i && forall j | 0 <= j < i :: folded[j] == FoldUnit(out[j])
    {
      folded := folded + [FoldUnit(out[i])];
    }
    assert folded == Folded(out);
  }

  /** What a canonical root is: no backslash, no upper-case ASCII letter, no slash at the end unless it is all there is. */
  predicate IsCanonicalRoot(s: Str) {
    (forall i | 0 <= i < |s| :: s[i] != 0x5C && !(0x41 <= s[i] <= 0x5A)) && (|s| > 1 ==> s[|s| - 1] != SLASH)
  }

  lemma {:induction false} StrippedIs(s: Str)
    ensures Stripped(s) <= s && (|Stripped(s)| > 1 ==> Stripped(s)[|Stripped(s)| - 1] != SLASH)
    ensures forall i | |Stripped(s)| <= i < |s| :: s[i] == SLASH
    ensures s != [] ==> Stripped(s) != []
  {
    if |s| > 1 && s[|s| - 1] == SLASH {
      StrippedIs(s[..|s| - 1]);
      assert forall i | 0 <= i < |s| - 1 :: s[i] == s[..|s| - 1][i];
    }
  }

  /** The canonical form is canonical, and canonical strings are its fixed points: it is idempotent. */
  lemma CanonicalRootExact(root: Str)
    ensures IsCanonicalRoot(CanonicalRoot(root))
    ensures CanonicalRoot(root) == root <==> IsCanonicalRoot(root)
  {
    StrippedIs(Slashed(root));
    if IsCanonicalRoot(root) {
      assert Slashed(root) == root && Stripped(root) == root && Folded(root) == root;
    }
  }

  predicate IsSlash(u: unit) {
    u == SLASH || u == 0x5C
  }

  /** An upper-case ASCII letter and the same in lower case. */
  predicate IsCase(u: unit, l: unit) {
    0x41 <= u <= 0x5A && l == u + 0x20
  }

  /** The same, but for ASCII case and the kind of slash. */
  predicate SameUnit(u: unit, v: unit) {
    u == v || (IsSlash(u) && IsSlash(v)) || IsCase(u, v) || IsCase(v, u)
  }

  predicate Respelled(a: Str, b: Str) {
    |a| == |b| && forall i | 0 <= i < |a| :: SameUnit(a[i], b[i])
  }

  /** Where a spelling ends but for slashes; of slashes alone, the first stays. */
  function BareLength(s: Str): (n: nat)
    ensures n <= |s|
  {
    if |s| > 1 && IsSlash(s[|s| - 1]) then BareLength(s[..|s| - 1]) else |s|
  }

  lemma {:induction false} StrippedBare(s: Str)
    ensures Stripped(Slashed(s)) == Slashed(s)[..BareLength(s)]
  {
    if |s| > 1 && IsSlash(s[|s| - 1]) {
      StrippedBare(s[..|s| - 1]);
      assert Slashed(s)[..|s| - 1] == Slashed(s[..|s| - 1]);
    }
  }

  function CanonicalUnit(u: unit): unit {
    FoldUnit(if u == 0x5C then SLASH else u)
  }

  lemma CanonicalUnits(s: Str)
    ensures var r, n := CanonicalRoot(s), BareLength(s); |r| == n && forall i | 0 <= i < n :: r[i] == CanonicalUnit(s[i])
  {
    hide Stripped, BareLength;
    StrippedBare(s);
  }

  lemma FoldSame(u: unit, v: unit)
    ensures CanonicalUnit(u) == CanonicalUnit(v) <==> SameUnit(u, v)
  {
  }

  /** Two spellings have one canonical form exactly when, their slashes at the end aside, they are apart in nothing but
      ASCII case and the kind of slash. */
  lemma SpellingsExact(a: Str, b: Str)
    ensures CanonicalRoot(a) == CanonicalRoot(b) <==> Respelled(a[..BareLength(a)], b[..BareLength(b)])
  {
    hide BareLength, FoldUnit, SameUnit;
    var u, v := a[..BareLength(a)], b[..BareLength(b)];
    var r, s := CanonicalRoot(a), CanonicalRoot(b);
    CanonicalUnits(a);
    CanonicalUnits(b);
    if |u| == |v| {
      forall i | 0 <= i < |u| ensures r[i] == s[i] <==> SameUnit(u[i], v[i]) {
        FoldSame(u[i], v[i]);
      }
    }
  }

  lemma {:induction false} SameBare(a: Str, b: Str)
    requires Respelled(a, b)
    ensures BareLength(a) == BareLength(b)
  {
    if |a| > 1 {
      assert SameUnit(a[|a| - 1], b[|b| - 1]);
      SameBare(a[..|a| - 1], b[..|b| - 1]);
    }
  }

  lemma OneMoreSlash(s: Str, u: unit)
    requires s != [] && IsSlash(u)
    ensures BareLength(s + [u]) == BareLength(s)
  {
    assert (s + [u])[..|s|] == s;
  }

  /** Two spellings of one directory, apart in ASCII case, in the kind of slash and in one more slash at the end, have
      one canonical form. */
  lemma SpellingsAgree(a: Str, b: Str)
    requires a != [] && Respelled(a, b)
    ensures CanonicalRoot(a) == CanonicalRoot(b) == CanonicalRoot(b + [SLASH]) == CanonicalRoot(b + [0x5C])
  {
    hide CanonicalRoot, BareLength, SameUnit;
    SameBare(a, b);
    OneMoreSlash(b, SLASH);
    OneMoreSlash(b, 0x5C);
    SpellingsExact(a, b);
    SpellingsExact(a, b + [SLASH]);
    SpellingsExact(a, b + [0x5C]);
    assert (b + [SLASH])[..BareLength(b)] == b[..BareLength(b)] == (b + [0x5C])[..BareLength(b)];
  }

  /** `pipeScope`. */
  function PipeScope(root: Str): Str {
    Scope(Hash(FNV_OFFSET, Utf8(CanonicalRoot(root))))
  }

  /** Two data roots whose canonical forms differ in exactly one byte always get different scopes. */
  lemma RootsOneByteApart(r: Str, s: Str, prefix: Bytes, b: byte, c: byte, suffix: Bytes)
    requires b != c && Utf8(CanonicalRoot(r)) == prefix + [b] + suffix && Utf8(CanonicalRoot(s)) == prefix + [c] + suffix
    ensures PipeScope(r) != PipeScope(s) && |PipeScope(r)| == |PipeScope(s)| == 16
  {
    OneByteApart(prefix, b, c, suffix);
    ScopeExact(Hash(FNV_OFFSET, prefix + [b] + suffix), Hash(FNV_OFFSET, prefix + [c] + suffix));
    ScopeExact(Hash(FNV_OFFSET, prefix + [c] + suffix), Hash(FNV_OFFSET, prefix + [b] + suffix));
  }

  // ---- names

  function Suffix(): Str { Lit(".sock") }

  function EndsWith(s: Str, t: Str): bool {
    |s| >= |t| && s[|s| - |t|..] == t
  }

  function BaseOf(socketFile: Str): Str
    requires EndsWith(socketFile, Suffix())
  {
    socketFile[..|socketFile| - 5]
  }

  /** `pipeEndpointFor`, or None where it throws. */
  function PipeEndpointFor(scope: Str, socketFile: Str): Option<Str> {
    if !EndsWith(socketFile, Suffix()) then None
    else Some(Lit("\\\\.\\pipe\\vibefield-") + (scope + (Lit("-") + BaseOf(socketFile))))
  }

  /** One endpoint has one scope and one socket name. */
  lemma EndpointExact(s: Str, f: Str, t: Str, g: Str)
    requires |s| == |t| == 16 && EndsWith(f, Suffix()) && EndsWith(g, Suffix())
    ensures PipeEndpointFor(s, f) == PipeEndpointFor(t, g) <==> s == t && f == g
  {
    var p := Lit("\\\\.\\pipe\\vibefield-");
    var x, y := p + (s + (Lit("-") + BaseOf(f))), p + (t + (Lit("-") + BaseOf(g)));
    assert f == BaseOf(f) + Suffix() && g == BaseOf(g) + Suffix();
    if x == y {
      assert s == x[|p|..|p| + 16] && t == y[|p|..|p| + 16];
      assert BaseOf(f) == x[|p| + 17..] && BaseOf(g) == y[|p| + 17..];
    }
  }

  /** `cellSocketFile`, or None where it throws. */
  function CellSocketFile(socketFile: Str, instance: int): Option<Str> {
    if !EndsWith(socketFile, Suffix()) || instance < 1 then None
    else Some(BaseOf(socketFile) + ([DOT] + (NatText(instance) + Suffix())))
  }

  lemma LastDot(s: Str, a: Str, t: Str, b: Str)
    requires AllDigits(a) && AllDigits(b) && s + ([DOT] + (a + Suffix())) == t + ([DOT] + (b + Suffix()))
    ensures s == t && a == b
  {
    var p, q := s + ([DOT] + a), t + ([DOT] + b);
    assert p + Suffix() == s + ([DOT] + (a + Suffix())) && q + Suffix() == t + ([DOT] + (b + Suffix()));
    SameLength(p, q, Suffix(), Suffix());
    LastSeparator(DOT, s, a, t, b);
  }

  /** A cell's name tells its socket and its instance, and is never the socket's own. */
  lemma CellExact(f: Str, m: int, g: Str, n: int)
    requires CellSocketFile(f, m).Some? && CellSocketFile(g, n).Some?
    ensures CellSocketFile(f, m) == CellSocketFile(g, n) <==> f == g && m == n
    ensures CellSocketFile(f, m).value != f
  {
    var a, b := NatText(m), NatText(n);
    var x, y := CellSocketFile(f, m).value, CellSocketFile(g, n).value;
    NatTextValue(m);
    NatTextValue(n);
    assert f == BaseOf(f) + Suffix() && g == BaseOf(g) + Suffix();
    assert |x| == |f| + 1 + |a|;
    if x == y {
      LastDot(BaseOf(f), a, BaseOf(g), b);
      NatTextInjective(m, n);
    }
  }
}
