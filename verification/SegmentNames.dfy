/** Which ledger and which file a record goes to. */
module SegmentNames {
  import opened Text
  import opened Verify

  datatype Ledger = Approvals | Grants | Plugins | OwnActions

  function LedgerForAction(action: Str): Ledger {
    if Lit("approval.") <= action then Approvals
    else if Lit("capability.") <= action || Lit("token.") <= action then Grants
    else if Lit("plugin.") <= action then Plugins
    else OwnActions
  }

  ghost predicate StartsAs(action: Str, prefix: Str) {
    exists rest: Str :: action == prefix + rest
  }

  lemma PrefixIs(action: Str, prefix: Str)
    ensures prefix <= action <==> StartsAs(action, prefix)
  {
    if prefix <= action {
      assert action == prefix + action[|prefix|..];
    }
  }

  /** Each ledger takes exactly the actions of its own families, and the last one takes the rest. */
  lemma LedgerExact(action: Str)
    ensures LedgerForAction(action) == Approvals <==> StartsAs(action, Lit("approval."))
    ensures LedgerForAction(action) == Grants <==> StartsAs(action, Lit("capability.")) || StartsAs(action, Lit("token."))
    ensures LedgerForAction(action) == Plugins <==> StartsAs(action, Lit("plugin."))
  {
    hide StartsAs;
    PrefixIs(action, Lit("approval."));
    PrefixIs(action, Lit("capability."));
    PrefixIs(action, Lit("token."));
    PrefixIs(action, Lit("plugin."));
    assert Lit("approval.") <= action ==> action[0] == 0x61;
    assert Lit("capability.") <= action ==> action[0] == 0x63;
    assert Lit("token.") <= action ==> action[0] == 0x74;
    assert Lit("plugin.") <= action ==> action[0] == 0x70;
  }

  function LedgerName(l: Ledger): Str {
    match l
    case Approvals => Lit("approvals")
    case Grants => Lit("grants")
    case Plugins => Lit("plugins")
    case OwnActions => Lit("own-actions")
  }

  // ---- the period

  /** A UTC month. A Date reaches the year 275760. */
  datatype YearMonth = YearMonth(year: nat, month: nat) {
    predicate Valid() { year < 1_000_000 && 1 <= month <= 12 }
  }

  function PadStart(t: Str, width: nat): Str
    decreases width - |t|
  {
    if |t| >= width then t else PadStart([Digit(0)] + t, width)
  }

  /** The first seven characters of the ISO form, which spells a year past 9999 with a sign and six digits. */
  function Period(ym: YearMonth): Str {
    if ym.year <= 9999 then PadStart(NatText(ym.year), 4) + (Lit("-") + PadStart(NatText(ym.month), 2))
    else Lit("+") + PadStart(NatText(ym.year), 6)
  }

  function DigitsValue(t: Str): int {
    if t == [] then 0 else DigitsValue(t[..|t| - 1]) * 10 + (t[|t| - 1] as int - 0x30)
  }

  predicate AllDigits(t: Str) {
    forall i | 0 <= i < |t| :: 0x30 <= t[i] < 0x3A
  }

  lemma {:induction false} NatTextValue(n: nat)
    ensures DigitsValue(NatText(n)) == n && AllDigits(NatText(n))
  {
    if n < 10 {
      assert NatText(n)[..0] == [];
    } else {
      NatTextValue(n / 10);
      assert NatText(n)[..|NatText(n)| - 1] == NatText(n / 10);
    }
  }

  lemma {:induction false} LeadingZero(t: Str)
    ensures DigitsValue([Digit(0)] + t) == DigitsValue(t)
  {
    var z := [Digit(0)] + t;
    if t == [] {
      assert z[..0] == [];
    } else {
      LeadingZero(t[..|t| - 1]);
      assert z[..|z| - 1] == [Digit(0)] + t[..|t| - 1];
    }
  }

  lemma {:induction false} PadStartValue(t: Str, width: nat)
    requires AllDigits(t)
    ensures DigitsValue(PadStart(t, width)) == DigitsValue(t) && AllDigits(PadStart(t, width))
    ensures |PadStart(t, width)| == if |t| >= width then |t| else width
    decreases width - |t|
  {
    if |t| < width {
      LeadingZero(t);
      PadStartValue([Digit(0)] + t, width);
    }
  }

  function Pow10(k: nat): nat {
    if k == 0 then 1 else 10 * Pow10(k - 1)
  }

  lemma {:induction false} NatTextLength(n: nat, k: nat, bound: nat)
    requires k > 0 && bound == Pow10(k) && n < bound
    ensures |NatText(n)| <= k
    decreases k
  {
    if n >= 10 {
      NatTextLength(n / 10, k - 1, Pow10(k - 1));
    }
  }

  lemma CountTextShort(n: nat)
    requires ExactCount(n)
    ensures |NatText(n)| <= 16 && AllDigits(NatText(n))
  {
    assert Pow10(16) == 1_0000_0000_0000_0000 by {
      assert Pow10(4) == 1_0000;
      assert Pow10(8) == 1_0000_0000;
      assert Pow10(12) == 1_0000_0000_0000;
    }
    NatTextLength(n, 16, Pow10(16));
    NatTextValue(n);
  }

  const DOT: unit := 0x2E

  predicate Dotless(s: Str) { Free(s, DOT) }

  lemma NumberPart(n: nat, width: nat)
    requires 0 < width && n < Pow10(width)
    ensures var t := PadStart(NatText(n), width); |t| == width && AllDigits(t) && DigitsValue(t) == n
  {
    hide PadStart, NatText, DigitsValue;
    NatTextValue(n);
    NatTextLength(n, width, Pow10(width));
    PadStartValue(NatText(n), width);
  }

  /** A period is four digits of the year, a dash and two of the month; past 9999 a plus sign and six digits of the year. */
  lemma PeriodShape(a: YearMonth)
    requires a.Valid()
    ensures |Period(a)| == 7 && Dotless(Period(a))
    ensures Period(a)[0] == 0x2B <==> a.year > 9999
    ensures a.year <= 9999 ==> AllDigits(Period(a)[..4]) && Period(a)[4] == 0x2D && AllDigits(Period(a)[5..])
    ensures a.year <= 9999 ==> DigitsValue(Period(a)[..4]) == a.year && DigitsValue(Period(a)[5..]) == a.month
    ensures a.year > 9999 ==> AllDigits(Period(a)[1..]) && DigitsValue(Period(a)[1..]) == a.year
  {
    hide PadStart, NatText, DigitsValue;
    if a.year <= 9999 {
      NumberPart(a.year, 4);
      NumberPart(a.month, 2);
      var y, m := PadStart(NatText(a.year), 4), PadStart(NatText(a.month), 2);
      assert Period(a) == y + ([0x2D] + m) && Lit("-") == [0x2D];
      assert Period(a)[..4] == y && Period(a)[5..] == m && Period(a)[0] == y[0];
      assert forall i | 0 <= i < 7 :: Period(a)[i] == if i < 4 then y[i] else if i == 4 then 0x2D else m[i - 5];
    } else {
      NumberPart(a.year, 6);
      assert Lit("+") == [0x2B];
      assert Period(a)[1..] == PadStart(NatText(a.year), 6);
    }
  }

  /** Two times share a period exactly when they share a month, or a year past 9999: there the month is cut off. */
  lemma PeriodExact(a: YearMonth, b: YearMonth)
    requires a.Valid() && b.Valid()
    ensures Period(a) == Period(b) <==> a.year == b.year && (a.month == b.month || a.year > 9999)
  {
    PeriodShape(a);
    PeriodShape(b);
    var s, t := Period(a), Period(b);
    if s == t && a.year <= 9999 {
      assert s[..4] == t[..4] && s[5..] == t[5..];
    } else if s == t {
      assert s[1..] == t[1..];
    }
  }

  // ---- the name

  /** A unit of a boot id as a file name keeps it. */
  predicate Safe(u: unit) {
    0x41 <= u <= 0x5A || 0x61 <= u <= 0x7A || 0x30 <= u <= 0x39 || u == 0x5F || u == 0x2D
  }

  function ReplaceUnsafe(s: Str): (r: Str)
    ensures |r| == |s| && forall i | 0 <= i < |r| :: Safe(r[i]) && r[i] == if Safe(s[i]) then s[i] else 0x5F
  {
    if s == [] then [] else [if Safe(s[0]) then s[0] else 0x5F] + ReplaceUnsafe(s[1..])
  }

  function SafeBootId(value: Str): (r: Str)
    ensures 1 <= |r| <= 64 && Dotless(r) && forall i | 0 <= i < |r| :: Safe(r[i])
  {
    var replaced := ReplaceUnsafe(value);
    var cut := if |replaced| > 64 then replaced[..64] else replaced;
    if cut == [] then Lit("unknown") else cut
  }

  /** A boot id keeps its safe units where they were, up to 64, with an underscore for each other, and stays as it is exactly
      when it was a safe name. */
  lemma SafeBootIdExact(value: Str)
    ensures SafeBootId(value) == value <==> 1 <= |value| <= 64 && forall i | 0 <= i < |value| :: Safe(value[i])
    ensures value != [] ==> |SafeBootId(value)| == if |value| > 64 then 64 else |value|
    ensures forall i | 0 <= i < |value| && i < 64 :: SafeBootId(value)[i] == if Safe(value[i]) then value[i] else 0x5F
    ensures SafeBootId([]) == Lit("unknown")
  {
    var r := SafeBootId(value);
    assert value != [] ==> forall i | 0 <= i < |r| :: r[i] == ReplaceUnsafe(value)[i];
  }

  function SequencePart(sequence: nat): Str {
    if sequence == 0 then [] else [DOT] + PadStart(NatText(sequence), 4)
  }

  function Jsonl(): Str { Lit(".jsonl") }

  function SegmentPath(ledger: Ledger, period: Str, boot: Str, sequence: nat): Str {
    LedgerName(ledger) + ([DOT] + (period + ([DOT] + (boot + (SequencePart(sequence) + Jsonl())))))
  }

  /** What stands after the dot that ends the boot id: the sequence and suffix, or the suffix alone. */
  function AfterBoot(sequence: nat): Str {
    if sequence == 0 then Jsonl()[1..] else PadStart(NatText(sequence), 4) + ([DOT] + Jsonl()[1..])
  }

  lemma SequenceText(n: nat)
    ensures var t := PadStart(NatText(n), 4); t != [] && t[0] < 0x3A && Dotless(t) && DigitsValue(t) == n
  {
    hide PadStart, NatText, DigitsValue;
    NatTextValue(n);
    PadStartValue(NatText(n), 4);
  }

  lemma JsonlSplit()
    ensures Jsonl() == [DOT] + Jsonl()[1..] && Jsonl()[1..][0] == 0x6A
  {
  }

  lemma AfterBootExact(m: nat, n: nat)
    ensures SequencePart(m) + Jsonl() == [DOT] + AfterBoot(m)
    ensures AfterBoot(m) == AfterBoot(n) ==> m == n
  {
    hide NatText, DigitsValue, PadStart, Free, Jsonl;
    SequenceText(m);
    SequenceText(n);
    JsonlSplit();
    if m > 0 && n > 0 && AfterBoot(m) == AfterBoot(n) {
      FirstSeparator(DOT, PadStart(NatText(m), 4), Jsonl()[1..], PadStart(NatText(n), 4), Jsonl()[1..]);
    } else {
      assert m > 0 ==> AfterBoot(m)[0] == PadStart(NatText(m), 4)[0];
      assert n > 0 ==> AfterBoot(n)[0] == PadStart(NatText(n), 4)[0];
    }
  }

  lemma LedgerNameExact(k: Ledger, l: Ledger)
    ensures LedgerName(k) == LedgerName(l) <==> k == l
    ensures Dotless(LedgerName(k))
  {
    assert LedgerName(k)[0] == LedgerName(l)[0] <==> k == l;
  }

  /** A segment's name tells its ledger, period, boot and sequence. */
  lemma SegmentPathInjective(k: Ledger, s: Str, b: Str, m: nat, l: Ledger, t: Str, c: Str, n: nat)
    requires Dotless(s) && Dotless(t) && Dotless(b) && Dotless(c)
    requires SegmentPath(k, s, b, m) == SegmentPath(l, t, c, n)
    ensures k == l && s == t && b == c && m == n
  {
    LedgerNameExact(k, l);
    LedgerNameExact(l, k);
    AfterBootExact(m, n);
    AfterBootExact(n, m);
    FirstSeparator(DOT, LedgerName(k), s + ([DOT] + (b + ([DOT] + AfterBoot(m)))), LedgerName(l), t + ([DOT] + (c + ([DOT] + AfterBoot(n)))));
    FirstSeparator(DOT, s, b + ([DOT] + AfterBoot(m)), t, c + ([DOT] + AfterBoot(n)));
    FirstSeparator(DOT, b, AfterBoot(m), c, AfterBoot(n));
  }

  // ---- the files beside a segment

  function IntegritySuffix(): Str { Lit(".integrity.json") }

  function PartialSuffix(): Str { Lit(".partial") }

  function CheckpointPath(path: Str): Str { path + IntegritySuffix() }

  function PartialPath(path: Str): Str { CheckpointPath(path) + PartialSuffix() }

  predicate IsSegmentPath(path: Str) {
    |path| >= 2 && path[|path| - 2..] == Lit("nl")
  }

  lemma SegmentPathIs(l: Ledger, period: Str, boot: Str, sequence: nat)
    ensures IsSegmentPath(SegmentPath(l, period, boot, sequence))
  {
    var front := LedgerName(l) + ([DOT] + (period + ([DOT] + (boot + SequencePart(sequence)))));
    assert SegmentPath(l, period, boot, sequence) == front + Jsonl();
    assert Jsonl()[4..] == Lit("nl");
    assert (front + Jsonl())[|front| + 4..] == Jsonl()[4..];
  }

  /** Segments, checkpoints and partial checkpoints never share a path. */
  lemma PathKinds(s: Str, t: Str)
    ensures CheckpointPath(s) == CheckpointPath(t) ==> s == t
    ensures PartialPath(s) == PartialPath(t) ==> s == t
    ensures CheckpointPath(s) != PartialPath(t)
    ensures IsSegmentPath(s) ==> s != CheckpointPath(t) && s != PartialPath(t)
  {
    var c, d, e := CheckpointPath(t), PartialPath(t), CheckpointPath(s);
    assert c[|c| - 1] == IntegritySuffix()[14] && d[|d| - 2] == PartialSuffix()[6] && d[|d| - 1] == PartialSuffix()[7];
    assert e[|e| - 1] == IntegritySuffix()[14];
    assert IsSegmentPath(s) ==> s[|s| - 1] == s[|s| - 2..][1] && s[|s| - 2] == s[|s| - 2..][0];
    assert e[..|s|] == s && c[..|t|] == t;
    assert PartialPath(s)[..|e|] == e && d[..|c|] == c;
  }
}
