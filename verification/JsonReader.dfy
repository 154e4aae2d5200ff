/** A reader of JSON text written from the grammar (sections 2 to 7 of RFC 8259), and what it makes of printed text. */
module JsonReader {
  import opened Text
  import opened JsonText
  import opened Json
  import opened Canonical

  const SOLIDUS: unit := 0x2F

  datatype Taken<+T> = Taken(value: T, rest: Str)

  // ---- strings

  /** The unit a backslash and one letter stand for. */
  function TwoUnitEscape(letter: unit): Option<unit> {
    match letter
    case 0x22 => Some(0x22)
    case 0x5C => Some(0x5C)
    case 0x2F => Some(0x2F)
    case 0x62 => Some(0x08)
    case 0x66 => Some(0x0C)
    case 0x6E => Some(0x0A)
    case 0x72 => Some(0x0D)
    case 0x74 => Some(0x09)
    case _ => None
  }

  function HexUnit(u: unit): Option<nat> {
    if 0x30 <= u <= 0x39 then Some(u - 0x30)
    else if 0x61 <= u <= 0x66 then Some(u - 0x61 + 10)
    else if 0x41 <= u <= 0x46 then Some(u - 0x41 + 10)
    else None
  }

  /** The value of four hex digits. */
  function FourHex(t: Str): Option<unit>
    requires |t| == 4
  {
    var a, b, c, d := HexUnit(t[0]), HexUnit(t[1]), HexUnit(t[2]), HexUnit(t[3]);
    if a.None? || b.None? || c.None? || d.None? then None
    else
      var n := a.value * 0x1000 + b.value * 0x100 + c.value * 0x10 + d.value;
      if n < 0x1_0000 then Some(n) else None
  }

  /** One character of a string: an escape, or a unit that stands for itself. */
  function ReadUnit(t: Str): (r: Option<Taken<unit>>)
    ensures r.Some? ==> |r.value.rest| < |t|
  {
    if t == [] || t[0] < 0x20 || t[0] == QUOTE then None
    else if t[0] != BACKSLASH then Some(Taken(t[0], t[1..]))
    else if |t| == 1 then None
    else if t[1] != 0x75 then
      if TwoUnitEscape(t[1]).None? then None else Some(Taken(TwoUnitEscape(t[1]).value, t[2..]))
    else if |t| < 6 || FourHex(t[2..6]).None? then None
    else Some(Taken(FourHex(t[2..6]).value, t[6..]))
  }

  /** The characters up to the closing quote. */
  function ReadChars(t: Str): (r: Option<Taken<Str>>)
    ensures r.Some? ==> |r.value.rest| < |t|
    decreases |t|
  {
    if t != [] && t[0] == QUOTE then Some(Taken([], t[1..]))
    else
      var first := ReadUnit(t);
      if first.None? then None
      else
        var others := ReadChars(first.value.rest);
        if others.None? then None else Some(Taken([first.value.value] + others.value.value, others.value.rest))
  }

  function ReadString(t: Str): (r: Option<Taken<Str>>)
    ensures r.Some? ==> |r.value.rest| < |t|
  {
    if t == [] || t[0] != QUOTE then None else ReadChars(t[1..])
  }

  // ---- values

  predicate IsWhite(u: unit) {
    u == 0x20 || u == 0x09 || u == 0x0A || u == 0x0D
  }

  function SkipWhite(t: Str): (r: Str)
    ensures |r| <= |t|
  {
    if t != [] && IsWhite(t[0]) then SkipWhite(t[1..]) else t
  }

  predicate NumberUnit(u: unit) {
    0x30 <= u <= 0x39 || u == 0x2B || u == 0x2D || u == 0x2E || u == 0x65 || u == 0x45
  }

  /** The longest run of the units numbers are made of. */
  function NumberRun(t: Str): (n: nat)
    ensures n <= |t|
  {
    if t != [] && NumberUnit(t[0]) then 1 + NumberRun(t[1..]) else 0
  }

  /** One value. `number` tells which runs are numbers. */
  function ReadValue(number: Str -> bool, text: Str): (r: Option<Taken<Json>>)
    ensures r.Some? ==> |r.value.rest| < |text|
    decreases |text|, 1
  {
    var t := SkipWhite(text);
    if t == [] then None
    else if t[0] == QUOTE then
      var s := ReadString(t);
      if s.None? then None else Some(Taken(String(s.value.value), s.value.rest))
    else if t[0] == 0x5B then
      var inner := SkipWhite(t[1..]);
      if inner != [] && inner[0] == 0x5D then Some(Taken(Arr([]), inner[1..]))
      else
        var items := ReadItems(number, inner);
        if items.None? then None else Some(Taken(Arr(items.value.value), items.value.rest))
    else if t[0] == 0x7B then
      var inner := SkipWhite(t[1..]);
      if inner != [] && inner[0] == 0x7D then Some(Taken(Obj([]), inner[1..]))
      else
        var members := ReadMembers(number, inner);
        if members.None? then None else Some(Taken(Obj(members.value.value), members.value.rest))
    else if Lit("true") <= t then Some(Taken(Bool(true), t[4..]))
    else if Lit("false") <= t then Some(Taken(Bool(false), t[5..]))
    else if Lit("null") <= t then Some(Taken(Null, t[4..]))
    else
      var n := NumberRun(t);
      if n == 0 || !number(t[..n]) then None else Some(Taken(Num(t[..n]), t[n..]))
  }

  /** One or more values between commas, and the closing bracket. */
  function ReadItems(number: Str -> bool, text: Str): (r: Option<Taken<seq<Json>>>)
    ensures r.Some? ==> |r.value.rest| < |text|
    decreases |text|, 2
  {
    var first := ReadValue(number, text);
    if first.None? then None
    else
      var t := SkipWhite(first.value.rest);
      if t == [] then None
      else if t[0] == 0x5D then Some(Taken([first.value.value], t[1..]))
      else if t[0] != 0x2C then None
      else
        var others := ReadItems(number, t[1..]);
        if others.None? then None else Some(Taken([first.value.value] + others.value.value, others.value.rest))
  }

  /** A key, a colon and a value. */
  function ReadMember(number: Str -> bool, text: Str): (r: Option<Taken<Keyed<Json>>>)
    ensures r.Some? ==> |r.value.rest| < |text|
    decreases |text|, 2
  {
    var key := ReadString(SkipWhite(text));
    if key.None? then None
    else
      var t := SkipWhite(key.value.rest);
      if t == [] || t[0] != 0x3A then None
      else
        var value := ReadValue(number, t[1..]);
        if value.None? then None else Some(Taken(Keyed(key.value.value, value.value.value), value.value.rest))
  }

  /** One or more members between commas, and the closing brace. */
  function ReadMembers(number: Str -> bool, text: Str): (r: Option<Taken<seq<Keyed<Json>>>>)
    ensures r.Some? ==> |r.value.rest| < |text|
    decreases |text|, 3
  {
    var first := ReadMember(number, text);
    if first.None? then None
    else
      var t := SkipWhite(first.value.rest);
      if t == [] then None
      else if t[0] == 0x7D then Some(Taken([first.value.value], t[1..]))
      else if t[0] != 0x2C then None
      else
        var others := ReadMembers(number, t[1..]);
        if others.None? then None else Some(Taken([first.value.value] + others.value.value, others.value.rest))
  }

  /** The value of a whole text, nothing but white space round it. */
  function ReadText(number: Str -> bool, text: Str): Option<Json> {
    var r := ReadValue(number, text);
    if r.None? || SkipWhite(r.value.rest) != [] then None else Some(r.value.value)
  }

  // ---- printed strings are read back

  lemma HexDigitRead(d: nat)
    requires d < 16
    ensures HexUnit(HexDigit(d)) == Some(d)
  {
  }

  lemma Hex4Read(u: unit)
    ensures FourHex(Hex4(u)) == Some(u)
  {
    hide HexUnit, HexDigit;
    var a := u / 16;
    var b := a / 16;
    HexDigitRead(b / 16);
    HexDigitRead(b % 16);
    HexDigitRead(a % 16);
    HexDigitRead(u % 16);
    assert (b / 16) * 0x1000 + (b % 16) * 0x100 + (a % 16) * 0x10 + u % 16 == u;
  }

  /** A printed unit is read as that unit, whatever follows. */
  lemma UnitRead(u: unit, x: Str)
    ensures ReadUnit(EscapeUnit(u) + x) == Some(Taken(u, x))
  {
    hide FourHex, Hex4;
    var e := EscapeUnit(u);
    var t := e + x;
    assert t[0] == e[0] && t[|e|..] == x;
    if |e| == 2 {
      assert t[1] == e[1];
    } else if |e| == 6 {
      Hex4Read(u);
      assert t[1] == e[1] && t[2..6] == Hex4(u);
    }
  }

  /** Which escape each unit has: none where the grammar needs none and an encoder can take it, a letter where there is one,
      hex digits otherwise. */
  lemma EscapeForm(u: unit)
    ensures |EscapeUnit(u)| == 1 <==> u >= 0x20 && u != QUOTE && u != BACKSLASH && !IsSurrogate(u)
    ensures |EscapeUnit(u)| == 2 <==> u != SOLIDUS && exists c: unit :: TwoUnitEscape(c) == Some(u)
    ensures |EscapeUnit(u)| == 1 || |EscapeUnit(u)| == 2 || |EscapeUnit(u)| == 6
  {
    assert TwoUnitEscape(0x22) == Some(0x22) && TwoUnitEscape(0x5C) == Some(0x5C) && TwoUnitEscape(0x62) == Some(0x08);
    assert TwoUnitEscape(0x66) == Some(0x0C) && TwoUnitEscape(0x6E) == Some(0x0A);
    assert TwoUnitEscape(0x72) == Some(0x0D) && TwoUnitEscape(0x74) == Some(0x09);
  }

  /** A unit that stands for itself. */
  lemma PlainUnitRead(u: unit, x: Str)
    requires IsSurrogate(u)
    ensures ReadUnit([u] + x) == Some(Taken(u, x))
  {
    assert ([u] + x)[1..] == x;
  }

  lemma ReadFirst(t: Str, u: unit, rest: Str)
    requires ReadUnit(t) == Some(Taken(u, rest)) && ReadChars(rest).Some?
    ensures ReadChars(t) == Some(Taken([u] + ReadChars(rest).value.value, ReadChars(rest).value.rest))
  {
  }

  lemma PairRead(u: unit, v: unit, y: Str)
    requires IsSurrogate(u) && IsSurrogate(v) && ReadChars(y).Some?
    ensures ReadChars([u, v] + y) == Some(Taken([u, v] + ReadChars(y).value.value, ReadChars(y).value.rest))
  {
    hide ReadUnit, ReadChars;
    PlainUnitRead(v, y);
    ReadFirst([v] + y, v, y);
    PlainUnitRead(u, [v] + y);
    ReadFirst([u] + ([v] + y), u, [v] + y);
    assert [u] + ([v] + y) == [u, v] + y;
    assert [u] + ([v] + ReadChars(y).value.value) == [u, v] + ReadChars(y).value.value;
  }

  /** The printed first code point of `s` gives its units, one or two, before what is read of the rest. */
  lemma HeadRead(s: Str, y: Str)
    requires s != [] && ReadChars(y).Some?
    ensures ReadChars(Head(s) + y) == Some(Taken(s[..Width(s)] + ReadChars(y).value.value, ReadChars(y).value.rest))
  {
    hide EscapeUnit, ReadUnit, ReadChars;
    if Paired(s) {
      PairRead(s[0], s[1], y);
      assert Head(s) == [s[0], s[1]] && s[..2] == [s[0], s[1]];
    } else {
      UnitRead(s[0], y);
      ReadFirst(EscapeUnit(s[0]) + y, s[0], y);
      assert s[..1] == [s[0]];
    }
  }

  lemma {:induction false} CharsRead(s: Str, x: Str)
    ensures ReadChars(Closed(s, x)) == Some(Taken(s, x))
    decreases |s|
  {
    hide Closed, Head, EscapeUnit, ReadUnit;
    ClosedStep(s, x);
    if s == [] {
      assert ([QUOTE] + x)[1..] == x;
    } else {
      var w := Width(s);
      CharsRead(s[w..], x);
      HeadRead(s, Closed(s[w..], x));
      assert s == s[..w] + s[w..];
    }
  }

  /** A reader of the grammar gives a string back from its printed form, and leaves what follows. */
  lemma StringRead(s: Str, x: Str)
    ensures ReadString(Quote(s) + x) == Some(Taken(s, x))
  {
    assert Quote(s) + x == [QUOTE] + Closed(s, x);
    assert ([QUOTE] + Closed(s, x))[1..] == Closed(s, x);
    CharsRead(s, x);
  }

  // ---- printed values are read back

  lemma SkipNothing(t: Str)
    requires t != [] && !IsWhite(t[0])
    ensures SkipWhite(t) == t
  {
  }

  lemma {:induction false} RunOf(s: Str, x: Str)
    requires (forall i | 0 <= i < |s| :: InNumber(s[i])) && Follows(x)
    ensures NumberRun(s + x) == |s|
  {
    if s == [] {
      assert s + x == x;
    } else {
      RunOf(s[1..], x);
      assert (s + x)[1..] == s[1..] + x;
    }
  }

  lemma NumberRead(number: Str -> bool, t: Str, x: Str)
    requires NumText(t) && number(t) && Follows(x)
    ensures ReadValue(number, t + x) == Some(Taken(Num(t), x))
  {
    var text := t + x;
    assert text[0] == t[0];
    SkipNothing(text);
    RunOf(t, x);
    assert text[..|t|] == t && text[|t|..] == x;
  }

  lemma WordRead(number: Str -> bool, v: Json, x: Str)
    requires v.Null? || v.Bool?
    ensures ReadValue(number, Compact(v) + x) == Some(Taken(v, x))
  {
    var c := Compact(v);
    var text := c + x;
    assert text[0] == c[0] && c <= text && text[|c|..] == x;
    SkipNothing(text);
    assert Lit("true")[0] == 0x74 && Lit("false")[0] == 0x66 && Lit("null")[0] == 0x6E;
  }

  lemma QuotedRead(number: Str -> bool, s: Str, x: Str)
    ensures ReadValue(number, Quote(s) + x) == Some(Taken(String(s), x))
  {
    hide ReadString, Escape;
    StringRead(s, x);
    assert (Quote(s) + x)[0] == QUOTE;
    SkipNothing(Quote(s) + x);
  }

  /** A value's text starts with no white space, and with nothing that may follow a value. */
  lemma StartsBlack(v: Json)
    requires Valid(v) && Plain(v)
    ensures Compact(v) != [] && !IsWhite(Compact(v)[0]) && Compact(v)[0] != RBRACKET && Compact(v)[0] != RBRACE
  {
    Starts(v);
  }

  lemma InnerItems(items: seq<Json>, x: Str)
    requires forall i | 0 <= i < |items| :: Valid(items[i]) && Plain(items[i])
    ensures ItemsThen(items, x) == Join(CompactItems(items)) + ([RBRACKET] + x)
    ensures items == [] ==> ItemsThen(items, x) == [RBRACKET] + x
    ensures ItemsThen(items, x) != [] && !IsWhite(ItemsThen(items, x)[0])
    ensures items != [] ==> ItemsThen(items, x)[0] != RBRACKET
  {
    hide Compact, Valid, Plain;
    ItemsStep(items, x);
    if items != [] {
      StartsBlack(items[0]);
      assert ItemsThen(items, x)[0] == Compact(items[0])[0];
    }
  }

  lemma ArrayOpens(number: Str -> bool, items: seq<Json>, x: Str)
    requires forall i | 0 <= i < |items| :: Valid(items[i]) && Plain(items[i])
    ensures items == [] ==> ReadValue(number, Compact(Arr(items)) + x) == Some(Taken(Arr([]), x))
    ensures items != [] && ReadItems(number, ItemsThen(items, x)) == Some(Taken(items, x)) ==>
      ReadValue(number, Compact(Arr(items)) + x) == Some(Taken(Arr(items), x))
  {
    hide ReadItems, ItemsThen, CompactItems, Join;
    var text, inner := Compact(Arr(items)) + x, ItemsThen(items, x);
    BodyOf(0x5B, Join(CompactItems(items)), [RBRACKET], x);
    InnerItems(items, x);
    assert text[0] == 0x5B && text[1..] == inner;
    SkipNothing(text);
    SkipNothing(inner);
    if items == [] {
      assert inner[1..] == x;
    }
  }

  lemma InnerMembers(ms: seq<Keyed<Json>>, x: Str)
    ensures MembersThen(ms, x) == Join(Entries(CompactMembers(ms))) + ([RBRACE] + x)
    ensures ms == [] ==> MembersThen(ms, x) == [RBRACE] + x
    ensures MembersThen(ms, x) != [] && !IsWhite(MembersThen(ms, x)[0])
    ensures ms != [] ==> MembersThen(ms, x)[0] != RBRACE
  {
    MembersFirst(ms, x);
  }

  lemma ObjectOpens(number: Str -> bool, ms: seq<Keyed<Json>>, x: Str)
    ensures ms == [] ==> ReadValue(number, Compact(Obj(ms)) + x) == Some(Taken(Obj([]), x))
    ensures ms != [] && ReadMembers(number, MembersThen(ms, x)) == Some(Taken(ms, x)) ==>
      ReadValue(number, Compact(Obj(ms)) + x) == Some(Taken(Obj(ms), x))
  {
    hide ReadMembers, MembersThen, CompactMembers, Join, Entries, Quote;
    var text, inner := Compact(Obj(ms)) + x, MembersThen(ms, x);
    BodyOf(0x7B, Join(Entries(CompactMembers(ms))), [RBRACE], x);
    InnerMembers(ms, x);
    assert text[0] == 0x7B && text[1..] == inner;
    SkipNothing(text);
    SkipNothing(inner);
    if ms == [] {
      assert inner[1..] == x;
    }
  }

  /** A grammar reader gives every value back from its compact text, members in order, and leaves what follows. */
  lemma {:induction false} CompactRead(number: Str -> bool, v: Json, x: Str)
    requires Valid(v) && Plain(v) && NumeralsIn(number, v) && Follows(x)
    ensures ReadValue(number, Compact(v) + x) == Some(Taken(v, x))
    decreases v, 0
  {
    match v
    case Num(t) => NumberRead(number, t, x);
    case String(s) => QuotedRead(number, s, x);
    case Arr(items) =>
      ArrayOpens(number, items, x);
      if items != [] {
        ItemsRead(number, items, x);
      }
    case Obj(ms) =>
      ObjectOpens(number, ms, x);
      if ms != [] {
        MembersRead(number, ms, x);
      }
    case _ => WordRead(number, v, x);
  }

  lemma {:induction false} ItemsRead(number: Str -> bool, items: seq<Json>, x: Str)
    requires items != [] && forall i | 0 <= i < |items| :: Valid(items[i]) && Plain(items[i]) && NumeralsIn(number, items[i])
    ensures ReadItems(number, ItemsThen(items, x)) == Some(Taken(items, x))
    decreases items, 1
  {
    hide ReadValue, ItemsThen, Compact, Valid, Plain, NumeralsIn;
    ItemsStep(items, x);
    var after := if |items| == 1 then [RBRACKET] + x else [COMMA] + ItemsThen(items[1..], x);
    CompactRead(number, items[0], after);
    SkipNothing(after);
    if |items| == 1 {
      assert after[1..] == x && items == [items[0]];
    } else {
      ItemsRead(number, items[1..], x);
      assert after[1..] == ItemsThen(items[1..], x) && items == [items[0]] + items[1..];
    }
  }

  lemma MemberRead(number: Str -> bool, m: Keyed<Json>, after: Str)
    requires ReadValue(number, Compact(m.value) + after) == Some(Taken(m.value, after))
    ensures ReadMember(number, Quote(m.key) + ([COLON] + (Compact(m.value) + after))) == Some(Taken(m, after))
  {
    hide ReadValue, ReadString, Compact, Escape;
    var rest := [COLON] + (Compact(m.value) + after);
    assert (Quote(m.key) + rest)[0] == QUOTE;
    SkipNothing(Quote(m.key) + rest);
    StringRead(m.key, rest);
    SkipNothing(rest);
    assert rest[1..] == Compact(m.value) + after;
  }

  lemma {:induction false} MembersRead(number: Str -> bool, ms: seq<Keyed<Json>>, x: Str)
    requires ms != []
    requires forall i | 0 <= i < |ms| :: Valid(ms[i].value) && Plain(ms[i].value) && NumeralsIn(number, ms[i].value)
    ensures ReadMembers(number, MembersThen(ms, x)) == Some(Taken(ms, x))
    decreases ms, 1
  {
    hide ReadValue, ReadMember, MembersThen, Compact, Valid, Plain, NumeralsIn, Quote;
    MembersFirst(ms, x);
    var after := AfterFirst(ms, x);
    CompactRead(number, ms[0].value, after);
    MemberRead(number, ms[0], after);
    SkipNothing(after);
    if |ms| == 1 {
      assert after[1..] == x && ms == [ms[0]];
    } else {
      MembersRead(number, ms[1..], x);
      assert after[1..] == MembersThen(ms[1..], x) && ms == [ms[0]] + ms[1..];
    }
  }

  /** Compact text is JSON of the value: a grammar reader gives it back. */
  lemma TextRead(number: Str -> bool, v: Json)
    requires Valid(v) && Plain(v) && NumeralsIn(number, v)
    ensures ReadText(number, Compact(v)) == Some(v)
  {
    CompactRead(number, v, []);
    assert Compact(v) + [] == Compact(v);
  }

  /** Every run of number units with the shape of a number. */
  function AnyNumber(): Str -> bool {
    t => NumText(t)
  }

  lemma {:induction false} ValidNumbers(v: Json)
    requires Valid(v)
    ensures NumeralsIn(AnyNumber(), v)
  {
    match v
    case Arr(items) =>
      forall i | 0 <= i < |items| ensures NumeralsIn(AnyNumber(), items[i]) { ValidNumbers(items[i]); }
    case Obj(ms) =>
      forall i | 0 <= i < |ms| ensures NumeralsIn(AnyNumber(), ms[i].value) { ValidNumbers(ms[i].value); }
    case _ =>
  }

  /** Canonical text is JSON of the value: a grammar reader makes of it a value with the same meaning, every object's keys
      in ascending order. */
  lemma CanonicalRead(v: Json)
    requires Valid(v) && Jsonable(v)
    ensures var read := ReadText(AnyNumber(), CanonicalText(v));
      read.Some? && Meaning(read.value) == Meaning(v) && InNormalForm(read.value)
  {
    hide ReadText, CanonicalText, Compact, Meaning, Normal;
    CanonicalIsCompactNormal(v);
    NormalInNormalForm(v);
    NormalFormPlain(Normal(v));
    NormalMeaning(v);
    ValidNumbers(Normal(v));
    TextRead(AnyNumber(), Normal(v));
  }
}
