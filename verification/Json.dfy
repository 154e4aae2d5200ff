/** JSON values as JavaScript holds them, their meaning, and the compact text JSON.stringify gives them. */
module Json {
  import opened Text
  import opened JsonText

  datatype Keyed<+T> = Keyed(key: Str, value: T)

  /** A value handed to the audit store. A number is known by its decimal text; `NonFinite` is a NaN or an infinity,
      `NonJson` an `undefined`, function, symbol or bigint. Members keep their insertion order. */
  datatype Json =
    | Null
    | Bool(b: bool)
    | NonFinite
    | Num(text: Str)
    | String(s: Str)
    | Arr(items: seq<Json>)
    | Obj(members: seq<Keyed<Json>>)
    | NonJson

  const COMMA: unit := 0x2C
  const COLON: unit := 0x3A
  const RBRACKET: unit := 0x5D
  const RBRACE: unit := 0x7D

  // ---- which values

  predicate InNumber(u: unit) {
    0x30 <= u < 0x3A || u == 0x2B || u == 0x2D || u == 0x2E || u == 0x65
  }

  /** The shape every decimal text has: a digit or a minus first, number characters throughout. */
  predicate NumText(t: Str) {
    t != [] && (t[0] == 0x2D || 0x30 <= t[0] < 0x3A) && forall i | 0 <= i < |t| :: InNumber(t[i])
  }

  predicate DistinctKeys<T>(ms: seq<Keyed<T>>) {
    forall i, j | 0 <= i < j < |ms| :: ms[i].key != ms[j].key
  }

  /** A value JavaScript can hold: numbers have their text, and an object names a key once. */
  predicate Valid(v: Json) {
    match v
    case Num(t) => NumText(t)
    case Arr(items) => forall i | 0 <= i < |items| :: Valid(items[i])
    case Obj(ms) => DistinctKeys(ms) && forall i | 0 <= i < |ms| :: Valid(ms[i].value)
    case _ => true
  }

  /** No `undefined`, function, symbol or bigint anywhere inside. */
  predicate Jsonable(v: Json) {
    match v
    case NonJson => false
    case Arr(items) => forall i | 0 <= i < |items| :: Jsonable(items[i])
    case Obj(ms) => forall i | 0 <= i < |ms| :: Jsonable(ms[i].value)
    case _ => true
  }

  /** Jsonable, and every number finite: the values JSON text can say. */
  predicate Plain(v: Json) {
    match v
    case NonJson | NonFinite => false
    case Arr(items) => forall i | 0 <= i < |items| :: Plain(items[i])
    case Obj(ms) => forall i | 0 <= i < |ms| :: Plain(ms[i].value)
    case _ => true
  }

  /** Every number inside is one of these texts. */
  predicate NumeralsIn(numeral: Str -> bool, v: Json) {
    match v
    case Num(t) => numeral(t)
    case Arr(items) => forall i | 0 <= i < |items| :: NumeralsIn(numeral, items[i])
    case Obj(ms) => forall i | 0 <= i < |ms| :: NumeralsIn(numeral, ms[i].value)
    case _ => true
  }

  /** What is known of the texts that finite JavaScript numbers print as: they have the shape of a number and at most 32
      units, and every exact count has its plain decimal text. */
  ghost predicate NumberTexts(numeral: Str -> bool) {
    && (forall t: Str :: numeral(t) ==> NumText(t) && |t| <= 32)
    && (forall n: nat :: ExactCount(n) ==> numeral(NatText(n)))
  }

  // ---- what a value means

  /** A JSON value up to key order: an object is a finite map. */
  datatype Value = VNull | VBool(b: bool) | VNum(text: Str) | VString(s: Str) | VArr(items: seq<Value>)
    | VObj(fields: map<Str, Value>) | VNothing

  ghost function Meaning(v: Json): Value
    decreases v, 0
  {
    match v
    case Null => VNull
    case Bool(b) => VBool(b)
    case NonFinite => VNull
    case Num(t) => VNum(t)
    case String(s) => VString(s)
    case Arr(items) => VArr(Meanings(items))
    case Obj(ms) => VObj(Fields(ms))
    case NonJson => VNothing
  }

  ghost function Meanings(items: seq<Json>): (r: seq<Value>)
    ensures |r| == |items|
    decreases items, 1
  {
    if items == [] then [] else [Meaning(items[0])] + Meanings(items[1..])
  }

  ghost function Fields(ms: seq<Keyed<Json>>): map<Str, Value>
    decreases ms, 1
  {
    if ms == [] then map[] else Fields(ms[1..])[ms[0].key := Meaning(ms[0].value)]
  }

  /** `ms[key]`, where it has one. */
  function ValueAt<T>(ms: seq<Keyed<T>>, key: Str): Option<T> {
    if ms == [] then None else if ms[0].key == key then Some(ms[0].value) else ValueAt(ms[1..], key)
  }

  predicate HasKey<T>(ms: seq<Keyed<T>>, k: Str) {
    exists i | 0 <= i < |ms| :: ms[i].key == k
  }

  lemma {:induction false} FieldsKeys(ms: seq<Keyed<Json>>, k: Str)
    ensures k in Fields(ms) <==> HasKey(ms, k)
  {
    if ms != [] {
      FieldsKeys(ms[1..], k);
      assert HasKey(ms[1..], k) ==> HasKey(ms, k) by {
        if HasKey(ms[1..], k) {
          var i :| 0 <= i < |ms[1..]| && ms[1..][i].key == k;
          assert ms[i + 1].key == k;
        }
      }
      assert ms[0].key == k ==> HasKey(ms, k);
      assert HasKey(ms, k) && ms[0].key != k ==> HasKey(ms[1..], k) by {
        if HasKey(ms, k) && ms[0].key != k {
          var i :| 0 <= i < |ms| && ms[i].key == k;
          assert ms[1..][i - 1].key == k;
        }
      }
    }
  }

  // ---- compact text

  function Join(parts: seq<Str>): Str {
    if parts == [] then [] else if |parts| == 1 then parts[0] else parts[0] + ([COMMA] + Join(parts[1..]))
  }

  function Entry(k: Keyed<Str>): Str {
    Quote(k.key) + ([COLON] + k.value)
  }

  function Entries(ks: seq<Keyed<Str>>): seq<Str> {
    if ks == [] then [] else [Entry(ks[0])] + Entries(ks[1..])
  }

  function ArrayText(parts: seq<Str>): Str {
    [0x5B] + (Join(parts) + [RBRACKET])
  }

  function ObjectText(ks: seq<Keyed<Str>>): Str {
    [0x7B] + (Join(Entries(ks)) + [RBRACE])
  }

  /** `JSON.stringify(v)` for a jsonable value, keys in insertion order. */
  function Compact(v: Json): Str
    decreases v, 0
  {
    match v
    case Null | NonFinite | NonJson => Lit("null")
    case Bool(b) => if b then Lit("true") else Lit("false")
    case Num(t) => t
    case String(s) => Quote(s)
    case Arr(items) => ArrayText(CompactItems(items))
    case Obj(ms) => ObjectText(CompactMembers(ms))
  }

  function CompactItems(items: seq<Json>): (r: seq<Str>)
    ensures |r| == |items|
    decreases items, 1
  {
    if items == [] then [] else [Compact(items[0])] + CompactItems(items[1..])
  }

  function CompactMembers(ms: seq<Keyed<Json>>): (r: seq<Keyed<Str>>)
    ensures |r| == |ms|
    decreases ms, 1
  {
    if ms == [] then [] else [Keyed(ms[0].key, Compact(ms[0].value))] + CompactMembers(ms[1..])
  }

  // ---- compact text determines the value

  /** What may follow a value inside a larger text. */
  predicate Follows(x: Str) {
    x == [] || x[0] == COMMA || x[0] == RBRACKET || x[0] == RBRACE
  }

  /** A value's text starts with a unit that tells its kind. */
  lemma Starts(v: Json)
    requires Valid(v) && Plain(v)
    ensures var t := Compact(v);
      t != [] && (match v
                  case Null => t[0] == 0x6E
                  case Bool(b) => t[0] == if b then 0x74 else 0x66
                  case Num(_) => InNumber(t[0])
                  case String(_) => t[0] == QUOTE
                  case Arr(_) => t[0] == 0x5B
                  case Obj(_) => t[0] == 0x7B
                  case _ => false)
  {
  }

  /** How many number characters `t` starts with. */
  function Span(t: Str): nat {
    if t != [] && InNumber(t[0]) then 1 + Span(t[1..]) else 0
  }

  lemma {:induction false} SpanOf(s: Str, x: Str)
    requires (forall i | 0 <= i < |s| :: InNumber(s[i])) && Follows(x)
    ensures Span(s + x) == |s|
  {
    if s == [] {
      assert s + x == x;
    } else {
      SpanOf(s[1..], x);
      assert (s + x)[1..] == s[1..] + x;
    }
  }

  lemma NumUnique(s: Str, t: Str, x: Str, y: Str)
    requires NumText(s) && NumText(t) && Follows(x) && Follows(y) && s + x == t + y
    ensures s == t && x == y
  {
    SpanOf(s, x);
    SpanOf(t, y);
    SameLength(s, t, x, y);
  }

  /** An array's items, its closing bracket, and what follows. */
  function ItemsThen(items: seq<Json>, x: Str): Str {
    Join(CompactItems(items)) + ([RBRACKET] + x)
  }

  function MembersThen(ms: seq<Keyed<Json>>, x: Str): Str {
    Join(Entries(CompactMembers(ms))) + ([RBRACE] + x)
  }

  lemma ItemsStep(items: seq<Json>, x: Str)
    ensures items == [] ==> ItemsThen(items, x) == [RBRACKET] + x
    ensures |items| == 1 ==> ItemsThen(items, x) == Compact(items[0]) + ([RBRACKET] + x)
    ensures |items| > 1 ==> ItemsThen(items, x) == Compact(items[0]) + ([COMMA] + ItemsThen(items[1..], x))
  {
    if |items| > 1 {
      var ps := CompactItems(items);
      assert ps[1..] == CompactItems(items[1..]);
      assert (ps[0] + ([COMMA] + Join(ps[1..]))) + ([RBRACKET] + x)
          == ps[0] + ([COMMA] + (Join(ps[1..]) + ([RBRACKET] + x)));
    }
  }

  lemma MembersStep(ms: seq<Keyed<Json>>, x: Str)
    ensures ms == [] ==> MembersThen(ms, x) == [RBRACE] + x
    ensures |ms| == 1 ==>
      MembersThen(ms, x) == Quote(ms[0].key) + ([COLON] + (Compact(ms[0].value) + ([RBRACE] + x)))
    ensures |ms| > 1 ==>
      MembersThen(ms, x) == Quote(ms[0].key) + ([COLON] + (Compact(ms[0].value) + ([COMMA] + MembersThen(ms[1..], x))))
  {
    if ms != [] {
      var ks := CompactMembers(ms);
      var q, c := Quote(ms[0].key), Compact(ms[0].value);
      assert ks[1..] == CompactMembers(ms[1..]);
      assert Entries(ks)[1..] == Entries(ks[1..]) && Entries(ks)[0] == q + ([COLON] + c);
      if |ms| == 1 {
        assert Entries(ks[1..]) == [];
        assert (q + ([COLON] + c)) + ([RBRACE] + x) == q + ([COLON] + (c + ([RBRACE] + x)));
      } else {
        var j := Join(Entries(ks[1..]));
        assert |Entries(ks[1..])| > 0;
        assert ((q + ([COLON] + c)) + ([COMMA] + j)) + ([RBRACE] + x)
            == q + ([COLON] + (c + ([COMMA] + (j + ([RBRACE] + x)))));
      }
    }
  }

  lemma BodyOf(open: unit, body: Str, close: Str, x: Str)
    ensures (([open] + (body + close)) + x)[1..] == body + (close + x)
  {
  }

  /** Unique decodability: where the text of a value ends, and which value it is, can be read off any text it starts. */
  lemma {:induction false} CompactUnique(u: Json, v: Json, x: Str, y: Str)
    requires Valid(u) && Plain(u) && Valid(v) && Plain(v) && Follows(x) && Follows(y)
    requires Compact(u) + x == Compact(v) + y
    ensures u == v && x == y
    decreases u, 0
  {
    Starts(u);
    Starts(v);
    assert (Compact(u) + x)[0] == Compact(u)[0] && (Compact(v) + y)[0] == Compact(v)[0];
    match u
    case Null =>
      SameLength(Compact(u), Compact(v), x, y);
    case Bool(_) =>
      SameLength(Compact(u), Compact(v), x, y);
    case Num(t) =>
      NumUnique(t, v.text, x, y);
    case String(s) =>
      QuoteUnique(s, v.s, x, y);
    case Arr(items) =>
      BodyOf(0x5B, Join(CompactItems(items)), [RBRACKET], x);
      BodyOf(0x5B, Join(CompactItems(v.items)), [RBRACKET], y);
      ItemsUnique(items, v.items, x, y);
    case Obj(ms) =>
      BodyOf(0x7B, Join(Entries(CompactMembers(ms))), [RBRACE], x);
      BodyOf(0x7B, Join(Entries(CompactMembers(v.members))), [RBRACE], y);
      MembersUnique(ms, v.members, x, y);
  }

  lemma {:induction false} ItemsUnique(us: seq<Json>, vs: seq<Json>, x: Str, y: Str)
    requires forall i | 0 <= i < |us| :: Valid(us[i]) && Plain(us[i])
    requires forall i | 0 <= i < |vs| :: Valid(vs[i]) && Plain(vs[i])
    requires ItemsThen(us, x) == ItemsThen(vs, y)
    ensures us == vs && x == y
    decreases us, 1
  {
    hide ItemsThen, Compact, Valid, Plain;
    ItemsStep(us, x);
    ItemsStep(vs, y);
    if us != [] { Starts(us[0]); assert ItemsThen(us, x)[0] == Compact(us[0])[0]; }
    if vs != [] { Starts(vs[0]); assert ItemsThen(vs, y)[0] == Compact(vs[0])[0]; }
    if us == [] {
      assert x == ItemsThen(us, x)[1..] && y == ItemsThen(vs, y)[1..];
    } else {
      var p := if |us| == 1 then [RBRACKET] + x else [COMMA] + ItemsThen(us[1..], x);
      var q := if |vs| == 1 then [RBRACKET] + y else [COMMA] + ItemsThen(vs[1..], y);
      CompactUnique(us[0], vs[0], p, q);
      assert p[0] == q[0];
      if |us| == 1 {
        assert x == p[1..] && y == q[1..];
        assert us == [us[0]] && vs == [vs[0]];
      } else {
        assert ItemsThen(us[1..], x) == p[1..] && ItemsThen(vs[1..], y) == q[1..];
        ItemsUnique(us[1..], vs[1..], x, y);
        assert us == [us[0]] + us[1..] && vs == [vs[0]] + vs[1..];
      }
    }
  }

  lemma EntryUnique(k: Str, l: Str, c: Str, d: Str)
    requires Quote(k) + ([COLON] + c) == Quote(l) + ([COLON] + d)
    ensures k == l && c == d
  {
    QuoteUnique(k, l, [COLON] + c, [COLON] + d);
    assert c == ([COLON] + c)[1..] && d == ([COLON] + d)[1..];
  }

  /** What stands after the first member: the closing brace, or a comma and the other members. */
  function AfterFirst(ms: seq<Keyed<Json>>, x: Str): Str
    requires ms != []
  {
    if |ms| == 1 then [RBRACE] + x else [COMMA] + MembersThen(ms[1..], x)
  }

  lemma MembersFirst(ms: seq<Keyed<Json>>, x: Str)
    ensures ms == [] ==> MembersThen(ms, x) == [RBRACE] + x
    ensures ms != [] ==>
      MembersThen(ms, x) == Quote(ms[0].key) + ([COLON] + (Compact(ms[0].value) + AfterFirst(ms, x)))
    ensures MembersThen(ms, x)[0] == QUOTE <==> ms != []
  {
    MembersStep(ms, x);
  }

  lemma {:induction false} MembersUnique(us: seq<Keyed<Json>>, vs: seq<Keyed<Json>>, x: Str, y: Str)
    requires forall i | 0 <= i < |us| :: Valid(us[i].value) && Plain(us[i].value)
    requires forall i | 0 <= i < |vs| :: Valid(vs[i].value) && Plain(vs[i].value)
    requires MembersThen(us, x) == MembersThen(vs, y)
    ensures us == vs && x == y
    decreases us, 1
  {
    hide MembersThen, Compact, Valid, Plain, Quote;
    MembersFirst(us, x);
    MembersFirst(vs, y);
    if us == [] {
      assert x == MembersThen(us, x)[1..] && y == MembersThen(vs, y)[1..];
    } else {
      var p, q := AfterFirst(us, x), AfterFirst(vs, y);
      EntryUnique(us[0].key, vs[0].key, Compact(us[0].value) + p, Compact(vs[0].value) + q);
      CompactUnique(us[0].value, vs[0].value, p, q);
      assert p[0] == q[0];
      if |us| == 1 {
        assert x == p[1..] && y == q[1..];
        assert us == [us[0]] && vs == [vs[0]];
      } else {
        assert MembersThen(us[1..], x) == p[1..] && MembersThen(vs[1..], y) == q[1..];
        MembersUnique(us[1..], vs[1..], x, y);
        assert us == [us[0]] + us[1..] && vs == [vs[0]] + vs[1..];
      }
    }
  }

  /** JSON.stringify is injective on the values JSON text can say, members in order. */
  lemma CompactInjective(u: Json, v: Json)
    requires Valid(u) && Plain(u) && Valid(v) && Plain(v) && Compact(u) == Compact(v)
    ensures u == v
  {
    assert Compact(u) + [] == Compact(v) + [];
    CompactUnique(u, v, [], []);
  }

  // ---- compact text is clean

  lemma {:induction false} JoinClean(parts: seq<Str>)
    requires forall i | 0 <= i < |parts| :: Clean(parts[i])
    ensures Clean(Join(parts))
  {
    if |parts| > 1 {
      JoinClean(parts[1..]);
      Utf8Ascii([COMMA]);
      CleanConcat([COMMA], Join(parts[1..]));
      CleanConcat(parts[0], [COMMA] + Join(parts[1..]));
    }
  }

  lemma EnclosedClean(open: unit, body: Str, close: unit)
    requires 0x20 <= open < 0x80 && 0x20 <= close < 0x80 && Clean(body)
    ensures Clean([open] + (body + [close]))
  {
    Utf8Ascii([open]);
    Utf8Ascii([close]);
    CleanConcat(body, [close]);
    CleanConcat([open], body + [close]);
  }

  lemma {:induction false} EntriesClean(ks: seq<Keyed<Str>>)
    requires forall i | 0 <= i < |ks| :: Clean(ks[i].value)
    ensures |Entries(ks)| == |ks| && forall i | 0 <= i < |ks| :: Clean(Entries(ks)[i])
  {
    if ks != [] {
      EntriesClean(ks[1..]);
      QuoteClean(ks[0].key);
      Utf8Ascii([COLON]);
      CleanConcat([COLON], ks[0].value);
      CleanConcat(Quote(ks[0].key), [COLON] + ks[0].value);
    }
  }

  lemma ScalarClean(v: Json)
    requires Valid(v) && !v.String? && !v.Arr? && !v.Obj?
    ensures Clean(Compact(v))
  {
    hide WellFormed, Utf8;
    if v.Num? {
      Utf8Ascii(v.text);
    } else {
      Utf8Ascii(Lit("null"));
      Utf8Ascii(Lit("true"));
      Utf8Ascii(Lit("false"));
    }
  }

  lemma {:induction false} CompactClean(v: Json)
    requires Valid(v)
    ensures Clean(Compact(v))
    decreases v, 0
  {
    hide Clean, Escape, CompactItems, CompactMembers, Entries, Join;
    match v
    case String(s) => QuoteClean(s);
    case Arr(items) =>
      CompactItemsClean(items);
      JoinClean(CompactItems(items));
      EnclosedClean(0x5B, Join(CompactItems(items)), RBRACKET);
    case Obj(ms) =>
      CompactMembersClean(ms);
      EntriesClean(CompactMembers(ms));
      JoinClean(Entries(CompactMembers(ms)));
      EnclosedClean(0x7B, Join(Entries(CompactMembers(ms))), RBRACE);
    case _ => ScalarClean(v);
  }

  lemma {:induction false} CompactItemsClean(items: seq<Json>)
    requires forall i | 0 <= i < |items| :: Valid(items[i])
    ensures forall i | 0 <= i < |items| :: Clean(CompactItems(items)[i])
    decreases items, 1
  {
    if items != [] {
      CompactClean(items[0]);
      CompactItemsClean(items[1..]);
    }
  }

  lemma {:induction false} CompactMembersClean(ms: seq<Keyed<Json>>)
    requires forall i | 0 <= i < |ms| :: Valid(ms[i].value)
    ensures forall i | 0 <= i < |ms| :: Clean(CompactMembers(ms)[i].value)
    decreases ms, 1
  {
    if ms != [] {
      CompactClean(ms[0].value);
      CompactMembersClean(ms[1..]);
    }
  }
}
