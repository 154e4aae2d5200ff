/** Indented JSON text, and why it says the same: without the white space outside strings it is the compact text. */
module PrettyJson {
  import opened Text
  import opened JsonText
  import opened Json

  const BLANK: unit := 0x20
  const BREAK: unit := 0x0A

  // ---- printing

  function Blanks(n: nat): Str {
    if n == 0 then [] else [BLANK] + Blanks(n - 1)
  }

  /** A new line, two spaces a level. */
  function Indent(depth: nat): Str {
    [BREAK] + Blanks(2 * depth)
  }

  function JoinLines(parts: seq<Str>, depth: nat): Str {
    if parts == [] then []
    else if |parts| == 1 then parts[0]
    else parts[0] + ([COMMA] + (Indent(depth) + JoinLines(parts[1..], depth)))
  }

  function Enclosed(open: unit, parts: seq<Str>, close: unit, depth: nat): Str {
    if parts == [] then [open, close]
    else [open] + (Indent(depth + 1) + (JoinLines(parts, depth + 1) + (Indent(depth) + [close])))
  }

  /** `JSON.stringify(v, null, 2)` of a jsonable value, inside `depth` containers. */
  function Pretty(v: Json, depth: nat): Str
    decreases v, 0
  {
    match v
    case Arr(items) => Enclosed(0x5B, PrettyItems(items, depth + 1), RBRACKET, depth)
    case Obj(ms) => Enclosed(0x7B, PrettyMembers(ms, depth + 1), RBRACE, depth)
    case _ => Compact(v)
  }

  function PrettyItems(items: seq<Json>, depth: nat): (r: seq<Str>)
    ensures |r| == |items|
    decreases items, 1
  {
    if items == [] then [] else [Pretty(items[0], depth)] + PrettyItems(items[1..], depth)
  }

  function PrettyEntry(key: Str, text: Str): Str {
    Quote(key) + ([COLON] + ([BLANK] + text))
  }

  function PrettyMembers(ms: seq<Keyed<Json>>, depth: nat): (r: seq<Str>)
    ensures |r| == |ms|
    decreases ms, 1
  {
    if ms == [] then []
    else [PrettyEntry(ms[0].key, Pretty(ms[0].value, depth))] + PrettyMembers(ms[1..], depth)
  }

  // ---- dropping the white space

  predicate IsBlank(u: unit) {
    u == BLANK || u == BREAK
  }

  /** The text without white space outside its strings. */
  function Squeeze(t: Str, inString: bool): Str {
    if t == [] then []
    else if inString && t[0] == BACKSLASH && |t| > 1 then t[..2] + Squeeze(t[2..], true)
    else if inString then [t[0]] + Squeeze(t[1..], t[0] != QUOTE)
    else if IsBlank(t[0]) then Squeeze(t[1..], false)
    else [t[0]] + Squeeze(t[1..], t[0] == QUOTE)
  }

  lemma {:induction false} SqueezePlain(s: Str, x: Str)
    requires forall i | 0 <= i < |s| :: s[i] != QUOTE && !IsBlank(s[i])
    ensures Squeeze(s + x, false) == s + Squeeze(x, false)
  {
    if s == [] {
      assert s + x == x;
    } else {
      SqueezePlain(s[1..], x);
      assert (s + x)[1..] == s[1..] + x && s == [s[0]] + s[1..];
    }
  }

  lemma SqueezeUnit(u: unit, x: Str)
    requires u != QUOTE && !IsBlank(u)
    ensures Squeeze([u] + x, false) == [u] + Squeeze(x, false)
  {
    SqueezePlain([u], x);
  }

  lemma {:induction false} SqueezeBlanks(n: nat, x: Str)
    ensures Squeeze(Blanks(n) + x, false) == Squeeze(x, false)
  {
    if n == 0 {
      assert Blanks(n) + x == x;
    } else {
      SqueezeBlanks(n - 1, x);
      assert (Blanks(n) + x)[1..] == Blanks(n - 1) + x;
    }
  }

  lemma SqueezeIndent(depth: nat, x: Str)
    ensures Squeeze(Indent(depth) + x, false) == Squeeze(x, false)
  {
    SqueezeBlanks(2 * depth, x);
    assert (Indent(depth) + x)[1..] == Blanks(2 * depth) + x;
  }

  lemma {:induction false} SqueezeInside(h: Str, y: Str)
    requires forall i | 0 <= i < |h| :: h[i] != QUOTE && h[i] != BACKSLASH
    ensures Squeeze(h + y, true) == h + Squeeze(y, true)
  {
    if h == [] {
      assert h + y == y;
    } else {
      SqueezeInside(h[1..], y);
      assert (h + y)[1..] == h[1..] + y && h == [h[0]] + h[1..];
    }
  }

  /** Inside a string a printed code point stays as it is, and stays inside. */
  lemma SqueezeHead(s: Str, y: Str)
    requires s != []
    ensures Squeeze(Head(s) + y, true) == Head(s) + Squeeze(y, true)
  {
    var h := Head(s);
    if h[0] == BACKSLASH {
      var rest := h[2..];
      assert forall i | 0 <= i < |rest| :: rest[i] != QUOTE && rest[i] != BACKSLASH;
      SqueezeInside(rest, y);
      assert (h + y)[2..] == rest + y && (h + y)[..2] == h[..2] && h == h[..2] + rest;
      assert h[..2] + (rest + Squeeze(y, true)) == h + Squeeze(y, true);
    } else {
      SqueezeInside(h, y);
    }
  }

  lemma {:induction false} SqueezeClosed(s: Str, x: Str)
    ensures Squeeze(Closed(s, x), true) == Closed(s, Squeeze(x, false))
  {
    hide Head, Closed;
    ClosedStep(s, x);
    ClosedStep(s, Squeeze(x, false));
    if s == [] {
      assert ([QUOTE] + x)[1..] == x;
    } else {
      var rest := s[Width(s)..];
      SqueezeHead(s, Closed(rest, x));
      SqueezeClosed(rest, x);
    }
  }

  lemma SqueezeQuote(s: Str, x: Str)
    ensures Squeeze(Quote(s) + x, false) == Quote(s) + Squeeze(x, false)
  {
    var y := Squeeze(x, false);
    SqueezeClosed(s, x);
    assert Quote(s) + x == [QUOTE] + Closed(s, x) && Quote(s) + y == [QUOTE] + Closed(s, y);
    assert ([QUOTE] + Closed(s, x))[1..] == Closed(s, x);
  }

  // ---- squeezing indented text gives the compact text

  lemma SqueezeScalar(v: Json, x: Str)
    requires Valid(v) && !v.Arr? && !v.Obj?
    ensures Squeeze(Compact(v) + x, false) == Compact(v) + Squeeze(x, false)
  {
    hide Squeeze;
    if v.String? {
      SqueezeQuote(v.s, x);
    } else {
      SqueezePlain(Compact(v), x);
    }
  }

  /** What is left of `parts` when each of them squeezes to its compact form. */
  ghost predicate SqueezesTo(t: Str, c: Str) {
    forall x: Str :: Squeeze(t + x, false) == c + Squeeze(x, false)
  }

  ghost predicate AllSqueeze(parts: seq<Str>, compact: seq<Str>) {
    |parts| == |compact| && forall i | 0 <= i < |parts| :: SqueezesTo(parts[i], compact[i])
  }

  lemma {:induction false} SqueezeLines(parts: seq<Str>, compact: seq<Str>, depth: nat, x: Str)
    requires AllSqueeze(parts, compact)
    ensures Squeeze(JoinLines(parts, depth) + x, false) == Join(compact) + Squeeze(x, false)
  {
    hide Squeeze, Indent;
    if parts == [] {
      assert JoinLines(parts, depth) + x == x;
    } else if |parts| == 1 {
      assert SqueezesTo(parts[0], compact[0]);
    } else {
      var rest := JoinLines(parts[1..], depth);
      var y := [COMMA] + (Indent(depth) + (rest + x));
      assert JoinLines(parts, depth) + x == parts[0] + y;
      assert SqueezesTo(parts[0], compact[0]);
      SqueezeUnit(COMMA, Indent(depth) + (rest + x));
      SqueezeIndent(depth, rest + x);
      SqueezeLines(parts[1..], compact[1..], depth, x);
      assert compact[0] + ([COMMA] + (Join(compact[1..]) + Squeeze(x, false))) == Join(compact) + Squeeze(x, false);
    }
  }

  lemma EmptySqueeze(parts: seq<Str>, compact: seq<Str>)
    requires AllSqueeze(parts, compact) && parts == []
    ensures Join(compact) == []
  {
  }

  lemma SqueezeEnclosed(open: unit, parts: seq<Str>, close: unit, depth: nat, compact: seq<Str>)
    requires open == 0x5B || open == 0x7B
    requires close == RBRACKET || close == RBRACE
    requires AllSqueeze(parts, compact)
    ensures SqueezesTo(Enclosed(open, parts, close, depth), [open] + (Join(compact) + [close]))
  {
    hide Squeeze, Indent, JoinLines, AllSqueeze;
    var t, c := Enclosed(open, parts, close, depth), [open] + (Join(compact) + [close]);
    forall x: Str ensures Squeeze(t + x, false) == c + Squeeze(x, false) {
      var end, done := [close] + x, Squeeze(x, false);
      SqueezeUnit(close, x);
      assert c + done == [open] + (Join(compact) + ([close] + done));
      if parts == [] {
        EmptySqueeze(parts, compact);
        SqueezeUnit(open, end);
        assert t + x == [open] + end;
      } else {
        var lines := JoinLines(parts, depth + 1);
        var y := Indent(depth) + end;
        assert t + x == [open] + (Indent(depth + 1) + (lines + y));
        SqueezeUnit(open, Indent(depth + 1) + (lines + y));
        SqueezeIndent(depth + 1, lines + y);
        SqueezeLines(parts, compact, depth + 1, y);
        SqueezeIndent(depth, end);
      }
    }
  }

  lemma SqueezeEntry(key: Str, text: Str, compact: Str)
    requires SqueezesTo(text, compact)
    ensures SqueezesTo(PrettyEntry(key, text), Entry(Keyed(key, compact)))
  {
    hide Squeeze, Quote;
    forall x: Str ensures Squeeze(PrettyEntry(key, text) + x, false) == Entry(Keyed(key, compact)) + Squeeze(x, false) {
      var blank := Blanks(1) + (text + x);
      assert PrettyEntry(key, text) + x == Quote(key) + ([COLON] + blank) by {
        assert Blanks(1) == [BLANK];
      }
      SqueezeQuote(key, [COLON] + blank);
      SqueezeUnit(COLON, blank);
      SqueezeBlanks(1, text + x);
      assert Quote(key) + ([COLON] + (compact + Squeeze(x, false))) == Entry(Keyed(key, compact)) + Squeeze(x, false);
    }
  }

  lemma ScalarSqueezes(v: Json)
    requires Valid(v) && !v.Arr? && !v.Obj?
    ensures SqueezesTo(Compact(v), Compact(v))
  {
    hide Squeeze, Compact;
    forall x: Str ensures Squeeze(Compact(v) + x, false) == Compact(v) + Squeeze(x, false) {
      SqueezeScalar(v, x);
    }
  }

  /** The white space `JSON.stringify` adds can be taken out again: what is left is the compact text. */
  lemma {:induction false} SqueezePretty(v: Json, depth: nat)
    requires Valid(v)
    ensures SqueezesTo(Pretty(v, depth), Compact(v))
    decreases v, 0
  {
    hide Squeeze, Enclosed, SqueezesTo, PrettyItems, PrettyMembers, CompactItems, CompactMembers, Entries, Join;
    match v
    case Arr(items) =>
      SqueezeItems(items, depth + 1);
      SqueezeEnclosed(0x5B, PrettyItems(items, depth + 1), RBRACKET, depth, CompactItems(items));
    case Obj(ms) =>
      SqueezeMembers(ms, depth + 1);
      SqueezeEnclosed(0x7B, PrettyMembers(ms, depth + 1), RBRACE, depth, Entries(CompactMembers(ms)));
    case _ =>
      ScalarSqueezes(v);
  }

  lemma {:induction false} SqueezeItems(items: seq<Json>, depth: nat)
    requires forall i | 0 <= i < |items| :: Valid(items[i])
    ensures AllSqueeze(PrettyItems(items, depth), CompactItems(items))
    decreases items, 1
  {
    hide Pretty, Compact, SqueezesTo;
    if items != [] {
      SqueezePretty(items[0], depth);
      SqueezeItems(items[1..], depth);
    }
  }

  lemma {:induction false} SqueezeMembers(ms: seq<Keyed<Json>>, depth: nat)
    requires forall i | 0 <= i < |ms| :: Valid(ms[i].value)
    ensures AllSqueeze(PrettyMembers(ms, depth), Entries(CompactMembers(ms)))
    decreases ms, 1
  {
    hide Pretty, Compact, SqueezesTo, PrettyEntry, Entry;
    if ms != [] {
      SqueezePretty(ms[0].value, depth);
      SqueezeEntry(ms[0].key, Pretty(ms[0].value, depth), Compact(ms[0].value));
      SqueezeMembers(ms[1..], depth);
      assert CompactMembers(ms)[1..] == CompactMembers(ms[1..]);
    }
  }

  /** Indented text determines the value, members in order. */
  lemma PrettyInjective(u: Json, v: Json)
    requires Valid(u) && Plain(u) && Valid(v) && Plain(v) && Pretty(u, 0) == Pretty(v, 0)
    ensures u == v
  {
    SqueezePretty(u, 0);
    SqueezePretty(v, 0);
    assert Squeeze(Pretty(u, 0) + [], false) == Compact(u) + Squeeze([], false);
    assert Squeeze(Pretty(v, 0) + [], false) == Compact(v) + Squeeze([], false);
    assert Compact(u) + [] == Compact(u) && Compact(v) + [] == Compact(v);
    CompactInjective(u, v);
  }

  // ---- indented text is well-formed

  lemma AsciiWellFormed(s: Str)
    requires forall i | 0 <= i < |s| :: s[i] < 0x80
    ensures WellFormed(s)
  {
    Utf8Ascii(s);
  }

  lemma JoinedWellFormed(s: Str, t: Str)
    requires WellFormed(s) && WellFormed(t)
    ensures WellFormed(s + t)
  {
    Utf8Concat(s, t);
  }

  lemma {:induction false} BlanksAscii(n: nat)
    ensures forall i | 0 <= i < |Blanks(n)| :: Blanks(n)[i] < 0x80
  {
    if n > 0 {
      BlanksAscii(n - 1);
    }
  }

  lemma IndentWellFormed(depth: nat)
    ensures WellFormed(Indent(depth))
  {
    BlanksAscii(2 * depth);
    AsciiWellFormed(Indent(depth));
  }

  lemma {:induction false} LinesWellFormed(parts: seq<Str>, depth: nat)
    requires forall i | 0 <= i < |parts| :: WellFormed(parts[i])
    ensures WellFormed(JoinLines(parts, depth))
  {
    hide WellFormed, Indent;
    if parts == [] {
      AsciiWellFormed([]);
    } else if |parts| > 1 {
      var rest := JoinLines(parts[1..], depth);
      LinesWellFormed(parts[1..], depth);
      IndentWellFormed(depth);
      AsciiWellFormed([COMMA]);
      JoinedWellFormed(Indent(depth), rest);
      JoinedWellFormed([COMMA], Indent(depth) + rest);
      JoinedWellFormed(parts[0], [COMMA] + (Indent(depth) + rest));
    }
  }

  lemma EnclosedWellFormed(open: unit, parts: seq<Str>, close: unit, depth: nat)
    requires open < 0x80 && close < 0x80 && forall i | 0 <= i < |parts| :: WellFormed(parts[i])
    ensures WellFormed(Enclosed(open, parts, close, depth))
  {
    hide WellFormed, Indent, JoinLines;
    AsciiWellFormed([open, close]);
    AsciiWellFormed([open]);
    AsciiWellFormed([close]);
    var lines := JoinLines(parts, depth + 1);
    LinesWellFormed(parts, depth + 1);
    IndentWellFormed(depth);
    IndentWellFormed(depth + 1);
    JoinedWellFormed(Indent(depth), [close]);
    JoinedWellFormed(lines, Indent(depth) + [close]);
    JoinedWellFormed(Indent(depth + 1), lines + (Indent(depth) + [close]));
    JoinedWellFormed([open], Indent(depth + 1) + (lines + (Indent(depth) + [close])));
  }

  lemma EntryWellFormed(key: Str, text: Str)
    requires WellFormed(text)
    ensures WellFormed(PrettyEntry(key, text))
  {
    hide Quote;
    QuoteClean(key);
    AsciiWellFormed([COLON]);
    AsciiWellFormed([BLANK]);
    JoinedWellFormed([BLANK], text);
    JoinedWellFormed([COLON], [BLANK] + text);
    JoinedWellFormed(Quote(key), [COLON] + ([BLANK] + text));
  }

  lemma {:induction false} PrettyWellFormed(v: Json, depth: nat)
    requires Valid(v)
    ensures WellFormed(Pretty(v, depth))
    decreases v, 0
  {
    hide WellFormed, Enclosed, Compact, PrettyItems, PrettyMembers;
    match v
    case Arr(items) =>
      ItemsWellFormed(items, depth + 1);
      EnclosedWellFormed(0x5B, PrettyItems(items, depth + 1), RBRACKET, depth);
    case Obj(ms) =>
      MembersWellFormed(ms, depth + 1);
      EnclosedWellFormed(0x7B, PrettyMembers(ms, depth + 1), RBRACE, depth);
    case _ =>
      CompactClean(v);
  }

  lemma {:induction false} ItemsWellFormed(items: seq<Json>, depth: nat)
    requires forall i | 0 <= i < |items| :: Valid(items[i])
    ensures forall i | 0 <= i < |items| :: WellFormed(PrettyItems(items, depth)[i])
    decreases items, 1
  {
    hide WellFormed, Pretty;
    if items != [] {
      PrettyWellFormed(items[0], depth);
      ItemsWellFormed(items[1..], depth);
    }
  }

  lemma {:induction false} MembersWellFormed(ms: seq<Keyed<Json>>, depth: nat)
    requires forall i | 0 <= i < |ms| :: Valid(ms[i].value)
    ensures forall i | 0 <= i < |ms| :: WellFormed(PrettyMembers(ms, depth)[i])
    decreases ms, 1
  {
    hide WellFormed, Pretty, PrettyEntry;
    if ms != [] {
      PrettyWellFormed(ms[0].value, depth);
      EntryWellFormed(ms[0].key, Pretty(ms[0].value, depth));
      MembersWellFormed(ms[1..], depth);
    }
  }
}
