/** How a session is named: one line, cut at a bound, never inside a surrogate pair. */
module SessionNames {
  import opened Text

  const ELLIPSIS: unit := 0x2026
  const SPACE: unit := 0x20

  /** What `\s` matches, and `trim` takes off. */
  predicate IsSpace(u: unit) {
    0x09 <= u <= 0x0D || u == SPACE || u == 0xA0 || u == 0x1680 || 0x2000 <= u <= 0x200A || u == 0x2028 || u == 0x2029
    || u == 0x202F || u == 0x205F || u == 0x3000 || u == 0xFEFF
  }

  // ---- clipping

  /** `clipWords`. */
  function ClipWords(s: Str, n: int): Str {
    if |s| <= n then s
    else
      var keep := if n - 1 > 0 then n - 1 else 0;
      var cut := s[..if keep < |s| then keep else |s|];
      var whole := if cut != [] && IsHigh(cut[|cut| - 1]) then cut[..|cut| - 1] else cut;
      whole + [ELLIPSIS]
  }

  /** The bound is kept exactly for positive bounds, and for nothing cut to nothing. */
  lemma ClipBound(s: Str, n: int)
    ensures |ClipWords(s, n)| <= n <==> n >= 1 || (n == 0 && s == [])
  {
  }

  lemma ClipExceedsZero()
    ensures |ClipWords([SPACE], 0)| == 1
  {
  }

  /** Cutting a well-formed string before anything but a high surrogate's partner leaves it well-formed. */
  lemma {:induction false} PrefixWellFormed(s: Str, k: nat)
    requires WellFormed(s) && k <= |s| && (k > 0 ==> !IsHigh(s[k - 1]))
    ensures WellFormed(s[..k])
  {
    if k > 0 {
      var w := Width(s);
      if w == 2 {
        assert k > 1;
      }
      PrefixWellFormed(s[w..], k - w);
      assert s[..k][w..] == s[w..][..k - w];
      assert Paired(s[..k]) == Paired(s);
    }
  }

  lemma {:induction false} BeforeHigh(s: Str, k: nat)
    requires WellFormed(s) && 1 < k <= |s| && IsHigh(s[k - 1])
    ensures !IsHigh(s[k - 2])
  {
    var w := Width(s);
    if k > w + 1 {
      BeforeHigh(s[w..], k - w);
    }
  }

  lemma {:induction false} EndsWhole(s: Str)
    requires WellFormed(s) && s != []
    ensures !IsHigh(s[|s| - 1])
  {
    var w := Width(s);
    if |s| > w {
      EndsWhole(s[w..]);
    }
  }

  /** How many units a bound leaves before the ellipsis. */
  function Room(n: int): nat {
    if n > 1 then n - 1 else 0
  }

  /** Where a clip cuts: one unit short of the bound, or two where that would split a pair. */
  lemma ClipCut(s: Str, n: int) returns (j: nat)
    requires |s| > n
    ensures j <= |s| && ClipWords(s, n) == s[..j] + [ELLIPSIS]
    ensures j == Room(n) || (j + 1 == Room(n) && IsHigh(s[j]))
    ensures j > 0 && IsHigh(s[j - 1]) ==> j < |s| && IsHigh(s[j])
  {
    var k := Room(n);
    j := if k > 0 && IsHigh(s[k - 1]) then k - 1 else k;
    assert s[..k][..j] == s[..j];
  }

  /** The clip is an ellipsis after the longest well-formed prefix that leaves room for it. */
  ghost predicate ClippedAt(s: Str, n: int, j: nat) {
    && j <= Room(n) && j <= |s| && ClipWords(s, n) == s[..j] + [ELLIPSIS] && WellFormed(s[..j])
    && forall k | j < k <= Room(n) && k <= |s| :: !WellFormed(s[..k])
  }

  lemma ClipShort(s: Str, n: int)
    requires |s| <= n
    ensures ClipWords(s, n) == s
  {
  }

  lemma EllipsisWellFormed()
    ensures WellFormed([ELLIPSIS])
  {
    assert [ELLIPSIS][1..] == [];
  }

  /** A clip of a well-formed string is well-formed: the whole string, or the longest well-formed prefix of it that leaves
      room for an ellipsis, and the ellipsis. */
  lemma ClipWellFormed(s: Str, n: int)
    requires WellFormed(s)
    ensures WellFormed(ClipWords(s, n))
    ensures |s| <= n ==> ClipWords(s, n) == s
    ensures |s| > n ==> exists j :: ClippedAt(s, n, j)
  {
    hide ClipWords, WellFormed, Utf8, FirstPoint, EncodePoint;
    if |s| > n {
      var j := ClipCut(s, n);
      if j > 0 && IsHigh(s[j - 1]) {
        BeforeHigh(s, j + 1);
      }
      PrefixWellFormed(s, j);
      EllipsisWellFormed();
      Utf8Concat(s[..j], [ELLIPSIS]);
      forall k | j < k <= Room(n) && k <= |s| ensures !WellFormed(s[..k]) {
        if WellFormed(s[..k]) {
          EndsWhole(s[..k]);
        }
      }
      assert ClippedAt(s, n, j);
    } else {
      ClipShort(s, n);
    }
  }

  // ---- collapsing white space

  /** Where the white space `s` starts with ends. */
  function SpaceRun(s: Str): (n: nat)
    ensures n <= |s| && (n < |s| ==> !IsSpace(s[n])) && forall i | 0 <= i < n :: IsSpace(s[i])
  {
    if s == [] || !IsSpace(s[0]) then 0 else 1 + SpaceRun(s[1..])
  }

  /** `s.replace(/\s+/g, " ")`. */
  function RunsToSpace(s: Str): Str
    decreases |s|
  {
    if s == [] then []
    else if IsSpace(s[0]) then
      assert SpaceRun(s) > 0;
      [SPACE] + RunsToSpace(s[SpaceRun(s)..])
    else [s[0]] + RunsToSpace(s[1..])
  }

  function TrimEnd(s: Str): Str {
    if s != [] && IsSpace(s[|s| - 1]) then TrimEnd(s[..|s| - 1]) else s
  }

  /** `collapseWords`. */
  function CollapseWords(s: Str): Str {
    var t := RunsToSpace(s);
    TrimEnd(t[SpaceRun(t)..])
  }

  function OneLineWords(s: Str, n: int): Str {
    ClipWords(CollapseWords(s), n)
  }

  /** Single plain spaces between words. */
  predicate SingleSpaces(t: Str) {
    (forall i | 0 <= i < |t| && IsSpace(t[i]) :: t[i] == SPACE)
    && forall i | 0 < i < |t| && IsSpace(t[i]) :: !IsSpace(t[i - 1])
  }

  /** One line of words: single spaces, none at either end. */
  predicate Collapsed(t: Str) {
    SingleSpaces(t) && (t != [] ==> !IsSpace(t[0]) && !IsSpace(t[|t| - 1]))
  }

  lemma {:induction false} RunsAreSingle(s: Str)
    ensures SingleSpaces(RunsToSpace(s))
    ensures s != [] ==> RunsToSpace(s) != [] && (IsSpace(RunsToSpace(s)[0]) <==> IsSpace(s[0]))
    decreases |s|
  {
    if s != [] {
      RunsAreSingle(if IsSpace(s[0]) then s[SpaceRun(s)..] else s[1..]);
    }
  }

  lemma {:induction false} TrimEndIs(s: Str)
    ensures TrimEnd(s) <= s && (TrimEnd(s) != [] ==> !IsSpace(TrimEnd(s)[|TrimEnd(s)| - 1]))
    ensures (s == [] || !IsSpace(s[|s| - 1])) ==> TrimEnd(s) == s
  {
    if s != [] && IsSpace(s[|s| - 1]) {
      TrimEndIs(s[..|s| - 1]);
    }
  }

  lemma {:induction false} SingleIsFixed(t: Str)
    requires SingleSpaces(t)
    ensures RunsToSpace(t) == t
  {
    if t != [] {
      assert SingleSpaces(t[1..]);
      SingleIsFixed(t[1..]);
      assert t == [t[0]] + t[1..];
      if IsSpace(t[0]) {
        assert |t| > 1 ==> !IsSpace(t[1]);
        assert SpaceRun(t) == 1;
      }
    }
  }

  lemma SingleWithin(t: Str, from: nat, to: nat)
    requires SingleSpaces(t) && from <= to <= |t|
    ensures SingleSpaces(t[from..to])
  {
    var u := t[from..to];
    forall i | 0 <= i < |u| && IsSpace(u[i]) ensures u[i] == SPACE && (i > 0 ==> !IsSpace(u[i - 1])) {
      assert u[i] == t[from + i] && (i > 0 ==> u[i - 1] == t[from + i - 1]);
    }
  }

  lemma TrimmedCollapsed(t: Str)
    requires SingleSpaces(t)
    ensures Collapsed(TrimEnd(t[SpaceRun(t)..]))
  {
    hide SingleSpaces, TrimEnd, IsSpace;
    var from := SpaceRun(t);
    TrimEndIs(t[from..]);
    var r := TrimEnd(t[from..]);
    SingleWithin(t, from, from + |r|);
    assert r == t[from..from + |r|];
  }

  lemma CollapsedStays(s: Str)
    requires Collapsed(s)
    ensures CollapseWords(s) == s
  {
    SingleIsFixed(s);
    assert SpaceRun(s) == 0 && s[0..] == s;
    TrimEndIs(s);
  }

  /** Collapsing gives one line of words, and leaves such lines alone. */
  lemma CollapseExact(s: Str)
    ensures Collapsed(CollapseWords(s))
    ensures CollapseWords(s) == s <==> Collapsed(s)
  {
    hide Collapsed, SingleSpaces, SpaceRun;
    RunsAreSingle(s);
    TrimmedCollapsed(RunsToSpace(s));
    if Collapsed(s) {
      CollapsedStays(s);
    }
  }

  /** The runs of units that are no white space. */
  function Words(s: Str): (ws: seq<Str>)
    ensures s != [] && !IsSpace(s[0]) ==> ws != []
  {
    if s == [] then []
    else
      var rest := Words(s[1..]);
      if IsSpace(s[0]) then rest
      else if |s| > 1 && !IsSpace(s[1]) then [[s[0]] + rest[0]] + rest[1..]
      else [[s[0]]] + rest
  }

  /** Words with one space between. */
  function Joined(ws: seq<Str>): Str {
    if ws == [] then [] else if |ws| == 1 then ws[0] else ws[0] + [SPACE] + Joined(ws[1..])
  }

  lemma {:induction false} WordsAfter(s: Str, k: nat)
    requires k <= |s| && forall i | 0 <= i < k :: IsSpace(s[i])
    ensures Words(s[k..]) == Words(s)
  {
    if k == 0 {
      assert s[0..] == s;
    } else {
      WordsAfter(s[1..], k - 1);
      assert s[1..][k - 1..] == s[k..];
    }
  }

  lemma {:induction false} WordsBefore(s: Str, u: unit)
    requires IsSpace(u)
    ensures Words(s + [u]) == Words(s)
  {
    if s == [] {
      assert [u][1..] == [];
    } else {
      WordsBefore(s[1..], u);
      assert (s + [u])[1..] == s[1..] + [u];
    }
  }

  lemma {:induction false} WordsTrimmed(s: Str)
    ensures Words(TrimEnd(s)) == Words(s)
  {
    if s != [] && IsSpace(s[|s| - 1]) {
      WordsTrimmed(s[..|s| - 1]);
      WordsBefore(s[..|s| - 1], s[|s| - 1]);
      assert s == s[..|s| - 1] + [s[|s| - 1]];
    }
  }

  lemma {:induction false} WordsOfRuns(s: Str)
    ensures Words(RunsToSpace(s)) == Words(s)
    decreases |s|
  {
    if s != [] {
      var n := if IsSpace(s[0]) then SpaceRun(s) else 1;
      WordsOfRuns(s[n..]);
      RunsAreSingle(s[n..]);
      var r := RunsToSpace(s[n..]);
      assert RunsToSpace(s) == [if IsSpace(s[0]) then SPACE else s[0]] + r && RunsToSpace(s)[1..] == r;
      if IsSpace(s[0]) {
        WordsAfter(s, n);
      }
    }
  }

  lemma CollapsedRest(t: Str, k: nat)
    requires Collapsed(t) && |t| > 1 && k == if IsSpace(t[1]) then 2 else 1
    ensures k < |t| && Collapsed(t[k..])
  {
    if k == 2 {
      assert |t| > 2 && !IsSpace(t[2]);
    }
    SingleWithin(t, k, |t|);
  }

  lemma JoinedPrepend(u: unit, ws: seq<Str>)
    requires ws != []
    ensures Joined([[u] + ws[0]] + ws[1..]) == [u] + Joined(ws)
  {
    hide IsSpace;
    var vs := [[u] + ws[0]] + ws[1..];
    assert vs[1..] == ws[1..];
    assert |ws| > 1 ==> [u] + ws[0] + [SPACE] + Joined(ws[1..]) == [u] + (ws[0] + [SPACE] + Joined(ws[1..]));
  }

  /** A collapsed line, or one that starts inside a word, is its words with one space between. */
  lemma {:induction false} JoinedWords(t: Str)
    requires Collapsed(t)
    ensures Joined(Words(t)) == t
  {
    if |t| == 1 {
      assert t[1..] == [];
    } else if |t| > 1 {
      var k := if IsSpace(t[1]) then 2 else 1;
      CollapsedRest(t, k);
      JoinedWords(t[k..]);
      assert t == t[..k] + t[k..];
      if k == 2 {
        assert t[1..][1..] == t[2..] && t[..2] == [t[0], SPACE];
      } else {
        JoinedPrepend(t[0], Words(t[1..]));
      }
    }
  }

  /** Collapsing gives exactly the words, in order, with one space between. */
  lemma CollapseJoins(s: Str)
    ensures CollapseWords(s) == Joined(Words(s))
  {
    hide Words, Joined, Collapsed;
    var t := RunsToSpace(s);
    WordsOfRuns(s);
    WordsAfter(t, SpaceRun(t));
    WordsTrimmed(t[SpaceRun(t)..]);
    CollapseExact(s);
    JoinedWords(CollapseWords(s));
  }

  lemma CutCollapsed(t: Str, j: nat)
    requires Collapsed(t) && j <= |t|
    ensures Collapsed(t[..j] + [ELLIPSIS])
  {
    var c := t[..j] + [ELLIPSIS];
    forall i | 0 <= i < |c| && IsSpace(c[i]) ensures i < j && c[i] == SPACE && (i > 0 ==> !IsSpace(c[i - 1])) {
      assert i < j && c[i] == t[i] && (i > 0 ==> c[i - 1] == t[i - 1]);
    }
  }

  /** A bound that is not positive leaves the ellipsis alone. */
  lemma ClipToNothing(t: Str, n: int)
    requires n <= 0 && |t| > n
    ensures ClipWords(t, n) == [ELLIPSIS]
  {
  }

  lemma ClipCollapsed(t: Str, n: int)
    requires Collapsed(t)
    ensures Collapsed(ClipWords(t, n)) && ClipWords(ClipWords(t, n), n) == ClipWords(t, n)
  {
    hide ClipWords, Collapsed, SingleSpaces;
    if |t| <= n {
      ClipShort(t, n);
    } else {
      var j := ClipCut(t, n);
      CutCollapsed(t, j);
      ClipBound(t, n);
      if n >= 1 {
        ClipShort(ClipWords(t, n), n);
      } else {
        ClipToNothing(t, n);
        ClipToNothing([ELLIPSIS], n);
      }
    }
  }

  /** One line stays as it is when it is made one line again, for any bound. */
  lemma OneLineIdempotent(s: Str, n: int)
    ensures Collapsed(OneLineWords(s, n)) && OneLineWords(OneLineWords(s, n), n) == OneLineWords(s, n)
  {
    CollapseExact(s);
    ClipCollapsed(CollapseWords(s), n);
    CollapseExact(OneLineWords(s, n));
  }

  // ---- the session's name

  datatype SessionNaming = SessionNaming(title: Option<Str>, agentLabel: Option<Str>, folder: Option<Str>, id: Str)

  function Said(t: Option<Str>): Option<Str> {
    if t.None? || CollapseWords(t.value) == [] then None else Some(CollapseWords(t.value))
  }

  /** `sessionName` at a bound. */
  function SessionName(run: SessionNaming, max: int): Str {
    if Said(run.title).Some? then OneLineWords(Said(run.title).value, max)
    else if Said(run.agentLabel).None? then OneLineWords(run.id, max)
    else if Said(run.folder).None? then OneLineWords(Said(run.agentLabel).value, max)
    else OneLineWords(Said(run.agentLabel).value + (Lit(" in ") + Said(run.folder).value), max)
  }

  lemma {:induction false} InfixCollapsed(a: Str, b: Str)
    requires Collapsed(a) && Collapsed(b) && a != [] && b != []
    ensures Collapsed(a + (Lit(" in ") + b))
  {
    var m := Lit(" in ");
    var t := a + (m + b);
    assert t[0] == a[0] && t[|t| - 1] == b[|b| - 1];
    forall i | 0 <= i < |t| && IsSpace(t[i]) ensures t[i] == SPACE && (i > 0 ==> !IsSpace(t[i - 1])) {
      if i < |a| {
        assert t[i] == a[i] && (i > 0 ==> t[i - 1] == a[i - 1]);
      } else if i < |a| + 4 {
        assert t[i] == m[i - |a|] && (i > |a| ==> t[i - 1] == m[i - |a| - 1]);
        assert i == |a| ==> t[i - 1] == a[|a| - 1];
      } else {
        assert t[i] == b[i - |a| - 4] && (i > |a| + 4 ==> t[i - 1] == b[i - |a| - 5]);
      }
    }
  }

  /** The words a session is named by: its title, else its agent's label, in its folder where it has one, else its id. */
  function NamingWords(run: SessionNaming): Str {
    var title, agent, folder := Said(run.title), Said(run.agentLabel), Said(run.folder);
    match (title, agent, folder)
    case (Some(t), _, _) => t
    case (None, Some(a), Some(f)) => a + (Lit(" in ") + f)
    case (None, Some(a), None) => a
    case (None, None, _) => CollapseWords(run.id)
  }

  lemma WordsCollapsed(run: SessionNaming)
    ensures Collapsed(NamingWords(run))
  {
    hide CollapseWords, Collapsed;
    CollapseExact(run.id);
    if run.title.Some? { CollapseExact(run.title.value); }
    if run.agentLabel.Some? { CollapseExact(run.agentLabel.value); }
    if run.folder.Some? { CollapseExact(run.folder.value); }
    if Said(run.agentLabel).Some? && Said(run.folder).Some? {
      InfixCollapsed(Said(run.agentLabel).value, Said(run.folder).value);
    }
  }

  /** A name is one line within a positive bound: its words as they are where they fit, else a clip of them. Words that
      are already one line are not touched again. */
  lemma SessionNameExact(run: SessionNaming, max: int)
    requires max >= 1
    ensures Collapsed(SessionName(run, max)) && |SessionName(run, max)| <= max
    ensures |NamingWords(run)| <= max <==> SessionName(run, max) == NamingWords(run)
    ensures |NamingWords(run)| > max ==> SessionName(run, max) == ClipWords(NamingWords(run), max)
  {
    hide CollapseWords, Collapsed, ClipWords;
    var words := NamingWords(run);
    WordsCollapsed(run);
    CollapseExact(words);
    CollapseExact(run.id);
    CollapseExact(CollapseWords(run.id));
    assert SessionName(run, max) == ClipWords(words, max);
    ClipBound(words, max);
    ClipCollapsed(words, max);
    if |words| <= max {
      ClipShort(words, max);
    }
  }
}
