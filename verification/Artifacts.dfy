/** Made apps' fold keys, and the root URL an artifact's listener may claim. */
module Artifacts {
  import opened Text
  import opened Verify
  import opened SegmentNames

  const COLON: unit := 0x3A
  const SLASH: unit := 0x2F
  const DASH: unit := 0x2D

  predicate Lower(u: unit) { 0x61 <= u <= 0x7A }
  predicate DigitUnit(u: unit) { 0x30 <= u <= 0x39 }

  // ---- fold keys

  /** A parsed catalog row, as far as its key goes. */
  datatype AppRow = AppRow(device: Str, appId: Str, kind: Option<Str>, nativeId: Option<Str>, hostedUrl: Option<Str>)

  /** What the row schema admits: kinds are lowercase words, app ids 64 hex digits. Ids, URLs and devices are free. */
  predicate ParsedRow(row: AppRow) {
    && |row.appId| == 64
    && (row.kind.Some? ==> forall i | 0 <= i < |row.kind.value| ::
         Lower(row.kind.value[i]) || DigitUnit(row.kind.value[i]) || row.kind.value[i] == DASH)
  }

  predicate NonEmpty(t: Option<Str>) { t.Some? && t.value != [] }

  /** `madeAppFoldKey`. */
  function MadeAppFoldKey(row: AppRow): Str {
    if NonEmpty(row.kind) && NonEmpty(row.nativeId) then Lit("native:") + (row.kind.value + ([COLON] + row.nativeId.value))
    else if NonEmpty(row.hostedUrl) then Lit("hosted:") + row.hostedUrl.value
    else Lit("app:") + (row.device + ([COLON] + row.appId))
  }

  /** What one app is across desktops. */
  datatype Identity = Native(kind: Str, nativeId: Str) | Hosted(url: Str) | OnDesktop(device: Str, appId: Str)

  function IdentityOf(row: AppRow): Identity {
    if NonEmpty(row.kind) && NonEmpty(row.nativeId) then Native(row.kind.value, row.nativeId.value)
    else if NonEmpty(row.hostedUrl) then Hosted(row.hostedUrl.value)
    else OnDesktop(row.device, row.appId)
  }

  /** Two rows fold exactly when they are one identity, whatever colons ids, URLs and devices hold. */
  lemma FoldKeyExact(r: AppRow, s: AppRow)
    requires ParsedRow(r) && ParsedRow(s)
    ensures MadeAppFoldKey(r) == MadeAppFoldKey(s) <==> IdentityOf(r) == IdentityOf(s)
  {
    var k, l := MadeAppFoldKey(r), MadeAppFoldKey(s);
    if k == l {
      assert k[0] == l[0];
      match IdentityOf(r)
      case Native(kind, id) =>
        assert k[7..] == kind + ([COLON] + id) && l[7..] == s.kind.value + ([COLON] + s.nativeId.value);
        FirstSeparator(COLON, kind, id, s.kind.value, s.nativeId.value);
      case Hosted(url) =>
        assert k[7..] == url && l[7..] == s.hostedUrl.value;
      case OnDesktop(device, appId) =>
        assert k[4..] == device + ([COLON] + appId) && l[4..] == s.device + ([COLON] + s.appId);
        SameLength(device, s.device, [COLON] + appId, [COLON] + s.appId);
        assert appId == ([COLON] + appId)[1..] && s.appId == ([COLON] + s.appId)[1..];
    }
  }

  // ---- DNS names

  function IndexOfUnit(s: Str, u: unit): (n: nat)
    ensures n <= |s| && (n < |s| ==> s[n] == u) && forall i | 0 <= i < n :: s[i] != u
  {
    if s == [] || s[0] == u then 0 else 1 + IndexOfUnit(s[1..], u)
  }

  function SplitDots(s: Str): (labels: seq<Str>)
    ensures labels != []
    decreases |s|
  {
    var n := IndexOfUnit(s, DOT);
    if n == |s| then [s] else [s[..n]] + SplitDots(s[n + 1..])
  }

  function JoinDots(labels: seq<Str>): Str {
    if labels == [] then [] else if |labels| == 1 then labels[0] else labels[0] + ([DOT] + JoinDots(labels[1..]))
  }

  predicate LabelUnit(u: unit) { Lower(u) || DigitUnit(u) || u == DASH }

  /** A DNS label: lowercase letters, digits and inner dashes. */
  predicate DnsLabel(t: Str) {
    && t != [] && (forall i | 0 <= i < |t| :: LabelUnit(t[i]))
    && t[0] != DASH && t[|t| - 1] != DASH
  }

  predicate GoodLabels(labels: seq<Str>) {
    forall i | 0 <= i < |labels| :: |labels[i]| <= 63 && DnsLabel(labels[i])
  }

  /** `isCanonicalDnsName`. */
  predicate IsCanonicalDnsName(host: Str) {
    0 < |host| <= 253 && (exists i | 0 <= i < |host| :: host[i] == DOT) && GoodLabels(SplitDots(host))
  }

  lemma JoinCons(first: Str, labels: seq<Str>)
    requires labels != []
    ensures JoinDots([first] + labels) == first + ([DOT] + JoinDots(labels))
  {
    assert ([first] + labels)[1..] == labels;
  }

  lemma JoinOne(only: Str)
    ensures JoinDots([only]) == only
  {
  }

  lemma {:induction false} SplitThenJoin(s: Str)
    ensures JoinDots(SplitDots(s)) == s
    ensures |SplitDots(s)| > 1 <==> IndexOfUnit(s, DOT) < |s|
    decreases |s|
  {
    hide IndexOfUnit, JoinDots;
    var n := IndexOfUnit(s, DOT);
    if n < |s| {
      SplitThenJoin(s[n + 1..]);
      JoinCons(s[..n], SplitDots(s[n + 1..]));
      assert s == s[..n] + ([DOT] + s[n + 1..]);
    } else {
      JoinOne(s);
    }
  }

  lemma FirstDot(a: Str, x: Str)
    requires Dotless(a)
    ensures IndexOfUnit(a + ([DOT] + x), DOT) == |a|
  {
    var s := a + ([DOT] + x);
    assert s[|a|] == DOT;
    assert forall i | 0 <= i < |a| :: s[i] == a[i];
  }

  lemma SplitFirst(a: Str, x: Str)
    requires Dotless(a)
    ensures SplitDots(a + ([DOT] + x)) == [a] + SplitDots(x) && SplitDots(a) == [a]
  {
    hide IndexOfUnit;
    FirstDot(a, x);
    var s := a + ([DOT] + x);
    assert s[..|a|] == a && s[|a| + 1..] == x;
    assert IndexOfUnit(a, DOT) == |a|;
  }

  lemma {:induction false} JoinThenSplit(labels: seq<Str>)
    requires labels != [] && forall i | 0 <= i < |labels| :: Dotless(labels[i])
    ensures SplitDots(JoinDots(labels)) == labels
  {
    hide SplitDots, Dotless;
    if |labels| == 1 {
      SplitFirst(labels[0], []);
      assert labels == [labels[0]];
    } else {
      JoinThenSplit(labels[1..]);
      SplitFirst(labels[0], JoinDots(labels[1..]));
      assert labels == [labels[0]] + labels[1..];
    }
  }

  /** The canonical names are the dotted sequences of at least two labels of 1 to 63 units, 253 units at most in all. */
  lemma DnsExact(host: Str)
    ensures IsCanonicalDnsName(host)
      <==> |host| <= 253 && exists labels :: |labels| >= 2 && GoodLabels(labels) && host == JoinDots(labels)
  {
    if IsCanonicalDnsName(host) {
      SplitThenJoin(host);
      var labels := SplitDots(host);
      assert |labels| >= 2 && GoodLabels(labels) && host == JoinDots(labels);
    }
    if |host| <= 253 && exists labels :: |labels| >= 2 && GoodLabels(labels) && host == JoinDots(labels) {
      var labels :| |labels| >= 2 && GoodLabels(labels) && host == JoinDots(labels);
      JoinThenSplit(labels);
      assert host[|labels[0]|] == DOT;
    }
  }

  // ---- root URLs

  const URL_CHARS: nat := 2048
  const PORT_MIN: nat := 10_000
  const PORT_MAX: nat := 19_999

  datatype RootUrl = RootUrl(hostname: Str, port: nat)

  predicate HostStop(u: unit) {
    u == SLASH || u == COLON || u == 0x3F || u == 0x23 || u == 0x40
  }

  /** How far `[^/:?#@]+` reaches. */
  function HostLength(s: Str): (n: nat)
    ensures n <= |s| && (n < |s| ==> HostStop(s[n])) && forall i | 0 <= i < n :: !HostStop(s[i])
  {
    if s == [] || HostStop(s[0]) then 0 else 1 + HostLength(s[1..])
  }

  predicate UrlUnit(u: unit) {
    0x21 <= u <= 0x7E && u != 0x25 && u != 0x5C
  }

  function Scheme(): (s: Str)
    ensures |s| == 8
  { Lit("https://") }

  function WithoutSlash(s: Str): Str {
    if s != [] && s[|s| - 1] == SLASH then s[..|s| - 1] else s
  }

  lemma {:induction false} DigitsNatural(t: Str)
    requires AllDigits(t)
    ensures DigitsValue(t) >= 0
  {
    if t != [] {
      DigitsNatural(t[..|t| - 1]);
    }
  }

  function Number(digits: Str): (n: nat)
    requires AllDigits(digits)
    ensures n == DigitsValue(digits)
  {
    DigitsNatural(digits);
    DigitsValue(digits)
  }

  /** The checks on the two groups the pattern captures, the port with its optional slash. */
  function ClaimTail(host: Str, tail: Str): Option<RootUrl> {
    var port := WithoutSlash(tail);
    if !(1 <= |port| <= 5 && AllDigits(port)) || !IsCanonicalDnsName(host) then None
    else if NatText(Number(port)) != port || !(PORT_MIN <= Number(port) <= PORT_MAX) then None
    else Some(RootUrl(host, Number(port)))
  }

  function ClaimRest(rest: Str): Option<RootUrl> {
    var n := HostLength(rest);
    if n == 0 || n == |rest| || rest[n] != COLON then None else ClaimTail(rest[..n], rest[n + 1..])
  }

  predicate AllUrlUnits(s: Str) {
    forall i | 0 <= i < |s| :: UrlUnit(s[i])
  }

  /** `artifactRootUrlClaim`: the host and port of a root URL, checked on its raw spelling. */
  function ArtifactRootUrlClaim(raw: Str): Option<RootUrl> {
    if |raw| > URL_CHARS || raw == [] || !AllUrlUnits(raw) then None
    else if !(Scheme() <= raw) then None
    else ClaimRest(raw[8..])
  }

  function PrintRest(u: RootUrl): Str {
    u.hostname + ([COLON] + NatText(u.port))
  }

  /** A root URL as Truffle spells it, without the optional slash. */
  function PrintUrl(u: RootUrl): Str {
    Scheme() + PrintRest(u)
  }

  predicate GoodUrl(u: RootUrl) {
    IsCanonicalDnsName(u.hostname) && PORT_MIN <= u.port <= PORT_MAX
  }

  lemma {:induction false} JoinUnits(labels: seq<Str>)
    requires GoodLabels(labels)
    ensures forall i | 0 <= i < |JoinDots(labels)| :: LabelUnit(JoinDots(labels)[i]) || JoinDots(labels)[i] == DOT
  {
    if |labels| == 1 {
      assert DnsLabel(labels[0]);
    } else if labels != [] {
      assert DnsLabel(labels[0]);
      JoinUnits(labels[1..]);
    }
  }

  lemma HostUnits(host: Str)
    requires IsCanonicalDnsName(host)
    ensures forall i | 0 <= i < |host| :: UrlUnit(host[i]) && !HostStop(host[i])
  {
    SplitThenJoin(host);
    JoinUnits(SplitDots(host));
  }

  lemma PortText(port: nat)
    requires PORT_MIN <= port <= PORT_MAX
    ensures 1 <= |NatText(port)| <= 5 && AllDigits(NatText(port)) && Number(NatText(port)) == port
    ensures NatText(port)[|NatText(port)| - 1] != SLASH
  {
    NatTextValue(port);
    NatTextLength(port, 5, Pow10(5));
  }

  lemma TailExact(host: Str, tail: Str, u: RootUrl)
    ensures ClaimTail(host, tail) == Some(u)
      <==> GoodUrl(u) && host == u.hostname && (tail == NatText(u.port) || tail == NatText(u.port) + [SLASH])
  {
    hide IsCanonicalDnsName, NatText, DigitsValue;
    if GoodUrl(u) && (tail == NatText(u.port) || tail == NatText(u.port) + [SLASH]) {
      PortText(u.port);
      assert WithoutSlash(tail) == NatText(u.port);
    }
    if ClaimTail(host, tail) == Some(u) && tail != NatText(u.port) {
      assert tail == tail[..|tail| - 1] + [SLASH];
    }
  }

  lemma HostStops(host: Str, tail: Str)
    requires forall i | 0 <= i < |host| :: !HostStop(host[i])
    ensures HostLength(host + ([COLON] + tail)) == |host|
  {
    hide HostLength;
    var rest := host + ([COLON] + tail);
    var n := HostLength(rest);
    assert rest[|host|] == COLON;
    assert forall i | 0 <= i < |host| :: rest[i] == host[i] && !HostStop(rest[i]);
  }

  lemma NameNotEmpty(host: Str)
    requires IsCanonicalDnsName(host)
    ensures 0 < |host| <= 253
  {
  }

  lemma RestExact(rest: Str, u: RootUrl)
    ensures ClaimRest(rest) == Some(u) <==> GoodUrl(u) && (rest == PrintRest(u) || rest == PrintRest(u) + [SLASH])
  {
    hide ClaimTail, HostLength, IsCanonicalDnsName, NatText, HostStop, UrlUnit;
    var n := HostLength(rest);
    if n < |rest| && rest[n] == COLON {
      var host, tail := rest[..n], rest[n + 1..];
      TailExact(host, tail, u);
      assert rest == host + ([COLON] + tail);
      assert (host + ([COLON] + NatText(u.port))) + [SLASH] == host + ([COLON] + (NatText(u.port) + [SLASH]));
    }
    if GoodUrl(u) && (rest == PrintRest(u) || rest == PrintRest(u) + [SLASH]) {
      var tail := if rest == PrintRest(u) then NatText(u.port) else NatText(u.port) + [SLASH];
      assert rest == u.hostname + ([COLON] + tail);
      HostUnits(u.hostname);
      HostStops(u.hostname, tail);
      assert rest[..|u.hostname|] == u.hostname && rest[|u.hostname| + 1..] == tail && rest[|u.hostname|] == COLON;
      TailExact(u.hostname, tail, u);
      NameNotEmpty(u.hostname);
    }
  }

  lemma {:induction false} UnitsConcat(s: Str, t: Str)
    ensures AllUrlUnits(s) && AllUrlUnits(t) ==> AllUrlUnits(s + t)
  {
    hide UrlUnit;
  }

  lemma PrintedUnits(u: RootUrl)
    requires GoodUrl(u)
    ensures AllUrlUnits(PrintUrl(u)) && AllUrlUnits(PrintUrl(u) + [SLASH]) && |PrintUrl(u)| <= 268
  {
    hide IsCanonicalDnsName, NatText;
    HostUnits(u.hostname);
    PortText(u.port);
    NameNotEmpty(u.hostname);
    assert AllUrlUnits(Scheme()) && AllUrlUnits([COLON]) && AllUrlUnits([SLASH]) && AllUrlUnits(NatText(u.port));
    UnitsConcat([COLON], NatText(u.port));
    UnitsConcat(u.hostname, [COLON] + NatText(u.port));
    UnitsConcat(Scheme(), PrintRest(u));
    UnitsConcat(PrintUrl(u), [SLASH]);
  }

  /** The claim accepts exactly the printed root URLs, with or without one slash, and printing what it answers gives the
      input back up to that slash. */
  lemma ClaimExact(raw: Str, u: RootUrl)
    ensures ArtifactRootUrlClaim(raw) == Some(u) <==> GoodUrl(u) && (raw == PrintUrl(u) || raw == PrintUrl(u) + [SLASH])
  {
    hide ClaimRest, GoodUrl, PrintRest, Scheme, AllUrlUnits;
    if Scheme() <= raw {
      assert raw == Scheme() + raw[8..];
      RestExact(raw[8..], u);
      assert Scheme() + (PrintRest(u) + [SLASH]) == (Scheme() + PrintRest(u)) + [SLASH];
    }
    if GoodUrl(u) && (raw == PrintUrl(u) || raw == PrintUrl(u) + [SLASH]) {
      PrintedUnits(u);
      assert raw[..8] == Scheme();
      assert raw[8..] == if raw == PrintUrl(u) then PrintRest(u) else PrintRest(u) + [SLASH];
    }
  }
}
