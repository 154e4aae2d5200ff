/** The canonical text a record is hashed by: keys sorted by code unit (section 3.2.3 of RFC 8785), no white space. */
module Canonical {
  import opened Text
  import opened JsonText
  import opened Json

  // ---- sorting keys

  /** `a` is before `b` in the order `Array.prototype.sort` gives strings. */
  predicate Before(a: Str, b: Str) {
    b != [] && (a == [] || a[0] < b[0] || (a[0] == b[0] && Before(a[1..], b[1..])))
  }

  function Insert<T>(m: Keyed<T>, ms: seq<Keyed<T>>): seq<Keyed<T>> {
    if ms == [] || !Before(ms[0].key, m.key) then [m] + ms else [ms[0]] + Insert(m, ms[1..])
  }

  function SortByKey<T>(ms: seq<Keyed<T>>): seq<Keyed<T>> {
    if ms == [] then [] else Insert(ms[0], SortByKey(ms[1..]))
  }

  predicate StrictlySorted<T>(ms: seq<Keyed<T>>) {
    |ms| > 1 ==> Before(ms[0].key, ms[1].key) && StrictlySorted(ms[1..])
  }

  lemma {:induction false} BeforeTotal(a: Str, b: Str)
    ensures a == b || Before(a, b) || Before(b, a)
  {
    if a != [] && b != [] && a[0] == b[0] {
      BeforeTotal(a[1..], b[1..]);
      assert a == [a[0]] + a[1..] && b == [b[0]] + b[1..];
    }
  }

  lemma {:induction false} BeforeStrict(a: Str, b: Str, c: Str)
    requires Before(a, b) && Before(b, c)
    ensures Before(a, c) && a != c
  {
    if a != [] && a[0] == b[0] == c[0] {
      BeforeStrict(a[1..], b[1..], c[1..]);
    }
  }

  lemma {:induction false} SortedHead<T>(ms: seq<Keyed<T>>, j: nat)
    requires StrictlySorted(ms) && 0 < j < |ms|
    ensures Before(ms[0].key, ms[j].key)
  {
    if j > 1 {
      SortedHead(ms[1..], j - 1);
      BeforeStrict(ms[0].key, ms[1].key, ms[j].key);
    }
  }

  lemma BeforeNotSelf(a: Str)
    ensures !Before(a, a)
  {
    if Before(a, a) {
      BeforeStrict(a, a, a);
    }
  }

  /** The two agree below `k`, and there `a` ends or has the lesser code unit. */
  predicate PartsAt(a: Str, b: Str, k: nat) {
    k <= |a| && k < |b| && a[..k] == b[..k] && (k < |a| ==> a[k] < b[k])
  }

  lemma PartsNext(a: Str, b: Str, k: nat)
    requires a != [] && b != [] && a[0] == b[0]
    ensures PartsAt(a[1..], b[1..], k) <==> PartsAt(a, b, k + 1)
  {
    if k < |a| && k < |b| {
      assert a[..k + 1] == [a[0]] + a[1..][..k] && b[..k + 1] == [b[0]] + b[1..][..k];
      assert a[1..][..k] == a[..k + 1][1..] && b[1..][..k] == b[..k + 1][1..];
    }
  }

  lemma PartsFirst(a: Str, b: Str, k: nat)
    requires PartsAt(a, b, k) && k > 0
    ensures a != [] && b != [] && a[0] == b[0]
  {
    assert a[0] == a[..k][0] && b[0] == b[..k][0];
  }

  /** The order is by the first code unit that differs; a prefix is before what it starts. */
  lemma {:induction false} BeforeExact(a: Str, b: Str)
    ensures Before(a, b) <==> exists k: nat :: PartsAt(a, b, k)
  {
    if a == [] || b == [] || a[0] != b[0] {
      assert PartsAt(a, b, 0) <==> Before(a, b);
      forall k: nat | PartsAt(a, b, k) ensures k == 0 {
        if k > 0 {
          PartsFirst(a, b, k);
        }
      }
    } else {
      BeforeExact(a[1..], b[1..]);
      forall k: nat ensures PartsAt(a[1..], b[1..], k) <==> PartsAt(a, b, k + 1) {
        PartsNext(a, b, k);
      }
      if k: nat :| PartsAt(a, b, k) {
        assert k > 0 && PartsAt(a[1..], b[1..], k - 1);
      }
    }
  }

  lemma {:induction false} InsertSorted<T>(m: Keyed<T>, ms: seq<Keyed<T>>)
    requires StrictlySorted(ms) && forall i | 0 <= i < |ms| :: ms[i].key != m.key
    ensures StrictlySorted(Insert(m, ms)) && |Insert(m, ms)| == |ms| + 1
    ensures Insert(m, ms)[0] == m || (ms != [] && Insert(m, ms)[0] == ms[0])
    ensures forall i | 0 <= i < |Insert(m, ms)| :: Insert(m, ms)[i] == m || Insert(m, ms)[i] in ms
  {
    if ms == [] || !Before(ms[0].key, m.key) {
      if ms != [] {
        BeforeTotal(m.key, ms[0].key);
        assert ([m] + ms)[1..] == ms;
      }
    } else {
      InsertSorted(m, ms[1..]);
      var r := Insert(m, ms[1..]);
      assert ([ms[0]] + r)[1..] == r;
      assert ms == [ms[0]] + ms[1..];
    }
  }

  lemma {:induction false} SortSorted<T>(ms: seq<Keyed<T>>)
    requires DistinctKeys(ms)
    ensures StrictlySorted(SortByKey(ms)) && |SortByKey(ms)| == |ms|
    ensures forall i | 0 <= i < |SortByKey(ms)| :: SortByKey(ms)[i] in ms
  {
    if ms != [] {
      SortSorted(ms[1..]);
      var r := SortByKey(ms[1..]);
      forall i | 0 <= i < |r| ensures r[i].key != ms[0].key {
        assert r[i] in ms[1..];
      }
      InsertSorted(ms[0], r);
      assert ms == [ms[0]] + ms[1..];
    }
  }

  // ---- the canonical text

  function CanonicalText(v: Json): Str
    requires Jsonable(v)
    decreases v, 0
  {
    match v
    case Arr(items) => ArrayText(CanonicalItems(items))
    case Obj(ms) => ObjectText(SortByKey(CanonicalMembers(ms)))
    case _ => Compact(v)
  }

  function CanonicalItems(items: seq<Json>): (r: seq<Str>)
    requires forall i | 0 <= i < |items| :: Jsonable(items[i])
    ensures |r| == |items|
    decreases items, 1
  {
    if items == [] then [] else [CanonicalText(items[0])] + CanonicalItems(items[1..])
  }

  function CanonicalMembers(ms: seq<Keyed<Json>>): (r: seq<Keyed<Str>>)
    requires forall i | 0 <= i < |ms| :: Jsonable(ms[i].value)
    ensures |r| == |ms|
    decreases ms, 1
  {
    if ms == [] then [] else [Keyed(ms[0].key, CanonicalText(ms[0].value))] + CanonicalMembers(ms[1..])
  }

  /** `canonicalAuditJson(v)`, or None where it throws. */
  function CanonicalAuditJson(v: Json): (r: Option<Str>) {
    if Jsonable(v) then Some(CanonicalText(v)) else None
  }

  // ---- normal forms

  /** The value with every object's keys sorted, and what prints as null replaced by null. */
  function Normal(v: Json): Json
    decreases v, 0
  {
    match v
    case NonFinite => Null
    case Arr(items) => Arr(NormalItems(items))
    case Obj(ms) => Obj(SortByKey(NormalMembers(ms)))
    case _ => v
  }

  function NormalItems(items: seq<Json>): (r: seq<Json>)
    ensures |r| == |items|
    decreases items, 1
  {
    if items == [] then [] else [Normal(items[0])] + NormalItems(items[1..])
  }

  function NormalMembers(ms: seq<Keyed<Json>>): (r: seq<Keyed<Json>>)
    ensures |r| == |ms| && forall i | 0 <= i < |ms| :: r[i].key == ms[i].key
    decreases ms, 1
  {
    if ms == [] then [] else [Keyed(ms[0].key, Normal(ms[0].value))] + NormalMembers(ms[1..])
  }

  predicate InNormalForm(v: Json) {
    match v
    case NonFinite | NonJson => false
    case Num(t) => NumText(t)
    case Arr(items) => forall i | 0 <= i < |items| :: InNormalForm(items[i])
    case Obj(ms) => StrictlySorted(ms) && forall i | 0 <= i < |ms| :: InNormalForm(ms[i].value)
    case _ => true
  }

  lemma {:induction false} SortedSuffix<T>(ms: seq<Keyed<T>>, i: nat)
    requires StrictlySorted(ms) && i < |ms|
    ensures StrictlySorted(ms[i..])
  {
    if i > 0 {
      SortedSuffix(ms[1..], i - 1);
      assert ms[1..][i - 1..] == ms[i..];
    }
  }

  lemma {:induction false} NormalFormPlain(v: Json)
    requires InNormalForm(v)
    ensures Valid(v) && Plain(v)
  {
    match v
    case Arr(items) =>
      forall i | 0 <= i < |items| ensures Valid(items[i]) && Plain(items[i]) {
        NormalFormPlain(items[i]);
      }
    case Obj(ms) =>
      forall i | 0 <= i < |ms| ensures Valid(ms[i].value) && Plain(ms[i].value) {
        NormalFormPlain(ms[i].value);
      }
      forall i, j | 0 <= i < j < |ms| ensures ms[i].key != ms[j].key {
        SortedSuffix(ms, i);
        SortedHead(ms[i..], j - i);
        BeforeNotSelf(ms[i].key);
      }
    case _ =>
  }

  lemma {:induction false} NormalInNormalForm(v: Json)
    requires Valid(v) && Jsonable(v)
    ensures InNormalForm(Normal(v))
    decreases v, 0
  {
    match v
    case Arr(items) => NormalItemsInForm(items);
    case Obj(ms) =>
      NormalMembersInForm(ms);
      var ns := NormalMembers(ms);
      SortSorted(ns);
      forall i | 0 <= i < |ns| ensures InNormalForm(SortByKey(ns)[i].value) {
        assert SortByKey(ns)[i] in ns;
      }
    case _ =>
  }

  lemma {:induction false} NormalItemsInForm(items: seq<Json>)
    requires forall i | 0 <= i < |items| :: Valid(items[i]) && Jsonable(items[i])
    ensures forall i | 0 <= i < |items| :: InNormalForm(NormalItems(items)[i])
    decreases items, 1
  {
    if items != [] {
      NormalInNormalForm(items[0]);
      NormalItemsInForm(items[1..]);
    }
  }

  lemma {:induction false} NormalMembersInForm(ms: seq<Keyed<Json>>)
    requires forall i | 0 <= i < |ms| :: Valid(ms[i].value) && Jsonable(ms[i].value)
    ensures forall i | 0 <= i < |ms| :: InNormalForm(NormalMembers(ms)[i].value)
    decreases ms, 1
  {
    if ms != [] {
      NormalInNormalForm(ms[0].value);
      NormalMembersInForm(ms[1..]);
    }
  }

  // ---- canonical text is the compact text of the normal form

  lemma {:induction false} InsertCompact(m: Keyed<Json>, ms: seq<Keyed<Json>>)
    ensures CompactMembers(Insert(m, ms)) == Insert(Keyed(m.key, Compact(m.value)), CompactMembers(ms))
  {
    var k := Keyed(m.key, Compact(m.value));
    if ms == [] || !Before(ms[0].key, m.key) {
      assert ([m] + ms)[1..] == ms;
    } else {
      InsertCompact(m, ms[1..]);
      var r := Insert(m, ms[1..]);
      assert ([ms[0]] + r)[1..] == r;
      assert CompactMembers(ms)[1..] == CompactMembers(ms[1..]);
    }
  }

  lemma {:induction false} SortCompact(ms: seq<Keyed<Json>>)
    ensures CompactMembers(SortByKey(ms)) == SortByKey(CompactMembers(ms))
  {
    if ms != [] {
      SortCompact(ms[1..]);
      InsertCompact(ms[0], SortByKey(ms[1..]));
      assert CompactMembers(ms)[1..] == CompactMembers(ms[1..]);
    }
  }

  lemma {:induction false} CanonicalIsCompactNormal(v: Json)
    requires Jsonable(v)
    ensures CanonicalText(v) == Compact(Normal(v))
    decreases v, 0
  {
    match v
    case Arr(items) => CanonicalItemsAreCompact(items);
    case Obj(ms) =>
      CanonicalMembersAreCompact(ms);
      SortCompact(NormalMembers(ms));
    case _ =>
  }

  lemma {:induction false} CanonicalItemsAreCompact(items: seq<Json>)
    requires forall i | 0 <= i < |items| :: Jsonable(items[i])
    ensures CanonicalItems(items) == CompactItems(NormalItems(items))
    decreases items, 1
  {
    if items != [] {
      CanonicalIsCompactNormal(items[0]);
      CanonicalItemsAreCompact(items[1..]);
      assert NormalItems(items)[1..] == NormalItems(items[1..]);
    }
  }

  lemma {:induction false} CanonicalMembersAreCompact(ms: seq<Keyed<Json>>)
    requires forall i | 0 <= i < |ms| :: Jsonable(ms[i].value)
    ensures CanonicalMembers(ms) == CompactMembers(NormalMembers(ms))
    decreases ms, 1
  {
    if ms != [] {
      CanonicalIsCompactNormal(ms[0].value);
      CanonicalMembersAreCompact(ms[1..]);
      assert NormalMembers(ms)[1..] == NormalMembers(ms[1..]);
    }
  }

  // ---- normalising keeps the meaning, and a normal form is determined by it

  lemma {:induction false} InsertFields(m: Keyed<Json>, ms: seq<Keyed<Json>>)
    requires forall i | 0 <= i < |ms| :: ms[i].key != m.key
    ensures Fields(Insert(m, ms)) == Fields(ms)[m.key := Meaning(m.value)]
  {
    if ms == [] || !Before(ms[0].key, m.key) {
      assert ([m] + ms)[1..] == ms;
    } else {
      InsertFields(m, ms[1..]);
      var r := Insert(m, ms[1..]);
      assert ([ms[0]] + r)[1..] == r;
    }
  }

  lemma {:induction false} SortFields(ms: seq<Keyed<Json>>)
    requires DistinctKeys(ms)
    ensures Fields(SortByKey(ms)) == Fields(ms)
  {
    if ms != [] {
      SortFields(ms[1..]);
      SortSorted(ms[1..]);
      var r := SortByKey(ms[1..]);
      forall i | 0 <= i < |r| ensures r[i].key != ms[0].key {
        assert r[i] in ms[1..];
      }
      InsertFields(ms[0], r);
    }
  }

  lemma {:induction false} NormalMeaning(v: Json)
    requires Valid(v)
    ensures Meaning(Normal(v)) == Meaning(v)
    decreases v, 0
  {
    match v
    case Arr(items) => NormalItemsMeaning(items);
    case Obj(ms) =>
      NormalMembersMeaning(ms);
      SortFields(NormalMembers(ms));
    case _ =>
  }

  lemma {:induction false} NormalItemsMeaning(items: seq<Json>)
    requires forall i | 0 <= i < |items| :: Valid(items[i])
    ensures Meanings(NormalItems(items)) == Meanings(items)
    decreases items, 1
  {
    if items != [] {
      NormalMeaning(items[0]);
      NormalItemsMeaning(items[1..]);
      assert NormalItems(items)[1..] == NormalItems(items[1..]);
    }
  }

  lemma {:induction false} NormalMembersMeaning(ms: seq<Keyed<Json>>)
    requires forall i | 0 <= i < |ms| :: Valid(ms[i].value)
    ensures Fields(NormalMembers(ms)) == Fields(ms)
    decreases ms, 1
  {
    if ms != [] {
      NormalMeaning(ms[0].value);
      NormalMembersMeaning(ms[1..]);
      assert NormalMembers(ms)[1..] == NormalMembers(ms[1..]);
    }
  }

  lemma {:induction false} NormalFormUnique(u: Json, v: Json)
    requires InNormalForm(u) && InNormalForm(v) && Meaning(u) == Meaning(v)
    ensures u == v
    decreases u, 0
  {
    match u
    case Arr(items) => ItemsFormUnique(items, v.items);
    case Obj(ms) => MembersFormUnique(ms, v.members);
    case _ =>
  }

  lemma {:induction false} ItemsFormUnique(us: seq<Json>, vs: seq<Json>)
    requires forall i | 0 <= i < |us| :: InNormalForm(us[i])
    requires forall i | 0 <= i < |vs| :: InNormalForm(vs[i])
    requires Meanings(us) == Meanings(vs)
    ensures us == vs
    decreases us, 1
  {
    if us != [] {
      assert Meanings(us)[0] == Meaning(us[0]) && Meanings(vs)[0] == Meaning(vs[0]);
      assert Meanings(us)[1..] == Meanings(us[1..]) && Meanings(vs)[1..] == Meanings(vs[1..]);
      NormalFormUnique(us[0], vs[0]);
      ItemsFormUnique(us[1..], vs[1..]);
      assert us == [us[0]] + us[1..] && vs == [vs[0]] + vs[1..];
    }
  }

  /** A sorted object's first key is the least key of its map, so no other sorted object can start later. */
  lemma FirstKeyLeast(us: seq<Keyed<Json>>, vs: seq<Keyed<Json>>)
    requires StrictlySorted(us) && StrictlySorted(vs) && us != [] && vs != []
    requires us[0].key in Fields(vs)
    ensures us[0].key == vs[0].key || Before(vs[0].key, us[0].key)
  {
    FieldsKeys(vs, us[0].key);
    var j :| 0 <= j < |vs| && vs[j].key == us[0].key;
    if j > 0 {
      SortedHead(vs, j);
    }
  }

  lemma FieldsOfRest(ms: seq<Keyed<Json>>)
    requires StrictlySorted(ms) && ms != []
    ensures Fields(ms[1..]) == Fields(ms) - {ms[0].key}
  {
    forall j | 0 <= j < |ms[1..]| ensures ms[1..][j].key != ms[0].key {
      SortedHead(ms, j + 1);
      BeforeNotSelf(ms[0].key);
    }
    FieldsKeys(ms[1..], ms[0].key);
    assert ms[0].key !in Fields(ms[1..]);
  }

  lemma {:induction false} MembersFormUnique(us: seq<Keyed<Json>>, vs: seq<Keyed<Json>>)
    requires StrictlySorted(us) && StrictlySorted(vs)
    requires forall i | 0 <= i < |us| :: InNormalForm(us[i].value)
    requires forall i | 0 <= i < |vs| :: InNormalForm(vs[i].value)
    requires Fields(us) == Fields(vs)
    ensures us == vs
    decreases us, 1
  {
    assert us != [] ==> us[0].key in Fields(us);
    assert vs != [] ==> vs[0].key in Fields(vs);
    if us != [] {
      FirstKeyLeast(us, vs);
      FirstKeyLeast(vs, us);
      if us[0].key != vs[0].key {
        BeforeStrict(us[0].key, vs[0].key, us[0].key);
      }
      assert Fields(us)[us[0].key] == Meaning(us[0].value) && Fields(vs)[vs[0].key] == Meaning(vs[0].value);
      NormalFormUnique(us[0].value, vs[0].value);
      FieldsOfRest(us);
      FieldsOfRest(vs);
      MembersFormUnique(us[1..], vs[1..]);
      assert us == [us[0]] + us[1..] && vs == [vs[0]] + vs[1..];
    }
  }

  // ---- the theorem

  /** Canonical texts are equal exactly when the values are: same nesting, same scalars, same map of keys, in any key
      order. A non-finite number has null's meaning, because that is what prints. */
  lemma CanonicalExact(u: Json, v: Json)
    requires Valid(u) && Jsonable(u) && Valid(v) && Jsonable(v)
    ensures CanonicalText(u) == CanonicalText(v) <==> Meaning(u) == Meaning(v)
  {
    CanonicalIsCompactNormal(u);
    CanonicalIsCompactNormal(v);
    NormalInNormalForm(u);
    NormalInNormalForm(v);
    NormalMeaning(u);
    NormalMeaning(v);
    if CanonicalText(u) == CanonicalText(v) {
      NormalFormPlain(Normal(u));
      NormalFormPlain(Normal(v));
      CompactInjective(Normal(u), Normal(v));
    } else if Meaning(u) == Meaning(v) {
      NormalFormUnique(Normal(u), Normal(v));
    }
  }

  lemma CanonicalClean(v: Json)
    requires Valid(v) && Jsonable(v)
    ensures Clean(CanonicalText(v))
  {
    CanonicalIsCompactNormal(v);
    NormalInNormalForm(v);
    NormalFormPlain(Normal(v));
    CompactClean(Normal(v));
  }
}
