/** The attribute sanitizer: a bounded copy of an arbitrary object graph, cycles and all. */
module Sanitize {
  import opened Text
  import opened Json
  import opened Verify

  const MAX_DEPTH: nat := 4
  const MAX_ENTRIES: nat := 32
  const MAX_AUDIT_ATTR_BYTES: nat := 8 * 1024

  /** An object's identity. */
  type Ref = nat

  /** A JavaScript value as `typeof` sorts it: anything that is not a container is a leaf. */
  datatype JsValue = JNull | JBool(b: bool) | JNumber(text: Str) | JNonFinite | JString(s: Str) | JOther(typeName: Str) | JObject(ref: Ref)

  /** An own property descriptor, or none. */
  datatype Slot = Hole | Accessor(enumerable: bool) | Data(value: JsValue, enumerable: bool)

  /** What an object is: an array, an object with a plain or null prototype, one with another prototype, or one whose
      inspection throws. */
  datatype Node = ArrayNode(slots: seq<Slot>) | PlainNode(props: seq<Keyed<Slot>>) | OtherNode | ThrowingNode

  /** The heap the value lives in; objects may refer to each other in cycles. */
  type Graph = Ref -> Node

  /** The text scrubber and the pattern of secret keys. */
  datatype Rules = Rules(scrub: Str -> Str, secret: Str -> bool)

  predicate KeyUnit(u: unit) {
    0x41 <= u <= 0x5A || 0x61 <= u <= 0x7A || 0x30 <= u <= 0x39 || u == 0x5F || u == 0x2E || u == 0x2D
  }

  predicate AllowedKey(rules: Rules, key: Str) {
    && key != Lit("__proto__") && key != Lit("constructor") && key != Lit("prototype") && !rules.secret(key)
    && 1 <= |key| <= 64 && (0x41 <= key[0] <= 0x5A || 0x61 <= key[0] <= 0x7A)
    && forall i | 0 <= i < |key| :: KeyUnit(key[i])
  }

  predicate Kept(rules: Rules, prop: Keyed<Slot>) {
    prop.value.Data? && prop.value.enumerable && AllowedKey(rules, prop.key)
  }

  function Circular(): Json { String(Lit("[circular]")) }

  function TooDeep(): Json { String(Lit("[truncated:depth]")) }

  function Leaf(rules: Rules, v: JsValue): Json
    requires !v.JObject?
  {
    match v
    case JNull => Null
    case JBool(b) => Bool(b)
    case JNumber(t) => Num(t)
    case JNonFinite => String(Lit("[non-finite]"))
    case JString(s) => String(rules.scrub(s))
    case JOther(name) => String(Lit("[unsupported:") + name + Lit("]"))
  }

  // ---- the specification

  function Min(a: nat, b: nat): nat { if a < b then a else b }

  /** The copy of `v` at `depth`, below the objects `path`. */
  function Copy(g: Graph, rules: Rules, v: JsValue, depth: nat, path: set<Ref>): Json
    decreases MAX_DEPTH + 1 - Min(depth, MAX_DEPTH), 0, 0
  {
    if !v.JObject? then Leaf(rules, v)
    else if depth >= MAX_DEPTH then TooDeep()
    else if v.ref in path then Circular()
    else
      match g(v.ref)
      case ArrayNode(slots) => Arr(CopySlots(g, rules, slots[..Min(|slots|, MAX_ENTRIES)], depth, path + {v.ref}))
      case PlainNode(props) => Obj(CopyProps(g, rules, props, depth, path + {v.ref}, MAX_ENTRIES))
      case OtherNode => String(Lit("[unsupported:object]"))
      case ThrowingNode => String(Lit("[unavailable]"))
  }

  function CopySlot(g: Graph, rules: Rules, slot: Slot, depth: nat, path: set<Ref>): Json
    requires depth < MAX_DEPTH
    decreases MAX_DEPTH - depth, 1, 0
  {
    if slot.Data? then Copy(g, rules, slot.value, depth + 1, path) else String(Lit("[sparse]"))
  }

  function CopySlots(g: Graph, rules: Rules, slots: seq<Slot>, depth: nat, path: set<Ref>): (items: seq<Json>)
    requires depth < MAX_DEPTH
    ensures |items| == |slots|
    decreases MAX_DEPTH - depth, 2, |slots|
  {
    if slots == [] then []
    else CopySlots(g, rules, slots[..|slots| - 1], depth, path) + [CopySlot(g, rules, slots[|slots| - 1], depth, path)]
  }

  /** The first `room` kept properties, in order. */
  function CopyProps(g: Graph, rules: Rules, props: seq<Keyed<Slot>>, depth: nat, path: set<Ref>, room: nat): (ms: seq<Keyed<Json>>)
    requires depth < MAX_DEPTH
    ensures |ms| <= room
    decreases MAX_DEPTH - depth, 1, |props|
  {
    if props == [] || room == 0 then []
    else if !Kept(rules, props[0]) then CopyProps(g, rules, props[1..], depth, path, room)
    else [Keyed(props[0].key, Copy(g, rules, props[0].value.value, depth + 1, path))]
         + CopyProps(g, rules, props[1..], depth, path, room - 1)
  }

  // ---- positions: what stands where

  /** An object names a property once. */
  ghost predicate ProperGraph(g: Graph) {
    forall ref :: g(ref).PlainNode? ==> DistinctKeys(g(ref).props)
  }

  datatype Step = Index(i: nat) | Key(k: Str)

  /** The value one step into an object. */
  function Into(g: Graph, v: JsValue, step: Step): Option<JsValue> {
    if !v.JObject? then None
    else
      match (g(v.ref), step)
      case (ArrayNode(slots), Index(i)) => if i < |slots| && slots[i].Data? then Some(slots[i].value) else None
      case (PlainNode(props), Key(k)) =>
        if ValueAt(props, k).Some? && ValueAt(props, k).value.Data? then Some(ValueAt(props, k).value.value) else None
      case _ => None
  }

  function Walk(g: Graph, v: JsValue, steps: seq<Step>): Option<JsValue>
    decreases |steps|
  {
    if steps == [] then Some(v)
    else if Into(g, v, steps[0]).None? then None
    else Walk(g, Into(g, v, steps[0]).value, steps[1..])
  }

  function At(j: Json, steps: seq<Step>): Option<Json>
    decreases |steps|
  {
    if steps == [] then Some(j)
    else
      match (j, steps[0])
      case (Arr(items), Index(i)) => if i < |items| then At(items[i], steps[1..]) else None
      case (Obj(ms), Key(k)) => if ValueAt(ms, k).Some? then At(ValueAt(ms, k).value, steps[1..]) else None
      case _ => None
  }

  /** What stands in a copy for a value, at a depth, one of the objects on the way to it or not: scalars as they are, strings
      scrubbed, everything else by its marker, and a container for a container. */
  predicate Shows(g: Graph, rules: Rules, v: JsValue, depth: nat, circular: bool, j: Json) {
    match v
    case JNull => j == Null
    case JBool(b) => j == Bool(b)
    case JNumber(t) => j == Num(t)
    case JNonFinite => j == String(Lit("[non-finite]"))
    case JString(s) => j == String(rules.scrub(s))
    case JOther(name) => j == String(Lit("[unsupported:") + name + Lit("]"))
    case JObject(ref) =>
      if depth >= MAX_DEPTH then j == String(Lit("[truncated:depth]"))
      else if circular then j == String(Lit("[circular]"))
      else
        match g(ref)
        case ArrayNode(_) => j.Arr?
        case PlainNode(_) => j.Obj?
        case OtherNode => j == String(Lit("[unsupported:object]"))
        case ThrowingNode => j == String(Lit("[unavailable]"))
  }

  /** The objects a walk goes through, without the one it ends at. */
  function Through(g: Graph, v: JsValue, steps: seq<Step>): set<Ref>
    requires Walk(g, v, steps).Some?
    decreases |steps|
  {
    if steps == [] then {} else {v.ref} + Through(g, Into(g, v, steps[0]).value, steps[1..])
  }

  predicate OnPath(g: Graph, v: JsValue, steps: seq<Step>, path: set<Ref>)
    requires Walk(g, v, steps).Some?
  {
    var w := Walk(g, v, steps).value;
    w.JObject? && w.ref in path + Through(g, v, steps)
  }

  /** At every position that a walk from `v` and the copy both have, the copy shows what the walk ends at. */
  ghost predicate ShowsAll(g: Graph, rules: Rules, v: JsValue, depth: nat, path: set<Ref>, j: Json) {
    forall steps | Walk(g, v, steps).Some? && At(j, steps).Some? ::
      Shows(g, rules, Walk(g, v, steps).value, depth + |steps|, OnPath(g, v, steps, path), At(j, steps).value)
  }

  lemma {:induction false} SlotCopied(g: Graph, rules: Rules, slots: seq<Slot>, depth: nat, path: set<Ref>, i: nat)
    requires depth < MAX_DEPTH && i < |slots|
    ensures CopySlots(g, rules, slots, depth, path)[i] == CopySlot(g, rules, slots[i], depth, path)
    decreases |slots|
  {
    if i < |slots| - 1 {
      SlotCopied(g, rules, slots[..|slots| - 1], depth, path, i);
    }
  }

  lemma {:induction false} PropMissing(g: Graph, rules: Rules, props: seq<Keyed<Slot>>, depth: nat, path: set<Ref>, room: nat, k: Str)
    requires depth < MAX_DEPTH && forall i | 0 <= i < |props| :: props[i].key != k
    ensures ValueAt(CopyProps(g, rules, props, depth, path, room), k).None?
    decreases |props|
  {
    hide Kept;
    if props != [] && room > 0 {
      PropMissing(g, rules, props[1..], depth, path, room, k);
      PropMissing(g, rules, props[1..], depth, path, room - 1, k);
    }
  }

  lemma {:induction false} PropCopied(g: Graph, rules: Rules, props: seq<Keyed<Slot>>, depth: nat, path: set<Ref>, room: nat, k: Str)
    requires depth < MAX_DEPTH && DistinctKeys(props)
    requires ValueAt(CopyProps(g, rules, props, depth, path, room), k).Some?
    ensures ValueAt(props, k).Some? && ValueAt(props, k).value.Data?
    ensures ValueAt(CopyProps(g, rules, props, depth, path, room), k).value == Copy(g, rules, ValueAt(props, k).value.value, depth + 1, path)
    decreases |props|
  {
    hide AllowedKey, Copy;
    if !Kept(rules, props[0]) {
      if props[0].key == k {
        PropMissing(g, rules, props[1..], depth, path, room, k);
      }
      PropCopied(g, rules, props[1..], depth, path, room, k);
    } else if props[0].key != k {
      PropCopied(g, rules, props[1..], depth, path, room - 1, k);
    }
  }

  /** Every position of the copy shows the value at the same position of the graph, copied below exactly the objects on
      the way to it: a node met twice on different ways is copied twice. */
  lemma {:induction false} CopyAt(g: Graph, rules: Rules, v: JsValue, depth: nat, path: set<Ref>, steps: seq<Step>)
    requires ProperGraph(g) && At(Copy(g, rules, v, depth, path), steps).Some? && Walk(g, v, steps).Some?
    ensures At(Copy(g, rules, v, depth, path), steps).value
      == Copy(g, rules, Walk(g, v, steps).value, depth + |steps|, path + Through(g, v, steps))
    decreases |steps|
  {
    hide AllowedKey, Leaf;
    if steps == [] {
      assert path + Through(g, v, steps) == path;
    } else {
      var w := Into(g, v, steps[0]).value;
      var below := path + {v.ref};
      match g(v.ref) {
        case ArrayNode(slots) => SlotCopied(g, rules, slots[..Min(|slots|, MAX_ENTRIES)], depth, below, steps[0].i);
        case PlainNode(props) => PropCopied(g, rules, props, depth, below, MAX_ENTRIES, steps[0].k);
      }
      assert At(Copy(g, rules, w, depth + 1, below), steps[1..]) == At(Copy(g, rules, v, depth, path), steps);
      CopyAt(g, rules, w, depth + 1, below, steps[1..]);
      assert below + Through(g, w, steps[1..]) == path + Through(g, v, steps);
    }
  }

  lemma CopyShows(g: Graph, rules: Rules, v: JsValue, depth: nat, path: set<Ref>)
    ensures Shows(g, rules, v, depth, v.JObject? && v.ref in path, Copy(g, rules, v, depth, path))
  {
    hide CopySlots, CopyProps;
  }

  lemma CopyShowsAll(g: Graph, rules: Rules, v: JsValue, depth: nat, path: set<Ref>)
    requires ProperGraph(g)
    ensures ShowsAll(g, rules, v, depth, path, Copy(g, rules, v, depth, path))
  {
    var j := Copy(g, rules, v, depth, path);
    forall steps | Walk(g, v, steps).Some? && At(j, steps).Some?
      ensures Shows(g, rules, Walk(g, v, steps).value, depth + |steps|, OnPath(g, v, steps, path), At(j, steps).value)
    {
      CopyAt(g, rules, v, depth, path, steps);
      CopyShows(g, rules, Walk(g, v, steps).value, depth + |steps|, path + Through(g, v, steps));
    }
  }

  // ---- the recursion as it runs

  /** The ancestor set, shared by the whole recursion and changed in place. */
  class Ancestors {
    var refs: set<Ref>

    constructor ()
      ensures refs == {}
    {
      refs := {};
    }
  }

  /** `sanitizeValue`: terminates on any graph, and leaves the ancestor set as it found it on every exit. */
  method SanitizeValue(g: Graph, rules: Rules, v: JsValue, depth: nat, ancestors: Ancestors) returns (r: Json)
    modifies ancestors
    ensures r == Copy(g, rules, v, depth, old(ancestors.refs)) && ancestors.refs == old(ancestors.refs)
    ensures ProperGraph(g) ==> ShowsAll(g, rules, v, depth, old(ancestors.refs), r)
    decreases MAX_DEPTH + 1 - Min(depth, MAX_DEPTH), 0
  {
    hide ShowsAll, ProperGraph, AllowedKey;
    if ProperGraph(g) {
      CopyShowsAll(g, rules, v, depth, ancestors.refs);
    }
    if !v.JObject? {
      return Leaf(rules, v);
    }
    if depth >= MAX_DEPTH {
      return TooDeep();
    }
    if v.ref in ancestors.refs {
      return Circular();
    }
    ghost var path := ancestors.refs + {v.ref};
    ancestors.refs := ancestors.refs + {v.ref};
    match g(v.ref) {
      case ArrayNode(slots) =>
        var items: seq<Json> := [];
        var index := 0;
        while index < Min(|slots|, MAX_ENTRIES)
          invariant index <= Min(|slots|, MAX_ENTRIES) && ancestors.refs == path
          invariant items == CopySlots(g, rules, slots[..index], depth, path)
        {
          var item := String(Lit("[sparse]"));
          if slots[index].Data? {
            item := SanitizeValue(g, rules, slots[index].value, depth + 1, ancestors);
          }
          assert slots[..index + 1][..index] == slots[..index];
          items := items + [item];
          index := index + 1;
        }
        r := Arr(items);
      case PlainNode(props) =>
        var members := SanitizeProps(g, rules, props, depth, ancestors);
        r := Obj(members);
      case OtherNode =>
        r := String(Lit("[unsupported:object]"));
      case ThrowingNode =>
        r := String(Lit("[unavailable]"));
    }
    ancestors.refs := ancestors.refs - {v.ref};
    assert path - {v.ref} == old(ancestors.refs);
  }

  /** The loop over the own properties of a plain object. */
  method SanitizeProps(g: Graph, rules: Rules, props: seq<Keyed<Slot>>, depth: nat, ancestors: Ancestors)
    returns (members: seq<Keyed<Json>>)
    requires depth < MAX_DEPTH
    modifies ancestors
    ensures members == CopyProps(g, rules, props, depth, old(ancestors.refs), MAX_ENTRIES)
    ensures ancestors.refs == old(ancestors.refs)
    decreases MAX_DEPTH - depth, 1
  {
    members := [];
    ghost var path := ancestors.refs;
    ghost var goal := CopyProps(g, rules, props, depth, path, MAX_ENTRIES);
    var accepted, index := 0, 0;
    assert props[0..] == props;
    while index < |props|
      invariant index <= |props| && accepted == |members| <= MAX_ENTRIES && ancestors.refs == path
      invariant goal == members + CopyProps(g, rules, props[index..], depth, path, MAX_ENTRIES - accepted)
    {
      var prop := props[index];
      assert props[index..][1..] == props[index + 1..];
      if Kept(rules, prop) {
        if accepted >= MAX_ENTRIES {
          assert goal == members;
          return;
        }
        var copy := SanitizeValue(g, rules, prop.value.value, depth + 1, ancestors);
        members := members + [Keyed(prop.key, copy)];
        accepted := accepted + 1;
      }
      index := index + 1;
    }
    assert goal == members;
  }

  // ---- bounds of the copy

  /** At most `depth` containers nest, each has at most 32 entries, and every key is an allowed one. */
  predicate Bounded(rules: Rules, j: Json, depth: nat) {
    match j
    case Arr(items) => depth > 0 && |items| <= MAX_ENTRIES && forall i | 0 <= i < |items| :: Bounded(rules, items[i], depth - 1)
    case Obj(ms) => depth > 0 && |ms| <= MAX_ENTRIES && (forall i | 0 <= i < |ms| :: AllowedKey(rules, ms[i].key))
      && forall i | 0 <= i < |ms| :: Bounded(rules, ms[i].value, depth - 1)
    case _ => true
  }

  lemma {:induction false} CopyBounded(g: Graph, rules: Rules, v: JsValue, depth: nat, path: set<Ref>)
    ensures Bounded(rules, Copy(g, rules, v, depth, path), MAX_DEPTH - Min(depth, MAX_DEPTH))
    decreases MAX_DEPTH + 1 - Min(depth, MAX_DEPTH), 0, 0
  {
    if v.JObject? && depth < MAX_DEPTH && v.ref !in path {
      match g(v.ref) {
        case ArrayNode(slots) => SlotsBounded(g, rules, slots[..Min(|slots|, MAX_ENTRIES)], depth, path + {v.ref});
        case PlainNode(props) =>
          PropsBounded(g, rules, props, depth, path + {v.ref}, MAX_ENTRIES);
          assert Copy(g, rules, v, depth, path) == Obj(CopyProps(g, rules, props, depth, path + {v.ref}, MAX_ENTRIES));
        case _ =>
      }
    }
  }

  lemma {:induction false} SlotsBounded(g: Graph, rules: Rules, slots: seq<Slot>, depth: nat, path: set<Ref>)
    requires depth < MAX_DEPTH
    ensures forall i | 0 <= i < |slots| :: Bounded(rules, CopySlots(g, rules, slots, depth, path)[i], MAX_DEPTH - depth - 1)
    decreases MAX_DEPTH - depth, 2, |slots|
  {
    if slots != [] {
      SlotsBounded(g, rules, slots[..|slots| - 1], depth, path);
      if slots[|slots| - 1].Data? {
        CopyBounded(g, rules, slots[|slots| - 1].value, depth + 1, path);
      }
    }
  }

  predicate MembersBounded(rules: Rules, ms: seq<Keyed<Json>>, depth: nat) {
    (forall i | 0 <= i < |ms| :: AllowedKey(rules, ms[i].key)) && forall i | 0 <= i < |ms| :: Bounded(rules, ms[i].value, depth)
  }

  lemma {:induction false} PropsBounded(g: Graph, rules: Rules, props: seq<Keyed<Slot>>, depth: nat, path: set<Ref>, room: nat)
    requires depth < MAX_DEPTH
    ensures MembersBounded(rules, CopyProps(g, rules, props, depth, path, room), MAX_DEPTH - depth - 1)
    decreases MAX_DEPTH - depth, 1, |props|
  {
    if props != [] && room > 0 {
      if Kept(rules, props[0]) {
        CopyBounded(g, rules, props[0].value.value, depth + 1, path);
        PropsBounded(g, rules, props[1..], depth, path, room - 1);
      } else {
        PropsBounded(g, rules, props[1..], depth, path, room);
      }
    }
  }

  // ---- which entries are kept

  function Keys<T>(ms: seq<Keyed<T>>): (ks: seq<Str>)
    ensures |ks| == |ms|
  {
    if ms == [] then [] else [ms[0].key] + Keys(ms[1..])
  }

  function KeptProps(rules: Rules, props: seq<Keyed<Slot>>): seq<Keyed<Slot>> {
    if props == [] then [] else (if Kept(rules, props[0]) then [props[0]] else []) + KeptProps(rules, props[1..])
  }

  lemma {:induction false} PropKeys(g: Graph, rules: Rules, props: seq<Keyed<Slot>>, depth: nat, path: set<Ref>, room: nat)
    requires depth < MAX_DEPTH
    ensures var all := Keys(KeptProps(rules, props));
      Keys(CopyProps(g, rules, props, depth, path, room)) == all[..Min(|all|, room)]
    decreases |props|
  {
    hide Kept, Copy;
    if props != [] && room > 0 {
      PropKeys(g, rules, props[1..], depth, path, room);
      if Kept(rules, props[0]) {
        PropKeys(g, rules, props[1..], depth, path, room - 1);
        var kept, copied := KeptProps(rules, props), CopyProps(g, rules, props, depth, path, room);
        assert kept[1..] == KeptProps(rules, props[1..]);
        assert copied[1..] == CopyProps(g, rules, props[1..], depth, path, room - 1);
      } else {
        assert KeptProps(rules, props) == KeptProps(rules, props[1..]);
      }
    }
  }

  predicate ArrayEntries(slots: seq<Slot>, j: Json) {
    j.Arr? && |j.items| == Min(|slots|, MAX_ENTRIES)
    && forall i | 0 <= i < |j.items| && !slots[i].Data? :: j.items[i] == String(Lit("[sparse]"))
  }

  predicate PlainEntries(rules: Rules, props: seq<Keyed<Slot>>, j: Json) {
    var all := Keys(KeptProps(rules, props));
    j.Obj? && Keys(j.members) == all[..Min(|all|, MAX_ENTRIES)]
  }

  /** Nothing a container may keep is dropped: an array shows its first 32 places, empty and computed ones as sparse, and a
      plain object its first 32 enumerable data properties with allowed keys, in order. */
  lemma EntriesExact(g: Graph, rules: Rules, ref: Ref, depth: nat, path: set<Ref>)
    requires depth < MAX_DEPTH && ref !in path
    ensures g(ref).ArrayNode? ==> ArrayEntries(g(ref).slots, Copy(g, rules, JObject(ref), depth, path))
    ensures g(ref).PlainNode? ==> PlainEntries(rules, g(ref).props, Copy(g, rules, JObject(ref), depth, path))
  {
    match g(ref) {
      case ArrayNode(slots) =>
        var shown := slots[..Min(|slots|, MAX_ENTRIES)];
        forall i | 0 <= i < |shown| && !slots[i].Data?
          ensures CopySlots(g, rules, shown, depth, path + {ref})[i] == String(Lit("[sparse]"))
        {
          SlotCopied(g, rules, shown, depth, path + {ref}, i);
        }
      case PlainNode(props) => PropKeys(g, rules, props, depth, path + {ref}, MAX_ENTRIES);
      case _ =>
    }
  }

  // ---- where the copy says circular

  lemma MarkersDiffer()
    ensures Circular() != TooDeep() && Circular() != String(Lit("[unsupported:object]")) && Circular() != String(Lit("[unavailable]"))
  {
    assert Circular().s[1] == 0x63;
  }

  lemma CircularHere(g: Graph, rules: Rules, v: JsValue, depth: nat, path: set<Ref>)
    requires v.JObject?
    ensures Copy(g, rules, v, depth, path) == Circular() <==> depth < MAX_DEPTH && v.ref in path
  {
    MarkersDiffer();
    hide CopySlots, CopyProps;
  }

  /** An object in the graph shows as circular exactly when it is one of the objects on the way to it and the depth cap
      is not reached there. */
  lemma CircularExact(g: Graph, rules: Rules, v: JsValue, steps: seq<Step>)
    requires ProperGraph(g) && At(Copy(g, rules, v, 0, {}), steps).Some?
    requires Walk(g, v, steps).Some? && Walk(g, v, steps).value.JObject?
    ensures At(Copy(g, rules, v, 0, {}), steps).value == Circular()
      <==> |steps| < MAX_DEPTH && Walk(g, v, steps).value.ref in Through(g, v, steps)
  {
    hide Copy, Circular, At, Walk, Through;
    CopyAt(g, rules, v, 0, {}, steps);
    CircularHere(g, rules, Walk(g, v, steps).value, |steps|, {} + Through(g, v, steps));
  }

  // ---- what a string of the copy can be

  /** `good` holds of every scrubbed string, and of every marker. */
  ghost predicate Approves(good: Str -> bool, rules: Rules) {
    && (forall s: Str :: good(rules.scrub(s)))
    && (forall name: Str :: good(Lit("[unsupported:") + name + Lit("]")))
    && good(Lit("[non-finite]")) && good(Lit("[truncated:depth]")) && good(Lit("[circular]")) && good(Lit("[sparse]"))
    && good(Lit("[unsupported:object]")) && good(Lit("[unavailable]"))
  }

  /** `good` holds of every string value inside. */
  predicate AllStrings(good: Str -> bool, j: Json) {
    match j
    case String(s) => good(s)
    case Arr(items) => forall i | 0 <= i < |items| :: AllStrings(good, items[i])
    case Obj(ms) => MemberStrings(good, ms)
    case _ => true
  }

  predicate MemberStrings(good: Str -> bool, ms: seq<Keyed<Json>>) {
    forall i | 0 <= i < |ms| :: AllStrings(good, ms[i].value)
  }

  lemma {:induction false} CopyStrings(good: Str -> bool, g: Graph, rules: Rules, v: JsValue, depth: nat, path: set<Ref>)
    requires Approves(good, rules)
    ensures AllStrings(good, Copy(g, rules, v, depth, path))
    decreases MAX_DEPTH + 1 - Min(depth, MAX_DEPTH), 0, 0
  {
    if v.JObject? && depth < MAX_DEPTH && v.ref !in path {
      match g(v.ref) {
        case ArrayNode(slots) => SlotStrings(good, g, rules, slots[..Min(|slots|, MAX_ENTRIES)], depth, path + {v.ref});
        case PlainNode(props) =>
          PropStrings(good, g, rules, props, depth, path + {v.ref}, MAX_ENTRIES);
          assert Copy(g, rules, v, depth, path) == Obj(CopyProps(g, rules, props, depth, path + {v.ref}, MAX_ENTRIES));
        case _ =>
      }
    }
  }

  lemma SparseApproved(good: Str -> bool, rules: Rules)
    requires Approves(good, rules)
    ensures good(Lit("[sparse]"))
  {
  }

  lemma {:induction false} SlotStrings(good: Str -> bool, g: Graph, rules: Rules, slots: seq<Slot>, depth: nat, path: set<Ref>)
    requires Approves(good, rules) && depth < MAX_DEPTH
    ensures forall i | 0 <= i < |slots| :: AllStrings(good, CopySlots(g, rules, slots, depth, path)[i])
    decreases MAX_DEPTH - depth, 2, |slots|
  {
    hide Approves, Copy;
    if slots != [] {
      var last := slots[|slots| - 1];
      SlotStrings(good, g, rules, slots[..|slots| - 1], depth, path);
      if last.Data? {
        CopyStrings(good, g, rules, last.value, depth + 1, path);
      } else {
        SparseApproved(good, rules);
      }
    }
  }

  lemma {:induction false} PropStrings(good: Str -> bool, g: Graph, rules: Rules, props: seq<Keyed<Slot>>, depth: nat,
                                       path: set<Ref>, room: nat)
    requires Approves(good, rules) && depth < MAX_DEPTH
    ensures MemberStrings(good, CopyProps(g, rules, props, depth, path, room))
    decreases MAX_DEPTH - depth, 1, |props|
  {
    hide Approves, Copy, AllowedKey;
    if props != [] && room > 0 {
      if Kept(rules, props[0]) {
        CopyStrings(good, g, rules, props[0].value.value, depth + 1, path);
        PropStrings(good, g, rules, props[1..], depth, path, room - 1);
      } else {
        PropStrings(good, g, rules, props[1..], depth, path, room);
      }
    }
  }

  // ---- the size cap

  lemma {:induction false} PrefixValueAt<T>(ms: seq<Keyed<T>>, n: nat, k: Str)
    requires n <= |ms| && ValueAt(ms[..n], k).Some?
    ensures ValueAt(ms, k) == ValueAt(ms[..n], k)
  {
    if n > 0 && ms[0].key != k {
      assert ms[..n][1..] == ms[1..][..n - 1];
      PrefixValueAt(ms[1..], n - 1, k);
    }
  }

  lemma PrefixAt(ms: seq<Keyed<Json>>, n: nat, steps: seq<Step>)
    requires n <= |ms| && At(Obj(ms[..n]), steps).Some?
    ensures At(Obj(ms), steps).Some?
    ensures steps != [] ==> At(Obj(ms), steps) == At(Obj(ms[..n]), steps)
  {
    if steps != [] {
      PrefixValueAt(ms, n, steps[0].k);
    }
  }

  lemma PrefixShowsAll(g: Graph, rules: Rules, v: JsValue, ms: seq<Keyed<Json>>, n: nat)
    requires n <= |ms| && ShowsAll(g, rules, v, 0, {}, Obj(ms))
    ensures ShowsAll(g, rules, v, 0, {}, Obj(ms[..n]))
  {
    forall steps | Walk(g, v, steps).Some? && At(Obj(ms[..n]), steps).Some?
      ensures Shows(g, rules, Walk(g, v, steps).value, |steps|, OnPath(g, v, steps, {}), At(Obj(ms[..n]), steps).value)
    {
      PrefixAt(ms, n, steps);
      assert steps == [] ==> Shows(g, rules, v, 0, OnPath(g, v, [], {}), At(Obj(ms), []).value);
    }
  }

  lemma PrefixStrings(good: Str -> bool, ms: seq<Keyed<Json>>, n: nat)
    requires n <= |ms| && AllStrings(good, Obj(ms))
    ensures AllStrings(good, Obj(ms[..n]))
  {
  }

  predicate Fits(ms: seq<Keyed<Json>>) {
    |Utf8(Compact(Obj(ms)))| <= MAX_AUDIT_ATTR_BYTES
  }

  /** No prefix of more than `n` members fits. */
  predicate NoneFits(ms: seq<Keyed<Json>>, n: nat) {
    forall m | n < m <= |ms| :: !Fits(ms[..m])
  }

  predicate LongestFit(ms: seq<Keyed<Json>>, j: Json) {
    j.Obj? && 0 < |j.members| <= |ms| && j.members == ms[..|j.members|] && Fits(j.members) && NoneFits(ms, |j.members|)
  }

  /** `sanitizeAuditAttrs`: the longest non-empty prefix of the copy's members whose JSON fits the cap, or nothing. */
  method SanitizeAuditAttrs(g: Graph, rules: Rules, attrs: Option<JsValue>) returns (r: Option<Json>)
    ensures r.Some? ==> attrs.Some? && Copy(g, rules, attrs.value, 0, {}).Obj?
    ensures r.Some? ==> LongestFit(Copy(g, rules, attrs.value, 0, {}).members, r.value)
    ensures r.None? && attrs.Some? && Copy(g, rules, attrs.value, 0, {}).Obj? ==>
      NoneFits(Copy(g, rules, attrs.value, 0, {}).members, 0)
    ensures r.Some? && ProperGraph(g) ==> ShowsAll(g, rules, attrs.value, 0, {}, r.value)
    ensures forall good: Str -> bool | r.Some? && Approves(good, rules) :: AllStrings(good, r.value)
  {
    hide AllStrings, Approves, ShowsAll, ProperGraph;
    if attrs.None? {
      return None;
    }
    var ancestors := new Ancestors();
    var sanitized := SanitizeValue(g, rules, attrs.value, 0, ancestors);
    if !sanitized.Obj? {
      return None;
    }
    var members := sanitized.members;
    var keys: nat := |members|;
    while keys > 0 && !Fits(members[..keys])
      invariant keys <= |members|
      invariant NoneFits(members, keys)
    {
      keys := keys - 1;
    }
    if ProperGraph(g) {
      CopyShowsAll(g, rules, attrs.value, 0, {});
      PrefixShowsAll(g, rules, attrs.value, members, keys);
    }
    forall good: Str -> bool | Approves(good, rules) ensures AllStrings(good, Obj(members[..keys])) {
      CopyStrings(good, g, rules, attrs.value, 0, {});
      PrefixStrings(good, members, keys);
    }
    return if keys > 0 then Some(Obj(members[..keys])) else None;
  }
}
