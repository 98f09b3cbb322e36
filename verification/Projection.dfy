/** What a receiver gets of a message, in terms of the message alone: the part of it that both
    schemas know, with every string and map key as it comes out of `utf8.read` and of the
    assignments to the map object. `Project` is the part itself, and `Faithful` says exactly
    when the two agree. */
module Projection {
  import opened Options
  import opened Words
  import opened Schemas
  import opened Decoding
  import opened Encoding
  import opened Sizes
  import Utf8

  /** A receiver with schema s can read what a sender with schema s2 writes: a field id means the
      same to both, at any nesting level, and a required field of s is one of s2. */
  ghost predicate Evolves(s: Schema, s2: Schema) {
    |s| == |s2| && forall i :: 0 <= i < |s| ==> EvolvesType(s[i], s2[i])
  }

  ghost predicate EvolvesType(t: Type, t2: Type) {
    && t.group == t2.group
    && forall f :: f in t.fields ==> f in t2.fields || (!f.rule.Required? && Find(t2.fields, f.id).None?)
  }

  /** s2 with fields removed, at any nesting level. */
  ghost predicate Narrows(s: Schema, s2: Schema) {
    && |s| == |s2|
    && forall i :: 0 <= i < |s| ==> s[i].group == s2[i].group && forall f :: f in s[i].fields ==> f in s2[i].fields
  }

  lemma NarrowsEvolves(s: Schema, s2: Schema)
    requires Narrows(s, s2)
    ensures Evolves(s, s2)
  {
    hide Find;
  }

  /** A field the sender knows and has set. */
  predicate Sent(s2: Schema, i: nat, f: Field, m: Message) {
    f in TypeAt(s2, i).fields && f.id in m.props
  }

  // ---- what arrives; with `exact`, what would arrive if every string and key survived ----

  function ArrivedValue(s: Schema, s2: Schema, exact: bool, k: Kind, v: Value): Value
    decreases v, 0
  {
    match k
    case Basic(t) => if t == String && v.Str? && !exact then Str(Utf8.Decode(Utf8.Encode(v.s))) else v
    case Nested(i) => if v.Msg? then Msg(Arrived(s, s2, exact, i, v.m)) else v
  }

  function ArrivedItems(s: Schema, s2: Schema, exact: bool, k: Kind, vs: seq<Value>): seq<Value>
    decreases vs
  {
    if vs == [] then []
    else [ArrivedValue(s, s2, exact, k, vs[0])] + ArrivedItems(s, s2, exact, k, vs[1..])
  }

  function ArrivedEntryValue(s: Schema, s2: Schema, exact: bool, k: Kind, e: KeyValue): Value
    decreases e
  {
    ArrivedValue(s, s2, exact, k, e.v)
  }

  /** The entries under their own keys. */
  function SameKeys(s: Schema, s2: Schema, exact: bool, k: Kind, es: seq<KeyValue>): seq<KeyValue>
    decreases es
  {
    if es == [] then []
    else [KeyValue(es[0].key, ArrivedEntryValue(s, s2, exact, k, es[0]))] + SameKeys(s, s2, exact, k, es[1..])
  }

  /** The entries assigned to an object one after the other. */
  function Assigned(s: Schema, s2: Schema, k: Kind, es: seq<KeyValue>, p: Prop): (r: Prop)
    requires p.Dict?
    ensures r.Dict?
    decreases es
  {
    if es == [] then p
    else
      var key := Utf8.Decode(Utf8.Encode(es[0].key));
      Assigned(s, s2, k, es[1..], PutKey(p, key, ArrivedEntryValue(s, s2, false, k, es[0])))
  }

  function ArrivedProp(s: Schema, s2: Schema, exact: bool, k: Kind, p: Prop): Prop
    decreases p
  {
    match p
    case One(v) => One(ArrivedValue(s, s2, exact, k, v))
    case Many(vs) => Many(ArrivedItems(s, s2, exact, k, vs))
    case Dict(es, _) =>
      if exact then Dict(SameKeys(s, s2, exact, k, es), None) else Assigned(s, s2, k, es, EMPTY_OBJECT)
  }

  function ArrivedFields(s: Schema, s2: Schema, exact: bool, i: nat, fields: seq<Field>, m: Message): map<nat, Prop>
    decreases m, |fields|
  {
    if fields == [] then map[]
    else
      var f := fields[0];
      var rest := ArrivedFields(s, s2, exact, i, fields[1..], m);
      if Sent(s2, i, f, m) then rest[f.id := ArrivedProp(s, s2, exact, f.kind, m.props[f.id])]
      else if f.rule.Repeated? then rest[f.id := Many([])]
      else if f.rule.StringMap? then rest[f.id := EMPTY_OBJECT]
      else rest
  }

  function Arrived(s: Schema, s2: Schema, exact: bool, i: nat, m: Message): Message
    decreases m, |TypeAt(s, i).fields| + 1
  {
    Message(ArrivedFields(s, s2, exact, i, TypeAt(s, i).fields, m))
  }

  /** What the receiver gets. */
  function Received(s: Schema, s2: Schema, i: nat, m: Message): Message {
    Arrived(s, s2, false, i, m)
  }

  /** The part of the message that both schemas know: nested messages lose their unknown fields,
      absent repeated fields and maps read as empty. */
  function Project(s: Schema, s2: Schema, i: nat, m: Message): Message {
    Arrived(s, s2, true, i, m)
  }

  /** One property of what arrives. */
  lemma {:induction false} ArrivedAt(
      s: Schema, s2: Schema, exact: bool, i: nat, fields: seq<Field>, m: Message, k: nat)
    requires DistinctIds(fields)
    ensures var r := ArrivedFields(s, s2, exact, i, fields, m);
      match Find(fields, k)
      case None => k !in r
      case Some(f) =>
        if Sent(s2, i, f, m) then k in r && r[k] == ArrivedProp(s, s2, exact, f.kind, m.props[k])
        else
          && (f.rule.Repeated? ==> k in r && r[k] == Many([]))
          && (f.rule.StringMap? ==> k in r && r[k] == EMPTY_OBJECT)
          && (k in r ==> f.rule.Repeated? || f.rule.StringMap?)
    decreases |fields|
  {
    if fields != [] {
      hide ArrivedProp, Sent;
      ArrivedAt(s, s2, exact, i, fields[1..], m, k);
      if fields[0].id == k {
        FindRest(fields, fields[0]);
      }
    }
  }

  /** No other field has the id of the first. */
  lemma FindRest(fields: seq<Field>, f: Field)
    requires fields != [] && DistinctIds(fields) && f == fields[0]
    ensures Find(fields[1..], f.id) == None
  {
    forall g | g in fields[1..] ensures g.id != f.id {
      var j :| 0 <= j < |fields[1..]| && fields[1..][j] == g;
      assert fields[j + 1] == g;
    }
  }

  predicate SameAt(a: Message, b: Message, k: nat) {
    (k in a.props <==> k in b.props) && (k in a.props ==> a.props[k] == b.props[k])
  }

  lemma SameEverywhere(a: Message, b: Message)
    requires forall k: nat :: SameAt(a, b, k)
    ensures a == b
  {
    forall k: nat ensures k in a.props <==> k in b.props {
      assert SameAt(a, b, k);
    }
    assert a.props.Keys == b.props.Keys;
    forall k | k in a.props ensures a.props[k] == b.props[k] {
      assert SameAt(a, b, k);
    }
    assert a.props == b.props;
  }

  // ---- when all of it survives ----

  /** Every string and every map key that both schemas know survives: `utf8.read` gives it back,
      and no map has a key `__proto__`. */
  predicate FaithfulValue(s: Schema, s2: Schema, k: Kind, v: Value)
    decreases v, 0
  {
    match k
    case Basic(t) => t == String && v.Str? ==> Utf8.Clean(v.s)
    case Nested(i) => v.Msg? ==> Faithful(s, s2, i, v.m)
  }

  predicate FaithfulItems(s: Schema, s2: Schema, k: Kind, vs: seq<Value>)
    decreases vs
  {
    vs == [] || (FaithfulValue(s, s2, k, vs[0]) && FaithfulItems(s, s2, k, vs[1..]))
  }

  predicate FaithfulEntry(s: Schema, s2: Schema, k: Kind, e: KeyValue)
    decreases e
  {
    FaithfulValue(s, s2, k, e.v)
  }

  predicate KeySurvives(k: Utf8.Text) {
    Utf8.Clean(k) && k != PROTO
  }

  predicate KeysSurvive(es: seq<KeyValue>) {
    es == [] || (KeySurvives(es[0].key) && KeysSurvive(es[1..]))
  }

  predicate FaithfulEntries(s: Schema, s2: Schema, k: Kind, es: seq<KeyValue>)
    decreases es
  {
    es == [] || (FaithfulEntry(s, s2, k, es[0]) && FaithfulEntries(s, s2, k, es[1..]))
  }

  predicate FaithfulProp(s: Schema, s2: Schema, k: Kind, p: Prop)
    decreases p
  {
    match p
    case One(v) => FaithfulValue(s, s2, k, v)
    case Many(vs) => FaithfulItems(s, s2, k, vs)
    case Dict(es, _) => KeysSurvive(es) && FaithfulEntries(s, s2, k, es)
  }

  predicate FaithfulFields(s: Schema, s2: Schema, i: nat, fields: seq<Field>, m: Message)
    decreases m, |fields|
  {
    fields == [] ||
    (&& (Sent(s2, i, fields[0], m) ==> FaithfulProp(s, s2, fields[0].kind, m.props[fields[0].id]))
     && FaithfulFields(s, s2, i, fields[1..], m))
  }

  predicate Faithful(s: Schema, s2: Schema, i: nat, m: Message)
    decreases m, |TypeAt(s, i).fields| + 1
  {
    FaithfulFields(s, s2, i, TypeAt(s, i).fields, m)
  }

  // ---- map entries ----

  /** Key k comes after all keys of a. */
  predicate Follows(a: seq<KeyValue>, k: Utf8.Text) {
    a == [] || (a[0].key != k && !Jumps(k, a[0].key) && Follows(a[1..], k))
  }

  predicate FollowedBy(a: seq<KeyValue>, es: seq<KeyValue>) {
    es == [] || (Follows(a, es[0].key) && FollowedBy(a, es[1..]))
  }

  predicate Listed(es: seq<KeyValue>) {
    es == [] || (Leads(es[0].key, es[1..]) && Listed(es[1..]))
  }

  lemma {:induction false} TypedListed(schema: Schema, k: Kind, es: seq<KeyValue>)
    requires TypedEntries(schema, k, es)
    ensures Listed(es)
    decreases |es|
  {
    if es != [] {
      TypedListed(schema, k, es[1..]);
    }
  }

  lemma {:induction false} FollowedEmpty(es: seq<KeyValue>)
    ensures FollowedBy([], es)
  {
    if es != [] {
      FollowedEmpty(es[1..]);
    }
  }

  lemma {:induction false} PutAppends(a: seq<KeyValue>, k: Utf8.Text, v: Value)
    requires Follows(a, k)
    ensures PutEntry(a, k, v) == a + [KeyValue(k, v)]
  {
    hide Jumps;
    if a != [] {
      PutAppends(a[1..], k, v);
      Associate([a[0]], a[1..], [KeyValue(k, v)]);
      assert [a[0]] + a[1..] == a;
    }
  }

  lemma {:induction false} FollowsMore(a: seq<KeyValue>, e: KeyValue, k: Utf8.Text)
    requires Follows(a, k) && e.key != k && !Jumps(k, e.key)
    ensures Follows(a + [e], k)
  {
    hide Jumps;
    if a == [] {
      assert (a + [e])[0] == e && (a + [e])[1..] == [];
    } else {
      assert (a + [e])[0] == a[0] && (a + [e])[1..] == a[1..] + [e];
      FollowsMore(a[1..], e, k);
    }
  }

  lemma {:induction false} FollowedStep(a: seq<KeyValue>, e: KeyValue, es: seq<KeyValue>)
    requires FollowedBy(a, es) && Leads(e.key, es)
    ensures FollowedBy(a + [e], es)
  {
    if es != [] {
      FollowsMore(a, e, es[0].key);
      FollowedStep(a, e, es[1..]);
    }
  }

  /** Surviving keys are appended in the order in which they are listed. */
  lemma {:induction false} AssignedAppends(s: Schema, s2: Schema, k: Kind, es: seq<KeyValue>, p: Prop)
    requires p.Dict? && KeysSurvive(es) && Listed(es) && FollowedBy(p.entries, es)
    ensures Assigned(s, s2, k, es, p) == Dict(p.entries + SameKeys(s, s2, false, k, es), p.proto)
    decreases |es|
  {
    if es == [] {
      assert p.entries + [] == p.entries;
    } else {
      hide Utf8.Decode, Utf8.Encode, Utf8.Clean, ArrivedEntryValue, Jumps, PutEntry;
      var v := ArrivedEntryValue(s, s2, false, k, es[0]);
      var e := KeyValue(es[0].key, v);
      Utf8.DecodeInvertsEncode(es[0].key);
      PutAppends(p.entries, es[0].key, v);
      FollowedStep(p.entries, e, es[1..]);
      AssignedAppends(s, s2, k, es[1..], p.(entries := p.entries + [e]));
      Associate(p.entries, [e], SameKeys(s, s2, false, k, es[1..]));
    }
  }

  /** The length of all keys together. */
  function Weight(es: seq<KeyValue>): nat {
    if es == [] then 0 else |es[0].key| + Weight(es[1..])
  }

  lemma {:induction false} PutWeight(es: seq<KeyValue>, k: Utf8.Text, v: Value)
    ensures var r := PutEntry(es, k, v);
      || (|r| == |es| && Weight(r) == Weight(es))
      || (|r| == |es| + 1 && Weight(r) == Weight(es) + |k|)
  {
    hide Jumps;
    if es != [] {
      PutWeight(es[1..], k, v);
      assert ([KeyValue(k, v)] + es)[1..] == es;
      assert ([KeyValue(k, v)] + es[1..])[1..] == es[1..];
      assert ([es[0]] + PutEntry(es[1..], k, v))[1..] == PutEntry(es[1..], k, v);
    }
  }

  /** A key comes back no shorter, and longer if it is not clean. */
  lemma KeyLength(k: Utf8.Text)
    ensures var back := Utf8.Decode(Utf8.Encode(k));
      && |back| >= |k| && (|back| == |k| ==> Utf8.Clean(k) && back == k)
  {
    hide Utf8.Decode, Utf8.Encode;
    Utf8.DecodeInvertsEncode(k);
    Utf8.DecodeLength(k);
  }

  /** If no entry is lost, every key was assigned and the keys are as long as they arrived. */
  lemma {:induction false} AssignedWeight(s: Schema, s2: Schema, k: Kind, es: seq<KeyValue>, p: Prop)
    requires p.Dict?
    ensures var r := Assigned(s, s2, k, es, p);
      && |r.entries| <= |p.entries| + |es|
      && (|r.entries| == |p.entries| + |es| ==>
            Weight(r.entries) >= Weight(p.entries) + Weight(es)
            && (Weight(r.entries) == Weight(p.entries) + Weight(es) ==> KeysSurvive(es)))
    decreases |es|
  {
    if es != [] {
      hide Utf8.Decode, Utf8.Encode, Utf8.Clean, ArrivedEntryValue, PutEntry, IsObject;
      var v := ArrivedEntryValue(s, s2, false, k, es[0]);
      var key := Utf8.Decode(Utf8.Encode(es[0].key));
      KeyLength(es[0].key);
      PutWeight(p.entries, key, v);
      AssignedWeight(s, s2, k, es[1..], PutKey(p, key, v));
    }
  }

  lemma {:induction false} SameKeysWeight(s: Schema, s2: Schema, exact: bool, k: Kind, es: seq<KeyValue>)
    ensures var r := SameKeys(s, s2, exact, k, es); |r| == |es| && Weight(r) == Weight(es)
    decreases |es|
  {
    if es != [] {
      hide ArrivedEntryValue;
      SameKeysWeight(s, s2, exact, k, es[1..]);
    }
  }

  // ---- the exact condition ----

  lemma {:induction false} ValueFaithful(s: Schema, s2: Schema, k: Kind, v: Value)
    requires ValidSchema(s) && TypedValue(s2, k, v)
    ensures ArrivedValue(s, s2, false, k, v) == ArrivedValue(s, s2, true, k, v) <==> FaithfulValue(s, s2, k, v)
    decreases v, 0
  {
    hide Utf8.Decode, Utf8.Encode, Utf8.Clean, Arrived, Faithful, ValidSchema, TypedMessage;
    match k
    case Basic(t) =>
      if v.Str? {
        Utf8.DecodeInvertsEncode(v.s);
      }
    case Nested(i) =>
      MessageFaithful(s, s2, i, v.m);
  }

  lemma {:induction false} ItemsFaithful(s: Schema, s2: Schema, k: Kind, vs: seq<Value>)
    requires ValidSchema(s) && TypedItems(s2, k, vs)
    ensures ArrivedItems(s, s2, false, k, vs) == ArrivedItems(s, s2, true, k, vs) <==> FaithfulItems(s, s2, k, vs)
    decreases vs
  {
    if vs != [] {
      hide ArrivedValue, FaithfulValue, TypedValue, ValidSchema;
      ValueFaithful(s, s2, k, vs[0]);
      ItemsFaithful(s, s2, k, vs[1..]);
      ConsEqual(ArrivedValue(s, s2, false, k, vs[0]), ArrivedItems(s, s2, false, k, vs[1..]),
                ArrivedValue(s, s2, true, k, vs[0]), ArrivedItems(s, s2, true, k, vs[1..]));
    }
  }

  lemma ConsEqual<T>(a: T, x: seq<T>, b: T, y: seq<T>)
    ensures [a] + x == [b] + y <==> a == b && x == y
  {
    if [a] + x == [b] + y {
      assert ([a] + x)[0] == ([b] + y)[0];
      assert x == ([a] + x)[1..] == ([b] + y)[1..] == y;
    }
  }

  lemma {:induction false} EntryFaithful(s: Schema, s2: Schema, k: Kind, e: KeyValue)
    requires ValidSchema(s) && TypedEntry(s2, k, e)
    ensures ArrivedEntryValue(s, s2, false, k, e) == ArrivedEntryValue(s, s2, true, k, e)
            <==> FaithfulEntry(s, s2, k, e)
    decreases e
  {
    hide ArrivedValue, FaithfulValue, TypedValue, ValidSchema;
    ValueFaithful(s, s2, k, e.v);
  }

  lemma {:induction false} SameKeysFaithful(s: Schema, s2: Schema, k: Kind, es: seq<KeyValue>)
    requires ValidSchema(s) && TypedEntries(s2, k, es)
    ensures SameKeys(s, s2, false, k, es) == SameKeys(s, s2, true, k, es) <==> FaithfulEntries(s, s2, k, es)
    decreases es, 0
  {
    if es != [] {
      hide ArrivedEntryValue, FaithfulEntry, TypedEntry, ValidSchema, Leads;
      EntryFaithful(s, s2, k, es[0]);
      SameKeysFaithful(s, s2, k, es[1..]);
      ConsEqual(KeyValue(es[0].key, ArrivedEntryValue(s, s2, false, k, es[0])), SameKeys(s, s2, false, k, es[1..]),
                KeyValue(es[0].key, ArrivedEntryValue(s, s2, true, k, es[0])), SameKeys(s, s2, true, k, es[1..]));
    }
  }

  /** A map comes back exactly when its keys survive and its values do. */
  lemma {:induction false} EntriesFaithful(s: Schema, s2: Schema, k: Kind, es: seq<KeyValue>)
    requires ValidSchema(s) && TypedEntries(s2, k, es)
    ensures Assigned(s, s2, k, es, EMPTY_OBJECT) == Dict(SameKeys(s, s2, true, k, es), None)
            <==> KeysSurvive(es) && FaithfulEntries(s, s2, k, es)
    decreases es, 1
  {
    hide Assigned, SameKeys, FaithfulEntries, TypedEntries, ValidSchema, KeysSurvive, Listed, Weight;
    SameKeysFaithful(s, s2, k, es);
    SameKeysWeight(s, s2, true, k, es);
    AssignedWeight(s, s2, k, es, EMPTY_OBJECT);
    assert Weight([]) == 0 by { WeightNil(); }
    if KeysSurvive(es) {
      TypedListed(s2, k, es);
      FollowedEmpty(es);
      AssignedAppends(s, s2, k, es, EMPTY_OBJECT);
      assert [] + SameKeys(s, s2, false, k, es) == SameKeys(s, s2, false, k, es);
    }
  }

  lemma WeightNil()
    ensures Weight([]) == 0
  {
  }

  lemma {:induction false} PropFaithful(s: Schema, s2: Schema, f: Field, p: Prop)
    requires ValidSchema(s) && TypedProp(s2, f, p)
    ensures ArrivedProp(s, s2, false, f.kind, p) == ArrivedProp(s, s2, true, f.kind, p)
            <==> FaithfulProp(s, s2, f.kind, p)
    decreases p
  {
    hide ArrivedValue, ArrivedItems, Assigned, SameKeys, FaithfulValue, FaithfulItems, FaithfulEntries, KeysSurvive,
         TypedValue, TypedItems, TypedEntries, ValidSchema;
    match p
    case One(v) => ValueFaithful(s, s2, f.kind, v);
    case Many(vs) => ItemsFaithful(s, s2, f.kind, vs);
    case Dict(es, _) => EntriesFaithful(s, s2, f.kind, es);
  }

  /** The property of one field. */
  predicate FaithfulField(s: Schema, s2: Schema, i: nat, f: Field, m: Message) {
    Sent(s2, i, f, m) ==> FaithfulProp(s, s2, f.kind, m.props[f.id])
  }

  lemma {:induction false} FaithfulFieldsAt(s: Schema, s2: Schema, i: nat, fields: seq<Field>, m: Message)
    ensures FaithfulFields(s, s2, i, fields, m) <==> forall f :: f in fields ==> FaithfulField(s, s2, i, f, m)
    decreases |fields|
  {
    if fields != [] {
      hide FaithfulProp, Sent;
      var rest := fields[1..];
      FaithfulFieldsAt(s, s2, i, rest, m);
      assert FaithfulFields(s, s2, i, fields, m) <==>
             FaithfulField(s, s2, i, fields[0], m) && FaithfulFields(s, s2, i, rest, m);
      forall f ensures f in fields <==> f == fields[0] || f in rest {
        assert fields == [fields[0]] + rest;
      }
    }
  }

  lemma {:induction false} FieldFaithful(s: Schema, s2: Schema, i: nat, m: Message, f: Field)
    requires ValidSchema(s) && TypedMessage(s2, i, m) && f in TypeAt(s, i).fields
    ensures SameAt(Received(s, s2, i, m), Project(s, s2, i, m), f.id) <==> FaithfulField(s, s2, i, f, m)
    decreases m, 0
  {
    hide ArrivedFields, ArrivedProp, FaithfulProp, TypedFields, TypedProp, Find;
    var fields := TypeAt(s, i).fields;
    ValidType(s, i);
    FindMember(fields, f);
    ArrivedAt(s, s2, false, i, fields, m, f.id);
    ArrivedAt(s, s2, true, i, fields, m, f.id);
    if Sent(s2, i, f, m) {
      TypedPropAt(s2, TypeAt(s2, i).fields, m, f);
      PropFaithful(s, s2, f, m.props[f.id]);
    }
  }

  lemma {:induction false} TypedPropAt(s2: Schema, fields: seq<Field>, m: Message, f: Field)
    requires TypedFields(s2, fields, m) && f in fields
    ensures f.id in m.props ==> TypedProp(s2, f, m.props[f.id])
    ensures f.rule.Required? ==> f.id in m.props
    decreases |fields|
  {
    hide TypedProp;
    if f != fields[0] {
      TypedPropAt(s2, fields[1..], m, f);
    }
  }

  /** A receiver gets exactly the projection if and only if the message is faithful. */
  lemma {:induction false} MessageFaithful(s: Schema, s2: Schema, i: nat, m: Message)
    requires ValidSchema(s) && TypedMessage(s2, i, m)
    ensures Received(s, s2, i, m) == Project(s, s2, i, m) <==> Faithful(s, s2, i, m)
    decreases m, 1
  {
    hide ArrivedFields, ArrivedProp, FaithfulFields, FaithfulField, TypedFields, Find, SameAt;
    var fields := TypeAt(s, i).fields;
    var a, b := Received(s, s2, i, m), Project(s, s2, i, m);
    FaithfulFieldsAt(s, s2, i, fields, m);
    forall f | f in fields ensures SameAt(a, b, f.id) <==> FaithfulField(s, s2, i, f, m) {
      FieldFaithful(s, s2, i, m, f);
    }
    if a == b {
      forall f | f in fields ensures SameAt(a, b, f.id) {
        SameReflexive(a, f.id);
      }
    }
    if Faithful(s, s2, i, m) {
      forall k: nat ensures SameAt(a, b, k) {
        UnknownSame(s, s2, i, m, k);
      }
      SameEverywhere(a, b);
    }
  }

  lemma SameReflexive(a: Message, k: nat)
    ensures SameAt(a, a, k)
  {
  }

  lemma UnknownSame(s: Schema, s2: Schema, i: nat, m: Message, k: nat)
    requires ValidSchema(s)
    requires forall f :: f in TypeAt(s, i).fields ==> SameAt(Received(s, s2, i, m), Project(s, s2, i, m), f.id)
    ensures SameAt(Received(s, s2, i, m), Project(s, s2, i, m), k)
  {
    hide ArrivedFields, ArrivedProp;
    var fields := TypeAt(s, i).fields;
    ValidType(s, i);
    if Find(fields, k).None? {
      ArrivedAt(s, s2, false, i, fields, m, k);
      ArrivedAt(s, s2, true, i, fields, m, k);
    }
  }
}
