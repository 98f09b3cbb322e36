/** Messages that come back identical. */
module Fidelity {
  import opened Options
  import opened Words
  import opened Varints
  import opened Reading
  import opened Schemas
  import opened Wire
  import opened Decoding
  import opened Encoding
  import opened Sizes
  import opened Projection
  import opened RoundTrip
  import Utf8

  predicate CompleteValue(s: Schema, k: Kind, v: Value)
    decreases v, 0
  {
    k.Nested? ==> v.Msg? ==> Complete(s, k.index, v.m)
  }

  predicate CompleteItems(s: Schema, k: Kind, vs: seq<Value>)
    decreases vs
  {
    vs == [] || (CompleteValue(s, k, vs[0]) && CompleteItems(s, k, vs[1..]))
  }

  predicate CompleteEntry(s: Schema, k: Kind, e: KeyValue)
    decreases e
  {
    CompleteValue(s, k, e.v)
  }

  predicate CompleteEntries(s: Schema, k: Kind, es: seq<KeyValue>)
    decreases es
  {
    es == [] || (CompleteEntry(s, k, es[0]) && CompleteEntries(s, k, es[1..]))
  }

  predicate CompleteProp(s: Schema, k: Kind, p: Prop)
    decreases p
  {
    match p
    case One(v) => CompleteValue(s, k, v)
    case Many(vs) => CompleteItems(s, k, vs)
    case Dict(es, proto) => proto.None? && CompleteEntries(s, k, es)
  }

  predicate CompleteFields(s: Schema, fields: seq<Field>, m: Message)
    decreases m, |fields|
  {
    fields == [] ||
    (&& (fields[0].id in m.props ==> CompleteProp(s, fields[0].kind, m.props[fields[0].id]))
     && (fields[0].rule.Repeated? || fields[0].rule.StringMap? ==> fields[0].id in m.props)
     && CompleteFields(s, fields[1..], m))
  }

  /** A message as the generated constructor makes it: arrays and maps present, map objects with
      the prototype of a literal, no property that is not a field. */
  predicate Complete(s: Schema, i: nat, m: Message)
    decreases m, |TypeAt(s, i).fields| + 1
  {
    && CompleteFields(s, TypeAt(s, i).fields, m)
    && forall k :: k in m.props ==> Find(TypeAt(s, i).fields, k).Some?
  }

  // ---- a message is its own projection exactly when it is complete ----

  lemma {:induction false} ValueComplete(s: Schema, k: Kind, v: Value)
    requires ValidSchema(s) && TypedValue(s, k, v)
    ensures ArrivedValue(s, s, true, k, v) == v <==> CompleteValue(s, k, v)
    decreases v, 0
  {
    hide ValidSchema, Complete, Arrived, TypedMessage;
    if k.Nested? {
      MessageComplete(s, k.index, v.m);
    }
  }

  lemma {:induction false} ItemsComplete(s: Schema, k: Kind, vs: seq<Value>)
    requires ValidSchema(s) && TypedItems(s, k, vs)
    ensures ArrivedItems(s, s, true, k, vs) == vs <==> CompleteItems(s, k, vs)
    decreases vs
  {
    if vs != [] {
      hide ValidSchema, CompleteValue, ArrivedValue, TypedValue;
      ValueComplete(s, k, vs[0]);
      ItemsComplete(s, k, vs[1..]);
      ConsEqual(ArrivedValue(s, s, true, k, vs[0]), ArrivedItems(s, s, true, k, vs[1..]), vs[0], vs[1..]);
      assert [vs[0]] + vs[1..] == vs;
    }
  }

  lemma {:induction false} EntryComplete(s: Schema, k: Kind, e: KeyValue)
    requires ValidSchema(s) && TypedEntry(s, k, e)
    ensures ArrivedEntryValue(s, s, true, k, e) == e.v <==> CompleteEntry(s, k, e)
    decreases e
  {
    hide ValidSchema, CompleteValue, ArrivedValue, TypedValue;
    ValueComplete(s, k, e.v);
  }

  lemma {:induction false} EntriesComplete(s: Schema, k: Kind, es: seq<KeyValue>)
    requires ValidSchema(s) && TypedEntries(s, k, es)
    ensures SameKeys(s, s, true, k, es) == es <==> CompleteEntries(s, k, es)
    decreases es
  {
    if es != [] {
      hide ValidSchema, CompleteEntry, ArrivedEntryValue, TypedEntry, Leads;
      EntryComplete(s, k, es[0]);
      EntriesComplete(s, k, es[1..]);
      ConsEqual(KeyValue(es[0].key, ArrivedEntryValue(s, s, true, k, es[0])), SameKeys(s, s, true, k, es[1..]),
                es[0], es[1..]);
      assert [es[0]] + es[1..] == es;
    }
  }

  lemma {:induction false} PropComplete(s: Schema, f: Field, p: Prop)
    requires ValidSchema(s) && TypedProp(s, f, p)
    ensures ArrivedProp(s, s, true, f.kind, p) == p <==> CompleteProp(s, f.kind, p)
    decreases p
  {
    hide ValidSchema, CompleteValue, CompleteItems, CompleteEntries, ArrivedValue, ArrivedItems, SameKeys, Assigned,
         TypedValue, TypedItems, TypedEntries;
    match p
    case One(v) => ValueComplete(s, f.kind, v);
    case Many(vs) => ItemsComplete(s, f.kind, vs);
    case Dict(es, _) => EntriesComplete(s, f.kind, es);
  }

  /** One field of a complete message. */
  predicate CompleteField(s: Schema, f: Field, m: Message) {
    && (f.id in m.props ==> CompleteProp(s, f.kind, m.props[f.id]))
    && (f.rule.Repeated? || f.rule.StringMap? ==> f.id in m.props)
  }

  lemma {:induction false} CompleteFieldsAt(s: Schema, fields: seq<Field>, m: Message)
    ensures CompleteFields(s, fields, m) <==> forall f :: f in fields ==> CompleteField(s, f, m)
    decreases |fields|
  {
    if fields != [] {
      hide CompleteProp;
      var rest := fields[1..];
      CompleteFieldsAt(s, rest, m);
      assert CompleteFields(s, fields, m) <==> CompleteField(s, fields[0], m) && CompleteFields(s, rest, m);
      forall f ensures f in fields <==> f == fields[0] || f in rest {
        assert fields == [fields[0]] + rest;
      }
    }
  }

  lemma {:induction false} FieldComplete(s: Schema, i: nat, m: Message, f: Field)
    requires ValidSchema(s) && TypedMessage(s, i, m) && f in TypeAt(s, i).fields
    ensures SameAt(Project(s, s, i, m), m, f.id) <==> CompleteField(s, f, m)
    decreases m, 0
  {
    hide ArrivedFields, ArrivedProp, CompleteProp, TypedFields, TypedProp, Find;
    var fields := TypeAt(s, i).fields;
    ValidType(s, i);
    FindMember(fields, f);
    ArrivedAt(s, s, true, i, fields, m, f.id);
    TypedPropAt(s, fields, m, f);
    if f.id in m.props {
      PropComplete(s, f, m.props[f.id]);
    }
  }

  lemma {:induction false} MessageComplete(s: Schema, i: nat, m: Message)
    requires ValidSchema(s) && TypedMessage(s, i, m)
    ensures Project(s, s, i, m) == m <==> Complete(s, i, m)
    decreases m, 1
  {
    hide ArrivedFields, CompleteFields, CompleteField, TypedFields, SameAt, Find;
    var fields := TypeAt(s, i).fields;
    var r := Project(s, s, i, m);
    CompleteFieldsAt(s, fields, m);
    forall f | f in fields ensures SameAt(r, m, f.id) <==> CompleteField(s, f, m) {
      FieldComplete(s, i, m, f);
    }
    forall k: nat | Find(fields, k).None? ensures SameAt(r, m, k) <==> k !in m.props {
      UnknownAbsent(s, i, m, k);
    }
    if r == m {
      forall k: nat ensures SameAt(r, m, k) {
        SameReflexive(r, k);
      }
    }
    if Complete(s, i, m) {
      forall k: nat ensures SameAt(r, m, k) {
        var found := Find(fields, k);
        assert found.Some? ==> found.value in fields && found.value.id == k;
      }
      SameEverywhere(r, m);
    }
  }

  lemma UnknownAbsent(s: Schema, i: nat, m: Message, k: nat)
    requires ValidSchema(s) && Find(TypeAt(s, i).fields, k).None?
    ensures SameAt(Project(s, s, i, m), m, k) <==> k !in m.props
  {
    hide ArrivedFields;
    ValidType(s, i);
    ArrivedAt(s, s, true, i, TypeAt(s, i).fields, m, k);
  }

  // ---- what is received unchanged was faithful ----

  lemma {:induction false} ValueIntact(s: Schema, k: Kind, v: Value)
    requires ValidSchema(s) && TypedValue(s, k, v) && ArrivedValue(s, s, false, k, v) == v
    ensures FaithfulValue(s, s, k, v)
    decreases v, 0
  {
    hide ValidSchema, Faithful, Arrived, TypedMessage, Utf8.Decode, Utf8.Encode, Utf8.Clean;
    match k
    case Basic(t) =>
      if v.Str? {
        Utf8.DecodeInvertsEncode(v.s);
      }
    case Nested(i) =>
      MessageIntact(s, i, v.m);
  }

  lemma {:induction false} ItemsIntact(s: Schema, k: Kind, vs: seq<Value>)
    requires ValidSchema(s) && TypedItems(s, k, vs) && ArrivedItems(s, s, false, k, vs) == vs
    ensures FaithfulItems(s, s, k, vs)
    decreases vs
  {
    if vs != [] {
      hide ValidSchema, FaithfulValue, ArrivedValue, TypedValue;
      ConsEqual(ArrivedValue(s, s, false, k, vs[0]), ArrivedItems(s, s, false, k, vs[1..]), vs[0], vs[1..]);
      assert [vs[0]] + vs[1..] == vs;
      ValueIntact(s, k, vs[0]);
      ItemsIntact(s, k, vs[1..]);
    }
  }

  lemma {:induction false} EntryIntact(s: Schema, k: Kind, e: KeyValue)
    requires ValidSchema(s) && TypedEntry(s, k, e) && ArrivedEntryValue(s, s, false, k, e) == e.v
    ensures FaithfulEntry(s, s, k, e)
    decreases e
  {
    hide ValidSchema, FaithfulValue, ArrivedValue, TypedValue;
    ValueIntact(s, k, e.v);
  }

  lemma {:induction false} SameKeysIntact(s: Schema, k: Kind, es: seq<KeyValue>)
    requires ValidSchema(s) && TypedEntries(s, k, es) && SameKeys(s, s, false, k, es) == es
    ensures FaithfulEntries(s, s, k, es)
    decreases es, 0
  {
    if es != [] {
      hide ValidSchema, FaithfulEntry, ArrivedEntryValue, TypedEntry, Leads;
      ConsEqual(KeyValue(es[0].key, ArrivedEntryValue(s, s, false, k, es[0])), SameKeys(s, s, false, k, es[1..]),
                es[0], es[1..]);
      assert [es[0]] + es[1..] == es;
      EntryIntact(s, k, es[0]);
      SameKeysIntact(s, k, es[1..]);
    }
  }

  lemma {:induction false} EntriesIntact(s: Schema, k: Kind, es: seq<KeyValue>)
    requires ValidSchema(s) && TypedEntries(s, k, es) && Assigned(s, s, k, es, EMPTY_OBJECT).entries == es
    ensures KeysSurvive(es) && FaithfulEntries(s, s, k, es)
    decreases es, 1
  {
    hide Assigned, SameKeys, FaithfulEntries, TypedEntries, ValidSchema, KeysSurvive, Listed, Weight;
    AssignedWeight(s, s, k, es, EMPTY_OBJECT);
    WeightNil();
    TypedListed(s, k, es);
    FollowedEmpty(es);
    AssignedAppends(s, s, k, es, EMPTY_OBJECT);
    assert [] + SameKeys(s, s, false, k, es) == SameKeys(s, s, false, k, es);
    SameKeysIntact(s, k, es);
  }

  lemma {:induction false} PropIntact(s: Schema, f: Field, p: Prop)
    requires ValidSchema(s) && TypedProp(s, f, p) && ArrivedProp(s, s, false, f.kind, p) == p
    ensures FaithfulProp(s, s, f.kind, p)
    decreases p
  {
    hide ValidSchema, ArrivedValue, ArrivedItems, Assigned, FaithfulValue, FaithfulItems, FaithfulEntries, KeysSurvive,
         TypedValue, TypedItems, TypedEntries;
    match p
    case One(v) => ValueIntact(s, f.kind, v);
    case Many(vs) => ItemsIntact(s, f.kind, vs);
    case Dict(es, _) => EntriesIntact(s, f.kind, es);
  }

  lemma {:induction false} FieldIntact(s: Schema, i: nat, m: Message, f: Field)
    requires ValidSchema(s) && TypedMessage(s, i, m) && Received(s, s, i, m) == m && f in TypeAt(s, i).fields
    ensures FaithfulField(s, s, i, f, m)
    decreases m, 0
  {
    hide ArrivedFields, ArrivedProp, FaithfulProp, TypedFields, TypedProp, Find;
    var fields := TypeAt(s, i).fields;
    ValidType(s, i);
    FindMember(fields, f);
    ArrivedAt(s, s, false, i, fields, m, f.id);
    TypedPropAt(s, fields, m, f);
    if Sent(s, i, f, m) {
      PropIntact(s, f, m.props[f.id]);
    }
  }

  lemma {:induction false} MessageIntact(s: Schema, i: nat, m: Message)
    requires ValidSchema(s) && TypedMessage(s, i, m) && Received(s, s, i, m) == m
    ensures Faithful(s, s, i, m)
    decreases m, 1
  {
    hide Received, FaithfulFields, FaithfulField, TypedFields;
    FaithfulFieldsAt(s, s, i, TypeAt(s, i).fields, m);
    forall f | f in TypeAt(s, i).fields ensures FaithfulField(s, s, i, f, m) {
      FieldIntact(s, i, m, f);
    }
  }

  // ---- the theorem ----

  /** Encoding and decoding gives back exactly the message encoded if and only if the message is
      complete and all its strings and map keys survive. */
  lemma ExactRoundTrip(s: Schema, i: nat, m: Message)
    requires ValidSchema(s)
    requires TypedMessage(s, i, m)
    requires |EncodeBytes(s, i, m)| < U32
    ensures Decode(s, i, EncodeBytes(s, i, m)) == Ok(Msg(m), |EncodeBytes(s, i, m)|)
            <==> Complete(s, i, m) && Faithful(s, s, i, m)
  {
    hide *;
    NarrowsSelf(s);
    NarrowsEvolves(s, s);
    DecodeReceives(s, s, i, m);
    MessageFaithful(s, s, i, m);
    MessageComplete(s, i, m);
    if Received(s, s, i, m) == m {
      MessageIntact(s, i, m);
    }
  }

  // ---- the key that does not survive ----

  /** A type with one map from strings to strings. */
  const ONE_MAP: Schema := [Type(false, [Field(1, StringMap, Basic(String))])]

  function OneEntry(key: Utf8.Text, value: Utf8.Text): Message {
    Message(map[1 := Dict([KeyValue(key, Str(value))], None)])
  }

  const MAP_FIELD := Field(1, StringMap, Basic(String))

  lemma OneEntryTyped(key: Utf8.Text, value: Utf8.Text)
    ensures var m := OneEntry(key, value);
      && ValidSchema(ONE_MAP) && TypedMessage(ONE_MAP, 0, m) && Complete(ONE_MAP, 0, m)
      && MessageRecs(ONE_MAP, 0, m) == [Rec(1, Entry(Utf8.Encode(key), Blob(Utf8.Encode(value))))]
  {
    hide Utf8.Encode;
    var m, e := OneEntry(key, value), KeyValue(key, Str(value));
    assert TypeAt(ONE_MAP, 0).fields == [MAP_FIELD] && m.props[1].entries == [e];
    OneEntryMap(e, value);
    assert [MAP_FIELD][1..] == [];
    assert SortById([MAP_FIELD]) == [MAP_FIELD] by { assert SortById([]) == []; }
    assert TypedFields(ONE_MAP, [], m) && CompleteFields(ONE_MAP, [], m) && FieldRecs(ONE_MAP, [], m) == [];
    assert TypedProp(ONE_MAP, MAP_FIELD, m.props[1]);
    assert TypedFields(ONE_MAP, [MAP_FIELD], m);
    assert CompleteProp(ONE_MAP, MAP_FIELD.kind, m.props[1]);
    assert CompleteFields(ONE_MAP, [MAP_FIELD], m);
    assert PropRecs(ONE_MAP, MAP_FIELD, m.props[1]) == EntryRecs(ONE_MAP, MAP_FIELD, [e]);
    assert FieldRecs(ONE_MAP, [MAP_FIELD], m) == EntryRecs(ONE_MAP, MAP_FIELD, [e]) + [];
  }

  lemma OneEntryMap(e: KeyValue, value: Utf8.Text)
    requires e.v == Str(value)
    ensures TypedEntries(ONE_MAP, Basic(String), [e]) && CompleteEntries(ONE_MAP, Basic(String), [e])
    ensures EntryRecs(ONE_MAP, MAP_FIELD, [e]) == [Rec(1, Entry(Utf8.Encode(e.key), Blob(Utf8.Encode(value))))]
  {
    hide Utf8.Encode;
    assert [e][1..] == [];
    assert TypedEntries(ONE_MAP, Basic(String), []) && CompleteEntries(ONE_MAP, Basic(String), []);
    assert TypedEntry(ONE_MAP, Basic(String), e) by { assert TypedValue(ONE_MAP, Basic(String), e.v); }
    assert CompleteEntry(ONE_MAP, Basic(String), e) by { assert CompleteValue(ONE_MAP, Basic(String), e.v); }
    assert EntryRecs(ONE_MAP, MAP_FIELD, []) == [];
    assert EntryPayload(ONE_MAP, Basic(String), e) == Entry(Utf8.Encode(e.key), Blob(Utf8.Encode(value)));
  }

  lemma OneEntryArrives(value: Utf8.Text)
    ensures Received(ONE_MAP, ONE_MAP, 0, OneEntry(PROTO, value)) == Message(map[1 := EMPTY_OBJECT])
  {
    hide Utf8.Decode, Utf8.Encode;
    var m, e := OneEntry(PROTO, value), KeyValue(PROTO, Str(value));
    assert TypeAt(ONE_MAP, 0).fields == [MAP_FIELD] && m.props[1].entries == [e];
    ProtoIgnored(e, value);
    assert [MAP_FIELD][1..] == [];
    assert Sent(ONE_MAP, 0, MAP_FIELD, m);
    assert ArrivedFields(ONE_MAP, ONE_MAP, false, 0, [], m) == map[];
    assert ArrivedFields(ONE_MAP, ONE_MAP, false, 0, [MAP_FIELD], m) == map[][1 := EMPTY_OBJECT];
  }

  lemma ProtoIgnored(e: KeyValue, value: Utf8.Text)
    requires e == KeyValue(PROTO, Str(value))
    ensures Assigned(ONE_MAP, ONE_MAP, Basic(String), [e], EMPTY_OBJECT) == EMPTY_OBJECT
  {
    hide Utf8.Decode, Utf8.Encode, Utf8.Clean;
    ProtoIsClean();
    Utf8.DecodeInvertsEncode(PROTO);
    var v := ArrivedEntryValue(ONE_MAP, ONE_MAP, false, Basic(String), e);
    assert ArrivedValue(ONE_MAP, ONE_MAP, false, Basic(String), e.v).Str?;
    assert v == ArrivedValue(ONE_MAP, ONE_MAP, false, Basic(String), e.v) && !IsObject(v);
    assert [e][1..] == [];
    assert Assigned(ONE_MAP, ONE_MAP, Basic(String), [], EMPTY_OBJECT) == EMPTY_OBJECT;
  }

  lemma ProtoLength()
    ensures |PROTO| == 9
  {
  }

  lemma ProtoIsClean()
    ensures Utf8.Clean(PROTO)
  {
    Utf8.ShortIsClean(PROTO, 0, false);
  }

  lemma OneEntrySize(key: seq<byte>, value: seq<byte>)
    requires |key| <= 40 && |value| <= 60
    ensures |Print([Rec(1, Entry(key, Blob(value)))])| < U32
  {
    var r := Rec(1, Entry(key, Blob(value)));
    var x := Varint(10) + Delimited(key) + Varint(18) + Body(Blob(value));
    assert |Varint(|key|)| == 1 && |Varint(|value|)| == 1 && |Varint(10)| == 1 && |Varint(18)| == 1;
    assert |x| < 128 && |Varint(|x|)| == 1;
    assert Body(r.p) == Delimited(x);
    assert [r][1..] == [] && Print([]) == [] && EndTag(r) == [];
    assert PrintRec(r) == Varint(10) + (Body(r.p) + []);
    assert Print([r]) == PrintRec(r) + Print([]);
  }

  /** A map with the key `__proto__` comes back without it. */
  lemma ProtoKeyLost(value: Utf8.Text)
    requires |value| <= 16
    ensures var m := OneEntry(PROTO, value);
      && ValidSchema(ONE_MAP) && TypedMessage(ONE_MAP, 0, m) && Complete(ONE_MAP, 0, m)
      && Decode(ONE_MAP, 0, EncodeBytes(ONE_MAP, 0, m))
         == Ok(Msg(Message(map[1 := EMPTY_OBJECT])), |EncodeBytes(ONE_MAP, 0, m)|)
  {
    hide *;
    OneEntryTyped(PROTO, value);
    ProtoLength();
    Utf8.EncodeBound(PROTO);
    Utf8.EncodeBound(value);
    OneEntrySize(Utf8.Encode(PROTO), Utf8.Encode(value));
    OneEntryArrives(value);
    NarrowsSelf(ONE_MAP);
    NarrowsEvolves(ONE_MAP, ONE_MAP);
    EncodedBytes(ONE_MAP, 0, OneEntry(PROTO, value));
    DecodeReceives(ONE_MAP, ONE_MAP, 0, OneEntry(PROTO, value));
  }

  lemma EncodedBytes(s: Schema, i: nat, m: Message)
    requires TypedMessage(s, i, m)
    ensures EncodeBytes(s, i, m) == Print(MessageRecs(s, i, m))
  {
  }
}
