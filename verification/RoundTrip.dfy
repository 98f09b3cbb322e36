/** Decoding what was encoded, under the same schema or one that knows fewer fields. */
module RoundTrip {
  import opened Options
  import opened Words
  import opened Varints
  import opened Reading
  import opened Schemas
  import opened Wire
  import opened Decoding
  import opened Records
  import opened Encoding
  import opened Sizes
  import opened Projection
  import opened LongBitsModel
  import Utf8

  // Folding over concatenations, and over records a schema does not know.

  lemma {:induction false} FoldAppend(s: Schema, i: nat, a: seq<Rec>, b: seq<Rec>, m: Message)
    requires FitsAll(s, i, a) && FitsAll(s, i, b)
    ensures FitsAll(s, i, a + b)
    ensures Fold(s, i, a + b, m) == Fold(s, i, b, Fold(s, i, a, m))
    decreases |a|
  {
    if a == [] {
      assert a + b == b;
    } else {
      hide Fits, Apply;
      assert (a + b)[1..] == a[1..] + b && (a + b)[0] == a[0];
      FoldAppend(s, i, a[1..], b, Apply(s, i, a[0], m));
    }
  }

  lemma {:induction false} FoldUnknown(s: Schema, i: nat, recs: seq<Rec>, id: nat, m: Message)
    requires AllSized(recs) && AllId(recs, id)
    requires Find(TypeAt(s, i).fields, id).None?
    ensures FitsAll(s, i, recs) && Fold(s, i, recs, m) == m
    decreases |recs|
  {
    if recs != [] {
      hide Find, Sized;
      FoldUnknown(s, i, recs[1..], id, m);
    }
  }

  // Scalars.

  /** int32 goes out sign-extended to 64 bits and comes back from the low word. */
  lemma Int32Back(v: i32)
    ensures var n := if v < 0 then U32 * U32 + v else v;
            Aligned32(n) && n < U32 * U32 && ToInt32(n % U32) == v
  {
    if v < 0 {
      ModUnique(U32 * U32 + v, U32, U32 - 1, U32 + v);
    }
  }

  lemma Sint32Back(v: i32)
    ensures Unzigzag(Zigzag(v)) == v
  {
  }

  /** A scalar as it comes back: strings through both directions of utf8. */
  function ReadBack(t: Scalar, v: Value): Value {
    if t == String && v.Str? then Str(Utf8.Decode(Utf8.Encode(v.s))) else v
  }

  lemma BlobBack(t: Scalar, v: Value)
    requires t == String || t == Bytes
    requires TypedScalar(t, v) && |Body(PayloadOf(t, v))| < U32
    ensures FitsScalar(t, PayloadOf(t, v)) && ScalarOf(t, PayloadOf(t, v)) == ReadBack(t, v)
  {
    hide Utf8.Decode, Utf8.Encode;
  }

  lemma Sint64Back(bits: Long)
    ensures OfLong(Sint64, LongOf(ZigzagLong(bits).Unsigned())) == Wide(bits)
  {
    ZigzagLongBack(bits);
    LongBack(ZigzagLong(bits));
  }

  /** Reading back what a scalar writer wrote. */
  lemma ScalarBack(t: Scalar, v: Value)
    requires TypedScalar(t, v)
    requires |Body(PayloadOf(t, v))| < U32
    ensures FitsScalar(t, PayloadOf(t, v)) && ScalarOf(t, PayloadOf(t, v)) == ReadBack(t, v)
  {
    hide Body, LongOf, Long.Unsigned, ZigzagLong, UnzigzagLong, Utf8.Decode, Utf8.Encode;
    match t
    case Int32 => Int32Back(v.n);
    case Sint32 => Sint32Back(v.n);
    case Sint64 => Sint64Back(v.bits);
    case Int64 => LongBack(v.bits);
    case Uint64 => LongBack(v.bits);
    case Sfixed32 => SignedPattern(v.n);
    case String => BlobBack(t, v);
    case Bytes => BlobBack(t, v);
    case _ =>
  }

  ghost predicate Compatible(s: Schema, s2: Schema) {
    ValidSchema(s) && ValidSchema(s2) && Evolves(s, s2)
  }

  /** A field of the sender's schema is either known to the receiver as it is, or its id is free. */
  lemma FieldKnown(s: Schema, s2: Schema, i: nat, f: Field)
    requires Compatible(s, s2)
    requires f in TypeAt(s2, i).fields
    ensures DistinctIds(TypeAt(s2, i).fields) && f.id < 0x2000_0000
    ensures Find(TypeAt(s, i).fields, f.id) == if f in TypeAt(s, i).fields then Some(f) else None
    ensures TypeAt(s, i).group == TypeAt(s2, i).group
  {
    ValidType(s, i);
    ValidType(s2, i);
    assert EvolvesType(s[i], s2[i]);
    var found := Find(TypeAt(s, i).fields, f.id);
    FindMember(TypeAt(s2, i).fields, f);
    if found.Some? && found.value in TypeAt(s2, i).fields {
      FindMember(TypeAt(s2, i).fields, found.value);
    }
    if f in TypeAt(s, i).fields {
      FindMember(TypeAt(s, i).fields, f);
    }
  }

  lemma GroupsAgree(s: Schema, s2: Schema, i: nat)
    requires Compatible(s, s2)
    ensures TypeAt(s, i).group == TypeAt(s2, i).group
  {
    if i < |s| {
      assert EvolvesType(s[i], s2[i]);
    }
  }

  // Values, one at a time.

  lemma {:induction false} KindBack(s: Schema, s2: Schema, k: Kind, v: Value, inMap: bool)
    requires Compatible(s, s2)
    requires TypedValue(s2, k, v)
    requires |Body(KindPayload(s2, k, v, inMap))| < U32
    ensures FitsKind(s, k, KindPayload(s2, k, v, inMap), inMap)
    ensures ValueOf(s, k, KindPayload(s2, k, v, inMap), inMap) == ArrivedValue(s, s2, false, k, v)
    decreases v, 1
  {
    match k
    case Basic(t) =>
      BasicBack(s, s2, t, v, inMap);
    case Nested(i) =>
      NestedBack(s, s2, i, v, inMap);
  }

  lemma BasicBack(s: Schema, s2: Schema, t: Scalar, v: Value, inMap: bool)
    requires TypedValue(s2, Basic(t), v)
    requires |Body(KindPayload(s2, Basic(t), v, inMap))| < U32
    ensures FitsKind(s, Basic(t), KindPayload(s2, Basic(t), v, inMap), inMap)
    ensures ValueOf(s, Basic(t), KindPayload(s2, Basic(t), v, inMap), inMap) == ArrivedValue(s, s2, false, Basic(t), v)
  {
    hide Body, PayloadOf, FitsScalar, ScalarOf, TypedScalar;
    ScalarBack(t, v);
  }

  lemma {:induction false} NestedBack(s: Schema, s2: Schema, i: nat, v: Value, inMap: bool)
    requires Compatible(s, s2)
    requires TypedValue(s2, Nested(i), v)
    requires |Body(KindPayload(s2, Nested(i), v, inMap))| < U32
    ensures FitsKind(s, Nested(i), KindPayload(s2, Nested(i), v, inMap), inMap)
    ensures ValueOf(s, Nested(i), KindPayload(s2, Nested(i), v, inMap), inMap)
            == ArrivedValue(s, s2, false, Nested(i), v)
    decreases v, 0
  {
    hide Compatible, TypedMessage, MessageRecs, Print, FitsAll, Fold, Project, Misses, Initial, Varint;
    GroupsAgree(s, s2, i);
    MessageBack(s, s2, i, v.m);
  }

  /** The records of an encoded message mean, under the narrow schema, its projection. */
  lemma {:induction false} MessageBack(s: Schema, s2: Schema, i: nat, m: Message)
    requires Compatible(s, s2)
    requires TypedMessage(s2, i, m)
    requires |Print(MessageRecs(s2, i, m))| < U32
    ensures FitsAll(s, i, MessageRecs(s2, i, m))
    ensures Fold(s, i, MessageRecs(s2, i, m), Initial(s, i)) == Received(s, s2, i, m)
    ensures !Misses(s, i, Received(s, s2, i, m))
    decreases m, |TypeAt(s2, i).fields| + 1, 0
  {
    hide *;
    var fields := TypeAt(s2, i).fields;
    WideValid(s, s2);
    SortedFields(s2, i, m);
    SortedReady(s, s2, i);
    FieldsBack(s, s2, i, SortById(fields), m, Initial(s, i));
    AfterIsReceived(s, s2, i, m);
    NoneMissing(s, s2, i, m);
  }

  // Properties, one field at a time.

  /** The property of a repeated field or a map before its first record. */
  predicate ReadyField(s: Schema, i: nat, f: Field, acc: Message) {
    f in TypeAt(s, i).fields ==>
      && (f.rule.Repeated? ==> f.id in acc.props && acc.props[f.id] == Many([]))
      && (f.rule.StringMap? ==> f.id in acc.props && acc.props[f.id] == EMPTY_OBJECT)
  }

  function AfterField(s: Schema, s2: Schema, i: nat, f: Field, m: Message, acc: Message): Message {
    if f in TypeAt(s, i).fields && f.id in m.props then
      Set(acc, f.id, ArrivedProp(s, s2, false, f.kind, m.props[f.id]))
    else acc
  }

  lemma {:induction false} PropBack(s: Schema, s2: Schema, i: nat, f: Field, p: Prop, acc: Message)
    requires Compatible(s, s2) && f in TypeAt(s2, i).fields && ReadyField(s, i, f, acc)
    requires TypedProp(s2, f, p)
    requires |Print(PropRecs(s2, f, p))| < U32
    ensures FitsAll(s, i, PropRecs(s2, f, p))
    ensures Fold(s, i, PropRecs(s2, f, p), acc)
            == if f in TypeAt(s, i).fields then Set(acc, f.id, ArrivedProp(s, s2, false, f.kind, p)) else acc
    decreases p, 0
  {
    hide Compatible, FitsAll, Fold, Print, TypedItems, TypedEntries, TypedValue, EntryRecs, ItemRecs, PackedItems,
         KindPayload, AllSized, AllId, ArrivedItems, Assigned, ArrivedValue, Find, ValidSchema;
    FieldKnown(s, s2, i, f);
    if f !in TypeAt(s, i).fields {
      WideValid(s, s2);
      PropSized(s2, f, p);
      FoldUnknown(s, i, PropRecs(s2, f, p), f.id, acc);
    } else {
      match f.rule
      case StringMap =>
        EntriesBack(s, s2, i, f, p.entries, acc);
      case Repeated(_) =>
        FreshArray(s, s2, f, p.vs, acc);
        if p.vs == [] {
          FoldNil(s, i, [], acc);
        } else if WritesPacked(f) {
          PackedBack(s, s2, i, f, p.vs, acc);
        } else {
          ItemsBack(s, s2, i, f, p.vs, acc);
        }
      case _ =>
        OneBack(s, s2, i, f, p.v, acc);
    }
  }

  lemma WideValid(s: Schema, s2: Schema)
    requires Compatible(s, s2)
    ensures ValidSchema(s2)
  {
  }

  lemma FreshArray(s: Schema, s2: Schema, f: Field, vs: seq<Value>, acc: Message)
    requires f.id in acc.props && acc.props[f.id] == Many([])
    ensures Items(acc, f.id) + ArrivedItems(s, s2, false, f.kind, vs) == ArrivedItems(s, s2, false, f.kind, vs)
    ensures vs == [] ==> Set(acc, f.id, Many(ArrivedItems(s, s2, false, f.kind, vs))) == acc
  {
    if vs == [] {
      assert acc.props[f.id := Many([])] == acc.props;
    }
  }

  lemma OneRec(s: Schema, i: nat, r: Rec, m: Message)
    requires Fits(s, i, r)
    ensures FitsAll(s, i, [r]) && Fold(s, i, [r], m) == Apply(s, i, r, m)
  {
    hide Fits, Apply;
    assert [r][1..] == [];
    FoldNil(s, i, [], Apply(s, i, r, m));
  }

  lemma {:induction false} OneBack(s: Schema, s2: Schema, i: nat, f: Field, v: Value, acc: Message)
    requires Compatible(s, s2) && f in TypeAt(s2, i).fields && f in TypeAt(s, i).fields
    requires f.rule.Optional? || f.rule.Required?
    requires TypedValue(s2, f.kind, v)
    requires |Print([Rec(f.id, KindPayload(s2, f.kind, v, false))])| < U32
    ensures var recs := [Rec(f.id, KindPayload(s2, f.kind, v, false))];
            FitsAll(s, i, recs) && Fold(s, i, recs, acc) == Set(acc, f.id, One(ArrivedValue(s, s2, false, f.kind, v)))
    decreases v, 2
  {
    hide Compatible, FitsAll, Fold, Print, TypedValue, KindPayload, FitsKind, ValueOf, ArrivedValue, Find, Body;
    var r := Rec(f.id, KindPayload(s2, f.kind, v, false));
    PrintSize([r]);
    FieldKnown(s, s2, i, f);
    KindBack(s, s2, f.kind, v, false);
    OneRec(s, i, r, acc);
  }

  /** Single records of a repeated field append their values in order. */
  lemma {:induction false} ItemsBack(s: Schema, s2: Schema, i: nat, f: Field, vs: seq<Value>, acc: Message)
    requires Compatible(s, s2) && f in TypeAt(s2, i).fields && f in TypeAt(s, i).fields
    requires f.rule.Repeated? && f.id in acc.props && acc.props[f.id].Many?
    requires TypedItems(s2, f.kind, vs)
    requires |Print(ItemRecs(s2, f, vs))| < U32
    ensures FitsAll(s, i, ItemRecs(s2, f, vs))
    ensures Fold(s, i, ItemRecs(s2, f, vs), acc)
            == Set(acc, f.id, Many(Items(acc, f.id) + ArrivedItems(s, s2, false, f.kind, vs)))
    decreases vs
  {
    if vs == [] {
      assert Items(acc, f.id) + [] == Items(acc, f.id);
      assert acc.props[f.id := Many(Items(acc, f.id) + [])] == acc.props;
    } else {
      hide Compatible, FitsAll, Fold, Print, TypedValue, KindPayload, ValueOf, ArrivedValue, Find, Body, FitsKind;
      var recs := ItemRecs(s2, f, vs);
      assert recs[1..] == ItemRecs(s2, f, vs[1..]);
      PrintSize(recs);
      KindBack(s, s2, f.kind, vs[0], false);
      var acc' := PushAll(acc, f.id, [ArrivedValue(s, s2, false, f.kind, vs[0])]);
      ItemApplied(s, s2, i, f, vs[0], acc);
      ItemsBack(s, s2, i, f, vs[1..], acc');
      FitsCons(s, i, recs, acc);
      PushTwice(acc, f.id, ArrivedValue(s, s2, false, f.kind, vs[0]), ArrivedItems(s, s2, false, f.kind, vs[1..]));
    }
  }

  lemma PushTwice(acc: Message, id: nat, v: Value, vs: seq<Value>)
    ensures var acc' := PushAll(acc, id, [v]);
            Set(acc', id, Many(Items(acc', id) + vs)) == Set(acc, id, Many(Items(acc, id) + ([v] + vs)))
  {
    assert Items(acc, id) + [v] + vs == Items(acc, id) + ([v] + vs);
    var acc' := PushAll(acc, id, [v]);
    assert acc'.props[id := Many(Items(acc', id) + vs)] == acc.props[id := Many(Items(acc, id) + ([v] + vs))];
  }

  lemma FitsCons(s: Schema, i: nat, recs: seq<Rec>, m: Message)
    requires recs != [] && Fits(s, i, recs[0]) && FitsAll(s, i, recs[1..])
    ensures FitsAll(s, i, recs)
    ensures Fold(s, i, recs, m) == Fold(s, i, recs[1..], Apply(s, i, recs[0], m))
  {
    hide Fits, Apply;
  }

  lemma ItemApplied(s: Schema, s2: Schema, i: nat, f: Field, v: Value, acc: Message)
    requires Compatible(s, s2) && f in TypeAt(s2, i).fields && f in TypeAt(s, i).fields
    requires f.rule.Repeated?
    requires TypedValue(s2, f.kind, v)
    requires FitsKind(s, f.kind, KindPayload(s2, f.kind, v, false), false)
    requires ValueOf(s, f.kind, KindPayload(s2, f.kind, v, false), false) == ArrivedValue(s, s2, false, f.kind, v)
    ensures var r := Rec(f.id, KindPayload(s2, f.kind, v, false));
            Fits(s, i, r) && Apply(s, i, r, acc) == PushAll(acc, f.id, [ArrivedValue(s, s2, false, f.kind, v)])
  {
    NotPacked(s2, f.kind, v);
    hide Compatible, TypedValue, KindPayload, FitsKind, ValueOf, ArrivedValue, Find, PushAll;
    FieldKnown(s, s2, i, f);
  }

  lemma NotPacked(s2: Schema, k: Kind, v: Value)
    requires TypedValue(s2, k, v)
    ensures !KindPayload(s2, k, v, false).Packed?
  {
  }

  /** A packed record appends its whole block. */
  lemma PackedBack(s: Schema, s2: Schema, i: nat, f: Field, vs: seq<Value>, acc: Message)
    requires Compatible(s, s2) && f in TypeAt(s2, i).fields && f in TypeAt(s, i).fields
    requires WritesPacked(f) && f.id in acc.props && acc.props[f.id].Many?
    requires TypedItems(s2, f.kind, vs)
    requires |Print([Rec(f.id, Packed(PackedItems(s2, f.kind.t, vs)))])| < U32
    ensures var recs := [Rec(f.id, Packed(PackedItems(s2, f.kind.t, vs)))];
            && FitsAll(s, i, recs)
            && Fold(s, i, recs, acc) == Set(acc, f.id, Many(Items(acc, f.id) + ArrivedItems(s, s2, false, f.kind, vs)))
  {
    hide Compatible, FitsAll, Fold, Print, TypedItems, PackedItems, Find, ArrivedItems, FitsItems, ItemsOf, Bodies;
    var r := Rec(f.id, Packed(PackedItems(s2, f.kind.t, vs)));
    PrintSize([r]);
    PackedSize(r.p);
    FieldKnown(s, s2, i, f);
    PackedItemsBack(s, s2, f.kind.t, vs);
    OneRec(s, i, r, acc);
  }

  lemma PackedSize(p: Payload)
    requires p.Packed?
    ensures |Body(p)| >= |Bodies(p.items)|
  {
  }

  lemma {:induction false} PackedItemsBack(s: Schema, s2: Schema, t: Scalar, vs: seq<Value>)
    requires TypedItems(s2, Basic(t), vs)
    requires |Bodies(PackedItems(s2, t, vs))| < U32
    ensures FitsItems(t, PackedItems(s2, t, vs))
    ensures ItemsOf(t, PackedItems(s2, t, vs)) == ArrivedItems(s, s2, false, Basic(t), vs)
    decreases vs
  {
    if vs != [] {
      hide Bodies, Body, PayloadOf, FitsScalar, ScalarOf, TypedScalar;
      var items := PackedItems(s2, t, vs);
      assert TypedValue(s2, Basic(t), vs[0]);
      assert items[1..] == PackedItems(s2, t, vs[1..]);
      BodiesSize(items);
      ScalarBack(t, vs[0]);
      PackedItemsBack(s, s2, t, vs[1..]);
    }
  }

  lemma EntryBack(s: Schema, s2: Schema, i: nat, f: Field, e: KeyValue, acc: Message)
    requires Compatible(s, s2) && f in TypeAt(s2, i).fields && f in TypeAt(s, i).fields
    requires f.rule.StringMap?
    requires TypedEntry(s2, f.kind, e)
    requires |Body(EntryPayload(s2, f.kind, e))| < U32
    ensures var r := Rec(f.id, EntryPayload(s2, f.kind, e));
            && Fits(s, i, r)
            && Apply(s, i, r, acc) ==
                 Put(acc, f.id, Utf8.Decode(Utf8.Encode(e.key)), ArrivedEntryValue(s, s2, false, f.kind, e))
    decreases e, 3
  {
    var v := EntryPayload(s2, f.kind, e);
    EntrySize(v);
    assert !v.value.Group? by { NoGroupInMap(s2, f.kind, e.v); }
    hide Compatible, FitsAll, Fold, Print, TypedValue, KindPayload, FitsKind, ValueOf, ArrivedValue, Find, Body, Put,
         Utf8.Decode, Utf8.Encode;
    FieldKnown(s, s2, i, f);
    KindBack(s, s2, f.kind, e.v, true);
  }

  lemma NoGroupInMap(s2: Schema, k: Kind, v: Value)
    requires TypedValue(s2, k, v)
    ensures !KindPayload(s2, k, v, true).Group?
  {
  }

  lemma EntrySize(p: Payload)
    requires p.Entry?
    ensures |Body(p)| >= |p.key| && |Body(p)| >= |Body(p.value)|
  {
  }

  /** Map entries are assigned one after the other. */
  lemma {:induction false} EntriesBack(s: Schema, s2: Schema, i: nat, f: Field, es: seq<KeyValue>, acc: Message)
    requires Compatible(s, s2) && f in TypeAt(s2, i).fields && f in TypeAt(s, i).fields
    requires f.rule.StringMap? && f.id in acc.props && acc.props[f.id].Dict?
    requires TypedEntries(s2, f.kind, es)
    requires |Print(EntryRecs(s2, f, es))| < U32
    ensures FitsAll(s, i, EntryRecs(s2, f, es))
    ensures Fold(s, i, EntryRecs(s2, f, es), acc) == Set(acc, f.id, Assigned(s, s2, f.kind, es, acc.props[f.id]))
    decreases es
  {
    if es == [] {
      assert acc.props[f.id := acc.props[f.id]] == acc.props;
    } else {
      hide Compatible, FitsAll, Fold, Print, TypedEntry, EntryPayload, ArrivedEntryValue, Find, Body, Fits, Apply,
           Utf8.Decode, Utf8.Encode, PutKey, Leads;
      var recs := EntryRecs(s2, f, es);
      assert recs[1..] == EntryRecs(s2, f, es[1..]);
      PrintSize(recs);
      EntryBack(s, s2, i, f, es[0], acc);
      var key, v := Utf8.Decode(Utf8.Encode(es[0].key)), ArrivedEntryValue(s, s2, false, f.kind, es[0]);
      var acc' := Put(acc, f.id, key, v);
      EntriesBack(s, s2, i, f, es[1..], acc');
      FitsCons(s, i, recs, acc);
      SetTwice(acc, f.id, acc'.props[f.id], Assigned(s, s2, f.kind, es[1..], acc'.props[f.id]));
    }
  }

  lemma SetTwice(acc: Message, id: nat, p: Prop, q: Prop)
    ensures Set(Set(acc, id, p), id, q) == Set(acc, id, q)
  {
    assert acc.props[id := p][id := q] == acc.props[id := q];
  }

  // All fields of a message.

  function After(s: Schema, s2: Schema, i: nat, fs: seq<Field>, m: Message, acc: Message): Message {
    if fs == [] then acc else After(s, s2, i, fs[1..], m, AfterField(s, s2, i, fs[0], m, acc))
  }

  ghost predicate Ready(s: Schema, i: nat, fs: seq<Field>, acc: Message) {
    forall f :: f in fs ==> ReadyField(s, i, f, acc)
  }

  lemma ReadyStep(s: Schema, s2: Schema, i: nat, fs: seq<Field>, m: Message, acc: Message)
    requires fs != [] && ValidFields(fs) && Ready(s, i, fs, acc)
    ensures ReadyField(s, i, fs[0], acc)
    ensures Ready(s, i, fs[1..], AfterField(s, s2, i, fs[0], m, acc))
  {
    hide ValidFields, ArrivedProp;
    ValidTail(fs);
    var acc' := AfterField(s, s2, i, fs[0], m, acc);
    assert fs[0] in fs;
    forall f | f in fs[1..] ensures ReadyField(s, i, f, acc') {
      assert f in fs && ReadyField(s, i, f, acc);
    }
  }

  lemma {:induction false} FieldsBack(s: Schema, s2: Schema, i: nat, fs: seq<Field>, m: Message, acc: Message)
    requires Compatible(s, s2) && ValidFields(fs) && Ready(s, i, fs, acc)
    requires forall f :: f in fs ==> f in TypeAt(s2, i).fields
    requires TypedFields(s2, fs, m)
    requires |Print(FieldRecs(s2, fs, m))| < U32
    ensures FitsAll(s, i, FieldRecs(s2, fs, m))
    ensures Fold(s, i, FieldRecs(s2, fs, m), acc) == After(s, s2, i, fs, m, acc)
    decreases m, |fs|, 0
  {
    hide Compatible, ValidFields, Ready, FitsAll, Fold, Print, TypedProp, PropRecs, ArrivedProp, ReadyField, TypeAt;
    if fs == [] {
      FoldNil(s, i, FieldRecs(s2, fs, m), acc);
    } else {
      var f, rest := fs[0], FieldRecs(s2, fs[1..], m);
      var head := if f.id in m.props then PropRecs(s2, f, m.props[f.id]) else [];
      var acc' := AfterField(s, s2, i, f, m, acc);
      ReadyStep(s, s2, i, fs, m, acc);
      ValidTail(fs);
      PrintAppend(head, rest);
      if f.id in m.props {
        PropBack(s, s2, i, f, m.props[f.id], acc);
      } else {
        FoldNil(s, i, head, acc);
      }
      FieldsBack(s, s2, i, fs[1..], m, acc');
      FoldAppend(s, i, head, rest, acc);
    }
  }

  /** What the sorted field list has that the proof over fields needs. */
  lemma SortedFields(s2: Schema, i: nat, m: Message)
    requires ValidSchema(s2)
    requires TypedMessage(s2, i, m)
    ensures var fs := SortById(TypeAt(s2, i).fields);
            && |fs| == |TypeAt(s2, i).fields| && ValidFields(fs)
            && TypedFields(s2, fs, m)
            && MessageRecs(s2, i, m) == FieldRecs(s2, fs, m)
  {
    hide ValidSchema, ValidFields, FieldRecs, TypedFields, SortById;
    var fields := TypeAt(s2, i).fields;
    SortTyped(s2, fields, m);
    SortLength(fields);
    ValidType(s2, i);
    SortValid(fields);
  }

  lemma {:induction false} DefaultAt(fields: seq<Field>, k: nat)
    requires DistinctIds(fields)
    ensures match Find(fields, k)
            case None => k !in Defaults(fields)
            case Some(f) =>
              && (f.rule.Repeated? ==> k in Defaults(fields) && Defaults(fields)[k] == Many([]))
              && (f.rule.StringMap? ==> k in Defaults(fields) && Defaults(fields)[k] == EMPTY_OBJECT)
              && (k in Defaults(fields) ==> f.rule.Repeated? || f.rule.StringMap?)
  {
    if fields != [] {
      DefaultAt(fields[1..], k);
      if fields[0].id == k {
        FindRest(fields, fields[0]);
      }
    }
  }

  lemma SortedReady(s: Schema, s2: Schema, i: nat)
    requires Compatible(s, s2)
    ensures Ready(s, i, SortById(TypeAt(s2, i).fields), Initial(s, i))
    ensures forall f :: f in SortById(TypeAt(s2, i).fields) ==> f in TypeAt(s2, i).fields
  {
    hide Defaults, Find;
    var fs := SortById(TypeAt(s2, i).fields);
    forall f | f in fs ensures f in TypeAt(s2, i).fields && ReadyField(s, i, f, Initial(s, i)) {
      SortMember(TypeAt(s2, i).fields, f);
      NarrowReady(s, s2, i, f);
    }
  }

  lemma NarrowReady(s: Schema, s2: Schema, i: nat, f: Field)
    requires Compatible(s, s2) && f in TypeAt(s2, i).fields
    ensures ReadyField(s, i, f, Initial(s, i))
  {
    hide Defaults, Find, Evolves;
    if f in TypeAt(s, i).fields {
      ValidType(s, i);
      FindMember(TypeAt(s, i).fields, f);
      DefaultAt(TypeAt(s, i).fields, f.id);
    }
  }

  /** One property of the message after all fields. */
  lemma {:induction false} AfterAt(s: Schema, s2: Schema, i: nat, fs: seq<Field>, m: Message, acc: Message, k: nat)
    requires DistinctIds(TypeAt(s, i).fields) && ValidFields(fs)
    ensures var r := After(s, s2, i, fs, m, acc);
      match Find(TypeAt(s, i).fields, k)
      case Some(f) =>
        if f in fs && k in m.props then k in r.props && r.props[k] == ArrivedProp(s, s2, false, f.kind, m.props[k])
        else SameAt(acc, r, k)
      case None => SameAt(acc, r, k)
    decreases |fs|
  {
    if fs != [] {
      hide Find, ArrivedProp, ValidFields, DistinctIds;
      var g := fs[0];
      ValidTail(fs);
      AfterAt(s, s2, i, fs[1..], m, AfterField(s, s2, i, g, m, acc), k);
      if g in TypeAt(s, i).fields {
        FindMember(TypeAt(s, i).fields, g);
      }
      InTail(fs, Find(TypeAt(s, i).fields, k));
    }
  }

  lemma InTail(fs: seq<Field>, o: Option<Field>)
    requires fs != []
    ensures o.Some? ==> (o.value in fs <==> o.value == fs[0] || o.value in fs[1..])
  {
  }

  lemma AfterIsReceived(s: Schema, s2: Schema, i: nat, m: Message)
    requires Compatible(s, s2)
    requires ValidFields(SortById(TypeAt(s2, i).fields))
    ensures After(s, s2, i, SortById(TypeAt(s2, i).fields), m, Initial(s, i)) == Received(s, s2, i, m)
  {
    var fs := SortById(TypeAt(s2, i).fields);
    var r := After(s, s2, i, fs, m, Initial(s, i));
    ValidType(s, i);
    forall k: nat ensures SameAt(Received(s, s2, i, m), r, k) {
      AfterIsReceivedAt(s, s2, i, m, k);
    }
    SameEverywhere(Received(s, s2, i, m), r);
  }

  lemma AfterIsReceivedAt(s: Schema, s2: Schema, i: nat, m: Message, k: nat)
    requires Compatible(s, s2) && DistinctIds(TypeAt(s, i).fields)
    requires ValidFields(SortById(TypeAt(s2, i).fields))
    ensures SameAt(Received(s, s2, i, m), After(s, s2, i, SortById(TypeAt(s2, i).fields), m, Initial(s, i)), k)
  {
    hide Compatible, After, ArrivedFields, Find, Defaults, DistinctIds, ValidFields, SortById, ArrivedProp, TypeAt;
    var fields := TypeAt(s, i).fields;
    AfterAt(s, s2, i, SortById(TypeAt(s2, i).fields), m, Initial(s, i), k);
    ArrivedAt(s, s2, false, i, fields, m, k);
    DefaultAt(fields, k);
    var found := Find(fields, k);
    if found.Some? {
      SortMember(TypeAt(s2, i).fields, found.value);
    }
  }

  /** Required fields of the receiver are present in every typed message of the sender. */
  lemma NoneMissing(s: Schema, s2: Schema, i: nat, m: Message)
    requires Compatible(s, s2)
    requires TypedMessage(s2, i, m)
    ensures !Misses(s, i, Received(s, s2, i, m))
  {
    hide ArrivedFields, ArrivedProp, TypedFields, TypedProp;
    forall f | f in TypeAt(s, i).fields && f.rule.Required? ensures f.id in Received(s, s2, i, m).props {
      assert EvolvesType(s[i], s2[i]);
      TypedPropAt(s2, TypeAt(s2, i).fields, m, f);
      ValidType(s, i);
      FindMember(TypeAt(s, i).fields, f);
      ArrivedAt(s, s2, false, i, TypeAt(s, i).fields, m, f.id);
    }
  }

  // The theorems.

  /** The bytes of an encoded message. */
  function EncodeBytes(schema: Schema, i: nat, m: Message): seq<byte>
    requires TypedMessage(schema, i, m)
  {
    Print(MessageRecs(schema, i, m))
  }

  /** What any receiver that can read a sender's messages gets of one, whatever strings and keys it
      holds. */
  lemma DecodeReceives(s: Schema, s2: Schema, i: nat, m: Message)
    requires ValidSchema(s) && ValidSchema(s2) && Evolves(s, s2)
    requires TypedMessage(s2, i, m)
    requires |EncodeBytes(s2, i, m)| < U32
    ensures Decode(s, i, EncodeBytes(s2, i, m)) == Ok(Msg(Received(s, s2, i, m)), |EncodeBytes(s2, i, m)|)
  {
    hide TypedMessage, MessageRecs, Print, FitsAll, Fold, Received, Misses, Initial, DecodeFields, ValidSchema, Evolves;
    var b := EncodeBytes(s2, i, m);
    var recs := MessageRecs(s2, i, m);
    MessageBack(s, s2, i, m);
    assert b + [] == b;
    DecodeRecs(s, i, b, 0, |b|, recs, [], Initial(s, i));
    MessageEnd(s, i, b, 0, |b|, |b|, Received(s, s2, i, m));
  }

  /** Schema evolution in both directions: fields unknown to the receiver are transparent, fields
      unknown to the sender stay at their defaults. The receiver gets exactly the projection of
      the message if and only if the strings and map keys that both know survive. */
  lemma EvolvedDecode(s: Schema, s2: Schema, i: nat, m: Message)
    requires ValidSchema(s) && ValidSchema(s2) && Evolves(s, s2)
    requires TypedMessage(s2, i, m)
    requires |EncodeBytes(s2, i, m)| < U32
    ensures Decode(s, i, EncodeBytes(s2, i, m)) == Ok(Msg(Project(s, s2, i, m)), |EncodeBytes(s2, i, m)|)
            <==> Faithful(s, s2, i, m)
  {
    hide *;
    DecodeReceives(s, s2, i, m);
    MessageFaithful(s, s2, i, m);
  }

  /** The same for a receiver that knows only some of the sender's fields. */
  lemma NarrowDecode(s: Schema, s2: Schema, i: nat, m: Message)
    requires ValidSchema(s) && ValidSchema(s2) && Narrows(s, s2)
    requires TypedMessage(s2, i, m)
    requires |EncodeBytes(s2, i, m)| < U32
    ensures Decode(s, i, EncodeBytes(s2, i, m)) == Ok(Msg(Project(s, s2, i, m)), |EncodeBytes(s2, i, m)|)
            <==> Faithful(s, s2, i, m)
  {
    hide *;
    NarrowsEvolves(s, s2);
    EvolvedDecode(s, s2, i, m);
  }

  lemma NarrowsSelf(s: Schema)
    ensures Narrows(s, s)
  {
  }

  /** Whole-message round trip under one schema: absent repeated fields and maps come back empty,
      everything else as it was, if and only if all strings and map keys survive. */
  lemma RoundTrip(s: Schema, i: nat, m: Message)
    requires ValidSchema(s)
    requires TypedMessage(s, i, m)
    requires |EncodeBytes(s, i, m)| < U32
    ensures Decode(s, i, EncodeBytes(s, i, m)) == Ok(Msg(Project(s, s, i, m)), |EncodeBytes(s, i, m)|)
            <==> Faithful(s, s, i, m)
  {
    hide *;
    NarrowsSelf(s);
    NarrowDecode(s, s, i, m);
  }
}
