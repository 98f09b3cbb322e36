/** What a generated `encode` writes: the records of a message under its schema. */
module Encoding {
  import opened Words
  import opened Reading
  import opened Schemas
  import opened Wire
  import opened Decoding
  import Utf8

  /** A value of the right JavaScript shape for a scalar type. */
  predicate TypedScalar(t: Scalar, v: Value) {
    match t
    case Uint32 => v.Unsigned?
    case Fixed32 => v.Unsigned?
    case Int32 => v.Signed?
    case Sint32 => v.Signed?
    case Sfixed32 => v.Signed?
    case Bool => v.Flag?
    case String => v.Str?
    case Bytes => v.Raw? && |v.bytes| < U32
    case _ => v.Wide?
  }

  /** The Writer method named after the type, as a payload. */
  function PayloadOf(t: Scalar, v: Value): Payload
    requires TypedScalar(t, v)
  {
    match t
    case Uint32 => Number(v.u)
    case Int32 => Number(if v.n < 0 then U32 * U32 + v.n else v.n)
    case Sint32 => Number(Zigzag(v.n))
    case Bool => Number(if v.b then 1 else 0)
    case Sint64 => Number(ZigzagLong(v.bits).Unsigned())
    case Fixed32 => Single(v.u)
    case Sfixed32 => Single(ToUint32(v.n))
    case Fixed64 => Double(v.bits)
    case Sfixed64 => Double(v.bits)
    case String => Blob(Utf8.Encode(v.s))
    case Bytes => Blob(v.bytes)
    case _ => Number(v.bits.Unsigned())
  }

  /** Messages the encoder accepts. */
  predicate TypedValue(schema: Schema, k: Kind, v: Value)
    decreases v, 0
  {
    match k
    case Basic(t) => TypedScalar(t, v)
    case Nested(i) => v.Msg? && TypedMessage(schema, i, v.m)
  }

  predicate TypedItems(schema: Schema, k: Kind, vs: seq<Value>)
    decreases vs
  {
    vs == [] || (TypedValue(schema, k, vs[0]) && TypedItems(schema, k, vs[1..]))
  }

  /** Key k is listed before all keys of es, none of which is k again. */
  predicate Leads(k: Utf8.Text, es: seq<KeyValue>) {
    es == [] || (es[0].key != k && !Jumps(es[0].key, k) && Leads(k, es[1..]))
  }

  /** The own entries of an object, as `Object.keys` lists them. */
  predicate TypedEntries(schema: Schema, k: Kind, es: seq<KeyValue>)
    decreases es
  {
    es == [] ||
    (&& TypedEntry(schema, k, es[0])
     && Leads(es[0].key, es[1..])
     && TypedEntries(schema, k, es[1..]))
  }

  predicate TypedEntry(schema: Schema, k: Kind, e: KeyValue)
    decreases e
  {
    TypedValue(schema, k, e.v)
  }

  predicate TypedProp(schema: Schema, f: Field, p: Prop)
    decreases p
  {
    match f.rule
    case StringMap => p.Dict? && TypedEntries(schema, f.kind, p.entries)
    case Repeated(_) => p.Many? && TypedItems(schema, f.kind, p.vs)
    case _ => p.One? && TypedValue(schema, f.kind, p.v)
  }

  predicate TypedFields(schema: Schema, fields: seq<Field>, m: Message)
    decreases m, |fields|
  {
    fields == [] ||
    (&& (fields[0].rule.Required? ==> fields[0].id in m.props)
     && (fields[0].id in m.props ==> TypedProp(schema, fields[0], m.props[fields[0].id]))
     && TypedFields(schema, fields[1..], m))
  }

  predicate TypedMessage(schema: Schema, i: nat, m: Message)
    decreases m, |TypeAt(schema, i).fields| + 1
  {
    TypedFields(schema, TypeAt(schema, i).fields, m)
  }

  /** `fieldsArray.slice().sort(util.compareFieldsById)` */
  function SortById(fields: seq<Field>): seq<Field> {
    if fields == [] then [] else Insert(fields[0], SortById(fields[1..]))
  }

  function Insert(f: Field, fields: seq<Field>): seq<Field> {
    if fields == [] || f.id <= fields[0].id then [f] + fields else [fields[0]] + Insert(f, fields[1..])
  }

  function KindPayload(schema: Schema, k: Kind, v: Value, inMap: bool): Payload
    requires TypedValue(schema, k, v)
    decreases v, 1
  {
    match k
    case Basic(t) => PayloadOf(t, v)
    case Nested(i) =>
      if TypeAt(schema, i).group && !inMap then Group(MessageRecs(schema, i, v.m))
      else Sub(MessageRecs(schema, i, v.m))
  }

  function ItemRecs(schema: Schema, f: Field, vs: seq<Value>): seq<Rec>
    requires TypedItems(schema, f.kind, vs)
    decreases vs, 1
  {
    if vs == [] then []
    else [Rec(f.id, KindPayload(schema, f.kind, vs[0], false))] + ItemRecs(schema, f, vs[1..])
  }

  function EntryRecs(schema: Schema, f: Field, es: seq<KeyValue>): seq<Rec>
    requires TypedEntries(schema, f.kind, es)
    decreases es, 1
  {
    if es == [] then []
    else [Rec(f.id, EntryPayload(schema, f.kind, es[0]))] + EntryRecs(schema, f, es[1..])
  }

  function EntryPayload(schema: Schema, k: Kind, e: KeyValue): Payload
    requires TypedEntry(schema, k, e)
    decreases e, 1
  {
    Entry(Utf8.Encode(e.key), KindPayload(schema, k, e.v, true))
  }

  function PackedItems(schema: Schema, t: Scalar, vs: seq<Value>): seq<Payload>
    requires TypedItems(schema, Basic(t), vs)
  {
    if vs == [] then []
    else
      assert TypedValue(schema, Basic(t), vs[0]);
      [PayloadOf(t, vs[0])] + PackedItems(schema, t, vs[1..])
  }

  /** Whether an array of values goes into one packed record. */
  predicate WritesPacked(f: Field) {
    f.rule.Repeated? && f.rule.packed && f.kind.Basic? && Packable(f.kind.t)
  }

  function PropRecs(schema: Schema, f: Field, p: Prop): seq<Rec>
    requires TypedProp(schema, f, p)
    decreases p, 1
  {
    match f.rule
    case StringMap => EntryRecs(schema, f, p.entries)
    case Repeated(_) =>
      if p.vs == [] then []
      else if WritesPacked(f) then [Rec(f.id, Packed(PackedItems(schema, f.kind.t, p.vs)))]
      else ItemRecs(schema, f, p.vs)
    case _ => [Rec(f.id, KindPayload(schema, f.kind, p.v, false))]
  }

  function FieldRecs(schema: Schema, fields: seq<Field>, m: Message): seq<Rec>
    requires TypedFields(schema, fields, m)
    decreases m, |fields|, 1
  {
    if fields == [] then []
    else
      (if fields[0].id in m.props then PropRecs(schema, fields[0], m.props[fields[0].id]) else [])
      + FieldRecs(schema, fields[1..], m)
  }

  /** All records of a message, in the order of their field ids. */
  function MessageRecs(schema: Schema, i: nat, m: Message): seq<Rec>
    requires TypedMessage(schema, i, m)
    decreases m, |TypeAt(schema, i).fields| + 1, 1
  {
    SortTyped(schema, TypeAt(schema, i).fields, m);
    SortLength(TypeAt(schema, i).fields);
    FieldRecs(schema, SortById(TypeAt(schema, i).fields), m)
  }

  lemma {:induction false} SortLength(fields: seq<Field>)
    ensures |SortById(fields)| == |fields|
  {
    if fields != [] {
      SortLength(fields[1..]);
      InsertLength(fields[0], SortById(fields[1..]));
    }
  }

  lemma {:induction false} InsertLength(f: Field, fields: seq<Field>)
    ensures |Insert(f, fields)| == |fields| + 1
  {
    if fields != [] {
      InsertLength(f, fields[1..]);
    }
  }

  /** Sorting the fields does not change which messages conform. */
  lemma {:induction false} SortTyped(schema: Schema, fields: seq<Field>, m: Message)
    ensures TypedFields(schema, SortById(fields), m) <==> TypedFields(schema, fields, m)
    decreases |fields|
  {
    if fields != [] {
      SortTyped(schema, fields[1..], m);
      InsertTyped(schema, fields[0], SortById(fields[1..]), m);
      TypedCons(schema, fields[0], SortById(fields[1..]), m);
    }
  }

  predicate TypedField(schema: Schema, f: Field, m: Message) {
    && (f.rule.Required? ==> f.id in m.props)
    && (f.id in m.props ==> TypedProp(schema, f, m.props[f.id]))
  }

  lemma TypedCons(schema: Schema, f: Field, fields: seq<Field>, m: Message)
    ensures TypedFields(schema, [f] + fields, m) <==> TypedField(schema, f, m) && TypedFields(schema, fields, m)
  {
    hide TypedProp;
    assert ([f] + fields)[1..] == fields;
  }

  lemma {:induction false} InsertTyped(schema: Schema, f: Field, fields: seq<Field>, m: Message)
    ensures TypedFields(schema, Insert(f, fields), m) <==> TypedFields(schema, [f] + fields, m)
    decreases |fields|
  {
    hide TypedFields, TypedField;
    TypedCons(schema, f, fields, m);
    if fields != [] && f.id > fields[0].id {
      InsertTyped(schema, f, fields[1..], m);
      TypedCons(schema, f, fields[1..], m);
      TypedCons(schema, fields[0], fields[1..], m);
      TypedCons(schema, fields[0], Insert(f, fields[1..]), m);
      assert [fields[0]] + fields[1..] == fields;
    }
  }
}
