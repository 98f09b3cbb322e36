/** Message types as the reflection layer resolves them, and the messages they describe. */
module Schemas {
  import opened Options
  import opened Words
  import opened Reading
  import Utf8

  /** The basic types modelled; an enum is read and written as int32. */
  datatype Scalar =
    | Int32 | Uint32 | Sint32 | Bool | Int64 | Uint64 | Sint64
    | Fixed32 | Sfixed32 | Fixed64 | Sfixed64 | String | Bytes

  /** `types.basic` */
  function WireTypeOf(t: Scalar): (w: nat)
    ensures w in {0, 1, 2, 5}
  {
    match t
    case Fixed32 => 5
    case Sfixed32 => 5
    case Fixed64 => 1
    case Sfixed64 => 1
    case String => 2
    case Bytes => 2
    case _ => 0
  }

  /** `types.packed[t] !== undefined` */
  predicate Packable(t: Scalar) {
    t != String && t != Bytes
  }

  /** A field holds scalars or messages of another type, referred to by its index. */
  datatype Kind = Basic(t: Scalar) | Nested(index: nat)

  datatype Rule = Required | Optional | Repeated(packed: bool) | StringMap

  datatype Field = Field(id: nat, rule: Rule, kind: Kind)

  datatype Type = Type(group: bool, fields: seq<Field>)

  /** All types by index; they may refer to each other in cycles. */
  type Schema = seq<Type>

  function TypeAt(schema: Schema, i: nat): Type {
    if i < |schema| then schema[i] else Type(false, [])
  }

  predicate DistinctIds(fields: seq<Field>) {
    forall i, j :: 0 <= i < j < |fields| ==> fields[i].id != fields[j].id
  }

  predicate ValidFields(fields: seq<Field>) {
    && DistinctIds(fields)
    && forall f :: f in fields ==> f.id < 0x2000_0000
  }

  predicate ValidSchema(schema: Schema) {
    forall i :: 0 <= i < |schema| ==> ValidFields(schema[i].fields)
  }

  /** The case of the generated `switch` that an id selects. */
  function Find(fields: seq<Field>, id: nat): (r: Option<Field>)
    ensures r.Some? ==> r.value in fields && r.value.id == id
    ensures r.None? ==> forall f :: f in fields ==> f.id != id
  {
    if fields == [] then None
    else if fields[0].id == id then Some(fields[0])
    else Find(fields[1..], id)
  }

  lemma {:induction false} FindMember(fields: seq<Field>, f: Field)
    requires DistinctIds(fields) && f in fields
    ensures Find(fields, f.id) == Some(f)
  {
    if fields[0] != f {
      var k :| 0 <= k < |fields| && fields[k] == f;
      assert fields[1..][k - 1] == f;
      FindMember(fields[1..], f);
    }
  }

  /** Values as JavaScript holds them; every 64-bit value is a pair of words. */
  datatype Value =
    | Signed(n: i32)
    | Unsigned(u: u32)
    | Wide(bits: Long)
    | Flag(b: bool)
    | Str(s: Utf8.Text)
    | Raw(bytes: seq<byte>)
    | Msg(m: Message)

  /** An object used as a map is its own entries, in the order in which JavaScript lists its keys,
      and the object that an assignment to `__proto__` has made its prototype, if any. */
  datatype Prop = One(v: Value) | Many(vs: seq<Value>) | Dict(entries: seq<KeyValue>, proto: Option<Value>)

  datatype KeyValue = KeyValue(key: Utf8.Text, v: Value)

  /** The own properties of a message, by the id of their field. */
  datatype Message = Message(props: map<nat, Prop>)

  function Items(m: Message, id: nat): seq<Value> {
    if id in m.props && m.props[id].Many? then m.props[id].vs else []
  }

  /** `{}` */
  const EMPTY_OBJECT := Dict([], None)

  function DictAt(m: Message, id: nat): (p: Prop)
    ensures p.Dict?
  {
    if id in m.props && m.props[id].Dict? then m.props[id] else EMPTY_OBJECT
  }

  function Set(m: Message, id: nat, p: Prop): Message {
    Message(m.props[id := p])
  }

  /** Pushing to a repeated property, which is made an array first if it is not one. */
  function PushAll(m: Message, id: nat, vs: seq<Value>): Message {
    Set(m, id, Many(Items(m, id) + vs))
  }

  predicate Digits(k: Utf8.Text) {
    forall i :: 0 <= i < |k| ==> 0x30 <= k[i] <= 0x39
  }

  function Decimal(k: Utf8.Text): nat
    requires Digits(k)
  {
    if k == [] then 0 else Decimal(k[..|k| - 1]) * 10 + (k[|k| - 1] - 0x30)
  }

  /** The array index a property key stands for. */
  function IndexOf(k: Utf8.Text): Option<nat> {
    if k != [] && Digits(k) && (|k| == 1 || k[0] != 0x30) && Decimal(k) < U32 - 1 then Some(Decimal(k)) else None
  }

  /** A new key k is listed before an older key: array indices come first, in ascending order. */
  predicate Jumps(k: Utf8.Text, older: Utf8.Text) {
    IndexOf(k).Some? && (IndexOf(older).None? || IndexOf(k).value < IndexOf(older).value)
  }

  /** An assignment to an own property: an existing key keeps its place. */
  function PutEntry(es: seq<KeyValue>, k: Utf8.Text, v: Value): seq<KeyValue> {
    if es == [] then [KeyValue(k, v)]
    else if es[0].key == k then [KeyValue(k, v)] + es[1..]
    else if Jumps(k, es[0].key) then [KeyValue(k, v)] + es
    else [es[0]] + PutEntry(es[1..], k, v)
  }

  /** `__proto__` */
  const PROTO: Utf8.Text := [0x5F, 0x5F, 0x70, 0x72, 0x6F, 0x74, 0x6F, 0x5F, 0x5F]

  predicate IsObject(v: Value) { v.Msg? || v.Raw? }

  /** `o[k] = v` on an object literal, which inherits a setter for `__proto__`: it takes objects
      for the new prototype and ignores everything else. */
  function PutKey(p: Prop, k: Utf8.Text, v: Value): (r: Prop)
    requires p.Dict?
    ensures r.Dict?
  {
    if k == PROTO then (if IsObject(v) then p.(proto := Some(v)) else p)
    else p.(entries := PutEntry(p.entries, k, v))
  }

  function Put(m: Message, id: nat, k: Utf8.Text, v: Value): Message {
    Set(m, id, PutKey(DictAt(m, id), k, v))
  }

  /** What the generated constructor sets: empty arrays and empty maps. */
  function Defaults(fields: seq<Field>): map<nat, Prop> {
    if fields == [] then map[]
    else
      var rest := Defaults(fields[1..]);
      match fields[0].rule
      case Repeated(_) => rest[fields[0].id := Many([])]
      case StringMap => rest[fields[0].id := EMPTY_OBJECT]
      case _ => rest
  }

  function Initial(schema: Schema, i: nat): Message {
    Message(Defaults(TypeAt(schema, i).fields))
  }

  /** A required field that was never set. */
  predicate Misses(schema: Schema, i: nat, m: Message) {
    exists f :: f in TypeAt(schema, i).fields && f.rule.Required? && f.id !in m.props
  }

  /** Zig-zag on the unsigned reading of 64 bits: 2n for n, -2n-1 for negative n. */
  function ZigzagLong(l: Long): Long {
    var n := l.Unsigned();
    if n < 0x8000_0000_0000_0000 then LongOf(2 * n) else LongOf(2 * (U32 * U32 - n) - 1)
  }

  function UnzigzagLong(l: Long): Long {
    var n := l.Unsigned();
    if n % 2 == 0 then LongOf(n / 2) else LongOf(U32 * U32 - 1 - n / 2)
  }

  /** The same on 32 bits, from and to a signed number. */
  function Zigzag(v: i32): u32 {
    if v >= 0 then 2 * v else -2 * v - 1
  }

  function Unzigzag(u: u32): i32 {
    if u % 2 == 0 then u / 2 else -(u / 2) - 1
  }
}
