/** What a generated `decode` does to a buffer, as a function of the schema. */
module Decoding {
  import opened Words
  import opened Reading
  import opened Schemas
  import Utf8

  /** What a varint read under a scalar type stands for. */
  function OfWord(t: Scalar, u: u32): Value {
    match t
    case Uint32 => Unsigned(u)
    case Sint32 => Signed(Unzigzag(u))
    case Bool => Flag(u != 0)
    case Fixed32 => Unsigned(u)
    case _ => Signed(ToInt32(u))
  }

  function OfLong(t: Scalar, l: Long): Value {
    if t == Sint64 then Wide(UnzigzagLong(l)) else Wide(l)
  }

  function OfBytes(t: Scalar, x: seq<byte>): Value {
    if t == String then Str(Utf8.Decode(x)) else Raw(x)
  }

  predicate IsLong(t: Scalar) {
    t == Int64 || t == Uint64 || t == Sint64
  }

  /** The Reader method named after the type. */
  function ReadScalar(t: Scalar, b: seq<byte>, p: nat): (r: Outcome<Value>)
    ensures r.Ok? ==> p < r.pos <= |b| + 1
  {
    if WireTypeOf(t) == 0 then
      if IsLong(t) then
        var (l, q) :- ReadLong(b, p);
        Ok(OfLong(t, l), q)
      else
        var (u, q) :- ReadUint32(b, p);
        Ok(OfWord(t, u), q)
    else if WireTypeOf(t) == 5 then
      var (u, q) :- ReadFixed32(b, p);
      Ok(OfWord(t, u), q)
    else if WireTypeOf(t) == 1 then
      var (l, q) :- ReadFixed64(b, p);
      Ok(Wide(l), q)
    else
      var (x, q) :- ReadBytes(b, p);
      Ok(OfBytes(t, x), q)
  }

  /** `while (r.pos < c2) m.f.push(r.t())` */
  function ReadPacked(t: Scalar, b: seq<byte>, p: nat, c: nat): (r: Outcome<seq<Value>>)
    requires p <= |b| + 1
    ensures r.Ok? ==> p <= r.pos <= |b| + 1
    decreases Left(b, p)
  {
    if p >= c then Ok([], p)
    else
      var (v, q) :- ReadScalar(t, b, p);
      var (vs, q') :- ReadPacked(t, b, q, c);
      Ok([v] + vs, q')
  }

  /** A nested value: groups run to their end tag, other messages for their length. */
  function ReadValue(schema: Schema, k: Kind, b: seq<byte>, p: nat): (r: Outcome<Value>)
    requires p <= |b| + 1
    ensures r.Ok? ==> p <= r.pos <= |b| + 1
    decreases Left(b, p), 3
  {
    match k
    case Basic(t) => ReadScalar(t, b, p)
    case Nested(i) =>
      if TypeAt(schema, i).group then DecodeMessage(schema, i, b, p, |b|) else ReadDelimited(schema, i, b, p)
  }

  function ReadDelimited(schema: Schema, i: nat, b: seq<byte>, p: nat): (r: Outcome<Value>)
    requires p <= |b| + 1
    ensures r.Ok? ==> p < r.pos <= |b| + 1
    decreases Left(b, p), 2
  {
    var (n, q) :- ReadUint32(b, p);
    DecodeMessage(schema, i, b, q, q + n)
  }

  /** A map entry. Its length is skipped, and so are the tags of key and value, taken to be one
      byte each. */
  function ReadEntry(schema: Schema, k: Kind, b: seq<byte>, p: nat): (r: Outcome<KeyValue>)
    requires p <= |b| + 1
    ensures r.Ok? ==> p < r.pos <= |b| + 1
    decreases Left(b, p), 4
  {
    var (_, q1) :- SkipVarint(b, p);
    var (key, q2) :- ReadBytes(b, q1 + 1);
    match k
    case Basic(t) =>
      var (v, q3) :- ReadScalar(t, b, q2 + 1);
      Ok(KeyValue(Utf8.Decode(key), v), q3)
    case Nested(i) =>
      var (v, q3) :- ReadDelimited(schema, i, b, q2 + 1);
      Ok(KeyValue(Utf8.Decode(key), v), q3)
  }

  /** The case of field f, for a tag of the given wire type. */
  function DecodeField(schema: Schema, f: Field, b: seq<byte>, p: nat, wire: nat, m: Message): (r: Outcome<Message>)
    requires p <= |b| + 1
    ensures r.Ok? ==> p <= r.pos <= |b| + 1
    decreases Left(b, p), 5
  {
    match f.rule
    case StringMap =>
      var (kv, q) :- ReadEntry(schema, f.kind, b, p);
      Ok(Put(m, f.id, kv.key, kv.v), q)
    case Repeated(_) =>
      if f.kind.Basic? && Packable(f.kind.t) && wire == 2 then
        var (n, q) :- ReadUint32(b, p);
        var (vs, q') :- ReadPacked(f.kind.t, b, q, q + n);
        Ok(PushAll(m, f.id, vs), q')
      else
        var (v, q) :- ReadValue(schema, f.kind, b, p);
        Ok(PushAll(m, f.id, [v]), q)
    case _ =>
      var (v, q) :- ReadValue(schema, f.kind, b, p);
      Ok(Set(m, f.id, One(v)), q)
  }

  /** One turn of the decoding loop behind its tag. */
  function DecodeTagged(schema: Schema, i: nat, b: seq<byte>, p: nat, tag: nat, m: Message): (r: Outcome<Message>)
    requires p <= |b| + 1
    ensures r.Ok? ==> p <= r.pos <= |b| + 1
    decreases Left(b, p), 6
  {
    match Find(TypeAt(schema, i).fields, tag / 8)
    case Some(f) => DecodeField(schema, f, b, p, tag % 8, m)
    case None =>
      var (_, q) :- SkipType(b, p, tag % 8);
      Ok(m, q)
  }

  /** `while (r.pos < c) { ... }` */
  function DecodeFields(schema: Schema, i: nat, b: seq<byte>, p: nat, c: nat, m: Message): (r: Outcome<Message>)
    requires p <= |b| + 1
    ensures r.Ok? ==> p <= r.pos <= |b| + 1
    decreases Left(b, p), 0
  {
    if p >= c then Ok(m, p)
    else
      var (tag, q) :- ReadUint32(b, p);
      if TypeAt(schema, i).group && tag % 8 == 4 then Ok(m, q)
      else
        var (m', q') :- DecodeTagged(schema, i, b, q, tag, m);
        DecodeFields(schema, i, b, q', c, m')
  }

  /** The whole generated function: c is where the message ends. */
  function DecodeMessage(schema: Schema, i: nat, b: seq<byte>, p: nat, c: nat): (r: Outcome<Value>)
    requires p <= |b| + 1
    ensures r.Ok? ==> p <= r.pos <= |b| + 1
    ensures r.Ok? && p < c ==> p < r.pos
    decreases Left(b, p), 1
  {
    var (m, q) :- DecodeFields(schema, i, b, p, c, Initial(schema, i));
    if Misses(schema, i, m) then Throw else Ok(Msg(m), q)
  }

  /** `Type.decode` of a buffer. */
  function Decode(schema: Schema, i: nat, b: seq<byte>): Outcome<Value> {
    DecodeMessage(schema, i, b, 0, |b|)
  }
}
