/** Decoding at the level of records: what a sequence of wire records means under a schema, and
    the proof that the byte-level decoder computes exactly that. */
module Records {
  import opened Words
  import opened Varints
  import opened Reading
  import opened Schemas
  import opened Wire
  import opened Decoding
  import Utf8

  /** A payload a scalar type reads without losing its place. */
  predicate FitsScalar(t: Scalar, p: Payload) {
    match WireTypeOf(t)
    case 0 => p.Number? && p.n < U32 * U32 && (IsLong(t) || Aligned32(p.n))
    case 5 => p.Single?
    case 1 => p.Double?
    case _ => p.Blob? && |p.bytes| < U32
  }

  function ScalarOf(t: Scalar, p: Payload): Value
    requires FitsScalar(t, p)
  {
    match p
    case Number(n) => if IsLong(t) then OfLong(t, LongOf(n)) else OfWord(t, n % U32)
    case Single(w) => OfWord(t, w)
    case Double(bits) => Wide(bits)
    case Blob(x) => OfBytes(t, x)
  }

  predicate FitsItems(t: Scalar, items: seq<Payload>) {
    items == [] || (FitsScalar(t, items[0]) && FitsItems(t, items[1..]))
  }

  function ItemsOf(t: Scalar, items: seq<Payload>): seq<Value>
    requires FitsItems(t, items)
  {
    if items == [] then [] else [ScalarOf(t, items[0])] + ItemsOf(t, items[1..])
  }

  /** A payload that fits a field's kind; map values are never written as groups. */
  predicate FitsKind(schema: Schema, k: Kind, p: Payload, inMap: bool)
    decreases p, 0
  {
    match k
    case Basic(t) => FitsScalar(t, p)
    case Nested(i) =>
      if !inMap && TypeAt(schema, i).group then
        p.Group? && FitsAll(schema, i, p.recs) && !Misses(schema, i, Fold(schema, i, p.recs, Initial(schema, i)))
      else
        && p.Sub? && |Print(p.recs)| < U32
        && FitsAll(schema, i, p.recs) && !Misses(schema, i, Fold(schema, i, p.recs, Initial(schema, i)))
  }

  function ValueOf(schema: Schema, k: Kind, p: Payload, inMap: bool): Value
    requires FitsKind(schema, k, p, inMap)
    decreases p, 1
  {
    match k
    case Basic(t) => ScalarOf(t, p)
    case Nested(i) => Msg(Fold(schema, i, p.recs, Initial(schema, i)))
  }

  /** A payload as field f takes it: one value, a packed block, or a map entry. */
  predicate FitsField(schema: Schema, f: Field, p: Payload)
    decreases p, 2
  {
    if f.rule.StringMap? then
      p.Entry? && |p.key| < U32 && !p.value.Group? && FitsKind(schema, f.kind, p.value, true)
    else if f.rule.Repeated? && f.kind.Basic? && Packable(f.kind.t) && p.Packed? then
      FitsItems(f.kind.t, p.items) && |Bodies(p.items)| < U32
    else
      FitsKind(schema, f.kind, p, false)
  }

  predicate Fits(schema: Schema, i: nat, r: Rec)
    decreases r, 0
  {
    r.id < 0x2000_0000 &&
    match Find(TypeAt(schema, i).fields, r.id)
    case None => Sized(r.p)
    case Some(f) => FitsField(schema, f, r.p)
  }

  predicate FitsAll(schema: Schema, i: nat, recs: seq<Rec>)
    decreases recs, 0
  {
    recs == [] || (Fits(schema, i, recs[0]) && FitsAll(schema, i, recs[1..]))
  }

  /** What one record does to a message. */
  function Apply(schema: Schema, i: nat, r: Rec, m: Message): Message
    requires Fits(schema, i, r)
    decreases r, 1
  {
    match Find(TypeAt(schema, i).fields, r.id)
    case None => m
    case Some(f) => ApplyField(schema, f, r.p, m)
  }

  function ApplyField(schema: Schema, f: Field, p: Payload, m: Message): Message
    requires FitsField(schema, f, p)
    decreases p, 3
  {
    if f.rule.StringMap? then Put(m, f.id, Utf8.Decode(p.key), ValueOf(schema, f.kind, p.value, true))
    else if f.rule.Repeated? then
      if f.kind.Basic? && Packable(f.kind.t) && p.Packed? then PushAll(m, f.id, ItemsOf(f.kind.t, p.items))
      else PushAll(m, f.id, [ValueOf(schema, f.kind, p, false)])
    else Set(m, f.id, One(ValueOf(schema, f.kind, p, false)))
  }

  function Fold(schema: Schema, i: nat, recs: seq<Rec>, m: Message): Message
    requires FitsAll(schema, i, recs)
    decreases recs, 1
  {
    if recs == [] then m else Fold(schema, i, recs[1..], Apply(schema, i, recs[0], m))
  }

  // The byte-level decoder on printed records.

  lemma ReadNumber(t: Scalar, b: seq<byte>, p: nat, n: nat)
    requires WireTypeOf(t) == 0 && n < U32 * U32 && (IsLong(t) || Aligned32(n))
    requires At(b, p, Varint(n))
    ensures ReadScalar(t, b, p) == Ok(ScalarOf(t, Number(n)), p + |Varint(n)|)
  {
    hide ReadUint32, ReadLong, Varint, At, Aligned32, OfWord;
    if IsLong(t) {
      ReadLongOnVarint(b, p, n);
    } else {
      ReadUint32OnVarint(b, p, n);
    }
  }

  lemma ReadFixed(t: Scalar, b: seq<byte>, p: nat, pl: Payload)
    requires FitsScalar(t, pl) && (pl.Single? || pl.Double?)
    requires At(b, p, Body(pl))
    ensures ReadScalar(t, b, p) == Ok(ScalarOf(t, pl), p + |Body(pl)|)
  {
    hide ReadUint32, ReadLong, FixedBytes, Word;
    match pl
    case Single(w) =>
      WordOnFixed32(b, p, w);
    case Double(bits) =>
      AtSplit(b, p, FixedBytes(bits.lo), FixedBytes(bits.hi));
      WordOnFixed32(b, p, bits.lo);
      WordOnFixed32(b, p + 4, bits.hi);
  }

  /** A scalar read takes exactly one fitting payload and yields its value. */
  lemma ReadScalarOnBody(t: Scalar, b: seq<byte>, p: nat, pl: Payload)
    requires FitsScalar(t, pl)
    requires At(b, p, Body(pl))
    ensures ReadScalar(t, b, p) == Ok(ScalarOf(t, pl), p + |Body(pl)|)
  {
    hide ReadUint32, ReadLong, At, Varint, FixedBytes, ReadBytes, Aligned32;
    match pl
    case Number(n) =>
      ReadNumber(t, b, p, n);
    case Blob(x) =>
      ReadBytesOnBlob(b, p, x);
    case _ =>
      ReadFixed(t, b, p, pl);
  }

  /** One element of a packed block. */
  lemma ReadPackedStep(t: Scalar, b: seq<byte>, p: nat, c: nat, v: Value, q: nat, vs: seq<Value>)
    requires p < c && p < q <= |b| + 1
    requires ReadScalar(t, b, p) == Ok(v, q) && ReadPacked(t, b, q, c) == Ok(vs, c)
    ensures ReadPacked(t, b, p, c) == Ok([v] + vs, c)
  {
    hide ReadScalar;
  }

  lemma {:induction false} ReadPackedOnBodies(t: Scalar, b: seq<byte>, p: nat, c: nat, items: seq<Payload>)
    requires FitsItems(t, items)
    requires At(b, p, Bodies(items)) && c == p + |Bodies(items)|
    ensures ReadPacked(t, b, p, c) == Ok(ItemsOf(t, items), c)
    decreases items
  {
    if items != [] {
      hide ReadScalar, FitsScalar, Body, ScalarOf, At, ReadPacked;
      var q := p + |Body(items[0])|;
      AtSplit(b, p, Body(items[0]), Bodies(items[1..]));
      ReadScalarOnBody(t, b, p, items[0]);
      ReadPackedOnBodies(t, b, q, c, items[1..]);
      ReadPackedStep(t, b, p, c, ScalarOf(t, items[0]), q, ItemsOf(t, items[1..]));
    }
  }

  /** Reading a length in front of its bytes. */
  lemma ReadLength(b: seq<byte>, p: nat, x: seq<byte>)
    requires |x| < U32
    requires At(b, p, Delimited(x))
    ensures ReadUint32(b, p) == Ok(|x|, p + |Varint(|x|)|)
    ensures At(b, p + |Varint(|x|)|, x)
    ensures |Delimited(x)| == |Varint(|x|)| + |x|
  {
    hide ReadUint32, Varint;
    AtSplit(b, p, Varint(|x|), x);
    ReadUint32Short(b, p, |x|);
  }

  /** One turn of the field loop. */
  lemma FieldsStep(schema: Schema, i: nat, b: seq<byte>, p: nat, c: nat, m: Message, tag: nat, q: nat,
      m': Message, q': nat)
    requires p < c && p < q <= |b| && q <= q' <= |b| + 1
    requires tag % 8 != 4
    requires ReadUint32(b, p) == Ok(tag, q) && DecodeTagged(schema, i, b, q, tag, m) == Ok(m', q')
    ensures DecodeFields(schema, i, b, p, c, m) == DecodeFields(schema, i, b, q', c, m')
  {
    hide ReadUint32, DecodeTagged;
  }

  /** A message that has reached its end. */
  lemma MessageEnd(schema: Schema, i: nat, b: seq<byte>, p: nat, c: nat, q: nat, m: Message)
    requires p <= q <= |b| && q == c
    requires DecodeFields(schema, i, b, p, c, Initial(schema, i)) == DecodeFields(schema, i, b, q, c, m)
    requires !Misses(schema, i, m)
    ensures DecodeMessage(schema, i, b, p, c) == Ok(Msg(m), q)
  {
    hide Misses, Initial;
    assert DecodeFields(schema, i, b, q, c, m) == Ok(m, q);
  }

  /** A group that has reached its end tag. */
  lemma GroupEnd(schema: Schema, i: nat, b: seq<byte>, p: nat, q: nat, m: Message, id: nat)
    requires p <= q && id < 0x2000_0000 && TypeAt(schema, i).group
    requires At(b, q, Varint(id * 8 + 4))
    requires DecodeFields(schema, i, b, p, |b|, Initial(schema, i)) == DecodeFields(schema, i, b, q, |b|, m)
    requires !Misses(schema, i, m)
    ensures DecodeMessage(schema, i, b, p, |b|) == Ok(Msg(m), q + |Varint(id * 8 + 4)|)
  {
    hide Misses, Initial, ReadUint32, Varint, DecodeTagged;
    ReadTag(b, q, id, 4);
    assert DecodeFields(schema, i, b, q, |b|, m) == Ok(m, q + |Varint(id * 8 + 4)|);
  }

  /** The field loop over a printed sequence of fitting records. */
  lemma {:induction false} DecodeRecs(
      schema: Schema, i: nat, b: seq<byte>, p: nat, c: nat, recs: seq<Rec>, tail: seq<byte>, m: Message)
    requires FitsAll(schema, i, recs)
    requires At(b, p, Print(recs) + tail) && p + |Print(recs)| <= c
    ensures DecodeFields(schema, i, b, p, c, m)
            == DecodeFields(schema, i, b, p + |Print(recs)|, c, Fold(schema, i, recs, m))
    decreases recs, 0
  {
    hide *;
    if recs == [] {
      FoldNil(schema, i, recs, m);
    } else {
      var r := recs[0];
      FitCons(schema, i, recs, m);
      var q := p + |Tag(r)|;
      var q' := q + |Content(r)|;
      var m' := Apply(schema, i, r, m);
      AtPrint(b, p, recs, tail);
      DecodeRec(schema, i, b, q, r, m);
      OneTurn(schema, i, b, p, c, r, m, m');
      AtEnd(b, q', Print(recs[1..]) + tail);
      DecodeRecs(schema, i, b, q', c, recs[1..], tail, m');
    }
  }

  lemma FoldNil(schema: Schema, i: nat, recs: seq<Rec>, m: Message)
    requires recs == []
    ensures |Print(recs)| == 0 && FitsAll(schema, i, recs) && Fold(schema, i, recs, m) == m
  {
  }

  lemma FitCons(schema: Schema, i: nat, recs: seq<Rec>, m: Message)
    requires recs != [] && FitsAll(schema, i, recs)
    ensures Fits(schema, i, recs[0]) && FitsAll(schema, i, recs[1..]) && recs[0].id < 0x2000_0000
    ensures Fold(schema, i, recs, m) == Fold(schema, i, recs[1..], Apply(schema, i, recs[0], m))
  {
    hide Apply, ApplyField, FitsField;
  }

  lemma OneTurn(schema: Schema, i: nat, b: seq<byte>, p: nat, c: nat, r: Rec, m: Message, m': Message)
    requires r.id < 0x2000_0000
    requires At(b, p, Tag(r)) && At(b, p + |Tag(r)|, Content(r)) && p + |Tag(r)| <= c
    requires DecodeTagged(schema, i, b, p + |Tag(r)|, r.id * 8 + WireType(r.p), m)
             == Ok(m', p + |Tag(r)| + |Content(r)|)
    ensures DecodeFields(schema, i, b, p, c, m)
            == DecodeFields(schema, i, b, p + |Tag(r)| + |Content(r)|, c, m')
  {
    hide At, Varint, DecodeFields, DecodeTagged, WireType, Content;
    var q := p + |Tag(r)|;
    AtEnd(b, q, Content(r));
    ReadTag(b, p, r.id, WireType(r.p));
    FieldsStep(schema, i, b, p, c, m, r.id * 8 + WireType(r.p), q, m', q + |Content(r)|);
  }

  /** One record behind its tag. */
  lemma {:induction false} DecodeRec(schema: Schema, i: nat, b: seq<byte>, p: nat, r: Rec, m: Message)
    requires Fits(schema, i, r)
    requires At(b, p, Content(r))
    ensures DecodeTagged(schema, i, b, p, r.id * 8 + WireType(r.p), m) == Ok(Apply(schema, i, r, m), p + |Content(r)|)
    decreases r, 0
  {
    hide At, SkipType, Body, Sized, DecodeField, FitsField, ApplyField;
    var tag := r.id * 8 + WireType(r.p);
    assert tag / 8 == r.id && tag % 8 == WireType(r.p);
    match Find(TypeAt(schema, i).fields, r.id)
    case None =>
      SkipOnBody(b, p, r);
    case Some(f) =>
      DecodeFieldOnContent(schema, f, b, p, r, m);
  }

  lemma {:induction false} DecodeFieldOnContent(schema: Schema, f: Field, b: seq<byte>, p: nat, r: Rec, m: Message)
    requires r.id < 0x2000_0000 && FitsField(schema, f, r.p)
    requires At(b, p, Content(r))
    ensures DecodeField(schema, f, b, p, WireType(r.p), m) == Ok(ApplyField(schema, f, r.p, m), p + |Content(r)|)
    decreases r.p, 2
  {
    hide At, Body, ReadUint32, ReadPacked, ReadValue, ReadEntry, FitsKind, FitsItems, ItemsOf, ValueOf, Bodies, Print;
    if f.rule.StringMap? {
      AtSplit(b, p, Body(r.p), EndTag(r));
      ReadEntryOnBody(schema, f.kind, b, p, r.p);
    } else if f.rule.Repeated? && f.kind.Basic? && Packable(f.kind.t) && r.p.Packed? {
      PackedField(schema, f, b, p, r, m);
    } else {
      UnpackedWire(schema, f, r.p);
      ReadValueOnContent(schema, f.kind, b, p, r);
    }
  }

  /** Only packed blocks of a packable type have wire type 2. */
  lemma UnpackedWire(schema: Schema, f: Field, p: Payload)
    requires FitsKind(schema, f.kind, p, false)
    ensures f.kind.Basic? && Packable(f.kind.t) ==> WireType(p) != 2
  {
  }

  lemma PackedField(schema: Schema, f: Field, b: seq<byte>, p: nat, r: Rec, m: Message)
    requires f.rule.Repeated? && f.kind.Basic? && Packable(f.kind.t) && r.p.Packed?
    requires FitsItems(f.kind.t, r.p.items) && |Bodies(r.p.items)| < U32
    requires At(b, p, Content(r))
    ensures DecodeField(schema, f, b, p, 2, m)
            == Ok(PushAll(m, f.id, ItemsOf(f.kind.t, r.p.items)), p + |Content(r)|)
  {
    hide At, ReadUint32, ReadPacked, FitsItems, ItemsOf, Bodies, Varint;
    var x := Bodies(r.p.items);
    AtSplit(b, p, Body(r.p), EndTag(r));
    ReadLength(b, p, x);
    var q := p + |Varint(|x|)|;
    ReadPackedOnBodies(f.kind.t, b, q, q + |x|, r.p.items);
  }

  lemma {:induction false} ReadValueOnContent(schema: Schema, k: Kind, b: seq<byte>, p: nat, r: Rec)
    requires r.id < 0x2000_0000 && FitsKind(schema, k, r.p, false)
    requires At(b, p, Content(r))
    ensures ReadValue(schema, k, b, p) == Ok(ValueOf(schema, k, r.p, false), p + |Content(r)|)
    decreases r.p, 1
  {
    hide At, ReadScalar, FitsScalar, ReadDelimited, DecodeMessage, Misses, Varint, FitsAll, Fold, Print;
    AtSplit(b, p, Body(r.p), EndTag(r));
    match k
    case Basic(t) =>
      ScalarContent(t, r);
      ReadScalarOnBody(t, b, p, r.p);
    case Nested(i) =>
      if TypeAt(schema, i).group {
        ReadGroup(schema, i, b, p, r.p.recs, r.id);
      } else {
        ReadSub(schema, i, b, p, r.p.recs);
      }
  }

  lemma ScalarContent(t: Scalar, r: Rec)
    requires FitsScalar(t, r.p)
    ensures Content(r) == Body(r.p)
  {
    assert Body(r.p) + [] == Body(r.p);
  }

  lemma {:induction false} ReadSub(schema: Schema, i: nat, b: seq<byte>, p: nat, recs: seq<Rec>)
    requires FitsAll(schema, i, recs) && |Print(recs)| < U32
    requires !Misses(schema, i, Fold(schema, i, recs, Initial(schema, i)))
    requires At(b, p, Delimited(Print(recs)))
    ensures ReadDelimited(schema, i, b, p)
            == Ok(Msg(Fold(schema, i, recs, Initial(schema, i))), p + |Delimited(Print(recs))|)
    decreases recs, 1
  {
    hide At, ReadUint32, Varint, FitsAll, Fold, Print, DecodeMessage, DecodeFields, Misses, Initial;
    var x := Print(recs);
    ReadLength(b, p, x);
    var q := p + |Varint(|x|)|;
    assert x + [] == x;
    var m0 := Initial(schema, i);
    DecodeRecs(schema, i, b, q, q + |x|, recs, [], m0);
    AtEnd(b, q, x);
    MessageEnd(schema, i, b, q, q + |x|, q + |x|, Fold(schema, i, recs, m0));
  }

  lemma AtEnd(b: seq<byte>, p: nat, x: seq<byte>)
    requires At(b, p, x)
    ensures p + |x| <= |b|
  {
  }

  lemma {:induction false} ReadGroup(schema: Schema, i: nat, b: seq<byte>, p: nat, recs: seq<Rec>, id: nat)
    requires TypeAt(schema, i).group && id < 0x2000_0000
    requires FitsAll(schema, i, recs)
    requires !Misses(schema, i, Fold(schema, i, recs, Initial(schema, i)))
    requires At(b, p, Print(recs) + Varint(id * 8 + 4))
    ensures DecodeMessage(schema, i, b, p, |b|)
            == Ok(Msg(Fold(schema, i, recs, Initial(schema, i))), p + |Print(recs)| + |Varint(id * 8 + 4)|)
    decreases recs, 1
  {
    hide At, Varint, FitsAll, Fold, Print, DecodeMessage, DecodeFields, Misses, Initial;
    var end := Varint(id * 8 + 4);
    var m0 := Initial(schema, i);
    AtEnd(b, p, Print(recs) + end);
    DecodeRecs(schema, i, b, p, |b|, recs, end, m0);
    AtSplit(b, p, Print(recs), end);
    GroupEnd(schema, i, b, p, p + |Print(recs)|, Fold(schema, i, recs, m0), id);
  }

  lemma {:induction false} ReadEntryOnBody(schema: Schema, k: Kind, b: seq<byte>, p: nat, e: Payload)
    requires e.Entry? && |e.key| < U32 && !e.value.Group? && FitsKind(schema, k, e.value, true)
    requires At(b, p, Body(e))
    ensures ReadEntry(schema, k, b, p)
            == Ok(KeyValue(Utf8.Decode(e.key), ValueOf(schema, k, e.value, true)), p + |Body(e)|)
    decreases e, 1
  {
    hide At, ReadScalar, FitsScalar, ScalarOf, ReadDelimited, ReadBytes, SkipVarint, Varint, Misses, FitsAll,
        Fold, Print;
    var key, val := Delimited(e.key), Body(e.value);
    var q1, q2 := EntryLayout(b, p, e);
    match k
    case Basic(t) =>
      ReadScalarOnBody(t, b, q2 + 1, e.value);
    case Nested(i) =>
      ReadSub(schema, i, b, q2 + 1, e.value.recs);
  }

  /** Where the parts of a map entry stand: both inner tags take one byte. */
  lemma EntryLayout(b: seq<byte>, p: nat, e: Payload) returns (q1: nat, q2: nat)
    requires e.Entry? && |e.key| < U32 && !e.value.Group?
    requires At(b, p, Body(e))
    ensures SkipVarint(b, p) == Ok((), q1) && q1 + 1 <= |b|
    ensures ReadBytes(b, q1 + 1) == Ok(e.key, q2) && q2 + 1 <= |b|
    ensures At(b, q2 + 1, Body(e.value)) && q2 + 1 + |Body(e.value)| == p + |Body(e)|
  {
    hide *;
    var n := EntryBytes(e);
    q1, q2 := EntryParts(b, p, n, 10, e.key, 16 + WireType(e.value), Body(e.value));
    AtEnd(b, q2 + 1, Body(e.value));
  }

  lemma EntryBytes(e: Payload) returns (n: nat)
    requires e.Entry? && !e.value.Group?
    ensures n < U32 * U32 && WireType(e.value) < 8
    ensures Body(e) == Varint(n) + ([10] + (Delimited(e.key) + ([16 + WireType(e.value)] + Body(e.value))))
  {
    var w := WireType(e.value);
    var x := Varint(10) + Delimited(e.key) + Varint(16 + w) + Body(e.value);
    n := |x| % U32;
    assert Body(e) == Delimited(x);
    assert Varint(10) == [10] && Varint(16 + w) == [16 + w];
    assert Delimited(x) == Varint(n) + x;
    hide Body, WireType, Varint, Delimited;
    EntryForm(10, Delimited(e.key), 16 + w, Body(e.value));
  }

  lemma EntryForm(tag1: byte, x: seq<byte>, tag2: byte, y: seq<byte>)
    ensures [tag1] + x + [tag2] + y == [tag1] + (x + ([tag2] + y))
  {
  }

  lemma DelimitedShort(x: seq<byte>)
    requires |x| < U32
    ensures Delimited(x) == Varint(|x|) + x
  {
    ModUnique(|x|, U32, 0, |x|);
    hide Varint;
  }

  lemma EntryParts(b: seq<byte>, p: nat, n: nat, tag1: byte, key: seq<byte>, tag2: byte, val: seq<byte>)
    returns (q1: nat, q2: nat)
    requires n < U32 * U32 && |key| < U32
    requires At(b, p, Varint(n) + ([tag1] + (Delimited(key) + ([tag2] + val))))
    ensures q1 == p + |Varint(n)| && q2 == q1 + 1 + |Delimited(key)| && q2 + 1 <= |b|
    ensures SkipVarint(b, p) == Ok((), q1) && ReadBytes(b, q1 + 1) == Ok(key, q2) && At(b, q2 + 1, val)
  {
    hide *;
    DelimitedShort(key);
    q1 := p + |Varint(n)|;
    q2 := q1 + 1 + |Delimited(key)|;
    AtSplit(b, p, Varint(n), [tag1] + (Delimited(key) + ([tag2] + val)));
    AtSplit(b, q1, [tag1], Delimited(key) + ([tag2] + val));
    AtSplit(b, q1 + 1, Delimited(key), [tag2] + val);
    AtSplit(b, q2, [tag2], val);
    AtEnd(b, q2, [tag2]);
    SkipVarintOnVarint(b, p, n);
    ReadBytesOnBlob(b, q1 + 1, key);
  }
}
