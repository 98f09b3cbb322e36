/** The generated `encode`: a schema interpreter driving a Writer. */
module Encoder {
  import opened Words
  import opened Varints
  import opened Reading
  import opened Schemas
  import opened Wire
  import opened Decoding
  import opened Encoding
  import opened Sizes
  import opened Writing
  import Utf8

  /** `(id << 3 | wireType) >>> 0` */
  function TagOf(id: nat, w: nat): (r: u32)
    requires id < 0x2000_0000 && w < 8
    ensures r == id * 8 + w
  {
    assert Pow2(3) == 8;
    OrAdds(w, id, 3);
    Or(id * 8, w)
  }

  /** `w.t(v)` */
  method WriteScalar(t: Scalar, v: Value, w: Writer)
    requires w.Valid() && TypedScalar(t, v)
    modifies w.Repr
    ensures w.Valid() && fresh(w.Repr - old(w.Repr))
    ensures w.Top() == old(w.Top()) + Body(PayloadOf(t, v)) && w.Below() == old(w.Below())
  {
    hide Writer.Valid, Varint, FixedBytes, Delimited, Long.Unsigned, ZigzagLong, Zigzag;
    w.TailInside();
    match t
    case Int32 => w.Int32(v.n);
    case Uint32 => w.Uint32(v.u);
    case Sint32 => w.Sint32(v.n);
    case Bool => w.Bool(v.b);
    case Int64 => w.Uint64(v.bits);
    case Uint64 => w.Uint64(v.bits);
    case Sint64 => w.Sint64(v.bits);
    case Fixed32 => w.Fixed32(v.u);
    case Sfixed32 => w.Fixed32(ToUint32(v.n));
    case Fixed64 => w.Fixed64(v.bits);
    case Sfixed64 => w.Fixed64(v.bits);
    case String => w.Text(v.s);
    case Bytes => w.Blob(v.bytes);
  }

  /** genTypePartial, or a scalar: one record of a field. */
  method EncodeRecord(schema: Schema, id: nat, k: Kind, v: Value, w: Writer)
    requires ValidSchema(schema) && id < 0x2000_0000
    requires w.Valid() && TypedValue(schema, k, v)
    modifies w.Repr
    ensures w.Valid() && fresh(w.Repr - old(w.Repr))
    ensures w.Top() == old(w.Top()) + PrintRec(Rec(id, KindPayload(schema, k, v, false))) && w.Below() == old(w.Below())
    decreases v, 1
  {
    hide Writer.Valid, Varint, ValidSchema, TypedMessage, MessageRecs, PayloadOf, Print, TypedScalar, Writer.Top,
        Writer.Below, Body;
    match k
    case Basic(t) =>
      EncodeBasic(id, t, v, w);
    case Nested(i) =>
      if TypeAt(schema, i).group {
        EncodeGroup(schema, id, i, v.m, w);
      } else {
        EncodeSub(schema, id, i, v.m, w);
      }
  }

  method EncodeBasic(id: nat, t: Scalar, v: Value, w: Writer)
    requires id < 0x2000_0000
    requires w.Valid() && TypedScalar(t, v)
    modifies w.Repr
    ensures w.Valid() && fresh(w.Repr - old(w.Repr))
    ensures w.Top() == old(w.Top()) + PrintRec(Rec(id, PayloadOf(t, v))) && w.Below() == old(w.Below())
  {
    hide Writer.Valid, Varint, PayloadOf, Print, PrintRec, TypedScalar, Writer.Top, Writer.Below, Body, WireTypeOf;
    ghost var before := w.Top();
    w.TailInside();
    w.Uint32(TagOf(id, WireTypeOf(t)));
    WriteScalar(t, v, w);
    ScalarRecord(id, t, v, before);
  }

  method EncodeGroup(schema: Schema, id: nat, i: nat, m: Message, w: Writer)
    requires ValidSchema(schema) && id < 0x2000_0000
    requires w.Valid() && TypedMessage(schema, i, m)
    modifies w.Repr
    ensures w.Valid() && fresh(w.Repr - old(w.Repr))
    ensures w.Top() == old(w.Top()) + PrintRec(Rec(id, Group(MessageRecs(schema, i, m)))) && w.Below() == old(w.Below())
    decreases m, |TypeAt(schema, i).fields| + 1, 1
  {
    hide *;
    ghost var before := w.Top();
    w.TailInside();
    w.Uint32(TagOf(id, 3));
    EncodeMessage(schema, i, m, w);
    w.TailInside();
    w.Uint32(TagOf(id, 4));
    GroupRecord(id, before, MessageRecs(schema, i, m));
  }

  method EncodeSub(schema: Schema, id: nat, i: nat, m: Message, w: Writer)
    requires ValidSchema(schema) && id < 0x2000_0000
    requires w.Valid() && TypedMessage(schema, i, m)
    modifies w.Repr
    ensures w.Valid() && fresh(w.Repr - old(w.Repr))
    ensures w.Top() == old(w.Top()) + PrintRec(Rec(id, Sub(MessageRecs(schema, i, m)))) && w.Below() == old(w.Below())
    decreases m, |TypeAt(schema, i).fields| + 1, 1
  {
    hide *;
    ghost var before, below := w.Top(), w.Below();
    w.TailInside();
    w.Uint32(TagOf(id, 2));
    w.Fork();
    EncodeMessage(schema, i, m, w);
    Closed(below, before + Varint(id * 8 + 2), w.Below());
    EmptyTop(Print(MessageRecs(schema, i, m)));
    w.TailInside();
    w.Ldelim();
    SubRecord(id, before, MessageRecs(schema, i, m));
  }

  lemma EmptyTop(x: seq<byte>)
    ensures [] + x == x
  {
  }

  /** What a fork followed by a complete ldelim leaves below. */
  lemma Closed(below: seq<seq<byte>>, top: seq<byte>, now: seq<seq<byte>>)
    requires now == below + [top]
    ensures |now| > 0 && now[|now| - 1] == top && now[..|now| - 1] == below
  {
  }

  lemma ScalarRecord(id: nat, t: Scalar, v: Value, before: seq<byte>)
    requires TypedScalar(t, v)
    ensures before + Varint(id * 8 + WireTypeOf(t)) + Body(PayloadOf(t, v))
        == before + PrintRec(Rec(id, PayloadOf(t, v)))
  {
    hide Varint, Body;
    var p := PayloadOf(t, v);
    assert WireType(p) == WireTypeOf(t);
    assert Body(p) + [] == Body(p);
    Associate(before, Varint(id * 8 + WireTypeOf(t)), Body(p));
  }

  lemma GroupRecord(id: nat, before: seq<byte>, recs: seq<Rec>)
    ensures ((before + Varint(id * 8 + 3)) + Print(recs)) + Varint(id * 8 + 4)
        == before + PrintRec(Rec(id, Group(recs)))
  {
    hide Varint, Print;
    Associate(before, Varint(id * 8 + 3), Print(recs));
    Associate(before, Varint(id * 8 + 3) + Print(recs), Varint(id * 8 + 4));
    Associate(Varint(id * 8 + 3), Print(recs), Varint(id * 8 + 4));
  }

  lemma SubRecord(id: nat, before: seq<byte>, recs: seq<Rec>)
    ensures (before + Varint(id * 8 + 2)) + Delimited(Print(recs)) == before + PrintRec(Rec(id, Sub(recs)))
  {
    hide Varint, Print, Delimited;
    assert Delimited(Print(recs)) + [] == Delimited(Print(recs));
    Associate(before, Varint(id * 8 + 2), Delimited(Print(recs)));
  }

  /** The generated function of one type: its fields by ascending id. */
  method EncodeMessage(schema: Schema, i: nat, m: Message, w: Writer)
    requires ValidSchema(schema)
    requires w.Valid() && TypedMessage(schema, i, m)
    modifies w.Repr
    ensures w.Valid() && fresh(w.Repr - old(w.Repr))
    ensures w.Top() == old(w.Top()) + Print(MessageRecs(schema, i, m)) && w.Below() == old(w.Below())
    decreases m, |TypeAt(schema, i).fields| + 1, 0
  {
    hide Writer.Valid, ValidSchema, ValidFields, Print, Writer.Top, Writer.Below, TypedProp, PropRecs, FieldRecs,
        TypedFields, SortById;
    var fs := SortById(TypeAt(schema, i).fields);
    ghost var all := Print(MessageRecs(schema, i, m));
    SortedForEncoding(schema, i, m);
    Drop0(fs);
    var k := 0;
    while k < |fs|
      invariant 0 <= k <= |fs|
      invariant w.Valid() && fresh(w.Repr - old(w.Repr)) && w.Below() == old(w.Below())
      invariant ValidFields(fs[k..]) && TypedFields(schema, fs[k..], m)
      invariant w.Top() + Print(FieldRecs(schema, fs[k..], m)) == old(w.Top()) + all
    {
      FieldsCons(schema, fs, k, m, w.Top());
      if fs[k].id in m.props {
        EncodeProp(schema, fs[k], m.props[fs[k].id], w);
      }
      k := k + 1;
    }
    FieldsEnd(schema, fs[k..], m, w.Top());
  }

  lemma Drop0(fs: seq<Field>)
    ensures fs[0..] == fs
  {
  }

  lemma SortedForEncoding(schema: Schema, i: nat, m: Message)
    requires ValidSchema(schema) && TypedMessage(schema, i, m)
    ensures var fs := SortById(TypeAt(schema, i).fields);
            && ValidFields(fs) && TypedFields(schema, fs, m)
            && MessageRecs(schema, i, m) == FieldRecs(schema, fs, m)
  {
    hide ValidSchema, ValidFields, FieldRecs, TypedFields, SortById;
    SortTyped(schema, TypeAt(schema, i).fields, m);
    SortLength(TypeAt(schema, i).fields);
    ValidType(schema, i);
    SortValid(TypeAt(schema, i).fields);
  }

  /** What is still to be written before and after field k. */
  lemma FieldsCons(schema: Schema, fs: seq<Field>, k: nat, m: Message, top: seq<byte>)
    requires k < |fs| && ValidFields(fs[k..]) && TypedFields(schema, fs[k..], m)
    ensures ValidFields(fs[k + 1..]) && TypedFields(schema, fs[k + 1..], m) && fs[k].id < 0x2000_0000
    ensures fs[k].id in m.props ==> TypedProp(schema, fs[k], m.props[fs[k].id])
    ensures var rest := Print(FieldRecs(schema, fs[k + 1..], m));
            top + Print(FieldRecs(schema, fs[k..], m)) ==
            if fs[k].id in m.props then (top + Print(PropRecs(schema, fs[k], m.props[fs[k].id]))) + rest else top + rest
  {
    hide PropRecs, TypedProp, ValidFields, Print;
    var tail := fs[k..];
    assert tail[0] == fs[k] && tail[1..] == fs[k + 1..];
    ValidTail(tail);
    var head := if fs[k].id in m.props then PropRecs(schema, fs[k], m.props[fs[k].id]) else [];
    var rest := FieldRecs(schema, fs[k + 1..], m);
    assert FieldRecs(schema, tail, m) == head + rest;
    PrintAppend(head, rest);
    if fs[k].id in m.props {
      Associate(top, Print(head), Print(rest));
    } else {
      assert [] + rest == rest;
    }
  }

  lemma FieldsEnd(schema: Schema, fs: seq<Field>, m: Message, top: seq<byte>)
    requires fs == [] && TypedFields(schema, fs, m)
    ensures top + Print(FieldRecs(schema, fs, m)) == top
  {
  }

  /** The statements generated for one field. */
  method EncodeProp(schema: Schema, f: Field, p: Prop, w: Writer)
    requires ValidSchema(schema) && f.id < 0x2000_0000
    requires w.Valid() && TypedProp(schema, f, p)
    modifies w.Repr
    ensures w.Valid() && fresh(w.Repr - old(w.Repr))
    ensures w.Top() == old(w.Top()) + Print(PropRecs(schema, f, p)) && w.Below() == old(w.Below())
    decreases p, 0
  {
    hide Writer.Valid, ValidSchema, Print, Writer.Top, Writer.Below, PrintRec, TypedItems, TypedEntries,
         TypedValue, ItemRecs, EntryRecs, KindPayload, PackedItems;
    match f.rule
    case StringMap =>
      EncodeEntries(schema, f, p.entries, w);
    case Repeated(_) =>
      if p.vs == [] {
        NoRecords(w.Top());
      } else if WritesPacked(f) {
        EncodePacked(schema, f, p.vs, w);
      } else {
        EncodeItems(schema, f, p.vs, w);
      }
    case _ =>
      OneRecord(w.Top(), Rec(f.id, KindPayload(schema, f.kind, p.v, false)));
      EncodeRecord(schema, f.id, f.kind, p.v, w);
  }

  lemma NoRecords(top: seq<byte>)
    ensures top + Print([]) == top
  {
  }

  lemma OneRecord(top: seq<byte>, r: Rec)
    ensures top + Print([r]) == top + PrintRec(r)
  {
    assert [r][1..] == [];
    assert PrintRec(r) + Print([]) == PrintRec(r);
  }

  lemma TypedDrop(schema: Schema, k: Kind, vs: seq<Value>, j: nat)
    requires j < |vs| && TypedItems(schema, k, vs[j..])
    ensures TypedValue(schema, k, vs[j]) && TypedItems(schema, k, vs[j + 1..])
  {
    assert vs[j..][0] == vs[j] && vs[j..][1..] == vs[j + 1..];
  }

  method EncodeItems(schema: Schema, f: Field, vs: seq<Value>, w: Writer)
    requires ValidSchema(schema) && f.id < 0x2000_0000
    requires w.Valid() && TypedItems(schema, f.kind, vs)
    modifies w.Repr
    ensures w.Valid() && fresh(w.Repr - old(w.Repr))
    ensures w.Top() == old(w.Top()) + Print(ItemRecs(schema, f, vs)) && w.Below() == old(w.Below())
    decreases vs, 0
  {
    hide Writer.Valid, ValidSchema, Print, Writer.Top, Writer.Below, PrintRec, TypedItems, TypedValue, ItemRecs,
        KindPayload;
    ghost var all := Print(ItemRecs(schema, f, vs));
    assert vs[0..] == vs;
    var j := 0;
    while j < |vs|
      invariant 0 <= j <= |vs|
      invariant w.Valid() && fresh(w.Repr - old(w.Repr)) && w.Below() == old(w.Below())
      invariant TypedItems(schema, f.kind, vs[j..])
      invariant w.Top() + Print(ItemRecs(schema, f, vs[j..])) == old(w.Top()) + all
    {
      TypedDrop(schema, f.kind, vs, j);
      ItemsCons(schema, f, vs, j, w.Top());
      EncodeRecord(schema, f.id, f.kind, vs[j], w);
      j := j + 1;
    }
    ItemsEnd(schema, f, vs[j..], w.Top());
  }

  lemma ItemsCons(schema: Schema, f: Field, vs: seq<Value>, j: nat, top: seq<byte>)
    requires j < |vs| && TypedItems(schema, f.kind, vs[j..])
    requires TypedValue(schema, f.kind, vs[j]) && TypedItems(schema, f.kind, vs[j + 1..])
    ensures top + Print(ItemRecs(schema, f, vs[j..]))
            == (top + PrintRec(Rec(f.id, KindPayload(schema, f.kind, vs[j], false))))
                + Print(ItemRecs(schema, f, vs[j + 1..]))
  {
    hide KindPayload, TypedValue, PrintRec;
    var r := Rec(f.id, KindPayload(schema, f.kind, vs[j], false));
    assert vs[j..][0] == vs[j] && vs[j..][1..] == vs[j + 1..];
    var recs := ItemRecs(schema, f, vs[j..]);
    assert recs[0] == r && recs[1..] == ItemRecs(schema, f, vs[j + 1..]);
    Associate(top, PrintRec(r), Print(recs[1..]));
  }

  lemma ItemsEnd(schema: Schema, f: Field, vs: seq<Value>, top: seq<byte>)
    requires vs == [] && TypedItems(schema, f.kind, vs)
    ensures top + Print(ItemRecs(schema, f, vs)) == top
  {
  }

  /** `w.uint32(tag).fork(); for (...) w.t(m.f[i]); w.ldelim()` */
  method EncodePacked(schema: Schema, f: Field, vs: seq<Value>, w: Writer)
    requires f.id < 0x2000_0000 && f.kind.Basic?
    requires w.Valid() && TypedItems(schema, f.kind, vs)
    modifies w.Repr
    ensures w.Valid() && fresh(w.Repr - old(w.Repr))
    ensures w.Top() == old(w.Top()) + Print([Rec(f.id, Packed(PackedItems(schema, f.kind.t, vs)))])
    ensures w.Below() == old(w.Below())
  {
    hide Writer.Valid, Varint, Print, Writer.Top, Writer.Below, TypedItems, PackedItems, Bodies, Body, PayloadOf,
        TypedScalar;
    ghost var before, below, all := w.Top(), w.Below(), Bodies(PackedItems(schema, f.kind.t, vs));
    w.TailInside();
    w.Uint32(TagOf(f.id, 2));
    ghost var top := before + Varint(f.id * 8 + 2);
    w.Fork();
    ghost var forked := w.Below();
    assert vs[0..] == vs;
    EmptyTop(all);
    var j := 0;
    while j < |vs|
      invariant 0 <= j <= |vs|
      invariant w.Valid() && fresh(w.Repr - old(w.Repr)) && w.Below() == forked
      invariant TypedItems(schema, Basic(f.kind.t), vs[j..])
      invariant w.Top() + Bodies(PackedItems(schema, f.kind.t, vs[j..])) == all
    {
      PackedCons(schema, f.kind.t, vs, j, w.Top());
      WriteScalar(f.kind.t, vs[j], w);
      j := j + 1;
    }
    PackedEnd(schema, f.kind.t, vs[j..], w.Top());
    Closed(below, top, w.Below());
    w.TailInside();
    w.Ldelim();
    PackedRecord(f.id, before, PackedItems(schema, f.kind.t, vs));
  }

  lemma PackedCons(schema: Schema, t: Scalar, vs: seq<Value>, j: nat, top: seq<byte>)
    requires j < |vs| && TypedItems(schema, Basic(t), vs[j..])
    ensures TypedScalar(t, vs[j]) && TypedItems(schema, Basic(t), vs[j + 1..])
    ensures top + Bodies(PackedItems(schema, t, vs[j..]))
            == (top + Body(PayloadOf(t, vs[j]))) + Bodies(PackedItems(schema, t, vs[j + 1..]))
  {
    hide PayloadOf, Body;
    TypedDrop(schema, Basic(t), vs, j);
    assert TypedValue(schema, Basic(t), vs[j]);
    assert vs[j..][0] == vs[j] && vs[j..][1..] == vs[j + 1..];
    var items := PackedItems(schema, t, vs[j..]);
    assert items[0] == PayloadOf(t, vs[j]) && items[1..] == PackedItems(schema, t, vs[j + 1..]);
    Associate(top, Body(items[0]), Bodies(items[1..]));
  }

  lemma PackedEnd(schema: Schema, t: Scalar, vs: seq<Value>, top: seq<byte>)
    requires vs == [] && TypedItems(schema, Basic(t), vs)
    ensures top + Bodies(PackedItems(schema, t, vs)) == top
  {
  }

  lemma PackedRecord(id: nat, before: seq<byte>, items: seq<Payload>)
    ensures (before + Varint(id * 8 + 2)) + Delimited(Bodies(items)) == before + Print([Rec(id, Packed(items))])
  {
    hide Varint, Bodies, Delimited;
    OneRecord(before, Rec(id, Packed(items)));
    assert Delimited(Bodies(items)) + [] == Delimited(Bodies(items));
    Associate(before, Varint(id * 8 + 2), Delimited(Bodies(items)));
  }

  /** One entry of a map: a record holding the key as field 1 and the value as field 2. */
  method EncodeEntry(schema: Schema, f: Field, e: KeyValue, w: Writer)
    requires ValidSchema(schema) && f.id < 0x2000_0000
    requires w.Valid() && TypedEntry(schema, f.kind, e)
    modifies w.Repr
    ensures w.Valid() && fresh(w.Repr - old(w.Repr))
    ensures w.Top() == old(w.Top()) + PrintRec(Rec(f.id, EntryPayload(schema, f.kind, e)))
        && w.Below() == old(w.Below())
    decreases e, 0
  {
    hide Writer.Valid, Varint, ValidSchema, TypedMessage, MessageRecs, Print, PrintRec, Writer.Top, Writer.Below,
         Delimited, Utf8.Encode, KindPayload, Body, TypedScalar, TypedValue;
    ghost var before, below := w.Top(), w.Below();
    w.TailInside();
    w.Uint32(TagOf(f.id, 2));
    w.Fork();
    w.TailInside();
    w.Uint32(10);
    w.Text(e.key);
    ghost var inner := w.Below();
    ghost var top := w.Top();
    EncodeEntryValue(schema, f.kind, e.v, w);
    Closed(below, before + Varint(f.id * 8 + 2), w.Below());
    w.TailInside();
    w.Ldelim();
    EntryRecord(f.id, before, Utf8.Encode(e.key), KindPayload(schema, f.kind, e.v, true));
  }

  lemma EntryRecord(id: nat, before: seq<byte>, key: seq<byte>, v: Payload)
    ensures (before + Varint(id * 8 + 2))
            + Delimited(((([] + Varint(10)) + Delimited(key)) + Varint(16 + WireType(v))) + Body(v))
            == before + PrintRec(Rec(id, Entry(key, v)))
  {
    var x := Varint(10) + Delimited(key) + Varint(16 + WireType(v)) + Body(v);
    assert [] + Varint(10) == Varint(10);
    assert PrintRec(Rec(id, Entry(key, v))) == Varint(id * 8 + 2) + (Delimited(x) + []);
    hide Varint, Delimited, Body;
    assert Delimited(x) + [] == Delimited(x);
    Associate(before, Varint(id * 8 + 2), Delimited(x));
  }

  method EncodeEntryValue(schema: Schema, k: Kind, v: Value, w: Writer)
    requires ValidSchema(schema)
    requires w.Valid() && TypedValue(schema, k, v)
    modifies w.Repr
    ensures w.Valid() && fresh(w.Repr - old(w.Repr))
    ensures w.Below() == old(w.Below())
    ensures var p := KindPayload(schema, k, v, true);
            w.Top() == (old(w.Top()) + Varint(16 + WireType(p))) + Body(p)
    decreases v, 0
  {
    hide Writer.Valid, Varint, ValidSchema, TypedMessage, MessageRecs, Print, Writer.Top, Writer.Below,
         Delimited, PayloadOf, TypedScalar, Body;
    match k
    case Basic(t) =>
      w.TailInside();
      ScalarWire(t, v);
      w.Uint32(TagOf(2, WireTypeOf(t)));
      WriteScalar(t, v, w);
    case Nested(i) =>
      SubBody(MessageRecs(schema, i, v.m));
      EncodeEntrySub(schema, i, v.m, w);
  }

  method EncodeEntrySub(schema: Schema, i: nat, m: Message, w: Writer)
    requires ValidSchema(schema)
    requires w.Valid() && TypedMessage(schema, i, m)
    modifies w.Repr
    ensures w.Valid() && fresh(w.Repr - old(w.Repr))
    ensures w.Below() == old(w.Below())
    ensures w.Top() == (old(w.Top()) + Varint(18)) + Delimited(Print(MessageRecs(schema, i, m)))
    decreases m, |TypeAt(schema, i).fields| + 1, 1
  {
    hide *;
    ghost var before, below := w.Top(), w.Below();
    w.TailInside();
    w.Uint32(18);
    w.Fork();
    EncodeMessage(schema, i, m, w);
    Closed(below, before + Varint(18), w.Below());
    EmptyTop(Print(MessageRecs(schema, i, m)));
    w.TailInside();
    w.Ldelim();
  }

  lemma SubBody(recs: seq<Rec>)
    ensures Body(Sub(recs)) == Delimited(Print(recs))
  {
  }

  lemma ScalarWire(t: Scalar, v: Value)
    requires TypedScalar(t, v)
    ensures WireType(PayloadOf(t, v)) == WireTypeOf(t)
  {
  }

  method EncodeEntries(schema: Schema, f: Field, es: seq<KeyValue>, w: Writer)
    requires ValidSchema(schema) && f.id < 0x2000_0000
    requires w.Valid() && TypedEntries(schema, f.kind, es)
    modifies w.Repr
    ensures w.Valid() && fresh(w.Repr - old(w.Repr))
    ensures w.Top() == old(w.Top()) + Print(EntryRecs(schema, f, es)) && w.Below() == old(w.Below())
    decreases es, 0
  {
    hide Writer.Valid, ValidSchema, Print, Writer.Top, Writer.Below, PrintRec, TypedEntries, TypedEntry,
        EntryRecs, EntryPayload;
    ghost var all := Print(EntryRecs(schema, f, es));
    assert es[0..] == es;
    var j := 0;
    while j < |es|
      invariant 0 <= j <= |es|
      invariant w.Valid() && fresh(w.Repr - old(w.Repr)) && w.Below() == old(w.Below())
      invariant TypedEntries(schema, f.kind, es[j..])
      invariant w.Top() + Print(EntryRecs(schema, f, es[j..])) == old(w.Top()) + all
    {
      EntriesCons(schema, f, es, j, w.Top());
      EncodeEntry(schema, f, es[j], w);
      j := j + 1;
    }
    EntriesEnd(schema, f, es[j..], w.Top());
  }

  lemma EntriesCons(schema: Schema, f: Field, es: seq<KeyValue>, j: nat, top: seq<byte>)
    requires j < |es| && TypedEntries(schema, f.kind, es[j..])
    ensures TypedEntry(schema, f.kind, es[j]) && TypedEntries(schema, f.kind, es[j + 1..])
    ensures top + Print(EntryRecs(schema, f, es[j..]))
            == (top + PrintRec(Rec(f.id, EntryPayload(schema, f.kind, es[j]))))
                + Print(EntryRecs(schema, f, es[j + 1..]))
  {
    hide EntryPayload, TypedEntry, PrintRec;
    assert es[j..][0] == es[j] && es[j..][1..] == es[j + 1..];
    var r := Rec(f.id, EntryPayload(schema, f.kind, es[j]));
    var recs := EntryRecs(schema, f, es[j..]);
    assert recs[0] == r && recs[1..] == EntryRecs(schema, f, es[j + 1..]);
    Associate(top, PrintRec(r), Print(recs[1..]));
  }

  lemma EntriesEnd(schema: Schema, f: Field, es: seq<KeyValue>, top: seq<byte>)
    requires es == [] && TypedEntries(schema, f.kind, es)
    ensures top + Print(EntryRecs(schema, f, es)) == top
  {
  }

  /** `Type.encode(message).finish()` */
  method Encode(schema: Schema, i: nat, m: Message) returns (buf: array<byte>)
    requires ValidSchema(schema) && TypedMessage(schema, i, m)
    ensures fresh(buf) && buf[..] == Print(MessageRecs(schema, i, m))
  {
    hide ValidSchema, TypedMessage, MessageRecs, Print;
    var w := new Writer();
    EncodeMessage(schema, i, m, w);
    EmptyTop(Print(MessageRecs(schema, i, m)));
    buf := w.Finish();
  }

  /** `Type.encodeDelimited`. The fork is skipped on a writer that is still empty; when that
      writer is itself forked, ldelim closes the outer fork instead of one of its own. */
  method EncodeDelimited(schema: Schema, i: nat, m: Message, w: Writer)
    requires ValidSchema(schema)
    requires w.Valid() && TypedMessage(schema, i, m)
    modifies w.Repr
    ensures w.Valid() && fresh(w.Repr - old(w.Repr))
    ensures var x := Delimited(Print(MessageRecs(schema, i, m))); var n := |old(w.Below())|;
            if old(w.len) > 0 then w.Top() == old(w.Top()) + x && w.Below() == old(w.Below())
            else if n == 0 then w.Top() == x && w.Below() == []
            else w.Top() == old(w.Below())[n - 1] + x && w.Below() == old(w.Below())[..n - 1]
  {
    hide Writer.Valid, Writer.Top, Writer.Below, ValidSchema, TypedMessage, MessageRecs, Print, Delimited;
    w.TailInside();
    ghost var before, below, x := w.Top(), w.Below(), Print(MessageRecs(schema, i, m));
    w.EmptyWhen();
    EmptyTop(x);
    if w.len != 0 {
      w.Fork();
      EncodeMessage(schema, i, m, w);
      Closed(below, before, w.Below());
    } else {
      EncodeMessage(schema, i, m, w);
    }
    w.TailInside();
    w.Ldelim();
  }
}
