/** What an encoding means to readers other than the one it was made for: readers with a wider or
    narrower number type, readers that know map entries as messages, and readers that check end
    tags. This fixes the wire form itself, not only that it is read back. */
module Compatibility {
  import opened Options
  import opened Words
  import opened Varints
  import opened Reading
  import opened Schemas
  import opened Wire
  import opened Decoding
  import opened Encoding
  import opened Records
  import opened LongBitsModel
  import opened Sizes
  import Utf8

  // ---- wider readers ----

  /** A number of any type is read whole under a 64-bit type. */
  lemma NumberUnderLong(t: Scalar, b: seq<byte>, p: nat, n: nat)
    requires IsLong(t) && n < U32 * U32 && At(b, p, Varint(n))
    ensures ReadScalar(t, b, p) == Ok(OfLong(t, LongOf(n)), p + |Varint(n)|)
  {
    hide Varint, At, ReadLong;
    ReadLongOnVarint(b, p, n);
  }

  /** An int32 is the same number to a reader that takes the field for an int64. */
  lemma Int32UnderInt64(b: seq<byte>, p: nat, v: i32)
    requires At(b, p, Body(PayloadOf(Int32, Signed(v))))
    ensures var r := ReadScalar(Int64, b, p);
      && r.Ok? && r.pos == p + |Body(PayloadOf(Int32, Signed(v)))|
      && r.v.Wide? && Signed64(r.v.bits.Unsigned()) == v
  {
    hide Varint, At, ReadLong;
    var n := PayloadOf(Int32, Signed(v)).n;
    NumberUnderLong(Int64, b, p, n);
    UnsignedOfLong(n);
  }

  lemma UnsignedOfLong(n: nat)
    requires n < U32 * U32
    ensures LongOf(n).Unsigned() == n
  {
    DivMod(n, U32);
  }

  /** A uint32 is the same number to a reader that takes the field for a uint64. */
  lemma Uint32UnderUint64(b: seq<byte>, p: nat, v: u32)
    requires At(b, p, Body(PayloadOf(Uint32, Unsigned(v))))
    ensures var r := ReadScalar(Uint64, b, p);
      && r.Ok? && r.pos == p + |Body(PayloadOf(Uint32, Unsigned(v)))|
      && r.v.Wide? && r.v.bits.Unsigned() == v
  {
    hide Varint, At, ReadLong;
    NumberUnderLong(Uint64, b, p, v);
    UnsignedOfLong(v);
  }

  /** A sint32 is the same number to a reader that takes the field for a sint64. */
  lemma Sint32UnderSint64(b: seq<byte>, p: nat, v: i32)
    requires At(b, p, Body(PayloadOf(Sint32, Signed(v))))
    ensures var r := ReadScalar(Sint64, b, p);
      && r.Ok? && r.pos == p + |Body(PayloadOf(Sint32, Signed(v)))|
      && r.v.Wide? && Signed64(r.v.bits.Unsigned()) == v
  {
    hide Varint, At, ReadLong;
    NumberUnderLong(Sint64, b, p, Zigzag(v));
    UnsignedOfLong(Zigzag(v));
    UnzigzagSmall(v);
  }

  lemma UnzigzagSmall(v: i32)
    ensures Signed64(UnzigzagLong(LongOf(Zigzag(v))).Unsigned()) == v
  {
    hide Long.Unsigned, LongOf, UnzigzagLong, Zigzag, Signed64;
    Halves(v);
    UnzigzagMeaning(Zigzag(v));
  }

  lemma Halves(v: i32)
    ensures var z := Zigzag(v); if v >= 0 then z % 2 == 0 && z / 2 == v else z % 2 == 1 && z / 2 == -1 - v
  {
  }

  /** A bool is 0 or 1 to a reader that takes the field for a number. */
  lemma BoolUnderUint64(b: seq<byte>, p: nat, v: bool)
    requires At(b, p, Body(PayloadOf(Bool, Flag(v))))
    ensures var r := ReadScalar(Uint64, b, p);
      && r.Ok? && r.pos == p + |Body(PayloadOf(Bool, Flag(v)))|
      && r.v.Wide? && r.v.bits.Unsigned() == if v then 1 else 0
  {
    hide Varint, At, ReadLong;
    NumberUnderLong(Uint64, b, p, if v then 1 else 0);
  }

  // ---- narrower readers ----

  /** A 64-bit number on which 32-bit reads stay aligned is its low word to a narrower reader, and
      true to one of bools when that word is not 0. */
  lemma Uint64UnderNarrow(b: seq<byte>, p: nat, bits: Long)
    requires At(b, p, Body(PayloadOf(Uint64, Wide(bits)))) && Aligned32(bits.Unsigned())
    ensures var q := p + |Body(PayloadOf(Uint64, Wide(bits)))|;
      && ReadScalar(Uint32, b, p) == Ok(Unsigned(bits.lo), q)
      && ReadScalar(Int32, b, p) == Ok(Signed(ToInt32(bits.lo)), q)
      && ReadScalar(Bool, b, p) == Ok(Flag(bits.lo != 0), q)
      && ReadScalar(Sint32, b, p) == Ok(Signed(Unzigzag(bits.lo)), q)
  {
    hide Varint, At, ReadUint32, Aligned32;
    ReadUint32OnVarint(b, p, bits.Unsigned());
    LowOfLong(bits);
  }

  lemma LowOfLong(bits: Long)
    ensures bits.Unsigned() % U32 == bits.lo
  {
    ModUnique(bits.Unsigned(), U32, bits.hi, bits.lo);
  }

  // ---- what a number means ----

  /** The varint of n under every varint type, as a number. The 32-bit types take the low word, a
      bool is whether that is not zero, and zig-zag types alternate between the signs. */
  lemma NumberMeaning(b: seq<byte>, p: nat, n: nat)
    requires n < U32 * U32 && At(b, p, Varint(n)) && Aligned32(n)
    ensures var q, low := p + |Varint(n)|, n % U32;
      && ReadScalar(Uint32, b, p) == Ok(Unsigned(low), q)
      && ReadScalar(Int32, b, p) == Ok(Signed(if low < 0x8000_0000 then low else low - U32), q)
      && ReadScalar(Sint32, b, p) == Ok(Signed(if low % 2 == 0 then low / 2 else -(low / 2) - 1), q)
      && ReadScalar(Bool, b, p) == Ok(Flag(low != 0), q)
  {
    hide Varint, At, ReadUint32, Aligned32;
    ReadUint32OnVarint(b, p, n);
  }

  lemma LongMeaning(b: seq<byte>, p: nat, n: nat)
    requires n < U32 * U32 && At(b, p, Varint(n))
    ensures var r, r', z := ReadScalar(Uint64, b, p), ReadScalar(Int64, b, p), ReadScalar(Sint64, b, p);
      && r.Ok? && r'.Ok? && z.Ok? && r.pos == r'.pos == z.pos == p + |Varint(n)|
      && r.v.Wide? && r.v.bits.Unsigned() == n
      && r'.v.Wide? && Signed64(r'.v.bits.Unsigned()) == (if n < 0x8000_0000_0000_0000 then n else n - U32 * U32)
      && z.v.Wide? && Signed64(z.v.bits.Unsigned()) == if n % 2 == 0 then n / 2 else -(n / 2) - 1
  {
    hide Varint, At, ReadLong;
    NumberUnderLong(Uint64, b, p, n);
    NumberUnderLong(Int64, b, p, n);
    NumberUnderLong(Sint64, b, p, n);
    UnsignedOfLong(n);
    UnzigzagMeaning(n);
  }

  lemma UnzigzagMeaning(n: nat)
    requires n < U32 * U32
    ensures Signed64(UnzigzagLong(LongOf(n)).Unsigned()) == if n % 2 == 0 then n / 2 else -(n / 2) - 1
  {
    hide Long.Unsigned, LongOf;
    UnsignedOfLong(n);
    DivMod(n, 2);
    UnsignedOfLong(if n % 2 == 0 then n / 2 else U32 * U32 - 1 - n / 2);
  }

  // ---- sizes ----

  /** How many bytes a number takes: non-negative int32 at most five, negative ones ten, uint32 and
      sint32 at most five, sint32 near zero and bool one. */
  lemma NumberSizes(v: i32, u: u32, flag: bool)
    ensures var int32 := |Body(PayloadOf(Int32, Signed(v)))|; if v >= 0 then int32 <= 5 else int32 == 10
    ensures |Body(PayloadOf(Uint32, Unsigned(u)))| <= 5
    ensures var sint32 := |Body(PayloadOf(Sint32, Signed(v)))|; sint32 <= 5 && (-64 <= v < 64 <==> sint32 == 1)
    ensures |Body(PayloadOf(Bool, Flag(flag)))| == 1
  {
    hide Varint;
    VarintSize(PayloadOf(Int32, Signed(v)).n);
    VarintSize(u);
    VarintSize(Zigzag(v));
    VarintSize(if flag then 1 else 0);
  }

  /** The fixed types take four or eight bytes, least significant first. */
  lemma FixedForms(v: i32, u: u32, bits: Long)
    ensures Body(PayloadOf(Fixed32, Unsigned(u))) == LittleEndian(u, 4)
    ensures Body(PayloadOf(Sfixed32, Signed(v))) == LittleEndian(if v < 0 then v + U32 else v, 4)
    ensures Body(PayloadOf(Fixed64, Wide(bits))) == LittleEndian(bits.Unsigned(), 8)
    ensures Body(PayloadOf(Sfixed64, Wide(bits))) == LittleEndian(bits.Unsigned(), 8)
  {
    hide FixedBytes, LittleEndian;
    FixedIsLittleEndian(u, 0);
    FixedIsLittleEndian(ToUint32(v), 0);
    FixedIsLittleEndian(bits.lo, bits.hi);
  }

  // ---- records ----

  /** A map entry is the message with the key in field 1 and the value in field 2. */
  lemma EntryIsMessage(key: seq<byte>, value: Payload)
    requires !value.Group?
    ensures Body(Entry(key, value)) == Body(Sub([Rec(1, Blob(key)), Rec(2, value)]))
  {
    var r1, r2 := Rec(1, Blob(key)), Rec(2, value);
    assert [r1, r2][1..] == [r2] && [r2][1..] == [];
    hide Varint, Delimited;
    assert PrintRec(r1) == Varint(10) + (Delimited(key) + []);
    assert PrintRec(r2) == Varint(16 + WireType(value)) + (Body(value) + []);
    assert Print([r2]) == PrintRec(r2) + [];
    assert Print([r1, r2]) == PrintRec(r1) + Print([r2]);
    hide Body, WireType;
    JoinedParts(Varint(10), Delimited(key), Varint(16 + WireType(value)), Body(value));
  }

  lemma JoinedParts(a: seq<byte>, b: seq<byte>, c: seq<byte>, d: seq<byte>)
    ensures (a + (b + [])) + ((c + (d + [])) + []) == a + b + c + d
  {
  }

  /** Exactly the types of wire type 2 cannot be packed. */
  lemma PackableExactly(t: Scalar)
    ensures Packable(t) <==> WireTypeOf(t) != 2
  {
  }

  /** How many records a property takes and what they hold: one packed block for the values of a
      packable field that asks for it, otherwise one record for each value or entry. */
  lemma PropShape(schema: Schema, f: Field, p: Prop)
    requires TypedProp(schema, f, p)
    ensures var recs := PropRecs(schema, f, p);
      && AllId(recs, f.id)
      && |recs| == (match f.rule
                    case StringMap => |p.entries|
                    case Repeated(packed) =>
                      if p.vs == [] then 0
                      else if packed && f.kind.Basic? && WireTypeOf(f.kind.t) != 2 then 1 else |p.vs|
                    case _ => 1)
      && forall r :: r in recs ==>
           (r.p.Entry? <==> f.rule.StringMap?)
           && (r.p.Packed? <==> f.rule.Repeated? && f.rule.packed && f.kind.Basic? && WireTypeOf(f.kind.t) != 2)
  {
    hide TypedItems, TypedEntries, TypedValue, ItemRecs, EntryRecs, KindPayload, PackedItems;
    match f.rule
    case StringMap => EntryShape(schema, f, p.entries);
    case Repeated(_) =>
      if p.vs != [] && !WritesPacked(f) {
        ItemShape(schema, f, p.vs);
      }
    case _ => KindShape(schema, f.kind, p.v, false);
  }

  lemma KindShape(schema: Schema, k: Kind, v: Value, inMap: bool)
    requires TypedValue(schema, k, v)
    ensures var p := KindPayload(schema, k, v, inMap); !p.Entry? && !p.Packed?
  {
    hide TypedMessage, MessageRecs;
  }

  lemma {:induction false} ItemShape(schema: Schema, f: Field, vs: seq<Value>)
    requires TypedItems(schema, f.kind, vs)
    ensures var recs := ItemRecs(schema, f, vs);
      |recs| == |vs| && AllId(recs, f.id) && forall r :: r in recs ==> !r.p.Entry? && !r.p.Packed?
    decreases |vs|
  {
    if vs != [] {
      hide TypedValue, KindPayload;
      KindShape(schema, f.kind, vs[0], false);
      ItemShape(schema, f, vs[1..]);
      assert ItemRecs(schema, f, vs)[1..] == ItemRecs(schema, f, vs[1..]);
    }
  }

  lemma {:induction false} EntryShape(schema: Schema, f: Field, es: seq<KeyValue>)
    requires TypedEntries(schema, f.kind, es)
    ensures var recs := EntryRecs(schema, f, es);
      |recs| == |es| && AllId(recs, f.id) && forall r :: r in recs ==> r.p.Entry? && !r.p.Packed?
    decreases |es|
  {
    if es != [] {
      hide TypedEntry, Leads;
      EntryShape(schema, f, es[1..]);
      assert EntryRecs(schema, f, es)[1..] == EntryRecs(schema, f, es[1..]);
    }
  }

  // ---- the order of the records ----

  predicate InOrder(recs: seq<Rec>) {
    forall a, c :: 0 <= a < c < |recs| ==> recs[a].id <= recs[c].id
  }

  /** Every record belongs to a field of the list that is set. */
  predicate Belongs(recs: seq<Rec>, fields: seq<Field>, m: Message) {
    forall r :: r in recs ==> r.id in m.props && exists f :: f in fields && f.id == r.id
  }

  lemma {:induction false} AllIdAt(recs: seq<Rec>, id: nat, k: nat)
    requires AllId(recs, id) && k < |recs|
    ensures recs[k].id == id
  {
    if k > 0 {
      AllIdAt(recs[1..], id, k - 1);
    }
  }

  lemma {:induction false} FieldsInOrder(schema: Schema, fields: seq<Field>, m: Message)
    requires TypedFields(schema, fields, m) && Ascending(fields)
    ensures InOrder(FieldRecs(schema, fields, m)) && Belongs(FieldRecs(schema, fields, m), fields, m)
    decreases |fields|
  {
    if fields != [] {
      hide PropRecs, TypedProp;
      var f, rest := fields[0], FieldRecs(schema, fields[1..], m);
      FieldsInOrder(schema, fields[1..], m);
      if f.id in m.props {
        var head := PropRecs(schema, f, m.props[f.id]);
        PropShape(schema, f, m.props[f.id]);
        HeadInOrder(head, f, rest, fields, m);
      } else {
        assert [] + rest == rest;
        assert Belongs(rest, fields, m) by {
          assert forall g :: g in fields[1..] ==> g in fields;
        }
      }
    }
  }

  lemma HeadInOrder(head: seq<Rec>, f: Field, rest: seq<Rec>, fields: seq<Field>, m: Message)
    requires fields != [] && fields[0] == f && Ascending(fields) && f.id in m.props
    requires AllId(head, f.id) && InOrder(rest) && Belongs(rest, fields[1..], m)
    ensures InOrder(head + rest) && Belongs(head + rest, fields, m)
  {
    hide Ascending, AllId;
    forall k | 0 <= k < |head| ensures head[k].id == f.id {
      AllIdAt(head, f.id, k);
    }
    forall r | r in rest ensures r.id > f.id && r.id in m.props && exists g :: g in fields && g.id == r.id {
      var g :| g in fields[1..] && g.id == r.id;
      var j :| 0 <= j < |fields[1..]| && fields[1..][j] == g;
      assert fields[j + 1] == g;
      AscendingAbove(fields, j + 1);
    }
    assert fields[0] in fields;
  }

  /** The records of a message ascend by field id, whatever order its fields were declared in, and
      each belongs to a known field that is set. */
  lemma MessageInOrder(schema: Schema, i: nat, m: Message)
    requires DistinctIds(TypeAt(schema, i).fields) && TypedMessage(schema, i, m)
    ensures var recs := MessageRecs(schema, i, m);
            InOrder(recs) && Belongs(recs, TypeAt(schema, i).fields, m)
  {
    hide FieldRecs, TypedFields, SortById, DistinctIds, InOrder;
    var fields := TypeAt(schema, i).fields;
    SortAscending(fields);
    SortTyped(schema, fields, m);
    SortLength(fields);
    FieldsInOrder(schema, SortById(fields), m);
    var recs := MessageRecs(schema, i, m);
    forall r | r in recs ensures exists f :: f in fields && f.id == r.id {
      var f :| f in SortById(fields) && f.id == r.id;
      SortMember(fields, f);
    }
  }

  /** A message with one property is the records of that property. */
  lemma OneField(schema: Schema, i: nat, f: Field, p: Prop)
    requires f in TypeAt(schema, i).fields && DistinctIds(TypeAt(schema, i).fields)
    requires TypedMessage(schema, i, Message(map[f.id := p]))
    ensures TypedProp(schema, f, p)
    ensures MessageRecs(schema, i, Message(map[f.id := p])) == PropRecs(schema, f, p)
  {
    var fields, m := TypeAt(schema, i).fields, Message(map[f.id := p]);
    SortTyped(schema, fields, m);
    SortLength(fields);
    SortMember(fields, f);
    forall g | g in SortById(fields) && g.id == f.id ensures g == f {
      SortMember(fields, g);
      FindMember(fields, f);
      FindMember(fields, g);
    }
    SortAscending(fields);
    hide SortById, DistinctIds, FieldRecs, PropRecs, TypedProp, TypedFields;
    OnlyField(schema, SortById(fields), f, p);
  }

  lemma {:induction false} OnlyField(schema: Schema, fields: seq<Field>, f: Field, p: Prop)
    requires var m := Message(map[f.id := p]); TypedFields(schema, fields, m)
    requires Ascending(fields) && forall g :: g in fields && g.id == f.id ==> g == f
    ensures var m := Message(map[f.id := p]);
            if f in fields then TypedProp(schema, f, p) && FieldRecs(schema, fields, m) == PropRecs(schema, f, p)
            else FieldRecs(schema, fields, m) == []
    decreases |fields|
  {
    if fields != [] {
      hide TypedProp, PropRecs;
      OnlyField(schema, fields[1..], f, p);
      if fields[0].id == f.id {
        if f in fields[1..] {
          var j :| 0 <= j < |fields[1..]| && fields[1..][j] == f;
          AscendingAbove(fields, j + 1);
        }
        assert PropRecs(schema, f, p) + [] == PropRecs(schema, f, p);
      }
    }
  }

  // ---- a reader that checks end tags ----

  /** Skipping by a reader that wants a group closed by the end tag of its own field. */
  function StrictSkip(b: seq<byte>, p: nat, id: nat, wire: nat): (r: Outcome<()>)
    ensures r.Ok? ==> p < r.pos <= |b|
    decreases Left(b, p), 1
  {
    if wire == 3 then StrictGroup(b, p, id) else SkipType(b, p, wire)
  }

  function StrictGroup(b: seq<byte>, p: nat, id: nat): (r: Outcome<()>)
    ensures r.Ok? ==> p < r.pos <= |b|
    decreases Left(b, p), 0
  {
    var (tag, q) :- ReadUint32(b, p);
    if tag % 8 == 4 then (if tag / 8 == id then Ok((), q) else Throw)
    else
      var (_, q') :- StrictSkip(b, q, tag / 8, tag % 8);
      StrictGroup(b, q', id)
  }

  /** Records up to the end of the buffer, each under a tag and skipped as its wire type says. */
  predicate WellFormed(b: seq<byte>, p: nat)
    decreases Left(b, p)
  {
    p == |b| ||
    var t := ReadUint32(b, p);
    t.Ok? && var r := StrictSkip(b, t.pos, t.v / 8, t.v % 8); r.Ok? && WellFormed(b, r.pos)
  }

  lemma {:induction false} StrictOnContent(b: seq<byte>, p: nat, r: Rec)
    requires r.id < 0x2000_0000 && Sized(r.p) && At(b, p, Content(r))
    ensures StrictSkip(b, p, r.id, WireType(r.p)) == Ok((), p + |Content(r)|)
    decreases r, 0
  {
    hide *;
    ContentIs(r);
    if r.p.Group? {
      GroupIs(r);
      StrictOnGroup(b, p, r.p.recs, r.id);
      StrictIs(b, p, r.id, 3);
    } else {
      OtherIs(r.p);
      SkipOnBody(b, p, r);
      StrictIs(b, p, r.id, WireType(r.p));
    }
  }

  lemma StrictIs(b: seq<byte>, p: nat, id: nat, wire: nat)
    ensures StrictSkip(b, p, id, wire) == if wire == 3 then StrictGroup(b, p, id) else SkipType(b, p, wire)
  {
  }

  lemma GroupIs(r: Rec)
    requires r.p.Group? && Sized(r.p)
    ensures WireType(r.p) == 3 && AllSized(r.p.recs)
    ensures Content(r) == Print(r.p.recs) + Varint(r.id * 8 + 4)
  {
  }

  lemma OtherIs(p: Payload)
    ensures WireType(p) == 3 <==> p.Group?
  {
  }

  lemma StrictStep(b: seq<byte>, p: nat, r: Rec, id: nat)
    requires r.id < 0x2000_0000 && At(b, p, Tag(r))
    ensures StrictGroup(b, p, id) ==
            var s := StrictSkip(b, p + |Tag(r)|, r.id, WireType(r.p));
            if s.Throw? then Throw else StrictGroup(b, s.pos, id)
  {
    hide StrictSkip, Varint, At, ReadUint32;
    ReadTag(b, p, r.id, WireType(r.p));
  }

  lemma StrictEnd(b: seq<byte>, p: nat, id: nat)
    requires id < 0x2000_0000 && At(b, p, Varint(id * 8 + 4))
    ensures StrictGroup(b, p, id) == Ok((), p + |Varint(id * 8 + 4)|)
  {
    hide Varint, At, ReadUint32;
    ReadTag(b, p, id, 4);
  }

  lemma {:induction false} StrictOnGroup(b: seq<byte>, p: nat, recs: seq<Rec>, id: nat)
    requires AllSized(recs) && id < 0x2000_0000 && At(b, p, Print(recs) + Varint(id * 8 + 4))
    ensures StrictGroup(b, p, id) == Ok((), p + |Print(recs)| + |Varint(id * 8 + 4)|)
    decreases recs, 1
  {
    hide *;
    var end := Varint(id * 8 + 4);
    if recs == [] {
      PrintNothing(end);
      StrictEnd(b, p, id);
    } else {
      var q := p + |Tag(recs[0])|;
      SizedParts(recs);
      AtPrint(b, p, recs, end);
      StrictStep(b, p, recs[0], id);
      StrictOnContent(b, q, recs[0]);
      StrictOnGroup(b, q + |Content(recs[0])|, recs[1..], id);
    }
  }

  lemma WellFormedStep(b: seq<byte>, p: nat, r: Rec)
    requires r.id < 0x2000_0000 && At(b, p, Tag(r)) && p < |b|
    requires StrictSkip(b, p + |Tag(r)|, r.id, WireType(r.p)).Ok?
    ensures WellFormed(b, p) <==> WellFormed(b, StrictSkip(b, p + |Tag(r)|, r.id, WireType(r.p)).pos)
  {
    hide StrictSkip, Varint, At, ReadUint32;
    ReadTag(b, p, r.id, WireType(r.p));
  }

  lemma {:induction false} RecsWellFormed(b: seq<byte>, p: nat, recs: seq<Rec>)
    requires AllSized(recs) && At(b, p, Print(recs)) && p + |Print(recs)| == |b|
    ensures WellFormed(b, p)
    decreases |recs|
  {
    hide *;
    if recs == [] {
      PrintNothing([]);
      AtTheEnd(b);
    } else {
      var q := p + |Tag(recs[0])|;
      assert Print(recs) + [] == Print(recs) && Print(recs[1..]) + [] == Print(recs[1..]);
      SizedParts(recs);
      AtPrint(b, p, recs, []);
      StrictOnContent(b, q, recs[0]);
      TagSize(recs[0]);
      WellFormedStep(b, p, recs[0]);
      RecsWellFormed(b, q + |Content(recs[0])|, recs[1..]);
    }
  }

  lemma TagSize(r: Rec)
    ensures |Tag(r)| > 0
  {
  }

  lemma AtTheEnd(b: seq<byte>)
    ensures WellFormed(b, |b|)
  {
  }

  /** Every encoding is well-formed to the last byte: each payload is as long as the wire type of
      its tag says, and each group ends with the end tag of its own field. */
  lemma EncodedWellFormed(schema: Schema, i: nat, m: Message)
    requires ValidSchema(schema) && TypedMessage(schema, i, m)
    requires |Print(MessageRecs(schema, i, m))| < U32
    ensures WellFormed(Print(MessageRecs(schema, i, m)), 0)
  {
    hide *;
    var b := Print(MessageRecs(schema, i, m));
    MessageSized(schema, i, m);
    AtSelf(b);
    RecsWellFormed(b, 0, MessageRecs(schema, i, m));
  }
}
