/** The chat message of the page, and what becomes of a number that is too big for its field. */
module ChatMessages {
  import opened Options
  import opened Words
  import opened Varints
  import opened Reading
  import opened Schemas
  import opened Wire
  import opened Decoding
  import opened Records
  import opened Encoding
  import opened Sizes
  import Compatibility
  import Folding

  /** ChatMessage, FileMessage and RouterDispatch; without `required` or `repeated`. */
  const CHAT: Schema := [
    Type(false, [
      Field(1, Optional, Basic(Int32)),
      Field(2, Optional, Basic(String)),
      Field(3, Optional, Nested(1)),
      Field(4, Optional, Basic(String)),
      Field(5, Optional, Basic(Int32)),
      TIMESTAMP,
      Field(7, Optional, Nested(2))]),
    Type(false, [
      Field(1, Optional, Basic(String)),
      Field(2, Optional, Basic(Int32)),
      Field(3, Optional, Basic(Bytes))]),
    Type(false, [
      Field(1, Optional, Basic(String)),
      Field(2, Optional, Basic(String)),
      Field(3, Optional, Basic(Int32))])]

  const TIMESTAMP := Field(6, Optional, Basic(Int32))

  /** A 32-bit field on the wire and a 64-bit number in it: the number is read back modulo 2^32
      with the cursor behind it exactly when its varint has at most five bytes or ten. */
  lemma Int32FieldOnNumber(b: seq<byte>, p: nat, n: nat)
    requires n < U32 * U32 && At(b, p, Varint(n))
    ensures ReadScalar(Int32, b, p) == Ok(Signed(ToInt32(n % U32)), p + |Varint(n)|) <==> Aligned32(n)
  {
    hide ReadUint32, Aligned32, Varint, At;
    ReadUint32OnVarint(b, p, n);
  }

  /** An int32 field under which a number of 64 bits is written. */
  ghost predicate NumberField(schema: Schema, i: nat, f: Field) {
    && f.kind == Basic(Int32) && f.rule == Optional && f.id < 0x2000_0000
    && Find(TypeAt(schema, i).fields, f.id) == Some(f)
  }

  /** A number of six to nine bytes in the field: the field is set to its low word, and reading
      goes on ten bytes behind the tag, so what stood there first is lost. Without so many bytes
      the read throws. */
  lemma NumberSwallows(schema: Schema, i: nat, f: Field, b: seq<byte>, p: nat, c: nat, n: nat, m: Message)
    requires NumberField(schema, i, f) && n < U32 * U32 && !Aligned32(n)
    requires At(b, p, Varint(f.id * 8) + Varint(n)) && p < c
    ensures var q := p + |Varint(f.id * 8)| + 10;
            DecodeFields(schema, i, b, p, c, m) ==
            if q > |b| then Throw
            else DecodeFields(schema, i, b, q, c, Set(m, f.id, One(Signed(ToInt32(n % U32)))))
  {
    hide *;
    var q := p + |Varint(f.id * 8)|;
    FieldId(schema, i, f);
    NotAligned(n);
    NumberRead(f.id, b, p, n);
    TaggedNumber(schema, i, f, b, q, m);
    FieldsTurn(schema, i, b, p, c, f.id * 8, q, m);
  }

  lemma FieldId(schema: Schema, i: nat, f: Field)
    requires NumberField(schema, i, f)
    ensures f.id < 0x2000_0000 && f.id * 8 % 8 == 0
  {
  }

  /** The tag and the number, read. */
  lemma NumberRead(id: nat, b: seq<byte>, p: nat, n: nat)
    requires id < 0x2000_0000 && n >= 0x8_0000_0000
    requires At(b, p, Varint(id * 8) + Varint(n))
    ensures var q := p + |Varint(id * 8)|;
      && ReadUint32(b, p) == Ok(id * 8, q)
      && ReadUint32(b, q) == if q + 10 > |b| then Throw else Ok(n % U32, q + 10)
  {
    hide Varint, At, ReadUint32;
    AtSplit(b, p, Varint(id * 8), Varint(n));
    TagRead(id, b, p);
    ReadUint32Long(b, p + |Varint(id * 8)|, n);
  }

  lemma TagRead(id: nat, b: seq<byte>, p: nat)
    requires id < 0x2000_0000 && At(b, p, Varint(id * 8))
    ensures ReadUint32(b, p) == Ok(id * 8, p + |Varint(id * 8)|)
  {
    hide Varint, At, ReadUint32;
    ReadUint32Short(b, p, id * 8);
  }

  lemma NotAligned(n: nat)
    requires n < U32 * U32 && !Aligned32(n)
    ensures n >= 0x8_0000_0000
  {
  }

  /** One turn of the decoding loop. */
  lemma FieldsTurn(schema: Schema, i: nat, b: seq<byte>, p: nat, c: nat, tag: nat, q: nat, m: Message)
    requires p < c && tag % 8 != 4 && ReadUint32(b, p) == Ok(tag, q)
    ensures DecodeFields(schema, i, b, p, c, m) ==
            var r := DecodeTagged(schema, i, b, q, tag, m);
            if r.Throw? then Throw else DecodeFields(schema, i, b, r.pos, c, r.v)
  {
    hide ReadUint32, DecodeTagged;
  }

  lemma TaggedNumber(schema: Schema, i: nat, f: Field, b: seq<byte>, q: nat, m: Message)
    requires NumberField(schema, i, f) && q <= |b|
    ensures var x := ReadUint32(b, q);
            DecodeTagged(schema, i, b, q, f.id * 8, m) ==
            if x.Throw? then Throw else Ok(Set(m, f.id, One(Signed(ToInt32(x.v)))), x.pos)
  {
    var id, x := f.id, ReadUint32(b, q);
    hide ReadUint32, Find;
    assert id * 8 / 8 == id && id * 8 % 8 == 0;
    assert ReadScalar(Int32, b, q) == if x.Throw? then Throw else Ok(Signed(ToInt32(x.v)), x.pos);
    assert ReadValue(schema, f.kind, b, q) == ReadScalar(Int32, b, q);
    assert DecodeField(schema, f, b, q, 0, m) ==
           if x.Throw? then Throw else Ok(Set(m, id, One(Signed(ToInt32(x.v)))), x.pos);
  }

  ghost predicate NoRequired(schema: Schema, i: nat) {
    forall f :: f in TypeAt(schema, i).fields ==> !f.rule.Required?
  }

  /** Whatever fitting records stand before it, decoding a message that ends with such a number
      throws if and only if the number takes six to nine bytes. */
  lemma LastNumberThrows(schema: Schema, i: nat, f: Field, before: seq<Rec>, n: nat)
    requires NumberField(schema, i, f) && NoRequired(schema, i) && n < U32 * U32
    requires FitsAll(schema, i, before)
    ensures Decode(schema, i, Print(before + [Rec(f.id, Number(n))])) == Throw <==> !Aligned32(n)
  {
    var last, m0 := Rec(f.id, Number(n)), Initial(schema, i);
    var b := Print(before + [last]);
    PrintAppend(before, [last]);
    OneRecord(f.id, n);
    hide *;
    var p, m := |Print(before)|, Fold(schema, i, before, m0);
    AtSelf(b);
    DecodeRecs(schema, i, b, 0, |b|, before, Print([last]), m0);
    AtSplit(b, 0, Print(before), Print([last]));
    if Aligned32(n) {
      NumberFits(schema, i, f, n);
      assert Print([last]) + [] == Print([last]);
      DecodeRecs(schema, i, b, p, |b|, [last], [], m);
      NeverMisses(schema, i, Fold(schema, i, [last], m));
      MessageEnd(schema, i, b, 0, |b|, |b|, Fold(schema, i, [last], m));
      Whole(schema, i, b);
    } else {
      NumberLength(n);
      Folding.TagLength(f.id * 8);
      NumberSwallows(schema, i, f, b, p, |b|, n, m);
      Folding.Thrown(schema, i, b);
    }
  }

  lemma OneRecord(id: nat, n: nat)
    ensures Print([Rec(id, Number(n))]) == Varint(id * 8) + Varint(n)
  {
    var r := Rec(id, Number(n));
    hide Varint;
    assert [r][1..] == [] && EndTag(r) == [];
    assert Varint(n) + [] == Varint(n);
    assert Print([r]) == PrintRec(r) + Print([]);
    assert PrintRec(r) + [] == PrintRec(r);
  }

  lemma NumberFits(schema: Schema, i: nat, f: Field, n: nat)
    requires NumberField(schema, i, f) && n < U32 * U32 && Aligned32(n)
    ensures FitsAll(schema, i, [Rec(f.id, Number(n))])
  {
    hide Find, Aligned32;
    var r := Rec(f.id, Number(n));
    assert [r][1..] == [];
    assert FitsField(schema, f, r.p);
    assert Fits(schema, i, r);
  }

  lemma NeverMisses(schema: Schema, i: nat, m: Message)
    requires NoRequired(schema, i)
    ensures !Misses(schema, i, m)
  {
  }

  lemma NumberLength(n: nat)
    requires n < U32 * U32 && !Aligned32(n)
    ensures 6 <= |Varint(n)| <= 9
  {
    VarintSize(n);
  }

  lemma Whole(schema: Schema, i: nat, b: seq<byte>)
    ensures Decode(schema, i, b) == DecodeMessage(schema, i, b, 0, |b|)
  {
  }

  /** The timestamp of the chat message, sent last, as the page's decoder sees it. */
  lemma TimestampThrows(before: seq<Rec>, n: nat)
    requires FitsAll(CHAT, 0, before) && n < U32 * U32
    ensures Decode(CHAT, 0, Print(before + [Rec(6, Number(n))])) == Throw <==> !Aligned32(n)
  {
    hide FitsAll, Aligned32, Print;
    ChatFields();
    LastNumberThrows(CHAT, 0, TIMESTAMP, before, n);
  }

  lemma ChatFields()
    ensures NumberField(CHAT, 0, TIMESTAMP) && NoRequired(CHAT, 0)
  {
    var fields := TypeAt(CHAT, 0).fields;
    assert fields[5] == TIMESTAMP;
    assert DistinctIds(fields);
    FindMember(fields, TIMESTAMP);
  }

  /** The first millisecond of 2019. */
  const NEW_YEAR: nat := 1546300800000

  /** A timestamp and a dispatch behind it. */
  const SENT: seq<Rec> := [Rec(6, Number(NEW_YEAR)), Rec(7, Sub([Rec(3, Number(1))]))]

  const SENT_BYTES: seq<byte> := [0x30, 0x80, 0xF8, 0xD6, 0xB5, 0x80, 0x2D, 0x3A, 0x02, 0x18, 0x01]

  lemma NewYearBytes()
    ensures Varint(NEW_YEAR) == [0x80, 0xF8, 0xD6, 0xB5, 0x80, 0x2D]
    ensures !Aligned32(NEW_YEAR) && NEW_YEAR < U32 * U32 && ToInt32(NEW_YEAR % U32) == 112573440
  {
    VarintOf(45, []);
    VarintOf(5760, [0x2D]);
    VarintOf(737333, [0x80, 0x2D]);
    VarintOf(94378710, [0xB5, 0x80, 0x2D]);
    VarintOf(12080475000, [0xD6, 0xB5, 0x80, 0x2D]);
    VarintOf(NEW_YEAR, [0xF8, 0xD6, 0xB5, 0x80, 0x2D]);
  }

  /** One group in front of the others. */
  lemma VarintOf(n: nat, rest: seq<byte>)
    requires n >= 128 ==> Varint(n / 128) == rest
    ensures n >= 128 ==> Varint(n) == [n % 128 + 128] + rest
    ensures n < 128 ==> Varint(n) == [n]
  {
  }

  lemma SentBytes()
    ensures Print(SENT) == SENT_BYTES
  {
    var dispatch := Rec(7, Sub([Rec(3, Number(1))]));
    NewYearBytes();
    VarintOf(48, []);
    hide Varint, Print, PrintRec, Body;
    OneRecord(6, NEW_YEAR);
    DispatchBytes();
    PrintAppend([Rec(6, Number(NEW_YEAR))], [dispatch]);
    assert SENT == [Rec(6, Number(NEW_YEAR))] + [dispatch];
  }

  lemma DispatchBytes()
    ensures Print([Rec(7, Sub([Rec(3, Number(1))]))]) == [0x3A, 0x02, 0x18, 0x01]
  {
    var dispatch := Rec(7, Sub([Rec(3, Number(1))]));
    VarintOf(24, []);
    VarintOf(1, []);
    VarintOf(2, []);
    VarintOf(58, []);
    hide Varint;
    OneRecord(3, 1);
    assert Print([Rec(3, Number(1))]) == [24, 1];
    assert Body(dispatch.p) == [2, 24, 1] && EndTag(dispatch) == [];
    assert PrintRec(dispatch) == [58] + ([2, 24, 1] + []);
    assert [dispatch][1..] == [] && Print([dispatch]) == PrintRec(dispatch) + Print([]);
  }

  /** With something behind it such a timestamp need not throw: these bytes decode to a timestamp
      in 1970 and without the dispatch, which the timestamp has swallowed. */
  lemma DispatchSwallowed()
    ensures Print(SENT) == SENT_BYTES
    ensures Decode(CHAT, 0, SENT_BYTES) == Ok(Msg(Message(map[6 := One(Signed(112573440))])), |SENT_BYTES|)
  {
    var b, m := SENT_BYTES, Message(map[6 := One(Signed(112573440))]);
    var m0: Message := Message(map[]);
    SentBytes();
    NewYearBytes();
    ChatFields();
    VarintOf(48, []);
    NothingInitial();
    assert b[0..7] == [0x30] + Varint(NEW_YEAR);
    NumberSwallows(CHAT, 0, TIMESTAMP, b, 0, 11, NEW_YEAR, m0);
    assert Set(m0, 6, One(Signed(112573440))) == m;
    hide Varint, Initial, NoRequired;
    assert DecodeFields(CHAT, 0, b, 11, 11, m) == Ok(m, 11);
    NeverMisses(CHAT, 0, m);
  }

  lemma NothingInitial()
    ensures Initial(CHAT, 0) == Message(map[])
  {
    var fields := TypeAt(CHAT, 0).fields;
    assert Defaults(fields[6..]) == map[] by { assert fields[6..][1..] == []; }
    assert Defaults(fields[5..]) == map[] by { assert fields[5..][1..] == fields[6..]; }
    assert Defaults(fields[4..]) == map[] by { assert fields[4..][1..] == fields[5..]; }
    assert Defaults(fields[3..]) == map[] by { assert fields[3..][1..] == fields[4..]; }
    assert Defaults(fields[2..]) == map[] by { assert fields[2..][1..] == fields[3..]; }
    assert Defaults(fields[1..]) == map[] by { assert fields[1..][1..] == fields[2..]; }
  }

  /** The same with a dispatch from "fr": the byte behind the ten is read as a tag of wire type 6, and
      decoding throws. */
  const FROM_FR: seq<Rec> := [Rec(6, Number(NEW_YEAR)), Rec(7, Sub([Rec(1, Blob([0x66, 0x72]))]))]

  const FROM_FR_BYTES: seq<byte> :=
    [0x30, 0x80, 0xF8, 0xD6, 0xB5, 0x80, 0x2D, 0x3A, 0x04, 0x0A, 0x02, 0x66, 0x72]

  lemma FromFrBytes()
    ensures Print(FROM_FR) == FROM_FR_BYTES
  {
    hide *;
    NewYearBytes();
    VarintOf(48, []);
    OneRecord(6, NEW_YEAR);
    FromBytes();
    FromFrParts();
    PrintAppend([Rec(6, Number(NEW_YEAR))], [Rec(7, Sub([Rec(1, Blob([0x66, 0x72]))]))]);
  }

  lemma FromFrParts()
    ensures FROM_FR == [Rec(6, Number(NEW_YEAR))] + [Rec(7, Sub([Rec(1, Blob([0x66, 0x72]))]))]
    ensures FROM_FR_BYTES
            == ([48] + [0x80, 0xF8, 0xD6, 0xB5, 0x80, 0x2D]) + [0x3A, 0x04, 0x0A, 0x02, 0x66, 0x72]
  {
  }

  lemma FromBytes()
    ensures Print([Rec(7, Sub([Rec(1, Blob([0x66, 0x72]))]))]) == [0x3A, 0x04, 0x0A, 0x02, 0x66, 0x72]
  {
    var inner, dispatch := Rec(1, Blob([0x66, 0x72])), Rec(7, Sub([Rec(1, Blob([0x66, 0x72]))]));
    VarintOf(10, []);
    VarintOf(2, []);
    VarintOf(4, []);
    VarintOf(58, []);
    hide Varint;
    assert [inner][1..] == [] && [dispatch][1..] == [];
    assert PrintRec(inner) == [10] + ([2, 0x66, 0x72] + []);
    assert Print([inner]) == PrintRec(inner) + [];
    assert Body(dispatch.p) == [4, 10, 2, 0x66, 0x72];
    assert PrintRec(dispatch) == [58] + ([4, 10, 2, 0x66, 0x72] + []);
    assert Print([dispatch]) == PrintRec(dispatch) + [];
  }

  lemma FromFrThrows()
    ensures Print(FROM_FR) == FROM_FR_BYTES && Decode(CHAT, 0, FROM_FR_BYTES) == Throw
  {
    hide *;
    var m := Message(map[6 := One(Signed(112573440))]);
    FromFrBytes();
    NothingInitial();
    AfterNewYear(m);
    SixthTag();
    NoTwelve();
    Folding.UnknownThrows(CHAT, 0, FROM_FR_BYTES, 12, 12, 6, m);
    Folding.TurnThrows(CHAT, 0, FROM_FR_BYTES, 11, |FROM_FR_BYTES|, m, 12 * 8 + 6, 12);
    Folding.Thrown(CHAT, 0, FROM_FR_BYTES);
  }

  lemma AfterNewYear(m: Message)
    requires m == Message(map[6 := One(Signed(112573440))])
    ensures var b, m0 := FROM_FR_BYTES, Message(map[]);
            DecodeFields(CHAT, 0, b, 0, |b|, m0) == DecodeFields(CHAT, 0, b, 11, |b|, m)
  {
    var b, m0 := FROM_FR_BYTES, Message(map[]);
    hide CHAT, Initial, DecodeFields, Varint, NumberField, Aligned32;
    NewYearBytes();
    ChatFields();
    VarintOf(48, []);
    assert b[0..7] == [0x30] + Varint(NEW_YEAR);
    NumberSwallows(CHAT, 0, TIMESTAMP, b, 0, 13, NEW_YEAR, m0);
    assert Set(m0, 6, One(Signed(112573440))) == m;
  }

  lemma SixthTag()
    ensures |FROM_FR_BYTES| == 13 && ReadUint32(FROM_FR_BYTES, 11) == Ok(12 * 8 + 6, 12)
  {
  }

  lemma NoTwelve()
    ensures Find(TypeAt(CHAT, 0).fields, 12).None?
  {
    assert forall f :: f in TypeAt(CHAT, 0).fields ==> f.id <= 7;
  }

  /** The message the page sends with only its id set. */
  lemma MessageIdBytes()
    ensures var m := Message(map[1 := One(Signed(123123))]);
            TypedMessage(CHAT, 0, m) && Print(MessageRecs(CHAT, 0, m)) == [0x08, 0xF3, 0xC1, 0x07]
  {
    var f, m := Field(1, Optional, Basic(Int32)), Message(map[1 := One(Signed(123123))]);
    var fields := TypeAt(CHAT, 0).fields;
    assert fields[0] == f && DistinctIds(fields);
    OnlyIdTyped();
    Compatibility.OneField(CHAT, 0, f, One(Signed(123123)));
    hide MessageRecs, TypedMessage;
    assert PropRecs(CHAT, f, One(Signed(123123))) == [Rec(1, Number(123123))];
    OneRecord(1, 123123);
    VarintOf(8, []);
    VarintOf(7, []);
    VarintOf(961, [7]);
    VarintOf(123123, [0xC1, 7]);
  }

  lemma OnlyIdTyped()
    ensures TypedMessage(CHAT, 0, Message(map[1 := One(Signed(123123))]))
  {
    var fields, m := TypeAt(CHAT, 0).fields, Message(map[1 := One(Signed(123123))]);
    assert TypedFields(CHAT, fields[6..], m) by { assert fields[6..][1..] == []; }
    assert TypedFields(CHAT, fields[5..], m) by { assert fields[5..][1..] == fields[6..]; }
    assert TypedFields(CHAT, fields[4..], m) by { assert fields[4..][1..] == fields[5..]; }
    assert TypedFields(CHAT, fields[3..], m) by { assert fields[3..][1..] == fields[4..]; }
    assert TypedFields(CHAT, fields[2..], m) by { assert fields[2..][1..] == fields[3..]; }
    assert TypedFields(CHAT, fields[1..], m) by { assert fields[1..][1..] == fields[2..]; }
  }

  /** One 64-bit field, and a varint in it of which only three continuation bytes are left: the
      decoder returns, one byte behind the end of the buffer. */
  const CUT_BYTES: seq<byte> := [0x08, 0x80, 0x80, 0x80]

  lemma DecodesPastEnd()
    ensures Decode([Type(false, [Field(1, Optional, Basic(Int64))])], 0, CUT_BYTES)
            == Ok(Msg(Message(map[1 := One(Wide(Long(0, 0)))])), |CUT_BYTES| + 1)
  {
    var f := Field(1, Optional, Basic(Int64));
    var s, b, m := [Type(false, [f])], CUT_BYTES, Message(map[1 := One(Wide(Long(0, 0)))]);
    assert ReadUint32(b, 0) == Ok(8, 1);
    assert ReadLong(b, 1) == Ok(Long(0, 0), 5);
    hide ReadUint32, ReadLong;
    assert Find([f], 1) == Some(f) && TypeAt(s, 0).fields == [f];
    assert Defaults([f]) == map[] by { assert [f][1..] == [] && Defaults([]) == map[]; }
    assert Initial(s, 0) == Message(map[]);
    assert ReadScalar(Int64, b, 1) == Ok(Wide(Long(0, 0)), 5);
    assert ReadValue(s, f.kind, b, 1) == Ok(Wide(Long(0, 0)), 5);
    assert Set(Message(map[]), 1, One(Wide(Long(0, 0)))) == m;
    assert DecodeField(s, f, b, 1, 0, Message(map[])) == Ok(m, 5);
    assert DecodeTagged(s, 0, b, 1, 8, Message(map[])) == Ok(m, 5);
    assert DecodeFields(s, 0, b, 5, 4, m) == Ok(m, 5);
    assert DecodeFields(s, 0, b, 0, 4, Message(map[])) == Ok(m, 5);
    assert !Misses(s, 0, m);
  }
}
