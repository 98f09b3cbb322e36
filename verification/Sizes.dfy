/** Whatever the encoder writes in less than 4 GiB is well-sized all the way down, so that any
    reader can skip it. */
module Sizes {
  import opened Words
  import opened Varints
  import opened Reading
  import opened Schemas
  import opened Wire
  import opened Decoding
  import opened Encoding

  lemma {:induction false} PrintAppend(a: seq<Rec>, b: seq<Rec>)
    ensures Print(a + b) == Print(a) + Print(b)
    decreases |a|
  {
    if a == [] {
      assert a + b == b;
    } else {
      assert (a + b)[1..] == a[1..] + b;
      PrintAppend(a[1..], b);
    }
  }

  lemma PrintSize(recs: seq<Rec>)
    requires recs != []
    ensures |Print(recs)| >= |Body(recs[0].p)| + |Print(recs[1..])|
  {
  }

  lemma BodiesSize(items: seq<Payload>)
    requires items != []
    ensures |Bodies(items)| >= |Body(items[0])| && |Bodies(items)| >= |Bodies(items[1..])|
  {
  }

  predicate AllId(recs: seq<Rec>, id: nat) {
    recs == [] || (recs[0].id == id && AllId(recs[1..], id))
  }

  lemma {:induction false} AllSizedAppend(a: seq<Rec>, b: seq<Rec>)
    requires AllSized(a) && AllSized(b)
    ensures AllSized(a + b)
    decreases |a|
  {
    if a == [] {
      assert a + b == b;
    } else {
      assert (a + b)[1..] == a[1..] + b;
      AllSizedAppend(a[1..], b);
    }
  }

  lemma ScalarSized(t: Scalar, v: Value)
    requires TypedScalar(t, v) && |Body(PayloadOf(t, v))| < U32
    ensures Sized(PayloadOf(t, v)) && !PayloadOf(t, v).Group?
  {
  }

  lemma {:induction false} KindSized(schema: Schema, k: Kind, v: Value, inMap: bool)
    requires ValidSchema(schema)
    requires TypedValue(schema, k, v)
    requires |Body(KindPayload(schema, k, v, inMap))| < U32
    ensures Sized(KindPayload(schema, k, v, inMap))
    ensures inMap || k.Basic? ==> !KindPayload(schema, k, v, inMap).Group?
    decreases v, 0
  {
    hide PayloadOf, TypedMessage, MessageRecs, Varint, Print;
    match k
    case Basic(t) =>
      ScalarSized(t, v);
    case Nested(i) =>
      MessageSized(schema, i, v.m);
  }

  lemma {:induction false} MessageSized(schema: Schema, i: nat, m: Message)
    requires ValidSchema(schema)
    requires TypedMessage(schema, i, m)
    requires |Print(MessageRecs(schema, i, m))| < U32
    ensures AllSized(MessageRecs(schema, i, m))
    decreases m, |TypeAt(schema, i).fields| + 1, 0
  {
    hide ValidSchema, FieldRecs, Print, AllSized;
    var fields := TypeAt(schema, i).fields;
    SortTyped(schema, fields, m);
    SortLength(fields);
    ValidType(schema, i);
    SortValid(fields);
    FieldsSized(schema, SortById(fields), m);
  }

  lemma ValidType(schema: Schema, i: nat)
    requires ValidSchema(schema)
    ensures ValidFields(TypeAt(schema, i).fields)
  {
  }

  lemma {:induction false} InsertMember(f: Field, fields: seq<Field>, g: Field)
    ensures g in Insert(f, fields) <==> g == f || g in fields
  {
    if fields != [] && f.id > fields[0].id {
      InsertMember(f, fields[1..], g);
    }
  }

  /** Sorting keeps exactly the same fields. */
  lemma {:induction false} SortMember(fields: seq<Field>, g: Field)
    ensures g in SortById(fields) <==> g in fields
  {
    if fields != [] {
      SortMember(fields[1..], g);
      InsertMember(fields[0], SortById(fields[1..]), g);
    }
  }

  predicate Ascending(fields: seq<Field>) {
    |fields| <= 1 || (fields[0].id < fields[1].id && Ascending(fields[1..]))
  }

  lemma {:induction false} InsertAscending(f: Field, fields: seq<Field>)
    requires Ascending(fields)
    requires forall g :: g in fields ==> g.id != f.id
    ensures Ascending(Insert(f, fields))
  {
    if fields != [] {
      assert fields[0] in fields;
      if f.id > fields[0].id {
        InsertAscending(f, fields[1..]);
        if fields[1..] != [] {
          assert fields[1..][0] == fields[1];
        }
        var r := Insert(f, fields[1..]);
        assert ([fields[0]] + r)[1..] == r;
      } else {
        assert ([f] + fields)[1..] == fields;
      }
    }
  }

  /** The sorted fields ascend strictly: one record group per id, in field-number order. */
  lemma {:induction false} SortAscending(fields: seq<Field>)
    requires DistinctIds(fields)
    ensures Ascending(SortById(fields))
  {
    if fields != [] {
      SortAscending(fields[1..]);
      forall g | g in SortById(fields[1..]) ensures g.id != fields[0].id {
        SortMember(fields[1..], g);
        var k :| 0 <= k < |fields[1..]| && fields[1..][k] == g;
        assert fields[k + 1] == g;
      }
      InsertAscending(fields[0], SortById(fields[1..]));
    }
  }

  lemma {:induction false} AscendingAbove(fields: seq<Field>, j: nat)
    requires Ascending(fields) && 0 < j < |fields|
    ensures fields[0].id < fields[j].id
  {
    if j > 1 {
      AscendingAbove(fields[1..], j - 1);
    }
  }

  lemma {:induction false} AscendingDistinct(fields: seq<Field>)
    requires Ascending(fields)
    ensures DistinctIds(fields)
  {
    if |fields| > 1 {
      AscendingDistinct(fields[1..]);
      forall i, j | 0 <= i < j < |fields| ensures fields[i].id != fields[j].id {
        if i == 0 {
          AscendingAbove(fields, j);
        } else {
          assert fields[1..][i - 1].id != fields[1..][j - 1].id;
        }
      }
    }
  }

  lemma SortValid(fields: seq<Field>)
    requires ValidFields(fields)
    ensures ValidFields(SortById(fields))
  {
    SortAscending(fields);
    AscendingDistinct(SortById(fields));
    forall f | f in SortById(fields) ensures f.id < 0x2000_0000 {
      SortMember(fields, f);
    }
  }

  lemma ValidTail(fields: seq<Field>)
    requires ValidFields(fields) && fields != []
    ensures ValidFields(fields[1..]) && fields[0].id < 0x2000_0000
    ensures forall g :: g in fields[1..] ==> g.id != fields[0].id
  {
    var rest := fields[1..];
    forall i, j | 0 <= i < j < |rest| ensures rest[i].id != rest[j].id {
      assert fields[i + 1].id != fields[j + 1].id;
    }
    forall g | g in rest ensures g in fields && g.id != fields[0].id {
      var k :| 0 <= k < |rest| && rest[k] == g;
      assert fields[k + 1] == g;
    }
  }

  lemma {:induction false} FieldsSized(schema: Schema, fields: seq<Field>, m: Message)
    requires ValidSchema(schema) && ValidFields(fields)
    requires TypedFields(schema, fields, m)
    requires |Print(FieldRecs(schema, fields, m))| < U32
    ensures AllSized(FieldRecs(schema, fields, m))
    decreases m, |fields|, 0
  {
    if fields != [] {
      hide ValidSchema, ValidFields, PropRecs, Print, TypedProp;
      ValidTail(fields);
      var f := fields[0];
      var head := if f.id in m.props then PropRecs(schema, f, m.props[f.id]) else [];
      var rest := FieldRecs(schema, fields[1..], m);
      PrintAppend(head, rest);
      FieldsSized(schema, fields[1..], m);
      if f.id in m.props {
        PropSized(schema, f, m.props[f.id]);
      }
      AllSizedAppend(head, rest);
    }
  }

  lemma {:induction false} PropSized(schema: Schema, f: Field, p: Prop)
    requires ValidSchema(schema) && f.id < 0x2000_0000
    requires TypedProp(schema, f, p)
    requires |Print(PropRecs(schema, f, p))| < U32
    ensures AllSized(PropRecs(schema, f, p)) && AllId(PropRecs(schema, f, p), f.id)
    decreases p, 0
  {
    hide ValidSchema, KindPayload, TypedValue, TypedItems, TypedEntries, Body, Bodies, PayloadOf;
    match f.rule
    case StringMap =>
      EntriesSized(schema, f, p.entries);
    case Repeated(_) =>
      if p.vs == [] {
      } else if WritesPacked(f) {
        PackedSized(schema, f, p.vs);
      } else {
        ItemsSized(schema, f, p.vs);
      }
    case _ =>
      OneSized(schema, f, p.v);
  }

  lemma {:induction false} OneSized(schema: Schema, f: Field, v: Value)
    requires ValidSchema(schema) && f.id < 0x2000_0000
    requires TypedValue(schema, f.kind, v)
    requires |Print([Rec(f.id, KindPayload(schema, f.kind, v, false))])| < U32
    ensures SizedRec(Rec(f.id, KindPayload(schema, f.kind, v, false)))
    decreases v, 1
  {
    hide ValidSchema, KindPayload, TypedValue, Body, Print, Sized;
    PrintSize([Rec(f.id, KindPayload(schema, f.kind, v, false))]);
    KindSized(schema, f.kind, v, false);
  }

  lemma {:induction false} ItemsSized(schema: Schema, f: Field, vs: seq<Value>)
    requires ValidSchema(schema) && f.id < 0x2000_0000
    requires TypedItems(schema, f.kind, vs)
    requires |Print(ItemRecs(schema, f, vs))| < U32
    ensures AllSized(ItemRecs(schema, f, vs)) && AllId(ItemRecs(schema, f, vs), f.id)
    decreases vs
  {
    if vs != [] {
      hide ValidSchema, KindPayload, TypedValue, Body, Print, Sized;
      PrintSize(ItemRecs(schema, f, vs));
      assert ItemRecs(schema, f, vs)[1..] == ItemRecs(schema, f, vs[1..]);
      KindSized(schema, f.kind, vs[0], false);
      ItemsSized(schema, f, vs[1..]);
    }
  }

  lemma {:induction false} EntriesSized(schema: Schema, f: Field, es: seq<KeyValue>)
    requires ValidSchema(schema) && f.id < 0x2000_0000
    requires TypedEntries(schema, f.kind, es)
    requires |Print(EntryRecs(schema, f, es))| < U32
    ensures AllSized(EntryRecs(schema, f, es)) && AllId(EntryRecs(schema, f, es), f.id)
    decreases es
  {
    if es != [] {
      hide ValidSchema, EntryPayload, TypedEntry, Body, Print, Sized;
      PrintSize(EntryRecs(schema, f, es));
      assert EntryRecs(schema, f, es)[1..] == EntryRecs(schema, f, es[1..]);
      EntrySized(schema, f.kind, es[0]);
      EntriesSized(schema, f, es[1..]);
    }
  }

  lemma {:induction false} EntrySized(schema: Schema, k: Kind, e: KeyValue)
    requires ValidSchema(schema)
    requires TypedEntry(schema, k, e)
    requires |Body(EntryPayload(schema, k, e))| < U32
    ensures Sized(EntryPayload(schema, k, e))
    decreases e, 1
  {
    hide ValidSchema, KindPayload, TypedValue, Print, Varint;
    KindSized(schema, k, e.v, true);
  }

  lemma {:induction false} PackedSized(schema: Schema, f: Field, vs: seq<Value>)
    requires f.id < 0x2000_0000 && f.kind.Basic? && vs != []
    requires TypedItems(schema, f.kind, vs)
    requires |Print([Rec(f.id, Packed(PackedItems(schema, f.kind.t, vs)))])| < U32
    ensures SizedRec(Rec(f.id, Packed(PackedItems(schema, f.kind.t, vs))))
  {
    hide PackedItems, TypedItems, Print, Bodies, Varint;
    var r := Rec(f.id, Packed(PackedItems(schema, f.kind.t, vs)));
    PrintSize([r]);
    PackedItemsSized(schema, f.kind.t, vs);
  }

  lemma {:induction false} PackedItemsSized(schema: Schema, t: Scalar, vs: seq<Value>)
    requires TypedItems(schema, Basic(t), vs)
    requires |Bodies(PackedItems(schema, t, vs))| < U32
    ensures AllItemsSized(PackedItems(schema, t, vs))
  {
    if vs != [] {
      hide PayloadOf, Body, Bodies, Sized;
      var items := PackedItems(schema, t, vs);
      assert TypedValue(schema, Basic(t), vs[0]);
      BodiesSize(items);
      assert items[1..] == PackedItems(schema, t, vs[1..]);
      ScalarSized(t, vs[0]);
      PackedItemsSized(schema, t, vs[1..]);
    }
  }
}
