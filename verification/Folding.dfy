/** What a sequence of records leaves in a message: which properties are set, which record a
    property comes from, and when a required field is missing. */
module Folding {
  import opened Options
  import opened Words
  import opened Varints
  import opened Reading
  import opened Schemas
  import opened Wire
  import opened Decoding
  import opened Records
  import opened Objects
  import RoundTrip
  import Utf8

  /** No record carries the id. */
  predicate NoRecord(recs: seq<Rec>, id: nat) {
    forall r :: r in recs ==> r.id != id
  }

  /** Both messages have the same property under the id, or none. */
  predicate Agree(m: Message, m': Message, id: nat) {
    (id in m.props <==> id in m'.props) && (id in m.props ==> m.props[id] == m'.props[id])
  }

  lemma ApplyOther(schema: Schema, i: nat, r: Rec, m: Message, id: nat)
    requires Fits(schema, i, r) && r.id != id
    ensures Agree(m, Apply(schema, i, r, m), id)
  {
    hide FitsKind, FitsItems, ItemsOf, ValueOf, Sized, PutKey;
  }

  lemma ApplyOwn(schema: Schema, i: nat, r: Rec, m: Message)
    requires Fits(schema, i, r) && Find(TypeAt(schema, i).fields, r.id).Some?
    ensures r.id in Apply(schema, i, r, m).props
  {
    hide FitsKind, FitsItems, ItemsOf, ValueOf, Sized, PutKey;
  }

  /** A property without a record of its id is left as it was. */
  lemma {:induction false} FoldKeeps(schema: Schema, i: nat, recs: seq<Rec>, m: Message, id: nat)
    requires FitsAll(schema, i, recs) && NoRecord(recs, id)
    ensures Agree(m, Fold(schema, i, recs, m), id)
    decreases |recs|
  {
    if recs != [] {
      hide Fits, Apply;
      ApplyOther(schema, i, recs[0], m, id);
      FoldKeeps(schema, i, recs[1..], Apply(schema, i, recs[0], m), id);
    }
  }

  /** The properties after folding: those that were there, and those of the known records. */
  lemma {:induction false} FoldHas(schema: Schema, i: nat, recs: seq<Rec>, m: Message, id: nat)
    requires FitsAll(schema, i, recs) && Find(TypeAt(schema, i).fields, id).Some?
    ensures id in Fold(schema, i, recs, m).props <==> id in m.props || !NoRecord(recs, id)
    decreases |recs|
  {
    if recs != [] {
      hide Fits, Apply;
      var m' := Apply(schema, i, recs[0], m);
      FoldHas(schema, i, recs[1..], m', id);
      assert NoRecord(recs, id) <==> recs[0].id != id && NoRecord(recs[1..], id) by {
        assert forall r :: r in recs <==> r == recs[0] || r in recs[1..];
      }
      if recs[0].id == id {
        ApplyOwn(schema, i, recs[0], m);
      } else {
        ApplyOther(schema, i, recs[0], m, id);
      }
    }
  }

  lemma {:induction false} DefaultsAre(fields: seq<Field>, id: nat)
    requires DistinctIds(fields)
    ensures id in Defaults(fields) <==> exists f :: f in fields && f.id == id && (f.rule.Repeated? || f.rule.StringMap?)
    decreases |fields|
  {
    if fields != [] {
      var rest := fields[1..];
      assert DistinctIds(rest) by {
        assert forall j :: 0 <= j < |rest| ==> rest[j] == fields[j + 1];
      }
      DefaultsAre(rest, id);
      assert forall f :: f in fields <==> f == fields[0] || f in rest;
      if f :| f in rest && f.id == id && (f.rule.Repeated? || f.rule.StringMap?) {
        assert f in fields;
      }
      if fields[0].id == id && (fields[0].rule.Repeated? || fields[0].rule.StringMap?) {
        assert fields[0] in fields;
      }
    }
  }

  lemma RequiredStartsUnset(schema: Schema, i: nat, f: Field)
    requires DistinctIds(TypeAt(schema, i).fields) && f in TypeAt(schema, i).fields && f.rule.Required?
    ensures f.id !in Initial(schema, i).props && Find(TypeAt(schema, i).fields, f.id) == Some(f)
  {
    hide Find, Defaults;
    var fields := TypeAt(schema, i).fields;
    DefaultsAre(fields, f.id);
    FindMember(fields, f);
    if f.id in Defaults(fields) {
      var g :| g in fields && g.id == f.id && (g.rule.Repeated? || g.rule.StringMap?);
      FindMember(fields, g);
    }
  }

  /** The required check fails if and only if some required field has no record at all. */
  lemma MissesExactly(schema: Schema, i: nat, recs: seq<Rec>)
    requires DistinctIds(TypeAt(schema, i).fields) && FitsAll(schema, i, recs)
    ensures Misses(schema, i, Fold(schema, i, recs, Initial(schema, i))) <==>
            exists f :: f in TypeAt(schema, i).fields && f.rule.Required? && NoRecord(recs, f.id)
  {
    hide Fold, FitsAll, Find, Initial, DistinctIds, NoRecord;
    var m0 := Initial(schema, i);
    forall f | f in TypeAt(schema, i).fields && f.rule.Required?
      ensures f.id !in Fold(schema, i, recs, m0).props <==> NoRecord(recs, f.id)
    {
      RequiredStartsUnset(schema, i, f);
      FoldHas(schema, i, recs, m0, f.id);
    }
  }

  /** Decoding printed records, at their end. */
  lemma DecodeWhole(schema: Schema, i: nat, b: seq<byte>, m: Message)
    requires DecodeFields(schema, i, b, 0, |b|, Initial(schema, i)) == DecodeFields(schema, i, b, |b|, |b|, m)
    ensures Decode(schema, i, b) == if Misses(schema, i, m) then Throw else Ok(Msg(m), |b|)
  {
    hide Misses, Initial;
    assert DecodeFields(schema, i, b, |b|, |b|, m) == Ok(m, |b|);
  }

  /** Decoding fitting records throws if and only if a required field has no record, and returns
      what the records fold to otherwise. */
  lemma DecodeExactly(schema: Schema, i: nat, recs: seq<Rec>)
    requires DistinctIds(TypeAt(schema, i).fields) && FitsAll(schema, i, recs)
    ensures Decode(schema, i, Print(recs)) == Throw <==>
            exists f :: f in TypeAt(schema, i).fields && f.rule.Required? && NoRecord(recs, f.id)
    ensures Decode(schema, i, Print(recs)).Ok? ==>
            Decode(schema, i, Print(recs)) == Ok(Msg(Fold(schema, i, recs, Initial(schema, i))), |Print(recs)|)
  {
    hide *;
    var b, m0 := Print(recs), Initial(schema, i);
    assert b + [] == b;
    AtSelf(b);
    DecodeRecs(schema, i, b, 0, |b|, recs, [], m0);
    DecodeWhole(schema, i, b, Fold(schema, i, recs, m0));
    MissesExactly(schema, i, recs);
  }

  /** A nested message without one of its required fields is not accepted, whatever stands before
      and behind it. */
  lemma NestedMissThrows(schema: Schema, i: nat, f: Field, before: seq<Rec>, sub: seq<Rec>, missing: Field,
      tail: seq<byte>)
    requires Find(TypeAt(schema, i).fields, f.id) == Some(f) && f.id < 0x2000_0000
    requires f.kind.Nested? && !f.rule.StringMap? && !TypeAt(schema, f.kind.index).group
    requires FitsAll(schema, i, before) && FitsAll(schema, f.kind.index, sub) && |Print(sub)| < U32
    requires DistinctIds(TypeAt(schema, f.kind.index).fields)
    requires missing in TypeAt(schema, f.kind.index).fields && missing.rule.Required? && NoRecord(sub, missing.id)
    ensures Decode(schema, i, Print(before) + (Varint(f.id * 8 + 2) + (Delimited(Print(sub)) + tail))) == Throw
  {
    hide *;
    var tag, x := Varint(f.id * 8 + 2), Delimited(Print(sub));
    var b := Print(before) + (tag + (x + tail));
    var p := |Print(before)|;
    AtSelf(b);
    DecodeRecs(schema, i, b, 0, |b|, before, tag + (x + tail), Initial(schema, i));
    AtSplit(b, 0, Print(before), tag + (x + tail));
    AtSplit(b, p, tag, x + tail);
    AtSplit(b, p + |tag|, x, tail);
    ReadTag(b, p, f.id, 2);
    MissesExactly(schema, f.kind.index, sub);
    SubMissing(schema, f.kind.index, b, p + |tag|, sub);
    FieldThrows(schema, i, f, b, p + |tag|, Fold(schema, i, before, Initial(schema, i)));
    TurnThrows(schema, i, b, p, |b|, Fold(schema, i, before, Initial(schema, i)), f.id * 8 + 2, p + |tag|);
    Thrown(schema, i, b);
  }

  lemma SubMissing(schema: Schema, i: nat, b: seq<byte>, p: nat, recs: seq<Rec>)
    requires FitsAll(schema, i, recs) && |Print(recs)| < U32
    requires Misses(schema, i, Fold(schema, i, recs, Initial(schema, i)))
    requires At(b, p, Delimited(Print(recs)))
    ensures p <= |b| && ReadDelimited(schema, i, b, p) == Throw
  {
    hide At, ReadUint32, Varint, FitsAll, Fold, Print, DecodeFields, Misses, Initial;
    var x, m0 := Print(recs), Initial(schema, i);
    AtEnd(b, p, Delimited(x));
    ReadLength(b, p, x);
    var q := p + |Varint(|x|)|;
    assert x + [] == x;
    DecodeRecs(schema, i, b, q, q + |x|, recs, [], m0);
    AtEnd(b, q, x);
    assert DecodeFields(schema, i, b, q + |x|, q + |x|, Fold(schema, i, recs, m0))
           == Ok(Fold(schema, i, recs, m0), q + |x|) by {
      AtEndOf(schema, i, b, q + |x|, Fold(schema, i, recs, m0));
    }
  }

  lemma AtEndOf(schema: Schema, i: nat, b: seq<byte>, c: nat, m: Message)
    requires c <= |b|
    ensures DecodeFields(schema, i, b, c, c, m) == Ok(m, c)
  {
  }

  lemma FieldThrows(schema: Schema, i: nat, f: Field, b: seq<byte>, p: nat, m: Message)
    requires Find(TypeAt(schema, i).fields, f.id) == Some(f) && p <= |b|
    requires f.kind.Nested? && !f.rule.StringMap? && !TypeAt(schema, f.kind.index).group
    requires ReadDelimited(schema, f.kind.index, b, p) == Throw
    ensures DecodeTagged(schema, i, b, p, f.id * 8 + 2, m) == Throw
  {
    hide Find, ReadDelimited;
    assert (f.id * 8 + 2) / 8 == f.id && (f.id * 8 + 2) % 8 == 2;
    assert ReadValue(schema, f.kind, b, p) == Throw;
    assert DecodeField(schema, f, b, p, 2, m) == Throw;
  }

  /** A turn of the decoding loop that throws. */
  lemma TurnThrows(schema: Schema, i: nat, b: seq<byte>, p: nat, c: nat, m: Message, tag: nat, q: nat)
    requires p < c && p <= |b| && ReadUint32(b, p) == Ok(tag, q)
    requires !(TypeAt(schema, i).group && tag % 8 == 4)
    requires q <= |b| && DecodeTagged(schema, i, b, q, tag, m) == Throw
    ensures DecodeFields(schema, i, b, p, c, m) == Throw
  {
    hide ReadUint32, DecodeTagged;
  }

  lemma Thrown(schema: Schema, i: nat, b: seq<byte>)
    requires DecodeFields(schema, i, b, 0, |b|, Initial(schema, i)) == Throw
    ensures Decode(schema, i, b) == Throw
  {
    hide DecodeFields;
  }

  /** A record that the receiver does not know, of a wire type outside the format, is never
      skipped: whatever stands before and behind its tag, decoding throws. */
  lemma UnknownWireThrows(schema: Schema, i: nat, before: seq<Rec>, id: nat, wire: nat, tail: seq<byte>)
    requires FitsAll(schema, i, before) && id < 0x2000_0000
    requires Find(TypeAt(schema, i).fields, id).None?
    requires wire in {4, 6, 7} && (wire == 4 ==> !TypeAt(schema, i).group)
    ensures Decode(schema, i, Print(before) + (Varint(id * 8 + wire) + tail)) == Throw
  {
    hide *;
    var tag := Varint(id * 8 + wire);
    var b, p := Print(before) + (tag + tail), |Print(before)|;
    AtSelf(b);
    DecodeRecs(schema, i, b, 0, |b|, before, tag + tail, Initial(schema, i));
    AtSplit(b, 0, Print(before), tag + tail);
    AtSplit(b, p, tag, tail);
    AtEnd(b, p, tag);
    ReadTag(b, p, id, wire);
    var m := Fold(schema, i, before, Initial(schema, i));
    UnknownThrows(schema, i, b, p + |tag|, id, wire, m);
    TagLength(id * 8 + wire);
    TurnThrows(schema, i, b, p, |b|, m, id * 8 + wire, p + |tag|);
    Thrown(schema, i, b);
  }

  lemma TagLength(n: nat)
    ensures |Varint(n)| > 0
  {
  }

  lemma UnknownThrows(schema: Schema, i: nat, b: seq<byte>, p: nat, id: nat, wire: nat, m: Message)
    requires Find(TypeAt(schema, i).fields, id).None? && wire in {4, 6, 7} && p <= |b|
    ensures DecodeTagged(schema, i, b, p, id * 8 + wire, m) == Throw
  {
    hide Find, SkipType;
    assert (id * 8 + wire) / 8 == id && (id * 8 + wire) % 8 == wire;
    SkipTypeKnown(b, p, wire);
  }

  /** A known id is read as the type its field has; the wire type of the tag is looked at only to
      tell a packed block from a single element. */
  lemma KnownIgnoresWire(schema: Schema, i: nat, f: Field, b: seq<byte>, p: nat, w: nat, w': nat, m: Message)
    requires Find(TypeAt(schema, i).fields, f.id) == Some(f) && p <= |b| && w < 8 && w' < 8
    requires f.rule.Repeated? && f.kind.Basic? && Packable(f.kind.t) ==> (w == 2 <==> w' == 2)
    ensures DecodeTagged(schema, i, b, p, f.id * 8 + w, m) == DecodeTagged(schema, i, b, p, f.id * 8 + w', m)
  {
    hide Find, ReadValue, ReadEntry, ReadPacked;
    assert (f.id * 8 + w) / 8 == f.id && (f.id * 8 + w) % 8 == w;
    assert (f.id * 8 + w') / 8 == f.id && (f.id * 8 + w') % 8 == w';
  }

  /** In particular a scalar is read under a tag of any wire type, but for the end tag of a group. */
  lemma AnyWireRead(schema: Schema, i: nat, f: Field, b: seq<byte>, p: nat, c: nat, w: nat, pl: Payload, m: Message)
    requires Find(TypeAt(schema, i).fields, f.id) == Some(f) && (f.rule.Optional? || f.rule.Required?)
    requires f.id < 0x2000_0000 && f.kind.Basic? && FitsScalar(f.kind.t, pl)
    requires w < 8 && !(w == 4 && TypeAt(schema, i).group)
    requires At(b, p, Varint(f.id * 8 + w) + Body(pl)) && p < c
    ensures var q := p + |Varint(f.id * 8 + w) + Body(pl)|;
            q <= |b| && DecodeFields(schema, i, b, p, c, m)
                        == DecodeFields(schema, i, b, q, c, Set(m, f.id, One(ScalarOf(f.kind.t, pl))))
  {
    hide *;
    var q := p + |Varint(f.id * 8 + w)|;
    AtSplit(b, p, Varint(f.id * 8 + w), Body(pl));
    AtEnd(b, q, Body(pl));
    ReadTag(b, p, f.id, w);
    ReadScalarOnBody(f.kind.t, b, q, pl);
    ScalarTagged(schema, i, f, b, q, w, pl, m);
    TurnReads(schema, i, b, p, c, m, f.id * 8 + w, q, Set(m, f.id, One(ScalarOf(f.kind.t, pl))), q + |Body(pl)|);
  }

  lemma ScalarTagged(schema: Schema, i: nat, f: Field, b: seq<byte>, q: nat, w: nat, pl: Payload, m: Message)
    requires Find(TypeAt(schema, i).fields, f.id) == Some(f) && (f.rule.Optional? || f.rule.Required?)
    requires f.kind.Basic? && FitsScalar(f.kind.t, pl) && w < 8 && q <= |b|
    requires ReadScalar(f.kind.t, b, q) == Ok(ScalarOf(f.kind.t, pl), q + |Body(pl)|)
    ensures DecodeTagged(schema, i, b, q, f.id * 8 + w, m)
            == Ok(Set(m, f.id, One(ScalarOf(f.kind.t, pl))), q + |Body(pl)|)
  {
    hide Find, ReadScalar, ScalarOf, FitsScalar, Body;
    assert (f.id * 8 + w) / 8 == f.id && (f.id * 8 + w) % 8 == w;
    assert ReadValue(schema, f.kind, b, q) == ReadScalar(f.kind.t, b, q);
  }

  lemma TurnReads(schema: Schema, i: nat, b: seq<byte>, p: nat, c: nat, m: Message, tag: nat, q: nat, m': Message,
      q': nat)
    requires p < c && p <= |b| && ReadUint32(b, p) == Ok(tag, q) && q <= q' <= |b|
    requires !(TypeAt(schema, i).group && tag % 8 == 4)
    requires DecodeTagged(schema, i, b, q, tag, m) == Ok(m', q')
    ensures DecodeFields(schema, i, b, p, c, m) == DecodeFields(schema, i, b, q', c, m')
  {
    hide ReadUint32, DecodeTagged;
  }

  /** A field that holds one value takes it from its last record. */
  lemma LastRecordWins(schema: Schema, i: nat, f: Field, a: seq<Rec>, r: Rec, c: seq<Rec>, m: Message)
    requires Find(TypeAt(schema, i).fields, f.id) == Some(f) && (f.rule.Optional? || f.rule.Required?)
    requires FitsAll(schema, i, a) && Fits(schema, i, r) && FitsAll(schema, i, c)
    requires r.id == f.id && NoRecord(c, f.id)
    ensures FitsAll(schema, i, a + ([r] + c)) && FitsKind(schema, f.kind, r.p, false)
    ensures var m' := Fold(schema, i, a + ([r] + c), m);
            f.id in m'.props && m'.props[f.id] == One(ValueOf(schema, f.kind, r.p, false))
  {
    ApplySingle(schema, i, f, r, Fold(schema, i, a, m));
    hide *;
    FoldMiddle(schema, i, a, r, c, m);
    FoldKeeps(schema, i, c, Apply(schema, i, r, Fold(schema, i, a, m)), f.id);
  }

  lemma ApplySingle(schema: Schema, i: nat, f: Field, r: Rec, m: Message)
    requires Find(TypeAt(schema, i).fields, f.id) == Some(f) && (f.rule.Optional? || f.rule.Required?)
    requires Fits(schema, i, r) && r.id == f.id
    ensures FitsKind(schema, f.kind, r.p, false)
    ensures var m' := Apply(schema, i, r, m);
            f.id in m'.props && m'.props[f.id] == One(ValueOf(schema, f.kind, r.p, false))
  {
    hide FitsKind, ValueOf;
  }

  lemma FoldMiddle(schema: Schema, i: nat, a: seq<Rec>, r: Rec, c: seq<Rec>, m: Message)
    requires FitsAll(schema, i, a) && Fits(schema, i, r) && FitsAll(schema, i, c)
    ensures FitsAll(schema, i, a + ([r] + c))
    ensures Fold(schema, i, a + ([r] + c), m) == Fold(schema, i, c, Apply(schema, i, r, Fold(schema, i, a, m)))
  {
    hide Fits, Apply;
    assert ([r] + c)[0] == r && ([r] + c)[1..] == c;
    RoundTrip.FoldAppend(schema, i, a, [r] + c, m);
  }

  /** No record of the field carries the key. */
  predicate NoKey(recs: seq<Rec>, id: nat, key: Utf8.Text) {
    forall r :: r in recs && r.id == id && r.p.Entry? ==> Utf8.Decode(r.p.key) != key
  }

  lemma ApplyEntry(schema: Schema, i: nat, f: Field, r: Rec, m: Message, key: Utf8.Text)
    requires Find(TypeAt(schema, i).fields, f.id) == Some(f) && f.rule.StringMap?
    requires Fits(schema, i, r) && key != PROTO
    ensures r.id == f.id ==> r.p.Entry? && FitsKind(schema, f.kind, r.p.value, true)
    ensures EntryAt(DictAt(Apply(schema, i, r, m), f.id).entries, key) ==
            if r.id == f.id && Utf8.Decode(r.p.key) == key then Some(ValueOf(schema, f.kind, r.p.value, true))
            else EntryAt(DictAt(m, f.id).entries, key)
  {
    if r.id == f.id {
      assert FitsField(schema, f, r.p);
      hide FitsKind, ValueOf, EntryAt, PutKey, Utf8.Decode;
      var k, v := Utf8.Decode(r.p.key), ValueOf(schema, f.kind, r.p.value, true);
      PutKeyExactly(DictAt(m, f.id), k, v, key);
      assert Apply(schema, i, r, m) == Put(m, f.id, k, v);
    } else {
      hide Fits, Apply, EntryAt;
      ApplyOther(schema, i, r, m, f.id);
    }
  }

  lemma {:induction false} FoldNoKey(schema: Schema, i: nat, f: Field, recs: seq<Rec>, m: Message, key: Utf8.Text)
    requires Find(TypeAt(schema, i).fields, f.id) == Some(f) && f.rule.StringMap?
    requires FitsAll(schema, i, recs) && NoKey(recs, f.id, key) && key != PROTO
    ensures EntryAt(DictAt(Fold(schema, i, recs, m), f.id).entries, key) == EntryAt(DictAt(m, f.id).entries, key)
    decreases |recs|
  {
    if recs != [] {
      hide Fits, Apply, EntryAt, DictAt, Find, Utf8.Decode;
      assert recs[0] in recs;
      ApplyEntry(schema, i, f, recs[0], m, key);
      FoldNoKey(schema, i, f, recs[1..], Apply(schema, i, recs[0], m), key);
    }
  }

  /** A map key that is sent more than once keeps its last value. */
  lemma LastEntryWins(schema: Schema, i: nat, f: Field, a: seq<Rec>, r: Rec, c: seq<Rec>, m: Message)
    requires Find(TypeAt(schema, i).fields, f.id) == Some(f) && f.rule.StringMap?
    requires FitsAll(schema, i, a) && Fits(schema, i, r) && FitsAll(schema, i, c)
    requires r.id == f.id && r.p.Entry? && Utf8.Decode(r.p.key) != PROTO && NoKey(c, f.id, Utf8.Decode(r.p.key))
    ensures FitsAll(schema, i, a + ([r] + c)) && FitsKind(schema, f.kind, r.p.value, true)
    ensures var m' := Fold(schema, i, a + ([r] + c), m);
            EntryAt(DictAt(m', f.id).entries, Utf8.Decode(r.p.key)) == Some(ValueOf(schema, f.kind, r.p.value, true))
  {
    hide *;
    FoldMiddle(schema, i, a, r, c, m);
    ApplyEntry(schema, i, f, r, Fold(schema, i, a, m), Utf8.Decode(r.p.key));
    FoldNoKey(schema, i, f, c, Apply(schema, i, r, Fold(schema, i, a, m)), Utf8.Decode(r.p.key));
  }
}
