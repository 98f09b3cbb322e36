/** Lengths and tags that the decoder reads but does not hold its input to. */
module Overruns {
  import opened Options
  import opened Words
  import opened Varints
  import opened Reading
  import opened Schemas
  import opened Wire
  import opened Decoding
  import opened Records
  import Utf8

  /** All elements but the last one start in front of c. */
  predicate EndsInLast(items: seq<Payload>, p: nat, c: nat) {
    items != [] && p + |Bodies(items[..|items| - 1])| < c <= p + |Bodies(items)|
  }

  /** A packed block whose length ends inside its last element: the element is read whole, and
      reading goes on behind it. */
  lemma {:induction false} PackedCut(t: Scalar, b: seq<byte>, p: nat, c: nat, items: seq<Payload>)
    requires FitsItems(t, items) && At(b, p, Bodies(items)) && EndsInLast(items, p, c)
    ensures p <= |b| + 1 && ReadPacked(t, b, p, c) == Ok(ItemsOf(t, items), p + |Bodies(items)|)
    decreases |items|
  {
    hide *;
    CutItems(t, items, p, c);
    var q := p + |Body(items[0])|;
    AtSplit(b, p, Body(items[0]), Bodies(items[1..]));
    AtEnd(b, p, Bodies(items));
    AtEnd(b, p, Body(items[0]));
    ReadScalarOnBody(t, b, p, items[0]);
    ReadForward(t, b, p, q);
    if |items| == 1 {
      PackedLast(t, b, p, c, ScalarOf(t, items[0]), q);
    } else {
      PackedCut(t, b, q, c, items[1..]);
      PackedTurn(t, b, p, c, ScalarOf(t, items[0]), q, ItemsOf(t, items[1..]), p + |Bodies(items)|);
    }
  }

  lemma ReadForward(t: Scalar, b: seq<byte>, p: nat, q: nat)
    requires ReadScalar(t, b, p).Ok? && ReadScalar(t, b, p).pos == q
    ensures p < q
  {
  }

  lemma CutItems(t: Scalar, items: seq<Payload>, p: nat, c: nat)
    requires FitsItems(t, items) && EndsInLast(items, p, c)
    ensures items != [] && p < c
    ensures FitsScalar(t, items[0]) && FitsItems(t, items[1..])
    ensures Bodies(items) == Body(items[0]) + Bodies(items[1..])
    ensures ItemsOf(t, items) == [ScalarOf(t, items[0])] + ItemsOf(t, items[1..])
    ensures |items| > 1 ==> EndsInLast(items[1..], p + |Body(items[0])|, c)
    ensures |items| == 1 ==> Bodies(items[1..]) == [] && ItemsOf(t, items[1..]) == [] && c <= p + |Body(items[0])|
  {
    hide FitsScalar, Body, ScalarOf;
    if |items| > 1 {
      assert items[..|items| - 1][1..] == items[1..][..|items| - 2];
    }
  }

  lemma PackedTurn(t: Scalar, b: seq<byte>, p: nat, c: nat, v: Value, q: nat, vs: seq<Value>, end: nat)
    requires p < c && p < q <= |b| + 1
    requires ReadScalar(t, b, p) == Ok(v, q) && ReadPacked(t, b, q, c) == Ok(vs, end)
    ensures ReadPacked(t, b, p, c) == Ok([v] + vs, end)
  {
    hide ReadScalar;
  }

  lemma PackedLast(t: Scalar, b: seq<byte>, p: nat, c: nat, v: Value, q: nat)
    requires p < c <= q && p < q <= |b| + 1
    requires ReadScalar(t, b, p) == Ok(v, q)
    ensures ReadPacked(t, b, p, c) == Ok([v] + [], q)
  {
    hide ReadScalar;
    assert ReadPacked(t, b, q, c) == Ok([], q);
  }

  /** All records but the last one start in front of c. */
  predicate EndsInLastRec(recs: seq<Rec>, p: nat, c: nat) {
    recs != [] && p + |Print(recs[..|recs| - 1])| < c <= p + |Print(recs)|
  }

  /** The same for a nested message whose length n ends inside its last record: the record counts
      whole. */
  lemma NestedCut(schema: Schema, i: nat, b: seq<byte>, p: nat, n: nat, recs: seq<Rec>)
    requires n < U32 && FitsAll(schema, i, recs) && EndsInLastRec(recs, 0, n)
    requires !Misses(schema, i, Fold(schema, i, recs, Initial(schema, i)))
    requires At(b, p, Varint(n) + Print(recs))
    ensures p <= |b| + 1
    ensures ReadDelimited(schema, i, b, p)
            == Ok(Msg(Fold(schema, i, recs, Initial(schema, i))), p + |Varint(n)| + |Print(recs)|)
  {
    hide At, ReadUint32, Varint, FitsAll, Fold, Print, DecodeFields, Misses, Initial;
    AtSplit(b, p, Varint(n), Print(recs));
    AtEnd(b, p, Varint(n) + Print(recs));
    ReadUint32Short(b, p, n);
    var q, m0 := p + |Varint(n)|, Initial(schema, i);
    RecsCut(schema, i, b, q, q + n, recs, m0);
  }

  lemma {:induction false} RecsCut(schema: Schema, i: nat, b: seq<byte>, p: nat, c: nat, recs: seq<Rec>, m: Message)
    requires FitsAll(schema, i, recs) && At(b, p, Print(recs)) && EndsInLastRec(recs, p, c)
    ensures p <= |b| + 1 && DecodeFields(schema, i, b, p, c, m) == Ok(Fold(schema, i, recs, m), p + |Print(recs)|)
    decreases |recs|
  {
    hide *;
    StartsBefore(recs, p, c);
    FitCons(schema, i, recs, m);
    var r, m' := recs[0], Apply(schema, i, recs[0], m);
    var q := p + |Tag(r)|;
    var q' := q + |Content(r)|;
    TagIs(r);
    assert Print(recs) + [] == Print(recs);
    AtPrint(b, p, recs, []);
    AtEnd(b, q, Content(r));
    DecodeRec(schema, i, b, q, r, m);
    ReadTag(b, p, r.id, WireType(r.p));
    WireNotEnd(r.p);
    OneTurnCut(schema, i, b, p, c, r.id * 8 + WireType(r.p), q, m, m', q');
    if |recs| == 1 {
      LastPrinted(recs, p, c);
      PastEnd(schema, i, b, q', c, m');
      FoldNil(schema, i, recs[1..], m');
    } else {
      CutTail(recs, p, c);
      assert Print(recs[1..]) + [] == Print(recs[1..]);
      RecsCut(schema, i, b, q', c, recs[1..], m');
    }
  }

  lemma WireNotEnd(p: Payload)
    ensures WireType(p) < 8 && WireType(p) != 4
  {
  }

  lemma StartsBefore(recs: seq<Rec>, p: nat, c: nat)
    requires EndsInLastRec(recs, p, c)
    ensures recs != [] && p < c
  {
  }

  lemma TagIs(r: Rec)
    ensures Tag(r) == Varint(r.id * 8 + WireType(r.p))
  {
  }

  lemma LastPrinted(recs: seq<Rec>, p: nat, c: nat)
    requires |recs| == 1 && EndsInLastRec(recs, p, c)
    ensures recs[1..] == [] && Print(recs[1..]) == [] && c <= p + |Tag(recs[0])| + |Content(recs[0])|
  {
    PrintParts(recs);
    hide PrintRec, Tag, Content;
  }

  lemma CutTail(recs: seq<Rec>, p: nat, c: nat)
    requires |recs| > 1 && EndsInLastRec(recs, p, c)
    ensures EndsInLastRec(recs[1..], p + |Tag(recs[0])| + |Content(recs[0])|, c)
  {
    var front := recs[..|recs| - 1];
    assert front[1..] == recs[1..][..|recs| - 2] && front[0] == recs[0];
    PrintParts(recs);
    PrintParts(front);
    hide Print, Tag, Content;
  }

  lemma OneTurnCut(schema: Schema, i: nat, b: seq<byte>, p: nat, c: nat, tag: nat, q: nat, m: Message, m': Message,
      q': nat)
    requires p < c && q <= q' <= |b| && tag % 8 != 4 && ReadUint32(b, p) == Ok(tag, q)
    requires DecodeTagged(schema, i, b, q, tag, m) == Ok(m', q')
    ensures DecodeFields(schema, i, b, p, c, m) == DecodeFields(schema, i, b, q', c, m')
  {
    hide ReadUint32, DecodeTagged;
  }

  lemma PastEnd(schema: Schema, i: nat, b: seq<byte>, p: nat, c: nat, m: Message)
    requires c <= p <= |b| + 1
    ensures DecodeFields(schema, i, b, p, c, m) == Ok(m, p)
  {
  }

  /** A map entry is read by position: its length may say anything, and the two bytes that stand
      where its tags should be may hold anything. */
  lemma EntryByPosition(schema: Schema, k: Kind, b: seq<byte>, p: nat, n: nat, tag1: byte, key: seq<byte>, tag2: byte,
      value: Payload)
    requires n < U32 * U32 && |key| < U32 && !value.Group? && FitsKind(schema, k, value, true)
    requires At(b, p, Varint(n) + ([tag1] + (Delimited(key) + ([tag2] + Body(value)))))
    ensures p <= |b| + 1
    ensures ReadEntry(schema, k, b, p)
            == Ok(KeyValue(Utf8.Decode(key), ValueOf(schema, k, value, true)),
                  p + |Varint(n)| + |Delimited(key)| + |Body(value)| + 2)
  {
    hide At, ReadScalar, FitsScalar, ScalarOf, ReadDelimited, ReadBytes, SkipVarint, Varint, Misses, FitsAll,
        Fold, Print, Body, Delimited, Utf8.Decode;
    var q1, q2 := EntryParts(b, p, n, tag1, key, tag2, Body(value));
    match k
    case Basic(t) =>
      ReadScalarOnBody(t, b, q2 + 1, value);
    case Nested(i) =>
      SubIs(schema, i, value);
      ReadSub(schema, i, b, q2 + 1, value.recs);
  }

  lemma SubIs(schema: Schema, i: nat, value: Payload)
    requires FitsKind(schema, Nested(i), value, true)
    ensures value.Sub? && Body(value) == Delimited(Print(value.recs)) && |Print(value.recs)| < U32
    ensures FitsAll(schema, i, value.recs)
    ensures !Misses(schema, i, Fold(schema, i, value.recs, Initial(schema, i)))
  {
    hide FitsAll, Fold, Print, Misses, Delimited;
  }

  // ---- ends that are not there ----

  /** A packed block that is returned has used up the length it announced. */
  lemma {:induction false} PackedReaches(t: Scalar, b: seq<byte>, p: nat, c: nat)
    requires p <= |b| + 1
    ensures var r := ReadPacked(t, b, p, c); r.Ok? ==> r.pos >= c
    decreases Left(b, p)
  {
    hide ReadScalar;
    if p < c {
      var r := ReadScalar(t, b, p);
      if r.Ok? {
        Forward(t, b, p);
        PackedReaches(t, b, r.pos, c);
      }
    }
  }

  lemma Forward(t: Scalar, b: seq<byte>, p: nat)
    ensures var r := ReadScalar(t, b, p); r.Ok? ==> p < r.pos <= |b| + 1
  {
  }

  lemma {:induction false} FieldsReach(schema: Schema, i: nat, b: seq<byte>, p: nat, c: nat, m: Message)
    requires p <= |b| + 1 && !TypeAt(schema, i).group
    ensures var r := DecodeFields(schema, i, b, p, c, m); r.Ok? ==> r.pos >= c
    decreases Left(b, p)
  {
    hide ReadUint32, DecodeTagged;
    if p < c {
      var t := ReadUint32(b, p);
      if t.Ok? {
        var r := DecodeTagged(schema, i, b, t.pos, t.v, m);
        if r.Ok? {
          FieldsReach(schema, i, b, r.pos, c, r.v);
        }
      }
    }
  }

  /** So has a nested message: with a length that runs more than a byte past the end of the buffer
      it is never returned. */
  lemma NestedReaches(schema: Schema, i: nat, b: seq<byte>, p: nat)
    requires p <= |b| + 1 && !TypeAt(schema, i).group
    ensures var r, l := ReadDelimited(schema, i, b, p), ReadUint32(b, p);
            r.Ok? ==> l.Ok? && l.pos + l.v <= r.pos <= |b| + 1
  {
    hide ReadUint32, Misses, Initial, DecodeFields;
    var l := ReadUint32(b, p);
    if l.Ok? {
      FieldsReach(schema, i, b, l.pos, l.pos + l.v, Initial(schema, i));
    }
  }

  /** A group that the buffer cuts off before its end tag is accepted when its field is known... */
  lemma OpenGroupRead(schema: Schema, i: nat, b: seq<byte>, p: nat, recs: seq<Rec>)
    requires TypeAt(schema, i).group && FitsAll(schema, i, recs)
    requires !Misses(schema, i, Fold(schema, i, recs, Initial(schema, i)))
    requires At(b, p, Print(recs)) && p + |Print(recs)| == |b|
    ensures DecodeMessage(schema, i, b, p, |b|) == Ok(Msg(Fold(schema, i, recs, Initial(schema, i))), |b|)
  {
    hide *;
    assert Print(recs) + [] == Print(recs);
    DecodeRecs(schema, i, b, p, |b|, recs, [], Initial(schema, i));
    MessageEnd(schema, i, b, p, |b|, |b|, Fold(schema, i, recs, Initial(schema, i)));
  }

  /** ... and throws when it is skipped. */
  lemma {:induction false} OpenGroupSkipped(b: seq<byte>, p: nat, recs: seq<Rec>)
    requires AllSized(recs) && At(b, p, Print(recs)) && p + |Print(recs)| == |b|
    ensures SkipGroup(b, p) == Throw
    decreases |recs|
  {
    hide *;
    if recs == [] {
      NothingPrinted();
      SkipAtEnd(b);
    } else {
      assert Print(recs) + [] == Print(recs);
      var q := p + |Tag(recs[0])|;
      SizedParts(recs);
      AtPrint(b, p, recs, []);
      SkipGroupStep(b, p, recs[0]);
      ContentIs(recs[0]);
      SkipOnBody(b, q, recs[0]);
      assert Print(recs[1..]) + [] == Print(recs[1..]);
      OpenGroupSkipped(b, q + |Content(recs[0])|, recs[1..]);
    }
  }

  lemma NothingPrinted()
    ensures Print([]) == []
  {
  }

  lemma SkipAtEnd(b: seq<byte>)
    ensures SkipGroup(b, |b|) == Throw
  {
  }
}
