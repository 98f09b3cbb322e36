/** Packed blocks and single records of one repeated field, in any mixture. */
module Repeated {
  import opened Options
  import opened Words
  import opened Varints
  import opened Reading
  import opened Schemas
  import opened Wire
  import opened Decoding
  import opened Records

  /** The elements one record carries for field f. */
  function Carried(schema: Schema, f: Field, r: Rec): seq<Value>
    requires r.id == f.id ==> f.rule.Repeated? && FitsField(schema, f, r.p)
  {
    if r.id != f.id then []
    else if f.kind.Basic? && Packable(f.kind.t) && r.p.Packed? then ItemsOf(f.kind.t, r.p.items)
    else [ValueOf(schema, f.kind, r.p, false)]
  }

  predicate IsField(schema: Schema, i: nat, f: Field) {
    f.rule.Repeated? && Find(TypeAt(schema, i).fields, f.id) == Some(f)
  }

  /** The elements of field f over all records, in order of appearance. */
  function Elements(schema: Schema, i: nat, f: Field, recs: seq<Rec>): seq<Value>
    requires IsField(schema, i, f) && FitsAll(schema, i, recs)
  {
    if recs == [] then []
    else
      assert Fits(schema, i, recs[0]);
      Carried(schema, f, recs[0]) + Elements(schema, i, f, recs[1..])
  }

  lemma ApplyItems(schema: Schema, i: nat, f: Field, r: Rec, m: Message)
    requires IsField(schema, i, f) && Fits(schema, i, r)
    ensures Items(Apply(schema, i, r, m), f.id) == Items(m, f.id) + Carried(schema, f, r)
  {
    hide FitsKind, FitsItems, ItemsOf, ValueOf, Sized, FitsScalar;
    if r.id != f.id {
      assert Items(m, f.id) + [] == Items(m, f.id);
    }
  }

  /** Whatever other records stand in between, the array holds the elements of the packed blocks
      and of the single records in the order in which they were read. */
  lemma {:induction false} MixtureAppends(schema: Schema, i: nat, f: Field, recs: seq<Rec>, m: Message)
    requires IsField(schema, i, f) && FitsAll(schema, i, recs)
    ensures Items(Fold(schema, i, recs, m), f.id) == Items(m, f.id) + Elements(schema, i, f, recs)
    decreases recs
  {
    if recs == [] {
      assert Items(m, f.id) + [] == Items(m, f.id);
    } else {
      hide Fits, Apply, Items, Carried;
      ApplyItems(schema, i, f, recs[0], m);
      MixtureAppends(schema, i, f, recs[1..], Apply(schema, i, recs[0], m));
      Associate(Items(m, f.id), Carried(schema, f, recs[0]), Elements(schema, i, f, recs[1..]));
    }
  }

  /** The decoder on the bytes of any such mixture. */
  lemma DecodeMixture(schema: Schema, i: nat, f: Field, recs: seq<Rec>)
    requires IsField(schema, i, f) && FitsAll(schema, i, recs)
    requires !Misses(schema, i, Fold(schema, i, recs, Initial(schema, i)))
    ensures var m := Fold(schema, i, recs, Initial(schema, i));
      && Decode(schema, i, Print(recs)) == Ok(Msg(m), |Print(recs)|)
      && Items(m, f.id) == Items(Initial(schema, i), f.id) + Elements(schema, i, f, recs)
  {
    hide FitsAll, Fold, Print, Misses, Initial, DecodeFields, Elements, Items;
    var b, m0 := Print(recs), Initial(schema, i);
    assert b + [] == b;
    DecodeRecs(schema, i, b, 0, |b|, recs, [], m0);
    MessageEnd(schema, i, b, 0, |b|, |b|, Fold(schema, i, recs, m0));
    MixtureAppends(schema, i, f, recs, m0);
  }
}
