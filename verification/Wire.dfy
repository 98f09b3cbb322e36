/** The wire format as a tree of records, its printed form, and how the readers take it apart. */
module Wire {
  import opened Words
  import opened Varints
  import opened Reading

  /** What follows a tag. Blob, Packed, Entry and Sub all have wire type 2 and differ only in
      what their bytes were made from. */
  datatype Payload =
    | Number(n: nat)
    | Double(bits: Long)
    | Single(w: u32)
    | Blob(bytes: seq<byte>)
    | Packed(items: seq<Payload>)
    | Entry(key: seq<byte>, value: Payload)
    | Sub(recs: seq<Rec>)
    | Group(recs: seq<Rec>)

  datatype Rec = Rec(id: nat, p: Payload)

  function WireType(p: Payload): (w: nat)
    ensures w in {0, 1, 2, 3, 5}
  {
    match p
    case Number(_) => 0
    case Double(_) => 1
    case Single(_) => 5
    case Group(_) => 3
    case _ => 2
  }

  /** Bytes behind their length, which the writer cuts to 32 bits. */
  function Delimited(x: seq<byte>): seq<byte> {
    Varint(|x| % U32) + x
  }

  function Body(p: Payload): seq<byte>
    decreases p
  {
    match p
    case Number(n) => Varint(n)
    case Double(bits) => FixedBytes(bits.lo) + FixedBytes(bits.hi)
    case Single(w) => FixedBytes(w)
    case Blob(x) => Delimited(x)
    case Packed(items) => Delimited(Bodies(items))
    case Entry(k, v) => Delimited(Varint(10) + Delimited(k) + Varint(16 + WireType(v)) + Body(v))
    case Sub(recs) => Delimited(Print(recs))
    case Group(recs) => Print(recs)
  }

  function Bodies(items: seq<Payload>): seq<byte>
    decreases items
  {
    if items == [] then [] else Body(items[0]) + Bodies(items[1..])
  }

  function EndTag(r: Rec): seq<byte> {
    if r.p.Group? then Varint(r.id * 8 + 4) else []
  }

  function PrintRec(r: Rec): seq<byte>
    decreases r
  {
    Varint(r.id * 8 + WireType(r.p)) + (Body(r.p) + EndTag(r))
  }

  function Print(recs: seq<Rec>): seq<byte>
    decreases recs
  {
    if recs == [] then [] else PrintRec(recs[0]) + Print(recs[1..])
  }

  /** Tags, numbers and lengths fit the width they are written in. */
  predicate Sized(p: Payload)
    decreases p
  {
    match p
    case Number(n) => n < U32 * U32
    case Double(_) => true
    case Single(_) => true
    case Blob(x) => |x| < U32
    case Packed(items) =>
      |Bodies(items)| < U32 && AllItemsSized(items)
    case Entry(k, v) => |Body(p)| < U32 && Sized(v) && !v.Group?
    case Sub(recs) => |Print(recs)| < U32 && AllSized(recs)
    case Group(recs) => AllSized(recs)
  }

  predicate AllSized(recs: seq<Rec>)
    decreases recs
  {
    recs == [] || (SizedRec(recs[0]) && AllSized(recs[1..]))
  }

  predicate AllItemsSized(items: seq<Payload>)
    decreases items
  {
    items == [] || (Sized(items[0]) && !items[0].Group? && AllItemsSized(items[1..]))
  }

  predicate SizedRec(r: Rec)
    decreases r
  {
    r.id < 0x2000_0000 && Sized(r.p)
  }

  /** A tag read back: the field id and the wire type. */
  lemma ReadTag(b: seq<byte>, p: nat, id: nat, w: nat)
    requires id < 0x2000_0000 && w < 8
    requires At(b, p, Varint(id * 8 + w))
    ensures ReadUint32(b, p) == Ok(id * 8 + w, p + |Varint(id * 8 + w)|)
    ensures (id * 8 + w) / 8 == id && (id * 8 + w) % 8 == w
  {
    hide ReadUint32, Varint, At;
    ReadUint32Short(b, p, id * 8 + w);
  }

  function Tag(r: Rec): seq<byte> {
    Varint(r.id * 8 + WireType(r.p))
  }

  function Content(r: Rec): seq<byte> {
    Body(r.p) + EndTag(r)
  }

  /** The first record of a printed sequence, in place. */
  lemma AtPrint(b: seq<byte>, p: nat, recs: seq<Rec>, tail: seq<byte>)
    requires recs != [] && At(b, p, Print(recs) + tail)
    ensures At(b, p, Tag(recs[0])) && At(b, p + |Tag(recs[0])|, Content(recs[0]))
    ensures At(b, p + |Tag(recs[0])| + |Content(recs[0])|, Print(recs[1..]) + tail)
    ensures |Print(recs)| == |Tag(recs[0])| + |Content(recs[0])| + |Print(recs[1..])|
  {
    hide *;
    var tag, body, rest := Tag(recs[0]), Content(recs[0]), Print(recs[1..]);
    PrintParts(recs);
    Associate(tag + body, rest, tail);
    Associate(tag, body, rest + tail);
    AtSplit(b, p, tag, body + (rest + tail));
    AtSplit(b, p + |tag|, body, rest + tail);
  }

  lemma PrintParts(recs: seq<Rec>)
    requires recs != []
    ensures Print(recs) == (Tag(recs[0]) + Content(recs[0])) + Print(recs[1..])
  {
    hide Body, EndTag, WireType, Varint;
  }

  lemma SizedParts(recs: seq<Rec>)
    requires recs != [] && AllSized(recs)
    ensures recs[0].id < 0x2000_0000 && Sized(recs[0].p) && AllSized(recs[1..])
  {
    hide Sized;
  }

  /** Skipping consumes exactly one record's payload, groups with all they nest included. */
  lemma {:induction false} SkipOnBody(b: seq<byte>, p: nat, r: Rec)
    requires r.id < 0x2000_0000 && Sized(r.p)
    requires At(b, p, Body(r.p) + EndTag(r))
    ensures SkipType(b, p, WireType(r.p)) == Ok((), p + |Body(r.p) + EndTag(r)|)
    decreases r, 0
  {
    AtSplit(b, p, Body(r.p), EndTag(r));
    match r.p
    case Number(n) =>
      SkipVarintOnVarint(b, p, n);
    case Double(_) =>
    case Single(_) =>
    case Group(recs) =>
      SkipOnGroup(b, p, recs, r.id);
    case Blob(x) =>
      SkipDelimited(b, p, x);
    case Packed(items) =>
      SkipDelimited(b, p, Bodies(items));
    case Entry(k, v) =>
      SkipDelimited(b, p, Varint(10) + Delimited(k) + Varint(16 + WireType(v)) + Body(v));
    case Sub(recs) =>
      SkipDelimited(b, p, Print(recs));
  }

  lemma SkipDelimited(b: seq<byte>, p: nat, x: seq<byte>)
    requires |x| < U32
    requires At(b, p, Delimited(x))
    ensures SkipType(b, p, 2) == Ok((), p + |Delimited(x)|)
  {
    hide ReadUint32;
    AtSplit(b, p, Varint(|x|), x);
    ReadUint32Short(b, p, |x|);
  }

  /** One turn of the group loop. */
  lemma SkipGroupStep(b: seq<byte>, p: nat, r: Rec)
    requires r.id < 0x2000_0000
    requires At(b, p, Tag(r))
    ensures SkipGroup(b, p) ==
            var s := SkipType(b, p + |Tag(r)|, WireType(r.p)); if s.Throw? then Throw else SkipGroup(b, s.pos)
  {
    hide SkipType, Varint, At, ReadUint32;
    ReadTag(b, p, r.id, WireType(r.p));
  }

  lemma SkipGroupEnd(b: seq<byte>, p: nat, id: nat)
    requires id < 0x2000_0000
    requires At(b, p, Varint(id * 8 + 4))
    ensures SkipGroup(b, p) == Ok((), p + |Varint(id * 8 + 4)|)
  {
    hide Varint, At, ReadUint32;
    ReadTag(b, p, id, 4);
  }

  lemma {:induction false} SkipOnGroup(b: seq<byte>, p: nat, recs: seq<Rec>, id: nat)
    requires AllSized(recs) && id < 0x2000_0000
    requires At(b, p, Print(recs) + Varint(id * 8 + 4))
    ensures SkipGroup(b, p) == Ok((), p + |Print(recs)| + |Varint(id * 8 + 4)|)
    decreases recs, 1
  {
    hide *;
    var end := Varint(id * 8 + 4);
    if recs == [] {
      PrintNothing(end);
      SkipGroupEnd(b, p, id);
    } else {
      var r := recs[0];
      SizedParts(recs);
      var q := p + |Tag(r)|;
      AtPrint(b, p, recs, end);
      SkipGroupStep(b, p, r);
      ContentIs(r);
      SkipOnBody(b, q, r);
      SkipOnGroup(b, q + |Content(r)|, recs[1..], id);
    }
  }

  lemma PrintNothing(tail: seq<byte>)
    ensures Print([]) == [] && Print([]) + tail == tail
  {
  }

  lemma ContentIs(r: Rec)
    ensures Content(r) == Body(r.p) + EndTag(r)
  {
  }
}
