/** The generated `decode`: a schema interpreter driving a Reader. */
module Decoder {
  import opened Words
  import opened Reading
  import opened LongBitsModel
  import opened Schemas
  import opened Decoding
  import opened ReaderModel
  import Utf8

  /** `r.t()` */
  method ReadBasic(t: Scalar, r: Reader) returns (v: Outcome<Value>)
    requires r.Valid()
    modifies r
    ensures v == ReadScalar(t, r.buf, old(r.pos)) && (v.Ok? ==> r.Valid() && r.pos == v.pos)
  {
    hide ReadUint32, ReadLong, ReadFixed32, ReadFixed64, ReadBytes, Utf8.Decode;
    match t
    case Int32 => var x := r.Int32(); v := if x.Ok? then Ok(Signed(x.v), x.pos) else Throw;
    case Uint32 => var x := r.Uint32(); v := if x.Ok? then Ok(Unsigned(x.v), x.pos) else Throw;
    case Sint32 => var x := r.Sint32(); v := if x.Ok? then Ok(Signed(x.v), x.pos) else Throw;
    case Bool => var x := r.Bool(); v := if x.Ok? then Ok(Flag(x.v), x.pos) else Throw;
    case Int64 => v := ReadWide(r);
    case Uint64 => v := ReadWide(r);
    case Sint64 =>
      var x := r.LongVarint();
      if x.Throw? {
        return Throw;
      }
      x.v.ZzDecode();
      v := Ok(Wide(x.v.Pair()), x.pos);
    case Fixed32 => var x := r.Fixed32(); v := if x.Ok? then Ok(Unsigned(x.v), x.pos) else Throw;
    case Sfixed32 => var x := r.Fixed32(); v := if x.Ok? then Ok(Signed(ToInt32(x.v)), x.pos) else Throw;
    case Fixed64 => var x := r.Fixed64(); v := if x.Ok? then Ok(Wide(x.v), x.pos) else Throw;
    case Sfixed64 => var x := r.Fixed64(); v := if x.Ok? then Ok(Wide(x.v), x.pos) else Throw;
    case String => var x := r.String(); v := if x.Ok? then Ok(Str(x.v), x.pos) else Throw;
    case Bytes => var x := r.Bytes(); v := if x.Ok? then Ok(Raw(x.v), x.pos) else Throw;
  }

  /** Reader.int64 and Reader.uint64 */
  method ReadWide(r: Reader) returns (v: Outcome<Value>)
    requires r.Valid()
    modifies r
    ensures var l := ReadLong(r.buf, old(r.pos)); v == if l.Ok? then Ok(Wide(l.v), l.pos) else Throw
    ensures v.Ok? ==> r.Valid() && r.pos == v.pos
  {
    hide ReadLong;
    var x := r.LongVarint();
    v := if x.Ok? then Ok(Wide(x.v.Pair()), x.pos) else Throw;
  }

  /** `while (r.pos < c2) m.f.push(r.t())` */
  method ReadBlock(t: Scalar, r: Reader, c: nat) returns (vs: Outcome<seq<Value>>)
    requires r.Valid()
    modifies r
    ensures vs == ReadPacked(t, r.buf, old(r.pos), c) && (vs.Ok? ==> r.Valid() && r.pos == vs.pos)
  {
    hide ReadScalar;
    var items := [];
    ghost var start := r.pos;
    NothingPushed(t, r.buf, start, c);
    while r.pos < c
      invariant r.Valid() && start <= r.pos
      invariant ReadPacked(t, r.buf, start, c) ==
                var rest := ReadPacked(t, r.buf, r.pos, c); if rest.Ok? then Ok(items + rest.v, rest.pos) else Throw
      decreases Left(r.buf, r.pos)
    {
      ghost var p, before := r.pos, items;
      var v := ReadBasic(t, r);
      PackedTurn(t, r.buf, p, c, items);
      if v.Throw? {
        return Throw;
      }
      items := items + [v.v];
    }
    assert items + [] == items;
    vs := Ok(items, r.pos);
  }

  lemma NothingPushed(t: Scalar, b: seq<byte>, p: nat, c: nat)
    requires p <= |b| + 1
    ensures var now := ReadPacked(t, b, p, c); now.Ok? ==> [] + now.v == now.v
  {
  }

  /** One turn of the packed loop, with what was pushed so far in front. */
  lemma PackedTurn(t: Scalar, b: seq<byte>, p: nat, c: nat, items: seq<Value>)
    requires p < c && p <= |b| + 1
    ensures var v := ReadScalar(t, b, p); var now := ReadPacked(t, b, p, c);
            if v.Throw? then now.Throw?
            else
              var rest := ReadPacked(t, b, v.pos, c);
              if rest.Throw? then now.Throw?
              else now.Ok? && now.pos == rest.pos && items + now.v == (items + [v.v]) + rest.v
  {
    hide ReadScalar;
  }

  method ReadNested(schema: Schema, k: Kind, r: Reader) returns (v: Outcome<Value>)
    requires r.Valid()
    modifies r
    ensures v == ReadValue(schema, k, r.buf, old(r.pos)) && (v.Ok? ==> r.Valid() && r.pos == v.pos)
    decreases Left(r.buf, r.pos), 3
  {
    hide ReadScalar, ReadDelimited, DecodeMessage;
    match k
    case Basic(t) => v := ReadBasic(t, r);
    case Nested(i) =>
      if TypeAt(schema, i).group {
        v := DecodeAt(schema, i, r, r.len);
      } else {
        v := ReadSized(schema, i, r);
      }
  }

  /** `types[i].decode(r, r.uint32())` */
  method ReadSized(schema: Schema, i: nat, r: Reader) returns (v: Outcome<Value>)
    requires r.Valid()
    modifies r
    ensures v == ReadDelimited(schema, i, r.buf, old(r.pos)) && (v.Ok? ==> r.Valid() && r.pos == v.pos)
    decreases Left(r.buf, r.pos), 2
  {
    hide ReadUint32, DecodeMessage;
    var n := r.Uint32();
    if n.Throw? {
      return Throw;
    }
    v := DecodeAt(schema, i, r, r.pos + n.v);
  }

  method ReadMapEntry(schema: Schema, k: Kind, r: Reader) returns (e: Outcome<KeyValue>)
    requires r.Valid()
    modifies r
    ensures e == ReadEntry(schema, k, r.buf, old(r.pos)) && (e.Ok? ==> r.Valid() && r.pos == e.pos)
    decreases Left(r.buf, r.pos), 4
  {
    hide ReadScalar, ReadDelimited, DecodeMessage, SkipVarint, ReadBytes, Utf8.Decode;
    var s := r.Skip();
    if s.Throw? {
      return Throw;
    }
    r.pos := r.pos + 1;
    var key := r.String();
    if key.Throw? {
      return Throw;
    }
    r.pos := r.pos + 1;
    var v: Outcome<Value>;
    match k {
      case Basic(t) => v := ReadBasic(t, r);
      case Nested(i) => v := ReadSized(schema, i, r);
    }
    e := if v.Ok? then Ok(KeyValue(key.v, v.v), v.pos) else Throw;
  }

  /** The case of one field. */
  method DecodeCase(schema: Schema, f: Field, r: Reader, wire: nat, m: Message) returns (m': Outcome<Message>)
    requires r.Valid()
    modifies r
    ensures m' == DecodeField(schema, f, r.buf, old(r.pos), wire, m) && (m'.Ok? ==> r.Valid() && r.pos == m'.pos)
    decreases Left(r.buf, r.pos), 5
  {
    hide ReadScalar, ReadUint32, ReadPacked, ReadEntry, ReadValue;
    match f.rule
    case StringMap =>
      var e := ReadMapEntry(schema, f.kind, r);
      m' := if e.Ok? then Ok(Put(m, f.id, e.v.key, e.v.v), e.pos) else Throw;
    case Repeated(_) =>
      if f.kind.Basic? && Packable(f.kind.t) && wire == 2 {
        var n := r.Uint32();
        if n.Throw? {
          return Throw;
        }
        var vs := ReadBlock(f.kind.t, r, r.pos + n.v);
        m' := if vs.Ok? then Ok(PushAll(m, f.id, vs.v), vs.pos) else Throw;
      } else {
        var v := ReadNested(schema, f.kind, r);
        m' := if v.Ok? then Ok(PushAll(m, f.id, [v.v]), v.pos) else Throw;
      }
    case _ =>
      var v := ReadNested(schema, f.kind, r);
      m' := if v.Ok? then Ok(Set(m, f.id, One(v.v)), v.pos) else Throw;
  }

  /** The generated function of one type. It returns or throws on every buffer. */
  method DecodeAt(schema: Schema, i: nat, r: Reader, c: nat) returns (v: Outcome<Value>)
    requires r.Valid()
    modifies r
    ensures v == DecodeMessage(schema, i, r.buf, old(r.pos), c) && (v.Ok? ==> r.Valid() && r.pos == v.pos)
    decreases Left(r.buf, r.pos), 1
  {
    hide ReadUint32, DecodeTagged, DecodeField, Misses, SkipType;
    var m := Initial(schema, i);
    ghost var start, m0 := r.pos, m;
    var ended := false;
    while r.pos < c && !ended
      invariant r.Valid() && start <= r.pos
      invariant DecodeFields(schema, i, r.buf, start, c, m0) ==
                if ended then Ok(m, r.pos) else DecodeFields(schema, i, r.buf, r.pos, c, m)
      decreases if ended then 0 else Left(r.buf, r.pos) + 1
    {
      ghost var p := r.pos;
      var tag := r.Uint32();
      if tag.Throw? {
        return Throw;
      }
      if TypeAt(schema, i).group && tag.v % 8 == 4 {
        ended := true;
      } else {
        var m' := DecodeOne(schema, i, r, tag.v, m);
        if m'.Throw? {
          return Throw;
        }
        m := m'.v;
      }
    }
    if MissesRequired(schema, i, m) {
      return Throw;
    }
    v := Ok(Msg(m), r.pos);
  }

  /** The `switch` on the field id. */
  method DecodeOne(schema: Schema, i: nat, r: Reader, tag: nat, m: Message) returns (m': Outcome<Message>)
    requires r.Valid()
    modifies r
    ensures m' == DecodeTagged(schema, i, r.buf, old(r.pos), tag, m) && (m'.Ok? ==> r.Valid() && r.pos == m'.pos)
    decreases Left(r.buf, r.pos), 6
  {
    hide DecodeField, SkipType;
    match Find(TypeAt(schema, i).fields, tag / 8)
    case Some(f) => m' := DecodeCase(schema, f, r, tag % 8, m);
    case None =>
      var s := r.SkipOfType(tag % 8);
      m' := if s.Ok? then Ok(m, s.pos) else Throw;
  }

  /** The presence checks behind the loop. */
  predicate MissesRequired(schema: Schema, i: nat, m: Message)
    ensures MissesRequired(schema, i, m) <==> Misses(schema, i, m)
  {
    exists k :: 0 <= k < |TypeAt(schema, i).fields|
                && TypeAt(schema, i).fields[k].rule.Required? && TypeAt(schema, i).fields[k].id !in m.props
  }

  /** `Type.decode(buffer)` */
  method DecodeBuffer(schema: Schema, i: nat, buffer: seq<byte>) returns (v: Outcome<Value>)
    ensures v == Decode(schema, i, buffer)
  {
    hide DecodeMessage;
    var r := new Reader(buffer);
    v := DecodeAt(schema, i, r, r.len);
  }
}
