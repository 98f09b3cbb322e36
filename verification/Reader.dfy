/** The `Reader`: a cursor over a buffer, each method proved against its reading function. */
module ReaderModel {
  import opened Words
  import opened Varints
  import opened Reading
  import opened LongBitsModel
  import opened Schemas
  import opened Decoding
  import Utf8

  /** `this.buf[p] & 127` and `this.buf[p] < 128` with the JavaScript reading of a missing byte. */
  class Reader {
    const buf: seq<byte>
    const len: nat
    var pos: nat

    constructor (buffer: seq<byte>)
      ensures buf == buffer && pos == 0 && Valid()
    {
      buf, len, pos := buffer, |buffer|, 0;
    }

    predicate Valid()
      reads this
    {
      len == |buf| && pos <= len + 1
    }

    /** Reader.uint32 */
    method Uint32() returns (r: Outcome<u32>)
      requires len == |buf|
      modifies this
      ensures r == ReadUint32(buf, old(pos)) && (r.Ok? ==> pos == r.pos)
    {
      hide Or;
      ghost var p := pos;
      var value := Low7(buf, pos);
      if Ends(buf, pos) { pos := pos + 1; return Ok(value, pos); }
      pos := pos + 1;
      Field7(value, Low7(buf, pos));
      value := Or(value, Low7(buf, pos) * 0x80);
      if Ends(buf, pos) { pos := pos + 1; return Ok(value, pos); }
      pos := pos + 1;
      Field14(value, Low7(buf, pos));
      value := Or(value, Low7(buf, pos) * 0x4000);
      if Ends(buf, pos) { pos := pos + 1; return Ok(value, pos); }
      pos := pos + 1;
      Field21(value, Low7(buf, pos));
      value := Or(value, Low7(buf, pos) * 0x20_0000);
      if Ends(buf, pos) { pos := pos + 1; return Ok(value, pos); }
      pos := pos + 1;
      Field28(value, Low7(buf, pos) % 16);
      value := Or(value, Low7(buf, pos) % 16 * 0x1000_0000);
      if Ends(buf, pos) { pos := pos + 1; return Ok(value, pos); }
      pos := pos + 1;
      pos := pos + 5;
      if pos > len {
        pos := len;
        return Throw;
      }
      r := Ok(value, pos);
    }

    /** Reader.int32 */
    method Int32() returns (r: Outcome<i32>)
      requires len == |buf|
      modifies this
      ensures var u := ReadUint32(buf, old(pos)); r == if u.Ok? then Ok(ToInt32(u.v), u.pos) else Throw
      ensures r.Ok? ==> pos == r.pos
    {
      hide ReadUint32;
      var u := Uint32();
      r := if u.Ok? then Ok(ToInt32(u.v), u.pos) else Throw;
    }

    /** Reader.sint32: `value >>> 1 ^ -(value & 1) | 0` */
    method Sint32() returns (r: Outcome<i32>)
      requires len == |buf|
      modifies this
      ensures var u := ReadUint32(buf, old(pos)); r == if u.Ok? then Ok(Unzigzag(u.v), u.pos) else Throw
      ensures r.Ok? ==> pos == r.pos
    {
      hide ReadUint32, Xor;
      var u := Uint32();
      if u.Throw? {
        return Throw;
      }
      var mask := LongBits.Mask(u.v % 2 != 0);
      XorMask(u.v / 2, mask);
      r := Ok(ToInt32(Xor(u.v / 2, mask)), u.pos);
    }

    /** Reader.bool */
    method Bool() returns (r: Outcome<bool>)
      requires len == |buf|
      modifies this
      ensures var u := ReadUint32(buf, old(pos)); r == if u.Ok? then Ok(u.v != 0, u.pos) else Throw
      ensures r.Ok? ==> pos == r.pos
    {
      hide ReadUint32;
      var u := Uint32();
      r := if u.Ok? then Ok(u.v != 0, u.pos) else Throw;
    }

    /** readLongVarint */
    method LongVarint() returns (r: Outcome<LongBits>)
      requires len == |buf|
      modifies this
      ensures var l := ReadLong(buf, old(pos)); r.Ok? == l.Ok?
      ensures r.Ok? ==> fresh(r.v) && Ok(r.v.Pair(), r.pos) == ReadLong(buf, old(pos)) && pos == r.pos
    {
      hide Or, ReadLong, Ends, Low7, Lift, LiftLow, Partial;
      ghost var p := pos;
      var bits := new LongBits(0, 0);
      NoneYet(buf, p);
      if pos + 4 < len {
        var i := 0;
        while i < 4
          invariant 0 <= i <= 4 && pos == p + i
          invariant bits.hi == 0 && bits.lo == Partial(buf, p, i)
          invariant NoneEnds(buf, p, i)
        {
          OrLow(buf, p, i);
          bits.lo := Or(bits.lo, LiftLow(Low7(buf, pos), i));
          var ends := Ends(buf, pos);
          pos := pos + 1;
          if ends {
            EndsLow(buf, p, i);
            return Ok(bits, pos);
          }
          i := i + 1;
        }
        OrLow(buf, p, 4);
        bits.lo := Or(bits.lo, LiftLow(Low7(buf, pos), 4));
        bits.hi := Or(bits.hi, Low7(buf, pos) / 16);
        var ends := Ends(buf, pos);
        FifthByte(buf, p);
        pos := pos + 1;
        if ends {
          return Ok(bits, pos);
        }
        r := LongVarintHigh(bits);
      } else {
        r := LongVarintShort(bits);
      }
    }

    /** readLongVarint with at most four bytes left. */
    method LongVarintShort(bits: LongBits) returns (r: Outcome<LongBits>)
      requires len == |buf| && pos + 4 >= len && bits.lo == 0 && bits.hi == 0
      modifies this, bits
      ensures var l := ReadLong(buf, old(pos)); r.Ok? == l.Ok?
      ensures r.Ok? ==> r.v == bits && Ok(bits.Pair(), r.pos) == ReadLong(buf, old(pos)) && pos == r.pos
    {
      hide Or, ReadLong, Ends, Low7, LiftLow, Partial;
      ghost var p := pos;
      NoneYet(buf, p);
      var i := 0;
      while i < 3
        invariant 0 <= i <= 3 && pos == p + i
        invariant bits.hi == 0 && bits.lo == Partial(buf, p, i)
        invariant NoneEnds(buf, p, i) && (i > 0 ==> p + i <= len)
      {
        if pos >= len {
          ShortThrow(buf, p, i);
          return Throw;
        }
        OrLow(buf, p, i);
        bits.lo := Or(bits.lo, LiftLow(Low7(buf, pos), i));
        var ends := Ends(buf, pos);
        pos := pos + 1;
        if ends {
          EndsLow(buf, p, i);
          return Ok(bits, pos);
        }
        i := i + 1;
      }
      OrLow(buf, p, i);
      bits.lo := Or(bits.lo, LiftLow(Low7(buf, pos), i));
      ShortFourth(buf, p);
      pos := pos + 1;
      r := Ok(bits, pos);
    }

    /** The second half of readLongVarint: bytes six to ten, with a bounds check on each when
        fewer than five are left. */
    method LongVarintHigh(bits: LongBits) returns (r: Outcome<LongBits>)
      requires len == |buf| && bits.hi < 8
      modifies this, bits
      ensures var l := LongTail(buf, old(pos), 0, old(bits.Pair())); r.Ok? == l.Ok?
      ensures r.Ok? ==>
                r.v == bits && Ok(bits.Pair(), r.pos) == LongTail(buf, old(pos), 0, old(bits.Pair())) && pos == r.pos
    {
      hide Or, Low7, Lift;
      ghost var tail := LongTail(buf, pos, 0, bits.Pair());
      ghost var start := pos;
      var checked := pos + 4 >= len;
      var i := 0;
      while i < 5
        invariant 0 <= i <= 5 && pos == start + i
        invariant !checked ==> start + 4 < len
        invariant i < 5 ==> bits.hi < HighLimit(i)
        invariant tail == LongTail(buf, pos, i, bits.Pair())
      {
        if checked && pos >= len {
          return Throw;
        }
        OrHigh(bits.hi, Low7(buf, pos), i);
        bits.hi := Or(bits.hi, Lift(Low7(buf, pos), i) % U32);
        var ends := Ends(buf, pos);
        pos := pos + 1;
        if ends {
          return Ok(bits, pos);
        }
        i := i + 1;
      }
      r := Throw;
    }

    /** readFixed32_end */
    method FixedEnd(end: nat) returns (r: u32)
      requires 4 <= end <= |buf|
      ensures r == Word(buf, end - 4)
    {
      hide OrBytes;
      r := OrBytes(buf[end - 4], buf[end - 3], buf[end - 2], buf[end - 1]);
    }

    /** Reader.fixed32 */
    method Fixed32() returns (r: Outcome<u32>)
      requires len == |buf|
      modifies this
      ensures r == ReadFixed32(buf, old(pos)) && (r.Ok? ==> pos == r.pos)
    {
      hide Word, Or;
      if pos + 4 > len {
        return Throw;
      }
      pos := pos + 4;
      var n := FixedEnd(pos);
      r := Ok(n, pos);
    }

    /** readFixed64 */
    method Fixed64() returns (r: Outcome<Long>)
      requires len == |buf|
      modifies this
      ensures r == ReadFixed64(buf, old(pos)) && (r.Ok? ==> pos == r.pos)
    {
      hide Word, Or;
      if pos + 8 > len {
        return Throw;
      }
      pos := pos + 4;
      var lo := FixedEnd(pos);
      pos := pos + 4;
      var hi := FixedEnd(pos);
      r := Ok(Long(lo, hi), pos);
    }

    /** Reader.bytes */
    method Bytes() returns (r: Outcome<seq<byte>>)
      requires len == |buf|
      modifies this
      ensures r == ReadBytes(buf, old(pos)) && (r.Ok? ==> pos == r.pos)
    {
      hide ReadUint32;
      var n := Uint32();
      if n.Throw? {
        return Throw;
      }
      var start, end := pos, pos + n.v;
      if end > len {
        return Throw;
      }
      pos := pos + n.v;
      r := Ok(buf[start..end], pos);
    }

    /** Reader.string */
    method String() returns (r: Outcome<Utf8.Text>)
      requires len == |buf|
      modifies this
      ensures var x := ReadBytes(buf, old(pos)); r == if x.Ok? then Ok(Utf8.Decode(x.v), x.pos) else Throw
      ensures r.Ok? ==> pos == r.pos
    {
      hide ReadBytes;
      var x := Bytes();
      if x.Throw? {
        return Throw;
      }
      var s := Utf8.Read(x.v);
      r := Ok(s, x.pos);
    }

    /** Reader.skip with a length. */
    method SkipBy(n: nat) returns (r: Outcome<()>)
      requires len == |buf|
      modifies this
      ensures r == SkipBytes(buf, old(pos), n) && (r.Ok? ==> pos == r.pos)
    {
      if pos + n > len {
        return Throw;
      }
      pos := pos + n;
      r := Ok((), pos);
    }

    /** Reader.skip without one. */
    method Skip() returns (r: Outcome<()>)
      requires len == |buf|
      modifies this
      ensures r == SkipVarint(buf, old(pos)) && (r.Ok? ==> pos == r.pos)
    {
      var more := true;
      while more
        invariant more ==> SkipVarint(buf, pos) == SkipVarint(buf, old(pos))
        invariant !more ==> SkipVarint(buf, old(pos)) == Ok((), pos)
        decreases more, if pos <= len then len - pos + 1 else 0
      {
        if pos >= len {
          return Throw;
        }
        more := buf[pos] >= 128;
        pos := pos + 1;
      }
      r := Ok((), pos);
    }

    /** Reader.skipType */
    method SkipOfType(wireType: nat) returns (r: Outcome<()>)
      requires len == |buf|
      modifies this
      ensures r == SkipType(buf, old(pos), wireType) && (r.Ok? ==> pos == r.pos)
      decreases Left(buf, pos)
    {
      hide ReadUint32, SkipVarint, SkipBytes;
      if wireType == 0 {
        r := Skip();
      } else if wireType == 1 {
        r := SkipBy(8);
      } else if wireType == 2 {
        var n := Uint32();
        if n.Throw? {
          return Throw;
        }
        r := SkipBy(n.v);
      } else if wireType == 3 {
        ghost var start := pos;
        var tag := Uint32();
        while tag.Ok? && tag.v % 8 != 4
          invariant tag.Ok? ==> start < pos <= |buf| && tag.pos == pos
          invariant SkipGroup(buf, start) ==
                    if tag.Throw? then Throw else if tag.v % 8 == 4 then Ok((), pos) else AfterTag(buf, pos, tag.v % 8)
          decreases if tag.Ok? then Left(buf, pos) + 1 else 0
        {
          ghost var p := pos;
          var s := SkipOfType(tag.v % 8);
          if s.Throw? {
            return Throw;
          }
          tag := Uint32();
        }
        if tag.Throw? {
          return Throw;
        }
        r := Ok((), pos);
      } else if wireType == 5 {
        r := SkipBy(4);
      } else {
        r := Throw;
      }
    }
  }

  /** The rest of a group behind the tag of one of its records. */
  function AfterTag(b: seq<byte>, p: nat, wire: nat): Outcome<()> {
    var (_, q) :- SkipType(b, p, wire);
    SkipGroup(b, q)
  }

  function OrBytes(b0: byte, b1: byte, b2: byte, b3: byte): (r: u32)
    ensures r == b0 as int + b1 as int * 0x100 + b2 as int * 0x1_0000 + b3 as int * 0x100_0000
  {
    OrBytesAdd(b0, b1, b2, b3);
    Or(Or(Or(b0, b1 as int * 0x100), b2 as int * 0x1_0000), b3 as int * 0x100_0000)
  }

  lemma OrBytesAdd(b0: byte, b1: byte, b2: byte, b3: byte)
    ensures Or(Or(Or(b0, b1 as int * 0x100), b2 as int * 0x1_0000), b3 as int * 0x100_0000)
            == b0 as int + b1 as int * 0x100 + b2 as int * 0x1_0000 + b3 as int * 0x100_0000
  {
    hide Or;
    ByteWeights();
    OrAdds(b0, b1, 8);
    OrAdds(b0 as int + b1 as int * 0x100, b2, 16);
    OrAdds(b0 as int + b1 as int * 0x100 + b2 as int * 0x1_0000, b3, 24);
  }

  lemma ByteWeights()
    ensures Pow2(8) == 0x100 && Pow2(16) == 0x1_0000 && Pow2(24) == 0x100_0000
  {
  }

  lemma Field7(v: nat, g: nat)
    requires v < 0x80
    ensures Or(v, g * 0x80) == v + g * 0x80
  {
    Pow2Values();
    OrAdds(v, g, 7);
  }

  lemma Field14(v: nat, g: nat)
    requires v < 0x4000
    ensures Or(v, g * 0x4000) == v + g * 0x4000
  {
    Pow2Values();
    OrAdds(v, g, 14);
  }

  lemma Field21(v: nat, g: nat)
    requires v < 0x20_0000
    ensures Or(v, g * 0x20_0000) == v + g * 0x20_0000
  {
    Pow2Values();
    OrAdds(v, g, 21);
  }

  lemma Field28(v: nat, g: nat)
    requires v < 0x1000_0000
    ensures Or(v, g * 0x1000_0000) == v + g * 0x1000_0000
  {
    Pow2Values();
    OrAdds(v, g, 28);
  }

  /** `g << i * 7` cut to 32 bits. */
  function LiftLow(g: nat, i: nat): (r: u32)
    requires g < 128 && i <= 4
  {
    if i == 0 then g else if i == 1 then g * 0x80 else if i == 2 then g * 0x4000
    else if i == 3 then g * 0x20_0000 else g % 16 * 0x1000_0000
  }

  /** The low word after i bytes. */
  function Partial(b: seq<byte>, p: nat, i: nat): (r: u32)
    requires i <= 5
    ensures r < LowLimit(i)
  {
    if i == 0 then 0 else Partial(b, p, i - 1) + LiftLow(Low7(b, p + i - 1), i - 1)
  }

  predicate NoneEnds(b: seq<byte>, p: nat, i: nat) {
    i == 0 || (NoneEnds(b, p, i - 1) && !Ends(b, p + i - 1))
  }

  function LowLimit(i: nat): nat {
    if i == 0 then 1 else if i == 1 then 0x80 else if i == 2 then 0x4000
    else if i == 3 then 0x20_0000 else if i == 4 then 0x1000_0000 else U32
  }

  lemma OrLow(b: seq<byte>, p: nat, i: nat)
    requires i <= 4
    ensures Or(Partial(b, p, i), LiftLow(Low7(b, p + i), i)) == Partial(b, p, i + 1) < U32
  {
    hide Or;
    var v, g := Partial(b, p, i), Low7(b, p + i);
    if i == 0 {
      OrFromZero(g);
    } else if i == 1 {
      Field7(v, g);
    } else if i == 2 {
      Field14(v, g);
    } else if i == 3 {
      Field21(v, g);
    } else {
      Field28(v, g % 16);
    }
  }

  lemma OrFromZero(x: nat)
    ensures Or(0, x) == x
  {
  }

  lemma Partials(b: seq<byte>, p: nat)
    ensures Partial(b, p, 1) == Low7(b, p)
    ensures Partial(b, p, 2) == Partial(b, p, 1) + Low7(b, p + 1) * 0x80
    ensures Partial(b, p, 3) == Partial(b, p, 2) + Low7(b, p + 2) * 0x4000
    ensures Partial(b, p, 4) == Partial(b, p, 3) + Low7(b, p + 3) * 0x20_0000
    ensures Partial(b, p, 5) == Partial(b, p, 4) + Low7(b, p + 4) % 16 * 0x1000_0000 < U32
  {
    hide Low7;
    assert Partial(b, p, 0) == 0;
  }

  lemma NoneYet(b: seq<byte>, p: nat)
    ensures Partial(b, p, 0) == 0 && NoneEnds(b, p, 0)
  {
  }

  lemma NoneEndsUpTo(b: seq<byte>, p: nat, i: nat)
    requires NoneEnds(b, p, i)
    ensures i > 0 ==> !Ends(b, p + i - 1) && NoneEnds(b, p, i - 1)
  {
  }

  lemma Unended(b: seq<byte>, p: nat, i: nat)
    requires NoneEnds(b, p, i) && i <= 4
    ensures (i > 0 ==> !Ends(b, p)) && (i > 1 ==> !Ends(b, p + 1))
    ensures (i > 2 ==> !Ends(b, p + 2)) && (i > 3 ==> !Ends(b, p + 3))
  {
    hide Ends;
    NoneEndsUpTo(b, p, i);
    if i > 1 { NoneEndsUpTo(b, p, i - 1); }
    if i > 2 { NoneEndsUpTo(b, p, i - 2); }
    if i > 3 { NoneEndsUpTo(b, p, i - 3); }
  }

  lemma EndsLow(b: seq<byte>, p: nat, i: nat)
    requires i < 4 && NoneEnds(b, p, i) && Ends(b, p + i) && (p + 4 < |b| || i < 3)
    ensures ReadLong(b, p) == Ok(Long(Partial(b, p, i + 1), 0), p + i + 1)
  {
    hide Low7, Partial;
    Partials(b, p);
    Unended(b, p, i);
  }

  lemma FifthByte(b: seq<byte>, p: nat)
    requires p + 4 < |b| && NoneEnds(b, p, 4)
    ensures Or(0, Low7(b, p + 4) / 16) == Low7(b, p + 4) / 16 < 8
    ensures var bits := Long(Partial(b, p, 5), Low7(b, p + 4) / 16);
            ReadLong(b, p) == if Ends(b, p + 4) then Ok(bits, p + 5) else LongTail(b, p + 5, 0, bits)
  {
    hide Low7, Partial, LongTail, Ends;
    OrFromZero(Low7(b, p + 4) / 16);
    Partials(b, p);
    Unended(b, p, 4);
  }

  lemma ShortThrow(b: seq<byte>, p: nat, i: nat)
    requires p + 4 >= |b| && i < 3 && p + i >= |b| && NoneEnds(b, p, i) && (i > 0 ==> p + i <= |b|)
    ensures ReadLong(b, p) == Throw
  {
    Unended(b, p, i);
  }

  lemma ShortFourth(b: seq<byte>, p: nat)
    requires p + 4 >= |b| && p + 3 <= |b| && NoneEnds(b, p, 3)
    ensures ReadLong(b, p) == Ok(Long(Partial(b, p, 4), 0), p + 4)
  {
    hide Low7, Partial;
    Partials(b, p);
    Unended(b, p, 3);
  }

  function HighLimit(i: nat): nat {
    if i == 0 then 8 else if i == 1 then 0x400 else if i == 2 then 0x2_0000 else if i == 3 then 0x100_0000
        else 0x8000_0000
  }

  /** The groups of the high word do not overlap either; the last one is cut to one bit. */
  lemma OrHigh(hi: u32, g: nat, i: nat)
    requires i < 5 && g < 128 && hi < HighLimit(i)
    ensures Or(hi, Lift(g, i) % U32) == (hi + Lift(g, i)) % U32 < U32
    ensures i < 4 ==> Or(hi, Lift(g, i) % U32) < HighLimit(i + 1)
  {
    hide Or;
    if i < 4 {
      hide Lift, HighLimit;
      OrHighWhole(hi, g, i);
      ModUnique(Lift(g, i), U32, 0, Lift(g, i));
      ModUnique(hi + Lift(g, i), U32, 0, hi + Lift(g, i));
    } else {
      LastGroup(hi, g);
    }
  }

  lemma OrHighWhole(hi: u32, g: nat, i: nat)
    requires i < 4 && g < 128 && hi < HighLimit(i)
    ensures Or(hi, Lift(g, i)) == hi + Lift(g, i) < HighLimit(i + 1) <= U32
    ensures Lift(g, i) < U32
  {
    hide Or, Pow2;
    HighWeights();
    OrAdds(hi, g, if i == 0 then 3 else if i == 1 then 10 else if i == 2 then 17 else 24);
  }

  lemma HighWeights()
    ensures Pow2(3) == 8 && Pow2(10) == 0x400 && Pow2(17) == 0x2_0000 && Pow2(24) == 0x100_0000
  {
  }

  lemma LastGroup(hi: u32, g: nat)
    requires g < 128 && hi < 0x8000_0000
    ensures Or(hi, g * 0x8000_0000 % U32) == (hi + g * 0x8000_0000) % U32
  {
    hide Or;
    Pow2Values();
    ModUnique(g * 0x8000_0000, U32, g / 2, g % 2 * 0x8000_0000);
    OrAdds(hi, g % 2, 31);
    ModUnique(hi + g * 0x8000_0000, U32, g / 2, hi + g % 2 * 0x8000_0000);
  }
}
