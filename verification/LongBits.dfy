/** `LongBits`: a 64-bit value as two unsigned words, updated in place. */
module LongBitsModel {
  import opened Words
  import opened Varints
  import opened Reading
  import opened Schemas

  const U64: int := U32 * U32

  /** The two's complement reading of 64 bits. */
  function Signed64(n: nat): int
    requires n < U64
  {
    if n < 0x8000_0000_0000_0000 then n else n - U64
  }

  class LongBits {
    var lo: u32
    var hi: u32

    constructor (lo: u32, hi: u32)
      ensures this.lo == lo && this.hi == hi
    {
      this.lo, this.hi := lo, hi;
    }

    function Pair(): Long
      reads this
    {
      Long(lo, hi)
    }

    function Value(): (r: nat)
      reads this
      ensures r < U64
    {
      Pair().Unsigned()
    }

    /** LongBits.fromNumber: the value modulo 2^64, negative numbers by complement and carry. */
    static method FromNumber(value: int) returns (bits: LongBits)
      ensures fresh(bits)
      ensures (bits.Value() - value) % U64 == 0
    {
      if value == 0 {
        bits := new LongBits(0, 0);
        return;
      }
      var sign := value < 0;
      var v := if sign then -value else value;
      var lo := v % U32;
      var hi := (v - lo) / U32 % U32;
      ghost var n := lo + hi * U32;
      assert (n - v) % U64 == 0 by { WordsOf(v); }
      if sign {
        hi := U32 - 1 - hi;
        lo := U32 - 1 - lo;
        lo := lo + 1;
        if lo > 4294967295 {
          lo := 0;
          hi := hi + 1;
          if hi > 4294967295 {
            hi := 0;
          }
        }
        ghost var m := lo + hi * U32;
        assert m == if n == 0 then 0 else U64 - n;
        Negated(n, m, v);
      }
      bits := new LongBits(lo, hi);
    }

    /** LongBits.toNumber: exact wherever JavaScript's arithmetic is. */
    function ToNumber(unsigned: bool): (r: int)
      reads this
      ensures r == if unsigned then Value() else Signed64(Value())
    {
      if !unsigned && hi / 0x8000_0000 != 0 then
        var lo' := (U32 - 1 - lo + 1) % U32;
        var hi0 := U32 - 1 - hi;
        var hi' := if lo' == 0 then (hi0 + 1) % U32 else hi0;
        -(lo' + hi' * U32)
      else lo + hi * U32
    }

    /** The mask of `hi >> 31`: all ones for a negative number. */
    static function Mask(negative: bool): (r: u32)
    {
      if negative then U32 - 1 else 0
    }

    /** LongBits.zzEncode */
    method ZzEncode()
      modifies this
      ensures Pair() == ZigzagLong(old(Pair()))
    {
      ghost var n := Value();
      var mask := Mask(hi / 0x8000_0000 != 0);
      ShiftPair(lo, hi);
      var hi' := Xor(Or(hi * 2 % U32, lo / 0x8000_0000), mask);
      var lo' := Xor(lo * 2 % U32, mask);
      XorMask(Or(hi * 2 % U32, lo / 0x8000_0000), mask);
      XorMask(lo * 2 % U32, mask);
      hi, lo := hi', lo';
      ZigzagWords(n, old(lo), old(hi), lo, hi);
    }

    /** LongBits.zzDecode */
    method ZzDecode()
      modifies this
      ensures Pair() == UnzigzagLong(old(Pair()))
    {
      ghost var n := Value();
      var mask := Mask(lo % 2 != 0);
      HalvePair(lo, hi);
      var lo' := Xor(Or(lo / 2, hi * 0x8000_0000 % U32), mask);
      var hi' := Xor(hi / 2, mask);
      XorMask(Or(lo / 2, hi * 0x8000_0000 % U32), mask);
      XorMask(hi / 2, mask);
      lo, hi := lo', hi';
      UnzigzagWords(n, old(lo), old(hi), lo, hi);
    }

    /** LongBits.length: exactly the bytes of the varint. */
    function Length(): (r: nat)
      reads this
      ensures r == |Varint(Value())|
    {
      var part0 := lo;
      var part1 := Or(lo / 0x1000_0000, hi * 0x10 % U32);
      var part2 := hi / 0x100_0000;
      LengthParts(lo, hi);
      if part2 == 0 then
        if part1 == 0 then
          if part0 < 16384 then
            if part0 < 128 then 1 else 2
          else if part0 < 2097152 then 3 else 4
        else if part1 < 16384 then
          if part1 < 128 then 5 else 6
        else if part1 < 2097152 then 7 else 8
      else if part2 < 128 then 9 else 10
    }
  }

  lemma WordsOf(v: nat)
    ensures (v % U32 + (v - v % U32) / U32 % U32 * U32 - v) % U64 == 0
  {
    DivMod(v, U32);
    ModSplit(v, U32, U32);
    assert (v - v % U32) / U32 == v / U32;
    DivMod(v, U64);
    MultipleOf(-(v / U64));
  }

  lemma MultipleOf(q: int)
    ensures (U64 * q) % U64 == 0
  {
  }

  lemma Negated(n: nat, m: nat, v: nat)
    requires n < U64 && m == (if n == 0 then 0 else U64 - n)
    requires (n - v) % U64 == 0
    ensures (m + v) % U64 == 0
  {
  }

  lemma XorMask(x: u32, mask: u32)
    requires mask == 0 || mask == U32 - 1
    ensures Xor(x, mask) == if mask == 0 then x else U32 - 1 - x
  {
    hide Xor;
    Pow2Values();
    XorZero(x);
    XorOnes(x, 32);
  }

  /** `hi << 1 | lo >>> 31` */
  lemma ShiftPair(lo: u32, hi: u32)
    ensures Or(hi * 2 % U32, lo / 0x8000_0000) == hi * 2 % U32 + lo / 0x8000_0000 < U32
  {
    hide Or;
    Pow2Values();
    DivMod(hi, 0x8000_0000);
    ModUnique(hi * 2, U32, hi / 0x8000_0000, hi % 0x8000_0000 * 2);
    OrAdds(lo / 0x8000_0000, hi % 0x8000_0000, 1);
  }

  lemma ZigzagWords(n: nat, lo: u32, hi: u32, lo': u32, hi': u32)
    requires n == lo + hi * U32
    requires var neg := hi / 0x8000_0000 != 0;
      && lo' == (if neg then U32 - 1 - lo * 2 % U32 else lo * 2 % U32)
      && hi' == (if neg then U32 - 1 - (hi * 2 % U32 + lo / 0x8000_0000) else hi * 2 % U32 + lo / 0x8000_0000)
    ensures Long(lo', hi') == ZigzagLong(Long(lo, hi))
  {
    var r := lo' + hi' * U32;
    DivMod(lo, 0x8000_0000);
    assert lo * 2 % U32 == lo * 2 - lo / 0x8000_0000 * U32;
    if hi < 0x8000_0000 {
      assert hi / 0x8000_0000 == 0 && hi * 2 % U32 == hi * 2;
      assert r == 2 * n;
    } else {
      assert hi / 0x8000_0000 == 1 && hi * 2 % U32 == hi * 2 - U32;
      assert r == 2 * (U64 - n) - 1;
    }
    ModUnique(r, U32, hi', lo');
  }

  /** `lo >>> 1 | hi << 31` */
  lemma HalvePair(lo: u32, hi: u32)
    ensures Or(lo / 2, hi * 0x8000_0000 % U32) == lo / 2 + hi % 2 * 0x8000_0000 < U32
  {
    hide Or;
    Pow2Values();
    DivMod(hi, 2);
    ModUnique(hi * 0x8000_0000, U32, hi / 2, hi % 2 * 0x8000_0000);
    OrAdds(lo / 2, hi % 2, 31);
  }

  lemma UnzigzagWords(n: nat, lo: u32, hi: u32, lo': u32, hi': u32)
    requires n == lo + hi * U32
    requires var odd := lo % 2 != 0; var l := lo / 2 + hi % 2 * 0x8000_0000;
      && lo' == (if odd then U32 - 1 - l else l)
      && hi' == (if odd then U32 - 1 - hi / 2 else hi / 2)
    ensures Long(lo', hi') == UnzigzagLong(Long(lo, hi))
  {
    var r := lo' + hi' * U32;
    assert n % 2 == lo % 2;
    assert n / 2 == lo / 2 + hi % 2 * 0x8000_0000 + hi / 2 * U32;
    ModUnique(r, U32, hi', lo');
  }

  lemma LengthParts(lo: u32, hi: u32)
    ensures var n := Long(lo, hi).Unsigned();
            var part1 := Or(lo / 0x1000_0000, hi * 0x10 % U32); var part2 := hi / 0x100_0000;
      && |Varint(n)| ==
           if part2 == 0 then
             if part1 == 0 then
               if lo < 16384 then if lo < 128 then 1 else 2 else if lo < 2097152 then 3 else 4
             else if part1 < 16384 then if part1 < 128 then 5 else 6
             else if part1 < 2097152 then 7 else 8
           else if part2 < 128 then 9 else 10
  {
    hide Or, Varint;
    Pow2Values();
    DivMod(hi, 0x1000_0000);
    ModUnique(hi * 0x10, U32, hi / 0x1000_0000, hi % 0x1000_0000 * 0x10);
    OrAdds(lo / 0x1000_0000, hi % 0x1000_0000, 4);
    VarintSize(lo + hi * U32);
  }

  // Two-word arithmetic as laws on numbers.

  /** Zig-zag maps n to 2n and -n to 2n - 1. */
  lemma ZigzagMeaning(l: Long)
    ensures var v := Signed64(l.Unsigned());
            ZigzagLong(l).Unsigned() == if v >= 0 then 2 * v else -2 * v - 1
  {
  }

  lemma LongBack(l: Long)
    ensures LongOf(l.Unsigned()) == l
  {
    ModUnique(l.Unsigned(), U32, l.hi, l.lo);
  }

  lemma UnsignedBack(n: nat)
    requires n < U64
    ensures LongOf(n).Unsigned() == n
  {
  }

  /** The decoder undoes the encoder, on all 64-bit values. */
  lemma ZigzagLongBack(l: Long)
    ensures UnzigzagLong(ZigzagLong(l)) == l
  {
    var n := l.Unsigned();
    LongBack(l);
    if n < 0x8000_0000_0000_0000 {
      UnsignedBack(2 * n);
    } else {
      UnsignedBack(2 * (U64 - n) - 1);
    }
  }

  /** And the encoder undoes the decoder. */
  lemma UnzigzagLongBack(l: Long)
    ensures ZigzagLong(UnzigzagLong(l)) == l
  {
    var n := l.Unsigned();
    LongBack(l);
    if n % 2 == 0 {
      UnsignedBack(n / 2);
    } else {
      UnsignedBack(U64 - 1 - n / 2);
    }
  }

  lemma SignedIs(v: int, n: nat)
    requires n < U64 && (n - v) % U64 == 0
    ensures -0x8000_0000_0000_0000 <= v < 0x8000_0000_0000_0000 ==> Signed64(n) == v
  {
  }

  /** Numbers survive the way through two words whenever they fit 64 bits. */
  method NumberRoundTrip(v: int) returns (r: int)
    ensures -0x8000_0000_0000_0000 <= v < 0x8000_0000_0000_0000 ==> r == v
  {
    hide *;
    var bits := LongBits.FromNumber(v);
    SignedIs(v, bits.Value());
    r := bits.ToNumber(false);
  }
}
