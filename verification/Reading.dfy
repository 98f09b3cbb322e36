/** What each `Reader` operation does to a cursor, as functions of the buffer and the position.

    A JavaScript read outside the buffer yields `undefined`, which behaves as 0 under `&` and is
    not `< 128`; `Low7` and `Ends` say so. */
module Reading {
  import opened Words
  import opened Varints

  datatype Outcome<+T> = Ok(v: T, pos: nat) | Throw
  {
    predicate IsFailure() { Throw? }
    function PropagateFailure<U>(): Outcome<U> requires Throw? { Throw }
    function Extract(): (T, nat) requires Ok? { (v, pos) }
  }

  /** The low and high words of a 64-bit value. */
  datatype Long = Long(lo: u32, hi: u32)
  {
    function Unsigned(): (r: nat)
      ensures r < U32 * U32
    {
      lo + hi * U32
    }
  }

  function LongOf(n: nat): Long
    requires n < U32 * U32
  {
    Long(n % U32, n / U32)
  }

  function Low7(b: seq<byte>, p: nat): (r: nat)
    ensures r < 128
  {
    if p < |b| then b[p] % 128 else 0
  }

  predicate Ends(b: seq<byte>, p: nat) {
    p < |b| && b[p] < 128
  }

  /** Reader.uint32: five unrolled bytes, then five more skipped whatever they hold. */
  function ReadUint32(b: seq<byte>, p: nat): (r: Outcome<u32>)
    ensures r.Ok? ==> p < r.pos <= |b|
  {
    var v1 := Low7(b, p);
    var v2 := v1 + Low7(b, p + 1) * 0x80;
    var v3 := v2 + Low7(b, p + 2) * 0x4000;
    var v4 := v3 + Low7(b, p + 3) * 0x20_0000;
    var v5 := v4 + Low7(b, p + 4) % 16 * 0x1000_0000;
    if Ends(b, p) then Ok(v1, p + 1)
    else if Ends(b, p + 1) then Ok(v2, p + 2)
    else if Ends(b, p + 2) then Ok(v3, p + 3)
    else if Ends(b, p + 3) then Ok(v4, p + 4)
    else if Ends(b, p + 4) then Ok(v5, p + 5)
    else if p + 10 > |b| then Throw
    else Ok(v5, p + 10)
  }

  /** The number a 32-bit read aligns on: five bytes at most, or exactly ten. */
  predicate Aligned32(n: nat) {
    n < 0x8_0000_0000 || 0x8000_0000_0000_0000 <= n < 0x1_0000_0000_0000_0000
  }

  /** A varint of any length, minimal or not, in the plain reading of the format: groups of seven
      bits, least significant first, to the first byte with a clear top bit. */
  function Base128(b: seq<byte>, p: nat): (r: Outcome<nat>)
    ensures r.Ok? ==> p < r.pos <= |b|
    decreases |b| - p
  {
    if p >= |b| then Throw
    else if b[p] < 128 then Ok(b[p], p + 1)
    else
      var (v, q) :- Base128(b, p + 1);
      Ok(b[p] - 128 + 128 * v, q)
  }

  lemma {:induction false} Base128OnVarint(b: seq<byte>, p: nat, n: nat)
    requires At(b, p, Varint(n))
    ensures Base128(b, p) == Ok(n, p + |Varint(n)|)
    decreases n
  {
    AtByte(b, p, Varint(n), 0);
    if n >= 128 {
      AtSplit(b, p, [n % 128 + 128], Varint(n / 128));
      Base128OnVarint(b, p + 1, n / 128);
    }
  }

  lemma Rests(n: nat)
    ensures Rest(n, 1) == n / 0x80 && Rest(n, 2) == n / 0x4000
    ensures Rest(n, 3) == n / 0x20_0000 && Rest(n, 4) == n / 0x1000_0000
  {
    RestStep(n, 0);
    RestStep(n, 1);
    RestStep(n, 2);
    RestStep(n, 3);
  }

  /** Peeling one more group off the low bits of n. */
  lemma LowGroup(n: nat)
    ensures n % 0x4000 == n % 0x80 + n / 0x80 % 128 * 0x80
    ensures n % 0x20_0000 == n % 0x4000 + n / 0x4000 % 128 * 0x4000
    ensures n % 0x1000_0000 == n % 0x20_0000 + n / 0x20_0000 % 128 * 0x20_0000
    ensures n % 0x1_0000_0000 == n % 0x1000_0000 + n / 0x1000_0000 % 16 * 0x1000_0000
  {
    ModSplit(n, 0x80, 128);
    ModSplit(n, 0x4000, 128);
    ModSplit(n, 0x20_0000, 128);
    ModSplit(n, 0x1000_0000, 16);
  }

  /** The i-th 7-bit group of n. */
  function Group(n: nat, i: nat): (r: nat)
    ensures r < 128
  {
    Rest(n, i) % 128
  }

  /** The first five groups as digits. */
  lemma Groups(n: nat)
    ensures Group(n, 0) == n % 0x80 && Group(n, 1) == n / 0x80 % 0x80 && Group(n, 2) == n / 0x4000 % 0x80
    ensures Group(n, 3) == n / 0x20_0000 % 0x80 && Group(n, 4) == n / 0x1000_0000 % 0x80
  {
    Rests(n);
    assert Rest(n, 0) == n;
    hide Rest;
  }

  /** The low word of n from its first five groups; the fifth contributes four bits. */
  lemma LowWord(n: nat)
    ensures n % U32 == Group(n, 0) + Group(n, 1) * 0x80 + Group(n, 2) * 0x4000
                       + Group(n, 3) * 0x20_0000 + Group(n, 4) % 16 * 0x1000_0000
  {
    hide Group;
    Groups(n);
    LowGroup(n);
    LowFour(n / 0x1000_0000);
  }

  lemma LowFour(x: nat)
    ensures x % 128 % 16 == x % 16
  {
    ModSplit(x, 16, 8);
    ModUnique(x % 128, 16, x / 16 % 8, x % 16);
  }

  /** The byte under the cursor carries group j of n and ends the varint when it should. */
  ghost predicate Shows(b: seq<byte>, p: nat, n: nat, len: nat, j: nat) {
    Low7(b, p + j) == Group(n, j) && p + j < |b| && (Ends(b, p + j) <==> j + 1 == len)
  }

  lemma {:induction false} Base128Shows(b: seq<byte>, p: nat, j: nat)
    requires var r := Base128(b, p); r.Ok? && j < r.pos - p
    ensures var r := Base128(b, p); Shows(b, p, r.v, r.pos - p, j)
    decreases j
  {
    if b[p] >= 128 {
      var v := Base128(b, p + 1).v;
      ModUnique(b[p] - 128 + 128 * v, 128, v, b[p] - 128);
      if j > 0 {
        Base128Shows(b, p + 1, j - 1);
      }
    }
  }

  /** Nothing is left of the number behind its last byte. */
  lemma {:induction false} Base128Gone(b: seq<byte>, p: nat, j: nat)
    requires var r := Base128(b, p); r.Ok? && j >= r.pos - p
    ensures Rest(Base128(b, p).v, j) == 0
    decreases j
  {
    if b[p] >= 128 {
      var v := Base128(b, p + 1).v;
      ModUnique(b[p] - 128 + 128 * v, 128, v, b[p] - 128);
      Base128Gone(b, p + 1, j - 1);
    } else {
      RestOfZero(j - 1);
    }
  }

  lemma {:induction false} RestOfZero(j: nat)
    ensures Rest(0, j) == 0
  {
    if j > 0 {
      RestOfZero(j - 1);
    }
  }

  lemma GroupGone(b: seq<byte>, p: nat, j: nat)
    requires var r := Base128(b, p); r.Ok? && j >= r.pos - p
    ensures Group(Base128(b, p).v, j) == 0
  {
    hide Base128;
    Base128Gone(b, p, j);
  }

  /** All five low groups of a varint, as the readers see its bytes. */
  lemma LowGroups(b: seq<byte>, p: nat)
    requires Base128(b, p).Ok?
    ensures var r := Base128(b, p); var len := r.pos - p;
      && Shows(b, p, r.v, len, 0)
      && (len > 1 ==> Shows(b, p, r.v, len, 1)) && (len <= 1 ==> Group(r.v, 1) == 0)
      && (len > 2 ==> Shows(b, p, r.v, len, 2)) && (len <= 2 ==> Group(r.v, 2) == 0)
      && (len > 3 ==> Shows(b, p, r.v, len, 3)) && (len <= 3 ==> Group(r.v, 3) == 0)
      && (len > 4 ==> Shows(b, p, r.v, len, 4)) && (len <= 4 ==> Group(r.v, 4) == 0)
  {
    hide Base128, Shows, Group;
    LowGroupAt(b, p, 0);
    LowGroupAt(b, p, 1);
    LowGroupAt(b, p, 2);
    LowGroupAt(b, p, 3);
    LowGroupAt(b, p, 4);
  }

  lemma LowGroupAt(b: seq<byte>, p: nat, j: nat)
    requires Base128(b, p).Ok?
    ensures var r := Base128(b, p); var len := r.pos - p;
      (len > j ==> Shows(b, p, r.v, len, j)) && (len <= j ==> Group(r.v, j) == 0)
  {
    hide Base128, Shows, Group;
    if Base128(b, p).pos - p > j {
      Base128Shows(b, p, j);
    } else {
      GroupGone(b, p, j);
    }
  }

  /** Reader.uint32 on any varint, minimal or not: the low word, with the cursor behind the varint
      for at most five bytes, and otherwise ten bytes on or a throw. */
  lemma ReadUint32Base128(b: seq<byte>, p: nat)
    requires Base128(b, p).Ok?
    ensures var r := Base128(b, p);
      ReadUint32(b, p) ==
      if r.pos - p <= 5 then Ok(r.v % U32, r.pos) else if p + 10 > |b| then Throw else Ok(r.v % U32, p + 10)
  {
    hide Base128, Group, Low7, Ends;
    LowWord(Base128(b, p).v);
    LowGroups(b, p);
  }

  /** Without an end, the read throws unless ten bytes are there; it then consumes these, and the
      number is the low word of what a closing zero byte would make of the varint. */
  lemma ReadUint32CutOff(b: seq<byte>, p: nat)
    requires CutOff(b, p)
    ensures ReadUint32(b, p).Ok? <==> p + 10 <= |b|
    ensures ReadUint32(b, p).Ok? ==>
              Base128(b + [0], p).Ok? && ReadUint32(b, p) == Ok(Base128(b + [0], p).v % U32, p + 10)
  {
    if p + 10 <= |b| {
      Closed(b, p);
      ReadUint32Base128(b + [0], p);
      forall k: nat | k < |b| ensures Low7(b + [0], k) == Low7(b, k) {
      }
    }
    hide Low7, Base128;
  }

  /** A cut-off varint with a zero byte behind it. */
  lemma {:induction false} Closed(b: seq<byte>, p: nat)
    requires CutOff(b, p) && p <= |b|
    ensures Base128(b + [0], p).Ok? && Base128(b + [0], p).pos == |b| + 1
    decreases |b| - p
  {
    if p < |b| {
      assert (b + [0])[p] == b[p];
      Closed(b, p + 1);
    }
  }

  /** Only continuation bytes are left from p on. */
  predicate CutOff(b: seq<byte>, p: nat) {
    forall k :: p <= k < |b| ==> b[k] >= 128
  }

  /** A varint either has an end or is cut off by the end of the buffer. */
  lemma {:induction false} Base128Exactly(b: seq<byte>, p: nat)
    ensures Base128(b, p).Throw? <==> CutOff(b, p)
    decreases |b| - p
  {
    if p < |b| && b[p] >= 128 {
      Base128Exactly(b, p + 1);
    }
  }

  /** A varint of at most five bytes. */
  lemma ReadUint32Short(b: seq<byte>, p: nat, n: nat)
    requires n < 0x8_0000_0000
    requires At(b, p, Varint(n))
    ensures ReadUint32(b, p) == Ok(n % U32, p + |Varint(n)|)
  {
    hide *;
    SizeOfShort(n);
    Base128OnVarint(b, p, n);
    ReadUint32Base128(b, p);
  }

  lemma SizeOfShort(n: nat)
    ensures n < 0x8_0000_0000 <==> |Varint(n)| <= 5
  {
    hide Varint;
    if n < 0x8_0000_0000 {
      VarintSize(n);
    } else {
      SizeShift5(n);
    }
  }

  /** Behind a longer varint the read consumes ten bytes or throws. */
  lemma ReadUint32Long(b: seq<byte>, p: nat, n: nat)
    requires n >= 0x8_0000_0000
    requires At(b, p, Varint(n))
    ensures ReadUint32(b, p) == if p + 10 > |b| then Throw else Ok(n % U32, p + 10)
  {
    hide *;
    SizeOfShort(n);
    Base128OnVarint(b, p, n);
    ReadUint32Base128(b, p);
  }

  /** A 32-bit read of a varint yields the low word and stops behind the varint exactly when
      the varint has at most five bytes or ten. */
  lemma ReadUint32OnVarint(b: seq<byte>, p: nat, n: nat)
    requires n < 0x1_0000_0000_0000_0000
    requires At(b, p, Varint(n))
    ensures ReadUint32(b, p) == Ok(n % U32, p + |Varint(n)|) <==> Aligned32(n)
  {
    hide Varint, At, ReadUint32;
    VarintSize(n);
    AtLength(b, p, Varint(n));
    if n < 0x8_0000_0000 {
      ReadUint32Short(b, p, n);
    } else {
      ReadUint32Long(b, p, n);
    }
  }

  lemma AtLength(b: seq<byte>, p: nat, x: seq<byte>)
    requires At(b, p, x)
    ensures p + |x| <= |b|
  {
  }

  /** readLongVarint, bytes six to ten: five more groups into the high word. */
  function LongTail(b: seq<byte>, p: nat, i: nat, bits: Long): (r: Outcome<Long>)
    requires i <= 5
    ensures r.Ok? ==> p < r.pos <= |b|
    decreases 5 - i
  {
    if i == 5 || p >= |b| then Throw
    else
      var bits' := bits.(hi := (bits.hi + Lift(Low7(b, p), i)) % U32);
      if Ends(b, p) then Ok(bits', p + 1) else LongTail(b, p + 1, i + 1, bits')
  }

  /** `g << i * 7 + 3`, before it is cut to 32 bits. */
  function Lift(g: nat, i: nat): nat {
    if i == 0 then g * 0x8 else if i == 1 then g * 0x400 else if i == 2 then g * 0x2_0000
    else if i == 3 then g * 0x100_0000 else g * 0x8000_0000
  }

  /** readLongVarint. With at most four bytes left the fourth is taken as the last, whatever
      its top bit and even past the end of the buffer. */
  function ReadLong(b: seq<byte>, p: nat): (r: Outcome<Long>)
    ensures r.Ok? ==> p < r.pos <= |b| + 1
  {
    var v1 := Low7(b, p);
    var v2 := v1 + Low7(b, p + 1) * 0x80;
    var v3 := v2 + Low7(b, p + 2) * 0x4000;
    var v4 := v3 + Low7(b, p + 3) * 0x20_0000;
    if p + 4 < |b| then
      if Ends(b, p) then Ok(Long(v1, 0), p + 1)
      else if Ends(b, p + 1) then Ok(Long(v2, 0), p + 2)
      else if Ends(b, p + 2) then Ok(Long(v3, 0), p + 3)
      else if Ends(b, p + 3) then Ok(Long(v4, 0), p + 4)
      else
        var bits := Long(v4 + Low7(b, p + 4) % 16 * 0x1000_0000, Low7(b, p + 4) / 16);
        if Ends(b, p + 4) then Ok(bits, p + 5) else LongTail(b, p + 5, 0, bits)
    else
      if p >= |b| then Throw
      else if Ends(b, p) then Ok(Long(v1, 0), p + 1)
      else if p + 1 >= |b| then Throw
      else if Ends(b, p + 1) then Ok(Long(v2, 0), p + 2)
      else if p + 2 >= |b| then Throw
      else if Ends(b, p + 2) then Ok(Long(v3, 0), p + 3)
      else Ok(Long(v4, 0), p + 4)
  }

  lemma {:induction false} TailCutOff(b: seq<byte>, p: nat, i: nat, bits: Long)
    requires i <= 5 && CutOff(b, p)
    ensures LongTail(b, p, i, bits) == Throw
    decreases 5 - i
  {
    if i < 5 && p < |b| {
      TailCutOff(b, p + 1, i + 1, bits.(hi := (bits.hi + Lift(Low7(b, p), i)) % U32));
    }
  }

  /** A varint that the end of the buffer cuts off is read all the same exactly when three or four
      of its bytes are left. */
  lemma ReadLongCutOff(b: seq<byte>, p: nat)
    requires CutOff(b, p)
    ensures ReadLong(b, p).Ok? <==> p + 3 == |b| || p + 4 == |b|
    ensures ReadLong(b, p).Ok? ==> ReadLong(b, p).pos == p + 4
  {
    hide Low7, LongTail;
    if p + 4 < |b| {
      var v4 := Low7(b, p) + Low7(b, p + 1) * 0x80 + Low7(b, p + 2) * 0x4000 + Low7(b, p + 3) * 0x20_0000;
      TailCutOff(b, p + 5, 0, Long(v4 + Low7(b, p + 4) % 16 * 0x1000_0000, Low7(b, p + 4) / 16));
    }
  }

  /** The only way for a reader to end behind the buffer: three continuation bytes at its end. */
  lemma ReadLongPastEnd(b: seq<byte>, p: nat)
    ensures ReadLong(b, p).Ok? ==>
              (ReadLong(b, p).pos == |b| + 1 <==>
               p + 3 == |b| && b[p] >= 128 && b[p + 1] >= 128 && b[p + 2] >= 128)
  {
    hide Low7, LongTail;
  }

  /** The high word as readLongVarint has it after i bytes of its second half. */
  function HighPart(n: nat, i: nat): nat
    requires i <= 5
  {
    if i == 0 then Group(n, 4) / 16 else HighPart(n, i - 1) + Lift(Group(n, 4 + i), i - 1)
  }

  lemma {:induction false} HighPartGrows(n: nat, i: nat, j: nat)
    requires i <= j <= 5
    ensures HighPart(n, i) <= HighPart(n, j)
    ensures (forall k :: 4 + i < k <= 4 + j ==> Group(n, k) == 0) ==> HighPart(n, i) == HighPart(n, j)
  {
    if i < j {
      HighPartGrows(n, i, j - 1);
    }
  }

  lemma HighWord(n: nat)
    requires Rest(n, 10) == 0
    ensures n / U32 == HighPart(n, 5)
  {
    Rests(n);
    RestStep(n, 4);
    RestStep(n, 5);
    RestStep(n, 6);
    RestStep(n, 7);
    RestStep(n, 8);
    RestStep(n, 9);
    var h := n / 0x1000_0000;
    ModSplit(n, 0x1000_0000, 16);
    assert n / U32 == h / 16;
    hide Rest;
    HighGroups(h);
    assert HighPart(n, 1) == Group(n, 4) / 16 + Group(n, 5) * 0x8;
    assert HighPart(n, 2) == HighPart(n, 1) + Group(n, 6) * 0x400;
    assert HighPart(n, 3) == HighPart(n, 2) + Group(n, 7) * 0x2_0000;
    assert HighPart(n, 4) == HighPart(n, 3) + Group(n, 8) * 0x100_0000;
  }

  lemma HighGroups(h: nat)
    ensures var r5 := h / 128; var r6 := r5 / 128; var r7 := r6 / 128; var r8 := r7 / 128; var r9 := r8 / 128;
      r9 / 128 == 0 ==>
        h / 16 == h % 128 / 16 + r5 % 128 * 0x8 + r6 % 128 * 0x400 + r7 % 128 * 0x2_0000 + r8 % 128 * 0x100_0000
                  + r9 % 128 * 0x8000_0000
  {
    var r5 := h / 128;
    var r6 := r5 / 128;
    var r7 := r6 / 128;
    var r8 := r7 / 128;
    var r9 := r8 / 128;
    DivMod(h, 128);
    DivMod(r5, 128);
    DivMod(r6, 128);
    DivMod(r7, 128);
    DivMod(r8, 128);
    DivMod(r9, 128);
  }

  /** With the last byte of a varint of at most ten, the high word is complete. */
  lemma HighDone(b: seq<byte>, p: nat, i: nat)
    requires Base128(b, p).Ok? && i <= 5 && Base128(b, p).pos - p <= 5 + i
    ensures HighPart(Base128(b, p).v, i) == Base128(b, p).v / U32
  {
    hide Base128, HighPart, Group;
    var v := Base128(b, p).v;
    Base128Gone(b, p, 10);
    HighWord(v);
    forall k | 4 + i < k <= 9 ensures Group(v, k) == 0 { GroupGone(b, p, k); }
    HighPartGrows(v, i, 5);
  }

  lemma CutTwice(x: nat, y: nat)
    ensures (x % U32 + y) % U32 == (x + y) % U32
  {
    DivMod(x, U32);
    DivMod(x % U32 + y, U32);
    ModUnique(x + y, U32, x / U32 + (x % U32 + y) / U32, (x % U32 + y) % U32);
  }

  /** Bytes six to ten of any varint; a tenth byte with its top bit set is refused. */
  lemma {:induction false} LongTailBase128(b: seq<byte>, p: nat, i: nat, bits: Long)
    requires Base128(b, p).Ok? && i <= 5 && 5 + i < Base128(b, p).pos - p
    requires var v := Base128(b, p).v; bits.lo == v % U32 && bits.hi == HighPart(v, i) % U32
    ensures var r := Base128(b, p);
      LongTail(b, p + 5 + i, i, bits) ==
      if r.pos - p <= 10 then Ok(Long(r.v % U32, r.v / U32 % U32), r.pos) else Throw
    decreases 5 - i
  {
    hide Base128, HighPart, Group, Lift, Low7, Ends;
    var r, q := Base128(b, p), p + 5 + i;
    if i < 5 {
      Base128Shows(b, p, 5 + i);
      HighNext(r.v, i);
      CutTwice(HighPart(r.v, i), Lift(Low7(b, q), i));
      var bits' := bits.(hi := HighPart(r.v, i + 1) % U32);
      if 5 + i + 1 == r.pos - p {
        HighDone(b, p, i + 1);
      } else {
        LongTailBase128(b, p, i + 1, bits');
      }
    }
  }

  lemma HighNext(n: nat, i: nat)
    requires i < 5
    ensures HighPart(n, i + 1) == HighPart(n, i) + Lift(Group(n, 5 + i), i)
  {
  }

  /** readLongVarint on any varint, minimal or not: both words and the cursor behind it for at most
      ten bytes, on the fast and on the end-of-buffer route, and a throw for more. */
  lemma ReadLongBase128(b: seq<byte>, p: nat)
    requires Base128(b, p).Ok?
    ensures var r := Base128(b, p);
      ReadLong(b, p) == if r.pos - p <= 10 then Ok(Long(r.v % U32, r.v / U32 % U32), r.pos) else Throw
  {
    hide Base128, Group, Low7, Ends, HighPart, LongTail;
    var r := Base128(b, p);
    LowWord(r.v);
    LowGroups(b, p);
    HighStart(r.v);
    if r.pos - p <= 5 {
      HighDone(b, p, 0);
    } else {
      LongTailBase128(b, p, 0, Long(r.v % U32, Group(r.v, 4) / 16));
    }
  }

  /** What such a read returns: the number that a closing zero byte would make of the varint. */
  lemma CutOffNumber(b: seq<byte>, p: nat)
    requires CutOff(b, p) && (p + 3 == |b| || p + 4 == |b|)
    ensures Base128(b + [0], p).Ok?
    ensures var v := Base128(b + [0], p).v; ReadLong(b, p) == Ok(Long(v % U32, v / U32 % U32), p + 4)
  {
    Closed(b, p);
    ReadLongBase128(b + [0], p);
    forall k: nat ensures Low7(b + [0], k) == Low7(b, k) {
    }
    hide Low7, Base128, LongTail;
  }

  lemma HighStart(n: nat)
    ensures HighPart(n, 0) == Group(n, 4) / 16
  {
  }

  /** A 64-bit read inverts every 64-bit varint. */
  lemma ReadLongOnVarint(b: seq<byte>, p: nat, n: nat)
    requires n < U32 * U32
    requires At(b, p, Varint(n))
    ensures ReadLong(b, p) == Ok(LongOf(n), p + |Varint(n)|)
  {
    hide Varint, At, ReadLong, Base128;
    VarintSize(n);
    Base128OnVarint(b, p, n);
    ReadLongBase128(b, p);
  }

  /** Reader.skip without a length: to the first byte with a clear top bit. */
  function SkipVarint(b: seq<byte>, p: nat): (r: Outcome<()>)
    ensures r.Ok? ==> p < r.pos <= |b|
    decreases |b| - p
  {
    if p >= |b| then Throw
    else if b[p] >= 128 then SkipVarint(b, p + 1)
    else Ok((), p + 1)
  }

  /** skip passes exactly over any varint, and throws exactly when there is no end to it. */
  lemma {:induction false} SkipVarintBase128(b: seq<byte>, p: nat)
    ensures var r := Base128(b, p); SkipVarint(b, p) == if r.Ok? then Ok((), r.pos) else Throw
    decreases |b| - p
  {
    if p < |b| && b[p] >= 128 {
      SkipVarintBase128(b, p + 1);
    }
  }

  lemma SkipVarintOnVarint(b: seq<byte>, p: nat, n: nat)
    requires At(b, p, Varint(n))
    ensures SkipVarint(b, p) == Ok((), p + |Varint(n)|)
  {
    hide *;
    Base128OnVarint(b, p, n);
    SkipVarintBase128(b, p);
  }

  /** Reader.skip with a length. */
  function SkipBytes(b: seq<byte>, p: nat, n: nat): (r: Outcome<()>)
    ensures r.Ok? ==> r.pos == p + n <= |b|
  {
    if p + n > |b| then Throw else Ok((), p + n)
  }

  /** How much of the buffer a cursor has before it; a cursor may stand one past the end. */
  function Left(b: seq<byte>, p: nat): nat {
    if p <= |b| then |b| - p + 1 else 0
  }

  /** Reader.skipType: the payload of one record, whatever it holds. */
  function SkipType(b: seq<byte>, p: nat, wire: nat): (r: Outcome<()>)
    ensures r.Ok? ==> p < r.pos <= |b|
    decreases Left(b, p), 1
  {
    match wire
    case 0 => SkipVarint(b, p)
    case 1 => SkipBytes(b, p, 8)
    case 2 =>
      var (n, q) :- ReadUint32(b, p);
      SkipBytes(b, q, n)
    case 3 => SkipGroup(b, p)
    case 5 => SkipBytes(b, p, 4)
    case _ => Throw
  }

  /** The records of a group up to its end tag. */
  function SkipGroup(b: seq<byte>, p: nat): (r: Outcome<()>)
    ensures r.Ok? ==> p < r.pos <= |b|
    decreases Left(b, p), 0
  {
    var (tag, q) :- ReadUint32(b, p);
    if tag % 8 == 4 then Ok((), q)
    else
      var (_, q') :- SkipType(b, q, tag % 8);
      SkipGroup(b, q')
  }

  /** Only the wire types of the format are skipped. */
  lemma SkipTypeKnown(b: seq<byte>, p: nat, wire: nat)
    ensures SkipType(b, p, wire).Ok? ==> wire in {0, 1, 2, 3, 5}
  {
  }

  /** The low k bytes of n, least significant first. */
  function LittleEndian(n: nat, k: nat): (r: seq<byte>)
    ensures |r| == k
  {
    if k == 0 then [] else [n % 0x100] + LittleEndian(n / 0x100, k - 1)
  }

  /** The fixed forms are little-endian. */
  lemma FixedIsLittleEndian(lo: u32, hi: u32)
    ensures FixedBytes(lo) == LittleEndian(lo, 4)
    ensures FixedBytes(lo) + FixedBytes(hi) == LittleEndian(lo + hi * U32, 8)
  {
    FourLittle(lo);
    FourLittle(hi);
    LittleJoin(lo, hi, 4, 4);
    JoinedWords(lo, hi);
  }

  /** The number whose low j bytes are those of lo, with hi above them. */
  function Joined(lo: nat, hi: nat, j: nat): nat {
    if j == 0 then hi else lo % 0x100 + 0x100 * Joined(lo / 0x100, hi, j - 1)
  }

  lemma LittleStep(n: nat, k: nat)
    ensures LittleEndian(n, k) == if k == 0 then [] else [n % 0x100] + LittleEndian(n / 0x100, k - 1)
  {
  }

  lemma {:induction false} LittleJoin(lo: nat, hi: nat, j: nat, k: nat)
    ensures LittleEndian(Joined(lo, hi, j), j + k) == LittleEndian(lo, j) + LittleEndian(hi, k)
  {
    hide LittleEndian;
    LittleStep(lo, j);
    if j == 0 {
      assert LittleEndian(lo, 0) + LittleEndian(hi, k) == LittleEndian(hi, k);
    } else {
      LittleStep(Joined(lo, hi, j), j + k);
      var rest := Joined(lo / 0x100, hi, j - 1);
      ModUnique(lo % 0x100 + 0x100 * rest, 0x100, rest, lo % 0x100);
      LittleJoin(lo / 0x100, hi, j - 1, k);
      Associate([lo % 0x100], LittleEndian(lo / 0x100, j - 1), LittleEndian(hi, k));
    }
  }

  lemma JoinedWords(lo: u32, hi: u32)
    ensures Joined(lo, hi, 4) == lo + hi * U32
  {
    var n1 := lo / 0x100;
    var n2 := n1 / 0x100;
    var n3 := n2 / 0x100;
    assert n3 < 0x100;
    assert Joined(n3, hi, 1) == n3 + 0x100 * hi;
    assert Joined(n2, hi, 2) == n2 % 0x100 + 0x100 * Joined(n3, hi, 1);
    assert Joined(n1, hi, 3) == n1 % 0x100 + 0x100 * Joined(n2, hi, 2);
  }

  lemma FourLittle(n: u32)
    ensures FixedBytes(n) == LittleEndian(n, 4)
  {
    var n1 := n / 0x100;
    var n2 := n1 / 0x100;
    var n3 := n2 / 0x100;
    assert n3 < 0x100 && n2 == n / 0x1_0000 && n3 == n / 0x100_0000;
    assert LittleEndian(n3, 1) == [n3] + LittleEndian(n3 / 0x100, 0);
    assert LittleEndian(n2, 2) == [n2 % 0x100] + LittleEndian(n3, 1);
    assert LittleEndian(n1, 3) == [n1 % 0x100] + LittleEndian(n2, 2);
  }

  /** Four bytes, least significant first. */
  function FixedBytes(n: u32): (r: seq<byte>)
    ensures |r| == 4
  {
    [n % 0x100, n / 0x100 % 0x100, n / 0x1_0000 % 0x100, n / 0x100_0000]
  }

  function Word(b: seq<byte>, p: nat): u32
    requires p + 4 <= |b|
  {
    b[p] as int + b[p + 1] as int * 0x100 + b[p + 2] as int * 0x1_0000 + b[p + 3] as int * 0x100_0000
  }

  lemma AtFour(b: seq<byte>, p: nat, x: seq<byte>)
    requires At(b, p, x) && |x| == 4
    ensures p + 4 <= |b| && b[p] == x[0] && b[p + 1] == x[1] && b[p + 2] == x[2] && b[p + 3] == x[3]
  {
    hide At;
    AtByte(b, p, x, 0);
    AtByte(b, p, x, 1);
    AtByte(b, p, x, 2);
    AtByte(b, p, x, 3);
    AtLength(b, p, x);
  }

  lemma FourBytes(n: nat)
    ensures n % 0x100 + n / 0x100 % 0x100 * 0x100 + n / 0x1_0000 % 0x100 * 0x1_0000 + n / 0x100_0000 * 0x100_0000 == n
  {
    ModSplit(n, 0x100, 0x100);
    ModSplit(n, 0x1_0000, 0x100);
    DivMod(n, 0x100_0000);
  }

  lemma WordOnFixed32(b: seq<byte>, p: nat, n: u32)
    requires At(b, p, FixedBytes(n))
    ensures Word(b, p) == n
  {
    hide At;
    var x := FixedBytes(n);
    AtFour(b, p, x);
    FourBytes(n);
  }

  /** Reader.fixed32. */
  function ReadFixed32(b: seq<byte>, p: nat): (r: Outcome<u32>)
    ensures r.Ok? ==> r.pos == p + 4 <= |b|
  {
    if p + 4 > |b| then Throw else Ok(Word(b, p), p + 4)
  }

  /** readFixed64. */
  function ReadFixed64(b: seq<byte>, p: nat): (r: Outcome<Long>)
    ensures r.Ok? ==> r.pos == p + 8 <= |b|
  {
    if p + 8 > |b| then Throw else Ok(Long(Word(b, p), Word(b, p + 4)), p + 8)
  }

  /** Reader.bytes. */
  function ReadBytes(b: seq<byte>, p: nat): (r: Outcome<seq<byte>>)
    ensures r.Ok? ==> p < r.pos <= |b|
  {
    var (n, q) :- ReadUint32(b, p);
    if q + n > |b| then Throw else Ok(b[q..q + n], q + n)
  }

  lemma ReadBytesOnBlob(b: seq<byte>, p: nat, x: seq<byte>)
    requires |x| < U32
    requires At(b, p, Varint(|x|) + x)
    ensures ReadBytes(b, p) == Ok(x, p + |Varint(|x|)| + |x|)
  {
    hide ReadUint32;
    AtSplit(b, p, Varint(|x|), x);
    ReadUint32Short(b, p, |x|);
  }

  /** Reads of a known length return exactly when all their bytes are there. */
  lemma FixedExactly(b: seq<byte>, p: nat)
    ensures ReadFixed32(b, p).Ok? <==> p + 4 <= |b|
    ensures ReadFixed32(b, p).Ok? ==> ReadFixed32(b, p).pos == p + 4
    ensures ReadFixed64(b, p).Ok? <==> p + 8 <= |b|
    ensures ReadFixed64(b, p).Ok? ==> ReadFixed64(b, p).pos == p + 8
    ensures SkipType(b, p, 5).Ok? <==> p + 4 <= |b|
    ensures SkipType(b, p, 5).Ok? ==> SkipType(b, p, 5).pos == p + 4
    ensures SkipType(b, p, 1).Ok? <==> p + 8 <= |b|
    ensures SkipType(b, p, 1).Ok? ==> SkipType(b, p, 1).pos == p + 8
  {
  }

  /** The same for bytes behind their length. */
  lemma DelimitedExactly(b: seq<byte>, p: nat)
    ensures var l := ReadUint32(b, p);
      && (ReadBytes(b, p).Ok? <==> l.Ok? && l.pos + l.v <= |b|)
      && (SkipType(b, p, 2).Ok? <==> l.Ok? && l.pos + l.v <= |b|)
      && (l.Ok? && l.pos + l.v <= |b| ==>
            && ReadBytes(b, p) == Ok(b[l.pos..l.pos + l.v], l.pos + l.v)
            && SkipType(b, p, 2) == Ok((), l.pos + l.v))
  {
    hide ReadUint32;
  }
}
