/** `util.pool`: a bump allocator that hands out views into slabs. */
module Pool {
  import opened Words

  /** What `subarray` returns: a view of a stretch of a buffer. */
  datatype View = View(buffer: array<byte>, start: nat, len: nat)
  {
    predicate Inside() { start + len <= buffer.Length }

    ghost function Contents(): seq<byte>
      requires Inside()
      reads buffer
    {
      buffer[start..start + len]
    }

    predicate Apart(other: View) {
      buffer != other.buffer || start + len <= other.start || other.start + other.len <= start
    }
  }

  /** `if (offset & 7) offset = (offset | 7) + 1`, in 32-bit arithmetic. */
  function Align(offset: u32): int {
    if offset % 8 != 0 then
      OrSeven(offset);
      ToInt32(Or(offset, 7)) + 1
    else offset
  }

  lemma OrSeven(n: nat)
    ensures Or(n, 7) == n / 8 * 8 + 7
  {
    hide Or;
    OrHalves(n, 7);
    OrHalves(n / 2, 3);
    OrHalves(n / 2 / 2, 1);
    OrZero(n / 2 / 2 / 2);
  }

  /** Alignment rounds up to the next multiple of 8 exactly up to 2^31; beyond, an offset that is
      no multiple turns negative. */
  lemma AlignExactly(offset: u32)
    ensures (offset <= Align(offset) < offset + 8 && Align(offset) % 8 == 0)
        <==> (offset % 8 == 0 || offset < 0x8000_0000)
    ensures !(offset % 8 == 0 || offset < 0x8000_0000) ==> Align(offset) <= 0
  {
    hide Or;
    OrSeven(offset);
    var q := offset / 8;
    DivMod(offset, 8);
    if offset % 8 != 0 {
      assert Align(offset) == ToInt32(8 * q + 7) + 1;
      assert 8 * q + 7 < 0x8000_0000 <==> offset < 0x8000_0000;
    }
  }

  lemma AlignsUp(offset: nat)
    requires offset <= 0x8000_0000
    ensures offset <= Align(offset) < offset + 8 && Align(offset) % 8 == 0
  {
    hide Align, Or;
    AlignExactly(offset);
  }

  /** What a request does to the offset. */
  function NextOffset(slabSize: nat, offset: nat, size: nat): int
    requires slabSize < U32
  {
    if size < 1 || size > slabSize / 2 then offset
    else Align((if offset + size > slabSize then 0 else offset) + size)
  }

  /** Some request of the sequence leaves a negative offset. */
  predicate Overflows(slabSize: nat, offset: nat, requests: seq<nat>)
    requires slabSize < U32
    decreases |requests|
  {
    requests != [] &&
    var next := NextOffset(slabSize, offset, requests[0]);
    next < 0 || Overflows(slabSize, next, requests[1..])
  }

  lemma {:induction false} SmallSlabs(slabSize: nat, offset: nat, requests: seq<nat>)
    requires slabSize <= 0x8000_0000
    ensures !Overflows(slabSize, offset, requests)
    decreases |requests|
  {
    if requests != [] {
      hide Align;
      var size := requests[0];
      if 1 <= size <= slabSize / 2 {
        AlignsUp((if offset + size > slabSize then 0 else offset) + size);
      }
      SmallSlabs(slabSize, NextOffset(slabSize, offset, size), requests[1..]);
    }
  }

  lemma AlignAt(n: u32)
    ensures n % 8 == 0 ==> Align(n) == n
    ensures n == 0x8000_0001 ==> Align(n) == -0x7FFF_FFF8
  {
    hide Or;
    OrSeven(n);
  }

  lemma LargeSlab(slabSize: nat)
    requires 0x8000_0000 < slabSize < U32
    ensures Overflows(slabSize, slabSize, [0x4000_0000, 0x4000_0000, 1])
  {
    hide Align, Or;
    AlignAt(0x4000_0000);
    AlignAt(0x8000_0000);
    AlignAt(0x8000_0001);
    var r1, r2: seq<nat> := [0x4000_0000, 1], [1];
    assert Overflows(slabSize, 0x8000_0000, r2);
    assert r1[1..] == r2;
    assert Overflows(slabSize, 0x4000_0000, r1);
    assert [0x4000_0000, 0x4000_0000, 1][1..] == r1;
  }

  /** The exact slab sizes for which no sequence of requests breaks the offset. */
  lemma OverflowsExactly(slabSize: nat)
    requires slabSize < U32
    ensures (exists requests :: Overflows(slabSize, slabSize, requests)) <==> slabSize > 0x8000_0000
  {
    if slabSize > 0x8000_0000 {
      LargeSlab(slabSize);
    } else {
      forall requests: seq<nat> ensures !Overflows(slabSize, slabSize, requests) {
        SmallSlabs(slabSize, slabSize, requests);
      }
    }
  }

  class PoolAllocator {
    const SIZE: nat
    const MAX: nat
    var slab: array?<byte>
    var offset: nat
    ghost var handed: seq<View>  // every view returned so far

    ghost predicate Valid()
      reads this
    {
      && SIZE <= 0x8000_0000 && MAX == SIZE / 2
      && (slab == null ==> offset == SIZE)
      && (slab != null ==> slab.Length == SIZE && offset % 8 == 0)
      && (forall i :: 0 <= i < |handed| ==> handed[i].Inside() && Used(handed[i]))
      && (forall i, j :: 0 <= i < j < |handed| ==> handed[i].Apart(handed[j]))
    }

    /** A view of the current slab ends before the offset. */
    ghost predicate Used(v: View)
      reads this
    {
      v.buffer == slab ==> v.start + v.len <= offset
    }

    /** The offset does not overflow 32 bits when a slab holds at most 2^31 bytes. */
    constructor (size: nat)
      requires size <= 0x8000_0000
      ensures Valid() && handed == [] && SIZE == if size == 0 then 8192 else size
    {
      SIZE := if size == 0 then 8192 else size;
      MAX := (if size == 0 then 8192 else size) / 2;
      slab, offset := null, if size == 0 then 8192 else size;
      handed := [];
    }

    /** pool_alloc: the new view has the size asked for and shares no byte with an older one; a
        pooled view starts at a multiple of 8. A request that still fits is served from the slab in
        use, right at the offset; otherwise a new slab is begun, and a request for more than half a
        slab gets a buffer of its own. */
    method Alloc(size: nat) returns (buf: View)
      requires Valid()
      modifies this
      ensures Valid() && handed == old(handed) + [buf]
      ensures buf.Inside() && buf.len == size
      ensures forall i :: 0 <= i < |old(handed)| ==> old(handed)[i].Apart(buf)
      ensures offset == NextOffset(SIZE, old(offset), size)
      ensures if 1 <= size <= MAX then buf.buffer.Length == SIZE && buf.start % 8 == 0
              else fresh(buf.buffer) && buf.start == 0 && buf.buffer.Length == size
      ensures 1 <= size <= MAX ==>
                && buf.buffer == slab && buf.start + size <= offset < buf.start + size + 8
                && if old(slab) != null && old(offset) + size <= SIZE then slab == old(slab) && buf.start == old(offset)
                   else fresh(slab) && buf.start == 0
      ensures !(1 <= size <= MAX) ==> slab == old(slab) && offset == old(offset)
    {
      hide Align;
      if size < 1 || size > MAX {
        var fresh' := new byte[size](_ => 0);
        buf := View(fresh', 0, size);
        handed := handed + [buf];
        return;
      }
      if offset + size > SIZE {
        slab := new byte[SIZE](_ => 0);
        offset := 0;
      }
      buf := View(slab, offset, size);
      offset := offset + size;
      AlignsUp(offset);
      offset := Align(offset);
      handed := handed + [buf];
    }

    /** Writing through one view leaves the contents of all others alone. */
    method Put(ghost k: nat, v: View, i: nat, x: byte)
      requires Valid() && k < |handed| && v == handed[k] && i < v.len
      modifies v.buffer
      ensures Valid() && handed == old(handed)
      ensures v.Contents() == old(v.Contents())[i := x]
      ensures forall j :: 0 <= j < |handed| && j != k ==> handed[j].Contents() == old(handed[j].Contents())
    {
      v.buffer[v.start + i] := x;
      forall j | 0 <= j < |handed| && j != k ensures handed[j].Contents() == old(handed[j].Contents()) {
        assert if j < k then handed[j].Apart(v) else v.Apart(handed[j]);
      }
    }
  }
}
