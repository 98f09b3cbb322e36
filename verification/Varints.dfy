/** Base-128 varints as a reference codec: what every integer writer must emit. */
module Varints {
  import opened Words

  /** Least significant group first, 7 bits a byte, the top bit set on all but the last. */
  function Varint(n: nat): (r: seq<byte>)
    ensures |r| > 0
    ensures r[0] < 128 <==> n < 128
  {
    if n < 128 then [n] else [n % 128 + 128] + Varint(n / 128)
  }

  /** What is left of n after i bytes have been written. */
  function Rest(n: nat, i: nat): nat {
    if i == 0 then n else Rest(n / 128, i - 1)
  }

  lemma {:induction false} RestStep(n: nat, i: nat)
    ensures Rest(n, i + 1) == Rest(n, i) / 128
  {
    if i > 0 {
      RestStep(n / 128, i - 1);
    }
  }

  /** Every byte of a varint, read off the number. */
  lemma {:induction false} VarintByte(n: nat, i: nat)
    requires i < |Varint(n)|
    ensures Varint(n)[i] == Rest(n, i) % 128 + (if i + 1 < |Varint(n)| then 128 else 0)
    ensures i + 1 < |Varint(n)| <==> Rest(n, i) >= 128
  {
    if i > 0 {
      VarintByte(n / 128, i - 1);
    }
  }

  /** The length ladder on 64 bits. */
  lemma VarintSize(n: nat)
    requires n < 0x1_0000_0000_0000_0000
    ensures |Varint(n)| ==
            if n < 0x80 then 1 else if n < 0x4000 then 2 else if n < 0x20_0000 then 3
            else if n < 0x1000_0000 then 4 else if n < 0x8_0000_0000 then 5
            else if n < 0x400_0000_0000 then 6 else if n < 0x2_0000_0000_0000 then 7
            else if n < 0x100_0000_0000_0000 then 8 else if n < 0x8000_0000_0000_0000 then 9
            else 10
  {
    if n < 0x8_0000_0000 {
      VarintSize35(n);
    } else {
      SizeShift5(n);
      VarintSize35(n / 0x8_0000_0000);
    }
  }

  lemma VarintSize35(n: nat)
    requires n < 0x1_0000_0000_0000_0000
    ensures n < 0x8_0000_0000 ==>
            |Varint(n)| == if n < 0x80 then 1 else if n < 0x4000 then 2 else if n < 0x20_0000 then 3
                           else if n < 0x1000_0000 then 4 else 5
  {
    if n < 0x8_0000_0000 {
      var r1 := n / 128;
      var r2 := r1 / 128;
      var r3 := r2 / 128;
      var r4 := r3 / 128;
      assert r4 < 128;
      assert |Varint(r4)| == 1;
      assert |Varint(r3)| == if r3 < 128 then 1 else 2;
      assert |Varint(r2)| == if r2 < 128 then 1 else 1 + |Varint(r3)|;
      assert |Varint(r1)| == if r1 < 128 then 1 else 1 + |Varint(r2)|;
    }
  }

  lemma SizeShift5(n: nat)
    requires n >= 0x8_0000_0000
    ensures |Varint(n)| == 5 + |Varint(n / 0x8_0000_0000)|
  {
    var r1 := n / 128;
    var r2 := r1 / 128;
    var r3 := r2 / 128;
    var r4 := r3 / 128;
    assert r4 / 128 == n / 0x8_0000_0000;
    assert |Varint(r3)| == 1 + |Varint(r4)|;
    assert |Varint(r2)| == 1 + |Varint(r3)|;
    assert |Varint(r1)| == 1 + |Varint(r2)|;
  }
}
