/** Unsigned words and the bit operations that do not reduce to one division.

    Throughout the project a 32-bit word is its unsigned pattern, an integer in [0, 2^32).
    On such patterns `x & (2^k - 1)` is `x % 2^k`, `x >>> k` is `x / 2^k` and `x << k` is
    `x * 2^k % 2^32`; they are written that way. `|` and `^` have no such closed form and are
    defined bit by bit here. */
module Words {

  const U32: int := 0x1_0000_0000

  type byte = x: int | 0 <= x < 256

  /** A UTF-16 code unit. */
  type u16 = x: int | 0 <= x < 0x1_0000

  type u32 = x: int | 0 <= x < 0x1_0000_0000

  type i32 = x: int | -0x8000_0000 <= x < 0x8000_0000

  /** `x | 0`: the signed reading of a pattern. */
  function ToInt32(x: u32): (r: i32)
    ensures (r - x) % U32 == 0
  {
    if x < 0x8000_0000 then x else x - U32
  }

  /** `x >>> 0`: the pattern of an integer. */
  function ToUint32(x: int): (r: u32)
    ensures (x - r) % U32 == 0
  {
    x % U32
  }

  lemma SignedPattern(v: i32)
    ensures ToInt32(ToUint32(v)) == v
  {
  }

  function Pow2(k: nat): (r: nat)
    ensures r > 0
  {
    if k == 0 then 1 else 2 * Pow2(k - 1)
  }

  lemma Pow2Values()
    ensures Pow2(1) == 2 && Pow2(4) == 0x10 && Pow2(5) == 0x20 && Pow2(6) == 0x40 && Pow2(7) == 0x80
    ensures Pow2(10) == 0x400 && Pow2(12) == 0x1000 && Pow2(14) == 0x4000 && Pow2(15) == 0x8000
    ensures Pow2(18) == 0x4_0000 && Pow2(21) == 0x20_0000 && Pow2(24) == 0x100_0000
    ensures Pow2(25) == 0x200_0000 && Pow2(28) == 0x1000_0000 && Pow2(31) == 0x8000_0000 && Pow2(32) == U32
  {
  }

  /** c * 2^k by doubling. */
  function Shifted(c: nat, k: nat): nat {
    if k == 0 then c else 2 * Shifted(c, k - 1)
  }

  lemma {:induction false} ShiftedIs(c: nat, k: nat)
    ensures Shifted(c, k) == c * Pow2(k)
  {
    if k > 0 {
      ShiftedIs(c, k - 1);
      Twice(c, Pow2(k - 1));
    }
  }

  lemma Twice(x: nat, y: nat)
    ensures x * (2 * y) == 2 * (x * y)
  {
  }

  function Or(a: nat, b: nat): (r: nat)
    ensures r >= a && r >= b
    ensures r <= a + b
    decreases a
  {
    if a == 0 then b
    else (if a % 2 == 1 || b % 2 == 1 then 1 else 0) + 2 * Or(a / 2, b / 2)
  }

  function Xor(a: nat, b: nat): nat
    decreases a + b
  {
    if a == 0 then b
    else if b == 0 then a
    else (if a % 2 != b % 2 then 1 else 0) + 2 * Xor(a / 2, b / 2)
  }

  /** One bit of an OR. */
  lemma OrHalves(a: nat, b: nat)
    ensures Or(a, b) == (if a % 2 == 1 || b % 2 == 1 then 1 else 0) + 2 * Or(a / 2, b / 2)
  {
  }

  /** OR-ing words without a common bit adds them. */
  lemma {:induction false} OrDisjoint(a: nat, c: nat, k: nat)
    requires a < Pow2(k)
    ensures Or(a, Shifted(c, k)) == a + Shifted(c, k)
  {
    if a > 0 {
      assert k > 0;
      hide Or;
      OrDisjoint(a / 2, c, k - 1);
      OrHalves(a, Shifted(c, k));
    }
  }

  /** OR-ing the same words the other way round. */
  lemma {:induction false} OrCommutes(a: nat, b: nat)
    ensures Or(a, b) == Or(b, a)
  {
    if a == 0 {
      OrZero(b);
    } else if b == 0 {
      OrZero(a);
    } else {
      OrCommutes(a / 2, b / 2);
    }
  }

  lemma {:induction false} OrZero(a: nat)
    ensures Or(a, 0) == a
  {
    if a > 0 {
      OrZero(a / 2);
    }
  }

  /** Both readings of OrDisjoint at once: the low part may stand on either side. */
  lemma OrAdds(low: nat, c: nat, k: nat)
    requires low < Pow2(k)
    ensures Or(low, c * Pow2(k)) == low + c * Pow2(k) == Or(c * Pow2(k), low)
  {
    OrDisjoint(low, c, k);
    ShiftedIs(c, k);
    OrCommutes(low, c * Pow2(k));
  }

  lemma XorZero(a: nat)
    ensures Xor(a, 0) == a
  {
  }

  /** XOR with a word of k ones is the complement on k bits. */
  lemma {:induction false} XorOnes(a: nat, k: nat)
    requires a < Pow2(k)
    ensures Xor(a, Pow2(k) - 1) == Pow2(k) - 1 - a
  {
    if k > 0 {
      var half := Pow2(k - 1) - 1;
      XorOnes(a / 2, k - 1);
      XorStep(a, half);
    }
  }

  /** One bit of an XOR with an odd word. */
  lemma XorStep(a: nat, half: nat)
    ensures Xor(a, 2 * half + 1) == 1 - a % 2 + 2 * Xor(a / 2, half)
  {
    assert (2 * half + 1) / 2 == half && (2 * half + 1) % 2 == 1;
    if a == 0 {
      assert Xor(0, half) == half;
    }
  }

  lemma MulAtLeast(d: nat, x: nat)
    requires x >= 1
    ensures d * x >= d
  {
  }

  /** Quotient and remainder are determined by their defining equation. */
  lemma ModUnique(n: nat, d: nat, a: nat, b: nat)
    requires b < d && n == d * a + b
    ensures n % d == b && n / d == a
  {
    var q, r := n / d, n % d;
    DivMod(n, d);
    if q > a {
      assert d * q == d * a + d * (q - a);
      MulAtLeast(d, q - a);
    } else if q < a {
      assert d * a == d * q + d * (a - q);
      MulAtLeast(d, a - q);
    }
  }

  lemma DivMod(n: nat, d: nat)
    requires d > 0
    ensures n == d * (n / d) + n % d
    ensures 0 <= n % d < d
  {}

  /** One remainder taken in two stages. */
  lemma ModSplit(n: nat, m: nat, k: nat)
    requires m > 0 && k > 0 && m * k > 0
    ensures n % (m * k) == n % m + n / m % k * m
    ensures n / (m * k) == n / m / k
  {
    var q, r := n / m, n % m;
    DivMod(n, m);
    DivMod(q, k);
    var low := q % k * m + r;
    assert low < m * k by {
      assert m * k == (q % k) * m + (k - q % k) * m;
      MulAtLeast(m, k - q % k);
    }
    assert n == (m * k) * (q / k) + low;
    ModUnique(n, m * k, q / k, low);
  }

  /** Concatenation is associative, also when nothing is appended. */
  lemma Associate<T>(a: seq<T>, b: seq<T>, c: seq<T>)
    ensures (a + b) + c == a + (b + c)
    ensures c == [] ==> a + b == a + (b + c)
  {
  }

  /** x stands in the buffer at pos. */
  ghost predicate At(b: seq<byte>, pos: nat, x: seq<byte>) {
    pos + |x| <= |b| && b[pos..pos + |x|] == x
  }

  lemma AtByte(b: seq<byte>, pos: nat, x: seq<byte>, i: nat)
    requires At(b, pos, x) && i < |x|
    ensures b[pos + i] == x[i]
  {
    assert b[pos..pos + |x|][i] == x[i];
  }

  lemma AtSelf(b: seq<byte>)
    ensures At(b, 0, b)
  {
    assert b[0..|b|] == b;
  }

  lemma AtSplit(b: seq<byte>, pos: nat, x: seq<byte>, y: seq<byte>)
    requires At(b, pos, x + y)
    ensures At(b, pos, x) && At(b, pos + |x|, y)
  {
    assert (x + y)[..|x|] == x && (x + y)[|x|..] == y;
    assert b[pos..pos + |x|] == b[pos..pos + |x + y|][..|x|];
    assert b[pos + |x|..pos + |x| + |y|] == b[pos..pos + |x + y|][|x|..];
  }

  /** A buffer in which the bytes of `all` from start up to pos are in place, and everything
      outside the room of `all` is as it was. */
  ghost predicate Placed(now: seq<byte>, was: seq<byte>, all: seq<byte>, start: nat, pos: nat) {
    && |now| == |was| && start <= pos <= start + |all| <= |was|
    && now[start..pos] == all[..pos - start]
    && now[..start] == was[..start] && now[start + |all|..] == was[start + |all|..]
  }

  lemma PlacedNothing(was: seq<byte>, all: seq<byte>, start: nat)
    requires start + |all| <= |was|
    ensures Placed(was, was, all, start, start) && all[start - start..] == all
  {
  }

  lemma PlacedBounds(now: seq<byte>, was: seq<byte>, all: seq<byte>, start: nat, pos: nat)
    requires Placed(now, was, all, start, pos)
    ensures start <= pos <= start + |all| <= |was| == |now|
  {
  }

  /** The next few bytes put in place. */
  lemma PlacedMore(now: seq<byte>, next: seq<byte>, was: seq<byte>, all: seq<byte>, start: nat, pos: nat, x: seq<byte>)
    requires Placed(now, was, all, start, pos) && pos + |x| <= start + |all|
    requires next == now[..pos] + x + now[pos + |x|..]
    requires all[pos - start..pos - start + |x|] == x
    ensures Placed(next, was, all, start, pos + |x|)
  {
    var d := pos - start;
    assert next[start..pos + |x|] == now[start..pos] + x;
    assert all[..d + |x|] == all[..d] + x;
    assert next[..start] == now[..start];
    assert next[start + |all|..] == now[start + |all|..];
  }

  lemma PlacedByte(now: seq<byte>, was: seq<byte>, all: seq<byte>, start: nat, pos: nat)
    requires Placed(now, was, all, start, pos) && pos < start + |all|
    ensures Placed(now[pos := all[pos - start]], was, all, start, pos + 1)
  {
    var d := pos - start;
    var next := now[pos := all[d]];
    assert next == now[..pos] + [all[d]] + now[pos + 1..];
    assert all[d..d + 1] == [all[d]];
    PlacedMore(now, next, was, all, start, pos, [all[d]]);
  }

  lemma PlacedAll(now: seq<byte>, was: seq<byte>, all: seq<byte>, start: nat)
    requires Placed(now, was, all, start, start + |all|)
    ensures now[start..start + |all|] == all
    ensures forall k :: 0 <= k < start || start + |all| <= k < |was| ==> now[k] == was[k]
  {
    forall k | 0 <= k < start || start + |all| <= k < |was| ensures now[k] == was[k] {
      if k < start {
        assert now[k] == now[..start][k] == was[..start][k];
      } else {
        assert now[k] == now[start + |all|..][k - start - |all|] == was[start + |all|..][k - start - |all|];
      }
    }
  }
}
