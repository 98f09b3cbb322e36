/** The `base64` namespace: section 4 of RFC 4648, with the state machine of `encode` and
    `decode` and the chunked output of `encode`. */
module Base64 {
  import opened Options
  import opened Words
  import opened Utf8

  const PAD: u16 := 61

  /** The encoding table. */
  function Digit(i: nat): (c: u16)
    requires i < 64
    ensures c != PAD
  {
    assert Or(3, 43) == 43 && Or(4, 43) == 47 by { LastDigits(); }
    if i < 26 then i + 65 else if i < 52 then i + 71 else if i < 62 then i - 4 else Or(i - 59, 43)
  }

  lemma LastDigits()
    ensures Or(3, 43) == 43 && Or(4, 43) == 47
  {
    assert Or(1, 21) == 21 && Or(2, 21) == 23 by {
      assert Or(0, 10) == 10 && Or(1, 10) == 11 by { assert Or(0, 5) == 5; }
    }
  }

  /** The decoding table, None where it is undefined. */
  function Value(c: u16): (r: Option<nat>)
    ensures r.Some? ==> r.value < 64 && Digit(r.value) == c
  {
    LastDigits();
    if 65 <= c <= 90 then Some(c - 65)
    else if 97 <= c <= 122 then Some(c - 71)
    else if 48 <= c <= 57 then Some(c + 4)
    else if c == 43 then Some(62)
    else if c == 47 then Some(63)
    else None
  }

  /** The two tables are inverse to each other. */
  lemma DigitValue(i: nat)
    requires i < 64
    ensures Value(Digit(i)) == Some(i)
  {
    DigitCode(i);
    hide Digit, Or;
  }

  const UPPER := "ABCDEFGHIJKLMNOPQRSTUVWXYZ"
  const LOWER := "abcdefghijklmnopqrstuvwxyz"

  /** Table 1 of RFC 4648. */
  const ALPHABET := UPPER + (LOWER + "0123456789+/")

  lemma UpperAt(i: nat)
    requires i < 26
    ensures UPPER[i] as int == 65 + i && LOWER[i] as int == 97 + i
  {
  }

  lemma DigitCode(i: nat)
    requires i < 64
    ensures Digit(i) == if i < 26 then i + 65 else if i < 52 then i + 71 else if i < 62 then i - 4
                        else if i == 62 then 43 else 47
  {
    LastDigits();
    hide Or;
  }

  lemma LetterAt(i: nat)
    requires i < 64
    ensures |ALPHABET| == 64 && Digit(i) == ALPHABET[i] as int
  {
    hide *;
    DigitCode(i);
    Parts();
    JoinedAt(UPPER, LOWER, "0123456789+/", i);
    if i < 26 {
      UpperAt(i);
    } else if i < 52 {
      UpperAt(i - 26);
    } else {
      LastLetters(i - 52);
    }
  }

  lemma Parts()
    ensures ALPHABET == UPPER + (LOWER + "0123456789+/") && |UPPER| == |LOWER| == 26
  {
  }

  lemma JoinedAt(a: string, b: string, c: string, i: nat)
    requires i < |a| + |b| + |c|
    ensures (a + (b + c))[i] ==
            if i < |a| then a[i] else if i < |a| + |b| then b[i - |a|] else c[i - |a| - |b|]
  {
  }

  lemma LastLetters(i: nat)
    requires i < 12
    ensures "0123456789+/"[i] as int == if i < 10 then 48 + i else if i == 10 then 43 else 47
  {
  }

  /** The digits are the letters of the standard alphabet, and no other character has a value. */
  lemma Letters(i: nat, c: u16)
    requires i < 64
    ensures |ALPHABET| == 64 && Digit(i) == ALPHABET[i] as int
    ensures Value(c).Some? <==> exists k :: 0 <= k < 64 && c == ALPHABET[k] as int
  {
    hide Digit, Value, ALPHABET;
    LetterAt(i);
    if Value(c).Some? {
      LetterAt(Value(c).value);
    }
    forall k | 0 <= k < 64 && c == ALPHABET[k] as int ensures Value(c) == Some(k) {
      LetterAt(k);
      DigitValue(k);
    }
  }

  /** Three bytes to four digits; a rest of one or two bytes is filled with zero bits and padded. */
  function Encoded(b: seq<byte>): (s: Text) {
    if b == [] then []
    else if |b| == 1 then [Digit(b[0] / 4), Digit(b[0] % 4 * 16), PAD, PAD]
    else if |b| == 2 then [Digit(b[0] / 4), Digit(b[0] % 4 * 16 + b[1] / 16), Digit(b[1] % 16 * 4), PAD]
    else
      [Digit(b[0] / 4), Digit(b[0] % 4 * 16 + b[1] / 16), Digit(b[1] % 16 * 4 + b[2] / 64), Digit(b[2] % 64)]
      + Encoded(b[3..])
  }

  /** A group of bytes is one number of 24 bits, and its digits are that number in base 64; bytes
      that are not there count as zero, and their digits as padding. */
  lemma GroupNumber(b0: byte, b1: byte, b2: byte)
    ensures var n := b0 * 0x1_0000 + b1 * 0x100 + b2;
      Encoded([b0, b1, b2]) == [Digit(n / 0x4_0000), Digit(n / 0x1000 % 64), Digit(n / 64 % 64), Digit(n % 64)]
    ensures var n := b0 * 0x1_0000 + b1 * 0x100;
      Encoded([b0, b1]) == [Digit(n / 0x4_0000), Digit(n / 0x1000 % 64), Digit(n / 64 % 64), PAD]
    ensures var n := b0 * 0x1_0000; Encoded([b0]) == [Digit(n / 0x4_0000), Digit(n / 0x1000 % 64), PAD, PAD]
  {
    hide Digit, Or;
    Sextets(b0, b1, b2);
    Sextets(b0, b1, 0);
    Sextets(b0, 0, 0);
    assert [b0, b1, b2][3..] == [];
  }

  lemma Sextets(b0: byte, b1: byte, b2: byte)
    ensures var n := b0 * 0x1_0000 + b1 * 0x100 + b2;
      && n / 0x4_0000 == b0 / 4 && n / 0x1000 % 64 == b0 % 4 * 16 + b1 / 16
      && n / 64 % 64 == b1 % 16 * 4 + b2 / 64 && n % 64 == b2 % 64
  {
    var n, v1, v2 := b0 * 0x1_0000 + b1 * 0x100 + b2, b0 % 4 * 16 + b1 / 16, b1 % 16 * 4 + b2 / 64;
    DivMod(b0, 4);
    DivMod(b1, 16);
    DivMod(b2, 64);
    ModUnique(n, 0x4_0000, b0 / 4, v1 * 0x1000 + v2 * 64 + b2 % 64);
    ModUnique(n, 0x1000, b0 / 4 * 64 + v1, v2 * 64 + b2 % 64);
    ModUnique(b0 / 4 * 64 + v1, 64, b0 / 4, v1);
    ModUnique(n, 64, (b0 / 4 * 64 + v1) * 64 + v2, b2 % 64);
    ModUnique((b0 / 4 * 64 + v1) * 64 + v2, 64, b0 / 4 * 64 + v1, v2);
  }

  /** Whole groups are encoded on their own. */
  lemma {:induction false} GroupsApart(a: seq<byte>, b: seq<byte>)
    requires |a| % 3 == 0
    ensures Encoded(a + b) == Encoded(a) + Encoded(b)
    decreases |a|
  {
    hide Digit, Or;
    if a == [] {
      assert a + b == b;
    } else {
      var c := a + b;
      assert |a| >= 3 && c[3..] == a[3..] + b;
      assert c[0] == a[0] && c[1] == a[1] && c[2] == a[2];
      GroupsApart(a[3..], b);
    }
  }

  // ---- the state machines ----

  /** What encode still emits in state j with left-over bits t. */
  function ToCome(j: nat, t: nat, b: seq<byte>): Text
    requires j < 3 && t < 64 && (j == 1 ==> t % 16 == 0) && (j == 2 ==> t % 4 == 0)
    decreases |b|
  {
    if b == [] then
      if j == 0 then [] else if j == 1 then [Digit(t), PAD, PAD] else [Digit(t), PAD]
    else
      match j
      case 0 => [Digit(b[0] / 4)] + ToCome(1, b[0] % 4 * 16, b[1..])
      case 1 => [Digit(t + b[0] / 16)] + ToCome(2, b[0] % 16 * 4, b[1..])
      case _ => [Digit(t + b[0] / 64), Digit(b[0] % 64)] + ToCome(0, 0, b[1..])
  }

  /** The machine emits the groups. */
  lemma {:induction false} MachineEncodes(b: seq<byte>)
    ensures ToCome(0, 0, b) == Encoded(b)
    decreases |b|
  {
    if |b| >= 3 {
      MachineEncodes(b[3..]);
      assert b[1..][1..] == b[2..] && b[2..][1..] == b[3..];
      assert ToCome(2, b[1] % 16 * 4, b[2..])
          == [Digit(b[1] % 16 * 4 + b[2] / 64), Digit(b[2] % 64)] + ToCome(0, 0, b[3..]);
      assert ToCome(1, b[0] % 4 * 16, b[1..]) == [Digit(b[0] % 4 * 16 + b[1] / 16)] + ToCome(2, b[1] % 16 * 4, b[2..]);
    } else if |b| == 2 {
      assert b[1..][1..] == [];
      assert ToCome(1, b[0] % 4 * 16, b[1..]) == [Digit(b[0] % 4 * 16 + b[1] / 16)] + ToCome(2, b[1] % 16 * 4, []);
    }
  }

  /** The bytes decode makes of s in state j with the last digit's value t; None is the throw. */
  function Decoded(j: nat, t: nat, s: Text): (r: Option<seq<byte>>)
    requires j < 4 && t < 64
    decreases |s|
  {
    if s == [] then if j == 1 then None else Some([])
    else if s[0] == PAD && j > 1 then Some([])
    else if Value(s[0]).None? then None
    else
      var c := Value(s[0]).value;
      match j
      case 0 => Decoded(1, c, s[1..])
      case 1 => Prepend(t * 4 + c / 16, Decoded(2, c, s[1..]))
      case 2 => Prepend(t % 16 * 16 + c / 4, Decoded(3, c, s[1..]))
      case _ => Prepend(t % 4 * 64 + c, Decoded(0, c, s[1..]))
  }

  function NextState(j: nat): nat {
    if j == 3 then 0 else j + 1
  }

  function Prepend(x: byte, r: Option<seq<byte>>): Option<seq<byte>> {
    if r.None? then None else Some([x] + r.value)
  }

  lemma DecodeDigit(j: nat, t: nat, i: nat, rest: Text)
    requires j < 4 && t < 64 && i < 64
    ensures Decoded(j, t, [Digit(i)] + rest) ==
            match j
            case 0 => Decoded(1, i, rest)
            case 1 => Prepend(t * 4 + i / 16, Decoded(2, i, rest))
            case 2 => Prepend(t % 16 * 16 + i / 4, Decoded(3, i, rest))
            case _ => Prepend(t % 4 * 64 + i, Decoded(0, i, rest))
  {
    hide Digit;
    DigitValue(i);
    assert ([Digit(i)] + rest)[1..] == rest;
  }

  lemma ThreeBytes(b0: byte, b1: byte, b2: byte)
    ensures var v1, v2 := b0 % 4 * 16 + b1 / 16, b1 % 16 * 4 + b2 / 64;
      b0 / 4 * 4 + v1 / 16 == b0 && v1 % 16 * 16 + v2 / 4 == b1 && v2 % 4 * 64 + b2 % 64 == b2
  {
    ModUnique(b0 % 4 * 16 + b1 / 16, 16, b0 % 4, b1 / 16);
    ModUnique(b1 % 16 * 4 + b2 / 64, 4, b1 % 16, b2 / 64);
  }

  /** base64.decode inverts base64.encode on byte strings of any length. */
  lemma {:induction false} DecodeInvertsEncode(b: seq<byte>, t: nat)
    requires t < 64
    ensures Decoded(0, t, Encoded(b)) == Some(b)
    decreases |b|
  {
    if |b| >= 3 {
      hide *;
      DecodeInvertsEncode(b[3..], b[2] % 64);
      GroupInverts(b, t);
    } else if |b| == 2 {
      hide *;
      PairInverts(b, t);
    } else if |b| == 1 {
      hide *;
      SingleInverts(b, t);
    }
  }

  lemma GroupInverts(b: seq<byte>, t: nat)
    requires t < 64 && |b| >= 3 && Decoded(0, b[2] % 64, Encoded(b[3..])) == Some(b[3..])
    ensures Decoded(0, t, Encoded(b)) == Some(b)
  {
    hide Decoded, Digit, Encoded, Prepend;
    var rest := b[3..];
    EncodedGroup(b);
    ThreeBytes(b[0], b[1], b[2]);
    GroupDecoded(t, b[0], b[1], b[2], Encoded(rest));
    PrependSome(b[2], rest);
    PrependSome(b[1], [b[2]] + rest);
    PrependSome(b[0], [b[1]] + ([b[2]] + rest));
    FirstThree(b);
  }

  lemma PrependSome(x: byte, y: seq<byte>)
    ensures Prepend(x, Some(y)) == Some([x] + y)
  {
  }

  lemma PairInverts(b: seq<byte>, t: nat)
    requires t < 64 && |b| == 2
    ensures Decoded(0, t, Encoded(b)) == Some(b)
  {
    hide Decoded, Digit;
    ThreeBytes(b[0], b[1], 0);
    PairDecoded(t, b[0], b[1]);
    assert b == [b[0]] + ([b[1]] + []);
  }

  lemma SingleInverts(b: seq<byte>, t: nat)
    requires t < 64 && |b| == 1
    ensures Decoded(0, t, Encoded(b)) == Some(b)
  {
    hide Decoded, Digit;
    ThreeBytes(b[0], 0, 0);
    SingleDecoded(t, b[0]);
    assert b == [b[0]] + [];
  }

  lemma EncodedGroup(b: seq<byte>)
    requires |b| >= 3
    ensures Encoded(b) ==
            [Digit(b[0] / 4), Digit(b[0] % 4 * 16 + b[1] / 16), Digit(b[1] % 16 * 4 + b[2] / 64), Digit(b[2] % 64)]
            + Encoded(b[3..])
  {
    hide Digit;
  }

  lemma FirstThree(b: seq<byte>)
    requires |b| >= 3
    ensures [b[0]] + ([b[1]] + ([b[2]] + b[3..])) == b
  {
  }

  lemma GroupDecoded(t: nat, b0: byte, b1: byte, b2: byte, rest: Text)
    requires t < 64
    ensures var v1, v2 := b0 % 4 * 16 + b1 / 16, b1 % 16 * 4 + b2 / 64;
      Decoded(0, t, [Digit(b0 / 4), Digit(v1), Digit(v2), Digit(b2 % 64)] + rest) ==
      Prepend(b0 / 4 * 4 + v1 / 16, Prepend(v1 % 16 * 16 + v2 / 4, Prepend(v2 % 4 * 64 + b2 % 64,
        Decoded(0, b2 % 64, rest))))
  {
    hide Decoded, Digit, Prepend;
    var v0, v1, v2, v3 := b0 / 4, b0 % 4 * 16 + b1 / 16, b1 % 16 * 4 + b2 / 64, b2 % 64;
    DecodeDigit(3, v2, v3, rest);
    DecodeDigit(2, v1, v2, [Digit(v3)] + rest);
    DecodeDigit(1, v0, v1, [Digit(v2)] + ([Digit(v3)] + rest));
    DecodeDigit(0, t, v0, [Digit(v1)] + ([Digit(v2)] + ([Digit(v3)] + rest)));
    assert [Digit(v0)] + ([Digit(v1)] + ([Digit(v2)] + ([Digit(v3)] + rest)))
           == [Digit(v0), Digit(v1), Digit(v2), Digit(v3)] + rest;
  }

  lemma PairDecoded(t: nat, b0: byte, b1: byte)
    requires t < 64
    ensures var v1, v2 := b0 % 4 * 16 + b1 / 16, b1 % 16 * 4;
      Decoded(0, t, [Digit(b0 / 4), Digit(v1), Digit(v2), PAD]) ==
      Prepend(b0 / 4 * 4 + v1 / 16, Prepend(v1 % 16 * 16 + v2 / 4, Some([])))
  {
    var v0, v1, v2 := b0 / 4, b0 % 4 * 16 + b1 / 16, b1 % 16 * 4;
    assert Decoded(3, v2, [PAD]) == Some([]);
    hide Decoded, Digit, Prepend;
    DecodeDigit(2, v1, v2, [PAD]);
    DecodeDigit(1, v0, v1, [Digit(v2)] + [PAD]);
    DecodeDigit(0, t, v0, [Digit(v1)] + ([Digit(v2)] + [PAD]));
    assert [Digit(v0)] + ([Digit(v1)] + ([Digit(v2)] + [PAD])) == [Digit(v0), Digit(v1), Digit(v2), PAD];
  }

  lemma SingleDecoded(t: nat, b0: byte)
    requires t < 64
    ensures var v1 := b0 % 4 * 16;
      Decoded(0, t, [Digit(b0 / 4), Digit(v1), PAD, PAD]) == Prepend(b0 / 4 * 4 + v1 / 16, Some([]))
  {
    var v0, v1 := b0 / 4, b0 % 4 * 16;
    assert Decoded(2, v1, [PAD, PAD]) == Some([]);
    hide Decoded, Digit, Prepend;
    DecodeDigit(1, v0, v1, [PAD, PAD]);
    DecodeDigit(0, t, v0, [Digit(v1)] + [PAD, PAD]);
    assert [Digit(v0)] + ([Digit(v1)] + [PAD, PAD]) == [Digit(v0), Digit(v1), PAD, PAD];
  }

  /** How many characters of the alphabet the string begins with. */
  function Digits(s: Text): (k: nat)
    ensures k <= |s|
  {
    if s == [] || Value(s[0]).None? then 0 else 1 + Digits(s[1..])
  }

  /** What decode accepts: digits to the end that do not leave a single one over, or digits that
      leave two or three over and then a pad, whatever follows it. */
  predicate Accepted(s: Text) {
    var k := Digits(s);
    if k == |s| then k % 4 != 1 else s[k] == PAD && k % 4 > 1
  }

  /** decode returns exactly on accepted strings, with three quarters of a byte for each digit. */
  lemma DecodedExactly(s: Text)
    ensures Decoded(0, 0, s).Some? <==> Accepted(s)
    ensures Decoded(0, 0, s).Some? ==> |Decoded(0, 0, s).value| == 3 * Digits(s) / 4
  {
    DecodedFrom(0, 0, s);
  }

  lemma {:induction false} DecodedFrom(j: nat, t: nat, s: Text)
    requires j < 4 && t < 64
    ensures var k, r := Digits(s), Decoded(j, t, s);
      && (r.Some? <==> if k == |s| then (j + k) % 4 != 1 else s[k] == PAD && (j + k) % 4 > 1)
      && (r.Some? ==> |r.value| == 3 * (j + k) / 4 - 3 * j / 4)
    decreases |s|
  {
    hide *;
    NextSmall(j);
    DigitsStep(s);
    if s != [] && Value(s[0]).Some? {
      var v, rest := Value(s[0]).value, s[1..];
      DecodedStep(j, t, s);
      DecodedFrom(NextState(j), v, rest);
      CountStep(j, Digits(rest));
      PrependLength(DecodeByte(j, t, v), Decoded(NextState(j), v, rest));
    } else {
      DecodedStop(j, t, s);
    }
  }

  lemma NextSmall(j: nat)
    requires j < 4
    ensures NextState(j) < 4 && (NextState(j) == 0 <==> j == 3)
  {
  }

  lemma DigitsStep(s: Text)
    ensures Digits(s) == if s == [] || Value(s[0]).None? then 0 else 1 + Digits(s[1..])
    ensures s != [] && Value(s[0]).Some? ==> s[0] != PAD
    ensures Digits(s) < |s| && Digits(s) > 0 ==> s[Digits(s)] == s[1..][Digits(s) - 1]
  {
    hide Value;
  }

  lemma PrependLength(x: byte, r: Option<seq<byte>>)
    ensures Prepend(x, r).Some? <==> r.Some?
    ensures r.Some? ==> |Prepend(x, r).value| == 1 + |r.value|
  {
  }

  lemma DecodedStop(j: nat, t: nat, s: Text)
    requires j < 4 && t < 64 && (s == [] || Value(s[0]).None?)
    ensures var r := Decoded(j, t, s);
      && (r.Some? <==> if s == [] then j != 1 else s[0] == PAD && j > 1)
      && (r.Some? ==> r.value == [])
  {
    hide Value;
  }

  /** One digit more. */
  lemma CountStep(j: nat, k: nat)
    requires j < 4
    ensures (j + (k + 1)) % 4 == (NextState(j) + k) % 4
    ensures 3 * (j + (k + 1)) / 4 - 3 * j / 4
            == (if j == 0 then 0 else 1) + (3 * (NextState(j) + k) / 4 - 3 * NextState(j) / 4)
  {
    if j == 3 {
      DivMod(k, 4);
      ModUnique(k + 4, 4, k / 4 + 1, k % 4);
      DivMod(3 * k, 4);
      ModUnique(3 * (k + 4), 4, 3 * k / 4 + 3, 3 * k % 4);
    } else {
      assert NextState(j) + k == j + (k + 1);
    }
  }

  // ---- length ----

  /** How many pad characters length counts: the longest run in front of p that stands at the last two
      places of its group. */
  function Padding(s: Text, p: nat): nat
    requires p <= |s|
    decreases p
  {
    if p > 0 && (p - 1) % 4 > 1 && s[p - 1] == PAD then 1 + Padding(s, p - 1) else 0
  }

  lemma {:induction false} PaddingRun(s: Text, p: nat)
    requires p <= |s|
    ensures var n := Padding(s, p);
      && n <= p && (forall k :: p - n <= k < p ==> k % 4 > 1 && s[k] == PAD)
      && (n < p ==> (p - n - 1) % 4 <= 1 || s[p - n - 1] != PAD)
    decreases p
  {
    if p > 0 && (p - 1) % 4 > 1 && s[p - 1] == PAD {
      PaddingRun(s, p - 1);
    }
  }

  /** base64.length; a fraction unless the string is made of whole groups. */
  method Length(s: Text) returns (r: real)
    ensures r == (|s| * 3) as real / 4.0 - Padding(s, |s|) as real
  {
    if |s| == 0 {
      return 0.0;
    }
    var n := 0;
    var p := |s| - 1;
    while p % 4 > 1 && s[p] == PAD
      invariant 0 <= p < |s| && n + Padding(s, p + 1) == Padding(s, |s|)
    {
      n := n + 1;
      p := p - 1;
    }
    r := (|s| * 3) as real / 4.0 - n as real;
  }

  /** The length of an encoding is the number of bytes encoded. */
  lemma {:induction false} LengthOfEncoded(b: seq<byte>)
    ensures var s := Encoded(b); |s| % 4 == 0 && 3 * |s| == 4 * (|b| + Padding(s, |s|))
    decreases |b|
  {
    hide *;
    if |b| < 3 {
      ShortPadding(b);
    } else {
      LengthOfEncoded(b[3..]);
      GroupPadding(b);
    }
  }

  /** Four more digits in front do not change the padding. */
  lemma GroupPadding(b: seq<byte>)
    requires |b| >= 3
    ensures var s, rest := Encoded(b), Encoded(b[3..]);
      |s| == 4 + |rest| && Padding(s, |s|) == Padding(rest, |rest|)
  {
    hide Digit, Encoded, Padding;
    EncodedGroup(b);
    var s, rest := Encoded(b), Encoded(b[3..]);
    assert s[4..] == rest;
    if rest == [] {
      NoPadding(s);
      NothingPadded(rest);
    } else {
      PaddingOfTail(s, |s|);
    }
  }

  lemma NothingPadded(s: Text)
    ensures Padding(s, 0) == 0
  {
  }

  /** base64.length of an encoding is the number of bytes, with no fraction left. */
  lemma LengthIsExact(b: seq<byte>)
    ensures var s := Encoded(b); (|s| * 3) as real / 4.0 - Padding(s, |s|) as real == |b| as real
    ensures Encoded(b) == [] <==> b == []
  {
    hide Padding, Digit;
    LengthOfEncoded(b);
    var s := Encoded(b);
    assert (|s| * 3) as real == 4.0 * (|b| + Padding(s, |s|)) as real;
  }

  lemma ShortPadding(b: seq<byte>)
    requires |b| < 3
    ensures var s := Encoded(b); |s| % 4 == 0 && 3 * |s| == 4 * (|b| + Padding(s, |s|))
  {
    hide Digit;
    var s := Encoded(b);
    if b != [] {
      assert s[3] == PAD;
      assert Padding(s, 2) == 0;
      assert Padding(s, 3) == if |b| == 1 then 1 else 0;
    }
  }

  lemma NoPadding(s: Text)
    requires |s| > 0 && s[|s| - 1] != PAD
    ensures Padding(s, |s|) == 0
  {
  }

  lemma {:induction false} PaddingOfTail(s: Text, p: nat)
    requires 4 < p <= |s|
    ensures Padding(s, p) == Padding(s[4..], p - 4)
    decreases p
  {
    assert s[4..][p - 5] == s[p - 1];
    if p > 5 {
      PaddingOfTail(s, p - 1);
    }
  }

  // ---- encode and decode ----

  /** The bytes between start and end; past the buffer JavaScript reads undefined, which counts as 0. */
  function Slice(buffer: seq<byte>, start: nat, end: nat): seq<byte>
    decreases end - start
  {
    if start < end then [ByteAt(buffer, start)] + Slice(buffer, start + 1, end) else []
  }

  lemma {:induction false} SliceInside(buffer: seq<byte>, start: nat, end: nat)
    requires start <= end <= |buffer|
    ensures Slice(buffer, start, end) == buffer[start..end]
    decreases end - start
  {
    if start < end {
      SliceInside(buffer, start + 1, end);
    }
  }

  /** What encode has put out so far and what is still to come make up the whole encoding. */
  ghost predicate Underway(out: Text, j: nat, t: nat, rest: seq<byte>, whole: Text) {
    && j < 3 && t < 64 && (j == 1 ==> t % 16 == 0) && (j == 2 ==> t % 4 == 0)
    && out + ToCome(j, t, rest) == whole
  }

  /** One byte through the machine, state by state. */
  lemma EncodeStep0(out: Text, t: nat, b: byte, rest: seq<byte>, whole: Text)
    requires Underway(out, 0, t, [b] + rest, whole)
    ensures Underway(out + [Digit(b / 4)], 1, b % 4 * 16, rest, whole)
  {
    ToCome0(t, b, rest);
    hide Digit, ToCome;
    Associate(out, [Digit(b / 4)], ToCome(1, b % 4 * 16, rest));
  }

  lemma EncodeStep1(out: Text, t: nat, b: byte, rest: seq<byte>, whole: Text)
    requires Underway(out, 1, t, [b] + rest, whole)
    ensures t + b / 16 < 64 && Underway(out + [Digit(t + b / 16)], 2, b % 16 * 4, rest, whole)
  {
    ToCome1(t, b, rest);
    hide Digit, ToCome;
    Associate(out, [Digit(t + b / 16)], ToCome(2, b % 16 * 4, rest));
  }

  lemma EncodeStep2(out: Text, t: nat, b: byte, rest: seq<byte>, whole: Text)
    requires Underway(out, 2, t, [b] + rest, whole)
    ensures t + b / 64 < 64 && Underway(out + [Digit(t + b / 64)] + [Digit(b % 64)], 0, t, rest, whole)
  {
    ToCome2(t, b, rest);
    hide Digit, ToCome;
    Associate(out + [Digit(t + b / 64)], [Digit(b % 64)], ToCome(0, t, rest));
    Associate(out, [Digit(t + b / 64)], [Digit(b % 64)] + ToCome(0, t, rest));
  }

  lemma ToCome0(t: nat, b: byte, rest: seq<byte>)
    requires t < 64
    ensures ToCome(0, t, [b] + rest) == [Digit(b / 4)] + ToCome(1, b % 4 * 16, rest)
  {
    hide Digit;
    assert ([b] + rest)[1..] == rest;
  }

  lemma ToCome1(t: nat, b: byte, rest: seq<byte>)
    requires t < 64 && t % 16 == 0
    ensures t + b / 16 < 64
    ensures ToCome(1, t, [b] + rest) == [Digit(t + b / 16)] + ToCome(2, b % 16 * 4, rest)
  {
    hide Digit;
    assert ([b] + rest)[1..] == rest;
  }

  lemma ToCome2(t: nat, b: byte, rest: seq<byte>)
    requires t < 64 && t % 4 == 0
    ensures t + b / 64 < 64
    ensures ToCome(2, t, [b] + rest) == [Digit(t + b / 64)] + ([Digit(b % 64)] + ToCome(0, t, rest))
  {
    hide Digit;
    assert ([b] + rest)[1..] == rest;
    StateZero(t, rest);
    assert [Digit(t + b / 64), Digit(b % 64)] == [Digit(t + b / 64)] + [Digit(b % 64)];
    Associate([Digit(t + b / 64)], [Digit(b % 64)], ToCome(0, t, rest));
  }

  lemma StateZero(t: nat, b: seq<byte>)
    requires t < 64
    ensures ToCome(0, t, b) == ToCome(0, 0, b)
  {
  }

  /** The chunk array never holds a unit beyond the 8192 that a flush emits. */
  predicate ChunkExact(chunk: Text, i: nat) {
    i <= |chunk| <= 8192 && (|chunk| == i || |chunk| == 8192)
  }

  /** What has been put out: the parts, joined, and the filled part of the chunk. */
  function Out(parts: Text, chunk: Text, i: nat): Text
    requires i <= |chunk|
  {
    parts + chunk[..i]
  }

  /** Writing at the fill index of an exact chunk. */
  lemma ChunkPut(parts: Text, chunk: Text, i: nat, u: u16)
    requires ChunkExact(chunk, i) && i < 8192
    ensures ChunkExact(Assign(chunk, i, u), i + 1)
    ensures Out(parts, Assign(chunk, i, u), i + 1) == Out(parts, chunk, i) + [u]
  {
    var c := Assign(chunk, i, u);
    assert c[..i + 1] == chunk[..i] + [u];
  }

  /** A flush of exactly 8192 characters emits what was filled and nothing else. */
  lemma ChunkFlush(parts: Text, chunk: Text)
    requires ChunkExact(chunk, 8192)
    ensures ChunkExact(chunk, 0) && Out(parts + chunk, chunk, 0) == Out(parts, chunk, 8192)
  {
    assert chunk[..8192] == chunk;
  }

  lemma UnderwayState(out: Text, j: nat, t: nat, rest: seq<byte>, whole: Text)
    requires Underway(out, j, t, rest, whole)
    ensures j < 3 && t < 64 && (j == 1 ==> t % 16 == 0) && (j == 2 ==> t % 4 == 0)
  {
  }

  lemma UnderwayStart(b: seq<byte>)
    ensures Underway(Out([], [], 0), 0, 0, b, Encoded(b))
  {
    MachineEncodes(b);
    hide Encoded, ToCome;
    assert [] + ToCome(0, 0, b) == ToCome(0, 0, b);
  }

  /** `t | b >> k`, for a t whose low k bits are clear. */
  function Join(t: nat, b: byte, k: nat): (r: nat)
    requires (k == 4 && t % 16 == 0) || (k == 6 && t % 4 == 0)
    ensures r == t + b / (if k == 4 then 16 else 64)
  {
    assert Pow2(4) == 16 && Pow2(2) == 4;
    assert t == t / 16 * 16 || t == t / 4 * 4;
    if k == 4 then OrAdds(b / 16, t / 16, 4); Or(t, b / 16)
    else OrAdds(b / 64, t / 4, 2); Or(t, b / 64)
  }

  /** The state says how many characters of a group of four are out. */
  ghost predicate Aligned(i: nat, j: nat) {
    j < 3 && i % 4 == j
  }

  lemma AlignedStep(i: nat, j: nat)
    requires Aligned(i, j) && i <= 8191
    ensures j == 0 ==> i + 1 < 8192 && Aligned(i + 1, 1)
    ensures j == 1 ==> i + 3 <= 8192 && Aligned(i + 1, 2)
    ensures j == 2 ==> i + 2 <= 8192 && Aligned(i + 2, 0)
  {
  }

  lemma FullAligned(j: nat)
    requires Aligned(8192, j)
    ensures j == 0
  {
  }

  /** `chunk[i++] = u` */
  method PutChar(chunk0: Text, i0: nat, u: u16, ghost parts: Text) returns (chunk: Text, i: nat)
    requires ChunkExact(chunk0, i0) && i0 < 8192
    ensures i == i0 + 1 && ChunkExact(chunk, i) && Out(parts, chunk, i) == Out(parts, chunk0, i0) + [u]
  {
    ChunkPut(parts, chunk0, i0, u);
    chunk, i := Assign(chunk0, i0, u), i0 + 1;
  }

  /** The switch of base64.encode. */
  method EncodeByte(b: byte, j0: nat, t0: nat, chunk0: Text, i0: nat,
                    ghost parts: Text, ghost rest: seq<byte>, ghost whole: Text)
    returns (j: nat, t: nat, chunk: Text, i: nat)
    requires i0 <= 8191 && Aligned(i0, j0) && ChunkExact(chunk0, i0)
    requires Underway(Out(parts, chunk0, i0), j0, t0, [b] + rest, whole)
    ensures i <= 8192 && Aligned(i, j) && ChunkExact(chunk, i)
    ensures Underway(Out(parts, chunk, i), j, t, rest, whole)
  {
    UnderwayState(Out(parts, chunk0, i0), j0, t0, [b] + rest, whole);
    hide *;
    if j0 == 0 {
      chunk, i := EncodeFirst(b, t0, chunk0, i0, parts, rest, whole);
      t := b % 4 * 16;
      j := 1;
    } else if j0 == 1 {
      chunk, i := EncodeSecond(b, t0, chunk0, i0, parts, rest, whole);
      t := b % 16 * 4;
      j := 2;
    } else {
      chunk, i := EncodeThird(b, t0, chunk0, i0, parts, rest, whole);
      t := t0;
      j := 0;
    }
  }

  method EncodeFirst(b: byte, t: nat, chunk0: Text, i0: nat,
                     ghost parts: Text, ghost rest: seq<byte>, ghost whole: Text) returns (chunk: Text, i: nat)
    requires i0 <= 8191 && Aligned(i0, 0) && ChunkExact(chunk0, i0)
    requires Underway(Out(parts, chunk0, i0), 0, t, [b] + rest, whole)
    ensures i <= 8192 && Aligned(i, 1) && ChunkExact(chunk, i)
    ensures Underway(Out(parts, chunk, i), 1, b % 4 * 16, rest, whole)
  {
    AlignedStep(i0, 0);
    EncodeStep0(Out(parts, chunk0, i0), t, b, rest, whole);
    hide *;
    chunk, i := PutChar(chunk0, i0, Digit(b / 4), parts);
  }

  method EncodeSecond(b: byte, t: nat, chunk0: Text, i0: nat,
                      ghost parts: Text, ghost rest: seq<byte>, ghost whole: Text) returns (chunk: Text, i: nat)
    requires i0 <= 8191 && Aligned(i0, 1) && ChunkExact(chunk0, i0)
    requires Underway(Out(parts, chunk0, i0), 1, t, [b] + rest, whole)
    ensures i <= 8192 && Aligned(i, 2) && ChunkExact(chunk, i)
    ensures Underway(Out(parts, chunk, i), 2, b % 16 * 4, rest, whole)
  {
    AlignedStep(i0, 1);
    UnderwayState(Out(parts, chunk0, i0), 1, t, [b] + rest, whole);
    EncodeStep1(Out(parts, chunk0, i0), t, b, rest, whole);
    hide *;
    chunk, i := PutChar(chunk0, i0, Digit(Join(t, b, 4)), parts);
  }

  method EncodeThird(b: byte, t: nat, chunk0: Text, i0: nat,
                     ghost parts: Text, ghost rest: seq<byte>, ghost whole: Text) returns (chunk: Text, i: nat)
    requires i0 <= 8191 && Aligned(i0, 2) && ChunkExact(chunk0, i0)
    requires Underway(Out(parts, chunk0, i0), 2, t, [b] + rest, whole)
    ensures i <= 8192 && Aligned(i, 0) && ChunkExact(chunk, i)
    ensures Underway(Out(parts, chunk, i), 0, t, rest, whole)
  {
    AlignedStep(i0, 2);
    UnderwayState(Out(parts, chunk0, i0), 2, t, [b] + rest, whole);
    EncodeStep2(Out(parts, chunk0, i0), t, b, rest, whole);
    hide *;
    chunk, i := PutChar(chunk0, i0, Digit(Join(t, b, 6)), parts);
    chunk, i := PutChar(chunk, i, Digit(b % 64), parts);
  }

  /** base64.encode. A flush happens with exactly 8192 characters in the chunk, between groups. */
  method Encode(buffer: seq<byte>, from: nat, end: nat) returns (s: Text)
    ensures s == Encoded(Slice(buffer, from, end))
  {
    var start: nat, i: nat, j: nat, t: nat := from, 0, 0, 0;
    var parts: Text := [];  // the parts pushed so far, joined
    var chunk: Text := [];
    ghost var whole := Encoded(Slice(buffer, from, end));
    UnderwayStart(Slice(buffer, from, end));
    assert Aligned(0, 0);
    hide Encoded, Digit, ToCome, Assign, Underway, Out, Aligned;
    while start < end
      invariant i <= 8191 && Aligned(i, j)
      invariant ChunkExact(chunk, i)
      invariant Underway(Out(parts, chunk, i), j, t, Slice(buffer, start, end), whole)
      decreases end - start
    {
      var b := ByteAt(buffer, start);
      start := start + 1;
      j, t, chunk, i := EncodeByte(b, j, t, chunk, i, parts, Slice(buffer, start, end), whole);
      if i > 8191 {
        FullAligned(j);
        ChunkFlush(parts, chunk);
        parts := parts + chunk;
        i := 0;
      }
    }
    UnderwayState(Out(parts, chunk, i), j, t, [], whole);
    Ending(Out(parts, chunk, i), j, t, whole);
    AlignedStep(i, j);
    if j != 0 {
      chunk, i := PutChar(chunk, i, Digit(t), parts);
      chunk, i := PutChar(chunk, i, PAD, parts);
      if j == 1 {
        chunk, i := PutChar(chunk, i, PAD, parts);
      }
    }
    s := parts + chunk[..i];
  }

  lemma Ending(out: Text, j: nat, t: nat, whole: Text)
    requires Underway(out, j, t, [], whole)
    ensures whole == if j == 0 then out else if j == 1 then ((out + [Digit(t)]) + [PAD]) + [PAD]
        else (out + [Digit(t)]) + [PAD]
  {
    hide Digit;
  }

  /** base64.decode; None is the throw. Writes past the end of a typed array are ignored. */
  method Decode(s: Text, buffer: array<byte>, from: nat) returns (written: Option<nat>)
    modifies buffer
    ensures written.Some? <==> Decoded(0, 0, s).Some?
    ensures written.Some? ==> var x := Decoded(0, 0, s).value;
      && written.value == |x|
      && (forall k :: 0 <= k < |x| && from + k < buffer.Length ==> buffer[from + k] == x[k])
      && (forall k :: 0 <= k < buffer.Length && !(from <= k < from + |x|) ==> buffer[k] == old(buffer[k]))
  {
    ghost var done: seq<byte> := [];
    var offset: nat, j: nat, t: nat, i: nat := from, 0, 0, 0;
    assert s[0..] == s;
    StartDecoding(s);
    hide Decoded, Value, Continues;
    while i < |s|
      invariant i <= |s| && j < 4 && t < 64 && offset == from + |done|
      invariant Continues(done, j, t, s[i..], s)
      invariant forall k :: 0 <= k < |done| && from + k < buffer.Length ==> buffer[from + k] == done[k]
      invariant forall k :: 0 <= k < buffer.Length && !(from <= k < offset) ==> buffer[k] == old(buffer[k])
    {
      var c := s[i];
      DecodeStep(done, j, t, s[i..], s);
      assert s[i..][1..] == s[i + 1..];
      i := i + 1;
      if c == PAD && j > 1 {
        return Some(offset - from);
      }
      var v := Value(c);
      if v.None? {
        return None;
      }
      var x := DecodeByte(j, t, v.value);
      if j != 0 {
        if offset < buffer.Length {
          buffer[offset] := x;
        }
        done := done + [x];
        offset := offset + 1;
      }
      t := v.value;
      j := NextState(j);
    }
    assert s[i..] == [];
    DecodeEnd(done, j, t, s);
    if j == 1 {
      return None;
    }
    written := Some(offset - from);
  }

  /** The byte that the digit v completes in state j; nothing in state 0. */
  function DecodeByte(j: nat, t: nat, v: nat): (x: byte)
    requires j < 4 && t < 64 && v < 64
    ensures x == match j case 0 => 0 case 1 => t * 4 + v / 16 case 2 => t % 16 * 16 + v / 4 case _ => t % 4 * 64 + v
  {
    assert Pow2(2) == 4 && Pow2(4) == 16 && Pow2(6) == 64;
    match j
    case 0 => 0
    case 1 => OrAdds(v / 16, t, 2); Or(t * 4, v / 16)
    case 2 => OrAdds(v / 4, t % 16, 4); Or(t % 16 * 16, v / 4)
    case _ => OrAdds(v, t % 4, 6); Or(t % 4 * 64, v)
  }

  /** The bytes written so far go before those the rest of the string decodes to. */
  ghost predicate Continues(done: seq<byte>, j: nat, t: nat, rest: Text, s: Text) {
    && j < 4 && t < 64
    && var r := Decoded(j, t, rest);
       if r.None? then Decoded(0, 0, s).None? else Decoded(0, 0, s) == Some(done + r.value)
  }

  lemma StartDecoding(s: Text)
    ensures Continues([], 0, 0, s, s)
  {
    var r := Decoded(0, 0, s);
    assert r.Some? ==> [] + r.value == r.value;
  }

  /** One character of decode. */
  lemma DecodedStep(j: nat, t: nat, rest: Text)
    requires j < 4 && t < 64 && rest != []
    ensures rest[0] == PAD && j > 1 ==> Decoded(j, t, rest) == Some([])
    ensures !(rest[0] == PAD && j > 1) ==>
      var v := Value(rest[0]);
      && (v.None? ==> Decoded(j, t, rest).None?)
      && (v.Some? ==>
            var more := Decoded(NextState(j), v.value, rest[1..]);
            Decoded(j, t, rest) == if j == 0 then more else Prepend(DecodeByte(j, t, v.value), more))
  {
    hide Value, DecodeByte;
  }

  lemma DecodeStep(done: seq<byte>, j: nat, t: nat, rest: Text, s: Text)
    requires Continues(done, j, t, rest, s) && rest != []
    ensures rest[0] == PAD && j > 1 ==> Decoded(0, 0, s) == Some(done)
    ensures !(rest[0] == PAD && j > 1) ==>
      var v := Value(rest[0]);
      && (v.None? ==> Decoded(0, 0, s).None?)
      && (v.Some? ==>
            Continues(if j == 0 then done else done + [DecodeByte(j, t, v.value)], NextState(j), v.value, rest[1..], s))
  {
    hide Value, Decoded, DecodeByte;
    DecodedStep(j, t, rest);
    assert done + [] == done;
    var v := Value(rest[0]);
    if v.Some? && j != 0 {
      var more := Decoded(NextState(j), v.value, rest[1..]);
      if more.Some? {
        Associate(done, [DecodeByte(j, t, v.value)], more.value);
      }
    }
  }

  lemma DecodeEnd(done: seq<byte>, j: nat, t: nat, s: Text)
    requires Continues(done, j, t, [], s)
    ensures if j == 1 then Decoded(0, 0, s).None? else Decoded(0, 0, s) == Some(done)
  {
    assert done + [] == done;
  }
}
