/** The `utf8` namespace: UTF-16 strings to UTF-8 bytes and back, with the chunked output of
    `utf8.read` as written: a flush emits the whole chunk array, not the part just filled. */
module Utf8 {
  import opened Words

  type Text = seq<u16>

  predicate IsHigh(c: u16) { 0xD800 <= c < 0xDC00 }

  predicate IsLow(c: u16) { 0xDC00 <= c < 0xE000 }

  /** A surrogate pair starts at i. */
  predicate PairAt(s: Text, i: nat)
    requires i < |s|
  {
    i + 1 < |s| && IsHigh(s[i]) && IsLow(s[i + 1])
  }

  /** How many code units the character at the front of s takes. */
  function Width(s: Text): (k: nat)
    requires s != []
    ensures 1 <= k <= 2 && k <= |s|
  {
    if PairAt(s, 0) then 2 else 1
  }

  function CodePoint(c1: u16, c2: u16): nat {
    0x10000 + c1 % 0x400 * 0x400 + c2 % 0x400
  }

  /** The UTF-8 form of the character at the front of s (section 3 of RFC 3629); a lone
      surrogate takes three bytes like any other unit of its size. */
  function Char(s: Text): (r: seq<byte>)
    requires s != []
    ensures 1 <= |r| <= 4
  {
    var c := s[0];
    if c < 0x80 then [c]
    else if c < 0x800 then [c / 0x40 + 0xC0, c % 0x40 + 0x80]
    else if PairAt(s, 0) then
      assert CodePoint(c, s[1]) < 0x11_0000;
      var cp := CodePoint(c, s[1]);
      [cp / 0x4_0000 + 0xF0, cp / 0x1000 % 0x40 + 0x80, cp / 0x40 % 0x40 + 0x80, cp % 0x40 + 0x80]
    else [c / 0x1000 + 0xE0, c / 0x40 % 0x40 + 0x80, c % 0x40 + 0x80]
  }

  function Encode(s: Text): seq<byte> {
    if s == [] then [] else Char(s) + Encode(s[Width(s)..])
  }

  /** No character takes more than three bytes a unit. */
  lemma {:induction false} EncodeBound(s: Text)
    ensures |Encode(s)| <= 3 * |s|
    decreases |s|
  {
    if s != [] {
      EncodeBound(s[Width(s)..]);
    }
  }

  /** `buffer[p]` as the bit operators see it: nothing behind the end. */
  function ByteAt(b: seq<byte>, p: nat): (r: byte) {
    if p < |b| then b[p] else 0
  }

  /** The code units utf8.read makes of the bytes at p, and how many bytes it takes for them. */
  function Next(b: seq<byte>, p: nat): (r: (Text, nat))
    requires p < |b|
    ensures 1 <= |r.0| <= 2 && 1 <= r.1 <= 4
  {
    var t := b[p] as int;
    var x := ByteAt(b, p + 1) % 0x40;
    var y := ByteAt(b, p + 2) % 0x40;
    var z := ByteAt(b, p + 3) % 0x40;
    if t < 0x80 then ([t], 1)
    else if 191 < t < 224 then ([t % 32 * 0x40 + x], 2)
    else if 239 < t < 365 then
      var cp := t % 8 * 0x4_0000 + x * 0x1000 + y * 0x40 + z - 0x10000;
      ([0xD800 + cp / 0x400, 0xDC00 + cp % 0x400], 4)
    else ([t % 16 * 0x1000 + x * 0x40 + y], 3)
  }

  /** The output side of utf8.read: what was joined so far, the chunk array, its fill index. */
  datatype Output = Output(out: Text, chunk: Text, i: nat)
  {
    predicate Valid() { i <= |chunk| }

    /** `chunk[i++] = u` */
    function Put(u: u16): (r: Output)
      requires Valid()
      ensures r.Valid()
    {
      Output(out, if i < |chunk| then chunk[i := u] else chunk + [u], i + 1)
    }

    function PutAll(us: Text): (r: Output)
      requires Valid() && 1 <= |us| <= 2
      ensures r.Valid()
    {
      if |us| == 1 then Put(us[0]) else Put(us[0]).Put(us[1])
    }

    /** `if (i > 8191) { parts.push(chunk); i = 0; }` */
    function Flush(): (r: Output)
      requires Valid()
      ensures r.Valid()
    {
      if i > 8191 then Output(out + chunk, chunk, 0) else this
    }

    /** The string returned once the input is used up. */
    function Result(): Text
      requires Valid()
    {
      out + chunk[..i]
    }
  }

  const EMPTY := Output([], [], 0)

  function ReadFrom(b: seq<byte>, p: nat, end: nat, o: Output): (r: Output)
    requires end <= |b| && o.Valid()
    ensures r.Valid()
    decreases end - p
  {
    if p >= end then o
    else
      var (us, k) := Next(b, p);
      ReadFrom(b, p + k, end, o.PutAll(us).Flush())
  }

  /** utf8.read */
  function Decode(b: seq<byte>): Text {
    ReadFrom(b, 0, |b|, EMPTY).Result()
  }

  /** The output after the characters of s have gone through it. */
  function Feed(s: Text, o: Output): (r: Output)
    requires o.Valid()
    ensures r.Valid()
    decreases |s|
  {
    if s == [] then o else Feed(s[Width(s)..], o.PutAll(s[..Width(s)]).Flush())
  }

  /** Bytes back to units, one character. */
  lemma NextOfChar(b: seq<byte>, p: nat, s: Text)
    requires s != []
    requires At(b, p, Char(s))
    ensures Next(b, p) == (s[..Width(s)], |Char(s)|)
  {
    var c := s[0];
    assert s[..1] == [c];
    AtByte(b, p, Char(s), 0);
    if c < 0x80 {
    } else if c < 0x800 {
      AtByte(b, p, Char(s), 1);
    } else if PairAt(s, 0) {
      assert s[..2] == [c, s[1]];
      NextOfPair(b, p, s);
    } else {
      AtByte(b, p, Char(s), 1);
      AtByte(b, p, Char(s), 2);
      UnitBytes(c);
    }
  }

  lemma NextOfPair(b: seq<byte>, p: nat, s: Text)
    requires s != [] && PairAt(s, 0)
    requires At(b, p, Char(s))
    ensures Next(b, p) == ([s[0], s[1]], 4)
  {
    var cp := CodePoint(s[0], s[1]);
    var t, x, y, z := cp / 0x4_0000 + 0xF0, cp / 0x1000 % 0x40 + 0x80, cp / 0x40 % 0x40 + 0x80, cp % 0x40 + 0x80;
    assert Char(s) == [t, x, y, z];
    hide Char, CodePoint;
    AtByte(b, p, Char(s), 0);
    AtByte(b, p, Char(s), 1);
    AtByte(b, p, Char(s), 2);
    AtByte(b, p, Char(s), 3);
    PairBytes(s[0], s[1]);
  }

  lemma UnitBytes(c: u16)
    ensures (c / 0x1000 + 0xE0) % 16 * 0x1000 + c / 0x40 % 0x40 * 0x40 + c % 0x40 == c
    ensures (c / 0x40 % 0x40 + 0x80) % 0x40 == c / 0x40 % 0x40 && (c % 0x40 + 0x80) % 0x40 == c % 0x40
  {
    ModSplit(c, 0x40, 0x40);
    DivMod(c, 0x1000);
  }

  /** A continuation byte gives back the six bits it was made from. */
  lemma TailBits(x: nat)
    ensures (x % 0x40 + 0x80) % 0x40 == x % 0x40
  {
    ModUnique(x % 0x40 + 0x80, 0x40, 2, x % 0x40);
  }

  lemma PairBytes(c1: u16, c2: u16)
    requires IsHigh(c1) && IsLow(c2)
    ensures var cp := CodePoint(c1, c2);
            (cp / 0x4_0000 + 0xF0) % 8 * 0x4_0000 + (cp / 0x1000 % 0x40 + 0x80) % 0x40 * 0x1000
            + (cp / 0x40 % 0x40 + 0x80) % 0x40 * 0x40 + (cp % 0x40 + 0x80) % 0x40 == cp
    ensures CodePoint(c1, c2) / 0x4_0000 <= 4
    ensures 0xD800 + (CodePoint(c1, c2) - 0x10000) / 0x400 == c1
    ensures 0xDC00 + (CodePoint(c1, c2) - 0x10000) % 0x400 == c2
  {
    CodePointParts(c1, c2);
    CodePointBytes(CodePoint(c1, c2));
  }

  lemma CodePointParts(c1: u16, c2: u16)
    requires IsHigh(c1) && IsLow(c2)
    ensures CodePoint(c1, c2) < 0x11_0000
    ensures 0xD800 + (CodePoint(c1, c2) - 0x10000) / 0x400 == c1
    ensures 0xDC00 + (CodePoint(c1, c2) - 0x10000) % 0x400 == c2
  {
    ModUnique(CodePoint(c1, c2) - 0x10000, 0x400, c1 % 0x400, c2 % 0x400);
  }

  lemma CodePointBytes(cp: nat)
    requires cp < 0x11_0000
    ensures (cp / 0x4_0000 + 0xF0) % 8 * 0x4_0000 + (cp / 0x1000 % 0x40 + 0x80) % 0x40 * 0x1000
            + (cp / 0x40 % 0x40 + 0x80) % 0x40 * 0x40 + (cp % 0x40 + 0x80) % 0x40 == cp
    ensures cp / 0x4_0000 <= 4
  {
    var lead := cp / 0x4_0000;
    assert lead <= 4;
    ModUnique(lead + 0xF0, 8, 30, lead);
    TailBits(cp / 0x1000);
    TailBits(cp / 0x40);
    TailBits(cp);
    ModSplit(cp, 0x40, 0x40);
    ModSplit(cp, 0x1000, 0x40);
    DivMod(cp, 0x4_0000);
  }

  /** Reading what `Encode` wrote puts the original characters through the output. */
  lemma {:induction false} ReadFeeds(b: seq<byte>, p: nat, s: Text, o: Output)
    requires o.Valid()
    requires At(b, p, Encode(s)) && p + |Encode(s)| == |b|
    ensures ReadFrom(b, p, |b|, o) == Feed(s, o)
    decreases |s|
  {
    hide Next, Char, Width, Output.PutAll, Output.Flush;
    if s != [] {
      var w := Width(s);
      AtSplit(b, p, Char(s), Encode(s[w..]));
      NextOfChar(b, p, s);
      ReadFeeds(b, p + |Char(s)|, s[w..], o.PutAll(s[..w]).Flush());
    }
  }

  /** Whether every flush on the way through s emits only the units just filled in. The chunk
      array never shrinks: once a surrogate pair straddles the limit and makes it 8193 long, a
      later flush at 8192 emits its last unit again. `i` is the fill index, `grown` says whether
      the array is 8193 long. */
  predicate CleanFrom(s: Text, i: nat, grown: bool)
    decreases |s|
  {
    s != [] ==>
      var i' := i + Width(s);
      if i' <= 8191 then CleanFrom(s[Width(s)..], i', grown)
      else (grown ==> i' == 8193) && CleanFrom(s[Width(s)..], 0, i' == 8193)
  }

  /** The strings that survive `utf8.read`. */
  predicate Clean(s: Text) {
    CleanFrom(s, 0, false)
  }

  /** The chunk array is as long as it was filled before the first flush, 8192 or 8193 after. */
  predicate ChunkFits(o: Output, grown: bool) {
    && o.i <= 8191
    && (if grown then |o.chunk| == 8193 else |o.chunk| == o.i || |o.chunk| == 8192)
  }

  lemma PutAllResult(o: Output, us: Text)
    requires o.Valid() && 1 <= |us| <= 2
    ensures var r := o.PutAll(us);
            && r.out == o.out && r.i == o.i + |us|
            && r.chunk[..r.i] == o.chunk[..o.i] + us
            && |r.chunk| == if |o.chunk| < r.i then r.i else |o.chunk|
  {
    var o1 := o.Put(us[0]);
    assert o1.chunk[..o1.i] == o.chunk[..o.i] + [us[0]];
    if |us| == 1 {
      assert us == [us[0]];
    } else {
      var o2 := o1.Put(us[1]);
      assert us == [us[0], us[1]];
      assert o2.chunk[..o2.i] == o1.chunk[..o1.i] + [us[1]];
    }
  }

  /** One character through the output: the result grows by it, and by the stale unit if the
      flush was short. */
  lemma OneChar(s: Text, o: Output, grown: bool)
    requires s != [] && o.Valid() && ChunkFits(o, grown)
    ensures var w := Width(s); var i' := o.i + w; var r := o.PutAll(s[..w]).Flush();
            && (i' <= 8191 ==> r.i == i' && ChunkFits(r, grown) && r.Result() == o.Result() + s[..w])
            && (i' > 8191 && (grown ==> i' == 8193) ==>
                  r.i == 0 && ChunkFits(r, i' == 8193) && r.Result() == o.Result() + s[..w])
            && (i' > 8191 && grown && i' == 8192 ==>
                  r.i == 0 && ChunkFits(r, true) && |r.Result()| == |o.Result()| + w + 1)
  {
    var w := Width(s);
    var f := o.PutAll(s[..w]);
    PutAllResult(o, s[..w]);
    assert f.out + f.chunk[..f.i] == (o.out + o.chunk[..o.i]) + s[..w];
    if f.i > 8191 && |f.chunk| == f.i {
      assert f.chunk[..f.i] == f.chunk;
    }
  }

  /** Feeding a clean string appends it. */
  lemma {:induction false} FeedClean(s: Text, o: Output, grown: bool)
    requires o.Valid() && ChunkFits(o, grown)
    requires CleanFrom(s, o.i, grown)
    ensures Feed(s, o).Result() == o.Result() + s
    decreases |s|
  {
    if s == [] {
      assert o.Result() + s == o.Result();
    } else {
      hide Width, Output.PutAll, Output.Flush, Output.Result;
      var w := Width(s);
      OneChar(s, o, grown);
      var r := o.PutAll(s[..w]).Flush();
      assert r.Result() == o.Result() + s[..w];
      FeedClean(s[w..], r, if o.i + w <= 8191 then grown else o.i + w == 8193);
      Rejoin(o.Result(), s, w);
    }
  }

  lemma Rejoin(a: Text, s: Text, w: nat)
    requires w <= |s|
    ensures (a + s[..w]) + s[w..] == a + s
  {
  }

  /** A stale unit makes the result longer than the string. */
  lemma {:induction false} FeedLength(s: Text, o: Output, grown: bool)
    requires o.Valid() && ChunkFits(o, grown)
    ensures |Feed(s, o).Result()| >= |o.Result()| + |s|
    ensures !CleanFrom(s, o.i, grown) ==> |Feed(s, o).Result()| > |o.Result()| + |s|
    decreases |s|
  {
    if s != [] {
      hide Width, Output.PutAll, Output.Flush, Output.Result;
      var w := Width(s);
      OneChar(s, o, grown);
      FeedLength(s[w..], o.PutAll(s[..w]).Flush(), if o.i + w <= 8191 then grown else grown || o.i + w == 8193);
    }
  }

  /** utf8.read inverts utf8.write on a string exactly when the string is clean. */
  lemma DecodeInvertsEncode(s: Text)
    ensures Decode(Encode(s)) == s <==> Clean(s)
  {
    ReadFeeds(Encode(s), 0, s, EMPTY);
    FeedLength(s, EMPTY, false);
    if Clean(s) {
      FeedClean(s, EMPTY, false);
    }
    assert EMPTY.Result() + s == s;
  }

  /** No string comes back shorter, and one that is not clean comes back longer. */
  lemma DecodeLength(s: Text)
    ensures |Decode(Encode(s))| >= |s|
    ensures !Clean(s) ==> |Decode(Encode(s))| > |s|
  {
    ReadFeeds(Encode(s), 0, s, EMPTY);
    FeedLength(s, EMPTY, false);
    assert EMPTY.Result() == [];
  }

  /** Strings without a surrogate pair are clean, whatever their length and lone surrogates. */
  lemma {:induction false} PairFreeIsClean(s: Text, i: nat)
    requires i <= 8191
    requires forall k :: 0 <= k < |s| ==> !PairAt(s, k)
    ensures CleanFrom(s, i, false)
    decreases |s|
  {
    if s != [] {
      assert !PairAt(s, 0);
      forall k | 0 <= k < |s[1..]| ensures !PairAt(s[1..], k) {
        assert !PairAt(s, k + 1);
      }
      PairFreeIsClean(s[1..], if i + 1 <= 8191 then i + 1 else 0);
    }
  }

  /** Two chunks hold any string of at most 16384 units. */
  lemma {:induction false} ShortIsClean(s: Text, i: nat, grown: bool)
    requires i <= 8191
    requires i + |s| <= if grown then 8191 else 16384
    ensures CleanFrom(s, i, grown)
    decreases |s|
  {
    if s != [] {
      var i' := i + Width(s);
      if i' <= 8191 {
        ShortIsClean(s[Width(s)..], i', grown);
      } else {
        ShortIsClean(s[Width(s)..], 0, i' == 8193);
      }
    }
  }

  function Repeat(c: u16, n: nat): (r: Text)
    ensures |r| == n
  {
    seq(n, _ => c)
  }

  lemma {:induction false} SkipAscii(n: nat, t: Text, i: nat, grown: bool)
    requires i + n <= 8191
    ensures CleanFrom(Repeat(0x61, n) + t, i, grown) == CleanFrom(t, i + n, grown)
    decreases n
  {
    hide CleanFrom;
    var s := Repeat(0x61, n) + t;
    if n == 0 {
      assert s == t;
    } else {
      assert s[1..] == Repeat(0x61, n - 1) + t;
      AsciiStep(s, i, grown);
      SkipAscii(n - 1, t, i + 1, grown);
    }
  }

  lemma AsciiStep(s: Text, i: nat, grown: bool)
    requires s != [] && s[0] == 0x61 && i + 1 <= 8191
    ensures CleanFrom(s, i, grown) == CleanFrom(s[1..], i + 1, grown)
  {
    assert Width(s) == 1;
  }

  /** The shortest misread string: a pair straddling the first chunk limit, then a chunk that
      fills up to 8192 exactly. */
  lemma SixteenThousandMisread()
    ensures var s := Repeat(0x61, 8191) + [0xD83D, 0xDE00] + Repeat(0x61, 8192);
            |s| == 16385 && Decode(Encode(s)) != s
  {
    var last := Repeat(0x61, 8191) + [0x61];
    assert last == Repeat(0x61, 8192);
    var tail := [0xD83D, 0xDE00] + last;
    var s := Repeat(0x61, 8191) + tail;
    assert s == Repeat(0x61, 8191) + [0xD83D, 0xDE00] + Repeat(0x61, 8192);
    SkipAscii(8191, tail, 0, false);
    assert tail[2..] == last;
    SkipAscii(8191, [0x61], 0, true);
    assert !CleanFrom([0x61], 8191, true);
    assert Width(tail) == 2;
    DecodeInvertsEncode(s);
  }

  /** utf8.length */
  method Length(s: Text) returns (len: nat)
    ensures len == |Encode(s)|
  {
    hide Encode, Char, Width;
    len := 0;
    var i := 0;
    EncodeEnds(s);
    while i < |s|
      invariant i <= |s|
      invariant len + |Encode(s[i..])| == |Encode(s)|
    {
      var c := s[i];
      LengthStep(s, i);
      if c < 128 {
        len := len + 1;
      } else if c < 2048 {
        len := len + 2;
      } else if IsHigh(c) && i + 1 < |s| && IsLow(s[i + 1]) {
        i := i + 1;
        len := len + 4;
      } else {
        len := len + 3;
      }
      i := i + 1;
    }
  }

  lemma EncodeEnds(s: Text)
    ensures s[0..] == s && s[|s|..] == [] && |Encode(s[|s|..])| == 0
  {
  }

  /** The bytes and units of the character at i. */
  lemma LengthStep(s: Text, i: nat)
    requires i < |s|
    ensures var w := if PairAt(s, i) then 2 else 1;
      |Encode(s[i..])| == |Encode(s[i + w..])| +
      if s[i] < 128 then 1 else if s[i] < 2048 then 2 else if PairAt(s, i) then 4 else 3
  {
    var rest := s[i..];
    assert rest[Width(rest)..] == s[i + Width(rest)..];
  }

  /** The value bits of a two-, three- and four-byte sequence, OR-ed together. */
  function Value2(t: nat, x: nat): (r: nat)
    requires x < 64
    ensures r == t % 32 * 0x40 + x
  {
    Pow2Values();
    OrAdds(x, t % 32, 6);
    Or(t % 32 * 0x40, x)
  }

  function Value3(t: nat, x: nat, y: nat): (r: nat)
    requires x < 64 && y < 64
    ensures r == t % 16 * 0x1000 + x * 0x40 + y
  {
    ThreeFields(t % 16, x, y);
    Or(Or(t % 16 * 0x1000, x * 0x40), y)
  }

  function Value4(t: nat, x: nat, y: nat, z: nat): (r: nat)
    requires x < 64 && y < 64 && z < 64
    ensures r == t % 8 * 0x4_0000 + x * 0x1000 + y * 0x40 + z
  {
    FourFields(t % 8, x, y, z);
    Or(Or(Or(t % 8 * 0x4_0000, x * 0x1000), y * 0x40), z)
  }

  lemma ThreeFields(t: nat, x: nat, y: nat)
    requires x < 64 && y < 64
    ensures Or(Or(t * 0x1000, x * 0x40), y) == t * 0x1000 + x * 0x40 + y
  {
    hide *;
    Pow2Values();
    OrAdds(x * 0x40, t, 12);
    OrAdds(y, t * 0x40 + x, 6);
  }

  lemma FourFields(t: nat, x: nat, y: nat, z: nat)
    requires x < 64 && y < 64 && z < 64
    ensures Or(Or(Or(t * 0x4_0000, x * 0x1000), y * 0x40), z) == t * 0x4_0000 + x * 0x1000 + y * 0x40 + z
  {
    hide *;
    Pow2Values();
    OrAdds(x * 0x1000, t, 18);
    OrAdds(y * 0x40, t * 0x40 + x, 12);
    OrAdds(z, t * 0x1000 + x * 0x40 + y, 6);
  }

  /** Reading goes on at p with output o. */
  ghost predicate Reached(b: seq<byte>, p: nat, o: Output) {
    o.Valid() && ReadFrom(b, 0, |b|, EMPTY) == ReadFrom(b, p, |b|, o)
  }

  lemma NothingRead(b: seq<byte>)
    ensures Reached(b, 0, Output([], [], 0))
  {
  }

  /** One turn of the reading loop. */
  lemma ReadStep(b: seq<byte>, p: nat, o: Output)
    requires p < |b| && o.Valid() && Reached(b, p, o)
    ensures var (us, k) := Next(b, p); Reached(b, p + k, o.PutAll(us).Flush())
  {
    hide Next, Output.PutAll, Output.Flush;
  }

  lemma FlushParts(parts: Text, chunk: Text, i: nat)
    requires i <= |chunk|
    ensures Output(parts, chunk, i).Flush() ==
            if i > 8191 then Output(parts + chunk, chunk, 0) else Output(parts, chunk, i)
  {
  }

  /** The units of one character from OR-ed fields, branch by branch. */
  lemma NextFields(b: seq<byte>, p: nat)
    requires p < |b|
    ensures var t := b[p]; var next := Next(b, p);
      var x, y, z := ByteAt(b, p + 1) % 64, ByteAt(b, p + 2) % 64, ByteAt(b, p + 3) % 64;
      && (t < 128 ==> next == ([t], 1))
      && (191 < t < 224 ==> Value2(t, x) < 0x1_0000 && next == ([Value2(t, x)], 2))
      && (239 < t < 365 ==>
            var cp := Value4(t, x, y, z) - 0x10000;
            && 0 <= 0xD800 + cp / 0x400 < 0x1_0000
            && next == ([0xD800 + cp / 0x400, 0xDC00 + cp % 0x400], 4))
      && (127 < t <= 191 || 223 < t <= 239 ==> Value3(t, x, y) < 0x1_0000 && next == ([Value3(t, x, y)], 3))
  {
    hide Value2, Value3, Value4, ByteAt;
  }

  lemma PutOne(o: Output, u: u16)
    requires o.Valid()
    ensures o.PutAll([u]) == Output(o.out, Assign(o.chunk, o.i, u), o.i + 1)
  {
  }

  lemma PutTwo(o: Output, u: u16, v: u16)
    requires o.Valid()
    ensures o.PutAll([u, v]) == Output(o.out, Assign(Assign(o.chunk, o.i, u), o.i + 1, v), o.i + 2)
  {
  }

  /** utf8.read of a whole buffer. */
  method Read(b: seq<byte>) returns (s: Text)
    ensures s == Decode(b)
  {
    var end := |b|;
    if end < 1 {
      return [];
    }
    hide Reached, Output.PutAll, Output.Flush, Next;
    var parts: seq<u16> := [];  // the parts pushed so far, joined
    var chunk: seq<u16> := [];
    var start: nat, i: nat := 0, 0;
    NothingRead(b);
    while start < end
      invariant i <= |chunk| && Reached(b, start, Output(parts, chunk, i))
      decreases end - start
    {
      ReadStep(b, start, Output(parts, chunk, i));
      start, chunk, i := ReadChar(b, start, chunk, i, parts);
      FlushParts(parts, chunk, i);
      if i > 8191 {
        parts := parts + chunk;
        i := 0;
      }
    }
    ReadEnd(b, start, Output(parts, chunk, i));
    s := parts + chunk[..i];
  }

  /** The loop body of utf8.read up to the flush. */
  method ReadChar(b: seq<byte>, from: nat, chunk0: Text, i0: nat, ghost parts: Text)
    returns (start: nat, chunk: Text, i: nat)
    requires from < |b| && i0 <= |chunk0|
    ensures start == from + Next(b, from).1 && i <= |chunk|
    ensures Output(parts, chunk, i) == Output(parts, chunk0, i0).PutAll(Next(b, from).0)
  {
    hide Output.PutAll, Assign, ByteAt, Next, Value2, Value3, Value4;
    ghost var o := Output(parts, chunk0, i0);
    NextFields(b, from);
    start, chunk, i := from, chunk0, i0;
    var t: int := b[start];
    var x, y, z := ByteAt(b, start + 1) % 64, ByteAt(b, start + 2) % 64, ByteAt(b, start + 3) % 64;
    start := start + 1;
    if t < 128 {
      PutOne(o, t);
      chunk, i := Assign(chunk, i, t), i + 1;
    } else if t > 191 && t < 224 {
      var u := Value2(t, x);
      PutOne(o, u);
      chunk, i := Assign(chunk, i, u), i + 1;
      start := start + 1;
    } else if t > 239 && t < 365 {
      var cp := Value4(t, x, y, z) - 0x10000;
      start := start + 3;
      var u, v := 0xD800 + cp / 0x400, 0xDC00 + cp % 0x400;
      PutTwo(o, u, v);
      chunk, i := Assign(chunk, i, u), i + 1;
      chunk, i := Assign(chunk, i, v), i + 1;
    } else {
      var u := Value3(t, x, y);
      PutOne(o, u);
      chunk, i := Assign(chunk, i, u), i + 1;
      start := start + 2;
    }
  }

  lemma ReadEnd(b: seq<byte>, p: nat, o: Output)
    requires p >= |b| && o.Valid() && Reached(b, p, o)
    ensures Decode(b) == o.out + o.chunk[..o.i]
  {
  }

  /** `chunk[i] = u` on a growing array. */
  function Assign(chunk: Text, i: nat, u: u16): (r: Text)
    requires i <= |chunk|
    ensures i < |r| && r[..i] == chunk[..i] && r[i] == u
  {
    if i < |chunk| then chunk[i := u] else chunk + [u]
  }

  /** A lead byte: the marker's bits lie above the payload's. */
  function Lead2(c: nat): (r: byte)
    requires c < 0x800
    ensures r == c / 0x40 + 0xC0
  {
    Pow2Values();
    OrAdds(c / 0x40, 6, 5);
    Or(c / 0x40, 192)
  }

  function Lead3(c: u16): (r: byte)
    ensures r == c / 0x1000 + 0xE0
  {
    Pow2Values();
    OrAdds(c / 0x1000, 14, 4);
    Or(c / 0x1000, 224)
  }

  function Lead4(cp: nat): (r: byte)
    requires cp < 0x11_0000
    ensures r == cp / 0x4_0000 + 0xF0
  {
    Pow2Values();
    OrAdds(cp / 0x4_0000, 15, 4);
    Or(cp / 0x4_0000, 240)
  }

  function Tail(x: nat): (r: byte)
    ensures r == x % 0x40 + 0x80
  {
    Pow2Values();
    OrAdds(x % 0x40, 1, 7);
    Or(x % 0x40, 128)
  }

  /** The bytes of one character from marked fields, branch by branch. */
  lemma CharFields(s: Text)
    requires s != []
    ensures var c := s[0];
      && (c < 128 ==> Width(s) == 1 && Char(s) == [c])
      && (128 <= c < 2048 ==> Width(s) == 1 && Char(s) == [Lead2(c), Tail(c)])
      && (PairAt(s, 0) ==>
            var cp := CodePoint(c, s[1]);
            cp < 0x11_0000 && Width(s) == 2
            && Char(s) == [Lead4(cp), Tail(cp / 0x1000), Tail(cp / 0x40), Tail(cp)])
      && (2048 <= c && !PairAt(s, 0) ==> Width(s) == 1 && Char(s) == [Lead3(c), Tail(c / 0x40), Tail(c)])
  {
    hide Lead2, Lead3, Lead4, Tail;
  }

  /** The loop body of utf8.write: one character, returning the new i and offset. */
  method WriteChar(s: Text, at: nat, buffer: array<byte>, from: nat) returns (i: nat, offset: nat)
    requires at < |s| && from + |Char(s[at..])| <= buffer.Length
    modifies buffer
    ensures i == at + Width(s[at..]) && offset == from + |Char(s[at..])|
    ensures buffer[..] == old(buffer[..from]) + Char(s[at..]) + old(buffer[from + |Char(s[at..])|..])
  {
    hide Char, Width, Lead2, Lead3, Lead4, Tail;
    CharFields(s[at..]);
    i, offset := at, from;
    var c1 := s[i];
    if c1 < 128 {
      buffer[offset] := c1;
      offset := offset + 1;
    } else if c1 < 2048 {
      buffer[offset] := Lead2(c1);
      buffer[offset + 1] := Tail(c1);
      offset := offset + 2;
    } else if IsHigh(c1) && i + 1 < |s| && IsLow(s[i + 1]) {
      var c2 := s[i + 1];
      var cp := CodePoint(c1, c2);
      i := i + 1;
      buffer[offset] := Lead4(cp);
      buffer[offset + 1] := Tail(cp / 0x1000);
      buffer[offset + 2] := Tail(cp / 0x40);
      buffer[offset + 3] := Tail(cp);
      offset := offset + 4;
    } else {
      buffer[offset] := Lead3(c1);
      buffer[offset + 1] := Tail(c1 / 0x40);
      buffer[offset + 2] := Tail(c1);
      offset := offset + 3;
    }
    i := i + 1;
  }

  /** utf8.write */
  method Write(s: Text, buffer: array<byte>, start: nat) returns (written: nat)
    requires start + |Encode(s)| <= buffer.Length
    modifies buffer
    ensures written == |Encode(s)|
    ensures buffer[start..start + |Encode(s)|] == Encode(s)
    ensures forall k :: 0 <= k < start || start + |Encode(s)| <= k < buffer.Length ==> buffer[k] == old(buffer[k])
  {
    hide Encode, Char, Width, Placed, ToWrite;
    ghost var was, all := buffer[..], Encode(s);
    var offset: nat, i: nat := start, 0;
    PlacedNothing(was, all, start);
    NothingWritten(s);
    while i < |s|
      invariant i <= |s| && start <= offset <= start + |all|
      invariant ToWrite(all, offset - start, s, i)
      invariant Placed(buffer[..], was, all, start, offset)
    {
      ghost var now, from, ch := buffer[..], offset, Char(s[i..]);
      NextCharAt(all, offset - start, s, i);
      i, offset := WriteChar(s, i, buffer, offset);
      PlacedMore(now, buffer[..], was, all, start, from, ch);
    }
    written := offset - start;
    AllWritten(all, written, s);
    PlacedAll(buffer[..], was, all, start);
  }

  /** The encoding of s from d on is that of its units from i on. */
  ghost predicate ToWrite(all: seq<byte>, d: nat, s: Text, i: nat) {
    d <= |all| && i <= |s| && all[d..] == Encode(s[i..])
  }

  lemma NothingWritten(s: Text)
    ensures ToWrite(Encode(s), 0, s, 0)
  {
    assert s[0..] == s;
  }

  lemma AllWritten(all: seq<byte>, d: nat, s: Text)
    requires ToWrite(all, d, s, |s|)
    ensures d == |all|
  {
    assert s[|s|..] == [];
  }

  /** The bytes of the next character, in place in the encoding of the whole string. */
  lemma NextCharAt(all: seq<byte>, d: nat, s: Text, i: nat)
    requires i < |s| && ToWrite(all, d, s, i)
    ensures var ch, w := Char(s[i..]), Width(s[i..]);
      d + |ch| <= |all| && all[d..d + |ch|] == ch && ToWrite(all, d + |ch|, s, i + w)
  {
    var rest := s[i..];
    var ch := Char(rest);
    assert rest[Width(rest)..] == s[i + Width(rest)..];
    assert all[d..] == ch + Encode(rest[Width(rest)..]);
    assert all[d..d + |ch|] == all[d..][..|ch|];
    assert all[d + |ch|..] == all[d..][|ch|..];
  }
}
