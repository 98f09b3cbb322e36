/** The `Writer`: operations queued in a linked list, with a stack of forked states, written out
    by `finish`. Seen from outside it is a stack of byte strings. */
module Writing {
  import opened Words
  import opened Varints
  import opened Reading
  import opened Schemas
  import opened Wire
  import opened LongBitsModel
  import Base64
  import Utf8

  /** The functions an operation can call. */
  datatype Fn = Noop | WriteByte | WriteVarint32 | WriteVarint64 | WriteFixed32 | WriteBytes | WriteUtf8

  /** What an operation holds; `Bits` is the LongBits object it owns. */
  datatype OpVal = Num(n: nat) | Bits(l: Long) | Data(x: seq<byte>) | Chars(s: Utf8.Text)

  /** The bytes fn makes of val. */
  ghost predicate Makes(fn: Fn, val: OpVal, bytes: seq<byte>) {
    match fn
    case Noop => bytes == []
    case WriteByte => val.Num? && bytes == [val.n % 256]
    case WriteVarint32 => val.Num? && val.n < U32 && bytes == Varint(val.n)
    case WriteVarint64 => val.Bits? && bytes == Varint(val.l.Unsigned())
    case WriteFixed32 => val.Num? && val.n < U32 && bytes == FixedBytes(val.n)
    case WriteBytes => val.Data? && bytes == val.x
    case WriteUtf8 => val.Chars? && bytes == Utf8.Encode(val.s)
  }

  class Op {
    const fn: Fn
    const len: nat
    var val: OpVal
    var next: Op?
    ghost const bytes: seq<byte>  // what the operation promised to write when it was queued

    constructor (fn: Fn, len: nat, val: OpVal, ghost bytes: seq<byte>)
      requires Makes(fn, val, bytes) && len == |bytes|
      ensures this.fn == fn && this.len == len && this.val == val && this.next == null && this.bytes == bytes
    {
      this.fn, this.len, this.val, this.next, this.bytes := fn, len, val, null, bytes;
    }

    ghost predicate Valid()
      reads this
    {
      Makes(fn, val, bytes) && len == |bytes|
    }
  }

  class State {
    const head: Op
    const tail: Op
    const len: nat
    const next: State?

    constructor (head: Op, tail: Op, len: nat, next: State?)
      ensures this.head == head && this.tail == tail && this.len == len && this.next == next
    {
      this.head, this.tail, this.len, this.next := head, tail, len, next;
    }
  }

  ghost function Written(ops: seq<Op>): seq<byte> {
    if ops == [] then [] else ops[0].bytes + Written(ops[1..])
  }

  lemma {:induction false} BytesAppend(a: seq<Op>, b: seq<Op>)
    ensures Written(a + b) == Written(a) + Written(b)
    decreases |a|
  {
    if a == [] {
      assert a + b == b;
    } else {
      assert (a + b)[1..] == a[1..] + b;
      BytesAppend(a[1..], b);
    }
  }

  lemma BytesOfOne(op: Op)
    ensures Written([op]) == op.bytes
  {
    assert [op][1..] == [];
  }

  /** The nodes from head to tail: linked in order, ended by null, behind an empty head. */
  ghost predicate Linked(ops: seq<Op>, head: Op, tail: Op, len: nat)
    reads ops
  {
    && |ops| >= 1 && ops[0] == head && ops[|ops| - 1] == tail
    && head.bytes == [] && len == |Written(ops)|
    && (forall i :: 0 <= i < |ops| - 1 ==> ops[i].next == ops[i + 1])
    && tail.next == null
    && (forall i :: 0 <= i < |ops| ==> ops[i].Valid())
  }

  /** A node that has a successor is not the tail, and no node is met twice. */
  lemma {:induction false} LinkedDistinct(ops: seq<Op>, head: Op, tail: Op, len: nat, i: nat, j: nat)
    requires Linked(ops, head, tail, len) && i < j < |ops|
    ensures ops[i] != ops[j]
    decreases |ops| - j
  {
    assert ops[i].next == ops[i + 1];
    if j + 1 < |ops| {
      assert ops[j].next == ops[j + 1];
      LinkedDistinct(ops, head, tail, len, i + 1, j + 1);
    }
  }

  /** Two linked stretches joined: tail of the first to the second. */
  lemma LinkedJoin(a: seq<Op>, b: seq<Op>, head: Op, tail: Op)
    requires |a| >= 1 && |b| >= 1 && a[0] == head && b[|b| - 1] == tail && head.bytes == []
    requires forall i :: 0 <= i < |a| - 1 ==> a[i].next == a[i + 1]
    requires forall i :: 0 <= i < |b| - 1 ==> b[i].next == b[i + 1]
    requires a[|a| - 1].next == b[0] && tail.next == null
    requires forall i :: 0 <= i < |a| ==> a[i].Valid()
    requires forall i :: 0 <= i < |b| ==> b[i].Valid()
    ensures Linked(a + b, head, tail, |Written(a)| + |Written(b)|)
  {
    BytesAppend(a, b);
  }

  /** The strings of the forked lists, the oldest first. */
  ghost function Strings(lists: seq<seq<Op>>): (r: seq<seq<byte>>)
    ensures |r| == |lists|
    ensures forall k :: 0 <= k < |lists| ==> r[k] == Written(lists[k])
  {
    seq(|lists|, k requires 0 <= k < |lists| => Written(lists[k]))
  }

  lemma StringsAppend(lists: seq<seq<Op>>, ops: seq<Op>)
    ensures Strings(lists + [ops]) == Strings(lists) + [Written(ops)]
  {
  }

  ghost function Last(frames: seq<State>): State? {
    if frames == [] then null else frames[|frames| - 1]
  }

  /** Each state points to the one saved before it. */
  ghost predicate Chained(frames: seq<State>) {
    frames == [] ||
    var n := |frames| - 1;
    frames[n].next == Last(frames[..n]) && Chained(frames[..n])
  }

  lemma ChainedPush(frames: seq<State>, state: State)
    requires Chained(frames) && state.next == Last(frames)
    ensures Chained(frames + [state]) && Last(frames + [state]) == state
  {
    assert (frames + [state])[..|frames|] == frames;
  }

  class Writer {
    var len: nat
    var head: Op
    var tail: Op
    var states: State?

    ghost var ops: seq<Op>          // the current list
    ghost var forks: seq<seq<Op>>   // the lists forked from, the oldest first
    ghost var frames: seq<State>    // and the states that hold them
    ghost var Repr: set<object>

    ghost predicate Valid()
      reads this, Repr
    {
      && this in Repr
      && |forks| == |frames|
      && InRepr(ops) && (forall k :: 0 <= k < |forks| ==> InRepr(forks[k]))
      && Linked(ops, head, tail, len)
      && states == Last(frames) && Chained(frames)
      && (forall k :: 0 <= k < |frames| ==> ForkedAt(k))
      && (forall k, l :: 0 <= k < l < |frames| ==> frames[k].tail != frames[l].tail)
    }

    ghost predicate InRepr(nodes: seq<Op>)
      reads this
    {
      forall i :: 0 <= i < |nodes| ==> nodes[i] in Repr
    }

    /** The k-th forked state holds its list, and a tail that is not the current one. */
    ghost predicate ForkedAt(k: nat)
      requires k < |frames| == |forks|
      reads this, forks[k]
    {
      && Linked(forks[k], frames[k].head, frames[k].tail, frames[k].len)
      && frames[k].tail != tail
    }

    /** The current tail stands in no forked list, and has no successor in its own. */
    lemma TailApart()
      requires Valid()
      ensures forall k :: 0 <= k < |frames| ==> tail !in forks[k]
      ensures forall i :: 0 <= i < |ops| - 1 ==> ops[i].next == ops[i + 1] && ops[i] != tail
    {
      forall k | 0 <= k < |frames| ensures tail !in forks[k] {
        assert ForkedAt(k);
        NotInside(forks[k], frames[k].head, frames[k].tail, frames[k].len, tail);
      }
      forall i | 0 <= i < |ops| - 1 ensures ops[i].next == ops[i + 1] && ops[i] != tail {
        assert ops[i].next == ops[i + 1];
      }
    }

    /** The string under construction. */
    ghost function Top(): seq<byte>
      reads this
    {
      Written(ops)
    }

    /** The strings it was forked from, the oldest first. */
    ghost function Below(): seq<seq<byte>>
      reads this
    {
      Strings(forks)
    }

    constructor ()
      ensures Valid() && fresh(Repr) && Top() == [] && Below() == []
    {
      var op := new Op(Noop, 0, Num(0), []);
      len, head, tail, states := 0, op, op, null;
      ops, forks, frames, Repr := [op], [], [], {this, op};
      new;
      BytesOfOne(op);
    }

    /** Writer._push */
    method Push(fn: Fn, n: nat, val: OpVal, ghost bytes: seq<byte>)
      requires Valid()
      requires Makes(fn, val, bytes) && n == |bytes|
      modifies this, tail
      ensures Valid() && fresh(Repr - old(Repr)) && old(Repr) <= Repr
      ensures Top() == old(Top()) + bytes && Below() == old(Below())
      ensures fresh(tail) && forks == old(forks) && frames == old(frames)
    {
      hide Linked, Written, Strings;
      var op := new Op(fn, n, val, bytes);
      Append(op);
    }

    /** `this.tail = this.tail.next = op; this.len += op.len` */
    method Append(op: Op)
      requires Valid() && op.Valid() && op.next == null && op != tail
      requires forall k :: 0 <= k < |frames| ==> frames[k].tail != op && op !in forks[k]
      modifies this, tail
      ensures Valid() && Repr == old(Repr) + {op}
      ensures Top() == old(Top()) + op.bytes && Below() == old(Below())
      ensures tail == op && forks == old(forks) && frames == old(frames)
    {
      hide Makes, Written, Strings;
      TailApart();
      BytesAppend(ops, [op]);
      BytesOfOne(op);
      tail.next := op;
      LinkedJoin(ops, [op], head, op);
      tail, len, ops, Repr := op, len + op.len, ops + [op], Repr + {op};
      forall k | 0 <= k < |frames| ensures ForkedAt(k) {
        assert old(ForkedAt(k));
      }
    }

    /** Writer.fork */
    method Fork()
      requires Valid()
      modifies this
      ensures Valid() && fresh(Repr - old(Repr)) && old(Repr) <= Repr
      ensures Top() == [] && Below() == old(Below()) + [old(Top())]
    {
      hide Makes, Written, Strings, Linked;
      var state := new State(head, tail, len, states);
      var op := new Op(Noop, 0, Num(0), []);
      EmptyList(op);
      Enter(state, op);
    }

    lemma EmptyList(op: Op)
      requires op.Valid() && op.next == null && op.bytes == []
      ensures Linked([op], op, op, 0) && Written([op]) == []
    {
      BytesOfOne(op);
    }

    /** `states = state; head = tail = op; len = 0` */
    method Enter(state: State, op: Op)
      requires Valid() && Linked([op], op, op, 0)
      requires op != tail && forall k :: 0 <= k < |frames| ==> frames[k].tail != op
      requires state.head == head && state.tail == tail && state.len == len && state.next == states
      modifies this
      ensures Valid() && Repr == old(Repr) + {op}
      ensures Top() == Written([op]) && Below() == old(Below()) + [old(Top())]
    {
      hide Makes, Written, Linked, Strings, Chained, Last;
      StringsAppend(forks, ops);
      ChainedPush(frames, state);
      TailApart();
      states, head, tail, len, forks, frames, ops, Repr :=
        state, op, op, 0, forks + [ops], frames + [state], [op], Repr + {op};
      forall k | 0 <= k < |frames| ensures ForkedAt(k) {
        if k < |frames| - 1 {
          assert old(ForkedAt(k));
        }
      }
      forall k, l | 0 <= k < l < |frames| ensures frames[k].tail != frames[l].tail {
        assert old(ForkedAt(k));
      }
    }

    /** Writer.reset */
    method Reset()
      requires Valid()
      modifies this
      ensures Valid() && fresh(Repr - old(Repr)) && old(Repr) <= Repr
      ensures var n := |old(Below())|;
              if n > 0 then Top() == old(Below())[n - 1] && Below() == old(Below())[..n - 1]
              else Top() == [] && Below() == []
      ensures if old(frames) != [] then
                tail == old(frames)[|old(frames)| - 1].tail && frames == old(frames)[..|old(frames)| - 1]
              else frames == [] && fresh(tail)
    {
      if states != null {
        hide Makes, Written, Linked;
        ghost var n := |frames| - 1;
        assert ForkedAt(n);
        head, tail, len, states, ops, forks, frames :=
          states.head, states.tail, states.len, states.next, forks[n], forks[..n], frames[..n];
        forall k | 0 <= k < |frames| ensures ForkedAt(k) {
          assert old(ForkedAt(k));
        }
      } else {
        hide Makes, Written, Linked, Chained;
        var op := new Op(Noop, 0, Num(0), []);
        EmptyList(op);
        head, tail, len, ops, Repr := op, op, 0, [op], Repr + {op};
      }
    }

    /** Writer.uint32, for a value already reduced by `>>> 0`. */
    method Uint32(value: u32)
      requires Valid()
      modifies this, tail
      ensures Valid() && fresh(Repr - old(Repr)) && old(Repr) <= Repr
      ensures Top() == old(Top()) + Varint(value) && Below() == old(Below())
      ensures fresh(tail) && forks == old(forks) && frames == old(frames)
    {
      VarintSize(value);
      Push(WriteVarint32,
           if value < 128 then 1 else if value < 16384 then 2 else if value < 2097152 then 3
           else if value < 268435456 then 4 else 5,
           Num(value), Varint(value));
    }

    /** Writer.ldelim: the current string goes behind its length onto the string it was forked
        from, or becomes the whole string when nothing is forked. */
    method Ldelim()
      requires Valid()
      modifies this, Repr
      ensures Valid() && fresh(Repr - old(Repr)) && old(Repr) <= Repr
      ensures var n := |old(Below())|; var x := Delimited(old(Top()));
              if n > 0 then Top() == old(Below())[n - 1] + x && Below() == old(Below())[..n - 1]
              else Top() == x && Below() == []
    {
      hide Makes, Written, Varint, Strings;
      var head0, tail0, len0 := head, tail, len;
      ghost var child := ops;
      ChildApart();
      Reset();
      assert forall i :: 0 <= i < |child| ==> child[i] != tail;
      assert Linked(child, head0, tail0, len0);
      assert forall k :: 0 <= k < |frames| ==> frames[k].tail != tail0;
      ghost var parent := Top();
      Uint32(len0 % U32);
      assert Linked(child, head0, tail0, len0);
      ChildBytes(child, head0, tail0, len0);
      if len0 != 0 {
        Splice(child, head0, tail0, len0);
      }
      Associate(parent, Varint(len0 % U32), Written(child));
    }

    /** The nodes of the current list are not the tail of the state below. */
    lemma ChildApart()
      requires Valid()
      ensures frames != [] ==> forall i :: 0 <= i < |ops| ==> ops[i] != frames[|frames| - 1].tail
      ensures forall k :: 0 <= k < |frames| ==> frames[k].tail != tail
    {
      forall k | 0 <= k < |frames| ensures frames[k].tail != tail && frames[k].tail !in ops {
        assert ForkedAt(k);
        NotInside(ops, head, tail, len, frames[k].tail);
      }
    }

    /** `tail.next = head0.next; tail = tail0; len += len0`: everything behind the empty head of
        a detached list is appended. */
    method Splice(ghost child: seq<Op>, head0: Op, tail0: Op, len0: nat)
      requires Valid() && Linked(child, head0, tail0, len0) && |child| > 1
      requires forall i :: 0 <= i < |child| ==> child[i] in Repr && child[i] != tail
      requires forall k :: 0 <= k < |frames| ==> frames[k].tail != tail0
      modifies this, tail
      ensures Valid() && Repr == old(Repr)
      ensures Top() == old(Top()) + Written(child[1..]) && Below() == old(Below())
    {
      hide Makes, Written, Strings;
      ghost var more := child[1..];
      TailApart();
      assert head0.next == child[1];
      forall i | 0 <= i < |more| - 1 ensures more[i].next == more[i + 1] {
        assert child[i + 1].next == child[i + 2];
      }
      BytesAppend(ops, more);
      BytesAppend([child[0]], more);
      BytesOfOne(child[0]);
      assert child == [child[0]] + more;
      tail.next := head0.next;
      LinkedJoin(ops, more, head, tail0);
      tail, len, ops := tail0, len + len0, ops + more;
      forall k | 0 <= k < |frames| ensures ForkedAt(k) {
        assert old(ForkedAt(k));
      }
    }

    /** Writer.int32: negative values take ten bytes. */
    method Int32(value: i32)
      requires Valid()
      modifies this, tail
      ensures Valid() && fresh(Repr - old(Repr)) && old(Repr) <= Repr
      ensures Top() == old(Top()) + Varint(if value < 0 then U32 * U32 + value else value) && Below() == old(Below())
    {
      if value < 0 {
        var bits := LongBits.FromNumber(value);
        SignExtended(value, bits.Value());
        VarintSize(bits.Value());
        Push(WriteVarint64, 10, Bits(bits.Pair()), Varint(bits.Value()));
      } else {
        Uint32(value);
      }
    }

    /** Writer.sint32: `value << 1 ^ value >> 31` on patterns. */
    method Sint32(value: i32)
      requires Valid()
      modifies this, tail
      ensures Valid() && fresh(Repr - old(Repr)) && old(Repr) <= Repr
      ensures Top() == old(Top()) + Varint(Zigzag(value)) && Below() == old(Below())
    {
      var pattern := ToUint32(value);
      var mask := LongBits.Mask(value < 0);
      XorMask(pattern * 2 % U32, mask);
      ZigzagWord(value);
      Uint32(Xor(pattern * 2 % U32, mask));
    }

    /** Writer.uint64 and Writer.int64 */
    method Uint64(value: Long)
      requires Valid()
      modifies this, tail
      ensures Valid() && fresh(Repr - old(Repr)) && old(Repr) <= Repr
      ensures Top() == old(Top()) + Varint(value.Unsigned()) && Below() == old(Below())
    {
      var bits := new LongBits(value.lo, value.hi);
      Push(WriteVarint64, bits.Length(), Bits(bits.Pair()), Varint(bits.Value()));
    }

    /** Writer.sint64 */
    method Sint64(value: Long)
      requires Valid()
      modifies this, tail
      ensures Valid() && fresh(Repr - old(Repr)) && old(Repr) <= Repr
      ensures Top() == old(Top()) + Varint(ZigzagLong(value).Unsigned()) && Below() == old(Below())
    {
      var bits := new LongBits(value.lo, value.hi);
      bits.ZzEncode();
      Push(WriteVarint64, bits.Length(), Bits(bits.Pair()), Varint(bits.Value()));
    }

    /** Writer.bool */
    method Bool(value: bool)
      requires Valid()
      modifies this, tail
      ensures Valid() && fresh(Repr - old(Repr)) && old(Repr) <= Repr
      ensures Top() == old(Top()) + Varint(if value then 1 else 0) && Below() == old(Below())
    {
      var n := if value then 1 else 0;
      Push(WriteByte, 1, Num(n), Varint(n));
    }

    /** Writer.fixed32 and Writer.sfixed32, on the pattern. */
    method Fixed32(value: u32)
      requires Valid()
      modifies this, tail
      ensures Valid() && fresh(Repr - old(Repr)) && old(Repr) <= Repr
      ensures Top() == old(Top()) + FixedBytes(value) && Below() == old(Below())
    {
      Push(WriteFixed32, 4, Num(value), FixedBytes(value));
    }

    /** Writer.fixed64 and Writer.sfixed64: two operations. */
    method Fixed64(value: Long)
      requires Valid()
      modifies this, Repr
      ensures Valid() && fresh(Repr - old(Repr)) && old(Repr) <= Repr
      ensures Top() == old(Top()) + (FixedBytes(value.lo) + FixedBytes(value.hi)) && Below() == old(Below())
    {
      ghost var before := Top();
      TailInside();
      Fixed32(value.lo);
      Fixed32(value.hi);
      Associate(before, FixedBytes(value.lo), FixedBytes(value.hi));
    }

    lemma EmptyWhen()
      requires Valid()
      ensures len == |Top()|
    {
    }

    lemma TailInside()
      requires Valid()
      ensures this in Repr && tail in Repr
    {
      assert ops[|ops| - 1] in Repr;
    }

    /** Writer.bytes of a buffer; a typed array is shorter than 2^32. */
    method Blob(value: seq<byte>)
      requires Valid() && |value| < U32
      modifies this, Repr
      ensures Valid() && fresh(Repr - old(Repr)) && old(Repr) <= Repr
      ensures Top() == old(Top()) + Delimited(value) && Below() == old(Below())
    {
      ghost var before := Top();
      TailInside();
      var n := |value|;
      if n == 0 {
        Push(WriteByte, 1, Num(0), Delimited(value));
      } else {
        Uint32(n);
        Push(WriteBytes, n, Data(value), value);
        Associate(before, Varint(n), value);
      }
    }

    /** Writer.bytes of a base64 string, decoded into a buffer of the length it announces. */
    method BlobText(value: Utf8.Text, ghost bytes: seq<byte>)
      requires Valid() && value == Base64.Encoded(bytes) && |bytes| < U32
      modifies this, Repr
      ensures Valid() && fresh(Repr - old(Repr)) && old(Repr) <= Repr
      ensures Top() == old(Top()) + Delimited(bytes) && Below() == old(Below())
    {
      hide Valid, Base64.Encoded, Base64.Decoded, Delimited;
      Base64.LengthIsExact(bytes);
      if |value| == 0 {
        Blob([]);
      } else {
        var length := Base64.Length(value);
        var buf := new byte[length.Floor](_ => 0);
        Base64.DecodeInvertsEncode(bytes, 0);
        var written := Base64.Decode(value, buf, 0);
        assert buf[..] == bytes;
        Blob(buf[..]);
      }
    }

    /** Writer.string */
    method Text(value: Utf8.Text)
      requires Valid()
      modifies this, Repr
      ensures Valid() && fresh(Repr - old(Repr)) && old(Repr) <= Repr
      ensures Top() == old(Top()) + Delimited(Utf8.Encode(value)) && Below() == old(Below())
    {
      hide Valid, Top, Below, Varint, Utf8.Encode, Delimited, Makes, Written, Strings, Linked;
      ghost var before, x := Top(), Utf8.Encode(value);
      TailInside();
      DelimitedParts(x);
      var n := Utf8.Length(value);
      if n != 0 {
        Uint32(n % U32);
        MakesText(value);
        Push(WriteUtf8, n, Chars(value), x);
        Associate(before, Varint(n % U32), x);
      } else {
        Push(WriteByte, 1, Num(0), Delimited(x));
      }
    }

    /** Writer.finish: exactly len bytes, the concatenation of all queued operations. Running an
        operation may use up the value it holds, so the writer is spent afterwards. */
    method Finish() returns (buf: array<byte>)
      requires Valid()
      modifies Repr
      ensures fresh(buf) && buf.Length == old(len)
      ensures buf[..] == old(Top())
    {
      hide Makes, Op.Valid, Written;
      buf := new byte[len](_ => 0);
      var op, pos := head.next, 0;
      ghost var i := 1;
      ghost var all := Written(ops);
      AllDistinct();
      WrittenUpTo(ops, 1);
      HeadEmpty();
      while op != null
        invariant 1 <= i <= |ops| && ops == old(ops) && Repr == old(Repr)
        invariant op == if i < |ops| then ops[i] else null
        invariant pos == |Written(ops[..i])| <= |all| == buf.Length
        invariant buf[..pos] == Written(ops[..i])
        invariant forall j :: 0 <= j < |ops| - 1 ==> ops[j].next == ops[j + 1]
        invariant ops[|ops| - 1].next == null
        invariant forall j :: i <= j < |ops| ==> ops[j].Valid()
        decreases |ops| - i
      {
        WrittenUpTo(ops, i + 1);
        OpLength(op);
        ghost var before := buf[..pos];
        Run(op, buf, pos);
        assert buf[..pos] == before;
        pos := pos + op.len;
        op := op.next;
        i := i + 1;
      }
      assert ops[..i] == ops;
      assert buf[..pos] == buf[..];
    }

    lemma AllDistinct()
      requires Valid()
      ensures forall i, j :: 0 <= i < j < |ops| ==> ops[i] != ops[j]
    {
      forall i, j | 0 <= i < j < |ops| ensures ops[i] != ops[j] {
        LinkedDistinct(ops, head, tail, len, i, j);
      }
    }

    lemma HeadEmpty()
      requires Valid()
      ensures Written(ops[..1]) == []
    {
      assert ops[..1] == [ops[0]];
      BytesOfOne(ops[0]);
    }
  }

  lemma DelimitedParts(x: seq<byte>)
    ensures Delimited(x) == Varint(|x| % U32) + x
    ensures x == [] ==> Makes(WriteByte, Num(0), Delimited(x)) && |Delimited(x)| == 1
  {
  }

  lemma MakesText(value: Utf8.Text)
    ensures Makes(WriteUtf8, Chars(value), Utf8.Encode(value))
  {
  }

  lemma OpLength(op: Op)
    requires op.Valid()
    ensures op.len == |op.bytes|
  {
  }

  /** The bytes of the first k operations are a prefix of them all. */
  lemma WrittenUpTo(ops: seq<Op>, k: nat)
    requires 1 <= k <= |ops|
    ensures Written(ops[..k]) == Written(ops[..k - 1]) + ops[k - 1].bytes
    ensures |Written(ops[..k])| <= |Written(ops)|
  {
    assert ops[..k] == ops[..k - 1] + [ops[k - 1]];
    BytesAppend(ops[..k - 1], [ops[k - 1]]);
    BytesOfOne(ops[k - 1]);
    assert ops == ops[..k] + ops[k..];
    BytesAppend(ops[..k], ops[k..]);
  }

  /** `fn(val, buf, pos)` */
  method Run(op: Op, buf: array<byte>, pos: nat)
    requires op.Valid() && pos + op.len <= buf.Length
    modifies op`val, buf
    ensures buf[pos..pos + op.len] == op.bytes
    ensures forall k :: 0 <= k < pos || pos + op.len <= k < buf.Length ==> buf[k] == old(buf[k])
  {
    match op.fn
    case Noop =>
    case WriteByte =>
      buf[pos] := op.val.n % 256;
    case WriteVarint32 =>
      PutVarint32(op.val.n, buf, pos);
    case WriteVarint64 =>
      var bits := new LongBits(op.val.l.lo, op.val.l.hi);
      PutVarint64(bits, buf, pos);
      op.val := Bits(bits.Pair());
    case WriteFixed32 =>
      var n := op.val.n;
      buf[pos] := n % 0x100;
      buf[pos + 1] := n / 0x100 % 0x100;
      buf[pos + 2] := n / 0x1_0000 % 0x100;
      buf[pos + 3] := n / 0x100_0000;
    case WriteBytes =>
      PutBytes(op.val.x, buf, pos);
    case WriteUtf8 =>
      var _ := Utf8.Write(op.val.s, buf, pos);
  }

  /** writeBytes */
  method PutBytes(x: seq<byte>, buf: array<byte>, pos: nat)
    requires pos + |x| <= buf.Length
    modifies buf
    ensures buf[pos..pos + |x|] == x
    ensures forall k :: 0 <= k < pos || pos + |x| <= k < buf.Length ==> buf[k] == old(buf[k])
  {
    for i := 0 to |x|
      invariant forall k :: 0 <= k < i ==> buf[pos + k] == x[k]
      invariant forall k :: 0 <= k < pos || pos + |x| <= k < buf.Length ==> buf[k] == old(buf[k])
    {
      buf[pos + i] := x[i];
    }
  }

  /** `val & 127 | 128` */
  function More(n: nat): (r: byte)
    ensures r == n % 128 + 128
  {
    Pow2Values();
    OrAdds(n % 128, 1, 7);
    Or(n % 128, 128)
  }

  /** writeVarint32 */
  method PutVarint32(value: u32, buf: array<byte>, start: nat)
    requires start + |Varint(value)| <= buf.Length
    modifies buf
    ensures buf[start..start + |Varint(value)|] == Varint(value)
    ensures forall k :: 0 <= k < start || start + |Varint(value)| <= k < buf.Length ==> buf[k] == old(buf[k])
  {
    hide Varint, Or, Placed, ToWrite;
    ghost var all := Varint(value);
    var val: nat, pos: nat := value, start;
    PlacedNothing(buf[..], all, start);
    AllToWrite(value);
    while val > 127
      invariant start <= pos <= start + |all| && Placed(buf[..], old(buf[..]), all, start, pos)
      invariant ToWrite(all, pos - start, val)
    {
      VarintStep(all, pos - start, val);
      PlacedByte(buf[..], old(buf[..]), all, start, pos);
      buf[pos] := More(val);
      pos := pos + 1;
      val := val / 128;
    }
    LastByte(all, pos - start, val);
    PlacedByte(buf[..], old(buf[..]), all, start, pos);
    buf[pos] := val;
    PlacedAll(buf[..], old(buf[..]), all, start);
  }

  /** What is left to write from d on is the varint of n. */
  ghost predicate ToWrite(all: seq<byte>, d: nat, n: nat) {
    d <= |all| && all[d..] == Varint(n)
  }

  lemma AllToWrite(n: nat)
    ensures ToWrite(Varint(n), 0, n)
  {
  }

  lemma VarintStep(all: seq<byte>, d: nat, n: nat)
    requires ToWrite(all, d, n) && n >= 128
    ensures d < |all| && all[d] == n % 128 + 128 && ToWrite(all, d + 1, n / 128)
  {
    assert all[d] == all[d..][0];
    assert all[d + 1..] == all[d..][1..];
  }

  /** The first loop of writeVarint64: while the high word is not empty. */
  method PutHighBytes(val: LongBits, buf: array<byte>, start: nat, ghost all: seq<byte>) returns (pos: nat)
    requires all == Varint(val.Value()) && start + |all| <= buf.Length
    modifies val, buf
    ensures val.hi == 0 && Placed(buf[..], old(buf[..]), all, start, pos)
    ensures ToWrite(all, pos - start, val.lo)
    ensures old(val.hi) == 0 ==> val.lo == old(val.lo)
  {
    hide Varint, Or, Long.Unsigned, Placed, ToWrite;
    pos := start;
    PlacedNothing(buf[..], all, start);
    TwoWords(val.lo, val.hi);
    AllToWrite(val.Value());
    while val.hi != 0
      invariant 0 <= start <= pos <= start + |all| && Placed(buf[..], old(buf[..]), all, start, pos)
      invariant ToWrite(all, pos - start, val.lo + val.hi * U32)
      invariant old(val.hi) == 0 ==> val.hi == 0 && val.lo == old(val.lo)
      decreases val.hi
    {
      ShiftLong(val.lo, val.hi);
      VarintStep(all, pos - start, val.lo + val.hi * U32);
      PlacedByte(buf[..], old(buf[..]), all, start, pos);
      buf[pos] := More(val.lo);
      pos := pos + 1;
      val.lo := Or(val.lo / 128, val.hi * 0x200_0000 % U32);
      val.hi := val.hi / 128;
    }
  }

  /** writeVarint64, which uses up the words it is given. */
  method PutVarint64(val: LongBits, buf: array<byte>, start: nat)
    requires start + |Varint(val.Value())| <= buf.Length
    modifies val, buf
    ensures buf[start..start + |Varint(old(val.Value()))|] == Varint(old(val.Value()))
    ensures forall k :: 0 <= k < start || start + |Varint(old(val.Value()))| <= k < buf.Length ==> buf[k] == old(buf[k])
    ensures old(val.hi) == 0 && old(val.lo) < 128 ==> val.Pair() == old(val.Pair())
  {
    hide Varint, Or, Long.Unsigned, Placed, ToWrite;
    ghost var all := Varint(val.Value());
    var pos: nat := PutHighBytes(val, buf, start, all);
    PlacedBounds(buf[..], old(buf[..]), all, start, pos);
    while val.lo > 127
      invariant val.hi == 0
      invariant 0 <= start <= pos <= start + |all| && Placed(buf[..], old(buf[..]), all, start, pos)
      invariant ToWrite(all, pos - start, val.lo)
      invariant old(val.hi) == 0 && old(val.lo) < 128 ==> val.lo == old(val.lo)
      decreases val.lo
    {
      VarintStep(all, pos - start, val.lo);
      PlacedByte(buf[..], old(buf[..]), all, start, pos);
      buf[pos] := More(val.lo);
      pos := pos + 1;
      val.lo := val.lo / 128;
    }
    LastByte(all, pos - start, val.lo);
    PlacedByte(buf[..], old(buf[..]), all, start, pos);
    buf[pos] := val.lo;
    PlacedAll(buf[..], old(buf[..]), all, start);
  }

  lemma TwoWords(lo: u32, hi: u32)
    ensures Long(lo, hi).Unsigned() == lo + hi * U32
  {
  }

  lemma LastByte(all: seq<byte>, d: nat, n: nat)
    requires ToWrite(all, d, n) && n < 128
    ensures |all| == d + 1 && all[d] == n
  {
    assert all[d..] == [n];
    assert all[d] == all[d..][0];
  }

  /** `lo >>> 7 | hi << 25` with `hi >>> 7` is a division by 128. */
  lemma ShiftLong(lo: u32, hi: u32)
    ensures Or(lo / 128, hi * 0x200_0000 % U32) + hi / 128 * U32 == (lo + hi * U32) / 128
    ensures Or(lo / 128, hi * 0x200_0000 % U32) < U32
    ensures (lo + hi * U32) % 128 == lo % 128
  {
    hide Or;
    Pow2Values();
    ShiftedHigh(hi);
    OrAdds(lo / 128, hi % 128, 25);
    var q := lo / 128 + hi % 128 * 0x200_0000 + hi / 128 * U32;
    ModUnique(lo + hi * U32, 128, q, lo % 128);
  }

  lemma ShiftedHigh(hi: u32)
    ensures hi * 0x200_0000 % U32 == hi % 128 * 0x200_0000
  {
    DivMod(hi, 128);
    ModUnique(hi * 0x200_0000, U32, hi / 128, hi % 128 * 0x200_0000);
  }

  lemma SignExtended(value: i32, n: nat)
    requires value < 0 && n < U64 && (n - value) % U64 == 0
    ensures n == U32 * U32 + value
  {
  }

  lemma ZigzagWord(value: i32)
    ensures Zigzag(value) == if value < 0 then U32 - 1 - ToUint32(value) * 2 % U32 else ToUint32(value) * 2 % U32
  {
  }

  /** A node without successor that is not the tail stands nowhere in the list. */
  lemma NotInside(ops: seq<Op>, head: Op, tail: Op, len: nat, op: Op)
    requires Linked(ops, head, tail, len) && op.next == null && op != tail
    ensures op !in ops
  {
    forall i | 0 <= i < |ops| ensures ops[i] != op {
      if i < |ops| - 1 {
        assert ops[i].next == ops[i + 1];
      }
    }
  }

  lemma ChildBytes(child: seq<Op>, head: Op, tail: Op, len: nat)
    requires Linked(child, head, tail, len)
    ensures len == |Written(child)| && Written(child[1..]) == Written(child)
    ensures len > 0 ==> |child| > 1
  {
    assert child == [child[0]] + child[1..];
    BytesAppend([child[0]], child[1..]);
    BytesOfOne(child[0]);
  }
}
