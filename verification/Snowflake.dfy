/** `CommonIdGenerator`: ids made of a millisecond, a business id, a datacenter, a worker and a
    sequence number within the millisecond. The clock is an input. */
module Snowflake {
  import opened Words

  const SEQUENCES := 0x400
  const TWEPOCH := 1420041600000
  const DATACENTER: nat := 0
  const U64 := 0x1_0000_0000_0000_0000

  /** How many milliseconds the shifted timestamp can tell apart. */
  const SPAN := 0x100_0000_0000

  /** The two's complement pattern of a long. */
  function Pattern(x: int): (r: nat)
    ensures r < U64
  {
    x % U64
  }

  /** The long with a given pattern. */
  function Signed(p: nat): int {
    if p % U64 < U64 / 2 then p % U64 else p % U64 - U64
  }

  /** The shifts and ORs at the end of nextId, as a pattern. */
  function Pack(offset: int, business: nat, datacenter: nat, worker: int, sequence: nat): nat {
    Or(Or(Or(Or(Pattern(offset * 0x100_0000), business * 0x4_0000), datacenter * 0x8000),
          Pattern(worker * 0x400)), sequence)
  }

  /** What a successful call used, and the id it returned. */
  datatype Stamp = Stamp(timestamp: int, sequence: nat, business: nat, worker: int, id: int)

  datatype Answer = Issued(stamp: Stamp) | NoInstance | BadBusiness | ClockMovedBack

  /** The static worker id, whether the singleton exists, and its fields. */
  datatype Generator = Generator(created: bool, worker: int, sequence: nat, last: int)

  const NEW := Generator(false, 0, 0, -1)

  /** RandomUtils.nextInt(0, 10) */
  type Digit = x: nat | x < 10

  /** A run interleaves requests with new worker ids. A request is a call of generateIdLong, and
      carries all it reads from outside: the clock once, the clock again while waiting for the
      next millisecond, and the random number that starts a new millisecond. */
  datatype Event =
    | GetInstance
    | SetWorker(worker: int)
    | Request(business: int, now: int, later: seq<int>, random: Digit)

  /** getInstance: the constructor throws for a worker id outside 0..31, once the singleton exists
      nothing is checked any more. */
  function Instance(g: Generator): Generator {
    if g.created || 0 <= g.worker <= 31 then g.(created := true) else g
  }

  /** The clock passes `last` while the call waits. */
  predicate Passes(readings: seq<int>, last: int) {
    readings != [] && (readings[0] > last || Passes(readings[1..], last))
  }

  /** The first reading past `last`, and the readings behind it. */
  function FirstPast(readings: seq<int>, last: int): (r: (int, seq<int>))
    requires Passes(readings, last)
    ensures r.0 > last
  {
    if readings[0] > last then (readings[0], readings[1..]) else FirstPast(readings[1..], last)
  }

  /** The request uses up the last sequence number of its millisecond. */
  predicate Exhausts(g: Generator, now: int) {
    g.last == now && (g.sequence + 1) % SEQUENCES == 0
  }

  /** The event comes to an end: a wait for the next millisecond is over some time. */
  predicate Ends(g: Generator, e: Event) {
    e.Request? && Instance(g).created && 0 <= e.business <= 63 && Exhausts(g, e.now) ==> Passes(e.later, g.last)
  }

  /** generateIdLong as a function of the fields and of what it reads from outside. */
  function Next(g: Generator, e: Event): (Generator, Answer)
    requires e.Request? && Ends(g, e)
  {
    if !Instance(g).created then (g, NoInstance) else Issue(Instance(g), e)
  }

  /** nextId */
  function Issue(g: Generator, e: Event): (Generator, Answer)
    requires e.Request? && g.created && Ends(g, e)
  {
    if e.business > 63 || e.business < 0 then (g, BadBusiness)
    else if e.now < g.last then (g, ClockMovedBack)
    else
      var sequence := if g.last == e.now then (g.sequence + 1) % SEQUENCES else e.random;
      var timestamp := if Exhausts(g, e.now) then FirstPast(e.later, g.last).0 else e.now;
      var id := Signed(Pack(timestamp - TWEPOCH, e.business, DATACENTER, g.worker, sequence));
      (g.(sequence := sequence, last := timestamp),
       Issued(Stamp(timestamp, sequence, e.business, g.worker, id)))
  }

  ghost predicate Terminates(g: Generator, events: seq<Event>)
    decreases |events|
  {
    events != [] ==>
      Ends(g, events[0]) && Terminates(After(g, events[0]), events[1..])
  }

  function After(g: Generator, e: Event): Generator
    requires Ends(g, e)
  {
    match e
    case GetInstance => Instance(g)
    case SetWorker(worker) => g.(worker := worker)
    case Request(_, _, _, _) => Next(g, e).0
  }

  /** The stamps of the successful calls of a run, in order. */
  ghost function Stamps(g: Generator, events: seq<Event>): seq<Stamp>
    requires Terminates(g, events)
    decreases |events|
  {
    if events == [] then []
    else
      var e, more := events[0], Stamps(After(g, events[0]), events[1..]);
      if e.Request? && Next(g, e).1.Issued? then [Next(g, e).1.stamp] + more else more
  }

  predicate Before(timestamp: int, sequence: nat, s: Stamp) {
    timestamp < s.timestamp || (timestamp == s.timestamp && sequence < s.sequence)
  }

  /** The stamp's fields are in their ranges and its id is made of them. */
  predicate Made(s: Stamp) {
    && s.business <= 63 && s.sequence < SEQUENCES
    && s.id == Signed(Pack(s.timestamp - TWEPOCH, s.business, DATACENTER, s.worker, s.sequence))
  }

  ghost predicate Ascending(stamps: seq<Stamp>, timestamp: int, sequence: nat)
    decreases |stamps|
  {
    stamps != [] ==>
      Before(timestamp, sequence, stamps[0]) && Made(stamps[0])
      && Ascending(stamps[1..], stamps[0].timestamp, stamps[0].sequence)
  }

  /** The k-th reading is the first one past `last`. */
  predicate First(readings: seq<int>, last: int, k: nat) {
    k < |readings| && readings[k] > last && forall i :: 0 <= i < k ==> readings[i] <= last
  }

  lemma {:induction false} FirstPastIsFirst(readings: seq<int>, last: int) returns (k: nat)
    requires Passes(readings, last)
    ensures First(readings, last, k)
    ensures FirstPast(readings, last) == (readings[k], readings[k + 1..])
  {
    if readings[0] > last {
      k := 0;
    } else {
      var j := FirstPastIsFirst(readings[1..], last);
      k := j + 1;
      assert readings[1..][j + 1..] == readings[k + 1..];
    }
  }

  /** What one call answers: the four outcomes exclude each other, and a legal request on a clock
      that has not gone back is always answered with an id. */
  lemma AnswersExactly(g: Generator, e: Event)
    requires e.Request? && Ends(g, e)
    ensures var answer := Next(g, e).1;
            var created, legal := g.created || 0 <= g.worker <= 31, 0 <= e.business <= 63;
      && (answer == NoInstance <==> !created)
      && (answer == BadBusiness <==> created && !legal)
      && (answer == ClockMovedBack <==> created && legal && e.now < g.last)
      && (answer.Issued? <==> created && legal && e.now >= g.last)
  {
    hide Signed, Pack, FirstPast;
  }

  /** The timestamp and the sequence number of the id a call returns. */
  lemma StampExactly(g: Generator, e: Event)
    requires e.Request? && Ends(g, e) && g.sequence < SEQUENCES && Next(g, e).1.Issued?
    ensures var stamp := Next(g, e).1.stamp;
      && stamp.business == e.business && stamp.worker == g.worker
      && (e.now > g.last ==> stamp.timestamp == e.now && stamp.sequence == e.random)
      && (e.now == g.last && g.sequence < 1023 ==> stamp.timestamp == g.last && stamp.sequence == g.sequence + 1)
      && (e.now == g.last && g.sequence == 1023 ==>
            stamp.sequence == 0 && exists k: nat :: First(e.later, g.last, k) && stamp.timestamp == e.later[k])
  {
    hide Signed, Pack, FirstPast;
    if e.now == g.last && g.sequence == 1023 {
      var k := FirstPastIsFirst(e.later, g.last);
      assert First(e.later, g.last, k);
    }
  }

  /** Requests that all read the clock in the same millisecond. */
  ghost predicate Burst(events: seq<Event>, now: int) {
    forall i :: 0 <= i < |events| ==> events[i].Request? && 0 <= events[i].business <= 63 && events[i].now == now
  }

  /** Requests within one millisecond take consecutive sequence numbers while they stay below 1024. */
  lemma {:induction false} BurstCounts(g: Generator, events: seq<Event>)
    requires g.created && Burst(events, g.last) && g.sequence + |events| < SEQUENCES
    ensures Terminates(g, events) && |Stamps(g, events)| == |events|
    ensures forall i :: 0 <= i < |events| ==>
              var s := Stamps(g, events)[i]; s.timestamp == g.last && s.sequence == g.sequence + 1 + i
                                             && s.business == events[i].business
    decreases |events|
  {
    hide Signed, Pack, FirstPast;
    if events != [] {
      assert !Exhausts(g, events[0].now);
      BurstCounts(After(g, events[0]), events[1..]);
    }
  }

  /** A clock that never goes back, waits included, and legal requests. */
  ghost predicate Steady(events: seq<Event>) {
    && (forall i :: 0 <= i < |events| ==> events[i].Request? && 0 <= events[i].business <= 63)
    && forall i, t :: 0 <= i < |events| - 1 && t in [events[i].now] + events[i].later ==> t <= events[i + 1].now
  }

  /** On such a clock every request of a run is answered, by an id made at one of its readings. */
  lemma {:induction false} SteadyAnswers(g: Generator, events: seq<Event>)
    requires g.created && Steady(events) && Terminates(g, events)
    requires events != [] ==> g.last <= events[0].now
    ensures |Stamps(g, events)| == |events|
    ensures forall i :: 0 <= i < |events| ==> Stamps(g, events)[i].timestamp in [events[i].now] + events[i].later
    decreases |events|
  {
    hide Signed, Pack, FirstPast;
    if events != [] {
      var e := events[0];
      if Exhausts(g, e.now) {
        var k := FirstPastIsFirst(e.later, g.last);
      }
      assert Next(g, e).1.stamp.timestamp in [e.now] + e.later;
      assert Steady(events[1..]) by {
        forall i, t | 0 <= i < |events| - 2 && t in [events[1..][i].now] + events[1..][i].later
          ensures t <= events[1..][i + 1].now
        {
          assert events[1..][i] == events[i + 1];
        }
      }
      SteadyAnswers(After(g, e), events[1..]);
    }
  }

  /** One successful call moves (timestamp, sequence) strictly up. */
  lemma NextAscends(g: Generator, e: Event)
    requires e.Request? && Ends(g, e) && g.sequence < SEQUENCES
    ensures var (after, answer) := Next(g, e);
      && after.sequence < SEQUENCES
      && (answer.Issued? ==> Before(g.last, g.sequence, answer.stamp) && Made(answer.stamp)
                             && after.last == answer.stamp.timestamp && after.sequence == answer.stamp.sequence)
      && after.worker == g.worker
      && (answer.Issued? ==> answer.stamp.worker == g.worker && after.created)
      && (!answer.Issued? ==> after.sequence == g.sequence && after.last == g.last)
  {
    hide Pack, Signed;
  }

  /** Over any run, the pair (timestamp, sequence) of the successful calls strictly increases. */
  lemma {:induction false} RunAscends(g: Generator, events: seq<Event>)
    requires g.sequence < SEQUENCES && Terminates(g, events)
    ensures Ascending(Stamps(g, events), g.last, g.sequence)
    decreases |events|
  {
    if events != [] {
      hide Next, Made, Before;
      var e := events[0];
      if e.Request? {
        NextAscends(g, e);
      }
      RunAscends(After(g, e), events[1..]);
      var more := Stamps(After(g, e), events[1..]);
      if e.Request? && Next(g, e).1.Issued? {
        assert ([Next(g, e).1.stamp] + more)[1..] == more;
      }
    }
  }

  lemma {:induction false} AscendingAt(stamps: seq<Stamp>, timestamp: int, sequence: nat, j: nat)
    requires Ascending(stamps, timestamp, sequence) && j < |stamps|
    ensures Before(timestamp, sequence, stamps[j]) && Made(stamps[j])
    decreases j
  {
    if j > 0 {
      hide Made;
      AscendingAt(stamps[1..], stamps[0].timestamp, stamps[0].sequence, j - 1);
    }
  }

  lemma {:induction false} AscendingPair(stamps: seq<Stamp>, timestamp: int, sequence: nat, i: nat, j: nat)
    requires Ascending(stamps, timestamp, sequence) && i < j < |stamps|
    ensures Before(stamps[i].timestamp, stamps[i].sequence, stamps[j]) && Made(stamps[i]) && Made(stamps[j])
    decreases i
  {
    hide Made, Before;
    if i == 0 {
      AscendingAt(stamps[1..], stamps[0].timestamp, stamps[0].sequence, j - 1);
    } else {
      AscendingPair(stamps[1..], stamps[0].timestamp, stamps[0].sequence, i - 1, j - 1);
    }
  }

  // ---- the bit layout ----

  lemma {:induction false} OrBound(a: nat, b: nat, k: nat)
    requires a < Pow2(k) && b < Pow2(k)
    ensures Or(a, b) < Pow2(k)
  {
    if k > 0 {
      OrBound(a / 2, b / 2, k - 1);
      OrHalves(a, b);
    }
  }

  /** A word below 2^k ORed onto a word above it meets only its low part. */
  lemma {:induction false} OrBelow(c: nat, a: nat, b: nat, k: nat)
    requires a < Pow2(k) && b < Pow2(k)
    ensures Or(Shifted(c, k) + a, b) == Shifted(c, k) + Or(a, b)
  {
    hide Or;
    if k == 0 {
      OrZero(c);
    } else {
      OrBelow(c, a / 2, b / 2, k - 1);
      OrBelowBit(Shifted(c, k - 1), a, b);
    }
  }

  lemma OrBelowBit(high: nat, a: nat, b: nat)
    requires Or(high + a / 2, b / 2) == high + Or(a / 2, b / 2)
    ensures Or(2 * high + a, b) == 2 * high + Or(a, b)
  {
    hide Or;
    OrHalves(2 * high + a, b);
    OrHalves(a, b);
  }

  /** OR of shifted words. */
  lemma {:induction false} OrShifted(a: nat, b: nat, k: nat)
    ensures Or(Shifted(a, k), Shifted(b, k)) == Shifted(Or(a, b), k)
  {
    hide Or;
    if k > 0 {
      OrShifted(a, b, k - 1);
      OrHalves(2 * Shifted(a, k - 1), 2 * Shifted(b, k - 1));
    }
  }

  lemma {:induction false} OrSame(c: nat)
    ensures Or(c, c) == c
  {
    if c > 0 {
      OrSame(c / 2);
    }
  }

  /** OR-ing onto a word that already has all the bits. */
  lemma {:induction false} OrWithin(c: nat, low: nat, k: nat)
    requires low < Pow2(k)
    ensures Or(Shifted(c, k), Shifted(c, k) + low) == Shifted(c, k) + low
  {
    hide Or;
    if k == 0 {
      OrSame(c);
    } else {
      OrWithin(c, low / 2, k - 1);
      OrWithinBit(Shifted(c, k - 1), low);
    }
  }

  lemma OrWithinBit(high: nat, low: nat)
    requires Or(high, high + low / 2) == high + low / 2
    ensures Or(2 * high, 2 * high + low) == 2 * high + low
  {
    hide Or;
    OrHalves(2 * high, 2 * high + low);
  }

  /** A left shift keeps the low bits. */
  lemma ShiftedOffset(offset: int)
    ensures Pattern(offset * 0x100_0000) == offset % SPAN * 0x100_0000
  {
    var q, r := offset / SPAN, offset % SPAN;
    assert offset * 0x100_0000 == U64 * q + r * 0x100_0000;
    Residue(q, r * 0x100_0000);
  }

  const WORKERS := 0x40_0000_0000_0000

  lemma ShiftedWorker(worker: int)
    ensures Pattern(worker * 0x400) == worker % WORKERS * 0x400
  {
    var q, r := worker / WORKERS, worker % WORKERS;
    assert worker * 0x400 == U64 * q + r * 0x400;
    Residue(q, r * 0x400);
  }

  lemma Residue(q: int, r: nat)
    requires r < U64
    ensures (U64 * q + r) % U64 == r
  {
  }

  /** The fields between timestamp and sequence. A worker id too big for its five bits is ORed
      over the datacenter and the business id. */
  function Middle(business: nat, datacenter: nat, worker: int): nat {
    Or(business * 0x100 + datacenter * 0x20, worker % WORKERS)
  }

  /** While the shifted worker id stays below the timestamp, the OR of shifts is a positional sum
      in which timestamp and sequence have their own places. */
  lemma Layout(offset: int, business: nat, datacenter: nat, worker: int, sequence: nat)
    requires business <= 63 && datacenter <= 7 && worker % WORKERS < 0x4000 && sequence < SEQUENCES
    ensures Middle(business, datacenter, worker) < 0x4000
    ensures Pack(offset, business, datacenter, worker, sequence) ==
            offset % SPAN * 0x100_0000 + Middle(business, datacenter, worker) * 0x400 + sequence
  {
    hide Or, Pattern;
    ShiftedOffset(offset);
    ShiftedWorker(worker);
    FiveFields(offset % SPAN, business, datacenter, worker % WORKERS, sequence);
  }

  lemma FiveFields(h: nat, business: nat, datacenter: nat, w: nat, sequence: nat)
    requires business <= 63 && datacenter <= 7 && w < 0x4000 && sequence < 0x400
    ensures var m := Or(business * 0x100 + datacenter * 0x20, w);
      && m < 0x4000
      && Or(Or(Or(Or(h * 0x100_0000, business * 0x4_0000), datacenter * 0x8000), w * 0x400), sequence)
         == h * 0x100_0000 + m * 0x400 + sequence
  {
    Pow2Values();
    hide *;
    var m := business * 0x100 + datacenter * 0x20;
    OrAdds(business * 0x4_0000, h, 24);
    OrAdds(datacenter * 0x8000, h * 0x40 + business, 18);
    OrMiddle(h, m, w);
    OrAdds(sequence, h * 0x4000 + Or(m, w), 10);
  }

  lemma OrMiddle(h: nat, m: nat, w: nat)
    requires m < 0x4000 && w < 0x4000
    ensures Or(m, w) < 0x4000
    ensures Or(h * 0x100_0000 + m * 0x400, w * 0x400) == h * 0x100_0000 + Or(m, w) * 0x400
  {
    Pow2Values();
    hide *;
    OrBound(m, w, 14);
    ShiftedIs(h, 24);
    OrBelow(h, m * 0x400, w * 0x400, 24);
    ShiftedIs(m, 10);
    ShiftedIs(w, 10);
    ShiftedIs(Or(m, w), 10);
    OrShifted(m, w, 10);
  }

  /** With a legal worker id the fields between are a positional sum as well. */
  lemma LegalMiddle(business: nat, datacenter: nat, worker: nat)
    requires business <= 63 && datacenter <= 7 && worker <= 31
    ensures Middle(business, datacenter, worker) == business * 0x100 + datacenter * 0x20 + worker
  {
    hide Or;
    Pow2Values();
    OrAdds(worker, business * 8 + datacenter, 5);
  }

  /** For legal fields the id is non-negative, the positional sum of the fields, and gives every
      field back. */
  lemma Unpacks(offset: nat, business: nat, datacenter: nat, worker: nat, sequence: nat)
    requires offset < SPAN / 2 && business <= 63 && datacenter <= 7 && worker <= 31 && sequence < SEQUENCES
    ensures var id := Signed(Pack(offset, business, datacenter, worker, sequence));
      && 0 <= id < U64 / 2
      && id == offset * 0x100_0000 + business * 0x4_0000 + datacenter * 0x8000 + worker * 0x400 + sequence
      && id / 0x100_0000 == offset && id / 0x4_0000 % 0x40 == business
      && id / 0x8000 % 8 == datacenter && id / 0x400 % 0x20 == worker && id % 0x400 == sequence
  {
    hide Pack, Middle;
    Layout(offset, business, datacenter, worker, sequence);
    LegalMiddle(business, datacenter, worker);
    var id := Signed(Pack(offset, business, datacenter, worker, sequence));
    var rest := business * 0x4_0000 + datacenter * 0x8000 + worker * 0x400 + sequence;
    ModUnique(id, 0x100_0000, offset, rest);
    FieldOf(id, 0x4_0000, 0x40, offset, business, datacenter * 0x8000 + worker * 0x400 + sequence);
    FieldOf(id, 0x8000, 8, offset * 0x40 + business, datacenter, worker * 0x400 + sequence);
    FieldOf(id, 0x400, 0x20, offset * 0x200 + business * 8 + datacenter, worker, sequence);
  }

  lemma FieldOf(id: nat, place: nat, size: nat, high: nat, field: nat, low: nat)
    requires low < place && field < size && id == place * (size * high + field) + low
    ensures id / place % size == field && id % place == low
  {
    ModUnique(id, place, size * high + field, low);
    ModUnique(size * high + field, size, high, field);
  }

  /** Every non-negative long is the id of the fields read off it. */
  lemma PacksBack(id: nat)
    requires id < U64 / 2
    ensures Signed(Pack(id / 0x100_0000, id / 0x4_0000 % 0x40, id / 0x8000 % 8, id / 0x400 % 0x20, id % 0x400)) == id
  {
    hide Pack, Signed;
    ModSplit(id, 0x400, 0x20);
    ModSplit(id, 0x8000, 8);
    ModSplit(id, 0x4_0000, 0x40);
    DivMod(id, 0x100_0000);
    Unpacks(id / 0x100_0000, id / 0x4_0000 % 0x40, id / 0x8000 % 8, id / 0x400 % 0x20, id % 0x400);
  }

  /** Equal ids have congruent timestamps and equal sequence numbers, and with legal worker ids
      everything else is equal too. */
  lemma EqualIds(s: Stamp, s': Stamp)
    requires Made(s) && Made(s') && s.worker % WORKERS < 0x4000 && s'.worker % WORKERS < 0x4000
    requires s.id == s'.id
    ensures (s.timestamp - TWEPOCH) % SPAN == (s'.timestamp - TWEPOCH) % SPAN && s.sequence == s'.sequence
    ensures 0 <= s.worker <= 31 && 0 <= s'.worker <= 31 ==> s.worker == s'.worker && s.business == s'.business
  {
    hide Pack, Middle, Signed;
    Layout(s.timestamp - TWEPOCH, s.business, DATACENTER, s.worker, s.sequence);
    Layout(s'.timestamp - TWEPOCH, s'.business, DATACENTER, s'.worker, s'.sequence);
    var o, o' := (s.timestamp - TWEPOCH) % SPAN, (s'.timestamp - TWEPOCH) % SPAN;
    var m, m' := Middle(s.business, DATACENTER, s.worker), Middle(s'.business, DATACENTER, s'.worker);
    SignedInjective(o * 0x100_0000 + m * 0x400 + s.sequence, o' * 0x100_0000 + m' * 0x400 + s'.sequence);
    SameParts(o, m, s.sequence, o', m', s'.sequence);
    if 0 <= s.worker <= 31 && 0 <= s'.worker <= 31 {
      LegalMiddle(s.business, DATACENTER, s.worker);
      LegalMiddle(s'.business, DATACENTER, s'.worker);
    }
  }

  lemma SignedInjective(p: nat, p': nat)
    requires p < U64 && p' < U64 && Signed(p) == Signed(p')
    ensures p == p'
  {
  }

  lemma SameParts(o: nat, m: nat, n: nat, o': nat, m': nat, n': nat)
    requires m < 0x4000 && m' < 0x4000 && n < 0x400 && n' < 0x400
    requires o * 0x100_0000 + m * 0x400 + n == o' * 0x100_0000 + m' * 0x400 + n'
    ensures o == o' && m == m' && n == n'
  {
  }

  // ---- uniqueness ----

  ghost predicate Within(stamps: seq<Stamp>, from: int) {
    forall i :: 0 <= i < |stamps| ==> from <= stamps[i].timestamp < from + SPAN
  }

  ghost predicate Fit(stamps: seq<Stamp>) {
    forall i :: 0 <= i < |stamps| ==> stamps[i].worker % WORKERS < 0x4000
  }

  /** In a run whose timestamps span less than 2^40 ms, all ids are pairwise distinct. */
  lemma DistinctIds(g: Generator, events: seq<Event>, from: int)
    requires g.sequence < SEQUENCES && Terminates(g, events)
    requires Within(Stamps(g, events), from) && Fit(Stamps(g, events))
    ensures var stamps := Stamps(g, events);
            forall i, j :: 0 <= i < j < |stamps| ==> stamps[i].id != stamps[j].id
  {
    hide Stamps, Terminates, Made, Ascending;
    var stamps := Stamps(g, events);
    RunAscends(g, events);
    forall i, j | 0 <= i < j < |stamps| ensures stamps[i].id != stamps[j].id {
      AscendingPair(stamps, g.last, g.sequence, i, j);
      if stamps[i].id == stamps[j].id {
        EqualIds(stamps[i], stamps[j]);
        CloseResidues(stamps[i].timestamp, stamps[j].timestamp, from);
      }
    }
  }

  lemma CloseResidues(t: int, t': int, from: int)
    requires from <= t < from + SPAN && from <= t' < from + SPAN
    requires (t - TWEPOCH) % SPAN == (t' - TWEPOCH) % SPAN
    ensures t == t'
  {
  }

  /** Two processes with legal worker ids that never share a millisecond and a worker id return
      no id in common. */
  lemma DistinctProcesses(g: Generator, events: seq<Event>, g': Generator, events': seq<Event>, from: int)
    requires g.sequence < SEQUENCES && Terminates(g, events)
    requires g'.sequence < SEQUENCES && Terminates(g', events')
    requires Within(Stamps(g, events), from) && Within(Stamps(g', events'), from)
    requires forall s :: s in Stamps(g, events) || s in Stamps(g', events') ==> 0 <= s.worker <= 31
    requires forall s, s' :: s in Stamps(g, events) && s' in Stamps(g', events') ==>
               s.timestamp != s'.timestamp || s.worker != s'.worker
    ensures forall s, s' :: s in Stamps(g, events) && s' in Stamps(g', events') ==> s.id != s'.id
  {
    hide Stamps, Terminates, Made, Ascending;
    var stamps, stamps' := Stamps(g, events), Stamps(g', events');
    RunAscends(g, events);
    RunAscends(g', events');
    forall s, s' | s in stamps && s' in stamps' ensures s.id != s'.id {
      AllMade(stamps, g.last, g.sequence, s);
      AllMade(stamps', g'.last, g'.sequence, s');
      DistinctStamps(s, s', from);
    }
  }

  lemma AllMade(stamps: seq<Stamp>, timestamp: int, sequence: nat, s: Stamp)
    requires Ascending(stamps, timestamp, sequence) && s in stamps
    ensures Made(s)
  {
    hide Made, Ascending;
    var i :| 0 <= i < |stamps| && stamps[i] == s;
    AscendingAt(stamps, timestamp, sequence, i);
  }

  lemma DistinctStamps(s: Stamp, s': Stamp, from: int)
    requires Made(s) && Made(s') && 0 <= s.worker <= 31 && 0 <= s'.worker <= 31
    requires from <= s.timestamp < from + SPAN && from <= s'.timestamp < from + SPAN
    requires s.timestamp != s'.timestamp || s.worker != s'.worker
    ensures s.id != s'.id
  {
    hide Made;
    if s.id == s'.id {
      EqualIds(s, s');
      CloseResidues(s.timestamp, s'.timestamp, from);
    }
  }

  // ---- worker ids that setWorkerId should have refused ----

  /** The singleton is created under a legal worker id; w is set later and used in two
      milliseconds. */
  function TwoCalls(w: int): seq<Event> {
    [GetInstance, SetWorker(w), Request(0, TWEPOCH, [], 0), Request(0, TWEPOCH + w % WORKERS / 0x4000, [], 0)]
  }

  /** A worker id that reaches into the timestamp's bits makes ids repeat; setWorkerId has the
      check for it, with an empty body. */
  lemma WideWorkerRepeats(w: int)
    requires w % WORKERS >= 0x4000
    ensures var run := TwoCalls(w);
      && Terminates(NEW, run) && Within(Stamps(NEW, run), TWEPOCH)
      && |Stamps(NEW, run)| == 2 && Stamps(NEW, run)[0].id == Stamps(NEW, run)[1].id
      && Stamps(NEW, run)[0].worker == Stamps(NEW, run)[1].worker == w
  {
    var h := w % WORKERS / 0x4000;
    var g0, g1 := Generator(true, w, 0, -1), Generator(true, w, 0, TWEPOCH);
    var r0, r1 := Request(0, TWEPOCH, [], 0), Request(0, TWEPOCH + h, [], 0);
    WidePack(w);
    hide Pack, Signed;
    OneMore(g1, r1, []);
    OneMore(g0, r0, [r1]);
    OneMore(Generator(true, 0, 0, -1), SetWorker(w), [r0, r1]);
    OneMore(NEW, GetInstance, [SetWorker(w), r0, r1]);
    assert TwoCalls(w) == [GetInstance] + [SetWorker(w), r0, r1];
    assert [SetWorker(w), r0, r1] == [SetWorker(w)] + [r0, r1];
    assert [r0, r1] == [r0] + [r1] && [r1] == [r1] + [];
  }

  lemma OneMore(g: Generator, e: Event, rest: seq<Event>)
    requires Ends(g, e) && Terminates(After(g, e), rest)
    ensures Terminates(g, [e] + rest)
    ensures var more := Stamps(After(g, e), rest);
            Stamps(g, [e] + rest) ==
            if e.Request? && Next(g, e).1.Issued? then [Next(g, e).1.stamp] + more else more
  {
    hide Next;
    assert ([e] + rest)[1..] == rest;
  }

  lemma WidePack(w: int)
    requires w % WORKERS >= 0x4000
    ensures var h := w % WORKERS / 0x4000; 0 < h < SPAN && Pack(0, 0, 0, w, 0) == Pack(h, 0, 0, w, 0)
  {
    hide Or, Pattern;
    Pow2Values();
    var v := w % WORKERS;
    var h, low := v / 0x4000, v % 0x4000 * 0x400;
    ShiftedWorker(w);
    ShiftedOffset(0);
    ShiftedOffset(h);
    OrZero(0);
    OrZero(h * 0x100_0000);
    ShiftedIs(h, 24);
    OrWithin(h, low, 24);
    OrZero(v * 0x400);
  }

  /** A run that makes its ids with worker id w and returns one of them twice within 2^40 ms. */
  ghost predicate Repeats(events: seq<Event>, w: int) {
    && Terminates(NEW, events) && Within(Stamps(NEW, events), TWEPOCH)
    && (forall i :: 0 <= i < |Stamps(NEW, events)| ==> Stamps(NEW, events)[i].worker == w)
    && exists i, j :: 0 <= i < j < |Stamps(NEW, events)| && Stamps(NEW, events)[i].id == Stamps(NEW, events)[j].id
  }

  /** The exact condition on a worker id: ids can repeat if and only if it reaches, shifted and
      cut to 64 bits, into the bits of the timestamp. */
  lemma RepeatsExactly(w: int)
    ensures (exists events :: Repeats(events, w)) <==> w % WORKERS >= 0x4000
  {
    if w % WORKERS >= 0x4000 {
      WideWorkerRepeats(w);
      assert Repeats(TwoCalls(w), w);
    } else {
      forall events: seq<Event> ensures !Repeats(events, w) {
        if Repeats(events, w) {
          DistinctIds(NEW, events, TWEPOCH);
        }
      }
    }
  }

  /** An illegal worker id that is set before the singleton exists is refused: until another one is
      set, no id is returned. */
  lemma {:induction false} EarlyWorkerRefused(g: Generator, events: seq<Event>)
    requires !g.created && !(0 <= g.worker <= 31) && Terminates(g, events)
    requires forall i :: 0 <= i < |events| ==> !events[i].SetWorker?
    ensures Stamps(g, events) == []
    decreases |events|
  {
    if events != [] {
      assert !events[0].SetWorker?;
      EarlyWorkerRefused(g, events[1..]);
    }
  }

  // ---- the generator ----

  /** System.currentTimeMillis, with the readings it is going to give. */
  class Clock {
    var readings: seq<int>

    constructor (readings: seq<int>)
      ensures this.readings == readings
    {
      this.readings := readings;
    }

    method TimeGen() returns (t: int)
      requires readings != []
      modifies this
      ensures [t] + readings == old(readings)
    {
      t := readings[0];
      readings := readings[1..];
    }
  }

  /** The static fields and the singleton. */
  class CommonIdGenerator {
    var created: bool
    var workerId: int
    var sequence: nat
    var lastTimestamp: int

    constructor ()
      ensures Fields() == NEW
    {
      created, workerId, sequence, lastTimestamp := false, 0, 0, -1;
    }

    function Fields(): Generator
      reads this
    {
      Generator(created, workerId, sequence, lastTimestamp)
    }

    method SetWorkerId(workerId: int)
      modifies this
      ensures Fields() == After(old(Fields()), SetWorker(workerId))
    {
      this.workerId := workerId;
    }

    /** false stands for the IllegalArgumentException of the constructor. */
    method GetInstance() returns (ok: bool)
      modifies this
      ensures Fields() == Instance(old(Fields())) && ok == created
    {
      if !created {
        if workerId > 31 || workerId < 0 {
          return false;
        }
        created := true;
      }
      ok := true;
    }

    method GenerateIdLong(businessId: int, clock: Clock, random: Digit) returns (answer: Answer)
      requires clock.readings != []
      requires Ends(Fields(), Request(businessId, clock.readings[0], clock.readings[1..], random))
      modifies this, clock
      ensures var r := old(clock.readings);
              (Fields(), answer) == Next(old(Fields()), Request(businessId, r[0], r[1..], random))
      ensures answer.Issued? <==>
              && (old(created) || 0 <= old(workerId) <= 31)
              && 0 <= businessId <= 63 && old(clock.readings)[0] >= old(lastTimestamp)
      ensures answer == NoInstance ==> clock.readings == old(clock.readings)
    {
      hide Passes, FirstPast, Signed, Pack;
      var ok := GetInstance();
      if !ok {
        return NoInstance;
      }
      answer := NextId(businessId, clock, random);
    }

    method NextId(businessId: int, clock: Clock, random: Digit) returns (answer: Answer)
      requires created && clock.readings != []
      requires Ends(Fields(), Request(businessId, clock.readings[0], clock.readings[1..], random))
      modifies this, clock
      ensures var r := old(clock.readings);
              (Fields(), answer)
              == Issue(old(Fields()), Request(businessId, r[0], r[1..], random))
      ensures answer.Issued? <==> 0 <= businessId <= 63 && old(clock.readings)[0] >= old(lastTimestamp)
      ensures answer.Issued? ==>
                lastTimestamp == answer.stamp.timestamp && sequence == answer.stamp.sequence
      ensures answer.Issued? && old(clock.readings)[0] > old(lastTimestamp) ==>
                lastTimestamp == old(clock.readings)[0] && sequence == random
      ensures answer.Issued? && old(clock.readings)[0] == old(lastTimestamp) && old(sequence) < 1023 ==>
                lastTimestamp == old(lastTimestamp) && sequence == old(sequence) + 1
      ensures answer.Issued? && old(clock.readings)[0] == old(lastTimestamp) && old(sequence) == 1023 ==>
                sequence == 0 && lastTimestamp > old(lastTimestamp)
      ensures !answer.Issued? ==> unchanged(this)
      ensures answer.Issued? && old(Exhausts(Fields(), clock.readings[0])) ==>
                clock.readings == FirstPast(old(clock.readings)[1..], old(lastTimestamp)).1
      ensures !(answer.Issued? && old(Exhausts(Fields(), clock.readings[0]))) ==>
                clock.readings == old(clock.readings)[1..]
    {
      hide Passes, FirstPast, Signed, Pack;
      var timestamp := clock.TimeGen();
      assert timestamp == old(clock.readings)[0] && clock.readings == old(clock.readings)[1..];
      if businessId > 63 || businessId < 0 {
        return BadBusiness;
      }
      if timestamp < lastTimestamp {
        return ClockMovedBack;
      }
      if lastTimestamp == timestamp {
        sequence := (sequence + 1) % SEQUENCES;
        if sequence == 0 {
          timestamp := TilNextMillis(lastTimestamp, clock);
        }
      } else {
        sequence := random;
      }
      lastTimestamp := timestamp;
      var id := Signed(Pack(timestamp - TWEPOCH, businessId, DATACENTER, workerId, sequence));
      answer := Issued(Stamp(timestamp, sequence, businessId, workerId, id));
    }

    /** Waits for the clock to pass `last`. That it does is assumed, not proved. */
    method TilNextMillis(last: int, clock: Clock) returns (timestamp: int)
      requires Passes(clock.readings, last)
      modifies clock
      ensures (timestamp, clock.readings) == FirstPast(old(clock.readings), last)
      ensures exists k: nat :: First(old(clock.readings), last, k) && timestamp == old(clock.readings)[k]
    {
      ghost var k := FirstPastIsFirst(clock.readings, last);
      timestamp := clock.TimeGen();
      while timestamp <= last
        invariant Passes([timestamp] + clock.readings, last)
        invariant FirstPast([timestamp] + clock.readings, last) == FirstPast(old(clock.readings), last)
        decreases |clock.readings|
      {
        assert ([timestamp] + clock.readings)[1..] == clock.readings;
        timestamp := clock.TimeGen();
      }
      assert ([timestamp] + clock.readings)[1..] == clock.readings;
    }
  }
}
