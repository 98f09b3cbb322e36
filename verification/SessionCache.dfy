/** `RedisSessionDao`: a per-thread cache in front of Redis, timed by the creation of its entries.
    Session values are immutable here. */
module SessionCache {
  import opened Options

  type Id = nat
  type Session = nat
  type Thread = nat

  // ---- Redis ----

  datatype Item = Item(session: Session, expires: Option<int>)

  datatype Redis = Redis(clock: int, items: map<Id, Item>)

  /** What can happen to Redis: the commands of `set`, `expire` and `del`, and time. */
  datatype Event = Set(id: Id, session: Session) | ExpireIn(id: Id, seconds: int) | Del(id: Id) | Tick(ms: nat)

  /** GET: expired keys are gone. */
  function Held(r: Redis, id: Id): Option<Session> {
    if id in r.items && (r.items[id].expires.None? || r.clock < r.items[id].expires.value)
    then Some(r.items[id].session) else None
  }

  /** EXPIRE with a time that is not positive deletes the key. */
  function Happen(r: Redis, e: Event): Redis {
    match e
    case Set(id, session) => r.(items := r.items[id := Item(session, None)])
    case ExpireIn(id, seconds) =>
      if Held(r, id).None? || seconds <= 0 then r.(items := r.items - {id})
      else r.(items := r.items[id := Item(r.items[id].session, Some(r.clock + seconds * 1000))])
    case Del(id) => r.(items := r.items - {id})
    case Tick(ms) => r.(clock := r.clock + ms)
  }

  // ---- one thread's map ----

  datatype SessionInMemory = SessionInMemory(session: Option<Session>, createTime: int)

  type SessionMap = map<Id, SessionInMemory>

  /** getSessionFromThreadLocal: the answer, and the map without an entry that is too old. */
  function Recall(m: SessionMap, id: Id, now: int, timeout: int): (Option<Session>, SessionMap) {
    if id !in m then (None, m)
    else if now - m[id].createTime < timeout then (m[id].session, m)
    else (None, m - {id})
  }

  // ---- reads by many threads, step by step ----

  /** Where a thread's doReadSession is. `since` and `at` number states of Redis: the one current
      when the call began, and the one the session was fetched from. */
  datatype Call =
    | Idle
    | Missed(id: Id, since: nat)
    | Fetched(id: Id, session: Option<Session>, at: nat, since: nat)

  /** A result of doReadSession, with the numbers of the states it began and ended in. */
  datatype Reply = Reply(id: Id, session: Option<Session>, cached: bool, broken: bool, since: nat, until: nat)

  /** `history` holds every state of Redis so far; only the last one can be asked. */
  datatype World = World(
    history: seq<Redis>,
    maps: map<Thread, SessionMap>,
    calls: map<Thread, Call>,
    replies: seq<Reply>)

  datatype Step =
    | Outside(e: Event)             // any client's save or delete, or time passing
    | Begin(t: Thread, id: Id)
    | Fetch(t: Thread, corrupt: bool)
    | Finish(t: Thread)

  function Start(r: Redis): World {
    World([r], map[], map[], [])
  }

  function Current(w: World): Redis
    requires w.history != []
  {
    w.history[|w.history| - 1]
  }

  function MapOf(w: World, t: Thread): SessionMap {
    if t in w.maps then w.maps[t] else map[]
  }

  function CallOf(w: World, t: Thread): Call {
    if t in w.calls then w.calls[t] else Idle
  }

  predicate Ready(w: World, s: Step) {
    && w.history != []
    && match s
       case Outside(_) => true
       case Begin(t, _) => CallOf(w, t).Idle?
       case Fetch(t, _) => CallOf(w, t).Missed?
       case Finish(t) => CallOf(w, t).Fetched?
  }

  /** At most `lag` milliseconds pass between the answer of Redis and the creation time that
      setSessionToThreadLocal gives the entry. */
  predicate Prompt(w: World, s: Step, lag: nat)
    requires Ready(w, s)
  {
    s.Finish? ==>
      var at := CallOf(w, s.t).at; at < |w.history| && Current(w).clock - w.history[at].clock <= lag
  }

  function Act(w: World, s: Step, timeout: int): World
    requires Ready(w, s)
  {
    var now := |w.history| - 1;
    match s
    case Outside(e) => w.(history := w.history + [Happen(Current(w), e)])
    case Begin(t, id) =>
      var (found, m) := Recall(MapOf(w, t), id, Current(w).clock, timeout);
      var w' := w.(maps := w.maps[t := m]);
      if found.Some? then w'.(replies := w.replies + [Reply(id, found, true, false, now, now)])
      else w'.(calls := w.calls[t := Missed(id, now)])
    case Fetch(t, corrupt) =>
      var c, got := CallOf(w, t), Held(Current(w), CallOf(w, t).id);
      if got.Some? && corrupt
      then w.(calls := w.calls[t := Idle], replies := w.replies + [Reply(c.id, None, false, true, c.since, now)])
      else w.(calls := w.calls[t := Fetched(c.id, got, now, c.since)])
    case Finish(t) =>
      var c := CallOf(w, t);
      w.(calls := w.calls[t := Idle],
         maps := w.maps[t := MapOf(w, t)[c.id := SessionInMemory(c.session, Current(w).clock)]],
         replies := w.replies + [Reply(c.id, c.session, false, false, c.since, now)])
  }

  ghost predicate Possible(w: World, run: seq<Step>, timeout: int, lag: nat)
    decreases |run|
  {
    run != [] ==>
      Ready(w, run[0]) && Prompt(w, run[0], lag) && Possible(Act(w, run[0], timeout), run[1..], timeout, lag)
  }

  ghost function After(w: World, run: seq<Step>, timeout: int, lag: nat): World
    requires Possible(w, run, timeout, lag)
    decreases |run|
  {
    if run == [] then w else After(Act(w, run[0], timeout), run[1..], timeout, lag)
  }

  // ---- what every run keeps ----

  predicate WasHeld(h: seq<Redis>, k: nat, id: Id, session: Option<Session>) {
    k < |h| && Held(h[k], id) == session
  }

  /** The clock never goes back. */
  predicate Ordered(h: seq<Redis>) {
    forall i, j :: 0 <= i <= j < |h| ==> h[i].clock <= h[j].clock
  }

  /** An entry holds what Redis held at most `lag` before its creation time. */
  ghost predicate Backed(h: seq<Redis>, id: Id, e: SessionInMemory, lag: nat) {
    exists k: nat :: WasHeld(h, k, id, e.session) && h[k].clock <= e.createTime <= h[k].clock + lag
  }

  /** Redis held the result at an instant less than `window` before the call began. */
  ghost predicate Recent(h: seq<Redis>, r: Reply, window: int)
    requires r.since < |h|
  {
    exists k: nat :: WasHeld(h, k, r.id, r.session) && k <= r.since && h[r.since].clock - h[k].clock < window
  }

  /** Redis held the result while the call ran; null is what it has for an absent key. */
  ghost predicate During(h: seq<Redis>, r: Reply, session: Option<Session>) {
    exists k: nat :: WasHeld(h, k, r.id, session) && r.since <= k <= r.until
  }

  /** What a reply promises. */
  ghost predicate Fresh(h: seq<Redis>, r: Reply, window: int) {
    && r.since <= r.until < |h|
    && if r.broken then r.session.None? && exists v: Session :: During(h, r, Some(v))
       else if r.cached then r.session.Some? && Recent(h, r, window)
       else During(h, r, r.session)
  }

  ghost predicate MapsBacked(w: World, lag: nat) {
    forall t, id :: t in w.maps && id in w.maps[t] ==> Backed(w.history, id, w.maps[t][id], lag)
  }

  predicate CallsSound(w: World) {
    forall t :: t in w.calls ==>
      match w.calls[t]
      case Idle => true
      case Missed(_, since) => since < |w.history|
      case Fetched(id, session, at, since) => since <= at && WasHeld(w.history, at, id, session)
  }

  ghost predicate RepliesFresh(w: World, window: int) {
    forall i :: 0 <= i < |w.replies| ==> Fresh(w.history, w.replies[i], window)
  }

  ghost predicate Sound(w: World, timeout: int, lag: nat) {
    && w.history != [] && Ordered(w.history)
    && MapsBacked(w, lag) && CallsSound(w) && RepliesFresh(w, timeout + lag)
  }

  /** More history keeps what is known of the past. */
  lemma BackedLater(h: seq<Redis>, r: Redis, id: Id, e: SessionInMemory, lag: nat)
    requires Backed(h, id, e, lag)
    ensures Backed(h + [r], id, e, lag)
  {
    var k: nat :| WasHeld(h, k, id, e.session) && h[k].clock <= e.createTime <= h[k].clock + lag;
    assert WasHeld(h + [r], k, id, e.session);
  }

  lemma DuringLater(h: seq<Redis>, r: Redis, reply: Reply, session: Option<Session>)
    requires During(h, reply, session)
    ensures During(h + [r], reply, session)
  {
    var k: nat :| WasHeld(h, k, reply.id, session) && reply.since <= k <= reply.until;
    assert WasHeld(h + [r], k, reply.id, session);
  }

  lemma FreshLater(h: seq<Redis>, r: Redis, reply: Reply, window: int)
    requires Fresh(h, reply, window)
    ensures Fresh(h + [r], reply, window)
  {
    if reply.broken {
      var v: Session :| During(h, reply, Some(v));
      DuringLater(h, r, reply, Some(v));
    } else if reply.cached {
      var k: nat :| WasHeld(h, k, reply.id, reply.session) && k <= reply.since
                    && h[reply.since].clock - h[k].clock < window;
      assert WasHeld(h + [r], k, reply.id, reply.session);
    } else {
      DuringLater(h, r, reply, reply.session);
    }
  }

  lemma ClockAdvances(r: Redis, e: Event)
    ensures Happen(r, e).clock >= r.clock
  {
  }

  lemma OutsideKeeps(w: World, e: Event, timeout: int, lag: nat)
    requires Sound(w, timeout, lag)
    ensures Sound(Act(w, Outside(e), timeout), timeout, lag)
  {
    var r := Happen(Current(w), e);
    var h' := w.history + [r];
    ClockAdvances(Current(w), e);
    hide Backed, Fresh, Happen, Held;
    forall t, id | t in w.maps && id in w.maps[t] ensures Backed(h', id, w.maps[t][id], lag) {
      BackedLater(w.history, r, id, w.maps[t][id], lag);
    }
    forall i | 0 <= i < |w.replies| ensures Fresh(h', w.replies[i], timeout + lag) {
      FreshLater(w.history, r, w.replies[i], timeout + lag);
    }
  }

  /** A hit: the entry is younger than the timeout, and what it holds at most `lag` older. */
  lemma HitIsFresh(w: World, t: Thread, id: Id, timeout: int, lag: nat)
    requires Sound(w, timeout, lag)
    requires Recall(MapOf(w, t), id, Current(w).clock, timeout).0.Some?
    ensures var now := |w.history| - 1; var found := Recall(MapOf(w, t), id, Current(w).clock, timeout).0;
            Fresh(w.history, Reply(id, found, true, false, now, now), timeout + lag)
  {
    var now, e := |w.history| - 1, MapOf(w, t)[id];
    assert Backed(w.history, id, e, lag);
    var k: nat :| WasHeld(w.history, k, id, e.session)
        && w.history[k].clock <= e.createTime <= w.history[k].clock + lag;
    assert Recent(w.history, Reply(id, e.session, true, false, now, now), timeout + lag);
  }

  lemma BeginKeeps(w: World, t: Thread, id: Id, timeout: int, lag: nat)
    requires Sound(w, timeout, lag) && Ready(w, Begin(t, id))
    ensures Sound(Act(w, Begin(t, id), timeout), timeout, lag)
  {
    if Recall(MapOf(w, t), id, Current(w).clock, timeout).0.Some? {
      HitIsFresh(w, t, id, timeout, lag);
    }
    hide Backed, Fresh, Held;
  }

  lemma FetchKeeps(w: World, t: Thread, corrupt: bool, timeout: int, lag: nat)
    requires Sound(w, timeout, lag) && Ready(w, Fetch(t, corrupt))
    ensures Sound(Act(w, Fetch(t, corrupt), timeout), timeout, lag)
  {
    var now, c := |w.history| - 1, CallOf(w, t);
    var got := Held(Current(w), c.id);
    assert WasHeld(w.history, now, c.id, got);
    if got.Some? && corrupt {
      var r := Reply(c.id, None, false, true, c.since, now);
      assert During(w.history, r, Some(got.value));
      assert Fresh(w.history, r, timeout + lag);
    }
    hide Backed, Fresh, Held;
  }

  lemma FinishKeeps(w: World, t: Thread, timeout: int, lag: nat)
    requires Sound(w, timeout, lag) && Ready(w, Finish(t)) && Prompt(w, Finish(t), lag)
    ensures Sound(Act(w, Finish(t), timeout), timeout, lag)
  {
    var now, c := |w.history| - 1, CallOf(w, t);
    var e := SessionInMemory(c.session, Current(w).clock);
    assert WasHeld(w.history, c.at, c.id, c.session);
    assert Backed(w.history, c.id, e, lag);
    var r := Reply(c.id, c.session, false, false, c.since, now);
    assert During(w.history, r, c.session);
    assert Fresh(w.history, r, timeout + lag);
    hide Backed, Fresh, Held;
  }

  lemma {:induction false} RunIsSound(w: World, run: seq<Step>, timeout: int, lag: nat)
    requires Sound(w, timeout, lag) && Possible(w, run, timeout, lag)
    ensures Sound(After(w, run, timeout, lag), timeout, lag)
    decreases |run|
  {
    if run != [] {
      hide Sound, Act, Prompt;
      match run[0] {
        case Outside(e) => OutsideKeeps(w, e, timeout, lag);
        case Begin(t, id) => BeginKeeps(w, t, id, timeout, lag);
        case Fetch(t, corrupt) => FetchKeeps(w, t, corrupt, timeout, lag);
        case Finish(t) => FinishKeeps(w, t, timeout, lag);
      }
      RunIsSound(Act(w, run[0], timeout), run[1..], timeout, lag);
    }
  }

  /** Bounded staleness: in every run, a cached result is what Redis held for the id less than
      timeout + lag before the call, any other result what it held during the call, and null,
      unless the bytes could not be read back, means that it held nothing then. */
  lemma ReadsAreFresh(r: Redis, run: seq<Step>, timeout: int, lag: nat)
    requires Possible(Start(r), run, timeout, lag)
    ensures RepliesFresh(After(Start(r), run, timeout, lag), timeout + lag)
  {
    RunIsSound(Start(r), run, timeout, lag);
  }

  // ---- how much the lag costs ----

  /** In every run all replies are fresh within the window. */
  ghost predicate AlwaysFresh(timeout: int, lag: nat, window: int) {
    forall r, run :: Possible(Start(r), run, timeout, lag) ==>
      RepliesFresh(After(Start(r), run, timeout, lag), window)
  }

  lemma OneMore(w: World, s: Step, rest: seq<Step>, timeout: int, lag: nat)
    requires Ready(w, s) && Prompt(w, s, lag) && Possible(Act(w, s, timeout), rest, timeout, lag)
    ensures Possible(w, [s] + rest, timeout, lag)
    ensures After(w, [s] + rest, timeout, lag) == After(Act(w, s, timeout), rest, timeout, lag)
  {
    hide Act, Ready, Prompt;
    assert ([s] + rest)[1..] == rest;
  }

  /** The session is deleted between the answer of Redis and the creation of the entry, and
      returned from the entry a timeout later. */
  function LateRun(timeout: nat, lag: nat): seq<Step>
    requires timeout > 0
  {
    [Outside(Set(1, 7)), Begin(0, 1), Fetch(0, false)]
    + ([Outside(Del(1)), Outside(Tick(lag)), Finish(0)]
    + [Outside(Tick(timeout - 1)), Begin(0, 1)])
  }

  const R0 := Redis(0, map[])
  const R1 := Redis(0, map[1 := Item(7, None)])

  /** The worlds after the three parts of the run. */
  function Late1(): World {
    World([R0, R1], map[0 := map[]], map[0 := Fetched(1, Some(7), 1, 1)], [])
  }

  function Late2(lag: nat): World {
    World([R0, R1, R0, Redis(lag, map[])], map[0 := map[1 := SessionInMemory(Some(7), lag)]], map[0 := Idle],
          [Reply(1, Some(7), false, false, 1, 3)])
  }

  function Late3(timeout: int, lag: nat): World {
    World([R0, R1, R0, Redis(lag, map[]), Redis(lag + timeout - 1, map[])],
          map[0 := map[1 := SessionInMemory(Some(7), lag)]], map[0 := Idle],
          [Reply(1, Some(7), false, false, 1, 3), Reply(1, Some(7), true, false, 4, 4)])
  }

  lemma LatePart1(rest: seq<Step>, timeout: nat, lag: nat)
    requires Possible(Late1(), rest, timeout, lag)
    ensures var run := [Outside(Set(1, 7)), Begin(0, 1), Fetch(0, false)] + rest;
      Possible(Start(R0), run, timeout, lag)
          && After(Start(R0), run, timeout, lag) == After(Late1(), rest, timeout, lag)
  {
    var w1 := World([R0, R1], map[], map[], []);
    var w2 := World([R0, R1], map[0 := map[]], map[0 := Missed(1, 1)], []);
    assert Act(Start(R0), Outside(Set(1, 7)), timeout) == w1;
    assert Act(w1, Begin(0, 1), timeout) == w2;
    assert Act(w2, Fetch(0, false), timeout) == Late1();
    hide Act, Possible, After, Late1;
    OneMore(w2, Fetch(0, false), rest, timeout, lag);
    OneMore(w1, Begin(0, 1), [Fetch(0, false)] + rest, timeout, lag);
    OneMore(Start(R0), Outside(Set(1, 7)), [Begin(0, 1)] + ([Fetch(0, false)] + rest), timeout, lag);
    assert [Outside(Set(1, 7))] + ([Begin(0, 1)] + ([Fetch(0, false)] + rest))
           == [Outside(Set(1, 7)), Begin(0, 1), Fetch(0, false)] + rest;
  }

  lemma LatePart2(rest: seq<Step>, timeout: nat, lag: nat)
    requires Possible(Late2(lag), rest, timeout, lag)
    ensures var run := [Outside(Del(1)), Outside(Tick(lag)), Finish(0)] + rest;
      Possible(Late1(), run, timeout, lag) && After(Late1(), run, timeout, lag) == After(Late2(lag), rest, timeout, lag)
  {
    var w1 := Late1().(history := [R0, R1, R0]);
    var w2 := Late1().(history := [R0, R1, R0, Redis(lag, map[])]);
    assert Act(Late1(), Outside(Del(1)), timeout) == w1;
    assert Act(w1, Outside(Tick(lag)), timeout) == w2;
    assert Act(w2, Finish(0), timeout) == Late2(lag);
    assert Ready(w2, Finish(0)) && Prompt(w2, Finish(0), lag);
    hide Act, Possible, After, Late1, Late2;
    OneMore(w2, Finish(0), rest, timeout, lag);
    OneMore(w1, Outside(Tick(lag)), [Finish(0)] + rest, timeout, lag);
    OneMore(Late1(), Outside(Del(1)), [Outside(Tick(lag))] + ([Finish(0)] + rest), timeout, lag);
    assert [Outside(Del(1))] + ([Outside(Tick(lag))] + ([Finish(0)] + rest))
           == [Outside(Del(1)), Outside(Tick(lag)), Finish(0)] + rest;
  }

  lemma LatePart3(timeout: nat, lag: nat)
    requires timeout > 0
    ensures var run := [Outside(Tick(timeout - 1)), Begin(0, 1)];
      Possible(Late2(lag), run, timeout, lag) && After(Late2(lag), run, timeout, lag) == Late3(timeout, lag)
  {
    var w1 := Late2(lag).(history := [R0, R1, R0, Redis(lag, map[]), Redis(lag + timeout - 1, map[])]);
    assert Act(Late2(lag), Outside(Tick(timeout - 1)), timeout) == w1;
    assert Act(w1, Begin(0, 1), timeout) == Late3(timeout, lag);
    assert Possible(Late3(timeout, lag), [], timeout, lag);
    assert After(Late3(timeout, lag), [], timeout, lag) == Late3(timeout, lag);
    hide Act, Possible, After, Late2, Late3;
    OneMore(w1, Begin(0, 1), [], timeout, lag);
    OneMore(Late2(lag), Outside(Tick(timeout - 1)), [Begin(0, 1)] + [], timeout, lag);
    assert [Outside(Tick(timeout - 1))] + ([Begin(0, 1)] + []) == [Outside(Tick(timeout - 1)), Begin(0, 1)];
  }

  /** A result can be as old as timeout + lag - 1: the entry counts from its creation, not from the
      moment Redis answered. */
  lemma LateRunIsStale(timeout: nat, lag: nat, window: int)
    requires timeout > 0 && window < timeout + lag
    ensures Possible(Start(R0), LateRun(timeout, lag), timeout, lag)
    ensures !RepliesFresh(After(Start(R0), LateRun(timeout, lag), timeout, lag), window)
  {
    LatePart3(timeout, lag);
    var r3 := [Outside(Tick(timeout - 1)), Begin(0, 1)];
    LatePart2(r3, timeout, lag);
    LatePart1([Outside(Del(1)), Outside(Tick(lag)), Finish(0)] + r3, timeout, lag);
    LateReply(timeout, lag, window);
  }

  lemma LateReply(timeout: nat, lag: nat, window: int)
    requires timeout > 0 && window < timeout + lag
    ensures !RepliesFresh(Late3(timeout, lag), window)
  {
    var w := Late3(timeout, lag);
    var r := w.replies[1];
    forall k: nat | WasHeld(w.history, k, r.id, r.session) && k <= r.since
      ensures w.history[r.since].clock - w.history[k].clock >= window
    {
      assert k == 1;
    }
    assert !Fresh(w.history, r, window);
  }

  lemma FreshWider(h: seq<Redis>, r: Reply, window: int, wider: int)
    requires Fresh(h, r, window) && window <= wider
    ensures Fresh(h, r, wider)
  {
    if !r.broken && r.cached {
      var k: nat :| WasHeld(h, k, r.id, r.session) && k <= r.since && h[r.since].clock - h[k].clock < window;
    }
  }

  /** The exact bound on staleness: every result of every run is fresh within a window if and only
      if the window is at least the timeout and the lag together. */
  lemma FreshExactly(timeout: nat, lag: nat, window: int)
    requires timeout > 0
    ensures AlwaysFresh(timeout, lag, window) <==> window >= timeout + lag
  {
    if window >= timeout + lag {
      forall r, run | Possible(Start(r), run, timeout, lag)
        ensures RepliesFresh(After(Start(r), run, timeout, lag), window)
      {
        ReadsAreFresh(r, run, timeout, lag);
        var w := After(Start(r), run, timeout, lag);
        forall i | 0 <= i < |w.replies| ensures Fresh(w.history, w.replies[i], window) {
          FreshWider(w.history, w.replies[i], timeout + lag, window);
        }
      }
    } else {
      LateRunIsStale(timeout, lag, window);
    }
  }

  // ---- how long a session lasts ----

  function HappenAll(r: Redis, events: seq<Event>): (r': Redis)
    ensures r'.clock >= r.clock
    decreases |events|
  {
    if events == [] then r else HappenAll(Happen(r, events[0]), events[1..])
  }

  /** The event writes, expires or deletes the key. */
  predicate Touches(e: Event, id: Id) {
    !e.Tick? && e.id == id
  }

  ghost predicate Untouched(events: seq<Event>, id: Id) {
    forall e :: e in events ==> !Touches(e, id)
  }

  /** The milliseconds that pass. */
  function Elapsed(events: seq<Event>): nat {
    if events == [] then 0 else (if events[0].Tick? then events[0].ms else 0) + Elapsed(events[1..])
  }

  /** A key that is left alone is there until its expiry and no longer. */
  lemma {:induction false} HeldUntilExpiry(r: Redis, events: seq<Event>, id: Id)
    requires id in r.items && Untouched(events, id)
    ensures var r' := HappenAll(r, events);
      && r'.clock == r.clock + Elapsed(events)
      && id in r'.items && r'.items[id] == r.items[id]
    decreases |events|
  {
    if events != [] {
      assert !Touches(events[0], id);
      HeldUntilExpiry(Happen(r, events[0]), events[1..], id);
    }
  }

  /** The two commands of a save under an expiry, as steps of the world. */
  function Save(w: World, id: Id, v: Session, expire: int, timeout: int): World
    requires w.history != []
  {
    Act(Act(w, Outside(Set(id, v)), timeout), Outside(ExpireIn(id, expire)), timeout)
  }

  ghost predicate LeavesAlone(run: seq<Step>, id: Id) {
    forall s :: s in run && s.Outside? ==> !Touches(s.e, id)
  }

  /** From state n on, Redis has the item. */
  ghost predicate Keeps(h: seq<Redis>, n: nat, id: Id, item: Item) {
    n < |h| && forall k :: n <= k < |h| ==> id in h[k].items && h[k].items[id] == item
  }

  lemma StepKeepsItem(w: World, s: Step, timeout: int, n: nat, id: Id, item: Item)
    requires Ready(w, s) && Keeps(w.history, n, id, item)
    requires s.Outside? ==> !Touches(s.e, id)
    ensures Keeps(Act(w, s, timeout).history, n, id, item)
  {
    hide Recall, MapOf;
  }

  lemma {:induction false} RunKeepsItem(w: World, run: seq<Step>, timeout: int, lag: nat, n: nat, id: Id, item: Item)
    requires Possible(w, run, timeout, lag) && Keeps(w.history, n, id, item) && LeavesAlone(run, id)
    ensures Keeps(After(w, run, timeout, lag).history, n, id, item)
    decreases |run|
  {
    if run != [] {
      hide Act, Prompt, Keeps, Ready, Touches;
      assert run[0] in run;
      StepKeepsItem(w, run[0], timeout, n, id, item);
      RunKeepsItem(Act(w, run[0], timeout), run[1..], timeout, lag, n, id, item);
    }
  }

  /** A save under an expiry, and any run in which nobody else writes the key: Redis has the
      session until the expiry and not after, an answer fetched meanwhile is the session, and no
      call that begins an expiry, a timeout and a lag after the save returns anything. */
  lemma SessionEnds(w: World, id: Id, v: Session, expire: int, run: seq<Step>, timeout: nat, lag: nat)
    requires Sound(w, timeout, lag) && expire > 0
    requires Possible(Save(w, id, v, expire, timeout), run, timeout, lag) && LeavesAlone(run, id)
    ensures var w1 := Save(w, id, v, expire, timeout);
      var w2 := After(w1, run, timeout, lag);
      var n, h, end := |w1.history| - 1, w2.history, Current(w).clock + expire * 1000;
      && n < |h|
      && (forall k :: n <= k < |h| ==> Held(h[k], id) == if h[k].clock < end then Some(v) else None)
      && forall r :: r in w2.replies && r.id == id ==>
           && r.since <= r.until < |h|
           && (n <= r.since && !r.cached && !r.broken && h[r.until].clock < end ==> r.session == Some(v))
           && (h[r.since].clock >= end + timeout + lag ==> r.session == None)
  {
    var w1 := Save(w, id, v, expire, timeout);
    var w2 := After(w1, run, timeout, lag);
    var n, h, item := |w1.history| - 1, w2.history, Item(v, Some(Current(w).clock + expire * 1000));
    assert Keeps(w1.history, n, id, item);
    OutsideKeeps(w, Set(id, v), timeout, lag);
    OutsideKeeps(Act(w, Outside(Set(id, v)), timeout), ExpireIn(id, expire), timeout, lag);
    RunIsSound(w1, run, timeout, lag);
    RunKeepsItem(w1, run, timeout, lag, n, id, item);
    HistoryGrows(w1, run, timeout, lag);
    assert h[n].clock == Current(w).clock;
    hide Save, Act, After, Possible;
    forall r | r in w2.replies && r.id == id
      ensures r.since <= r.until < |h|
      ensures n <= r.since && !r.cached && !r.broken && h[r.until].clock < item.expires.value ==> r.session == Some(v)
      ensures h[r.since].clock >= item.expires.value + timeout + lag ==> r.session == None
    {
      var i :| 0 <= i < |w2.replies| && w2.replies[i] == r;
      EndOfReply(h, r, n, item, timeout + lag);
    }
  }

  lemma {:induction false} HistoryGrows(w: World, run: seq<Step>, timeout: int, lag: nat)
    requires w.history != [] && Possible(w, run, timeout, lag)
    ensures var h := After(w, run, timeout, lag).history; |w.history| <= |h| && h[..|w.history|] == w.history
    decreases |run|
  {
    if run != [] {
      var w' := Act(w, run[0], timeout);
      assert |w.history| <= |w'.history| && w'.history[..|w.history|] == w.history;
      hide Act, Prompt, Ready;
      HistoryGrows(w', run[1..], timeout, lag);
      var h := After(w', run[1..], timeout, lag).history;
      assert h[..|w.history|] == h[..|w'.history|][..|w.history|];
    }
  }

  /** What a fresh reply about the item can be. */
  lemma EndOfReply(h: seq<Redis>, r: Reply, n: nat, item: Item, window: nat)
    requires Fresh(h, r, window) && Ordered(h) && Keeps(h, n, r.id, item)
    requires item.expires.Some? && h[n].clock < item.expires.value
    ensures n <= r.since && !r.cached && !r.broken && h[r.until].clock < item.expires.value ==>
              r.session == Some(item.session)
    ensures h[r.since].clock >= item.expires.value + window ==> r.session == None
  {
    if !r.broken {
      var k: nat :| WasHeld(h, k, r.id, r.session) && k <= r.until
          && if r.cached then k <= r.since && h[r.since].clock - h[k].clock < window else r.since <= k;
    }
  }

  // ---- the DAO ----

  /** The Redis server, shared with every other client. */
  class RedisManager {
    var state: Redis
    const expire: int  // seconds

    constructor (state: Redis, expire: int)
      ensures this.state == state && this.expire == expire
    {
      this.state, this.expire := state, expire;
    }

    method Get(id: Id) returns (r: Option<Session>)
      ensures r == Held(state, id)
    {
      r := Held(state, id);
    }

    /** set with an expiry: two commands. */
    method SetWithExpiry(id: Id, session: Session, expire: int)
      modifies this
      ensures state.clock == old(state.clock)
      ensures Held(state, id) == if expire < 0 then None else Some(session)
      ensures expire > 0 ==> state.items[id].expires == Some(state.clock + expire * 1000)
      ensures expire == 0 ==> id in state.items && state.items[id].expires == None
      ensures expire < 0 ==> id !in state.items
      ensures forall other :: other != id ==> Held(state, other) == old(Held(state, other))
    {
      state := Happen(state, Set(id, session));
      if expire != 0 {
        state := Happen(state, ExpireIn(id, expire));
      }
    }

    method Delete(id: Id)
      modifies this
      ensures state.clock == old(state.clock) && Held(state, id) == None
      ensures forall other :: other != id ==> Held(state, other) == old(Held(state, other))
    {
      state := Happen(state, Del(id));
    }

    /** Whatever others do meanwhile. */
    method Meanwhile(events: seq<Event>)
      modifies this
      ensures state == HappenAll(old(state), events)
    {
      for i := 0 to |events|
        invariant HappenAll(old(state), events) == HappenAll(state, events[i..])
      {
        assert events[i..][1..] == events[i + 1..];
        state := Happen(state, events[i]);
      }
    }
  }

  /** A world after some outside events. */
  function Elapse(w: World, events: seq<Event>): (w': World)
    requires w.history != []
    ensures |w'.history| >= |w.history| && w'.history[..|w.history|] == w.history
    ensures w'.maps == w.maps && w'.calls == w.calls && w'.replies == w.replies
    decreases |events|
  {
    if events == [] then w
    else Elapse(w.(history := w.history + [Happen(Current(w), events[0])]), events[1..])
  }

  lemma {:induction false} ElapsedRedis(w: World, events: seq<Event>)
    requires w.history != []
    ensures Current(Elapse(w, events)) == HappenAll(Current(w), events)
    decreases |events|
  {
    if events != [] {
      ElapsedRedis(w.(history := w.history + [Happen(Current(w), events[0])]), events[1..]);
    }
  }

  /** A whole read of an idle thread as steps: a look at the cache and, if that finds nothing, an
      answer from Redis and a new entry, with outside events before and after the answer. */
  function ReadSteps(w: World, t: Thread, id: Id, first: seq<Event>, second: seq<Event>, corrupt: bool,
      timeout: int): World
    requires w.history != [] && CallOf(w, t).Idle?
  {
    var w1 := Act(w, Begin(t, id), timeout);
    if CallOf(w1, t).Idle? then w1
    else
      var w2 := Act(Elapse(w1, first), Fetch(t, corrupt), timeout);
      if CallOf(w2, t).Idle? then w2 else Act(Elapse(w2, second), Finish(t), timeout)
  }

  /** What the steps of a read add up to, in the terms of the method below. */
  lemma ReadStepsResult(w: World, t: Thread, id: Id, first: seq<Event>, second: seq<Event>, corrupt: bool, timeout: int)
    requires w.history != [] && CallOf(w, t).Idle?
    ensures var w' := ReadSteps(w, t, id, first, second, corrupt, timeout);
      var (found, m) := Recall(MapOf(w, t), id, Current(w).clock, timeout);
      var answering := HappenAll(Current(w), first);
      var got := Held(answering, id);
      && CallOf(w', t).Idle? && |w'.replies| == |w.replies| + 1 && w'.history != []
      && var s := w'.replies[|w.replies|].session;
         if found.Some? then s == found && MapOf(w', t) == m && Current(w') == Current(w)
         else if got.Some? && corrupt then s.None? && MapOf(w', t) == m && Current(w') == answering
         else
           && s == got && Current(w') == HappenAll(answering, second)
           && MapOf(w', t) == m[id := SessionInMemory(got, Current(w').clock)]
  {
    hide HappenAll, Elapse, Held, Recall, Act;
    var w1 := Act(w, Begin(t, id), timeout);
    BeginResult(w, t, id, timeout);
    if !CallOf(w1, t).Idle? {
      ElapsedRedis(w1, first);
      FetchResult(Elapse(w1, first), t, corrupt, timeout);
      var w2 := Act(Elapse(w1, first), Fetch(t, corrupt), timeout);
      if !CallOf(w2, t).Idle? {
        ElapsedRedis(w2, second);
        FinishResult(Elapse(w2, second), t, timeout);
      }
    }
  }

  lemma BeginResult(w: World, t: Thread, id: Id, timeout: int)
    requires Ready(w, Begin(t, id))
    ensures var w' := Act(w, Begin(t, id), timeout);
      var (found, m) := Recall(MapOf(w, t), id, Current(w).clock, timeout);
      && w'.history == w.history && MapOf(w', t) == m
      && if found.Some? then
           CallOf(w', t).Idle? && |w'.replies| == |w.replies| + 1 && w'.replies[|w.replies|].session == found
         else CallOf(w', t) == Missed(id, |w.history| - 1) && w'.replies == w.replies
  {
    hide Recall;
  }

  lemma FetchResult(w: World, t: Thread, corrupt: bool, timeout: int)
    requires Ready(w, Fetch(t, corrupt))
    ensures var w' := Act(w, Fetch(t, corrupt), timeout);
      var got := Held(Current(w), CallOf(w, t).id);
      && w'.history == w.history && MapOf(w', t) == MapOf(w, t)
      && if got.Some? && corrupt then
           CallOf(w', t).Idle? && |w'.replies| == |w.replies| + 1 && w'.replies[|w.replies|].session.None?
         else
           CallOf(w', t) == Fetched(CallOf(w, t).id, got, |w.history| - 1, CallOf(w, t).since)
               && w'.replies == w.replies
  {
    hide Held;
  }

  lemma FinishResult(w: World, t: Thread, timeout: int)
    requires Ready(w, Finish(t))
    ensures var w' := Act(w, Finish(t), timeout); var c := CallOf(w, t);
      && w'.history == w.history && CallOf(w', t).Idle?
      && MapOf(w', t) == MapOf(w, t)[c.id := SessionInMemory(c.session, Current(w).clock)]
      && |w'.replies| == |w.replies| + 1 && w'.replies[|w.replies|].session == c.session
  {
  }

  lemma Lasts(r: Redis, id: Id, v: Session, expire: int)
    requires Held(r, id) == if expire < 0 then None else Some(v)
    requires expire < 0 ==> id !in r.items
    requires expire >= 0 ==>
      r.items[id].expires == if expire == 0 then None else Some(r.clock + expire * 1000)
    ensures forall events :: Untouched(events, id) ==>
      Held(HappenAll(r, events), id) ==
        if expire == 0 || Elapsed(events) < expire * 1000 then Some(v) else None
  {
    hide Elapsed, HappenAll;
    forall events | Untouched(events, id)
      ensures Held(HappenAll(r, events), id) ==
        if expire == 0 || Elapsed(events) < expire * 1000 then Some(v) else None
    {
      if expire < 0 {
        StaysAway(r, events, id);
      } else {
        HeldUntilExpiry(r, events, id);
      }
    }
  }

  lemma {:induction false} StaysAway(r: Redis, events: seq<Event>, id: Id)
    requires id !in r.items && Untouched(events, id)
    ensures id !in HappenAll(r, events).items
    decreases |events|
  {
    if events != [] {
      assert !Touches(events[0], id);
      StaysAway(Happen(r, events[0]), events[1..], id);
    }
  }

  class RedisSessionDao {
    const redisManager: RedisManager
    const sessionInMemoryTimeout: int
    var sessionsInThread: map<Thread, SessionMap>

    constructor (redisManager: RedisManager, timeout: int)
      ensures this.redisManager == redisManager && sessionInMemoryTimeout == timeout && sessionsInThread == map[]
    {
      this.redisManager, sessionInMemoryTimeout, sessionsInThread := redisManager, timeout, map[];
    }

    function Sessions(t: Thread): SessionMap
      reads this
    {
      if t in sessionsInThread then sessionsInThread[t] else map[]
    }

    /** The caller's thread and the current time are parameters. */
    method GetSessionFromThreadLocal(t: Thread, sessionId: Id, now: int) returns (s: Option<Session>)
      modifies this
      ensures (s, Sessions(t)) == Recall(old(Sessions(t)), sessionId, now, sessionInMemoryTimeout)
      ensures s.Some? <==>
        && sessionId in old(Sessions(t)) && old(Sessions(t))[sessionId].session.Some?
        && now - old(Sessions(t))[sessionId].createTime < sessionInMemoryTimeout
      ensures s.Some? ==> s == old(Sessions(t))[sessionId].session && Sessions(t) == old(Sessions(t))
      ensures sessionId in Sessions(t) ==> now - Sessions(t)[sessionId].createTime < sessionInMemoryTimeout
      ensures forall id :: id != sessionId ==>
        && (id in Sessions(t) <==> id in old(Sessions(t)))
        && (id in Sessions(t) ==> Sessions(t)[id] == old(Sessions(t))[id])
      ensures forall other :: other != t ==> Sessions(other) == old(Sessions(other))
    {
      s := None;
      if t !in sessionsInThread {
        return;
      }
      var sessionMap := sessionsInThread[t];
      if sessionId !in sessionMap {
        return;
      }
      var duration := now - sessionMap[sessionId].createTime;
      if duration < sessionInMemoryTimeout {
        s := sessionMap[sessionId].session;
      } else {
        sessionsInThread := sessionsInThread[t := sessionMap - {sessionId}];
      }
    }

    method SetSessionToThreadLocal(t: Thread, sessionId: Id, s: Option<Session>, now: int)
      modifies this
      ensures Sessions(t) == old(Sessions(t))[sessionId := SessionInMemory(s, now)]
      ensures forall other :: other != t ==> Sessions(other) == old(Sessions(other))
    {
      if t !in sessionsInThread {
        sessionsInThread := sessionsInThread[t := map[]];
      }
      var sessionMap: SessionMap := sessionsInThread[t];
      sessionMap := sessionMap[sessionId := SessionInMemory(s, now)];
      sessionsInThread := sessionsInThread[t := sessionMap];
    }

    /** doReadSession; `first` and `second` are what happens to Redis before its answer and between
        the answer and the creation of the entry, `corrupt` says that bytes cannot be read back. */
    method DoReadSession(t: Thread, sessionId: Option<Id>, first: seq<Event>, second: seq<Event>, corrupt: bool)
      returns (s: Option<Session>)
      modifies this, redisManager
      ensures sessionId.None? ==>
        s.None? && redisManager.state == old(redisManager.state) && Sessions(t) == old(Sessions(t))
      ensures sessionId.Some? ==>
        var id := sessionId.value;
        var (found, m) := Recall(old(Sessions(t)), id, old(redisManager.state.clock), sessionInMemoryTimeout);
        var answering := HappenAll(old(redisManager.state), first);
        var got := Held(answering, id);
        if found.Some? then s == found && Sessions(t) == m && redisManager.state == old(redisManager.state)
        else if got.Some? && corrupt then s.None? && Sessions(t) == m && redisManager.state == answering
        else
          && s == got && redisManager.state == HappenAll(answering, second)
          && Sessions(t) == m[id := SessionInMemory(got, redisManager.state.clock)]
      ensures forall other :: other != t ==> Sessions(other) == old(Sessions(other))
    {
      if sessionId.None? {
        return None;
      }
      var id := sessionId.value;
      s := GetSessionFromThreadLocal(t, id, redisManager.state.clock);
      if s.Some? {
        return;
      }
      redisManager.Meanwhile(first);
      var got := redisManager.Get(id);
      if got.Some? && corrupt {
        return None;
      }
      s := got;
      redisManager.Meanwhile(second);
      SetSessionToThreadLocal(t, id, s, redisManager.state.clock);
    }

    /** saveSession: false is the UnknownSessionException, thrown for a missing session or id and
        for a session that cannot be serialized. */
    method SaveSession(session: Option<(Id, Session)>, serializable: bool) returns (ok: bool)
      modifies redisManager
      ensures ok <==> session.Some? && serializable
      ensures !ok ==> redisManager.state == old(redisManager.state)
      ensures ok ==>
        var (id, value) := session.value;
        && redisManager.state.clock == old(redisManager.state.clock)
        && Held(redisManager.state, id) == (if redisManager.expire < 0 then None else Some(value))
        && forall other :: other != id ==> Held(redisManager.state, other) == old(Held(redisManager.state, other))
      ensures ok ==>
        var (id, value) := session.value;
        forall ms: nat :: Held(Happen(redisManager.state, Tick(ms)), id) ==
          if redisManager.expire == 0 || ms < redisManager.expire * 1000 then Some(value) else None
      ensures ok ==>
        var (id, value) := session.value;
        forall events :: Untouched(events, id) ==>
          Held(HappenAll(redisManager.state, events), id) ==
            if redisManager.expire == 0 || Elapsed(events) < redisManager.expire * 1000 then Some(value) else None
    {
      if session.None? {
        return false;
      }
      if !serializable {
        return false;
      }
      redisManager.SetWithExpiry(session.value.0, session.value.1, redisManager.expire);
      ok := true;
      Lasts(redisManager.state, session.value.0, session.value.1, redisManager.expire);
    }

    /** delete: nothing happens without a session or id. */
    method Delete(session: Option<(Id, Session)>)
      modifies redisManager
      ensures session.None? ==> redisManager.state == old(redisManager.state)
      ensures session.Some? ==>
        && Held(redisManager.state, session.value.0) == None
        && forall other :: other != session.value.0 ==>
             Held(redisManager.state, other) == old(Held(redisManager.state, other))
    {
      if session.Some? {
        redisManager.Delete(session.value.0);
      }
    }
  }
}
