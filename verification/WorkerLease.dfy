/** `ZkIdGenerator`: worker ids leased as ephemeral ZooKeeper nodes, one registration at a time
    under a mutex, with sessions that can expire at any moment. */
module WorkerLease {
  import opened Options

  /** `MAX_SIZE` */
  const ORDER_SIZE := 1024

  /** `WORKER_ID_MAX_VALUE`; the ids below it are given out. */
  const WORKERS: nat := 31

  // ---- the stored order ----

  /** A LinkedHashSet collected from a stream: every element once, where it came first. */
  function Distinct(s: seq<int>): (r: seq<int>)
    ensures forall x :: x in r <==> x in s
    ensures forall i, j :: 0 <= i < j < |r| ==> r[i] != r[j]
  {
    if s == [] then []
    else
      var d, last := Distinct(s[..|s| - 1]), s[|s| - 1];
      assert s == s[..|s| - 1] + [last];
      if last in d then d else d + [last]
  }

  predicate InRange(ids: seq<int>) {
    forall i :: 0 <= i < |ids| ==> 0 <= ids[i] < WORKERS
  }

  /** The stored order passes the check. `parsed` is what the stored string parses to, None when
      some part of it is no number. */
  predicate Usable(parsed: Option<seq<int>>) {
    parsed.Some? && |Distinct(parsed.value)| == ORDER_SIZE && InRange(Distinct(parsed.value))
  }

  function UpTo(n: nat): (r: seq<int>)
    ensures |r| == n && forall i :: 0 <= i < n ==> r[i] == i
  {
    seq(n, i => i)
  }

  /** The order a registration goes by. */
  function OrderOf(parsed: Option<seq<int>>): seq<int> {
    if Usable(parsed) then Distinct(parsed.value) else UpTo(WORKERS)
  }

  /** Distinct ids below a bound are no more than the bound. */
  lemma {:induction false} PigeonHole(ids: seq<int>, n: nat)
    requires forall i :: 0 <= i < |ids| ==> 0 <= ids[i] < n
    requires forall i, j :: 0 <= i < j < |ids| ==> ids[i] != ids[j]
    ensures |ids| <= n
    decreases n
  {
    if ids != [] {
      assert 0 <= ids[0] < n;
      if k: nat :| k < |ids| && ids[k] == n - 1 {
        PigeonHole(ids[..k] + ids[k + 1..], n - 1);
      } else {
        PigeonHole(ids, n - 1);
      }
    }
  }

  /** The check asks for 1024 distinct ids below 31, so whatever is stored, the order is 0..30. */
  lemma OrderIsFixed(parsed: Option<seq<int>>)
    ensures OrderOf(parsed) == UpTo(WORKERS)
  {
    if Usable(parsed) {
      PigeonHole(Distinct(parsed.value), WORKERS);
    }
  }

  /** checkAndInitOrder */
  method CheckAndInitOrder(parsed: Option<seq<int>>) returns (result: seq<int>)
    ensures result == OrderOf(parsed)
  {
    if parsed.Some? {
      var s := parsed.value;
      result := [];
      for i := 0 to |s|
        invariant result == Distinct(s[..i])
      {
        assert s[..i + 1][..i] == s[..i];
        if s[i] !in result {
          result := result + [s[i]];
        }
      }
      assert s[..|s|] == s;
      if |result| == ORDER_SIZE {
        var k := 0;
        while k < |result| && 0 <= result[k] < WORKERS
          invariant k <= |result| && InRange(result[..k])
        {
          k := k + 1;
        }
        if k == |result| {
          assert result[..k] == result;
          return;
        }
      }
    }
    result := [];
    for i := 0 to WORKERS
      invariant |result| == i && forall j :: 0 <= j < i ==> result[j] == j
    {
      result := result + [i];
    }
  }

  // ---- choosing a node ----

  /** The first id of the order that has no node. */
  function FirstFree(order: seq<int>, children: set<int>): (r: Option<int>)
    ensures r.Some? ==> r.value in order && r.value !in children
    ensures r.None? ==> forall x :: x in order ==> x in children
  {
    if order == [] then None
    else if order[0] !in children then Some(order[0])
    else FirstFree(order[1..], children)
  }

  /** With the order 0..n-1 it is the least free id. */
  lemma {:induction false} FirstFreeFrom(order: seq<int>, from: int, children: set<int>)
    requires forall i :: 0 <= i < |order| ==> order[i] == from + i
    ensures var r := FirstFree(order, children);
      r.Some? ==> from <= r.value < from + |order| && forall x :: from <= x < r.value ==> x in children
  {
    if order != [] && order[0] in children {
      FirstFreeFrom(order[1..], from + 1, children);
    }
  }

  /** The id taken is the least of 0..30 that is not among the children, and a registration finds
      none exactly when all 31 are. */
  lemma TakesLeastFree(parsed: Option<seq<int>>, children: set<int>)
    ensures var r := FirstFree(OrderOf(parsed), children);
      && (r.None? <==> forall x :: 0 <= x < WORKERS ==> x in children)
      && (r.Some? ==> 0 <= r.value < WORKERS && r.value !in children
                      && forall x :: 0 <= x < r.value ==> x in children)
  {
    OrderIsFixed(parsed);
    hide Usable;
    FirstFreeFrom(UpTo(WORKERS), 0, children);
    forall x | 0 <= x < WORKERS ensures x in UpTo(WORKERS) {
      assert UpTo(WORKERS)[x] == x;
    }
  }

  /** `orderIdSet.remove(each); orderIdSet.add(each)` */
  function MoveToEnd(order: seq<int>, x: int): seq<int> {
    Without(order, x) + [x]
  }

  function Without(order: seq<int>, x: int): (r: seq<int>)
    ensures forall y :: y in r <==> y in order && y != x
  {
    if order == [] then [] else (if order[0] == x then [] else [order[0]]) + Without(order[1..], x)
  }

  /** The ids 0..30 in ascending order, but one of them at the end. */
  predicate LastOf(order: seq<int>, id: int) {
    && |order| == WORKERS
    && forall k :: 0 <= k < WORKERS ==> order[k] == if k == WORKERS - 1 then id else if k < id then k else k + 1
  }

  lemma {:induction false} WithoutIs(order: seq<int>, k: nat)
    requires k < |order| && forall i, j :: 0 <= i < j < |order| ==> order[i] != order[j]
    ensures Without(order, order[k]) == order[..k] + order[k + 1..]
  {
    var rest := order[1..];
    if k == 0 {
      WithoutAbsent(rest, order[0]);
    } else {
      assert rest[k - 1] == order[k];
      WithoutIs(rest, k - 1);
      assert [order[0]] + (rest[..k - 1] + rest[k..]) == order[..k] + order[k + 1..];
    }
  }

  lemma {:induction false} WithoutAbsent(order: seq<int>, x: int)
    requires x !in order
    ensures Without(order, x) == order
  {
    if order != [] {
      WithoutAbsent(order[1..], x);
    }
  }

  /** What a commit stores. */
  lemma MovedLast(id: nat)
    requires id < WORKERS
    ensures LastOf(MoveToEnd(UpTo(WORKERS), id), id)
  {
    assert UpTo(WORKERS)[id] == id;
    WithoutIs(UpTo(WORKERS), id);
    hide Without;
  }

  // ---- registration as a protocol ----

  /** A ZooKeeper session; a client that reconnects after an expiry gets a new one. */
  type Session = nat

  /** How far a session's doRegister has come. */
  datatype Phase =
    | Idle
    | Locked
    | Listed(order: seq<int>, children: set<int>)
    | Committed(id: int)
    | Refused  // an exception; the mutex is still to be released

  datatype World = World(
    phase: map<Session, Phase>,   // every session that ever was
    live: set<Session>,
    mutex: Option<Session>,
    nodes: map<int, Session>,     // the ephemeral worker nodes and who created them
    stored: Option<seq<int>>,     // what the order node's data parses to
    worker: map<Session, int>)    // the last setWorkerId of each session

  datatype Action =
    | Connect(s: Session)
    | Acquire(s: Session)
    | List(s: Session)
    | Commit(s: Session)
    | SetWorker(s: Session)
    | Release(s: Session)
    | Expire(s: Session)

  function Start(stored: Option<seq<int>>): World {
    World(map[], {}, None, map[], stored, map[])
  }

  /** When a step can happen. Requests of an expired session fail, and the mutex admits one live
      session at a time: both are ZooKeeper's part. */
  predicate Enabled(w: World, a: Action) {
    match a
    case Connect(s) => s !in w.phase
    case Acquire(s) => s in w.live && s in w.phase && w.phase[s] == Idle && w.mutex.None?
    case List(s) => s in w.live && s in w.phase && w.phase[s] == Locked
    case Commit(s) => s in w.live && s in w.phase && w.phase[s].Listed?
    case SetWorker(s) => s in w.phase && w.phase[s].Committed?
    case Release(s) => s in w.live && s in w.phase && (w.phase[s].Committed? || w.phase[s].Refused?)
    case Expire(s) => s in w.live
  }

  function Act(w: World, a: Action): World
    requires Enabled(w, a)
  {
    match a
    case Connect(s) => w.(phase := w.phase[s := Idle], live := w.live + {s})
    case Acquire(s) => w.(phase := w.phase[s := Locked], mutex := Some(s))
    case List(s) => w.(phase := w.phase[s := Listed(OrderOf(w.stored), w.nodes.Keys)])
    case Commit(s) => CommitNode(w, s, w.phase[s])
    case SetWorker(s) => w.(worker := w.worker[s := w.phase[s].id])
    case Release(s) => w.(phase := w.phase[s := Idle], mutex := None)
    case Expire(s) =>
      w.(live := w.live - {s},
         mutex := if w.mutex == Some(s) then None else w.mutex,
         nodes := map id | id in w.nodes && w.nodes[id] != s :: w.nodes[id])
  }

  /** The transaction of doRegister: it fails when every id is taken, and when the node exists. */
  function CommitNode(w: World, s: Session, p: Phase): World
    requires p.Listed?
  {
    var each := FirstFree(p.order, p.children);
    if each.None? || each.value in w.nodes then w.(phase := w.phase[s := Refused])
    else w.(phase := w.phase[s := Committed(each.value)],
            nodes := w.nodes[each.value := s],
            stored := Some(MoveToEnd(p.order, each.value)))
  }

  ghost predicate Possible(w: World, run: seq<Action>)
    decreases |run|
  {
    run != [] ==> Enabled(w, run[0]) && Possible(Act(w, run[0]), run[1..])
  }

  ghost function After(w: World, run: seq<Action>): World
    requires Possible(w, run)
    decreases |run|
  {
    if run == [] then w else After(Act(w, run[0]), run[1..])
  }

  // ---- what every interleaving keeps ----

  /** A live session between lock and release holds the mutex. */
  predicate MutexHeld(w: World) {
    forall s :: s in w.live ==> s in w.phase && (w.phase[s] != Idle ==> w.mutex == Some(s))
  }

  /** Nodes belong to live sessions. */
  predicate NodesLive(w: World) {
    forall id :: id in w.nodes ==> w.nodes[id] in w.live && 0 <= id < WORKERS
  }

  /** While the mutex is held, nodes can only vanish: the list read still covers them. */
  predicate ListCovers(w: World) {
    forall s :: s in w.live && s in w.phase && w.phase[s].Listed? ==>
      w.nodes.Keys <= w.phase[s].children && w.phase[s].order == UpTo(WORKERS)
  }

  /** A live session owns the node it committed, and the node of its worker id. */
  predicate OwnsNode(w: World) {
    && (forall s :: s in w.live && s in w.phase && w.phase[s].Committed? ==>
         w.phase[s].id in w.nodes && w.nodes[w.phase[s].id] == s)
    && (forall s :: s in w.live && s in w.worker ==> w.worker[s] in w.nodes && w.nodes[w.worker[s]] == s)
    && (forall s :: s in w.worker ==> s in w.phase)
  }

  predicate Safe(w: World) {
    MutexHeld(w) && NodesLive(w) && ListCovers(w) && OwnsNode(w)
  }

  lemma StepKeepsMutex(w: World, a: Action)
    requires Safe(w) && Enabled(w, a)
    ensures MutexHeld(Act(w, a))
  {
  }

  lemma StepKeepsNodes(w: World, a: Action)
    requires Safe(w) && Enabled(w, a)
    ensures NodesLive(Act(w, a))
  {
    hide Usable, FirstFree;
    if a.Commit? {
      var p := w.phase[a.s];
      TakesLeastFree(None, p.children);
      OrderIsFixed(None);
    }
  }

  lemma StepKeepsList(w: World, a: Action)
    requires Safe(w) && Enabled(w, a)
    ensures ListCovers(Act(w, a))
  {
    hide OrderOf, FirstFree;
    OrderIsFixed(w.stored);
  }

  lemma StepKeepsOwner(w: World, a: Action)
    requires Safe(w) && Enabled(w, a)
    ensures OwnsNode(Act(w, a))
  {
    hide OrderOf, FirstFree, MoveToEnd;
  }

  lemma StepIsSafe(w: World, a: Action)
    requires Safe(w) && Enabled(w, a)
    ensures Safe(Act(w, a))
  {
    hide Enabled, Act;
    StepKeepsMutex(w, a);
    StepKeepsNodes(w, a);
    StepKeepsList(w, a);
    StepKeepsOwner(w, a);
  }

  lemma {:induction false} RunIsSafe(w: World, run: seq<Action>)
    requires Safe(w) && Possible(w, run)
    ensures Safe(After(w, run))
    decreases |run|
  {
    if run != [] {
      hide Safe, Act;
      StepIsSafe(w, run[0]);
      RunIsSafe(Act(w, run[0]), run[1..]);
    }
  }

  /** A live session with a worker id owns the node of that name. */
  lemma HolderOwns(w: World, s: Session)
    requires Safe(w) && s in w.live && s in w.worker
    ensures w.worker[s] in w.nodes && w.nodes[w.worker[s]] == s && 0 <= w.worker[s] < WORKERS
  {
  }

  lemma OldNodes(w: World)
    requires Safe(w)
    ensures forall id :: id in w.nodes ==> w.nodes[id] in w.phase
  {
  }

  /** A step adds no node but the one a commit takes, and no session but the one that connects. */
  lemma StepNodes(w: World, a: Action)
    requires Safe(w) && Enabled(w, a) && !a.Connect?
    ensures var w' := Act(w, a);
      && w'.phase.Keys == w.phase.Keys
      && forall id :: id in w'.nodes && !(id in w.nodes && w'.nodes[id] == w.nodes[id]) ==>
           a.Commit? && FirstFree(w.phase[a.s].order, w.phase[a.s].children) == Some(id)
  {
    hide FirstFree, OrderOf, MoveToEnd;
  }

  /** In every interleaving of registrations and expiries, whatever order was stored at the start,
      live sessions have different worker ids, all in 0..30, and own the nodes of that name. */
  lemma NoSharedWorker(stored: Option<seq<int>>, run: seq<Action>)
    requires Possible(Start(stored), run)
    ensures var w := After(Start(stored), run);
      && (forall s :: s in w.live && s in w.worker ==>
           0 <= w.worker[s] < WORKERS && w.worker[s] in w.nodes && w.nodes[w.worker[s]] == s)
      && (forall s, s' :: s in w.live && s' in w.live && s in w.worker && s' in w.worker && s != s' ==>
           w.worker[s] != w.worker[s'])
  {
    RunIsSafe(Start(stored), run);
  }

  /** Whatever expired since the children were listed, a commit takes the least id of 0..30 that
      was not among them, on a node that is still free; it is refused exactly when all 31 were. */
  lemma CommitOutcome(stored: Option<seq<int>>, run: seq<Action>, s: Session)
    requires Possible(Start(stored), run) && Enabled(After(Start(stored), run), Commit(s))
    ensures var w := After(Start(stored), run);
      var children, next := w.phase[s].children, Act(w, Commit(s));
      && (next.phase[s].Refused? <==> forall x :: 0 <= x < WORKERS ==> x in children)
      && (next.phase[s].Refused? ==> next.nodes == w.nodes && next.stored == w.stored)
      && (!next.phase[s].Refused? ==>
            next.phase[s].Committed? &&
            var id := next.phase[s].id;
            && 0 <= id < WORKERS && id !in children && (forall x :: 0 <= x < id ==> x in children)
            && id !in w.nodes && next.nodes == w.nodes[id := s]
            && next.stored.Some? && LastOf(next.stored.value, id))
  {
    RunIsSafe(Start(stored), run);
    var w := After(Start(stored), run);
    hide FirstFree, OrderOf, MoveToEnd, Possible, After, Start;
    TakesLeastFree(None, w.phase[s].children);
    OrderIsFixed(None);
    if Act(w, Commit(s)).phase[s].Committed? {
      MovedLast(Act(w, Commit(s)).phase[s].id);
    }
  }

  // ---- the client ----

  /** The ensemble as one client sees it while no other step comes in between. */
  class Ensemble {
    var world: World

    constructor (world: World)
      ensures this.world == world
    {
      this.world := world;
    }

    /** The loop of doRegister: the first id without a node is moved to the end of the order. */
    method Choose(order: seq<int>, children: set<int>) returns (each: Option<int>, reordered: seq<int>)
      ensures each == FirstFree(order, children)
      ensures reordered == if each.Some? then MoveToEnd(order, each.value) else order
    {
      assert order[0..] == order;
      for i := 0 to |order|
        invariant FirstFree(order, children) == FirstFree(order[i..], children)
      {
        if order[i] !in children {
          each := Some(order[i]);
          reordered := MoveToEnd(order, order[i]);
          return;
        }
        assert order[i..][1..] == order[i + 1..];
      }
      return None, order;
    }

    /** doRegister from lock to release. It gives back the worker id set, None for the exception. */
    method DoRegister(s: Session) returns (id: Option<int>)
      requires Safe(world) && Enabled(world, Acquire(s))
      modifies this
      ensures Safe(world)
      ensures id.None? <==> forall x :: 0 <= x < WORKERS ==> x in old(world.nodes)
      ensures id.None? ==> world == old(world)
      ensures id.Some? ==> Registered(old(world), s, id.value, world)
    {
      ghost var w0 := world;
      RegistrationResult(w0, s);
      RegistrationForm(w0, s);
      hide Safe, Registered, OrderOf, FirstFree, MoveToEnd, Registration, Enabled;
      world := world.(mutex := Some(s), phase := world.phase[s := Locked]);
      var order := CheckAndInitOrder(world.stored);
      var children := world.nodes.Keys;
      world := world.(phase := world.phase[s := Listed(order, children)]);
      var reordered;
      id, reordered := Choose(order, children);
      if id.Some? {
        world := world.(phase := world.phase[s := Committed(id.value)],
                        nodes := world.nodes[id.value := s],
                        stored := Some(reordered));
        world := world.(worker := world.worker[s := id.value]);
      } else {
        world := world.(phase := world.phase[s := Refused]);
      }
      world := world.(phase := world.phase[s := Idle], mutex := None);
      assert world == Registration(w0, s);
    }
  }

  /** The steps of one registration with nothing in between, and what they give. */
  function Registration(w: World, s: Session): World
    requires Enabled(w, Acquire(s))
  {
    var w2 := Act(Act(w, Acquire(s)), List(s));
    var w3 := Act(w2, Commit(s));
    if w3.phase[s].Committed? then Act(Act(w3, SetWorker(s)), Release(s)) else Act(w3, Release(s))
  }

  /** The fields of the world after it. */
  lemma RegistrationForm(w: World, s: Session)
    requires Enabled(w, Acquire(s))
    ensures var order, children := OrderOf(w.stored), w.nodes.Keys;
      var each, listed := FirstFree(order, children), w.phase[s := Locked][s := Listed(order, children)];
      Registration(w, s) ==
      if each.Some? then
        w.(phase := listed[s := Committed(each.value)][s := Idle], mutex := None,
           nodes := w.nodes[each.value := s], stored := Some(MoveToEnd(order, each.value)),
           worker := w.worker[s := each.value])
      else w.(phase := listed[s := Refused][s := Idle], mutex := None)
  {
    hide OrderOf, FirstFree, MoveToEnd;
  }

  /** The session has the least free id and its node, the stored order has that id at its end, and
      nothing else has changed. */
  predicate Registered(w: World, s: Session, id: int, w': World) {
    && 0 <= id < WORKERS && id !in w.nodes && (forall x :: 0 <= x < id ==> x in w.nodes)
    && w'.nodes == w.nodes[id := s] && w'.worker == w.worker[s := id]
    && w'.stored.Some? && LastOf(w'.stored.value, id)
    && w'.mutex.None? && w'.live == w.live && w'.phase == w.phase
  }

  lemma RegistrationResult(w: World, s: Session)
    requires Safe(w) && Enabled(w, Acquire(s))
    ensures var id, w' := FirstFree(OrderOf(w.stored), w.nodes.Keys), Registration(w, s);
      && Safe(w')
      && (id.None? <==> forall x :: 0 <= x < WORKERS ==> x in w.nodes)
      && (id.None? ==> w' == w)
      && (id.Some? ==> Registered(w, s, id.value, w'))
  {
    RegistrationSafe(w, s);
    hide Safe, OrderOf, FirstFree, MoveToEnd, LastOf;
    TakesLeastFree(w.stored, w.nodes.Keys);
    OrderIsFixed(w.stored);
    if FirstFree(OrderOf(w.stored), w.nodes.Keys).Some? {
      MovedLast(FirstFree(OrderOf(w.stored), w.nodes.Keys).value);
    }
    assert w.phase[s := Idle] == w.phase;
    var w3 := Act(Act(Act(w, Acquire(s)), List(s)), Commit(s));
    assert w3.phase[s := Idle] == w.phase;
    assert w.phase[s := Locked].Keys == w.phase.Keys;
  }

  lemma RegistrationSafe(w: World, s: Session)
    requires Safe(w) && Enabled(w, Acquire(s))
    ensures Safe(Registration(w, s))
  {
    hide Safe, OrderOf, FirstFree, MoveToEnd;
    var w1 := Act(w, Acquire(s));
    var w2 := Act(w1, List(s));
    var w3 := Act(w2, Commit(s));
    StepIsSafe(w, Acquire(s));
    StepIsSafe(w1, List(s));
    StepIsSafe(w2, Commit(s));
    if w3.phase[s].Committed? {
      StepIsSafe(w3, SetWorker(s));
      StepIsSafe(Act(w3, SetWorker(s)), Release(s));
    } else {
      StepIsSafe(w3, Release(s));
    }
  }
}
