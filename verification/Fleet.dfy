/** Many processes on one clock that take their worker ids from the lease: what leasing and ids
    promise together. */
module Fleet {
  import opened Options
  import Ids = Snowflake
  import Lease = WorkerLease

  type Process = nat

  /** An id and the process that made it. */
  datatype Issue = Issue(maker: Process, stamp: Ids.Stamp)

  /** `owner` says which process opened a session, `used` in which millisecond a worker id was last
      used for an id. */
  datatype State = State(
    world: Lease.World,
    owner: map<Lease.Session, Process>,
    generators: map<Process, Ids.Generator>,
    now: int,
    used: map<int, int>,
    issued: seq<Issue>)

  datatype Event =
    | Tick(ms: nat)
    | Connect(p: Process, s: Lease.Session)
    | Register(a: Lease.Action)
    | Call(p: Process, s: Lease.Session, e: Ids.Event)

  function Start(stored: Option<seq<int>>, now: int): State {
    State(Lease.Start(stored), map[], map[], now, map[], [])
  }

  /** The process works with the worker id that its live session s leases. */
  predicate Holds(w: State, p: Process, s: Lease.Session) {
    && p in w.generators && s in w.owner && w.owner[s] == p
    && s in w.world.live && s in w.world.worker && w.world.worker[s] == w.generators[p].worker
  }

  /** A worker id is not leased again within the millisecond in which it was last used; sessions
      take longer to expire. */
  predicate Rested(w: State, a: Lease.Action) {
    a.Commit? && a.s in w.world.phase && w.world.phase[a.s].Listed? ==>
      var p := w.world.phase[a.s];
      var each := Lease.FirstFree(p.order, p.children);
      each.Some? && each.value in w.used ==> w.used[each.value] < w.now
  }

  /** Calls are made by lease holders, and their timestamps are read off the common clock. */
  predicate Enabled(w: State, e: Event) {
    match e
    case Tick(_) => true
    case Connect(_, s) => Lease.Enabled(w.world, Lease.Connect(s))
    case Register(a) => !a.Connect? && Lease.Enabled(w.world, a) && Rested(w, a)
    case Call(p, s, r) =>
      && Holds(w, p, s) && r.Request? && Ids.Ends(w.generators[p], r)
      && var answer := Ids.Next(w.generators[p], r).1;
         answer.Issued? ==> answer.stamp.timestamp == w.now
  }

  /** setWorkerId of the process that runs the registration. */
  function Generators(w: State, a: Lease.Action): map<Process, Ids.Generator>
    requires Lease.Enabled(w.world, a)
  {
    if a.SetWorker? && a.s in w.owner && w.owner[a.s] in w.generators then
      var p := w.owner[a.s];
      w.generators[p := w.generators[p].(worker := w.world.phase[a.s].id)]
    else w.generators
  }

  function Act(w: State, e: Event): State
    requires Enabled(w, e)
  {
    match e
    case Tick(ms) => w.(now := w.now + ms)
    case Connect(p, s) =>
      w.(world := Lease.Act(w.world, Lease.Connect(s)),
         owner := w.owner[s := p],
         generators := if p in w.generators then w.generators else w.generators[p := Ids.NEW])
    case Register(a) => w.(world := Lease.Act(w.world, a), generators := Generators(w, a))
    case Call(p, s, r) =>
      var (g, answer) := Ids.Next(w.generators[p], r);
      var w' := w.(generators := w.generators[p := g]);
      if answer.Issued? then
        w'.(used := w.used[answer.stamp.worker := w.now], issued := w.issued + [Issue(p, answer.stamp)])
      else w'
  }

  ghost predicate Possible(w: State, run: seq<Event>)
    decreases |run|
  {
    run != [] ==> Enabled(w, run[0]) && Possible(Act(w, run[0]), run[1..])
  }

  ghost function After(w: State, run: seq<Event>): State
    requires Possible(w, run)
    decreases |run|
  {
    if run == [] then w else After(Act(w, run[0]), run[1..])
  }

  // ---- what every run keeps ----

  predicate Owned(w: State) {
    && (forall s :: s in w.world.phase ==> s in w.owner)
    && (forall s :: s in w.owner ==> s in w.world.phase && w.owner[s] in w.generators)
    && (forall p :: p in w.generators ==> w.generators[p].sequence < Ids.SEQUENCES)
  }

  /** What is known of one id that was issued. */
  predicate Past(w: State, i: Issue) {
    var st := i.stamp;
    && Ids.Made(st) && 0 <= st.worker < Lease.WORKERS
    && i.maker in w.generators && !Ids.Before(w.generators[i.maker].last, w.generators[i.maker].sequence, st)
    && st.worker in w.used && st.timestamp <= w.used[st.worker] <= w.now
  }

  /** If another process holds the worker id of an id now, the id's millisecond is over. */
  predicate Released(w: State, i: Issue) {
    var n := i.stamp.worker;
    n in w.world.nodes && w.world.nodes[n] in w.owner && w.owner[w.world.nodes[n]] != i.maker ==>
      i.stamp.timestamp < w.now
  }

  /** Two ids differ in millisecond, worker id or, from one process, in their order. */
  predicate Apart(i: Issue, j: Issue) {
    || i.stamp.timestamp != j.stamp.timestamp || i.stamp.worker != j.stamp.worker
    || Ids.Before(i.stamp.timestamp, i.stamp.sequence, j.stamp)
  }

  predicate Sound(w: State) {
    && Lease.Safe(w.world) && Owned(w)
    && (forall k :: 0 <= k < |w.issued| ==> Past(w, w.issued[k]) && Released(w, w.issued[k]))
    && (forall k, l :: 0 <= k < l < |w.issued| ==> Apart(w.issued[k], w.issued[l]))
  }

  lemma TickKeeps(w: State, ms: nat)
    requires Sound(w)
    ensures Sound(Act(w, Tick(ms)))
  {
    hide Lease.Safe, Ids.Made;
  }

  lemma ConnectKeeps(w: State, p: Process, s: Lease.Session)
    requires Sound(w) && Enabled(w, Connect(p, s))
    ensures Sound(Act(w, Connect(p, s)))
  {
    Lease.StepIsSafe(w.world, Lease.Connect(s));
    Lease.OldNodes(w.world);
    hide Lease.Safe, Ids.Made;
  }

  lemma RegisterKeeps(w: State, a: Lease.Action)
    requires Sound(w) && Enabled(w, Register(a))
    ensures Sound(Act(w, Register(a)))
  {
    var w' := Act(w, Register(a));
    Lease.StepIsSafe(w.world, a);
    Lease.StepNodes(w.world, a);
    hide Lease.Safe, Ids.Made, Lease.Act;
    forall k | 0 <= k < |w.issued| ensures Past(w', w.issued[k]) && Released(w', w.issued[k]) {
      assert Past(w, w.issued[k]) && Released(w, w.issued[k]);
    }
  }

  /** A call that returns an id. */
  lemma IssueKeeps(w: State, p: Process, s: Lease.Session, r: Ids.Event)
    requires Sound(w) && Enabled(w, Call(p, s, r)) && Ids.Next(w.generators[p], r).1.Issued?
    ensures var i := Issue(p, Ids.Next(w.generators[p], r).1.stamp); var w' := Act(w, Call(p, s, r));
      && Past(w', i) && Released(w', i) && forall k :: 0 <= k < |w.issued| ==> Apart(w.issued[k], i)
  {
    Ids.NextAscends(w.generators[p], r);
    Lease.HolderOwns(w.world, s);
    hide Lease.Safe, Ids.Made, Ids.Next;
    var i := Issue(p, Ids.Next(w.generators[p], r).1.stamp);
    forall k | 0 <= k < |w.issued| ensures Apart(w.issued[k], i) {
      assert Past(w, w.issued[k]) && Released(w, w.issued[k]);
    }
  }

  lemma CallKeeps(w: State, p: Process, s: Lease.Session, r: Ids.Event)
    requires Sound(w) && Enabled(w, Call(p, s, r))
    ensures Sound(Act(w, Call(p, s, r)))
  {
    var w' := Act(w, Call(p, s, r));
    var (g, answer) := Ids.Next(w.generators[p], r);
    Ids.NextAscends(w.generators[p], r);
    if answer.Issued? {
      IssueKeeps(w, p, s, r);
    }
    hide Lease.Safe, Ids.Made, Ids.Next, Apart;
    forall k | 0 <= k < |w.issued| ensures Past(w', w.issued[k]) && Released(w', w.issued[k]) {
      assert Past(w, w.issued[k]) && Released(w, w.issued[k]);
    }
  }

  lemma StepIsSound(w: State, e: Event)
    requires Sound(w) && Enabled(w, e)
    ensures Sound(Act(w, e))
  {
    hide Sound, Enabled, Act;
    match e
    case Tick(ms) => TickKeeps(w, ms);
    case Connect(p, s) => ConnectKeeps(w, p, s);
    case Register(a) => RegisterKeeps(w, a);
    case Call(p, s, r) => CallKeeps(w, p, s, r);
  }

  lemma {:induction false} RunIsSound(w: State, run: seq<Event>)
    requires Sound(w) && Possible(w, run)
    ensures Sound(After(w, run))
    decreases |run|
  {
    if run != [] {
      hide Sound, Enabled, Act;
      StepIsSound(w, run[0]);
      RunIsSound(Act(w, run[0]), run[1..]);
    }
  }

  /** Once a live session has set its worker id, the process that opened it holds the lease. */
  lemma LeaseUsable(w: State, s: Lease.Session)
    requires Sound(w) && Enabled(w, Register(Lease.SetWorker(s))) && s in w.world.live
    ensures s in w.owner && Holds(Act(w, Register(Lease.SetWorker(s))), w.owner[s], s)
  {
    hide Lease.Safe, Ids.Made;
  }

  /** A lease holder is answered with an id whenever the clock has not gone back, and the id
      carries the worker id of the lease. */
  lemma HolderAnswered(w: State, p: Process, s: Lease.Session, r: Ids.Event)
    requires Sound(w) && Holds(w, p, s) && r.Request? && Ids.Ends(w.generators[p], r)
    ensures var answer := Ids.Next(w.generators[p], r).1;
      && (answer.Issued? <==> 0 <= r.business <= 63 && r.now >= w.generators[p].last)
      && (answer.Issued? ==> answer.stamp.worker == w.world.worker[s])
  {
    Lease.HolderOwns(w.world, s);
    Ids.AnswersExactly(w.generators[p], r);
    if Ids.Next(w.generators[p], r).1.Issued? {
      Ids.StampExactly(w.generators[p], r);
    }
    hide Lease.Safe, Ids.Next, Ids.Ends;
  }

  /** Two issued ids that are apart are different within 2^40 ms. */
  lemma ApartDiffer(w: State, i: Issue, j: Issue, from: int)
    requires Past(w, i) && Past(w, j) && Apart(i, j)
    requires from <= i.stamp.timestamp < from + Ids.SPAN && from <= j.stamp.timestamp < from + Ids.SPAN
    ensures i.stamp.id != j.stamp.id
  {
    hide Ids.Made;
    if i.stamp.id == j.stamp.id {
      Ids.EqualIds(i.stamp, j.stamp);
      Ids.CloseResidues(i.stamp.timestamp, j.stamp.timestamp, from);
    }
  }

  /** In every interleaving of registrations, expiries and calls, with all processes on one clock,
      the ids that lease holders return are pairwise distinct, within one process and across all of
      them. */
  lemma NoSharedId(stored: Option<seq<int>>, now: int, run: seq<Event>, from: int)
    requires Possible(Start(stored, now), run)
    requires var issued := After(Start(stored, now), run).issued;
             forall k :: 0 <= k < |issued| ==> from <= issued[k].stamp.timestamp < from + Ids.SPAN
    ensures var issued := After(Start(stored, now), run).issued;
            forall k, l :: 0 <= k < l < |issued| ==> issued[k].stamp.id != issued[l].stamp.id
  {
    RunIsSound(Start(stored, now), run);
    var w := After(Start(stored, now), run);
    hide Past, Apart, After, Possible, Lease.Safe, Owned, Released, Start;
    forall k, l | 0 <= k < l < |w.issued| ensures w.issued[k].stamp.id != w.issued[l].stamp.id {
      ApartDiffer(w, w.issued[k], w.issued[l], from);
    }
  }
}
