/** One pass of the leader's control loop on values: read the topology, find the hosts of each task, schedule, and
    write back what changed. A pass over its own result writes nothing. */
module ControlLoop {
  import opened OrderedKeys
  import opened SchedulerModel
  import opened SchedulerLedger
  import opened SchedulerPhases
  import opened SchedulerTheorems
  import opened SchedulerFixedPoint
  import opened Labels
  import ConsulEntity

  /* The topology keys of the store. */

  /** A JSON array of apps with their schedule times, or the empty JSON object. */
  datatype Body = AppArray(apps: map<App, Time>) | EmptyObject

  type Store = map<Host, Body>

  /** What reading the topology returns: hosts whose value is not an array are skipped. */
  function Retrieve(store: Store): Topology {
    map h | h in store && store[h].AppArray? :: store[h].apps
  }

  const NANOSECONDS := 1_000_000_000

  /** Schedule times are written as text with a resolution of one second (`to_time_t` truncates). */
  function WholeSeconds(t: Time): Time {
    if t >= 0 then t - t % NANOSECONDS else -(-t - (-t) % NANOSECONDS)
  }

  /** What a time is written as: the whole second at or next to it, towards zero. */
  predicate WrittenTime(u: Time, t: Time) {
    && u % 1_000_000_000 == 0
    && (t >= 0 ==> 0 <= t - u < 1_000_000_000)
    && (t < 0 ==> 0 <= u - t < 1_000_000_000)
  }

  lemma WholeSecondsAreWritten(t: Time)
    ensures WrittenTime(WholeSeconds(t), t)
  {
  }

  function Stamped(apps: map<App, Time>): map<App, Time> {
    map a | a in apps :: WholeSeconds(apps[a])
  }

  /** What is written for a host: no topology, or one without apps, is the empty object. */
  function BodyFor(topology: Topology, h: Host): Body {
    if h in topology && topology[h] != map[] then AppArray(Stamped(topology[h])) else EmptyObject
  }

  /** The hosts that differ: new ones, those whose set of apps differs, and those that are gone. */
  function Changed(oldT: Topology, newT: Topology): set<Host> {
    set h | h in oldT.Keys + newT.Keys && (h !in oldT || h !in newT || oldT[h].Keys != newT[h].Keys)
  }

  /** The store after the changed hosts are written; `accepted` are the hosts whose write succeeds. */
  function Dispatched(store: Store, oldT: Topology, newT: Topology, accepted: set<Host>): Store {
    store + map h | h in Changed(oldT, newT) && h in accepted :: BodyFor(newT, h)
  }

  /** Dispatching reaches the target: what is read back afterwards has exactly the new topology's apps on exactly
      its hosts. Only hosts that differ were written. */
  lemma DispatchReachesTarget(store: Store, newT: Topology, accepted: set<Host>)
    requires Changed(Retrieve(store), newT) <= accepted
    requires forall h :: h in newT ==> newT[h] != map[]
    ensures var r := Retrieve(Dispatched(store, Retrieve(store), newT, accepted));
            r.Keys == newT.Keys && forall h :: h in newT ==> r[h].Keys == newT[h].Keys
    ensures forall h :: h in store && h !in Changed(Retrieve(store), newT) ==>
              Dispatched(store, Retrieve(store), newT, accepted)[h] == store[h]
  {
    var oldT := Retrieve(store);
    var changed := Changed(oldT, newT);
    var after := Dispatched(store, oldT, newT, accepted);
    forall h ensures h in Retrieve(after) <==> h in newT {
      if h in changed { assert after[h] == BodyFor(newT, h); }
    }
    forall h | h in newT ensures Retrieve(after)[h].Keys == newT[h].Keys {
      if h in changed { assert after[h] == BodyFor(newT, h); }
    }
  }

  /* The cluster as the leader reads it. */

  datatype NodeInfo = NodeInfo(lbl: Label, totalBytes: nat)

  /** `memoryMB` may be negative; it is read into an unsigned number. */
  datatype TaskInfo = TaskInfo(condition: Label, memoryMB: Int32, replication: nat)

  datatype Cluster = Cluster(nodes: map<Host, NodeInfo>, tasks: map<App, TaskInfo>)

  /** The tasks that are read: those with a name and at least one replica. */
  function Listed(tasks: map<App, TaskInfo>): map<App, TaskInfo> {
    map a | a in tasks && a != "" && tasks[a].replication != 0 :: tasks[a]
  }

  /** Hosts whose labels meet the condition and that are not full while nothing runs on them. */
  function Available(c: Cluster, condition: Label): set<Host> {
    set h | h in c.nodes && Satisfies(c.nodes[h].lbl, condition) && c.nodes[h].totalBytes > 0
  }

  ghost function TaskAtStart(c: Cluster, a: App): TaskState
    requires a in c.tasks
  {
    var task := c.tasks[a];
    TaskState(RequestBytes(Unsigned64(task.memoryMB)), Available(c, task.condition), ConsulEntity.Indices(task.replication))
  }

  /** The scheduler's input: fresh nodes, and fresh tasks matched to their hosts. */
  ghost function AtStart(c: Cluster): State {
    State(map h | h in c.nodes :: NodeState(c.nodes[h].totalBytes, 0, {}),
          map a | a in Listed(c.tasks) :: TaskAtStart(c, a),
          map[], 0)
  }

  lemma AtStartIsStart(c: Cluster)
    ensures Start(AtStart(c))
  {
  }

  /** The requests of the tasks that any one host matches fit a 64-bit counter. */
  ghost predicate Fits(c: Cluster) {
    HostsFit(AtStart(c))
  }

  const MOST_TASKS := 8192
  const MOST_BYTES := 0x7FFF_FFFF * 0x10_0000

  /** They do if none is negative, unless a host matches more than 8192 tasks. */
  lemma OrdinaryTasksFit(c: Cluster)
    requires forall a :: a in Listed(c.tasks) ==> c.tasks[a].memoryMB >= 0
    requires forall h :: h in c.nodes ==> |Matching(AtStart(c), h)| <= MOST_TASKS
    ensures Fits(c)
  {
    hide TaskAtStart, Matching, Listed, HostFits;
    forall h | h in AtStart(c).nodes ensures HostFits(AtStart(c), h) { OrdinaryHostFits(c, h); }
  }

  lemma OrdinaryHostFits(c: Cluster, h: Host)
    requires forall a :: a in Listed(c.tasks) ==> c.tasks[a].memoryMB >= 0
    requires |Matching(AtStart(c), h)| <= MOST_TASKS
    ensures HostFits(AtStart(c), h)
  {
    hide AtStart, Matching, Listed, Sum;
    var st := AtStart(c);
    MatchingAreTasks(st, h);
    TasksAreListed(c);
    forall a | a in Matching(st, h) ensures Requests(st)[a] <= MOST_BYTES { RequestAtMost(c, a); }
    SumAtMost(Requests(st), Matching(st, h), MOST_BYTES);
    MostFit(|Matching(st, h)|);
  }

  lemma TasksAreListed(c: Cluster)
    ensures AtStart(c).tasks.Keys == Listed(c.tasks).Keys
  {
    hide TaskAtStart;
  }

  lemma MostFit(n: nat)
    requires n <= MOST_TASKS
    ensures n * MOST_BYTES < TWO_TO_64
  {
  }

  lemma MatchingAreTasks(st: State, h: Host)
    ensures Matching(st, h) <= Requests(st).Keys == st.tasks.Keys
  {
  }

  lemma RequestAtMost(c: Cluster, a: App)
    requires a in Listed(c.tasks) && c.tasks[a].memoryMB >= 0
    ensures a in AtStart(c).tasks && AtStart(c).tasks[a].request <= MOST_BYTES
  {
    hide Available, RequestBytes;
    OrdinaryRequest(c.tasks[a].memoryMB);
  }

  lemma OrdinaryRequest(mega: Int32)
    requires mega >= 0
    ensures RequestBytes(Unsigned64(mega)) <= MOST_BYTES
  {
  }

  /** A pass over `store` that ends with schedule `r`. */
  ghost predicate PassOf(c: Cluster, store: Store, orders: seq<seq<Host>>, clock: seq<Time>, r: State) {
    RunOf(AtStart(c), Retrieve(store), orders, clock, r)
  }

  /* What a pass decides, in terms of the cluster. */

  /** The bytes of a request. A negative number of MiB is one that is too large for any host. */
  lemma RequestInBytes(c: Cluster, a: App)
    requires a in Listed(c.tasks)
    ensures a in AtStart(c).tasks
    ensures var mega := c.tasks[a].memoryMB;
      AtStart(c).tasks[a].request == if mega >= 0 then mega * 1_048_576 else 0x1_0000_0000_0000_0000 + mega * 1_048_576
  {
    hide Available;
    BytesOfMega(c.tasks[a].memoryMB);
  }

  lemma BytesOfMega(mega: Int32)
    ensures RequestBytes(Unsigned64(mega)) == if mega >= 0 then mega * 1_048_576 else 0x1_0000_0000_0000_0000 + mega * 1_048_576
  {
    if mega < 0 {
      assert (mega + TWO_TO_64) * 1024 * 1024 == 1_048_575 * TWO_TO_64 + (TWO_TO_64 + mega * 1_048_576);
      WholeWraps(1_048_575, TWO_TO_64 + mega * 1_048_576);
    }
  }

  lemma WholeWraps(q: nat, m: nat)
    requires m < TWO_TO_64
    ensures (q * TWO_TO_64 + m) % TWO_TO_64 == m
  {
  }

  /** Each app that a pass places is one that was read, and runs on hosts of the cluster whose labels meet its condition. */
  lemma PassMeetsConditions(c: Cluster, store: Store, orders: seq<seq<Host>>, clock: seq<Time>, r: State, h: Host, a: App)
    requires PassOf(c, store, orders, clock, r) && Runs(r.topology, h, a)
    ensures a in c.tasks && a != "" && c.tasks[a].replication > 0
    ensures h in c.nodes && c.nodes[h].totalBytes > 0 && MeetsCondition(c.nodes[h].lbl, c.tasks[a].condition)
  {
    hide RunOf, Satisfies, Admissible;
    OnlyTasksPlaced(AtStart(c), Retrieve(store), orders, clock, r);
    TasksAreListed(c);
    ReplicasConserved(AtStart(c), Retrieve(store), orders, clock, r, a);
    assert h in Placements(r.topology, a);
    SatisfiesMeans(c.nodes[h].lbl, c.tasks[a].condition);
  }

  /** A host of the cluster that the task could run on, for all that its labels say, and does not. */
  ghost predicate Idle(c: Cluster, r: State, h: Host, a: App)
    requires a in c.tasks
  {
    h in c.nodes && PlainlyMeets(c.nodes[h].lbl, c.tasks[a].condition) && c.nodes[h].totalBytes > 0 && !Runs(r.topology, h, a)
  }

  /**
   * Each app that is read runs on as many hosts as it has replicas; or on fewer, and then every host that it could run on and
   * does not carries at the end apps that leave no room for it.
   */
  lemma PassPlacesReplicas(c: Cluster, store: Store, orders: seq<seq<Host>>, clock: seq<Time>, r: State, a: App)
    requires PassOf(c, store, orders, clock, r) && a in c.tasks && a != "" && c.tasks[a].replication > 0
    ensures |Placements(r.topology, a)| <= c.tasks[a].replication && a in AtStart(c).tasks && Ledger(r)
    ensures |Placements(r.topology, a)| == c.tasks[a].replication
      || forall h :: Idle(c, r, h, a) ==> h in r.nodes && Load(r, h) + AtStart(c).tasks[a].request >= c.nodes[h].totalBytes
  {
    hide RunOf, Satisfies, Load, Ledger, PlainlyMeets;
    var st := AtStart(c);
    ReplicasConserved(st, Retrieve(store), orders, clock, r, a);
    RunLedger(st, Retrieve(store), orders, clock, r);
    if |Placements(r.topology, a)| < c.tasks[a].replication {
      forall h | Idle(c, r, h, a) ensures h in r.nodes && Load(r, h) + st.tasks[a].request >= c.nodes[h].totalBytes {
        SatisfiesMeans(c.nodes[h].lbl, c.tasks[a].condition);
        NoCapacityWasted(st, Retrieve(store), orders, clock, r, a, h);
      }
    }
  }

  /** The store after the pass. A leader that sees no nodes does nothing. */
  ghost function StoreAfter(c: Cluster, store: Store, r: State, accepted: set<Host>): Store {
    if c.nodes == map[] then store else Dispatched(store, Retrieve(store), r.topology, accepted)
  }

  /** The schedule times of `u` are those of `newT`, without their fraction of a second on the `written` hosts. */
  ghost predicate StoredTimes(u: Topology, newT: Topology, written: set<Host>) {
    forall h, a :: Runs(u, h, a) ==>
      Runs(newT, h, a) && if h in written then WrittenTime(u[h][a], newT[h][a]) else u[h][a] == newT[h][a]
  }

  /** What the pass leaves in the store is the topology it decided on, up to the schedule times of hosts that
      changed, which lose their fraction of a second. Times of hosts that did not change are untouched. */
  lemma PassStoresSchedule(c: Cluster, store: Store, orders: seq<seq<Host>>, clock: seq<Time>, r: State, accepted: set<Host>)
    requires PassOf(c, store, orders, clock, r) && c.nodes != map[]
    requires Changed(Retrieve(store), r.topology) <= accepted
    ensures var u := Retrieve(StoreAfter(c, store, r, accepted));
            Found(u, r) && StoredTimes(u, r.topology, Changed(Retrieve(store), r.topology))
  {
    var u := Retrieve(StoreAfter(c, store, r, accepted));
    OnlyTasksPlaced(AtStart(c), Retrieve(store), orders, clock, r);
    DispatchReachesTarget(store, r.topology, accepted);
    SameKeysSameApps(u, r.topology);
    hide Changed, Retrieve, Runs, SameApps, AtStart, RunOf;
    PassStoresTimes(c, store, orders, clock, r, accepted);
  }

  lemma PassStoresTimes(c: Cluster, store: Store, orders: seq<seq<Host>>, clock: seq<Time>, r: State, accepted: set<Host>)
    requires PassOf(c, store, orders, clock, r) && c.nodes != map[]
    requires Changed(Retrieve(store), r.topology) <= accepted
    requires SameApps(Retrieve(StoreAfter(c, store, r, accepted)), r.topology)
    requires forall h, a :: Runs(r.topology, h, a) ==> a in AtStart(c).tasks
    ensures StoredTimes(Retrieve(StoreAfter(c, store, r, accepted)), r.topology, Changed(Retrieve(store), r.topology))
  {
    var was := Retrieve(store);
    var u := Retrieve(StoreAfter(c, store, r, accepted));
    hide RunOf, Changed, Retrieve, WholeSeconds, WrittenTime, AtStart, Dispatched;
    forall h, a | Runs(u, h, a)
      ensures if h in Changed(was, r.topology) then WrittenTime(u[h][a], r.topology[h][a]) else u[h][a] == r.topology[h][a]
    {
      assert Runs(r.topology, h, a);
      WholeSecondsAreWritten(r.topology[h][a]);
      StoredTime(store, r.topology, accepted, h, a);
      if h !in Changed(was, r.topology) { TimeStable(AtStart(c), was, orders, clock, r, a, h); }
    }
  }

  lemma SameKeysSameApps(u: Topology, t: Topology)
    requires u.Keys == t.Keys && forall h :: h in t ==> u[h].Keys == t[h].Keys && t[h] != map[]
    ensures SameApps(u, t) && forall h :: h in u ==> u[h] != map[]
  {
    forall h | h in u ensures u[h] != map[] {
      assert u[h].Keys == t[h].Keys;
      var a :| a in t[h];
      assert a in u[h];
    }
  }

  /** The schedule time read back for an app: the new one where the host was written, else the old one. */
  lemma StoredTime(store: Store, newT: Topology, accepted: set<Host>, h: Host, a: App)
    requires Changed(Retrieve(store), newT) <= accepted && Runs(newT, h, a)
    requires Runs(Retrieve(Dispatched(store, Retrieve(store), newT, accepted)), h, a)
    ensures var u, was := Retrieve(Dispatched(store, Retrieve(store), newT, accepted)), Retrieve(store);
            if h in Changed(was, newT) then u[h][a] == WholeSeconds(newT[h][a]) else Runs(was, h, a) && u[h][a] == was[h][a]
  {
    if h in Changed(Retrieve(store), newT) {
      assert Dispatched(store, Retrieve(store), newT, accepted)[h] == BodyFor(newT, h);
    }
  }

  lemma OnlyTasksPlaced(st: State, was: Topology, orders: seq<seq<Host>>, clock: seq<Time>, r: State)
    requires RunOf(st, was, orders, clock, r)
    ensures forall h :: h in r.topology ==> r.topology[h] != map[]
    ensures forall h, a :: Runs(r.topology, h, a) ==> a in st.tasks
  {
    RunLedger(st, was, orders, clock, r);
    forall h, a | Runs(r.topology, h, a) ensures a in st.tasks {
      assert Books(r.nodes[h], AppsOn(r.topology, h), Requests(r));
    }
  }

  /** The loop settles: over the store that a pass leaves, the next pass (with the same nodes and tasks) decides on what it
      read, finds nothing to write and leaves the store as it is, if and only if the pass ended settled. It does so whenever
      the requests of the tasks that any one host matches fit a 64-bit counter. */
  lemma SecondPassWritesNothing(c: Cluster, store: Store, orders: seq<seq<Host>>, clock: seq<Time>, r: State, accepted: set<Host>,
                                orders': seq<seq<Host>>, clock': seq<Time>, r': State, accepted': set<Host>)
    requires PassOf(c, store, orders, clock, r) && Changed(Retrieve(store), r.topology) <= accepted
    requires c.nodes != map[]
    requires PassOf(c, StoreAfter(c, store, r, accepted), orders', clock', r')
    ensures var next := StoreAfter(c, store, r, accepted);
      && (Settled(AtStart(c), r) ==> r'.topology == Retrieve(next) && StoreAfter(c, next, r', accepted') == next)
      && (Settled(AtStart(c), r) <==> Changed(Retrieve(next), r'.topology) == {})
      && (Fits(c) ==> Settled(AtStart(c), r))
  {
    hide Found, Settled, Changed, Retrieve, AtStart;
    var next := StoreAfter(c, store, r, accepted);
    PassStoresSchedule(c, store, orders, clock, r, accepted);
    ScheduleIsFixedPoint(AtStart(c), Retrieve(store), orders, clock, r, Retrieve(next), orders', clock', r');
    NothingChanged(next, accepted');
    if Changed(Retrieve(next), r'.topology) == {} {
      UnchangedIsFixed(AtStart(c), Retrieve(next), orders', clock', r');
    }
  }

  /** A run that changes no app on no host gives back the schedule times too. */
  lemma UnchangedIsFixed(st: State, was: Topology, orders: seq<seq<Host>>, clock: seq<Time>, r: State)
    requires RunOf(st, was, orders, clock, r) && Changed(was, r.topology) == {}
    ensures r.topology == was
  {
    hide RunOf;
    OnlyTasksPlaced(st, was, orders, clock, r);
    forall h ensures h in was <==> h in r.topology {
      assert h !in Changed(was, r.topology);
    }
    forall h | h in was ensures was[h] == r.topology[h] {
      assert h !in Changed(was, r.topology);
      forall a | a in was[h] ensures r.topology[h][a] == was[h][a] {
        assert a in r.topology[h].Keys && Runs(r.topology, h, a) && Runs(was, h, a);
        TimeStable(st, was, orders, clock, r, a, h);
      }
    }
  }

  lemma NothingChanged(store: Store, accepted: set<Host>)
    ensures Changed(Retrieve(store), Retrieve(store)) == {}
    ensures Dispatched(store, Retrieve(store), Retrieve(store), accepted) == store
  {
    assert Changed(Retrieve(store), Retrieve(store)) == {};
  }
}
