/** The leader's schedule step on values: what the scheduler's loops compute, one loop a function. */
module SchedulerModel {
  import opened OrderedKeys

  type Host = string
  type App = string
  /** A reading of the system clock. */
  type Time = int
  /** Which apps run on which host, and since when. */
  type Topology = map<Host, map<App, Time>>

  const TWO_TO_64 := 0x1_0000_0000_0000_0000

  /** `uint64_t` addition. */
  function Add64(a: nat, b: nat): nat {
    (a + b) % TWO_TO_64
  }

  /** An integer as it is read from JSON: there is no other check of it. */
  type Int32 = i: int | -0x8000_0000 <= i < 0x8000_0000

  /** An `int` that is assigned to a `uint64_t`. */
  function Unsigned64(i: Int32): nat {
    if i < 0 then i + TWO_TO_64 else i
  }

  /** The bytes a task asks for, `mega * 1024 * 1024` in `uint64_t`. */
  function RequestBytes(mega: nat): nat {
    (mega * 1024 * 1024) % TWO_TO_64
  }

  datatype NodeState = NodeState(total: nat, occupied: nat, apps: set<App>) {
    predicate Full() {
      occupied >= total
    }

    predicate TryAssign(request: nat) {
      Add64(occupied, request) < total
    }

    function Assign(app: App, request: nat): NodeState {
      this.(occupied := Add64(occupied, request), apps := apps + {app})
    }
  }

  /** The comparator of the host sort: fewer apps first, then fewer bytes occupied. */
  predicate LoadLess(a: NodeState, b: NodeState) {
    |a.apps| < |b.apps| || (|a.apps| == |b.apps| && a.occupied < b.occupied)
  }

  /** `pool` holds the replica indices that still need a host. */
  datatype TaskState = TaskState(request: nat, matched: set<Host>, pool: set<int>)

  datatype State = State(nodes: map<Host, NodeState>, tasks: map<App, TaskState>,
                         topology: Topology, readings: nat) {
    /** Matched hosts are nodes of the cluster. */
    ghost predicate Linked() {
      forall a :: a in tasks ==> tasks[a].matched <= nodes.Keys
    }
  }

  predicate IsFirst(pool: set<int>, i: int) {
    i in pool && forall j :: j in pool ==> i <= j
  }

  lemma {:induction false} FirstExists(pool: set<int>)
    requires |pool| > 0
    ensures exists i :: IsFirst(pool, i)
    decreases |pool|
  {
    if forall i :: i !in pool { assert false; }
    var i :| i in pool;
    var rest := pool - {i};
    assert pool == rest + {i};
    if rest == {} {
      assert IsFirst(pool, i);
    } else {
      FirstExists(rest);
      var m :| IsFirst(rest, m);
      assert IsFirst(pool, if i < m then i else m);
    }
  }

  /** `tasksSet.erase(tasksSet.begin())` */
  function EraseFirst(pool: set<int>): (rest: set<int>)
    requires pool != {}
    ensures |rest| == |pool| - 1 && rest < pool
    ensures forall i, j :: i in pool - rest && j in rest ==> i < j
  {
    FirstExists(pool);
    var i :| i in pool && IsFirst(pool, i);
    pool - {i}
  }

  function AppsOn(topology: Topology, h: Host): map<App, Time> {
    if h in topology then topology[h] else map[]
  }

  function Record(topology: Topology, h: Host, a: App, t: Time): Topology {
    topology[h := AppsOn(topology, h)[a := t]]
  }

  /** One replica of `a` goes to host `h`. */
  function Place(st: State, a: App, h: Host, t: Time): (r: State)
    requires a in st.tasks && h in st.nodes && st.tasks[a].pool != {}
  {
    var task := st.tasks[a];
    st.(nodes := st.nodes[h := st.nodes[h].Assign(a, task.request)],
        tasks := st.tasks[a := task.(pool := EraseFirst(task.pool))],
        topology := Record(st.topology, h, a, t))
  }

  /** One replica of `a` stays on host `h`, which is taken off the match list. */
  function KeepOne(st: State, a: App, h: Host, was: Topology): (r: State)
    requires a in st.tasks && h in st.nodes && st.tasks[a].pool != {} && h in was && a in was[h]
    ensures r.tasks.Keys == st.tasks.Keys && r.nodes.Keys == st.nodes.Keys
    ensures r.tasks[a].matched <= st.tasks[a].matched
  {
    var task := st.tasks[a];
    Place(st.(tasks := st.tasks[a := task.(matched := task.matched - {h})]), a, h, was[h][a])
  }

  /* First phase: replicas already running on a host that still matches stay there. */

  function KeepHosts(st: State, a: App, hosts: seq<Host>, was: Topology): (r: State)
    requires a in st.tasks && st.tasks[a].matched <= st.nodes.Keys
    requires forall h :: h in hosts ==> h in was
    ensures r.tasks.Keys == st.tasks.Keys && r.nodes.Keys == st.nodes.Keys
    decreases |hosts|
  {
    if hosts == [] then st else
      var h := hosts[0];
      if h in st.tasks[a].matched && a in was[h] then
        if st.tasks[a].pool == {} then st
        else KeepHosts(KeepOne(st, a, h, was), a, hosts[1..], was)
      else KeepHosts(st, a, hosts[1..], was)
  }

  lemma {:induction false} KeepHostsLinked(st: State, a: App, hosts: seq<Host>, was: Topology)
    requires st.Linked() && a in st.tasks && forall h :: h in hosts ==> h in was
    ensures KeepHosts(st, a, hosts, was).Linked()
    decreases |hosts|
  {
    if hosts != [] {
      if hosts[0] in st.tasks[a].matched && a in was[hosts[0]] {
        if st.tasks[a].pool != {} { KeepHostsLinked(KeepOne(st, a, hosts[0], was), a, hosts[1..], was); }
      } else {
        KeepHostsLinked(st, a, hosts[1..], was);
      }
    }
  }

  function KeepTask(st: State, a: App, was: Topology): (r: State)
    requires st.Linked() && a in st.tasks
    ensures r.Linked() && r.tasks.Keys == st.tasks.Keys
  {
    if st.tasks[a].pool == {} then st else
      KeepHostsLinked(st, a, InOrder(was.Keys), was);
      KeepHosts(st, a, InOrder(was.Keys), was)
  }

  function KeepAll(st: State, apps: seq<App>, was: Topology): (r: State)
    requires st.Linked() && forall a :: a in apps ==> a in st.tasks
    ensures r.Linked() && r.tasks.Keys == st.tasks.Keys
    decreases |apps|
  {
    if apps == [] then st else KeepAll(KeepTask(st, apps[0], was), apps[1..], was)
  }

  /* Second phase: the remaining replicas go to the least loaded hosts that fit. */

  /** What the k-th reading of the system clock returns; a run takes finitely many. */
  function Now(clock: seq<Time>, k: nat): Time {
    if k < |clock| then clock[k] else 0
  }

  function PlaceNow(st: State, a: App, h: Host, clock: seq<Time>): (r: State)
    requires a in st.tasks && h in st.nodes && st.tasks[a].pool != {}
    ensures r.tasks.Keys == st.tasks.Keys && r.nodes.Keys == st.nodes.Keys
  {
    Place(st, a, h, Now(clock, st.readings)).(readings := st.readings + 1)
  }

  predicate Accepts(st: State, a: App, h: Host)
    requires a in st.tasks && h in st.nodes
  {
    !st.nodes[h].Full() && st.nodes[h].TryAssign(st.tasks[a].request)
  }

  function Fill(st: State, a: App, order: seq<Host>, clock: seq<Time>): (r: State)
    requires a in st.tasks && forall h :: h in order ==> h in st.nodes
    ensures r.tasks.Keys == st.tasks.Keys && r.nodes.Keys == st.nodes.Keys
    decreases |order|
  {
    if order == [] || st.tasks[a].pool == {} then st else
      var h := order[0];
      if Accepts(st, a, h) then Fill(PlaceNow(st, a, h, clock), a, order[1..], clock)
      else Fill(st, a, order[1..], clock)
  }

  lemma {:induction false} FillLinked(st: State, a: App, order: seq<Host>, clock: seq<Time>)
    requires st.Linked() && a in st.tasks && forall h :: h in order ==> h in st.nodes
    ensures Fill(st, a, order, clock).Linked()
    decreases |order|
  {
    if order != [] && st.tasks[a].pool != {} {
      if Accepts(st, a, order[0]) {
        FillLinked(PlaceNow(st, a, order[0], clock), a, order[1..], clock);
      } else {
        FillLinked(st, a, order[1..], clock);
      }
    }
  }

  /** A possible outcome of the sort: the matched hosts, each once, never a more loaded one first. */
  ghost predicate HostOrder(st: State, a: App, order: seq<Host>)
    requires st.Linked() && a in st.tasks
  {
    && (forall h :: h in order <==> h in st.tasks[a].matched)
    && (forall i, j :: 0 <= i < j < |order| ==> order[i] != order[j])
    && (forall i, j :: 0 <= i < j < |order| ==> !LoadLess(st.nodes[order[j]], st.nodes[order[i]]))
  }

  /** `order` plays a role only when there are replicas to place. */
  ghost predicate FillOrder(st: State, a: App, order: seq<Host>)
    requires st.Linked() && a in st.tasks
  {
    st.tasks[a].pool != {} ==> HostOrder(st, a, order)
  }

  ghost function FillTask(st: State, a: App, order: seq<Host>, clock: seq<Time>): (r: State)
    requires st.Linked() && a in st.tasks && FillOrder(st, a, order)
    ensures r.Linked() && r.tasks.Keys == st.tasks.Keys && r.nodes.Keys == st.nodes.Keys
  {
    if st.tasks[a].pool == {} then st else
      FillLinked(st, a, order, clock);
      Fill(st, a, order, clock)
  }

  /** The sort breaks ties any way it likes: `orders` says how it did, one order a task. */
  ghost predicate FillOrders(st: State, apps: seq<App>, orders: seq<seq<Host>>, clock: seq<Time>)
    requires st.Linked() && forall a :: a in apps ==> a in st.tasks
    decreases |apps|
  {
    |orders| == |apps| &&
    (apps != [] ==>
       FillOrder(st, apps[0], orders[0]) &&
       FillOrders(FillTask(st, apps[0], orders[0], clock), apps[1..], orders[1..], clock))
  }

  ghost function FillAll(st: State, apps: seq<App>, orders: seq<seq<Host>>, clock: seq<Time>): (r: State)
    requires st.Linked() && forall a :: a in apps ==> a in st.tasks
    requires FillOrders(st, apps, orders, clock)
    ensures r.Linked() && r.tasks.Keys == st.tasks.Keys && r.nodes.Keys == st.nodes.Keys
    decreases |apps|
  {
    if apps == [] then st
    else FillAll(FillTask(st, apps[0], orders[0], clock), apps[1..], orders[1..], clock)
  }

  /* The whole schedule. */

  function Kept(st: State, was: Topology): (r: State)
    requires st.Linked()
    ensures r.Linked() && r.tasks.Keys == st.tasks.Keys
  {
    KeepAll(st, InOrder(st.tasks.Keys), was)
  }

  ghost predicate ScheduleOrders(st: State, was: Topology, orders: seq<seq<Host>>, clock: seq<Time>)
    requires st.Linked()
  {
    FillOrders(Kept(st, was), InOrder(st.tasks.Keys), orders, clock)
  }

  ghost function Schedule(st: State, was: Topology, orders: seq<seq<Host>>, clock: seq<Time>): (r: State)
    requires st.Linked() && ScheduleOrders(st, was, orders, clock)
  {
    FillAll(Kept(st, was), InOrder(st.tasks.Keys), orders, clock)
  }
}
