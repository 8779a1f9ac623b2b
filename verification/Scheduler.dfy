/** `Scheduler::scheduleTask` on the shared objects, proved against the functions of `SchedulerModel`. */
module Scheduler {
  import opened OrderedKeys
  import opened SchedulerModel
  import opened ConsulEntity

  /** The scheduler's state as a value. */
  ghost function Snapshot(tasks: map<string, ConsulTask>, cluster: map<string, ConsulNode>,
                          topology: Topology, readings: nat): State
    reads tasks.Values, cluster.Values
  {
    State(NodesOf(cluster), TasksOf(tasks), topology, readings)
  }

  /** `task` is one of the tasks, and all match lists share the cluster's nodes. */
  ghost predicate TaskOf(tasks: map<string, ConsulTask>, cluster: map<string, ConsulNode>, task: ConsulTask)
    reads tasks.Values
  {
    Shared(tasks, cluster) && task.m_app.name in tasks && tasks[task.m_app.name] == task
  }

  lemma SnapshotLinked(tasks: map<string, ConsulTask>, cluster: map<string, ConsulNode>, topology: Topology, readings: nat)
    requires Shared(tasks, cluster)
    ensures Snapshot(tasks, cluster, topology, readings).Linked()
  {
    forall a | a in tasks ensures TasksOf(tasks)[a].matched <= NodesOf(cluster).Keys {
      assert SharedHosts(tasks[a], cluster);
    }
  }

  /** `tasksSet.erase(tasksSet.begin())` and `assignApp`: one replica of the task goes to `node`. */
  method TakeReplica(tasks: map<string, ConsulTask>, ghost cluster: map<string, ConsulNode>,
                     task: ConsulTask, node: ConsulNode)
    requires TaskOf(tasks, cluster, task) && task.m_tasksSet != {}
    requires node.m_hostName in cluster && cluster[node.m_hostName] == node
    modifies task, node
    ensures TaskOf(tasks, cluster, task) && task.m_matchedHosts == old(task.m_matchedHosts)
    ensures NodesOf(cluster) == old(NodesOf(cluster))[node.m_hostName := old(node.State()).Assign(task.m_app.name, old(task.State()).request)]
    ensures TasksOf(tasks) == old(TasksOf(tasks))[task.m_app.name := old(task.State()).(pool := EraseFirst(old(task.m_tasksSet)))]
  {
    task.m_tasksSet := EraseFirst(task.m_tasksSet);
    node.AssignApp(task);
  }

  method UnmatchHost(tasks: map<string, ConsulTask>, ghost cluster: map<string, ConsulNode>, task: ConsulTask, host: string)
    requires TaskOf(tasks, cluster, task)
    modifies task
    ensures TaskOf(tasks, cluster, task) && task.m_tasksSet == old(task.m_tasksSet)
    ensures NodesOf(cluster) == old(NodesOf(cluster))
    ensures TasksOf(tasks) == old(TasksOf(tasks))[task.m_app.name := old(task.State()).(matched := old(task.State()).matched - {host})]
  {
    task.m_matchedHosts := task.m_matchedHosts - {host};
  }

  lemma TaskAndNode(tasks: map<string, ConsulTask>, cluster: map<string, ConsulNode>, task: ConsulTask, node: ConsulNode)
    requires TaskOf(tasks, cluster, task) && node.m_hostName in cluster && cluster[node.m_hostName] == node
    ensures task.m_app.name in TasksOf(tasks) && TasksOf(tasks)[task.m_app.name] == task.State()
    ensures node.m_hostName in NodesOf(cluster) && NodesOf(cluster)[node.m_hostName] == node.State()
  {
  }

  /** The task keeps its replica on `node`, which is taken off its match list. */
  method KeepReplica(tasks: map<string, ConsulTask>, ghost cluster: map<string, ConsulNode>, task: ConsulTask,
                     node: ConsulNode, ghost topology: Topology, ghost was: Topology, ghost readings: nat)
    requires TaskOf(tasks, cluster, task) && task.m_tasksSet != {}
    requires node.m_hostName in cluster && cluster[node.m_hostName] == node
    requires node.m_hostName in was && task.m_app.name in was[node.m_hostName]
    modifies task, node
    ensures TaskOf(tasks, cluster, task)
    ensures var a, h := task.m_app.name, node.m_hostName;
            Snapshot(tasks, cluster, Record(topology, h, a, was[h][a]), readings)
            == KeepOne(old(Snapshot(tasks, cluster, topology, readings)), a, h, was)
  {
    ghost var a, h := task.m_app.name, node.m_hostName;
    ghost var nodes, states := NodesOf(cluster), TasksOf(tasks);
    hide KeepOne, TaskOf, NodesOf, TasksOf, EraseFirst;
    TaskAndNode(tasks, cluster, task, node);
    UnmatchHost(tasks, cluster, task, node.m_hostName);
    TakeReplica(tasks, cluster, task, node);
    UpdateTwice(states, a, states[a].(matched := states[a].matched - {h}), TasksOf(tasks)[a]);
    KeepOneParts(State(nodes, states, topology, readings), a, h, was, TasksOf(tasks));
  }

  lemma KeepOneParts(st: State, a: App, h: Host, was: Topology, states: map<App, TaskState>)
    requires a in st.tasks && h in st.nodes && st.tasks[a].pool != {} && h in was && a in was[h]
    requires states == st.tasks[a := TaskState(st.tasks[a].request, st.tasks[a].matched - {h}, EraseFirst(st.tasks[a].pool))]
    ensures KeepOne(st, a, h, was)
            == State(st.nodes[h := st.nodes[h].Assign(a, st.tasks[a].request)], states, Record(st.topology, h, a, was[h][a]), st.readings)
  {
    assert KeepOne(st, a, h, was).tasks == states;
  }

  lemma KeepHostsDone(st: State, a: App, hosts: seq<Host>, was: Topology)
    requires a in st.tasks && st.tasks[a].matched <= st.nodes.Keys && hosts == []
    ensures KeepHosts(st, a, hosts, was) == st
  {
  }

  lemma KeepHostsAt(st: State, a: App, hosts: seq<Host>, i: nat, was: Topology)
    requires a in st.tasks && st.tasks[a].matched <= st.nodes.Keys && i < |hosts|
    requires forall h :: h in hosts ==> h in was
    ensures KeepHosts(st, a, hosts[i..], was)
            == if hosts[i] in st.tasks[a].matched && a in was[hosts[i]] then
                 if st.tasks[a].pool == {} then st
                 else KeepHosts(KeepOne(st, a, hosts[i], was), a, hosts[i + 1..], was)
               else KeepHosts(st, a, hosts[i + 1..], was)
  {
    assert hosts[i..][0] == hosts[i] && hosts[i..][1..] == hosts[i + 1..];
  }

  /** One old host: the task keeps a replica there if it ran there and still matches. `over` is set when it has
      none left to keep. */
  method KeepHost(tasks: map<string, ConsulTask>, ghost cluster: map<string, ConsulNode>, task: ConsulTask, h: string,
                  oldTopology: Topology, topology: Topology, ghost st: State)
    returns (newTopology: Topology, over: bool, ghost r: State)
    requires TaskOf(tasks, cluster, task) && h in oldTopology
    requires st == Snapshot(tasks, cluster, topology, st.readings)
    modifies task, cluster.Values
    ensures TaskOf(tasks, cluster, task) && st.Linked() && r.Linked() && r.tasks.Keys == st.tasks.Keys && r.readings == st.readings
    ensures r == Snapshot(tasks, cluster, newTopology, st.readings)
    ensures var a := task.m_app.name;
            var stays := h in st.tasks[a].matched && a in oldTopology[h];
            && (over <==> stays && st.tasks[a].pool == {})
            && r == if stays && !over then KeepOne(st, a, h, oldTopology) else st
  {
    var a := task.m_app.name;
    newTopology, over := topology, false;
    SnapshotLinked(tasks, cluster, topology, st.readings);
    if h in task.m_matchedHosts && a in oldTopology[h] {
      var node := task.m_matchedHosts[h];
      assert h in cluster && node == cluster[h] && node.m_hostName == h by {
        assert SharedHosts(tasks[a], cluster);
      }
      if task.m_tasksSet == {} {
        r, over := st, true;
        return;
      }
      KeepReplica(tasks, cluster, task, node, newTopology, oldTopology, st.readings);
      newTopology := Record(newTopology, h, a, oldTopology[h][a]);
    }
    r := Snapshot(tasks, cluster, newTopology, st.readings);
    SnapshotLinked(tasks, cluster, newTopology, st.readings);
  }

  /** The inner loop of the first phase. */
  method KeepRunning(tasks: map<string, ConsulTask>, ghost cluster: map<string, ConsulNode>, task: ConsulTask,
                     oldTopology: Topology, topology: Topology, ghost st: State)
    returns (newTopology: Topology, ghost r: State)
    requires TaskOf(tasks, cluster, task) && st.Linked() && task.m_app.name in st.tasks
    requires st == Snapshot(tasks, cluster, topology, st.readings)
    modifies task, cluster.Values
    ensures TaskOf(tasks, cluster, task) && r == Snapshot(tasks, cluster, newTopology, st.readings)
    ensures r == KeepHosts(st, task.m_app.name, InOrder(oldTopology.Keys), oldTopology)
  {
    hide KeepHosts, KeepOne, Snapshot, TaskOf;
    newTopology, r := topology, st;
    ghost var a := task.m_app.name;
    var hosts := InOrder(oldTopology.Keys);
    var i, over := 0, false;
    while i < |hosts| && !over
      invariant 0 <= i <= |hosts|
      invariant TaskOf(tasks, cluster, task)
      invariant r == Snapshot(tasks, cluster, newTopology, r.readings) && r.readings == st.readings && r.Linked() && a in r.tasks
      invariant KeepHosts(st, a, hosts, oldTopology) == if over then r else KeepHosts(r, a, hosts[i..], oldTopology)
    {
      KeepHostsAt(r, a, hosts, i, oldTopology);
      newTopology, over, r := KeepHost(tasks, cluster, task, hosts[i], oldTopology, newTopology, r);
      i := i + 1;
    }
    if !over { KeepHostsDone(r, a, hosts[i..], oldTopology); }
  }

  /* The host sort. */

  /** The comparator handed to the sort. */
  predicate Before(left: ConsulNode, right: ConsulNode)
    reads left, right
    ensures Before(left, right) <==> LoadLess(left.State(), right.State())
  {
    if |left.m_assignedApps| < |right.m_assignedApps| then
      true
    else if |left.m_assignedApps| == |right.m_assignedApps| then
      left.m_occupyMemoryBytes < right.m_occupyMemoryBytes
    else
      false
  }

  ghost predicate SortedByLoad(nodes: seq<ConsulNode>)
    reads nodes
  {
    forall i, j :: 0 <= i < j < |nodes| ==> !Before(nodes[j], nodes[i])
  }

  /** Where a node belongs among sorted ones: behind all that it does not precede. */
  method PlaceOf(sorted: seq<ConsulNode>, node: ConsulNode) returns (k: nat)
    requires SortedByLoad(sorted)
    ensures k <= |sorted|
    ensures forall j :: 0 <= j < k ==> !Before(node, sorted[j])
    ensures forall j :: k <= j < |sorted| ==> !Before(sorted[j], node)
  {
    k := 0;
    while k < |sorted| && !Before(node, sorted[k])
      invariant 0 <= k <= |sorted|
      invariant forall j :: 0 <= j < k ==> !Before(node, sorted[j])
    {
      k := k + 1;
    }
    if k < |sorted| { RestNotBefore(sorted, node, k); }
  }

  lemma RestNotBefore(sorted: seq<ConsulNode>, node: ConsulNode, k: nat)
    requires SortedByLoad(sorted) && k < |sorted| && Before(node, sorted[k])
    ensures forall j :: k <= j < |sorted| ==> !Before(sorted[j], node)
  {
    forall j | k <= j < |sorted| ensures !Before(sorted[j], node) {
      assert j > k ==> !Before(sorted[j], sorted[k]);
    }
  }

  lemma InsertSorted(sorted: seq<ConsulNode>, node: ConsulNode, k: nat)
    requires SortedByLoad(sorted) && k <= |sorted|
    requires forall j :: 0 <= j < k ==> !Before(node, sorted[j])
    requires forall j :: k <= j < |sorted| ==> !Before(sorted[j], node)
    ensures SortedByLoad(sorted[..k] + [node] + sorted[k..])
  {
    hide Before;
    var r := sorted[..k] + [node] + sorted[k..];
    forall i, j | 0 <= i < j < |r| ensures !Before(r[j], r[i]) {
      var (x, y) := (if i <= k then i else i - 1, if j <= k then j else j - 1);
      assert (i == k || r[i] == sorted[x]) && (j == k || r[j] == sorted[y]);
    }
  }

  lemma InsertOne(sorted: seq<ConsulNode>, node: ConsulNode, k: nat)
    requires k <= |sorted|
    ensures multiset(sorted[..k] + [node] + sorted[k..]) == multiset(sorted) + multiset{node}
  {
    assert sorted == sorted[..k] + sorted[k..];
  }

  /** Stands for the library sort, of which only this contract is used: ties may come out in any order. */
  method SortByLoad(nodes: seq<ConsulNode>) returns (sorted: seq<ConsulNode>)
    ensures SortedByLoad(sorted) && multiset(sorted) == multiset(nodes)
    ensures forall i, j :: 0 <= i < j < |sorted| ==>
      |sorted[i].m_assignedApps| <= |sorted[j].m_assignedApps|
      && (|sorted[i].m_assignedApps| == |sorted[j].m_assignedApps| ==>
            sorted[i].m_occupyMemoryBytes <= sorted[j].m_occupyMemoryBytes)
  {
    hide SortedByLoad, Before;
    sorted := [];
    NoneSorted();
    for i := 0 to |nodes|
      invariant SortedByLoad(sorted) && multiset(sorted) == multiset(nodes[..i])
    {
      var k := PlaceOf(sorted, nodes[i]);
      InsertSorted(sorted, nodes[i], k);
      InsertOne(sorted, nodes[i], k);
      TakeOneMore(nodes, i);
      sorted := sorted[..k] + [nodes[i]] + sorted[k..];
    }
    TakeAll(nodes);
    LightestFirst(sorted);
  }

  lemma LightestFirst(nodes: seq<ConsulNode>)
    requires SortedByLoad(nodes)
    ensures forall i, j :: 0 <= i < j < |nodes| ==>
      |nodes[i].m_assignedApps| <= |nodes[j].m_assignedApps|
      && (|nodes[i].m_assignedApps| == |nodes[j].m_assignedApps| ==>
            nodes[i].m_occupyMemoryBytes <= nodes[j].m_occupyMemoryBytes)
  {
    hide LoadLess;
    assert forall i, j :: 0 <= i < j < |nodes| ==> !Before(nodes[j], nodes[i]);
  }

  lemma NoneSorted()
    ensures SortedByLoad([])
  {
  }

  ghost function Names(nodes: seq<ConsulNode>): (r: seq<Host>)
    ensures |r| == |nodes| && forall i :: 0 <= i < |r| ==> r[i] == nodes[i].m_hostName
  {
    seq(|nodes|, i requires 0 <= i < |nodes| => nodes[i].m_hostName)
  }

  /** `std::transform` into a vector: the matched nodes in host order. */
  method MatchedNodes(task: ConsulTask) returns (nodes: seq<ConsulNode>)
    ensures NodesInOrder(task, nodes)
  {
    nodes := [];
    var hosts := InOrder(task.m_matchedHosts.Keys);
    for i := 0 to |hosts|
      invariant |nodes| == i
      invariant forall j :: 0 <= j < i ==> hosts[j] in task.m_matchedHosts && nodes[j] == task.m_matchedHosts[hosts[j]]
    {
      assert hosts[i] in hosts;
      nodes := nodes + [task.m_matchedHosts[hosts[i]]];
    }
  }

  ghost predicate DistinctNodes(nodes: seq<ConsulNode>) {
    forall i, j :: 0 <= i < j < |nodes| ==> nodes[i] != nodes[j]
  }

  lemma {:induction false} AtMostOnce(nodes: seq<ConsulNode>, n: ConsulNode)
    requires DistinctNodes(nodes)
    ensures multiset(nodes)[n] <= 1
    decreases |nodes|
  {
    if nodes != [] {
      assert nodes == [nodes[0]] + nodes[1..];
      AtMostOnce(nodes[1..], n);
      assert nodes[0] !in nodes[1..];
    }
  }

  lemma PermutationDistinct(nodes: seq<ConsulNode>, sorted: seq<ConsulNode>)
    requires DistinctNodes(nodes) && multiset(sorted) == multiset(nodes)
    ensures DistinctNodes(sorted)
  {
    forall i, j | 0 <= i < j < |sorted| ensures sorted[i] != sorted[j] {
      AtMostOnce(nodes, sorted[j]);
      assert sorted == sorted[..j] + [sorted[j]] + sorted[j + 1..];
      assert multiset(sorted[..j])[sorted[j]] == 0;
      assert sorted[i] == sorted[..j][i] && sorted[i] in multiset(sorted[..j]);
    }
  }

  /** `nodes` are the matched nodes in host order. */
  ghost predicate NodesInOrder(task: ConsulTask, nodes: seq<ConsulNode>)
    reads task
  {
    && |nodes| == |task.m_matchedHosts|
    && (forall i :: 0 <= i < |nodes| ==>
          InOrder(task.m_matchedHosts.Keys)[i] in task.m_matchedHosts
          && nodes[i] == task.m_matchedHosts[InOrder(task.m_matchedHosts.Keys)[i]])
  }

  /** Sorting keeps the nodes: they are the cluster's, one for each matched host. */
  lemma SortedNodes(cluster: map<string, ConsulNode>, task: ConsulTask, nodes: seq<ConsulNode>, sorted: seq<ConsulNode>)
    requires SharedHosts(task, cluster) && NodesInOrder(task, nodes) && multiset(sorted) == multiset(nodes)
    requires forall h :: h in cluster ==> cluster[h].m_hostName == h
    ensures DistinctNodes(sorted)
    ensures forall n :: n in sorted ==> n.m_hostName in task.m_matchedHosts && n.m_hostName in cluster && cluster[n.m_hostName] == n
    ensures forall h :: h in task.m_matchedHosts ==> cluster[h] in sorted
  {
    var hosts := InOrder(task.m_matchedHosts.Keys);
    assert forall i :: 0 <= i < |nodes| ==> nodes[i].m_hostName == hosts[i];
    forall i, j | 0 <= i < j < |nodes| ensures nodes[i] != nodes[j] { AscendingDistinct(hosts, i, j); }
    PermutationDistinct(nodes, sorted);
    forall n ensures n in sorted <==> n in nodes { assert n in multiset(sorted) <==> n in multiset(nodes); }
    forall n | n in sorted ensures n.m_hostName in task.m_matchedHosts && cluster[n.m_hostName] == n {
      var i :| 0 <= i < |nodes| && nodes[i] == n;
    }
    forall h | h in task.m_matchedHosts ensures cluster[h] in sorted {
      var i :| 0 <= i < |hosts| && hosts[i] == h;
      assert nodes[i] in nodes;
    }
  }

  /** The sorted vector is a possible host order of the model. */
  lemma SortedIsHostOrder(tasks: map<string, ConsulTask>, cluster: map<string, ConsulNode>, task: ConsulTask,
                          topology: Topology, readings: nat, sorted: seq<ConsulNode>)
    requires TaskOf(tasks, cluster, task)
    requires SortedByLoad(sorted) && DistinctNodes(sorted)
    requires forall n :: n in sorted ==> n.m_hostName in task.m_matchedHosts && n.m_hostName in cluster && cluster[n.m_hostName] == n
    requires forall h :: h in task.m_matchedHosts ==> h in cluster && cluster[h] in sorted
    ensures var st := Snapshot(tasks, cluster, topology, readings);
            && st.Linked() && task.m_app.name in st.tasks
            && HostOrder(st, task.m_app.name, Names(sorted))
  {
    SnapshotLinked(tasks, cluster, topology, readings);
    hide InOrder;
    var names := Names(sorted);
    forall h ensures h in names <==> h in task.m_matchedHosts {
      if h in task.m_matchedHosts {
        var k :| 0 <= k < |sorted| && sorted[k] == cluster[h];
        assert names[k] == h;
      }
    }
    forall i, j | 0 <= i < j < |sorted| ensures names[i] != names[j] {
      assert sorted[i] in sorted && sorted[j] in sorted;
    }
    forall i, j | 0 <= i < j < |sorted|
      ensures !LoadLess(NodesOf(cluster)[names[j]], NodesOf(cluster)[names[i]])
    {
      assert sorted[i] in sorted && sorted[j] in sorted && !Before(sorted[j], sorted[i]);
    }
  }

  /* The second phase. */

  /** A new replica of the task on `node`, at the time the clock shows. */
  method PlaceReplica(tasks: map<string, ConsulTask>, ghost cluster: map<string, ConsulNode>, task: ConsulTask,
                      node: ConsulNode, topology: Topology, clock: seq<Time>, readings: nat, ghost st: State)
    returns (newTopology: Topology, ghost r: State)
    requires TaskOf(tasks, cluster, task) && task.m_tasksSet != {}
    requires node.m_hostName in cluster && cluster[node.m_hostName] == node
    requires st == Snapshot(tasks, cluster, topology, readings)
    modifies task, node
    ensures TaskOf(tasks, cluster, task)
    ensures task.m_app.name in st.tasks && node.m_hostName in st.nodes && st.tasks[task.m_app.name].pool != {}
    ensures r == PlaceNow(st, task.m_app.name, node.m_hostName, clock)
    ensures r == Snapshot(tasks, cluster, newTopology, readings + 1)
  {
    ghost var a, h := task.m_app.name, node.m_hostName;
    hide TaskOf, NodesOf, TasksOf;
    TaskAndNode(tasks, cluster, task, node);
    newTopology := Record(topology, node.m_hostName, task.m_app.name, Now(clock, readings));
    TakeReplica(tasks, cluster, task, node);
    r := PlaceNow(st, a, h, clock);
    assert r.tasks == TasksOf(tasks);
  }

  /** `!full() && tryAssignApp(task)` */
  method TryHost(tasks: map<string, ConsulTask>, ghost cluster: map<string, ConsulNode>, task: ConsulTask, node: ConsulNode,
                 ghost topology: Topology, ghost readings: nat)
    returns (accepted: bool)
    requires TaskOf(tasks, cluster, task)
    requires node.m_hostName in cluster && cluster[node.m_hostName] == node
    ensures accepted == Accepts(Snapshot(tasks, cluster, topology, readings), task.m_app.name, node.m_hostName)
  {
    TaskAndNode(tasks, cluster, task, node);
    accepted := !node.Full();
    if accepted {
      accepted := node.TryAssignApp(task);
    }
  }

  lemma FillAt(st: State, a: App, order: seq<Host>, clock: seq<Time>)
    requires a in st.tasks && forall h :: h in order ==> h in st.nodes
    ensures Fill(st, a, order, clock)
            == if order == [] || st.tasks[a].pool == {} then st
               else if Accepts(st, a, order[0]) then Fill(PlaceNow(st, a, order[0], clock), a, order[1..], clock)
               else Fill(st, a, order[1..], clock)
  {
  }

  lemma TaskPool(tasks: map<string, ConsulTask>, cluster: map<string, ConsulNode>, task: ConsulTask, topology: Topology, readings: nat)
    requires TaskOf(tasks, cluster, task)
    ensures var st := Snapshot(tasks, cluster, topology, readings);
            task.m_app.name in st.tasks && st.tasks[task.m_app.name].pool == task.m_tasksSet
  {
  }

  /** The inner loop of the second phase: the head of the vector is popped and tried until the replicas or the
      hosts run out. */
  method FillHosts(tasks: map<string, ConsulTask>, ghost cluster: map<string, ConsulNode>, task: ConsulTask,
                   sorted: seq<ConsulNode>, topology: Topology, clock: seq<Time>, readings: nat, ghost st: State)
    returns (newTopology: Topology, newReadings: nat, ghost r: State)
    requires TaskOf(tasks, cluster, task) && task.m_app.name in st.tasks
    requires forall n :: n in sorted ==> n.m_hostName in cluster && cluster[n.m_hostName] == n && n.m_hostName in st.nodes
    requires forall h :: h in Names(sorted) ==> h in st.nodes
    requires st == Snapshot(tasks, cluster, topology, readings)
    modifies task, cluster.Values
    ensures TaskOf(tasks, cluster, task)
    ensures r == Snapshot(tasks, cluster, newTopology, newReadings)
    ensures r == Fill(st, task.m_app.name, Names(sorted), clock)
  {
    hide Fill, PlaceNow, Accepts, TaskOf, Snapshot;
    newTopology, newReadings, r := topology, readings, st;
    ghost var a := task.m_app.name;
    var vec := sorted;
    while task.m_tasksSet != {} && |vec| > 0
      invariant forall n :: n in vec ==> n in sorted
      invariant TaskOf(tasks, cluster, task) && r.nodes.Keys == st.nodes.Keys && a in r.tasks
      invariant r == Snapshot(tasks, cluster, newTopology, newReadings)
      invariant forall h :: h in Names(vec) ==> h in st.nodes
      invariant Fill(r, a, Names(vec), clock) == Fill(st, a, Names(sorted), clock)
      decreases |vec|
    {
      var selectedNode := vec[0];
      TaskPool(tasks, cluster, task, newTopology, newReadings);
      FillAt(r, a, Names(vec), clock);
      assert Names(vec)[1..] == Names(vec[1..]);
      vec := vec[1..];
      var accepted := TryHost(tasks, cluster, task, selectedNode, newTopology, newReadings);
      if accepted {
        newTopology, r := PlaceReplica(tasks, cluster, task, selectedNode, newTopology, clock, newReadings, r);
        newReadings := newReadings + 1;
      }
    }
    TaskPool(tasks, cluster, task, newTopology, newReadings);
    FillAt(r, a, Names(vec), clock);
  }

  /* The whole of `scheduleTask`. */

  lemma TaskNamed(tasks: map<string, ConsulTask>, cluster: map<string, ConsulNode>, a: App)
    requires Shared(tasks, cluster) && a in tasks
    ensures TaskOf(tasks, cluster, tasks[a]) && tasks[a].m_app.name == a
  {
  }

  lemma KeepAllAt(st: State, apps: seq<App>, i: nat, was: Topology)
    requires st.Linked() && i < |apps| && forall a :: a in apps ==> a in st.tasks
    ensures KeepAll(st, apps[i..], was) == KeepAll(KeepTask(st, apps[i], was), apps[i + 1..], was)
  {
    assert apps[i..][0] == apps[i] && apps[i..][1..] == apps[i + 1..];
  }

  lemma NamesAreKeys(keys: set<string>)
    ensures forall i :: 0 <= i < |InOrder(keys)| ==> InOrder(keys)[i] in keys
  {
    hide InOrder;
    forall i | 0 <= i < |InOrder(keys)| ensures InOrder(keys)[i] in keys { assert InOrder(keys)[i] in InOrder(keys); }
  }

  /** First loop over the tasks. */
  method KeepPhase(tasks: map<string, ConsulTask>, ghost cluster: map<string, ConsulNode>, oldTopology: Topology, ghost st: State)
    returns (newTopology: Topology, ghost r: State)
    requires Shared(tasks, cluster) && st.Linked() && st.tasks.Keys == tasks.Keys
    requires st == Snapshot(tasks, cluster, map[], st.readings)
    modifies tasks.Values, cluster.Values
    ensures Shared(tasks, cluster) && r == Snapshot(tasks, cluster, newTopology, st.readings)
    ensures r == Kept(st, oldTopology)
  {
    hide KeepAll, KeepTask, KeepHosts, Snapshot, Shared, TaskOf, InOrder;
    newTopology, r := map[], st;
    var names := InOrder(tasks.Keys);
    NamesAreKeys(tasks.Keys);
    for i := 0 to |names|
      invariant Shared(tasks, cluster) && r.Linked() && r.tasks.Keys == tasks.Keys && r.readings == st.readings
      invariant r == Snapshot(tasks, cluster, newTopology, r.readings)
      invariant KeepAll(r, names[i..], oldTopology) == KeepAll(st, names, oldTopology)
    {
      var task := tasks[names[i]];
      TaskNamed(tasks, cluster, names[i]);
      KeepAllAt(r, names, i, oldTopology);
      newTopology, r := KeepOneTask(tasks, cluster, task, oldTopology, newTopology, r);
    }
    TakeAll(names);
    KeepAllNone(r, names[|names|..], oldTopology);
  }

  lemma KeepAllNone(st: State, apps: seq<App>, was: Topology)
    requires st.Linked() && apps == []
    ensures KeepAll(st, apps, was) == st
  {
  }

  method KeepOneTask(tasks: map<string, ConsulTask>, ghost cluster: map<string, ConsulNode>, task: ConsulTask,
                     oldTopology: Topology, topology: Topology, ghost st: State)
    returns (newTopology: Topology, ghost r: State)
    requires TaskOf(tasks, cluster, task) && st.Linked() && task.m_app.name in st.tasks
    requires st == Snapshot(tasks, cluster, topology, st.readings)
    modifies task, cluster.Values
    ensures Shared(tasks, cluster) && r == Snapshot(tasks, cluster, newTopology, r.readings) && r.readings == st.readings
    ensures r == KeepTask(st, task.m_app.name, oldTopology)
  {
    hide KeepHosts;
    newTopology, r := topology, st;
    if task.m_tasksSet == {} {
      return;
    }
    newTopology, r := KeepRunning(tasks, cluster, task, oldTopology, topology, st);
  }

  /** One task of the second loop. */
  method FillOneTask(tasks: map<string, ConsulTask>, ghost cluster: map<string, ConsulNode>, task: ConsulTask,
                     topology: Topology, clock: seq<Time>, readings: nat, ghost st: State)
    returns (newTopology: Topology, newReadings: nat, ghost order: seq<Host>, ghost r: State)
    requires TaskOf(tasks, cluster, task) && st.Linked() && task.m_app.name in st.tasks
    requires st == Snapshot(tasks, cluster, topology, readings)
    modifies task, cluster.Values
    ensures Shared(tasks, cluster) && r == Snapshot(tasks, cluster, newTopology, newReadings)
    ensures FillOrder(st, task.m_app.name, order) && r == FillTask(st, task.m_app.name, order, clock)
  {
    hide Fill;
    newTopology, newReadings, order, r := topology, readings, [], st;
    if task.m_tasksSet == {} {
      return;
    }
    var nodes := MatchedNodes(task);
    var sorted := SortByLoad(nodes);
    assert SharedHosts(task, cluster);
    SortedNodes(cluster, task, nodes, sorted);
    SortedIsHostOrder(tasks, cluster, task, topology, readings, sorted);
    order := Names(sorted);
    newTopology, newReadings, r := FillHosts(tasks, cluster, task, sorted, topology, clock, readings, st);
  }

  lemma {:induction false} FillAllSnoc(st: State, apps: seq<App>, orders: seq<seq<Host>>, clock: seq<Time>, a: App, order: seq<Host>)
    requires st.Linked() && (forall b :: b in apps ==> b in st.tasks) && a in st.tasks
    requires FillOrders(st, apps, orders, clock) && FillOrder(FillAll(st, apps, orders, clock), a, order)
    ensures FillOrders(st, apps + [a], orders + [order], clock)
    ensures FillAll(st, apps + [a], orders + [order], clock) == FillTask(FillAll(st, apps, orders, clock), a, order, clock)
    decreases |apps|
  {
    hide FillTask, FillOrder;
    if apps == [] {
      assert (apps + [a])[1..] == [] && (orders + [order])[1..] == [];
      assert FillOrders(FillTask(st, a, order, clock), [], [], clock);
    } else {
      var s := FillTask(st, apps[0], orders[0], clock);
      FillAllSnoc(s, apps[1..], orders[1..], clock, a, order);
      assert (apps + [a])[1..] == apps[1..] + [a] && (orders + [order])[1..] == orders[1..] + [order];
    }
  }

  /** Second loop over the tasks. */
  method FillPhase(tasks: map<string, ConsulTask>, ghost cluster: map<string, ConsulNode>, topology: Topology,
                   clock: seq<Time>, readings: nat, ghost st: State)
    returns (newTopology: Topology, newReadings: nat, ghost orders: seq<seq<Host>>, ghost r: State)
    requires Shared(tasks, cluster) && st.Linked() && st.tasks.Keys == tasks.Keys
    requires st == Snapshot(tasks, cluster, topology, readings)
    modifies tasks.Values, cluster.Values
    ensures Shared(tasks, cluster) && r == Snapshot(tasks, cluster, newTopology, newReadings)
    ensures FillOrders(st, InOrder(tasks.Keys), orders, clock) && r == FillAll(st, InOrder(tasks.Keys), orders, clock)
  {
    hide FillAll, FillOrders, FillTask, FillOrder, Snapshot, Shared, TaskOf;
    newTopology, newReadings, orders, r := topology, readings, [], st;
    var names := InOrder(tasks.Keys);
    FillAllNone(st, names[..0], clock);
    for i := 0 to |names|
      invariant Shared(tasks, cluster) && r.Linked() && r.tasks.Keys == tasks.Keys
      invariant forall a :: a in names[..i] ==> a in st.tasks
      invariant r == Snapshot(tasks, cluster, newTopology, newReadings)
      invariant FillOrders(st, names[..i], orders, clock) && r == FillAll(st, names[..i], orders, clock)
    {
      var task := tasks[names[i]];
      TaskNamed(tasks, cluster, names[i]);
      ghost var order;
      newTopology, newReadings, order, r := FillOneTask(tasks, cluster, task, newTopology, clock, newReadings, r);
      FillAllSnoc(st, names[..i], orders, clock, names[i], order);
      TakeOneMore(names, i);
      orders := orders + [order];
    }
    TakeAll(names);
  }

  lemma FillAllNone(st: State, apps: seq<App>, clock: seq<Time>)
    requires st.Linked() && apps == []
    ensures FillOrders(st, apps, [], clock) && FillAll(st, apps, [], clock) == st
  {
  }

  /** `Scheduler::scheduleTask`: the new topology, and the final state of the shared nodes and of the tasks, are a
      schedule of the model for some outcome of the sorts. */
  method ScheduleTask(taskMap: map<string, ConsulTask>, oldTopology: Topology, ghost cluster: map<string, ConsulNode>,
                      clock: seq<Time>)
    returns (newTopology: Topology, ghost orders: seq<seq<Host>>, ghost r: State)
    requires Shared(taskMap, cluster)
    modifies taskMap.Values, cluster.Values
    ensures Shared(taskMap, cluster)
    ensures var st := old(Snapshot(taskMap, cluster, map[], 0));
            && st.Linked() && ScheduleOrders(st, oldTopology, orders, clock)
            && r == Schedule(st, oldTopology, orders, clock)
    ensures r == Snapshot(taskMap, cluster, newTopology, r.readings) && r.topology == newTopology
  {
    ghost var st := Snapshot(taskMap, cluster, map[], 0);
    SnapshotLinked(taskMap, cluster, map[], 0);
    hide FillAll, FillOrders, KeepAll;
    var readings;
    newTopology, r := KeepPhase(taskMap, cluster, oldTopology, st);
    newTopology, readings, orders, r := FillPhase(taskMap, cluster, newTopology, clock, 0, r);
  }
}
