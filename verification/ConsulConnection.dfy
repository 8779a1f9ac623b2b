/** The leader's side of the Consul connection: matching tasks to hosts, dispatching a new topology, and one pass of
    the schedule timer, over a key-value store that stands for the server. */
module ConsulConnection {
  import opened Results
  import opened OrderedKeys
  import opened SchedulerModel
  import opened SchedulerTheorems
  import opened Labels
  import opened ConsulEntity
  import opened ControlLoop
  import opened Scheduler

  /* Matching */

  /** Those of `done` that `findTaskAvailableHost` puts into a task's match list. */
  ghost function AvailableAmong(done: set<string>, hosts: map<string, ConsulNode>, condition: Label): map<string, ConsulNode>
    reads hosts.Values
  {
    map h | h in hosts && h in done && Satisfies(hosts[h].m_label, condition) && !hosts[h].Full() :: hosts[h]
  }

  lemma AvailableOneMore(done: set<string>, hosts: map<string, ConsulNode>, condition: Label, h: string)
    requires h in hosts && h !in done
    ensures AvailableAmong(done + {h}, hosts, condition)
            == if Satisfies(hosts[h].m_label, condition) && !hosts[h].Full()
               then AvailableAmong(done, hosts, condition)[h := hosts[h]] else AvailableAmong(done, hosts, condition)
  {
  }

  lemma AvailableNone(hosts: map<string, ConsulNode>, condition: Label)
    ensures AvailableAmong({}, hosts, condition) == map[]
  {
  }

  method FindHostsOfTask(task: ConsulTask, hosts: map<string, ConsulNode>)
    modifies task
    ensures task.m_tasksSet == old(task.m_tasksSet)
    ensures task.m_matchedHosts == AvailableAmong(hosts.Keys, hosts, task.m_condition)
  {
    hide InOrder, Satisfies, AvailableAmong, Visited;
    task.m_matchedHosts := map[];
    var names := InOrder(hosts.Keys);
    VisitedAll(hosts.Keys);
    AvailableNone(hosts, task.m_condition);
    for i := 0 to |names|
      invariant task.m_tasksSet == old(task.m_tasksSet)
      invariant task.m_matchedHosts == AvailableAmong(Visited(names, i), hosts, task.m_condition)
    {
      var name := names[i];
      assert name in names;
      var host := hosts[name];
      VisitedNext(names, i);
      AvailableOneMore(Visited(names, i), hosts, task.m_condition, name);
      var matched := MatchLabel(host.m_label, Some(task.m_condition));
      if matched && !host.Full() {
        task.m_matchedHosts := task.m_matchedHosts[name := host];
      }
    }
  }

  method FindTaskAvailableHost(taskMap: map<string, ConsulTask>, hosts: map<string, ConsulNode>)
    requires forall a :: a in taskMap ==> taskMap[a].m_app.name == a
    modifies taskMap.Values
    ensures forall a :: a in taskMap ==>
              && taskMap[a].m_tasksSet == old(taskMap[a].m_tasksSet)
              && taskMap[a].m_matchedHosts == AvailableAmong(hosts.Keys, hosts, taskMap[a].m_condition)
  {
    hide InOrder, AvailableAmong, Visited;
    var names := InOrder(taskMap.Keys);
    VisitedAll(taskMap.Keys);
    for i := 0 to |names|
      invariant forall a :: a in taskMap ==> taskMap[a].m_tasksSet == old(taskMap[a].m_tasksSet)
      invariant forall a :: a in taskMap && a in Visited(names, i) ==>
                  taskMap[a].m_matchedHosts == AvailableAmong(hosts.Keys, hosts, taskMap[a].m_condition)
    {
      assert names[i] in names;
      VisitedNext(names, i);
      FindHostsOfTask(taskMap[names[i]], hosts);
    }
  }

  /* Reading the cluster */

  /** The node described by `info`, with nothing placed on it. */
  ghost predicate NodeOf(node: ConsulNode, h: Host, info: NodeInfo)
    reads node
  {
    node.m_hostName == h && node.m_label == info.lbl && node.State() == NodeState(info.totalBytes, 0, {})
  }

  ghost predicate NodesRead(hosts: map<string, ConsulNode>, nodes: map<Host, NodeInfo>, done: set<Host>)
    reads hosts.Values
  {
    && hosts.Keys == done
    && (forall h :: h in hosts ==> h in nodes && NodeOf(hosts[h], h, nodes[h]))
  }

  method RetrieveNode(nodes: map<Host, NodeInfo>) returns (hosts: map<string, ConsulNode>)
    ensures (forall h :: h in hosts ==> fresh(hosts[h])) && NodesRead(hosts, nodes, nodes.Keys)
  {
    hide InOrder, Visited;
    hosts := map[];
    var names := InOrder(nodes.Keys);
    VisitedAll(nodes.Keys);
    for i := 0 to |names|
      invariant (forall h :: h in hosts ==> fresh(hosts[h])) && NodesRead(hosts, nodes, Visited(names, i))
    {
      assert names[i] in names;
      VisitedNext(names, i);
      var node := new ConsulNode(names[i], nodes[names[i]].lbl, nodes[names[i]].totalBytes);
      hosts := hosts[names[i] := node];
    }
  }

  /** The task described by `info`, with all replicas to be placed. */
  ghost predicate TaskRead(task: ConsulTask, a: App, info: TaskInfo)
    reads task
  {
    && task.m_app.name == a && task.m_condition == info.condition && task.m_requestMemMega == Unsigned64(info.memoryMB)
    && task.m_tasksSet == Indices(info.replication)
  }

  ghost predicate TasksRead(taskMap: map<string, ConsulTask>, tasks: map<App, TaskInfo>, done: set<App>)
    reads taskMap.Values
  {
    && taskMap.Keys == done
    && (forall a :: a in taskMap ==> a in tasks && TaskRead(taskMap[a], a, tasks[a]))
  }

  method ReadTask(a: App, info: TaskInfo) returns (task: ConsulTask)
    ensures fresh(task) && TaskRead(task, a, info)
  {
    task := new ConsulTask(Application(a), info.condition, Unsigned64(info.memoryMB), info.replication);
  }

  lemma TasksReadMore(taskMap: map<string, ConsulTask>, tasks: map<App, TaskInfo>, done: set<App>, a: App, task: ConsulTask)
    requires TasksRead(taskMap, tasks, done) && a in tasks && TaskRead(task, a, tasks[a])
    ensures TasksRead(taskMap[a := task], tasks, done + {a})
  {
    hide TaskRead;
  }

  lemma ListedMore(names: seq<App>, i: nat, tasks: map<App, TaskInfo>)
    requires Ascending(names) && i < |names| && names[i] in tasks
    ensures names[i] in Listed(tasks) <==> names[i] != "" && tasks[names[i]].replication != 0
    ensures var listed := Listed(tasks).Keys;
      Visited(names, i + 1) * listed ==
        if names[i] in listed then Visited(names, i) * listed + {names[i]} else Visited(names, i) * listed
  {
    hide Visited;
    VisitedNext(names, i);
  }

  method RetrieveTask(tasks: map<App, TaskInfo>) returns (taskMap: map<string, ConsulTask>)
    ensures (forall a :: a in taskMap ==> fresh(taskMap[a])) && TasksRead(taskMap, tasks, Listed(tasks).Keys)
  {
    hide InOrder, Visited, Listed, TasksRead, TaskRead;
    taskMap := map[];
    var names := InOrder(tasks.Keys);
    VisitedAll(tasks.Keys);
    NoTasksRead(tasks);
    for i := 0 to |names|
      invariant (forall a :: a in taskMap ==> fresh(taskMap[a])) && TasksRead(taskMap, tasks, Visited(names, i) * Listed(tasks).Keys)
    {
      assert names[i] in names;
      ListedMore(names, i, tasks);
      var task := ReadTask(names[i], tasks[names[i]]);
      if names[i] != "" && tasks[names[i]].replication != 0 {
        TasksReadMore(taskMap, tasks, Visited(names, i) * Listed(tasks).Keys, names[i], task);
        taskMap := taskMap[names[i] := task];
      }
    }
    AllListed(tasks);
  }

  lemma NoTasksRead(tasks: map<App, TaskInfo>)
    ensures TasksRead(map[], tasks, {} * Listed(tasks).Keys)
  {
    hide Listed;
  }

  lemma AllListed(tasks: map<App, TaskInfo>)
    ensures tasks.Keys * Listed(tasks).Keys == Listed(tasks).Keys
  {
  }

  /** Fresh nodes, and fresh tasks matched to them, are the start of a schedule. */
  lemma ReadIsAtStart(c: Cluster, taskMap: map<string, ConsulTask>, hosts: map<string, ConsulNode>)
    requires NodesRead(hosts, c.nodes, c.nodes.Keys) && TasksRead(taskMap, c.tasks, Listed(c.tasks).Keys)
    requires forall a :: a in taskMap ==> taskMap[a].m_matchedHosts == AvailableAmong(hosts.Keys, hosts, taskMap[a].m_condition)
    ensures Shared(taskMap, hosts)
    ensures Snapshot(taskMap, hosts, map[], 0) == AtStart(c)
  {
    hide AtStart, AvailableAmong, NodesOf, TasksOf, Listed, NodeOf, TaskRead;
    NodesAtStart(c, hosts);
    TasksAtStart(c, taskMap, hosts);
    forall a | a in taskMap ensures SharedHosts(taskMap[a], hosts) && taskMap[a].m_app.name == a {
      TaskShares(c, taskMap, hosts, a);
    }
    StartIs(c);
  }

  lemma StartIs(c: Cluster)
    ensures AtStart(c).topology == map[] && AtStart(c).readings == 0
  {
  }

  lemma NodesAtStart(c: Cluster, hosts: map<string, ConsulNode>)
    requires NodesRead(hosts, c.nodes, c.nodes.Keys)
    ensures NodesOf(hosts) == AtStart(c).nodes
    ensures forall h :: h in hosts ==> hosts[h].m_hostName == h
  {
    forall h | h in hosts ensures NodesOf(hosts)[h] == NodeState(c.nodes[h].totalBytes, 0, {}) && hosts[h].m_hostName == h {
      assert NodeOf(hosts[h], h, c.nodes[h]);
    }
  }

  lemma TaskShares(c: Cluster, taskMap: map<string, ConsulTask>, hosts: map<string, ConsulNode>, a: App)
    requires TasksRead(taskMap, c.tasks, Listed(c.tasks).Keys) && a in taskMap
    requires taskMap[a].m_matchedHosts == AvailableAmong(hosts.Keys, hosts, taskMap[a].m_condition)
    ensures SharedHosts(taskMap[a], hosts) && taskMap[a].m_app.name == a
  {
    hide Satisfies, Listed, Indices;
    assert TaskRead(taskMap[a], a, c.tasks[a]);
  }

  lemma TasksAtStart(c: Cluster, taskMap: map<string, ConsulTask>, hosts: map<string, ConsulNode>)
    requires NodesRead(hosts, c.nodes, c.nodes.Keys) && TasksRead(taskMap, c.tasks, Listed(c.tasks).Keys)
    requires forall a :: a in taskMap ==> taskMap[a].m_matchedHosts == AvailableAmong(hosts.Keys, hosts, taskMap[a].m_condition)
    ensures TasksOf(taskMap) == AtStart(c).tasks
  {
    hide Satisfies, Indices, Listed;
    forall a | a in taskMap ensures TasksOf(taskMap)[a] == TaskAtStart(c, a) {
      assert TaskRead(taskMap[a], a, c.tasks[a]);
      forall h ensures h in taskMap[a].m_matchedHosts <==> h in Available(c, c.tasks[a].condition) {
        if h in hosts { assert NodeOf(hosts[h], h, c.nodes[h]); }
      }
    }
  }

  /** The tasks that were read find their hosts among the nodes that were read. */
  method MatchCluster(c: Cluster, taskMap: map<string, ConsulTask>, hosts: map<string, ConsulNode>)
    requires NodesRead(hosts, c.nodes, c.nodes.Keys) && TasksRead(taskMap, c.tasks, Listed(c.tasks).Keys)
    modifies taskMap.Values
    ensures Shared(taskMap, hosts) && Snapshot(taskMap, hosts, map[], 0) == AtStart(c)
  {
    hide Listed, AtStart, Shared, Snapshot, AvailableAmong, NodeOf;
    FindTaskAvailableHost(taskMap, hosts);
    ReadIsAtStart(c, taskMap, hosts);
  }

  /* The connection */

  class ConsulConnection {
    /** The server's topology keys. */
    var m_store: Store
    /** The hosts written, in order. */
    var m_writes: seq<Host>
    /** The hosts whose key the server accepts. */
    const m_accepted: set<Host>

    constructor (store: Store, accepted: set<Host>)
      ensures m_store == store && m_writes == [] && m_accepted == accepted
    {
      m_store, m_writes, m_accepted := store, [], accepted;
    }

    /** A missing topology is written as the empty object. */
    method WriteTopology(hostName: Host, topology: Option<map<App, Time>>) returns (ok: bool)
      modifies this
      ensures m_writes == old(m_writes) + [hostName] && ok == (hostName in m_accepted)
      ensures m_store == if ok then old(m_store)[hostName := Written(topology)] else old(m_store)
    {
      var body := EmptyObject;
      if topology.Some? && |topology.value| != 0 {
        body := AppArray(Stamped(topology.value));
      }
      m_writes := m_writes + [hostName];
      ok := hostName in m_accepted;
      if ok {
        m_store := m_store[hostName := body];
      }
    }

    /** Whether a host is to be written: the sizes are compared, then each new app is looked up in the old
        topology. */
    method Differs(oldApps: map<App, Time>, newApps: map<App, Time>) returns (differs: bool)
      ensures differs <==> oldApps.Keys != newApps.Keys
    {
      differs := false;
      if |newApps| == |oldApps| {
        var names := InOrder(newApps.Keys);
        for i := 0 to |names|
          invariant forall j :: 0 <= j < i ==> names[j] in oldApps
        {
          assert names[i] in names;
          if names[i] !in oldApps {
            return true;
          }
        }
        forall a | a in newApps ensures a in oldApps { assert a in names; }
        SubsetSameSize(newApps.Keys, oldApps.Keys);
      } else {
        differs := true;
        assert |newApps.Keys| != |oldApps.Keys|;
      }
    }

    method WriteChanged(oldT: Topology, newT: Topology)
      modifies this
      ensures var w := ToWrite(oldT, newT, InOrder(newT.Keys));
              m_store == old(m_store) + Bodies(Elements(w) * m_accepted, newT) && m_writes == old(m_writes) + w
    {
      hide InOrder, ToWrite, BodyFor;
      var names := InOrder(newT.Keys);
      TakeAll(names);
      NoneWritten(m_store, m_writes, oldT, newT, m_accepted);
      for i := 0 to |names|
        invariant m_store == old(m_store) + Bodies(Elements(ToWrite(oldT, newT, names[..i])) * m_accepted, newT)
        invariant m_writes == old(m_writes) + ToWrite(oldT, newT, names[..i])
      {
        var h := names[i];
        assert h in names;
        TakeOneMore(names, i);
        ToWriteSnoc(oldT, newT, names[..i], h);
        var write := true;
        if h in oldT {
          write := Differs(oldT[h], newT[h]);
        }
        if write {
          BodiesAdd(old(m_store), ToWrite(oldT, newT, names[..i]), newT, h, m_accepted);
          WrittenIsBody(newT, h);
          var _ := WriteTopology(h, Some(newT[h]));
          AppendAppend(old(m_writes), ToWrite(oldT, newT, names[..i]), [h]);
        }
      }
    }

    method WriteGone(oldT: Topology, newT: Topology)
      modifies this
      ensures var g := Gone(newT, InOrder(oldT.Keys));
              m_store == old(m_store) + Bodies(Elements(g) * m_accepted, newT) && m_writes == old(m_writes) + g
    {
      hide InOrder, Gone, BodyFor;
      var names := InOrder(oldT.Keys);
      TakeAll(names);
      NoneWritten(m_store, m_writes, oldT, newT, m_accepted);
      for i := 0 to |names|
        invariant m_store == old(m_store) + Bodies(Elements(Gone(newT, names[..i])) * m_accepted, newT)
        invariant m_writes == old(m_writes) + Gone(newT, names[..i])
      {
        TakeOneMore(names, i);
        GoneSnoc(newT, names[..i], names[i]);
        if names[i] !in newT {
          BodiesAdd(old(m_store), Gone(newT, names[..i]), newT, names[i], m_accepted);
          WrittenIsBody(newT, names[i]);
          var _ := WriteTopology(names[i], None);
          AppendAppend(old(m_writes), Gone(newT, names[..i]), [names[i]]);
        }
      }
    }

    /** Updates and additions, then deletions: exactly the hosts that differ are written, each once, in this
        order, with their new apps. */
    method CompareTopologyAndDispatch(oldT: Topology, newT: Topology)
      modifies this
      ensures m_store == Dispatched(old(m_store), oldT, newT, m_accepted)
      ensures m_writes == old(m_writes) + Writes(oldT, newT)
    {
      hide InOrder, ToWrite, Gone, Bodies, Elements;
      WriteChanged(oldT, newT);
      WriteGone(oldT, newT);
      AppendAppend(old(m_writes), ToWrite(oldT, newT, InOrder(newT.Keys)), Gone(newT, InOrder(oldT.Keys)));
      DispatchedInTwo(old(m_store), oldT, newT, m_accepted);
    }

    /** One turn of the schedule timer, as leader. */
    method DoSchedule(c: Cluster, clock: seq<Time>) returns (ghost orders: seq<seq<Host>>, ghost r: State)
      modifies this
      ensures c.nodes == map[] ==> m_store == old(m_store) && m_writes == old(m_writes)
      ensures c.nodes != map[] ==>
                && PassOf(c, old(m_store), orders, clock, r)
                && m_store == StoreAfter(c, old(m_store), r, m_accepted)
                && m_writes == old(m_writes) + Writes(Retrieve(old(m_store)), r.topology)
    {
      hide AtStart, Listed, Dispatched, Retrieve, Writes, Schedule, ScheduleOrders, Shared, Snapshot, TasksRead, NodeOf, Start;
      var taskList := RetrieveTask(c.tasks);
      var oldTopology := Retrieve(m_store);
      var nodes := RetrieveNode(c.nodes);
      if nodes == map[] {
        orders, r := [], AtStart(c);
        return;
      }
      MatchCluster(c, taskList, nodes);
      AtStartIsStart(c);
      var newTopology;
      newTopology, orders, r := ScheduleTask(taskList, oldTopology, nodes, clock);
      CompareTopologyAndDispatch(oldTopology, newTopology);
    }
  }

  lemma NoneWritten(store: Store, writes: seq<Host>, oldT: Topology, newT: Topology, accepted: set<Host>)
    ensures ToWrite(oldT, newT, []) == [] == Gone(newT, [])
    ensures store == store + Bodies(Elements([]) * accepted, newT) && writes == writes + []
  {
  }

  lemma WrittenIsBody(newT: Topology, h: Host)
    ensures BodyFor(newT, h) == Written(if h in newT then Some(newT[h]) else None)
  {
  }

  function Written(topology: Option<map<App, Time>>): Body {
    if topology.Some? && topology.value != map[] then AppArray(Stamped(topology.value)) else EmptyObject
  }

  /** The hosts of `names` to be updated or added. */
  function ToWrite(oldT: Topology, newT: Topology, names: seq<Host>): (r: seq<Host>)
    ensures forall h :: h in r <==> h in names && h in newT && (h in oldT ==> oldT[h].Keys != newT[h].Keys)
    decreases |names|
  {
    if names == [] then [] else
      var first := ToWrite(oldT, newT, names[..|names| - 1]);
      var h := names[|names| - 1];
      assert names == names[..|names| - 1] + [h];
      if h in newT && (h in oldT ==> oldT[h].Keys != newT[h].Keys) then first + [h] else first
  }

  /** The hosts of `names` to be deleted. */
  function Gone(newT: Topology, names: seq<Host>): (r: seq<Host>)
    ensures forall h :: h in r <==> h in names && h !in newT
    decreases |names|
  {
    if names == [] then [] else
      var first := Gone(newT, names[..|names| - 1]);
      var h := names[|names| - 1];
      assert names == names[..|names| - 1] + [h];
      if h !in newT then first + [h] else first
  }

  /** The hosts that a dispatch writes, in order. */
  function Writes(oldT: Topology, newT: Topology): seq<Host> {
    ToWrite(oldT, newT, InOrder(newT.Keys)) + Gone(newT, InOrder(oldT.Keys))
  }

  /** A dispatch writes exactly the hosts that differ, and so nothing when none does. */
  lemma WritesAreChanges(oldT: Topology, newT: Topology)
    ensures forall h :: h in Writes(oldT, newT) <==> h in Changed(oldT, newT)
    ensures Changed(oldT, newT) == {} ==> Writes(oldT, newT) == []
  {
    hide InOrder, ToWrite, Gone;
    forall h ensures h in Writes(oldT, newT) <==> h in Changed(oldT, newT) {}
    if Writes(oldT, newT) != [] {
      assert Writes(oldT, newT)[0] in Writes(oldT, newT);
    }
  }

  /** What is written for each of `hosts`. */
  ghost function Bodies(hosts: set<Host>, newT: Topology): map<Host, Body> {
    map h | h in hosts :: BodyFor(newT, h)
  }

  lemma ToWriteSnoc(oldT: Topology, newT: Topology, names: seq<Host>, h: Host)
    ensures ToWrite(oldT, newT, names + [h])
            == if h in newT && (h in oldT ==> oldT[h].Keys != newT[h].Keys) then ToWrite(oldT, newT, names) + [h]
               else ToWrite(oldT, newT, names)
  {
    assert (names + [h])[..|names|] == names;
  }

  lemma GoneSnoc(newT: Topology, names: seq<Host>, h: Host)
    ensures Gone(newT, names + [h]) == if h !in newT then Gone(newT, names) + [h] else Gone(newT, names)
  {
    assert (names + [h])[..|names|] == names;
  }

  lemma BodiesAdd(store: Store, hosts: seq<Host>, newT: Topology, h: Host, accepted: set<Host>)
    ensures store + Bodies(Elements(hosts + [h]) * accepted, newT)
            == if h in accepted then (store + Bodies(Elements(hosts) * accepted, newT))[h := BodyFor(newT, h)]
               else store + Bodies(Elements(hosts) * accepted, newT)
  {
    hide BodyFor;
    assert Elements(hosts + [h]) == Elements(hosts) + {h};
    var small, big := Elements(hosts) * accepted, Elements(hosts + [h]) * accepted;
    if h in accepted {
      assert big == small + {h};
      assert Bodies(big, newT) == Bodies(small, newT)[h := BodyFor(newT, h)];
    } else {
      assert big == small;
    }
  }

  lemma DispatchedInTwo(store: Store, oldT: Topology, newT: Topology, accepted: set<Host>)
    ensures var w, g := Elements(ToWrite(oldT, newT, InOrder(newT.Keys))), Elements(Gone(newT, InOrder(oldT.Keys)));
            store + Bodies(w * accepted, newT) + Bodies(g * accepted, newT) == Dispatched(store, oldT, newT, accepted)
  {
    hide InOrder, ToWrite, Gone, BodyFor, Changed, Elements;
    var w, g := Elements(ToWrite(oldT, newT, InOrder(newT.Keys))), Elements(Gone(newT, InOrder(oldT.Keys)));
    WriteSets(oldT, newT);
    TwoBodies(store, w * accepted, g * accepted, newT);
    assert w * accepted + g * accepted == Changed(oldT, newT) * accepted;
    assert Bodies(Changed(oldT, newT) * accepted, newT)
        == map h | h in Changed(oldT, newT) && h in accepted :: BodyFor(newT, h);
  }

  lemma WriteSets(oldT: Topology, newT: Topology)
    ensures Elements(ToWrite(oldT, newT, InOrder(newT.Keys))) + Elements(Gone(newT, InOrder(oldT.Keys))) == Changed(oldT, newT)
  {
    hide InOrder, ToWrite, Gone;
    var w, g := Elements(ToWrite(oldT, newT, InOrder(newT.Keys))), Elements(Gone(newT, InOrder(oldT.Keys)));
    forall h ensures h in w + g <==> h in Changed(oldT, newT) {}
  }

  lemma TwoBodies(store: Store, w: set<Host>, g: set<Host>, newT: Topology)
    ensures store + Bodies(w, newT) + Bodies(g, newT) == store + Bodies(w + g, newT)
  {
    hide BodyFor;
    assert Bodies(w, newT) + Bodies(g, newT) == Bodies(w + g, newT);
  }
}
