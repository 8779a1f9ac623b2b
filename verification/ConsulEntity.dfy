/** The cluster's shared objects. One `ConsulNode` is referenced from the match lists of many tasks. */
module ConsulEntity {
  import opened SchedulerModel
  import opened Labels

  /** What the scheduler looks at in an application. */
  datatype Application = Application(name: string)

  class ConsulNode {
    const m_hostName: string
    const m_label: Label
    const m_total_bytes: nat
    var m_occupyMemoryBytes: nat
    var m_assignedApps: map<string, Application>

    constructor (hostName: string, lbl: Label, totalBytes: nat)
      ensures m_hostName == hostName && m_label == lbl
      ensures State() == NodeState(totalBytes, 0, {})
    {
      m_hostName, m_label, m_total_bytes := hostName, lbl, totalBytes;
      m_occupyMemoryBytes := 0;
      m_assignedApps := map[];
    }

    ghost function State(): NodeState
      reads this
    {
      NodeState(m_total_bytes, m_occupyMemoryBytes, m_assignedApps.Keys)
    }

    method AssignApp(task: ConsulTask)
      modifies this
      ensures State() == old(State()).Assign(task.m_app.name, RequestBytes(task.m_requestMemMega))
    {
      m_assignedApps := m_assignedApps[task.m_app.name := task.m_app];
      m_occupyMemoryBytes := Add64(m_occupyMemoryBytes, RequestBytes(task.m_requestMemMega));
    }

    method TryAssignApp(task: ConsulTask) returns (ok: bool)
      ensures ok == State().TryAssign(RequestBytes(task.m_requestMemMega))
    {
      ok := Add64(m_occupyMemoryBytes, RequestBytes(task.m_requestMemMega)) < m_total_bytes;
    }

    predicate Full()
      reads this
    {
      m_occupyMemoryBytes >= m_total_bytes
    }
  }

  /** The indices `1 .. n`. */
  ghost function Indices(n: nat): (r: set<int>)
    ensures forall i :: i in r <==> 1 <= i <= n
    ensures |r| == n
  {
    if n == 0 then {} else Indices(n - 1) + {n}
  }

  class ConsulTask {
    const m_app: Application
    const m_condition: Label
    const m_requestMemMega: nat
    const m_replication: nat
    var m_matchedHosts: map<string, ConsulNode>
    var m_tasksSet: set<int>

    /** A task with `replication` replicas has the indices `1 .. replication` to place. */
    constructor (app: Application, condition: Label, requestMemMega: nat, replication: nat)
      ensures m_app == app && m_condition == condition
      ensures m_requestMemMega == requestMemMega && m_replication == replication
      ensures State() == TaskState(RequestBytes(requestMemMega), {}, Indices(replication))
    {
      m_app, m_condition, m_requestMemMega, m_replication := app, condition, requestMemMega, replication;
      m_matchedHosts := map[];
      m_tasksSet := {};
      new;
      for i := 1 to replication + 1
        invariant m_tasksSet == Indices(i - 1)
        invariant m_matchedHosts == map[]
      {
        m_tasksSet := m_tasksSet + {i};
      }
    }

    ghost function State(): TaskState
      reads this
    {
      TaskState(RequestBytes(m_requestMemMega), m_matchedHosts.Keys, m_tasksSet)
    }
  }

  /* The cluster as a value. */

  ghost function NodesOf(cluster: map<string, ConsulNode>): map<Host, NodeState>
    reads cluster.Values
  {
    map h | h in cluster :: cluster[h].State()
  }

  ghost function TasksOf(tasks: map<string, ConsulTask>): map<App, TaskState>
    reads tasks.Values
  {
    map a | a in tasks :: tasks[a].State()
  }

  /** Keys are the objects' own names, and all match lists share the cluster's node objects. */
  ghost predicate Shared(tasks: map<string, ConsulTask>, cluster: map<string, ConsulNode>)
    reads tasks.Values
  {
    && (forall h :: h in cluster ==> cluster[h].m_hostName == h)
    && (forall a :: a in tasks ==> tasks[a].m_app.name == a)
    && (forall a :: a in tasks ==> SharedHosts(tasks[a], cluster))
  }

  ghost predicate SharedHosts(task: ConsulTask, cluster: map<string, ConsulNode>)
    reads task
  {
    forall h :: h in task.m_matchedHosts ==> h in cluster && task.m_matchedHosts[h] == cluster[h]
  }
}
