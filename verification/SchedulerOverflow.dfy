/** A cluster on which the schedule is not a fixed point: one of its tasks asks for a negative amount of memory. */
module SchedulerOverflow {
  import opened OrderedKeys
  import opened SchedulerModel
  import opened SchedulerLedger
  import opened SchedulerPhases
  import opened SchedulerTheorems
  import opened SchedulerFixedPoint
  import opened Labels
  import opened ControlLoop
  import ConsulEntity

  const HOST := "h"
  const TOTAL := 10 * 1024 * 1024
  const BIG := RequestBytes(8)
  const LITTLE := RequestBytes(4)
  const MINUS := RequestBytes(Unsigned64(-4))

  /** As it is read: one host, and three apps of one replica each that ask for 8, 4 and -4 MB and no label. */
  function NegativeMemory(): Cluster {
    Cluster(map[HOST := NodeInfo(Label(map[]), TOTAL)],
            map["a" := TaskInfo(Label(map[]), 8, 1), "b" := TaskInfo(Label(map[]), 4, 1), "c" := TaskInfo(Label(map[]), -4, 1)])
  }

  function Wanting(request: nat, pool: set<int>): TaskState {
    TaskState(request, {HOST}, pool)
  }

  /** The start of the schedule. */
  function Crowded(): State {
    State(map[HOST := NodeState(TOTAL, 0, {})],
          map["a" := Wanting(BIG, {1}), "b" := Wanting(LITTLE, {1}), "c" := Wanting(MINUS, {1})], map[], 0)
  }

  /** After `a`: `b` does not fit any more. */
  function Taken(): State {
    State(map[HOST := NodeState(TOTAL, BIG, {"a"})],
          map["a" := Wanting(BIG, {}), "b" := Wanting(LITTLE, {1}), "c" := Wanting(MINUS, {1})],
          map[HOST := map["a" := 0]], 1)
  }

  /** After `c`, whose request makes the counter wrap around to less than before. */
  function Wrapped(): State {
    State(map[HOST := NodeState(TOTAL, LITTLE, {"a", "c"})],
          map["a" := Wanting(BIG, {}), "b" := Wanting(LITTLE, {1}), "c" := Wanting(MINUS, {})],
          map[HOST := map["a" := 0, "c" := 0]], 2)
  }

  lemma Names()
    ensures InOrder({"a", "b", "c"}) == ["a", "b", "c"] && InOrder({}) == []
  {
    var names := ["a", "b", "c"];
    forall i, j | 0 <= i < j < 3 ensures Less(names[i], names[j]) {}
    AscendingUnique(InOrder({"a", "b", "c"}), names);
  }

  lemma KeepsNothing(st: State, apps: seq<App>)
    requires st.Linked() && forall a :: a in apps ==> a in st.tasks
    ensures KeepAll(st, apps, map[]) == st
    decreases |apps|
  {
    Names();
    if apps != [] { KeepsNothing(st, apps[1..]); }
  }

  lemma OnlyOne(pool: set<int>)
    requires pool == {1}
    ensures EraseFirst(pool) == {}
  {
    assert |pool| == 1;
  }

  lemma FillOne(st: State, a: App)
    requires a in st.tasks && HOST in st.nodes
    ensures Fill(st, a, [HOST], []) == if st.tasks[a].pool != {} && Accepts(st, a, HOST) then PlaceNow(st, a, HOST, []) else st
  {
    assert [HOST][1..] == [];
  }

  lemma FillsA()
    ensures var st := Crowded(); st.Linked() && FillOrder(st, "a", [HOST]) && FillTask(st, "a", [HOST], []) == Taken()
  {
    var st := Crowded();
    OnlyOne(st.tasks["a"].pool);
    assert Accepts(st, "a", HOST);
    FillOne(st, "a");
    var s := PlaceNow(st, "a", HOST, []);
    assert s.tasks == Taken().tasks && s.nodes == Taken().nodes && s.topology == Taken().topology;
  }

  lemma PassesB()
    ensures var st := Taken(); st.Linked() && FillOrder(st, "b", [HOST]) && FillTask(st, "b", [HOST], []) == st
  {
    assert !Accepts(Taken(), "b", HOST);
    FillOne(Taken(), "b");
  }

  lemma MinusWraps()
    ensures Add64(BIG, MINUS) == LITTLE == 4 * 1024 * 1024
  {
    assert MINUS == 0xFFFF_FFFF_FFC0_0000;
  }

  lemma FillsC()
    ensures var st := Taken(); st.Linked() && FillOrder(st, "c", [HOST]) && FillTask(st, "c", [HOST], []) == Wrapped()
  {
    var st := Taken();
    OnlyOne(st.tasks["c"].pool);
    MinusWraps();
    assert Accepts(st, "c", HOST);
    FillOne(st, "c");
    assert {"a"} + {"c"} == {"a", "c"};
    var s := PlaceNow(st, "c", HOST, []);
    assert s.tasks == Wrapped().tasks && s.nodes == Wrapped().nodes && s.topology == Wrapped().topology;
  }

  lemma FillAllCons(st: State, a: App, order: seq<Host>, apps: seq<App>, orders: seq<seq<Host>>)
    requires st.Linked() && a in st.tasks && forall b :: b in apps ==> b in st.tasks
    requires FillOrder(st, a, order) && FillOrders(FillTask(st, a, order, []), apps, orders, [])
    ensures forall b :: b in [a] + apps ==> b in st.tasks
    ensures FillOrders(st, [a] + apps, [order] + orders, [])
    ensures FillAll(st, [a] + apps, [order] + orders, []) == FillAll(FillTask(st, a, order, []), apps, orders, [])
  {
    assert ([a] + apps)[1..] == apps && ([order] + orders)[1..] == orders;
  }

  lemma HostAvailable()
    ensures Available(NegativeMemory(), Label(map[])) == {HOST}
  {
  }

  lemma AllListed()
    ensures Listed(NegativeMemory().tasks) == NegativeMemory().tasks
  {
  }

  lemma TasksCrowded()
    ensures AtStart(NegativeMemory()).tasks == Crowded().tasks
  {
    hide ConsulEntity.Indices, RequestBytes, Available, Listed, Unsigned64;
    HostAvailable();
    AllListed();
    OneIndex();
    MemoryRead();
    var tasks := AtStart(NegativeMemory()).tasks;
    assert tasks.Keys == {"a", "b", "c"} == Crowded().tasks.Keys;
    assert tasks["a"] == Crowded().tasks["a"];
    assert tasks["b"] == Crowded().tasks["b"];
    assert tasks["c"] == Crowded().tasks["c"];
  }

  lemma MemoryRead()
    ensures Unsigned64(8) == 8 && Unsigned64(4) == 4
  {
  }

  lemma CrowdedAtStart()
    ensures AtStart(NegativeMemory()) == Crowded()
  {
    hide TaskAtStart, Listed, RequestBytes;
    TasksCrowded();
    assert AtStart(NegativeMemory()).nodes == Crowded().nodes;
  }

  lemma OneIndex()
    ensures ConsulEntity.Indices(1) == {1}
  {
  }

  /**
   * The first pass over an empty store refuses `b` after `a` was placed, and then places `c`, whose negative request lowers
   * the counter: it leaves a replica of `b` over, on a host whose counter shows that there is room for it.
   */
  lemma WrapAroundUnsettles()
    ensures PassOf(NegativeMemory(), map[], [[HOST], [HOST], [HOST]], [], Wrapped()) && !Settled(AtStart(NegativeMemory()), Wrapped())
  {
    hide AtStart, RunOf, Settled;
    CrowdedAtStart();
    RunUnsettles();
    assert Retrieve(map[]) == map[];
  }

  lemma RunUnsettles()
    ensures RunOf(Crowded(), map[], [[HOST], [HOST], [HOST]], [], Wrapped()) && !Settled(Crowded(), Wrapped())
  {
    hide FillTask, FillOrder, InOrder, Accepts, FillAll, FillOrders, KeepAll;
    FillsThree();
    var apps: seq<App>, hosts: seq<seq<Host>> := ["a"] + ["b", "c"], [[HOST]] + [[HOST], [HOST]];
    assert apps == ["a", "b", "c"] && hosts == [[HOST], [HOST], [HOST]];
    Names();
    assert Crowded().tasks.Keys == {"a", "b", "c"};
    KeepsNothing(Crowded(), apps);
    RoomForB();
  }

  lemma FillsThree()
    ensures Crowded().Linked()
    ensures var apps, hosts := ["a"] + ["b", "c"], [[HOST]] + [[HOST], [HOST]];
      && (forall a :: a in apps ==> a in Crowded().tasks)
      && FillOrders(Crowded(), apps, hosts, []) && FillAll(Crowded(), apps, hosts, []) == Wrapped()
  {
    hide FillTask, FillOrder, FillAll, FillOrders;
    FillsA();
    PassesB();
    FillsC();
    FillsNone(Wrapped());
    FillAllCons(Taken(), "c", [HOST], [], []);
    AppendNothing(["c"]);
    AppendNothing([[HOST]]);
    FillAllCons(Taken(), "b", [HOST], ["c"], [[HOST]]);
    assert ["b"] + ["c"] == ["b", "c"] && [[HOST]] + [[HOST]] == [[HOST], [HOST]];
    FillAllCons(Crowded(), "a", [HOST], ["b", "c"], [[HOST], [HOST]]);
  }

  lemma FillsNone(st: State)
    requires st.Linked()
    ensures FillOrders(st, [], [], []) && FillAll(st, [], [], []) == st
  {
  }

  lemma RoomForB()
    ensures !SettledFor(Crowded(), Wrapped(), "b")
  {
    assert Accepts(Wrapped(), "b", HOST) && HOST !in Placements(Wrapped().topology, "b");
  }
}
