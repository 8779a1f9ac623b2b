/** Scheduling again on the result of a schedule changes nothing. */
module SchedulerFixedPoint {
  import opened OrderedKeys
  import opened SchedulerModel
  import opened SchedulerLedger
  import opened SchedulerPhases
  import opened SchedulerTheorems

  /* A topology is determined by the placements of each app. */

  lemma TopologyFromPlacements(t: Topology, u: Topology)
    requires forall h :: h in t ==> t[h] != map[]
    requires forall h :: h in u ==> u[h] != map[]
    requires forall a :: Placements(t, a) == Placements(u, a)
    ensures t == u
  {
    forall h, a ensures Runs(t, h, a) <==> Runs(u, h, a) { PlacementRuns(t, u, h, a); }
    forall h ensures h in t <==> h in u {
      if h in t { var a :| a in t[h]; assert Runs(u, h, a); }
      if h in u { var a :| a in u[h]; assert Runs(t, h, a); }
    }
    forall h | h in t ensures t[h] == u[h] {
      forall a ensures a in t[h] <==> a in u[h] { assert Runs(t, h, a) <==> Runs(u, h, a); }
      forall a | a in t[h] ensures t[h][a] == u[h][a] { PlacementRuns(t, u, h, a); }
    }
  }

  lemma PlacementRuns(t: Topology, u: Topology, h: Host, a: App)
    requires Placements(t, a) == Placements(u, a)
    ensures Runs(t, h, a) <==> Runs(u, h, a)
    ensures Runs(t, h, a) ==> t[h][a] == u[h][a]
  {
    assert Runs(t, h, a) <==> h in Placements(t, a);
    assert Runs(u, h, a) <==> h in Placements(u, a);
    if Runs(t, h, a) {
      assert t[h][a] == Placements(t, a)[h] && u[h][a] == Placements(u, a)[h];
    }
  }

  /* Everything that runs is kept. */

  lemma AllCandidates(matched: set<Host>, a: App, was: Topology)
    requires Placements(was, a).Keys <= matched
    ensures var c := Candidates(matched, a, InOrder(was.Keys), was);
            Elements(c) == Placements(was, a).Keys && |c| == |Placements(was, a)|
  {
    var hosts := InOrder(was.Keys);
    var c := Candidates(matched, a, hosts, was);
    CandidatesAscend(matched, a, hosts, was);
    forall i, j | 0 <= i < j < |c| ensures c[i] != c[j] { AscendingDistinct(c, i, j); }
    DistinctCount(c);
    assert Elements(c) == Placements(was, a).Keys;
    assert |Placements(was, a)| == |Placements(was, a).Keys|;
  }

  /** A task whose old hosts all still match, and are no more than its replicas, keeps them all. */
  lemma KeepsAll(task: TaskState, a: App, was: Topology)
    requires Placements(was, a).Keys <= task.matched && |Placements(was, a)| <= |task.pool|
    ensures OldTimes(was, a, KeptHosts(task, a, InOrder(was.Keys), was)) == Placements(was, a)
  {
    hide Candidates, InOrder;
    var c := Candidates(task.matched, a, InOrder(was.Keys), was);
    AllCandidates(task.matched, a, was);
    assert c[..|c|] == c;
    var times := OldTimes(was, a, c);
    assert times.Keys == Elements(c);
    forall h | h in times ensures times[h] == Placements(was, a)[h] { assert h in Elements(c); }
  }

  /** The two topologies put the same apps on the same hosts; their schedule times may differ. */
  ghost predicate SameApps(t: Topology, u: Topology) {
    forall h, a :: Runs(t, h, a) <==> Runs(u, h, a)
  }

  lemma SameAppsPlacements(t: Topology, u: Topology, a: App)
    requires SameApps(t, u)
    ensures Placements(t, a).Keys == Placements(u, a).Keys && |Placements(t, a)| == |Placements(u, a)|
  {
    forall h ensures h in Placements(t, a).Keys <==> h in Placements(u, a).Keys {
      assert Runs(t, h, a) <==> Runs(u, h, a);
    }
    assert |Placements(t, a)| == |Placements(t, a).Keys| && |Placements(u, a)| == |Placements(u, a).Keys|;
  }

  /** A topology that the next run may find: the apps of the last one, on no other host. */
  ghost predicate Found(u: Topology, r: State) {
    SameApps(u, r.topology) && forall h :: h in u ==> u[h] != map[]
  }

  /** The second run, after its first phase: for every task the first run's placements, and as many replicas
      left as the first run left. */
  lemma SecondRunKeeps(st: State, was: Topology, orders: seq<seq<Host>>, clock: seq<Time>, r: State, u: Topology, a: App)
    requires RunOf(st, was, orders, clock, r) && Found(u, r) && a in st.tasks
    ensures var k := Kept(st, u);
            && a in k.tasks && a in r.tasks
            && Placements(k.topology, a) == Placements(u, a)
            && k.tasks[a].matched == st.tasks[a].matched - Placements(r.topology, a).Keys
            && |k.tasks[a].pool| == |r.tasks[a].pool|
  {
    ReplicasConserved(st, was, orders, clock, r, a);
    SameAppsPlacements(u, r.topology, a);
    hide KeepAll;
    KeptAll(st, u, a);
  }

  lemma KeptAll(st: State, u: Topology, a: App)
    requires Start(st) && a in st.tasks
    requires Placements(u, a).Keys <= st.tasks[a].matched && |Placements(u, a)| <= |st.tasks[a].pool|
    ensures var k := Kept(st, u);
            && a in k.tasks
            && Placements(k.topology, a) == Placements(u, a)
            && k.tasks[a].matched == st.tasks[a].matched - Placements(u, a).Keys
            && |k.tasks[a].pool| == |st.tasks[a].pool| - |Placements(u, a)|
  {
    StartBooks(st);
    KeepsAll(st.tasks[a], a, u);
    hide Ledger, FreeHosts, KeepEffect, OldTimes, KeptHosts;
    KeepAllEffect(st, InOrder(st.tasks.Keys), u, a);
    KeepEffectFromStart(st, u, Kept(st, u), a);
  }

  lemma SecondRunElsewhere(st: State, was: Topology, orders: seq<seq<Host>>, clock: seq<Time>, r: State, u: Topology, a: App)
    requires RunOf(st, was, orders, clock, r) && Found(u, r) && a !in st.tasks
    ensures Placements(Kept(st, u).topology, a) == Placements(u, a)
  {
    StartBooks(st);
    KeepAllLedger(st, InOrder(st.tasks.Keys), u);
    RunLedger(st, was, orders, clock, r);
    SameAppsPlacements(u, r.topology, a);
    hide Ledger;
    NoPlacements(r, a);
    NoPlacements(Kept(st, u), a);
    assert Placements(u, a).Keys == {};
  }

  /** Only tasks of the cluster are placed. */
  lemma NoPlacements(st: State, a: App)
    requires Ledger(st) && a !in st.tasks
    ensures Placements(st.topology, a) == map[]
  {
    forall h ensures !Runs(st.topology, h, a) {
      if h in st.topology {
        assert Books(st.nodes[h], AppsOn(st.topology, h), Requests(st));
      }
    }
  }

  lemma SecondRunTopology(st: State, was: Topology, orders: seq<seq<Host>>, clock: seq<Time>, r: State, u: Topology)
    requires RunOf(st, was, orders, clock, r) && Found(u, r)
    ensures Kept(st, u).topology == u
    ensures Ledger(Kept(st, u)) && SameCluster(st, Kept(st, u))
  {
    StartBooks(st);
    KeepAllLedger(st, InOrder(st.tasks.Keys), u);
    forall a ensures Placements(Kept(st, u).topology, a) == Placements(u, a) {
      if a in st.tasks {
        SecondRunKeeps(st, was, orders, clock, r, u, a);
      } else {
        SecondRunElsewhere(st, was, orders, clock, r, u, a);
      }
    }
    TopologyFromPlacements(Kept(st, u).topology, u);
  }

  /** Equal apps mean equal books. */
  lemma SameAppsSameNodes(s: State, t: State)
    requires Ledger(s) && Ledger(t) && SameCluster(s, t) && SameApps(s.topology, t.topology)
    ensures s.nodes == t.nodes
  {
    SameRequests(s, t);
    forall h | h in s.nodes ensures s.nodes[h] == t.nodes[h] {
      assert Books(s.nodes[h], AppsOn(s.topology, h), Requests(s));
      assert Books(t.nodes[h], AppsOn(t.topology, h), Requests(s));
      forall a ensures a in AppsOn(s.topology, h) <==> a in AppsOn(t.topology, h) {
        assert Runs(s.topology, h, a) <==> Runs(t.topology, h, a);
      }
      assert AppsOn(s.topology, h).Keys == AppsOn(t.topology, h).Keys;
    }
  }

  /* Nothing is left to fill. */

  lemma {:induction false} FillNothing(st: State, a: App, order: seq<Host>, clock: seq<Time>)
    requires a in st.tasks && forall h :: h in order ==> h in st.nodes && !Accepts(st, a, h)
    ensures Fill(st, a, order, clock) == st
    decreases |order|
  {
    if order != [] && st.tasks[a].pool != {} {
      assert order[0] in order;
      FillNothing(st, a, order[1..], clock);
    }
  }

  /** No matched host can take what is left of `a`. */
  ghost predicate Stuck(st: State, a: App)
    requires st.Linked() && a in st.tasks
  {
    st.tasks[a].pool != {} ==> forall h :: h in st.tasks[a].matched ==> !Accepts(st, a, h)
  }

  lemma {:induction false} FillAllNothing(st: State, apps: seq<App>, orders: seq<seq<Host>>, clock: seq<Time>)
    requires st.Linked() && (forall a :: a in apps ==> a in st.tasks && Stuck(st, a))
    requires FillOrders(st, apps, orders, clock)
    ensures FillAll(st, apps, orders, clock) == st
    decreases |apps|
  {
    if apps != [] {
      var a := apps[0];
      assert a in apps;
      if st.tasks[a].pool != {} { FillNothing(st, a, orders[0], clock); }
      FillAllNothing(st, apps[1..], orders[1..], clock);
    }
  }

  /** A fill that places nothing had no host to place on. */
  lemma FillNothingStuck(st: State, a: App, order: seq<Host>, clock: seq<Time>)
    requires st.Linked() && a in st.tasks && FreeHosts(st, a) && FillOrder(st, a, order)
    requires Placements(FillTask(st, a, order, clock).topology, a).Keys == Placements(st.topology, a).Keys
    ensures Stuck(st, a) && FillTask(st, a, order, clock) == st
  {
    hide Fill, Accepts;
    if st.tasks[a].pool != {} {
      OrderUntried(st, a, order);
      FillTakesFirst(st, a, order, clock);
      var c := Accepting(st, a, order);
      TakesSome(c, Min(|st.tasks[a].pool|, |c|));
      assert c == [];
      FillNothing(st, a, order, clock);
    }
  }

  lemma TakesSome(c: seq<Host>, n: nat)
    requires n <= |c|
    ensures n > 0 ==> c[0] in Elements(c[..n])
  {
    if n > 0 { assert c[0] == c[..n][0]; }
  }

  lemma {:induction false} FillAllStuck(st: State, apps: seq<App>, orders: seq<seq<Host>>, clock: seq<Time>)
    requires st.Linked() && Ascending(apps) && forall a :: a in apps ==> a in st.tasks
    requires AllFree(st, apps) && FillOrders(st, apps, orders, clock)
    requires forall a :: a in apps ==>
      Placements(FillAll(st, apps, orders, clock).topology, a).Keys == Placements(st.topology, a).Keys
    ensures forall a :: a in apps ==> Stuck(st, a)
    decreases |apps|
  {
    hide FillTask, FillOrder, FreeHosts, Stuck, Placements, FillEffect;
    if apps != [] {
      var a := apps[0];
      var s := FillTask(st, a, orders[0], clock);
      FreeAfterFill(st, apps, orders[0], clock);
      TailMembers(apps, a);
      FillAllEffect(s, apps[1..], orders[1..], clock, a);
      FillNothingStuck(st, a, orders[0], clock);
      FillAllStuck(st, apps[1..], orders[1..], clock);
      forall b | b in apps ensures Stuck(st, b) { TailMembers(apps, b); }
    }
  }

  /** No host that matched at entry and does not carry `a` would take one of the replicas that are left over. */
  ghost predicate SettledFor(st: State, r: State, a: App)
    requires a in st.tasks && a in r.tasks
  {
    r.tasks[a].pool != {} ==>
      forall h :: h in st.tasks[a].matched && h in r.nodes && h !in Placements(r.topology, a) ==> !Accepts(r, a, h)
  }

  ghost predicate Settled(st: State, r: State) {
    forall a :: a in st.tasks && a in r.tasks ==> SettledFor(st, r, a)
  }

  /** A run can end unsettled only where the bytes asked of a host, with one app more, are too many for a 64-bit counter. */
  lemma SettledUnlessWrapped(st: State, was: Topology, orders: seq<seq<Host>>, clock: seq<Time>, r: State, a: App, h: Host)
    requires RunOf(st, was, orders, clock, r)
    requires a in st.tasks && a in r.tasks && r.tasks[a].pool != {}
    requires h in st.tasks[a].matched && !Runs(r.topology, h, a) && h in r.nodes && Accepts(r, a, h)
    ensures Ledger(r) && Load(r, h) + st.tasks[a].request >= TWO_TO_64
  {
    hide Ledger, Load;
    NoCapacityWasted(st, was, orders, clock, r, a, h);
    RunLedger(st, was, orders, clock, r);
    LoadCounted(r, h);
    AddNoMore(r.nodes[h].occupied, st.tasks[a].request);
  }

  /** So no run does where the tasks that match a host never ask for that much. */
  lemma SettledWhereFits(st: State, was: Topology, orders: seq<seq<Host>>, clock: seq<Time>, r: State)
    requires RunOf(st, was, orders, clock, r) && HostsFit(st)
    ensures Settled(st, r)
  {
    hide Ledger, HostFits, Accepts, Load, RunOf;
    RunLedger(st, was, orders, clock, r);
    forall a, h | a in st.tasks && r.tasks[a].pool != {} && h in st.tasks[a].matched && h in r.nodes && h !in Placements(r.topology, a)
      ensures !Accepts(r, a, h)
    {
      if Accepts(r, a, h) {
        SettledUnlessWrapped(st, was, orders, clock, r, a, h);
        OneMoreFits(st, was, orders, clock, r, a, h);
      }
    }
  }

  /** What a host carries and one more task that it matches fit its counter. */
  lemma OneMoreFits(st: State, was: Topology, orders: seq<seq<Host>>, clock: seq<Time>, r: State, a: App, h: Host)
    requires RunOf(st, was, orders, clock, r) && h in st.nodes && HostFits(st, h)
    requires a in st.tasks && h in st.tasks[a].matched && !Runs(r.topology, h, a)
    ensures Ledger(r) && h in r.nodes && Load(r, h) + st.tasks[a].request < TWO_TO_64
  {
    hide Ledger, RunOf, HostFits;
    RunLedger(st, was, orders, clock, r);
    SameRequests(st, r);
    OnlyMatching(st, was, orders, clock, r, h);
    var placed := AppsOn(r.topology, h).Keys;
    FewerFit(st, h, placed + {a});
    SumInsert(Requests(st), placed, a);
  }

  /** The second run starts its second phase with the nodes of the first run's end. */
  lemma SecondRunNodes(st: State, was: Topology, orders: seq<seq<Host>>, clock: seq<Time>, r: State, u: Topology)
    requires RunOf(st, was, orders, clock, r) && Found(u, r)
    ensures SameCluster(st, r) && SameCluster(st, Kept(st, u)) && Kept(st, u).nodes == r.nodes
  {
    hide Ledger;
    SecondRunTopology(st, was, orders, clock, r, u);
    RunLedger(st, was, orders, clock, r);
    SameAppsSameNodes(Kept(st, u), r);
  }

  lemma SecondRunStuck(st: State, was: Topology, orders: seq<seq<Host>>, clock: seq<Time>, r: State, u: Topology, a: App)
    requires RunOf(st, was, orders, clock, r) && Found(u, r) && a in st.tasks
    ensures SameCluster(st, r) && SameCluster(st, Kept(st, u))
    ensures Stuck(Kept(st, u), a) <==> SettledFor(st, r, a)
  {
    hide Found, KeepAll;
    var k := Kept(st, u);
    SecondRunKeeps(st, was, orders, clock, r, u, a);
    SecondRunNodes(st, was, orders, clock, r, u);
    SamePools(k.tasks[a].pool, r.tasks[a].pool);
    assert forall h :: h in k.nodes ==> (Accepts(k, a, h) <==> Accepts(r, a, h));
  }

  lemma SamePools(p: set<int>, q: set<int>)
    requires |p| == |q|
    ensures p == {} <==> q == {}
  {
  }

  /**
   * From the same nodes and tasks, and with the apps that a run placed as the old topology, the next run (whatever its
   * sorts and its clock do) produces that topology again, times included, if and only if the run ended settled; nodes then
   * stay as they were as well.
   */
  lemma ScheduleIsFixedPoint(st: State, was: Topology, orders: seq<seq<Host>>, clock: seq<Time>, r: State,
                             u: Topology, orders': seq<seq<Host>>, clock': seq<Time>, r': State)
    requires RunOf(st, was, orders, clock, r)
    requires Found(u, r) && RunOf(st, u, orders', clock', r')
    ensures r'.topology == u <==> Settled(st, r)
    ensures Settled(st, r) ==> r'.nodes == r.nodes
    ensures HostsFit(st) ==> Settled(st, r)
  {
    hide RunOf, Found, Settled, HostsFit;
    SecondRunTopology(st, was, orders, clock, r, u);
    SecondRunNodes(st, was, orders, clock, r, u);
    SettledIsStuck(st, was, orders, clock, r, u);
    StuckIsFixed(st, u, orders', clock', r');
    if r'.topology == u { FixedIsStuck(st, u, orders', clock', r'); }
    if HostsFit(st) { SettledWhereFits(st, was, orders, clock, r); }
  }

  ghost predicate AllStuck(st: State)
    requires st.Linked()
  {
    forall a :: a in st.tasks ==> Stuck(st, a)
  }

  lemma SettledIsStuck(st: State, was: Topology, orders: seq<seq<Host>>, clock: seq<Time>, r: State, u: Topology)
    requires RunOf(st, was, orders, clock, r) && Found(u, r)
    ensures Settled(st, r) <==> AllStuck(Kept(st, u))
  {
    hide Found, Stuck, SettledFor, KeepAll;
    SecondRunNodes(st, was, orders, clock, r, u);
    forall a | a in st.tasks ensures Stuck(Kept(st, u), a) <==> SettledFor(st, r, a) {
      SecondRunStuck(st, was, orders, clock, r, u, a);
    }
  }

  lemma StuckIsFixed(st: State, u: Topology, orders: seq<seq<Host>>, clock: seq<Time>, r: State)
    requires RunOf(st, u, orders, clock, r)
    ensures AllStuck(Kept(st, u)) ==> r == Kept(st, u)
  {
    hide KeepAll, FillAll, FillOrders, Stuck;
    if AllStuck(Kept(st, u)) { FillAllNothing(Kept(st, u), InOrder(st.tasks.Keys), orders, clock); }
  }

  lemma FixedIsStuck(st: State, u: Topology, orders: seq<seq<Host>>, clock: seq<Time>, r: State)
    requires RunOf(st, u, orders, clock, r) && r.topology == Kept(st, u).topology
    ensures AllStuck(Kept(st, u))
  {
    hide Ledger, KeepAll, FillAll, FillOrders, Stuck, Placements, FreeHosts;
    var apps := InOrder(st.tasks.Keys);
    StartBooks(st);
    KeepAllLedger(st, apps, u);
    assert AllFree(Kept(st, u), apps);
    FillAllStuck(Kept(st, u), apps, orders, clock);
  }

  /* Least loaded hosts first. */

  /** The hosts of `order` that have room. */
  function Accepting(st: State, a: App, order: seq<Host>): (r: seq<Host>)
    requires a in st.tasks && forall h :: h in order ==> h in st.nodes
    ensures forall h :: h in r <==> h in order && Accepts(st, a, h)
    decreases |order|
  {
    if order == [] then [] else
      var rest := Accepting(st, a, order[1..]);
      if Accepts(st, a, order[0]) then [order[0]] + rest else rest
  }

  lemma {:induction false} AcceptingElsewhere(st: State, a: App, order: seq<Host>, h: Host, clock: seq<Time>)
    requires a in st.tasks && h in st.nodes && st.tasks[a].pool != {}
    requires h !in order && forall x :: x in order ==> x in st.nodes
    ensures Accepting(PlaceNow(st, a, h, clock), a, order) == Accepting(st, a, order)
    decreases |order|
  {
    if order != [] { AcceptingElsewhere(st, a, order[1..], h, clock); }
  }

  /** A fill places the replicas on the first hosts of the order that have room, and on no other host. */
  lemma {:induction false} FillTakesFirst(st: State, a: App, order: seq<Host>, clock: seq<Time>)
    requires a in st.tasks && Untried(st, a, order) && forall h :: h in order ==> h in st.nodes
    ensures var c := Accepting(st, a, order);
            Placements(Fill(st, a, order, clock).topology, a).Keys
              == Placements(st.topology, a).Keys + Elements(c[..Min(|st.tasks[a].pool|, |c|)])
    decreases |order|
  {
    if order != [] && st.tasks[a].pool != {} {
      var h, rest := order[0], order[1..];
      UntriedRest(st, a, order);
      if Accepts(st, a, h) {
        var s := PlaceNow(st, a, h, clock);
        RecordPlacements(st.topology, h, a, Now(clock, st.readings));
        FillTakesFirst(s, a, rest, clock);
        AcceptingElsewhere(st, a, rest, h, clock);
        ElementsCons(h, Accepting(st, a, rest), |st.tasks[a].pool|);
      } else {
        FillTakesFirst(st, a, rest, clock);
      }
    }
  }

  lemma ElementsCons(h: Host, c: seq<Host>, n: nat)
    requires n > 0
    ensures Elements(([h] + c)[..Min(n, |[h] + c|)]) == {h} + Elements(c[..Min(n - 1, |c|)])
  {
    assert ([h] + c)[..Min(n, |[h] + c|)] == [h] + c[..Min(n - 1, |c|)];
  }

  /** Sub-order: what comes first in the accepting hosts comes first in the order. */
  lemma {:induction false} AcceptingInOrder(st: State, a: App, order: seq<Host>, i: nat, j: nat)
    requires a in st.tasks && forall h :: h in order ==> h in st.nodes
    requires i < j < |Accepting(st, a, order)|
    ensures exists m: nat, n: nat :: m < n < |order| && order[m] == Accepting(st, a, order)[i] && order[n] == Accepting(st, a, order)[j]
    decreases |order|
  {
    var c, rest := Accepting(st, a, order), Accepting(st, a, order[1..]);
    if Accepts(st, a, order[0]) && i == 0 {
      assert c[j] == rest[j - 1] && rest[j - 1] in order[1..];
      var n :| 0 <= n < |order[1..]| && order[1..][n] == c[j];
      assert order[0] == c[0] && order[n + 1] == c[j];
    } else {
      var d := if Accepts(st, a, order[0]) then 1 else 0;
      AcceptingInOrder(st, a, order[1..], i - d, j - d);
      var m: nat, n: nat :| m < n < |order[1..]| && order[1..][m] == rest[i - d] && order[1..][n] == rest[j - d];
      assert order[m + 1] == c[i] && order[n + 1] == c[j];
    }
  }

  /** A host that gets a replica runs no more apps than any matched host that has room but gets none; and where it runs as
      many, it has no more bytes occupied. */
  lemma LeastLoadedFirst(st: State, a: App, order: seq<Host>, clock: seq<Time>, chosen: Host, passed: Host)
    requires st.Linked() && a in st.tasks && FreeHosts(st, a) && FillOrder(st, a, order)
    requires var now := Placements(FillTask(st, a, order, clock).topology, a);
             chosen in now && chosen !in Placements(st.topology, a) && passed !in now
    requires passed in st.tasks[a].matched && Accepts(st, a, passed)
    ensures chosen in st.nodes && passed in st.nodes
    ensures |st.nodes[chosen].apps| <= |st.nodes[passed].apps|
    ensures |st.nodes[chosen].apps| == |st.nodes[passed].apps| ==> st.nodes[chosen].occupied <= st.nodes[passed].occupied
  {
    OrderUntried(st, a, order);
    FillTakesFirst(st, a, order, clock);
    var c := Accepting(st, a, order);
    var n := Min(|st.tasks[a].pool|, |c|);
    assert chosen in Elements(c[..n]) && passed in c && passed !in Elements(c[..n]);
    var i: nat :| i < n && c[i] == chosen;
    var j: nat :| j < |c| && c[j] == passed;
    assert forall x :: 0 <= x < n ==> c[x] == c[..n][x] && c[..n][x] in Elements(c[..n]);
    AcceptingInOrder(st, a, order, i, j);
  }
}
