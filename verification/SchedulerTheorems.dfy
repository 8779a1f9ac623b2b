/** What a whole run of the scheduler guarantees, and what the next run does with its result. */
module SchedulerTheorems {
  import opened OrderedKeys
  import opened SchedulerModel
  import opened SchedulerLedger
  import opened SchedulerPhases

  /** Nodes and tasks as they are retrieved: nothing placed yet. */
  ghost predicate Start(st: State) {
    && st.Linked() && st.topology == map[]
    && forall h :: h in st.nodes ==> st.nodes[h].occupied == 0 && st.nodes[h].apps == {}
  }

  lemma StartBooks(st: State)
    requires Start(st)
    ensures Ledger(st) && forall a :: a in st.tasks ==> FreeHosts(st, a) && Placements(st.topology, a) == map[]
  {
    forall h | h in st.nodes ensures Books(st.nodes[h], AppsOn(st.topology, h), Requests(st)) {
      assert AppsOn(st.topology, h) == map[];
    }
  }

  /* First phase, all tasks. */

  lemma KeepTaskFacts(st: State, a: App, was: Topology)
    requires st.Linked() && a in st.tasks
    ensures var r := KeepTask(st, a, was);
            OthersUntouched(st, r, a) && r.readings == st.readings && KeepEffect(st, a, InOrder(was.Keys), was, r)
    ensures Ledger(st) && FreeHosts(st, a) ==>
              var r := KeepTask(st, a, was); Ledger(r) && SameCluster(st, r) && FreeHosts(r, a)
  {
    hide KeepEffect, OthersUntouched, KeepHosts, Ledger, FreeHosts;
    if st.tasks[a].pool == {} {
      KeepEffectNone(st, a, InOrder(was.Keys), was);
    } else {
      KeepHostsEffect(st, a, InOrder(was.Keys), was);
      if Ledger(st) && FreeHosts(st, a) {
        KeepHostsLedger(st, a, InOrder(was.Keys), was);
      }
    }
  }

  lemma {:induction false} KeepAllLedger(st: State, apps: seq<App>, was: Topology)
    requires st.Linked() && Ledger(st) && forall a :: a in st.tasks ==> FreeHosts(st, a)
    requires forall a :: a in apps ==> a in st.tasks
    ensures var r := KeepAll(st, apps, was);
            Ledger(r) && SameCluster(st, r) && r.readings == st.readings && forall a :: a in r.tasks ==> FreeHosts(r, a)
    decreases |apps|
  {
    if apps != [] {
      KeepTaskFacts(st, apps[0], was);
      KeepAllLedger(KeepTask(st, apps[0], was), apps[1..], was);
    }
  }

  /** Each task is handled once, as if it were alone. */
  lemma {:induction false} KeepAllEffect(st: State, apps: seq<App>, was: Topology, a: App)
    requires st.Linked() && Ascending(apps) && a in st.tasks && forall b :: b in apps ==> b in st.tasks
    ensures var r := KeepAll(st, apps, was);
            if a in apps then KeepEffect(st, a, InOrder(was.Keys), was, r)
            else r.tasks[a] == st.tasks[a] && Placements(r.topology, a) == Placements(st.topology, a)
    decreases |apps|
  {
    if apps != [] {
      var s := KeepTask(st, apps[0], was);
      KeepTaskFacts(st, apps[0], was);
      KeepAllEffect(s, apps[1..], was, a);
      TailMembers(apps, a);
    }
  }

  lemma KeptFacts(st: State, was: Topology, a: App)
    requires Start(st) && a in st.tasks
    ensures KeepEffect(st, a, InOrder(was.Keys), was, Kept(st, was))
    ensures Ledger(Kept(st, was)) && SameCluster(st, Kept(st, was)) && Kept(st, was).readings == st.readings
    ensures forall b :: b in st.tasks ==> FreeHosts(Kept(st, was), b)
  {
    StartBooks(st);
    KeepAllEffect(st, InOrder(st.tasks.Keys), was, a);
    KeepAllLedger(st, InOrder(st.tasks.Keys), was);
  }

  /* Second phase, all tasks. */

  lemma OrderUntried(st: State, a: App, order: seq<Host>)
    requires st.Linked() && a in st.tasks && FreeHosts(st, a) && HostOrder(st, a, order)
    ensures Untried(st, a, order) && Elements(order) == st.tasks[a].matched
  {
    assert Elements(order) == st.tasks[a].matched;
  }

  /** Tasks still to be filled have all their matched hosts free. */
  ghost predicate AllFree(st: State, apps: seq<App>)
    requires forall a :: a in apps ==> a in st.tasks
  {
    forall a :: a in apps ==> FreeHosts(st, a)
  }

  lemma FillTaskFacts(st: State, a: App, order: seq<Host>, clock: seq<Time>)
    requires st.Linked() && a in st.tasks && FreeHosts(st, a) && FillOrder(st, a, order)
    ensures var r := FillTask(st, a, order, clock);
            OthersUntouched(st, r, a) && RoomLeft(st, r) && FilledFrom(st, a, clock, r)
    ensures Ledger(st) ==> var r := FillTask(st, a, order, clock); Ledger(r) && SameCluster(st, r)
  {
    if st.tasks[a].pool != {} {
      OrderUntried(st, a, order);
      FillHostsEffect(st, a, order, clock);
      FillRoomLeft(st, a, order, clock);
      if Ledger(st) { FillHostsLedger(st, a, order, clock); }
    }
  }

  /** From `st` to `r`, task `a` got replicas on matched hosts only. */
  ghost predicate FilledFrom(st: State, a: App, clock: seq<Time>, r: State)
    requires a in st.tasks && a in r.tasks
  {
    FillEffect(st, a, st.tasks[a].matched, clock, r)
  }

  lemma FreeAfterFill(st: State, apps: seq<App>, order: seq<Host>, clock: seq<Time>)
    requires st.Linked() && Ascending(apps) && apps != [] && forall a :: a in apps ==> a in st.tasks
    requires AllFree(st, apps) && FillOrder(st, apps[0], order)
    ensures AllFree(FillTask(st, apps[0], order, clock), apps[1..])
  {
    FillTaskFacts(st, apps[0], order, clock);
    forall a | a in apps[1..] ensures FreeHosts(FillTask(st, apps[0], order, clock), a) {
      TailMembers(apps, a);
    }
  }

  lemma {:induction false} FillAllLedger(st: State, apps: seq<App>, orders: seq<seq<Host>>, clock: seq<Time>)
    requires st.Linked() && Ledger(st) && Ascending(apps) && forall a :: a in apps ==> a in st.tasks
    requires AllFree(st, apps) && FillOrders(st, apps, orders, clock)
    ensures var r := FillAll(st, apps, orders, clock); Ledger(r) && SameCluster(st, r) && RoomLeft(st, r)
    decreases |apps|
  {
    if apps != [] {
      FillTaskFacts(st, apps[0], orders[0], clock);
      FreeAfterFill(st, apps, orders[0], clock);
      FillAllLedger(FillTask(st, apps[0], orders[0], clock), apps[1..], orders[1..], clock);
    }
  }

  lemma {:induction false} FillAllEffect(st: State, apps: seq<App>, orders: seq<seq<Host>>, clock: seq<Time>, a: App)
    requires st.Linked() && Ascending(apps) && a in st.tasks && forall b :: b in apps ==> b in st.tasks
    requires AllFree(st, apps) && FillOrders(st, apps, orders, clock)
    ensures FilledFrom(st, a, clock, FillAll(st, apps, orders, clock))
    ensures a !in apps ==> var r := FillAll(st, apps, orders, clock);
              r.tasks[a] == st.tasks[a] && Placements(r.topology, a) == Placements(st.topology, a)
    decreases |apps|
  {
    hide FillEffect, FillTask, FillOrder, FreeHosts;
    if apps == [] {
      FilledSame(st, a, clock, st);
    } else {
      var s := FillTask(st, apps[0], orders[0], clock);
      FillTaskFacts(st, apps[0], orders[0], clock);
      FreeAfterFill(st, apps, orders[0], clock);
      FillAllEffect(s, apps[1..], orders[1..], clock, a);
      TailMembers(apps, a);
      FilledCompose(st, s, FillAll(s, apps[1..], orders[1..], clock), apps[0], a, clock);
    }
  }

  lemma FilledSame(st: State, a: App, clock: seq<Time>, r: State)
    requires a in st.tasks && a in r.tasks && st.readings <= r.readings
    requires r.tasks[a] == st.tasks[a] && Placements(r.topology, a) == Placements(st.topology, a)
    ensures FilledFrom(st, a, clock, r)
  {
  }

  /** `b` is filled from `st` to `s`; then `a`, if it is another task, from `s` to `r`. */
  lemma FilledCompose(st: State, s: State, r: State, b: App, a: App, clock: seq<Time>)
    requires b in st.tasks && b in s.tasks && a in st.tasks && a in s.tasks && a in r.tasks
    requires OthersUntouched(st, s, b) && FilledFrom(st, b, clock, s) && FilledFrom(s, a, clock, r)
    requires a == b ==> r.tasks[a] == s.tasks[a] && Placements(r.topology, a) == Placements(s.topology, a)
    ensures FilledFrom(st, a, clock, r)
  {
    var p, q := Placements(st.topology, a), Placements(r.topology, a);
    assert st.readings <= s.readings <= r.readings;
    if a == b {
      FilledWiden(p, q, st.tasks[a].matched, st.tasks[a], r.tasks[a], clock, st.readings, s.readings, st.readings, r.readings);
    } else {
      FilledWiden(p, q, st.tasks[a].matched, st.tasks[a], r.tasks[a], clock, s.readings, r.readings, st.readings, r.readings);
    }
  }

  lemma FilledWiden(p: map<Host, Time>, q: map<Host, Time>, hosts: set<Host>, before: TaskState, after: TaskState,
                    clock: seq<Time>, from: nat, to: nat, from': nat, to': nat)
    requires Filled(p, q, hosts, before, after, clock, from, to) && from' <= from && to <= to'
    ensures Filled(p, q, hosts, before, after, clock, from', to')
  {
    forall h | h in q && h !in p ensures Reading(clock, from', to', q[h]) {
      assert Reading(clock, from, to, q[h]);
    }
  }

  lemma FillTaskTriesAll(st: State, a: App, order: seq<Host>, clock: seq<Time>)
    requires st.Linked() && Ledger(st) && a in st.tasks && FreeHosts(st, a) && FillOrder(st, a, order)
    ensures var r := FillTask(st, a, order, clock);
            Ledger(r) && Fuller(st, r) && Unplaceable(st.tasks[a].matched, a, r)
  {
    hide Ledger, Fill, NoRoom;
    FillTaskFacts(st, a, order, clock);
    if st.tasks[a].pool != {} {
      OrderUntried(st, a, order);
      FillFuller(st, a, order, clock);
      FillTriesAll(st, a, order, clock);
    }
  }

  /** If replicas of `a` are left over, every host of `hosts` runs `a` or is too full to. */
  ghost predicate Unplaceable(hosts: set<Host>, a: App, r: State)
    requires a in r.tasks && Ledger(r) && hosts <= r.nodes.Keys
  {
    r.tasks[a].pool != {} ==>
      forall h :: h in hosts ==> h in Placements(r.topology, a) || NoRoom(r, h, r.tasks[a].request)
  }

  lemma {:induction false} FillAllTriesAll(st: State, apps: seq<App>, orders: seq<seq<Host>>, clock: seq<Time>, a: App)
    requires st.Linked() && Ledger(st)
    requires Ascending(apps) && forall b :: b in apps ==> b in st.tasks
    requires AllFree(st, apps) && FillOrders(st, apps, orders, clock)
    ensures var r := FillAll(st, apps, orders, clock);
            Ledger(r) && Fuller(st, r) && (a in apps ==> Unplaceable(st.tasks[a].matched, a, r))
    decreases |apps|
  {
    hide Ledger, FillTask, FillOrder, FreeHosts, NoRoom, Unplaceable;
    if apps != [] {
      var s := FillTask(st, apps[0], orders[0], clock);
      FillTaskFacts(st, apps[0], orders[0], clock);
      FillTaskTriesAll(st, apps[0], orders[0], clock);
      FreeAfterFill(st, apps, orders[0], clock);
      FillAllTriesAll(s, apps[1..], orders[1..], clock, a);
      TailMembers(apps, a);
      if a == apps[0] {
        FillAllEffect(s, apps[1..], orders[1..], clock, a);
        StaysUnplaceable(st.tasks[a].matched, a, s, FillAll(s, apps[1..], orders[1..], clock));
      }
    }
  }

  /** A rejection persists: later tasks only fill the nodes further. */
  lemma StaysUnplaceable(hosts: set<Host>, a: App, s: State, r: State)
    requires Ledger(s) && Ledger(r)
    requires a in s.tasks && a in r.tasks && s.nodes.Keys == r.nodes.Keys && hosts <= r.nodes.Keys
    requires Fuller(s, r) && s.tasks[a] == r.tasks[a] && Placements(s.topology, a) == Placements(r.topology, a)
    requires Unplaceable(hosts, a, s)
    ensures Unplaceable(hosts, a, r)
  {
    hide Ledger, NoRoom, Fuller;
    if r.tasks[a].pool != {} {
      forall h | h in hosts ensures h in Placements(r.topology, a) || NoRoom(r, h, r.tasks[a].request) {
        if h !in Placements(r.topology, a) { NoRoomStays(s, r, h, r.tasks[a].request); }
      }
    }
  }

  /* The guarantees of one run. */

  /** The run `r` of the scheduler from `st` with old topology `was`. */
  ghost predicate RunOf(st: State, was: Topology, orders: seq<seq<Host>>, clock: seq<Time>, r: State) {
    Start(st) && ScheduleOrders(st, was, orders, clock) && r == Schedule(st, was, orders, clock)
  }

  lemma RunLedger(st: State, was: Topology, orders: seq<seq<Host>>, clock: seq<Time>, r: State)
    requires RunOf(st, was, orders, clock, r)
    ensures SameCluster(st, r) && Ledger(r) && Ledger(Kept(st, was)) && SameCluster(st, Kept(st, was))
    ensures RoomLeft(Kept(st, was), r)
  {
    var k, apps := Kept(st, was), InOrder(st.tasks.Keys);
    StartBooks(st);
    KeepAllLedger(st, apps, was);
    assert AllFree(k, apps);
    FillAllLedger(k, apps, orders, clock);
  }

  /** One task's run: `kept` are the placements it keeps, `now` those it ends with. */
  ghost predicate TaskRun(before: TaskState, after: TaskState, kept: map<Host, Time>, now: map<Host, Time>,
                          clock: seq<Time>, from: nat, to: nat)
  {
    && kept.Keys <= now.Keys <= before.matched
    && |kept| <= |before.pool|
    && after.pool <= before.pool
    && |now| + |after.pool| == |before.pool|
    && (forall h :: h in kept ==> now[h] == kept[h])
    && (forall h :: h in now && h !in kept ==> Reading(clock, from, to, now[h]))
  }

  /** What a task keeps from the old topology. */
  function KeptTimes(st: State, was: Topology, a: App): map<Host, Time>
    requires a in st.tasks
  {
    OldTimes(was, a, KeptHosts(st.tasks[a], a, InOrder(was.Keys), was))
  }

  lemma RunOfTask(st: State, was: Topology, orders: seq<seq<Host>>, clock: seq<Time>, r: State, a: App)
    requires RunOf(st, was, orders, clock, r) && a in st.tasks
    ensures a in r.tasks
    ensures TaskRun(st.tasks[a], r.tasks[a], KeptTimes(st, was, a), Placements(r.topology, a), clock, st.readings, r.readings)
  {
    var k, apps := Kept(st, was), InOrder(st.tasks.Keys);
    StartBooks(st);
    KeptFacts(st, was, a);
    assert AllFree(k, apps);
    FillAllEffect(k, apps, orders, clock, a);
    KeptThenFilled(st, was, k, clock, r, a);
  }

  lemma KeptThenFilled(st: State, was: Topology, k: State, clock: seq<Time>, r: State, a: App)
    requires a in st.tasks && a in k.tasks && a in r.tasks && k.readings == st.readings
    requires Placements(st.topology, a) == map[]
    requires KeepEffect(st, a, InOrder(was.Keys), was, k) && FilledFrom(k, a, clock, r)
    ensures TaskRun(st.tasks[a], r.tasks[a], KeptTimes(st, was, a), Placements(r.topology, a), clock, st.readings, r.readings)
  {
    KeptTimesFacts(st, was, a);
    KeepEffectFromStart(st, was, k, a);
    var p, q := Placements(k.topology, a), Placements(r.topology, a);
    assert q.Keys <= p.Keys + k.tasks[a].matched;
  }

  lemma KeptTimesFacts(st: State, was: Topology, a: App)
    requires a in st.tasks
    ensures var kept := KeptHosts(st.tasks[a], a, InOrder(was.Keys), was);
            var times := KeptTimes(st, was, a);
            times.Keys == Elements(kept) && |times| == |kept| && |kept| <= |st.tasks[a].pool| && times.Keys <= st.tasks[a].matched
  {
    var kept := KeptHosts(st.tasks[a], a, InOrder(was.Keys), was);
    KeptDistinct(st.tasks[a], a, InOrder(was.Keys), was);
    assert KeptTimes(st, was, a).Keys == Elements(kept);
  }

  lemma KeepEffectFromStart(st: State, was: Topology, k: State, a: App)
    requires a in st.tasks && a in k.tasks && Placements(st.topology, a) == map[]
    requires KeepEffect(st, a, InOrder(was.Keys), was, k)
    ensures Placements(k.topology, a) == KeptTimes(st, was, a)
    ensures k.tasks[a].matched == st.tasks[a].matched - KeptTimes(st, was, a).Keys
    ensures k.tasks[a].pool <= st.tasks[a].pool
    ensures |k.tasks[a].pool| == |st.tasks[a].pool| - |KeptTimes(st, was, a)|
  {
    hide KeptHosts, OldTimes, Placements;
    KeptTimesFacts(st, was, a);
    NothingBefore(KeptTimes(st, was, a));
  }

  lemma NothingBefore<K, V>(m: map<K, V>)
    ensures map[] + m == m
  {
  }

  /** Replicas are neither made nor lost, and go to hosts that matched at entry. */
  lemma ReplicasConserved(st: State, was: Topology, orders: seq<seq<Host>>, clock: seq<Time>, r: State, a: App)
    requires RunOf(st, was, orders, clock, r) && a in st.tasks
    ensures a in r.tasks && r.tasks[a].pool <= st.tasks[a].pool
    ensures |Placements(r.topology, a)| + |r.tasks[a].pool| == |st.tasks[a].pool|
    ensures Placements(r.topology, a).Keys <= st.tasks[a].matched
  {
    RunOfTask(st, was, orders, clock, r, a);
  }

  lemma {:induction false} CandidatesAscend(matched: set<Host>, a: App, hosts: seq<Host>, was: Topology)
    requires Ascending(hosts)
    ensures Ascending(Candidates(matched, a, hosts, was))
    decreases |hosts|
  {
    if hosts != [] {
      CandidatesAscend(matched, a, hosts[1..], was);
      var rest := Candidates(matched, a, hosts[1..], was);
      forall i | 0 <= i < |rest| ensures Less(hosts[0], rest[i]) {
        assert rest[i] in hosts[1..];
      }
    }
  }

  lemma {:induction false} DistinctCount(s: seq<Host>)
    requires forall i, j :: 0 <= i < j < |s| ==> s[i] != s[j]
    ensures |Elements(s)| == |s|
    decreases |s|
  {
    if s != [] {
      DistinctCount(s[1..]);
      assert Elements(s) == Elements(s[1..]) + {s[0]};
    }
  }

  lemma KeptDistinct(task: TaskState, a: App, hosts: seq<Host>, was: Topology)
    requires Ascending(hosts)
    ensures var kept := KeptHosts(task, a, hosts, was);
            Ascending(kept) && |Elements(kept)| == |kept|
  {
    CandidatesAscend(task.matched, a, hosts, was);
    var kept := KeptHosts(task, a, hosts, was);
    forall i, j | 0 <= i < j < |kept| ensures kept[i] != kept[j] { AscendingDistinct(kept, i, j); }
    DistinctCount(kept);
  }

  /** `kept` stay with their old schedule time; every other placement is made at a fresh reading of the clock. */
  ghost predicate Sticky(now: map<Host, Time>, kept: seq<Host>, was: Topology, a: App, clock: seq<Time>, from: nat, to: nat) {
    && (forall h :: h in kept ==> h in now && Runs(was, h, a) && now[h] == was[h][a])
    && (forall h :: h in now && h !in kept ==> Reading(clock, from, to, now[h]))
  }

  /** Of its still matching old hosts a task keeps the first ones, in host order, as many as it has replicas,
      with their old schedule time; every other replica is scheduled at a fresh reading of the clock. */
  lemma PlacementsSticky(st: State, was: Topology, orders: seq<seq<Host>>, clock: seq<Time>, r: State, a: App)
    requires RunOf(st, was, orders, clock, r) && a in st.tasks
    ensures var c := Candidates(st.tasks[a].matched, a, InOrder(was.Keys), was);
            && Ascending(c)
            && Sticky(Placements(r.topology, a), c[..Min(|st.tasks[a].pool|, |c|)], was, a, clock, st.readings, r.readings)
  {
    RunOfTask(st, was, orders, clock, r, a);
    hide RunOf;
    CandidatesAscend(st.tasks[a].matched, a, InOrder(was.Keys), was);
    TaskRunSticky(st.tasks[a], r.tasks[a], KeptHosts(st.tasks[a], a, InOrder(was.Keys), was), was, a,
                  Placements(r.topology, a), clock, st.readings, r.readings);
  }

  lemma TaskRunSticky(before: TaskState, after: TaskState, kept: seq<Host>, was: Topology, a: App, now: map<Host, Time>,
                      clock: seq<Time>, from: nat, to: nat)
    requires TaskRun(before, after, OldTimes(was, a, kept), now, clock, from, to)
    requires forall h :: h in kept ==> Runs(was, h, a)
    ensures Sticky(now, kept, was, a, clock, from, to)
  {
    forall h ensures h in kept <==> h in OldTimes(was, a, kept) {}
  }

  /** An app that stays on a host keeps its schedule time there. */
  lemma TimeStable(st: State, was: Topology, orders: seq<seq<Host>>, clock: seq<Time>, r: State, a: App, h: Host)
    requires RunOf(st, was, orders, clock, r) && a in st.tasks
    requires Runs(was, h, a) && Runs(r.topology, h, a)
    ensures r.topology[h][a] == was[h][a]
  {
    RunOfTask(st, was, orders, clock, r, a);
    KeptTimesFacts(st, was, a);
    StillMatching(st.tasks[a], a, InOrder(was.Keys), was, h);
    TimeOfTask(st.tasks[a], r.tasks[a], KeptTimes(st, was, a), Placements(r.topology, a), clock, st.readings, r.readings, h);
  }

  lemma TimeOfTask(before: TaskState, after: TaskState, kept: map<Host, Time>, now: map<Host, Time>,
                   clock: seq<Time>, from: nat, to: nat, h: Host)
    requires TaskRun(before, after, kept, now, clock, from, to) && h in now
    requires h in kept || |kept| == |before.pool|
    ensures h in kept && now[h] == kept[h]
  {
    if h !in kept { SubsetSameSize(kept.Keys, now.Keys); }
  }

  /** A still matching old host is kept unless the replicas run out. */
  lemma StillMatching(task: TaskState, a: App, hosts: seq<Host>, was: Topology, h: Host)
    requires Ascending(hosts) && h in hosts && h in task.matched && Runs(was, h, a)
    ensures h in KeptHosts(task, a, hosts, was) || |Elements(KeptHosts(task, a, hosts, was))| == |task.pool|
  {
    var c := Candidates(task.matched, a, hosts, was);
    KeptDistinct(task, a, hosts, was);
    if h !in KeptHosts(task, a, hosts, was) {
      assert h in c;
      assert c[..|c|] == c;
    }
  }

  lemma SubsetSameSize(small: set<Host>, big: set<Host>)
    requires small <= big && |big| <= |small|
    ensures small == big
  {
    var rest := big - small;
    assert big == small + rest;
    assert |rest| == 0;
  }

  /** Every node's occupied bytes are the sum of the requests of the apps placed on it, exactly when that sum
      fits the 64-bit counter. */
  lemma MemoryAccounted(st: State, was: Topology, orders: seq<seq<Host>>, clock: seq<Time>, r: State, h: Host)
    requires RunOf(st, was, orders, clock, r) && h in st.nodes
    ensures h in r.nodes && AppsOn(r.topology, h).Keys <= Requests(st).Keys
    ensures r.nodes[h].apps == AppsOn(r.topology, h).Keys
    ensures var sum := Sum(Requests(st), AppsOn(r.topology, h).Keys);
            && (r.nodes[h].occupied == sum <==> sum < TWO_TO_64)
            && (HostFits(st, h) ==> r.nodes[h].occupied == sum)
  {
    hide HostFits, RunOf;
    RunLedger(st, was, orders, clock, r);
    LedgerExact(st, r, h);
    BooksIff(r.nodes[h], AppsOn(r.topology, h), Requests(st));
    OnlyMatching(st, was, orders, clock, r, h);
    if HostFits(st, h) { FewerFit(st, h, AppsOn(r.topology, h).Keys); }
  }

  /** A host carries only apps that it matched. */
  lemma OnlyMatching(st: State, was: Topology, orders: seq<seq<Host>>, clock: seq<Time>, r: State, h: Host)
    requires RunOf(st, was, orders, clock, r) && h in st.nodes
    ensures AppsOn(r.topology, h).Keys <= Matching(st, h)
  {
    hide Ledger, Books, RunOf;
    RunLedger(st, was, orders, clock, r);
    LedgerExact(st, r, h);
    PlacedAreTasks(r.nodes[h], AppsOn(r.topology, h), Requests(st));
    forall a | a in AppsOn(r.topology, h) ensures a in Matching(st, h) {
      ReplicasConserved(st, was, orders, clock, r, a);
      assert h in Placements(r.topology, a);
    }
  }

  lemma PlacedAreTasks(node: NodeState, placed: map<App, Time>, requests: map<App, nat>)
    requires Books(node, placed, requests)
    ensures placed.Keys <= requests.Keys
  {
  }

  lemma FewerFit(st: State, h: Host, apps: set<App>)
    requires HostFits(st, h) && apps <= Matching(st, h)
    ensures Sum(Requests(st), apps) < TWO_TO_64
  {
    SumMonotone(Requests(st), apps, Matching(st, h));
  }

  lemma BooksIff(node: NodeState, placed: map<App, Time>, requests: map<App, nat>)
    requires Books(node, placed, requests)
    ensures node.occupied == Sum(requests, placed.Keys) <==> Sum(requests, placed.Keys) < TWO_TO_64
  {
  }

  lemma LedgerExact(st: State, r: State, h: Host)
    requires SameCluster(st, r) && Ledger(r) && h in r.nodes
    ensures Requests(st).Keys == st.tasks.Keys
    ensures Books(r.nodes[h], AppsOn(r.topology, h), Requests(st))
  {
    SameRequests(st, r);
    assert Requests(st).Keys == st.tasks.Keys;
    assert Books(r.nodes[h], AppsOn(r.topology, h), Requests(r));
  }

  /** A node that gets an app in the second phase ends strictly below its total; a node that the kept apps
      already fill gets nothing. */
  lemma CapacityRespected(st: State, was: Topology, orders: seq<seq<Host>>, clock: seq<Time>, r: State, h: Host)
    requires RunOf(st, was, orders, clock, r) && h in st.nodes
    ensures var k := Kept(st, was);
            && h in k.nodes && h in r.nodes
            && (AppsOn(r.topology, h).Keys != AppsOn(k.topology, h).Keys ==> r.nodes[h].occupied < r.nodes[h].total)
            && (k.nodes[h].Full() ==> AppsOn(r.topology, h).Keys == AppsOn(k.topology, h).Keys)
  {
    RunLedger(st, was, orders, clock, r);
    var k := Kept(st, was);
    assert Books(r.nodes[h], AppsOn(r.topology, h), Requests(r)) && Books(k.nodes[h], AppsOn(k.topology, h), Requests(k));
  }

  lemma RunTriesAll(st: State, was: Topology, orders: seq<seq<Host>>, clock: seq<Time>, r: State, a: App)
    requires RunOf(st, was, orders, clock, r) && a in st.tasks
    ensures SameCluster(st, r) && Ledger(r) && Unplaceable(st.tasks[a].matched - KeptTimes(st, was, a).Keys, a, r)
  {
    hide Ledger, KeepAll, KeepEffect, FillAll, FillOrders, Unplaceable;
    var k, apps := Kept(st, was), InOrder(st.tasks.Keys);
    RunLedger(st, was, orders, clock, r);
    FillTriesAllKept(st, was, orders, clock, a);
    StartBooks(st);
    KeepAllEffect(st, apps, was, a);
    KeepEffectFromStart(st, was, k, a);
  }

  lemma FillTriesAllKept(st: State, was: Topology, orders: seq<seq<Host>>, clock: seq<Time>, a: App)
    requires Start(st) && ScheduleOrders(st, was, orders, clock) && a in st.tasks
    ensures var k, r := Kept(st, was), Schedule(st, was, orders, clock); Ledger(r) && Unplaceable(k.tasks[a].matched, a, r)
  {
    hide Ledger, FreeHosts, KeepAll, FillAll, FillOrders, Unplaceable;
    var k, apps := Kept(st, was), InOrder(st.tasks.Keys);
    StartBooks(st);
    KeepAllLedger(st, apps, was);
    assert AllFree(k, apps);
    FillAllTriesAll(k, apps, orders, clock, a);
  }

  /** No capacity is wasted, whatever the counters do: if replicas of `a` are left over, every host that matched at entry
      and does not carry `a` carries, at the end, apps that ask for so much that `a` would fill it up. Where a counter shows
      its host's load, which it does while that is below its width, it shows this too. */
  lemma NoCapacityWasted(st: State, was: Topology, orders: seq<seq<Host>>, clock: seq<Time>, r: State, a: App, h: Host)
    requires RunOf(st, was, orders, clock, r)
    requires a in st.tasks && a in r.tasks && r.tasks[a].pool != {}
    requires h in st.tasks[a].matched && !Runs(r.topology, h, a)
    ensures Ledger(r) && h in r.nodes && Load(r, h) + st.tasks[a].request >= st.nodes[h].total
    ensures Load(r, h) < TWO_TO_64 ==> r.nodes[h].occupied + st.tasks[a].request >= st.nodes[h].total
  {
    hide Ledger, Load, Schedule, ScheduleOrders;
    RunTriesAll(st, was, orders, clock, r, a);
    RunOfTask(st, was, orders, clock, r, a);
    assert h !in Placements(r.topology, a);
    LoadCounted(r, h);
  }
}
