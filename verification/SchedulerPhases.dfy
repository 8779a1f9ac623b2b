/** What each of the two phases does for one task, and that it leaves every other task alone. */
module SchedulerPhases {
  import opened OrderedKeys
  import opened SchedulerModel
  import opened SchedulerLedger

  /** The two states agree on every app but `a`: its replicas, its hosts, what is left of it. */
  ghost predicate OthersUntouched(st: State, r: State, a: App) {
    && st.tasks.Keys == r.tasks.Keys
    && (forall b :: b in st.tasks && b != a ==> r.tasks[b] == st.tasks[b])
    && SameExcept(st.topology, r.topology, a)
  }

  function Min(a: nat, b: nat): nat { if a < b then a else b }

  /** While a task is matched to a host it has no replica there. */
  ghost predicate FreeHosts(st: State, a: App)
    requires a in st.tasks
  {
    st.tasks[a].matched !! Placements(st.topology, a).Keys
  }

  /* First phase, one task. */

  /** The hosts of `hosts` on which `a` runs and which still match. */
  function Candidates(matched: set<Host>, a: App, hosts: seq<Host>, was: Topology): (r: seq<Host>)
    ensures forall h :: h in r <==> h in hosts && h in matched && Runs(was, h, a)
    decreases |hosts|
  {
    if hosts == [] then [] else
      var rest := Candidates(matched, a, hosts[1..], was);
      if hosts[0] in matched && Runs(was, hosts[0], a) then [hosts[0]] + rest else rest
  }

  lemma {:induction false} CandidatesIgnore(matched: set<Host>, a: App, hosts: seq<Host>, was: Topology, h: Host)
    requires h !in hosts
    ensures Candidates(matched - {h}, a, hosts, was) == Candidates(matched, a, hosts, was)
    decreases |hosts|
  {
    if hosts != [] { CandidatesIgnore(matched, a, hosts[1..], was, h); }
  }

  /** The candidates that stay: the first ones, as long as there are replicas. */
  function KeptHosts(task: TaskState, a: App, hosts: seq<Host>, was: Topology): (r: seq<Host>)
    ensures forall h :: h in r ==> Runs(was, h, a) && h in task.matched
  {
    var c := Candidates(task.matched, a, hosts, was);
    c[..Min(|task.pool|, |c|)]
  }

  /** The old schedule times of `a` on the given hosts. */
  function OldTimes(was: Topology, a: App, hosts: seq<Host>): map<Host, Time>
  {
    map h | h in hosts && Runs(was, h, a) :: was[h][a]
  }

  /** The kept hosts keep their replica and its old schedule time; no other host gets one in this phase; a host
      is taken off the match list exactly when it keeps a replica. */
  ghost predicate KeepEffect(st: State, a: App, hosts: seq<Host>, was: Topology, r: State)
    requires a in st.tasks && a in r.tasks
  {
    var kept := KeptHosts(st.tasks[a], a, hosts, was);
    && Placements(r.topology, a) == Placements(st.topology, a) + OldTimes(was, a, kept)
    && r.tasks[a].matched == st.tasks[a].matched - Elements(kept)
    && r.tasks[a].pool <= st.tasks[a].pool
    && |r.tasks[a].pool| == |st.tasks[a].pool| - |kept|
    && r.tasks[a].request == st.tasks[a].request
  }

  lemma OthersTransitive(st: State, s: State, r: State, a: App)
    requires OthersUntouched(st, s, a) && OthersUntouched(s, r, a)
    ensures OthersUntouched(st, r, a)
  {
    forall b | b != a ensures Placements(st.topology, b) == Placements(r.topology, b) {
      assert Placements(st.topology, b) == Placements(s.topology, b);
    }
  }

  lemma {:induction false} KeepHostsEffect(st: State, a: App, hosts: seq<Host>, was: Topology)
    requires a in st.tasks && st.tasks[a].matched <= st.nodes.Keys
    requires forall h :: h in hosts ==> h in was
    requires Ascending(hosts)
    ensures var r := KeepHosts(st, a, hosts, was);
            OthersUntouched(st, r, a) && r.readings == st.readings && KeepEffect(st, a, hosts, was, r)
    decreases |hosts|
  {
    hide KeepOne, KeepEffect, OthersUntouched;
    if hosts == [] {
      KeepEffectNone(st, a, hosts, was);
    } else {
      var h, rest := hosts[0], hosts[1..];
      if h in st.tasks[a].matched && Runs(was, h, a) {
        if st.tasks[a].pool == {} {
          KeepEffectNone(st, a, hosts, was);
        } else {
          var s := KeepOne(st, a, h, was);
          KeepOneOthers(st, a, h, was);
          KeepHostsEffect(s, a, rest, was);
          OthersTransitive(st, s, KeepHosts(s, a, rest, was), a);
          KeepEffectCons(st, a, hosts, was, KeepHosts(s, a, rest, was));
        }
      } else {
        KeepHostsEffect(st, a, rest, was);
        KeepEffectSkip(st, a, hosts, was, KeepHosts(st, a, rest, was));
      }
    }
  }

  lemma KeepOneOthers(st: State, a: App, h: Host, was: Topology)
    requires a in st.tasks && h in st.nodes && st.tasks[a].pool != {} && Runs(was, h, a)
    ensures OthersUntouched(st, KeepOne(st, a, h, was), a) && KeepOne(st, a, h, was).readings == st.readings
  {
    RecordPlacements(st.topology, h, a, was[h][a]);
  }

  lemma KeepEffectNone(st: State, a: App, hosts: seq<Host>, was: Topology)
    requires a in st.tasks && (hosts == [] || st.tasks[a].pool == {})
    ensures KeepEffect(st, a, hosts, was, st) && OthersUntouched(st, st, a)
  {
    assert KeptHosts(st.tasks[a], a, hosts, was) == [];
  }

  lemma KeepEffectSkip(st: State, a: App, hosts: seq<Host>, was: Topology, r: State)
    requires a in st.tasks && a in r.tasks && hosts != []
    requires !(hosts[0] in st.tasks[a].matched && Runs(was, hosts[0], a))
    requires KeepEffect(st, a, hosts[1..], was, r)
    ensures KeepEffect(st, a, hosts, was, r)
  {
    assert KeptHosts(st.tasks[a], a, hosts, was) == KeptHosts(st.tasks[a], a, hosts[1..], was);
  }

  lemma KeepEffectCons(st: State, a: App, hosts: seq<Host>, was: Topology, r: State)
    requires a in st.tasks && a in r.tasks
    requires Ascending(hosts) && hosts != [] && st.tasks[a].pool != {} && hosts[0] in st.nodes
    requires hosts[0] in st.tasks[a].matched && Runs(was, hosts[0], a)
    requires KeepEffect(KeepOne(st, a, hosts[0], was), a, hosts[1..], was, r)
    ensures KeepEffect(st, a, hosts, was, r)
  {
    var h := hosts[0];
    var s := KeepOne(st, a, h, was);
    RecordPlacements(st.topology, h, a, was[h][a]);
    KeptFirst(st.tasks[a], a, hosts, was);
    OldTimesCons(Placements(st.topology, a), was, a, h, KeptHosts(s.tasks[a], a, hosts[1..], was));
  }

  lemma OldTimesCons(m: map<Host, Time>, was: Topology, a: App, h: Host, rest: seq<Host>)
    requires Runs(was, h, a)
    ensures m[h := was[h][a]] + OldTimes(was, a, rest) == m + OldTimes(was, a, [h] + rest)
    ensures Elements([h] + rest) == {h} + Elements(rest)
  {
    var l, r := m[h := was[h][a]] + OldTimes(was, a, rest), m + OldTimes(was, a, [h] + rest);
    forall x ensures x in l <==> x in r {}
    assert l.Keys == r.Keys;
    forall x | x in l ensures l[x] == r[x] {
      if x in OldTimes(was, a, rest) { assert x in [h] + rest; }
    }
  }

  /** The first kept host, then those kept among the rest. */
  lemma KeptFirst(task: TaskState, a: App, hosts: seq<Host>, was: Topology)
    requires Ascending(hosts) && hosts != [] && task.pool != {}
    requires hosts[0] in task.matched && Runs(was, hosts[0], a)
    ensures var s := TaskState(task.request, task.matched - {hosts[0]}, EraseFirst(task.pool));
            KeptHosts(task, a, hosts, was) == [hosts[0]] + KeptHosts(s, a, hosts[1..], was)
  {
    if hosts[0] in hosts[1..] {
      var i :| 1 <= i < |hosts| && hosts[i] == hosts[0];
      AscendingDistinct(hosts, 0, i);
    }
    CandidatesIgnore(task.matched, a, hosts[1..], was, hosts[0]);
  }

  lemma {:induction false} KeepHostsLedger(st: State, a: App, hosts: seq<Host>, was: Topology)
    requires a in st.tasks && st.tasks[a].matched <= st.nodes.Keys && Ledger(st) && FreeHosts(st, a)
    requires forall h :: h in hosts ==> h in was
    ensures var r := KeepHosts(st, a, hosts, was); Ledger(r) && SameCluster(st, r) && FreeHosts(r, a)
    decreases |hosts|
  {
    hide KeepOne, Ledger;
    if hosts != [] {
      var h, rest := hosts[0], hosts[1..];
      if h in st.tasks[a].matched && Runs(was, h, a) {
        if st.tasks[a].pool != {} {
          var s := KeepOne(st, a, h, was);
          KeepOneLedger(st, a, h, was);
          KeepHostsLedger(s, a, rest, was);
        }
      } else {
        KeepHostsLedger(st, a, rest, was);
      }
    }
  }

  lemma KeepOneLedger(st: State, a: App, h: Host, was: Topology)
    requires Ledger(st) && a in st.tasks && h in st.nodes && st.tasks[a].pool != {} && Runs(was, h, a)
    requires FreeHosts(st, a) && h in st.tasks[a].matched
    ensures var s := KeepOne(st, a, h, was); Ledger(s) && SameCluster(st, s) && FreeHosts(s, a)
  {
    var task := st.tasks[a];
    var u := st.(tasks := st.tasks[a := task.(matched := task.matched - {h})]);
    SameRequests(st, u);
    PlaceKeepsLedger(u, a, h, was[h][a]);
    RecordPlacements(st.topology, h, a, was[h][a]);
  }

  /* Second phase, one task. */

  /** One task's placements go from `p` to `q`: only `hosts` get replicas, at fresh readings of the clock, and
      replicas are neither made nor lost. */
  ghost predicate Filled(p: map<Host, Time>, q: map<Host, Time>, hosts: set<Host>, before: TaskState, after: TaskState,
                         clock: seq<Time>, from: nat, to: nat)
  {
    && p.Keys <= q.Keys <= p.Keys + hosts
    && (forall h :: h in p ==> q[h] == p[h])
    && (forall h :: h in q && h !in p ==> Reading(clock, from, to, q[h]))
    && after.matched == before.matched
    && after.pool <= before.pool
    && |q| + |after.pool| == |p| + |before.pool|
    && from <= to
  }

  ghost predicate FillEffect(st: State, a: App, hosts: set<Host>, clock: seq<Time>, r: State)
    requires a in st.tasks && a in r.tasks
  {
    Filled(Placements(st.topology, a), Placements(r.topology, a), hosts, st.tasks[a], r.tasks[a],
           clock, st.readings, r.readings)
  }

  lemma FilledCons(p: map<Host, Time>, q: map<Host, Time>, hosts: set<Host>, before: TaskState, after: TaskState,
                   clock: seq<Time>, from: nat, to: nat, h: Host)
    requires h !in p && before.pool != {}
    requires Filled(p[h := Now(clock, from)], q, hosts, before.(pool := EraseFirst(before.pool)), after, clock, from + 1, to)
    ensures Filled(p, q, hosts + {h}, before, after, clock, from, to)
  {
    hide Now;
    var s := p[h := Now(clock, from)];
    assert |s| == |p| + 1;
    forall x | x in p ensures q[x] == p[x] { assert x in s; }
    assert h in s;
    forall x | x in q && x !in p ensures Reading(clock, from, to, q[x]) {
      if x != h { assert x !in s; }
    }
  }

  ghost predicate Reading(clock: seq<Time>, from: nat, to: nat, t: Time) {
    exists k: nat :: from <= k < to && t == Now(clock, k)
  }

  /** The hosts of `order` are different nodes, and none of them runs `a` yet. */
  ghost predicate Untried(st: State, a: App, order: seq<Host>) {
    && Elements(order) <= st.nodes.Keys
    && Elements(order) !! Placements(st.topology, a).Keys
    && (forall i, j :: 0 <= i < j < |order| ==> order[i] != order[j])
  }

  lemma UntriedRest(st: State, a: App, order: seq<Host>)
    requires Untried(st, a, order) && order != []
    ensures Untried(st, a, order[1..]) && forall h :: h in order ==> h in st.nodes
    ensures Elements(order) == Elements(order[1..]) + {order[0]} && order[0] !in Elements(order[1..])
    ensures order[0] in st.nodes && order[0] !in Placements(st.topology, a)
  {
    assert order[0] in Elements(order);
    forall h | h in Elements(order[1..]) ensures h in Elements(order) && h != order[0] {}
  }

  lemma {:induction false} FillHostsEffect(st: State, a: App, order: seq<Host>, clock: seq<Time>)
    requires a in st.tasks && Untried(st, a, order)
    ensures var r := Fill(st, a, order, clock);
            OthersUntouched(st, r, a) && FillEffect(st, a, Elements(order), clock, r)
    decreases |order|
  {
    hide PlaceNow, FillEffect, OthersUntouched, Untried;
    if order == [] || st.tasks[a].pool == {} {
      FillEffectNone(st, a, order, clock);
    } else {
      var h, rest := order[0], order[1..];
      UntriedRest(st, a, order);
      if Accepts(st, a, h) {
        var s := PlaceNow(st, a, h, clock);
        PlaceNowUntried(st, a, order, clock);
        FillHostsEffect(s, a, rest, clock);
        OthersTransitive(st, s, Fill(s, a, rest, clock), a);
        FillEffectCons(st, a, order, clock, Fill(s, a, rest, clock));
      } else {
        FillHostsEffect(st, a, rest, clock);
        FillEffectSkip(st, a, order, clock, Fill(st, a, rest, clock));
      }
    }
  }

  lemma PlaceNowUntried(st: State, a: App, order: seq<Host>, clock: seq<Time>)
    requires a in st.tasks && Untried(st, a, order) && order != [] && order[0] in st.nodes && st.tasks[a].pool != {}
    ensures var s := PlaceNow(st, a, order[0], clock);
            && OthersUntouched(st, s, a) && Untried(s, a, order[1..])
            && Placements(s.topology, a) == Placements(st.topology, a)[order[0] := Now(clock, st.readings)]
  {
    RecordPlacements(st.topology, order[0], a, Now(clock, st.readings));
    UntriedRest(st, a, order);
  }

  lemma FillEffectNone(st: State, a: App, order: seq<Host>, clock: seq<Time>)
    requires a in st.tasks
    ensures FillEffect(st, a, Elements(order), clock, st) && OthersUntouched(st, st, a)
  {
  }

  lemma FillEffectSkip(st: State, a: App, order: seq<Host>, clock: seq<Time>, r: State)
    requires a in st.tasks && a in r.tasks && order != []
    requires FillEffect(st, a, Elements(order[1..]), clock, r)
    ensures FillEffect(st, a, Elements(order), clock, r)
  {
    assert Elements(order[1..]) <= Elements(order);
  }

  lemma FillEffectCons(st: State, a: App, order: seq<Host>, clock: seq<Time>, r: State)
    requires a in st.tasks && a in r.tasks && st.tasks[a].pool != {}
    requires order != [] && order[0] in st.nodes && order[0] !in Placements(st.topology, a)
    requires FillEffect(PlaceNow(st, a, order[0], clock), a, Elements(order[1..]), clock, r)
    ensures FillEffect(st, a, Elements(order), clock, r)
  {
    var h, t := order[0], Now(clock, st.readings);
    RecordPlacements(st.topology, h, a, t);
    assert Elements(order) == Elements(order[1..]) + {h};
    FilledCons(Placements(st.topology, a), Placements(r.topology, a), Elements(order[1..]), st.tasks[a], r.tasks[a],
               clock, st.readings, r.readings, h);
  }

  lemma {:induction false} FillHostsLedger(st: State, a: App, order: seq<Host>, clock: seq<Time>)
    requires Ledger(st) && a in st.tasks && Untried(st, a, order)
    ensures var r := Fill(st, a, order, clock); Ledger(r) && SameCluster(st, r)
    decreases |order|
  {
    if order != [] && st.tasks[a].pool != {} {
      var h, rest := order[0], order[1..];
      UntriedRest(st, a, order);
      if Accepts(st, a, h) {
        PlaceNowLedger(st, a, h, clock);
        var s := PlaceNow(st, a, h, clock);
        FillHostsLedger(s, a, rest, clock);
      } else {
        FillHostsLedger(st, a, rest, clock);
      }
    }
  }

  lemma PlaceNowLedger(st: State, a: App, h: Host, clock: seq<Time>)
    requires Ledger(st) && a in st.tasks && h in st.nodes && st.tasks[a].pool != {}
    requires h !in Placements(st.topology, a)
    ensures var s := PlaceNow(st, a, h, clock);
            && Ledger(s) && SameCluster(st, s)
            && Placements(s.topology, a) == Placements(st.topology, a)[h := Now(clock, st.readings)]
  {
    var t := Now(clock, st.readings);
    PlaceKeepsLedger(st, a, h, t);
    SameRequests(Place(st, a, h, t), PlaceNow(st, a, h, clock));
    RecordPlacements(st.topology, h, a, t);
  }

  /* How full the nodes get. */

  /** A node that changed was not full, and still has free bytes. */
  ghost predicate RoomLeft(st: State, r: State)
    requires st.nodes.Keys == r.nodes.Keys
  {
    forall h :: h in st.nodes ==>
      r.nodes[h] == st.nodes[h] || (!st.nodes[h].Full() && r.nodes[h].total == st.nodes[h].total && !r.nodes[h].Full())
  }

  lemma {:induction false} FillRoomLeft(st: State, a: App, order: seq<Host>, clock: seq<Time>)
    requires a in st.tasks && forall h :: h in order ==> h in st.nodes
    ensures RoomLeft(st, Fill(st, a, order, clock))
    decreases |order|
  {
    if order != [] && st.tasks[a].pool != {} {
      var h, rest := order[0], order[1..];
      if Accepts(st, a, h) {
        var s := PlaceNow(st, a, h, clock);
        FillRoomLeft(s, a, rest, clock);
      } else {
        FillRoomLeft(st, a, rest, clock);
      }
    }
  }

  /** Nodes keep the apps they carry. */
  ghost predicate Fuller(st: State, r: State) {
    SameCluster(st, r) && forall h :: h in st.nodes ==> AppsOn(st.topology, h).Keys <= AppsOn(r.topology, h).Keys
  }

  /** The host cannot take a replica that asks for `request` bytes, whatever its counter says. */
  ghost predicate NoRoom(st: State, h: Host, request: nat)
    requires Ledger(st) && h in st.nodes
  {
    Load(st, h) + request >= st.nodes[h].total
  }

  lemma NoRoomStays(st: State, r: State, h: Host, request: nat)
    requires Ledger(st) && Ledger(r) && Fuller(st, r) && h in st.nodes && NoRoom(st, h, request)
    ensures NoRoom(r, h, request)
  {
    SameRequests(st, r);
    assert Books(r.nodes[h], AppsOn(r.topology, h), Requests(r));
    SumMonotone(Requests(st), AppsOn(st.topology, h).Keys, AppsOn(r.topology, h).Keys);
  }

  lemma {:induction false} FillFuller(st: State, a: App, order: seq<Host>, clock: seq<Time>)
    requires Ledger(st) && a in st.tasks && Untried(st, a, order)
    ensures Fuller(st, Fill(st, a, order, clock))
    decreases |order|
  {
    hide PlaceNow, Ledger, Accepts, Untried;
    if order != [] && st.tasks[a].pool != {} {
      var h, rest := order[0], order[1..];
      UntriedRest(st, a, order);
      if Accepts(st, a, h) {
        PlaceNowFuller(st, a, h, clock);
        PlaceNowUntried(st, a, order, clock);
        FillFuller(PlaceNow(st, a, h, clock), a, rest, clock);
      } else {
        FillFuller(st, a, rest, clock);
      }
    }
  }

  lemma PlaceNowFuller(st: State, a: App, h: Host, clock: seq<Time>)
    requires Ledger(st) && a in st.tasks && h in st.nodes && st.tasks[a].pool != {}
    requires h !in Placements(st.topology, a)
    ensures var s := PlaceNow(st, a, h, clock);
            && Ledger(s) && Fuller(st, s)
            && Placements(s.topology, a) == Placements(st.topology, a)[h := Now(clock, st.readings)]
  {
    hide Ledger;
    PlaceNowLedger(st, a, h, clock);
  }

  /** A refusal is never due to the counter alone: it only ever shows too little. */
  lemma RejectedNoRoom(st: State, a: App, h: Host)
    requires Ledger(st) && a in st.tasks && h in st.nodes && !Accepts(st, a, h)
    ensures NoRoom(st, h, st.tasks[a].request)
  {
    hide Ledger, Load;
    LoadCounted(st, h);
    AddNoMore(st.nodes[h].occupied, st.tasks[a].request);
  }

  lemma AddNoMore(a: nat, b: nat)
    ensures Add64(a, b) <= a + b && (a + b < TWO_TO_64 ==> Add64(a, b) == a + b)
  {
  }

  /** If replicas remain, every host of `order` either took one or is too full to. */
  ghost predicate AllTried(order: seq<Host>, a: App, r: State)
    requires a in r.tasks && Ledger(r) && Elements(order) <= r.nodes.Keys
  {
    r.tasks[a].pool != {} ==>
      forall h :: h in Elements(order) ==> h in Placements(r.topology, a) || NoRoom(r, h, r.tasks[a].request)
  }

  lemma {:induction false} FillTriesAll(st: State, a: App, order: seq<Host>, clock: seq<Time>)
    requires Ledger(st) && a in st.tasks && Untried(st, a, order)
    ensures var r := Fill(st, a, order, clock);
            r.tasks[a].request == st.tasks[a].request && Ledger(r) && AllTried(order, a, r)
    decreases |order|
  {
    hide PlaceNow, Ledger, Accepts, Untried, NoRoom;
    FillHostsLedger(st, a, order, clock);
    if order != [] && st.tasks[a].pool != {} {
      var h, rest := order[0], order[1..];
      UntriedRest(st, a, order);
      if Accepts(st, a, h) {
        PlaceNowFuller(st, a, h, clock);
        PlaceNowUntried(st, a, order, clock);
        var s := PlaceNow(st, a, h, clock);
        FillTriesAll(s, a, rest, clock);
        FillHostsEffect(s, a, rest, clock);
      } else {
        RejectedNoRoom(st, a, h);
        FillTriesAll(st, a, rest, clock);
        FillFuller(st, a, rest, clock);
        NoRoomStays(st, Fill(st, a, rest, clock), h, st.tasks[a].request);
      }
    }
  }
}
