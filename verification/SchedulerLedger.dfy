/** What a single placement does to the books: who runs where, and how many bytes are taken. */
module SchedulerLedger {
  import opened OrderedKeys
  import opened SchedulerModel

  predicate Runs(t: Topology, h: Host, a: App) {
    h in t && a in t[h]
  }

  /** The hosts that run `a`, and since when. */
  function Placements(t: Topology, a: App): map<Host, Time> {
    map h | h in t && Runs(t, h, a) :: t[h][a]
  }

  /** The two topologies agree on every app but `a`. */
  ghost predicate SameExcept(t: Topology, u: Topology, a: App) {
    forall b :: b != a ==> Placements(t, b) == Placements(u, b)
  }

  /* Bytes requested by a set of apps. */

  ghost function Requests(st: State): map<App, nat> {
    map a | a in st.tasks :: st.tasks[a].request
  }

  ghost function Sum(requests: map<App, nat>, apps: set<App>): nat
    requires apps <= requests.Keys
    decreases |apps|
  {
    if apps == {} then 0 else
      var a :| a in apps;
      requests[a] + Sum(requests, apps - {a})
  }

  lemma {:induction false} SumRemove(requests: map<App, nat>, apps: set<App>, x: App)
    requires apps <= requests.Keys && x in apps
    ensures Sum(requests, apps) == requests[x] + Sum(requests, apps - {x})
    decreases |apps|
  {
    var a :| a in apps && Sum(requests, apps) == requests[a] + Sum(requests, apps - {a});
    if a != x {
      SumRemove(requests, apps - {a}, x);
      SumRemove(requests, apps - {x}, a);
      assert apps - {a} - {x} == apps - {x} - {a};
    }
  }

  lemma SumInsert(requests: map<App, nat>, apps: set<App>, x: App)
    requires apps <= requests.Keys && x in requests && x !in apps
    ensures Sum(requests, apps + {x}) == requests[x] + Sum(requests, apps)
  {
    SumRemove(requests, apps + {x}, x);
    assert apps + {x} - {x} == apps;
  }

  lemma {:induction false} SumMonotone(requests: map<App, nat>, small: set<App>, big: set<App>)
    requires small <= big <= requests.Keys
    ensures Sum(requests, small) <= Sum(requests, big)
    decreases |big - small|
  {
    if small != big {
      var x :| x in big && x !in small;
      SumInsert(requests, small, x);
      assert |big - (small + {x})| < |big - small| by {
        assert big - small == (big - (small + {x})) + {x};
      }
      SumMonotone(requests, small + {x}, big);
    }
  }

  lemma {:induction false} SumAtMost(requests: map<App, nat>, apps: set<App>, most: nat)
    requires apps <= requests.Keys && forall a :: a in apps ==> requests[a] <= most
    ensures Sum(requests, apps) <= |apps| * most
    decreases |apps|
  {
    if apps != {} {
      var a :| a in apps && Sum(requests, apps) == requests[a] + Sum(requests, apps - {a});
      SumAtMost(requests, apps - {a}, most);
      OneTimeMore(|apps - {a}|, most);
      assert |apps| == |apps - {a}| + 1;
    }
  }

  lemma OneTimeMore(n: nat, m: nat)
    ensures (n + 1) * m == n * m + m
  {
  }

  /** The tasks that a host matches. */
  ghost function Matching(st: State, h: Host): set<App> {
    set a | a in st.tasks && h in st.tasks[a].matched
  }

  /** All tasks that the host matches together ask for less than `2^64` bytes. */
  ghost predicate HostFits(st: State, h: Host) {
    Sum(Requests(st), Matching(st, h)) < TWO_TO_64
  }

  ghost predicate HostsFit(st: State) {
    forall h :: h in st.nodes ==> HostFits(st, h)
  }

  /** A node lists the apps placed on it, and its occupied bytes are what these apps ask for (modulo the
      width of the counter). */
  ghost predicate Books(node: NodeState, placed: map<App, Time>, requests: map<App, nat>) {
    && placed.Keys <= requests.Keys
    && node.apps == placed.Keys
    && node.occupied == Sum(requests, placed.Keys) % TWO_TO_64
  }

  lemma BooksAssign(node: NodeState, placed: map<App, Time>, requests: map<App, nat>, a: App, t: Time)
    requires Books(node, placed, requests) && a in requests && a !in placed
    ensures Books(node.Assign(a, requests[a]), placed[a := t], requests)
  {
    SumInsert(requests, placed.Keys, a);
    ModAdd(Sum(requests, placed.Keys), requests[a]);
    assert placed[a := t].Keys == placed.Keys + {a};
  }

  /** The books of all nodes agree with the topology, which lists no host without apps. */
  ghost predicate Ledger(st: State) {
    && st.topology.Keys <= st.nodes.Keys
    && (forall h :: h in st.topology ==> st.topology[h] != map[])
    && (forall h :: h in st.nodes ==> Books(st.nodes[h], AppsOn(st.topology, h), Requests(st)))
  }

  /** What the apps on a host ask for in all: a number of any size, which the host's counter may be too narrow for. */
  ghost function Load(st: State, h: Host): nat
    requires Ledger(st) && h in st.nodes
  {
    assert Books(st.nodes[h], AppsOn(st.topology, h), Requests(st));
    Sum(Requests(st), AppsOn(st.topology, h).Keys)
  }

  lemma LoadCounted(st: State, h: Host)
    requires Ledger(st) && h in st.nodes
    ensures st.nodes[h].occupied == Load(st, h) % TWO_TO_64
    ensures st.nodes[h].occupied <= Load(st, h)
    ensures Load(st, h) < TWO_TO_64 ==> st.nodes[h].occupied == Load(st, h)
  {
    hide Sum;
    assert Books(st.nodes[h], AppsOn(st.topology, h), Requests(st));
  }

  /** What no step changes. */
  ghost predicate SameCluster(s: State, t: State) {
    && s.nodes.Keys == t.nodes.Keys && s.tasks.Keys == t.tasks.Keys
    && (forall h :: h in s.nodes ==> s.nodes[h].total == t.nodes[h].total)
    && (forall a :: a in s.tasks ==> s.tasks[a].request == t.tasks[a].request)
  }

  lemma SameRequests(s: State, t: State)
    requires SameCluster(s, t)
    ensures Requests(s) == Requests(t)
  {
    assert Requests(s) == Requests(t);
  }

  lemma RecordPlacements(t: Topology, h: Host, a: App, time: Time)
    ensures Placements(Record(t, h, a, time), a) == Placements(t, a)[h := time]
    ensures SameExcept(t, Record(t, h, a, time), a)
  {
    var u := Record(t, h, a, time);
    forall b | b != a ensures Placements(t, b) == Placements(u, b) {
      assert forall x :: Runs(t, x, b) <==> Runs(u, x, b);
    }
  }

  lemma PlaceRequests(st: State, a: App, h: Host, t: Time)
    requires a in st.tasks && h in st.nodes && st.tasks[a].pool != {}
    ensures var r := Place(st, a, h, t); Requests(r) == Requests(st) && SameCluster(st, r)
  {
  }

  lemma PlaceKeepsLedger(st: State, a: App, h: Host, t: Time)
    requires Ledger(st) && a in st.tasks && h in st.nodes && st.tasks[a].pool != {}
    requires !Runs(st.topology, h, a)
    ensures var r := Place(st, a, h, t); Ledger(r) && SameCluster(st, r)
  {
    hide Books;
    var r := Place(st, a, h, t);
    PlaceRequests(st, a, h, t);
    forall x | x in r.nodes ensures Books(r.nodes[x], AppsOn(r.topology, x), Requests(r)) {
      if x == h {
        BooksAssign(st.nodes[h], AppsOn(st.topology, h), Requests(st), a, t);
      } else {
        assert AppsOn(r.topology, x) == AppsOn(st.topology, x);
      }
    }
    assert a in r.topology[h];
  }

  lemma ModAdd(s: nat, q: nat)
    ensures (s % TWO_TO_64 + q) % TWO_TO_64 == (s + q) % TWO_TO_64
  {
    var k := s / TWO_TO_64;
    assert s == k * TWO_TO_64 + s % TWO_TO_64;
    var d := (s % TWO_TO_64 + q) / TWO_TO_64;
    assert s + q == (k + d) * TWO_TO_64 + (s % TWO_TO_64 + q) % TWO_TO_64;
  }
}
