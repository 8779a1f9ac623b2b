/** The histogram of the Prometheus exporter. Its numbers are exact here. */
module Histogram {
  import opened OrderedKeys
  import opened AtomicCells

  /** The boundaries ascend: the constructor asserts it. */
  predicate Sorted(boundaries: seq<real>) {
    forall i, j :: 0 <= i < j < |boundaries| ==> boundaries[i] <= boundaries[j]
  }

  /** `find_if`: the first boundary that is not below the value. */
  method FindBucket(boundaries: seq<real>, value: real) returns (i: nat)
    ensures i == BucketOf(boundaries, value)
  {
    i := 0;
    while i < |boundaries|
      invariant i <= |boundaries|
      invariant BucketOf(boundaries, value) == i + BucketOf(boundaries[i..], value)
    {
      if boundaries[i] >= value {
        return i;
      }
      assert boundaries[i..][1..] == boundaries[i + 1..];
      i := i + 1;
    }
  }

  function BucketOf(boundaries: seq<real>, value: real): (i: nat)
    ensures i <= |boundaries|
    ensures i < |boundaries| ==> value <= boundaries[i]
    ensures forall j :: 0 <= j < i ==> boundaries[j] < value
  {
    if boundaries == [] || boundaries[0] >= value then 0 else 1 + BucketOf(boundaries[1..], value)
  }

  /* The calls as changes: the buckets are the first cells, the sum is the last. */

  function SumCell(boundaries: seq<real>): nat {
    |boundaries| + 1
  }

  function Observe(boundaries: seq<real>, value: real): (changes: seq<Change>)
    ensures |changes| == 2
  {
    [Change(SumCell(boundaries), value), Change(BucketOf(boundaries, value), 1.0)]
  }

  /** What a thread does that observes some values, one after another. */
  function ObserveAll(boundaries: seq<real>, values: seq<real>): (changes: seq<Change>)
    ensures |changes| == 2 * |values|
  {
    if values == [] then [] else Observe(boundaries, values[0]) + ObserveAll(boundaries, values[1..])
  }

  function Calls(boundaries: seq<real>, plans: seq<seq<real>>): (calls: seq<seq<Change>>)
    ensures |calls| == |plans| && forall k :: 0 <= k < |plans| ==> calls[k] == ObserveAll(boundaries, plans[k])
  {
    seq(|plans|, k requires 0 <= k < |plans| => ObserveAll(boundaries, plans[k]))
  }

  /** A counter ignores negative increments. */
  function Increments(increments: seq<real>, i: nat): seq<Change>
    requires i <= |increments|
    decreases |increments| - i
  {
    if i == |increments| then []
    else (if increments[i] < 0.0 then [] else [Change(i, increments[i])]) + Increments(increments, i + 1)
  }

  datatype Call = Changes(changes: seq<Change>) | LengthError

  /** Refused, before anything is changed, unless there is an increment for every bucket. */
  function ObserveMultiple(boundaries: seq<real>, increments: seq<real>, sum: real): Call {
    if |increments| != |boundaries| + 1 then LengthError
    else Changes([Change(SumCell(boundaries), sum)] + Increments(increments, 0))
  }

  function Zeros(boundaries: seq<real>): seq<real> {
    seq(|boundaries| + 2, i => 0.0)
  }

  /* Collecting */

  datatype Metric = Metric(cumulative: seq<real>, sampleCount: real, sampleSum: real)

  function Total(counts: seq<real>, n: nat): real
    requires n <= |counts|
  {
    if n == 0 then 0.0 else Total(counts, n - 1) + counts[n - 1]
  }

  /** `Collect`: the running total of the buckets. `cells` are the values it reads, one after another. */
  method Collect(boundaries: seq<real>, cells: seq<real>) returns (metric: Metric)
    requires |cells| == |boundaries| + 2
    ensures |metric.cumulative| == |boundaries| + 1
    ensures forall i :: 0 <= i <= |boundaries| ==> metric.cumulative[i] == Total(cells, i + 1)
    ensures metric.sampleCount == Total(cells, |boundaries| + 1) && metric.sampleSum == cells[SumCell(boundaries)]
  {
    var cumulative := 0.0;
    var buckets: seq<real> := [];
    var i := 0;
    while i < |boundaries| + 1
      invariant 0 <= i <= |boundaries| + 1 && |buckets| == i
      invariant cumulative == Total(cells, i)
      invariant forall j :: 0 <= j < i ==> buckets[j] == Total(cells, j + 1)
    {
      cumulative := cumulative + cells[i];
      buckets := buckets + [cumulative];
      i := i + 1;
    }
    metric := Metric(buckets, cumulative, cells[SumCell(boundaries)]);
  }

  /* What the buckets hold in the end */

  /** How many of the values are at most `bound`. */
  function CountUpTo(values: seq<real>, bound: real): nat {
    if values == [] then 0 else (if values[0] <= bound then 1 else 0) + CountUpTo(values[1..], bound)
  }

  function SumOf(values: seq<real>): real {
    if values == [] then 0.0 else values[0] + SumOf(values[1..])
  }

  /** Any interleaving of threads on a new histogram, each of which observes the values of its plan. */
  ghost predicate ObserveRun(states: seq<State>, boundaries: seq<real>, plans: seq<seq<real>>) {
    Run(states) && states[0] == State(Zeros(boundaries), Started(Calls(boundaries, plans)))
  }

  /** How many of the values fall into the buckets before the `n`-th. */
  function CountBefore(boundaries: seq<real>, values: seq<real>, n: nat): nat {
    if values == [] then 0
    else (if BucketOf(boundaries, values[0]) < n then 1 else 0) + CountBefore(boundaries, values[1..], n)
  }

  lemma AddedByObserve(boundaries: seq<real>, value: real, cell: nat)
    ensures Added(Observe(boundaries, value), 2, cell) ==
      (if cell == SumCell(boundaries) then value else 0.0) + (if cell == BucketOf(boundaries, value) then 1.0 else 0.0)
  {
    var changes := Observe(boundaries, value);
    assert Added(changes, 0, cell) == 0.0;
    assert Added(changes, 1, cell) == if cell == SumCell(boundaries) then value else 0.0;
  }

  /** How many of the values fall into one bucket. */
  function CountIn(boundaries: seq<real>, values: seq<real>, bucket: nat): nat {
    if values == [] then 0
    else (if BucketOf(boundaries, values[0]) == bucket then 1 else 0) + CountIn(boundaries, values[1..], bucket)
  }

  lemma {:induction false} CountInConcat(boundaries: seq<real>, a: seq<real>, b: seq<real>, bucket: nat)
    ensures CountIn(boundaries, a + b, bucket) == CountIn(boundaries, a, bucket) + CountIn(boundaries, b, bucket)
  {
    if a == [] {
      AppendNothing(b);
    } else {
      assert (a + b)[1..] == a[1..] + b;
      CountInConcat(boundaries, a[1..], b, bucket);
    }
  }

  lemma {:induction false} SumOfConcat(a: seq<real>, b: seq<real>)
    ensures SumOf(a + b) == SumOf(a) + SumOf(b)
  {
    if a == [] {
      AppendNothing(b);
    } else {
      assert (a + b)[1..] == a[1..] + b;
      SumOfConcat(a[1..], b);
    }
  }

  lemma ObserveFirst(boundaries: seq<real>, value: real, n: nat, cell: nat)
    requires n < 2
    ensures Added(Observe(boundaries, value), n, cell) == if n == 1 && cell == SumCell(boundaries) then value else 0.0
  {
    assert Added(Observe(boundaries, value), 0, cell) == 0.0;
  }

  /** A thread adds a value to the sum and then counts it: a bucket holds the calls that have returned. */
  lemma {:induction false} AddedSoFar(boundaries: seq<real>, values: seq<real>, n: nat, bucket: nat)
    requires n <= 2 * |values| && bucket <= |boundaries|
    ensures Added(ObserveAll(boundaries, values), n, bucket) == CountIn(boundaries, values[..n / 2], bucket) as real
    ensures Added(ObserveAll(boundaries, values), n, SumCell(boundaries)) == SumOf(values[..(n + 1) / 2])
  {
    hide Added, Observe;
    if n < 2 {
      if values != [] {
        AddedPrefix(Observe(boundaries, values[0]), ObserveAll(boundaries, values[1..]), n, bucket);
        AddedPrefix(Observe(boundaries, values[0]), ObserveAll(boundaries, values[1..]), n, SumCell(boundaries));
        ObserveFirst(boundaries, values[0], n, bucket);
        ObserveFirst(boundaries, values[0], n, SumCell(boundaries));
      } else {
        AddedNone([], bucket);
        AddedNone([], SumCell(boundaries));
      }
    } else {
      var rest := values[1..];
      AddedConcat(Observe(boundaries, values[0]), ObserveAll(boundaries, rest), n - 2, bucket);
      AddedConcat(Observe(boundaries, values[0]), ObserveAll(boundaries, rest), n - 2, SumCell(boundaries));
      AddedByObserve(boundaries, values[0], bucket);
      AddedByObserve(boundaries, values[0], SumCell(boundaries));
      AddedSoFar(boundaries, rest, n - 2, bucket);
      assert values[..n / 2][1..] == rest[..(n - 2) / 2];
      assert values[..(n + 1) / 2][1..] == rest[..(n - 1) / 2];
    }
  }

  lemma AddedNone(changes: seq<Change>, cell: nat)
    ensures Added(changes, 0, cell) == 0.0
  {
  }

  /* What was observed by some moment */

  ghost predicate Follows(threads: seq<Thread>, boundaries: seq<real>, plans: seq<seq<real>>) {
    |threads| == |plans| &&
    forall k :: 0 <= k < |plans| ==>
      threads[k].changes == ObserveAll(boundaries, plans[k]) && threads[k].done <= |threads[k].changes|
  }

  /** The values of the calls that have returned. */
  ghost function Returned(threads: seq<Thread>, boundaries: seq<real>, plans: seq<seq<real>>): seq<real>
    requires Follows(threads, boundaries, plans)
    decreases |plans|
  {
    if plans == [] then []
    else plans[0][..threads[0].done / 2] + Returned(threads[1..], boundaries, plans[1..])
  }

  /** These, and the values that were only added to the sum yet. */
  ghost function Summed(threads: seq<Thread>, boundaries: seq<real>, plans: seq<seq<real>>): seq<real>
    requires Follows(threads, boundaries, plans)
    decreases |plans|
  {
    if plans == [] then []
    else plans[0][..(threads[0].done + 1) / 2] + Summed(threads[1..], boundaries, plans[1..])
  }

  /** All values of all threads. */
  function Flatten(plans: seq<seq<real>>): seq<real> {
    if plans == [] then [] else plans[0] + Flatten(plans[1..])
  }

  lemma {:induction false} AllReturned(threads: seq<Thread>, boundaries: seq<real>, plans: seq<seq<real>>)
    requires Follows(threads, boundaries, plans) && forall k :: 0 <= k < |threads| ==> threads[k].done == |threads[k].changes|
    ensures Returned(threads, boundaries, plans) == Flatten(plans) == Summed(threads, boundaries, plans)
    decreases |plans|
  {
    if plans != [] {
      assert plans[0][..|plans[0]|] == plans[0];
      AllReturned(threads[1..], boundaries, plans[1..]);
    }
  }

  lemma {:induction false} AddedByThreads(threads: seq<Thread>, boundaries: seq<real>, plans: seq<seq<real>>, bucket: nat)
    requires Follows(threads, boundaries, plans) && bucket <= |boundaries|
    ensures AddedByAll(threads, bucket) == CountIn(boundaries, Returned(threads, boundaries, plans), bucket) as real
    ensures AddedByAll(threads, SumCell(boundaries)) == SumOf(Summed(threads, boundaries, plans))
    decreases |plans|
  {
    hide Added, CountIn, SumOf;
    if plans == [] {
      NoValues(boundaries, bucket);
    } else {
      var (n, values) := (threads[0].done, plans[0]);
      AddedSoFar(boundaries, values, n, bucket);
      AddedByThreads(threads[1..], boundaries, plans[1..], bucket);
      CountInConcat(boundaries, values[..n / 2], Returned(threads[1..], boundaries, plans[1..]), bucket);
      SumOfConcat(values[..(n + 1) / 2], Summed(threads[1..], boundaries, plans[1..]));
    }
  }

  lemma NoValues(boundaries: seq<real>, bucket: nat)
    ensures CountIn(boundaries, [], bucket) == 0 && SumOf([]) == 0.0
  {
  }

  lemma {:induction false} CountBeforeNext(boundaries: seq<real>, values: seq<real>, n: nat)
    ensures CountBefore(boundaries, values, n + 1) == CountBefore(boundaries, values, n) + CountIn(boundaries, values, n)
  {
    if values != [] { CountBeforeNext(boundaries, values[1..], n); }
  }

  lemma {:induction false} NoneBefore(boundaries: seq<real>, values: seq<real>)
    ensures CountBefore(boundaries, values, 0) == 0
    ensures CountBefore(boundaries, values, |boundaries| + 1) == |values|
  {
    if values != [] { NoneBefore(boundaries, values[1..]); }
  }

  /** With sorted boundaries, the buckets up to one hold the values that are at most its boundary. */
  lemma {:induction false} CountBeforeIsUpTo(boundaries: seq<real>, values: seq<real>, i: nat)
    requires Sorted(boundaries) && i < |boundaries|
    ensures CountBefore(boundaries, values, i + 1) == CountUpTo(values, boundaries[i])
  {
    if values != [] {
      var b := BucketOf(boundaries, values[0]);
      if b <= i { assert boundaries[b] <= boundaries[i]; }
      CountBeforeIsUpTo(boundaries, values[1..], i);
    }
  }

  lemma {:induction false} TotalIsCount(boundaries: seq<real>, values: seq<real>, cells: seq<real>, n: nat)
    requires |cells| == |boundaries| + 2 && n <= |boundaries| + 1
    requires forall b :: 0 <= b <= |boundaries| ==> cells[b] == CountIn(boundaries, values, b) as real
    ensures Total(cells, n) == CountBefore(boundaries, values, n) as real
  {
    if n == 0 {
      NoneBefore(boundaries, values);
    } else {
      TotalIsCount(boundaries, values, cells, n - 1);
      CountBeforeNext(boundaries, values, n - 1);
    }
  }

  /** The running totals do not descend, where no count is negative. */
  lemma {:induction false} TotalsAscend(cells: seq<real>, m: nat, n: nat)
    requires m <= n <= |cells| && forall i :: 0 <= i < n ==> cells[i] >= 0.0
    ensures Total(cells, m) <= Total(cells, n)
  {
    if m < n { TotalsAscend(cells, m, n - 1); }
  }

  lemma {:induction false} CellsExist(boundaries: seq<real>, values: seq<real>, c: nat)
    requires c < 2 * |values|
    ensures ObserveAll(boundaries, values)[c].cell < |boundaries| + 2
  {
    if c >= 2 { CellsExist(boundaries, values[1..], c - 2); }
  }

  lemma StartIsValid(boundaries: seq<real>, plans: seq<seq<real>>)
    ensures Valid(State(Zeros(boundaries), Started(Calls(boundaries, plans))))
  {
    hide ObserveAll;
    var s := State(Zeros(boundaries), Started(Calls(boundaries, plans)));
    forall k | 0 <= k < |s.threads| ensures ValidThread(s.threads[k], |s.cells|) {
      forall c | 0 <= c < |s.threads[k].changes| ensures s.threads[k].changes[c].cell < |s.cells| {
        CellsExist(boundaries, plans[k], c);
      }
    }
  }

  /** In every state, what the cells hold: the buckets count the calls that have returned. */
  lemma CellsHold(boundaries: seq<real>, plans: seq<seq<real>>, states: seq<State>, i: nat)
    requires ObserveRun(states, boundaries, plans) && i < |states|
    ensures |states[i].cells| == |boundaries| + 2 && Follows(states[i].threads, boundaries, plans)
    ensures forall b :: 0 <= b <= |boundaries| ==>
      states[i].cells[b] == CountIn(boundaries, Returned(states[i].threads, boundaries, plans), b) as real
    ensures states[i].cells[SumCell(boundaries)] == SumOf(Summed(states[i].threads, boundaries, plans))
  {
    hide AddedByAll, Run, CountIn, SumOf, Returned, Summed, ObserveAll;
    StartIsValid(boundaries, plans);
    NoChangeIsLost(states, Calls(boundaries, plans), i);
    var s := states[i];
    forall b | 0 <= b <= |boundaries|
      ensures s.cells[b] == CountIn(boundaries, Returned(s.threads, boundaries, plans), b) as real
    {
      AddedByThreads(s.threads, boundaries, plans, b);
    }
    AddedByThreads(s.threads, boundaries, plans, 0);
  }

  /** The running totals of cells that count some values. */
  lemma TotalsCount(boundaries: seq<real>, values: seq<real>, cells: seq<real>, b: nat)
    requires Sorted(boundaries) && |cells| == |boundaries| + 2
    requires forall k :: 0 <= k <= |boundaries| ==> cells[k] == CountIn(boundaries, values, k) as real
    ensures b < |boundaries| ==> Total(cells, b + 1) == CountUpTo(values, boundaries[b]) as real
    ensures Total(cells, |boundaries| + 1) == |values| as real
  {
    hide *;
    TotalIsCount(boundaries, values, cells, |boundaries| + 1);
    NoneBefore(boundaries, values);
    if b < |boundaries| {
      TotalIsCount(boundaries, values, cells, b + 1);
      CountBeforeIsUpTo(boundaries, values, b);
    }
  }

  /**
   * However the threads interleave: once all calls of `Observe` have returned, the running total of bucket b is the number
   * of values that are at most its boundary, the last total is the number of values, and the sum is theirs.
   */
  lemma ObservationsCollected(boundaries: seq<real>, plans: seq<seq<real>>, states: seq<State>, i: nat)
    requires Sorted(boundaries) && ObserveRun(states, boundaries, plans) && i < |states|
    requires Quiescent(states[i])
    ensures |states[i].cells| == |boundaries| + 2
    ensures forall b :: 0 <= b < |boundaries| ==>
      Total(states[i].cells, b + 1) == CountUpTo(Flatten(plans), boundaries[b]) as real
    ensures Total(states[i].cells, |boundaries| + 1) == |Flatten(plans)| as real
    ensures states[i].cells[SumCell(boundaries)] == SumOf(Flatten(plans))
  {
    hide Total, ObserveRun, CountIn, Sorted, Flatten, CountUpTo;
    CellsHold(boundaries, plans, states, i);
    AllReturned(states[i].threads, boundaries, plans);
    TotalsCount(boundaries, Flatten(plans), states[i].cells, |boundaries|);
    forall b | 0 <= b < |boundaries|
      ensures Total(states[i].cells, b + 1) == CountUpTo(Flatten(plans), boundaries[b]) as real
    {
      TotalsCount(boundaries, Flatten(plans), states[i].cells, b);
    }
  }

  /* Collecting while the threads run */

  lemma CountInPrefix(boundaries: seq<real>, values: seq<real>, m: nat, n: nat, bucket: nat)
    requires m <= n <= |values|
    ensures CountIn(boundaries, values[..m], bucket) <= CountIn(boundaries, values[..n], bucket)
  {
    assert values[..n] == values[..m] + values[m..n];
    CountInConcat(boundaries, values[..m], values[m..n], bucket);
  }

  lemma {:induction false} ReturnedGrows(threads: seq<Thread>, later: seq<Thread>, boundaries: seq<real>, plans: seq<seq<real>>,
                                         bucket: nat)
    requires Follows(threads, boundaries, plans) && Follows(later, boundaries, plans)
    requires forall k :: 0 <= k < |plans| ==> threads[k].done <= later[k].done
    ensures CountIn(boundaries, Returned(threads, boundaries, plans), bucket)
      <= CountIn(boundaries, Returned(later, boundaries, plans), bucket)
    decreases |plans|
  {
    hide CountIn;
    if plans != [] {
      var (m, n, values) := (threads[0].done / 2, later[0].done / 2, plans[0]);
      CountInPrefix(boundaries, values, m, n, bucket);
      ReturnedGrows(threads[1..], later[1..], boundaries, plans[1..], bucket);
      CountInConcat(boundaries, values[..m], Returned(threads[1..], boundaries, plans[1..]), bucket);
      CountInConcat(boundaries, values[..n], Returned(later[1..], boundaries, plans[1..]), bucket);
    }
  }

  /** Buckets only grow. */
  lemma BucketsGrow(boundaries: seq<real>, plans: seq<seq<real>>, states: seq<State>, i: nat, j: nat, bucket: nat)
    requires ObserveRun(states, boundaries, plans) && i <= j < |states| && bucket <= |boundaries|
    ensures |states[i].cells| == |states[j].cells| == |boundaries| + 2
    ensures 0.0 <= states[i].cells[bucket] <= states[j].cells[bucket]
  {
    hide CountIn, Run, Returned, Summed, ObserveAll;
    CellsHold(boundaries, plans, states, i);
    CellsHold(boundaries, plans, states, j);
    var calls := Calls(boundaries, plans);
    StartIsValid(boundaries, plans);
    forall k | 0 <= k < |plans| ensures states[i].threads[k].done <= states[j].threads[k].done {
      NothingIsUndone(states, calls, i, j, k);
    }
    ReturnedGrows(states[i].threads, states[j].threads, boundaries, plans, bucket);
  }

  /** The moments at which one call of `Collect` reads the cells, one cell after another. */
  ghost predicate Moments(at: seq<nat>, states: seq<State>, cells: nat) {
    |at| == cells && (forall i :: 0 <= i < |at| ==> at[i] < |states|) && forall i, j :: 0 <= i <= j < |at| ==> at[i] <= at[j]
  }

  ghost predicate ReadAt(cells: seq<real>, at: seq<nat>, states: seq<State>) {
    && |cells| == |at|
    && forall c :: 0 <= c < |at| ==> at[c] < |states| && c < |states[at[c]].cells| && cells[c] == states[at[c]].cells[c]
  }

  lemma {:induction false} TotalBetween(low: seq<real>, cells: seq<real>, high: seq<real>, n: nat)
    requires n <= |low| && n <= |cells| && n <= |high|
    requires forall c :: 0 <= c < n ==> low[c] <= cells[c] <= high[c]
    ensures Total(low, n) <= Total(cells, n) <= Total(high, n)
  {
    if n > 0 { TotalBetween(low, cells, high, n - 1); }
  }

  lemma TotalRead(boundaries: seq<real>, plans: seq<seq<real>>, states: seq<State>, at: seq<nat>, cells: seq<real>, n: nat)
    requires ObserveRun(states, boundaries, plans) && Moments(at, states, |boundaries| + 2) && ReadAt(cells, at, states)
    requires 0 < n <= |boundaries| + 1
    ensures |states[at[0]].cells| == |states[at[n - 1]].cells| == |boundaries| + 2
    ensures Total(states[at[0]].cells, n) <= Total(cells, n) <= Total(states[at[n - 1]].cells, n)
    ensures forall c :: 0 <= c < n ==> cells[c] >= 0.0
  {
    hide Total, ObserveRun;
    var low, high := states[at[0]].cells, states[at[n - 1]].cells;
    forall c | 0 <= c < n
      ensures |low| == |high| == |boundaries| + 2 && 0.0 <= low[c] <= cells[c] <= high[c]
    {
      BucketsGrow(boundaries, plans, states, at[0], at[c], c);
      BucketsGrow(boundaries, plans, states, at[c], at[n - 1], c);
    }
    BucketsGrow(boundaries, plans, states, at[0], at[n - 1], 0);
    TotalBetween(low, cells, high, n);
  }

  /**
   * `Collect` reads the cells one after another while the threads run. Its running totals do not descend; that of bucket b
   * counts all calls that had returned when it began and none that had not when it read that bucket; the last one, likewise.
   * The sum is that of the values added to it by the moment it was read.
   */
  lemma CollectedMeanwhile(boundaries: seq<real>, plans: seq<seq<real>>, states: seq<State>, at: seq<nat>, cells: seq<real>, b: nat)
    requires Sorted(boundaries) && ObserveRun(states, boundaries, plans) && b <= |boundaries|
    requires Moments(at, states, |boundaries| + 2) && ReadAt(cells, at, states)
    ensures forall i :: 0 <= i < |states| ==> Follows(states[i].threads, boundaries, plans)
    ensures b > 0 ==> Total(cells, b) <= Total(cells, b + 1)
    ensures var (before, after) := (Returned(states[at[0]].threads, boundaries, plans),
                                    Returned(states[at[b]].threads, boundaries, plans));
      if b < |boundaries| then
        CountUpTo(before, boundaries[b]) as real <= Total(cells, b + 1) <= CountUpTo(after, boundaries[b]) as real
      else |before| as real <= Total(cells, b + 1) <= |after| as real
    ensures cells[SumCell(boundaries)] == SumOf(Summed(states[at[SumCell(boundaries)]].threads, boundaries, plans))
  {
    hide ObserveRun, Sorted, Total, CountIn, CountUpTo, SumOf, Returned, Summed, Follows;
    forall i | 0 <= i < |states| ensures Follows(states[i].threads, boundaries, plans) {
      CellsHold(boundaries, plans, states, i);
    }
    CellsHold(boundaries, plans, states, at[0]);
    CellsHold(boundaries, plans, states, at[b]);
    CellsHold(boundaries, plans, states, at[SumCell(boundaries)]);
    TotalsCount(boundaries, Returned(states[at[0]].threads, boundaries, plans), states[at[0]].cells, b);
    TotalsCount(boundaries, Returned(states[at[b]].threads, boundaries, plans), states[at[b]].cells, b);
    TotalRead(boundaries, plans, states, at, cells, b + 1);
    TotalsAscend(cells, b, b + 1);
  }

  /* Increments for all buckets at once */

  lemma {:induction false} IncrementsAdd(increments: seq<real>, i: nat, cell: nat)
    requires i <= |increments|
    ensures var changes := Increments(increments, i);
      Added(changes, |changes|, cell) ==
        if i <= cell < |increments| && increments[cell] >= 0.0 then increments[cell] else 0.0
    decreases |increments| - i
  {
    hide Added;
    AddedNone([], cell);
    if i < |increments| {
      IncrementsAdd(increments, i + 1, cell);
      if increments[i] < 0.0 {
        assert [] + Increments(increments, i + 1) == Increments(increments, i + 1);
      } else {
        AddedFront(Change(i, increments[i]), Increments(increments, i + 1), |Increments(increments, i + 1)|, cell);
      }
    }
  }

  lemma {:induction false} AddedFront(first: Change, more: seq<Change>, n: nat, cell: nat)
    requires n <= |more|
    ensures Added([first] + more, n + 1, cell) == (if first.cell == cell then first.delta else 0.0) + Added(more, n, cell)
  {
    if n == 0 {
      assert Added([first] + more, 0, cell) == 0.0;
    } else {
      AddedFront(first, more, n - 1, cell);
      assert ([first] + more)[n] == more[n - 1];
    }
  }

  /** A call of `ObserveMultiple` adds its increments to the buckets, but for negative ones, and its sum to the sum. */
  lemma ObserveMultipleAdds(boundaries: seq<real>, increments: seq<real>, sum: real, cell: nat)
    requires cell <= |boundaries| + 1
    ensures ObserveMultiple(boundaries, increments, sum).LengthError? <==> |increments| != |boundaries| + 1
    ensures |increments| == |boundaries| + 1 ==>
      var changes := ObserveMultiple(boundaries, increments, sum).changes;
      Added(changes, |changes|, cell) ==
        if cell == SumCell(boundaries) then sum else if increments[cell] >= 0.0 then increments[cell] else 0.0
  {
    if |increments| == |boundaries| + 1 {
      var more := Increments(increments, 0);
      AddedFront(Change(SumCell(boundaries), sum), more, |more|, cell);
      IncrementsAdd(increments, 0, cell);
    }
  }
}
