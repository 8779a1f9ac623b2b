/** Gauges that many threads change at once: each change is a compare-exchange loop, split into its atomic steps. */
module AtomicCells {
  import opened OrderedKeys

  /** One call of `Gauge::Change`. */
  datatype Change = Change(cell: nat, delta: real)

  /** What a thread read last, if it is inside a loop. */
  datatype Read = NotRead | Current(value: real)

  /** A thread that makes its changes one after another; `done` of them are finished. */
  datatype Thread = Thread(changes: seq<Change>, done: nat, read: Read)

  datatype State = State(cells: seq<real>, threads: seq<Thread>)

  ghost predicate Valid(s: State) {
    forall k :: 0 <= k < |s.threads| ==> ValidThread(s.threads[k], |s.cells|)
  }

  ghost predicate ValidThread(t: Thread, cells: nat) {
    t.done <= |t.changes| && forall j :: 0 <= j < |t.changes| ==> t.changes[j].cell < cells
  }

  function Started(calls: seq<seq<Change>>): seq<Thread> {
    seq(|calls|, k requires 0 <= k < |calls| => Thread(calls[k], 0, NotRead))
  }

  /* The atomic steps of thread `k` */

  ghost predicate Pending(s: State, k: nat) {
    k < |s.threads| && s.threads[k].done < |s.threads[k].changes|
  }

  ghost function Next(s: State, k: nat): Change
    requires Pending(s, k)
  {
    s.threads[k].changes[s.threads[k].done]
  }

  /** The load before the loop. */
  ghost predicate Load(s: State, k: nat, s': State) {
    Valid(s) && Pending(s, k) && s.threads[k].read == NotRead
    && s' == s.(threads := s.threads[k := s.threads[k].(read := Current(s.cells[Next(s, k).cell]))])
  }

  /** A compare-exchange that succeeds: the cell still has the value that was read. */
  ghost predicate Exchange(s: State, k: nat, s': State) {
    Valid(s) && Pending(s, k) && s.threads[k].read == Current(s.cells[Next(s, k).cell])
    && s' == State(s.cells[Next(s, k).cell := s.threads[k].read.value + Next(s, k).delta],
                   s.threads[k := s.threads[k].(done := s.threads[k].done + 1, read := NotRead)])
  }

  /** A compare-exchange that fails, for whatever reason, reads the cell again. */
  ghost predicate Retry(s: State, k: nat, s': State) {
    Valid(s) && Pending(s, k) && s.threads[k].read != NotRead
    && s' == s.(threads := s.threads[k := s.threads[k].(read := Current(s.cells[Next(s, k).cell]))])
  }

  ghost predicate Step(s: State, s': State) {
    exists k: nat :: Load(s, k, s') || Exchange(s, k, s') || Retry(s, k, s')
  }

  /** Any interleaving whatsoever. */
  ghost predicate Run(states: seq<State>) {
    states != [] && forall i :: 0 <= i < |states| - 1 ==> Step(states[i], states[i + 1])
  }

  ghost predicate Quiescent(s: State) {
    forall k :: 0 <= k < |s.threads| ==> s.threads[k].done == |s.threads[k].changes|
  }

  /* What the cells ought to hold */

  /** What the first `n` changes add to a cell. */
  function Added(changes: seq<Change>, n: nat, cell: nat): real
    requires n <= |changes|
  {
    if n == 0 then 0.0
    else Added(changes, n - 1, cell) + if changes[n - 1].cell == cell then changes[n - 1].delta else 0.0
  }

  function AddedByAll(threads: seq<Thread>, cell: nat): real
    requires forall k :: 0 <= k < |threads| ==> threads[k].done <= |threads[k].changes|
  {
    if threads == [] then 0.0
    else Added(threads[0].changes, threads[0].done, cell) + AddedByAll(threads[1..], cell)
  }

  /** Every finished change is in its cell, once. */
  ghost predicate Accounted(s: State, start: seq<real>) {
    Valid(s) && |s.cells| == |start| && forall c :: 0 <= c < |start| ==> s.cells[c] == start[c] + AddedByAll(s.threads, c)
  }

  lemma {:induction false} ThreadReplaced(threads: seq<Thread>, k: nat, t: Thread, cell: nat)
    requires k < |threads| && t.done <= |t.changes|
    requires forall j :: 0 <= j < |threads| ==> threads[j].done <= |threads[j].changes|
    ensures AddedByAll(threads[k := t], cell) ==
      AddedByAll(threads, cell) - Added(threads[k].changes, threads[k].done, cell) + Added(t.changes, t.done, cell)
  {
    if k > 0 {
      assert threads[k := t][1..] == threads[1..][k - 1 := t];
      ThreadReplaced(threads[1..], k - 1, t, cell);
    } else {
      assert threads[0 := t][1..] == threads[1..];
    }
  }

  lemma ReadKeeps(s: State, k: nat, s': State, start: seq<real>)
    requires Accounted(s, start) && (Load(s, k, s') || Retry(s, k, s'))
    ensures Valid(s') && Accounted(s', start)
  {
    hide Added, AddedByAll;
    forall c | 0 <= c < |start| ensures s'.cells[c] == start[c] + AddedByAll(s'.threads, c) {
      ThreadReplaced(s.threads, k, s'.threads[k], c);
    }
  }

  lemma {:induction false} AddedPrefix(a: seq<Change>, b: seq<Change>, n: nat, cell: nat)
    requires n <= |a|
    ensures Added(a + b, n, cell) == Added(a, n, cell)
  {
    if n > 0 { AddedPrefix(a, b, n - 1, cell); }
  }

  /** Changes made one after another add up. */
  lemma {:induction false} AddedConcat(a: seq<Change>, b: seq<Change>, n: nat, cell: nat)
    requires n <= |b|
    ensures Added(a + b, |a| + n, cell) == Added(a, |a|, cell) + Added(b, n, cell)
  {
    if n == 0 {
      AddedPrefix(a, b, |a|, cell);
    } else {
      AddedConcat(a, b, n - 1, cell);
      assert (a + b)[|a| + n - 1] == b[n - 1];
    }
  }

  lemma AddedOneMore(changes: seq<Change>, n: nat, cell: nat)
    requires n < |changes|
    ensures Added(changes, n + 1, cell) ==
      Added(changes, n, cell) + if changes[n].cell == cell then changes[n].delta else 0.0
  {
  }

  lemma ExchangeKeeps(s: State, k: nat, s': State, start: seq<real>)
    requires Accounted(s, start) && Exchange(s, k, s')
    ensures Valid(s') && Accounted(s', start)
  {
    hide Added, AddedByAll;
    forall c | 0 <= c < |start| ensures s'.cells[c] == start[c] + AddedByAll(s'.threads, c) {
      ThreadReplaced(s.threads, k, s'.threads[k], c);
      AddedOneMore(s.threads[k].changes, s.threads[k].done, c);
    }
  }

  lemma StepKeeps(s: State, s': State, start: seq<real>)
    requires Valid(s) && Accounted(s, start) && Step(s, s')
    ensures Valid(s') && Accounted(s', start)
    ensures |s'.threads| == |s.threads|
    ensures forall k :: 0 <= k < |s.threads| ==>
      s'.threads[k].changes == s.threads[k].changes && s.threads[k].done <= s'.threads[k].done
  {
    hide Accounted;
    var k: nat :| Load(s, k, s') || Exchange(s, k, s') || Retry(s, k, s');
    if Exchange(s, k, s') { ExchangeKeeps(s, k, s', start); } else { ReadKeeps(s, k, s', start); }
  }

  /** In every state of every interleaving the cells hold what was added by then: no change is lost or made twice. */
  lemma {:induction false} NoChangeIsLost(states: seq<State>, calls: seq<seq<Change>>, i: nat)
    requires Run(states) && i < |states|
    requires states[0].threads == Started(calls) && Valid(states[0])
    ensures Valid(states[i]) && Accounted(states[i], states[0].cells)
    ensures |states[i].threads| == |calls|
    ensures forall k :: 0 <= k < |calls| ==> states[i].threads[k].changes == calls[k]
  {
    if i == 0 {
      forall c | 0 <= c < |states[0].cells| ensures AddedByAll(states[0].threads, c) == 0.0 {
        NothingYet(states[0].threads, c);
      }
    } else {
      NoChangeIsLost(states, calls, i - 1);
      assert Step(states[i - 1], states[i - 1 + 1]);
      StepKeeps(states[i - 1], states[i], states[0].cells);
    }
  }

  /** What is finished stays finished. */
  lemma {:induction false} NothingIsUndone(states: seq<State>, calls: seq<seq<Change>>, i: nat, j: nat, k: nat)
    requires Run(states) && i <= j < |states| && k < |calls|
    requires states[0].threads == Started(calls) && Valid(states[0])
    ensures |states[i].threads| == |states[j].threads| == |calls|
    ensures states[i].threads[k].done <= states[j].threads[k].done
    decreases j
  {
    hide Accounted, AddedByAll, Step;
    NoChangeIsLost(states, calls, j);
    if i < j {
      NothingIsUndone(states, calls, i, j - 1, k);
      NoChangeIsLost(states, calls, j - 1);
      assert Step(states[j - 1], states[j - 1 + 1]);
      StepKeeps(states[j - 1], states[j], states[0].cells);
    }
  }

  lemma {:induction false} NothingYet(threads: seq<Thread>, cell: nat)
    requires forall k :: 0 <= k < |threads| ==> threads[k].done == 0
    ensures AddedByAll(threads, cell) == 0.0
  {
    if threads != [] { NothingYet(threads[1..], cell); }
  }

  /** A pending thread that is left alone reads the cell and then finishes its change: no thread can be stuck. */
  lemma UndisturbedFinishes(s: State, k: nat) returns (s1: State, s2: State)
    requires Valid(s) && Pending(s, k)
    ensures Load(s, k, s1) || Retry(s, k, s1)
    ensures Exchange(s1, k, s2)
    ensures s2.threads[k].done == s.threads[k].done + 1
  {
    var next := Next(s, k);
    var current := s.cells[next.cell];
    s1 := s.(threads := s.threads[k := s.threads[k].(read := Current(current))]);
    s2 := State(s.cells[next.cell := current + next.delta],
                s1.threads[k := s1.threads[k].(done := s.threads[k].done + 1, read := NotRead)]);
  }
}
