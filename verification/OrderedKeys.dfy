/** The iteration order of `std::map<std::string, T>`: ascending, by `std::less<std::string>`. */
module OrderedKeys {

  /** Lexicographic comparison of two keys. */
  predicate Less(a: string, b: string)
    decreases |a|
  {
    |b| != 0 && (|a| == 0 || a[0] < b[0] || (a[0] == b[0] && Less(a[1..], b[1..])))
  }

  /** Any two different keys are ordered, and no key is below itself. */
  lemma {:induction false} LessTotal(a: string, b: string)
    ensures a == b ==> !Less(a, b)
    ensures a != b ==> Less(a, b) != Less(b, a)
    decreases |a|
  {
    if |a| != 0 && |b| != 0 && a[0] == b[0] {
      assert a == [a[0]] + a[1..] && b == [b[0]] + b[1..];
      LessTotal(a[1..], b[1..]);
    }
  }

  lemma {:induction false} LessTransitive(a: string, b: string, c: string)
    requires Less(a, b) && Less(b, c)
    ensures Less(a, c)
    decreases |a|
  {
    if |a| != 0 && a[0] == b[0] && b[0] == c[0] {
      LessTransitive(a[1..], b[1..], c[1..]);
    }
  }

  predicate IsLeast(keys: set<string>, k: string) {
    k in keys && forall x :: x in keys ==> x == k || Less(k, x)
  }

  lemma {:induction false} LeastExists(keys: set<string>)
    requires keys != {}
    ensures exists k :: IsLeast(keys, k)
    decreases |keys|
  {
    var k :| k in keys;
    if keys == {k} {
      assert IsLeast(keys, k);
    } else {
      var rest := keys - {k};
      assert rest != {};
      LeastExists(rest);
      var m :| IsLeast(rest, m);
      LessTotal(k, m);
      if Less(k, m) {
        forall x | x in keys ensures x == k || Less(k, x) {
          if x != k && x != m { LessTransitive(k, m, x); }
        }
        assert IsLeast(keys, k);
      } else {
        assert IsLeast(keys, m);
      }
    }
  }

  /** The strings are the same up to `n`, where the first one ends or has the smaller character. */
  predicate DifferAt(a: string, b: string, n: nat) {
    n <= |a| && n < |b| && (forall i :: 0 <= i < n ==> a[i] == b[i]) && (n == |a| || a[n] as int < b[n] as int)
  }

  lemma DifferLater(a: string, b: string, n: nat)
    requires a != "" && b != "" && a[0] == b[0]
    ensures DifferAt(a[1..], b[1..], n) <==> DifferAt(a, b, n + 1)
  {
    if DifferAt(a[1..], b[1..], n) {
      forall i | 0 <= i < n + 1 ensures a[i] == b[i] { if i > 0 { assert a[1..][i - 1] == b[1..][i - 1]; } }
    }
  }

  /** The order of `std::string`: at the first place where two strings differ the smaller character comes first, and a string
      comes before those that begin with it. */
  lemma {:induction false} LessIsLexicographic(a: string, b: string)
    ensures Less(a, b) <==> exists n: nat :: DifferAt(a, b, n)
  {
    hide DifferAt;
    if a != "" && b != "" && a[0] == b[0] {
      LessIsLexicographic(a[1..], b[1..]);
      forall n: nat ensures DifferAt(a[1..], b[1..], n) <==> DifferAt(a, b, n + 1) { DifferLater(a, b, n); }
      DifferFirst(a, b);
      forall n: nat | DifferAt(a, b, n) ensures DifferAt(a[1..], b[1..], n - 1) { DifferLater(a, b, n - 1); }
    } else {
      DifferFirst(a, b);
    }
  }

  lemma DifferFirst(a: string, b: string)
    ensures DifferAt(a, b, 0) <==> b != "" && (a == "" || a[0] as int < b[0] as int)
    ensures a == "" || b == "" || a[0] != b[0] ==> forall n: nat :: DifferAt(a, b, n) ==> n == 0
  {
  }

  lemma LeastUnique(keys: set<string>, a: string, b: string)
    requires IsLeast(keys, a) && IsLeast(keys, b)
    ensures a == b
  {
    LessTotal(a, b);
  }

  function Least(keys: set<string>): (k: string)
    requires keys != {}
    ensures IsLeast(keys, k)
  {
    LeastExists(keys);
    assert forall a, b | IsLeast(keys, a) && IsLeast(keys, b) :: a == b by {
      forall a, b | IsLeast(keys, a) && IsLeast(keys, b) ensures a == b { LeastUnique(keys, a, b); }
    }
    var k :| k in keys && IsLeast(keys, k);
    k
  }

  ghost predicate Ascending(s: seq<string>) {
    forall i, j :: 0 <= i < j < |s| ==> Less(s[i], s[j])
  }

  /** The keys in the order in which a range-for over the map visits them. */
  function InOrder(keys: set<string>): (s: seq<string>)
    ensures Ascending(s)
    ensures forall k :: k in s <==> k in keys
    ensures |s| == |keys|
    decreases |keys|
  {
    if keys == {} then [] else
      var k := Least(keys);
      var rest := InOrder(keys - {k});
      assert forall i :: 0 <= i < |rest| ==> Less(k, rest[i]) by {
        forall i | 0 <= i < |rest| ensures Less(k, rest[i]) { assert rest[i] in keys - {k}; }
      }
      [k] + rest
  }

  lemma AscendingDistinct(s: seq<string>, i: nat, j: nat)
    requires Ascending(s) && i < j < |s|
    ensures s[i] != s[j]
  {
    LessTotal(s[i], s[j]);
  }

  lemma TailMembers(s: seq<string>, k: string)
    requires Ascending(s) && s != []
    ensures k in s[1..] <==> k in s && k != s[0]
  {
    if k in s[1..] {
      var i :| 1 <= i < |s| && s[i] == k;
      AscendingDistinct(s, 0, i);
    }
  }

  lemma HeadIsLeast(s: seq<string>, t: seq<string>)
    requires Ascending(s) && Ascending(t) && s != []
    requires forall k :: k in s <==> k in t
    ensures t != [] && s[0] == t[0]
  {
    assert s[0] in s && s[0] in t;
    var i :| 0 <= i < |t| && t[i] == s[0];
    assert t[0] in t && t[0] in s;
    var j :| 0 <= j < |s| && s[j] == t[0];
    LessTotal(s[0], t[0]);
  }

  /** Two strictly ascending listings of the same keys are the same listing. */
  lemma {:induction false} AscendingUnique(s: seq<string>, t: seq<string>)
    requires Ascending(s) && Ascending(t)
    requires forall k :: k in s <==> k in t
    ensures s == t
    decreases |s|
  {
    if s == [] {
      if t != [] { HeadIsLeast(t, s); }
    } else {
      HeadIsLeast(s, t);
      forall k ensures k in s[1..] <==> k in s && k != s[0] { TailMembers(s, k); }
      forall k ensures k in t[1..] <==> k in t && k != t[0] { TailMembers(t, k); }
      AscendingUnique(s[1..], t[1..]);
    }
  }

  /** The keys that a loop over `names` has visited before its `i`-th turn. */
  ghost function Visited(names: seq<string>, i: nat): set<string>
    requires i <= |names|
  {
    set j | 0 <= j < i :: names[j]
  }

  lemma VisitedNext(names: seq<string>, i: nat)
    requires Ascending(names) && i < |names|
    ensures names[i] !in Visited(names, i) && Visited(names, i + 1) == Visited(names, i) + {names[i]}
  {
    forall j | 0 <= j < i ensures names[j] != names[i] { AscendingDistinct(names, j, i); }
  }

  lemma VisitedAll(keys: set<string>)
    ensures Visited(InOrder(keys), |InOrder(keys)|) == keys && Visited(InOrder(keys), 0) == {}
  {
    var names := InOrder(keys);
    forall k ensures k in Visited(names, |names|) <==> k in keys {
      if k in keys { assert k in names; }
    }
  }

  function Elements(s: seq<string>): set<string> {
    set x | x in s
  }

  /* Slices of any sequence. */

  lemma TakeOneMore<T>(s: seq<T>, i: nat)
    requires i < |s|
    ensures s[..i + 1] == s[..i] + [s[i]]
  {
  }

  lemma TakeAll<T>(s: seq<T>)
    ensures s[..|s|] == s && s[|s|..] == [] && s[..0] == [] && s[0..] == s
  {
  }

  lemma AppendNothing<T>(a: seq<T>)
    ensures a + [] == a && [] + a == a
  {
  }

  lemma AppendAppend<T>(a: seq<T>, b: seq<T>, c: seq<T>)
    ensures a + b + c == a + (b + c)
  {
  }

  lemma UpdateTwice<K, V>(m: map<K, V>, k: K, v: V, w: V)
    ensures m[k := v][k := w] == m[k := w]
  {
  }
}
