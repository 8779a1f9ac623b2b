/** When the matcher finds every word. An alternative commits to the first way in which a branch matches, so words
    can be lost in general; they are not when no word of a branch goes on from another word of that branch, or when a
    star follows, which takes up what a shorter word leaves. */
module WildcardsCompleteness {
  import opened Results
  import opened Wildcards
  import opened WildcardsSafety
  import opened WildcardsLanguage

  datatype Length = Fixed(n: nat) | Varies

  function Plus(a: Length, b: Length): Length {
    if a.Fixed? && b.Fixed? then Fixed(a.n + b.n) else Varies
  }

  /** The length all words of the pattern have, if the pattern shows that they have one. */
  function Width(t: Pattern): Length
    decreases t
  {
    match t
    case Done => Fixed(0)
    case Anything(_) => Varies
    case Single(rest) => Plus(Fixed(1), Width(rest))
    case Literal(_, rest) => Plus(Fixed(1), Width(rest))
    case Class(_, _, rest) => Plus(Fixed(1), Width(rest))
    case Choice(branches, rest) => Plus(CommonWidth(branches), Width(rest))
  }

  function CommonWidth(bs: Branches): Length
    decreases bs
  {
    match bs
    case Last(b) => Width(b)
    case Either(b, others) => if Width(b) == CommonWidth(others) then Width(b) else Varies
  }

  /** No word of the pattern is a proper prefix of another. */
  ghost predicate PrefixFree(t: Pattern) {
    forall v: string, w: string :: Denotes(t, v) && Denotes(t, w) && v <= w ==> v == w
  }

  /** No alternative in the pattern. */
  predicate ChoiceFree(t: Pattern) {
    match t
    case Done => true
    case Choice(_, _) => false
    case _ => ChoiceFree(t.rest)
  }

  /** Every branch of every alternative, inner ones included, is free of such prefixes, or is free of alternatives and followed
      by a star. */
  ghost predicate Committed(t: Pattern)
    decreases t
  {
    match t
    case Done => true
    case Choice(branches, rest) => AllCommitted(branches, rest.Anything?) && Committed(rest)
    case _ => Committed(t.rest)
  }

  ghost predicate AllCommitted(bs: Branches, star: bool)
    decreases bs
  {
    match bs
    case Last(b) => Chooses(b, star) && Committed(b)
    case Either(b, others) => Chooses(b, star) && Committed(b) && AllCommitted(others, star)
  }

  ghost predicate Chooses(b: Pattern, star: bool) {
    PrefixFree(b) || (star && ChoiceFree(b))
  }

  /** Each branch has words of one length (the branches of one alternative may differ in it): this the pattern shows. */
  predicate FixedBranches(bs: Branches) {
    match bs
    case Last(b) => Width(b).Fixed?
    case Either(b, others) => Width(b).Fixed? && FixedBranches(others)
  }

  predicate FixedWidths(t: Pattern) {
    match t
    case Done => true
    case Choice(branches, rest) => FixedBranches(branches) && FixedWidths(rest)
    case _ => FixedWidths(t.rest)
  }

  lemma {:induction false} WidthMeans(t: Pattern, w: string)
    requires Width(t).Fixed? && Denotes(t, w)
    ensures |w| == Width(t).n
    decreases t
  {
    if t.Choice? {
      var k :| 0 <= k <= |w| && DenotesSome(t.branches, w[..k]) && Denotes(t.rest, w[k..]);
      CommonWidthMeans(t.branches, w[..k]);
      WidthMeans(t.rest, w[k..]);
    } else if !t.Done? {
      WidthMeans(t.rest, w[1..]);
    }
  }

  lemma {:induction false} CommonWidthMeans(bs: Branches, w: string)
    requires CommonWidth(bs).Fixed? && DenotesSome(bs, w)
    ensures |w| == CommonWidth(bs).n
    decreases bs
  {
    match bs
    case Last(b) => WidthMeans(b, w);
    case Either(b, others) => if Denotes(b, w) { WidthMeans(b, w); } else { CommonWidthMeans(others, w); }
  }

  lemma FixedIsPrefixFree(t: Pattern)
    requires Width(t).Fixed?
    ensures PrefixFree(t)
  {
    forall v: string, w: string | Denotes(t, v) && Denotes(t, w) && v <= w ensures v == w {
      WidthMeans(t, v);
      WidthMeans(t, w);
    }
  }

  /** Branches inside a branch of one length have one length. */
  lemma {:induction false} FixedIsCommitted(t: Pattern)
    requires Width(t).Fixed?
    ensures Committed(t)
    decreases t
  {
    hide PrefixFree;
    if !t.Done? {
      FixedIsCommitted(t.rest);
    }
    if t.Choice? {
      CommonIsFixed(t.branches);
      FixedAreCommitted(t.branches, t.rest.Anything?);
    }
  }

  lemma {:induction false} CommonIsFixed(bs: Branches)
    requires CommonWidth(bs).Fixed?
    ensures FixedBranches(bs)
    decreases bs
  {
    if bs.Either? { CommonIsFixed(bs.others); }
  }

  lemma {:induction false} FixedAreCommitted(bs: Branches, star: bool)
    requires FixedBranches(bs)
    ensures AllCommitted(bs, star)
    decreases bs
  {
    hide PrefixFree;
    FixedIsPrefixFree(bs.branch);
    FixedIsCommitted(bs.branch);
    if bs.Either? { FixedAreCommitted(bs.others, star); }
  }

  /** Branches of one length each are committed. */
  lemma {:induction false} FixedWidthsCommit(t: Pattern)
    requires FixedWidths(t)
    ensures Committed(t)
    decreases t
  {
    hide PrefixFree;
    if !t.Done? {
      FixedWidthsCommit(t.rest);
    }
    if t.Choice? { FixedAreCommitted(t.branches, t.rest.Anything?); }
  }

  /* Completeness */

  lemma ReachesOne(t: Pattern, txt: string, s: nat, e: nat, partial: bool)
    requires (t.Single? || t.Literal? || t.Class?) && s <= |txt| && Reaches(t, txt, s, e, partial)
    ensures s < |txt| && Reaches(t.rest, txt, s + 1, e, partial)
    ensures t.Literal? ==> t.c == txt[s]
    ensures t.Class? ==> Admits(t.negated, t.members, txt[s])
  {
    assert txt[s..e][1..] == txt[s + 1..e];
  }

  lemma ReachesAnythingSplit(t: Pattern, txt: string, s: nat, e: nat, partial: bool)
    requires t.Anything? && s <= |txt| && Reaches(t, txt, s, e, partial)
    ensures Reaches(t.rest, txt, s, e, partial) || (s < |txt| && Reaches(t, txt, s + 1, e, partial))
  {
    var w := txt[s..e];
    var k :| 0 <= k <= |w| && Denotes(t.rest, w[k..]);
    if k == 0 {
      assert w[0..] == txt[s..e];
    } else {
      assert w[k..] == txt[s + 1..e][k - 1..];
    }
  }

  lemma ReachesChoiceSplit(t: Pattern, txt: string, s: nat, e: nat, partial: bool) returns (m: nat)
    requires t.Choice? && s <= |txt| && Reaches(t, txt, s, e, partial)
    ensures s <= m <= e && DenotesSome(t.branches, txt[s..m]) && Reaches(t.rest, txt, m, e, partial)
  {
    var w := txt[s..e];
    var k :| 0 <= k <= |w| && DenotesSome(t.branches, w[..k]) && Denotes(t.rest, w[k..]);
    m := s + k;
    assert w[..k] == txt[s..m] && w[k..] == txt[m..e];
  }

  lemma {:induction false} MatchComplete(txt: string, s: nat, pat: string, p: nat, pend: nat, partial: bool, escape: bool, e: nat)
    requires s <= |txt| && p <= pend <= |pat|
    requires Committed(ParseAt(pat, p, pend, escape)) && Reaches(ParseAt(pat, p, pend, escape), txt, s, e, partial)
    ensures var r := Match(txt, s, pat, p, pend, partial, escape); r.Ok? && r.value.res
    decreases pend - p, |txt| - s
  {
    hide Denotes, DenotesSome, IsSet, SetEnd, MatchSet, IsAlt, AltEnd, AltSubEnd, MatchAlt, ParseBranches;
    MatchNeverThrows(txt, s, pat, p, pend, partial, escape);
    var t := ParseAt(pat, p, pend, escape);
    if p == pend {
      DoneIsEmpty(txt[s..e]);
    } else if escape || pat[p] == '?' {
      ReachesOne(t, txt, s, e, partial);
      MatchComplete(txt, s + 1, pat, p + 1, pend, partial, false, e);
    } else if pat[p] == '*' {
      ReachesAnythingSplit(t, txt, s, e, partial);
      MatchNeverThrows(txt, s, pat, p + 1, pend, partial, false);
      if Reaches(t.rest, txt, s, e, partial) {
        MatchComplete(txt, s, pat, p + 1, pend, partial, false, e);
      } else {
        MatchComplete(txt, s + 1, pat, p, pend, partial, false, e);
      }
    } else if pat[p] == '\\' {
      MatchComplete(txt, s, pat, p + 1, pend, partial, true, e);
    } else if SetAt(pat, p, pend) {
      MatchSetAt(txt, s, pat, p, pend);
      SetEndExists(pat, p + 1, pend, NotOrFirst);
      ReachesOne(t, txt, s, e, partial);
      MatchComplete(txt, s + 1, pat, SetEnd(pat, p + 1, pend, NotOrFirst).value, pend, partial, false, e);
    } else {
      AltEndExists(pat, p + 1, pend, NextAlt, 1);
      if pat[p] == '(' && AltEnd(pat, p + 1, pend, NextAlt, 1).Ok? {
        var m := ReachesChoiceSplit(t, txt, s, e, partial);
        MatchAltComplete(txt, s, pat, p + 1, AltEnd(pat, p + 1, pend, NextAlt, 1).value, pend, partial, m, e);
      } else {
        ReachesOne(t, txt, s, e, partial);
        MatchComplete(txt, s + 1, pat, p + 1, pend, partial, false, e);
      }
    }
  }

  lemma {:induction false} MatchAltComplete(txt: string, s: nat, pat: string, p1: nat, p2: nat, p2end: nat, partial: bool, m: nat, e: nat)
    requires s <= m <= |txt| && p1 <= p2end <= |pat| && AltBody(pat, p1, p2end, p2)
    requires p2 <= p2end && Committed(Parse(pat, p2, p2end))
    requires AllCommitted(ParseBranches(pat, p1, p2end, p2), Parse(pat, p2, p2end).Anything?)
    requires DenotesSome(ParseBranches(pat, p1, p2end, p2), txt[s..m]) && Reaches(Parse(pat, p2, p2end), txt, m, e, partial)
    ensures p1 < p2
    ensures var p1end := AltSubEnd(pat, p1, p2, NextSub, 1);
            && p1end.Ok? && p1end.value < p2
            && var r := MatchAlt(txt, s, pat, p1, p1end.value, p2, p2end, partial);
            && r.Ok? && r.value.res
    decreases p2end - p1, 0
  {
    AltSubEndExists(pat, p1, p2end, NextSub, 1, p2);
    var p1end := AltSubEnd(pat, p1, p2, NextSub, 1).value;
    MatchAltNeverThrows(txt, s, pat, p1, p1end, p2, p2end, partial);
    MatchNeverThrows(txt, s, pat, p1, p1end, true, false);
    var branch := Parse(pat, p1, p1end);
    if Denotes(branch, txt[s..m]) {
      MatchComplete(txt, s, pat, p1, p1end, true, false, m);
      var taken := BranchChooses(txt, s, pat, p1, p1end, m, Parse(pat, p2, p2end), e, partial);
      MatchComplete(txt, taken, pat, p2, p2end, partial, false, e);
    } else {
      MatchAltComplete(txt, s, pat, p1end + 1, p2, p2end, partial, m, e);
    }
  }

  /* A branch that may stop early */

  lemma StarReaches(t: Pattern, txt: string, s: nat, e: nat, partial: bool) returns (k: nat)
    requires t.Anything? && s <= |txt| && Reaches(t, txt, s, e, partial)
    ensures s <= k <= |txt| && Reaches(t.rest, txt, k, e, partial)
  {
    var w := txt[s..e];
    var n :| 0 <= n <= |w| && Denotes(t.rest, w[n..]);
    k := s + n;
    assert w[n..] == txt[k..e];
  }

  lemma ReachesFurtherBack(t: Pattern, txt: string, s: nat, m: nat, e: nat, partial: bool)
    requires t.Anything? && s <= m <= |txt| && Reaches(t, txt, m, e, partial)
    ensures Reaches(t, txt, s, e, partial)
  {
    hide Denotes;
    var k := StarReaches(t, txt, m, e, partial);
    ReachesAnything(t, txt, s, e, partial, k);
  }

  /** Without alternatives, what is reached from a later position is reached from an earlier one as well, if anything is; or
      that stops no later. */
  lemma {:induction false} EarlierReach(t: Pattern, txt: string, s: nat, e1: nat, k: nat, e: nat)
    requires ChoiceFree(t) && s <= k <= |txt| && Reaches(t, txt, s, e1, true) && Reaches(t, txt, k, e, true)
    ensures Reaches(t, txt, s, e, true) || e1 <= e
    decreases t
  {
    hide Denotes;
    if t.Done? {
      DoneIsEmpty(txt[s..e1]);
    } else if t.Anything? {
      ReachesFurtherBack(t, txt, s, k, e, true);
    } else {
      ReachesOne(t, txt, s, e1, true);
      ReachesOne(t, txt, k, e, true);
      EarlierReach(t.rest, txt, s + 1, e1, k + 1, e);
      if Reaches(t.rest, txt, s + 1, e, true) { ReachesStep(t, txt, s, e, true); }
    }
  }

  /** Without alternatives, a partial match is the shortest there is. */
  lemma {:induction false} MatchShortest(txt: string, s: nat, pat: string, p: nat, pend: nat, escape: bool, e: nat)
    requires s <= |txt| && p <= pend <= |pat|
    requires ChoiceFree(ParseAt(pat, p, pend, escape)) && Reaches(ParseAt(pat, p, pend, escape), txt, s, e, true)
    ensures var r := Match(txt, s, pat, p, pend, true, escape); r.Ok? && r.value.res && r.value.s <= e
    decreases pend - p, |txt| - s
  {
    hide Denotes, DenotesSome, IsSet, SetEnd, MatchSet, IsAlt, AltEnd, AltSubEnd, MatchAlt, ParseBranches;
    MatchNeverThrows(txt, s, pat, p, pend, true, escape);
    var t := ParseAt(pat, p, pend, escape);
    if p == pend {
    } else if escape || pat[p] == '?' {
      ReachesOne(t, txt, s, e, true);
      MatchShortest(txt, s + 1, pat, p + 1, pend, false, e);
    } else if pat[p] == '*' {
      StarShortest(txt, s, pat, p, pend, e);
    } else if pat[p] == '\\' {
      MatchShortest(txt, s, pat, p + 1, pend, true, e);
    } else if SetAt(pat, p, pend) {
      MatchSetAt(txt, s, pat, p, pend);
      SetEndExists(pat, p + 1, pend, NotOrFirst);
      ReachesOne(t, txt, s, e, true);
      MatchShortest(txt, s + 1, pat, SetEnd(pat, p + 1, pend, NotOrFirst).value, pend, false, e);
    } else {
      AltEndExists(pat, p + 1, pend, NextAlt, 1);
      ReachesOne(t, txt, s, e, true);
      MatchShortest(txt, s + 1, pat, p + 1, pend, false, e);
    }
  }

  lemma {:induction false} StarShortest(txt: string, s: nat, pat: string, p: nat, pend: nat, e: nat)
    requires s <= |txt| && p < pend <= |pat| && pat[p] == '*'
    requires ChoiceFree(Parse(pat, p, pend)) && Reaches(Parse(pat, p, pend), txt, s, e, true)
    ensures var r := Match(txt, s, pat, p, pend, true, false); r.Ok? && r.value.res && r.value.s <= e
    decreases pend - p, |txt| - s, 0
  {
    hide Denotes, MatchAlt, ParseBranches;
    var t, rest := Parse(pat, p, pend), Parse(pat, p + 1, pend);
    MatchNeverThrows(txt, s, pat, p, pend, true, false);
    MatchSound(txt, s, pat, p + 1, pend, true, false);
    var k := StarReaches(t, txt, s, e, true);
    var r := Match(txt, s, pat, p + 1, pend, true, false).value;
    if r.res {
      EarlierReach(rest, txt, s, r.s, k, e);
      if Reaches(rest, txt, s, e, true) { MatchShortest(txt, s, pat, p + 1, pend, false, e); }
    } else {
      if k == s { MatchShortest(txt, s, pat, p + 1, pend, false, e); }
      ReachesAnything(t, txt, s + 1, e, true, k);
      MatchShortest(txt, s + 1, pat, p, pend, false, e);
    }
  }

  /** What a branch takes, when it is taken, leaves what the rest of the pattern can match. */
  lemma BranchChooses(txt: string, s: nat, pat: string, p1: nat, p1end: nat, m: nat, rest: Pattern, e: nat, partial: bool)
    returns (taken: nat)
    requires s <= m <= |txt| && p1 <= p1end <= |pat| && Chooses(Parse(pat, p1, p1end), rest.Anything?)
    requires Denotes(Parse(pat, p1, p1end), txt[s..m]) && Reaches(rest, txt, m, e, partial)
    ensures var r := Match(txt, s, pat, p1, p1end, true, false);
      r.Ok? && (r.value.res ==> r.value.s == taken && taken <= |txt| && Reaches(rest, txt, taken, e, partial))
  {
    hide Denotes, Parse, Match, PrefixFree, ChoiceFree;
    MatchSound(txt, s, pat, p1, p1end, true, false);
    taken := Match(txt, s, pat, p1, p1end, true, false).value.s;
    if PrefixFree(Parse(pat, p1, p1end)) {
      BranchCommits(txt, s, pat, p1, p1end, m);
    } else {
      MatchShortest(txt, s, pat, p1, p1end, false, m);
      ReachesFurtherBack(rest, txt, taken, m, e, partial);
    }
  }

  /** A branch without such prefixes can only match up to one position. */
  lemma BranchCommits(txt: string, s: nat, pat: string, p1: nat, p1end: nat, m: nat)
    requires s <= m <= |txt| && p1 <= p1end <= |pat|
    requires PrefixFree(Parse(pat, p1, p1end)) && Denotes(Parse(pat, p1, p1end), txt[s..m])
    ensures var r := Match(txt, s, pat, p1, p1end, true, false); r.Ok? && (r.value.res ==> r.value.s == m)
  {
    hide Denotes, Parse, Match;
    MatchSound(txt, s, pat, p1, p1end, true, false);
    var r := Match(txt, s, pat, p1, p1end, true, false).value;
    if r.res {
      var (low, high) := if m <= r.s then (m, r.s) else (r.s, m);
      assert txt[s..low] <= txt[s..high];
      assert |txt[s..m]| == |txt[s..r.s]|;
    }
  }

  /** The branch `[p, pend)` takes exactly the word `[s, m)` of the text. */
  ghost predicate Takes(pat: string, p: nat, pend: nat, txt: string, s: nat, m: nat)
    requires p <= pend <= |pat| && s <= |txt|
  {
    var r := Match(txt, s, pat, p, pend, true, false); r.Ok? && r.value.res && r.value.s == m
  }

  /** The reason for a miss, exactly: a branch takes each of its words, in every text, if and only if it is prefix free. */
  lemma TakesEveryWord(pat: string, p: nat, pend: nat)
    requires p <= pend <= |pat| && Committed(Parse(pat, p, pend))
    ensures PrefixFree(Parse(pat, p, pend)) <==>
      forall txt: string, s: nat, m: nat ::
        s <= m <= |txt| && Denotes(Parse(pat, p, pend), txt[s..m]) ==> Takes(pat, p, pend, txt, s, m)
  {
    hide Denotes, Parse, Match, Committed;
    var t := Parse(pat, p, pend);
    if PrefixFree(t) {
      forall txt: string, s: nat, m: nat | s <= m <= |txt| && Denotes(t, txt[s..m]) ensures Takes(pat, p, pend, txt, s, m) {
        MatchComplete(txt, s, pat, p, pend, true, false, m);
        BranchCommits(txt, s, pat, p, pend, m);
      }
    }
    if forall txt: string, s: nat, m: nat :: s <= m <= |txt| && Denotes(t, txt[s..m]) ==> Takes(pat, p, pend, txt, s, m) {
      forall v: string, w: string | Denotes(t, v) && Denotes(t, w) && v <= w ensures v == w {
        assert w[0..|v|] == v && w[0..|w|] == w;
        assert Takes(pat, p, pend, w, 0, |v|) && Takes(pat, p, pend, w, 0, |w|);
      }
    }
  }

  /* The matcher as a whole */

  /** A whole match is right for every pattern. */
  lemma MatchesSound(txt: string, pat: string)
    ensures Matches(txt, pat).Ok?
    ensures Matches(txt, pat).value.res ==> Denotes(Parse(pat, 0, |pat|), txt)
  {
    MatchSound(txt, 0, pat, 0, |pat|, false, false);
    assert txt[0..|txt|] == txt;
  }

  /** For committed patterns the matcher decides the language. */
  lemma MatchesExactly(txt: string, pat: string)
    requires Committed(Parse(pat, 0, |pat|))
    ensures Matches(txt, pat).Ok?
    ensures Matches(txt, pat).value.res <==> Denotes(Parse(pat, 0, |pat|), txt)
  {
    MatchesSound(txt, pat);
    assert txt[0..|txt|] == txt;
    if Denotes(Parse(pat, 0, |pat|), txt) {
      MatchComplete(txt, 0, pat, 0, |pat|, false, false, |txt|);
    }
  }

  const STAR_FIRST := "(*)b"

  lemma StarParsed()
    ensures Parse(STAR_FIRST, 0, 4) == Choice(Last(Anything(Done)), Literal('b', Done))
  {
    var pat := STAR_FIRST;
    assert AltEnd(pat, 2, 4, NextAlt, 1) == Ok(3) && AltEnd(pat, 1, 4, NextAlt, 1) == Ok(3);
    assert AltSubEnd(pat, 2, 3, NextSub, 1) == Ok(2) && AltSubEnd(pat, 1, 3, NextSub, 1) == Ok(2);
    assert Parse(pat, 1, 2) == Anything(Done) && Parse(pat, 3, 4) == Literal('b', Done);
    assert ParseBranches(pat, 1, 4, 3) == Last(Anything(Done));
  }

  lemma StarMatched()
    ensures Matches("ab", STAR_FIRST) == Ok(MatchResult(false, 0, 2))
  {
    var pat, txt := STAR_FIRST, "ab";
    assert AltEnd(pat, 2, 4, NextAlt, 1) == Ok(3) && AltEnd(pat, 1, 4, NextAlt, 1) == Ok(3);
    assert AltSubEnd(pat, 2, 3, NextSub, 1) == Ok(2) && AltSubEnd(pat, 1, 3, NextSub, 1) == Ok(2);
    assert Match(txt, 0, pat, 1, 2, true, false) == Ok(MatchResult(true, 0, 2));
    assert Match(txt, 0, pat, 3, 4, false, false) == Ok(MatchResult(false, 0, 3));
    AltEndExists(pat, 1, 4, NextAlt, 1);
  }

  lemma StarDenotes(w: string)
    ensures Denotes(Anything(Done), w)
  {
    assert w[|w|..] == [] && Denotes(Done, w[|w|..]);
  }

  lemma StarThenB()
    ensures Denotes(Choice(Last(Anything(Done)), Literal('b', Done)), "ab")
  {
    hide Denotes;
    var txt := "ab";
    assert txt[..1] == "a" && txt[1..] == "b";
    StarDenotes(txt[..1]);
    JustB();
    ChoiceDenotes(Anything(Done), Literal('b', Done), txt, 1);
  }

  lemma JustB()
    ensures Denotes(Literal('b', Done), "b")
  {
  }

  lemma ChoiceDenotes(branch: Pattern, rest: Pattern, w: string, k: nat)
    requires k <= |w| && Denotes(branch, w[..k]) && Denotes(rest, w[k..])
    ensures Denotes(Choice(Last(branch), rest), w)
  {
  }

  /** A word the matcher misses: in `(*)b` the star commits to the empty word. */
  lemma StarInBranchMisses()
    ensures Denotes(Parse(STAR_FIRST, 0, 4), "ab") && !Committed(Parse(STAR_FIRST, 0, 4))
    ensures Matches("ab", STAR_FIRST) == Ok(MatchResult(false, 0, 2))
  {
    hide Denotes, Parse, Matches;
    StarParsed();
    StarMatched();
    StarThenB();
    StarDenotes("");
    StarDenotes("a");
    assert "" <= "a" && "" != "a";
  }

  const NESTED := "((a|ab)c)"

  function InnerBranch(): Pattern {
    Choice(Either(Literal('a', Done), Last(Literal('a', Literal('b', Done)))), Literal('c', Done))
  }

  lemma InnerParsed()
    ensures Parse(NESTED, 1, 8) == InnerBranch()
  {
    var pat := NESTED;
    assert AltEnd(pat, 6, 8, NextAlt, 1) == Ok(7);
    assert AltEnd(pat, 4, 8, NextAlt, 1) == Ok(7);
    assert AltEnd(pat, 2, 8, NextAlt, 1) == Ok(7);
    assert AltSubEnd(pat, 2, 7, NextSub, 1) == Ok(3);
    assert AltSubEnd(pat, 5, 7, NextSub, 1) == Ok(6);
    assert AltSubEnd(pat, 4, 7, NextSub, 1) == Ok(6);
    assert Parse(pat, 2, 3) == Literal('a', Done) && Parse(pat, 7, 8) == Literal('c', Done);
    assert Parse(pat, 5, 6) == Literal('b', Done);
    assert Parse(pat, 4, 6) == Literal('a', Literal('b', Done));
    assert ParseBranches(pat, 4, 8, 7) == Last(Literal('a', Literal('b', Done)));
    assert ParseBranches(pat, 2, 8, 7) == Either(Literal('a', Done), Last(Literal('a', Literal('b', Done))));
  }

  lemma NestedParsed()
    ensures Parse(NESTED, 0, 9) == Choice(Last(InnerBranch()), Done)
  {
    hide Parse;
    NestedEnds();
    InnerParsed();
    OneBranch(NESTED);
  }

  lemma NestedEnds()
    ensures AltEnd(NESTED, 1, 9, NextAlt, 1) == Ok(9) && AltSubEnd(NESTED, 1, 9, NextSub, 1) == Ok(8)
  {
    var pat := NESTED;
    assert AltEnd(pat, 7, 9, NextAlt, 1) == Ok(9);
    assert AltEnd(pat, 5, 9, NextAlt, 2) == Ok(9);
    assert AltEnd(pat, 3, 9, NextAlt, 2) == Ok(9);
    assert AltSubEnd(pat, 7, 9, NextSub, 1) == Ok(8);
    assert AltSubEnd(pat, 5, 9, NextSub, 2) == Ok(8);
    assert AltSubEnd(pat, 3, 9, NextSub, 2) == Ok(8);
  }

  lemma OneBranch(pat: string)
    requires |pat| == 9 && pat[0] == '('
    requires AltEnd(pat, 1, 9, NextAlt, 1) == Ok(9) && AltSubEnd(pat, 1, 9, NextSub, 1) == Ok(8)
    ensures Parse(pat, 0, 9) == Choice(Last(Parse(pat, 1, 8)), Done)
  {
    hide AltEnd, AltSubEnd, IsSet, SetEnd;
    assert Parse(pat, 9, 9) == Done;
  }

  /** An alternative in a branch: its words differ in length, but neither is a prefix of the other. */
  lemma NestedIsCommitted()
    ensures Committed(Parse(NESTED, 0, 9)) && !FixedWidths(Parse(NESTED, 0, 9))
  {
    hide Denotes, DenotesSome, Parse;
    NestedParsed();
    FixedWidthsCommit(InnerBranch());
    forall v: string, w: string | Denotes(InnerBranch(), v) && Denotes(InnerBranch(), w) && v <= w ensures v == w {
      NestedWords(v);
      NestedWords(w);
      assert "ac"[1] != "abc"[1];
    }
  }

  lemma NestedWords(w: string)
    requires Denotes(InnerBranch(), w)
    ensures w == "ac" || w == "abc"
  {
    hide DenotesSome;
    var a, ab, c := Literal('a', Done), Literal('a', Literal('b', Done)), Literal('c', Done);
    var k :| 0 <= k <= |w| && DenotesSome(Either(a, Last(ab)), w[..k]) && Denotes(c, w[k..]);
    BranchWords(w[..k]);
    JustC(w[k..]);
    assert w == w[..k] + w[k..];
  }

  lemma BranchWords(w: string)
    requires DenotesSome(Either(Literal('a', Done), Last(Literal('a', Literal('b', Done)))), w)
    ensures w == "a" || w == "ab"
  {
    assert w == [w[0]] + w[1..];
  }

  lemma JustC(w: string)
    requires Denotes(Literal('c', Done), w)
    ensures w == "c"
  {
  }
}
