/** What a pattern means: the set of words it denotes, defined on its syntax tree without reference to the
    matcher, and how far the matcher agrees with it. */
module WildcardsLanguage {
  import opened Results
  import opened Wildcards
  import opened WildcardsSafety

  /* Syntax trees */

  /** A pattern is a list of items; each constructor carries the rest of the list. */
  datatype Pattern =
    | Done
    | Anything(rest: Pattern)
    | Single(rest: Pattern)
    | Literal(c: char, rest: Pattern)
    | Class(negated: bool, members: string, rest: Pattern)
    | Choice(branches: Branches, rest: Pattern)

  datatype Branches =
    | Last(branch: Pattern)
    | Either(branch: Pattern, others: Branches)

  /** The tree of the pattern text `[p, pend)`. */
  function Parse(pat: string, p: nat, pend: nat): Pattern
    requires p <= pend <= |pat|
    decreases pend - p
  {
    if p == pend then Done
    else if pat[p] == '*' then Anything(Parse(pat, p + 1, pend))
    else if pat[p] == '?' then Single(Parse(pat, p + 1, pend))
    else if pat[p] == '\\' then ParseEscaped(pat, p + 1, pend)
    else if SetAt(pat, p, pend) then
      SetEndExists(pat, p + 1, pend, NotOrFirst);
      var e := SetEnd(pat, p + 1, pend, NotOrFirst).value;
      SetEndBracket(pat, p + 1, pend, NotOrFirst);
      var negated := pat[p + 1] == '!';
      Class(negated, pat[if negated then p + 2 else p + 1..e - 1], Parse(pat, e, pend))
    else if pat[p] == '(' && AltEnd(pat, p + 1, pend, NextAlt, 1).Ok? then
      var e := AltEnd(pat, p + 1, pend, NextAlt, 1).value;
      Choice(ParseBranches(pat, p + 1, pend, e), Parse(pat, e, pend))
    else Literal(pat[p], Parse(pat, p + 1, pend))
  }

  /** The character behind a backslash stands for itself; a trailing backslash for nothing. */
  function ParseEscaped(pat: string, p: nat, pend: nat): Pattern
    requires p <= pend <= |pat|
    decreases pend - p
  {
    if p == pend then Done else Literal(pat[p], Parse(pat, p + 1, pend))
  }

  /** The branches of the alternative whose inside goes from `p` to the parenthesis before `e`. */
  function ParseBranches(pat: string, p: nat, pend: nat, e: nat): Branches
    requires p <= pend <= |pat| && AltBody(pat, p, pend, e)
    decreases pend - p
  {
    AltSubEndExists(pat, p, pend, NextSub, 1, e);
    var q := AltSubEnd(pat, p, e, NextSub, 1).value;
    var branch := Parse(pat, p, q);
    if q + 1 == e then Last(branch) else Either(branch, ParseBranches(pat, q + 1, pend, e))
  }

  /** A set ends with its bracket, and has at least one member. */
  lemma {:induction false} SetEndBracket(pat: string, p: nat, pend: nat, state: SetState)
    requires p <= pend <= |pat| && SetEnd(pat, p, pend, state).Ok?
    ensures pat[SetEnd(pat, p, pend, state).value - 1] == ']'
    ensures state == First ==> SetEnd(pat, p, pend, state).value >= p + 2
    ensures state == NotOrFirst ==> SetEnd(pat, p, pend, state).value >= if pat[p] == '!' then p + 3 else p + 2
    decreases pend - p
  {
    if p < pend && !(state == Next && pat[p] == ']') {
      SetEndBracket(pat, p + 1, pend,
                    if state == Open then NotOrFirst else if state == NotOrFirst && pat[p] == '!' then First else Next);
    }
  }

  /* Words */

  /** Whether a set admits a character. */
  predicate Admits(negated: bool, members: string, c: char) {
    if negated then c !in members else c in members
  }

  /** The words of a pattern. */
  ghost predicate Denotes(t: Pattern, w: string)
    decreases t
  {
    match t
    case Done => w == []
    case Anything(rest) => exists k :: 0 <= k <= |w| && Denotes(rest, w[k..])
    case Single(rest) => w != [] && Denotes(rest, w[1..])
    case Literal(c, rest) => w != [] && w[0] == c && Denotes(rest, w[1..])
    case Class(negated, members, rest) => w != [] && Admits(negated, members, w[0]) && Denotes(rest, w[1..])
    case Choice(branches, rest) => exists k :: 0 <= k <= |w| && DenotesSome(branches, w[..k]) && Denotes(rest, w[k..])
  }

  ghost predicate DenotesSome(bs: Branches, w: string)
    decreases bs
  {
    match bs
    case Last(b) => Denotes(b, w)
    case Either(b, others) => Denotes(b, w) || DenotesSome(others, w)
  }

  /* Sets */

  /** Where `[...]` stops in the pattern does not matter: it admits a character exactly when it is one of the
      members, or none of them behind `!`. */
  lemma {:induction false} MatchSetMeans(txt: string, s: nat, pat: string, p: nat, pend: nat, state: MatchSetState)
    requires s < |txt| && p <= pend <= |pat|
    requires state.NotOrFirstIn? ==> p < pend && pat[p] != '!'
    requires !state.OpenSet? && SetEnd(pat, p, pend, SetStateOf(state)).Ok?
    ensures MatchSet(txt, s, pat, p, pend, state).Ok?
    ensures p < SetEnd(pat, p, pend, SetStateOf(state)).value
    ensures var members := pat[p..SetEnd(pat, p, pend, SetStateOf(state)).value - 1];
            MatchSet(txt, s, pat, p, pend, state).value.res
            == Admits(state == FirstOut || state == NextOut, members, txt[s])
    decreases pend - p
  {
    var e := SetEnd(pat, p, pend, SetStateOf(state)).value;
    SetEndExists(pat, p, pend, SetStateOf(state));
    MatchSetNeverThrows(txt, s, pat, p, pend, state);
    if !((state.NextIn? || state.NextOut?) && pat[p] == ']') {
      SetEndBracket(pat, p, pend, SetStateOf(state));
      MatchSetMeans(txt, s, pat, p + 1, pend, if state == FirstOut || state == NextOut then NextOut else NextIn);
      assert p + 1 <= e - 1;
      assert pat[p..e - 1] == [pat[p]] + pat[p + 1..e - 1];
    }
  }

  /** `[...]` without `!`, from behind the bracket. */
  lemma PlainSet(txt: string, s: nat, pat: string, p: nat, pend: nat)
    requires s < |txt| && p < pend <= |pat| && pat[p] != '!' && SetEnd(pat, p, pend, NotOrFirst).Ok?
    ensures var e := SetEnd(pat, p, pend, NotOrFirst).value;
            var r := MatchSet(txt, s, pat, p, pend, NotOrFirstIn);
            p <= e - 1 && r.Ok? && r.value.res == Admits(false, pat[p..e - 1], txt[s])
  {
    MatchSetMeans(txt, s, pat, p, pend, NotOrFirstIn);
  }

  /** `[!...]`, from behind the bracket. */
  lemma NegatedSet(txt: string, s: nat, pat: string, p: nat, pend: nat)
    requires s < |txt| && p < pend <= |pat| && pat[p] == '!' && SetEnd(pat, p, pend, NotOrFirst).Ok?
    ensures var e := SetEnd(pat, p, pend, NotOrFirst).value;
            var r := MatchSet(txt, s, pat, p, pend, NotOrFirstIn);
            p + 1 <= e - 1 && r.Ok? && r.value.res == Admits(true, pat[p + 1..e - 1], txt[s])
  {
    MatchSetMeans(txt, s, pat, p + 1, pend, FirstOut);
  }

  lemma ParseSet(pat: string, p: nat, pend: nat)
    requires p < pend <= |pat| && SetAt(pat, p, pend)
    ensures SetEnd(pat, p + 1, pend, NotOrFirst).Ok? && p + 1 < pend
    ensures var e := SetEnd(pat, p + 1, pend, NotOrFirst).value;
            var first := if pat[p + 1] == '!' then p + 2 else p + 1;
            first <= e - 1 && Parse(pat, p, pend) == Class(pat[p + 1] == '!', pat[first..e - 1], Parse(pat, e, pend))
  {
    SetEndExists(pat, p + 1, pend, NotOrFirst);
    SetEndBracket(pat, p + 1, pend, NotOrFirst);
  }

  lemma MatchSetAt(txt: string, s: nat, pat: string, p: nat, pend: nat)
    requires s <= |txt| && p < pend <= |pat| && SetAt(pat, p, pend)
    ensures var r := MatchSet(txt, s, pat, p + 1, pend, NotOrFirstIn);
            var t := Parse(pat, p, pend);
            r.Ok? && t.Class? && (r.value.res <==> s < |txt| && Admits(t.negated, t.members, txt[s]))
  {
    hide *;
    SetMatched(txt, s, pat, p, pend);
    ParseSet(pat, p, pend);
    if s < |txt| {
      if pat[p + 1] == '!' { NegatedSet(txt, s, pat, p + 1, pend); } else { PlainSet(txt, s, pat, p + 1, pend); }
    }
  }

  lemma SetMatched(txt: string, s: nat, pat: string, p: nat, pend: nat)
    requires s <= |txt| && p < pend <= |pat| && SetAt(pat, p, pend)
    ensures MatchSet(txt, s, pat, p + 1, pend, NotOrFirstIn).Ok?
  {
    MatchSetNeverThrows(txt, s, pat, p + 1, pend, NotOrFirstIn);
  }

  /* Soundness */

  /** The tree of what is still to be matched when the previous character was a backslash, or was not. */
  function ParseAt(pat: string, p: nat, pend: nat, escape: bool): Pattern
    requires p <= pend <= |pat|
  {
    if escape then ParseEscaped(pat, p, pend) else Parse(pat, p, pend)
  }

  /** A positive answer reached position `e` of the text: the text up to there is a word, and unless a partial
      match was asked for there is no text left. */
  ghost predicate Reaches(t: Pattern, txt: string, s: nat, e: nat, partial: bool) {
    s <= e <= |txt| && Denotes(t, txt[s..e]) && (partial || e == |txt|)
  }

  lemma ReachesStep(t: Pattern, txt: string, s: nat, e: nat, partial: bool)
    requires !t.Done? && s < |txt| && Reaches(t.rest, txt, s + 1, e, partial)
    requires t.Single? || (t.Literal? && t.c == txt[s]) || (t.Class? && Admits(t.negated, t.members, txt[s]))
    ensures Reaches(t, txt, s, e, partial)
  {
    assert txt[s..e][1..] == txt[s + 1..e];
  }

  lemma ReachesAnything(t: Pattern, txt: string, s: nat, e: nat, partial: bool, k: nat)
    requires t.Anything? && s <= k <= |txt| && Reaches(t.rest, txt, k, e, partial)
    ensures Reaches(t, txt, s, e, partial)
  {
    assert txt[s..e][k - s..] == txt[k..e];
  }

  lemma ReachesChoice(t: Pattern, txt: string, s: nat, m: nat, e: nat, partial: bool)
    requires t.Choice? && s <= m <= e <= |txt|
    requires DenotesSome(t.branches, txt[s..m]) && Reaches(t.rest, txt, m, e, partial)
    ensures Reaches(t, txt, s, e, partial)
  {
    assert txt[s..e][..m - s] == txt[s..m] && txt[s..e][m - s..] == txt[m..e];
  }

  lemma DoneIsEmpty(w: string)
    ensures Denotes(Done, w) <==> |w| == 0
  {
  }

  /** A positive answer is right, for every pattern: what was consumed is a word of the pattern. */
  lemma {:induction false} MatchSound(txt: string, s: nat, pat: string, p: nat, pend: nat, partial: bool, escape: bool)
    requires s <= |txt| && p <= pend <= |pat|
    ensures var r := Match(txt, s, pat, p, pend, partial, escape);
            r.Ok? && (r.value.res ==> Reaches(ParseAt(pat, p, pend, escape), txt, s, r.value.s, partial))
    decreases pend - p, |txt| - s
  {
    hide Denotes, DenotesSome, IsSet, SetEnd, MatchSet, IsAlt, AltEnd, AltSubEnd, MatchAlt, ParseBranches;
    MatchNeverThrows(txt, s, pat, p, pend, partial, escape);
    var r := Match(txt, s, pat, p, pend, partial, escape);
    var t := ParseAt(pat, p, pend, escape);
    if p == pend {
      DoneIsEmpty(txt[s..s]);
    } else if escape || pat[p] == '?' {
      if s < |txt| && (pat[p] == '?' || txt[s] == pat[p]) {
        MatchSound(txt, s + 1, pat, p + 1, pend, partial, false);
        if r.value.res { ReachesStep(t, txt, s, r.value.s, partial); }
      }
    } else if pat[p] == '*' {
      MatchSound(txt, s, pat, p + 1, pend, partial, false);
      if Match(txt, s, pat, p + 1, pend, partial, false).value.res {
        ReachesAnything(t, txt, s, r.value.s, partial, s);
      } else if s < |txt| {
        MatchSound(txt, s + 1, pat, p, pend, partial, false);
        if r.value.res { AnythingLonger(t, txt, s, r.value.s, partial); }
      }
    } else if pat[p] == '\\' {
      MatchSound(txt, s, pat, p + 1, pend, partial, true);
    } else if SetAt(pat, p, pend) {
      MatchSetAt(txt, s, pat, p, pend);
      SetEndExists(pat, p + 1, pend, NotOrFirst);
      if MatchSet(txt, s, pat, p + 1, pend, NotOrFirstIn).value.res {
        MatchSound(txt, s + 1, pat, SetEnd(pat, p + 1, pend, NotOrFirst).value, pend, partial, false);
        if r.value.res { ReachesStep(t, txt, s, r.value.s, partial); }
      }
    } else {
      AltEndExists(pat, p + 1, pend, NextAlt, 1);
      if pat[p] == '(' && AltEnd(pat, p + 1, pend, NextAlt, 1).Ok? {
        MatchAltSound(txt, s, pat, p + 1, AltEnd(pat, p + 1, pend, NextAlt, 1).value, pend, partial);
        if r.value.res {
          var m :| s <= m <= r.value.s && DenotesSome(t.branches, txt[s..m]) && Reaches(t.rest, txt, m, r.value.s, partial);
          ReachesChoice(t, txt, s, m, r.value.s, partial);
        }
      } else if s < |txt| && txt[s] == pat[p] {
        MatchSound(txt, s + 1, pat, p + 1, pend, partial, false);
        if r.value.res { ReachesStep(t, txt, s, r.value.s, partial); }
      }
    }
  }

  lemma AnythingLonger(t: Pattern, txt: string, s: nat, e: nat, partial: bool)
    requires t.Anything? && s < |txt| && Reaches(t, txt, s + 1, e, partial)
    ensures Reaches(t, txt, s, e, partial)
  {
    var w := txt[s + 1..e];
    var k :| 0 <= k <= |w| && Denotes(t.rest, w[k..]);
    assert w[k..] == txt[s..e][k + 1..];
  }

  lemma {:induction false} MatchAltSound(txt: string, s: nat, pat: string, p1: nat, p2: nat, p2end: nat, partial: bool)
    requires s <= |txt| && p1 <= p2end <= |pat| && AltBody(pat, p1, p2end, p2)
    ensures p1 < p2 <= p2end
    ensures var p1end := AltSubEnd(pat, p1, p2, NextSub, 1);
            && p1end.Ok? && p1end.value < p2
            && var r := MatchAlt(txt, s, pat, p1, p1end.value, p2, p2end, partial);
            && r.Ok?
            && (r.value.res ==>
                  exists m :: s <= m <= r.value.s && DenotesSome(ParseBranches(pat, p1, p2end, p2), txt[s..m])
                              && Reaches(Parse(pat, p2, p2end), txt, m, r.value.s, partial))
    decreases p2end - p1, 0
  {
    AltSubEndExists(pat, p1, p2end, NextSub, 1, p2);
    var p1end := AltSubEnd(pat, p1, p2, NextSub, 1).value;
    MatchSound(txt, s, pat, p1, p1end, true, false);
    var result1 := Match(txt, s, pat, p1, p1end, true, false).value;
    if result1.res { MatchSound(txt, result1.s, pat, p2, p2end, partial, false); }
    if p1end + 1 != p2 { MatchAltSound(txt, s, pat, p1end + 1, p2, p2end, partial); }
  }
}
