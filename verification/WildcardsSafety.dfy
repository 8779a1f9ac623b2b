/** No pattern and no text make the matcher throw: the look-ahead tests guarantee that every later scan, also on a
    narrowed range, succeeds. */
module WildcardsSafety {
  import opened Results
  import opened Wildcards

  /* Sets */

  /** `is_set` is true exactly when `set_end` succeeds. */
  lemma {:induction false} SetEndExists(pat: string, p: nat, pend: nat, state: SetState)
    requires p <= pend <= |pat|
    ensures IsSet(pat, p, pend, state) <==> SetEnd(pat, p, pend, state).Ok?
    decreases pend - p
  {
    if p < pend {
      SetEndExists(pat, p + 1, pend, NotOrFirst);
      SetEndExists(pat, p + 1, pend, First);
      SetEndExists(pat, p + 1, pend, Next);
    }
  }

  /** A set is the same set in every range that contains it. */
  lemma {:induction false} SetEndNarrow(pat: string, p: nat, e: nat, pend: nat, state: SetState)
    requires p <= e <= pend <= |pat|
    ensures SetEnd(pat, p, e, state).Ok? ==> SetEnd(pat, p, pend, state) == SetEnd(pat, p, e, state)
    ensures SetEnd(pat, p, pend, state).Ok? && SetEnd(pat, p, pend, state).value <= e
            ==> SetEnd(pat, p, e, state) == SetEnd(pat, p, pend, state)
    decreases e - p
  {
    if p < e {
      SetEndNarrow(pat, p + 1, e, pend, NotOrFirst);
      SetEndNarrow(pat, p + 1, e, pend, First);
      SetEndNarrow(pat, p + 1, e, pend, Next);
    }
  }

  /** The scan state of `is_set` at a position that `match_set` has reached in `state`. */
  function SetStateOf(state: MatchSetState): SetState {
    match state
    case OpenSet => Open
    case NotOrFirstIn => NotOrFirst
    case FirstOut => First
    case NextIn => Next
    case NextOut => Next
  }

  lemma {:induction false} MatchSetNeverThrows(txt: string, s: nat, pat: string, p: nat, pend: nat, state: MatchSetState)
    requires s <= |txt| && p <= pend <= |pat|
    requires state == NextOut ==> s < |txt|
    requires IsSet(pat, p, pend, SetStateOf(state))
    ensures MatchSet(txt, s, pat, p, pend, state).Ok?
    decreases pend - p
  {
    match state
    case OpenSet => MatchSetNeverThrows(txt, s, pat, p + 1, pend, NotOrFirstIn);
    case NotOrFirstIn =>
      if pat[p] == '!' {
        MatchSetNeverThrows(txt, s, pat, p + 1, pend, FirstOut);
      } else if s < |txt| && txt[s] != pat[p] {
        MatchSetNeverThrows(txt, s, pat, p + 1, pend, NextIn);
      }
    case FirstOut => if s < |txt| { MatchSetNeverThrows(txt, s, pat, p + 1, pend, NextOut); }
    case NextIn => if pat[p] != ']' { MatchSetNeverThrows(txt, s, pat, p + 1, pend, NextIn); }
    case NextOut => if pat[p] != ']' { MatchSetNeverThrows(txt, s, pat, p + 1, pend, NextOut); }
  }

  /* Alternatives */

  /** `is_alt` never throws, and is true exactly when `alt_end` succeeds. */
  lemma {:induction false} AltEndExists(pat: string, p: nat, pend: nat, state: AltState, depth: int)
    requires p <= pend <= |pat|
    ensures IsAlt(pat, p, pend, state, depth) == Ok(AltEnd(pat, p, pend, state, depth).Ok?)
    decreases pend - p
  {
    if p < pend {
      match state
      case OpenAlt => AltEndExists(pat, p + 1, pend, NextAlt, depth + 1);
      case NextAlt =>
        AltEndExists(pat, p + 1, pend, Escape, depth);
        AltEndExists(pat, p + 1, pend, NextAlt, depth + 1);
        AltEndExists(pat, p + 1, pend, NextAlt, depth - 1);
        AltEndExists(pat, p + 1, pend, NextAlt, depth);
        if SetAt(pat, p, pend) {
          SetEndExists(pat, p + 1, pend, NotOrFirst);
          AltEndExists(pat, SetEnd(pat, p + 1, pend, NotOrFirst).value, pend, NextAlt, depth);
        }
      case Escape => AltEndExists(pat, p + 1, pend, NextAlt, depth);
    }
  }

  /** The inside of an alternative, from `p`, ends before `e`. */
  predicate AltBody(pat: string, p: nat, pend: nat, e: nat)
    requires p <= pend <= |pat|
  {
    AltEnd(pat, p, pend, NextAlt, 1) == Ok(e)
  }

  function AltStateOf(state: AltSubState): AltState {
    if state == NextSub then NextAlt else Escape
  }

  /** A branch that starts inside an alternative ends inside it: at the closing parenthesis, or at a bar behind
      which the alternative goes on. The scan for the branch sees only `[p, e)`, the scan for the alternative
      saw `[p, pend)`. */
  lemma {:induction false} AltSubEndExists(pat: string, p: nat, pend: nat, state: AltSubState, depth: int, e: nat)
    requires p <= pend <= |pat| && depth >= 1
    requires AltEnd(pat, p, pend, AltStateOf(state), depth) == Ok(e)
    ensures p < e <= pend
    ensures var r := AltSubEnd(pat, p, e, state, depth);
            r.Ok? && (r.value + 1 == e || (r.value + 1 < e && AltBody(pat, r.value + 1, pend, e)))
    decreases pend - p
  {
    hide IsSet, SetEnd;
    if state == EscapeSub {
      AltSubEndExists(pat, p + 1, pend, NextSub, depth, e);
    } else if pat[p] == '\\' {
      AltSubEndExists(pat, p + 1, pend, EscapeSub, depth, e);
    } else if SetAt(pat, p, pend) {
      var x := SetEnd(pat, p + 1, pend, NotOrFirst).value;
      SetEndNarrow(pat, p + 1, e, pend, NotOrFirst);
      SetEndExists(pat, p + 1, e, NotOrFirst);
      AltSubEndExists(pat, x, pend, state, depth, e);
    } else {
      NoSetAt(pat, p, e, pend);
      if pat[p] == '(' {
        AltSubEndExists(pat, p + 1, pend, state, depth + 1, e);
      } else if pat[p] == ')' {
        if depth > 1 { AltSubEndExists(pat, p + 1, pend, state, depth - 1, e); }
      } else if !(pat[p] == '|' && depth == 1) {
        AltSubEndExists(pat, p + 1, pend, state, depth, e);
      }
    }
  }

  lemma NoSetAt(pat: string, p: nat, e: nat, pend: nat)
    requires p < e <= pend <= |pat| && !SetAt(pat, p, pend)
    ensures !SetAt(pat, p, e)
  {
    if pat[p] == '[' {
      SetEndExists(pat, p + 1, e, NotOrFirst);
      SetEndExists(pat, p + 1, pend, NotOrFirst);
      SetEndNarrow(pat, p + 1, e, pend, NotOrFirst);
    }
  }

  /* The matcher */

  lemma {:induction false} MatchAltNeverThrows(txt: string, s: nat, pat: string, p1: nat, p1end: nat, p2: nat, p2end: nat, partial: bool)
    requires s <= |txt| && p1 <= p1end < p2 <= p2end <= |pat|
    requires p1end + 1 == p2 || AltBody(pat, p1end + 1, p2end, p2)
    ensures MatchAlt(txt, s, pat, p1, p1end, p2, p2end, partial).Ok?
    decreases p2end - p1, 0
  {
    MatchNeverThrows(txt, s, pat, p1, p1end, true, false);
    var result1 := Match(txt, s, pat, p1, p1end, true, false).value;
    if result1.res {
      MatchNeverThrows(txt, result1.s, pat, p2, p2end, partial, false);
    }
    if p1end + 1 != p2 {
      AltSubEndExists(pat, p1end + 1, p2end, NextSub, 1, p2);
      MatchAltNeverThrows(txt, s, pat, p1end + 1, AltSubEnd(pat, p1end + 1, p2, NextSub, 1).value, p2, p2end, partial);
    }
  }

  /** The matcher terminates without throwing, for every text, every pattern and every range of it. */
  lemma {:induction false} MatchNeverThrows(txt: string, s: nat, pat: string, p: nat, pend: nat, partial: bool, escape: bool)
    requires s <= |txt| && p <= pend <= |pat|
    ensures Match(txt, s, pat, p, pend, partial, escape).Ok?
    decreases pend - p, |txt| - s
  {
    if p == pend {
    } else if escape {
      if s < |txt| { MatchNeverThrows(txt, s + 1, pat, p + 1, pend, partial, false); }
    } else if pat[p] == '*' {
      MatchNeverThrows(txt, s, pat, p + 1, pend, partial, false);
      if s < |txt| { MatchNeverThrows(txt, s + 1, pat, p, pend, partial, false); }
    } else if pat[p] == '\\' {
      MatchNeverThrows(txt, s, pat, p + 1, pend, partial, true);
    } else if SetAt(pat, p, pend) {
      MatchSetNeverThrows(txt, s, pat, p + 1, pend, NotOrFirstIn);
      SetEndExists(pat, p + 1, pend, NotOrFirst);
      if s < |txt| {
        MatchNeverThrows(txt, s + 1, pat, SetEnd(pat, p + 1, pend, NotOrFirst).value, pend, partial, false);
      }
    } else {
      AltEndExists(pat, p + 1, pend, NextAlt, 1);
      if pat[p] == '(' && AltEnd(pat, p + 1, pend, NextAlt, 1).Ok? {
        var altEnd := AltEnd(pat, p + 1, pend, NextAlt, 1).value;
        AltSubEndExists(pat, p + 1, pend, NextSub, 1, altEnd);
        MatchAltNeverThrows(txt, s, pat, p + 1, AltSubEnd(pat, p + 1, altEnd, NextSub, 1).value, altEnd, pend, partial);
      } else if s < |txt| {
        MatchNeverThrows(txt, s + 1, pat, p + 1, pend, partial, false);
      }
    }
  }
}
