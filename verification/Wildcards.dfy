/** The wildcard matcher in its recursive form, with the default cards: `*`, `?`, `\`, `[...]`, `[!...]` and
    `(...|...)`. A pattern is a range `[p, pend)` of positions of `pat`; the text runs from `s` to its end.
    Where the original throws, these functions return `Err`. */
module Wildcards {
  import opened Results

  datatype Error = NotASet | NotAnAlternative

  type Outcome<+T> = Result<T, Error>

  /** Whether there is a match, and the positions reached in the text and in the pattern. */
  datatype MatchResult = MatchResult(res: bool, s: nat, p: nat)

  /* Sets */

  datatype SetState = Open | NotOrFirst | First | Next

  predicate IsSet(pat: string, p: nat, pend: nat, state: SetState)
    requires p <= pend <= |pat|
    decreases pend - p
  {
    p != pend &&
    match state
    case Open => pat[p] == '[' && IsSet(pat, p + 1, pend, NotOrFirst)
    case NotOrFirst => if pat[p] == '!' then IsSet(pat, p + 1, pend, First) else IsSet(pat, p + 1, pend, Next)
    case First => IsSet(pat, p + 1, pend, Next)
    case Next => pat[p] == ']' || IsSet(pat, p + 1, pend, Next)
  }

  /** The position after the set. */
  function SetEnd(pat: string, p: nat, pend: nat, state: SetState): (r: Outcome<nat>)
    requires p <= pend <= |pat|
    ensures r.Ok? ==> p < r.value <= pend
    decreases pend - p
  {
    if p == pend then Err(NotASet) else
      match state
      case Open => if pat[p] == '[' then SetEnd(pat, p + 1, pend, NotOrFirst) else Err(NotASet)
      case NotOrFirst => if pat[p] == '!' then SetEnd(pat, p + 1, pend, First) else SetEnd(pat, p + 1, pend, Next)
      case First => SetEnd(pat, p + 1, pend, Next)
      case Next => if pat[p] == ']' then Ok(p + 1) else SetEnd(pat, p + 1, pend, Next)
  }

  datatype MatchSetState = OpenSet | NotOrFirstIn | FirstOut | NextIn | NextOut

  /** Whether the character at `s` is one the set admits. */
  function MatchSet(txt: string, s: nat, pat: string, p: nat, pend: nat, state: MatchSetState): (r: Outcome<MatchResult>)
    requires s <= |txt| && p <= pend <= |pat|
    requires state == NextOut ==> s < |txt|
    ensures r.Ok? ==> r.value.s == s && p <= r.value.p < pend && (r.value.res ==> s < |txt|)
    decreases pend - p
  {
    if p == pend then Err(NotASet) else
      match state
      case OpenSet => if pat[p] == '[' then MatchSet(txt, s, pat, p + 1, pend, NotOrFirstIn) else Err(NotASet)
      case NotOrFirstIn =>
        if pat[p] == '!' then MatchSet(txt, s, pat, p + 1, pend, FirstOut)
        else if s == |txt| then Ok(MatchResult(false, s, p))
        else if txt[s] == pat[p] then Ok(MatchResult(true, s, p))
        else MatchSet(txt, s, pat, p + 1, pend, NextIn)
      case FirstOut =>
        if s == |txt| || txt[s] == pat[p] then Ok(MatchResult(false, s, p))
        else MatchSet(txt, s, pat, p + 1, pend, NextOut)
      case NextIn =>
        if pat[p] == ']' || s == |txt| then Ok(MatchResult(false, s, p))
        else if txt[s] == pat[p] then Ok(MatchResult(true, s, p))
        else MatchSet(txt, s, pat, p + 1, pend, NextIn)
      case NextOut =>
        if pat[p] == ']' then Ok(MatchResult(true, s, p))
        else if s == |txt| || txt[s] == pat[p] then Ok(MatchResult(false, s, p))
        else MatchSet(txt, s, pat, p + 1, pend, NextOut)
  }

  /* Alternatives */

  datatype AltState = OpenAlt | NextAlt | Escape

  /** A set begins behind the bracket at `p`. */
  predicate SetAt(pat: string, p: nat, pend: nat)
    requires p < pend <= |pat|
  {
    pat[p] == '[' && IsSet(pat, p + 1, pend, NotOrFirst)
  }

  function IsAlt(pat: string, p: nat, pend: nat, state: AltState, depth: int): Outcome<bool>
    requires p <= pend <= |pat|
    decreases pend - p
  {
    if p == pend then Ok(false) else
      match state
      case OpenAlt => if pat[p] == '(' then IsAlt(pat, p + 1, pend, NextAlt, depth + 1) else Ok(false)
      case NextAlt =>
        if pat[p] == '\\' then IsAlt(pat, p + 1, pend, Escape, depth)
        else if SetAt(pat, p, pend) then
          var e :- SetEnd(pat, p + 1, pend, NotOrFirst);
          IsAlt(pat, e, pend, state, depth)
        else if pat[p] == '(' then IsAlt(pat, p + 1, pend, state, depth + 1)
        else if pat[p] == ')' then
          if depth == 1 then Ok(true) else IsAlt(pat, p + 1, pend, state, depth - 1)
        else IsAlt(pat, p + 1, pend, state, depth)
      case Escape => IsAlt(pat, p + 1, pend, NextAlt, depth)
  }

  /** The position after the alternative. */
  function AltEnd(pat: string, p: nat, pend: nat, state: AltState, depth: int): (r: Outcome<nat>)
    requires p <= pend <= |pat|
    ensures r.Ok? ==> p < r.value <= pend
    decreases pend - p
  {
    if p == pend then Err(NotAnAlternative) else
      match state
      case OpenAlt => if pat[p] == '(' then AltEnd(pat, p + 1, pend, NextAlt, depth + 1) else Err(NotAnAlternative)
      case NextAlt =>
        if pat[p] == '\\' then AltEnd(pat, p + 1, pend, Escape, depth)
        else if SetAt(pat, p, pend) then
          var e :- SetEnd(pat, p + 1, pend, NotOrFirst);
          AltEnd(pat, e, pend, state, depth)
        else if pat[p] == '(' then AltEnd(pat, p + 1, pend, state, depth + 1)
        else if pat[p] == ')' then
          if depth == 1 then Ok(p + 1) else AltEnd(pat, p + 1, pend, state, depth - 1)
        else AltEnd(pat, p + 1, pend, state, depth)
      case Escape => AltEnd(pat, p + 1, pend, NextAlt, depth)
  }

  datatype AltSubState = NextSub | EscapeSub

  /** The position of the bar or parenthesis that ends the first branch of the range. */
  function AltSubEnd(pat: string, p: nat, pend: nat, state: AltSubState, depth: int): (r: Outcome<nat>)
    requires p <= pend <= |pat|
    ensures r.Ok? ==> p <= r.value < pend
    decreases pend - p
  {
    if p == pend then Err(NotAnAlternative) else
      match state
      case NextSub =>
        if pat[p] == '\\' then AltSubEnd(pat, p + 1, pend, EscapeSub, depth)
        else if SetAt(pat, p, pend) then
          var e :- SetEnd(pat, p + 1, pend, NotOrFirst);
          AltSubEnd(pat, e, pend, state, depth)
        else if pat[p] == '(' then AltSubEnd(pat, p + 1, pend, state, depth + 1)
        else if pat[p] == ')' then
          if depth == 1 then Ok(p) else AltSubEnd(pat, p + 1, pend, state, depth - 1)
        else if pat[p] == '|' then
          if depth == 1 then Ok(p) else AltSubEnd(pat, p + 1, pend, state, depth)
        else AltSubEnd(pat, p + 1, pend, state, depth)
      case EscapeSub => AltSubEnd(pat, p + 1, pend, NextSub, depth)
  }

  /* The matcher */

  /** The first branch of an alternative is `[p1, p1end)`, the others follow up to the parenthesis before `p2`;
      `[p2, p2end)` is what comes after the alternative. */
  function MatchAlt(txt: string, s: nat, pat: string, p1: nat, p1end: nat, p2: nat, p2end: nat, partial: bool)
    : (r: Outcome<MatchResult>)
    requires s <= |txt| && p1 <= p1end < p2 <= p2end <= |pat|
    ensures r.Ok? ==> s <= r.value.s <= |txt|
    decreases p2end - p1, 0
  {
    var result1 :- Match(txt, s, pat, p1, p1end, true, false);
    var result2 :- if result1.res then Match(txt, result1.s, pat, p2, p2end, partial, false) else Ok(result1);
    if result1.res && result2.res then Ok(result2)
    else if p1end + 1 == p2 then Ok(MatchResult(false, s, p1end))
    else
      var e :- AltSubEnd(pat, p1end + 1, p2, NextSub, 1);
      MatchAlt(txt, s, pat, p1end + 1, e, p2, p2end, partial)
  }

  function Match(txt: string, s: nat, pat: string, p: nat, pend: nat, partial: bool, escape: bool): (r: Outcome<MatchResult>)
    requires s <= |txt| && p <= pend <= |pat|
    ensures r.Ok? ==> s <= r.value.s <= |txt|
    decreases pend - p, |txt| - s
  {
    if p == pend then Ok(MatchResult(partial || s == |txt|, s, p))
    else if escape then
      if s == |txt| || txt[s] != pat[p] then Ok(MatchResult(false, s, p))
      else Match(txt, s + 1, pat, p + 1, pend, partial, false)
    else if pat[p] == '*' then
      var result :- Match(txt, s, pat, p + 1, pend, partial, false);
      if result.res then Ok(result)
      else if s == |txt| then Ok(MatchResult(false, s, p))
      else Match(txt, s + 1, pat, p, pend, partial, false)
    else if pat[p] == '?' then
      if s == |txt| then Ok(MatchResult(false, s, p))
      else Match(txt, s + 1, pat, p + 1, pend, partial, false)
    else if pat[p] == '\\' then
      Match(txt, s, pat, p + 1, pend, partial, true)
    else if SetAt(pat, p, pend) then
      var result :- MatchSet(txt, s, pat, p + 1, pend, NotOrFirstIn);
      if !result.res then Ok(result)
      else
        var e :- SetEnd(pat, p + 1, pend, NotOrFirst);
        Match(txt, s + 1, pat, e, pend, partial, false)
    else
      var isAlt :- if pat[p] == '(' then IsAlt(pat, p + 1, pend, NextAlt, 1) else Ok(false);
      if isAlt then
        var altEnd :- AltEnd(pat, p + 1, pend, NextAlt, 1);
        var subEnd :- AltSubEnd(pat, p + 1, altEnd, NextSub, 1);
        MatchAlt(txt, s, pat, p + 1, subEnd, altEnd, pend, partial)
      else if s == |txt| || txt[s] != pat[p] then Ok(MatchResult(false, s, p))
      else Match(txt, s + 1, pat, p + 1, pend, partial, false)
  }

  /** `make_matcher(pattern).matches(sequence)` */
  function Matches(txt: string, pat: string): Outcome<MatchResult> {
    Match(txt, 0, pat, 0, |pat|, false, false)
  }
}
