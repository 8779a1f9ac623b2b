/** The matcher as C++14 compiles it: the scans are loops over a position, a state and a depth. Each method returns
    exactly what the recursive form returns, positions included. */
module WildcardsLoops {
  import opened Results
  import opened Wildcards

  method IsSetLoop(pat: string, start: nat, pend: nat, from: SetState) returns (r: bool)
    requires start <= pend <= |pat|
    ensures r == IsSet(pat, start, pend, from)
  {
    var p, state := start, from;
    while p != pend
      invariant start <= p <= pend
      invariant IsSet(pat, p, pend, state) == IsSet(pat, start, pend, from)
      decreases pend - p
    {
      match state {
        case Open =>
          if pat[p] != '[' { return false; }
          state := NotOrFirst;
        case NotOrFirst => state := if pat[p] == '!' then First else Next;
        case First => state := Next;
        case Next =>
          if pat[p] == ']' { return true; }
      }
      p := p + 1;
    }
    return false;
  }

  method SetEndLoop(pat: string, start: nat, pend: nat, from: SetState) returns (r: Outcome<nat>)
    requires start <= pend <= |pat|
    ensures r == SetEnd(pat, start, pend, from)
  {
    var p, state := start, from;
    while p != pend
      invariant start <= p <= pend
      invariant SetEnd(pat, p, pend, state) == SetEnd(pat, start, pend, from)
      decreases pend - p
    {
      match state {
        case Open =>
          if pat[p] != '[' { return Err(NotASet); }
          state := NotOrFirst;
        case NotOrFirst => state := if pat[p] == '!' then First else Next;
        case First => state := Next;
        case Next =>
          if pat[p] == ']' { return Ok(p + 1); }
      }
      p := p + 1;
    }
    return Err(NotASet);
  }

  method MatchSetLoop(txt: string, s: nat, pat: string, start: nat, pend: nat, from: MatchSetState)
    returns (r: Outcome<MatchResult>)
    requires s <= |txt| && start <= pend <= |pat|
    requires from == NextOut ==> s < |txt|
    ensures r == MatchSet(txt, s, pat, start, pend, from)
  {
    var p, state := start, from;
    while p != pend
      invariant start <= p <= pend && (state == NextOut ==> s < |txt|)
      invariant MatchSet(txt, s, pat, p, pend, state) == MatchSet(txt, s, pat, start, pend, from)
      decreases pend - p
    {
      match state {
        case OpenSet =>
          if pat[p] != '[' { return Err(NotASet); }
          state := NotOrFirstIn;
        case NotOrFirstIn =>
          if pat[p] == '!' {
            state := FirstOut;
          } else {
            if s == |txt| { return Ok(MatchResult(false, s, p)); }
            if txt[s] == pat[p] { return Ok(MatchResult(true, s, p)); }
            state := NextIn;
          }
        case FirstOut =>
          if s == |txt| || txt[s] == pat[p] { return Ok(MatchResult(false, s, p)); }
          state := NextOut;
        case NextIn =>
          if pat[p] == ']' || s == |txt| { return Ok(MatchResult(false, s, p)); }
          if txt[s] == pat[p] { return Ok(MatchResult(true, s, p)); }
        case NextOut =>
          if pat[p] == ']' { return Ok(MatchResult(true, s, p)); }
          if s == |txt| || txt[s] == pat[p] { return Ok(MatchResult(false, s, p)); }
      }
      p := p + 1;
    }
    return Err(NotASet);
  }

  /** `set_enabled && *p == set_open && is_set(next(p), ...)` */
  method SetAtLoop(pat: string, p: nat, pend: nat) returns (r: bool)
    requires p < pend <= |pat|
    ensures r == SetAt(pat, p, pend)
  {
    r := pat[p] == '[';
    if r {
      r := IsSetLoop(pat, p + 1, pend, NotOrFirst);
    }
  }

  method IsAltLoop(pat: string, start: nat, pend: nat, from: AltState, fromDepth: int) returns (r: Outcome<bool>)
    requires start <= pend <= |pat|
    ensures r == IsAlt(pat, start, pend, from, fromDepth)
  {
    var p, state, depth := start, from, fromDepth;
    while p != pend
      invariant start <= p <= pend
      invariant IsAlt(pat, p, pend, state, depth) == IsAlt(pat, start, pend, from, fromDepth)
      decreases pend - p
    {
      match state {
        case OpenAlt =>
          if pat[p] != '(' { return Ok(false); }
          state, depth := NextAlt, depth + 1;
        case NextAlt =>
          var isSet := SetAtLoop(pat, p, pend);
          if pat[p] == '\\' {
            state := Escape;
          } else if isSet {
            var e := SetEndLoop(pat, p + 1, pend, NotOrFirst);
            if e.Err? { return Err(e.error); }
            p := e.value - 1;
          } else if pat[p] == '(' {
            depth := depth + 1;
          } else if pat[p] == ')' {
            depth := depth - 1;
            if depth == 0 { return Ok(true); }
          }
        case Escape => state := NextAlt;
      }
      p := p + 1;
    }
    return Ok(false);
  }

  method AltEndLoop(pat: string, start: nat, pend: nat, from: AltState, fromDepth: int) returns (r: Outcome<nat>)
    requires start <= pend <= |pat|
    ensures r == AltEnd(pat, start, pend, from, fromDepth)
  {
    var p, state, depth := start, from, fromDepth;
    while p != pend
      invariant start <= p <= pend
      invariant AltEnd(pat, p, pend, state, depth) == AltEnd(pat, start, pend, from, fromDepth)
      decreases pend - p
    {
      match state {
        case OpenAlt =>
          if pat[p] != '(' { return Err(NotAnAlternative); }
          state, depth := NextAlt, depth + 1;
        case NextAlt =>
          var isSet := SetAtLoop(pat, p, pend);
          if pat[p] == '\\' {
            state := Escape;
          } else if isSet {
            var e := SetEndLoop(pat, p + 1, pend, NotOrFirst);
            if e.Err? { return Err(e.error); }
            p := e.value - 1;
          } else if pat[p] == '(' {
            depth := depth + 1;
          } else if pat[p] == ')' {
            depth := depth - 1;
            if depth == 0 { return Ok(p + 1); }
          }
        case Escape => state := NextAlt;
      }
      p := p + 1;
    }
    return Err(NotAnAlternative);
  }

  method AltSubEndLoop(pat: string, start: nat, pend: nat, from: AltSubState, fromDepth: int) returns (r: Outcome<nat>)
    requires start <= pend <= |pat|
    ensures r == AltSubEnd(pat, start, pend, from, fromDepth)
  {
    var p, state, depth := start, from, fromDepth;
    while p != pend
      invariant start <= p <= pend
      invariant AltSubEnd(pat, p, pend, state, depth) == AltSubEnd(pat, start, pend, from, fromDepth)
      decreases pend - p
    {
      match state {
        case NextSub =>
          var isSet := SetAtLoop(pat, p, pend);
          if pat[p] == '\\' {
            state := EscapeSub;
          } else if isSet {
            var e := SetEndLoop(pat, p + 1, pend, NotOrFirst);
            if e.Err? { return Err(e.error); }
            p := e.value - 1;
          } else if pat[p] == '(' {
            depth := depth + 1;
          } else if pat[p] == ')' {
            depth := depth - 1;
            if depth == 0 { return Ok(p); }
          } else if pat[p] == '|' {
            if depth == 1 { return Ok(p); }
          }
        case EscapeSub => state := NextSub;
      }
      p := p + 1;
    }
    return Err(NotAnAlternative);
  }

  method MatchAltSteps(txt: string, s: nat, pat: string, p1: nat, p1end: nat, p2: nat, p2end: nat, partial: bool)
    returns (r: Outcome<MatchResult>)
    requires s <= |txt| && p1 <= p1end < p2 <= p2end <= |pat|
    ensures r == MatchAlt(txt, s, pat, p1, p1end, p2, p2end, partial)
    decreases p2end - p1, 0
  {
    var result1 := MatchSteps(txt, s, pat, p1, p1end, true, false);
    if result1.Err? { return result1; }
    if result1.value.res {
      var result2 := MatchSteps(txt, result1.value.s, pat, p2, p2end, partial, false);
      if result2.Err? || result2.value.res { return result2; }
    }
    var p := p1end + 1;
    if p == p2 { return Ok(MatchResult(false, s, p1end)); }
    var e := AltSubEndLoop(pat, p, p2, NextSub, 1);
    if e.Err? { return Err(e.error); }
    r := MatchAltSteps(txt, s, pat, p, e.value, p2, p2end, partial);
  }

  method MatchSteps(txt: string, s: nat, pat: string, p: nat, pend: nat, partial: bool, escape: bool)
    returns (r: Outcome<MatchResult>)
    requires s <= |txt| && p <= pend <= |pat|
    ensures r == Match(txt, s, pat, p, pend, partial, escape)
    decreases pend - p, |txt| - s
  {
    if p == pend { return Ok(MatchResult(partial || s == |txt|, s, p)); }
    if escape {
      if s == |txt| || txt[s] != pat[p] { return Ok(MatchResult(false, s, p)); }
      r := MatchSteps(txt, s + 1, pat, p + 1, pend, partial, false);
      return;
    }
    if pat[p] == '*' {
      r := MatchSteps(txt, s, pat, p + 1, pend, partial, false);
      if r.Err? || r.value.res { return; }
      if s == |txt| { return Ok(MatchResult(false, s, p)); }
      r := MatchSteps(txt, s + 1, pat, p, pend, partial, false);
      return;
    }
    if pat[p] == '?' {
      if s == |txt| { return Ok(MatchResult(false, s, p)); }
      r := MatchSteps(txt, s + 1, pat, p + 1, pend, partial, false);
      return;
    }
    if pat[p] == '\\' {
      r := MatchSteps(txt, s, pat, p + 1, pend, partial, true);
      return;
    }
    var isSet := SetAtLoop(pat, p, pend);
    if isSet {
      r := MatchSetLoop(txt, s, pat, p + 1, pend, NotOrFirstIn);
      if r.Err? || !r.value.res { return; }
      var e := SetEndLoop(pat, p + 1, pend, NotOrFirst);
      if e.Err? { return Err(e.error); }
      r := MatchSteps(txt, s + 1, pat, e.value, pend, partial, false);
      return;
    }
    if pat[p] == '(' {
      var isAlt := IsAltLoop(pat, p + 1, pend, NextAlt, 1);
      if isAlt.Err? { return Err(isAlt.error); }
      if isAlt.value {
        var altEnd := AltEndLoop(pat, p + 1, pend, NextAlt, 1);
        if altEnd.Err? { return Err(altEnd.error); }
        var subEnd := AltSubEndLoop(pat, p + 1, altEnd.value, NextSub, 1);
        if subEnd.Err? { return Err(subEnd.error); }
        r := MatchAltSteps(txt, s, pat, p + 1, subEnd.value, altEnd.value, pend, partial);
        return;
      }
    }
    if s == |txt| || txt[s] != pat[p] { return Ok(MatchResult(false, s, p)); }
    r := MatchSteps(txt, s + 1, pat, p + 1, pend, partial, false);
  }
}
