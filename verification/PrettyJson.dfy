/** `Utility::prettyJson`, which breaks and indents JSON text before a file is saved. */
module PrettyJson {
  import opened OrderedKeys

  const IDENT := "  "

  function Idents(n: nat): string {
    if n == 0 then "" else IDENT + Idents(n - 1)
  }

  function Break(level: nat): string {
    "\n" + Idents(level)
  }

  /** The state of the loop between two characters. */
  datatype State = State(level: nat, inString: bool, ignoreNext: bool)

  predicate Opens(c: char) {
    c == '[' || c == '{'
  }

  predicate Closes(c: char) {
    c == ']' || c == '}'
  }

  function NextState(st: State, c: char): State {
    if Opens(c) then (if st.inString then st else st.(level := st.level + 1))
    else if Closes(c) then (if st.inString || st.level == 0 then st else st.(level := st.level - 1))
    else if c == '\\' then st.(ignoreNext := !st.ignoreNext)
    else if c == '"' then (if st.ignoreNext then st.(ignoreNext := false) else st.(inString := !st.inString))
    else if c in ", :\r\n" then st
    else st.(ignoreNext := false)
  }

  /** What is written for a character. */
  function Written(st: State, c: char): string {
    if Opens(c) then (if st.inString then [c] else [c] + Break(st.level + 1))
    else if Closes(c) then (if st.inString then [c] else Break(NextState(st, c).level) + [c])
    else if c == ',' then (if st.inString then [c] else [c] + Break(st.level))
    else if c == ' ' then (if st.inString then [c] else "")
    else if c == ':' then (if st.inString then [c] else [c] + " ")
    else if c == '\r' || c == '\n' then ""
    else [c]
  }

  function Pretty(st: State, s: string): string
    decreases |s|
  {
    if s == [] then "" else Written(st, s[0]) + Pretty(NextState(st, s[0]), s[1..])
  }

  const START := State(0, false, false)

  /** The loop over the characters of the text. */
  method PrettyText(json: string) returns (result: string)
    ensures result == Pretty(START, json)
  {
    hide Pretty, Break, Idents;
    result := "";
    var level := 0;
    var ignoreNext, inString := false, false;
    var k := 0;
    TakeAll(json);
    PrettyNothing(START, Pretty(START, json));
    while k < |json|
      invariant 0 <= k <= |json| && level >= 0
      invariant Pretty(START, json) == result + Pretty(State(level, inString, ignoreNext), json[k..])
    {
      var c := json[k];
      ghost var before := result;
      ghost var st := State(level, inString, ignoreNext);
      PrettyStep(st, json, k, result);
      match c {
        case '[' | '{' =>
          result := result + [c];
          if !inString {
            level := level + 1;
            result := AppendBreak(result, level);
          }
        case ']' | '}' =>
          if !inString {
            if level != 0 {
              level := level - 1;
            }
            result := AppendBreak(result, level);
          }
          result := result + [c];
        case ',' =>
          result := result + [c];
          if !inString {
            result := AppendBreak(result, level);
          }
        case '\\' =>
          ignoreNext := !ignoreNext;
          result := result + [c];
        case '"' =>
          if !ignoreNext {
            inString := !inString;
          } else {
            ignoreNext := false;
          }
          result := result + [c];
        case ' ' =>
          if inString {
            result := result + [c];
          }
        case ':' =>
          result := result + [c];
          if !inString {
            result := result + " ";
          }
        case '\r' | '\n' =>
        case _ =>
          if ignoreNext {
            ignoreNext := false;
          }
          result := result + [c];
      }
      WrittenIs(st, c, before);
      assert result == before + Written(st, c);
      k := k + 1;
    }
    assert json[k..] == [];
    PrettyNothing(State(level, inString, ignoreNext), result);
  }

  method AppendBreak(before: string, level: nat) returns (result: string)
    ensures result == before + Break(level)
  {
    result := before + "\n";
    var i := 0;
    AppendNothing(result);
    while i < level
      invariant 0 <= i <= level
      invariant before + "\n" + Idents(level) == result + Idents(level - i)
    {
      AppendAppend(result, IDENT, Idents(level - i - 1));
      result := result + IDENT;
      i := i + 1;
    }
    AppendNothing(result);
    AppendAppend(before, "\n", Idents(level));
  }

  lemma PrettyNothing(st: State, s: string)
    ensures Pretty(st, "") == "" && s + "" == s && "" + s == s
  {
  }

  lemma PrettyStep(st: State, json: string, k: nat, result: string)
    requires k < |json|
    ensures result + Pretty(st, json[k..]) == result + Written(st, json[k]) + Pretty(NextState(st, json[k]), json[k + 1..])
  {
    hide Written, NextState;
    assert json[k..][1..] == json[k + 1..];
    AppendAppend(result, Written(st, json[k]), Pretty(NextState(st, json[k]), json[k + 1..]));
  }

  /** What is written, appended in two pieces. */
  lemma WrittenIs(st: State, c: char, before: string)
    ensures !st.inString && Opens(c) ==> before + Written(st, c) == before + [c] + Break(st.level + 1)
    ensures !st.inString && Closes(c) ==> before + Written(st, c) == before + Break(NextState(st, c).level) + [c]
    ensures !st.inString && c == ',' ==> before + Written(st, c) == before + [c] + Break(st.level)
    ensures !st.inString && c == ':' ==> before + Written(st, c) == before + [c] + " "
    ensures before + "" == before
  {
    hide Break;
  }

  /* Meaning */

  /** Where in JSON text a character stands: outside strings, in one, or after a backslash in one. */
  datatype Place = Outside | Inside | AfterBackslash

  function Advance(p: Place, c: char): Place {
    match p
    case Outside => if c == '"' then Inside else Outside
    case Inside => if c == '"' then Outside else if c == '\\' then AfterBackslash else Inside
    case AfterBackslash => Inside
  }

  /** What may follow a backslash: section 7 of RFC 8259. */
  predicate IsEscape(c: char) {
    c in "\"\\/bfnrtu"
  }

  /** The strings in the text are closed, and hold no raw line breaks and no other escapes than those of JSON. */
  predicate WellFormed(p: Place, s: string)
    decreases |s|
  {
    if s == [] then p == Outside
    else
      && (match p
          case Outside => s[0] != '\\'
          case Inside => s[0] != '\n' && s[0] != '\r'
          case AfterBackslash => IsEscape(s[0]))
      && WellFormed(Advance(p, s[0]), s[1..])
  }

  predicate Ignored(p: Place, c: char) {
    p == Outside && (c == ' ' || c == '\n' || c == '\r')
  }

  /** The text without the spaces and the line breaks outside its strings. */
  function Stripped(p: Place, s: string): string
    decreases |s|
  {
    if s == [] then ""
    else if Ignored(p, s[0]) then Stripped(Outside, s[1..])
    else [s[0]] + Stripped(Advance(p, s[0]), s[1..])
  }

  /** The string literals of the text, one after another. */
  function Literals(p: Place, s: string): string
    decreases |s|
  {
    if s == [] then ""
    else (if p != Outside || s[0] == '"' then [s[0]] else "") + Literals(Advance(p, s[0]), s[1..])
  }

  function StateAt(level: nat, p: Place): State {
    State(level, p != Outside, p == AfterBackslash)
  }

  /** The loop's flags follow the text. */
  lemma StateFollows(level: nat, p: Place, s: string)
    requires s != [] && WellFormed(p, s)
    ensures NextState(StateAt(level, p), s[0]) == StateAt(NextState(StateAt(level, p), s[0]).level, Advance(p, s[0]))
  {
  }

  lemma {:induction false} SameStripped(level: nat, p: Place, s: string)
    requires WellFormed(p, s)
    ensures Pretty(StateAt(level, p), Stripped(p, s)) == Pretty(StateAt(level, p), s)
    decreases |s|
  {
    hide Written, IsEscape, Break;
    if s != [] {
      StateFollows(level, p, s);
      WellFormedStep(p, s);
      WrittenAt(level, p, s[0]);
      var next := NextState(StateAt(level, p), s[0]);
      SameStripped(next.level, Advance(p, s[0]), s[1..]);
      if Ignored(p, s[0]) {
        assert "" + Pretty(next, s[1..]) == Pretty(next, s[1..]);
      } else {
        assert Stripped(p, s)[1..] == Stripped(Advance(p, s[0]), s[1..]);
      }
    }
  }

  predicate Blank(s: string) {
    forall i :: 0 <= i < |s| ==> s[i] == ' ' || s[i] == '\n'
  }

  lemma {:induction false} SkipBlank(blank: string, s: string)
    requires Blank(blank)
    ensures Stripped(Outside, blank + s) == Stripped(Outside, s)
  {
    if blank == [] {
      assert blank + s == s;
    } else {
      assert (blank + s)[1..] == blank[1..] + s;
      SkipBlank(blank[1..], s);
    }
  }

  lemma {:induction false} IdentsAreBlank(n: nat)
    ensures Blank(Idents(n))
  {
    if n > 0 { IdentsAreBlank(n - 1); }
  }

  lemma BreakIsBlank(level: nat)
    ensures Blank(Break(level))
  {
    IdentsAreBlank(level);
  }

  /** What is written for a character, by its place. */
  lemma WrittenAt(level: nat, p: Place, c: char)
    requires (p == Inside ==> c != '\n' && c != '\r') && (p == AfterBackslash ==> IsEscape(c))
    ensures var st := StateAt(level, p);
      && (Ignored(p, c) ==> Written(st, c) == "")
      && (p == Outside && (Opens(c) || c == ',' || c == ':') ==>
            Written(st, c) == [c] + (if c == ':' then " " else Break(if c == ',' then level else level + 1)))
      && (p == Outside && Closes(c) ==> Written(st, c) == Break(NextState(st, c).level) + [c])
      && (!Ignored(p, c) && (p != Outside || !(Opens(c) || Closes(c) || c == ',' || c == ':')) ==> Written(st, c) == [c])
  {
    hide Break;
  }

  lemma StrippedBefore(c: char, blank: string, rest: string)
    requires Blank(blank) && !Ignored(Outside, c) && c != '"'
    ensures Stripped(Outside, [c] + blank + rest) == [c] + Stripped(Outside, rest)
    ensures Stripped(Outside, blank + [c] + rest) == [c] + Stripped(Outside, rest)
  {
    hide Stripped;
    AppendAppend([c], blank, rest);
    StrippedOne(Outside, c, blank + rest);
    SkipBlank(blank, rest);
    AppendAppend(blank, [c], rest);
    SkipBlank(blank, [c] + rest);
    StrippedOne(Outside, c, rest);
  }

  /** A written character is that character, with white space around it outside strings. */
  lemma StrippedWritten(level: nat, p: Place, s: string, rest: string)
    requires s != [] && WellFormed(p, s)
    ensures Stripped(p, Written(StateAt(level, p), s[0]) + rest) ==
      if Ignored(p, s[0]) then Stripped(Outside, rest) else [s[0]] + Stripped(Advance(p, s[0]), rest)
  {
    hide Break, Idents, WellFormed, Written, Stripped, NextState;
    WellFormedStep(p, s);
    var c := s[0];
    WrittenAt(level, p, c);
    if Ignored(p, c) {
      assert "" + rest == rest;
    } else if p == Outside && (Opens(c) || c == ',' || c == ':') {
      var blank := if c == ':' then " " else Break(if c == ',' then level else level + 1);
      BreakIsBlank(level);
      BreakIsBlank(level + 1);
      StrippedBefore(c, blank, rest);
    } else if p == Outside && Closes(c) {
      BreakIsBlank(NextState(StateAt(level, p), c).level);
      StrippedBefore(c, Break(NextState(StateAt(level, p), c).level), rest);
    } else {
      StrippedOne(p, c, rest);
    }
  }

  lemma WellFormedStep(p: Place, s: string)
    requires s != [] && WellFormed(p, s)
    ensures p == Inside ==> s[0] != '\n' && s[0] != '\r'
    ensures p == AfterBackslash ==> IsEscape(s[0])
  {
  }

  lemma StrippedOne(p: Place, c: char, rest: string)
    requires !Ignored(p, c)
    ensures Stripped(p, [c] + rest) == [c] + Stripped(Advance(p, c), rest)
  {
    assert ([c] + rest)[1..] == rest;
  }

  lemma {:induction false} StrippedPretty(level: nat, p: Place, s: string)
    requires WellFormed(p, s)
    ensures Stripped(p, Pretty(StateAt(level, p), s)) == Stripped(p, s)
    decreases |s|
  {
    if s != [] {
      var next := NextState(StateAt(level, p), s[0]);
      StateFollows(level, p, s);
      StrippedWritten(level, p, s, Pretty(next, s[1..]));
      StrippedPretty(next.level, Advance(p, s[0]), s[1..]);
    }
  }

  lemma {:induction false} StrippedKeeps(p: Place, s: string)
    ensures WellFormed(p, Stripped(p, s)) <==> WellFormed(p, s)
    ensures Literals(p, Stripped(p, s)) == Literals(p, s)
    decreases |s|
  {
    if s != [] {
      StrippedKeeps(Advance(p, s[0]), s[1..]);
      if Ignored(p, s[0]) {
        assert "" + Literals(Outside, s[1..]) == Literals(Outside, s[1..]);
      } else {
        assert Stripped(p, s)[1..] == Stripped(Advance(p, s[0]), s[1..]);
      }
    }
  }

  /**
   * For text whose strings are well-formed: only white space outside strings is changed, the strings stay as they were,
   * and a text that was made pretty is left as it is.
   */
  lemma PrettyPreserves(s: string)
    requires WellFormed(Outside, s)
    ensures Stripped(Outside, Pretty(START, s)) == Stripped(Outside, s)
    ensures Literals(Outside, Pretty(START, s)) == Literals(Outside, s)
    ensures WellFormed(Outside, Pretty(START, s))
    ensures Pretty(START, Pretty(START, s)) == Pretty(START, s)
  {
    hide Pretty, Stripped, Literals, WellFormed;
    StrippedPretty(0, Outside, s);
    StrippedKeeps(Outside, s);
    StrippedKeeps(Outside, Pretty(START, s));
    SameStripped(0, Outside, s);
    SameStripped(0, Outside, Pretty(START, s));
  }

  /* Indentation */

  predicate OpenBracket(c: char) {
    c == '[' || c == '{'
  }

  predicate CloseBracket(c: char) {
    c == ']' || c == '}'
  }

  function PlaceAfter(p: Place, s: string): Place
    decreases |s|
  {
    if s == [] then p else PlaceAfter(Advance(p, s[0]), s[1..])
  }

  /** Brackets opened less brackets closed, outside strings. */
  function Depth(p: Place, s: string): int
    decreases |s|
  {
    if s == [] then 0
    else
      (if p == Outside && OpenBracket(s[0]) then 1 else if p == Outside && CloseBracket(s[0]) then -1 else 0)
      + Depth(Advance(p, s[0]), s[1..])
  }

  /** No bracket is closed that was not opened: neither in the text, nor in the `level` around it. */
  predicate Nested(level: int, p: Place, s: string)
    decreases |s|
  {
    level >= 0 && (s != [] ==> Nested(level + Depth(p, [s[0]]), Advance(p, s[0]), s[1..]))
  }

  lemma PrettyCons(st: State, s: string, rest: string)
    requires s != []
    ensures Pretty(st, s + rest) == Written(st, s[0]) + Pretty(NextState(st, s[0]), s[1..] + rest)
    ensures Pretty(st, s) == Written(st, s[0]) + Pretty(NextState(st, s[0]), s[1..])
  {
    hide Written, NextState;
    assert (s + rest)[1..] == s[1..] + rest && (s + rest)[0] == s[0];
  }

  lemma DepthStep(level: nat, p: Place, s: string, rest: string)
    requires s != [] && WellFormed(p, s + rest) && Nested(level, p, s)
    ensures var next := NextState(StateAt(level, p), s[0]);
      && next == StateAt(next.level, Advance(p, s[0])) && next.level == level + Depth(p, [s[0]])
      && WellFormed(Advance(p, s[0]), s[1..] + rest) && Nested(next.level, Advance(p, s[0]), s[1..])
      && level + Depth(p, s) == next.level + Depth(Advance(p, s[0]), s[1..])
    ensures PlaceAfter(p, s) == PlaceAfter(Advance(p, s[0]), s[1..])
  {
    assert (s + rest)[1..] == s[1..] + rest && (s + rest)[0] == s[0];
    StateFollows(level, p, s + rest);
    assert [s[0]][1..] == [];
  }

  /** What is written after a part of the text is indented by the number of brackets that are open there. */
  lemma {:induction false} IndentedByDepth(level: nat, p: Place, s: string, rest: string)
    requires WellFormed(p, s + rest) && Nested(level, p, s)
    ensures level + Depth(p, s) >= 0
    ensures Pretty(StateAt(level, p), s + rest) ==
      Pretty(StateAt(level, p), s) + Pretty(StateAt(level + Depth(p, s), PlaceAfter(p, s)), rest)
    decreases |s|
  {
    hide Written, NextState, WellFormed, StateAt;
    if s == [] {
      assert s + rest == rest;
      assert "" + Pretty(StateAt(level, p), rest) == Pretty(StateAt(level, p), rest);
    } else {
      var next := NextState(StateAt(level, p), s[0]);
      PrettyCons(StateAt(level, p), s, rest);
      DepthStep(level, p, s, rest);
      IndentedByDepth(next.level, Advance(p, s[0]), s[1..], rest);
      AppendAppend(Written(StateAt(level, p), s[0]), Pretty(next, s[1..]),
                   Pretty(StateAt(level + Depth(p, s), PlaceAfter(p, s)), rest));
    }
  }

  /* The blanks after a line break */

  /** How many blanks a text begins with. */
  function Blanks(s: string): (n: nat)
    ensures n <= |s| && (n < |s| ==> s[n] != ' ')
  {
    if s != [] && s[0] == ' ' then 1 + Blanks(s[1..]) else 0
  }

  /** The first character of a text that is no blank. */
  function FirstOther(s: string): (r: string)
    ensures r == if Blanks(s) < |s| then [s[Blanks(s)]] else ""
  {
    if s != [] && s[0] == ' ' then FirstOther(s[1..]) else s[..if s == [] then 0 else 1]
  }

  /** A line in `level` brackets has two blanks for each, but for the bracket that it closes first. */
  predicate LineIndented(level: int, line: string) {
    var first := FirstOther(line);
    Blanks(line) == 2 * if first != "" && CloseBracket(first[0]) then level - 1 else level
  }

  /** So has every line that begins outside strings. */
  predicate LinesIndented(level: int, p: Place, s: string)
    decreases |s|
  {
    s != [] ==>
      && (p == Outside && s[0] == '\n' ==> LineIndented(level, s[1..]))
      && LinesIndented(level + Depth(p, [s[0]]), Advance(p, s[0]), s[1..])
  }

  lemma OneBlank(t: string)
    ensures Blanks([' '] + t) == 1 + Blanks(t) && ([' '] + t)[1..] == t
  {
    assert ([' '] + t)[1..] == t;
  }

  lemma TwoBlanks(n: nat, s: string)
    requires n > 0
    ensures Idents(n) + s == [' '] + ([' '] + (Idents(n - 1) + s))
  {
    assert IDENT == [' '] + [' '];
    AppendAppend(IDENT, Idents(n - 1), s);
    AppendAppend([' '], [' '], Idents(n - 1) + s);
  }

  lemma {:induction false} BlanksOfIdents(n: nat, s: string)
    ensures Blanks(Idents(n) + s) == 2 * n + Blanks(s) && FirstOther(Idents(n) + s) == FirstOther(s)
  {
    hide Idents;
    if n == 0 {
      NoIdents(s);
    } else {
      var t := Idents(n - 1) + s;
      BlanksOfIdents(n - 1, s);
      TwoBlanks(n, s);
      OneBlank(t);
      OneBlank([' '] + t);
    }
  }

  lemma NoIdents(s: string)
    ensures Idents(0) + s == s
  {
  }

  lemma {:induction false} IdentsAreNoLines(level: int, n: nat, s: string)
    ensures LinesIndented(level, Outside, Idents(n) + s) <==> LinesIndented(level, Outside, s)
  {
    hide LineIndented;
    if n == 0 {
      NoIdents(s);
    } else {
      var t := Idents(n - 1) + s;
      IdentsAreNoLines(level, n - 1, s);
      TwoBlanks(n, s);
      LinesStep(level, Outside, ' ', [' '] + t);
      LinesStep(level, Outside, ' ', t);
    }
  }

  lemma LinesStep(level: int, p: Place, c: char, s: string)
    ensures LinesIndented(level, p, [c] + s) <==>
      (p == Outside && c == '\n' ==> LineIndented(level, s)) && LinesIndented(level + Depth(p, [c]), Advance(p, c), s)
    ensures Depth(p, [c]) == if p == Outside && OpenBracket(c) then 1 else if p == Outside && CloseBracket(c) then -1 else 0
  {
    hide LineIndented;
    assert ([c] + s)[1..] == s;
    assert [c][1..] == [];
  }

  /** A break to a level, and a line that begins with no blank. */
  lemma BreakIndents(level: int, n: nat, s: string)
    requires s == [] || s[0] != ' '
    requires n == if s != [] && CloseBracket(s[0]) then level - 1 else level
    ensures LinesIndented(level, Outside, Break(n) + s) <==> LinesIndented(level, Outside, s)
  {
    hide LinesIndented;
    AppendAppend("\n", Idents(n), s);
    LinesStep(level, Outside, '\n', Idents(n) + s);
    BlanksOfIdents(n, s);
    IdentsAreNoLines(level, n, s);
  }

  /** What is written outside strings begins with no blank, and a closing bracket is on a line of its own. */
  lemma {:induction false} PrettyHead(level: nat, s: string)
    requires WellFormed(Outside, s)
    ensures var r := Pretty(StateAt(level, Outside), s); r == [] || (r[0] != ' ' && !CloseBracket(r[0]))
    decreases |s|
  {
    hide Idents;
    if s != [] && Ignored(Outside, s[0]) {
      StateFollows(level, Outside, s);
      PrettyHead(level, s[1..]);
      assert "" + Pretty(StateAt(level, Outside), s[1..]) == Pretty(StateAt(level, Outside), s[1..]);
    }
  }

  /** One character and what is written with it, before lines that are indented. */
  lemma WrittenIndents(level: nat, p: Place, s: string, rest: string)
    requires s != [] && WellFormed(p, s) && Nested(level, p, s)
    requires Advance(p, s[0]) == Outside ==> rest == [] || (rest[0] != ' ' && !CloseBracket(rest[0]))
    requires LinesIndented(level + Depth(p, [s[0]]), Advance(p, s[0]), rest)
    ensures LinesIndented(level, p, Written(StateAt(level, p), s[0]) + rest)
  {
    hide LinesIndented, LineIndented, Break, WellFormed, Nested, Stripped, Written, NextState;
    var c := s[0];
    var next := level + Depth(p, [c]);
    WellFormedStep(p, s);
    NestedStep(level, p, s);
    WrittenAt(level, p, c);
    LinesStep(level, p, c, rest);
    if Ignored(p, c) {
      assert "" + rest == rest;
    } else if p == Outside && (OpenBracket(c) || c == ',') {
      AppendAppend([c], Break(next), rest);
      LinesStep(level, p, c, Break(next) + rest);
      BreakIndents(next, next, rest);
    } else if p == Outside && c == ':' {
      AppendAppend([c], " ", rest);
      LinesStep(level, p, c, " " + rest);
      LinesStep(level, Outside, ' ', rest);
    } else if p == Outside && CloseBracket(c) {
      LevelAfter(level, c);
      AppendAppend(Break(next), [c], rest);
      BreakIndents(level, next, [c] + rest);
    }
  }

  lemma LevelAfter(level: nat, c: char)
    requires CloseBracket(c) && level > 0
    ensures NextState(StateAt(level, Outside), c).level == level - 1
  {
  }

  lemma NestedStep(level: int, p: Place, s: string)
    requires s != [] && Nested(level, p, s)
    ensures level + Depth(p, [s[0]]) >= 0 && Nested(level + Depth(p, [s[0]]), Advance(p, s[0]), s[1..])
  {
  }

  lemma {:induction false} PrettyIndents(level: nat, p: Place, s: string)
    requires WellFormed(p, s) && Nested(level, p, s)
    ensures LinesIndented(level, p, Pretty(StateAt(level, p), s))
    decreases |s|
  {
    hide Written, LineIndented, Break;
    if s != [] {
      var next := NextState(StateAt(level, p), s[0]);
      StateFollows(level, p, s);
      NestedStep(level, p, s);
      assert [s[0]][1..] == [];
      assert next.level == level + Depth(p, [s[0]]);
      PrettyIndents(next.level, Advance(p, s[0]), s[1..]);
      if Advance(p, s[0]) == Outside { PrettyHead(next.level, s[1..]); }
      WrittenIndents(level, p, s, Pretty(next, s[1..]));
    }
  }

  lemma {:induction false} LinesAt(level: int, p: Place, s: string, i: nat)
    requires LinesIndented(level, p, s) && i < |s| && PlaceAfter(p, s[..i]) == Outside && s[i] == '\n'
    ensures LineIndented(level + Depth(p, s[..i]), s[i + 1..])
    decreases |s|
  {
    hide LineIndented;
    if i == 0 {
      assert s[..0] == [];
    } else {
      assert s[..i][1..] == s[1..][..i - 1] && s[..i][0] == s[0];
      assert Depth(p, [s[0]]) + Depth(Advance(p, s[0]), s[1..][..i - 1]) == Depth(p, s[..i]) by { assert [s[0]][1..] == []; }
      assert s[1..][i..] == s[i + 1..];
      LinesAt(level + Depth(p, [s[0]]), Advance(p, s[0]), s[1..], i - 1);
    }
  }

  /** After every line break outside strings stand exactly two blanks for each bracket that is open there; one bracket less
      counts where the line begins with a closing bracket. */
  lemma LinesAreIndented(s: string, i: nat)
    requires WellFormed(Outside, s) && Nested(0, Outside, s)
    requires i < |Pretty(START, s)| && Pretty(START, s)[i] == '\n' && PlaceAfter(Outside, Pretty(START, s)[..i]) == Outside
    ensures var line := Pretty(START, s)[i + 1..];
      var (n, open) := (Blanks(line), Depth(Outside, Pretty(START, s)[..i]));
      n == 2 * if n < |line| && CloseBracket(line[n]) then open - 1 else open
  {
    hide Pretty, WellFormed, Nested, LinesIndented;
    PrettyIndents(0, Outside, s);
    LinesAt(0, Outside, Pretty(START, s), i);
  }

  /* Where lines break */

  /**
   * Outside strings a line breaks after every opening bracket and comma and before every closing bracket, and nowhere else; a
   * colon is followed by one blank, and there is no other blank than those that begin a line. `began` says that nothing but
   * blanks stands in the line so far.
   */
  predicate LaidOut(began: bool, p: Place, s: string)
    decreases |s|
  {
    s != [] ==>
      && (p == Outside ==> WellPlaced(began, s))
      && (p != Outside && Advance(p, s[0]) == Outside ==> NoBlankNext(s))
      && LaidOut(p == Outside && (s[0] == '\n' || (began && s[0] == ' ')), Advance(p, s[0]), s[1..])
  }

  predicate WellPlaced(began: bool, s: string)
    requires s != []
  {
    && (CloseBracket(s[0]) ==> began)
    && (OpenBracket(s[0]) || s[0] == ',' ==> |s| > 1 && s[1] == '\n')
    && (s[0] == ':' ==> |s| > 1 && s[1] == ' ')
    && (s[0] != '"' && s[0] != ':' && s[0] != '\n' && !(began && s[0] == ' ') ==> |s| == 1 || s[1] != ' ')
    && (s[0] != '"' && !OpenBracket(s[0]) && s[0] != ',' && |s| > 1 && s[1] == '\n' ==> ClosesFirst(s[2..]))
  }

  /** Behind the end of a string: no blank, and a line break only before a closing bracket. */
  predicate NoBlankNext(s: string)
    requires s != []
  {
    |s| > 1 ==> s[1] != ' ' && (s[1] == '\n' ==> ClosesFirst(s[2..]))
  }

  predicate ClosesFirst(line: string) {
    FirstOther(line) != "" && CloseBracket(FirstOther(line)[0])
  }

  /** What comes after a character outside strings: something other than a blank or a bracket that closes, or a line break before
      such a bracket. */
  predicate Follows(s: string) {
    s != [] ==> s[0] != ' ' && !CloseBracket(s[0]) && (s[0] == '\n' ==> ClosesFirst(s[1..]))
  }

  lemma {:induction false} PrettyFollows(level: nat, s: string)
    requires WellFormed(Outside, s)
    ensures Follows(Pretty(StateAt(level, Outside), s))
    decreases |s|
  {
    hide Idents, ClosesFirst, NextState;
    PrettyHead(level, s);
    if s != [] {
      var next := NextState(StateAt(level, Outside), s[0]);
      if Ignored(Outside, s[0]) {
        StateFollows(level, Outside, s);
        IgnoredKeeps(level, s[0]);
        PrettyFollows(level, s[1..]);
        assert "" + Pretty(StateAt(level, Outside), s[1..]) == Pretty(StateAt(level, Outside), s[1..]);
      } else if CloseBracket(s[0]) {
        BreakCloseBracket(next.level, s[0], Pretty(next, s[1..]));
      } else {
        WrittenFirst(level, s[0], Pretty(next, s[1..]));
      }
    }
  }

  lemma IgnoredKeeps(level: nat, c: char)
    requires Ignored(Outside, c)
    ensures NextState(StateAt(level, Outside), c) == StateAt(level, Outside)
  {
  }

  lemma WrittenFirst(level: nat, c: char, rest: string)
    requires !Ignored(Outside, c) && !CloseBracket(c)
    ensures var w := Written(StateAt(level, Outside), c) + rest; w != [] && w[0] == c
  {
  }

  lemma BreakCloseBracket(level: nat, c: char, rest: string)
    requires CloseBracket(c)
    ensures var w := Break(level) + [c] + rest; w != [] && w[0] == '\n' && ClosesFirst(w[1..])
  {
    AppendAppend(Break(level), [c], rest);
    AppendAppend("\n", Idents(level), [c] + rest);
    var w := Break(level) + [c] + rest;
    assert w[1..] == Idents(level) + ([c] + rest);
    BlanksOfIdents(level, [c] + rest);
  }

  lemma LaidStep(began: bool, p: Place, c: char, s: string)
    ensures LaidOut(began, p, [c] + s) <==>
      && (p == Outside ==> WellPlaced(began, [c] + s))
      && (p != Outside && Advance(p, c) == Outside ==> NoBlankNext([c] + s))
      && LaidOut(p == Outside && (c == '\n' || (began && c == ' ')), Advance(p, c), s)
  {
    hide WellPlaced, NoBlankNext;
    assert ([c] + s)[1..] == s;
  }

  /** What may come after the blanks of a line. */
  predicate Continues(s: string) {
    s != [] ==> s[0] != ' ' && (s[0] == '\n' ==> ClosesFirst(s[1..]))
  }

  lemma {:induction false} BlanksLaid(n: nat, s: string)
    requires Continues(s) && LaidOut(true, Outside, s)
    ensures LaidOut(true, Outside, Idents(n) + s)
    ensures var t := Idents(n) + s; t != [] && t[0] == '\n' ==> ClosesFirst(t[1..])
  {
    hide LaidOut, ClosesFirst, Idents;
    if n == 0 {
      NoIdents(s);
    } else {
      var t := Idents(n - 1) + s;
      BlanksLaid(n - 1, s);
      TwoBlanks(n, s);
      BlankLaid(t);
      BlankLaid([' '] + t);
    }
  }

  lemma BlankLaid(t: string)
    requires LaidOut(true, Outside, t) && (t != [] && t[0] == '\n' ==> ClosesFirst(t[1..]))
    ensures LaidOut(true, Outside, [' '] + t)
  {
    hide LaidOut, ClosesFirst;
    LaidStep(true, Outside, ' ', t);
    assert t != [] ==> ([' '] + t)[2..] == t[1..];
  }

  lemma BreakLaid(began: bool, n: nat, s: string)
    requires Continues(s) && LaidOut(true, Outside, s)
    ensures LaidOut(began, Outside, Break(n) + s)
  {
    hide LaidOut, ClosesFirst, Idents;
    var t := Idents(n) + s;
    AppendAppend("\n", Idents(n), s);
    BlanksLaid(n, s);
    LaidStep(began, Outside, '\n', t);
    assert t != [] ==> ("\n" + t)[2..] == t[1..];
  }

  /** A line that does not begin with a bracket that closes may follow anything. */
  lemma BeganOrNot(s: string)
    requires Follows(s) && LaidOut(false, Outside, s)
    ensures LaidOut(true, Outside, s)
  {
    hide ClosesFirst;
  }

  lemma WrittenLaid(level: nat, p: Place, s: string, rest: string)
    requires s != [] && WellFormed(p, s)
    requires Advance(p, s[0]) == Outside ==> Follows(rest)
    requires LaidOut(false, Advance(p, s[0]), rest)
    ensures LaidOut(false, p, Written(StateAt(level, p), s[0]) + rest)
  {
    hide LaidOut, ClosesFirst, Break, WellFormed, Written, NextState;
    var c := s[0];
    WellFormedStep(p, s);
    WrittenAt(level, p, c);
    LaidStep(false, p, c, rest);
    assert rest != [] ==> ([c] + rest)[2..] == rest[1..];
    if Ignored(p, c) {
      assert "" + rest == rest;
    } else if p == Outside && (OpenBracket(c) || c == ',') {
      var n := if c == ',' then level else level + 1;
      AppendAppend([c], Break(n), rest);
      BeganOrNot(rest);
      BreakLaid(false, n, rest);
      LaidStep(false, p, c, Break(n) + rest);
      BreakBegins(n, rest);
    } else if p == Outside && c == ':' {
      AppendAppend([c], " ", rest);
      LaidStep(false, Outside, ' ', rest);
      assert rest != [] ==> ([' '] + rest)[2..] == rest[1..];
      LaidStep(false, p, c, " " + rest);
    } else if p == Outside && CloseBracket(c) {
      var n := NextState(StateAt(level, p), c).level;
      AppendAppend(Break(n), [c], rest);
      LaidStep(true, Outside, c, rest);
      BreakLaid(false, n, [c] + rest);
    }
  }

  lemma BreakBegins(n: nat, s: string)
    ensures |Break(n) + s| > 0 && (Break(n) + s)[0] == '\n'
  {
  }

  lemma {:induction false} PrettyLaid(level: nat, p: Place, s: string)
    requires WellFormed(p, s)
    ensures LaidOut(false, p, Pretty(StateAt(level, p), s))
    decreases |s|
  {
    hide Written, WellPlaced, NoBlankNext, Follows;
    if s != [] {
      var next := NextState(StateAt(level, p), s[0]);
      StateFollows(level, p, s);
      PrettyLaid(next.level, Advance(p, s[0]), s[1..]);
      if Advance(p, s[0]) == Outside { PrettyFollows(next.level, s[1..]); }
      WrittenLaid(level, p, s, Pretty(next, s[1..]));
    }
  }

  /** Lines break where brackets and commas ask for it, and nowhere else. */
  lemma LinesBreak(s: string)
    requires WellFormed(Outside, s)
    ensures LaidOut(false, Outside, Pretty(START, s))
  {
    hide Pretty, LaidOut, WellFormed;
    PrettyLaid(0, Outside, s);
  }
}
