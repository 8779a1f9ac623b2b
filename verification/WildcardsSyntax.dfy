/** How patterns are written: the text of every pattern is read as that pattern, with its cards, sets and alternatives. */
module WildcardsSyntax {
  import opened Results
  import opened OrderedKeys
  import opened Wildcards
  import opened WildcardsSafety
  import opened WildcardsLanguage
  import opened WildcardsCompleteness

  /** One item of a pattern. */
  datatype Node =
    | Star
    | AnyOne
    | Plain(c: char)
    | Escaped(c: char)
    | Set(negated: bool, members: string)
    | Alternative(branches: seq<Branch>)

  datatype Branch = Branch(nodes: seq<Node>)

  function NodeText(node: Node): string
    decreases node, 0
  {
    match node
    case Star => "*"
    case AnyOne => "?"
    case Plain(c) => [c]
    case Escaped(c) => ['\\', c]
    case Set(negated, members) => "[" + ((if negated then "!" else "") + (members + "]"))
    case Alternative(branches) => "(" + BranchesText(branches)
  }

  function Text(nodes: seq<Node>): string
    decreases nodes, 1
  {
    if nodes == [] then "" else NodeText(nodes[0]) + Text(nodes[1..])
  }

  /** Bars between the branches, and the parenthesis after them. */
  function BranchesText(branches: seq<Branch>): string
    decreases branches, 2
  {
    if branches == [] then ")"
    else Text(branches[0].nodes) + if |branches| == 1 then ")" else "|" + BranchesText(branches[1..])
  }

  /** A plain character is none that means something; a set begins with any character and has no bracket after that; an
      alternative has a branch. */
  predicate ValidNode(node: Node)
    decreases node, 0
  {
    match node
    case Star => true
    case AnyOne => true
    case Plain(c) => c != '*' && c != '?' && c != '\\' && c != '[' && c != '(' && c != '|' && c != ')'
    case Escaped(c) => true
    case Set(negated, members) => members != "" && (negated || members[0] != '!') && ']' !in members[1..]
    case Alternative(branches) => branches != [] && forall i :: 0 <= i < |branches| ==> Valid(branches[i].nodes)
  }

  predicate Valid(nodes: seq<Node>)
    decreases nodes, 1
  {
    forall i :: 0 <= i < |nodes| ==> ValidNode(nodes[i])
  }

  /** What the items mean, as a tree of the language of patterns. */
  function Tree(nodes: seq<Node>): Pattern
    requires Valid(nodes)
    decreases nodes, 1
  {
    if nodes == [] then Done
    else
      var rest := Tree(nodes[1..]);
      assert ValidNode(nodes[0]);
      match nodes[0]
      case Star => Anything(rest)
      case AnyOne => Single(rest)
      case Plain(c) => Literal(c, rest)
      case Escaped(c) => Literal(c, rest)
      case Set(negated, members) => Class(negated, members, rest)
      case Alternative(branches) => Choice(BranchTrees(branches), rest)
  }

  function BranchTrees(branches: seq<Branch>): Branches
    requires branches != [] && forall i :: 0 <= i < |branches| ==> Valid(branches[i].nodes)
    decreases branches, 2
  {
    if |branches| == 1 then Last(Tree(branches[0].nodes)) else Either(Tree(branches[0].nodes), BranchTrees(branches[1..]))
  }

  /* Text in its place */

  /** The pattern text holds `s` at position `p`. */
  predicate Stands(pat: string, p: nat, s: string) {
    p + |s| <= |pat| && pat[p..p + |s|] == s
  }

  lemma StandsParts(pat: string, p: nat, s: string, t: string)
    ensures Stands(pat, p, s + t) <==> Stands(pat, p, s) && Stands(pat, p + |s|, t)
    ensures Stands(pat, p, s + t) ==> p + |s| + |t| <= |pat|
  {
    if Stands(pat, p, s + t) {
      assert pat[p..p + |s|] == (s + t)[..|s|];
      assert pat[p + |s|..p + |s| + |t|] == (s + t)[|s|..];
    }
    if Stands(pat, p, s) && Stands(pat, p + |s|, t) {
      assert pat[p..p + |s| + |t|] == pat[p..p + |s|] + pat[p + |s|..p + |s| + |t|];
    }
  }

  lemma StandsFirst(pat: string, p: nat, s: string)
    requires Stands(pat, p, s) && s != ""
    ensures p + |s| <= |pat| && pat[p] == s[0] && Stands(pat, p + 1, s[1..])
  {
    assert pat[p] == pat[p..p + |s|][0];
    assert pat[p + 1..p + |s|] == pat[p..p + |s|][1..];
  }

  /* Sets */

  lemma {:induction false} SetNext(pat: string, p: nat, pend: nat, s: string)
    requires Stands(pat, p, s + "]") && p + |s| < pend <= |pat| && ']' !in s
    ensures SetEnd(pat, p, pend, Next) == Ok(p + |s| + 1)
    decreases |s|
  {
    StandsFirst(pat, p, s + "]");
    if s != "" {
      assert (s + "]")[1..] == s[1..] + "]";
      SetNext(pat, p + 1, pend, s[1..]);
    }
  }

  /** From the bracket, behind `!` if it is there, past the first member. */
  lemma SetBegins(pat: string, p: nat, pend: nat, negated: bool)
    requires p < pend <= |pat| && (negated ==> p + 1 < pend) && (pat[p] == '!' <==> negated)
    ensures SetEnd(pat, p, pend, NotOrFirst) == SetEnd(pat, if negated then p + 2 else p + 1, pend, Next)
  {
  }

  lemma SetIs(pat: string, p: nat, pend: nat, negated: bool, members: string)
    requires ValidNode(Set(negated, members)) && Stands(pat, p, NodeText(Set(negated, members)))
    requires p + |NodeText(Set(negated, members))| <= pend <= |pat|
    ensures SetAt(pat, p, pend) && SetEnd(pat, p + 1, pend, NotOrFirst) == Ok(p + |NodeText(Set(negated, members))|)
    ensures pat[p] == '[' && (pat[p + 1] == '!' <==> negated) && Stands(pat, if negated then p + 2 else p + 1, members)
  {
    hide SetEnd, IsSet, Stands;
    var bang := if negated then "!" else "";
    var q := p + 1 + |bang|;
    StandsParts(pat, p, "[", bang + (members + "]"));
    StandsParts(pat, p + 1, bang, members + "]");
    StandsParts(pat, q, members, "]");
    assert members + "]" == [members[0]] + (members[1..] + "]");
    StandsFirst(pat, p, "[");
    if negated { StandsFirst(pat, p + 1, "!"); }
    StandsFirst(pat, q, members + "]");
    assert (members + "]")[1..] == members[1..] + "]";
    SetNext(pat, q + 1, pend, members[1..]);
    SetBegins(pat, p + 1, pend, negated);
    SetEndExists(pat, p + 1, pend, NotOrFirst);
  }

  /* Alternatives: scans pass over items */

  /** The first branch, the mark after it, and the others. */
  lemma BranchesParts(branches: seq<Branch>, pat: string, p: nat)
    requires branches != [] && Stands(pat, p, BranchesText(branches))
    ensures var n := |Text(branches[0].nodes)|;
      && Stands(pat, p, Text(branches[0].nodes)) && p + |BranchesText(branches)| <= |pat| && p + n < |pat|
      && (|branches| == 1 ==> |BranchesText(branches)| == n + 1 && pat[p + n] == ')')
      && (|branches| > 1 ==> |BranchesText(branches)| == n + 1 + |BranchesText(branches[1..])| && pat[p + n] == '|')
      && (|branches| > 1 ==> Stands(pat, p + n + 1, BranchesText(branches[1..])))
  {
    hide Text, Stands;
    var n := |Text(branches[0].nodes)|;
    if |branches| == 1 {
      StandsParts(pat, p, Text(branches[0].nodes), ")");
      StandsFirst(pat, p + n, ")");
    } else {
      var others := BranchesText(branches[1..]);
      StandsParts(pat, p, Text(branches[0].nodes), "|" + others);
      StandsParts(pat, p + n, "|", others);
      StandsFirst(pat, p + n, "|");
    }
  }

  /** The first character of an item; only a set has a set there. */
  lemma NodeBegins(node: Node, pat: string, p: nat, pend: nat)
    requires ValidNode(node) && Stands(pat, p, NodeText(node)) && p + |NodeText(node)| <= pend <= |pat|
    ensures p < pend && |NodeText(node)| >= 1
    ensures match node
      case Star => pat[p] == '*'
      case AnyOne => pat[p] == '?'
      case Plain(c) => pat[p] == c
      case Escaped(c) => pat[p] == '\\' && p + 1 < pend
      case Set(_, _) => pat[p] == '['
      case Alternative(branches) => pat[p] == '(' && Stands(pat, p + 1, BranchesText(branches))
    ensures !node.Set? && (node.Plain? ==> node.c != '[') ==> !SetAt(pat, p, pend)
  {
    hide Stands, IsSet, BranchesText, Valid;
    StandsFirst(pat, p, NodeText(node));
    if node.Alternative? { assert NodeText(node)[1..] == BranchesText(node.branches); }
  }

  lemma {:induction false} AltEndPasses(nodes: seq<Node>, pat: string, p: nat, pend: nat, depth: int)
    requires Valid(nodes) && Stands(pat, p, Text(nodes)) && p + |Text(nodes)| <= pend <= |pat| && depth >= 1
    ensures AltEnd(pat, p, pend, NextAlt, depth) == AltEnd(pat, p + |Text(nodes)|, pend, NextAlt, depth)
    decreases nodes, 1
  {
    hide SetAt, SetEnd, NodeText, ValidNode;
    if nodes != [] {
      var (node, rest) := (nodes[0], nodes[1..]);
      assert ValidNode(node);
      StandsParts(pat, p, NodeText(node), Text(rest));
      AltEndNode(node, pat, p, pend, depth);
      AltEndPasses(rest, pat, p + |NodeText(node)|, pend, depth);
    }
  }

  lemma {:induction false} AltEndNode(node: Node, pat: string, p: nat, pend: nat, depth: int)
    requires ValidNode(node) && Stands(pat, p, NodeText(node)) && p + |NodeText(node)| <= pend <= |pat| && depth >= 1
    ensures AltEnd(pat, p, pend, NextAlt, depth) == AltEnd(pat, p + |NodeText(node)|, pend, NextAlt, depth)
    decreases node, 0
  {
    hide SetEnd, IsSet, SetAt, Valid, Stands, BranchesText;
    NodeBegins(node, pat, p, pend);
    match node
    case Set(negated, members) => SetIs(pat, p, pend, negated, members);
    case Alternative(branches) => AltEndBranches(branches, pat, p + 1, pend, depth);
    case _ =>
  }

  /** From inside an alternative to what follows its parenthesis. */
  lemma {:induction false} AltEndBranches(branches: seq<Branch>, pat: string, p: nat, pend: nat, depth: int)
    requires branches != [] && forall i :: 0 <= i < |branches| ==> Valid(branches[i].nodes)
    requires Stands(pat, p, BranchesText(branches)) && p + |BranchesText(branches)| <= pend <= |pat| && depth >= 0
    ensures AltEnd(pat, p, pend, NextAlt, depth + 1) ==
      if depth == 0 then Ok(p + |BranchesText(branches)|) else AltEnd(pat, p + |BranchesText(branches)|, pend, NextAlt, depth)
    decreases branches, 2
  {
    hide SetAt, SetEnd, Text, BranchesText, Stands, Valid;
    var n := |Text(branches[0].nodes)|;
    BranchesParts(branches, pat, p);
    AltEndPasses(branches[0].nodes, pat, p, pend, depth + 1);
    NoSetAt(pat, p + n, pend);
    if |branches| > 1 {
      AltEndBranches(branches[1..], pat, p + n + 1, pend, depth);
    }
  }

  lemma NoSetAt(pat: string, p: nat, pend: nat)
    requires p < pend <= |pat| && pat[p] != '['
    ensures !SetAt(pat, p, pend)
  {
  }

  lemma {:induction false} AltSubEndPasses(nodes: seq<Node>, pat: string, p: nat, pend: nat, depth: int)
    requires Valid(nodes) && Stands(pat, p, Text(nodes)) && p + |Text(nodes)| <= pend <= |pat| && depth >= 1
    ensures AltSubEnd(pat, p, pend, NextSub, depth) == AltSubEnd(pat, p + |Text(nodes)|, pend, NextSub, depth)
    decreases nodes, 1
  {
    hide SetAt, SetEnd, NodeText, ValidNode;
    if nodes != [] {
      var (node, rest) := (nodes[0], nodes[1..]);
      assert ValidNode(node);
      StandsParts(pat, p, NodeText(node), Text(rest));
      AltSubEndNode(node, pat, p, pend, depth);
      AltSubEndPasses(rest, pat, p + |NodeText(node)|, pend, depth);
    }
  }

  lemma {:induction false} AltSubEndNode(node: Node, pat: string, p: nat, pend: nat, depth: int)
    requires ValidNode(node) && Stands(pat, p, NodeText(node)) && p + |NodeText(node)| <= pend <= |pat| && depth >= 1
    ensures AltSubEnd(pat, p, pend, NextSub, depth) == AltSubEnd(pat, p + |NodeText(node)|, pend, NextSub, depth)
    decreases node, 0
  {
    hide SetEnd, IsSet, SetAt, Valid, Stands, BranchesText;
    NodeBegins(node, pat, p, pend);
    match node
    case Set(negated, members) => SetIs(pat, p, pend, negated, members);
    case Alternative(branches) => AltSubEndBranches(branches, pat, p + 1, pend, depth);
    case _ =>
  }

  lemma {:induction false} AltSubEndBranches(branches: seq<Branch>, pat: string, p: nat, pend: nat, depth: int)
    requires branches != [] && forall i :: 0 <= i < |branches| ==> Valid(branches[i].nodes)
    requires Stands(pat, p, BranchesText(branches)) && p + |BranchesText(branches)| <= pend <= |pat| && depth >= 1
    ensures AltSubEnd(pat, p, pend, NextSub, depth + 1) == AltSubEnd(pat, p + |BranchesText(branches)|, pend, NextSub, depth)
    decreases branches, 2
  {
    hide SetAt, SetEnd, Text, BranchesText, Stands, Valid;
    var n := |Text(branches[0].nodes)|;
    BranchesParts(branches, pat, p);
    AltSubEndPasses(branches[0].nodes, pat, p, pend, depth + 1);
    NoSetAt(pat, p + n, pend);
    if |branches| > 1 {
      AltSubEndBranches(branches[1..], pat, p + n + 1, pend, depth);
    }
  }

  /** The first branch ends at the bar or the parenthesis after it. */
  lemma FirstBranchEnds(branches: seq<Branch>, pat: string, p: nat, e: nat)
    requires branches != [] && forall i :: 0 <= i < |branches| ==> Valid(branches[i].nodes)
    requires Stands(pat, p, BranchesText(branches)) && e == p + |BranchesText(branches)|
    ensures AltSubEnd(pat, p, e, NextSub, 1) == Ok(p + |Text(branches[0].nodes)|)
  {
    hide SetAt, SetEnd, Text, BranchesText, Stands, Valid;
    var n := |Text(branches[0].nodes)|;
    BranchesParts(branches, pat, p);
    AltSubEndPasses(branches[0].nodes, pat, p, e, 1);
    NoSetAt(pat, p + n, e);
  }

  /* The whole pattern */

  lemma {:induction false} ParseText(nodes: seq<Node>, pat: string, p: nat, pend: nat)
    requires Valid(nodes) && Stands(pat, p, Text(nodes)) && p + |Text(nodes)| == pend
    ensures Parse(pat, p, pend) == Tree(nodes)
    decreases nodes, 1
  {
    hide SetAt, SetEnd, AltEnd, Valid, NodeText, Parse, BranchTrees;
    if nodes == [] {
      ParseNothing(pat, p);
    } else {
      var (node, rest) := (nodes[0], nodes[1..]);
      ValidParts(nodes);
      StandsParts(pat, p, NodeText(node), Text(rest));
      ParseText(rest, pat, p + |NodeText(node)|, pend);
      if node.Alternative? {
        ParseAlternative(node.branches, pat, p, pend);
      } else {
        ParseNode(node, pat, p, pend);
      }
    }
  }

  lemma ParseNothing(pat: string, p: nat)
    requires p <= |pat|
    ensures Parse(pat, p, p) == Done
  {
  }

  lemma ParseNode(node: Node, pat: string, p: nat, pend: nat)
    requires ValidNode(node) && !node.Alternative? && Stands(pat, p, NodeText(node)) && p + |NodeText(node)| <= pend <= |pat|
    ensures var rest := Parse(pat, p + |NodeText(node)|, pend);
      Parse(pat, p, pend) == match node
        case Star => Anything(rest)
        case AnyOne => Single(rest)
        case Plain(c) => Literal(c, rest)
        case Escaped(c) => Literal(c, rest)
        case Set(negated, members) => Class(negated, members, rest)
        case _ => Done
  {
    hide SetEnd, AltEnd, IsSet, ParseBranches;
    match node
    case Star => StandsFirst(pat, p, "*");
    case AnyOne => StandsFirst(pat, p, "?");
    case Plain(c) => StandsFirst(pat, p, [c]);
    case Escaped(c) =>
      StandsFirst(pat, p, ['\\', c]);
      StandsFirst(pat, p + 1, [c]);
    case Set(negated, members) => ParseSet(pat, p, pend, negated, members);
  }

  lemma ParseSet(pat: string, p: nat, pend: nat, negated: bool, members: string)
    requires ValidNode(Set(negated, members)) && Stands(pat, p, NodeText(Set(negated, members)))
    requires p + |NodeText(Set(negated, members))| <= pend <= |pat|
    ensures Parse(pat, p, pend) == Class(negated, members, Parse(pat, p + |NodeText(Set(negated, members))|, pend))
  {
    hide SetEnd, AltEnd, IsSet, SetAt, ParseBranches;
    SetIs(pat, p, pend, negated, members);
    var first := if negated then p + 2 else p + 1;
    assert p + |NodeText(Set(negated, members))| - 1 == first + |members|;
  }

  lemma {:induction false} ParseAlternative(branches: seq<Branch>, pat: string, p: nat, pend: nat)
    requires branches != [] && forall i :: 0 <= i < |branches| ==> Valid(branches[i].nodes)
    requires Stands(pat, p, NodeText(Alternative(branches))) && p + |NodeText(Alternative(branches))| <= pend <= |pat|
    ensures Parse(pat, p, pend) == Choice(BranchTrees(branches), Parse(pat, p + |NodeText(Alternative(branches))|, pend))
    decreases branches, 3
  {
    hide SetAt, SetEnd, AltEnd, Valid, BranchesText, BranchTrees, ParseBranches, AltSubEnd, Stands;
    StandsParts(pat, p, "(", BranchesText(branches));
    StandsFirst(pat, p, "(");
    NoSetAt(pat, p, pend);
    AltEndBranches(branches, pat, p + 1, pend, 0);
    ParseBranchesText(branches, pat, p + 1, pend, p + 1 + |BranchesText(branches)|);
  }

  lemma ValidParts(nodes: seq<Node>)
    requires Valid(nodes) && nodes != []
    ensures ValidNode(nodes[0]) && Valid(nodes[1..])
  {
    hide ValidNode;
  }

  lemma {:induction false} ParseBranchesText(branches: seq<Branch>, pat: string, p: nat, pend: nat, e: nat)
    requires branches != [] && forall i :: 0 <= i < |branches| ==> Valid(branches[i].nodes)
    requires Stands(pat, p, BranchesText(branches)) && e == p + |BranchesText(branches)| <= pend <= |pat|
    requires AltBody(pat, p, pend, e)
    ensures ParseBranches(pat, p, pend, e) == BranchTrees(branches)
    decreases branches, 2
  {
    hide Parse, Tree, Text, Valid, AltEnd, AltSubEnd, BranchesText, Stands;
    FirstBranchEnds(branches, pat, p, e);
    BranchesParts(branches, pat, p);
    var q := p + |Text(branches[0].nodes)|;
    AltSubEndExists(pat, p, pend, NextSub, 1, e);
    ParseText(branches[0].nodes, pat, p, q);
    if |branches| > 1 {
      AltEndBranches(branches[1..], pat, q + 1, pend, 0);
      ParseBranchesText(branches[1..], pat, q + 1, pend, e);
    }
  }

  /**
   * The text of a pattern means the pattern: `*` any text, `?` any one character, a backslash the character behind it, `[...]`
   * its members, `[!...]` all others, and `(...|...)` its branches.
   */
  lemma TextMeans(nodes: seq<Node>)
    requires Valid(nodes)
    ensures Parse(Text(nodes), 0, |Text(nodes)|) == Tree(nodes)
  {
    hide Parse, Tree, Text, Valid;
    assert Stands(Text(nodes), 0, Text(nodes));
    ParseText(nodes, Text(nodes), 0, |Text(nodes)|);
  }

  /** So the matcher decides what is written: it says yes to words only, and to all of them if the branches are committed. */
  lemma MatchesWhatIsWritten(nodes: seq<Node>, txt: string)
    requires Valid(nodes)
    ensures var r := Matches(txt, Text(nodes));
      && r.Ok? && (r.value.res ==> Denotes(Tree(nodes), txt))
      && (Committed(Tree(nodes)) ==> (r.value.res <==> Denotes(Tree(nodes), txt)))
  {
    hide Parse, Tree, Text, Valid, Denotes, Committed, Match;
    TextMeans(nodes);
    MatchNeverThrows(txt, 0, Text(nodes), 0, |Text(nodes)|, false, false);
    MatchesSound(txt, Text(nodes));
    if Committed(Tree(nodes)) { MatchesExactly(txt, Text(nodes)); }
  }
}
