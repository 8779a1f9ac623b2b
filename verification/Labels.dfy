/** Node labels and the label conditions of tasks (`Label::match`). */
module Labels {
  import opened Results
  import opened OrderedKeys
  import opened Wildcards
  import opened WildcardsSafety
  import opened WildcardsLanguage
  import opened WildcardsCompleteness
  import WildcardsLoops

  datatype Label = Label(m_labels: map<string, string>)

  /** A label value meets a condition value that is equal to it or, read as a pattern, matches it. */
  predicate ValueMatches(value: string, pattern: string) {
    value == pattern || (Matches(value, pattern).Ok? && Matches(value, pattern).value.res)
  }

  predicate KeyMatches(lbl: Label, condition: Label, key: string)
    requires key in condition.m_labels
  {
    key in lbl.m_labels && ValueMatches(lbl.m_labels[key], condition.m_labels[key])
  }

  /** Every key of the condition is a label, with a value that meets the condition's. */
  predicate Satisfies(lbl: Label, condition: Label) {
    forall key :: key in condition.m_labels ==> KeyMatches(lbl, condition, key)
  }

  /** `Label::match`: a missing condition is never met. */
  method MatchLabel(lbl: Label, condition: Option<Label>) returns (r: bool)
    ensures r <==> condition.Some? && Satisfies(lbl, condition.value)
  {
    if condition.None? {
      return false;
    }
    var required := condition.value.m_labels;
    var keys := InOrder(required.Keys);
    for i := 0 to |keys|
      invariant forall j :: 0 <= j < i ==> keys[j] in required && KeyMatches(lbl, condition.value, keys[j])
    {
      var key := keys[i];
      assert key in keys;
      if key !in lbl.m_labels {
        return false;
      }
      if lbl.m_labels[key] != required[key] {
        var value, pattern := lbl.m_labels[key], required[key];
        var found := WildcardsLoops.MatchSteps(value, 0, pattern, 0, |pattern|, false, false);
        MatchNeverThrows(value, 0, pattern, 0, |pattern|, false, false);
        if !found.value.res {
          return false;
        }
      }
    }
    forall key | key in required ensures KeyMatches(lbl, condition.value, key) {
      assert key in keys;
    }
    return true;
  }

  /** The value is the condition's value itself, or a word of the pattern that it spells. */
  ghost predicate Admissible(value: string, pattern: string) {
    value == pattern || Denotes(Parse(pattern, 0, |pattern|), value)
  }

  /** The label has every key of the condition, with an admissible value. */
  ghost predicate MeetsCondition(lbl: Label, condition: Label) {
    forall key :: key in condition.m_labels ==>
      key in lbl.m_labels && Admissible(lbl.m_labels[key], condition.m_labels[key])
  }

  /** The same, with values that are the condition's own or words of a pattern that is committed. */
  ghost predicate PlainlyMeets(lbl: Label, condition: Label) {
    forall key :: key in condition.m_labels ==>
      key in lbl.m_labels && PlainlyAdmissible(lbl.m_labels[key], condition.m_labels[key])
  }

  ghost predicate PlainlyAdmissible(value: string, pattern: string) {
    value == pattern || (Committed(Parse(pattern, 0, |pattern|)) && Denotes(Parse(pattern, 0, |pattern|), value))
  }

  /** A met condition means what it says, for every pattern; and a condition that is plainly met is met. */
  lemma SatisfiesMeans(lbl: Label, condition: Label)
    ensures Satisfies(lbl, condition) ==> MeetsCondition(lbl, condition)
    ensures PlainlyMeets(lbl, condition) ==> Satisfies(lbl, condition)
  {
    hide Committed, Denotes, Parse;
    forall key | key in condition.m_labels && key in lbl.m_labels
      ensures KeyMatches(lbl, condition, key) ==> Admissible(lbl.m_labels[key], condition.m_labels[key])
      ensures PlainlyAdmissible(lbl.m_labels[key], condition.m_labels[key]) ==> KeyMatches(lbl, condition, key)
    {
      var value, pattern := lbl.m_labels[key], condition.m_labels[key];
      MatchesSound(value, pattern);
      if Committed(Parse(pattern, 0, |pattern|)) { MatchesExactly(value, pattern); }
    }
  }
}
