/** `regex_to_nfa`: class expansion, then infix-to-postfix conversion, then
    Thompson's construction, the first failing stage deciding the error. */
module Pipeline {
  import opened Errors
  import opened Automaton
  import ClassExpander
  import PostfixConverter
  import NfaBuilder

  /** The automaton the three stages produce for `regex`. */
  function RegexToNfaSpec(regex: string): Result<Frag> {
    match ClassExpander.Expand(regex)
    case Err(e) => Err(e)
    case Ok(expanded) =>
      match PostfixConverter.InfixToPostfixSpec(expanded)
      case Err(e) => Err(e)
      case Ok(postfix) => NfaBuilder.Build(postfix)
  }

  /** The composition itself: each stage's exception propagates. */
  method RegexToNfa(regex: string) returns (r: Result<Nfa>)
    ensures r.Ok? <==> RegexToNfaSpec(regex).Ok?
    ensures r.Ok? ==> fresh(r.value) && r.value.Value() == RegexToNfaSpec(regex).value
    ensures r.Err? ==> r.error == RegexToNfaSpec(regex).error
  {
    var expanded := ClassExpander.ExpandCharacterClasses(regex);
    if expanded.Err? {
      return Err(expanded.error);
    }
    var postfix := PostfixConverter.InfixToPostfix(expanded.value);
    if postfix.Err? {
      return Err(postfix.error);
    }
    r := NfaBuilder.PostfixToNfa(postfix.value);
  }

  /** The three bracket errors come only from the expansion; once the
      expansion succeeds, the only possible failure is a pop from an empty
      list (an unopened `)`, an operator short of operands, or nothing left). */
  lemma ErrorOrigin(regex: string)
    ensures ClassExpander.Expand(regex).Err? ==> RegexToNfaSpec(regex) == Err(ClassExpander.Expand(regex).error)
    ensures ClassExpander.Expand(regex).Ok? && RegexToNfaSpec(regex).Err? ==>
      RegexToNfaSpec(regex).error == PopFromEmptyList
  {
    if ClassExpander.Expand(regex).Ok? {
      var expanded := ClassExpander.Expand(regex).value;
      PostfixConverter.PostfixFailsIff(PostfixConverter.Explicit(expanded));
      if PostfixConverter.InfixToPostfixSpec(expanded).Ok? {
        NfaBuilder.BuildOutcome(PostfixConverter.InfixToPostfixSpec(expanded).value);
      }
    }
  }

  /** Every automaton `regex_to_nfa` returns has distinct start and accept
      states, no edge into its start and no edge out of its accept, and no
      empty target set in its table. */
  lemma ResultWellFormed(regex: string)
    requires RegexToNfaSpec(regex).Ok?
    ensures NfaBuilder.WellFormed(RegexToNfaSpec(regex).value)
    ensures Automaton.NonEmptyTargets(RegexToNfaSpec(regex).value.transitions)
  {
    var expanded := ClassExpander.Expand(regex).value;
    NfaBuilder.BuildWellFormed(PostfixConverter.InfixToPostfixSpec(expanded).value);
  }

  /** A pattern without `[` goes straight to the postfix conversion. */
  lemma NoBracketPattern(regex: string)
    requires forall m :: 0 <= m < |regex| ==> regex[m] != '['
    ensures RegexToNfaSpec(regex) ==
      match PostfixConverter.InfixToPostfixSpec(regex)
      case Err(e) => Err(e)
      case Ok(postfix) => NfaBuilder.Build(postfix)
  {
    ClassExpander.NoBracketUnchanged(regex);
  }

  /** A pattern of one character that is no bracket, parenthesis or
      operator: the states 0 and 1 and the single edge `0 --c--> 1`. */
  lemma SingleCharacter(c: char)
    requires c != '[' && PostfixConverter.IsOperand(c)
    ensures RegexToNfaSpec([c]).Ok?
    ensures RegexToNfaSpec([c]).value == Frag(0, 1, map[0 := map[c := {1}]])
  {
    ClassExpander.NoBracketUnchanged([c]);
    assert PostfixConverter.Chunk([c], 0) == [c];
    assert PostfixConverter.ExplicitPrefix([c], 1) == PostfixConverter.ExplicitPrefix([c], 0) + [c];
    assert PostfixConverter.Explicit([c]) == [c];
    assert PostfixConverter.ShuntPrefix([c], 1) == Ok(PostfixConverter.Shunt([c], []));
    assert PostfixConverter.ToPostfix([c]) == Ok([c]);
    NfaBuilder.SingleLiteral(c);
  }

  /** An unclosed `(` reaches the construction and becomes a literal: the
      pattern `(` yields one edge labelled `(`. */
  lemma OpenParenIsLiteral()
    ensures RegexToNfaSpec("(").Ok?
    ensures RegexToNfaSpec("(").value == Frag(0, 1, map[0 := map['(' := {1}]])
  {
    ClassExpander.NoBracketUnchanged("(");
    assert PostfixConverter.Explicit("(") == "(";
    assert PostfixConverter.ShuntPrefix("(", 1) == Ok(PostfixConverter.Shunt([], "("));
    assert PostfixConverter.ToPostfix("(") == Ok("(");
    NfaBuilder.SingleLiteral('(');
  }

  /** A reversed range expands to `()`, whose postfix form is empty, so the
      final pop fails. */
  lemma ReversedRangeFails()
    ensures RegexToNfaSpec("[c-a]") == Err(PopFromEmptyList)
  {
    ClassExpander.ExpandExamples();
    assert PostfixConverter.Explicit("()") == "()";
    var s := "()";
    assert PostfixConverter.ShuntPrefix(s, 1).Ok? && PostfixConverter.ShuntPrefix(s, 1).value.output == []
      && PostfixConverter.ShuntPrefix(s, 1).value.stack == "(";
    assert PostfixConverter.ShuntPrefix(s, 2).Ok? && PostfixConverter.ShuntPrefix(s, 2).value.output == []
      && PostfixConverter.ShuntPrefix(s, 2).value.stack == [];
    var st := PostfixConverter.ShuntPrefix(s, |s|).value;
    assert st.output + PostfixConverter.Reverse(st.stack) == [];
    NfaBuilder.UnderflowExamples();
  }

  /** One example per bracket error kind: each fails in the pipeline with
      the expansion's error. */
  lemma BracketErrorExamples()
    ensures RegexToNfaSpec("[a-z") == Err(UnmatchedBracket)
    ensures RegexToNfaSpec("[-ab]") == Err(InvalidCharacterClass)
    ensures RegexToNfaSpec("[abc]") == Err(UnsupportedCharacterClass)
  {
    ClassExpander.ExpandErrorExamples();
  }
}
