/** Infix to postfix conversion: pass 1 makes concatenation explicit with
    `.`, pass 2 is a shunting-yard over the precedence table
    `* + ? : 3, . : 2, | : 1, ( : 0`. */
module PostfixConverter {
  import opened Errors

  // ---------------------------------------------------------------------
  // Pass 1: explicit concatenation
  // ---------------------------------------------------------------------

  /** A `.` goes between `c` and the character `nxt` that follows it. */
  predicate NeedsConcat(c: char, nxt: char) {
    && c != '(' && c != '|'
    && nxt != ')' && nxt != '|' && nxt != '*' && nxt != '+' && nxt != '?'
  }

  /** What pass 1 appends for position `i`: the character itself, then a `.`
      when the next character calls for one. */
  function Chunk(s: string, i: nat): seq<char>
    requires i < |s|
  {
    [s[i]] + (if i < |s| - 1 && NeedsConcat(s[i], s[i + 1]) then "." else "")
  }

  /** The list `explicit` after the first `n` iterations of pass 1. */
  function ExplicitPrefix(s: string, n: nat): seq<char>
    requires n <= |s|
  {
    if n == 0 then [] else ExplicitPrefix(s, n - 1) + Chunk(s, n - 1)
  }

  function Explicit(s: string): seq<char> {
    ExplicitPrefix(s, |s|)
  }

  /** How many `.` pass 1 inserts among the first `n` characters. */
  function Inserted(s: string, n: nat): nat
    requires n <= |s|
  {
    if n == 0 then 0
    else Inserted(s, n - 1) + (if n - 1 < |s| - 1 && NeedsConcat(s[n - 1], s[n]) then 1 else 0)
  }

  /** The position in the output of input character `i`. */
  function Offset(s: string, i: nat): nat
    requires i <= |s|
  {
    i + Inserted(s, i)
  }

  method InsertConcatenation(regex: string) returns (explicit: seq<char>)
    ensures explicit == Explicit(regex)
  {
    explicit := [];
    var length := |regex|;
    for i := 0 to length
      invariant explicit == ExplicitPrefix(regex, i)
    {
      var c := regex[i];
      explicit := explicit + [c];
      if i < length - 1 {
        var nxt := regex[i + 1];
        if (c != '(' && c != '|') && !(nxt == ')' || nxt == '|' || nxt == '*' || nxt == '+' || nxt == '?') {
          explicit := explicit + ['.'];
        }
      }
    }
  }

  lemma {:induction false} ExplicitPrefixLength(s: string, n: nat)
    requires n <= |s|
    ensures |ExplicitPrefix(s, n)| == Offset(s, n)
  {
    if n > 0 {
      ExplicitPrefixLength(s, n - 1);
    }
  }

  /** Pass 1 only ever appends. */
  lemma {:induction false} ExplicitPrefixGrows(s: string, i: nat, n: nat)
    requires i <= n <= |s|
    ensures ExplicitPrefix(s, i) <= ExplicitPrefix(s, n)
    decreases n - i
  {
    if i < n {
      ExplicitPrefixGrows(s, i, n - 1);
    }
  }

  /** Input character `i` sits at `Offset(s, i)` of the output, followed by
      a `.` exactly when `NeedsConcat` holds of it and its successor. */
  lemma ExplicitAt(s: string, i: nat)
    requires i < |s|
    ensures Offset(s, i) < |Explicit(s)| && Explicit(s)[Offset(s, i)] == s[i]
    ensures i < |s| - 1 ==>
      (Offset(s, i + 1) == Offset(s, i) + 2 <==> NeedsConcat(s[i], s[i + 1]))
    ensures i < |s| - 1 ==> Offset(s, i + 1) == Offset(s, i) + 1 || Offset(s, i + 1) == Offset(s, i) + 2
    ensures i < |s| - 1 && NeedsConcat(s[i], s[i + 1]) ==>
      Offset(s, i) + 1 < |Explicit(s)| && Explicit(s)[Offset(s, i) + 1] == '.'
  {
    ExplicitPrefixLength(s, i);
    ExplicitPrefixLength(s, i + 1);
    ExplicitPrefixGrows(s, i + 1, |s|);
    var e, e' := ExplicitPrefix(s, i), ExplicitPrefix(s, i + 1);
    assert e' == e + Chunk(s, i);
    assert e'[|e|] == s[i];
    if i < |s| - 1 && NeedsConcat(s[i], s[i + 1]) {
      assert e'[|e| + 1] == '.';
    }
  }

  /** The whole output of pass 1: every input character keeps its order,
      exactly one `.` is inserted between input characters `i` and `i + 1`
      when `NeedsConcat` holds of them and none otherwise, and nothing else
      is added. */
  lemma ExplicitShape(s: string)
    ensures |Explicit(s)| == |s| + Inserted(s, |s|)
    ensures forall i :: 0 <= i < |s| ==> Offset(s, i) < |Explicit(s)| && Explicit(s)[Offset(s, i)] == s[i]
    ensures forall i :: 0 <= i < |s| - 1 ==>
      (Offset(s, i + 1) == Offset(s, i) + 2 <==> NeedsConcat(s[i], s[i + 1]))
    ensures forall i :: 0 <= i < |s| - 1 ==>
      (Offset(s, i + 1) == Offset(s, i) + 1 <==> !NeedsConcat(s[i], s[i + 1]))
    ensures forall i :: 0 <= i < |s| - 1 && NeedsConcat(s[i], s[i + 1]) ==>
      Offset(s, i) + 1 < |Explicit(s)| && Explicit(s)[Offset(s, i) + 1] == '.'
  {
    ExplicitPrefixLength(s, |s|);
    forall i | 0 <= i < |s|
      ensures Offset(s, i) < |Explicit(s)| && Explicit(s)[Offset(s, i)] == s[i]
      ensures i < |s| - 1 ==>
        (Offset(s, i + 1) == Offset(s, i) + 2 <==> NeedsConcat(s[i], s[i + 1]))
      ensures i < |s| - 1 ==>
        (Offset(s, i + 1) == Offset(s, i) + 1 <==> !NeedsConcat(s[i], s[i + 1]))
      ensures i < |s| - 1 && NeedsConcat(s[i], s[i + 1]) ==>
        Offset(s, i) + 1 < |Explicit(s)| && Explicit(s)[Offset(s, i) + 1] == '.'
    {
      ExplicitAt(s, i);
    }
  }

  lemma ExplicitExamples(x: char, y: char)
    requires IsOperand(x) && IsOperand(y)
    ensures Explicit([x, y]) == [x, '.', y]
    ensures Explicit([x, '|', y]) == [x, '|', y]
    ensures Explicit([x, '*', y]) == [x, '*', '.', y]
    ensures Explicit(['(', x, ')', y]) == ['(', x, ')', '.', y]
    ensures Explicit(['(', x, '|', y]) == ['(', x, '|', y]
    ensures Explicit([x, ')']) == [x, ')']
  {
    var s1, s2, s3 := [x, y], [x, '|', y], [x, '*', y];
    assert ExplicitPrefix(s1, 1) == [x, '.'];
    assert ExplicitPrefix(s2, 1) == [x];
    assert ExplicitPrefix(s2, 2) == [x, '|'];
    assert ExplicitPrefix(s3, 1) == [x];
    assert ExplicitPrefix(s3, 2) == [x, '*', '.'];
    var s4, s5, s6 := ['(', x, ')', y], ['(', x, '|', y], [x, ')'];
    assert ExplicitPrefix(s4, 1) == "(";
    assert ExplicitPrefix(s4, 2) == ['(', x];
    assert ExplicitPrefix(s4, 3) == ['(', x, ')', '.'];
    assert ExplicitPrefix(s5, 1) == "(";
    assert ExplicitPrefix(s5, 2) == ['(', x];
    assert ExplicitPrefix(s5, 3) == ['(', x, '|'];
    assert ExplicitPrefix(s6, 1) == [x];
  }

  // ---------------------------------------------------------------------
  // Pass 2: shunting-yard
  // ---------------------------------------------------------------------

  predicate IsOperator(c: char) {
    c == '*' || c == '+' || c == '?' || c == '.' || c == '|'
  }

  /** A character that pass 2 copies straight to the output. */
  predicate IsOperand(c: char) {
    c != '(' && c != ')' && !IsOperator(c)
  }

  /** The precedence table. Only `(` and operators are ever looked up, as
      the stack holds nothing else (`ShuntInvariant`); other characters
      would get 0 here where the dictionary lookup would fail. */
  function Precedence(c: char): nat {
    if c == '*' || c == '+' || c == '?' then 3 else if c == '.' then 2 else if c == '|' then 1 else 0
  }

  /** Output list and operator stack (top at the end) of pass 2. */
  datatype Shunt = Shunt(output: seq<char>, stack: seq<char>)

  /** The stack of pass 2 only ever holds `(` and operators. */
  predicate StackChars(stack: seq<char>) {
    forall k :: 0 <= k < |stack| ==> stack[k] == '(' || IsOperator(stack[k])
  }

  /** Pop while the top is not `(` (the loop at a `)`). */
  function PopToParen(st: Shunt): Shunt
    decreases |st.stack|
  {
    if st.stack != [] && st.stack[|st.stack| - 1] != '(' then
      PopToParen(Shunt(st.output + [st.stack[|st.stack| - 1]], st.stack[..|st.stack| - 1]))
    else st
  }

  /** Pop while the top has precedence at least `p` (the loop at an operator). */
  function PopByPrecedence(st: Shunt, p: nat): Shunt
    decreases |st.stack|
  {
    if st.stack != [] && Precedence(st.stack[|st.stack| - 1]) >= p then
      PopByPrecedence(Shunt(st.output + [st.stack[|st.stack| - 1]], st.stack[..|st.stack| - 1]), p)
    else st
  }

  /** One iteration of pass 2's `for char in regex` loop. */
  function ShuntStep(st: Shunt, c: char): Result<Shunt> {
    if c == '(' then Ok(Shunt(st.output, st.stack + [c]))
    else if c == ')' then
      var st' := PopToParen(st);
      if st'.stack == [] then Err(PopFromEmptyList)
      else Ok(Shunt(st'.output, st'.stack[..|st'.stack| - 1]))
    else if IsOperator(c) then
      var st' := PopByPrecedence(st, Precedence(c));
      Ok(Shunt(st'.output, st'.stack + [c]))
    else Ok(Shunt(st.output + [c], st.stack))
  }

  /** The state of pass 2 after the first `n` characters. */
  function ShuntPrefix(s: string, n: nat): Result<Shunt>
    requires n <= |s|
  {
    if n == 0 then Ok(Shunt([], []))
    else
      match ShuntPrefix(s, n - 1)
      case Err(e) => Err(e)
      case Ok(st) => ShuntStep(st, s[n - 1])
  }

  /** Reverse order, for the stack emptied at the end of pass 2. */
  function Reverse(s: seq<char>): (r: seq<char>)
    ensures |r| == |s|
    ensures forall k :: 0 <= k < |s| ==> r[k] == s[|s| - 1 - k]
  {
    if s == [] then [] else [s[|s| - 1]] + Reverse(s[..|s| - 1])
  }

  /** Pass 2 applied to the already explicit string `s`. */
  function ToPostfix(s: string): Result<string> {
    match ShuntPrefix(s, |s|)
    case Err(e) => Err(e)
    case Ok(st) => Ok(st.output + Reverse(st.stack))
  }

  function InfixToPostfixSpec(regex: string): Result<string> {
    ToPostfix(Explicit(regex))
  }

  // --- shape of the popping loops -------------------------------------

  /** `r` is `st` after moving some top part of the stack, top first, to the output. */
  ghost predicate PoppedPrefix(st: Shunt, r: Shunt) {
    && |r.stack| <= |st.stack|
    && r.stack == st.stack[..|r.stack|]
    && r.output == st.output + Reverse(st.stack[|r.stack|..])
  }

  lemma PopNone(st: Shunt)
    ensures PoppedPrefix(st, st)
  {
    assert st.stack[|st.stack|..] == [];
    assert st.output + [] == st.output;
    assert st.stack[..|st.stack|] == st.stack;
  }

  /** Popping one element, then some more, is popping a longer top part. */
  lemma PopOne(st: Shunt, r: Shunt)
    requires st.stack != []
    requires PoppedPrefix(Shunt(st.output + [st.stack[|st.stack| - 1]], st.stack[..|st.stack| - 1]), r)
    ensures PoppedPrefix(st, r)
  {
    var n := |st.stack|;
    var top := st.stack[n - 1];
    assert st.stack[..n - 1][..|r.stack|] == st.stack[..|r.stack|];
    var popped := st.stack[|r.stack|..];
    assert st.stack[..n - 1][|r.stack|..] == popped[..|popped| - 1];
    assert Reverse(popped) == [top] + Reverse(popped[..|popped| - 1]);
    assert (st.output + [top]) + Reverse(popped[..|popped| - 1]) == st.output + ([top] + Reverse(popped[..|popped| - 1]));
  }

  lemma {:induction false} PopToParenShape(st: Shunt)
    ensures PoppedPrefix(st, PopToParen(st))
    ensures var r := PopToParen(st);
      r.stack != [] ==> r.stack[|r.stack| - 1] == '('
    decreases |st.stack|
  {
    if st.stack != [] && st.stack[|st.stack| - 1] != '(' {
      var n := |st.stack|;
      var next := Shunt(st.output + [st.stack[n - 1]], st.stack[..n - 1]);
      PopToParenShape(next);
      PopOne(st, PopToParen(next));
    } else {
      PopNone(st);
    }
  }

  /** Popping to the nearest `(` pops no `(`. */
  lemma {:induction false} PopToParenKeepsParen(st: Shunt)
    ensures var r := PopToParen(st);
      |r.stack| <= |st.stack| &&
      forall k :: |r.stack| <= k < |st.stack| ==> st.stack[k] != '('
    decreases |st.stack|
  {
    if st.stack != [] && st.stack[|st.stack| - 1] != '(' {
      var n := |st.stack|;
      var next := Shunt(st.output + [st.stack[n - 1]], st.stack[..n - 1]);
      PopToParenKeepsParen(next);
      var r := PopToParen(next);
      forall k | |r.stack| <= k < n
        ensures st.stack[k] != '('
      {
        if k < n - 1 {
          assert st.stack[k] == next.stack[k];
        }
      }
    }
  }

  lemma {:induction false} PopByPrecedenceShape(st: Shunt, p: nat)
    ensures PoppedPrefix(st, PopByPrecedence(st, p))
    ensures var r := PopByPrecedence(st, p);
      r.stack != [] ==> Precedence(r.stack[|r.stack| - 1]) < p
    decreases |st.stack|
  {
    if st.stack != [] && Precedence(st.stack[|st.stack| - 1]) >= p {
      var n := |st.stack|;
      var next := Shunt(st.output + [st.stack[n - 1]], st.stack[..n - 1]);
      PopByPrecedenceShape(next, p);
      PopOne(st, PopByPrecedence(next, p));
    } else {
      PopNone(st);
    }
  }

  /** Popping by a positive precedence never pops a `(`. */
  lemma {:induction false} PopByPrecedenceKeepsParen(st: Shunt, p: nat)
    requires p > 0
    ensures var r := PopByPrecedence(st, p);
      |r.stack| <= |st.stack| &&
      forall k :: |r.stack| <= k < |st.stack| ==> st.stack[k] != '('
    decreases |st.stack|
  {
    if st.stack != [] && Precedence(st.stack[|st.stack| - 1]) >= p {
      var n := |st.stack|;
      var next := Shunt(st.output + [st.stack[n - 1]], st.stack[..n - 1]);
      PopByPrecedenceKeepsParen(next, p);
      var r := PopByPrecedence(next, p);
      forall k | |r.stack| <= k < n
        ensures st.stack[k] != '('
      {
        if k < n - 1 {
          assert st.stack[k] == next.stack[k];
        }
      }
    }
  }

  // --- the imperative pass 2 ---------------------------------------------

  lemma {:induction false} ErrorPersists(s: string, n: nat, m: nat)
    requires n <= m <= |s|
    requires ShuntPrefix(s, n).Err?
    ensures ShuntPrefix(s, m) == Err(ShuntPrefix(s, n).error)
    decreases m - n
  {
    if n < m {
      ErrorPersists(s, n, m - 1);
    }
  }

  method ShuntingYard(regex: string) returns (r: Result<string>)
    ensures r == ToPostfix(regex)
  {
    var output: seq<char> := [];
    var stack: seq<char> := [];
    for i := 0 to |regex|
      invariant ShuntPrefix(regex, i) == Ok(Shunt(output, stack))
    {
      var c := regex[i];
      if c == '(' {
        stack := stack + [c];
      } else if c == ')' {
        while stack != [] && stack[|stack| - 1] != '('
          invariant PopToParen(Shunt(output, stack)) == PopToParen(ShuntPrefix(regex, i).value)
          decreases |stack|
        {
          output := output + [stack[|stack| - 1]];
          stack := stack[..|stack| - 1];
        }
        if stack == [] {
          ErrorPersists(regex, i + 1, |regex|);
          return Err(PopFromEmptyList);
        }
        stack := stack[..|stack| - 1];
      } else if IsOperator(c) {
        while stack != [] && Precedence(stack[|stack| - 1]) >= Precedence(c)
          invariant PopByPrecedence(Shunt(output, stack), Precedence(c))
                 == PopByPrecedence(ShuntPrefix(regex, i).value, Precedence(c))
          decreases |stack|
        {
          output := output + [stack[|stack| - 1]];
          stack := stack[..|stack| - 1];
        }
        stack := stack + [c];
      } else {
        output := output + [c];
      }
    }
    ghost var stack0 := stack;
    ghost var output0 := output;
    while stack != []
      invariant output + Reverse(stack) == output0 + Reverse(stack0)
      decreases |stack|
    {
      assert Reverse(stack) == [stack[|stack| - 1]] + Reverse(stack[..|stack| - 1]);
      output := output + [stack[|stack| - 1]];
      stack := stack[..|stack| - 1];
    }
    assert output + [] == output;
    return Ok(output);
  }

  method InfixToPostfix(regex: string) returns (r: Result<string>)
    ensures r == InfixToPostfixSpec(regex)
  {
    var explicit := InsertConcatenation(regex);
    r := ShuntingYard(explicit);
  }

  // --- properties of pass 2 ----------------------------------------------

  /** The operands of `s`, in order. */
  function Operands(s: seq<char>): seq<char> {
    if s == [] then []
    else Operands(s[..|s| - 1]) + (if IsOperand(s[|s| - 1]) then [s[|s| - 1]] else [])
  }

  /** Number of `(` minus number of `)` among the first `n` characters. */
  function Depth(s: string, n: nat): int
    requires n <= |s|
  {
    if n == 0 then 0
    else Depth(s, n - 1) + (if s[n - 1] == '(' then 1 else if s[n - 1] == ')' then -1 else 0)
  }

  lemma {:induction false} OperandsAppend(a: seq<char>, b: seq<char>)
    ensures Operands(a + b) == Operands(a) + Operands(b)
    decreases |b|
  {
    if b == [] {
      assert a + b == a;
    } else {
      var b' := b[..|b| - 1];
      assert (a + b)[..|a + b| - 1] == a + b';
      OperandsAppend(a, b');
    }
  }

  lemma {:induction false} NoOperandsOnStack(stack: seq<char>)
    requires StackChars(stack)
    ensures Operands(stack) == []
    decreases |stack|
  {
    if stack != [] {
      assert StackChars(stack[..|stack| - 1]);
      NoOperandsOnStack(stack[..|stack| - 1]);
    }
  }

  lemma {:induction false} ReverseMultiset(s: seq<char>)
    ensures multiset(Reverse(s)) == multiset(s)
    decreases |s|
  {
    if s != [] {
      ReverseMultiset(s[..|s| - 1]);
      assert s == s[..|s| - 1] + [s[|s| - 1]];
    }
  }

  /** What pass 2 keeps true from one character to the next: operands
      already output in input order, one `(` on the stack per unmatched
      `(` read, no `)` anywhere, and every other character either output
      or on the stack exactly as often as it was read. */
  ghost predicate ShuntInv(s: string, n: nat, st: Shunt)
    requires n <= |s|
  {
    && StackChars(st.stack)
    && Operands(st.output) == Operands(s[..n])
    && multiset(st.stack)['('] == Depth(s, n)
    && multiset(st.output)['('] == 0
    && multiset(st.output)[')'] == 0
    && multiset(st.stack)[')'] == 0
    && (forall c :: c != '(' && c != ')' ==>
          multiset(st.output)[c] + multiset(st.stack)[c] == multiset(s[..n])[c])
  }

  /** Moving the popped part of the stack to the output keeps the counts. */
  lemma MovePopped(st: Shunt, r: Shunt)
    requires StackChars(st.stack)
    requires |r.stack| <= |st.stack| && r.stack == st.stack[..|r.stack|]
    requires r.output == st.output + Reverse(st.stack[|r.stack|..])
    requires forall k :: |r.stack| <= k < |st.stack| ==> st.stack[k] != '('
    ensures StackChars(r.stack)
    ensures Operands(r.output) == Operands(st.output)
    ensures multiset(r.output) + multiset(r.stack) == multiset(st.output) + multiset(st.stack)
    ensures multiset(r.stack)['('] == multiset(st.stack)['(']
  {
    var k := |r.stack|;
    var popped := st.stack[k..];
    assert st.stack == r.stack + popped;
    assert StackChars(popped);
    NoOperandsOnStack(popped);
    ReverseMultiset(popped);
    assert Operands(Reverse(popped)) == [] by {
      assert StackChars(Reverse(popped));
      NoOperandsOnStack(Reverse(popped));
    }
    OperandsAppend(st.output, Reverse(popped));
    assert '(' !in multiset(popped);
  }

  /** The input counts and operands after reading one more character. */
  lemma ReadOne(s: string, n: nat)
    requires n < |s|
    ensures s[..n + 1] == s[..n] + [s[n]]
    ensures multiset(s[..n + 1]) == multiset(s[..n]) + multiset{s[n]}
    ensures Operands(s[..n + 1]) == Operands(s[..n]) + (if IsOperand(s[n]) then [s[n]] else [])
    ensures Depth(s, n + 1) == Depth(s, n) + (if s[n] == '(' then 1 else if s[n] == ')' then -1 else 0)
  {
    assert s[..n + 1] == s[..n] + [s[n]];
    OperandsAppend(s[..n], [s[n]]);
    assert Operands([s[n]]) == [] + (if IsOperand(s[n]) then [s[n]] else []) by {
      assert [s[n]][..0] == [];
    }
  }

  lemma CountsAdd(mo: multiset<char>, ms: multiset<char>, mi: multiset<char>,
                  mo': multiset<char>, ms': multiset<char>, mi': multiset<char>, c: char)
    requires forall x :: x != '(' && x != ')' ==> mo[x] + ms[x] == mi[x]
    requires mo' + ms' == mo + ms + multiset{c} && mi' == mi + multiset{c}
    ensures forall x :: x != '(' && x != ')' ==> mo'[x] + ms'[x] == mi'[x]
  {
    forall x | x != '(' && x != ')'
      ensures mo'[x] + ms'[x] == mi'[x]
    {
      assert (mo' + ms')[x] == (mo + ms + multiset{c})[x];
    }
  }

  /** Reading a `)` and dropping a `(` keeps the counts of every non-parenthesis. */
  lemma CountsDrop(mo: multiset<char>, ms: multiset<char>, mi: multiset<char>,
                   mo': multiset<char>, ms': multiset<char>, mi': multiset<char>)
    requires forall x :: x != '(' && x != ')' ==> mo[x] + ms[x] == mi[x]
    requires mo' + ms' + multiset{'('} == mo + ms && mi' == mi + multiset{')'}
    ensures forall x :: x != '(' && x != ')' ==> mo'[x] + ms'[x] == mi'[x]
  {
    forall x | x != '(' && x != ')'
      ensures mo'[x] + ms'[x] == mi'[x]
    {
      assert (mo' + ms' + multiset{'('})[x] == (mo + ms)[x];
    }
  }

  /** The invariant after reading a character other than `)`, from how the
      step changed the output and the stack: the character joins them,
      operands are appended in order, and the stack gains the `(` read. */
  lemma KeepsInv(s: string, n: nat, st: Shunt, r: Shunt)
    requires n < |s| && s[n] != ')' && ShuntInv(s, n, st)
    requires StackChars(r.stack)
    requires Operands(r.output) == Operands(st.output) + (if IsOperand(s[n]) then [s[n]] else [])
    requires multiset(r.output) + multiset(r.stack) == multiset(st.output) + multiset(st.stack) + multiset{s[n]}
    requires multiset(r.stack)['('] == multiset(st.stack)['('] + (if s[n] == '(' then 1 else 0)
    ensures ShuntInv(s, n + 1, r)
  {
    ReadOne(s, n);
    var mo, ms, mo', ms' := multiset(st.output), multiset(st.stack), multiset(r.output), multiset(r.stack);
    var c := s[n];
    assert (mo' + ms')['('] == (mo + ms + multiset{c})['('];
    assert (mo' + ms')[')'] == (mo + ms + multiset{c})[')'];
    CountsAdd(mo, ms, multiset(s[..n]), mo', ms', multiset(s[..n + 1]), c);
  }

  /** The invariant after reading a `)` that matched a `(`: one `(` leaves the
      stack, and nothing else changes in the counts. */
  lemma KeepsInvClose(s: string, n: nat, st: Shunt, r: Shunt)
    requires n < |s| && s[n] == ')' && ShuntInv(s, n, st)
    requires StackChars(r.stack)
    requires Operands(r.output) == Operands(st.output)
    requires multiset(r.output) + multiset(r.stack) + multiset{'('} == multiset(st.output) + multiset(st.stack)
    requires multiset(r.stack)['('] + 1 == multiset(st.stack)['(']
    ensures ShuntInv(s, n + 1, r)
  {
    ReadOne(s, n);
    var mo, ms, mo', ms' := multiset(st.output), multiset(st.stack), multiset(r.output), multiset(r.stack);
    assert (mo' + ms' + multiset{'('})['('] == (mo + ms)['('];
    assert (mo' + ms' + multiset{'('})[')'] == (mo + ms)[')'];
    CountsDrop(mo, ms, multiset(s[..n]), mo', ms', multiset(s[..n + 1]));
    assert Operands(r.output) == Operands(s[..n + 1]);
  }

  lemma StepOpen(s: string, n: nat, st: Shunt)
    requires n < |s| && s[n] == '('
    requires ShuntInv(s, n, st)
    ensures ShuntStep(st, s[n]).Ok? && ShuntInv(s, n + 1, ShuntStep(st, s[n]).value)
  {
    var r := Shunt(st.output, st.stack + ['(']);
    assert multiset(r.stack) == multiset(st.stack) + multiset{'('};
    assert Operands(r.output) == Operands(st.output) + [];
    assert StackChars(r.stack);
    KeepsInv(s, n, st, r);
  }

  lemma StepOperand(s: string, n: nat, st: Shunt)
    requires n < |s| && IsOperand(s[n])
    requires ShuntInv(s, n, st)
    ensures ShuntStep(st, s[n]).Ok? && ShuntInv(s, n + 1, ShuntStep(st, s[n]).value)
  {
    var r := Shunt(st.output + [s[n]], st.stack);
    assert multiset(r.output) == multiset(st.output) + multiset{s[n]};
    OperandsAppend(st.output, [s[n]]);
    assert Operands([s[n]]) == [s[n]] by {
      assert [s[n]][..0] == [];
    }
    KeepsInv(s, n, st, r);
  }

  /** The facts `MovePopped` establishes about a pop that took no `(`. */
  ghost predicate PoppedFrom(st: Shunt, r: Shunt) {
    && StackChars(r.stack)
    && Operands(r.output) == Operands(st.output)
    && multiset(r.output) + multiset(r.stack) == multiset(st.output) + multiset(st.stack)
    && multiset(r.stack)['('] == multiset(st.stack)['(']
  }

  lemma PushOperator(s: string, n: nat, st: Shunt, r: Shunt)
    requires n < |s| && IsOperator(s[n])
    requires ShuntInv(s, n, st) && PoppedFrom(st, r)
    ensures ShuntInv(s, n + 1, Shunt(r.output, r.stack + [s[n]]))
  {
    var c := s[n];
    var r' := Shunt(r.output, r.stack + [c]);
    assert multiset(r'.stack) == multiset(r.stack) + multiset{c};
    assert StackChars(r'.stack);
    assert Operands(r'.output) == Operands(st.output) + [];
    KeepsInv(s, n, st, r');
  }

  lemma DropParen(s: string, n: nat, st: Shunt, r: Shunt)
    requires n < |s| && s[n] == ')'
    requires ShuntInv(s, n, st) && PoppedFrom(st, r)
    requires r.stack != [] && r.stack[|r.stack| - 1] == '('
    ensures ShuntInv(s, n + 1, Shunt(r.output, r.stack[..|r.stack| - 1]))
  {
    var top := |r.stack| - 1;
    var r' := Shunt(r.output, r.stack[..top]);
    assert r.stack == r.stack[..top] + ['('];
    assert multiset(r.stack) == multiset(r'.stack) + multiset{'('};
    assert StackChars(r'.stack);
    KeepsInvClose(s, n, st, r');
  }

  lemma StepOperator(s: string, n: nat, st: Shunt)
    requires n < |s| && IsOperator(s[n])
    requires ShuntInv(s, n, st)
    ensures ShuntStep(st, s[n]).Ok? && ShuntInv(s, n + 1, ShuntStep(st, s[n]).value)
  {
    var c := s[n];
    var r := PopByPrecedence(st, Precedence(c));
    assert PoppedFrom(st, r) by {
      PopByPrecedenceShape(st, Precedence(c));
      PopByPrecedenceKeepsParen(st, Precedence(c));
      MovePopped(st, r);
    }
    assert ShuntStep(st, c) == Ok(Shunt(r.output, r.stack + [c]));
    PushOperator(s, n, st, r);
  }

  lemma StepClose(s: string, n: nat, st: Shunt)
    requires n < |s| && s[n] == ')'
    requires ShuntInv(s, n, st)
    ensures ShuntStep(st, s[n]).Ok? <==> Depth(s, n) > 0
    ensures ShuntStep(st, s[n]).Ok? ==> ShuntInv(s, n + 1, ShuntStep(st, s[n]).value)
  {
    var r := PopToParen(st);
    assert PoppedFrom(st, r) && (r.stack != [] ==> r.stack[|r.stack| - 1] == '(') by {
      PopToParenShape(st);
      PopToParenKeepsParen(st);
      MovePopped(st, r);
    }
    if r.stack != [] {
      assert r.stack[|r.stack| - 1] in multiset(r.stack);
      assert ShuntStep(st, s[n]) == Ok(Shunt(r.output, r.stack[..|r.stack| - 1]));
      DropParen(s, n, st, r);
    } else {
      assert multiset(r.stack)['('] == 0;
      assert ShuntStep(st, s[n]).Err?;
    }
  }

  lemma StepKeepsInv(s: string, n: nat, st: Shunt)
    requires n < |s|
    requires ShuntInv(s, n, st)
    ensures ShuntStep(st, s[n]).Ok? <==> !(s[n] == ')' && Depth(s, n) <= 0)
    ensures ShuntStep(st, s[n]).Ok? ==> ShuntInv(s, n + 1, ShuntStep(st, s[n]).value)
  {
    if s[n] == '(' {
      StepOpen(s, n, st);
    } else if s[n] == ')' {
      StepClose(s, n, st);
    } else if IsOperator(s[n]) {
      StepOperator(s, n, st);
    } else {
      StepOperand(s, n, st);
    }
  }

  /** Every `)` among the first `n` characters has an unmatched `(` before it. */
  ghost predicate ClosesMatched(s: string, n: nat)
    requires n <= |s|
  {
    forall m :: 0 <= m < n && s[m] == ')' ==> Depth(s, m) > 0
  }

  lemma {:induction false} ShuntInvariant(s: string, n: nat)
    requires n <= |s|
    ensures ShuntPrefix(s, n).Ok? <==> ClosesMatched(s, n)
    ensures ShuntPrefix(s, n).Ok? ==> ShuntInv(s, n, ShuntPrefix(s, n).value)
    ensures ShuntPrefix(s, n).Err? ==> ShuntPrefix(s, n).error == PopFromEmptyList
  {
    if n == 0 {
      assert s[..0] == [];
    } else {
      ShuntInvariant(s, n - 1);
      assert ClosesMatched(s, n) <==> ClosesMatched(s, n - 1) && !(s[n - 1] == ')' && Depth(s, n - 1) <= 0);
      if ShuntPrefix(s, n - 1).Ok? {
        var st := ShuntPrefix(s, n - 1).value;
        assert ShuntPrefix(s, n) == ShuntStep(st, s[n - 1]);
        StepKeepsInv(s, n - 1, st);
      }
    }
  }

  /** Pass 2 fails exactly when some `)` has no unmatched `(` before it,
      and then with the error of popping an empty list. */
  lemma PostfixFailsIff(s: string)
    ensures ToPostfix(s).Err? <==> exists m :: 0 <= m < |s| && s[m] == ')' && Depth(s, m) <= 0
    ensures ToPostfix(s).Err? ==> ToPostfix(s).error == PopFromEmptyList
  {
    ShuntInvariant(s, |s|);
  }

  /** Operands reach the output in input order; no `)` is output; an
      unmatched `(` is output, once per unmatched `(`; every other
      character is output as often as it occurs in the input. */
  lemma PostfixContents(s: string)
    requires ToPostfix(s).Ok?
    ensures Operands(ToPostfix(s).value) == Operands(s)
    ensures multiset(ToPostfix(s).value)[')'] == 0
    ensures multiset(ToPostfix(s).value)['('] == Depth(s, |s|)
    ensures forall c :: c != '(' && c != ')' ==> multiset(ToPostfix(s).value)[c] == multiset(s)[c]
  {
    ShuntInvariant(s, |s|);
    var st := ShuntPrefix(s, |s|).value;
    assert s[..|s|] == s;
    NoOperandsOnStack(st.stack);
    assert StackChars(Reverse(st.stack));
    NoOperandsOnStack(Reverse(st.stack));
    OperandsAppend(st.output, Reverse(st.stack));
    ReverseMultiset(st.stack);
  }

  // --- examples, for any operand characters `x` and `y` -----------------

  /** One more character of pass 2. */
  lemma ShuntNext(s: string, n: nat, st: Shunt, st': Shunt)
    requires n < |s| && ShuntPrefix(s, n) == Ok(st) && ShuntStep(st, s[n]) == Ok(st')
    ensures ShuntPrefix(s, n + 1) == Ok(st')
  {
  }

  /** Two operands joined by `.` or `|` are followed by that operator. */
  lemma BinaryExample(x: char, op: char, y: char)
    requires IsOperand(x) && IsOperand(y) && (op == '.' || op == '|')
    ensures ToPostfix([x, op, y]) == Ok([x, y, op])
  {
    var s := [x, op, y];
    assert ShuntStep(Shunt([x], []), op) == Ok(Shunt([x], [op])) by {
      assert IsOperator(op) && op != '(' && op != ')';
      assert PopByPrecedence(Shunt([x], []), Precedence(op)) == Shunt([x], []);
      assert [] + [op] == [op];
    }
    ShuntNext(s, 0, Shunt([], []), Shunt([x], [])) by { assert [] + [x] == [x]; }
    ShuntNext(s, 1, Shunt([x], []), Shunt([x], [op]));
    ShuntNext(s, 2, Shunt([x], [op]), Shunt([x, y], [op])) by { assert [x] + [y] == [x, y]; }
    assert Reverse([op]) == [op];
    assert [x, y] + [op] == [x, y, op];
  }

  /** A `.` read with `*` on the stack pops the `*` first. */
  lemma StarBeforeConcat(x: char)
    ensures ShuntStep(Shunt([x], "*"), '.') == Ok(Shunt([x, '*'], "."))
  {
    var st := Shunt([x], "*");
    var popped := Shunt([x, '*'], []);
    assert st.stack[..0] == [] && st.output + ['*'] == [x, '*'];
    assert PopByPrecedence(popped, 2) == popped;
    assert PopByPrecedence(st, 2) == popped;
    assert [] + "." == ".";
  }

  /** The `*` on the stack outranks the `.` that follows and is popped first. */
  lemma StarConcatExample(x: char, y: char)
    requires IsOperand(x) && IsOperand(y)
    ensures ToPostfix([x, '*', '.', y]) == Ok([x, '*', y, '.'])
  {
    var s := [x, '*', '.', y];
    ShuntNext(s, 0, Shunt([], []), Shunt([x], [])) by { assert [] + [x] == [x]; }
    ShuntNext(s, 1, Shunt([x], []), Shunt([x], "*")) by { assert [] + "*" == "*"; }
    StarBeforeConcat(x);
    ShuntNext(s, 2, Shunt([x], "*"), Shunt([x, '*'], "."));
    ShuntNext(s, 3, Shunt([x, '*'], "."), Shunt([x, '*', y], ".")) by { assert [x, '*'] + [y] == [x, '*', y]; }
    assert Reverse(".") == ".";
    assert [x, '*', y] + "." == [x, '*', y, '.'];
  }

  /** An unclosed `(` is not an error: it is emitted at the end. */
  lemma UnclosedParenExample(x: char, y: char)
    requires IsOperand(x) && IsOperand(y)
    ensures ToPostfix(['(', x, '|', y]) == Ok([x, y, '|', '('])
  {
    var s := ['(', x, '|', y];
    ShuntNext(s, 0, Shunt([], []), Shunt([], "(")) by { assert [] + "(" == "("; }
    ShuntNext(s, 1, Shunt([], "("), Shunt([x], "(")) by { assert [] + [x] == [x]; }
    ShuntNext(s, 2, Shunt([x], "("), Shunt([x], "(|")) by { assert "(" + "|" == "(|"; }
    ShuntNext(s, 3, Shunt([x], "(|"), Shunt([x, y], "(|")) by { assert [x] + [y] == [x, y]; }
    assert Reverse("(|") == "|(" by { assert "(|"[..1] == "("; }
    assert [x, y] + "|(" == [x, y, '|', '('];
  }

  /** A `)` without a `(` pops an empty stack. */
  lemma UnopenedParenExample(x: char)
    requires IsOperand(x)
    ensures ToPostfix([x, ')']) == Err(PopFromEmptyList)
  {
    var s := [x, ')'];
    assert ShuntPrefix(s, 1) == ShuntStep(Shunt([], []), x);
    assert ShuntStep(Shunt([], []), x) == Ok(Shunt([x], [])) by { assert [] + [x] == [x]; }
  }

  lemma InfixToPostfixExamples(x: char, y: char)
    requires IsOperand(x) && IsOperand(y)
    ensures InfixToPostfixSpec([x, y]) == Ok([x, y, '.'])
    ensures InfixToPostfixSpec([x, '|', y]) == Ok([x, y, '|'])
    ensures InfixToPostfixSpec([x, '*', y]) == Ok([x, '*', y, '.'])
    ensures InfixToPostfixSpec(['(', x, '|', y]) == Ok([x, y, '|', '('])
    ensures InfixToPostfixSpec([x, ')']) == Err(PopFromEmptyList)
  {
    ExplicitExamples(x, y);
    BinaryExample(x, '.', y);
    BinaryExample(x, '|', y);
    StarConcatExample(x, y);
    UnclosedParenExample(x, y);
    UnopenedParenExample(x);
  }
}
