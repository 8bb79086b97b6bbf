/** Thompson's construction over a postfix string: a stack of NFA fragments,
    one fragment per literal, and one rule per operator. State ids come
    from a counter that only counts up. */
module NfaBuilder {
  import opened Errors
  import opened Automaton
  import PostfixConverter

  /** The counter cell `next_state_id` and its `new_state` function. */
  class StateCounter {
    var next: StateId

    constructor ()
      ensures next == 0
    {
      next := 0;
    }

    method NewState() returns (s: StateId)
      modifies this
      ensures s == old(next) && next == old(next) + 1
    {
      s := next;
      next := next + 1;
    }
  }

  // ---------------------------------------------------------------------
  // Construction rules; `s` and `s + 1` are the two freshly minted states
  // ---------------------------------------------------------------------

  /** The `add_transition` calls each rule makes, in the source's order.
      `f` is the popped operand, `s` and `s + 1` the fresh start and accept. */
  function StarEdgeList(f: Frag, s: StateId): seq<Edge> {
    [Edge(s, Epsilon, f.start), Edge(f.accept, Epsilon, f.start),
     Edge(s, Epsilon, s + 1), Edge(f.accept, Epsilon, s + 1)]
  }

  function PlusEdgeList(f: Frag, s: StateId): seq<Edge> {
    [Edge(s, Epsilon, f.start), Edge(f.accept, Epsilon, f.start), Edge(f.accept, Epsilon, s + 1)]
  }

  function OptionalEdgeList(f: Frag, s: StateId): seq<Edge> {
    [Edge(s, Epsilon, f.start), Edge(f.accept, Epsilon, s + 1), Edge(s, Epsilon, s + 1)]
  }

  function UnionEdgeList(f1: Frag, f2: Frag, s: StateId): seq<Edge> {
    [Edge(s, Epsilon, f1.start), Edge(s, Epsilon, f2.start),
     Edge(f1.accept, Epsilon, s + 1), Edge(f2.accept, Epsilon, s + 1)]
  }

  function LiteralFrag(s: StateId, c: char): Frag {
    Frag(s, s + 1, AddAll(map[], [Edge(s, c, s + 1)]))
  }

  function StarFrag(f: Frag, s: StateId): Frag {
    Frag(s, s + 1, AddAll(f.transitions, StarEdgeList(f, s)))
  }

  function PlusFrag(f: Frag, s: StateId): Frag {
    Frag(s, s + 1, AddAll(f.transitions, PlusEdgeList(f, s)))
  }

  function OptionalFrag(f: Frag, s: StateId): Frag {
    Frag(s, s + 1, AddAll(f.transitions, OptionalEdgeList(f, s)))
  }

  /** `f1` is the deeper operand, `f2` the one popped first. */
  function ConcatFrag(f1: Frag, f2: Frag): Frag {
    Frag(f1.start, f2.accept, AddAll(Overlay(f1.transitions, f2.transitions), [Edge(f1.accept, Epsilon, f2.start)]))
  }

  function UnionFrag(f1: Frag, f2: Frag, s: StateId): Frag {
    Frag(s, s + 1, AddAll(Overlay(f1.transitions, f2.transitions), UnionEdgeList(f1, f2, s)))
  }

  // ---------------------------------------------------------------------
  // The evaluation of the postfix string
  // ---------------------------------------------------------------------

  /** The fragment stack (top at the end) and the counter's value. */
  datatype Builder = Builder(stack: seq<Frag>, next: StateId)

  /** The NFA objects on the stack hold, one by one, the fragments of `abs`. */
  ghost predicate Mirrors(stack: seq<Nfa>, abs: seq<Frag>)
    reads set k | 0 <= k < |stack| :: stack[k]
  {
    |stack| == |abs| && forall k :: 0 <= k < |stack| ==> stack[k].Value() == abs[k]
  }

  /** One iteration of `for char in postfix`. */
  function Step(b: Builder, c: char): Result<Builder> {
    var n := |b.stack|;
    if !PostfixConverter.IsOperator(c) then
      Ok(Builder(b.stack + [LiteralFrag(b.next, c)], b.next + 2))
    else if c == '*' || c == '+' || c == '?' then
      if n == 0 then Err(PopFromEmptyList)
      else
        var f := b.stack[n - 1];
        var g := if c == '*' then StarFrag(f, b.next)
                 else if c == '+' then PlusFrag(f, b.next)
                 else OptionalFrag(f, b.next);
        Ok(Builder(b.stack[..n - 1] + [g], b.next + 2))
    else if n < 2 then Err(PopFromEmptyList)
    else
      var f2, f1 := b.stack[n - 1], b.stack[n - 2];
      if c == '.' then Ok(Builder(b.stack[..n - 2] + [ConcatFrag(f1, f2)], b.next))
      else Ok(Builder(b.stack[..n - 2] + [UnionFrag(f1, f2, b.next)], b.next + 2))
  }

  /** The builder after the first `n` characters of `p`. */
  function BuildPrefix(p: string, n: nat): Result<Builder>
    requires n <= |p|
  {
    if n == 0 then Ok(Builder([], 0))
    else
      match BuildPrefix(p, n - 1)
      case Err(e) => Err(e)
      case Ok(b) => Step(b, p[n - 1])
  }

  /** The final `stack.pop()`: the top fragment, whatever lies beneath it. */
  function Build(p: string): Result<Frag> {
    match BuildPrefix(p, |p|)
    case Err(e) => Err(e)
    case Ok(b) => if b.stack == [] then Err(PopFromEmptyList) else Ok(b.stack[|b.stack| - 1])
  }

  // ---------------------------------------------------------------------
  // The edges each rule adds
  // ---------------------------------------------------------------------

  /** The table of a rule: the operand tables plus exactly the listed edges,
      rows for exactly the listed sources, and the listed endpoints. */
  lemma RuleTable(t: Table, es: seq<Edge>)
    ensures Edges(AddAll(t, es)) == Edges(t) + (set e | e in es)
    ensures AddAll(t, es).Keys == t.Keys + (set e | e in es :: e.from)
    ensures TableStates(AddAll(t, es)) == TableStates(t) + (set e | e in es :: e.from) + (set e | e in es :: e.to)
  {
    AddAllEdges(t, es);
    AddAllKeys(t, es);
    AddAllStates(t, es);
  }

  /** A literal is a single edge between two fresh states. */
  lemma LiteralEdges(s: StateId, c: char)
    ensures Edges(LiteralFrag(s, c).transitions) == {Edge(s, c, s + 1)}
    ensures States(LiteralFrag(s, c)) == {s, s + 1}
  {
    var es := [Edge(s, c, s + 1)];
    RuleTable(map[], es);
    assert (set e | e in es) == {Edge(s, c, s + 1)};
    assert (set e | e in es :: e.from) == {s};
    assert (set e | e in es :: e.to) == {s + 1};
    assert Edges(map[]) == {} && TableStates(map[]) == {};
  }

  lemma StarEdges(f: Frag, s: StateId)
    ensures Edges(StarFrag(f, s).transitions) == Edges(f.transitions)
      + {Edge(s, Epsilon, f.start), Edge(f.accept, Epsilon, f.start),
         Edge(s, Epsilon, s + 1), Edge(f.accept, Epsilon, s + 1)}
  {
    var es := StarEdgeList(f, s);
    AddAllEdges(f.transitions, es);
    assert (set e | e in es) == {es[0], es[1], es[2], es[3]};
  }

  lemma PlusEdges(f: Frag, s: StateId)
    ensures Edges(PlusFrag(f, s).transitions) == Edges(f.transitions)
      + {Edge(s, Epsilon, f.start), Edge(f.accept, Epsilon, f.start), Edge(f.accept, Epsilon, s + 1)}
  {
    var es := PlusEdgeList(f, s);
    AddAllEdges(f.transitions, es);
    assert (set e | e in es) == {es[0], es[1], es[2]};
  }

  lemma OptionalEdges(f: Frag, s: StateId)
    ensures Edges(OptionalFrag(f, s).transitions) == Edges(f.transitions)
      + {Edge(s, Epsilon, f.start), Edge(f.accept, Epsilon, s + 1), Edge(s, Epsilon, s + 1)}
  {
    var es := OptionalEdgeList(f, s);
    AddAllEdges(f.transitions, es);
    assert (set e | e in es) == {es[0], es[1], es[2]};
  }

  /** Concatenation joins the operand tables and adds exactly one edge. */
  lemma ConcatEdges(f1: Frag, f2: Frag)
    requires f1.transitions.Keys !! f2.transitions.Keys
    ensures Edges(ConcatFrag(f1, f2).transitions) == Edges(f1.transitions) + Edges(f2.transitions)
      + {Edge(f1.accept, Epsilon, f2.start)}
  {
    var es := [Edge(f1.accept, Epsilon, f2.start)];
    OverlayDisjoint(f1.transitions, f2.transitions);
    UnionEdges(f1.transitions, f2.transitions);
    AddAllEdges(Overlay(f1.transitions, f2.transitions), es);
    assert (set e | e in es) == {es[0]};
  }

  // ---------------------------------------------------------------------
  // Fragment shape: fresh, disjoint states; one start, one accept
  // ---------------------------------------------------------------------

  /** A fragment has distinct start and accept states, no edge leaves its
      accept state and no edge enters its start state. */
  ghost predicate WellFormed(f: Frag) {
    && f.start != f.accept
    && f.accept !in f.transitions
    && forall e :: e in Edges(f.transitions) ==> e.to != f.start
  }

  /** Every state of `f` was minted before `bound`. */
  ghost predicate Below(f: Frag, bound: StateId) {
    forall x :: x in States(f) ==> x < bound
  }

  /** Every state of `f` is smaller than every state of `g`. */
  ghost predicate Precedes(f: Frag, g: Frag) {
    forall x, y :: x in States(f) && y in States(g) ==> x < y
  }

  /** The invariant of the fragment stack. */
  ghost predicate Inv(b: Builder) {
    && (forall k :: 0 <= k < |b.stack| ==> WellFormed(b.stack[k]) && Below(b.stack[k], b.next))
    && (forall j, k :: 0 <= j < k < |b.stack| ==> Precedes(b.stack[j], b.stack[k]))
  }

  lemma EdgeEnds(t: Table)
    ensures forall e :: e in Edges(t) ==> e.from in t && e.to in TableStates(t)
  {
  }

  lemma KeysAreStates(f: Frag)
    ensures f.transitions.Keys <= States(f)
  {
  }

  lemma PrecedesDisjoint(f: Frag, g: Frag)
    requires Precedes(f, g)
    ensures f.transitions.Keys !! g.transitions.Keys
    ensures States(f) !! States(g)
  {
    KeysAreStates(f);
    KeysAreStates(g);
  }

  /** The sets the `set e | e in es` comprehensions of a rule's list denote,
      one lemma per list length the rules use (1 for a literal and `.`, 3 for
      `+` and `?`, 4 for `*` and `|`). Each is stated for its length on its
      own so that a caller brings in only the facts of its own rule. */
  lemma ListSets1(a: Edge)
    ensures (set e | e in [a]) == {a}
    ensures (set e | e in [a] :: e.from) == {a.from}
    ensures (set e | e in [a] :: e.to) == {a.to}
  {
    assert forall e :: e in [a] <==> e == a;
  }

  lemma ListSets3(a: Edge, b: Edge, c: Edge)
    ensures (set e | e in [a, b, c]) == {a, b, c}
    ensures (set e | e in [a, b, c] :: e.from) == {a.from, b.from, c.from}
    ensures (set e | e in [a, b, c] :: e.to) == {a.to, b.to, c.to}
  {
    assert forall e :: e in [a, b, c] <==> e == a || e == b || e == c;
  }

  lemma ListSets4(a: Edge, b: Edge, c: Edge, d: Edge)
    ensures (set e | e in [a, b, c, d]) == {a, b, c, d}
    ensures (set e | e in [a, b, c, d] :: e.from) == {a.from, b.from, c.from, d.from}
    ensures (set e | e in [a, b, c, d] :: e.to) == {a.to, b.to, c.to, d.to}
  {
    assert forall e :: e in [a, b, c, d] <==> e == a || e == b || e == c || e == d;
  }

  /** A literal fragment is well formed and holds just its two fresh states. */
  lemma LiteralShape(s: StateId, c: char)
    ensures WellFormed(LiteralFrag(s, c)) && Below(LiteralFrag(s, c), s + 2)
    ensures States(LiteralFrag(s, c)) == {s, s + 1}
  {
    RuleTable(map[], [Edge(s, c, s + 1)]);
    ListSets1(Edge(s, c, s + 1));
    assert Edges(map[]) == {} && TableStates(map[]) == {};
  }

  /** The shape argument shared by `*`, `+` and `?`, on the sets their
      rule tables are made of: fresh start `s` and accept `s + 1`; new edges
      leave `s` or the operand's accept and enter the operand's start or `s + 1`. */
  lemma WrapShape(f: Frag, s: StateId, g: Frag, extra: set<Edge>, froms: set<StateId>, tos: set<StateId>)
    requires WellFormed(f) && Below(f, s)
    requires g.start == s && g.accept == s + 1
    requires Edges(g.transitions) == Edges(f.transitions) + extra
    requires g.transitions.Keys == f.transitions.Keys + froms
    requires TableStates(g.transitions) == TableStates(f.transitions) + froms + tos
    requires froms == {s, f.accept} && tos == {f.start, s + 1}
    requires forall e :: e in extra ==> e.to == f.start || e.to == s + 1
    ensures WellFormed(g) && Below(g, s + 2) && States(g) == States(f) + {s, s + 1}
  {
    assert f.accept in States(f) && f.start in States(f);
    KeysAreStates(f);
    forall e | e in Edges(g.transitions)
      ensures e.to != g.start
    {
      if e in Edges(f.transitions) {
        assert e.to in TableStates(f.transitions);
      }
    }
  }

  /** A wrapping rule: the operand's table plus edges from `s` and the
      operand's accept to the operand's start and `s + 1`. */
  lemma WrapRule(f: Frag, s: StateId, es: seq<Edge>, extra: set<Edge>)
    requires WellFormed(f) && Below(f, s)
    requires (set e | e in es) == extra
    requires (set e | e in es :: e.from) == {s, f.accept}
    requires (set e | e in es :: e.to) == {f.start, s + 1}
    requires forall e :: e in extra ==> e.to == f.start || e.to == s + 1
    ensures WellFormed(Frag(s, s + 1, AddAll(f.transitions, es)))
    ensures Below(Frag(s, s + 1, AddAll(f.transitions, es)), s + 2)
    ensures States(Frag(s, s + 1, AddAll(f.transitions, es))) == States(f) + {s, s + 1}
  {
    var g := Frag(s, s + 1, AddAll(f.transitions, es));
    assert && Edges(g.transitions) == Edges(f.transitions) + extra
           && g.transitions.Keys == f.transitions.Keys + {s, f.accept}
           && TableStates(g.transitions) == TableStates(f.transitions) + {s, f.accept} + {f.start, s + 1} by {
      RuleTable(f.transitions, es);
    }
    WrapShape(f, s, g, extra, {s, f.accept}, {f.start, s + 1});
  }

  lemma StarShape(f: Frag, s: StateId)
    requires WellFormed(f) && Below(f, s)
    ensures WellFormed(StarFrag(f, s)) && Below(StarFrag(f, s), s + 2)
    ensures States(StarFrag(f, s)) == States(f) + {s, s + 1}
  {
    var es := StarEdgeList(f, s);
    ListSets4(es[0], es[1], es[2], es[3]);
    WrapRule(f, s, es, {es[0], es[1], es[2], es[3]});
  }

  lemma PlusShape(f: Frag, s: StateId)
    requires WellFormed(f) && Below(f, s)
    ensures WellFormed(PlusFrag(f, s)) && Below(PlusFrag(f, s), s + 2)
    ensures States(PlusFrag(f, s)) == States(f) + {s, s + 1}
  {
    var es := PlusEdgeList(f, s);
    ListSets3(es[0], es[1], es[2]);
    WrapRule(f, s, es, {es[0], es[1], es[2]});
  }

  lemma OptionalShape(f: Frag, s: StateId)
    requires WellFormed(f) && Below(f, s)
    ensures WellFormed(OptionalFrag(f, s)) && Below(OptionalFrag(f, s), s + 2)
    ensures States(OptionalFrag(f, s)) == States(f) + {s, s + 1}
  {
    var es := OptionalEdgeList(f, s);
    ListSets3(es[0], es[1], es[2]);
    WrapRule(f, s, es, {es[0], es[1], es[2]});
  }

  /** The shape argument for `.` and `|`, on the sets their rule tables are made of. */
  lemma JoinShape(f1: Frag, f2: Frag, g: Frag, extra: set<Edge>, froms: set<StateId>, tos: set<StateId>)
    requires WellFormed(f1) && WellFormed(f2) && Precedes(f1, f2)
    requires f1.transitions.Keys !! f2.transitions.Keys
    requires Edges(g.transitions) == Edges(f1.transitions) + Edges(f2.transitions) + extra
    requires g.transitions.Keys == f1.transitions.Keys + f2.transitions.Keys + froms
    requires TableStates(g.transitions) == TableStates(f1.transitions) + TableStates(f2.transitions) + froms + tos
    requires g.accept !in froms && g.accept !in f1.transitions && g.accept !in f2.transitions
    requires forall e :: e in extra ==> e.to != g.start
    requires g.start !in TableStates(f2.transitions)
    requires forall e :: e in Edges(f1.transitions) ==> e.to != g.start
    requires g.start != g.accept
    ensures WellFormed(g)
  {
    forall e | e in Edges(g.transitions)
      ensures e.to != g.start
    {
      if e in Edges(f2.transitions) {
        assert e.to in TableStates(f2.transitions);
      }
    }
  }

  /** The table of `.` has rows for both operands' states and `nfa1`'s accept ... */
  lemma ConcatTableKeys(f1: Frag, f2: Frag)
    ensures ConcatFrag(f1, f2).transitions.Keys == f1.transitions.Keys + f2.transitions.Keys + {f1.accept}
  {
    var es := [Edge(f1.accept, Epsilon, f2.start)];
    ListSets1(es[0]);
    AddAllKeys(Overlay(f1.transitions, f2.transitions), es);
  }

  /** ... and mentions the operands' states only. */
  lemma ConcatTableStates(f1: Frag, f2: Frag)
    requires f1.transitions.Keys !! f2.transitions.Keys
    ensures TableStates(ConcatFrag(f1, f2).transitions)
         == TableStates(f1.transitions) + TableStates(f2.transitions) + {f1.accept} + {f2.start}
  {
    var es := [Edge(f1.accept, Epsilon, f2.start)];
    OverlayDisjoint(f1.transitions, f2.transitions);
    UnionEdges(f1.transitions, f2.transitions);
    ListSets1(es[0]);
    AddAllStates(Overlay(f1.transitions, f2.transitions), es);
  }

  lemma ConcatShape(f1: Frag, f2: Frag, bound: StateId)
    requires WellFormed(f1) && WellFormed(f2) && Precedes(f1, f2) && Below(f2, bound)
    ensures WellFormed(ConcatFrag(f1, f2)) && Below(ConcatFrag(f1, f2), bound)
    ensures States(ConcatFrag(f1, f2)) <= States(f1) + States(f2)
  {
    PrecedesDisjoint(f1, f2);
    ConcatEdges(f1, f2);
    ConcatTableKeys(f1, f2);
    ConcatTableStates(f1, f2);
    ConcatShapeOf(f1, f2, bound, ConcatFrag(f1, f2));
  }

  /** The shape argument for `.` on any fragment with the table the rule builds. */
  lemma ConcatShapeOf(f1: Frag, f2: Frag, bound: StateId, g: Frag)
    requires WellFormed(f1) && WellFormed(f2) && Precedes(f1, f2) && Below(f2, bound)
    requires g.start == f1.start && g.accept == f2.accept
    requires Edges(g.transitions) == Edges(f1.transitions) + Edges(f2.transitions)
      + {Edge(f1.accept, Epsilon, f2.start)}
    requires g.transitions.Keys == f1.transitions.Keys + f2.transitions.Keys + {f1.accept}
    requires TableStates(g.transitions)
      == TableStates(f1.transitions) + TableStates(f2.transitions) + {f1.accept} + {f2.start}
    ensures WellFormed(g) && Below(g, bound)
    ensures States(g) <= States(f1) + States(f2)
  {
    PrecedesDisjoint(f1, f2);
    assert f1.start in States(f1) && f1.accept in States(f1);
    assert f2.start in States(f2) && f2.accept in States(f2);
    KeysAreStates(f1);
    JoinShape(f1, f2, g, {Edge(f1.accept, Epsilon, f2.start)}, {f1.accept}, {f2.start});
    PrecedesBelow(f1, f2, bound);
    assert States(g) <= States(f1) + States(f2);
  }

  /** The table of `|`: both operand tables plus the four listed edges ... */
  lemma UnionTableEdges(f1: Frag, f2: Frag, s: StateId)
    requires f1.transitions.Keys !! f2.transitions.Keys
    ensures Edges(UnionFrag(f1, f2, s).transitions) == Edges(f1.transitions) + Edges(f2.transitions)
      + {Edge(s, Epsilon, f1.start), Edge(s, Epsilon, f2.start),
         Edge(f1.accept, Epsilon, s + 1), Edge(f2.accept, Epsilon, s + 1)}
  {
    var es := UnionEdgeList(f1, f2, s);
    OverlayDisjoint(f1.transitions, f2.transitions);
    UnionEdges(f1.transitions, f2.transitions);
    ListSets4(es[0], es[1], es[2], es[3]);
    AddAllEdges(Overlay(f1.transitions, f2.transitions), es);
  }

  /** ... with rows for the fresh start and both operand accepts ... */
  lemma UnionTableKeys(f1: Frag, f2: Frag, s: StateId)
    ensures UnionFrag(f1, f2, s).transitions.Keys
         == f1.transitions.Keys + f2.transitions.Keys + {s, f1.accept, f2.accept}
  {
    var es := UnionEdgeList(f1, f2, s);
    ListSets4(es[0], es[1], es[2], es[3]);
    AddAllKeys(Overlay(f1.transitions, f2.transitions), es);
  }

  /** ... and mentioning the operands' states and the fresh ones. */
  lemma UnionTableStates(f1: Frag, f2: Frag, s: StateId)
    requires f1.transitions.Keys !! f2.transitions.Keys
    ensures TableStates(UnionFrag(f1, f2, s).transitions)
         == TableStates(f1.transitions) + TableStates(f2.transitions)
            + {s, f1.accept, f2.accept} + {f1.start, f2.start, s + 1}
  {
    var es := UnionEdgeList(f1, f2, s);
    OverlayDisjoint(f1.transitions, f2.transitions);
    UnionEdges(f1.transitions, f2.transitions);
    ListSets4(es[0], es[1], es[2], es[3]);
    AddAllStates(Overlay(f1.transitions, f2.transitions), es);
  }

  /** The shape argument for `|` on any fragment with the table the rule builds. */
  lemma UnionShapeOf(f1: Frag, f2: Frag, s: StateId, g: Frag)
    requires WellFormed(f1) && WellFormed(f2) && Precedes(f1, f2) && Below(f2, s)
    requires g.start == s && g.accept == s + 1
    requires Edges(g.transitions) == Edges(f1.transitions) + Edges(f2.transitions)
      + {Edge(s, Epsilon, f1.start), Edge(s, Epsilon, f2.start),
         Edge(f1.accept, Epsilon, s + 1), Edge(f2.accept, Epsilon, s + 1)}
    requires g.transitions.Keys == f1.transitions.Keys + f2.transitions.Keys + {s, f1.accept, f2.accept}
    requires TableStates(g.transitions) == TableStates(f1.transitions) + TableStates(f2.transitions)
      + {s, f1.accept, f2.accept} + {f1.start, f2.start, s + 1}
    ensures WellFormed(g) && Below(g, s + 2)
    ensures States(g) == States(f1) + States(f2) + {s, s + 1}
  {
    PrecedesDisjoint(f1, f2);
    assert f1.start in States(f1) && f1.accept in States(f1);
    assert f2.start in States(f2) && f2.accept in States(f2);
    KeysAreStates(f1);
    KeysAreStates(f2);
    PrecedesBelow(f1, f2, s);
    EdgeEnds(f1.transitions);
    JoinShape(f1, f2, g, {Edge(s, Epsilon, f1.start), Edge(s, Epsilon, f2.start),
              Edge(f1.accept, Epsilon, s + 1), Edge(f2.accept, Epsilon, s + 1)},
      {s, f1.accept, f2.accept}, {f1.start, f2.start, s + 1});
    UnionStatesOf(f1, f2, s, g);
  }

  lemma UnionStatesOf(f1: Frag, f2: Frag, s: StateId, g: Frag)
    requires Precedes(f1, f2) && Below(f2, s)
    requires g.start == s && g.accept == s + 1
    requires TableStates(g.transitions) == TableStates(f1.transitions) + TableStates(f2.transitions)
      + {s, f1.accept, f2.accept} + {f1.start, f2.start, s + 1}
    ensures Below(g, s + 2)
    ensures States(g) == States(f1) + States(f2) + {s, s + 1}
  {
    UnionStatesAlgebra(TableStates(f1.transitions), TableStates(f2.transitions),
      f1.start, f1.accept, f2.start, f2.accept, s);
    PrecedesBelow(f1, f2, s);
    assert States(g) == States(f1) + States(f2) + {s, s + 1};
    forall x | x in States(g)
      ensures x < s + 2
    {
      assert x in States(f1) || x in States(f2) || x == s || x == s + 1;
    }
  }

  lemma UnionShape(f1: Frag, f2: Frag, s: StateId)
    requires WellFormed(f1) && WellFormed(f2) && Precedes(f1, f2) && Below(f2, s)
    ensures WellFormed(UnionFrag(f1, f2, s)) && Below(UnionFrag(f1, f2, s), s + 2)
    ensures States(UnionFrag(f1, f2, s)) == States(f1) + States(f2) + {s, s + 1}
  {
    PrecedesDisjoint(f1, f2);
    UnionTableEdges(f1, f2, s);
    UnionTableKeys(f1, f2, s);
    UnionTableStates(f1, f2, s);
    UnionShapeOf(f1, f2, s, UnionFrag(f1, f2, s));
  }

  lemma UnionStatesAlgebra(t1: set<StateId>, t2: set<StateId>, a1: StateId, b1: StateId,
                           a2: StateId, b2: StateId, s: StateId)
    ensures {s, s + 1} + (t1 + t2 + {s, b1, b2} + {a1, a2, s + 1})
         == ({a1, b1} + t1) + ({a2, b2} + t2) + {s, s + 1}
  {
  }

  /** What precedes a fragment below `bound` is itself below `bound`. */
  lemma PrecedesBelow(f1: Frag, f2: Frag, bound: StateId)
    requires Precedes(f1, f2) && Below(f2, bound)
    ensures Below(f1, bound)
  {
    assert f2.start in States(f2);
  }

  /** Pushing a well-formed fragment whose states follow everything below it. */
  lemma PushKeepsInv(rest: seq<Frag>, old_next: StateId, g: Frag, new_next: StateId)
    requires Inv(Builder(rest, old_next)) && old_next <= new_next
    requires WellFormed(g) && Below(g, new_next)
    requires forall j :: 0 <= j < |rest| ==> Precedes(rest[j], g)
    ensures Inv(Builder(rest + [g], new_next))
  {
    var st := rest + [g];
    forall k | 0 <= k < |st|
      ensures WellFormed(st[k]) && Below(st[k], new_next)
    {
      if k < |rest| {
        assert st[k] == rest[k];
      }
    }
    forall j, k | 0 <= j < k < |st|
      ensures Precedes(st[j], st[k])
    {
      assert st[j] == rest[j];
      if k < |rest| {
        assert st[k] == rest[k];
      }
    }
  }

  /** Everything below `bound` precedes a fragment whose states are all at least `bound`,
      together with states of fragments it already precedes. */
  lemma PrecedesNew(f: Frag, g: Frag, olds: set<StateId>, bound: StateId)
    requires Below(f, bound)
    requires OlderThan(f, olds)
    requires forall y :: y in States(g) ==> y in olds || y >= bound
    ensures Precedes(f, g)
  {
  }

  ghost predicate OlderThan(f: Frag, olds: set<StateId>) {
    forall x, y :: x in States(f) && y in olds ==> x < y
  }

  /** Replacing the top `d` fragments by `g`, whose states are fresh or
      come from `olds`, a set above every state of the fragments kept. */
  lemma ReplaceTopKeepsInv(b: Builder, d: nat, g: Frag, olds: set<StateId>, newNext: StateId)
    requires Inv(b) && d <= |b.stack| && b.next <= newNext
    requires WellFormed(g) && Below(g, newNext)
    requires forall y :: y in States(g) ==> y in olds || y >= b.next
    requires forall j :: 0 <= j < |b.stack| - d ==> OlderThan(b.stack[j], olds)
    ensures Inv(Builder(b.stack[..|b.stack| - d] + [g], newNext))
  {
    var rest := b.stack[..|b.stack| - d];
    assert Inv(Builder(rest, b.next)) by {
      forall j, k | 0 <= j < k < |rest| ensures Precedes(rest[j], rest[k]) {
        assert rest[j] == b.stack[j] && rest[k] == b.stack[k];
      }
      forall k | 0 <= k < |rest| ensures WellFormed(rest[k]) && Below(rest[k], b.next) {
        assert rest[k] == b.stack[k];
      }
    }
    forall j | 0 <= j < |rest|
      ensures Precedes(rest[j], g)
    {
      assert rest[j] == b.stack[j];
      PrecedesNew(rest[j], g, olds, b.next);
    }
    PushKeepsInv(rest, b.next, g, newNext);
  }

  lemma LiteralKeepsInv(b: Builder, c: char)
    requires Inv(b)
    ensures Inv(Builder(b.stack + [LiteralFrag(b.next, c)], b.next + 2))
  {
    LiteralShape(b.next, c);
    ReplaceTopKeepsInv(b, 0, LiteralFrag(b.next, c), {}, b.next + 2);
    assert b.stack[..|b.stack|] == b.stack;
  }

  lemma UnaryKeepsInv(b: Builder, g: Frag)
    requires Inv(b) && |b.stack| > 0
    requires var f := b.stack[|b.stack| - 1];
      g == StarFrag(f, b.next) || g == PlusFrag(f, b.next) || g == OptionalFrag(f, b.next)
    ensures Inv(Builder(b.stack[..|b.stack| - 1] + [g], b.next + 2))
  {
    var n, s := |b.stack|, b.next;
    var f := b.stack[n - 1];
    if g == StarFrag(f, s) {
      StarShape(f, s);
    } else if g == PlusFrag(f, s) {
      PlusShape(f, s);
    } else {
      OptionalShape(f, s);
    }
    forall j | 0 <= j < n - 1
      ensures OlderThan(b.stack[j], States(f))
    {
      assert Precedes(b.stack[j], f);
    }
    ReplaceTopKeepsInv(b, 1, g, States(f), s + 2);
  }

  /** The fragments under the two operands of a binary operator are older than both. */
  lemma UnderOperands(b: Builder)
    requires Inv(b) && |b.stack| >= 2
    ensures forall j :: 0 <= j < |b.stack| - 2 ==>
      OlderThan(b.stack[j], States(b.stack[|b.stack| - 2]) + States(b.stack[|b.stack| - 1]))
  {
    var n := |b.stack|;
    forall j | 0 <= j < n - 2
      ensures OlderThan(b.stack[j], States(b.stack[n - 2]) + States(b.stack[n - 1]))
    {
      assert Precedes(b.stack[j], b.stack[n - 2]) && Precedes(b.stack[j], b.stack[n - 1]);
    }
  }

  /** Replacing the two operands by a well-formed fragment built from their
      states and the two fresh ones. */
  lemma ReplaceTwoKeepsInv(b: Builder, g: Frag, newNext: StateId)
    requires Inv(b) && |b.stack| >= 2 && b.next <= newNext
    requires WellFormed(g) && Below(g, newNext)
    requires States(g) <= States(b.stack[|b.stack| - 2]) + States(b.stack[|b.stack| - 1]) + {b.next, b.next + 1}
    ensures Inv(Builder(b.stack[..|b.stack| - 2] + [g], newNext))
  {
    var n := |b.stack|;
    UnderOperands(b);
    ReplaceTopKeepsInv(b, 2, g, States(b.stack[n - 2]) + States(b.stack[n - 1]), newNext);
  }

  lemma ConcatKeepsInv(b: Builder)
    requires Inv(b) && |b.stack| >= 2
    ensures var n := |b.stack|;
      Inv(Builder(b.stack[..n - 2] + [ConcatFrag(b.stack[n - 2], b.stack[n - 1])], b.next))
  {
    var n := |b.stack|;
    assert Precedes(b.stack[n - 2], b.stack[n - 1]);
    ConcatShape(b.stack[n - 2], b.stack[n - 1], b.next);
    ReplaceTwoKeepsInv(b, ConcatFrag(b.stack[n - 2], b.stack[n - 1]), b.next);
  }

  lemma UnionKeepsInv(b: Builder)
    requires Inv(b) && |b.stack| >= 2
    ensures var n := |b.stack|;
      Inv(Builder(b.stack[..n - 2] + [UnionFrag(b.stack[n - 2], b.stack[n - 1], b.next)], b.next + 2))
  {
    var n := |b.stack|;
    var f1, f2 := b.stack[n - 2], b.stack[n - 1];
    var g := UnionFrag(f1, f2, b.next);
    assert WellFormed(g) && Below(g, b.next + 2) && States(g) <= States(f1) + States(f2) + {b.next, b.next + 1} by {
      assert Precedes(f1, f2);
      UnionShape(f1, f2, b.next);
    }
    ReplaceTwoKeepsInv(b, g, b.next + 2);
  }

  /** One step of the evaluation keeps the invariant and never moves the counter back. */
  lemma StepKeepsInv(b: Builder, c: char)
    requires Inv(b) && Step(b, c).Ok?
    ensures Inv(Step(b, c).value) && b.next <= Step(b, c).value.next
  {
    if !PostfixConverter.IsOperator(c) {
      LiteralKeepsInv(b, c);
    } else if c == '*' || c == '+' || c == '?' {
      var f := b.stack[|b.stack| - 1];
      UnaryKeepsInv(b, if c == '*' then StarFrag(f, b.next) else if c == '+' then PlusFrag(f, b.next) else OptionalFrag(f, b.next));
    } else if c == '.' {
      ConcatKeepsInv(b);
    } else {
      UnionKeepsInv(b);
    }
  }

  /** Every stack the evaluation reaches satisfies the invariant. */
  lemma {:induction false} BuildInvariant(p: string, n: nat)
    requires n <= |p|
    ensures BuildPrefix(p, n).Ok? ==> Inv(BuildPrefix(p, n).value)
  {
    if n > 0 && BuildPrefix(p, n - 1).Ok? {
      var b := BuildPrefix(p, n - 1).value;
      BuildInvariant(p, n - 1);
      assert BuildPrefix(p, n) == Step(b, p[n - 1]);
      if Step(b, p[n - 1]).Ok? {
        StepKeepsInv(b, p[n - 1]);
      }
    }
  }

  /** On every stack the loop reaches, the fragments have pairwise-disjoint
      state sets. */
  lemma StackDisjoint(p: string, n: nat, j: nat, k: nat)
    requires n <= |p| && BuildPrefix(p, n).Ok?
    requires j < k < |BuildPrefix(p, n).value.stack|
    ensures States(BuildPrefix(p, n).value.stack[j]) !! States(BuildPrefix(p, n).value.stack[k])
  {
    BuildInvariant(p, n);
    PrecedesDisjoint(BuildPrefix(p, n).value.stack[j], BuildPrefix(p, n).value.stack[k]);
  }

  /** Every fragment on the stack has only non-empty target sets. */
  ghost predicate StackNonEmpty(stack: seq<Frag>) {
    forall k :: 0 <= k < |stack| ==> NonEmptyTargets(stack[k].transitions)
  }

  /** Each rule builds its table by merges and `add_transition` calls from
      tables whose target sets are non-empty. */
  lemma StepNonEmpty(b: Builder, c: char)
    requires StackNonEmpty(b.stack) && Step(b, c).Ok?
    ensures StackNonEmpty(Step(b, c).value.stack)
  {
    var n := |b.stack|;
    var g := Step(b, c).value.stack[|Step(b, c).value.stack| - 1];
    assert NonEmptyTargets(g.transitions) by {
      if !PostfixConverter.IsOperator(c) {
        AddAllNonEmpty(map[], [Edge(b.next, c, b.next + 1)]);
      } else if c == '*' || c == '+' || c == '?' {
        var f := b.stack[n - 1];
        AddAllNonEmpty(f.transitions, StarEdgeList(f, b.next));
        AddAllNonEmpty(f.transitions, PlusEdgeList(f, b.next));
        AddAllNonEmpty(f.transitions, OptionalEdgeList(f, b.next));
      } else {
        var f2, f1 := b.stack[n - 1], b.stack[n - 2];
        OverlayNonEmpty(f1.transitions, f2.transitions);
        AddAllNonEmpty(Overlay(f1.transitions, f2.transitions), [Edge(f1.accept, Epsilon, f2.start)]);
        AddAllNonEmpty(Overlay(f1.transitions, f2.transitions), UnionEdgeList(f1, f2, b.next));
      }
    }
  }

  /** On every stack the loop reaches, no table holds an empty target set. */
  lemma {:induction false} BuildNonEmpty(p: string, n: nat)
    requires n <= |p|
    ensures BuildPrefix(p, n).Ok? ==> StackNonEmpty(BuildPrefix(p, n).value.stack)
  {
    if n > 0 && BuildPrefix(p, n - 1).Ok? {
      var b := BuildPrefix(p, n - 1).value;
      BuildNonEmpty(p, n - 1);
      assert BuildPrefix(p, n) == Step(b, p[n - 1]);
      if Step(b, p[n - 1]).Ok? {
        StepNonEmpty(b, p[n - 1]);
      }
    }
  }

  /** The returned automaton has one start and one accept state, distinct,
      with no edge into the start and none out of the accept, and every
      entry of its table holds at least one target. */
  lemma BuildWellFormed(p: string)
    requires Build(p).Ok?
    ensures WellFormed(Build(p).value)
    ensures NonEmptyTargets(Build(p).value.transitions)
  {
    BuildInvariant(p, |p|);
    BuildNonEmpty(p, |p|);
  }

  // ---------------------------------------------------------------------
  // When the evaluation fails, and how many states it mints
  // ---------------------------------------------------------------------

  /** How many fragments an operator pops. */
  function Arity(c: char): (r: nat)
    ensures r <= 2
    ensures r == 0 <==> !PostfixConverter.IsOperator(c)
  {
    if !PostfixConverter.IsOperator(c) then 0
    else if c == '*' || c == '+' || c == '?' then 1
    else 2
  }

  /** The stack height after the first `n` characters, counting each
      literal as a push and each operator as its pops and one push. */
  function Height(p: string, n: nat): int
    requires n <= |p|
  {
    if n == 0 then 0 else Height(p, n - 1) + 1 - Arity(p[n - 1])
  }

  /** No character before position `n` finds fewer fragments than it pops. */
  ghost predicate NoUnderflow(p: string, n: nat)
    requires n <= |p|
  {
    forall m :: 0 <= m < n ==> Height(p, m) >= Arity(p[m])
  }

  /** The number of characters before position `n` that mint two states:
      all but `.`. */
  function Minting(p: string, n: nat): nat
    requires n <= |p|
  {
    if n == 0 then 0 else Minting(p, n - 1) + (if p[n - 1] == '.' then 0 else 1)
  }

  /** The evaluation of a prefix succeeds exactly when no operator underflows
      the stack; then the stack holds `Height` fragments and the counter has
      minted two states per non-`.` character. In the error case the error is
      the failed pop. */
  lemma {:induction false} PrefixOutcome(p: string, n: nat)
    requires n <= |p|
    ensures BuildPrefix(p, n).Ok? <==> NoUnderflow(p, n)
    ensures BuildPrefix(p, n).Ok? ==>
      |BuildPrefix(p, n).value.stack| == Height(p, n) && BuildPrefix(p, n).value.next == 2 * Minting(p, n)
    ensures BuildPrefix(p, n).Err? ==> BuildPrefix(p, n).error == PopFromEmptyList
  {
    if n > 0 {
      PrefixOutcome(p, n - 1);
      NoUnderflowStep(p, n);
      match BuildPrefix(p, n - 1)
      case Err(e) =>
        assert BuildPrefix(p, n) == Err(e);
      case Ok(b) =>
        assert BuildPrefix(p, n) == Step(b, p[n - 1]);
        StepCounts(b, p[n - 1]);
    }
  }

  lemma NoUnderflowStep(p: string, n: nat)
    requires 0 < n <= |p|
    ensures NoUnderflow(p, n) <==> NoUnderflow(p, n - 1) && Height(p, n - 1) >= Arity(p[n - 1])
  {
  }

  /** One step succeeds exactly when the stack holds the operator's
      operands; it leaves one fragment in their place and mints two states
      unless the character is `.`. */
  lemma StepCounts(b: Builder, c: char)
    ensures Step(b, c).Ok? <==> |b.stack| >= Arity(c)
    ensures Step(b, c).Ok? ==> |Step(b, c).value.stack| == |b.stack| + 1 - Arity(c)
    ensures Step(b, c).Ok? ==> Step(b, c).value.next == b.next + (if c == '.' then 0 else 2)
    ensures Step(b, c).Err? ==> Step(b, c).error == PopFromEmptyList
  {
  }

  /** `postfix_to_nfa` fails exactly when an operator underflows the stack or
      nothing is left to pop at the end; the error is always the failed pop. */
  lemma BuildOutcome(p: string)
    ensures Build(p).Ok? <==> NoUnderflow(p, |p|) && Height(p, |p|) > 0
    ensures Build(p).Err? ==> Build(p).error == PopFromEmptyList
  {
    PrefixOutcome(p, |p|);
  }

  /** The automaton returned: well formed, every state below the counter. */
  lemma BuildStates(p: string)
    requires Build(p).Ok?
    ensures WellFormed(Build(p).value)
    ensures forall x :: x in States(Build(p).value) ==> x < 2 * Minting(p, |p|)
  {
    BuildInvariant(p, |p|);
    PrefixOutcome(p, |p|);
  }

  /** The table of a literal is the single row `{s: {c: {s + 1}}}`. */
  lemma LiteralTable(s: StateId, c: char)
    ensures LiteralFrag(s, c).transitions == map[s := map[c := {s + 1}]]
  {
    var es := [Edge(s, c, s + 1)];
    assert es[1..] == [];
    assert AddAll(map[], es) == AddAll(Add(map[], s, c, s + 1), []);
    var empty: set<StateId> := {};
    assert empty + {s + 1} == {s + 1};
    var row: map<char, set<StateId>> := map[];
    assert Add(map[], s, c, s + 1) == map[s := row[c := empty + {s + 1}]];
  }

  /** One literal on an empty stack. */
  lemma FirstLiteral(p: string)
    requires |p| > 0 && !PostfixConverter.IsOperator(p[0])
    ensures BuildPrefix(p, 1).Ok?
    ensures BuildPrefix(p, 1).value.stack == [LiteralFrag(0, p[0])]
    ensures BuildPrefix(p, 1).value.next == 2
  {
    assert BuildPrefix(p, 1) == Step(Builder([], 0), p[0]);
    assert [] + [LiteralFrag(0, p[0])] == [LiteralFrag(0, p[0])];
  }

  /** A single literal: start 0, accept 1 and the table `{0: {c: {1}}}`. */
  lemma SingleLiteral(c: char)
    requires !PostfixConverter.IsOperator(c)
    ensures Build([c]).Ok?
    ensures Build([c]).value == Frag(0, 1, map[0 := map[c := {1}]])
  {
    FirstLiteral([c]);
    LiteralTable(0, c);
  }

  /** Surplus fragments are dropped: of `a` and `b` only the top one is returned. */
  lemma SurplusDropped()
    ensures Build("ab").Ok?
    ensures Build("ab").value == Frag(2, 3, map[2 := map['b' := {3}]])
  {
    FirstLiteral("ab");
    var b := BuildPrefix("ab", 1).value;
    assert BuildPrefix("ab", 2) == Step(b, 'b');
    assert Step(b, 'b').value.stack == [LiteralFrag(0, 'a'), LiteralFrag(2, 'b')];
    LiteralTable(2, 'b');
  }

  /** A binary operator with one operand, a unary one with none, and an
      empty postfix string, all fail. */
  lemma UnderflowExamples()
    ensures Build("a|") == Err(PopFromEmptyList)
    ensures Build("*") == Err(PopFromEmptyList)
    ensures Build("") == Err(PopFromEmptyList)
  {
    FirstLiteral("a|");
    assert BuildPrefix("a|", 2) == Step(BuildPrefix("a|", 1).value, '|');
    assert BuildPrefix("*", 1) == Step(Builder([], 0), '*');
  }

  // ---------------------------------------------------------------------
  // `postfix_to_nfa` itself
  // ---------------------------------------------------------------------

  /** An error stays an error for every longer prefix. */
  lemma {:induction false} ErrorPersists(p: string, m: nat, n: nat)
    requires m <= n <= |p| && BuildPrefix(p, m).Err?
    ensures BuildPrefix(p, n) == BuildPrefix(p, m)
    decreases n - m
  {
    if m < n {
      assert BuildPrefix(p, m + 1) == BuildPrefix(p, m);
      ErrorPersists(p, m + 1, n);
    }
  }

  /** A literal: two fresh states and one edge between them. */
  method NewLiteral(counter: StateCounter, c: char) returns (nfa: Nfa)
    modifies counter
    ensures fresh(nfa)
    ensures counter.next == old(counter.next) + 2
    ensures nfa.Value() == LiteralFrag(old(counter.next), c)
  {
    var start := counter.NewState();
    var accept := counter.NewState();
    nfa := new Nfa(start, accept, map[]);
    nfa.AddTransition(start, c, accept);
    AddAll1(map[], Edge(start, c, accept));
  }

  /** `*` applied to the popped fragment `nfa1`. */
  method NewStar(counter: StateCounter, nfa1: Nfa) returns (nfa: Nfa)
    modifies counter
    ensures fresh(nfa)
    ensures counter.next == old(counter.next) + 2
    ensures nfa.Value() == StarFrag(nfa1.Value(), old(counter.next))
  {
    var start := counter.NewState();
    var accept := counter.NewState();
    nfa := new Nfa(start, accept, nfa1.transitions);
    nfa.AddTransition(start, Epsilon, nfa1.startState);
    nfa.AddTransition(nfa1.acceptState, Epsilon, nfa1.startState);
    nfa.AddTransition(start, Epsilon, accept);
    nfa.AddTransition(nfa1.acceptState, Epsilon, accept);
    var es := StarEdgeList(nfa1.Value(), start);
    AddAll4(nfa1.transitions, es[0], es[1], es[2], es[3]);
  }

  /** `+` applied to the popped fragment `nfa1`. */
  method NewPlus(counter: StateCounter, nfa1: Nfa) returns (nfa: Nfa)
    modifies counter
    ensures fresh(nfa)
    ensures counter.next == old(counter.next) + 2
    ensures nfa.Value() == PlusFrag(nfa1.Value(), old(counter.next))
  {
    var start := counter.NewState();
    var accept := counter.NewState();
    nfa := new Nfa(start, accept, nfa1.transitions);
    nfa.AddTransition(start, Epsilon, nfa1.startState);
    nfa.AddTransition(nfa1.acceptState, Epsilon, nfa1.startState);
    nfa.AddTransition(nfa1.acceptState, Epsilon, accept);
    var es := PlusEdgeList(nfa1.Value(), start);
    AddAll3(nfa1.transitions, es[0], es[1], es[2]);
  }

  /** `?` applied to the popped fragment `nfa1`. */
  method NewOptional(counter: StateCounter, nfa1: Nfa) returns (nfa: Nfa)
    modifies counter
    ensures fresh(nfa)
    ensures counter.next == old(counter.next) + 2
    ensures nfa.Value() == OptionalFrag(nfa1.Value(), old(counter.next))
  {
    var start := counter.NewState();
    var accept := counter.NewState();
    nfa := new Nfa(start, accept, nfa1.transitions);
    nfa.AddTransition(start, Epsilon, nfa1.startState);
    nfa.AddTransition(nfa1.acceptState, Epsilon, accept);
    nfa.AddTransition(start, Epsilon, accept);
    var es := OptionalEdgeList(nfa1.Value(), start);
    AddAll3(nfa1.transitions, es[0], es[1], es[2]);
  }

  /** `.` applied to `nfa1` (popped second) and `nfa2` (popped first). */
  method NewConcat(nfa1: Nfa, nfa2: Nfa) returns (nfa: Nfa)
    ensures fresh(nfa)
    ensures nfa.Value() == ConcatFrag(nfa1.Value(), nfa2.Value())
  {
    nfa := new Nfa(nfa1.startState, nfa2.acceptState, nfa1.transitions);
    nfa.MergeTransitions(nfa2.transitions);
    nfa.AddTransition(nfa1.acceptState, Epsilon, nfa2.startState);
    AddAll1(Overlay(nfa1.transitions, nfa2.transitions), Edge(nfa1.acceptState, Epsilon, nfa2.startState));
  }

  /** `|` applied to `nfa1` (popped second) and `nfa2` (popped first). */
  method NewUnion(counter: StateCounter, nfa1: Nfa, nfa2: Nfa) returns (nfa: Nfa)
    modifies counter
    ensures fresh(nfa)
    ensures counter.next == old(counter.next) + 2
    ensures nfa.Value() == UnionFrag(nfa1.Value(), nfa2.Value(), old(counter.next))
  {
    var start := counter.NewState();
    var accept := counter.NewState();
    nfa := new Nfa(start, accept, nfa1.transitions);
    nfa.MergeTransitions(nfa2.transitions);
    nfa.AddTransition(start, Epsilon, nfa1.startState);
    nfa.AddTransition(start, Epsilon, nfa2.startState);
    nfa.AddTransition(nfa1.acceptState, Epsilon, accept);
    nfa.AddTransition(nfa2.acceptState, Epsilon, accept);
    var es := UnionEdgeList(nfa1.Value(), nfa2.Value(), start);
    AddAll4(Overlay(nfa1.transitions, nfa2.transitions), es[0], es[1], es[2], es[3]);
  }

  /** Replacing the top of a mirrored stack by an object and its value. */
  lemma MirrorsReplace(stack: seq<Nfa>, abs: seq<Frag>, m: nat, nfa: Nfa, g: Frag)
    requires Mirrors(stack, abs) && m <= |stack| && nfa.Value() == g
    ensures Mirrors(stack[..m] + [nfa], abs[..m] + [g])
  {
  }

  /** One iteration of `for char in postfix`: the stack of NFA objects
      after the character, or the failed pop, in step with `Step` on their
      values. */
  method ApplyChar(counter: StateCounter, stack: seq<Nfa>, ghost b: Builder, c: char) returns (r: Result<seq<Nfa>>)
    requires b.next == counter.next && Mirrors(stack, b.stack)
    modifies counter
    ensures r.Ok? <==> Step(b, c).Ok?
    ensures r.Err? ==> r.error == Step(b, c).error
    ensures r.Ok? ==> counter.next == Step(b, c).value.next && Mirrors(r.value, Step(b, c).value.stack)
    ensures r.Ok? ==> forall k :: 0 <= k < |r.value| ==> r.value[k] in stack || fresh(r.value[k])
  {
    if !PostfixConverter.IsOperator(c) {
      var nfa := NewLiteral(counter, c);
      var n := |stack|;
      MirrorsReplace(stack, b.stack, n, nfa, LiteralFrag(b.next, c));
      assert stack[..n] == stack && b.stack[..n] == b.stack;
      r := Ok(stack + [nfa]);
    } else if c == '*' || c == '+' || c == '?' {
      r := ApplyUnary(counter, stack, b, c);
    } else {
      r := ApplyBinary(counter, stack, b, c);
    }
  }

  /** `*`, `+` and `?`: one fragment popped, its wrapped form pushed. */
  method ApplyUnary(counter: StateCounter, stack: seq<Nfa>, ghost b: Builder, c: char) returns (r: Result<seq<Nfa>>)
    requires c == '*' || c == '+' || c == '?'
    requires b.next == counter.next && Mirrors(stack, b.stack)
    modifies counter
    ensures r.Ok? <==> Step(b, c).Ok?
    ensures r.Err? ==> r.error == Step(b, c).error
    ensures r.Ok? ==> counter.next == Step(b, c).value.next && Mirrors(r.value, Step(b, c).value.stack)
    ensures r.Ok? ==> forall k :: 0 <= k < |r.value| ==> r.value[k] in stack || fresh(r.value[k])
  {
    var n := |stack|;
    if n == 0 {
      return Err(PopFromEmptyList);
    }
    var nfa1 := stack[n - 1];
    ghost var f := b.stack[n - 1];
    assert nfa1.Value() == f;
    var nfa;
    ghost var g;
    if c == '*' {
      nfa := NewStar(counter, nfa1);
      g := StarFrag(f, b.next);
    } else if c == '+' {
      nfa := NewPlus(counter, nfa1);
      g := PlusFrag(f, b.next);
    } else {
      nfa := NewOptional(counter, nfa1);
      g := OptionalFrag(f, b.next);
    }
    MirrorsReplace(stack, b.stack, n - 1, nfa, g);
    r := Ok(stack[..n - 1] + [nfa]);
  }

  /** `.` and `|`: two fragments popped, their combination pushed. */
  method ApplyBinary(counter: StateCounter, stack: seq<Nfa>, ghost b: Builder, c: char) returns (r: Result<seq<Nfa>>)
    requires c == '.' || c == '|'
    requires b.next == counter.next && Mirrors(stack, b.stack)
    modifies counter
    ensures r.Ok? <==> Step(b, c).Ok?
    ensures r.Err? ==> r.error == Step(b, c).error
    ensures r.Ok? ==> counter.next == Step(b, c).value.next && Mirrors(r.value, Step(b, c).value.stack)
    ensures r.Ok? ==> forall k :: 0 <= k < |r.value| ==> r.value[k] in stack || fresh(r.value[k])
  {
    var n := |stack|;
    if n < 2 {
      return Err(PopFromEmptyList);
    }
    var nfa2 := stack[n - 1];
    var nfa1 := stack[n - 2];
    ghost var f2, f1 := b.stack[n - 1], b.stack[n - 2];
    assert nfa2.Value() == f2 && nfa1.Value() == f1;
    var nfa;
    ghost var g;
    if c == '.' {
      nfa := NewConcat(nfa1, nfa2);
      g := ConcatFrag(f1, f2);
    } else {
      nfa := NewUnion(counter, nfa1, nfa2);
      g := UnionFrag(f1, f2, b.next);
    }
    MirrorsReplace(stack, b.stack, n - 2, nfa, g);
    r := Ok(stack[..n - 2] + [nfa]);
  }

  /** `postfix_to_nfa`: the loop over the postfix string on a stack of NFA
      objects, state ids drawn from one counter. It returns exactly the
      fragment `Build` describes, and fails exactly when `Build` does. */
  method PostfixToNfa(postfix: string) returns (r: Result<Nfa>)
    ensures r.Ok? <==> Build(postfix).Ok?
    ensures r.Ok? ==> fresh(r.value) && r.value.Value() == Build(postfix).value
    ensures r.Err? ==> r.error == Build(postfix).error
  {
    var counter := new StateCounter();
    var stack: seq<Nfa> := [];
    ghost var b := Builder([], 0);
    for i := 0 to |postfix|
      invariant BuildPrefix(postfix, i) == Ok(b)
      invariant b.next == counter.next && Mirrors(stack, b.stack)
      invariant forall k :: 0 <= k < |stack| ==> fresh(stack[k])
    {
      var next := ApplyChar(counter, stack, b, postfix[i]);
      if next.Err? {
        ErrorPersists(postfix, i + 1, |postfix|);
        return Err(next.error);
      }
      stack := next.value;
      b := Step(b, postfix[i]).value;
    }
    if |stack| == 0 {
      return Err(PopFromEmptyList);
    }
    r := Ok(stack[|stack| - 1]);
  }
}
