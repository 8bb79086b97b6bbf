/** The NFA entity: a start state, an accept state and a transition table
    `state -> symbol -> set of states`. */
module Automaton {

  type StateId = nat

  type Table = map<StateId, map<char, set<StateId>>>

  /** The source labels epsilon edges with this character. */
  const Epsilon: char := 'ε'

  /** `add_transition(from, sym, to)` as a function on tables. */
  function Add(t: Table, from: StateId, sym: char, to: StateId): Table {
    var row := if from in t then t[from] else map[];
    var targets := if sym in row then row[sym] else {};
    t[from := row[sym := targets + {to}]]
  }

  /** After `add_transition(from, sym, to)` the edge is present, every
      previous target is kept, and no other (state, symbol) entry changes. */
  lemma AddEntries(t: Table, from: StateId, sym: char, to: StateId)
    ensures var r := Add(t, from, sym, to);
      && r.Keys == t.Keys + {from}
      && from in r && sym in r[from] && to in r[from][sym]
      && r[from].Keys == (if from in t then t[from].Keys else {}) + {sym}
      && (from in t && sym in t[from] ==> r[from][sym] == t[from][sym] + {to})
      && (!(from in t && sym in t[from]) ==> r[from][sym] == {to})
      && (forall s :: s in t && s != from ==> r[s] == t[s])
      && (forall a :: from in t && a in t[from] && a != sym ==> r[from][a] == t[from][a])
  {
  }

  /** The first conjunct of `AddEntries` on its own: the inductions over
      runs of additions need only this fact, and carrying all of
      `AddEntries` through them makes their proofs much costlier. */
  lemma AddKeys(t: Table, from: StateId, sym: char, to: StateId)
    ensures Add(t, from, sym, to).Keys == t.Keys + {from}
  {
  }

  /** The merge loop of the source: every row of `o` is copied into `t`,
      symbol by symbol, over whatever `t` already holds. */
  function Overlay(t: Table, o: Table): (r: Table)
    ensures r.Keys == t.Keys + o.Keys
  {
    map s | s in t.Keys + o.Keys :: if s in o then (if s in t then t[s] + o[s] else o[s]) else t[s]
  }

  /** The merge keeps the rows only `t` has, copies the rows only `o` has,
      and on a row both have keeps `t`'s other symbols while every
      (state, symbol) entry of `o` wins over `t`'s. */
  lemma OverlayEntries(t: Table, o: Table)
    ensures var r := Overlay(t, o);
      && (forall s :: s in t && s !in o ==> r[s] == t[s])
      && (forall s :: s !in t && s in o ==> r[s] == o[s])
      && (forall s :: s in o ==> o[s].Keys <= r[s].Keys && forall a :: a in o[s] ==> r[s][a] == o[s][a])
      && (forall s :: s in t && s in o ==>
            r[s].Keys == t[s].Keys + o[s].Keys && forall a :: a in t[s] && a !in o[s] ==> r[s][a] == t[s][a])
  {
  }

  /** Tables over disjoint states are simply joined. */
  lemma OverlayDisjoint(t: Table, o: Table)
    requires t.Keys !! o.Keys
    ensures Overlay(t, o) == t + o
  {
  }

  datatype Edge = Edge(from: StateId, sym: char, to: StateId)

  /** The table read as a set of labelled edges. */
  ghost function Edges(t: Table): set<Edge> {
    set s, a, x | s in t && a in t[s] && x in t[s][a] :: Edge(s, a, x)
  }

  /** Every state the table mentions as a source or as a target. */
  ghost function TableStates(t: Table): set<StateId> {
    t.Keys + set e | e in Edges(t) :: e.to
  }

  /** Adding an edge adds exactly that edge. */
  lemma AddEdges(t: Table, from: StateId, sym: char, to: StateId)
    ensures Edges(Add(t, from, sym, to)) == Edges(t) + {Edge(from, sym, to)}
    ensures TableStates(Add(t, from, sym, to)) == TableStates(t) + {from, to}
  {
    var r := Add(t, from, sym, to);
    AddKeys(t, from, sym, to);
    forall e | e in Edges(r)
      ensures e in Edges(t) + {Edge(from, sym, to)}
    {
      if e != Edge(from, sym, to) {
        assert e.from in t && e.sym in t[e.from] && e.to in t[e.from][e.sym];
      }
    }
    forall e | e in Edges(t)
      ensures e in Edges(r)
    {
      assert e.from in r && e.sym in r[e.from] && e.to in r[e.from][e.sym];
    }
    assert Edge(from, sym, to) in Edges(r);
    assert Edges(r) == Edges(t) + {Edge(from, sym, to)};
    var targets := set e | e in Edges(t) :: e.to;
    assert (set e | e in Edges(r) :: e.to) == targets + {to};
  }


  /** A run of `add_transition` calls, applied in list order. */
  function AddAll(t: Table, es: seq<Edge>): Table
    decreases |es|
  {
    if es == [] then t else AddAll(Add(t, es[0].from, es[0].sym, es[0].to), es[1..])
  }

  /** Runs of one, three and four additions, written out: the lengths of the
      edge lists of the rules (1 for a literal and `.`, 3 for `+` and `?`, 4
      for `*` and `|`). The methods that perform those additions one by one
      use the one of their length, which spares the solver from unfolding
      `AddAll` on list literals. */
  lemma AddAll1(t: Table, a: Edge)
    ensures AddAll(t, [a]) == Add(t, a.from, a.sym, a.to)
  {
    assert [a][1..] == [];
  }

  lemma AddAll3(t: Table, a: Edge, b: Edge, c: Edge)
    ensures AddAll(t, [a, b, c]) == Add(Add(Add(t, a.from, a.sym, a.to), b.from, b.sym, b.to), c.from, c.sym, c.to)
  {
    assert [a, b, c][1..] == [b, c];
    assert [b, c][1..] == [c];
    AddAll1(Add(Add(t, a.from, a.sym, a.to), b.from, b.sym, b.to), c);
  }

  lemma AddAll4(t: Table, a: Edge, b: Edge, c: Edge, d: Edge)
    ensures AddAll(t, [a, b, c, d])
         == Add(Add(Add(Add(t, a.from, a.sym, a.to), b.from, b.sym, b.to), c.from, c.sym, c.to), d.from, d.sym, d.to)
  {
    assert [a, b, c, d][1..] == [b, c, d];
    AddAll3(Add(t, a.from, a.sym, a.to), b, c, d);
  }

  /** A run of additions adds exactly the listed edges. */
  lemma {:induction false} AddAllEdges(t: Table, es: seq<Edge>)
    ensures Edges(AddAll(t, es)) == Edges(t) + (set e | e in es)
    decreases |es|
  {
    if es != [] {
      var e, rest := es[0], es[1..];
      AddEdges(t, e.from, e.sym, e.to);
      AddAllEdges(Add(t, e.from, e.sym, e.to), rest);
      assert forall x :: x in es <==> x == e || x in rest;
      assert (set x | x in es) == {e} + (set x | x in rest);
    }
  }

  /** ... makes exactly their sources into rows ... */
  lemma {:induction false} AddAllKeys(t: Table, es: seq<Edge>)
    ensures AddAll(t, es).Keys == t.Keys + (set e | e in es :: e.from)
    decreases |es|
  {
    if es != [] {
      var e, rest := es[0], es[1..];
      AddKeys(t, e.from, e.sym, e.to);
      AddAllKeys(Add(t, e.from, e.sym, e.to), rest);
      assert forall x :: x in es <==> x == e || x in rest;
      assert (set x | x in es :: x.from) == {e.from} + (set x | x in rest :: x.from);
    }
  }

  /** ... and mentions exactly their endpoints besides the old states. */
  lemma {:induction false} AddAllStates(t: Table, es: seq<Edge>)
    ensures TableStates(AddAll(t, es)) == TableStates(t) + (set e | e in es :: e.from) + (set e | e in es :: e.to)
    decreases |es|
  {
    if es != [] {
      var e, rest := es[0], es[1..];
      AddEdges(t, e.from, e.sym, e.to);
      AddAllStates(Add(t, e.from, e.sym, e.to), rest);
      assert forall x :: x in es <==> x == e || x in rest;
      assert (set x | x in es :: x.from) == {e.from} + (set x | x in rest :: x.from);
      assert (set x | x in es :: x.to) == {e.to} + (set x | x in rest :: x.to);
    }
  }

  /** Every entry of the table holds at least one target, so a missing
      entry is the only way to have no edge. */
  ghost predicate NonEmptyTargets(t: Table) {
    forall s, a :: s in t && a in t[s] ==> t[s][a] != {}
  }

  /** Under `NonEmptyTargets`, and only then, every (state, symbol) entry
      of the table is seen as at least one edge. */
  lemma NonEmptyEdges(t: Table)
    ensures NonEmptyTargets(t) <==>
      forall s, a :: s in t && a in t[s] ==> exists x :: Edge(s, a, x) in Edges(t)
  {
    if NonEmptyTargets(t) {
      forall s, a | s in t && a in t[s]
        ensures exists x :: Edge(s, a, x) in Edges(t)
      {
        var x :| x in t[s][a];
        assert Edge(s, a, x) in Edges(t);
      }
    }
  }

  /** `add_transition` puts the target into the set it creates. */
  lemma AddNonEmpty(t: Table, from: StateId, sym: char, to: StateId)
    requires NonEmptyTargets(t)
    ensures NonEmptyTargets(Add(t, from, sym, to))
  {
  }

  /** The merge copies entries that are already non-empty. */
  lemma OverlayNonEmpty(t: Table, o: Table)
    requires NonEmptyTargets(t) && NonEmptyTargets(o)
    ensures NonEmptyTargets(Overlay(t, o))
  {
  }

  lemma {:induction false} AddAllNonEmpty(t: Table, es: seq<Edge>)
    requires NonEmptyTargets(t)
    ensures NonEmptyTargets(AddAll(t, es))
    decreases |es|
  {
    if es != [] {
      AddNonEmpty(t, es[0].from, es[0].sym, es[0].to);
      AddAllNonEmpty(Add(t, es[0].from, es[0].sym, es[0].to), es[1..]);
    }
  }

  /** Merging tables with disjoint states unions their edges. */
  lemma UnionEdges(t: Table, o: Table)
    requires t.Keys !! o.Keys
    ensures Edges(t + o) == Edges(t) + Edges(o)
    ensures TableStates(t + o) == TableStates(t) + TableStates(o)
  {
    var r := t + o;
    forall e | e in Edges(r)
      ensures e in Edges(t) + Edges(o)
    {
      if e.from in o {
        assert e.sym in o[e.from] && e.to in o[e.from][e.sym];
      } else {
        assert e.sym in t[e.from] && e.to in t[e.from][e.sym];
      }
    }
    forall e | e in Edges(t) + Edges(o)
      ensures e in Edges(r)
    {
      assert e.from in r && e.sym in r[e.from] && e.to in r[e.from][e.sym];
    }
    assert Edges(r) == Edges(t) + Edges(o);
    assert (set e | e in Edges(r) :: e.to)
        == (set e | e in Edges(t) :: e.to) + (set e | e in Edges(o) :: e.to);
  }

  /** The value of an NFA object, and the fragments of the construction. */
  datatype Frag = Frag(start: StateId, accept: StateId, transitions: Table)

  /** The states of a fragment: its start and accept and those its table mentions. */
  ghost function States(f: Frag): set<StateId> {
    {f.start, f.accept} + TableStates(f.transitions)
  }

  /** The `NFA` class of the source. */
  class Nfa {
    var startState: StateId
    var acceptState: StateId
    var transitions: Table

    constructor (start: StateId, accept: StateId, transitions: Table)
      ensures startState == start && acceptState == accept && this.transitions == transitions
    {
      startState := start;
      acceptState := accept;
      this.transitions := transitions;
    }

    function Value(): Frag
      reads this
    {
      Frag(startState, acceptState, transitions)
    }

    method AddTransition(from: StateId, sym: char, to: StateId)
      modifies this
      ensures transitions == Add(old(transitions), from, sym, to)
      ensures startState == old(startState) && acceptState == old(acceptState)
    {
      ghost var row := if from in transitions then transitions[from] else map[];
      ghost var targets := if sym in row then row[sym] else {};
      if from !in transitions {
        transitions := transitions[from := map[]];
      }
      assert transitions[from] == row;
      if sym !in transitions[from] {
        transitions := transitions[from := transitions[from][sym := {}]];
      }
      assert transitions[from][sym] == targets;
      assert transitions[from][sym := targets + {to}] == row[sym := targets + {to}];
      transitions := transitions[from := transitions[from][sym := transitions[from][sym] + {to}]];
    }

    /** The loop that copies every row of another fragment's table into
        this one, after this one was built from a copy of the first
        operand's table. */
    method MergeTransitions(other: Table)
      modifies this
      ensures transitions == Overlay(old(transitions), other)
      ensures startState == old(startState) && acceptState == old(acceptState)
    {
      var pending := other.Keys;
      while pending != {}
        invariant pending <= other.Keys
        invariant transitions == Overlay(old(transitions), other - pending)
        invariant startState == old(startState) && acceptState == old(acceptState)
        decreases pending
      {
        var state :| state in pending;
        ghost var before := transitions;
        if state !in transitions {
          transitions := transitions[state := map[]];
        }
        ghost var base := transitions;
        MergeRow(state, other[state]);
        OverlayStep(old(transitions), other, pending, state, before, base);
        pending := pending - {state};
      }
      assert other - {} == other;
    }

    /** The inner loop of the merge: copy every symbol of `row` into the
        row of `state`. */
    method MergeRow(state: StateId, row: map<char, set<StateId>>)
      requires state in transitions
      modifies this
      ensures transitions == old(transitions)[state := old(transitions)[state] + row]
      ensures startState == old(startState) && acceptState == old(acceptState)
    {
      var symbols := row.Keys;
      assert row - symbols == map[];
      assert transitions[state] + map[] == transitions[state];
      assert transitions[state := transitions[state]] == transitions;
      while symbols != {}
        invariant symbols <= row.Keys
        invariant transitions == old(transitions)[state := old(transitions)[state] + (row - symbols)]
        invariant startState == old(startState) && acceptState == old(acceptState)
        decreases symbols
      {
        var symbol :| symbol in symbols;
        RowStep(old(transitions)[state], row, symbols, symbol);
        transitions := transitions[state := transitions[state][symbol := row[symbol]]];
        symbols := symbols - {symbol};
      }
      assert row - {} == row;
    }
  }

  lemma RowStep(row: map<char, set<StateId>>, o: map<char, set<StateId>>, symbols: set<char>, symbol: char)
    requires symbol in symbols && symbols <= o.Keys
    ensures (row + (o - symbols))[symbol := o[symbol]] == row + (o - (symbols - {symbol}))
  {
  }

  /** One row of the merge loop: `state` moves from pending to done. */
  lemma OverlayStep(t: Table, o: Table, pending: set<StateId>, state: StateId, before: Table, base: Table)
    requires pending <= o.Keys && state in pending
    requires before == Overlay(t, o - pending)
    requires base == if state in before then before else before[state := map[]]
    ensures Overlay(t, o - (pending - {state})) == base[state := base[state] + o[state]]
  {
    var lhs := Overlay(t, o - (pending - {state}));
    var rhs := base[state := base[state] + o[state]];
    assert lhs.Keys == rhs.Keys;
    forall s | s in lhs.Keys
      ensures lhs[s] == rhs[s]
    {
      if s == state {
        OverlayStepAt(t, o, pending, state, before, base);
      } else {
        OverlayStepOther(t, o, pending, state, before, base, s);
      }
    }
  }

  lemma OverlayStepAt(t: Table, o: Table, pending: set<StateId>, state: StateId, before: Table, base: Table)
    requires pending <= o.Keys && state in pending
    requires before == Overlay(t, o - pending)
    requires base == if state in before then before else before[state := map[]]
    ensures state in Overlay(t, o - (pending - {state}))
    ensures Overlay(t, o - (pending - {state}))[state] == base[state] + o[state]
  {
    var o1, o2 := o - pending, o - (pending - {state});
    assert state !in o1 && state in o2 && o2[state] == o[state];
    if state in t {
      assert before[state] == t[state];
    } else {
      assert state !in before;
    }
  }

  lemma OverlayStepOther(t: Table, o: Table, pending: set<StateId>, state: StateId, before: Table, base: Table,
                         s: StateId)
    requires pending <= o.Keys && state in pending
    requires before == Overlay(t, o - pending)
    requires base == if state in before then before else before[state := map[]]
    requires s in Overlay(t, o - (pending - {state})) && s != state
    ensures s in base && Overlay(t, o - (pending - {state}))[s] == base[s]
  {
    var o1, o2 := o - pending, o - (pending - {state});
    assert s in o2 <==> s in o1;
    if s in o2 {
      assert o2[s] == o1[s];
    }
  }
}
