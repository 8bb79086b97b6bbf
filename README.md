# Regex to NFA by Thompson's construction

This project models the conversion core of `nfa_gui.py` in Dafny and proves properties of it. The core turns a small infix regular-expression syntax into a non-deterministic finite automaton. The syntax has literals, concatenation, `|`, `*`, `+`, `?`, grouping with `(` `)`, and single-range character classes `[x-y]`. The conversion runs in three stages, and `regex_to_nfa` chains them:

1. `expand_character_classes` scans the pattern and rewrites each `[x-y]` into `(x|…|y)`. It copies every other character.
2. `infix_to_postfix` first inserts an explicit `.` between characters that are concatenated. It then runs a shunting-yard pass with the precedence table `* + ? : 3`, `. : 2`, `| : 1`, `( : 0`.
3. `postfix_to_nfa` evaluates the postfix string on a stack of NFA fragments. A literal becomes two fresh states joined by one edge. Each operator pops its operands and pushes a new fragment glued together with `ε` edges. State ids come from a counter that only counts up.

Each Python function that works by loops and mutation is a Dafny `method` with the same loops. Each method is proved equal to a specification function on values:

| method | specification function |
|---|---|
| `ExpandCharacterClasses` | `Expand` |
| `InsertConcatenation` | `Explicit` |
| `ShuntingYard` | `ToPostfix` |
| `PostfixToNfa` | `Build` |
| `RegexToNfa` | `RegexToNfaSpec` |

The properties are lemmas about those functions. The `NFA` class is `Automaton.Nfa`, with the fields `startState`, `acceptState` and `transitions`. Its `AddTransition` and merge-loop methods update the table in place. The closure cell `next_state_id` is the class `NfaBuilder.StateCounter`. Python's exceptions become `Errors.Result` values, and the error kinds are listed in `Errors.Error`.

Modules:

- `Errors`: the error kinds and the result type.
- `Automaton`: the transition table, `add_transition` as the function `Add`, the merge loop as the function `Overlay`, the value `Frag` of an NFA object, and the class `Nfa`.
- `ClassExpander`: stage 1.
- `PostfixConverter`: stage 2.
- `NfaBuilder`: stage 3, with the fragment rules, the stack evaluation `Step`, `BuildPrefix` and `Build`, and the imperative `PostfixToNfa`.
- `Pipeline`: `regex_to_nfa`.

## Behaviour as written

In these places the code is looser than one might expect. The model follows the code.

- A reversed range `[c-a]` expands to `()` rather than failing (lines 76-77). A pattern that is just `[c-a]` therefore reaches the builder with an empty postfix string, and it fails there with the empty-pop error (`Pipeline.ReversedRangeFails`).
- An unmatched `(` is not rejected. The final loop (lines 117-118) emits it to the output (`PostfixConverter.UnclosedParenExample`, `PostfixConverter.PostfixContents`). The builder then treats that `(` as a literal (`Pipeline.OpenParenIsLiteral`).
- A `)` with no open `(` fails because `stack.pop()` runs on an empty list (line 109). The model reports this as `PopFromEmptyList`, like every other failed pop.
- When more than one fragment remains at the end, `stack.pop()` returns the top one and drops the others without error (line 191; `NfaBuilder.SurplusDropped`).
- An empty postfix string, or an operator short of operands, fails with the empty-pop error (`NfaBuilder.BuildOutcome`, `NfaBuilder.UnderflowExamples`).

## Model

| member | source | states |
|---|---|---|
| `Automaton.Nfa.constructor` | nfa_gui.py:12-15 | the new object holds the given start, accept and table |
| `Automaton.Nfa.AddTransition` | nfa_gui.py:17-22 | the new table is `Add(old table, from, sym, to)`; start and accept are unchanged |
| `Automaton.AddEntries` | nfa_gui.py:17-22 | after `Add`, `to` is in `transitions[from][sym]`, every earlier target of that entry is kept, a missing row or symbol starts empty, and every other (state, symbol) entry is unchanged |
| `Automaton.AddEdges` | nfa_gui.py:17-22 | viewed as a set of labelled edges, `Add` adds exactly the edge `from --sym--> to`, and the mentioned states grow by exactly `from` and `to` |
| `Automaton.AddAllEdges` | nfa_gui.py:144-147 | a run of `add_transition` calls adds exactly the listed edges |
| `Automaton.Overlay` | nfa_gui.py:169-173 | the merged table has rows for exactly the states of both tables |
| `Automaton.OverlayEntries` | nfa_gui.py:169-173 | the merge keeps the rows only the first table has and copies the rows only the second has; on a row both have, its symbols are the union of both rows' symbols, the first table's other symbols keep their targets, and every symbol of the second table's row takes the second table's targets |
| `Automaton.OverlayDisjoint` | nfa_gui.py:169-173 | on tables over disjoint states, the merge is the plain union of the two maps |
| `Automaton.NonEmptyEdges` | nfa_gui.py:17-22 | the table has no empty target set exactly when every (state, symbol) entry holds at least one edge of the edge view |
| `Automaton.AddNonEmpty` | nfa_gui.py:17-22 | `add_transition` keeps every target set non-empty, since it adds the target to the set it creates |
| `Automaton.OverlayNonEmpty` | nfa_gui.py:169-173 | merging two tables without empty target sets gives one without empty target sets |
| `Automaton.AddAllNonEmpty` | nfa_gui.py:144-147 | a run of `add_transition` calls keeps every target set non-empty |
| `Automaton.UnionEdges` | nfa_gui.py:181-185 | joining tables over disjoint states unions their edge sets and their state sets |
| `Automaton.Nfa.MergeTransitions` | nfa_gui.py:169-173 | the loop over the other table's rows leaves `Overlay(old table, other)`; start and accept are unchanged |
| `Automaton.Nfa.MergeRow` | nfa_gui.py:172-173 | the loop over one row's symbols copies each symbol's targets over the row of `state`, and changes nothing else |
| `ClassExpander.CodeRange` | nfa_gui.py:76 | the list holds exactly the characters whose ordinals lie in `lo..hi`, in strictly ascending order, and it is empty when `lo > hi` |
| `ClassExpander.Join` | nfa_gui.py:77 | `'|'.join`: the result has length `2n-1`, the items sit at even positions and `|` at odd ones |
| `ClassExpander.CloseIndex` | nfa_gui.py:66-68 | the inner scan stops at the first `]` at or after `j`, or at the end of the pattern |
| `ClassExpander.ClassBody` | nfa_gui.py:71-79 | the class body succeeds exactly when it has three characters with `-` in the middle, and then yields the range text; it gives the invalid-class error exactly when it has three characters with a `-` elsewhere; it gives the unsupported-class error exactly when it is not three characters or has no `-` |
| `ClassExpander.ExpandCharacterClasses` | nfa_gui.py:60-84 | the scanner's result, error or text, is `Expand(regex)` |
| `ClassExpander.CopyThrough` | nfa_gui.py:81-83 | characters outside brackets are copied unchanged and in order |
| `ClassExpander.NoBracketUnchanged` | nfa_gui.py:64-84 | a pattern without `[` expands to itself |
| `ClassExpander.ExpandIdempotent` | nfa_gui.py:60-84 | expanding an expansion that holds no `[` changes nothing |
| `ClassExpander.ClassExpansion` | nfa_gui.py:65-80 | a well-formed `[x-y]` is replaced by `(` + the join of `x..y` + `)`, and the scan resumes after the `]` |
| `ClassExpander.UnmatchedBracketFails` | nfa_gui.py:66-70 | a scan that meets no `]` from its position on fails with the unmatched-bracket error at the first `[` it reaches |
| `ClassExpander.FirstBracketUnmatched` | nfa_gui.py:64-70 | a pattern whose first `[` has no `]` after it fails with the unmatched-bracket error, whatever precedes that `[` |
| `ClassExpander.RangeExamples` | nfa_gui.py:76-77 | the range text of `a-c` is `(a|b|c)`, and that of `c-a` is `()` |
| `ClassExpander.ExpandExamples` | nfa_gui.py:64-83 | `[a-c]` gives `(a|b|c)`, and `[c-a]` gives `()` |
| `ClassExpander.SurroundedClass` | nfa_gui.py:64-83 | the text around a class is copied: `x[a-c]y` gives `x(a|b|c)y` |
| `ClassExpander.ExpandErrorExamples` | nfa_gui.py:67-79 | `[a-z` is an unmatched bracket, `[-ab]` an invalid class, and `[abc]` and `[a-bc]` are unsupported classes |
| `PostfixConverter.InsertConcatenation` | nfa_gui.py:88-97 | the loop of pass 1 builds `Explicit(regex)` |
| `PostfixConverter.ExplicitPrefixLength` | nfa_gui.py:90-96 | after `n` characters, the output is `n` long plus one for each `.` inserted |
| `PostfixConverter.ExplicitPrefixGrows` | nfa_gui.py:90-96 | pass 1 only appends, so each earlier output is a prefix of each later one |
| `PostfixConverter.ExplicitAt` | nfa_gui.py:90-96 | input character `i` sits at its offset in the output, and it is followed by a `.` exactly when `NeedsConcat` holds of it and the next character |
| `PostfixConverter.ExplicitShape` | nfa_gui.py:88-97 | pass 1 keeps every input character in order; it inserts exactly one `.` between `c` and `nxt` if and only if `c` is not `(` or `|` and `nxt` is not `)`, `|`, `*`, `+` or `?`; it adds nothing else |
| `PostfixConverter.ExplicitExamples` | nfa_gui.py:90-97 | for any operands `x` and `y`: `xy` becomes `x.y`, `x*y` becomes `x*.y`, `(x)y` becomes `(x).y`, and `x|y`, `(x|y` and `x)` are unchanged |
| `PostfixConverter.Reverse` | nfa_gui.py:117-118 | emptying the stack outputs its elements top first |
| `PostfixConverter.PopToParenShape` | nfa_gui.py:107-108 | the loop at `)` moves a top part of the stack to the output, top first, and stops at a `(` or an empty stack |
| `PostfixConverter.PopToParenKeepsParen` | nfa_gui.py:107-108 | the loop at `)` pops no `(` |
| `PostfixConverter.PopByPrecedenceShape` | nfa_gui.py:111-112 | the loop at an operator moves a top part of the stack to the output, top first, until the top has a lower precedence |
| `PostfixConverter.PopByPrecedenceKeepsParen` | nfa_gui.py:101-112 | an operator's precedence is positive, so its loop never pops `(`, whose precedence is 0 |
| `PostfixConverter.ErrorPersists` | nfa_gui.py:109 | once pass 2 has failed, it stays failed with the same error |
| `PostfixConverter.ShuntingYard` | nfa_gui.py:99-120 | the pushes, pops and final emptying of pass 2 compute `ToPostfix(regex)` |
| `PostfixConverter.InfixToPostfix` | nfa_gui.py:86-120 | `infix_to_postfix` is pass 2 applied after pass 1 |
| `PostfixConverter.StepClose` | nfa_gui.py:106-109 | a `)` succeeds exactly when an unmatched `(` precedes it, and the invariant holds afterwards |
| `PostfixConverter.StepKeepsInv` | nfa_gui.py:103-115 | each character keeps the invariant: the stack holds only `(` and operators, the operands are output in input order, one `(` is stacked per unmatched `(`, no parenthesis is output, and every other character is output or stacked as often as it was read |
| `PostfixConverter.ShuntInvariant` | nfa_gui.py:103-115 | every prefix succeeds exactly when each `)` in it has an open `(` before it, and then satisfies the invariant; otherwise it fails with the empty-pop error |
| `PostfixConverter.PostfixFailsIff` | nfa_gui.py:106-109 | pass 2 fails if and only if some `)` is read with no open `(`, and then with the empty-pop error |
| `PostfixConverter.PostfixContents` | nfa_gui.py:103-120 | on success, the operands come out in input order, no `)` is output, each unmatched `(` is output once, and every other character is output as often as it occurs |
| `PostfixConverter.BinaryExample` | nfa_gui.py:110-118 | for `op` either `.` or `|`, `x op y` becomes `x y op` |
| `PostfixConverter.StarBeforeConcat` | nfa_gui.py:111-113 | a `.` read with `*` on the stack pops the `*` first, because of its higher precedence |
| `PostfixConverter.StarConcatExample` | nfa_gui.py:110-118 | `x*.y` becomes `x*y.` |
| `PostfixConverter.UnclosedParenExample` | nfa_gui.py:117-118 | `(x|y` becomes `xy|(`: the leftover `(` is emitted |
| `PostfixConverter.UnopenedParenExample` | nfa_gui.py:106-109 | `x)` fails with the empty-pop error |
| `PostfixConverter.InfixToPostfixExamples` | nfa_gui.py:86-120 | for any operands: `xy` gives `xy.`, `x|y` gives `xy|`, `x*y` gives `x*y.`, `(x|y` gives `xy|(`, and `x)` fails with the empty-pop error |
| `NfaBuilder.StateCounter.constructor` | nfa_gui.py:124 | the counter starts at 0 |
| `NfaBuilder.StateCounter.NewState` | nfa_gui.py:126-129 | `new_state` returns the counter's value and then increments it by one |
| `NfaBuilder.LiteralEdges` | nfa_gui.py:133-139 | a literal fragment has the single edge `s --c--> s+1` and the states `s` and `s+1` |
| `NfaBuilder.LiteralTable` | nfa_gui.py:133-139 | a literal fragment's table is `{s: {c: {s+1}}}` |
| `NfaBuilder.StarEdges` | nfa_gui.py:140-148 | `*` keeps the operand's edges and adds exactly: new start to operand start, operand accept back to operand start, new start to new accept, and operand accept to new accept, all `ε` |
| `NfaBuilder.PlusEdges` | nfa_gui.py:149-156 | `+` keeps the operand's edges and adds exactly three `ε` edges: new start to operand start, operand accept back to operand start, and operand accept to new accept |
| `NfaBuilder.OptionalEdges` | nfa_gui.py:157-164 | `?` keeps the operand's edges and adds exactly three `ε` edges: new start to operand start, operand accept to new accept, and new start to new accept |
| `NfaBuilder.ConcatEdges` | nfa_gui.py:165-175 | for operands with disjoint rows, `.` unions their edges and adds only `nfa1.accept ε→ nfa2.start`, where `nfa2` is the top of the stack |
| `NfaBuilder.UnionTableEdges` | nfa_gui.py:176-190 | for operands with disjoint rows, `|` unions their edges and adds exactly four `ε` edges: new start to both starts, and both accepts to new accept |
| `NfaBuilder.UnionTableKeys` | nfa_gui.py:176-190 | the table of `|` has rows for the operands' rows, the new start and both operand accepts |
| `NfaBuilder.LiteralShape` | nfa_gui.py:133-139 | a literal fragment is well formed: start differs from accept, no edge leaves the accept and no edge enters the start; it uses only the two fresh states |
| `NfaBuilder.StarShape` | nfa_gui.py:140-148 | `*` on a well-formed operand below `s` gives a well-formed fragment whose states are the operand's plus `s` and `s+1` |
| `NfaBuilder.PlusShape` | nfa_gui.py:149-156 | the same for `+` |
| `NfaBuilder.OptionalShape` | nfa_gui.py:157-164 | the same for `?` |
| `NfaBuilder.ConcatShape` | nfa_gui.py:165-175 | `.` of two well-formed operands, where the first has the smaller states, is well formed and uses only the operands' states |
| `NfaBuilder.UnionShape` | nfa_gui.py:176-190 | `|` of two such operands is well formed, and its states are the operands' plus the two fresh ones |
| `NfaBuilder.StepKeepsInv` | nfa_gui.py:133-190 | each character keeps the stack invariant: every fragment is well formed and uses only states below the counter, and deeper fragments use strictly smaller states; the counter never goes back |
| `NfaBuilder.BuildInvariant` | nfa_gui.py:131-190 | every stack the loop reaches satisfies that invariant |
| `NfaBuilder.StackDisjoint` | nfa_gui.py:124-190 | on every stack the loop reaches, the fragments have pairwise disjoint state sets |
| `NfaBuilder.StepNonEmpty` | nfa_gui.py:133-190 | each loop step keeps every fragment on the stack free of empty target sets |
| `NfaBuilder.BuildNonEmpty` | nfa_gui.py:124-190 | on every stack the loop reaches, no fragment's table holds an empty target set |
| `NfaBuilder.BuildWellFormed` | nfa_gui.py:122-191 | the returned fragment has distinct start and accept, no edge out of its accept and no edge into its start, and every entry of its table holds at least one target |
| `NfaBuilder.Arity` | nfa_gui.py:134-190 | an operator pops one or two fragments, and any other character pops none |
| `NfaBuilder.StepCounts` | nfa_gui.py:133-190 | one character succeeds exactly when the stack holds at least as many fragments as it pops; then the stack shrinks by the pops and grows by one, and the counter advances by 2, except for `.`; otherwise it fails with the empty-pop error |
| `NfaBuilder.PrefixOutcome` | nfa_gui.py:131-190 | a prefix of the postfix string succeeds exactly when no operator underflows the stack; then the stack height is the push and pop balance and the counter has minted two states per non-`.` character; otherwise it fails with the empty-pop error |
| `NfaBuilder.BuildOutcome` | nfa_gui.py:122-191 | `postfix_to_nfa` succeeds exactly when no operator underflows and at least one fragment remains; otherwise it fails with the empty-pop error |
| `NfaBuilder.BuildStates` | nfa_gui.py:124-191 | the result uses only states minted by the counter, which are below twice the number of minting characters |
| `NfaBuilder.FirstLiteral` | nfa_gui.py:133-139 | a first literal gets the states 0 and 1, and the counter moves to 2 |
| `NfaBuilder.SingleLiteral` | nfa_gui.py:122-191 | a one-literal postfix string gives start 0, accept 1 and the table `{0: {c: {1}}}` |
| `NfaBuilder.SurplusDropped` | nfa_gui.py:191 | with two fragments left, `ab` returns the top one, `b` on the states 2 and 3, without error |
| `NfaBuilder.UnderflowExamples` | nfa_gui.py:141-191 | `a|`, `*` and the empty postfix string fail with the empty-pop error |
| `NfaBuilder.ErrorPersists` | nfa_gui.py:133-190 | once a pop has failed, the evaluation stays failed |
| `NfaBuilder.NewLiteral` | nfa_gui.py:135-139 | the fresh object is `LiteralFrag` on the two states the counter mints |
| `NfaBuilder.NewStar` | nfa_gui.py:141-148 | the fresh object is `StarFrag` of the operand, on two minted states |
| `NfaBuilder.NewPlus` | nfa_gui.py:150-156 | the fresh object is `PlusFrag` of the operand, on two minted states |
| `NfaBuilder.NewOptional` | nfa_gui.py:158-164 | the fresh object is `OptionalFrag` of the operand, on two minted states |
| `NfaBuilder.NewConcat` | nfa_gui.py:166-175 | the fresh object is `ConcatFrag` of the operands, and the counter is untouched |
| `NfaBuilder.NewUnion` | nfa_gui.py:177-190 | the fresh object is `UnionFrag` of the operands, on two minted states |
| `NfaBuilder.ApplyChar` | nfa_gui.py:133-190 | one loop iteration over the stack of objects succeeds or fails exactly as `Step` does, with the same error; on success the counter and the objects' values match `Step`'s stack |
| `NfaBuilder.ApplyUnary` | nfa_gui.py:140-164 | the same for `*`, `+` and `?` |
| `NfaBuilder.ApplyBinary` | nfa_gui.py:165-190 | the same for `.` and `|` |
| `NfaBuilder.PostfixToNfa` | nfa_gui.py:122-191 | the method succeeds exactly when `Build` does; it then returns a fresh object whose value is `Build(postfix)`; otherwise it returns `Build`'s error |
| `Pipeline.RegexToNfa` | nfa_gui.py:193-197 | the composition succeeds exactly when `RegexToNfaSpec` does; it then returns a fresh NFA of that value; otherwise it returns the same error |
| `Pipeline.ErrorOrigin` | nfa_gui.py:193-197 | an expansion error is also the pipeline's error; once the expansion succeeds, the only possible error is the failed pop |
| `Pipeline.ResultWellFormed` | nfa_gui.py:193-197 | every automaton `regex_to_nfa` returns is well formed, and its table holds no empty target set |
| `Pipeline.NoBracketPattern` | nfa_gui.py:195 | a pattern without `[` goes to `infix_to_postfix` unchanged |
| `Pipeline.SingleCharacter` | nfa_gui.py:193-197 | a one-character operand pattern gives start 0, accept 1 and `{0: {c: {1}}}` |
| `Pipeline.OpenParenIsLiteral` | nfa_gui.py:193-197 | the pattern `(` gives one edge labelled `(` |
| `Pipeline.ReversedRangeFails` | nfa_gui.py:193-197 | `[c-a]` expands to `()`, whose postfix form is empty, so the final pop fails |
| `Pipeline.BracketErrorExamples` | nfa_gui.py:193-197 | one example per bracket error kind: `[a-z`, `[-ab]` and `[abc]` fail in the pipeline with the expansion's error |

## Left out

- The GUI from line 199 to the end of `nfa_gui.py` is not modelled. This covers tkinter, the message boxes, PIL images and the Graphviz render, which are all I/O and foreign libraries.
- `NFA.to_graphviz` (lines 24-55) is not modelled. It only formats text for an external renderer.
- The Python exception classes and their messages are not modelled. Each exception is an `Errors.Error` kind in an `Err` result. An `IndexError` from `list.pop()` is `PopFromEmptyList`.
- The shallow `dict(...)` copies (lines 143, 152, 160, 168, 180) are modelled as value copies. The inner maps they share with the discarded operands are never written to, because every `add_transition` after a copy starts from a fresh state or from an operand's accept state, and an accept state has no row (`NfaBuilder.BuildInvariant`). The merge loop at lines 170-173 writes only rows of the second operand's states, and the first operand's table holds none of those (`NfaBuilder.StackDisjoint`).
- `Automaton.Nfa.MergeTransitions` visits the rows in an arbitrary order, not in dict insertion order. The rows are disjoint, so the result does not depend on the order.
- `ClassExpander.CodeRange`: skips the surrogate code points U+D800 to U+DFFF, because Dafny's `char` cannot hold them. A range spanning them loses those characters, where Python's `chr` would produce them. For the same reason every pattern the model accepts is a sequence of Unicode scalar values: a Python `str` holding a lone surrogate has no counterpart in the model.
- `PostfixConverter.Precedence` is total. It gives 0 to characters the dictionary at line 101 does not hold. Only `(` and operators are ever looked up, because the stack holds nothing else (`PostfixConverter.StepKeepsInv`), so the difference is never observed.
- A literal `.`, `|`, `*`, `+`, `?`, `(`, `)` or `ε` in a pattern is not escaped, as in the source. Characters are dispatched exactly as in lines 104-115 and 134. A literal `ε` is therefore indistinguishable from an epsilon edge.
- `Automaton.Add`, `add_transition` on values, has no `ensures` of its own. Its full contract is the lemma `Automaton.AddEntries`, and the method `Automaton.Nfa.AddTransition` is tied to it.
