# DFA generator: a verified model

This project models a small Rust library in Dafny. The library turns a regular expression over an arbitrary symbol type into a deterministic automaton, in three stages:

1. **Expressions** (`src/regex.rs`). The `Regex` tree has five variants. It has three composition operators, a precedence table, and a renderer to conventional regex syntax that adds parentheses only where precedence needs them. The model is module `Regex`.
2. **NFA builder** (`src/re_to_nfa.rs`). This is Thompson-style compilation. It works by appending node tags and labelled edges to a graph arena and returns each fragment's exit node.
   - The model is module `Nfa`, over the graph types of module `Automaton`.
   - `Arena` is the graph as a value. `Graph` is the mutable object that the builder methods `Generate`, `Concatenation`, `Alternative`, `KleeneStar`, `Symbol`, `EmptyWord` and `Converter` change in place.
   - Each builder method is proved to produce exactly what the function `Compile` describes. The counting, append-only, well-formedness, labelling and shape lemmas are proved about `Compile`.
3. **DFA builder** (`src/nfa_to_dfa.rs`). It has two parts:
   - The frontier loop `closure`. Its theory, the frontiers, reachability, ε-closure and ε-cycles, is in module `Reach`.
   - The subset construction `converter`, with its work queue and its two parallel lists of subsets and nodes. This is in module `Dfa`.

   The loops are `while` loops with invariants. Each is proved against the functions that define its result: `Successors`, `Frontier`, `Collected`, `EpsClosure`, `AlphabetOf` and `DfaTag`.

   The construction's end state is the predicate `SubsetAutomaton`. It says:
   - the nodes stand for distinct, ε-closed subsets, the first being the closure of the start node;
   - every edge carries a symbol and leads to the closure of that symbol's successors;
   - every node has exactly one edge per symbol of its subset;
   - every node is reached from an earlier one;
   - there are at most 2^n nodes, for an NFA with n nodes.

Module `Language` gives both automata a meaning:
- The DFA graph is run by following edges.
- The NFA is run on subsets of its nodes.
- The subset automaton accepts a word iff the NFA does, except for words that lead back to the start subset, whose node keeps the start tag.

Module `Pipeline` composes the stages, as the command-line example does. For every expression whose NFA has no ε-cycle, it shows that the DFA accepts exactly the non-empty words the NFA accepts.

Module `Samples` holds concrete instances:
- renderings of small expressions;
- `Star(Empty)`, on which the closure loop never stops;
- `A(B|C)D`, the expression of the command-line example. Its DFA has five nodes and accepts exactly `ABD` and `ACD`, whatever the order in which the hash sets are iterated.

Where the code differs from what its names suggest, the model follows the code:
- The empty expression renders as the two characters `Îµ`, as written in `src/regex.rs:73`, not as `ε`.
- The DFA builder's `State::Initial` is the NFA's `State::Start`. The code names a variant that the `State` enum does not have, and the model uses the one start tag.
- The DFA builder takes the *last* node tagged as the start. With several start nodes it does not panic.
- The DFA's start node is always tagged with the start tag, so the DFA never accepts the empty word. For the same reason, the NFA and the DFA this library builds accept the same language only for non-empty words.

## Model

| member | source | states |
|---|---|---|
| `Regex.Regex.Precedence` | src/regex.rs:13-21 | Precedence is between 1 and 5. It is 5 exactly for literals and the empty expression, and 1 exactly for alternation. |
| `Regex.PrecedenceOrder` | src/regex.rs:13-21 | Alternation binds less tightly than concatenation, concatenation less than star, and star less than the atoms, which share precedence 5. |
| `Regex.Regex.Starred` | src/regex.rs:22-24 | `star` wraps the expression itself, unchanged, in a `Star`. |
| `Regex.Regex.Concatenate` | src/regex.rs:25-27 | `concatenate` builds a `Concatenation` of the two operands, in order and unchanged. |
| `Regex.Regex.Alternate` | src/regex.rs:28-30 | `alternate` builds an `Alternative` of the two operands, in order and unchanged. |
| `Regex.Render` | src/regex.rs:33-76 | The `Display` rendering, with `Operand` wrapping an operand in parentheses exactly when its precedence is below its context's. Its own contract says an alternation's text contains `\|` and a star's text ends in `*`. `RenderLiteral`, `RenderEmpty`, `RenderAlternative`, `RenderConcatenation`, `RenderStar` and `RenderStarStar` give each case, and `RenderBalanced` gives the balance of parentheses. |
| `Regex.RenderLiteral` | src/regex.rs:36 | A literal renders as the symbol's own display, never wrapped. |
| `Regex.RenderEmpty` | src/regex.rs:73 | The empty expression renders as the fixed two-character text `Îµ`. |
| `Regex.RenderAlternative` | src/regex.rs:37-49 | Both operands of an alternation render bare, joined by `\|`. |
| `Regex.RenderConcatenation` | src/regex.rs:51-63 | In a concatenation an operand is parenthesised iff it is an alternation. |
| `Regex.RenderStar` | src/regex.rs:64-71 | Under a star the operand is parenthesised iff it is an alternation or a concatenation, and a `*` follows. |
| `Regex.RenderStarStar` | src/regex.rs:64-71 | A star of a star is never parenthesised: an atom `a` renders as `a**`. |
| `Regex.RenderBalanced` | src/regex.rs:33-76 | Every rendering has balanced parentheses when no symbol's display contains one. |
| `Nfa.Compile` | src/re_to_nfa.rs:59-126 | Compilation adds exactly Size(e) nodes tagged Standard and EdgeCount(e) edges. It keeps every existing tag and edge, and the exit is one of the new nodes. |
| `Nfa.CompileEdges` | src/re_to_nfa.rs:73-126 | Every edge compilation adds leaves the entry or a new node and enters a new node. |
| `Nfa.CompileLabels` | src/re_to_nfa.rs:65 | Every symbol edge compilation adds carries a literal of the expression. |
| `Nfa.CompileEmptyEdges` | src/re_to_nfa.rs:94-124 | Compilation adds an empty edge iff the expression is not a chain of literals joined by concatenation. `Empty`, alternation and star each add one. |
| `Nfa.AlternativeShape` | src/re_to_nfa.rs:85-98 | An alternation exits at its first new node, the join. Exactly two of its new edges enter the join, both empty: the one after the left branch and the last one. |
| `Nfa.StarShape` | src/re_to_nfa.rs:100-110 | A star exits where its body exits, never at its loop node. Its last two edges are the empty back edge to the loop and the empty edge from the entry. |
| `Nfa.NfaOf` | src/re_to_nfa.rs:51-57 | The value form of `converter`. It gives 1 + Size(e) nodes and EdgeCount(e) edges. Node 0 is the start, the compiled exit is a later node tagged Final, and every other node is Standard. `NfaShape` adds well-formedness, that no edge enters node 0, and the labels. |
| `Nfa.NfaShape` | src/re_to_nfa.rs:51-57 | The NFA is well-formed, with 1 + Size(e) nodes and EdgeCount(e) edges. Node 0 is the only start node. Exactly one other node, the compiled exit, is Final. No edge enters node 0, and every symbol label is a literal of `e`. |
| `Nfa.Generate` | src/re_to_nfa.rs:59-71 | In place on the graph, it produces exactly the graph and exit that `Compile` describes. |
| `Nfa.Concatenation` | src/re_to_nfa.rs:73-83 | The second operand is compiled from the first's exit, as `Compile` describes for a concatenation. |
| `Nfa.Alternative` | src/re_to_nfa.rs:85-98 | The join node is made first, both branches are compiled from the same entry, and each is joined by an empty edge, as `Compile` describes. |
| `Nfa.KleeneStar` | src/re_to_nfa.rs:100-110 | The loop node gets the body, the back edge and the entry edge, and the body's exit is returned, as `Compile` describes. |
| `Nfa.Symbol` | src/re_to_nfa.rs:112-120 | One new node is reached by one symbol edge, as `Compile` describes. |
| `Nfa.EmptyWord` | src/re_to_nfa.rs:122-126 | One new node is reached by one empty edge, as `Compile` describes. |
| `Nfa.Converter` | src/re_to_nfa.rs:51-57 | The result is `NfaOf(e)`: a start node, the expression compiled from it, and its exit retagged Final. |
| `Reach.SuccessorsMember` | src/nfa_to_dfa.rs:105-114 | A node is a successor of a set for a label iff some edge with that label leads to it from a member. |
| `Reach.CollectedIsEpsClosure` | src/nfa_to_dfa.rs:96-117 | Once a frontier is empty, what the loop has collected is the ε-closure. |
| `Reach.EpsClosureClosed` | src/nfa_to_dfa.rs:96-117 | The ε-closure contains the set, stays within the nodes, and has no empty edge leaving it. |
| `Reach.EpsClosureLeast` | src/nfa_to_dfa.rs:96-117 | The ε-closure lies within every ε-closed superset of the set. |
| `Reach.EpsClosureIdempotent` | src/nfa_to_dfa.rs:91-119 | The closure of a closure is the closure. |
| `Reach.EpsClosedFixpoint` | src/nfa_to_dfa.rs:91-119 | An ε-closed set is its own closure. |
| `Reach.CycleNeverEmpties` | src/nfa_to_dfa.rs:103-117 | When a cycle of label edges is reachable, no frontier is ever empty, so the loop does not stop. |
| `Reach.FrontierEmptiesIff` | src/nfa_to_dfa.rs:102-117 | Some frontier is empty, which means the loop stops, iff no cycle of label edges is reachable. |
| `Reach.EpsAcyclicIff` | src/nfa_to_dfa.rs:102-117 | `EpsAcyclic` holds iff no node lies on a cycle of empty edges. |
| `Reach.AcyclicBound` | src/nfa_to_dfa.rs:102-117 | Without ε-cycles, the frontier from any set of nodes is empty after as many rounds as there are nodes. |
| `Dfa.EdgeTargets` | src/nfa_to_dfa.rs:106-113 | The scan over the edges of one node collects exactly that node's successors for the label. |
| `Dfa.Step` | src/nfa_to_dfa.rs:104-115 | One round of the frontier loop computes exactly the successors of the frontier. |
| `Dfa.Closure` | src/nfa_to_dfa.rs:91-119 | The result holds the input (for the empty label) and every node reachable by one or more label edges, and nothing else. For the empty label it is the ε-closure. It requires that the loop stops. |
| `Dfa.FindStart` | src/nfa_to_dfa.rs:24-29 | With no start node the result is None (the Rust code panics). Otherwise it is the last node tagged as the start. |
| `Dfa.UniqueStart` | src/nfa_to_dfa.rs:24-29 | When node 0 is the only start node, the scan finds node 0 and only node 0. |
| `Dfa.AlphabetMember` | src/nfa_to_dfa.rs:47-53 | A label is in a set's alphabet iff it is a symbol (not empty) that leads somewhere from the set. |
| `Dfa.EdgeLabels` | src/nfa_to_dfa.rs:48-52 | The scan over one node's edges collects exactly its symbol labels. |
| `Dfa.Alphabet` | src/nfa_to_dfa.rs:44-53 | The loop over the subset collects exactly the subset's alphabet. |
| `Dfa.AcceptTag` | src/nfa_to_dfa.rs:73-78 | The new node's tag is Final iff some node of the subset is Final, and Standard otherwise. |
| `Dfa.Position` | src/nfa_to_dfa.rs:67-68 | The result is None iff the subset is absent. Otherwise it is the first index holding the subset. |
| `Dfa.FirstPosition` | src/nfa_to_dfa.rs:45-46 | In the list of distinct subsets, the first position of the dequeued subset is its own index, so `nodes[i]` is its node. |
| `Dfa.PowerSetCard` | src/nfa_to_dfa.rs:79-80 | The subsets of n nodes are at most 2^n. |
| `Dfa.SubsetsBound` | src/nfa_to_dfa.rs:79-80 | Distinct subsets of the NFA's nodes are at most 2^n. |
| `Dfa.UnmetShrinks` | src/nfa_to_dfa.rs:42-43 | Growing the list of subsets never increases the number of subsets not yet met, and adding a new one decreases it. This is the loop's termination measure. |
| `Dfa.BuiltInit` | src/nfa_to_dfa.rs:30-41 | The start subset, with its one node tagged as the start, is a valid initial state of the construction. |
| `Dfa.TargetSet` | src/nfa_to_dfa.rs:56-66 | The target of a symbol is the ε-closure of its successors: it is ε-closed and lies within the NFA's nodes. |
| `Dfa.ExistingTarget` | src/nfa_to_dfa.rs:67-71 | An edge to a subset already present keeps every invariant of the construction. |
| `Dfa.NewTarget` | src/nfa_to_dfa.rs:72-86 | Appending a new non-empty, ε-closed subset, with a node tagged by its finality and an edge to it, keeps every invariant. |
| `Dfa.AddTransition` | src/nfa_to_dfa.rs:56-86 | A symbol's edge is added, and its target subset and node are appended if new. The lists only grow, the queue stays the unprocessed suffix of the subsets, and `nodes[i] == i` holds throughout. |
| `Dfa.AddTransitions` | src/nfa_to_dfa.rs:55-87 | After the loop over the alphabet, every symbol of the current subset has its one edge. |
| `Dfa.BuiltDone` | src/nfa_to_dfa.rs:42-88 | When the queue is empty, every subset has been handled and the graph is the finished subset automaton. |
| `Dfa.Converter` | src/nfa_to_dfa.rs:21-90 | It fails iff there is no start node. Otherwise the graph is the subset automaton of the closure of the last start node: distinct ε-closed subsets, non-empty after the first, and tags by finality except the start's. Labels are symbols following closed successors, each node has one edge per symbol of its subset, and there are at most 2^n nodes. |
| `Dfa.DfaFacts` | src/nfa_to_dfa.rs:39-86 | The subset automaton is a deterministic graph: well-formed, node 0 alone tagged as the start, no empty labels, at most one edge per label from a node, and at most 2^n nodes. Each other node is Final iff its subset holds a Final node. |
| `Dfa.ToDfa` | src/nfa_to_dfa.rs:14-18 | The public conversion fails iff there is no start node. Otherwise it returns the subset automaton of the last start node, with the same subsets that `Dfa.Converter` proves, and that automaton is deterministic, as `IsDfa` states. |
| `Language.NextSpec` | src/nfa_to_dfa.rs:71 | Following a label from a node succeeds iff some edge with that label leaves the node, and it leads to that edge's target. |
| `Language.WalkSubsets` | src/nfa_to_dfa.rs:55-87 | Reading a word in the subset automaton ends at the node of the subset the NFA reaches, and gets stuck only where that subset is empty. |
| `Language.SubsetLanguage` | src/nfa_to_dfa.rs:21-90 | The subset automaton accepts a word iff the NFA accepts it and the word does not lead back to the start subset. |
| `Language.SubsetsIn` | src/nfa_to_dfa.rs:55-87 | Every subset of the automaton lies in any family that holds the start subset and is closed under non-empty steps. |
| `Language.SubsetsComplete` | src/nfa_to_dfa.rs:55-87 | Every non-empty subset a symbol leads to from a subset of the automaton is itself one of its subsets. |
| `Pipeline.NoEntryMove` | src/re_to_nfa.rs:51-57 | In an NFA with no edge into node 0, reading a non-empty word never leaves the NFA in node 0. |
| `Pipeline.RegexToDfa` | src/bin.rs:19 | For an expression whose NFA has no ε-cycle, `to_nfa` then `to_dfa` always yields a DFA (there is always a start node). Each node other than the first is Final iff its subset holds the compiled exit. It accepts exactly the non-empty words the NFA accepts. |
| `Samples.ExampleRenders` | src/regex.rs:51-63 | `(B\|C)` followed by `D` renders as `(B\|C)D`, the example as `A(B\|C)D`, a doubled star of a literal as `A**`, and a star of the empty expression as `Îµ*`. |
| `Samples.StarEmptyDiverges` | src/nfa_to_dfa.rs:103-117 | For `Star(Empty)` an ε-cycle is reachable from the start, no frontier is ever empty, and the NFA is not ε-acyclic. The closure loop keeps no set of visited nodes. |
| `Samples.ExampleNfaIs` | src/bin.rs:13-18 | The NFA of `A(B\|C)D` is the six-node graph whose B and C branches join at node 2 by empty edges, with node 5 Final. |
| `Samples.ExampleLanguage` | src/bin.rs:13-19 | That NFA accepts exactly `ABD` and `ACD`. |
| `Samples.ExampleNodes` | src/nfa_to_dfa.rs:42-88 | Any subset automaton of that NFA has exactly the five subsets {0}, {1}, {2,3}, {2,4} and {5}, in whatever order, and so five nodes. |
| `Samples.ExampleDfa` | src/nfa_to_dfa.rs:42-88 | Any subset automaton of that NFA has five nodes and accepts exactly `ABD` and `ACD`, whatever the numbering. |
| `Samples.CommandLineExample` | src/bin.rs:12-21 | The example's expression, converted to an NFA and then to a DFA, gives five nodes and accepts exactly `ABD` and `ACD`. |

## Left out

- `Debug` formatting of `State`, `BranchLabel` and whole graphs (src/re_to_nfa.rs:14-37), and the printing in `main` (src/bin.rs:20): these are output only.
- petgraph is replaced by the arena of `Automaton`: nodes are positions in a sequence of tags, and edges are records in insertion order.
  - `neighbors` followed by `edges_connecting` becomes one scan over the edges.
  - The early exit `break` in `closure` (src/nfa_to_dfa.rs:111), which only avoids inserting the same node twice, is not modelled.
- Hash-set iteration order is left open. The loops pick an arbitrary element (`:|`), and the results are stated up to node numbering.
- Memory and `clone` costs, and the `NFA`/`DFA` wrapper structs, which only hold the graph.
- The meaning of a regular expression as a set of words is not defined. Acceptance is defined for the automata only, with the NFA run on subsets of its nodes rather than along paths. `Star` compiles to one or more repetitions of its body (src/re_to_nfa.rs:105-109), so no claim is made that it accepts the empty word.
- `Dfa.Converter`: requires that no node of the NFA lies on a cycle of empty edges. The Rust `closure` hangs only when such a cycle is reachable from a subset it actually closes, so this is slightly stronger than what the Rust code needs. For the NFAs the library builds, every node is reachable from the start.
- `Dfa.ToDfa`: carries the same requirement as `Dfa.Converter`.
- `Pipeline.RegexToDfa`: carries the same requirement, stated for the NFA of the expression.
- `Dfa.FindStart`: the panic of `start.unwrap()` without a start node is modelled as a `None` result. `Dfa.Converter` passes that result on.
- `Regex.Render`: returns a plain string. The Rust `fmt` passes each formatter error on with `?` (src/regex.rs:39-70), and a writer that fails is not modelled.
- Node and edge indices are unbounded `nat`s. petgraph's `NodeIndex<u32>` makes `add_node` and `add_edge` panic once the 32-bit index space is used up, and that limit is not modelled.
