# A verified model of the shader linter's analyses

This project models the algorithmic core of a shader linter and proves what it is for. The main part is
the control-flow analysis: the builder that turns a syntax tree into basic blocks, the iterative
dominator computation, and the queries rules ask of the result. Around it stand the uniformity analysis,
the suppression scanner, the fix rewriter, the path-glob matcher with the configuration lookup, the
walk that drives the rules, the recogniser of written-out dot products, the line table, and the tar
reader of the editor extension.

Code that changes state is modelled by classes and methods with loops; each method is proved against a
specification, and the specification has its meaning proved by lemmas.

## The files

| file | content |
|---|---|
| `Graph.dfy` | basic blocks, paths, reachability, dominance |
| `DepthFirst.dfy` | the two-phase depth-first search and its reverse postorder |
| `DominatorTree.dfy` | the invariants of the dominator rounds, exactness and progress of their fixpoint |
| `Dominators.dfy` | `intersect`, predecessors, the rounds, the whole computation |
| `CfgQueries.dfy`, `CfgInfo.dfy` | reachability, dominance and barrier queries, on blocks and on global ids |
| `CfgStorage.dfy` | functions, blocks and their dense global ids |
| `Syntax.dfy`, `Statements.dfy` | syntax trees; structured statements and what an execution of them does |
| `CfgShape.dfy`, `CfgBuilder.dfy`, `FunctionGraph.dfy` | the builder as a function and as a class; what its graphs promise |
| `SyntaxMeaning.dfy`, `FunctionList.dfy` | executions told on the syntax, and what the graph of a function has to do with them; which definitions are functions |
| `CfgMarks.dfy` | barrier, exit and discard marks, spans of blocks |
| `CfgMeaning.dfy`, `CfgExact.dfy`, `CfgReducible.dfy` | every execution is a path, every path is an execution, every graph is reducible |
| `Uniformity.dfy`, `UniformityTable.dfy`, `UniformityMeaning.dfy` | the classifier and its walks; what the finished tables hold; what that means on the syntax |
| `Lexer.dfy`, `Markers.dfy`, `Suppress.dfy`, `MarkerScopes.dfy` | a character-at-a-time lexer, the marker language, the jumping scanner; what a marker silences |
| `Rewriter.dfy` | selection and splicing of fixes |
| `Glob.dfy`, `GlobComponents.dfy` | the glob matcher and its language, and the documented reading of `**` |
| `Config.dfy` | severities and the filter on diagnostics |
| `TreeWalk.dfy` | the cursor walk that calls the rules |
| `Dot4.dfy` | recognising a dot product |
| `LineTable.dfy` | lines and columns |
| `Tar.dfy` | extracting one file from a ustar archive |
| `Options.dfy`, `Severities.dfy` | the optional value; how grave a finding is |

## Main results

* **Dominators.** On every graph the computation ends, and every reachable block has its immediate
  dominator (`Dominators.ComputeDominators`); so the query answers "every path from the entry passes
  through `a`" exactly (`CfgQueries.DominatesQuery`). On reducible graphs the second round changes
  nothing, and every graph the builder makes is reducible (`FunctionGraph.BuiltBlocksReducible`).
* **The graph means the function.** The step sequences along paths from the entry to an exit block are
  exactly those of the executions of the function, told on its syntax by kinds, fields and named children
  (`SyntaxMeaning.GraphMeansFunction`, both directions, early returns and any number of iterations included).
  A `switch` runs one of its cases, or is passed by when it has no children; `FunctionGraph.NoCaseTaken` and
  `FunctionGraph.JoinIsReached` say what follows from that. Marks and spans of blocks are those of the statements
  that fall into them or make them (`CfgMarks.MarksFit`, `CfgMarks.BlocksHaveSpans`).
* **Queries.** Reachability and barrier separation are if-and-only-if statements over all paths
  (`CfgQueries.Reachable`, `CfgQueries.BarrierSeparates`), lifted to global ids in `CfgInfo`.
* **Uniformity.** A class is the least upper bound of the atomic expressions that contribute to it, which is
  Divergent exactly for what hangs on a system value, a lane intrinsic or an identifier of a divergent parameter
  (`UniformityMeaning.TablesTell`); the table tells it for every named node exactly when named nodes with one
  span agree, which well-spanned trees guarantee; more divergent names only raise entries.
* **Suppressions.** The jumping scanner contributes exactly the line comments a character-at-a-time
  lexer sees; a printed marker silences exactly the rules it names, exactly on its line, in the braces or on
  the line of code that follow, or in the whole file (`MarkerScopes.SilencedExactly`).
* **Fixes.** The accepted fixes are the priority-greedy ones, graver severities first, whole and apart, and with distinct
  priorities independent of the order of the input; splicing them from the back is making all edits at once
  on the original text, so that the text, too, does not depend on that order (`Rewriter.OutcomesAgree`).
* **Globs, walk, dot products, lines, archives.** The matcher decides the language of the tokenised
  pattern; the cursor calls each rule on each named node once and in document order; where the dot
  product rule fires, the sum is the dot product plus the rest, and it fires or not alike for every order and
  bracketing of the same terms; lines and columns are inverse to offsets; extraction undoes archiving, and
  ends exactly when it never comes back to a header.

## Where the code and its comments differ

The model follows the code.

* `core/include/shader_clippy/control_flow.hpp:106-110` says a block dominates another when every path
  from the entry passes through it. For a block no path reaches, that holds of every `a`, but the code
  answers yes only for `a == b` and for the entry. `CfgQueries.AnswerIsDominance` says exactly when the two agree,
  and `CfgInfo.CodeBehindReturn` shows functions on which they do not.
* `core/include/shader_clippy/control_flow.hpp:112-116` speaks of a barrier block on every path. A barrier in the
  first block does not count, and a block is never separated from itself; `CfgQueries.FirstBlockDecides` says what that changes.
* `core/include/shader_clippy/config.hpp:197-202` promises that `**` matches whole path components. The code also cuts
  components (`Glob.GlobStarCutsComponents`). Where each `**` of a pattern is a component of its own,
  `GlobComponents.ReadingsAgreeExactly` says exactly when the promise is kept.
* The same lines promise that letters compare without case on Windows. That is kept exactly for the patterns that
  spell out no letter (`GlobComponents.IgnoresCaseExactly`).
* `core/src/control_flow/cfg_builder.cpp:313-314` says the selector of a switch can fall through when no case matched. The edge
  is there only for a switch without any named child (`FunctionGraph.NoCaseTaken`), so code behind a switch that has children
  but no case label directly among them hangs in the air (`FunctionGraph.NothingFollowsHiddenCases`).
* `core/src/control_flow/uniformity_analyzer.cpp:86-88` draws `Uniform` and `LoopInvariant` side by side; `join` puts
  `LoopInvariant` above `Uniform`, which makes the lattice a chain.
* `core/src/suppress.cpp:249-286` speaks of the next non-blank line. A line holding only a carriage return is not
  blank to this loop; `Suppress.CodeLineHoldsToken` says exactly when that changes the line, and
  `Suppress.BlankLineTakenForCode` shows a marker that misses its code for it.
* `vscode-extension/src/download.ts:167` speaks of two zero blocks at the end of an archive. The loop stops at the first:
  `Tar.ZeroBlockHidesAll` shows what that loses, and `Tar.PatienceMatters` says when nothing is lost.
* `core/src/control_flow/dominators.cpp:171-173` says unreachable blocks keep no parent; line 176 gives them the entry.

## Conventions

* `BasicBlock.steps` exists in the model only. It lists what falls into a block, so that the meaning of
  a path can be stated; no operation reads it.
* Text is a sequence of characters that stand for bytes. Offsets, sizes and counts are unbounded: sources of
  4 GiB and more, where the 32-bit casts of the code would wrap, are outside the model. The number of blocks of
  a function is at most 2^32 - 1 where the value 2^32 - 1 marks a missing parent.
* A syntax tree is a datatype: kind, span, field, children. A null node is `None`, or a missing child.
* Branches the code guards against and never takes are kept where they decide something and left out
  where they cannot: the range check on a stacked node in the depth-first search, the bail-outs of
  `intersect`, the guard that ends the parent walk. The proofs show that they are never taken.
* The two searches of `barrier_separates` and the one of `reachable` are one method here, as are the two
  loops that look for the next code line.
* Sorting is insertion sort; `Rewriter.BeforeIsStrictOrder` shows that the order of fixes is strict and
  total, so that any sort gives the same result. The order of accepted edits compares only where they start, and
  `Rewriter.TieOrderMatters` says when the order of two edits with one start decides the text.

## Model

| member | source | states |
|---|---|---|
| DepthFirst.ComputeReversePostorder | core/src/control_flow/dominators.cpp:22-58 | the order lists exactly the blocks the entry reaches, each once, entry first; every edge among them goes forward in it or leads to a depth-first ancestor; the search ends on cyclic graphs |
| DepthFirst.DiscoveryKeepsOrder | core/src/control_flow/dominators.cpp:47-50 | pushing an unseen successor keeps the finishing order of all finished blocks right |
| DepthFirst.FinishKeepsOrder | core/src/control_flow/dominators.cpp:51-54 | finishing the topmost block puts it behind every successor that is not its ancestor |
| DepthFirst.SearchDone | core/src/control_flow/dominators.cpp:56-57 | when the stack is empty, the reversed finishing order is a depth-first order |
| Dominators.Intersect | core/src/control_flow/dominators.cpp:63-95 | climbing from two processed blocks ends at their lowest common ancestor in the parent tree, and never bails out |
| Dominators.ComputePredecessors | core/src/control_flow/dominators.cpp:99-108 | a block is listed for another exactly when there is an edge from it, out-of-range successors aside |
| Dominators.NumberPostorder | core/src/control_flow/dominators.cpp:134-139 | the numbers run against the positions in the order; every listed block but the entry has a predecessor listed before it |
| Dominators.MeetOfPredecessors | core/src/control_flow/dominators.cpp:150-163 | the candidate parent is the lowest common ancestor of all predecessors processed so far, and there is one |
| Dominators.Round | core/src/control_flow/dominators.cpp:144-169 | one pass keeps the invariants; it reports a change only when the table came strictly closer to its fixpoint, and none exactly when every parent agrees with all predecessors |
| Dominators.RunRounds | core/src/control_flow/dominators.cpp:144-169 | the rounds end on every graph; at most two when retreating edges lead to dominators |
| Dominators.FillUndefined | core/src/control_flow/dominators.cpp:174-179 | exactly the blocks without a parent get the entry |
| Dominators.ComputeDominators | core/src/control_flow/dominators.cpp:112-180 | afterwards every reachable block has its immediate dominator, on every graph, reducible or not; reducible graphs take at most two rounds; skipped functions keep or get a table of the right size |
| DominatorTree.MeetMovesUp | core/src/control_flow/dominators.cpp:164-167 | a new parent is a proper ancestor of the old one, earlier in the order |
| DominatorTree.VisitKeepsForwardPredsBelow | core/src/control_flow/dominators.cpp:148-168 | a block above a visited block stays above all its forward predecessors, because nothing on that chain is visited again in between |
| DominatorTree.VisitKeepsInvariant | core/src/control_flow/dominators.cpp:148-168 | visiting one block keeps every invariant of the round |
| DominatorTree.DominatesAncestor | core/src/control_flow/dominators.cpp:148-168 | a dominator earlier in the order than an ancestor dominates the ancestor: true dominators are never lost from a chain |
| DominatorTree.ChainDominates | core/src/control_flow/dominators.cpp:144-169 | at the fixpoint every block on a parent chain lies on every path from the entry |
| DominatorTree.StableTableIsExact | core/src/control_flow/dominators.cpp:144-169 | at the fixpoint the parent of a reachable block is its immediate dominator |
| DominatorTree.RoundIsExact | core/src/control_flow/dominators.cpp:144-169 | when retreating edges lead to dominators, the first round is already the fixpoint |
| DominatorTree.StableVisit | core/src/control_flow/dominators.cpp:164-167 | visiting a block at the fixpoint changes nothing |
| DominatorTree.VisitMakesProgress | core/src/control_flow/dominators.cpp:144-169 | every change makes the sum of parent positions smaller, so the rounds end |
| CfgQueries.ClimbNeverRepeats | core/src/control_flow/cfg_storage.cpp:87-114 | climbing from a reachable block along the parents stays reachable, each block dominates those passed before it, and before the entry no block comes twice: the guard is never what ends the loop |
| CfgQueries.Search | core/src/control_flow/cfg_storage.cpp:62-79 | the worklist loop finds the target exactly when a path leads to it, avoiding barrier blocks if asked to, and ends on cyclic graphs |
| CfgQueries.Reachable | core/src/control_flow/cfg_storage.cpp:53-81 | yes exactly when some path leads from one block to the other; no for blocks out of range |
| CfgQueries.BarrierSeparates | core/src/control_flow/cfg_storage.cpp:120-195 | yes exactly when the blocks differ, the second is reachable, and every path has a barrier block after its first block |
| CfgQueries.FirstBlockDecides | core/include/shader_clippy/control_flow.hpp:112-116 | counting the first block too would separate a first block with a barrier from all it reaches; the answer changes exactly when it has the only barrier on some path |
| CfgQueries.FirstBarrierDoesNotCount | core/include/shader_clippy/control_flow.hpp:112-116 | a concrete graph where every path starts in a barrier block and the answer is still no |
| CfgQueries.DominatesQuery | core/src/control_flow/cfg_storage.cpp:87-114 | for reachable blocks exactly dominance; exact answers for unreachable blocks, blocks out of range, and a missing table |
| CfgQueries.AnswerIsDominance | core/include/shader_clippy/control_flow.hpp:106-110 | the answer is dominance exactly for the reachable blocks, for the block itself and for the entry; a yes is never wrong |
| CfgInfo.CodeBehindReturn | core/include/shader_clippy/control_flow.hpp:106-110 | in every function whose body is two returns, the block of the first dominates the unreachable last one and the answer is no |
| CfgInfo.ReachableFrom | core/src/control_flow/cfg_storage.cpp:213-227 | the same on global ids: no for invalid ids and for blocks of different functions |
| CfgInfo.DominatesBlock | core/src/control_flow/cfg_storage.cpp:229-243 | the same on global ids |
| CfgInfo.BarrierBetween | core/src/control_flow/cfg_storage.cpp:245-259 | the same on global ids |
| CfgInfo.ComputeAllDominators | core/src/control_flow/dominators.cpp:182-187 | all functions but the sentinel get exact tables; the blocks stay as they are |
| CfgInfo.BuildWithTree | core/src/control_flow/engine.cpp:97-107 | from a syntax tree to a storage that holds one finished, analysed function for each definition, in order |
| CfgStorage.CfgStorage.AllocateBlockId | core/src/control_flow/cfg_storage.cpp:17-23 | ids are handed out in order, starting at one |
| CfgStorage.CfgStorage.AppendBlock | core/src/control_flow/cfg_builder.cpp:128-136 | a new block of the newest function keeps all ids dense, and enters the span table with its id |
| CfgStorage.CfgStorage.GlobalId | core/src/control_flow/cfg_storage.cpp:25-35 | the linear search returns the place of the block in the numbering, zero if there is none |
| CfgStorage.CfgStorage.Resolve | core/src/control_flow/cfg_storage.cpp:41-48 | an id resolves to the block it numbers, function zero for ids that number none |
| CfgStorage.IdsAreDense | core/src/control_flow/cfg_storage.cpp:17-48 | every id from one to the number of blocks stands for a block, and no other does |
| CfgStorage.BlocksHaveIds | core/src/control_flow/cfg_storage.cpp:25-48 | resolving the id of a block gives the block back |
| CfgStorage.LastGrows | core/src/control_flow/cfg_storage.cpp:17-23 | one more block in the last function extends both tables by its entry and changes no other |
| CfgBuilder.FunctionBuilder.NewBlock | core/src/control_flow/cfg_builder.cpp:128-136 | appends a fresh block with the span of the node, and its id |
| CfgBuilder.FunctionBuilder.AddEdge | core/src/control_flow/cfg_builder.cpp:138-143 | appends a successor; an edge from a block that does not exist is dropped |
| CfgBuilder.FunctionBuilder.WalkStatement | core/src/control_flow/cfg_builder.cpp:180-336 | the blocks written in place, and the block returned, are those of the walk function on the shape of the statement |
| CfgBuilder.FunctionBuilder.WalkIf | core/src/control_flow/cfg_builder.cpp:215-254 | branch, optional else and join, with the fallback to positions when no field is there |
| CfgBuilder.FunctionBuilder.WalkLoop | core/src/control_flow/cfg_builder.cpp:256-276 | header, body, back edge and exit of a for or while |
| CfgBuilder.FunctionBuilder.WalkDo | core/src/control_flow/cfg_builder.cpp:278-297 | body, condition, back edge and exit of a do-while |
| CfgBuilder.FunctionBuilder.WalkSwitch | core/src/control_flow/cfg_builder.cpp:299-319 | one block per direct case, all leading to a join made first |
| CfgBuilder.FunctionBuilder.WalkCompound | core/src/control_flow/cfg_builder.cpp:321-331 | the named children one after the other |
| CfgBuilder.FunctionName | core/src/control_flow/cfg_builder.cpp:350-368 | the name is that of the first declarator that has one; without any, the first identifier with text; else empty |
| CfgBuilder.NameIsUnique | core/src/control_flow/cfg_builder.cpp:350-368 | that rule gives a function one name |
| CfgBuilder.BuildFunction | core/src/control_flow/cfg_builder.cpp:341-420 | the newest function gets its name, its span and the blocks of its body, the last one an exit; a syntax error anywhere gives one tainted block |
| CfgBuilder.BuildCfg | core/src/control_flow/cfg_builder.cpp:442-464 | one function per outermost definition, in order, behind the sentinel; the skipped ones are reported |
| CfgShape.WalkIsRegion | core/src/control_flow/cfg_builder.cpp:180-336 | each statement only adds edges to blocks it made, starting at the current block or at these, and ends in an open block |
| CfgShape.RegionsCompose | core/src/control_flow/cfg_builder.cpp:326-329 | statements in sequence add one region |
| FunctionGraph.StatementIsSingleEntry | core/src/control_flow/cfg_builder.cpp:128-336 | the block a statement starts from dominates every block it adds, and dominance among earlier blocks is unchanged |
| FunctionGraph.JoinIsReached | core/src/control_flow/cfg_builder.cpp:299-319 | the entry reaches the join of a switch exactly when it reaches the switch, unless the switch has named children and no case label directly among them |
| FunctionGraph.NothingFollowsHiddenCases | core/src/control_flow/cfg_builder.cpp:299-319 | every block walked after a switch whose case labels are not among its own children is unreachable from the entry |
| FunctionGraph.NoCaseTaken | core/src/control_flow/cfg_builder.cpp:313-317 | an execution that takes no case exists exactly when the switch has no named child, default or not; a switch that hides its cases has no execution at all |
| CfgMeaning.ExecutionHasPath | core/src/control_flow/cfg_builder.cpp:180-336 | every structured execution of a statement, with any choices, cases, iterations and early returns, is the content of a path through its region |
| CfgExact.PathIsExecution | core/src/control_flow/cfg_builder.cpp:180-336 | every path through the region of any statement is an execution of it |
| SyntaxMeaning.ShapeMeans | core/src/control_flow/cfg_builder.cpp:180-336 | what the builder reads out of a piece of syntax has exactly the executions of that syntax, told by kinds, fields and named children: arms, loop bodies, direct cases, statements in turn |
| SyntaxMeaning.GraphMeansFunction | core/src/control_flow/cfg_builder.cpp:341-420 | for every function without syntax errors, the step sequences along paths from the entry to an exit block are exactly those of the executions of its body, told on the syntax |
| SyntaxMeaning.DetectedIsHeld | core/src/control_flow/cfg_builder.cpp:145-178 | a barrier is detected exactly when a call to one of the six barrier functions stands below the node, nested functions aside |
| CfgMarks.MarksFit | core/src/control_flow/cfg_builder.cpp:185-213 | a block has a barrier mark exactly when a barrier falls into it and an exit mark exactly when a return does or control falls out of the body; a discard mark at least where a plain statement says discard, and nowhere when nothing does |
| CfgMarks.BlocksHaveSpans | core/src/control_flow/cfg_builder.cpp:128-336 | the entry carries the span of the function, every other block that of the statement that makes it, in the order in which blocks are made |
| CfgMarks.SkippedIsTainted | core/src/control_flow/cfg_builder.cpp:370-394 | a function with a syntax error is one tainted block without edges or marks |
| FunctionList.FunctionsAreOutermost | core/src/control_flow/cfg_builder.cpp:426-438 | the functions are the definitions with no definition above them, each once, in document order |
| FunctionList.ErrorsAreAnywhere | core/src/control_flow/cfg_builder.cpp:92-97 | a tree counts as broken exactly when an error node stands somewhere in it |
| FunctionList.SkippedAre | core/src/control_flow/cfg_builder.cpp:370-394 | reported are the functions in which an error node stands, in order, each with its span |
| CfgReducible.RankedIsReducible | core/src/control_flow/cfg_builder.cpp:138-143 | a ranking in which only edges to interval heads fall makes every depth-first retreating edge lead to a dominator of its source |
| CfgReducible.WalkRanked | core/src/control_flow/cfg_builder.cpp:180-336 | walking a statement extends such a ranking, loop back edges leading to interval heads |
| FunctionGraph.BuiltBlocksReducible | core/src/control_flow/cfg_builder.cpp:341-420 | the graph of every function is reducible, switches and skipped bodies included |
| Uniformity.Join | core/src/control_flow/uniformity_analyzer.cpp:89-103 | the least upper bound in the chain Unknown, Uniform, LoopInvariant, Divergent |
| Uniformity.ClassIsLeastBound | core/src/control_flow/uniformity_analyzer.cpp:202-304 | the class of an expression is the least upper bound of the literals, identifiers and known calls that contribute to it, known calls hiding their arguments |
| Uniformity.ClassIsMonotone | core/src/control_flow/uniformity_analyzer.cpp:220-235 | more divergent names only raise classes |
| Uniformity.Analyzer.SeedDivergentParameters | core/src/control_flow/uniformity_analyzer.cpp:122-164 | the seeds are exactly the identifiers of parameters whose text mentions a divergent system value |
| Uniformity.Analyzer.ExtractParamIdents | core/src/control_flow/uniformity_analyzer.cpp:170-197 | exactly the identifiers below the parameter, semantics aside |
| Uniformity.Analyzer.Classify | core/src/control_flow/uniformity_analyzer.cpp:202-304 | returns the class and writes it, after those of the operands, to the span of the node; nothing else is written |
| Uniformity.Analyzer.ClassifyAll | core/src/control_flow/uniformity_analyzer.cpp:379-396 | the stack walk classifies every named node, last child first |
| Uniformity.Analyzer.ScanBranches | core/src/control_flow/uniformity_analyzer.cpp:312-349 | the second walk classifies the condition of each branch and writes it to the span of the whole branch |
| Uniformity.AnalyseUniformity | core/src/control_flow/uniformity_analyzer.cpp:354-399 | both tables are the outcome of the seeded walks from empty tables |
| Uniformity.PopAndPush | core/src/control_flow/uniformity_analyzer.cpp:382-395 | popping a node and pushing its children leaves exactly the rest of the walk |
| UniformityTable.AllWritesAre | core/src/control_flow/uniformity_analyzer.cpp:379-398 | what is written to the expression table is exactly the named nodes |
| UniformityTable.TableTellsClasses | core/src/control_flow/uniformity_analyzer.cpp:354-399 | the finished table tells the class of every named node exactly when named nodes with one span have one class |
| UniformityTable.TableTellsBranches | core/src/control_flow/uniformity_analyzer.cpp:312-349 | the branch table tells the class of every condition exactly when branches with one span agree |
| UniformityTable.WellSpannedTablesAreExact | core/src/control_flow/uniformity_analyzer.cpp:354-399 | both tables are exact in trees whose children lie side by side inside their parents, whose named nodes hold text, whose unnamed nodes have no children and are no branches, and whose literals, identifiers, calls and branches are wider than each child |
| UniformityTable.TableIsMonotone | core/src/control_flow/uniformity_analyzer.cpp:354-399 | naming more identifiers divergent only raises entries and adds none |
| UniformityMeaning.ClassTells | core/src/control_flow/uniformity_analyzer.cpp:202-304 | a class is Divergent exactly when the expression reaches, through arguments of calls that are not known and named children of all else, a listed system value or lane intrinsic or an identifier of a divergent parameter; else Uniform exactly when it rests on anything known; else Unknown |
| UniformityMeaning.TablesTell | core/src/control_flow/uniformity_analyzer.cpp:354-399 | in well-spanned trees the expression table says that of every named node, the branch table of every branch by its condition (the field, else the first named child), and nothing else is listed |
| UniformityMeaning.SeededIs | core/src/control_flow/uniformity_analyzer.cpp:122-197 | a name is a seed exactly when it is the text of an identifier, no semantic, below a parameter whose text mentions a listed system value |
| UniformityTable.MissingTokenBreaksTable | core/src/control_flow/uniformity_analyzer.cpp:212-302 | a node without text makes its parent and its sibling share a span: one of the two reads back wrong |
| Lexer.EndOfLine | core/src/suppress.cpp:141-146 | the next newline, or the end |
| Lexer.EndOfBlock | core/src/suppress.cpp:150-157 | behind the first closer, or the end |
| Lexer.SkipStringLiteral | core/src/suppress.cpp:162-177 | the literal is one token of the lexer, escapes included; behind it is code or the end |
| Lexer.LiteralEnds | core/src/suppress.cpp:162-177 | a literal ends behind the first quote of its kind with an even number of backslashes before it, or at the end |
| Lexer.SkipToken | core/src/suppress.cpp:205-217 | moves exactly when a comment or literal starts, and then past one token |
| Lexer.EndOfBlockBrace | core/src/suppress.cpp:222-247 | behind the brace that first brings the depth of braces in code to zero, else the end |
| Lexer.Restart | core/src/suppress.cpp:162-217 | lexing may start anew wherever the state is code |
| Markers.ParseMarker | core/src/suppress.cpp:81-137 | reads exactly the marker language of the comment text: no position runs past the end of the line, though the helpers only check the end of the source |
| Markers.StartsWithAt | core/src/suppress.cpp:60-67 | a needle without newlines is found within the comment or not at all |
| Markers.MarkerRoundTrip | core/src/suppress.cpp:81-137 | every printed non-empty list of identifiers is read back, whatever follows it |
| Markers.MarkerReadsWithBlanks | core/src/suppress.cpp:81-137 | a marker with any blanks between its parts, and with or without a comma behind the last name, reads back its names |
| Markers.MarkerHasForm | core/src/suppress.cpp:81-137 | nothing else is read: every text read as a marker has that form |
| Markers.RulesAreIdents | core/src/suppress.cpp:115-121 | whatever is read is a list of identifiers |
| Markers.NamesAreMadeOf | core/src/suppress.cpp:33-40 | names are made of letters, digits, `-`, `_`, `*` and `:` |
| Suppress.SkipWsAndComments | core/src/suppress.cpp:181-201 | the first position of code that is no white space |
| Suppress.NextCodeLine | core/src/suppress.cpp:251-337 | the line of the first code that is no blank, newline or comment: where its blanks begin, and where it ends; the end of the text when there is none |
| Suppress.CodeLineHoldsToken | core/src/suppress.cpp:251-337 | that line is the line of the token that decided for it exactly when no carriage return of the code before the token has a newline between it and the token |
| Suppress.BlankLineTakenForCode | core/src/suppress.cpp:251-286 | a marker above a line with only a carriage return covers that line and not the code below it |
| Suppress.ResolveScope | core/src/suppress.cpp:352-393 | own line, following braces, or next code line; the wildcard before all code covers the file |
| Suppress.FinalizeLineComment | core/src/suppress.cpp:442-461 | entries for a well-formed marker with rules, a diagnostic for a malformed one, nothing otherwise |
| Suppress.TokenContributes | core/src/suppress.cpp:470-503 | nothing inside a literal or comment contributes anything or counts as code |
| Suppress.ScanSource | core/src/suppress.cpp:465-507 | the entries and diagnostics are exactly those of the line comments a character-at-a-time lexer sees, in order |
| MarkerScopes.ScopeIsAbout | core/src/suppress.cpp:352-393 | the resolved scope: the line of the comment when anything but blanks stands before it there, else from the next token to the brace that balances it, else the next line with code; whole file for the wildcard before all code |
| MarkerScopes.AboutSomething | core/src/suppress.cpp:352-393 | for every comment there is such a scope |
| MarkerScopes.SilencedExactly | core/src/suppress.cpp:399-507 | a printed marker alone in its source silences exactly the rules it names, or all with the wildcard, exactly there; and it is not reported |
| MarkerScopes.MarkerSilencesAbout | core/src/suppress.cpp:399-507 | beside other markers it silences at least that |
| MarkerScopes.ReportedExactly | core/src/suppress.cpp:414-461 | reported are exactly the line comments that begin like a marker and name no rules, with their whole range |
| Suppress.SuppressionSet.Scan | core/src/suppress.cpp:465-507 | the set holds what was found, indexed |
| Suppress.SuppressionSet.Index | core/src/suppress.cpp:509-530 | the lists hold, sorted, exactly the non-empty ranges of the entries |
| Suppress.SuppressionSet.Suppresses | core/src/suppress.cpp:532-560 | yes exactly when an entry for the rule or for all rules covers the start, or touches an empty diagnostic |
| Rewriter.BeforeIsStrictOrder | core/src/rewriter.cpp:48-61 | the priority order of fixes is strict and total |
| Rewriter.SeverityDecides | core/src/rewriter.cpp:33-61 | errors go before warnings and notes, warnings before notes, whatever the ids and places |
| Rewriter.IdDecides | core/src/rewriter.cpp:48-61 | between fixes of one severity the id that is a proper prefix, or smaller where they first differ, goes first; between fixes of one id the earlier one |
| Rewriter.GraverFixWins | core/src/rewriter.cpp:82-137 | a fix that edits something and overlaps only fixes of lower severity is applied, and none of these is |
| Rewriter.OverlapMeans | core/src/rewriter.cpp:63-70 | two edits that replace something overlap exactly when they share a character; an insertion exactly when it lies strictly inside |
| Rewriter.AppliedAreApart | core/src/rewriter.cpp:103-129 | applied fixes never overlap each other |
| Rewriter.SelectionIgnoresInputOrder | core/src/rewriter.cpp:82-137 | with distinct severities or rule ids the selection does not depend on the order of the input |
| Rewriter.OutcomesAgree | core/src/rewriter.cpp:74-153 | with distinct severities or rule ids, two orders of the input get the same edits in, in the same order; when each fix only replaces disjoint stretches, the resulting text is the same |
| Rewriter.SortByPriority | core/src/rewriter.cpp:82-89 | every fix once, in priority order |
| Rewriter.FindOverlap | core/src/rewriter.cpp:103-112 | none exactly when no edit of the fix overlaps an accepted one; otherwise the first accepted edit the first such edit runs into |
| Rewriter.OverlapDecides | core/src/rewriter.cpp:114-137 | a fix that overlaps no accepted edit is applied by the greedy definition; one that does is beaten by the owner of that edit |
| Rewriter.SelectFixes | core/src/rewriter.cpp:93-137 | the accepted edits are those of the greedily applied fixes, whole; every other non-empty fix has one conflict, naming the owner of its first clash, an applied fix before it that overlaps |
| Rewriter.UntouchedPrefix | core/src/rewriter.cpp:145-151 | text no edit covers stays, in order |
| Rewriter.SpliceStep | core/src/rewriter.cpp:147-150 | an edit that starts before all made so far passes the guard exactly when it lies inside the original text, and comes out as if made at once with them |
| Rewriter.SplicedIsSubstitute | core/src/rewriter.cpp:141-152 | splicing separate edits from the back is substituting all at once; the length changes by the sum of the parts in range |
| Rewriter.SameStartIsAmbiguous | core/src/rewriter.cpp:141-151 | two edits that start at one place give different texts in the two orders the sort allows |
| Rewriter.TieOrderMatters | core/src/rewriter.cpp:141-151 | exactly when an insertion and another edit at its place give one text in both orders; two insertions when their texts commute |
| Rewriter.AppliedStaySeparate | core/include/shader_clippy/rewriter.hpp:51-52 | fixes whose edits are disjoint and non-empty stay separate together, so splicing is exact |
| Rewriter.SubstituteIgnoresOrder | core/src/rewriter.cpp:141-143 | the outcome does not depend on how separate edits are listed |
| Rewriter.SortDescending | core/src/rewriter.cpp:141-143 | the same edits, highest start first |
| Rewriter.Splice | core/src/rewriter.cpp:145-151 | the loop makes the splices one after the other in place of the text |
| Rewriter.Apply | core/src/rewriter.cpp:74-153 | the outcome is the substitution of the greedily applied fixes when their edits are separate, with its length; always the descending splice; and one justified conflict per dropped fix |
| Glob.GlobMatch | core/src/config.cpp:399-464 | yes exactly when the text is in the language of the left-to-right tokenised pattern; the loop and its recursion end |
| Glob.TryAnywhere | core/src/config.cpp:406-427 | the tries of `**` |
| Glob.TryUpToSlash | core/src/config.cpp:430-444 | the tries of `*`, up to the next slash |
| Glob.DenotesFirst | core/src/config.cpp:392-395 | the first token takes some prefix and the others the rest |
| Glob.DoublingAStarWidens | core/src/config.cpp:406-444 | writing `**` for a `*` token only lets more texts in, also when it then takes a slash with it |
| Glob.SlashesAreKept | core/src/config.cpp:430-444 | without `**`, a matching text has as many slashes as the pattern |
| Glob.PlainPatternIsItself | core/src/config.cpp:446-463 | a pattern without wildcards matches itself only |
| Glob.WildcardsAre | core/src/config.cpp:406-455 | alone, `?` is one character but `/`, `*` anything without `/`, `**` anything |
| Glob.GlobStarCutsComponents | core/src/config.cpp:406-427 | `a/**/b` matches `a/xb`: the slash taken with `**` need not be in the path |
| GlobComponents.ReadingsAgreeExactly | core/include/shader_clippy/config.hpp:197-202 | in a pattern with any number of `**`, each a component of its own, `**` matches whole path components on all texts exactly when each `**/` has some `?` and then a `*` behind it |
| GlobComponents.OneMoreIsNotDocumented | core/include/shader_clippy/config.hpp:197-202 | otherwise a shortest text of the pattern with one more character in the place of such a `**/` is matched by the code and not by the documented reading |
| GlobComponents.DocumentedIsComputed | core/include/shader_clippy/config.hpp:197-202 | for every pattern, whatever the documented reading matches, the code matches |
| GlobComponents.IgnoresCaseExactly | core/include/shader_clippy/config.hpp:197-202 | a pattern matches whatever the case of letters, on all texts, exactly when it spells out no letter |
| Config.NormaliseSeparators | core/src/config.cpp:383-390 | each character of the result is a slash where the text has either separator, and the character of the text elsewhere |
| Config.PathGlobMatch | core/src/config.cpp:468-472 | matching after normalising both sides |
| Config.SlashesAreSeparators | core/src/config.cpp:468-472 | a path and a glob without backslashes match exactly when the path is in the language of the glob |
| Config.SeparatorsDoNotMatter | core/src/config.cpp:468-472 | writing either separator for the other, in the glob or in the path, changes no answer |
| Config.SeverityFor | core/src/config.cpp:474-496 | the last matching override that speaks of the rule, else the base table |
| Config.LaterOverridesWin | core/src/config.cpp:474-496 | the last override whose glob matches the path and whose table has the rule decides; the base table when there is none |
| Config.FilterBySeverity | core/src/lint.cpp:526-544 | each diagnostic is dropped, raised, lowered or left as configured, in order |
| Config.KeptExactly | core/src/lint.cpp:526-544 | the kept diagnostics are those not allowed away, in the order given, each like its original but for the severity: warning for warn, error for deny, unchanged where nothing is configured |
| TreeWalk.PreorderHasAll | core/src/lint.cpp:91-116 | the preorder has exactly the positions of the tree |
| TreeWalk.PreorderIsOrdered | core/src/lint.cpp:106-115 | in document order, so no position twice |
| TreeWalk.TreeCursor.GotoFirstChild | core/src/lint.cpp:108-110 | down exactly when there is a child |
| TreeWalk.TreeCursor.GotoNextSibling | core/src/lint.cpp:111 | sideways exactly when there is a next sibling below the start |
| TreeWalk.TreeCursor.GotoParent | core/src/lint.cpp:112-114 | up exactly when not at the start |
| TreeWalk.MoveOn | core/src/lint.cpp:111-115 | climbing stops where the rest of the preorder starts, or the walk is over |
| TreeWalk.Walk | core/src/lint.cpp:80-117 | every enabled rule of the stage is called on every named node, along the preorder; the walk ends and stays below its start |
| TreeWalk.CalledExactly | core/src/lint.cpp:91-104 | a call is made exactly for a rule of the AST stage that is enabled, at a named node |
| TreeWalk.CalledOnceInOrder | core/src/lint.cpp:91-116 | no call is made twice, and calls follow the document |
| Dot4.FlattenAddition | core/src/rules/dot4add_opportunity.cpp:106-126 | the flattened terms, appended in order |
| Dot4.FlattenKeepsValue | core/src/rules/dot4add_opportunity.cpp:106-126 | the terms add up to the expression, through parentheses and every association |
| Dot4.CheckAddition | core/src/rules/dot4add_opportunity.cpp:158-213 | fires exactly when the products among the terms are, as a collection, the four of one dot product in one channel set; it names the two vectors |
| Dot4.RecognitionIsSound | core/src/rules/dot4add_opportunity.cpp:158-213 | where it fires, the exact value is the dot product plus the remaining terms |
| Dot4.SameProduct | core/src/rules/dot4add_opportunity.cpp:74-102 | expressions that read the same, wherever they stand, are the same product or none |
| Dot4.FiresForEveryArrangement | core/src/rules/dot4add_opportunity.cpp:158-213 | two sums whose flattened terms read the same up to order, wherever they stand and in whichever text, both fire or neither does |
| Dot4.ProductsAreShown | core/src/rules/dot4add_opportunity.cpp:74-102 | a node is a product exactly when it reads `a.c * b.c` for one of the eight channel names |
| Dot4.WrittenOutFires | core/src/rules/dot4add_opportunity.cpp:74-213 | the sum of the four products of `xyzw`, or of `rgba`, written out from left to right fires |
| Dot4.MixedSetsNeverFire | core/src/rules/dot4add_opportunity.cpp:128-213 | a sum with products from both channel sets does not |
| Dot4.SwappedOperands | core/src/rules/dot4add_opportunity.cpp:106-126 | `a + b` and `b + a` both fire or neither does |
| Dot4.RebracketedOperands | core/src/rules/dot4add_opportunity.cpp:106-126 | `(a + b) + c` and `a + (b + c)` both fire or neither does, parentheses or not |
| Dot4.FourChannels | core/src/rules/dot4add_opportunity.cpp:128-133 | four products that show a full channel set use each channel once |
| Dot4.ProductIsWorth | core/src/rules/dot4add_opportunity.cpp:74-102 | a recognised product is worth the product of the two components |
| LineTable.SourceFile.BuildLineStarts | core/src/source.cpp:63-72 | zero, and the position behind each newline |
| LineTable.LineStartsAre | core/src/source.cpp:63-72 | one more start than newlines, rising, each behind a newline, and every newline has one |
| LineTable.SourceFile.UpperBound | core/src/source.cpp:83 | the first start greater than the offset |
| LineTable.SourceFile.LineColAt | core/src/source.cpp:74-91 | one plus the newlines before the clamped offset, and the distance from the start of that line |
| LineTable.OffsetRoundTrip | core/src/source.cpp:74-91 | start of the line plus column gives the clamped offset back |
| LineTable.PlaceRoundTrip | core/src/source.cpp:74-91 | every place on a line is the place of the offset it adds up to |
| LineTable.SourceFile.LineText | core/src/source.cpp:93-119 | the line around the offset without its newline and one carriage return before it |
| LineTable.LineTextIsUnique | core/src/source.cpp:93-119 | there is only one such text |
| LineTable.LineTextIs | core/src/source.cpp:93-119 | it stands between newlines, or the ends of the text, around the clamped offset, without the newline and without one carriage return before it |
| Tar.ExtractTar | vscode-extension/src/download.ts:163-192 | the loop returns what the walk over the headers finds, on every archive on which the walk ends, on block boundaries throughout |
| Tar.EndsExactly | vscode-extension/src/download.ts:163-192 | the walk ends exactly when it never comes back to an offset, on every buffer and also for negative offsets, which count from the back |
| Tar.NoMinusEnds | vscode-extension/src/download.ts:173-190 | without a minus sign at the front of a size field the walk ends |
| Tar.StaysAtHeader | vscode-extension/src/download.ts:173-190 | a size from minus one block down to above minus two leads back to the same header, so the walk never ends |
| Tar.MinusOneBlockNeverEnds | vscode-extension/src/download.ts:173-190 | a header whose size field reads `-1000` is one on which it never ends |
| Tar.AlignedNext | vscode-extension/src/download.ts:189-190 | rounding keeps the offset on block boundaries, and goes behind the header exactly for sizes above minus one block |
| Tar.ZeroBlockHidesAll | vscode-extension/src/download.ts:167-170 | a zero block in front of any archive hides all of it |
| Tar.HiddenArchive | vscode-extension/src/download.ts:167-170 | behind that block the file would be found; with any entry, the block stands alone |
| Tar.PatienceMatters | vscode-extension/src/download.ts:167-170 | a walk that waits for two zero blocks brings back the same, unless the code stops at a lone zero block: then it brings back nothing, and the other what it finds behind that block |
| Tar.NoLoneBlockNoLoss | vscode-extension/src/download.ts:167-170 | without a lone zero block on a block boundary the two walks bring back the same |
| Tar.ExtractionInvertsArchiving | vscode-extension/src/download.ts:163-192 | on every well-formed ustar sequence the walk ends with the exact bytes of the first regular file with the base name, for all sizes and paddings |
| Tar.SizeReadsBack | vscode-extension/src/download.ts:173-174 | octal digits with trailing blanks read back as the size |
| Tar.OctalParses | vscode-extension/src/download.ts:174 | white space, an optional sign, octal digits and anything else read as the number; without digits it is none |
| Tar.BasenameIs | vscode-extension/src/download.ts:177 | the base name is what stands behind the last slash, slashes at the end aside |
| Tar.RoundTrip | vscode-extension/src/download.ts:163-192 | what was archived, whatever else the headers say, is extracted as it went in |

## Left out

- SyntaxMeaning.GraphMeansFunction: executions are at the grain of the builder. It does not look into a case (`case_statement` is no kind it knows), so a case is one step; falling from one case into the next, and passing all cases by, are no executions here, as they are no paths there. `break` and `continue` are ordinary statements to the builder, and so to the executions.
- CfgMeaning.ExecutionHasPath: the same reading of a switch, exactly one case or, without children, none.
- CfgExact.PathIsExecution: the same reading of a switch.
- Statement shapes: a statement with a barrier anywhere is one unit, as in the code; the alternative of an `if` is modelled as the statement it is, not as a wrapper node of the grammar around it.
- Dominators.ComputeDominators: at most 2^32 - 1 blocks, because the code uses 2^32 - 1 for "no parent".
- CfgQueries.DominatesQuery: needs the table the dominator pass leaves, or a table of another size; a hand-made table of the right size is not covered.
- Rewriter.Apply: when two accepted edits start at one place, the text is the descending splice in the order the sort happened to leave; making both "at once" has no meaning then, and `Rewriter.TieOrderMatters` says when the order decides.
- Rewriter.Apply: always reports conflicts; the caller that passes no list for them differs in nothing else.
- GlobComponents.ReadingsAgreeExactly: patterns in which a `**` is glued to other characters, as in `a**b`, are left out; the documentation gives them no reading by components.
- Tar.ExtractTar: says nothing of archives on which the walk does not end, because the loop does not either; `Tar.EndsExactly` tells them, and archives in the ustar layout are none (`Tar.ExtractionInvertsArchiving`).
- Tar.ExtractionInvertsArchiving: an entry's size field is the length of the data stored with it. Directories and devices whose size field says something else, and pax headers that replace names or sizes, are not covered. The walk stops at one zero block (`Tar.PatienceMatters`); names are compared as bytes, and only `/` separates them.
- TreeWalk.Walk: what a rule does with a node, and the declarative `on_tree` pass, are not modelled; whether a rule's experimental target is active is one flag of the rule.
- Dot4.RecognitionIsSound: exact arithmetic, with one value for each component of each base text; rounding, and expressions whose repeated evaluation differs, are outside. How often the rule reports one chain through parentheses is not modelled.
- Uniformity: locals are uniform by default and calls are not looked into, as in the code; resources flagged by reflection are a set that stays empty.
- LineTable: `line_starts_` is never empty after construction, so the code's guards for that are not modelled.
- CfgMarks.MarksFit: a discard mark may also stand where a compound statement, branch or loop that holds one begins; only its absence from functions without any, and its presence at plain statements, are stated.
- CfgStorage: the span table gets its ids; the linear lookup of a span in it by rules is not modelled.
- Files, environment, processes, HTTP, checksums, gunzip, the zip path, editor UI and the language server: input, output and plumbing.
- The parser, the query engine and the reflection compiler: foreign libraries. Trees are given.
- TOML schema parsing, caches keyed by fingerprints, diagnostics' texts, the intermediate-representation engine, and the many textual rules: they would add easy members only.
