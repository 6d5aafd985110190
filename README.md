# ECE351 core in Dafny

This project models four parts of the ECE351 course compiler and proves properties about them:

- **`NaryExpr`**: the n-ary AND/OR node of the Boolean expression AST. This covers its sorted children, its value-level helpers (`append`, `appendAll`, `filter`, `removeAll`, `contains`, `examine`, `containsNaryExprSubset`, `singletonify`, `repOk`, `toString`) and the nine stages of `simplifyOnce`. It proves that each stage leaves the Boolean meaning of the node unchanged: stages 1, 5 and 6 given the collaborator facts listed below, stage 8 only when sibling containers have distinct child sets and no container grandchild is empty (`SubsetAbsorptionNeedsDistinctSets` shows the meaning can change otherwise). The whole pipeline keeps the meaning given all four facts, and its result satisfies `repOk` whenever it is a container.
- **The F recursive-descent parser**: formulas `x <= expr;` with `or`, `and`, `not`, parentheses and constants `'0'`/`'1'`. It is a class over a token stream. Each method is proved equal to a grammar function, and a printer round trip pins down associativity, precedence and the parenthesis rule.
- **The W recursive-descent parser and recognizer**: waveforms `name : bits ;`. Both are classes over the same token stream. The parser is proved to accept exactly the printed programs. The recognizer is proved to agree with the parser, and its loop is proved to terminate.
- **The VHDL process `Splitter`**: a class whose field is the insertion-ordered set of variables visited so far. It splits every process made of if/else statements into one process per pair of assignments with the same output, each with its own sensitivity list.

Files and their modules:

| file | module | models |
|---|---|---|
| `ast.dfy` | `Ast` | the expression AST, `Assignment`, Boolean meaning `Eval` |
| `ordering.dfy` | `Ordering` | `compareTo` as a parameter `le`, stable insertion sort |
| `nary.dfy` | `NaryExpr` | constructors, helpers, `repOk`, `examine`, `toString` |
| `stages.dfy` | `Stages` | stages 1-4 of `simplifyOnce` |
| `folds.dfy` | `Folds` | stages 5-6 (`foldComplements`, `removeDuplicates`) |
| `absorption.dfy` | `Absorption` | stages 7-8 (`simpleAbsorption`, `subsetAbsorption`) |
| `simplify.dfy` | `Simplify` | `simplifyOnce` and its meaning theorem |
| `lexer.dfy` | `Lexing` | the token stream the parsers read |
| `fparser.dfy` | `FParser` | `FRecursiveDescentParser` |
| `wparser.dfy` | `WParser` | `WRecursiveDescentParser`, `WRecursiveDescentRecognizer` |
| `splitter.dfy` | `VAst`, `Splitter` | the VHDL AST pieces the splitter reads and builds, and `Splitter` |

The code calls several things it does not define. The model takes them as parameters:

- **`le`**: `Expr.compareTo(...) <= 0`.
- **`eqv`**: `Examiner.Equivalent`, and `Expr.equivalent`, which `removeDuplicates` calls. `Examiner.Equals` is Dafny equality, and `NaryExpr.ExamineEqualsIsEquality` shows that `examine` with `==` is structural equality.
- **`simp`**: `child.simplify()`.
- **`show`**: the children's `toString`.

The meaning and `repOk` theorems of `simplifyOnce` rely on four facts about these parameters, stated as predicates:

- `SimplifierSound`: `simp` keeps meaning.
- `SimplifierCanonical`: `simp` returns expressions whose containers have at least two children and are strictly sorted.
- `EquivalenceSound`: `eqv` only relates expressions of equal meaning.
- `TotalOrder`: `le` is a total order.

A Java exception (`IllegalArgumentException`, a failed `consume`, a `ClassCastException`, `get(0)` on an empty list) is modelled as the `None` result of an `Option`.

## Model

| member | source | states |
|---|---|---|
| Ordering.Insert | src/ece351/common/ast/NaryExpr.java:57-61 | one insertion step of the stable sort: the result holds the old elements plus the new one, and stays sorted when the input was sorted and `le` is total |
| Ordering.Sort | src/ece351/common/ast/NaryExpr.java:48-61 | the constructors' sort: the result is a permutation of the input, and sorted whenever `compareTo` is total |
| Ordering.SortOfSorted | src/ece351/common/ast/NaryExpr.java:57-61 | sorting an already sorted list changes nothing (the sort is stable) |
| Ordering.StrictlySortedUnique | src/ece351/common/ast/NaryExpr.java:48-61 | two strictly sorted lists with the same elements are equal, so a canonical child list is determined by its set of children |
| NaryExpr.IdentityElement | src/ece351/common/ast/NaryExpr.java:134-137 | the identity element is a constant |
| NaryExpr.AbsorbingElement | src/ece351/common/ast/NaryExpr.java:128-131 | the absorbing element is a constant, different from the identity element |
| NaryExpr.IdentityLaw | src/ece351/common/ast/NaryExpr.java:134-137 | `e op x = x`: adding the identity element does not change the meaning |
| NaryExpr.AbsorbingLaw | src/ece351/common/ast/NaryExpr.java:128-131 | `e op x = e`: a node holding the absorbing element means that constant |
| NaryExpr.Make | src/ece351/common/ast/NaryExpr.java:57-61 | the list constructor: same operator, children a permutation of the argument, sorted |
| NaryExpr.Append | src/ece351/common/ast/NaryExpr.java:75-77 | the children are exactly the old ones plus `e`, re-sorted |
| NaryExpr.AppendAll | src/ece351/common/ast/NaryExpr.java:85-90 | the children are exactly the old ones plus the list, re-sorted |
| NaryExpr.FilterClass | src/ece351/common/ast/NaryExpr.java:471-485 | keeps every copy of the children whose class equals (or differs from) the given class, and nothing else |
| NaryExpr.FilterBy | src/ece351/common/ast/NaryExpr.java:487-501 | keeps every copy of the children the examiner relates (or does not relate) to the filter expression, and nothing else |
| NaryExpr.RemoveAll | src/ece351/common/ast/NaryExpr.java:503-509 | removes every copy of every child related to some target, and keeps the rest with their counts |
| NaryExpr.Contains | src/ece351/common/ast/NaryExpr.java:511-518 | true iff some child is related to `e` by the examiner |
| NaryExpr.ContainsNaryExprSubset | src/ece351/common/ast/NaryExpr.java:431-448 | true iff the nodes differ, share a class, and every child of the argument is a child of this node |
| NaryExpr.Examine | src/ece351/common/ast/NaryExpr.java:175-198 | false for null, another class or another child count; otherwise true iff the examiner relates the children index by index |
| NaryExpr.ExamineEqualsIsEquality | src/ece351/common/ast/NaryExpr.java:165-168 | `equals`, which is `examine` with `Equals`, is structural equality of nodes |
| NaryExpr.Singletonify | src/ece351/common/ast/NaryExpr.java:453-462 | the sole child when there is one, the node itself otherwise; meaning is kept either way |
| NaryExpr.RepOk | src/ece351/common/ast/NaryExpr.java:95-113 | true iff there are at least two children and every adjacent pair is ordered by `compareTo` (duplicates allowed) |
| NaryExpr.ToString | src/ece351/common/ast/NaryExpr.java:141-156 | the text is `(`, the children's texts joined by ` op `, then `)` |
| NaryExpr.FilterClassPartition | src/ece351/common/ast/NaryExpr.java:471-485 | `filter(c, true)` and `filter(c, false)` partition the children, counting copies |
| NaryExpr.RemoveAllLeavesNoMatch | src/ece351/common/ast/NaryExpr.java:503-509 | no child related to a target survives `removeAll` |
| Stages.Mapped | src/ece351/common/ast/NaryExpr.java:221-230 | the simplified children, one per child and in order |
| Stages.SimplifyChildren | src/ece351/common/ast/NaryExpr.java:221-230 | stage 1: the children are the simplified children, counting copies, sorted, with the same operator; meaning is kept when `simplify` keeps meaning |
| Stages.MappedSameMeaning | src/ece351/common/ast/NaryExpr.java:221-230 | replacing every child by a meaning-preserving simplification keeps the node's meaning |
| Stages.GrandchildrenMember | src/ece351/common/ast/NaryExpr.java:246-250 | the merged grandchildren are exactly the children of the containers being merged |
| Stages.MergeGrandchildren | src/ece351/common/ast/NaryExpr.java:233-255 | stage 2: unchanged when no child has this node's class; otherwise the children are the other-class children plus the grandchildren, counting copies; sorted when the argument is; a flat argument is left flat; meaning is kept |
| Stages.AppendGrandchildren | src/ece351/common/ast/NaryExpr.java:246-250 | the loop of stage 2: the children are the old ones plus every grandchild, counting copies, sorted |
| Stages.GrandchildrenAppend | src/ece351/common/ast/NaryExpr.java:246-250 | merging commutes with concatenating the containers |
| Stages.FoldIdentityElements | src/ece351/common/ast/NaryExpr.java:258-282 | stage 3: a one-child node is unchanged; otherwise no identity element is left unless every child was one, in which case exactly one remains; never empty, sorted; meaning is kept |
| Stages.DropIdentity | src/ece351/common/ast/NaryExpr.java:269-274 | the loop of stage 3: the children are exactly the non-identity children, counting copies, sorted |
| Stages.FoldAbsorbingElements | src/ece351/common/ast/NaryExpr.java:284-299 | stage 4: a single absorbing element if any child is one, the node unchanged otherwise; sortedness kept; meaning is kept |
| Folds.FoldComplements | src/ece351/common/ast/NaryExpr.java:301-323 | stage 5: unchanged (re-sorted) when no child `!x` has a child equivalent to `x`; otherwise the absorbing element is a child; a child is kept exactly when no such `!x` has it equivalent to `!x` or to `x`, and no new child other than the absorbing element appears; non-empty stays non-empty; sorted |
| Folds.FoldComplementsMeaning | src/ece351/common/ast/NaryExpr.java:301-323 | the result of stage 5 keeps the meaning when `Equivalent` is sound |
| Folds.RemoveDuplicates | src/ece351/common/ast/NaryExpr.java:325-346 | stage 6: at most one copy of every child that had an adjacent equivalent duplicate, every other child kept with its count, no new child; non-empty stays non-empty; sorted; meaning is kept when `Equivalent` is sound |
| Folds.RepeatedIsTouched | src/ece351/common/ast/NaryExpr.java:325-346 | in a sorted list, every child present twice sits next to a copy of itself, so stage 6 visits it |
| Absorption.DualChildren | src/ece351/common/ast/NaryExpr.java:349-352 | exactly the children of the opposite class, with their counts |
| Absorption.SimpleAbsorption | src/ece351/common/ast/NaryExpr.java:348-370 | stage 7: every opposite-class child that contains a variable child of this node is removed, every other child is kept with its count, a no-op without opposite-class children; non-empty stays non-empty; sortedness kept; meaning is kept |
| Absorption.SimpleAbsorptionKeepsChild | src/ece351/common/ast/NaryExpr.java:348-370 | a variable child is never absorbed, so stage 7 never empties a non-empty node |
| Absorption.SimpleAbsorptionMeaning | src/ece351/common/ast/NaryExpr.java:348-370 | `x op (x op' y) = x`: removing the absorbed children keeps the meaning |
| Absorption.SubsetAbsorption | src/ece351/common/ast/NaryExpr.java:372-429 | stage 8: removes exactly the opposite-class children that have a sibling whose children are a subset of theirs (case 1), or a grandchild all of whose children are children of this node (case 2); a no-op without opposite-class children; sortedness kept; when sibling child sets are distinct and containers are non-empty, meaning is kept and a non-empty node stays non-empty |
| Absorption.CanBeAbsorbed | src/ece351/common/ast/NaryExpr.java:412-418 | the `canBeAbsorbed` flag is true iff every great-grandchild is a child of this node |
| Absorption.SubsetAbsorptionMeaning | src/ece351/common/ast/NaryExpr.java:372-429 | removing the absorbed children keeps the meaning when sibling child sets are distinct and containers are non-empty |
| Absorption.SomeChildSurvives | src/ece351/common/ast/NaryExpr.java:372-429 | with distinct sibling child sets and non-empty containers, stage 8 never removes every child |
| Absorption.CanonicalSiblings | src/ece351/common/ast/NaryExpr.java:372-429 | strictly sorted children have distinct child sets, so stage 8's precondition holds after `removeDuplicates` has run on the children |
| Absorption.SubsetAbsorptionNeedsDistinctSets | src/ece351/common/ast/NaryExpr.java:395-401 | without distinct sibling sets, case 1 removes both of two siblings with equal child sets and changes the meaning |
| Simplify.SimplifyOnce | src/ece351/common/ast/NaryExpr.java:202-216 | the nine stages in order keep the meaning of the node, given the four collaborator facts; `assert result.repOk()`: a container result has at least two children and is sorted, given a total order and a normalising `simplify` |
| Simplify.ChildStages | src/ece351/common/ast/NaryExpr.java:204-205 | stages 1-2 keep the operator and the meaning, leave canonical children, and leave them sorted |
| Simplify.FoldStages | src/ece351/common/ast/NaryExpr.java:206-209 | stages 3-6 keep the operator and the meaning, keep children canonical, and leave a non-empty sorted child list |
| Simplify.AbsorptionStages | src/ece351/common/ast/NaryExpr.java:210-211 | stages 7-8 keep the operator, sortedness and canonical children, and for a node with canonical children under a total order keep the meaning and non-emptiness |
| Lexing.Lexer.Consume | src/ece351/f/rdescent/FRecursiveDescentParser.java:84-90 | `consume(s)` succeeds iff `s` is next, and then removes exactly that token |
| Lexing.Lexer.ConsumeID | src/ece351/f/rdescent/FRecursiveDescentParser.java:126-132 | `consumeID` succeeds iff an identifier is next, returns its name and removes it |
| FParser.VarOf | src/ece351/f/rdescent/FRecursiveDescentParser.java:126-132 | succeeds iff the next token is an identifier, giving a variable |
| FParser.ConstantOf | src/ece351/f/rdescent/FRecursiveDescentParser.java:134-152 | succeeds iff the tokens are `'`, `0` or `1`, `'`, giving that constant and consuming exactly three tokens |
| FParser.ExprOf | src/ece351/f/rdescent/FRecursiveDescentParser.java:92-99 | an expression consumes input, builds only binary nodes, and stops before any `or` or `and` |
| FParser.TermOf | src/ece351/f/rdescent/FRecursiveDescentParser.java:101-108 | a term consumes input, builds only binary nodes, and stops before any `and` |
| FParser.FactorOf | src/ece351/f/rdescent/FRecursiveDescentParser.java:110-124 | a factor consumes input and builds only binary nodes |
| FParser.FormulaOf | src/ece351/f/rdescent/FRecursiveDescentParser.java:84-90 | a formula consumes input and builds only binary nodes |
| FParser.ProgramOf | src/ece351/f/rdescent/FRecursiveDescentParser.java:74-82 | a program holds at least one formula |
| FParser.FRecursiveDescentParser.ParseProgram | src/ece351/f/rdescent/FRecursiveDescentParser.java:74-82 | the result is the grammar's program, and on success every token was consumed |
| FParser.FRecursiveDescentParser.ParseFormula | src/ece351/f/rdescent/FRecursiveDescentParser.java:84-90 | the result and the tokens left agree with the grammar's formula |
| FParser.FRecursiveDescentParser.ParseExpr | src/ece351/f/rdescent/FRecursiveDescentParser.java:92-99 | the result and the tokens left agree with the grammar's expression |
| FParser.FRecursiveDescentParser.ParseTerm | src/ece351/f/rdescent/FRecursiveDescentParser.java:101-108 | the result and the tokens left agree with the grammar's term |
| FParser.FRecursiveDescentParser.ParseFactor | src/ece351/f/rdescent/FRecursiveDescentParser.java:110-124 | the result and the tokens left agree with the grammar's factor |
| FParser.FRecursiveDescentParser.ParseVar | src/ece351/f/rdescent/FRecursiveDescentParser.java:126-132 | the result and the tokens left agree with the grammar's variable |
| FParser.FRecursiveDescentParser.ParseConstant | src/ece351/f/rdescent/FRecursiveDescentParser.java:134-152 | the result and the tokens left agree with the grammar's constant |
| FParser.ExprRoundTrip | src/ece351/f/rdescent/FRecursiveDescentParser.java:92-124 | printing any binary expression with minimal parentheses and parsing it back gives the same tree |
| FParser.FormulaRoundTrip | src/ece351/f/rdescent/FRecursiveDescentParser.java:84-90 | a printed formula `x <= e ;` parses back to the same assignment |
| FParser.ProgramRoundTrip | src/ece351/f/rdescent/FRecursiveDescentParser.java:74-82 | a printed non-empty list of formulas parses back to the same list, in order |
| FParser.OrIsLeftAssociative | src/ece351/f/rdescent/FRecursiveDescentParser.java:92-99 | `a or b or c` is `Or(Or(a, b), c)` |
| FParser.AndBindsTighter | src/ece351/f/rdescent/FRecursiveDescentParser.java:101-108 | `a or b and c` is `Or(a, And(b, c))` |
| FParser.NotTakesAFactor | src/ece351/f/rdescent/FRecursiveDescentParser.java:110-113 | `not a and b` is `And(Not(a), b)` |
| FParser.ParenthesesAddNoNode | src/ece351/f/rdescent/FRecursiveDescentParser.java:114-118 | `( e )` parses to the tree of `e` itself, with no wrapper node |
| WParser.WaveformOf | src/ece351/w/rdescent/WRecursiveDescentParser.java:57-74 | a waveform consumes at least its name, `:` and `;` |
| WParser.ProgramOf | src/ece351/w/rdescent/WRecursiveDescentParser.java:47-55 | a program holds at least one waveform |
| WParser.WRecursiveDescentParser.Parse | src/ece351/w/rdescent/WRecursiveDescentParser.java:47-55 | the result is the grammar's program, and on success every token was consumed |
| WParser.WRecursiveDescentParser.ParseWaveform | src/ece351/w/rdescent/WRecursiveDescentParser.java:57-74 | the result and the tokens left agree with the grammar's waveform: name, `:`, bits in order, `;` |
| WParser.ParsesExactlyShown | src/ece351/w/rdescent/WRecursiveDescentParser.java:47-74 | parsing succeeds with `ws` iff `ws` is non-empty and the tokens are exactly `ws` printed in order, so a missing name or `:`, or a token other than `0`/`1` before `;`, is rejected |
| WParser.EmptyWaveformAccepted | src/ece351/w/rdescent/WRecursiveDescentParser.java:67-73 | `name : ;` is accepted as a waveform with no bits |
| WParser.WRecursiveDescentRecognizer.RecognizeProgram | src/ece351/w/rdescent/WRecursiveDescentRecognizer.java:54-60 | accepts iff the tokens are one or more waveforms and then the end; on success everything was consumed |
| WParser.WRecursiveDescentRecognizer.RecognizeWaveform | src/ece351/w/rdescent/WRecursiveDescentRecognizer.java:62-77 | accepts iff a name, `:`, bits and `;` come next; then consumes at least three tokens, so the loop in `program` terminates |
| WParser.RecognizerAgrees | src/ece351/w/rdescent/WRecursiveDescentRecognizer.java:54-77 | the recognizer accepts exactly the token sequences the parser accepts |
| Splitter.FirstIndex | src/ece351/v/Splitter.java:61 | the position where a name first occurs, so a `LinkedHashSet`'s order is defined |
| Splitter.Splitter.constructor | src/ece351/v/Splitter.java:61 | the visited-variable set starts empty |
| Splitter.Splitter.VisitVar | src/ece351/v/Splitter.java:155-158 | `visitVar` adds the identifier to the set, at the end if it is new |
| Splitter.Splitter.TraverseExpr | src/ece351/v/Splitter.java:117-119 | traversing an expression adds its variables in post-order |
| Splitter.Splitter.SensitivityOf | src/ece351/v/Splitter.java:133-142 | clearing the set, traversing the three expressions and copying the set gives the sensitivity list, which is also left in the set |
| Splitter.Splitter.SplitIfElseStatement | src/ece351/v/Splitter.java:111-152 | the result is `SplitIfElse`: one process wrapping the statement when `ifBody` has at most one assignment (failure when a branch is empty), otherwise one process per same-output pair; the set is left holding the last process's list |
| Splitter.Splitter.SplitProcessBody | src/ece351/v/Splitter.java:91-96 | a body of if/else statements becomes their splits concatenated in order; any assignment in it makes the pass fail |
| Splitter.Splitter.SplitArchitecture | src/ece351/v/Splitter.java:86-102 | each statement is split or copied, in order |
| Splitter.Splitter.SplitIt | src/ece351/v/Splitter.java:82-108 | the result is `SplitProgram`: every design unit split, in order, and failure if any process fails the cast |
| Splitter.SensitivityCorrect | src/ece351/v/Splitter.java:116-123 | a sensitivity list has no duplicates, holds exactly the variables of the two assignments and the condition, and lists them in first-visit order |
| Splitter.DistinctFirstOrder | src/ece351/v/Splitter.java:61 | an insertion-ordered set lists names in the order of their first occurrence |
| Splitter.AddAllDistinct | src/ece351/v/Splitter.java:155-158 | adding names one by one to an insertion-ordered set equals taking the distinct names of the whole sequence |
| Splitter.PairsMembers | src/ece351/v/Splitter.java:127-147 | a process is produced iff it is the split of an if-assignment and an else-assignment with the same output |
| Splitter.SplitProcessShape | src/ece351/v/Splitter.java:144-145 | every produced process wraps one if/else with exactly one assignment per branch and the original condition |
| Splitter.PairsAppend | src/ece351/v/Splitter.java:129 | the processes come ifBody-major: splitting a concatenated `ifBody` concatenates the results |
| Splitter.MatchesAppend | src/ece351/v/Splitter.java:131 | and elseBody-minor: splitting against a concatenated `elseBody` concatenates the results |
| Splitter.SplitStatementsAppend | src/ece351/v/Splitter.java:86-102 | splitting statement lists is a homomorphism: the split of a concatenation is the concatenation of the splits |
| Splitter.UnsplitStatementsKept | src/ece351/v/Splitter.java:97-102 | statements that are not processes of if/else statements are copied unchanged and in order |
| Splitter.AssignmentInSplitBodyRejected | src/ece351/v/Splitter.java:91-94 | an assignment anywhere in a body that starts with an if/else fails the cast |
| Splitter.SplitUnitsKeepShape | src/ece351/v/Splitter.java:84-106 | the number of design units is kept; each keeps its entity, components, signals, entity name and architecture name, and its statements are the split statements |
| Splitter.SingleBranchMissesElseReads | src/ece351/v/Splitter.java:114-124 | a finding: with one if-assignment and two else-assignments, the single process's list omits a variable the else branch reads |
| Splitter.SplitIfElseCompleteCovers | src/ece351/v/Splitter.java:114-124 | the corrected split: every produced process lists every variable read in its if/else statement |
| Splitter.SplitProcessComplete | src/ece351/v/Splitter.java:127-147 | a pair process is always complete: its list holds every variable its if/else reads |

## Left out

- The scanner `ece351.util.Lexer` is not part of this model. Its input is the token sequence it would produce. Keywords and punctuation are an enumeration. After a failed `consume*`, the position of the stream is not specified.
- `simplify()`, the fixed-point driver around `simplifyOnce`, is not part of this model. It is the `simp` parameter. Nothing here claims that it terminates.
- `compareTo` and `Examiner.Equivalent` are not part of this model. They are parameters, with the properties the theorems need stated as predicates.
- `hashCode` is not modelled. The Java `assert repOk()` statements are not run as checks; `repOk` itself is modelled, and its condition is proved of the result of `simplifyOnce` (line 214) but not of the intermediate stages: stage 2 is proved to keep the children sorted, not to leave at least two of them (line 253).
- The Parboiled grammars, the `Elaborator`, `DeSugarer` and `Synthesizer` stubs, `SimulatorGenerator` and the exam pseudo-code are not part of this model.
- Splitter: the `XOr`, `NAnd`, `NOr`, `XNOr` and `Equal` expression nodes are not modelled. `split(CommandLine)` runs the desugarer first, which is meant to rewrite them away. In this snapshot the desugarer's visits for them throw `Todo351Exception` (src/ece351/v/DeSugarer.java:69-102), and `split(VProgram)` calls the `Elaborator` stub, which throws too. So no program reaches `splitit` there, with or without these nodes. `visitVar` is the only visit that collects anything.
- Splitter: `PostOrderExprVisitor` is not part of this model. `traverseExpr` is assumed to visit the variables of an expression left to right, in post-order.
- Splitter: `IfElseStatement.java` is not part of this model. Its constructor is assumed to take (else-body, if-body, condition), the order in which line 144 passes them. So a split if/else has the if-assignment in its `ifBody`.
- Splitter: components, signals and entities are carried by name only. The splitter copies them without looking inside.
- Splitter.Splitter.SplitIt: states the result and that the variable set stays duplicate-free, but not the set's final contents.
- Splitter.Splitter.SplitProcessBody: states the result and that the set stays duplicate-free, but not the set's final contents.
- Splitter.Splitter.SplitArchitecture: states the result and that the set stays duplicate-free, but not the set's final contents.
- WParser: a waveform's bits are `bool`s (`true` for `1`). The code keeps the strings `"0"` and `"1"`.
- `toString` of the children is the `show` parameter. `operator()` is the `opName` string.
- Folds.FoldComplements: states exactly which children the result holds, but not their copy counts, when a complement is found. That is enough for the meaning theorem.

## Findings

| source | as written | input that shows it | evidently intended | confidence | as-written member | corrected member |
|---|---|---|---|---|---|---|
| src/ece351/v/Splitter.java:114-124 | when `ifBody` has at most one assignment, the sensitivity list is built from `ifBody[0]`, `elseBody[0]` and the condition only, while the process wraps the whole if/else statement | `if c then x <= a; else x <= b; y <= d;` gives the list `a, b, c`, without `d` | the list holds every variable the wrapped statement reads | medium, not executed | Splitter.SingleBranchMissesElseReads | Splitter.SplitIfElseCompleteCovers |
