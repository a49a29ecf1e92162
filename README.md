# hw2.py in Dafny: CNF conversion and CKY parsing

`hw2.py` reads a context-free grammar and converts it to Chomsky Normal Form
(class `CnfGrammar`). It then parses sentences with a CKY chart parser (class
`CkyParser`) and prints one bracketed tree for each `TOP` entry of the root
cell. This project models that pipeline and proves what it computes.

The modules are:

- `Text` (text.dfy): the Python 2 string operations the program relies on, with their ASCII meaning. These are `strip`, `split`, `upper`, `isalnum`, `replace` and `str(n)`.
- `Rules` (rules.dfy): tags as their names, `Rule` as a value, and the predicates `isTerminal`, `containsTerminal`, `isBinary`, `isUnitProduction` and `_isCnf`.
- `Lists` (lists.dfy): order-preserving filters. This is the shape of `_sortRules` and of the partition in `writeToFile`.
- `Grammar` (grammar.dfy): `parseRule`, the line filter of `load`, the names `_generateNewTag` and `_getNewTag` hand out, and the rule order of `writeToFile`.
- `CnfSpec` (cnfspec.dfy): the three conversion passes as functions on the worklists, with their properties.
- `Cnf` (cnf.dfy): class `CnfGrammar`. Its fields `todo`, `done`, `newTags` and `rules` are updated in place. Each method is proved to reach the state the matching `CnfSpec` function describes.
- `ChartSpec` (chartspec.dfy): the chart `_buildTable` fills, the trees `_addNodeToString` prints, and when `_buildTable` raises `IndexError`.
- `Cky` (cky.dfy): classes `Cell` and `CkyParser`. The table is an `array2<Cell>` filled column by column, exactly as the source's three nested loops do. The printing methods work on that table.

The model keeps the program's own quirks rather than fixing them:

- `_convertHybrids` pops inside `enumerate`, so the rule after each popped one is skipped.
- Rules left in `_todo` are dropped when `self.rules = self._done`. `CnfSpec.SkippedHybridIsDropped` shows a grammar that loses a rule this way.
- `_convertUnitProductions` recurses without a cycle guard. The model gives it a fuel parameter for the interpreter's recursion depth.
- `_generateNewTag` consults only the names it allocated itself. `CnfSpec.NonBinaryReusesGrammarName` shows the first split named `X1` next to rules of the grammar whose left side is already `X1`.
- `_getNewTag` can return the same name twice.
- A rule with an empty right side makes `_convertNonBinary` fail.
- In `_buildTable`, a one-symbol rule whose symbol names an entry of the b cell raises `IndexError` at `rule.right[1]` whenever the c cell is not empty. `ChartSpec.Crashes` names exactly those sentences. `ChartSpec.CnfNeverCrashes` shows that a grammar of `_isCnf` rules whose left sides are all nonterminals never hits this. `_isCnf` alone does not say that a left side is a nonterminal: `'a' -> B` with `B -> 'b'` passes the converter unchanged and crashes on the tokens `b b` (`ChartSpec.TerminalLeftCrashes`).

## Model

| member | source | states |
|---|---|---|
| Rules.ContainsTerminalIff | hw2.py:26-29 | Building a Tag from the rule string strips it and tests for an apostrophe. That test holds exactly when the left name or some right name is a terminal. |
| Rules.UnitProductionIff | hw2.py:36-39 | A rule is a unit production iff it has exactly one right name and no apostrophe anywhere. |
| Rules.CnfIff | hw2.py:259-266 | `_isCnf` holds iff the rule is binary with no terminal, or has one right name and a terminal somewhere. |
| Rules.QuoteInToString | hw2.py:21-24 | The rendered rule holds an apostrophe iff the left name or the space-joined right names do. |
| Text.SplitJoin | hw2.py:103 | Splitting on whitespace the right side as `_buildString` lays it out gives the names back. |
| Grammar.FindSplitter | hw2.py:100 | The first "->" of a line is found iff the line holds one, and nothing before it is a "->". |
| Grammar.ParseRule | hw2.py:99-109 | `parseRule` succeeds iff the line holds "->"; every right name is non-empty and has no whitespace. |
| Grammar.ParseToString | hw2.py:99-109 | Reading back what `Rule.toString` writes gives the same rule, for every well-formed rule. |
| Grammar.CleanLineKeepsSplitter | hw2.py:119-123 | Removing newlines and collapsing double spaces keeps the "->" that made `load` accept the line. |
| Grammar.LoadRulesOnePerLine | hw2.py:119-123 | `load` keeps exactly one rule per line that holds "->". |
| Grammar.FreshFrom | hw2.py:78-80 | The while loop of `_generateNewTag` stops at the least counter whose `X` name is not yet allocated. |
| Grammar.GeneratedNameIsFresh | hw2.py:74-88 | The name `_generateNewTag` returns is not among the allocated names and is a nonterminal. |
| Grammar.NewTagNameIsNonterminal | hw2.py:90-97 | Every name `_getNewTag` returns is a nonterminal. |
| Grammar.NewTagOfLetter | hw2.py:90-97 | The terminal 'c' gets the upper-case letter as its name. |
| Grammar.NewTagNameRepeats | hw2.py:90-97 | `_getNewTag` gives the same terminal the same name again after it has already handed that name out. |
| Grammar.SortByKey | hw2.py:136-137 | `list.sort(key=toString)` returns a permutation of its input, ordered by rule text. |
| Grammar.WriteOrderSpec | hw2.py:125-146 | `writeToFile` lists a permutation of the rules. All rules without a terminal come before all rules with one, and each group is sorted by its text. |
| Grammar.LexLeTotal | hw2.py:136-137 | Python 2 string order is total. |
| Grammar.LexLeTrans | hw2.py:136-137 | Python 2 string order is transitive. |
| Lists.FilterSplit | hw2.py:268-273 | Splitting a list by a test loses no element and duplicates none. |
| CnfSpec.SortRulesSorts | hw2.py:268-273 | `_sortRules` only appends, in order. What it adds to `_done` passes `_isCnf` and what it adds to `_todo` fails it. Lists sorted by `_isCnf` stay sorted. |
| CnfSpec.SortRulesKeepsAll | hw2.py:268-273 | `_sortRules` keeps every rule exactly once across the two lists. |
| Cnf.CnfGrammar.SortRules | hw2.py:268-273 | The loop reaches the worklists `CnfSpec.SortRules` describes. |
| CnfSpec.ConvertHybrid | hw2.py:168-185 | It returns one rule `NEW -> 't'` per terminal, in right-side order, then `left -> newRights`. `newRights` has the old length, every terminal replaced by its fresh nonterminal and every other name kept in place. |
| CnfSpec.ConvertHybridLeavesOne | hw2.py:168-185 | At most one rule of a hybrid conversion, the last, fails `_isCnf`. |
| CnfSpec.ExampleConverted | hw2.py:168-185 | `S -> 'a' 'b'` becomes `A -> 'a'`, `B -> 'b'`, `S -> A B`. |
| Cnf.CnfGrammar.ConvertHybrid | hw2.py:168-185 | The loop returns the rules and allocated names of `CnfSpec.ConvertHybrid`. |
| Cnf.CnfGrammar.GenerateNewTag | hw2.py:74-88 | It returns the fresh nonterminal `GeneratedName` and appends it to `_newTags`. |
| Cnf.CnfGrammar.GetNewTag | hw2.py:90-97 | It returns the terminal's alphanumeric upper-case name or a generated one, always a nonterminal, and appends it to `_newTags`. |
| CnfSpec.HybridScanKeeps | hw2.py:159-166 | The hybrid pass keeps the lists sorted by `_isCnf`, adds no empty right side, and keeps an empty right side in `_todo`. |
| CnfSpec.ExampleHybridPass | hw2.py:159-166 | After popping the first rule, the pass skips the rule that slid into its index. |
| Cnf.CnfGrammar.PopHybridAt | hw2.py:163-165 | Popping a hybrid rule, converting it and sorting the new rules in gives the worklists and names of `CnfSpec.PopHybrid`. |
| Cnf.CnfGrammar.ConvertHybrids | hw2.py:159-166 | The index loop over the shrinking and growing `_todo` reaches the state of `CnfSpec.HybridScan`. |
| CnfSpec.ConvertUnitProductionCopies | hw2.py:197-225 | For `A -> B` the new rules are exactly the `A -> rhs` such that `B -> rhs` is in `_done` or `_todo`. |
| Cnf.CnfGrammar.ConvertUnitProduction | hw2.py:197-225 | The three loops return the rules of `CnfSpec.ConvertUnitProduction`. |
| CnfSpec.UnitScanNoUnit | hw2.py:188-194 | When the unit pass returns, `_todo` holds no unit production. |
| CnfSpec.UnitScanKeepsPartition | hw2.py:188-194 | The unit pass keeps the lists sorted by `_isCnf`. |
| CnfSpec.UnitScanKeepsNoEmpty | hw2.py:188-194 | The unit pass adds no empty right side. |
| CnfSpec.UnitScanKeepsEmpty | hw2.py:188-194 | The unit pass keeps an empty right side in `_todo`. |
| Cnf.CnfGrammar.PopUnitAt | hw2.py:191-193 | Popping a unit production and sorting in its copies gives the worklists of `CnfSpec.PopUnit`. |
| Cnf.CnfGrammar.ConvertUnitProductions | hw2.py:188-194 | The recursive pass ends in the state `CnfSpec.UnitScan` gives, or raises `RecursionLimit` exactly when the scan runs out of fuel. |
| Cnf.CnfGrammar.RestartUnitProductions | hw2.py:190-194 | A popped unit production and the nested call leave a `_todo` without unit productions. |
| CnfSpec.ConvertNonBinary | hw2.py:237-256 | It succeeds iff the right side has at least two names. `L -> r0 r1 r2 ...` becomes `Y -> r0 r1` and `L -> Y r2 ...`, one name shorter, and putting `r0 r1` back for `Y` gives the old right side. |
| Cnf.CnfGrammar.ConvertNonBinary | hw2.py:237-256 | Editing the right side in place gives the rules of `CnfSpec.ConvertNonBinary` with the name just allocated. |
| CnfSpec.NonBinaryScanKeeps | hw2.py:228-234 | When the non-binary pass succeeds every rule of `_todo` is binary and the lists stay sorted. It succeeds when no right side is shorter than two, and fails when an empty right side is still ahead. |
| CnfSpec.NonBinaryWeight | hw2.py:228-234 | Each split lowers the number of splits still needed, so the recursion ends. |
| Cnf.CnfGrammar.PopNonBinaryAt | hw2.py:231-233 | Popping a rule and splitting it gives the state of `CnfSpec.PopNonBinary`, or raises exactly its `IndexError`. |
| CnfSpec.NonBinaryReusesGrammarName | hw2.py:74-88 | With nothing allocated yet, the first split is named `X1` even when the grammar already has rules for `X1`, and those rules stay beside the new `X1 -> r0 r1`. |
| Cnf.CnfGrammar.ConvertNonBinaries | hw2.py:228-234 | The recursive pass ends in the state `CnfSpec.NonBinaryScan` gives, or raises its `IndexError`. |
| Cnf.CnfGrammar.RestartNonBinaries | hw2.py:230-234 | A popped and split rule and the nested call leave every rule of `_todo` binary. |
| CnfSpec.ConvertFromCfgSorts | hw2.py:276-287 | After a successful conversion every rule of `_done` satisfies `_isCnf`. Every rule left in `_todo` is binary with a terminal in it. |
| CnfSpec.NormalizeIsCnf | hw2.py:276-287 | Every rule of a successfully converted grammar satisfies `_isCnf`. |
| CnfSpec.EmptyRightFails | hw2.py:243 | A grammar with an empty right side always fails to convert. |
| CnfSpec.TooShortNeedsEmptyRight | hw2.py:243 | The conversion fails at `rule.right[0]` only if the grammar has an empty right side. |
| CnfSpec.SkippedHybridIsDropped | hw2.py:159-166 | Of `S -> 'a' 'b'` and `S -> 'c' 'd'` only the first is converted. The second stays in `_todo` and is lost at line 287. |
| Cnf.CnfGrammar.ConvertFromCfg | hw2.py:276-287 | The method runs `_sortRules` and the three passes in order. It ends in the state of `CnfSpec.ConvertFromCfg` with `rules == _done`. |
| Cnf.CnfGrammar.constructor | hw2.py:152-155 | Before the conversion the rules, allocated names, `_todo` and `_done` are all empty. |
| Cnf.NormalizeGrammar | hw2.py:152-156 | `CnfGrammar(g).rules` is `CnfSpec.Normalize(g)`: the converted grammar or the failure it raises. |
| ChartSpec.LeafCellIff | hw2.py:361 | An entry is in cell `(j-1, j)` iff it has no pointers and is named by the left side of a rule whose first right symbol is the quoted token. |
| ChartSpec.LeafCellCount | hw2.py:361 | Nothing is merged: the leaf cell has one entry per matching rule, duplicates included, and its p-th entry is named by the p-th matching rule in grammar order. |
| Cky.CkyParser.LeafTags | hw2.py:361 | The comprehension gives the leaf cell in grammar order, or fails iff some rule has no right symbol. |
| ChartSpec.ForRulesIff | hw2.py:368-382 | For one split point the rule, b and c loops add exactly the joins: rules whose two right symbols name a b-cell entry and a c-cell entry. |
| ChartSpec.ForCCount | hw2.py:374-382 | The c loop adds one entry per c-cell index whose entry the rule joins with the b entry. |
| ChartSpec.ForBCount | hw2.py:370-382 | The b loop adds, for each b-cell entry, one entry per c-cell entry it joins with. |
| ChartSpec.ForRulesCount | hw2.py:368-382 | For one split point the loops add one entry per (rule, b, c) match, a rule listed twice counted twice: no deduplication. |
| ChartSpec.FromSplitCount | hw2.py:368-382 | Split point `m` adds one entry per (rule, b, c) match on cells `(i, m)` and `(m, j)`. |
| ChartSpec.SplitsToCount | hw2.py:365-383 | Cell `(i, j)` with `j > i + 1` holds one entry per (split point, rule, b, c) match. |
| ChartSpec.SpanHas | hw2.py:363-385 | Cell `(i, j)` holds the entry of every rule joining an entry of `(i, k)` with one of `(k, j)`, for every `i < k < j`. |
| ChartSpec.SpanFrom | hw2.py:363-385 | Each entry of cell `(i, j)` is such a join, with exactly the two pointers `(i, k, b)` and `(k, j, c)`, both in range. |
| ChartSpec.SpanIff | hw2.py:363-385 | Both directions together. |
| ChartSpec.SpanNames | hw2.py:361-382 | Every entry of every cell is named by the left side of some rule. |
| ChartSpec.CnfNeverCrashes | hw2.py:361-376 | A grammar of `_isCnf` rules with nonterminal left sides never makes `_buildTable` raise. |
| ChartSpec.TerminalLeftCrashes | hw2.py:258-265 | A grammar whose every rule passes `_isCnf`, one with a terminal left side, still makes `_buildTable` raise on `b b`. |
| Cky.CkyParser.NewTable | hw2.py:356 | The table is `(n+1) x (n+1)`, of new empty cells. |
| Cky.CkyParser.FillLeaf | hw2.py:361 | It succeeds iff every rule has a right symbol, and then cell `(j-1, j)` holds the leaf cell. |
| Cky.CkyParser.BuildTable | hw2.py:352-387 | It returns an `(n+1) x (n+1)` table of distinct cells. It fails iff the sentence `Crashes`, and otherwise every cell holds the chart. |
| Cky.CkyParser.FillColumn | hw2.py:359-385 | One turn of the j loop fills the leaf cell and then the cells of column j from the bottom up, failing iff one of them raises. |
| Cky.CkyParser.FillCell | hw2.py:365-383 | The k loop fills cell `(i, j)` from its split points, failing iff one clashes. |
| Cky.CkyParser.AddSplit | hw2.py:368-382 | The rules loop appends the joins of one split point, or fails iff some rule clashes. |
| Cky.CkyParser.AddForB | hw2.py:370-382 | The b loop for one rule appends its joins, or fails iff the rule clashes. |
| Cky.CkyParser.AddJoins | hw2.py:374-382 | The c loop succeeds iff the c cell is empty or the rule has a second right symbol, and appends the matching joins. |
| Cky.Cell.constructor | hw2.py:427-429 | A new cell is empty. |
| Cky.Cell.AddTag | hw2.py:431-432 | It appends one tag. |
| Cky.Cell.AddTags | hw2.py:434-436 | It appends the tags in order. |
| ChartSpec.RenderConsumes | hw2.py:407-425 | A tree over cell `(i, j)` consumes the next `j - i` tokens, or all that remain if fewer do. |
| ChartSpec.RenderLeaf | hw2.py:419-424 | A node without pointers prints the first remaining token, if any, and consumes it. |
| ChartSpec.RenderShape | hw2.py:407-425 | A binary node prints its b child and then its c child, threading the tokens, between `(name` and `)`. |
| ChartSpec.RenderParens | hw2.py:407-425 | With no parenthesis in names or tokens, a tree over `(i, j)` prints `2(j-i) - 1` opening and as many closing parentheses, one pair per node. |
| ChartSpec.TreeReadsAllTokens | hw2.py:396-403 | Every tree printed from the root cell consumes exactly all tokens of the sentence. |
| ChartSpec.TreesSpec | hw2.py:389-405 | There is one tree per `TOP` entry of the root cell, and each is balanced as above. |
| ChartSpec.NoTokensNoTrees | hw2.py:392-396 | A sentence without tokens has an empty root cell and no tree. |
| Cky.CkyParser.AddNodeToString | hw2.py:407-425 | The recursive method appends the render of the tag and leaves the unconsumed tokens. |
| Cky.CkyParser.AddChildren | hw2.py:415-417 | The loop over pointers appends each child's render in turn. |
| Cky.CkyParser.OpenNode | hw2.py:408-412 | It appends a newline, two spaces per level and `(name`. |
| Cky.CkyParser.BuildStrings | hw2.py:389-405 | It returns the strings of `ChartSpec.Parse`: one per `TOP` root entry, in cell order. |
| Cky.CkyParser.Parse | hw2.py:347-350 | It returns None iff `_buildTable` raises, and otherwise the strings `ChartSpec.Parse` gives. |
| Cky.CkyParser.constructor | hw2.py:341-344 | The parser reads the rules of the `CnfGrammar` it is built with. |

## Left out

- Tokenization by `nltk.word_tokenize` (hw2.py:353, 394) is a foreign library. The tokens are a parameter, and `_buildStrings` is given the same tokens `_buildTable` used.
- File reading and writing are I/O and are not modelled. This covers `Grammar.load`, the header and file writes of `writeToFile`, `Parser.load` and `writeParsesToFile` (hw2.py:111-123, 139-148, 295-338). `load` is modelled on a list of lines. `writeToFile` is modelled as the order in which it lists the rules.
- The average parse count (hw2.py:337) is floating point, and the module-level script reading `sys.argv` (hw2.py:438-455) is command-line plumbing.
- `copy.deepcopy` and object identity (hw2.py:271-273, 397) are not modelled: rules, tags and pointers are immutable values. `_addNodeToString` pops from its copy of the token list; the model threads the remaining tokens through as a returned value instead.
- Tag identity inside cells is not modelled: a tag is its name and its pointers. `isParentOfTerminal` is never read and is left out.
- The model does not capture the Python interpreter's actual recursion limit. Nested calls of `_convertUnitProductions` are bounded by a `fuel` parameter instead, and running out is the failure `RecursionLimit`. `_convertNonBinaries` (hw2.py:234) also recurses once per split; the model lets it nest without bound, so a grammar that needs about a thousand splits converts in the model where Python raises `RuntimeError`.
- Cnf.CnfGrammar.ConvertUnitProductions: states the result for a given fuel, not for the interpreter's real stack depth, which depends on the caller.
- The `IndexError` raised in `_buildTable` and `_convertNonBinary` is modelled as a failure result (`ok == false`, `None`, `RightTooShort`), not as a propagating exception.
- Cky.Cell.constructor: the ghost field `at` records the table position the cell is made for. It exists only so the proofs can tell the cells apart.
- CnfSpec.ConvertUnitProductionCopies: states which rules are produced, not their order. The order, `_done` before `_todo` and each in list order, is the definition of `CnfSpec.ConvertUnitProduction` itself.
- ChartSpec.RenderConsumes: states which tokens a tree consumes, not a flattened list of leaf words. That the leaves print the tokens left to right follows from RenderLeaf, RenderShape and RenderConsumes together; no single lemma states it.
- Strings are Python 2 byte strings taken as sequences of characters with ASCII meanings for whitespace, case and `isalnum`. Locale-dependent behaviour is not modelled.
