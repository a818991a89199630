# Verified models of the configuration engine and four small algorithms

This project models, in Dafny, parts of a build system for embedded Linux, and proves what they are
for. `dafny verify dfyconfig.toml` checks everything.

**The Kconfig engine (`adk/config`).** A configuration is made of symbols with conditions in
three-valued logic: n < m < y, `||` is the maximum, `&&` the minimum and `!v` is 2 - v; `=` and `!=`
compare the strings of two symbols. The engine

- simplifies conditions (`expr.c`): elimination of constants, of common operands and of duplicates,
  negation normal form, rewriting of comparisons, a semantic equality test. Proved: which of these keep
  the value of a condition, in which environments, that the simplification ends, and that it leaves no
  duplicates;
- reshapes the tree of menu entries (`menu.c`): conditions are handed down, following entries become
  automatic submenus, unnamed groups are flattened. Proved: the pointer surgery keeps the order of the
  entries, which entries nest in the end, what the conditions handed down mean, which entries become a
  submenu, and under which condition that is justified;
- evaluates symbols lazily with a flag for valid results (`symbol.c`). Proved: in whatever order symbols
  are asked for, the results are those of a plain recursive evaluator, which is the only solution of
  the equations, and what the value of a symbol is in terms of its prompts, defaults and selects; one choice group stays exclusive over all runs; the search for recursive dependencies
  misses no cycle, and reports nothing else unless a choice and what its members depend on are tangled;
- writes, minimises and reads configurations (`confdata.c`). Proved: the text round-trips, and exactly
  when the minimal file loses nothing, and that none of its lines can be left out.

**MD5 (`mkcrypt.c`).** The streaming context refines the one-shot definition in sections 3.1 to 3.5 of
RFC 1321, including the unrolled block function.

**Adler-32 (`adler.h`)**, **unaligned reads through firmware that reads sectors (`cons.c`)** and **the
string table (`strmap.c`)** refine their plain definitions.

## How the files fit together

| files | what they hold |
|---|---|
| `Expressions` | three-valued logic, conditions, environments; the well-typed environments are those the symbol table can produce (`ValuesWellTyped` proves that it does) |
| `EliminateConstants`, `ExprEquality`, `ExtractCommon`, `Transformation`, `JoinOperands`, `Positions`, `Duplicates`, `Comparisons`; `Operands`, `ExprReflexive`, `DuplicatesGone` | the passes of `expr.c` as functions on expressions, and their properties |
| `ExprNodes` | the passes that rewrite nodes in place, on a heap of nodes, each proved against its function |
| `MenuTree`, `MenuConditions`, `MenuShape`, `Menus` | the reshaping as a function on forests, what becomes of the conditions and of the shape, and the reshaping on linked menu entries |
| `Symbols`, `ValueRules`, `ModulesValue`, `MinimalConfig`, `MinimalNeeded`, `SymbolTable` | the recursive evaluator, what its values are, the value that switches modules on, the minimal configuration and which of its lines are needed, and the table with its cache |
| `Choices` | one choice group and its runs |
| `Dependencies`, `ReportedWalks`, `DependencySearch`, `SearchComplete`, `DependencyCheck` | the dependency relation, the walks that are reported, the search as a function on flags, what it cannot miss, and the search with its flags and its stack, proved against that function |
| `EvaluationOrder` | the relation of the search and the one that the evaluator follows |
| `DuplicatesWitness`, `SubmenuWitness`, `MinimalWitness`, `OrderWitness` | concrete inputs at which the code does not do what one would expect |
| `ConfigText`, `ConfigLines` | printing and reading configurations, and what single lines mean |
| `Md5Definition`, `Md5Vector`, `Md5`, `Md5Context`; `Adler`; `ConsRead`; `StrMap` | the small algorithms |

## Where the code does less, or something else, than it seems

- `expr_eliminate_dups2` (`adk/config/expr.c:577`, `592`) replaces `(FOO || BAR) && (!FOO && !BAR)` by
  n. That is wrong when the conjunction is m. `CancelExactUnlessMod` shows that this is the only way
  for the step to be wrong, `EliminateDupsDecides` that a run never changes n or y, and
  `ModMayBeDecided` runs the pass on a condition it changes.
- The same function does not return after descending into its second argument, as its sibling does
  (`adk/config/expr.c:567-570`); the model keeps that.
- `expr_trans_compare` treats `!` as if m were not its own negation (`adk/config/expr.c:908-909`):
  `TransCompareNotIff` says when that matters. `expr_trans_bool` replaces `FOO!=n` by `FOO`: it keeps "is
  not n" above `!` (`TransBoolKeepsNonNo`), and the value if no symbol tested is at m
  (`TransBoolKeepsValue`); both conditions are exact at a single test (`TransBoolLeafIff`,
  `TransBoolBelowNotIff`).
- A symbol that is not defined anywhere has the value n but its own name as string, so that `FOO` and
  `FOO!=n` differ (`TransCompareLeafIff` gives the exact condition). Such symbols occur in ordinary
  conditions, and with one an entry can become a submenu that is active while the entry above it is not:
  `AdoptedWithoutCause`. `AdoptionMeans` says what an adoption means in any case, and `AdoptionJustified`
  which two readings must be right for it to be justified.
- The minimal configuration is not always lossless. With modules on, a tristate symbol that is visible
  and selected at m, has a default of y and was set to m by the user is skipped as unchangeable and becomes
  y when the file is read (`LostWithModules`). With selects that carry a value it also happens with modules
  off, since `sym_get_string_default` ignores these selects (`LostWithoutModules`). `MinimalLosslessIff`
  gives the exact condition, `TrapMeansM` and `TrapUnpacked` take it apart.
- `sym_clear_all_valid` calculates the modules symbol while the old `modules_val` still counts. That
  settles at once if the modules symbol does not depend on tristate symbols (`ModulesSettle`); otherwise it
  may never settle (`ModulesMayFlip`).
- The minimal configuration is minimal as long as no select carries a value (`EveryLineIsNeeded`). With
  such selects a line can be needless (`NeedlessLine`, `TriLineNeededIff`).
- The search for recursive dependencies does not follow selects that carry a value, so that two symbols can
  depend on each other through these without a report (`SelectsAreHidden`). Nor does it follow the direct
  dependency of a symbol without a prompt, or the dependency of comparisons of tristate symbols on modules
  (`EvaluableIff`, `SweepDefinitions`).
- `sym_check_deps` prints a recursive dependency and returns a symbol only to nested calls, so that the
  loop after parsing (`adk/config/zconf.y:516-519`) never counts an error and `exit(1)` is not reached.
  `Sweep` states that the count stays 0.
- With choices the search also reports walks that go down from a choice to a member, which is no
  dependency. Such a report need not show a cycle, and whether it is made depends on the order of the
  sweep: `OrderMatters` has a graph without a cycle that is reported in one order and not in the other.
  It takes a tangle: a member that depends on a symbol from which links lead back to its choice. Without
  tangles `Sweep` reports exactly if there is a cycle; with a tangle at a symbol outside all choices some
  order reports it (`TangledIsReported`). For tangles between choices only, nothing is claimed in that
  direction.
- A menu whose title has the form "FOO is not set" is read back as an unset symbol, because the prefix
  of symbol names is empty by default (`adk/config/lkc.h:39-47`): `TitleMayUnset`. `TitleHarmlessIff` and
  `HeadingHarmlessIff` say exactly which titles are skipped; the round trip asks for these.
- The comment of `MD5Pad` (`package/adk-helper/src/mkcrypt.c:145-148`) says that the bit count is stored
  most significant byte first. The code stores it least significant byte first, as the RFC demands.
- The loop of `hash` in `adk/tools/strmap.c:336` compares where it should assign. Every key that is not
  empty has the hash 5381 (`Hash`, `OneBucket`), and for an empty key the loop reads past the string. The
  table is proved to be a map for any deterministic hash, that constant included.

## Model

| member | source | states |
|---|---|---|
| Expressions.NoModIsTwoValued | adk/config/expr.c:938-977 | An expression none of whose symbols is at m has the value n or y. |
| EliminateConstants.EliminateYNKeepsValue | adk/config/expr.c:231-312 | expr_eliminate_yn keeps the value in every environment in which y and n have their values. |
| EliminateConstants.EliminateYNShrinks | adk/config/expr.c:231-312 | One pass leaves no reachable constant y or n, never adds a leaf, drops at least one if it had a constant to remove, and otherwise changes nothing. |
| ExprEquality.EliminateOperandsFactors | adk/config/expr.c:130-162 | __expr_eliminate_eq splits both sides, in every tristate environment, into one common part joined with what is left of each side. |
| ExprEquality.ExprEqSound | adk/config/expr.c:189-229 | expr_eq answers "equal" only for expressions that have the same value in every tristate environment; the mutual recursion with expr_eliminate_eq ends. |
| ExprReflexive.ExprEqReflexive | adk/config/expr.c:189-229 | expr_eq finds every expression equal to itself, whatever stands in it. |
| Operands.ExprEqIff | adk/config/expr.c:189-229 | For two conjunctions, or two disjunctions, of symbols, comparisons and negations of these, none of them the deciding constant: expr_eq answers "equal" if and only if they have the same operands, each as often, in whatever order and nesting. |
| Operands.EliminateOperandsRemoves | adk/config/expr.c:130-162 | Of such expressions __expr_eliminate_eq leaves on each side exactly the operands that the other one does not have. |
| ExprEquality.EliminateEqToYesImplies | adk/config/expr.c:164-184 | If expr_eliminate_eq leaves only y of the second side, the first side is at most the second one in every environment, although the two passes may use different operators. |
| ExtractCommon.ExtractOperandsRebuilds | adk/config/expr.c:848-875 | expr_extract_eq: the extracted part joined with the remainders gives back the values of both sides, whatever had been extracted before. |
| ExtractCommon.ExtractEqRebuilds | adk/config/expr.c:826-846 | The same for expr_extract_eq_and and expr_extract_eq_or with their final elimination of constants. |
| Operands.ExtractsAllIff | adk/config/expr.c:576-605 | The guard of the cancelling step on such expressions: everything is extracted from one side if and only if all its operands, as often as they occur, are operands of the other. |
| Transformation.TransformKeepsValue | adk/config/expr.c:636-771 | expr_transform keeps the tristate value in every well-typed environment. |
| Transformation.TransformNormalizes | adk/config/expr.c:636-771 | The result is a normal form (! only directly on a symbol other than y, m, n; no boolean symbol compared with one of these), and the fixed points of expr_transform are exactly the normal forms. |
| Transformation.TransformIdempotent | adk/config/expr.c:636-771 | Transforming twice is transforming once. |
| Transformation.Transform | adk/config/expr.c:636-771 | The rewriting ends: no step increases the weight that counts twice below each !, under which the De Morgan steps decrease. |
| JoinOperands.JoinExact | adk/config/expr.c:346-502 | Whenever expr_join_or or expr_join_and finds a joined expression, it has exactly the value of the disjunction or conjunction in every well-typed environment. |
| JoinOperands.JoinOrExact | adk/config/expr.c:346-408 | Each rule of expr_join_or is exact, the rules for comparisons of one symbol included. |
| JoinOperands.JoinAndExact | adk/config/expr.c:410-502 | Each rule of expr_join_and is exact. |
| JoinOperands.JoinShape | adk/config/expr.c:346-502 | A joined expression has at most the nodes and leaves of the first operand, has no new operator at its root, and stays normal. |
| Positions.SpineValue | adk/config/expr.c:504-554 | Replacing one operand reached through one operator changes the value as replacing that operand in the join does. |
| Positions.PutTwoKeepsValue | adk/config/expr.c:526-549 | Rewriting two operands at different positions keeps the value if the join of the two keeps its value. |
| Duplicates.Dups1KeepsValue | adk/config/expr.c:504-554 | expr_eliminate_dups1, called with positions in one tree (also equal ones, where `e1 == e2` is identity of position), keeps the value in every well-typed tristate environment. |
| Duplicates.CancelExactUnlessMod | adk/config/expr.c:576-605 | The step of expr_eliminate_dups2 that writes a constant: when its guard holds, the new value is the old one if and only if the old one was not m. |
| Duplicates.Dups2Decides | adk/config/expr.c:556-610 | expr_eliminate_dups2 keeps n and y in every well-typed environment, whatever symbols are at m; only an m may become decided. |
| Duplicates.Dups1Progress | adk/config/expr.c:504-554 | The first pass never adds a leaf, and each change it counts leaves a constant that expr_eliminate_yn can reach; normal forms stay normal. |
| Duplicates.Dups2Progress | adk/config/expr.c:556-610 | The same for the second pass. |
| Duplicates.RoundProgress | adk/config/expr.c:612-634 | A round that counts a change ends, after expr_eliminate_yn, with strictly fewer leaves: the simplification loop terminates. |
| Duplicates.EliminateDupsLoop | adk/config/expr.c:612-634 | The loop with its change counter computes the function all other results are about. |
| Duplicates.EliminateDupsDecides | adk/config/expr.c:612-634 | A whole run of expr_eliminate_dups keeps n and y in every well-typed tristate environment; only an m may become decided. |
| Duplicates.EliminateDupsKeepsValue | adk/config/expr.c:612-634 | With no symbol at m, expr_eliminate_dups keeps the value. |
| Duplicates.EliminateDupsKeepsNormal | adk/config/expr.c:612-634 | A normal form stays one. |
| DuplicatesGone.NoDuplicatesLeft | adk/config/expr.c:612-634 | expr_eliminate_dups eliminates duplicates: in its result, in every conjunction and disjunction at any depth, no operand occurs twice, and no two operands are left that one comparison of their symbol can replace (the pairs are listed one by one). |
| DuplicatesGone.NothingCancels | adk/config/expr.c:556-610 | Nor is an operand left whose negation is a conjunction of literals that all stand beside it (and the dual). |
| DuplicatesGone.EliminateDupsDone | adk/config/expr.c:612-634 | The loop ends with an expression that both passes leave alone. |
| DuplicatesGone.JoinsAll | adk/config/expr.c:346-502 | expr_join_or and expr_join_and join an operand with itself, and each of the listed pairs in either order. |
| DuplicatesWitness.ModMayBeDecided | adk/config/expr.c:577-605 | The limit is real: (F or B) and (not F and not B) with F and B at m is m, and a whole run turns it into n. |
| Duplicates.Dups2Idle | adk/config/expr.c:556-610 | A call of expr_eliminate_dups2 that counts no change changes nothing: only the cancelling step rewrites. |
| Duplicates.FirstPassOnlyKeepsValue | adk/config/expr.c:612-634 | Without its second pass the loop of expr_eliminate_dups keeps the value in every well-typed tristate environment, whatever is at m. |
| Duplicates.NeverCancelsKeepsValue | adk/config/expr.c:612-634 | A run of the whole loop in which the cancelling guard never holds is the run without the second pass, and so keeps the value in every well-typed tristate environment. |
| Comparisons.TransBoolKeepsNonNo | adk/config/expr.c:317-341 | On a normal form expr_trans_bool never changes whether the value is n, never raises a value, and leaves a normal form. |
| Comparisons.TransBoolKeepsValue | adk/config/expr.c:317-341 | Where the value itself counts (a select condition): expr_trans_bool keeps it, below ! as well, in every well-typed environment in which no symbol tested by FOO!=n is at m. |
| Comparisons.TransBoolLeafIff | adk/config/expr.c:328-334 | At one test the condition is exact: the value is kept if and only if the symbol is not at m, and at m it drops from y to m. |
| Comparisons.TransBoolBelowNotIff | adk/config/expr.c:322-327 | Below a ! the rewriting keeps "is not n" if and only if the symbol is not at m; so the normal form is needed. |
| Comparisons.TransCompareMeans | adk/config/expr.c:877-936 | What expr_trans_compare with y or n computes on any condition, in every environment: symbols are read through their strings, and ! turns the answer round. |
| Comparisons.TransCompareLeafIff | adk/config/expr.c:928-929 | At a symbol the comparison is right if and only if the symbol says what it is: its string is "y" (or "n") exactly when its value is. |
| Comparisons.TypedSays | adk/config/symbol.c:363-428 | Bool and tristate symbols and the fixed constants always do. |
| Comparisons.TransCompareExact | adk/config/expr.c:877-936 | On a whole condition the comparison is right if all its symbols say what they are and nothing below a ! is at m. |
| Comparisons.TransCompareNotIff | adk/config/expr.c:908-909 | At a !, over any operand: if the operand is not m the comparison is right exactly when it is right for the operand, and if it is m exactly when it is wrong for it. |
| Comparisons.DependsMeansNeeds | adk/config/expr.c:797-824 | A condition for which expr_depends_symbol holds is n whenever the symbol is, in every well-typed tristate environment in which that symbol, when at n, has the string "n"; and it contains the symbol. |
| Comparisons.DependsLeafIff | adk/config/expr.c:814-819 | The demand that a symbol at n has the string "n" is exact: for FOO!=n the property holds if and only if FOO has it. |
| Comparisons.SimplifiedMeans | adk/config/menu.c:375-386 | The conditions as menu_finalize prepares them for comparison are y or n, namely what expr_trans_compare reads in the original one: for all conditions and all well-typed tristate environments. |
| Comparisons.SimplifiedExact | adk/config/menu.c:375-386 | They are y exactly when the original condition is not n, if its symbols say what they are and m is not below a !. |
| Comparisons.AdoptionMeans | adk/config/menu.c:374-399 | What an adoption means for all conditions and all well-typed tristate environments: the condition depends on the symbol, or it is not read as on unless the prompt is. |
| Comparisons.AdoptionJustified | adk/config/menu.c:374-399 | Automatic submenus are justified: whenever an adopted entry's condition is not n, the parent symbol or the parent's prompt condition is not n, provided the condition is read as on when it is on, and the prompt as off when it is off. |
| Comparisons.AdoptionJustifiedWhenComparable | adk/config/menu.c:374-399 | In particular when all symbols in both conditions say what they are; m may occur anywhere but below a !. |
| SubmenuWitness.AdoptedWithoutCause | adk/config/menu.c:374-399 | The proviso is needed: with an undefined symbol U, a prompt "if U" and the condition U!=n && !P, the entry is adopted and is active while neither P nor its prompt is. |
| ExprNodes.Copy | adk/config/expr.c:62-97 | expr_copy makes a tree of fresh nodes that holds the same expression. |
| ExprNodes.EliminateYNInPlace | adk/config/expr.c:231-312 | The rewriting in place leaves in the nodes exactly what the function on values gives, and uses no node it was not given. |
| ExprNodes.TransBoolInPlace | adk/config/expr.c:317-341 | The same for expr_trans_bool. |
| ExprNodes.TransformInPlace | adk/config/expr.c:636-771 | The same for expr_transform, which may return another node than it was given and may allocate; no node occurs twice in the result. |
| ExprNodes.TransformNegation | adk/config/expr.c:692-765 | The cases for ! of expr_transform on nodes: the freed negation, the flipped comparison, De Morgan with one new node, the constants. |
| ExprNodes.DeMorgan | adk/config/expr.c:708-725 | The node of the operator becomes the first negation, one new node the second, and the node of ! the dual operator. |
| ExprNodes.EliminateOperandsInPlace | adk/config/expr.c:130-162 | __expr_eliminate_eq on two disjoint trees: what `*ep1` and `*ep2` point to afterwards holds what the function on values gives, and the trees stay disjoint. |
| ExprNodes.EliminateEqInPlace | adk/config/expr.c:164-184 | The same for expr_eliminate_eq. |
| ExprNodes.EqualNodes | adk/config/expr.c:189-229 | expr_eq on nodes answers as the function on values does and changes neither argument: conjunctions and disjunctions are compared on copies. |
| MenuConditions.PropagatedIsNormal | adk/config/menu.c:344-371 | The conditions that menu_finalize applies expr_trans_bool to are normal forms, and so are all it stores, whatever the Kconfig file says. |
| MenuConditions.TreeNormal | adk/config/menu.c:318-458 | From the root menu on, menu_finalize leaves every condition of the tree in normal form. |
| MenuConditions.ConjoinMeans | adk/config/menu.c:348-362 | A condition handed down is the conjunction with the inherited one, of which only an m may have been decided. |
| MenuConditions.PropagatedMeans | adk/config/menu.c:344-371 | An entry after its parent handed down its condition: what its dependency and its prompt condition have become in every well-typed tristate environment. |
| MenuConditions.PropagatedVisibility | adk/config/menu.c:359-369 | For a symbol that is not tristate, the rewritten conditions of all its prompts give the visibility that they would give without expr_trans_bool and, unless a conjunction is at m, that of the conditions before any simplification. |
| MenuConditions.AdoptedQualify | adk/config/menu.c:378-399 | Adoption takes exactly a run of entries that qualify: all taken do, and what is left is empty or starts with one that does not. |
| MenuConditions.SubmenuJustified | adk/config/menu.c:374-404 | So every entry that became a submenu in the tree is justified in the sense of AdoptionJustified. |
| MenuConditions.DependingIsAdopted | adk/config/menu.c:378-399 | The other direction: an entry whose condition depends on the symbol of the entry before it does become its submenu. |
| MenuConditions.DependingConditions | adk/config/expr.c:797-824 | Which conditions depend on a symbol: itself, its comparisons with y and m, the test that it is not n, and conjunctions with one of these. |
| MenuConditions.MentioningIsAdopted | adk/config/menu.c:378-399 | If the prompt of the symbol has no condition, every following entry whose condition mentions the symbol becomes a submenu. |
| MenuConditions.ImplyingIsAdopted | adk/config/menu.c:378-399 | And so does one that mentions it and whose prepared condition has all conjuncts of the prepared prompt condition. |
| MenuConditions.ChildNeedsParent | adk/config/menu.c:344-352 | What is handed down: an entry can be on only if the choice symbol is, below a choice; if the prompt condition is, below an entry with a prompt; and if the dependency is, below any other. |
| MenuShape.FinalizeListing | adk/config/menu.c:318-458 | Conditions are handed down along the tree as it was written; adoption and flattening change no field of any entry. |
| MenuShape.FinalizeNests | adk/config/menu.c:408-458 | In the finished tree every entry that has children has a prompt with a text. |
| MenuShape.FlattenIff | adk/config/menu.c:448-457 | Which entries one level holds after flattening: its own, and those of every entry without a text, at any depth; an entry with a text keeps the children it had. |
| MenuTree.FinalizeKeepsPreorder | adk/config/menu.c:318-458 | menu_finalize on an entry and its following siblings keeps the preorder of the entries through adoption and flattening. |
| MenuTree.FinalizeAllKeepsPreorder | adk/config/menu.c:372-373 | So does finalizing all children. |
| MenuTree.AdoptAllKeepsPreorder | adk/config/menu.c:378-404 | So does adopting following siblings as children. |
| MenuTree.FlattenKeepsPreorder | adk/config/menu.c:448-457 | So does lifting the children of unnamed groups. |
| Menus.PropagateDeps | adk/config/menu.c:344-371 | The loop over the children overwrites each dependency and prompt condition with the simplified conjunction and changes no link. |
| Menus.Finalize | adk/config/menu.c:318-458 | The pointer surgery leaves (node, list, next) and the parent links exactly as the function on forests says, and the preorder of all entries unchanged. |
| Menus.FinalizeChildren | adk/config/menu.c:372-373 | The loop that finalizes each child, although finalizing may move the following ones below it. |
| Menus.AdoptSiblings | adk/config/menu.c:374-404 | The adopted siblings become the children, with the parent links set, and the rest follows the entry. |
| Menus.ScanSiblings | adk/config/menu.c:378-399 | The loop over following siblings finalizes and takes over exactly those that belong below the symbol and stops at the first that does not. |
| Menus.FlattenGroups | adk/config/menu.c:408-458 | The children of every entry without a prompt text are linked between it and its successor, also those that appear that way. |
| Menus.Splice | adk/config/menu.c:449-456 | One such group: new parents, new links, the old order. |
| Menus.Walk | adk/config/confdata.c:784-817 | The loop of conf_write with its moving cursor ends and visits every entry exactly once, in preorder. |
| Menus.FinalizeAndWalk | adk/config/confdata.c:784-817 | After menu_finalize on the root the loop visits the entries in the preorder they had before, each exactly once. |
| Menus.Climb | adk/config/confdata.c:810-816 | The climb along parent links ends at the next entry that is still to be visited, or nowhere if there is none. |
| Menus.NodesArePreorder | adk/config/confdata.c:784-817 | The entries of a menu tree are those of its preorder, and none occurs there twice. |
| Symbols.StepAgrees | adk/config/symbol.c:315-501 | The value of a symbol depends only on the values of symbols that come before it. |
| ValueRules.BoolRule | adk/config/symbol.c:364-428 | A bool symbol, or a tristate one without modules, is y if and only if: the user set it and a prompt is visible; or not so, and the first default that is on is not n; or its reverse dependency is not n; or a select that is on carries a value that is not n. Otherwise it is n. |
| ValueRules.TristateRule | adk/config/symbol.c:364-428 | A tristate symbol with modules has the greatest of these contributions, with the user value limited by a prompt and the default by its condition. |
| ValueRules.StringRule | adk/config/symbol.c:429-470 | A string or number is what the user set, if a prompt is visible; else what the symbol holds that the first select that is on carries; else what the symbol holds that the first default that is on names; else empty. |
| ValueRules.DefaultIsFirst | adk/config/symbol.c:116-126 | sym_get_default_prop answers the first default whose condition is not n, and none if there is none. |
| ValueRules.VisibleRule | adk/config/symbol.c:189-215 | A symbol is visible if some prompt is; fully, if some prompt is y, or if it is no tristate symbol or modules are off. |
| ValueRules.WritesRule | adk/config/symbol.c:364-470 | SYMBOL_WRITE is set if and only if a prompt is visible, something selects the symbol, or a default that counts is on. |
| Symbols.ValuesSolve | adk/config/symbol.c:315-501 | The recursive evaluator solves the equations of sym_calc_value for all symbols at once. |
| Symbols.SolutionUnique | adk/config/symbol.c:315-501 | It is the only assignment that solves them. |
| Symbols.ValuesWellTyped | adk/config/symbol.c:363-428 | Every computed assignment is well typed (no boolean at m, strings agree with values, constants differ), and with modules off no symbol is at m. |
| ModulesValue.ModulesSettle | adk/config/symbol.c:503-513 | If the modules symbol comes before all tristate symbols, one sym_clear_all_valid reaches from any recorded modules_val the one the definitions give, and what was calculated on the way under the old one is right under the new one. |
| ModulesValue.ModulesMayFlip | adk/config/symbol.c:503-513 | Otherwise there may be no such value: with modules defined through a tristate symbol at m, every clearing flips it, and a symbol on the way keeps the value calculated under the old one. |
| SymbolTable.Table.CalcExpr | adk/config/expr.c:938-977 | expr_calc_value with lazy calculation of symbols returns the value under the plain evaluator, keeps valid symbols and those of higher rank. |
| SymbolTable.Table.CalcVisibility | adk/config/symbol.c:189-241 | Visibility, direct and reverse dependency and select conditions become what the definition says; nothing else of the symbol changes. |
| SymbolTable.Table.CalcValue | adk/config/symbol.c:315-501 | sym_calc_value makes the symbol valid and correct, leaves valid symbols alone and sets SYMBOL_WRITE exactly where specified. |
| SymbolTable.Table.CalcTri | adk/config/symbol.c:364-428 | The bool and tristate branch computes the specified value and SYMBOL_WRITE. |
| SymbolTable.Table.CalcStr | adk/config/symbol.c:429-470 | The string, int and hex branch does. |
| SymbolTable.Table.ClearAllValid | adk/config/symbol.c:503-513 | After sym_clear_all_valid every valid symbol is correct; modules_val is unchanged. |
| SymbolTable.Table.Calc | adk/config/symbol.c:315-501 | One call as callers see it: correctness of all valid symbols is kept, a valid symbol does not change. |
| SymbolTable.Table.CalcInOrder | adk/config/symbol.c:315-513 | The lazy evaluator agrees with the recursive one: after clearing and any sequence of calls in any order, repetitions included, every valid symbol holds value, visibility and dependencies of the recursive evaluator, and all symbols asked for are valid. |
| SymbolTable.Table.IsChangeable | adk/config/symbol.c:850-859 | sym_is_changable decides as specified: visibility above every reverse dependency. |
| SymbolTable.Table.StringDefaultOf | adk/config/symbol.c:759-824 | sym_get_string_default returns the specified default and leaves the symbol as it was. |
| SymbolTable.Table.WriteDefconfig | adk/config/confdata.c:662-733 | conf_write_defconfig, with its recalculations and its clearing of SYMBOL_WRITE, writes exactly the specified lines in menu order, each symbol at most once. |
| MinimalConfig.LinesCarryMinimalUser | adk/config/confdata.c:674-722 | The lines written carry exactly the values of the minimal assignment, one line for each. |
| MinimalConfig.LocallyLossless | adk/config/confdata.c:688-719 | For one symbol: reading back gives another value if and only if the symbol is trapped, i.e. skipped as unchangeable although its user value overrides its default. |
| MinimalConfig.MinimalKeepsBelow | adk/config/confdata.c:662-733 | By induction over dependency rank: up to the first trapped symbol all values survive. |
| MinimalConfig.MinimalLosslessIff | adk/config/confdata.c:662-733 | The minimal configuration gives every symbol the value of the full one if and only if no symbol is trapped; selects with a value and modules are allowed. |
| MinimalNeeded.EveryLineIsNeeded | adk/config/confdata.c:662-733 | The minimal file is minimal: without selects that carry a value, leaving out any line gives its symbol another value. |
| MinimalNeeded.LineNeededIff | adk/config/confdata.c:662-733 | In general a line is needed if and only if the value of the user makes a difference for its symbol. |
| MinimalNeeded.LineIsNeeded | adk/config/confdata.c:688-719 | For one symbol without such selects: it gets a line only if the user set it and it would have another value otherwise. |
| MinimalNeeded.TriLineNeededIff | adk/config/confdata.c:688-719 | With them: always where m is promoted, and elsewhere if and only if the user value, limited by the prompt, and the default differ above what selects the symbol. |
| MinimalNeeded.StrLineNeededIff | adk/config/confdata.c:688-719 | For strings and numbers: unless a select that is on carries a symbol, and then if and only if the user set another string than that symbol holds. |
| MinimalNeeded.NeedlessLine | adk/config/confdata.c:688-719 | Lines that are not needed do occur: a tristate symbol that a select at m raises to y is written although nobody set it. |
| MinimalNeeded.LinesInMenuOrder | adk/config/confdata.c:674-722 | The lines come in the order of the first menu entries of their symbols. |
| MinimalNeeded.ChangeableIff | adk/config/symbol.c:850-859 | sym_is_changable: the visibility is above the reverse dependency and above every select that carries a value. |
| MinimalConfig.TrapMeansM | adk/config/symbol.c:759-859 | Without selects with a value a trap is exactly: modules on, a tristate symbol with a user value, visible at m, selected at m, with a default of y. |
| MinimalConfig.TrapUnpacked | adk/config/symbol.c:759-859 | With selects that carry a value: what a trap is in terms of the user value, visibility, default, the forced value and the values selected, for symbols at which m is promoted and for the others. |
| MinimalWitness.LostWithModules | adk/config/confdata.c:688-719 | Such a configuration with modules on: a tristate set to m, visible and selected at m and y by default, is read back as y. |
| MinimalWitness.LostWithoutModules | adk/config/confdata.c:688-719 | And one with modules off: a bool set to y that is selected with the value n is read back as n. |
| MinimalConfig.MinimalLosslessModulesOff | adk/config/confdata.c:662-733 | With modules off and no select with a value the minimal configuration is always lossless. |
| Choices.Group.InvIsExclusive | adk/config/symbol.c:283-313 | In every reachable state a valid choice at y has at most one valid, fully visible member at y; it is the recorded one, and that one is y when it is valid and fully visible. |
| Choices.Group.ChoiceDefault | adk/config/symbol.c:243-281 | sym_choice_default answers the first selected member, else the member of the first default that is on and visible, else the first visible member, and none only if no member is visible or selected. |
| Choices.Group.CalcChoice | adk/config/symbol.c:283-313 | sym_calc_choice calculates visibility and reverse dependency of all members, answers the member the user chose if it is visible and the default otherwise, keeps the choice set by the user only if all visible members are, and switches it off when there is none. |
| Choices.Group.CalcChoiceSymbol | adk/config/symbol.c:315-501 | Calculating the choice keeps exclusivity, gives it the specified value, and at y records the visible member the user chose, or the default. |
| Choices.Group.CalcMember | adk/config/symbol.c:366-371 | Calculating a member calculates the choice first; a fully visible member is y exactly if it is the recorded one, any other has the value of its user setting or default; the other members keep their values. |
| Choices.Group.SetMember | adk/config/symbol.c:559-593 | sym_set_tristate_value accepts exactly the values in range, records a member set to y as the choice of the user, takes the new mark from all visible members, and invalidates the group when the value changes. |
| Choices.Group.SetChoice | adk/config/symbol.c:559-593 | The same call on the choice symbol accepts exactly the values in range and records them. |
| Choices.Group.RangeIsEffect | adk/config/symbol.c:535-557 | The range of values that are accepted: a fully visible member can only be chosen; any other visible one can be set to exactly those values that it then has. |
| Choices.Group.ChoiceRangeIsEffect | adk/config/symbol.c:535-557 | The choice can be set, if it is visible above what selects it, to exactly those values that it then has. |
| Choices.Group.MemberVisibleIff | adk/config/menu.c:409-447 | When a member is visible, and when fully. |
| Choices.Group.ChoiceBaseRule | adk/config/symbol.c:364-428 | The value of the choice symbol before its members are looked at. |
| Choices.Group.PartialValueRule | adk/config/symbol.c:364-428 | The value of a member that is not fully visible. |
| Choices.Group.Run | adk/config/symbol.c:243-593 | Exclusivity over all runs: any sequence of settings, clearings and calculations. |
| Choices.Group.ChooseAndCalc | adk/config/symbol.c:559-593 | Choosing a member that is accepted and fully visible makes it y and every other valid, fully visible member n. |
| Dependencies.OrderedMeansAcyclic | adk/config/symbol.c:1327-1359 | If every node follows all it depends on in some order, the dependency relation has no cycle. |
| Dependencies.AcyclicMeansOrdered | adk/config/symbol.c:1327-1359 | Conversely, without a cycle such an order exists. |
| EvaluationOrder.SymsIff | adk/config/symbol.c:1225-1254 | The search of a condition looks at exactly the symbols that it contains, at those below a ! too. |
| EvaluationOrder.EvalOfSyms | adk/config/expr.c:938-977 | These symbols determine the value of the condition. |
| EvaluationOrder.DepsIff | adk/config/symbol.c:1256-1288 | What the search of a symbol looks at: its reverse dependency, the conditions of all properties but choices and selects, and the values of defaults unless the symbol is a choice. |
| EvaluationOrder.StepOfSearched | adk/config/symbol.c:315-501 | The relation searched is the one that evaluation follows: what it contains, with the selects that carry a value, determines the value of a symbol. |
| EvaluationOrder.EvaluableIff | adk/config/symbol.c:315-501 | All values can be computed one after the other if and only if the whole relation (with the direct dependency, the selects with a value and the modules symbol) has no cycle. |
| EvaluationOrder.SweepDefinitions | adk/config/zconf.y:516-519 | For symbols outside choices: a report means that evaluation would not end; without a report, and if every need is one that the search follows, an order of evaluation exists. |
| EvaluationOrder.SelectsAreHidden | adk/config/symbol.c:1256-1288 | That condition is needed: two symbols that select each other with a value are not reported, and no order of evaluation exists. |
| Dependencies.PathFalls | adk/config/symbol.c:1225-1288 | Along a path of dependencies the position in such an order falls at every step. |
| DependencyCheck.ClosesOnStack | adk/config/symbol.c:1153-1223 | From a symbol on the stack to its top the stack is a closed walk, with a dependency in it that is not that of a member on its choice, when the top depends on that symbol. |
| ReportedWalks.WalkIsCycle | adk/config/symbol.c:1153-1223 | A reported walk that does not go from a choice down to a member it does not depend on is a cycle of the dependency relation, choices and members included. |
| ReportedWalks.CycleOrTangled | adk/config/symbol.c:1153-1223 | Any reported walk shows a cycle, or that the graph is tangled: a member of a choice depends on a symbol outside from which links lead back to the choice. |
| SearchComplete.SearchComplete | adk/config/symbol.c:1327-1359 | What a search without a report has established: every symbol entered on the way has had all its dependencies entered, and depends on none that was under search already. |
| SearchComplete.TangledIsReported | adk/config/symbol.c:1327-1359 | A sweep that starts with a symbol outside all choices at which the graph is tangled does make a report, even if there is no cycle. |
| OrderWitness.OrderMatters | adk/config/zconf.y:516-519 | A graph without a cycle that a sweep in one order reports and a sweep in another order does not: X depends on the choice C, and the member A of C on X. |
| OrderWitness.ReportDescends | adk/config/symbol.c:1290-1325 | What is reported there is a closed walk that goes from the choice down to its member. |
| OrderWitness.ChoiceAloneIsNoReport | adk/config/symbol.c:1290-1325 | A walk among symbols that depend on nothing but their own choice is never reported. |
| DependencyCheck.Checker.ReportCycle | adk/config/symbol.c:1153-1223 | A flagged symbol that is met, or its choice, is always found on the stack ("unexpected recursive dependency error" cannot occur). One walk is reported: the stack from the last occurrence of that symbol to the top, followed by the symbol itself if it is a choice value. |
| DependencyCheck.Checker.CheckExprDeps | adk/config/symbol.c:1225-1254 | The search of a condition restores flags and stack and, without a report, finishes every symbol in it. |
| DependencyCheck.Checker.CheckSymDeps | adk/config/symbol.c:1256-1288 | So does the search of the reverse dependency and of the property conditions and defaults of a symbol. |
| DependencyCheck.Checker.CheckChoiceDeps | adk/config/symbol.c:1290-1325 | So does the search of a choice and its members, all flagged together. |
| DependencyCheck.Checker.CheckDeps | adk/config/symbol.c:1327-1359 | sym_check_deps restores CHECK flags and stack on return, returns only symbols under search, without a report has finished the symbol, and does to the flags and to the reports what the function `Search` says. |
| DependencyCheck.Checker.Sweep | adk/config/zconf.y:516-519 | A sweep over all symbols in any order. No report proves the relation acyclic. A report that does not descend into a choice proves a cycle, any report a cycle or a tangle; so on graphs without a tangle, choices included, it reports if and only if there is a cycle. Whether it reports is what the function `SearchAll` says, and the error count stays 0 in any case. |
| ConfigText.EscapeString | adk/config/symbol.c:987-1028 | sym_escape_string_value puts a backslash before each quote and backslash, and the buffer it sizes in its first pass holds the result and its terminator exactly. |
| ConfigText.UnescapeEscape | adk/config/confdata.c:155-170 | Reading an escaped string up to its closing quote gives the string back, whatever follows. |
| ConfigText.UnescapeInPlace | adk/config/confdata.c:160-170 | The loop that moves the rest of the buffer over each backslash and cuts it at the closing quote computes that reading, and refuses a string without a closing quote. |
| ConfigText.Configuration.SetSymVal | adk/config/confdata.c:120-188 | conf_set_sym_val assigns the specified value to one symbol, or refuses and changes nothing. |
| ConfigText.Configuration.GetLine | adk/config/confdata.c:211-243 | compat_getline returns the text up to and with the next newline. |
| ConfigText.Configuration.ReadLine | adk/config/confdata.c:311-375 | One round of the loop of conf_read_simple does what the line, parsed on its own, asks for. |
| ConfigText.Configuration.ReadSimple | adk/config/confdata.c:285-398 | conf_read_simple on any text, malformed lines included: reset, then every line in turn. |
| ConfigText.ParseUnset | adk/config/confdata.c:314-323 | The line of an unset symbol is read as that. |
| ConfigText.ParseAssign | adk/config/confdata.c:346-357 | A printed assignment is read as its name and its value. |
| ConfigLines.LineOfSymbol | adk/config/confdata.c:481-502 | A bool or tristate symbol at n is written as a comment that is read as unset, any other value as an assignment. |
| ConfigLines.LineOfText | adk/config/confdata.c:481-502 | A string is written as an assignment of its quoted form, a number as it is. |
| ConfigLines.AssignmentSets | adk/config/confdata.c:120-188 | Which assignments set a symbol: m is refused for a bool, an open string for a string, an invalid numeral for a number. |
| ConfigLines.IntIff | adk/config/symbol.c:618-651 | The values that an int symbol admits are exactly the decimal numerals, with or without a minus sign. |
| ConfigLines.CommentKeepsText | adk/config/confdata.c:505-522 | A printed comment without its number signs is its text. |
| ConfigText.TitleHarmlessIff | adk/config/confdata.c:792-800 | While no symbol has a value, a menu title leaves it so if and only if it is not read as the unset line of a known bool or tristate symbol. |
| ConfigText.TitleMayUnset | adk/config/confdata.c:792-800 | A menu whose title reads "FOO is not set" is read back as switching the symbol FOO off. |
| ConfigText.ReadComment | adk/config/confdata.c:505-522 | What kconfig_print_comment prints, line by line, is skipped by the reader. |
| ConfigText.HeadingHarmlessIff | adk/config/confdata.c:645-656 | The heading with the title of the root menu, cut at 255 bytes, is skipped if and only if the part of the title that fits (211 characters) is. |
| ConfigText.ReadPrinted | adk/config/confdata.c:784-817 | Reading a printed file, heading and comments included, learns the value of each printed symbol in turn and nothing from harmless titles. |
| ConfigText.RoundTrip | adk/config/confdata.c:481-502 | Configuration text round-trips: for distinct ordinary names and one-line values every symbol written has the value written as its user value ("is not set" lines and strings with quotes and backslashes included; an invalid int or hex value is dropped), and every symbol not written has none. |
| Md5.CoreIsAuxiliary | package/adk-helper/src/mkcrypt.c:186-190 | The optimized macros F1 to F4 are the functions F, G, H and I of RFC 1321. |
| Md5.StepAgrees | package/adk-helper/src/mkcrypt.c:193-194 | MD5STEP with its shifts and its order of additions is a step of the RFC. |
| Md5.Md5Step | package/adk-helper/src/mkcrypt.c:193-194 | One line of the unrolled function is step i, if it uses the function, word, constant and shift of step i. |
| Md5.Transform | package/adk-helper/src/mkcrypt.c:201-295 | The 64 unrolled lines, with their word indices, constants and shifts, update the state as section 3.4 of RFC 1321 says. |
| Md5.Decode | package/adk-helper/src/mkcrypt.c:206-216 | The words of a block are read low-order byte first. |
| Md5Context.Context.Init | package/adk-helper/src/mkcrypt.c:97-105 | MD5Init stands for the empty message. |
| Md5Context.Context.Update | package/adk-helper/src/mkcrypt.c:111-143 | MD5Update with any input: state, count and buffer stand for the bytes so far followed by the input, also when the bit count wraps round. |
| Md5Context.Context.Pad | package/adk-helper/src/mkcrypt.c:149-164 | MD5Pad leaves the state of the padded message of RFC 1321. |
| Md5Context.PaddingSplits | package/adk-helper/src/mkcrypt.c:155-163 | The padding is 9 to 72 bytes, the array PADDING is not overrun, and its two parts are the padding and the length field of the RFC, low-order byte first. |
| Md5Context.CountGivesFill | package/adk-helper/src/mkcrypt.c:117 | The fill of the buffer taken from the bit count is right modulo 2^64. |
| Md5Context.Context.PutState | package/adk-helper/src/mkcrypt.c:177-178 | The digest bytes are those of the four words. |
| Md5Context.Context.Final | package/adk-helper/src/mkcrypt.c:170-181 | MD5Final gives the RFC 1321 digest of all bytes and clears the context; without a place for the digest it only pads. |
| Md5Context.DigestOf | package/adk-helper/src/mkcrypt.c:97-181 | Split independence: for any sequence of pieces the digest is that of their concatenation. |
| Md5Definition.BlocksConcat | package/adk-helper/src/mkcrypt.c:132-137 | Taking blocks one run after the other is taking them at once. |
| Md5Definition.RotatedIsCircular | package/adk-helper/src/mkcrypt.c:194 | The two shifts are the circular shift, for each of the sixteen amounts. |
| Md5Definition.WordBytesRoundTrip | package/adk-helper/src/mkcrypt.c:81-85 | Writing a word as bytes and reading it back is the identity. |
| Md5Definition.OutputInjective | package/adk-helper/src/mkcrypt.c:81-85 | The digest determines the final state. |
| Md5Definition.Padding | package/adk-helper/src/mkcrypt.c:155-163 | The padding fills up to a multiple of 64 bytes and is 9 to 72 bytes long. |
| Md5Vector.DigestOfLetters | package/adk-helper/src/mkcrypt.c:97-295 | The digest of the lower case letters is the one in appendix A.5 of RFC 1321, so that constants, shifts, word indices, padding and byte order of the definition are those of the standard. |
| Adler.Calc | package/cfgfs/src/adler.h:47-58 | ADLER_CALC, with 32-bit additions that wrap round and one reduction per 5552 bytes, gives the sums of the per-byte definition for every length, from any reduced start. |
| Adler.AddBytes | package/cfgfs/src/adler.h:51-54 | The inner loop computes the unreduced sums. |
| Adler.NmaxIsExact | package/cfgfs/src/adler.h:39 | 5552 is exactly the number of bytes up to which no sum can reach 2^32. |
| Adler.OneMoreWraps | package/cfgfs/src/adler.h:39 | With 5553 bytes some data does make a sum wrap round. |
| Adler.ReduceAtTheEnd | package/cfgfs/src/adler.h:55-56 | Reducing once is reducing at every byte. |
| Adler.ChecksumClosedForm | package/cfgfs/src/adler.h:41-58 | The result is the pair of sums of section 8.2 of RFC 1950, written out. |
| Adler.BaseIsLargestPrime | package/cfgfs/src/adler.h:38 | 65521 is the largest prime below 2^16. |
| ConsRead.Console.Read | package/aboot/src/cons.c:110-166 | cons_read with any offset and count: an aligned read returns what the firmware returns; any other returns the count, with exactly the bytes of the device in the buffer, if all sectors it touches can be read, and -1 otherwise. Nothing after the count is written. |
| ConsRead.Console.ReadSectors | package/aboot/src/cons.c:121-165 | The loop over partial first sector, whole sectors and partial last sector. |
| ConsRead.Console.ReadPart | package/aboot/src/cons.c:127-163 | One round: it extends what has been read by the part of one sector. |
| StrMap.Hash | adk/tools/strmap.c:330-340 | The hash function gives 5381 for every key that is not empty. |
| StrMap.Table.GetPair | adk/tools/strmap.c:304-325 | get_pair finds the pair with the key, if there is one. |
| StrMap.Table.Exists | adk/tools/strmap.c:134-153 | strmap_exists answers as the map does. |
| StrMap.Table.Get | adk/tools/strmap.c:103-132 | strmap_get returns the size of, or copies with its terminator, the value of the map, and leaves the buffer alone when it does not fit. |
| StrMap.Table.Put | adk/tools/strmap.c:155-239 | strmap_put changes the map at the key and nowhere else. |
| StrMap.Table.GetCount | adk/tools/strmap.c:241-268 | strmap_get_count is the size of the map. |
| StrMap.Table.Enumerate | adk/tools/strmap.c:270-298 | strmap_enum calls back for each association of the map exactly once, and for nothing else. |
| StrMap.ReplaceKeeps | adk/tools/strmap.c:170-189 | Replacing the value in the pair of a key keeps all keys in their buckets, none twice. |
| StrMap.AppendKeeps | adk/tools/strmap.c:200-238 | So does appending a pair with a new key. |
| StrMap.EnumeratesAll | adk/tools/strmap.c:270-298 | A pair is in some bucket if and only if it is an association of the map, for any deterministic hash. |
| StrMap.KeysOnce | adk/tools/strmap.c:270-298 | No key occurs twice across all buckets. |
| StrMap.OneBucket | adk/tools/strmap.c:330-340 | With the hash function as it is, all keys that are not empty share one bucket. |

## Left out

- User interfaces (`mconf.c`, `nconf.c`, `gconf.c`, `qconf.h`, `lxdialog`, the interactive part of `conf.c`): calls of terminals and toolkits.
- Files and the environment: a file is a sequence of characters, the prefix of symbol names and the definitions of symbols are parameters. `conf_split_config`, `file_write_dep` and the header and tristate printers are not modelled.
- Memory: allocation succeeds, and freeing has no effect. In particular that `expr_extract_eq` may share a node between its result and an operand (`adk/config/expr.c:863`) is not visible.
- Parsing of Kconfig files, `sym_re_search`, random configurations, warnings and debug output.
- `expr_eliminate_dups1` and `expr_eliminate_dups2` are modelled on values with positions, not on nodes: what is kept is the identity of positions in the one tree both arguments point into; the reuse of nodes in place is not. The functions that return fresh nodes (`expr_join_or`, `expr_join_and`, `expr_extract_eq`, `expr_trans_compare`) and the tests that only read are functions on values, too.
- The counter `trans_count` outside `expr_eliminate_dups`: nothing reads what `expr_eliminate_eq` adds to it.
- `E_LIST` and `E_RANGE` expressions, and null operands inside an expression.
- In `menu_finalize`: the types and properties of choice values (`adk/config/menu.c:327-344`, `409-447`), the dependencies it adds to symbols (`406`, `472-482`), properties other than the prompt (`finalize_select`), and warnings. None of them changes a link of the tree.
- Menus.PropagateDeps: overwrites the dependency and the prompt; other properties of the symbol (defaults, selects, ranges) and `finalize_select` are not in the model.
- Menus.Finalize: for a choice, its type and properties and those of its values, and the dependencies that lines 406 and 472-482 add to symbols, are not in the model.
- Menus.FlattenGroups: the marking of choice values in the same loop (`adk/config/menu.c:409-447`) is not in the model.
- Choices in the evaluator, in the minimal configuration (`adk/config/confdata.c:695-713`) and in the reader (`adk/config/confdata.c:376-396`); `SYMBOL_NEED_SET_CHOICE_VALUES`, `SYMBOL_AUTO`, `SYMBOL_CHANGED`.
- SymbolTable.Table.CalcValue: choices, ranges and `SYMBOL_AUTO` are not in the model; a choice group has its own in `Choices`.
- SymbolTable.Table.CalcTri: the branch for choice values is not in the model; see `Choices.Group.CalcMember`.
- SymbolTable.Table.CalcStr: a string that is selected with a value takes it from a single symbol; other expressions there are not in the model.
- SymbolTable.Table.Calc: choices and ranges are not in the model.
- SymbolTable.Table.WriteDefconfig: the skipping of choice values (`adk/config/confdata.c:695-713`) is not in the model, and menu entries are for symbols that have a type.
- SymbolTable.Table.ClearAllValid: asks that the recorded `modules_val` is the value the definitions give to the modules symbol. `ModulesValue.ModulesSettle` says when one clearing reaches such a state from any other, and `ModulesValue.ModulesMayFlip` that there may be none.
- SymbolTable.Table.CalcInOrder: starts from such a state, too.
- MinimalConfig.MinimalLosslessIff: asks that prompts belong to menu entries that are walked over and that only bool and tristate symbols are selected with a value. A string that is selected with a value is in the evaluator, provided the value is a single symbol.
- Ranges of int and hex symbols (`sym_validate_range`, `sym_get_range_val`) and environment defaults.
- Choices.Group.Run: covers one group; what it depends on from outside may change whenever flags are cleared, but not between. Members that depend on each other are excluded, as the dependency check reports them. Selects that carry a value and name a choice or a member are not in the model.
- Choices.Group.CalcChoiceSymbol: selects with a value on the choice are not in the model.
- Choices.Group.SetMember: selects with a value are not part of the range test.
- Choices.Group.SetChoice: selects with a value are not part of the range test.
- EvaluationOrder.SweepDefinitions: covers symbols outside choices, since choices are not in the evaluator; symbols without a type have no definition.
- MinimalNeeded.LineNeededIff: asks that nothing of lower rank is trapped, as otherwise the reader starts from other values.
- Operands.ExprEqIff: for operands that contain conjunctions or disjunctions of the other kind, only `ExprReflexive.ExprEqReflexive` and `ExprEquality.ExprEqSound` are claimed; with a deciding constant among the operands expr_eq also finds different ones equal.
- DependencyCheck.Checker.Sweep: the text of the reports is not modelled, only the closed walk they name. On graphs that are tangled only at choices and their members, whether a graph without a cycle is reported is given by `SearchAll` and by no simpler condition.
- In the reader: definitions other than those of the user (`S_DEF_AUTO`), counting of changes, and a file whose last line is a single `#` without a newline, after which the code looks at an older line.
- ConfigText.Configuration.ReadSimple: the choice values of symbols that were read (`adk/config/confdata.c:376-396`) and definitions other than the user's are not in the model.
- ConfigText.RoundTrip: asks for harmless titles, which is the exact condition for one title to change nothing; int and hex values that end in a carriage return lose it when read.
- MD5 of more than 2^61 bytes is covered as the RFC defines it, by the low 64 bits of the length. `md5crypt`, its salt and `to64` have no specification besides their code.
- ConsRead.Console.Read: counts and offsets are not negative; what the firmware does with others, and the remainders of negative offsets, are not modelled. What the buffer holds after a failed read is not stated.
- StrMap.Table.Put: a value is replaced as a whole; that its buffer is reallocated only when the new value is longer is not visible.
- StrMap: null maps and failed allocations, more than 2^32 pairs, and a capacity of 0, which would divide by zero. `strmap_delete` only frees.
- Everything else in the repository: package descriptions, `pkgmaker.c`, `depmaker.c`, loaders and device access are text plumbing or wrappers.
