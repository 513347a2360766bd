# wemake-python-styleguide: violation catalogues and keyword checks

This project models three parts of the `wemake-python-styleguide` flake8 plugin in Dafny
and proves properties of the model:

- **The naming and complexity violation catalogues** (`violations/naming.py`,
  `violations/complexity.py`). Each entry has:
  - a numeric code;
  - a message template;
  - a `should_use_text` flag;
  - a base class, which says how the violation is anchored: to the whole module
    (`SimpleViolation`), to a syntax node (`ASTViolation`), or possibly to a node
    (`MaybeASTViolation`).

  Each catalogue is a closed datatype with total functions for these attributes.
  The lemmas prove that:
  - codes are unique, stay inside their ranges, and can be read back from their number;
  - a template has one `{0}` placeholder exactly when the entry uses text;
  - the base classes are the ones listed;
  - codes group by topic;
  - every naming code is below every complexity code;
  - the user-visible form is `Z` followed by the code.
- **The keyword and structure visitors** (`visitors/ast/keywords.py`). Each one is a
  class with its own list of reported violations: `raise NotImplemented`, forbidden
  keywords, comprehension `if`s and `for`s, `for … else` without `break`,
  `try … finally` without `except`, and `except BaseException`. The
  `_ComprehensionComplexityCounter` is a class whose `fors` table its method updates in
  place. It is kept as a map together with the order in which keys were inserted,
  because Python dictionaries iterate in that order.
  - Each visitor's `Run` loops over the visits of a syntax tree and is proved to report
    exactly what a pure function of the tree says.
  - Lemmas then state those findings over the whole tree: which nodes are reported,
    how many times, and anchored where.
  - `_has_break` and `_does_loop_contain_node` are loops over an explicit
    breadth-first walk, mirroring `ast.walk`. They are proved equivalent to
    specification predicates.

Syntax trees use a small closed `Node` datatype. Every node carries an id, so Python's
identity test `is` becomes an equality of ids; the theorems that depend on identity
assume ids are unique within a tree. The visitor base class is not part of this model,
and neither is the transformer that sets `parent` attributes. Instead, the traversal
(`Ast.Visits`) is a pre-order list of visits, and each visit carries the parent of its
node. At the root the parent is the node itself, as `getattr(node, 'parent', node)`
gives. Violations from the best-practices and consistency catalogues are modelled as
kinds with no numeric code, because those catalogues are not part of this model.

Files:
- `wrappers.dfy`: `Option`.
- `violation_base.dfy`: kinds of anchor, counting placeholders, decimal display of codes.
- `naming.dfy`, `complexity.dfy`: the two catalogues.
- `catalogue.dfy`: all violation kinds together.
- `ast.dfy`: syntax nodes, the pre-order node list, the breadth-first walk, and the
  visitor traversal.
- `keywords.dfy`: the checks, the counter and the visitor classes.
- `keywords_properties.dfy`: what each visitor reports over a whole tree.
- `for_else.dfy`: which breaks belong to a loop, and the two findings about `_has_break`.

## Model

| member | source | states |
|---|---|---|
| Complexity.Code | wemake_python_styleguide/violations/complexity.py:110-578 | every complexity code lies in 200..225 |
| Complexity.AllKinds | wemake_python_styleguide/violations/complexity.py:79-578 | the catalogue has exactly the fourteen listed entries |
| Complexity.CodesUnique | wemake_python_styleguide/violations/complexity.py:110-578 | two complexity entries share a code only when they are the same entry |
| Complexity.FromCode | wemake_python_styleguide/violations/complexity.py:110-578 | looking a number up yields only an entry that has that code |
| Complexity.FromCodeFindsEntry | wemake_python_styleguide/violations/complexity.py:110-578 | every entry is found again from its code |
| Complexity.CodesInUse | wemake_python_styleguide/violations/complexity.py:110-578 | the codes in use are exactly 200-202, 210-214 and 220-225 |
| Complexity.EntriesWithoutText | wemake_python_styleguide/violations/complexity.py:107-578 | an entry does not use text (`UsesText`, modelling `should_use_text`) exactly when its code is 200, 202, 223, 224 or 225 |
| Complexity.TemplateMatchesText | wemake_python_styleguide/violations/complexity.py:107-578 | each `error_template` (`Template`) has one `{0}` placeholder when the entry uses text (`UsesText`) and none otherwise, entry by entry |
| Complexity.ModuleLevelEntries | wemake_python_styleguide/violations/complexity.py:79-539 | an entry's base class (`BaseClass`) is `SimpleViolation` exactly when it concerns a whole module (Jones score, imports, module members); no entry is a `MaybeASTViolation` |
| Complexity.CodesGroupByTopic | wemake_python_styleguide/violations/complexity.py:110-578 | by the banner each entry is declared under (`TopicOf`), module complexity codes are 20x, function and class complexity codes 21x, structure complexity codes 22x |
| Complexity.DisplayedCodes | wemake_python_styleguide/violations/complexity.py:102-110 | `JonesScoreViolation` is shown as `Z200`; every complexity code is shown as `Z2` and two more digits |
| Complexity.TwoHundreds | wemake_python_styleguide/violations/complexity.py:102-103 | every code from 200 to 299 is shown as `Z2` and two more digits |
| Complexity.DocSectionDisagrees | wemake_python_styleguide/violations/complexity.py:43-67 | the headings of the module documentation (`DocSection`, entry by entry as the docstring lists them) and the banners the entries are declared under (`TopicOf`) disagree for exactly one entry, `TooManyBaseClassesViolation`, which the documentation lists under module complexity although it has the structure code 225 |
| Naming.Code | wemake_python_styleguide/violations/naming.py:186-516 | every naming code lies in 100..116 |
| Naming.AllKinds | wemake_python_styleguide/violations/naming.py:151-516 | the catalogue has exactly the ten listed entries |
| Naming.CodesUnique | wemake_python_styleguide/violations/naming.py:186-516 | two naming entries share a code only when they are the same entry |
| Naming.FromCode | wemake_python_styleguide/violations/naming.py:186-516 | looking a number up yields only an entry that has that code |
| Naming.FromCodeFindsEntry | wemake_python_styleguide/violations/naming.py:186-516 | every entry is found again from its code |
| Naming.CodesInUse | wemake_python_styleguide/violations/naming.py:186-516 | the codes in use are exactly 100-102 and 110-116 |
| Naming.ModuleNameEntries | wemake_python_styleguide/violations/naming.py:151-261 | the module-name entries are exactly those whose base class (`BaseClass`) is `SimpleViolation`, exactly those that do not use text (`UsesText`), and exactly the 10x codes; the others are 11x |
| Naming.MaybeNodeEntries | wemake_python_styleguide/violations/naming.py:267-487 | by base class (`BaseClass`), 111, 112, 114 and 116 are exactly the `MaybeASTViolation` entries; 110, 113 and 115 are exactly the `ASTViolation` entries |
| Naming.TemplateMatchesText | wemake_python_styleguide/violations/naming.py:183-516 | each `error_template` (`Template`) has one `{0}` placeholder when the entry uses text (`UsesText`) and none otherwise, entry by entry |
| Catalogue.Code | wemake_python_styleguide/visitors/ast/keywords.py:8-20 | a kind (a naming or complexity entry, or one of the best-practices and consistency entries the keyword visitors import) has a numeric code exactly when it is a naming or a complexity entry |
| Catalogue.FromCode | wemake_python_styleguide/violations/complexity.py:110-578 | looking a number up yields only a kind that has that code |
| Catalogue.FromCodeFindsKind | wemake_python_styleguide/violations/complexity.py:110-578 | every kind with a code is found again from it |
| Catalogue.NamingBelowComplexity | wemake_python_styleguide/violations/naming.py:186-516 | every naming code is below 200, every complexity code at least 200, so no code is shared |
| Catalogue.CodesUnique | wemake_python_styleguide/violations/complexity.py:110-578 | across both catalogues, two kinds share a code only when they are the same kind |
| Catalogue.DisplayedCodesDiffer | wemake_python_styleguide/violations/complexity.py:102-103 | different kinds are shown to the user under different `Z` codes |
| ViolationBase.DisplayCodeInjective | wemake_python_styleguide/violations/complexity.py:102-103 | two codes are shown the same exactly when they are equal |
| ViolationBase.DecimalRoundTrip | wemake_python_styleguide/violations/complexity.py:102-103 | the digits shown for a code read back as that code |
| Keywords.InGather | wemake_python_styleguide/visitors/ast/keywords.py:56-65 | a violation reported over a run is one that the check reports for some single visit, and conversely |
| Keywords.RaiseVisitor.CheckExceptionType | wemake_python_styleguide/visitors/ast/keywords.py:43-54 | appends the violation for a raise of `NotImplemented`, and nothing otherwise |
| Keywords.RaiseVisitor.VisitRaise | wemake_python_styleguide/visitors/ast/keywords.py:56-65 | appends what the raise check finds for this node |
| Keywords.RaiseVisitor.Run | wemake_python_styleguide/visitors/ast/keywords.py:40-65 | after a traversal, the violations are those of every visited raise, in visit order |
| KeywordsProperties.RaiseNotImplementedCases | wemake_python_styleguide/visitors/ast/keywords.py:43-54 | a raise is reported exactly when the name it raises (`RaisedName`) is `NotImplemented`, directly or as a call; a bare raise never is |
| KeywordsProperties.RaiseFindings | wemake_python_styleguide/visitors/ast/keywords.py:40-65 | over a tree, the raise visitor reports exactly the raises of `NotImplemented` |
| Keywords.KeywordVisitor.CheckKeyword | wemake_python_styleguide/visitors/ast/keywords.py:72-81 | appends one violation for `pass`, `del`, `global` or `nonlocal`, and nothing for any other node |
| Keywords.KeywordVisitor.Visit | wemake_python_styleguide/visitors/ast/keywords.py:83-92 | every node visited goes through the keyword check |
| Keywords.KeywordVisitor.Run | wemake_python_styleguide/visitors/ast/keywords.py:69-92 | after a traversal, the violations are those of every visited node, in visit order |
| KeywordsProperties.KeywordFindings | wemake_python_styleguide/visitors/ast/keywords.py:72-92 | every `pass`, `del`, `global` and `nonlocal` at any depth is reported, and no other node |
| Keywords.ComprehensionCounter.constructor | wemake_python_styleguide/visitors/ast/keywords.py:30-31 | the table starts empty |
| Keywords.ComprehensionCounter.CheckFors | wemake_python_styleguide/visitors/ast/keywords.py:33-36 | a `ListComp` parent's clause count is stored in the table, first insertion at the end of the key order; the table stays well ordered |
| Keywords.RecordForsWellOrdered | wemake_python_styleguide/visitors/ast/keywords.py:33-36 | recording a clause (`RecordFors`) keeps every key exactly once in the insertion order |
| Keywords.TallyWellOrdered | wemake_python_styleguide/visitors/ast/keywords.py:119-130 | recording any sequence of clauses with `RecordFors` keeps the table well ordered |
| KeywordsProperties.RecordForsOnlyListComp | wemake_python_styleguide/visitors/ast/keywords.py:33-36 | only `ListComp` parents are stored, with their number of clauses, so set, dict and generator comprehensions never enter the table; a second clause of the same comprehension changes nothing |
| KeywordsProperties.TallyKeys | wemake_python_styleguide/visitors/ast/keywords.py:119-130 | after a traversal, a list comprehension is in the table exactly when one of its clauses was visited, with the clause count of such a parent |
| Keywords.ListComprehensionVisitor.constructor | wemake_python_styleguide/visitors/ast/keywords.py:99-102 | a new visitor has no violations and a fresh, empty counter |
| Keywords.ListComprehensionVisitor.CheckIfs | wemake_python_styleguide/visitors/ast/keywords.py:104-109 | a clause with more than one `if` is reported at its parent |
| Keywords.ListComprehensionVisitor.CheckFors | wemake_python_styleguide/visitors/ast/keywords.py:111-114 | the loop over the table reports, in insertion order, each list comprehension with more than two clauses |
| Keywords.ListComprehensionVisitor.PostVisit | wemake_python_styleguide/visitors/ast/keywords.py:116-117 | after the traversal, reports what the loop over the table reports |
| Keywords.ListComprehensionVisitor.VisitComprehension | wemake_python_styleguide/visitors/ast/keywords.py:119-130 | checks the `if`s of the clause, then records it in the counter |
| Keywords.ListComprehensionVisitor.Traverse | wemake_python_styleguide/visitors/ast/keywords.py:119-130 | after visiting every clause of the tree, the counter holds the table of all visited clauses and the violations are the `if` findings in visit order |
| Keywords.ListComprehensionVisitor.Run | wemake_python_styleguide/visitors/ast/keywords.py:96-130 | after a traversal and the post-visit step, the counter holds the table of all visited clauses; the violations are the `if` findings in visit order, then the `for` findings in table order |
| KeywordsProperties.IfsFindings | wemake_python_styleguide/visitors/ast/keywords.py:104-109 | over a tree, the `if` findings (`IfsCheck` on every visit) are exactly the parents of clauses with more than one `if` (the clause itself at the root); clauses with one `if` or none give nothing |
| KeywordsProperties.ForsViolationsCount | wemake_python_styleguide/visitors/ast/keywords.py:111-114 | over the table, the `for` findings (`ForsViolations`) report each stored list comprehension at most once, and exactly when its count is above two |
| KeywordsProperties.StoredForCount | wemake_python_styleguide/visitors/ast/keywords.py:119-130 | with unique ids, after a traversal the table holds each list comprehension's own clause count |
| KeywordsProperties.TooManyForsOnce | wemake_python_styleguide/visitors/ast/keywords.py:96-130 | with unique ids, a list comprehension is reported for its `for`s exactly once when it has more than two clauses and never otherwise |
| Keywords.ClosestLoop | wemake_python_styleguide/visitors/ast/keywords.py:150-157 | the loop `_has_break` holds at a point of the walk is a loop already walked and is not the checked `for` itself |
| Keywords.ClosestLoopSkips | wemake_python_styleguide/visitors/ast/keywords.py:150-157 | walking nodes that are not loops leaves the remembered loop as it was |
| Keywords.DoesLoopContainNode | wemake_python_styleguide/visitors/ast/keywords.py:137-148 | the loop over the walk of the loop (`Ast.Walk`, modelling `ast.walk`) returns true exactly when the specification `LoopContains` holds: some walked node is the given node; false when there is no loop |
| KeywordsProperties.LoopContainsDescendant | wemake_python_styleguide/visitors/ast/keywords.py:137-148 | with unique ids, a loop contains a node (`LoopContains`) exactly when the node is the loop or one of its descendants; no loop contains nothing |
| Keywords.HasBreak | wemake_python_styleguide/visitors/ast/keywords.py:150-164 | the loop over the breadth-first walk (`Ast.Walk`) returns `BreakEscapes`: true exactly when some walked `break` is not contained in the loop most recently walked before it |
| Keywords.ForElseVisitor.CheckForNeedsElse | wemake_python_styleguide/visitors/ast/keywords.py:166-168 | a `for` with an `else` for which `_has_break` (`BreakEscapes`) is false is reported (`NeedlessElse`); any other `for` is not |
| Keywords.ForElseVisitor.VisitFor | wemake_python_styleguide/visitors/ast/keywords.py:170-173 | appends what the `for … else` check finds for this node |
| Keywords.ForElseVisitor.Run | wemake_python_styleguide/visitors/ast/keywords.py:134-173 | after a traversal, the violations are those of every visited `for`, in visit order |
| KeywordsProperties.ForElseFindings | wemake_python_styleguide/visitors/ast/keywords.py:150-173 | over a tree, exactly the `for` loops satisfying `NeedlessElse` (an `else` and no escaping break) are reported; a `for` without `else` never is |
| ForElse.LoopBreaksBelongToLoop | wemake_python_styleguide/visitors/ast/keywords.py:150-168 | with unique ids, a break belongs to a loop (`BodyBreaks`, Python's scoping) exactly when it lies in the loop's body and in the body of no loop nested inside it; so a break in a nested loop's `else` clause belongs to the outer loop |
| ForElse.LoopBreakUnenclosed | wemake_python_styleguide/visitors/ast/keywords.py:150-168 | a break belonging to the loop lies in its body and in the body of no nested loop |
| ForElse.UnenclosedBreakBelongs | wemake_python_styleguide/visitors/ast/keywords.py:150-168 | a break in the loop's body and in the body of no nested loop belongs to it |
| ForElse.NestedElseBreakBelongs | wemake_python_styleguide/visitors/ast/keywords.py:150-168 | a `break` in the `else` clause of a loop nested in a loop's body belongs to the outer loop |
| ForElse.InBodyBreaks | wemake_python_styleguide/visitors/ast/keywords.py:150-168 | a loop's own breaks are those collected from the statements of its body |
| ForElse.InScopeBreaks | wemake_python_styleguide/visitors/ast/keywords.py:150-168 | the breaks collected below a node are those collected from its children outside any loop body: a loop's header and `else` clause, every child of another node |
| ForElse.OwnBreaksInTree | wemake_python_styleguide/visitors/ast/keywords.py:150-168 | every collected break is a `break` node of the subtree |
| ForElse.BodyInNodes | wemake_python_styleguide/visitors/ast/keywords.py:150-168 | whatever lies in a loop's body lies in the loop |
| ForElse.BodyApart | wemake_python_styleguide/visitors/ast/keywords.py:150-168 | with unique ids, nothing in a loop's header or `else` clause lies in its body |
| ForElse.OwnBreakOutsideBodies | wemake_python_styleguide/visitors/ast/keywords.py:150-168 | with unique ids, a break collected for a subtree lies in the body of none of its loops |
| ForElse.ScopeBreakOutsideBodies | wemake_python_styleguide/visitors/ast/keywords.py:150-168 | with unique ids, a break collected below a node lies in the body of no loop of its tree, the node itself included |
| ForElse.UnenclosedBreakCollected | wemake_python_styleguide/visitors/ast/keywords.py:150-168 | a break of the subtree in the body of none of its loops is collected |
| ForElse.ChecksAgreeWithoutNesting | wemake_python_styleguide/visitors/ast/keywords.py:150-168 | with unique ids, for a `for` with no nested loop and no break outside its body, the check as written (`NeedlessElse`) reports exactly when the corrected check (`CorrectedNeedlessElse`) does |
| ForElse.UnnestedBreakEscapes | wemake_python_styleguide/visitors/ast/keywords.py:150-164 | with unique ids, a break in the loop that no nested loop contains makes `_has_break` (`BreakEscapes`) true |
| ForElse.NoBreakNoEscape | wemake_python_styleguide/visitors/ast/keywords.py:150-168 | in a tree without `break`, `_has_break` is false and no break belongs to the loop |
| ForElse.DirectBreakInBody | wemake_python_styleguide/visitors/ast/keywords.py:150-168 | a `for … else` whose body holds a `break` statement directly is reported by neither check |
| ForElse.DirectBreakEscapes | wemake_python_styleguide/visitors/ast/keywords.py:150-164 | with unique ids, a `break` among a loop's own statements makes `_has_break` true |
| ForElse.ChildBreakUnnested | wemake_python_styleguide/visitors/ast/keywords.py:150-164 | with unique ids, a `break` that is a child of a node lies in no other loop of the tree |
| ForElse.NoBreakReported | wemake_python_styleguide/visitors/ast/keywords.py:150-168 | a `for … else` with no `break` anywhere is reported, as written and corrected |
| ForElse.NestedBreakCounterexample | wemake_python_styleguide/visitors/ast/keywords.py:150-164 | a `for … else` whose only break sits in a first inner `while`, followed by a second inner `while`, is not reported as written (`NeedlessElse` is false), although no break belongs to it (`CorrectedNeedlessElse` holds) |
| ForElse.NestedShapeWalk | wemake_python_styleguide/visitors/ast/keywords.py:153 | the breadth-first walk (`Ast.Walk`) of that shape visits the loop, its five children, then the grandchildren |
| ForElse.LeadingLeavesWalk | wemake_python_styleguide/visitors/ast/keywords.py:153 | two leaves at the front of the walk's queue are yielded first and add nothing to it |
| ForElse.InnerLoopsWalk | wemake_python_styleguide/visitors/ast/keywords.py:153 | from the two inner loops onwards, the walk yields the loops, then the children of the first, then those of the second |
| ForElse.NestedBreakWalk | wemake_python_styleguide/visitors/ast/keywords.py:153 | the walk of the counterexample loop is its ten nodes in breadth-first order |
| ForElse.NestedBreakEscapes | wemake_python_styleguide/visitors/ast/keywords.py:150-164 | `_has_break` as written finds a break in the counterexample loop |
| ForElse.ShapeEscapes | wemake_python_styleguide/visitors/ast/keywords.py:150-164 | when the last inner loop walked before a break does not contain it, `_has_break` returns true |
| ForElse.NestedBreakNotOwn | wemake_python_styleguide/visitors/ast/keywords.py:150-168 | no break belongs to the counterexample loop |
| ForElse.ShapeNotOwn | wemake_python_styleguide/visitors/ast/keywords.py:150-168 | a loop whose body is two loops, each with a header that is a leaf other than a `break` and no `else` clause, has no break of its own |
| ForElse.ElseBreakCounterexample | wemake_python_styleguide/visitors/ast/keywords.py:150-164 | a `for … else` whose body is a `while … else` with a `break` in its `else` clause is reported as written (`NeedlessElse` holds), although that break belongs to the `for` loop (`CorrectedNeedlessElse` is false) |
| ForElse.ElseShapeWalk | wemake_python_styleguide/visitors/ast/keywords.py:153 | the walk of that shape yields the loop, its four children, then the inner loop's three |
| ForElse.ElseShapeNoEscape | wemake_python_styleguide/visitors/ast/keywords.py:150-164 | in a tree of that shape `_has_break` is false |
| ForElse.ElseShapeBreakContained | wemake_python_styleguide/visitors/ast/keywords.py:150-164 | there, the loop walked last before the break is the inner loop, and it contains the break |
| Ast.WalkPermutesNodes | wemake_python_styleguide/visitors/ast/keywords.py:145 | the breadth-first walk (`Walk`, modelling `ast.walk`) yields the nodes of the tree as a permutation of its pre-order list (the same multiset), the root first |
| Keywords.TryFinallyVisitor.CheckForNeedsExcept | wemake_python_styleguide/visitors/ast/keywords.py:180-182 | a `try` with a `finally` and no handler is reported, and no other |
| Keywords.TryFinallyVisitor.VisitTry | wemake_python_styleguide/visitors/ast/keywords.py:184-187 | appends what the `try … finally` check finds for this node |
| Keywords.TryFinallyVisitor.Run | wemake_python_styleguide/visitors/ast/keywords.py:177-187 | after a traversal, the violations are those of every visited `try`, in visit order |
| KeywordsProperties.TryFinallyFindings | wemake_python_styleguide/visitors/ast/keywords.py:180-187 | over a tree, exactly the `try` statements with a `finally` and no handler are reported; one with a handler never is |
| Keywords.ExceptionTypeVisitor.CheckExceptionType | wemake_python_styleguide/visitors/ast/keywords.py:194-203 | a handler whose type is the name `BaseException` is reported, and no other |
| Keywords.ExceptionTypeVisitor.VisitExceptHandler | wemake_python_styleguide/visitors/ast/keywords.py:205-214 | appends what the `except` check finds for this node |
| Keywords.ExceptionTypeVisitor.Run | wemake_python_styleguide/visitors/ast/keywords.py:191-214 | after a traversal, the violations are those of every visited handler, in visit order |
| KeywordsProperties.ExceptionTypeFindings | wemake_python_styleguide/visitors/ast/keywords.py:194-214 | over a tree, exactly the `except BaseException` handlers are reported; a bare `except`, another name or a non-name type is not |
| KeywordsProperties.VisitsCover | wemake_python_styleguide/visitors/ast/keywords.py:83-92 | the traversal visits every node of the tree, and only nodes of the tree, each with a parent from the tree |
| KeywordsProperties.NodeCheckFindings | wemake_python_styleguide/visitors/ast/keywords.py:83-92 | a check that looks only at the visited node reports, over a tree, exactly the tree's nodes it flags |
| KeywordsProperties.FindingIsFlagged | wemake_python_styleguide/visitors/ast/keywords.py:83-92 | each such report belongs to a flagged node of the tree |
| KeywordsProperties.FlaggedIsFound | wemake_python_styleguide/visitors/ast/keywords.py:83-92 | each flagged node of the tree is reported |
| KeywordsProperties.IfsFindingPlaced | wemake_python_styleguide/visitors/ast/keywords.py:104-109 | each `if` report sits at the parent of a clause of the tree with more than one `if` |
| KeywordsProperties.IfsClauseFound | wemake_python_styleguide/visitors/ast/keywords.py:104-109 | each clause of the tree with more than one `if` is reported at its parent |
| KeywordsProperties.GatherIfsKinds | wemake_python_styleguide/visitors/ast/keywords.py:104-109 | the `if` check reports nothing but the multiple-`if` kind |

## Left out

- `violations/base.py` is not part of this model. It provides message formatting, where a
  violation's line and column come from, and the default of `should_use_text`. The model
  takes that default to be true, which is what the templates suggest. A violation is the
  pair of its kind and the id of the node it is anchored at.
- The visitor base class and `ast.NodeVisitor` are not modelled. Running a visitor is
  the loop over the pre-order visits in `Ast.Visits`, and the `_post_visit` hook runs
  once after that loop.
- The Python parser and the transformer that sets `parent` attributes are not modelled.
  Trees are given as values, and each visit carries its parent.
- `ast.walk` is replaced by `Ast.Walk`, a breadth-first walk over the modelled node kinds.
  Only the children that matter to these checks are kept. Any other node is `Other`,
  with an explicit list of children.
- `async for` and `async with` do not appear. `_has_break` counts only `For` and `While`
  as loops, and the model does the same.
- The naming rules (short names, private names, underscored numbers and so on) and the
  complexity counters (locals, arguments, Jones score and so on) are not modelled. They
  are described only in documentation, and their code is not part of this model. Only
  the catalogue attributes are modelled.
- The best-practices (Z4xx) and consistency (Z3xx) catalogues are not part of this
  model. Their kinds have no numeric code here.
- Suppression with `noqa` comments belongs to flake8 and is not part of this model.
- Documentation prose, links and configuration option names are not modelled.
- Python's identity test `is` is modelled as equality of node ids. This agrees with
  identity only when ids are unique, so the tree-level lemmas that depend on it
  require `UniqueIds`.

## Findings

| source | as written | input that shows it | evidently intended | confidence | as-written member | corrected member |
|---|---|---|---|---|---|---|
| wemake_python_styleguide/visitors/ast/keywords.py:150-164 | `_has_break` asks whether the loop walked last before a `break` contains it. In breadth-first order that loop can be a sibling of the loop that encloses the break. | `for x in xs:` with body `while t1: break` then `while t2: pass`, and an `else:` block. The walk reaches the second `while` before the `break`, which that loop does not contain, so `_has_break` returns true and the needless `else` is not reported. | A `for … else` is reported when no `break` belongs to the loop itself, that is, when every break in its body is in the body of a nested loop. | not executed | ForElse.NestedBreakCounterexample | ForElse.LoopBreaksBelongToLoop |
| wemake_python_styleguide/visitors/ast/keywords.py:150-164 | `_has_break` takes a `break` that a nested loop's walk contains to belong to that loop. A `break` in a nested loop's `else` clause is contained in it, but leaves the outer loop. | `for x in xs:` with body `while c: pass` / `else: break`, and an `else: pass` block. The `break` belongs to the `for` loop, so its `else` is needed. The walk reaches the `while` before the `break` and that loop contains it, so `_has_break` returns false and the `else` is reported. | A `break` in a nested loop's `else` clause counts as a break of the outer loop, and such a `for … else` is not reported. | not executed | ForElse.ElseBreakCounterexample | ForElse.LoopBreaksBelongToLoop |
| wemake_python_styleguide/violations/complexity.py:43-67 | The module documentation lists `TooManyBaseClassesViolation` under "Module complexity". | `TooManyBaseClassesViolation` has code 225 and is declared after the `# Structures:` banner at line 357, so by code and by position it is a structure check. | Not certain: the heading places the entry under module complexity, while its code and its position place it under structures. The model groups entries by the declared banner, which agrees with the codes. | not executed | Complexity.DocSectionDisagrees | Complexity.CodesGroupByTopic |

For the first two findings, the visitor is modelled as written (`Keywords.HasBreak`,
`Keywords.ForElseVisitor`). The corrected check is `ForElse.CorrectedNeedlessElse`. Its
breaks are collected by `ForElse.BodyBreaks` under Python's scoping. A `break` leaves the
innermost loop whose body holds it, so a `break` in a loop's `else` clause leaves the
loop around that one. The check as written errs in both directions.
`ForElse.ChecksAgreeWithoutNesting` shows that the two checks agree on a `for` with no
nested loop and no break outside its body.
