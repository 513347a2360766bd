/**
 * The keyword and structure visitors of `visitors/ast/keywords.py`.
 *
 * Each visitor is a class with the list of violations it has reported; `add_violation`
 * appends to it. The visitor base class is not part of this model: running a visitor
 * over a tree is the loop over `Visits(tree, None)` that calls the `visit_*` method
 * matching each node, which is what `ast.NodeVisitor` with `generic_visit` does, and
 * the list comprehension visitor's `_post_visit` runs once the tree has been visited.
 * Each class's `Run` is proved against a pure function of the tree, and the lemmas in
 * `KeywordsProperties` say what those functions report.
 */
module Keywords {
  import opened Wrappers
  import opened Ast
  import opened Catalogue
  import Complexity

  /** What `add_violation` records: the kind and the id of the node it is anchored at. */
  datatype Violation = Violation(kind: ViolationKind, node: NodeId)

  const WrongKeyword := BestPracticesKind(WrongKeywordViolation)
  const RaiseNotImplemented := BestPracticesKind(RaiseNotImplementedViolation)
  const BaseException := BestPracticesKind(BaseExceptionViolation)
  const RedundantForElse := BestPracticesKind(RedundantForElseViolation)
  const RedundantFinally := BestPracticesKind(RedundantFinallyViolation)
  const MultipleIfs := ConsistencyKind(MultipleIfsInComprehensionViolation)
  const TooManyFors := ComplexityKind(Complexity.TooManyForsInComprehensionViolation)

  /** `AnyLoop`: a `for` or a `while` statement. */
  predicate IsLoop(n: Node)
  {
    n.syntax.For? || n.syntax.While?
  }

  predicate IsBreak(n: Node)
  {
    n.syntax.Break?
  }

  /** The violations a visitor reports over a sequence of visits, in order. */
  function Gather(vs: seq<Visit>, check: Visit -> seq<Violation>): seq<Violation>
  {
    if vs == [] then [] else Gather(vs[..|vs| - 1], check) + check(vs[|vs| - 1])
  }

  lemma {:induction false} InGather(vs: seq<Visit>, check: Visit -> seq<Violation>, x: Violation)
    ensures x in Gather(vs, check) <==> exists i :: 0 <= i < |vs| && x in check(vs[i])
  {
    if vs != [] {
      var init := vs[..|vs| - 1];
      InGather(init, check, x);
      if x in Gather(init, check) {
        var i :| 0 <= i < |init| && x in check(init[i]);
        assert vs[i] == init[i];
      }
      if exists i :: 0 <= i < |vs| && x in check(vs[i]) {
        var i :| 0 <= i < |vs| && x in check(vs[i]);
        if i < |init| {
          assert init[i] == vs[i];
        }
      }
    }
  }

  lemma GatherStep(vs: seq<Visit>, i: nat, check: Visit -> seq<Violation>)
    requires i < |vs|
    ensures Gather(vs[..i + 1], check) == Gather(vs[..i], check) + check(vs[i])
  {
    assert vs[..i + 1][..i] == vs[..i];
  }

  // ---------------------------------------------------------------------------------
  // WrongRaiseVisitor

  /** The name `_check_exception_type` compares: that of the raised exception, or of the
      function it calls; nodes other than names have no `id`. */
  function RaisedName(exc: Node): Option<string>
  {
    var e := if exc.syntax.Call? then exc.syntax.func else exc;
    if e.syntax.Name? then Some(e.syntax.ident) else None
  }

  /** A `raise NotImplemented` or `raise NotImplemented(...)`. */
  predicate RaisesNotImplemented(n: Node)
  {
    n.syntax.Raise? && n.syntax.exc.Some? && RaisedName(n.syntax.exc.value) == Some("NotImplemented")
  }

  function RaiseCheck(v: Visit): seq<Violation>
  {
    if RaisesNotImplemented(v.node) then [Violation(RaiseNotImplemented, v.node.id)] else []
  }

  class RaiseVisitor {
    var violations: seq<Violation>

    constructor()
      ensures violations == []
    {
      violations := [];
    }

    method AddViolation(v: Violation)
      modifies this
      ensures violations == old(violations) + [v]
    {
      violations := violations + [v];
    }

    method CheckExceptionType(node: Node)
      requires node.syntax.Raise?
      modifies this
      ensures violations == old(violations) + RaiseCheck(Visit(node, None))
    {
      if node.syntax.exc.None? {
        return;
      }
      var exception := node.syntax.exc.value;
      if exception.syntax.Call? {
        exception := exception.syntax.func;
      }
      if exception.syntax.Name? && exception.syntax.ident == "NotImplemented" {
        AddViolation(Violation(RaiseNotImplemented, node.id));
      }
    }

    method VisitRaise(node: Node)
      requires node.syntax.Raise?
      modifies this
      ensures violations == old(violations) + RaiseCheck(Visit(node, None))
    {
      CheckExceptionType(node);
    }

    method Run(tree: Node)
      modifies this
      ensures violations == old(violations) + Gather(Visits(tree, None), RaiseCheck)
    {
      var vs := Visits(tree, None);
      var i := 0;
      while i < |vs|
        invariant 0 <= i <= |vs|
        invariant violations == old(violations) + Gather(vs[..i], RaiseCheck)
      {
        var v := vs[i];
        if v.node.syntax.Raise? {
          VisitRaise(v.node);
        }
        GatherStep(vs, i, RaiseCheck);
        i := i + 1;
      }
      assert vs[..|vs|] == vs;
    }
  }

  // ---------------------------------------------------------------------------------
  // WrongKeywordVisitor

  /** `_forbidden_keywords`: `pass`, `del`, `global` and `nonlocal`. */
  predicate IsForbiddenKeyword(n: Node)
  {
    n.syntax.Pass? || n.syntax.Delete? || n.syntax.Global? || n.syntax.Nonlocal?
  }

  function KeywordCheck(v: Visit): seq<Violation>
  {
    if IsForbiddenKeyword(v.node) then [Violation(WrongKeyword, v.node.id)] else []
  }

  class KeywordVisitor {
    var violations: seq<Violation>

    constructor()
      ensures violations == []
    {
      violations := [];
    }

    method AddViolation(v: Violation)
      modifies this
      ensures violations == old(violations) + [v]
    {
      violations := violations + [v];
    }

    method CheckKeyword(node: Node)
      modifies this
      ensures violations == old(violations) + KeywordCheck(Ast.Visit(node, None))
    {
      if node.syntax.Pass? || node.syntax.Delete? || node.syntax.Global? || node.syntax.Nonlocal? {
        AddViolation(Violation(WrongKeyword, node.id));
      }
    }

    /** The visitor overrides `visit` itself, so every node is checked. */
    method Visit(node: Node)
      modifies this
      ensures violations == old(violations) + KeywordCheck(Ast.Visit(node, None))
    {
      CheckKeyword(node);
    }

    method Run(tree: Node)
      modifies this
      ensures violations == old(violations) + Gather(Visits(tree, None), KeywordCheck)
    {
      var vs := Visits(tree, None);
      var i := 0;
      while i < |vs|
        invariant 0 <= i <= |vs|
        invariant violations == old(violations) + Gather(vs[..i], KeywordCheck)
      {
        Visit(vs[i].node);
        GatherStep(vs, i, KeywordCheck);
        i := i + 1;
      }
      assert vs[..|vs|] == vs;
    }
  }

  // ---------------------------------------------------------------------------------
  // _ComprehensionComplexityCounter and WrongListComprehensionVisitor

  /** The counter's table: the clause count of each list comprehension seen, and the
      order in which the dictionary first received each key. */
  datatype Counts = Counts(fors: map<NodeId, nat>, order: seq<NodeId>)

  /** The keys in `order` are those of `fors`, each once. */
  ghost predicate WellOrdered(c: Counts)
  {
    (forall k :: k in c.fors <==> k in c.order) &&
    (forall i, j | 0 <= i < j < |c.order| :: c.order[i] != c.order[j])
  }

  /** `check_fors`: record the clause count of the parent when it is a list comprehension. */
  function RecordFors(c: Counts, v: Visit): Counts
  {
    var parent := ParentOrSelf(v);
    if parent.syntax.ListComp? then
      Counts(c.fors[parent.id := |parent.syntax.generators|],
             if parent.id in c.fors then c.order else c.order + [parent.id])
    else c
  }

  /** The table after the visitor has seen a sequence of visits; only `comprehension`
      nodes reach `visit_comprehension`. */
  function Tally(c: Counts, vs: seq<Visit>): Counts
  {
    if vs == [] then c
    else
      var before := Tally(c, vs[..|vs| - 1]);
      var v := vs[|vs| - 1];
      if v.node.syntax.Comprehension? then RecordFors(before, v) else before
  }

  lemma TallyStep(c: Counts, vs: seq<Visit>, i: nat)
    requires i < |vs|
    ensures Tally(c, vs[..i + 1]) ==
      if vs[i].node.syntax.Comprehension? then RecordFors(Tally(c, vs[..i]), vs[i]) else Tally(c, vs[..i])
  {
    assert vs[..i + 1][..i] == vs[..i];
  }

  /** `_check_fors`: a violation for each list comprehension with more than two clauses,
      in the order the table holds them. */
  function ForsViolations(fors: map<NodeId, nat>, order: seq<NodeId>): seq<Violation>
    requires forall i | 0 <= i < |order| :: order[i] in fors
  {
    if order == [] then []
    else
      var last := order[|order| - 1];
      ForsViolations(fors, order[..|order| - 1]) +
      (if fors[last] > 2 then [Violation(TooManyFors, last)] else [])
  }

  function IfsCheck(v: Visit): seq<Violation>
  {
    if v.node.syntax.Comprehension? && |v.node.syntax.ifs| > 1
    then [Violation(MultipleIfs, ParentOrSelf(v).id)]
    else []
  }

  class ComprehensionCounter {
    var fors: map<NodeId, nat>
    var order: seq<NodeId>

    function State(): Counts
      reads this
    {
      Counts(fors, order)
    }

    ghost predicate Valid()
      reads this
    {
      WellOrdered(State())
    }

    constructor()
      ensures State() == Counts(map[], []) && Valid()
    {
      fors := map[];
      order := [];
    }

    method CheckFors(node: Visit)
      requires Valid()
      modifies this
      ensures State() == RecordFors(old(State()), node) && Valid()
    {
      var parent := ParentOrSelf(node);
      if parent.syntax.ListComp? {
        if parent.id !in fors {
          order := order + [parent.id];
        }
        fors := fors[parent.id := |parent.syntax.generators|];
      }
      RecordForsWellOrdered(old(State()), node);
    }
  }

  lemma RecordForsWellOrdered(c: Counts, v: Visit)
    requires WellOrdered(c)
    ensures WellOrdered(RecordFors(c, v))
  {
    var parent := ParentOrSelf(v);
    if parent.syntax.ListComp? && parent.id !in c.fors {
      var o := c.order + [parent.id];
      forall i, j | 0 <= i < j < |o|
        ensures o[i] != o[j]
      {
        if j == |o| - 1 {
          assert o[i] == c.order[i];
        }
      }
    }
  }

  lemma {:induction false} TallyWellOrdered(c: Counts, vs: seq<Visit>)
    requires WellOrdered(c)
    ensures WellOrdered(Tally(c, vs))
  {
    if vs != [] {
      TallyWellOrdered(c, vs[..|vs| - 1]);
      RecordForsWellOrdered(Tally(c, vs[..|vs| - 1]), vs[|vs| - 1]);
    }
  }

  /** What a fresh list-comprehension visitor reports over a tree: the clauses with too
      many `if`s as they are visited, then the list comprehensions with too many `for`s. */
  function ListCompFindings(tree: Node): seq<Violation>
  {
    var vs := Visits(tree, None);
    var final := Tally(Counts(map[], []), vs);
    TallyWellOrdered(Counts(map[], []), vs);
    Gather(vs, IfsCheck) + ForsViolations(final.fors, final.order)
  }

  class ListComprehensionVisitor {
    var violations: seq<Violation>
    const counter: ComprehensionCounter

    constructor()
      ensures violations == [] && fresh(counter)
      ensures counter.State() == Counts(map[], []) && counter.Valid()
    {
      violations := [];
      counter := new ComprehensionCounter();
    }

    method AddViolation(v: Violation)
      modifies this
      ensures violations == old(violations) + [v]
    {
      violations := violations + [v];
    }

    method CheckIfs(node: Visit)
      modifies this
      ensures violations == old(violations) + IfsCheck(node)
    {
      if node.node.syntax.Comprehension? && |node.node.syntax.ifs| > 1 {
        AddViolation(Violation(MultipleIfs, ParentOrSelf(node).id));
      }
    }

    method CheckFors()
      requires counter.Valid()
      modifies this
      ensures violations == old(violations) + ForsViolations(counter.fors, counter.order)
    {
      var order := counter.order;
      var i := 0;
      while i < |order|
        invariant 0 <= i <= |order|
        invariant violations == old(violations) + ForsViolations(counter.fors, order[..i])
      {
        var node := order[i];
        if counter.fors[node] > 2 {
          AddViolation(Violation(TooManyFors, node));
        }
        assert order[..i + 1][..i] == order[..i];
        i := i + 1;
      }
      assert order[..|order|] == order;
    }

    method PostVisit()
      requires counter.Valid()
      modifies this
      ensures violations == old(violations) + ForsViolations(counter.fors, counter.order)
    {
      CheckFors();
    }

    method VisitComprehension(node: Visit)
      requires node.node.syntax.Comprehension? && counter.Valid()
      modifies this, counter
      ensures violations == old(violations) + IfsCheck(node)
      ensures counter.State() == RecordFors(old(counter.State()), node) && counter.Valid()
    {
      CheckIfs(node);
      counter.CheckFors(node);
    }

    /** The traversal: `visit_comprehension` for every clause, in visit order. */
    method Traverse(tree: Node)
      requires counter.Valid()
      modifies this, counter
      ensures counter.State() == Tally(old(counter.State()), Visits(tree, None)) && counter.Valid()
      ensures violations == old(violations) + Gather(Visits(tree, None), IfsCheck)
    {
      var vs := Visits(tree, None);
      var i := 0;
      while i < |vs|
        invariant 0 <= i <= |vs|
        invariant counter.Valid()
        invariant counter.State() == Tally(old(counter.State()), vs[..i])
        invariant violations == old(violations) + Gather(vs[..i], IfsCheck)
      {
        var v := vs[i];
        if v.node.syntax.Comprehension? {
          VisitComprehension(v);
        } else {
          assert IfsCheck(v) == [];
        }
        GatherStep(vs, i, IfsCheck);
        TallyStep(old(counter.State()), vs, i);
        i := i + 1;
      }
      assert vs[..|vs|] == vs;
    }

    /** The traversal followed by `_post_visit`. */
    method Run(tree: Node)
      requires counter.Valid()
      modifies this, counter
      ensures counter.State() == Tally(old(counter.State()), Visits(tree, None)) && counter.Valid()
      ensures violations == old(violations) + Gather(Visits(tree, None), IfsCheck) +
        ForsViolations(counter.fors, counter.order)
      ensures old(counter.State()) == Counts(map[], []) ==> violations == old(violations) + ListCompFindings(tree)
    {
      Traverse(tree);
      PostVisit();
    }
  }

  // ---------------------------------------------------------------------------------
  // WrongForElseVisitor

  /** `_does_loop_contain_node`: the loop, when there is one, has a node that `is` the
      break among its own nodes. */
  predicate LoopContains(loop: Option<Node>, toCheck: Node)
  {
    loop.Some? && exists x | x in Nodes(loop.value) :: x.id == toCheck.id
  }

  /** The value of `closest_loop` once `_has_break` has looked at `prefix`: the loop seen
      last that is not `node` itself. */
  function ClosestLoop(prefix: seq<Node>, node: Node): (r: Option<Node>)
    ensures r.Some? ==> r.value in prefix && IsLoop(r.value) && r.value.id != node.id
  {
    if prefix == [] then None
    else
      var last := prefix[|prefix| - 1];
      if IsLoop(last) && last.id != node.id then Some(last)
      else ClosestLoop(prefix[..|prefix| - 1], node)
  }

  lemma ClosestLoopStep(walk: seq<Node>, i: nat, node: Node)
    requires i < |walk|
    ensures ClosestLoop(walk[..i + 1], node) ==
      if IsLoop(walk[i]) && walk[i].id != node.id then Some(walk[i]) else ClosestLoop(walk[..i], node)
  {
    assert walk[..i + 1][..i] == walk[..i];
  }

  /** Nodes other than loops leave `closest_loop` as it was. */
  lemma {:induction false} ClosestLoopSkips(prefix: seq<Node>, rest: seq<Node>, node: Node)
    requires forall i | 0 <= i < |rest| :: !IsLoop(rest[i])
    ensures ClosestLoop(prefix + rest, node) == ClosestLoop(prefix, node)
    decreases |rest|
  {
    if rest == [] {
      assert prefix + rest == prefix;
    } else {
      var init := rest[..|rest| - 1];
      assert (prefix + rest)[..|prefix + rest| - 1] == prefix + init;
      ClosestLoopSkips(prefix, init, node);
    }
  }

  /** The walk reaches a `break` at position `j` that the closest loop does not contain. */
  predicate EscapesAt(walk: seq<Node>, j: nat, node: Node)
    requires j < |walk|
  {
    IsBreak(walk[j]) && !LoopContains(ClosestLoop(walk[..j + 1], node), walk[j])
  }

  /** What `_has_break` returns, as written. */
  predicate BreakEscapes(node: Node)
  {
    exists j | 0 <= j < |Walk(node)| :: EscapesAt(Walk(node), j, node)
  }

  /** `_check_for_needs_else`: a `for` with an `else` for which `_has_break` is false. */
  predicate NeedlessElse(n: Node)
  {
    n.syntax.For? && n.syntax.orelse != [] && !BreakEscapes(n)
  }

  function ForElseCheck(v: Visit): seq<Violation>
  {
    if NeedlessElse(v.node) then [Violation(RedundantForElse, v.node.id)] else []
  }

  /** `_does_loop_contain_node`, searching the breadth-first walk of the loop; the result
      is the same as searching the loop's nodes in any order. */
  method DoesLoopContainNode(loop: Option<Node>, toCheck: Node) returns (r: bool)
    ensures r <==> LoopContains(loop, toCheck)
  {
    if loop.None? {
      return false;
    }
    var walk := Walk(loop.value);
    WalkPermutesNodes(loop.value);
    var i := 0;
    while i < |walk|
      invariant 0 <= i <= |walk|
      invariant forall j | 0 <= j < i :: walk[j].id != toCheck.id
    {
      if walk[i].id == toCheck.id {
        assert walk[i] in Nodes(loop.value);
        return true;
      }
      i := i + 1;
    }
    forall x | x in Nodes(loop.value)
      ensures x.id != toCheck.id
    {
      assert x in walk;
    }
    return false;
  }

  /** `_has_break`: `closest_loop` is updated before the break test, as in the source. */
  method HasBreak(node: Node) returns (found: bool)
    ensures found <==> BreakEscapes(node)
  {
    var walk := Walk(node);
    var closestLoop: Option<Node> := None;
    var i := 0;
    while i < |walk|
      invariant 0 <= i <= |walk|
      invariant closestLoop == ClosestLoop(walk[..i], node)
      invariant forall j | 0 <= j < i :: !EscapesAt(walk, j, node)
    {
      var subnode := walk[i];
      ClosestLoopStep(walk, i, node);
      if IsLoop(subnode) && subnode.id != node.id {
        closestLoop := Some(subnode);
      }
      if IsBreak(subnode) {
        var isNestedBreak := DoesLoopContainNode(closestLoop, subnode);
        if !isNestedBreak {
          assert EscapesAt(walk, i, node);
          return true;
        }
      }
      i := i + 1;
    }
    return false;
  }

  class ForElseVisitor {
    var violations: seq<Violation>

    constructor()
      ensures violations == []
    {
      violations := [];
    }

    method AddViolation(v: Violation)
      modifies this
      ensures violations == old(violations) + [v]
    {
      violations := violations + [v];
    }

    method CheckForNeedsElse(node: Node)
      requires node.syntax.For?
      modifies this
      ensures violations == old(violations) + ForElseCheck(Visit(node, None))
    {
      if node.syntax.orelse != [] {
        var hasBreak := HasBreak(node);
        if !hasBreak {
          AddViolation(Violation(RedundantForElse, node.id));
        }
      }
    }

    method VisitFor(node: Node)
      requires node.syntax.For?
      modifies this
      ensures violations == old(violations) + ForElseCheck(Visit(node, None))
    {
      CheckForNeedsElse(node);
    }

    method Run(tree: Node)
      modifies this
      ensures violations == old(violations) + Gather(Visits(tree, None), ForElseCheck)
    {
      var vs := Visits(tree, None);
      var i := 0;
      while i < |vs|
        invariant 0 <= i <= |vs|
        invariant violations == old(violations) + Gather(vs[..i], ForElseCheck)
      {
        var v := vs[i];
        if v.node.syntax.For? {
          VisitFor(v.node);
        }
        GatherStep(vs, i, ForElseCheck);
        i := i + 1;
      }
      assert vs[..|vs|] == vs;
    }
  }

  // ---------------------------------------------------------------------------------
  // WrongTryFinallyVisitor

  /** A `try` with a `finally` block and no `except` handler. */
  predicate NeedsExcept(n: Node)
  {
    n.syntax.Try? && n.syntax.finalbody != [] && n.syntax.handlers == []
  }

  function TryFinallyCheck(v: Visit): seq<Violation>
  {
    if NeedsExcept(v.node) then [Violation(RedundantFinally, v.node.id)] else []
  }

  class TryFinallyVisitor {
    var violations: seq<Violation>

    constructor()
      ensures violations == []
    {
      violations := [];
    }

    method AddViolation(v: Violation)
      modifies this
      ensures violations == old(violations) + [v]
    {
      violations := violations + [v];
    }

    method CheckForNeedsExcept(node: Node)
      requires node.syntax.Try?
      modifies this
      ensures violations == old(violations) + TryFinallyCheck(Visit(node, None))
    {
      if node.syntax.finalbody != [] && node.syntax.handlers == [] {
        AddViolation(Violation(RedundantFinally, node.id));
      }
    }

    method VisitTry(node: Node)
      requires node.syntax.Try?
      modifies this
      ensures violations == old(violations) + TryFinallyCheck(Visit(node, None))
    {
      CheckForNeedsExcept(node);
    }

    method Run(tree: Node)
      modifies this
      ensures violations == old(violations) + Gather(Visits(tree, None), TryFinallyCheck)
    {
      var vs := Visits(tree, None);
      var i := 0;
      while i < |vs|
        invariant 0 <= i <= |vs|
        invariant violations == old(violations) + Gather(vs[..i], TryFinallyCheck)
      {
        var v := vs[i];
        if v.node.syntax.Try? {
          VisitTry(v.node);
        }
        GatherStep(vs, i, TryFinallyCheck);
        i := i + 1;
      }
      assert vs[..|vs|] == vs;
    }
  }

  // ---------------------------------------------------------------------------------
  // WrongExceptionTypeVisitor

  /** `_base_exception`. */
  const BaseExceptionName := "BaseException"

  /** An `except` whose type is the bare name `BaseException`. */
  predicate CatchesBaseException(n: Node)
  {
    n.syntax.ExceptHandler? && n.syntax.excType.Some? &&
    n.syntax.excType.value.syntax.Name? && n.syntax.excType.value.syntax.ident == BaseExceptionName
  }

  function ExceptionTypeCheck(v: Visit): seq<Violation>
  {
    if CatchesBaseException(v.node) then [Violation(BaseException, v.node.id)] else []
  }

  class ExceptionTypeVisitor {
    var violations: seq<Violation>

    constructor()
      ensures violations == []
    {
      violations := [];
    }

    method AddViolation(v: Violation)
      modifies this
      ensures violations == old(violations) + [v]
    {
      violations := violations + [v];
    }

    method CheckExceptionType(node: Node)
      requires node.syntax.ExceptHandler?
      modifies this
      ensures violations == old(violations) + ExceptionTypeCheck(Visit(node, None))
    {
      if node.syntax.excType.None? {
        return;
      }
      var exceptionName := node.syntax.excType.value;
      if exceptionName.syntax.Name? && exceptionName.syntax.ident == BaseExceptionName {
        AddViolation(Violation(BaseException, node.id));
      }
    }

    method VisitExceptHandler(node: Node)
      requires node.syntax.ExceptHandler?
      modifies this
      ensures violations == old(violations) + ExceptionTypeCheck(Visit(node, None))
    {
      CheckExceptionType(node);
    }

    method Run(tree: Node)
      modifies this
      ensures violations == old(violations) + Gather(Visits(tree, None), ExceptionTypeCheck)
    {
      var vs := Visits(tree, None);
      var i := 0;
      while i < |vs|
        invariant 0 <= i <= |vs|
        invariant violations == old(violations) + Gather(vs[..i], ExceptionTypeCheck)
      {
        var v := vs[i];
        if v.node.syntax.ExceptHandler? {
          VisitExceptHandler(v.node);
        }
        GatherStep(vs, i, ExceptionTypeCheck);
        i := i + 1;
      }
      assert vs[..|vs|] == vs;
    }
  }
}
