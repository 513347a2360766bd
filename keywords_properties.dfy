/**
 * What the keyword visitors report over a whole tree, and the properties of the
 * comprehension counter.
 */
module KeywordsProperties {
  import opened Wrappers
  import opened Ast
  import opened Catalogue
  import opened Keywords

  /** Every visit is of a node of the tree, with a parent (or, at the root, the node
      itself) from the tree; every node of the tree is visited. */
  lemma VisitsCover(tree: Node)
    ensures forall v | v in Visits(tree, None) :: v.node in Nodes(tree) && ParentOrSelf(v) in Nodes(tree)
    ensures forall m | m in Nodes(tree) :: exists q :: Visit(m, q) in Visits(tree, None)
  {
    VisitedNodes(tree, None);
    forall v | v in Visits(tree, None)
      ensures ParentOrSelf(v) in Nodes(tree)
    {
      InVisits(tree, None, v);
    }
  }

  /** A check that looks only at the visited node reports, over the whole tree, exactly
      the nodes of the tree it flags. */
  lemma NodeCheckFindings(tree: Node, check: Visit -> seq<Violation>, kind: ViolationKind,
                          flagged: Node -> bool, x: Violation)
    requires forall v :: check(v) == if flagged(v.node) then [Violation(kind, v.node.id)] else []
    ensures x in Gather(Visits(tree, None), check) <==>
      x.kind == kind && exists m | m in Nodes(tree) :: flagged(m) && m.id == x.node
  {
    if x in Gather(Visits(tree, None), check) {
      FindingIsFlagged(tree, check, kind, flagged, x);
    }
    if x.kind == kind && exists m | m in Nodes(tree) :: flagged(m) && m.id == x.node {
      var m :| m in Nodes(tree) && flagged(m) && m.id == x.node;
      FlaggedIsFound(tree, check, kind, flagged, m);
    }
  }

  lemma FindingIsFlagged(tree: Node, check: Visit -> seq<Violation>, kind: ViolationKind,
                         flagged: Node -> bool, x: Violation)
    requires forall v :: check(v) == if flagged(v.node) then [Violation(kind, v.node.id)] else []
    requires x in Gather(Visits(tree, None), check)
    ensures x.kind == kind && exists m | m in Nodes(tree) :: flagged(m) && m.id == x.node
  {
    var vs := Visits(tree, None);
    InGather(vs, check, x);
    var i :| 0 <= i < |vs| && x in check(vs[i]);
    VisitedNodes(tree, None);
    assert vs[i] in vs;
    assert vs[i].node in Nodes(tree);
  }

  lemma FlaggedIsFound(tree: Node, check: Visit -> seq<Violation>, kind: ViolationKind,
                       flagged: Node -> bool, m: Node)
    requires forall v :: check(v) == if flagged(v.node) then [Violation(kind, v.node.id)] else []
    requires m in Nodes(tree) && flagged(m)
    ensures Violation(kind, m.id) in Gather(Visits(tree, None), check)
  {
    var vs := Visits(tree, None);
    VisitedNodes(tree, None);
    var q :| Visit(m, q) in vs;
    var i :| 0 <= i < |vs| && vs[i] == Visit(m, q);
    assert Violation(kind, m.id) in check(vs[i]);
    InGather(vs, check, Violation(kind, m.id));
  }

  // ---------------------------------------------------------------------------------
  // raise

  /** `raise NotImplemented` and `raise NotImplemented(...)` are reported; a bare `raise`,
      or a raise of any other name or call, is not. */
  lemma RaiseNotImplementedCases(n: Node)
    requires n.syntax.Raise?
    ensures n.syntax.exc.None? ==> !RaisesNotImplemented(n)
    ensures RaisesNotImplemented(n) <==>
      (n.syntax.exc.Some? &&
       (n.syntax.exc.value.syntax == Name("NotImplemented") ||
        (n.syntax.exc.value.syntax.Call? && n.syntax.exc.value.syntax.func.syntax == Name("NotImplemented"))))
  {
  }

  lemma RaiseFindings(tree: Node, x: Violation)
    ensures x in Gather(Visits(tree, None), RaiseCheck) <==>
      x.kind == RaiseNotImplemented && exists m | m in Nodes(tree) :: RaisesNotImplemented(m) && m.id == x.node
  {
    NodeCheckFindings(tree, RaiseCheck, RaiseNotImplemented, RaisesNotImplemented, x);
  }

  // ---------------------------------------------------------------------------------
  // Forbidden keywords

  /** Every `pass`, `del`, `global` and `nonlocal` of the tree, at any depth, is reported,
      and nothing else. */
  lemma KeywordFindings(tree: Node, x: Violation)
    ensures x in Gather(Visits(tree, None), KeywordCheck) <==>
      x.kind == WrongKeyword &&
      exists m | m in Nodes(tree) :: (m.syntax.Pass? || m.syntax.Delete? || m.syntax.Global? || m.syntax.Nonlocal?) &&
        m.id == x.node
  {
    NodeCheckFindings(tree, KeywordCheck, WrongKeyword, IsForbiddenKeyword, x);
  }

  // ---------------------------------------------------------------------------------
  // try / except

  /** A `try` with a `finally` and no handler is reported; a `try` with a handler never is. */
  lemma TryFinallyFindings(tree: Node, x: Violation)
    ensures x in Gather(Visits(tree, None), TryFinallyCheck) <==>
      x.kind == RedundantFinally &&
      exists m | m in Nodes(tree) :: m.syntax.Try? && m.syntax.finalbody != [] && m.syntax.handlers == [] &&
        m.id == x.node
  {
    NodeCheckFindings(tree, TryFinallyCheck, RedundantFinally, NeedsExcept, x);
  }

  /** `except BaseException` is reported; a bare `except`, or one naming any other
      exception or a non-name expression, is not. */
  lemma ExceptionTypeFindings(tree: Node, x: Violation)
    ensures x in Gather(Visits(tree, None), ExceptionTypeCheck) <==>
      x.kind == BaseException &&
      exists m | m in Nodes(tree) ::
        m.syntax.ExceptHandler? && m.syntax.excType.Some? &&
        m.syntax.excType.value.syntax == Name("BaseException") && m.id == x.node
  {
    NodeCheckFindings(tree, ExceptionTypeCheck, BaseException, CatchesBaseException, x);
  }

  // ---------------------------------------------------------------------------------
  // for / else

  lemma ForElseFindings(tree: Node, x: Violation)
    ensures x in Gather(Visits(tree, None), ForElseCheck) <==>
      x.kind == RedundantForElse &&
      exists m | m in Nodes(tree) :: m.syntax.For? && m.syntax.orelse != [] && !BreakEscapes(m) && m.id == x.node
  {
    NodeCheckFindings(tree, ForElseCheck, RedundantForElse, NeedlessElse, x);
  }

  /** `_does_loop_contain_node` is false without a loop; in a tree with unique ids it is
      true exactly when the node is the loop or one of its descendants. */
  lemma LoopContainsDescendant(tree: Node, loop: Node, toCheck: Node)
    requires UniqueIds(tree) && loop in Nodes(tree) && toCheck in Nodes(tree)
    ensures !LoopContains(None, toCheck)
    ensures LoopContains(Some(loop), toCheck) <==> toCheck in Nodes(loop)
  {
    if LoopContains(Some(loop), toCheck) {
      var x :| x in Nodes(loop) && x.id == toCheck.id;
      NodesTransitive(tree, loop, x);
      SameIdSameNode(Nodes(tree), x, toCheck);
    }
  }

  // ---------------------------------------------------------------------------------
  // Comprehensions

  predicate TooManyIfs(c: Node)
  {
    c.syntax.Comprehension? && |c.syntax.ifs| > 1
  }

  /** A clause with more than one `if` is reported at its parent (at the root,
      at itself); a clause with one `if` or none is not. */
  lemma IfsFindings(tree: Node, x: Violation)
    ensures x in Gather(Visits(tree, None), IfsCheck) <==>
      x.kind == MultipleIfs &&
      ((TooManyIfs(tree) && tree.id == x.node) ||
       exists p, c | p in Nodes(tree) && c in Children(p) :: TooManyIfs(c) && p.id == x.node)
  {
    var vs := Visits(tree, None);
    if x in Gather(vs, IfsCheck) {
      IfsFindingPlaced(tree, x);
    }
    if x.kind == MultipleIfs && TooManyIfs(tree) && tree.id == x.node {
      assert x in IfsCheck(vs[0]);
      InGather(vs, IfsCheck, x);
    }
    if x.kind == MultipleIfs && exists p, c | p in Nodes(tree) && c in Children(p) :: TooManyIfs(c) && p.id == x.node {
      var p, c :| p in Nodes(tree) && c in Children(p) && TooManyIfs(c) && p.id == x.node;
      IfsClauseFound(tree, p, c);
    }
  }

  lemma IfsFindingPlaced(tree: Node, x: Violation)
    requires x in Gather(Visits(tree, None), IfsCheck)
    ensures x.kind == MultipleIfs
    ensures (TooManyIfs(tree) && tree.id == x.node) ||
      exists p, c | p in Nodes(tree) && c in Children(p) :: TooManyIfs(c) && p.id == x.node
  {
    var vs := Visits(tree, None);
    InGather(vs, IfsCheck, x);
    var i :| 0 <= i < |vs| && x in IfsCheck(vs[i]);
    var v := vs[i];
    assert v in vs;
    assert TooManyIfs(v.node) && x == Violation(MultipleIfs, ParentOrSelf(v).id);
    InVisits(tree, None, v);
    if v.parent.Some? {
      var p, c := v.parent.value, v.node;
      assert p in Nodes(tree) && c in Children(p) && TooManyIfs(c) && p.id == x.node;
    } else {
      assert v == Visit(tree, None);
    }
  }

  lemma IfsClauseFound(tree: Node, p: Node, c: Node)
    requires p in Nodes(tree) && c in Children(p) && TooManyIfs(c)
    ensures Violation(MultipleIfs, p.id) in Gather(Visits(tree, None), IfsCheck)
  {
    var vs := Visits(tree, None);
    InVisits(tree, None, Visit(c, Some(p)));
    var i :| 0 <= i < |vs| && vs[i] == Visit(c, Some(p));
    assert Violation(MultipleIfs, p.id) in IfsCheck(vs[i]);
    InGather(vs, IfsCheck, Violation(MultipleIfs, p.id));
  }

  /** The counter records only list comprehensions: it stores the clause count of a
      `ListComp` parent and leaves the table alone for any other parent, so set, dict
      and generator comprehensions never enter it. Clauses of the same comprehension
      record the same value, so recording again changes nothing. */
  lemma RecordForsOnlyListComp(c: Counts, v: Visit, w: Visit)
    ensures !ParentOrSelf(v).syntax.ListComp? ==> RecordFors(c, v) == c
    ensures ParentOrSelf(v).syntax.ListComp? ==>
      var p := ParentOrSelf(v);
      RecordFors(c, v).fors == c.fors[p.id := |p.syntax.generators|] &&
      (p.id in c.fors ==> RecordFors(c, v).order == c.order) &&
      (p.id !in c.fors ==> RecordFors(c, v).order == c.order + [p.id])
    ensures ParentOrSelf(v) == ParentOrSelf(w) ==> RecordFors(RecordFors(c, v), w) == RecordFors(c, v)
  {
  }

  /** The visit is of a clause whose parent is the list comprehension with id `k`. */
  predicate ClauseOf(v: Visit, k: NodeId)
  {
    v.node.syntax.Comprehension? && ParentOrSelf(v).syntax.ListComp? && ParentOrSelf(v).id == k
  }

  /** Starting from an empty table, a key is present exactly when some clause of that
      list comprehension was visited, and its value is the clause count of one of them. */
  lemma {:induction false} TallyKeys(vs: seq<Visit>, k: NodeId)
    ensures k in Tally(Counts(map[], []), vs).fors <==> exists i | 0 <= i < |vs| :: ClauseOf(vs[i], k)
    ensures k in Tally(Counts(map[], []), vs).fors ==>
      exists i | 0 <= i < |vs| :: ClauseOf(vs[i], k) &&
        Tally(Counts(map[], []), vs).fors[k] == |ParentOrSelf(vs[i]).syntax.generators|
  {
    if vs != [] {
      var init := vs[..|vs| - 1];
      var v := vs[|vs| - 1];
      TallyKeys(init, k);
      if ClauseOf(v, k) {
        assert ClauseOf(vs[|vs| - 1], k);
      } else {
        if k in Tally(Counts(map[], []), init).fors {
          var i :| 0 <= i < |init| && ClauseOf(init[i], k) &&
            Tally(Counts(map[], []), init).fors[k] == |ParentOrSelf(init[i]).syntax.generators|;
          assert vs[i] == init[i];
        }
        if exists i | 0 <= i < |vs| :: ClauseOf(vs[i], k) {
          var i :| 0 <= i < |vs| && ClauseOf(vs[i], k);
          assert init[i] == vs[i];
        }
      }
    }
  }

  /** `_check_fors` reports each stored list comprehension at most once, and exactly
      when its clause count is above two. */
  lemma {:induction false} ForsViolationsCount(fors: map<NodeId, nat>, order: seq<NodeId>, k: NodeId)
    requires forall i | 0 <= i < |order| :: order[i] in fors
    requires forall i, j | 0 <= i < j < |order| :: order[i] != order[j]
    ensures multiset(ForsViolations(fors, order))[Violation(TooManyFors, k)] ==
      if k in order && fors[k] > 2 then 1 else 0
    ensures forall x | x in ForsViolations(fors, order) :: x.kind == TooManyFors
  {
    if order != [] {
      var init := order[..|order| - 1];
      var last := order[|order| - 1];
      ForsViolationsCount(fors, init, k);
      assert k in order <==> k in init || k == last;
      if k == last {
        assert k !in init;
      }
    }
  }

  lemma GatherIfsKinds(vs: seq<Visit>)
    ensures forall x | x in Gather(vs, IfsCheck) :: x.kind == MultipleIfs
  {
    forall x | x in Gather(vs, IfsCheck)
      ensures x.kind == MultipleIfs
    {
      InGather(vs, IfsCheck, x);
    }
  }

  /** In a tree with unique ids, the table ends up holding, for each list comprehension
      with a clause, its own clause count. */
  lemma StoredForCount(tree: Node, p: Node)
    requires UniqueIds(tree) && p in Nodes(tree) && p.syntax.ListComp?
    requires p.syntax.generators != [] && p.syntax.generators[0].syntax.Comprehension?
    ensures var final := Tally(Counts(map[], []), Visits(tree, None));
      p.id in final.fors && final.fors[p.id] == |p.syntax.generators|
  {
    var vs := Visits(tree, None);
    var final := Tally(Counts(map[], []), vs);
    var g := p.syntax.generators[0];
    assert Children(p)[1] == g;
    InVisits(tree, None, Visit(g, Some(p)));
    var i0 :| 0 <= i0 < |vs| && vs[i0] == Visit(g, Some(p));
    assert ClauseOf(vs[i0], p.id);
    TallyKeys(vs, p.id);
    var i :| 0 <= i < |vs| && ClauseOf(vs[i], p.id) && final.fors[p.id] == |ParentOrSelf(vs[i]).syntax.generators|;
    var q := ParentOrSelf(vs[i]);
    assert vs[i] in vs;
    InVisits(tree, None, vs[i]);
    assert q in Nodes(tree);
    SameIdSameNode(Nodes(tree), q, p);
  }

  /** In a tree with unique ids, a list comprehension is reported as having too many
      `for` clauses exactly once when it has more than two, and not at all otherwise. */
  lemma TooManyForsOnce(tree: Node, p: Node)
    requires UniqueIds(tree) && p in Nodes(tree) && p.syntax.ListComp?
    requires p.syntax.generators != [] && p.syntax.generators[0].syntax.Comprehension?
    ensures multiset(ListCompFindings(tree))[Violation(TooManyFors, p.id)] ==
      if |p.syntax.generators| > 2 then 1 else 0
  {
    var vs := Visits(tree, None);
    var final := Tally(Counts(map[], []), vs);
    TallyWellOrdered(Counts(map[], []), vs);
    StoredForCount(tree, p);
    ForsViolationsCount(final.fors, final.order, p.id);
    GatherIfsKinds(vs);
    var x := Violation(TooManyFors, p.id);
    assert x !in Gather(vs, IfsCheck);
    assert ListCompFindings(tree) == Gather(vs, IfsCheck) + ForsViolations(final.fors, final.order);
  }
}
