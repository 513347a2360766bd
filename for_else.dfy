/**
 * Which `break` statements belong to a `for` loop, and how `_has_break` differs.
 *
 * In Python a `break` belongs to the innermost loop whose BODY encloses it: a `break`
 * in a loop's `else` clause leaves the loop around that one. The `else` of a `for` loop
 * is needed exactly when one of its breaks belongs to it. `_has_break`
 * (visitors/ast/keywords.py) instead asks whether the loop seen last in the
 * breadth-first walk contains the break; that loop need not be the one the break
 * leaves. The check as written errs both ways: it misses some needless `else` blocks
 * and reports some that are needed.
 */
module ForElse {
  import opened Wrappers
  import opened Ast
  import opened Keywords

  /** The header of a loop: the target and the iterable of a `for`, the test of a
      `while`; nothing for any other node. */
  function LoopHeader(l: Node): seq<Node>
  {
    if l.syntax.For? then [l.syntax.target, l.syntax.iter]
    else if l.syntax.While? then [l.syntax.test]
    else []
  }

  /** The statements of a loop's body; nothing for any other node. */
  function LoopBody(l: Node): (body: seq<Node>)
    ensures forall c | c in body :: c in Children(l)
  {
    if IsLoop(l) then l.syntax.body else []
  }

  /** The statements of a loop's `else` clause; nothing for any other node. */
  function LoopElse(l: Node): seq<Node>
  {
    if IsLoop(l) then l.syntax.orelse else []
  }

  /** A loop's children are its header, its body and its `else` clause. */
  lemma LoopChildren(l: Node)
    requires IsLoop(l)
    ensures Children(l) == LoopHeader(l) + LoopBody(l) + LoopElse(l)
  {
  }

  /** The children of `m` whose breaks leave the same loop as a break at `m` would: for a
      loop, its header and its `else` clause; for any other node, all its children. */
  function SameScopeChildren(m: Node): (cs: seq<Node>)
    ensures forall c | c in cs :: c in Children(m)
  {
    if IsLoop(m) then LoopHeader(m) + LoopElse(m) else Children(m)
  }

  /** Every child of `m` is in its body or leaves the same loop as `m`. */
  lemma SplitChildren(m: Node)
    ensures forall c | c in Children(m) :: c in LoopBody(m) || c in SameScopeChildren(m)
  {
  }

  /** The node `b` lies in the body of the loop `l`. */
  predicate InLoopBody(l: Node, b: Node)
  {
    exists c | c in LoopBody(l) :: b in Nodes(c)
  }

  /** The breaks in the tree rooted at `m` that leave the loop enclosing `m` from
      outside: those in the body of no loop of the tree. */
  function OwnBreaks(m: Node): seq<Node>
    decreases m, 1
  {
    if IsBreak(m) then [m] else ScopeBreaks(m)
  }

  /** The breaks below `m` that leave the same loop as a break at `m` would. */
  function ScopeBreaks(m: Node): seq<Node>
    decreases m, 0
  {
    var cs := SameScopeChildren(m);
    ChildrenSmaller(m);
    Concat(seq(|cs|, i requires 0 <= i < |cs| => OwnBreaks(cs[i])))
  }

  /** The breaks that belong to the loop `l`: those of its body in the body of no loop
      nested there. */
  function BodyBreaks(l: Node): seq<Node>
  {
    var body := LoopBody(l);
    Concat(seq(|body|, i requires 0 <= i < |body| => OwnBreaks(body[i])))
  }

  /** The check as evidently intended: a `for` with an `else` and no break of its own. */
  predicate CorrectedNeedlessElse(n: Node)
  {
    n.syntax.For? && n.syntax.orelse != [] && BodyBreaks(n) == []
  }

  lemma {:induction false} InScopeBreaks(m: Node, b: Node)
    ensures b in ScopeBreaks(m) <==> exists c | c in SameScopeChildren(m) :: b in OwnBreaks(c)
  {
    var cs := SameScopeChildren(m);
    ChildrenSmaller(m);
    var s := seq(|cs|, i requires 0 <= i < |cs| => OwnBreaks(cs[i]));
    assert ScopeBreaks(m) == Concat(s);
    InConcat(s, b);
    if b in ScopeBreaks(m) {
      var i :| 0 <= i < |s| && b in s[i];
      assert cs[i] in cs && b in OwnBreaks(cs[i]);
    }
    if exists c | c in cs :: b in OwnBreaks(c) {
      var c :| c in cs && b in OwnBreaks(c);
      var i :| 0 <= i < |cs| && cs[i] == c;
      assert b in s[i];
    }
  }

  lemma {:induction false} InBodyBreaks(l: Node, b: Node)
    ensures b in BodyBreaks(l) <==> exists c | c in LoopBody(l) :: b in OwnBreaks(c)
  {
    var body := LoopBody(l);
    var s := seq(|body|, i requires 0 <= i < |body| => OwnBreaks(body[i]));
    assert BodyBreaks(l) == Concat(s);
    InConcat(s, b);
    if b in BodyBreaks(l) {
      var i :| 0 <= i < |s| && b in s[i];
      assert body[i] in body && b in OwnBreaks(body[i]);
    }
    if exists c | c in body :: b in OwnBreaks(c) {
      var c :| c in body && b in OwnBreaks(c);
      var i :| 0 <= i < |body| && body[i] == c;
      assert b in s[i];
    }
  }

  /** Every break collected is a break of the tree. */
  lemma {:induction false} OwnBreaksInTree(m: Node, b: Node)
    requires b in OwnBreaks(m)
    ensures IsBreak(b) && b in Nodes(m)
    decreases m
  {
    if !IsBreak(m) {
      InScopeBreaks(m, b);
      var c :| c in SameScopeChildren(m) && b in OwnBreaks(c);
      ChildrenSmaller(m);
      OwnBreaksInTree(c, b);
      ChildInNodes(m, m, c);
      NodesTransitive(m, c, b);
    }
  }

  /** Whatever lies in a loop's body lies in the loop. */
  lemma BodyInNodes(l: Node, b: Node)
    requires InLoopBody(l, b)
    ensures b in Nodes(l)
  {
    var c :| c in LoopBody(l) && b in Nodes(c);
    ChildInNodes(l, l, c);
    NodesTransitive(l, c, b);
  }

  lemma BodyChildAt(m: Node, k: nat)
    requires IsLoop(m) && k < |LoopBody(m)|
    ensures |LoopHeader(m)| + k < |Children(m)| && Children(m)[|LoopHeader(m)| + k] == LoopBody(m)[k]
  {
    LoopChildren(m);
  }

  lemma ScopeChildAt(m: Node, q: nat)
    requires IsLoop(m) && q < |SameScopeChildren(m)|
    ensures q < |LoopHeader(m)| ==> Children(m)[q] == SameScopeChildren(m)[q]
    ensures q >= |LoopHeader(m)| ==>
      q + |LoopBody(m)| < |Children(m)| && Children(m)[q + |LoopBody(m)|] == SameScopeChildren(m)[q]
  {
    LoopChildren(m);
  }

  /** With unique ids, nothing in a loop's header or `else` clause lies in its body. */
  lemma BodyApart(m: Node, d: Node, b: Node)
    requires UniqueIds(m) && IsLoop(m) && d in SameScopeChildren(m) && b in Nodes(d)
    ensures !InLoopBody(m, b)
  {
    var q :| 0 <= q < |SameScopeChildren(m)| && SameScopeChildren(m)[q] == d;
    ScopeChildAt(m, q);
    var j := if q < |LoopHeader(m)| then q else q + |LoopBody(m)|;
    forall k | 0 <= k < |LoopBody(m)|
      ensures b !in Nodes(LoopBody(m)[k])
    {
      BodyChildApart(m, k, j, b);
    }
  }

  /** With unique ids, nothing in a child outside a loop's body lies in a statement of it. */
  lemma BodyChildApart(m: Node, k: nat, j: nat, b: Node)
    requires UniqueIds(m) && IsLoop(m) && k < |LoopBody(m)| && j < |Children(m)|
    requires j < |LoopHeader(m)| || j >= |LoopHeader(m)| + |LoopBody(m)|
    requires b in Nodes(Children(m)[j])
    ensures b !in Nodes(LoopBody(m)[k])
  {
    BodyChildAt(m, k);
    NotInOtherChild(m, |LoopHeader(m)| + k, j, b);
  }

  /** With unique ids, nothing in one child's tree lies in a loop in another child's tree. */
  lemma ApartInOtherChild(m: Node, i: nat, k: nat, b: Node, l: Node)
    requires UniqueIds(m) && i < |Children(m)| && k < |Children(m)| && i != k
    requires b in Nodes(Children(m)[i]) && l in Nodes(Children(m)[k])
    ensures b !in Nodes(l) && !InLoopBody(l, b)
  {
    ChildrenApart(m, i, k);
    forall x | x in Nodes(l)
      ensures x.id != b.id
    {
      NodesTransitive(Children(m)[k], l, x);
    }
    forall c | c in LoopBody(l)
      ensures b !in Nodes(c)
    {
      ChildInNodes(l, l, c);
      forall x | x in Nodes(c)
        ensures x.id != b.id
      {
        NodesTransitive(l, c, x);
      }
    }
  }

  /** With unique ids, no loop of the tree rooted at `m` has a break of `OwnBreaks(m)` in
      its body. */
  lemma {:induction false} OwnBreakOutsideBodies(m: Node, b: Node, l: Node)
    requires UniqueIds(m) && b in OwnBreaks(m) && l in Nodes(m) && IsLoop(l)
    ensures !InLoopBody(l, b)
    decreases m, 1
  {
    LeafNodes(m);
    if !IsBreak(m) {
      ScopeBreakOutsideBodies(m, b, l);
    }
  }

  /** With unique ids, no loop of the tree rooted at `m`, `m` included, has a break of
      `ScopeBreaks(m)` in its body. */
  lemma {:induction false} ScopeBreakOutsideBodies(m: Node, b: Node, l: Node)
    requires UniqueIds(m) && b in ScopeBreaks(m) && l in Nodes(m) && IsLoop(l)
    ensures !InLoopBody(l, b)
    decreases m, 0
  {
    var cs := Children(m);
    ChildrenSmaller(m);
    InScopeBreaks(m, b);
    var d :| d in SameScopeChildren(m) && b in OwnBreaks(d);
    OwnBreaksInTree(d, b);
    var i :| 0 <= i < |cs| && cs[i] == d;
    if l == m {
      BodyApart(m, d, b);
    } else {
      InNodes(m, l);
      var k :| 0 <= k < |cs| && l in Nodes(cs[k]);
      if k == i {
        ChildApart(m, i);
        OwnBreakOutsideBodies(d, b, l);
      } else {
        ApartInOtherChild(m, i, k, b, l);
      }
    }
  }

  /** A break of the tree in the body of none of its loops is collected. */
  lemma {:induction false} UnenclosedBreakCollected(m: Node, b: Node)
    requires IsBreak(b) && b in Nodes(m)
    requires forall l | l in Nodes(m) && IsLoop(l) :: !InLoopBody(l, b)
    ensures b in OwnBreaks(m)
    decreases m
  {
    if b != m {
      var cs := Children(m);
      ChildrenSmaller(m);
      InNodes(m, b);
      var i :| 0 <= i < |cs| && b in Nodes(cs[i]);
      var d := cs[i];
      SplitChildren(m);
      assert d in SameScopeChildren(m);
      forall l | l in Nodes(d) && IsLoop(l)
        ensures !InLoopBody(l, b)
      {
        ChildInNodes(m, m, d);
        NodesTransitive(m, d, l);
      }
      UnenclosedBreakCollected(d, b);
      InScopeBreaks(m, b);
    }
  }

  /** The breaks that belong to a loop are exactly the breaks in its body that lie in the
      body of no loop nested in it. */
  lemma LoopBreaksBelongToLoop(loop: Node, b: Node)
    requires UniqueIds(loop) && IsLoop(loop)
    ensures b in BodyBreaks(loop) <==>
      IsBreak(b) && InLoopBody(loop, b) && forall l | l in Nodes(loop) && IsLoop(l) && l != loop :: !InLoopBody(l, b)
  {
    if b in BodyBreaks(loop) {
      LoopBreakUnenclosed(loop, b);
    }
    if IsBreak(b) && InLoopBody(loop, b) && forall l | l in Nodes(loop) && IsLoop(l) && l != loop :: !InLoopBody(l, b) {
      UnenclosedBreakBelongs(loop, b);
    }
  }

  lemma LoopBreakUnenclosed(loop: Node, b: Node)
    requires UniqueIds(loop) && b in BodyBreaks(loop)
    ensures IsBreak(b) && InLoopBody(loop, b)
    ensures forall l | l in Nodes(loop) && IsLoop(l) && l != loop :: !InLoopBody(l, b)
  {
    var cs := Children(loop);
    InBodyBreaks(loop, b);
    var c :| c in LoopBody(loop) && b in OwnBreaks(c);
    OwnBreaksInTree(c, b);
    var i :| 0 <= i < |cs| && cs[i] == c;
    forall l | l in Nodes(loop) && IsLoop(l) && l != loop
      ensures !InLoopBody(l, b)
    {
      InNodes(loop, l);
      var k :| 0 <= k < |cs| && l in Nodes(cs[k]);
      if k == i {
        ChildApart(loop, i);
        OwnBreakOutsideBodies(c, b, l);
      } else {
        ApartInOtherChild(loop, i, k, b, l);
      }
    }
  }

  lemma UnenclosedBreakBelongs(loop: Node, b: Node)
    requires UniqueIds(loop) && IsLoop(loop) && IsBreak(b) && InLoopBody(loop, b)
    requires forall l | l in Nodes(loop) && IsLoop(l) && l != loop :: !InLoopBody(l, b)
    ensures b in BodyBreaks(loop)
  {
    var cs := Children(loop);
    var c :| c in LoopBody(loop) && b in Nodes(c);
    var i :| 0 <= i < |cs| && cs[i] == c;
    ChildApart(loop, i);
    ChildInNodes(loop, loop, c);
    forall l | l in Nodes(c) && IsLoop(l)
      ensures !InLoopBody(l, b)
    {
      NodesTransitive(loop, c, l);
      assert l.id != loop.id;
    }
    UnenclosedBreakCollected(c, b);
    assert c in LoopBody(loop) && b in OwnBreaks(c);
    InBodyBreaks(loop, b);
  }

  /** A break in the `else` clause of a loop nested in a loop's body belongs to the outer
      loop. */
  lemma NestedElseBreakBelongs(loop: Node, inner: Node, b: Node)
    requires inner in LoopBody(loop) && IsLoop(inner) && b in LoopElse(inner) && IsBreak(b)
    ensures b in BodyBreaks(loop)
  {
    assert b in SameScopeChildren(inner) && OwnBreaks(b) == [b];
    InScopeBreaks(inner, b);
    assert b in OwnBreaks(inner);
    InBodyBreaks(loop, b);
  }

  /** When no loop nested in `loop` contains a break of it, `_has_break` finds a break: the
      loop seen last before it in the walk, if any, does not contain it. */
  lemma UnnestedBreakEscapes(loop: Node, b: Node)
    requires UniqueIds(loop) && IsBreak(b) && b in Nodes(loop)
    requires forall l | l in Nodes(loop) && IsLoop(l) && l != loop :: b !in Nodes(l)
    ensures BreakEscapes(loop)
  {
    var walk := Walk(loop);
    WalkPermutesNodes(loop);
    var j :| 0 <= j < |walk| && walk[j] == b;
    var closest := ClosestLoop(walk[..j + 1], loop);
    if closest.Some? {
      var l := closest.value;
      assert l in walk;
      forall x | x in Nodes(l)
        ensures x.id != b.id
      {
        NodesTransitive(loop, l, x);
        if x.id == b.id {
          SameIdSameNode(Nodes(loop), x, b);
        }
      }
    }
    assert EscapesAt(walk, j, loop);
  }

  /** A tree without breaks: `_has_break` finds none and no break belongs to the loop. */
  lemma NoBreakNoEscape(n: Node)
    requires forall m | m in Nodes(n) :: !IsBreak(m)
    ensures !BreakEscapes(n) && BodyBreaks(n) == []
  {
    WalkPermutesNodes(n);
    var walk := Walk(n);
    forall j | 0 <= j < |walk|
      ensures !EscapesAt(walk, j, n)
    {
      assert walk[j] in Nodes(n);
    }
    if BodyBreaks(n) != [] {
      var b := BodyBreaks(n)[0];
      InBodyBreaks(n, b);
      var c :| c in LoopBody(n) && b in OwnBreaks(c);
      OwnBreaksInTree(c, b);
      ChildInNodes(n, n, c);
      NodesTransitive(n, c, b);
    }
  }

  /** Without nested loops and without breaks outside the body, the check as written and
      the corrected check agree. */
  lemma ChecksAgreeWithoutNesting(n: Node)
    requires UniqueIds(n) && n.syntax.For?
    requires forall l | l in Nodes(n) && IsLoop(l) :: l == n
    requires forall b | b in Nodes(n) && IsBreak(b) :: InLoopBody(n, b)
    ensures NeedlessElse(n) <==> CorrectedNeedlessElse(n)
  {
    if exists b | b in Nodes(n) :: IsBreak(b) {
      var b :| b in Nodes(n) && IsBreak(b);
      UnnestedBreakEscapes(n, b);
      UnenclosedBreakBelongs(n, b);
    } else {
      NoBreakNoEscape(n);
    }
  }

  /** A `for … else` whose body holds a `break` directly is reported by neither check. */
  lemma DirectBreakInBody(n: Node, k: nat)
    requires UniqueIds(n) && n.syntax.For? && k < |n.syntax.body| && IsBreak(n.syntax.body[k])
    ensures !CorrectedNeedlessElse(n) && !NeedlessElse(n)
  {
    var b := n.syntax.body[k];
    assert LoopBody(n)[k] == b;
    assert OwnBreaks(b) == [b];
    InBodyBreaks(n, b);
    DirectBreakEscapes(n, k);
  }

  lemma DirectBreakEscapes(n: Node, k: nat)
    requires UniqueIds(n) && IsLoop(n) && k < |LoopBody(n)| && IsBreak(LoopBody(n)[k])
    ensures BreakEscapes(n)
  {
    BodyChildAt(n, k);
    var i := |LoopHeader(n)| + k;
    var b := Children(n)[i];
    ChildInNodes(n, n, b);
    forall l | l in Nodes(n) && IsLoop(l) && l != n
      ensures b !in Nodes(l)
    {
      ChildBreakUnnested(n, i, l);
    }
    UnnestedBreakEscapes(n, b);
  }

  /** With unique ids, a break that is a child of a node lies in no other loop of the tree. */
  lemma ChildBreakUnnested(n: Node, i: nat, l: Node)
    requires UniqueIds(n) && i < |Children(n)| && IsBreak(Children(n)[i])
    requires l in Nodes(n) && IsLoop(l) && l != n
    ensures Children(n)[i] !in Nodes(l)
  {
    var cs := Children(n);
    BreakIsLeaf(cs[i]);
    InNodes(n, l);
    var q :| 0 <= q < |cs| && l in Nodes(cs[q]);
    if q != i {
      ApartInOtherChild(n, i, q, cs[i], l);
    }
  }

  /** A break has no children: it is its whole tree. */
  lemma BreakIsLeaf(b: Node)
    requires IsBreak(b)
    ensures Nodes(b) == [b]
  {
    LeafNodes(b);
  }

  /** A `for … else` with no `break` anywhere in it is reported by both checks. */
  lemma NoBreakReported(n: Node)
    requires n.syntax.For? && n.syntax.orelse != []
    requires forall m | m in Nodes(n) :: !IsBreak(m)
    ensures NeedlessElse(n) && CorrectedNeedlessElse(n)
  {
    NoBreakNoEscape(n);
  }

  // ---------------------------------------------------------------------------------
  // A needless `else` the check as written misses.

  /** for x in xs:
         while t1:
             break
         while t2:
             pass
     else:
         pass
      with ids `base` to `base + 9`. */
  function NestedBreakLoop(base: nat): Node
  {
    var firstWhile := Node(base + 3, While(Node(base + 5, Name("t1")), [Node(base + 6, Break)], []));
    var secondWhile := Node(base + 4, While(Node(base + 7, Name("t2")), [Node(base + 8, Pass)], []));
    Node(base, For(Node(base + 1, Name("x")), Node(base + 2, Name("xs")), [firstWhile, secondWhile],
                   [Node(base + 9, Pass)]))
  }

  /** The nodes of `NestedBreakLoop(base)` level by level, as `ast.walk` yields them. */
  function NestedBreakOrder(base: nat): seq<Node>
  {
    var r := NestedBreakLoop(base);
    var w1, w2 := r.syntax.body[0], r.syntax.body[1];
    [r, r.syntax.target, r.syntax.iter, w1, w2, r.syntax.orelse[0],
     w1.syntax.test, w1.syntax.body[0], w2.syntax.test, w2.syntax.body[0]]
  }

  /** The breadth-first walk of any tree of the shape of `NestedBreakLoop`. */
  lemma NestedShapeWalk(r: Node, x: Node, xs: Node, w1: Node, w2: Node, e: Node,
                        t1: Node, b: Node, t2: Node, p: Node)
    requires Children(r) == [x, xs, w1, w2, e]
    requires Children(w1) == [t1, b] && Children(w2) == [t2, p]
    requires Children(x) == [] && Children(xs) == [] && Children(e) == []
    requires Children(t1) == [] && Children(b) == [] && Children(t2) == [] && Children(p) == []
    ensures Walk(r) == [r, x, xs, w1, w2, e, t1, b, t2, p]
  {
    InnerLoopsWalk(w1, w2, e, t1, b, t2, p);
    LeadingLeavesWalk(x, xs, [w1, w2, e]);
    assert [x, xs] + [w1, w2, e] == [x, xs, w1, w2, e];
    WalkFromStep([r], [x, xs, w1, w2, e]);
  }

  /** Two leaves at the front of the queue are walked first, and add nothing to it. */
  lemma LeadingLeavesWalk(a: Node, b: Node, rest: seq<Node>)
    requires Children(a) == [] && Children(b) == []
    ensures WalkFrom([a, b] + rest) == [a, b] + WalkFrom(rest)
  {
    assert ([a, b] + rest)[1..] + Children(a) == [b] + rest;
    WalkFromStep([a, b] + rest, [b] + rest);
    assert ([b] + rest)[1..] + Children(b) == rest;
    WalkFromStep([b] + rest, rest);
  }

  /** The walk from the two inner loops onwards: the loops, then their children. */
  lemma InnerLoopsWalk(w1: Node, w2: Node, e: Node, t1: Node, b: Node, t2: Node, p: Node)
    requires Children(w1) == [t1, b] && Children(w2) == [t2, p] && Children(e) == []
    requires Children(t1) == [] && Children(b) == [] && Children(t2) == [] && Children(p) == []
    ensures WalkFrom([w1, w2, e]) == [w1, w2, e, t1, b, t2, p]
  {
    WalkFromLeaves([e, t1, b, t2, p]);
    WalkFromStep([w2, e, t1, b], [e, t1, b, t2, p]);
    WalkFromStep([w1, w2, e], [w2, e, t1, b]);
  }

  lemma NestedBreakWalk(base: nat)
    ensures Walk(NestedBreakLoop(base)) == NestedBreakOrder(base)
  {
    var r := NestedBreakLoop(base);
    var w1, w2 := r.syntax.body[0], r.syntax.body[1];
    NestedShapeWalk(r, r.syntax.target, r.syntax.iter, w1, w2, r.syntax.orelse[0],
                    w1.syntax.test, w1.syntax.body[0], w2.syntax.test, w2.syntax.body[0]);
  }

  /** The only break belongs to the first `while`, so the `else` is needless. The walk
      meets the second `while` before the break, and that loop does not contain it, so
      `_has_break` is true and the check as written reports nothing. */
  lemma NestedBreakCounterexample(base: nat)
    ensures BreakEscapes(NestedBreakLoop(base)) && !NeedlessElse(NestedBreakLoop(base))
    ensures CorrectedNeedlessElse(NestedBreakLoop(base))
  {
    NestedBreakEscapes(base);
    NestedBreakNotOwn(base);
  }

  lemma NestedBreakEscapes(base: nat)
    ensures BreakEscapes(NestedBreakLoop(base))
  {
    var r := NestedBreakLoop(base);
    var w1, w2 := r.syntax.body[0], r.syntax.body[1];
    NestedBreakWalk(base);
    ShapeEscapes(r, r.syntax.target, r.syntax.iter, w1, w2, r.syntax.orelse[0],
                 w1.syntax.test, w1.syntax.body[0], w2.syntax.test, w2.syntax.body[0]);
  }

  lemma ShapeEscapes(r: Node, x: Node, xs: Node, w1: Node, w2: Node, e: Node,
                     t1: Node, b: Node, t2: Node, p: Node)
    requires Walk(r) == [r, x, xs, w1, w2, e, t1, b, t2, p]
    requires IsLoop(w2) && w2.id != r.id && !IsLoop(e) && !IsLoop(t1) && IsBreak(b)
    requires Children(w2) == [t2, p] && Children(t2) == [] && Children(p) == []
    requires b.id != w2.id && b.id != t2.id && b.id != p.id
    ensures BreakEscapes(r)
  {
    var walk := Walk(r);
    var before := [r, x, xs, w1, w2];
    var after := [e, t1, b];
    assert walk[..8] == before + after;
    ClosestLoopSkips(before, after, r);
    assert ClosestLoop(before, r) == Some(w2);
    NodesUnfold(w2);
    ForestOfLeaves([t2, p]);
    assert Nodes(w2) == [w2, t2, p];
    assert EscapesAt(walk, 7, r);
  }

  lemma NestedBreakNotOwn(base: nat)
    ensures BodyBreaks(NestedBreakLoop(base)) == []
  {
    var r := NestedBreakLoop(base);
    var w1, w2 := r.syntax.body[0], r.syntax.body[1];
    ShapeNotOwn(r, w1, w2, w1.syntax.test, w2.syntax.test);
  }

  /** A loop whose body is two loops, each with a header that is a leaf other than a break
      and without an `else` clause, has no break of its own. */
  lemma ShapeNotOwn(r: Node, w1: Node, w2: Node, t1: Node, t2: Node)
    requires LoopBody(r) == [w1, w2] && IsLoop(w1) && IsLoop(w2)
    requires SameScopeChildren(w1) == [t1] && SameScopeChildren(w2) == [t2]
    requires Children(t1) == [] && Children(t2) == [] && !IsBreak(t1) && !IsBreak(t2)
    ensures BodyBreaks(r) == []
  {
    if BodyBreaks(r) != [] {
      var b := BodyBreaks(r)[0];
      InBodyBreaks(r, b);
      InScopeBreaks(w1, b);
      InScopeBreaks(w2, b);
      InScopeBreaks(t1, b);
      InScopeBreaks(t2, b);
    }
  }

  // ---------------------------------------------------------------------------------
  // A needed `else` the check as written reports.

  /** for x in xs:
         while c:
             pass
         else:
             break
     else:
         pass
      with ids `base` to `base + 7`. The `break` leaves the `for` loop. */
  function ElseBreakLoop(base: nat): Node
  {
    var inner := Node(base + 3, While(Node(base + 5, Name("c")), [Node(base + 6, Pass)], [Node(base + 7, Break)]));
    Node(base, For(Node(base + 1, Name("x")), Node(base + 2, Name("xs")), [inner], [Node(base + 4, Pass)]))
  }

  /** The breadth-first walk of any tree of the shape of `ElseBreakLoop`. */
  lemma ElseShapeWalk(r: Node, x: Node, xs: Node, w: Node, e: Node, c: Node, p: Node, b: Node)
    requires Children(r) == [x, xs, w, e] && Children(w) == [c, p, b]
    requires Children(x) == [] && Children(xs) == [] && Children(e) == []
    requires Children(c) == [] && Children(p) == [] && Children(b) == []
    ensures Walk(r) == [r, x, xs, w, e, c, p, b]
  {
    WalkFromLeaves([e, c, p, b]);
    WalkFromStep([w, e], [e, c, p, b]);
    LeadingLeavesWalk(x, xs, [w, e]);
    assert [x, xs] + [w, e] == [x, xs, w, e];
    WalkFromStep([r], [x, xs, w, e]);
  }

  /** In a tree of that shape the only break comes after the inner loop in the walk, and
      that loop contains it, so `_has_break` is false. */
  lemma ElseShapeNoEscape(r: Node, x: Node, xs: Node, w: Node, e: Node, c: Node, p: Node, b: Node)
    requires Walk(r) == [r, x, xs, w, e, c, p, b]
    requires IsLoop(w) && w.id != r.id && !IsLoop(e) && !IsLoop(c) && !IsLoop(p)
    requires !IsBreak(r) && !IsBreak(x) && !IsBreak(xs) && !IsBreak(e) && !IsBreak(c) && !IsBreak(p)
    requires Children(w) == [c, p, b] && Children(c) == [] && Children(p) == [] && Children(b) == []
    ensures !BreakEscapes(r)
  {
    var walk := Walk(r);
    forall j | 0 <= j < |walk|
      ensures !EscapesAt(walk, j, r)
    {
      if j == 7 {
        ElseShapeBreakContained(r, x, xs, w, e, c, p, b);
      } else {
        assert walk[..7] == [r, x, xs, w, e, c, p];
        assert walk[j] in walk[..7];
      }
    }
  }

  /** The loop walked last before the break is the inner loop, which contains it. */
  lemma ElseShapeBreakContained(r: Node, x: Node, xs: Node, w: Node, e: Node, c: Node, p: Node, b: Node)
    requires Walk(r) == [r, x, xs, w, e, c, p, b]
    requires IsLoop(w) && w.id != r.id && !IsLoop(e) && !IsLoop(c) && !IsLoop(p)
    requires Children(w) == [c, p, b] && Children(c) == [] && Children(p) == [] && Children(b) == []
    ensures !EscapesAt(Walk(r), 7, r)
  {
    var walk := Walk(r);
    var before := [r, x, xs, w];
    var after := [e, c, p, b];
    assert walk[..8] == before + after;
    ClosestLoopSkips(before, after, r);
    assert ClosestLoop(before, r) == Some(w);
    NodesUnfold(w);
    ForestOfLeaves([c, p, b]);
    assert b in Nodes(w);
  }

  /** The `break` in the inner loop's `else` belongs to the `for` loop, so its `else` is
      needed. The walk meets the inner `while` before the break, and that loop contains it,
      so `_has_break` is false and the check as written reports the `else`. */
  lemma ElseBreakCounterexample(base: nat)
    ensures NeedlessElse(ElseBreakLoop(base)) && !CorrectedNeedlessElse(ElseBreakLoop(base))
  {
    var r := ElseBreakLoop(base);
    var w := r.syntax.body[0];
    ElseShapeWalk(r, r.syntax.target, r.syntax.iter, w, r.syntax.orelse[0],
                  w.syntax.test, w.syntax.body[0], w.syntax.orelse[0]);
    ElseShapeNoEscape(r, r.syntax.target, r.syntax.iter, w, r.syntax.orelse[0],
                      w.syntax.test, w.syntax.body[0], w.syntax.orelse[0]);
    NestedElseBreakBelongs(r, w, w.syntax.orelse[0]);
  }
}
