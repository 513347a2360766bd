/**
 * The syntax tree the keyword checks walk over.
 *
 * Python's `ast` module is not part of this model. In its place: a closed set of node
 * kinds (the ones the checks look at, plus `Other` for every remaining kind), the
 * child order that `ast.iter_child_nodes` yields (fields in declaration order), the
 * breadth-first order of `ast.walk`, and the pre-order, parent-aware order in which
 * `ast.NodeVisitor` calls its `visit_*` methods. Every node carries an id; Python's
 * `is` is modelled as equality of ids, and `UniqueIds` says that a tree gives each of
 * its node occurrences an id of its own, as distinct Python objects do.
 */
module Ast {
  import opened Wrappers

  type NodeId = nat

  datatype Node = Node(id: NodeId, syntax: Syntax)

  /** Node kinds with their child-holding fields, in Python's field order. */
  datatype Syntax =
    | Module(body: seq<Node>)
    | Pass
    | Break
    | Delete(targets: seq<Node>)
    | Global(names: seq<string>)
    | Nonlocal(names: seq<string>)
    | Raise(exc: Option<Node>, cause: Option<Node>)
    | For(target: Node, iter: Node, body: seq<Node>, orelse: seq<Node>)
    | While(test: Node, body: seq<Node>, orelse: seq<Node>)
    | If(test: Node, body: seq<Node>, orelse: seq<Node>)
    | Try(body: seq<Node>, handlers: seq<Node>, orelse: seq<Node>, finalbody: seq<Node>)
    | ExceptHandler(excType: Option<Node>, name: Option<string>, body: seq<Node>)
    | ListComp(elt: Node, generators: seq<Node>)
    | SetComp(elt: Node, generators: seq<Node>)
    | GeneratorExp(elt: Node, generators: seq<Node>)
    | DictComp(key: Node, value: Node, generators: seq<Node>)
    | Comprehension(target: Node, iter: Node, ifs: seq<Node>)
    | Name(ident: string)
    | Call(func: Node, args: seq<Node>)
    | Other(children: seq<Node>)

  function Optional(o: Option<Node>): (cs: seq<Node>)
    ensures forall c | c in cs :: o == Some(c)
    ensures o.Some? ==> o.value in cs
  {
    if o.Some? then [o.value] else []
  }

  /** The direct children of a node, in the order `ast.iter_child_nodes` yields them. */
  function Children(n: Node): seq<Node>
  {
    match n.syntax
    case Module(body) => body
    case Pass => []
    case Break => []
    case Delete(targets) => targets
    case Global(_) => []
    case Nonlocal(_) => []
    case Raise(exc, cause) => Optional(exc) + Optional(cause)
    case For(target, iter, body, orelse) => [target, iter] + body + orelse
    case While(test, body, orelse) => [test] + body + orelse
    case If(test, body, orelse) => [test] + body + orelse
    case Try(body, handlers, orelse, finalbody) => body + handlers + orelse + finalbody
    case ExceptHandler(excType, _, body) => Optional(excType) + body
    case ListComp(elt, generators) => [elt] + generators
    case SetComp(elt, generators) => [elt] + generators
    case GeneratorExp(elt, generators) => [elt] + generators
    case DictComp(key, value, generators) => [key, value] + generators
    case Comprehension(target, iter, ifs) => [target, iter] + ifs
    case Name(_) => []
    case Call(func, args) => [func] + args
    case Other(children) => children
  }

  lemma ChildrenSmaller(n: Node)
    ensures forall c | c in Children(n) :: c < n
    ensures forall i | 0 <= i < |Children(n)| :: Children(n)[i] < n
  {
    forall i | 0 <= i < |Children(n)|
      ensures Children(n)[i] < n
    {
      assert Children(n)[i] in Children(n);
    }
  }

  function Concat<T>(ss: seq<seq<T>>): seq<T>
  {
    if ss == [] then [] else ss[0] + Concat(ss[1..])
  }

  lemma {:induction false} ConcatAppend<T>(a: seq<seq<T>>, b: seq<seq<T>>)
    ensures Concat(a + b) == Concat(a) + Concat(b)
  {
    if a == [] {
      assert a + b == b;
    } else {
      assert (a + b)[1..] == a[1..] + b;
      ConcatAppend(a[1..], b);
    }
  }

  lemma {:induction false} InConcat<T>(ss: seq<seq<T>>, x: T)
    ensures x in Concat(ss) <==> exists i :: 0 <= i < |ss| && x in ss[i]
  {
    if ss != [] {
      InConcat(ss[1..], x);
      if x in Concat(ss[1..]) {
        var i :| 0 <= i < |ss[1..]| && x in ss[1..][i];
        assert x in ss[i + 1];
      }
      if exists i :: 0 <= i < |ss| && x in ss[i] {
        var i :| 0 <= i < |ss| && x in ss[i];
        if i > 0 {
          assert x in ss[1..][i - 1];
        }
      }
    }
  }

  /** Every node of the tree rooted at `n`, in pre-order (`n` first). */
  function Nodes(n: Node): (ns: seq<Node>)
    ensures |ns| >= 1 && ns[0] == n
  {
    var cs := Children(n);
    ChildrenSmaller(n);
    [n] + Concat(seq(|cs|, i requires 0 <= i < |cs| => Nodes(cs[i])))
  }

  /** Every node of the trees rooted at the nodes of `q`, tree after tree. */
  function Forest(q: seq<Node>): seq<Node>
  {
    Concat(seq(|q|, i requires 0 <= i < |q| => Nodes(q[i])))
  }

  /** A node without children is its whole tree. */
  lemma LeafNodes(n: Node)
    ensures Children(n) == [] ==> Nodes(n) == [n]
  {
    NodesUnfold(n);
    assert Forest([]) == [];
  }

  /** A sequence of leaves is its own forest. */
  lemma {:induction false} ForestOfLeaves(q: seq<Node>)
    requires forall i | 0 <= i < |q| :: Children(q[i]) == []
    ensures Forest(q) == q
    decreases |q|
  {
    if q == [] {
      assert Forest(q) == [];
    } else {
      ForestCons(q);
      LeafNodes(q[0]);
      ForestOfLeaves(q[1..]);
    }
  }

  lemma NodesUnfold(n: Node)
    ensures Nodes(n) == [n] + Forest(Children(n))
  {
    var cs := Children(n);
    assert seq(|cs|, i requires 0 <= i < |cs| => Nodes(cs[i]))
        == seq(|cs|, i requires 0 <= i < |cs| => Nodes(cs[i]));
  }

  lemma ForestCons(q: seq<Node>)
    requires q != []
    ensures Forest(q) == Nodes(q[0]) + Forest(q[1..])
  {
    var s := seq(|q|, i requires 0 <= i < |q| => Nodes(q[i]));
    assert s[1..] == seq(|q[1..]|, i requires 0 <= i < |q[1..]| => Nodes(q[1..][i]));
  }

  lemma ForestAppend(a: seq<Node>, b: seq<Node>)
    ensures Forest(a + b) == Forest(a) + Forest(b)
  {
    var sa := seq(|a|, i requires 0 <= i < |a| => Nodes(a[i]));
    var sb := seq(|b|, i requires 0 <= i < |b| => Nodes(b[i]));
    assert seq(|a + b|, i requires 0 <= i < |a + b| => Nodes((a + b)[i])) == sa + sb;
    ConcatAppend(sa, sb);
  }

  lemma InForest(q: seq<Node>, x: Node)
    ensures x in Forest(q) <==> exists i :: 0 <= i < |q| && x in Nodes(q[i])
  {
    var s := seq(|q|, i requires 0 <= i < |q| => Nodes(q[i]));
    InConcat(s, x);
    if exists i :: 0 <= i < |q| && x in Nodes(q[i]) {
      var i :| 0 <= i < |q| && x in Nodes(q[i]);
      assert x in s[i];
    }
  }

  lemma InNodes(n: Node, x: Node)
    ensures x in Nodes(n) <==> x == n || exists i :: 0 <= i < |Children(n)| && x in Nodes(Children(n)[i])
  {
    NodesUnfold(n);
    InForest(Children(n), x);
  }

  lemma {:induction false} NodesTransitive(n: Node, m: Node, x: Node)
    requires m in Nodes(n) && x in Nodes(m)
    ensures x in Nodes(n)
    decreases n
  {
    if m != n {
      InNodes(n, m);
      var i :| 0 <= i < |Children(n)| && m in Nodes(Children(n)[i]);
      ChildrenSmaller(n);
      NodesTransitive(Children(n)[i], m, x);
      InNodes(n, x);
    }
  }

  /** A child of a node of the tree is a node of the tree. */
  lemma ChildInNodes(n: Node, p: Node, c: Node)
    requires p in Nodes(n) && c in Children(p)
    ensures c in Nodes(n)
  {
    var i :| 0 <= i < |Children(p)| && Children(p)[i] == c;
    InNodes(p, c);
    NodesTransitive(n, p, c);
  }

  /** Every node of the tree except its root is a child of another node of the tree. */
  lemma {:induction false} NodeHasParent(n: Node, m: Node)
    requires m in Nodes(n) && m != n
    ensures exists p :: p in Nodes(n) && m in Children(p)
    decreases n
  {
    InNodes(n, m);
    var i :| 0 <= i < |Children(n)| && m in Nodes(Children(n)[i]);
    var c := Children(n)[i];
    if m == c {
      assert m in Children(n);
    } else {
      ChildrenSmaller(n);
      NodeHasParent(c, m);
      var p :| p in Nodes(c) && m in Children(p);
      InNodes(n, c);
      NodesTransitive(n, c, p);
    }
  }

  // ---------------------------------------------------------------------------------
  // ast.walk: breadth-first, a queue from which the front node is taken and its
  // children appended.

  lemma WalkStep(queue: seq<Node>)
    requires queue != []
    ensures Forest(queue) == [queue[0]] + Forest(Children(queue[0])) + Forest(queue[1..])
    ensures Forest(queue[1..] + Children(queue[0])) == Forest(queue[1..]) + Forest(Children(queue[0]))
  {
    ForestCons(queue);
    NodesUnfold(queue[0]);
    ForestAppend(queue[1..], Children(queue[0]));
  }

  function WalkFrom(queue: seq<Node>): seq<Node>
    decreases |Forest(queue)|
  {
    if queue == [] then []
    else
      WalkStep(queue);
      [queue[0]] + WalkFrom(queue[1..] + Children(queue[0]))
  }

  /** One step of the walk, with the queue that follows spelled out. */
  lemma WalkFromStep(queue: seq<Node>, next: seq<Node>)
    requires queue != [] && next == queue[1..] + Children(queue[0])
    ensures WalkFrom(queue) == [queue[0]] + WalkFrom(next)
  {
  }

  /** A queue of leaves is walked as it stands. */
  lemma {:induction false} WalkFromLeaves(queue: seq<Node>)
    requires forall i | 0 <= i < |queue| :: Children(queue[i]) == []
    ensures WalkFrom(queue) == queue
    decreases |queue|
  {
    if queue != [] {
      WalkFromStep(queue, queue[1..]);
      WalkFromLeaves(queue[1..]);
    }
  }

  /** The order in which `ast.walk(n)` yields the nodes of the tree rooted at `n`. */
  function Walk(n: Node): seq<Node>
  {
    WalkFrom([n])
  }

  lemma {:induction false} WalkFromPermutes(queue: seq<Node>)
    ensures multiset(WalkFrom(queue)) == multiset(Forest(queue))
    decreases |Forest(queue)|
  {
    if queue != [] {
      WalkStep(queue);
      WalkFromPermutes(queue[1..] + Children(queue[0]));
    } else {
      assert Forest(queue) == [];
    }
  }

  /** The breadth-first walk yields every node of the tree exactly as often as the
      pre-order does: it starts at the root and is a permutation of `Nodes(n)`. */
  lemma WalkPermutesNodes(n: Node)
    ensures multiset(Walk(n)) == multiset(Nodes(n))
    ensures |Walk(n)| == |Nodes(n)| && Walk(n)[0] == n
    ensures forall x :: x in Walk(n) <==> x in Nodes(n)
  {
    WalkFromPermutes([n]);
    ForestCons([n]);
    assert Forest([n][1..]) == [];
    assert Forest([n]) == Nodes(n);
    assert |multiset(Walk(n))| == |multiset(Nodes(n))|;
    forall x
      ensures x in Walk(n) <==> x in Nodes(n)
    {
      assert x in Walk(n) <==> x in multiset(Walk(n));
      assert x in Nodes(n) <==> x in multiset(Nodes(n));
    }
  }

  // ---------------------------------------------------------------------------------
  // ast.NodeVisitor: `visit` is called on a node, then `generic_visit` calls `visit` on
  // its children in order. The parent link the checks read is that of the caller.

  /** One call of a visitor's `visit`, with the node's parent (None at the root). */
  datatype Visit = Visit(node: Node, parent: Option<Node>)

  /** `getattr(node, 'parent', node)`: the parent, or the node itself at the root. */
  function ParentOrSelf(v: Visit): Node
  {
    if v.parent.Some? then v.parent.value else v.node
  }

  /** The calls of `visit` made when visiting the tree rooted at `n`, in order. */
  function Visits(n: Node, parent: Option<Node>): (vs: seq<Visit>)
    ensures |vs| >= 1 && vs[0] == Visit(n, parent)
  {
    var cs := Children(n);
    ChildrenSmaller(n);
    [Visit(n, parent)] + Concat(seq(|cs|, i requires 0 <= i < |cs| => Visits(cs[i], Some(n))))
  }

  /** The visitor is called on the root with the given parent, and on every child of
      every node of the tree with that node as parent, and on nothing else. */
  lemma {:induction false} InVisits(n: Node, parent: Option<Node>, v: Visit)
    ensures v in Visits(n, parent) <==>
      v == Visit(n, parent) ||
      (v.parent.Some? && v.parent.value in Nodes(n) && v.node in Children(v.parent.value))
    decreases n
  {
    var cs := Children(n);
    var s := seq(|cs|, i requires 0 <= i < |cs| => Visits(cs[i], Some(n)));
    ChildrenSmaller(n);
    InConcat(s, v);
    assert Visits(n, parent) == [Visit(n, parent)] + Concat(s);
    if v in Concat(s) {
      var i :| 0 <= i < |s| && v in s[i];
      InVisits(cs[i], Some(n), v);
      if v != Visit(cs[i], Some(n)) {
        InNodes(n, v.parent.value);
      }
    }
    if v.parent.Some? && v.parent.value in Nodes(n) && v.node in Children(v.parent.value) {
      var p := v.parent.value;
      InNodes(n, p);
      if p == n {
        var i :| 0 <= i < |cs| && cs[i] == v.node;
        assert v == s[i][0];
        assert v in s[i];
      } else {
        var i :| 0 <= i < |cs| && p in Nodes(cs[i]);
        InVisits(cs[i], Some(n), v);
        assert v in s[i];
      }
    }
  }

  /** The visitor is called on exactly the nodes of the tree. */
  lemma VisitedNodes(n: Node, parent: Option<Node>)
    ensures forall v | v in Visits(n, parent) :: v.node in Nodes(n)
    ensures forall m | m in Nodes(n) :: exists q :: Visit(m, q) in Visits(n, parent)
  {
    forall v | v in Visits(n, parent)
      ensures v.node in Nodes(n)
    {
      InVisits(n, parent, v);
      if v != Visit(n, parent) {
        ChildInNodes(n, v.parent.value, v.node);
      }
    }
    forall m | m in Nodes(n)
      ensures exists q :: Visit(m, q) in Visits(n, parent)
    {
      if m == n {
        assert Visit(m, parent) in Visits(n, parent);
      } else {
        NodeHasParent(n, m);
        var p :| p in Nodes(n) && m in Children(p);
        InVisits(n, parent, Visit(m, Some(p)));
      }
    }
  }

  // ---------------------------------------------------------------------------------
  // Identity.

  ghost predicate DistinctIds(s: seq<Node>)
  {
    forall i, j | 0 <= i < j < |s| :: s[i].id != s[j].id
  }

  /** No two node occurrences of the tree share an id. */
  ghost predicate UniqueIds(n: Node)
  {
    DistinctIds(Nodes(n))
  }

  /** Within a tree with unique ids, `is` (equal ids) is equality of nodes. */
  lemma SameIdSameNode(s: seq<Node>, x: Node, y: Node)
    requires DistinctIds(s) && x in s && y in s && x.id == y.id
    ensures x == y
  {
    var i :| 0 <= i < |s| && s[i] == x;
    var j :| 0 <= j < |s| && s[j] == y;
    assert !(i < j) && !(j < i);
  }

  lemma DistinctAppend(a: seq<Node>, b: seq<Node>)
    requires DistinctIds(a + b)
    ensures DistinctIds(a) && DistinctIds(b)
    ensures forall x, y | x in a && y in b :: x.id != y.id
  {
    forall i, j | 0 <= i < j < |a|
      ensures a[i].id != a[j].id
    {
      assert (a + b)[i] == a[i] && (a + b)[j] == a[j];
    }
    forall i, j | 0 <= i < j < |b|
      ensures b[i].id != b[j].id
    {
      assert (a + b)[|a| + i] == b[i] && (a + b)[|a| + j] == b[j];
    }
    forall x, y | x in a && y in b
      ensures x.id != y.id
    {
      var i :| 0 <= i < |a| && a[i] == x;
      var j :| 0 <= j < |b| && b[j] == y;
      assert (a + b)[i] == x && (a + b)[|a| + j] == y;
    }
  }

  lemma {:induction false} DistinctForest(q: seq<Node>)
    requires DistinctIds(Forest(q))
    ensures forall i | 0 <= i < |q| :: DistinctIds(Nodes(q[i]))
    ensures forall i, j, x, y | 0 <= i < |q| && 0 <= j < |q| && i != j && x in Nodes(q[i]) && y in Nodes(q[j]) ::
      x.id != y.id
  {
    if q != [] {
      ForestCons(q);
      DistinctAppend(Nodes(q[0]), Forest(q[1..]));
      DistinctForest(q[1..]);
      forall i, j, x, y | 0 <= i < |q| && 0 <= j < |q| && i != j && x in Nodes(q[i]) && y in Nodes(q[j])
        ensures x.id != y.id
      {
        if i == 0 {
          InForest(q[1..], y);
          assert y in Nodes(q[1..][j - 1]);
        } else if j == 0 {
          InForest(q[1..], x);
          assert x in Nodes(q[1..][i - 1]);
        } else {
          assert x in Nodes(q[1..][i - 1]) && y in Nodes(q[1..][j - 1]);
        }
      }
      forall i | 0 <= i < |q|
        ensures DistinctIds(Nodes(q[i]))
      {
        if i > 0 {
          assert q[i] == q[1..][i - 1];
        }
      }
    }
  }

  /** Unique ids are inherited by the children's trees, which share no id with each
      other nor with their parent. */
  lemma UniqueChildren(n: Node)
    requires UniqueIds(n)
    ensures forall i | 0 <= i < |Children(n)| :: UniqueIds(Children(n)[i])
    ensures forall i, x | 0 <= i < |Children(n)| && x in Nodes(Children(n)[i]) :: x.id != n.id
    ensures forall i, j, x, y |
      0 <= i < |Children(n)| && 0 <= j < |Children(n)| && i != j &&
      x in Nodes(Children(n)[i]) && y in Nodes(Children(n)[j]) :: x.id != y.id
  {
    var cs := Children(n);
    NodesUnfold(n);
    DistinctAppend([n], Forest(cs));
    DistinctForest(cs);
    forall i, x | 0 <= i < |cs| && x in Nodes(cs[i])
      ensures x.id != n.id
    {
      InForest(cs, x);
    }
  }

  /** Two distinct children's trees of a tree with unique ids share no id. */
  lemma ChildrenApart(n: Node, i: nat, j: nat)
    requires UniqueIds(n) && i < |Children(n)| && j < |Children(n)| && i != j
    ensures forall x, y | x in Nodes(Children(n)[i]) && y in Nodes(Children(n)[j]) :: x.id != y.id
  {
    UniqueChildren(n);
  }

  /** A node of one child's tree of a tree with unique ids is in no other child's tree. */
  lemma NotInOtherChild(n: Node, i: nat, j: nat, b: Node)
    requires UniqueIds(n) && i < |Children(n)| && j < |Children(n)| && i != j
    requires b in Nodes(Children(n)[j])
    ensures b !in Nodes(Children(n)[i])
  {
    ChildrenApart(n, i, j);
  }

  /** A child's tree of a tree with unique ids has unique ids, none of them its parent's. */
  lemma ChildApart(n: Node, i: nat)
    requires UniqueIds(n) && i < |Children(n)|
    ensures UniqueIds(Children(n)[i])
    ensures forall x | x in Nodes(Children(n)[i]) :: x.id != n.id
  {
    UniqueChildren(n);
  }

  /** A subtree of a tree with unique ids has unique ids. */
  lemma {:induction false} UniqueSubtree(n: Node, m: Node)
    requires UniqueIds(n) && m in Nodes(n)
    ensures UniqueIds(m)
    decreases n
  {
    if m != n {
      InNodes(n, m);
      var i :| 0 <= i < |Children(n)| && m in Nodes(Children(n)[i]);
      UniqueChildren(n);
      ChildrenSmaller(n);
      UniqueSubtree(Children(n)[i], m);
    }
  }
}
