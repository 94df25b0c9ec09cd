/**
 * The 2-D kd-tree KDTree<T> of kd-tree.hpp (kdtree.cpp holds the same class),
 * instantiated, as everywhere in the program, with T = Vector.
 *
 * The heap of Node<T> objects is an arena: `nodes` lists the nodes in the
 * order they were allocated, a link is the index of its target and NoNode
 * stands for nullptr. A link always points to a node allocated later than
 * the node holding it, and the subtrees below two sibling links share no
 * node (Forest). TreeAt reads the arena as a Tree value, the abstraction the
 * operations are specified with.
 */
module KdTrees {
  import opened Geometry

  /** The tree below a link: nullptr, or a node with its element, children and dim. */
  datatype Tree = Empty | Node(element: Vector, left: Tree, right: Tree, dim: int)

  /** The elements stored in a tree. */
  function Elements(t: Tree): set<Vector> {
    match t
    case Empty => {}
    case Node(x, l, r, _) => Elements(l) + Elements(r) + {x}
  }

  /**
   * The coordinate a node of the given dim splits on: x at even dims, y at
   * odd ones (`dim % 2 == 0` has the same truth value under C++'s
   * truncating % and Dafny's Euclidean %).
   */
  function Axis(v: Vector, dim: int): real {
    if dim % 2 == 0 then v.x else v.y
  }

  /** The squared distance searchNode compares with r * r. */
  function SqDistance(q: Vector, p: Vector): (d: real)
    ensures 0.0 <= d
  {
    SqNonNegative(q.x - p.x);
    SqNonNegative(q.y - p.y);
    Sq(q.x - p.x) + Sq(q.y - p.y)
  }

  /**
   * The ordering invariant: every element of a node's left subtree lies
   * strictly below the node on the node's axis, every element of its right
   * subtree at or above it.
   */
  predicate Ordered(t: Tree) {
    match t
    case Empty => true
    case Node(x, l, r, d) =>
      (forall e :: e in Elements(l) ==> Axis(e, d) < Axis(x, d)) &&
      (forall e :: e in Elements(r) ==> Axis(x, d) <= Axis(e, d)) &&
      Ordered(l) && Ordered(r)
  }

  /** Every node's dim is its depth plus `depth`, the dim of the tree's root. */
  predicate DimsFrom(t: Tree, depth: int) {
    match t
    case Empty => true
    case Node(_, l, r, d) => d == depth && DimsFrom(l, depth + 1) && DimsFrom(r, depth + 1)
  }

  /** No element is stored at two nodes. */
  predicate Distinct(t: Tree) {
    match t
    case Empty => true
    case Node(x, l, r, _) =>
      x !in Elements(l) && x !in Elements(r) && Elements(l) !! Elements(r) &&
      Distinct(l) && Distinct(r)
  }

  // ---------------------------------------------------------------------
  // Insertion
  // ---------------------------------------------------------------------

  /** The tree after insert(element): a root of dim 0 in an empty tree, else insertNode from the root. */
  function Inserted(t: Tree, e: Vector): (r: Tree)
    ensures r.Node?
    ensures t.Node? ==> r.element == t.element && r.dim == t.dim
  {
    if t == Empty then Node(e, Empty, Empty, 0) else InsertedBelow(t, e)
  }

  /**
   * The subtree after insertNode(node, element): nothing changes at a node
   * holding the element; otherwise the element descends left when it is
   * strictly below the node on the node's axis and right otherwise, and
   * becomes a new leaf of dim node.dim + 1 at the first nullptr link.
   */
  function InsertedBelow(t: Tree, e: Vector): (r: Tree)
    requires t.Node?
    ensures r.Node? && r.element == t.element && r.dim == t.dim
  {
    if t.element == e then t
    else if Axis(e, t.dim) < Axis(t.element, t.dim) then
      if t.left == Empty then t.(left := Node(e, Empty, Empty, t.dim + 1))
      else t.(left := InsertedBelow(t.left, e))
    else
      if t.right == Empty then t.(right := Node(e, Empty, Empty, t.dim + 1))
      else t.(right := InsertedBelow(t.right, e))
  }

  /** After insertNode the stored elements are the old ones and the inserted one. */
  lemma {:induction false} InsertedBelowElements(t: Tree, e: Vector)
    requires t.Node?
    ensures Elements(InsertedBelow(t, e)) == Elements(t) + {e}
    decreases t
  {
    if t.element != e {
      if Axis(e, t.dim) < Axis(t.element, t.dim) {
        if t.left != Empty {
          InsertedBelowElements(t.left, e);
        }
      } else {
        if t.right != Empty {
          InsertedBelowElements(t.right, e);
        }
      }
    }
  }

  /** After insert the stored elements are the old ones and the inserted one. */
  lemma InsertedElements(t: Tree, e: Vector)
    ensures Elements(Inserted(t, e)) == Elements(t) + {e}
  {
    if t != Empty {
      InsertedBelowElements(t, e);
    }
  }

  /**
   * `r` is `t` with one more leaf, holding `e`: every existing node keeps its
   * element, its dim and its links but one nullptr link, which now points to
   * a childless node holding `e` whose dim is its parent's plus one (`depth`
   * where the tree itself was empty).
   */
  predicate AddsLeaf(r: Tree, t: Tree, e: Vector, depth: int) {
    match t
    case Empty => r == Node(e, Empty, Empty, depth)
    case Node(x, l, rt, d) =>
      r.Node? && r.element == x && r.dim == d &&
      ((AddsLeaf(r.left, l, e, d + 1) && r.right == rt) ||
       (r.left == l && AddsLeaf(r.right, rt, e, d + 1)))
  }

  /** Inserting an element that is not stored adds exactly one leaf and changes nothing else. */
  lemma {:induction false} InsertAbsentAddsLeaf(t: Tree, e: Vector)
    requires e !in Elements(t)
    ensures AddsLeaf(Inserted(t, e), t, e, 0)
    decreases t
  {
    if t.Node? {
      if Axis(e, t.dim) < Axis(t.element, t.dim) {
        if t.left != Empty {
          InsertAbsentAddsLeaf(t.left, e);
        }
      } else {
        if t.right != Empty {
          InsertAbsentAddsLeaf(t.right, e);
        }
      }
    }
  }

  /**
   * In an ordered tree an element equal to a stored one follows the stored
   * copy's path (at every ancestor it compares as the stored copy does), so
   * it reaches that copy and is rejected: the tree is unchanged.
   */
  lemma {:induction false} InsertPresentUnchanged(t: Tree, e: Vector)
    requires Ordered(t) && e in Elements(t)
    ensures Inserted(t, e) == t
    decreases t
  {
    if t.element != e {
      if e in Elements(t.left) {
        InsertPresentUnchanged(t.left, e);
      } else {
        InsertPresentUnchanged(t.right, e);
      }
    }
  }

  /** insert is idempotent on an ordered tree. */
  lemma InsertIdempotent(t: Tree, e: Vector)
    requires Ordered(t)
    ensures Inserted(Inserted(t, e), e) == Inserted(t, e)
  {
    InsertKeepsOrder(t, e);
    InsertedElements(t, e);
    InsertPresentUnchanged(Inserted(t, e), e);
  }

  /** Insertion keeps the ordering invariant. */
  lemma InsertKeepsOrder(t: Tree, e: Vector)
    requires Ordered(t)
    ensures Ordered(Inserted(t, e))
  {
    if t != Empty {
      InsertBelowKeepsOrder(t, e);
    }
  }

  lemma {:induction false} InsertBelowKeepsOrder(t: Tree, e: Vector)
    requires t.Node? && Ordered(t)
    ensures Ordered(InsertedBelow(t, e))
    decreases t
  {
    if t.element != e {
      if Axis(e, t.dim) < Axis(t.element, t.dim) {
        if t.left != Empty {
          InsertBelowKeepsOrder(t.left, e);
          InsertedBelowElements(t.left, e);
        }
      } else {
        if t.right != Empty {
          InsertBelowKeepsOrder(t.right, e);
          InsertedBelowElements(t.right, e);
        }
      }
    }
  }

  /** Insertion keeps every dim equal to its node's depth. */
  lemma InsertKeepsDims(t: Tree, e: Vector)
    requires DimsFrom(t, 0)
    ensures DimsFrom(Inserted(t, e), 0)
  {
    if t != Empty {
      InsertBelowKeepsDims(t, e, 0);
    }
  }

  lemma {:induction false} InsertBelowKeepsDims(t: Tree, e: Vector, depth: int)
    requires t.Node? && DimsFrom(t, depth)
    ensures DimsFrom(InsertedBelow(t, e), depth)
    decreases t
  {
    if t.element != e {
      if Axis(e, t.dim) < Axis(t.element, t.dim) {
        if t.left != Empty {
          InsertBelowKeepsDims(t.left, e, depth + 1);
        }
      } else {
        if t.right != Empty {
          InsertBelowKeepsDims(t.right, e, depth + 1);
        }
      }
    }
  }

  /** A tree built by insertions never stores an element at two nodes. */
  lemma InsertKeepsDistinct(t: Tree, e: Vector)
    requires Ordered(t) && Distinct(t)
    ensures Distinct(Inserted(t, e))
  {
    if e in Elements(t) {
      InsertPresentUnchanged(t, e);
    } else if t != Empty {
      InsertAbsentKeepsDistinct(t, e);
    }
  }

  lemma {:induction false} InsertAbsentKeepsDistinct(t: Tree, e: Vector)
    requires t.Node? && Distinct(t) && e !in Elements(t)
    ensures Distinct(InsertedBelow(t, e))
    decreases t
  {
    if Axis(e, t.dim) < Axis(t.element, t.dim) {
      if t.left != Empty {
        InsertAbsentKeepsDistinct(t.left, e);
        InsertedBelowElements(t.left, e);
      }
    } else {
      if t.right != Empty {
        InsertAbsentKeepsDistinct(t.right, e);
        InsertedBelowElements(t.right, e);
      }
    }
  }

  /** The class invariant beyond the arena's shape is kept by every insertion. */
  lemma InsertKeepsInvariants(t: Tree, e: Vector)
    requires Ordered(t) && DimsFrom(t, 0) && Distinct(t)
    ensures Ordered(Inserted(t, e)) && DimsFrom(Inserted(t, e), 0) && Distinct(Inserted(t, e))
  {
    InsertKeepsOrder(t, e);
    InsertKeepsDims(t, e);
    InsertKeepsDistinct(t, e);
  }

  // ---------------------------------------------------------------------
  // Search
  // ---------------------------------------------------------------------

  /**
   * The matches searchNode appends, in its order: those of the left subtree
   * when q - r is below the split, then those of the right subtree when
   * q + r is above it, then the node itself when its squared distance to q
   * is below r * r.
   */
  function Found(t: Tree, q: Vector, r: real): seq<Vector> {
    match t
    case Empty => []
    case Node(x, left, right, d) =>
      (if Axis(q, d) - r < Axis(x, d) then Found(left, q, r) else []) +
      (if Axis(q, d) + r > Axis(x, d) then Found(right, q, r) else []) +
      (if SqDistance(q, x) < Sq(r) then [x] else [])
  }

  /** The three parts searchNode appends at a node complete the search below it. */
  lemma FoundJoin(ids: seq<Vector>, ls: seq<Vector>, rs: seq<Vector>, me: seq<Vector>,
                  x: Vector, left: Tree, right: Tree, d: int, q: Vector, r: real)
    requires ls == if Axis(q, d) - r < Axis(x, d) then Found(left, q, r) else []
    requires rs == if Axis(q, d) + r > Axis(x, d) then Found(right, q, r) else []
    requires me == if SqDistance(q, x) < Sq(r) then [x] else []
    ensures ids + ls + rs + me == ids + Found(Node(x, left, right, d), q, r)
  {
    FoundAtNode(x, left, right, d, q, r);
    JoinAssociates(ids, ls, rs, me);
  }

  /** One level of Found, for a node given by its parts. */
  lemma FoundAtNode(x: Vector, left: Tree, right: Tree, d: int, q: Vector, r: real)
    ensures Found(Node(x, left, right, d), q, r) ==
      (if Axis(q, d) - r < Axis(x, d) then Found(left, q, r) else []) +
      (if Axis(q, d) + r > Axis(x, d) then Found(right, q, r) else []) +
      (if SqDistance(q, x) < Sq(r) then [x] else [])
  {
  }

  /** Every element search lists is stored and within distance r of q (for any r). */
  lemma {:induction false} FoundSound(t: Tree, q: Vector, r: real, e: Vector)
    requires e in Found(t, q, r)
    ensures e in Elements(t) && SqDistance(q, e) < Sq(r)
    decreases t
  {
    if t.Node? {
      var split, c := Axis(t.element, t.dim), Axis(q, t.dim);
      var ls := if c - r < split then Found(t.left, q, r) else [];
      var rs := if c + r > split then Found(t.right, q, r) else [];
      if e in ls {
        FoundSound(t.left, q, r, e);
      } else if e in rs {
        FoundSound(t.right, q, r, e);
      }
    }
  }

  /** The distance along one axis never exceeds the distance. */
  lemma AxisWithinDistance(q: Vector, e: Vector, d: int)
    ensures Sq(Axis(q, d) - Axis(e, d)) <= SqDistance(q, e)
  {
    SqNonNegative(q.x - e.x);
    SqNonNegative(q.y - e.y);
  }

  /** An element strictly farther than r along one axis is not a match. */
  lemma FarAlongAxis(q: Vector, e: Vector, d: int, r: real)
    requires 0.0 <= r && r < Axis(q, d) - Axis(e, d)
    ensures Sq(r) < SqDistance(q, e)
  {
    SqLess(r, Axis(q, d) - Axis(e, d));
    AxisWithinDistance(q, e, d);
  }

  /** An element at least r away along one axis, on the other side, is not a match. */
  lemma NotNearerAlongAxis(q: Vector, e: Vector, d: int, r: real)
    requires 0.0 <= r <= Axis(e, d) - Axis(q, d)
    ensures Sq(r) <= SqDistance(q, e)
  {
    SqMonotonic(r, Axis(e, d) - Axis(q, d));
    SqOpposite(Axis(q, d) - Axis(e, d));
    assert -(Axis(q, d) - Axis(e, d)) == Axis(e, d) - Axis(q, d);
    AxisWithinDistance(q, e, d);
  }

  /**
   * Pruning never skips a match: in an ordered tree and for r >= 0, every
   * stored element whose squared distance to q is below r * r is listed.
   */
  lemma {:induction false} FoundComplete(t: Tree, q: Vector, r: real, e: Vector)
    requires Ordered(t) && 0.0 <= r
    requires e in Elements(t) && SqDistance(q, e) < Sq(r)
    ensures e in Found(t, q, r)
    decreases t
  {
    var split, c := Axis(t.element, t.dim), Axis(q, t.dim);
    if e == t.element {
    } else if e in Elements(t.left) {
      assert Axis(e, t.dim) < split;
      if c - r >= split {
        FarAlongAxis(q, e, t.dim, r);
        assert false;
      }
      FoundComplete(t.left, q, r, e);
    } else {
      assert e in Elements(t.right);
      assert split <= Axis(e, t.dim);
      if c + r <= split {
        NotNearerAlongAxis(q, e, t.dim, r);
        assert false;
      }
      FoundComplete(t.right, q, r, e);
    }
  }

  /** For r >= 0 search lists exactly the stored elements within distance r of q. */
  lemma FoundExactly(t: Tree, q: Vector, r: real)
    requires Ordered(t) && 0.0 <= r
    ensures forall e :: e in Found(t, q, r) <==> e in Elements(t) && SqDistance(q, e) < Sq(r)
  {
    forall e
      ensures e in Found(t, q, r) <==> e in Elements(t) && SqDistance(q, e) < Sq(r)
    {
      if e in Found(t, q, r) {
        FoundSound(t, q, r, e);
      }
      if e in Elements(t) && SqDistance(q, e) < Sq(r) {
        FoundComplete(t, q, r, e);
      }
    }
  }

  // ---------------------------------------------------------------------
  // Traversals
  // ---------------------------------------------------------------------

  /** The order of traverse(): a node, then its right subtree, then its left one (LIFO stack). */
  function StackOrder(t: Tree): seq<Vector> {
    match t
    case Empty => []
    case Node(x, l, r, _) => [x] + StackOrder(r) + StackOrder(l)
  }

  /** The order of traverse(func): a node, then its left subtree, then its right one. */
  function Preorder(t: Tree): seq<Vector> {
    match t
    case Empty => []
    case Node(x, l, r, _) => [x] + Preorder(l) + Preorder(r)
  }

  /** A sequence in which no value occurs twice. */
  predicate NoRepeats<T(==)>(s: seq<T>) {
    forall i, j :: 0 <= i < j < |s| ==> s[i] != s[j]
  }

  /** Appending three pieces one by one appends their concatenation. */
  lemma JoinAssociates<T>(a: seq<T>, b: seq<T>, c: seq<T>, d: seq<T>)
    ensures a + b + c + d == a + (b + c + d)
  {
  }

  /** Joining two sequences without repeats and without common values repeats nothing. */
  lemma JoinNoRepeats<T>(a: seq<T>, b: seq<T>)
    requires NoRepeats(a) && NoRepeats(b)
    requires forall x :: x in a ==> x !in b
    ensures NoRepeats(a + b)
  {
    forall i, j | 0 <= i < j < |a + b|
      ensures (a + b)[i] != (a + b)[j]
    {
      if i < |a| <= j {
        assert (a + b)[i] == a[i] && (a + b)[j] == b[j - |a|];
        assert a[i] in a && b[j - |a|] in b;
      } else if |a| <= i {
        assert (a + b)[i] == b[i - |a|] && (a + b)[j] == b[j - |a|];
      }
    }
  }

  /** traverse() lists exactly the stored elements, and none twice when they are distinct. */
  lemma {:induction false} StackOrderElements(t: Tree)
    ensures forall x :: x in StackOrder(t) <==> x in Elements(t)
    ensures Distinct(t) ==> NoRepeats(StackOrder(t))
    decreases t
  {
    if t.Node? {
      StackOrderElements(t.left);
      StackOrderElements(t.right);
      if Distinct(t) {
        JoinNoRepeats([t.element], StackOrder(t.right));
        JoinNoRepeats([t.element] + StackOrder(t.right), StackOrder(t.left));
      }
    }
  }

  /** traverse(func) visits exactly the stored elements, and none twice when they are distinct. */
  lemma {:induction false} PreorderElements(t: Tree)
    ensures forall x :: x in Preorder(t) <==> x in Elements(t)
    ensures Distinct(t) ==> NoRepeats(Preorder(t))
    decreases t
  {
    if t.Node? {
      PreorderElements(t.left);
      PreorderElements(t.right);
      if Distinct(t) {
        JoinNoRepeats([t.element], Preorder(t.left));
        JoinNoRepeats([t.element] + Preorder(t.left), Preorder(t.right));
      }
    }
  }

  /** With distinct elements search lists every match once. */
  lemma {:induction false} FoundOnce(t: Tree, q: Vector, r: real)
    requires Distinct(t)
    ensures NoRepeats(Found(t, q, r))
    decreases t
  {
    if t.Node? {
      var split, c := Axis(t.element, t.dim), Axis(q, t.dim);
      var ls := if c - r < split then Found(t.left, q, r) else [];
      var rs := if c + r > split then Found(t.right, q, r) else [];
      var me := if SqDistance(q, t.element) < Sq(r) then [t.element] else [];
      FoundOnce(t.left, q, r);
      FoundOnce(t.right, q, r);
      forall x | x in ls
        ensures x in Elements(t.left)
      {
        FoundSound(t.left, q, r, x);
      }
      forall x | x in rs
        ensures x in Elements(t.right)
      {
        FoundSound(t.right, q, r, x);
      }
      JoinNoRepeats(ls, rs);
      JoinNoRepeats(ls + rs, me);
    }
  }

  // ---------------------------------------------------------------------
  // The arena of Node<T> records
  // ---------------------------------------------------------------------

  /** Node<T>: an element, its two child links and its dim. */
  datatype NodeRec = NodeRec(element: Vector, left: int, right: int, dim: int)

  /** nullptr. */
  const NoNode: int := -1

  /** A link: nullptr or one of the allocated nodes. */
  predicate IsRef(nodes: seq<NodeRec>, i: int) {
    i == NoNode || 0 <= i < |nodes|
  }

  /** A link of node i: nullptr or a node allocated after i. */
  predicate Later(nodes: seq<NodeRec>, i: int, c: int) {
    c == NoNode || i < c < |nodes|
  }

  /** Every link is nullptr or points to a node allocated later. */
  predicate Linked(nodes: seq<NodeRec>) {
    forall i :: 0 <= i < |nodes| ==> Later(nodes, i, nodes[i].left) && Later(nodes, i, nodes[i].right)
  }

  /** A measure that decreases from a node to its children. */
  function Rank(nodes: seq<NodeRec>, i: int): nat
    requires IsRef(nodes, i)
  {
    if i == NoNode then 0 else |nodes| - i + 1
  }

  /** The indices of the nodes reachable from link i, i included. */
  ghost function Sub(nodes: seq<NodeRec>, i: int): (s: set<int>)
    requires Linked(nodes) && IsRef(nodes, i)
    ensures forall k :: k in s ==> 0 <= i <= k < |nodes|
    ensures i != NoNode ==> i in s
    decreases Rank(nodes, i)
  {
    if i == NoNode then {} else {i} + Sub(nodes, nodes[i].left) + Sub(nodes, nodes[i].right)
  }

  /** The arena is a forest: the two subtrees below any node share no node. */
  ghost predicate Forest(nodes: seq<NodeRec>) {
    Linked(nodes) &&
    forall i :: 0 <= i < |nodes| ==> Sub(nodes, nodes[i].left) !! Sub(nodes, nodes[i].right)
  }

  /** The tree below link i. */
  ghost function TreeAt(nodes: seq<NodeRec>, i: int): Tree
    requires Linked(nodes) && IsRef(nodes, i)
    decreases Rank(nodes, i)
  {
    if i == NoNode then Empty
    else Node(nodes[i].element, TreeAt(nodes, nodes[i].left), TreeAt(nodes, nodes[i].right), nodes[i].dim)
  }

  /** Nodes that keep their records keep the trees (and node sets) below them. */
  lemma {:induction false} Unchanged(a: seq<NodeRec>, b: seq<NodeRec>, i: int)
    requires Linked(a) && Linked(b) && IsRef(a, i) && |a| <= |b|
    requires forall k :: k in Sub(a, i) ==> b[k] == a[k]
    ensures TreeAt(b, i) == TreeAt(a, i) && Sub(b, i) == Sub(a, i)
    decreases Rank(a, i)
  {
    if i != NoNode {
      Unchanged(a, b, a[i].left);
      Unchanged(a, b, a[i].right);
    }
  }

  /**
   * The arena after `*indirect = new Node(e, dim + 1)` at node p, on side
   * goLeft: one node appended, p's link on that side pointing to it, every
   * other node as it was.
   */
  predicate LinksLeaf(a: seq<NodeRec>, b: seq<NodeRec>, p: int, goLeft: bool, e: Vector)
    requires 0 <= p < |a|
  {
    |b| == |a| + 1 &&
    (forall k :: 0 <= k < |a| && k != p ==> b[k] == a[k]) &&
    b[p] == (if goLeft then a[p].(left := |a|) else a[p].(right := |a|)) &&
    b[|a|] == NodeRec(e, NoNode, NoNode, a[p].dim + 1)
  }

  /** The side of a node the descent takes, and the other one. */
  function Side(n: NodeRec, goLeft: bool): int {
    if goLeft then n.left else n.right
  }

  function OtherSide(n: NodeRec, goLeft: bool): int {
    if goLeft then n.right else n.left
  }

  /** Linking a leaf at a nullptr link keeps every link pointing forward. */
  lemma LinkedAfterLink(a: seq<NodeRec>, b: seq<NodeRec>, p: int, goLeft: bool, e: Vector)
    requires Linked(a) && 0 <= p < |a| && Side(a[p], goLeft) == NoNode
    requires LinksLeaf(a, b, p, goLeft, e)
    ensures Linked(b)
  {
    forall i | 0 <= i < |b|
      ensures Later(b, i, b[i].left) && Later(b, i, b[i].right)
    {
      if i < |a| && i != p {
        assert b[i] == a[i];
        assert Later(a, i, a[i].left) && Later(a, i, a[i].right);
      }
    }
  }

  /** Linking a leaf below p adds it to the node set of exactly the links p is reachable from. */
  lemma {:induction false} SubAfterLink(a: seq<NodeRec>, b: seq<NodeRec>, p: int, goLeft: bool, e: Vector, i: int)
    requires Linked(a) && Linked(b) && 0 <= p < |a| && IsRef(a, i)
    requires Side(a[p], goLeft) == NoNode
    requires LinksLeaf(a, b, p, goLeft, e)
    ensures Sub(b, i) == Sub(a, i) + (if p in Sub(a, i) then {|a|} else {})
    decreases Rank(a, i)
  {
    if i == p {
      SubAtParent(a, b, p, goLeft, e);
    } else if i != NoNode {
      assert b[i] == a[i];
      SubAfterLink(a, b, p, goLeft, e, a[i].left);
      SubAfterLink(a, b, p, goLeft, e, a[i].right);
    }
  }

  /** The node that received the leaf gains exactly the leaf. */
  lemma SubAtParent(a: seq<NodeRec>, b: seq<NodeRec>, p: int, goLeft: bool, e: Vector)
    requires Linked(a) && Linked(b) && 0 <= p < |a|
    requires Side(a[p], goLeft) == NoNode
    requires LinksLeaf(a, b, p, goLeft, e)
    ensures Sub(b, p) == Sub(a, p) + {|a|}
  {
    Unchanged(a, b, OtherSide(a[p], goLeft));
    assert Sub(b, |a|) == {|a|};
  }

  /** Linking a leaf keeps sibling subtrees disjoint. */
  lemma ForestAfterLink(a: seq<NodeRec>, b: seq<NodeRec>, p: int, goLeft: bool, e: Vector)
    requires Forest(a) && Linked(b) && 0 <= p < |a| && Side(a[p], goLeft) == NoNode
    requires LinksLeaf(a, b, p, goLeft, e)
    ensures Forest(b)
  {
    forall i | 0 <= i < |b|
      ensures Sub(b, b[i].left) !! Sub(b, b[i].right)
    {
      if i == p {
        ParentDisjoint(a, b, p, goLeft, e);
      } else if i < |a| {
        OtherDisjoint(a, b, p, goLeft, e, i);
      } else {
        assert b[i].left == NoNode;
      }
    }
  }

  /** At the node that received the leaf, the leaf and the other subtree share nothing. */
  lemma ParentDisjoint(a: seq<NodeRec>, b: seq<NodeRec>, p: int, goLeft: bool, e: Vector)
    requires Linked(a) && Linked(b) && 0 <= p < |a| && Side(a[p], goLeft) == NoNode
    requires LinksLeaf(a, b, p, goLeft, e)
    ensures Sub(b, b[p].left) !! Sub(b, b[p].right)
  {
    Unchanged(a, b, OtherSide(a[p], goLeft));
    assert Sub(b, |a|) == {|a|};
  }

  /** At any other node, the leaf joins at most one of the two subtrees. */
  lemma OtherDisjoint(a: seq<NodeRec>, b: seq<NodeRec>, p: int, goLeft: bool, e: Vector, i: int)
    requires Forest(a) && Linked(b) && 0 <= p < |a| && Side(a[p], goLeft) == NoNode
    requires LinksLeaf(a, b, p, goLeft, e)
    requires 0 <= i < |a| && i != p
    ensures Sub(b, b[i].left) !! Sub(b, b[i].right)
  {
    assert b[i] == a[i];
    assert Sub(a, a[i].left) !! Sub(a, a[i].right);
    SubAfterLink(a, b, p, goLeft, e, a[i].left);
    SubAfterLink(a, b, p, goLeft, e, a[i].right);
  }

  /**
   * The new-leaf case of insertNode: the arena stays a forest, no node
   * outside p's subtree changes, and the tree below p is the inserted one.
   */
  lemma LinkLeaf(a: seq<NodeRec>, b: seq<NodeRec>, p: int, goLeft: bool, e: Vector)
    requires Forest(a) && 0 <= p < |a|
    requires a[p].element != e
    requires goLeft == (Axis(e, a[p].dim) < Axis(a[p].element, a[p].dim))
    requires Side(a[p], goLeft) == NoNode
    requires LinksLeaf(a, b, p, goLeft, e)
    ensures Forest(b) && |b| == |a| + 1
    ensures forall k :: 0 <= k < |a| && k !in Sub(a, p) ==> b[k] == a[k]
    ensures TreeAt(b, p) == InsertedBelow(TreeAt(a, p), e)
  {
    LinkedAfterLink(a, b, p, goLeft, e);
    ForestAfterLink(a, b, p, goLeft, e);
    TreeAfterLink(a, b, p, goLeft, e);
  }

  /** The tree below the node that received the leaf is the inserted tree. */
  lemma TreeAfterLink(a: seq<NodeRec>, b: seq<NodeRec>, p: int, goLeft: bool, e: Vector)
    requires Linked(a) && Linked(b) && 0 <= p < |a|
    requires a[p].element != e
    requires goLeft == (Axis(e, a[p].dim) < Axis(a[p].element, a[p].dim))
    requires Side(a[p], goLeft) == NoNode
    requires LinksLeaf(a, b, p, goLeft, e)
    ensures TreeAt(b, p) == InsertedBelow(TreeAt(a, p), e)
  {
    Unchanged(a, b, OtherSide(a[p], goLeft));
    assert TreeAt(b, |a|) == Node(e, Empty, Empty, a[p].dim + 1);
  }

  /**
   * The recursive case of insertNode: when the call below child c of j kept
   * everything outside c's subtree and inserted below c, the tree below j
   * is the inserted one and nothing outside j's subtree changed.
   */
  lemma Descended(a: seq<NodeRec>, b: seq<NodeRec>, j: int, goLeft: bool, e: Vector)
    requires Forest(a) && Forest(b) && 0 <= j < |a| <= |b|
    requires a[j].element != e
    requires goLeft == (Axis(e, a[j].dim) < Axis(a[j].element, a[j].dim))
    requires Side(a[j], goLeft) != NoNode
    requires forall k :: 0 <= k < |a| && k !in Sub(a, Side(a[j], goLeft)) ==> b[k] == a[k]
    requires TreeAt(b, Side(a[j], goLeft)) == InsertedBelow(TreeAt(a, Side(a[j], goLeft)), e)
    ensures forall k :: 0 <= k < |a| && k !in Sub(a, j) ==> b[k] == a[k]
    ensures TreeAt(b, j) == InsertedBelow(TreeAt(a, j), e)
  {
    assert b[j] == a[j];
    Unchanged(a, b, OtherSide(a[j], goLeft));
  }

  // ---------------------------------------------------------------------
  // The class
  // ---------------------------------------------------------------------

  /** KDTree<T>: the root link and the nodes it owns. */
  class KDTree {
    var nodes: seq<NodeRec>
    var root: int

    /** The arena is a forest whose root is the first node allocated, or nullptr when empty. */
    ghost predicate Shaped()
      reads this
    {
      Forest(nodes) && root == (if |nodes| == 0 then NoNode else 0)
    }

    /** The tree below the root. */
    ghost function Abstract(): Tree
      reads this
      requires Shaped()
    {
      TreeAt(nodes, root)
    }

    /**
     * The class invariant: the tree is ordered, every dim is its node's
     * depth, and no element is stored twice.
     */
    ghost predicate Valid()
      reads this
    {
      Shaped() && Ordered(Abstract()) && DimsFrom(Abstract(), 0) && Distinct(Abstract())
    }

    /** KDTree(): the empty tree. */
    constructor ()
      ensures Valid() && Abstract() == Empty
    {
      nodes := [];
      root := NoNode;
    }

    /** insert(element). */
    method Insert(element: Vector)
      requires Valid()
      modifies this
      ensures Valid()
      ensures Abstract() == Inserted(old(Abstract()), element)
    {
      ghost var before := Abstract();
      if root == NoNode {
        nodes := [NodeRec(element, NoNode, NoNode, 0)];
        root := 0;
        assert Sub(nodes, 0) == {0};
        assert TreeAt(nodes, NoNode) == Empty;
        assert Abstract() == Node(element, Empty, Empty, 0);
      } else {
        InsertNode(root, element);
        assert Abstract() == InsertedBelow(before, element);
      }
      InsertKeepsInvariants(before, element);
    }

    /** insertNode(node, element), for a node that is not nullptr (insert never passes nullptr). */
    method InsertNode(node: int, element: Vector)
      requires Forest(nodes) && 0 <= node < |nodes|
      modifies this
      ensures Forest(nodes) && root == old(root) && |old(nodes)| <= |nodes|
      ensures forall k :: 0 <= k < |old(nodes)| && k !in old(Sub(nodes, node)) ==> nodes[k] == old(nodes[k])
      ensures TreeAt(nodes, node) == InsertedBelow(old(TreeAt(nodes, node)), element)
      decreases |nodes| - node
    {
      var n := nodes[node];
      if n.element == element {
        return;
      }
      var comp := if n.dim % 2 == 0 then element.x < n.element.x else element.y < n.element.y;
      var indirect := if comp then n.left else n.right;
      ghost var before := nodes;
      if indirect == NoNode {
        var leaf := NodeRec(element, NoNode, NoNode, n.dim + 1);
        nodes := nodes[node := if comp then n.(left := |nodes|) else n.(right := |nodes|)] + [leaf];
        LinkLeaf(before, nodes, node, comp, element);
        return;
      }
      InsertNode(indirect, element);
      Descended(before, nodes, node, comp, element);
    }

    /** search(element, r): the matches searchNode collects from the root. */
    method Search(q: Vector, r: real) returns (ids: seq<Vector>)
      requires Valid()
      ensures ids == Found(Abstract(), q, r)
      ensures 0.0 <= r ==> forall e :: e in ids <==> e in Elements(Abstract()) && SqDistance(q, e) < Sq(r)
      ensures NoRepeats(ids)
    {
      ids := SearchNode(root, q, r, []);
      if 0.0 <= r {
        FoundExactly(Abstract(), q, r);
      }
      FoundOnce(Abstract(), q, r);
    }

    /** searchNode(node, element, r, ids): appends the matches below node to ids. */
    method SearchNode(node: int, q: Vector, r: real, ids: seq<Vector>) returns (found: seq<Vector>)
      requires Linked(nodes) && IsRef(nodes, node)
      ensures found == ids + Found(TreeAt(nodes, node), q, r)
      decreases Rank(nodes, node)
    {
      found := ids;
      if node == NoNode {
        return;
      }
      var n := nodes[node];
      ghost var left, right := TreeAt(nodes, n.left), TreeAt(nodes, n.right);
      if if n.dim % 2 == 0 then q.x - r < n.element.x else q.y - r < n.element.y {
        found := SearchNode(n.left, q, r, found);
      }
      ghost var ls := if Axis(q, n.dim) - r < Axis(n.element, n.dim) then Found(left, q, r) else [];
      assert found == ids + ls;
      if if n.dim % 2 == 0 then q.x + r > n.element.x else q.y + r > n.element.y {
        found := SearchNode(n.right, q, r, found);
      }
      ghost var rs := if Axis(q, n.dim) + r > Axis(n.element, n.dim) then Found(right, q, r) else [];
      assert found == ids + ls + rs;
      var dist := Sq(q.x - n.element.x) + Sq(q.y - n.element.y);
      if dist < Sq(r) {
        found := found + [n.element];
      }
      ghost var me := if SqDistance(q, n.element) < Sq(r) then [n.element] else [];
      assert found == ids + ls + rs + me;
      assert TreeAt(nodes, node) == Node(n.element, left, right, n.dim);
      FoundJoin(ids, ls, rs, me, n.element, left, right, n.dim, q, r);
    }

    /** clear(): clearNode(root) returns without acting, so the tree is unchanged. */
    method Clear()
      requires Valid()
      modifies this
      ensures nodes == old(nodes) && root == old(root)
    {
      ClearNode(root);
    }

    /** clearNode(node): does nothing. */
    method ClearNode(node: int) {
    }

    /**
     * traverse(): pops a node from an explicit stack, emits its element and
     * pushes its left then its right child; the result lists every stored
     * element exactly once, in StackOrder, and is empty for an empty tree.
     */
    method Traverse() returns (points: seq<Vector>)
      requires Valid()
      ensures points == StackOrder(Abstract())
      ensures forall e :: e in points <==> e in Elements(Abstract())
      ensures NoRepeats(points)
    {
      points := [];
      StackOrderElements(Abstract());
      if root == NoNode {
        return;
      }
      var stack := [root];
      assert Pending(nodes, stack) == StackOrder(Abstract());
      while |stack| > 0
        invariant Stack(nodes, stack)
        invariant points + Pending(nodes, stack) == StackOrder(Abstract())
        decreases |Pending(nodes, stack)|
      {
        ghost var popped := stack;
        var node := stack[|stack| - 1];
        stack := stack[..|stack| - 1];
        points := points + [nodes[node].element];
        if nodes[node].left != NoNode {
          stack := stack + [nodes[node].left];
        }
        if nodes[node].right != NoNode {
          stack := stack + [nodes[node].right];
        }
        PopStep(nodes, popped, stack, points);
      }
    }

    /** traverse(func): the nodes handed to func, in the order of the calls. */
    method TraverseWith() returns (visited: seq<int>)
      requires Valid()
      ensures forall k :: 0 <= k < |visited| ==> 0 <= visited[k] < |nodes|
      ensures NoRepeats(visited)
      ensures ElementsAt(nodes, visited) == Preorder(Abstract())
    {
      visited := TraverseNode(root);
      VisitOrderOnce(nodes, root);
      VisitOrderElements(nodes, root);
    }

    /** traverseNode(node, func): func(node), then the left subtree, then the right one. */
    method TraverseNode(node: int) returns (visited: seq<int>)
      requires Linked(nodes) && IsRef(nodes, node)
      ensures visited == VisitOrder(nodes, node)
      decreases Rank(nodes, node)
    {
      if node == NoNode {
        return [];
      }
      var n := nodes[node];
      visited := [node];
      var below: seq<int> := [];
      if n.left != NoNode {
        below := TraverseNode(n.left);
      }
      visited := visited + below;
      below := [];
      if n.right != NoNode {
        below := TraverseNode(n.right);
      }
      visited := visited + below;
    }
  }

  /** A stack of links to allocated nodes. */
  predicate Stack(nodes: seq<NodeRec>, stack: seq<int>) {
    forall k :: 0 <= k < |stack| ==> 0 <= stack[k] < |nodes|
  }

  /** The elements still to be emitted for a stack of links, top of the stack first. */
  ghost function Pending(nodes: seq<NodeRec>, stack: seq<int>): seq<Vector>
    requires Linked(nodes) && Stack(nodes, stack)
  {
    if stack == [] then []
    else StackOrder(TreeAt(nodes, stack[|stack| - 1])) + Pending(nodes, stack[..|stack| - 1])
  }

  /**
   * One iteration of traverse(): popping a node and pushing its non-null
   * children moves exactly the node's element from the pending elements to
   * the emitted ones.
   */
  lemma PopStep(nodes: seq<NodeRec>, popped: seq<int>, stack: seq<int>, points: seq<Vector>)
    requires Linked(nodes) && Stack(nodes, popped) && |popped| > 0
    requires var n := nodes[popped[|popped| - 1]];
      stack == popped[..|popped| - 1] + (if n.left != NoNode then [n.left] else []) +
        (if n.right != NoNode then [n.right] else []) &&
      |points| > 0 && points[|points| - 1] == n.element
    ensures Stack(nodes, stack)
    ensures points + Pending(nodes, stack) == points[..|points| - 1] + Pending(nodes, popped)
    ensures |Pending(nodes, stack)| < |Pending(nodes, popped)|
  {
    var n := nodes[popped[|popped| - 1]];
    var rest := popped[..|popped| - 1];
    PendingChildren(nodes, rest, n.left, n.right);
    PendingTop(nodes, popped);
    Regroup(points, StackOrder(TreeAt(nodes, n.right)), StackOrder(TreeAt(nodes, n.left)), Pending(nodes, rest));
  }

  /** The emitted element moves from the front of the pending ones to the end of the emitted ones. */
  lemma Regroup<T>(points: seq<T>, a: seq<T>, b: seq<T>, rest: seq<T>)
    requires |points| > 0
    ensures points + (a + (b + rest)) == points[..|points| - 1] + ([points[|points| - 1]] + a + b + rest)
  {
    assert points == points[..|points| - 1] + [points[|points| - 1]];
  }

  /** The top of the stack contributes its element, then its right subtree, then its left one. */
  lemma PendingTop(nodes: seq<NodeRec>, popped: seq<int>)
    requires Linked(nodes) && Stack(nodes, popped) && |popped| > 0
    ensures var n := nodes[popped[|popped| - 1]];
      Pending(nodes, popped) ==
        [n.element] + StackOrder(TreeAt(nodes, n.right)) + StackOrder(TreeAt(nodes, n.left)) +
        Pending(nodes, popped[..|popped| - 1])
  {
  }

  /** Pushing a node's non-null children puts its right subtree, then its left one, in front. */
  lemma PendingChildren(nodes: seq<NodeRec>, rest: seq<int>, l: int, r: int)
    requires Linked(nodes) && Stack(nodes, rest) && IsRef(nodes, l) && IsRef(nodes, r)
    ensures var stack := rest + (if l != NoNode then [l] else []) + (if r != NoNode then [r] else []);
      Stack(nodes, stack) &&
      Pending(nodes, stack) == StackOrder(TreeAt(nodes, r)) + (StackOrder(TreeAt(nodes, l)) + Pending(nodes, rest))
  {
    var withLeft := rest + (if l != NoNode then [l] else []);
    assert Stack(nodes, withLeft) && Pending(nodes, withLeft) == StackOrder(TreeAt(nodes, l)) + Pending(nodes, rest) by {
      if l != NoNode {
        PendingPush(nodes, rest, l);
      } else {
        assert withLeft == rest;
      }
    }
    if r != NoNode {
      PendingPush(nodes, withLeft, r);
    } else {
      assert withLeft + [] == withLeft;
    }
  }

  /** Pushing a link puts the elements below it in front of the pending ones. */
  lemma PendingPush(nodes: seq<NodeRec>, stack: seq<int>, c: int)
    requires Linked(nodes) && Stack(nodes, stack) && 0 <= c < |nodes|
    ensures Stack(nodes, stack + [c])
    ensures Pending(nodes, stack + [c]) == StackOrder(TreeAt(nodes, c)) + Pending(nodes, stack)
  {
    assert (stack + [c])[..|stack|] == stack;
  }

  /** The indices are allocated nodes below link `node`. */
  ghost predicate Within(nodes: seq<NodeRec>, indices: seq<int>, node: int)
    requires Linked(nodes) && IsRef(nodes, node)
  {
    forall k :: 0 <= k < |indices| ==> 0 <= indices[k] < |nodes| && indices[k] in Sub(nodes, node)
  }

  /**
   * The links traverseNode hands to func below link i: the node, then
   * those below its left child, then those below its right child; all of
   * them are nodes of the subtree.
   */
  ghost function VisitOrder(nodes: seq<NodeRec>, i: int): (v: seq<int>)
    requires Linked(nodes) && IsRef(nodes, i)
    ensures Within(nodes, v, i)
    decreases Rank(nodes, i)
  {
    if i == NoNode then []
    else
      var lv, rv := VisitOrder(nodes, nodes[i].left), VisitOrder(nodes, nodes[i].right);
      VisitedWithin(nodes, i, lv, rv);
      [i] + lv + rv
  }

  /** In a forest every node of the subtree is visited at most once. */
  lemma {:induction false} VisitOrderOnce(nodes: seq<NodeRec>, i: int)
    requires Forest(nodes) && IsRef(nodes, i)
    ensures NoRepeats(VisitOrder(nodes, i))
    decreases Rank(nodes, i)
  {
    if i != NoNode {
      VisitOrderOnce(nodes, nodes[i].left);
      VisitOrderOnce(nodes, nodes[i].right);
      VisitedOnce(nodes, i, VisitOrder(nodes, nodes[i].left), VisitOrder(nodes, nodes[i].right));
    }
  }

  /** The visited nodes hold the subtree's elements in pre-order. */
  lemma {:induction false} VisitOrderElements(nodes: seq<NodeRec>, i: int)
    requires Linked(nodes) && IsRef(nodes, i)
    ensures ElementsAt(nodes, VisitOrder(nodes, i)) == Preorder(TreeAt(nodes, i))
    decreases Rank(nodes, i)
  {
    if i != NoNode {
      var l, r := nodes[i].left, nodes[i].right;
      VisitOrderElements(nodes, l);
      VisitOrderElements(nodes, r);
      ElementsAtJoin(nodes, i, VisitOrder(nodes, l), VisitOrder(nodes, r));
    }
  }

  /** The visits of one call stay inside the subtree. */
  lemma VisitedWithin(nodes: seq<NodeRec>, node: int, lv: seq<int>, rv: seq<int>)
    requires Linked(nodes) && 0 <= node < |nodes|
    requires Within(nodes, lv, nodes[node].left) && Within(nodes, rv, nodes[node].right)
    ensures Within(nodes, [node] + lv + rv, node)
  {
    var v := [node] + lv + rv;
    forall k | 0 <= k < |v|
      ensures 0 <= v[k] < |nodes| && v[k] in Sub(nodes, node)
    {
      if 0 < k <= |lv| {
        assert v[k] == lv[k - 1];
      } else if |lv| < k {
        assert v[k] == rv[k - 1 - |lv|];
      }
    }
  }

  /** The visits below the two children are disjoint, and neither includes the node. */
  lemma VisitedOnce(nodes: seq<NodeRec>, node: int, lv: seq<int>, rv: seq<int>)
    requires Forest(nodes) && 0 <= node < |nodes|
    requires Within(nodes, lv, nodes[node].left) && Within(nodes, rv, nodes[node].right)
    requires NoRepeats(lv) && NoRepeats(rv)
    ensures NoRepeats([node] + lv + rv)
  {
    var l, r := nodes[node].left, nodes[node].right;
    assert Sub(nodes, l) !! Sub(nodes, r);
    forall x | x in lv
      ensures x in Sub(nodes, l) && x != node
    {
      var k :| 0 <= k < |lv| && lv[k] == x;
    }
    forall x | x in rv
      ensures x in Sub(nodes, r)
    {
      var k :| 0 <= k < |rv| && rv[k] == x;
    }
    JoinNoRepeats([node], lv);
    JoinNoRepeats([node] + lv, rv);
  }

  /** The elements at a node followed by two runs of indices, in that order. */
  lemma ElementsAtJoin(nodes: seq<NodeRec>, i: int, a: seq<int>, b: seq<int>)
    requires 0 <= i < |nodes|
    requires forall k :: 0 <= k < |a| ==> 0 <= a[k] < |nodes|
    requires forall k :: 0 <= k < |b| ==> 0 <= b[k] < |nodes|
    ensures ElementsAt(nodes, [i] + a + b) == [nodes[i].element] + ElementsAt(nodes, a) + ElementsAt(nodes, b)
  {
    var v := [i] + a + b;
    forall k | 0 <= k < |v|
      ensures ElementsAt(nodes, v)[k] == ([nodes[i].element] + ElementsAt(nodes, a) + ElementsAt(nodes, b))[k]
    {
      if 0 < k <= |a| {
        assert v[k] == a[k - 1];
      } else if |a| < k {
        assert v[k] == b[k - 1 - |a|];
      }
    }
  }

  /** The elements of the nodes at the given indices. */
  function ElementsAt(nodes: seq<NodeRec>, indices: seq<int>): (s: seq<Vector>)
    requires forall k :: 0 <= k < |indices| ==> 0 <= indices[k] < |nodes|
    ensures |s| == |indices|
  {
    seq(|indices|, k requires 0 <= k < |indices| => nodes[indices[k]].element)
  }
}
