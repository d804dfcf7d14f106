/** `BinaryTree`: nodes holding a value and two possibly empty children, and
    insertion into a binary search tree that ignores values already
    present. Nodes are immutable here; `insertRec` rebuilds the nodes on the
    search path instead of assigning their child fields, which is the same
    tree once the assignments are done. The order is `Integer.compareTo`,
    the one the integer test uses. */
module BinaryTree {

  /** `Node<T>` with `null` as `Nil`. */
  datatype Tree<T> = Nil | Node(value: T, left: Tree<T>, right: Tree<T>)

  /** The `Node(value)` constructor: both children empty. */
  function Leaf<T>(v: T): Tree<T> {
    Node(v, Nil, Nil)
  }

  function Size<T>(t: Tree<T>): nat {
    match t
    case Nil => 0
    case Node(_, l, r) => Size(l) + 1 + Size(r)
  }

  function Elems(t: Tree<int>): set<int> {
    match t
    case Nil => {}
    case Node(v, l, r) => Elems(l) + {v} + Elems(r)
  }

  /** Every value in a left subtree is below its node's value and every value
      in a right subtree above it; in particular no value occurs twice. */
  predicate IsBst(t: Tree<int>) {
    match t
    case Nil => true
    case Node(v, l, r) =>
      && IsBst(l) && IsBst(r)
      && (forall x :: x in Elems(l) ==> x < v)
      && (forall x :: x in Elems(r) ==> v < x)
  }

  /** `insertRec`: an empty tree becomes a leaf; otherwise go left below the
      node's value, right above it, and stop at an equal value. */
  function Insert(t: Tree<int>, v: int): (r: Tree<int>)
    ensures Elems(r) == Elems(t) + {v}
    ensures r.Node?
  {
    match t
    case Nil => Leaf(v)
    case Node(x, l, rt) =>
      if v < x then Node(x, Insert(l, v), rt)
      else if v > x then Node(x, l, Insert(rt, v))
      else t
  }

  /** `BinaryTree.insert` applied to each value in turn, from an empty tree. */
  function InsertAll(t: Tree<int>, vs: seq<int>): (r: Tree<int>)
    ensures Elems(r) == Elems(t) + set i | 0 <= i < |vs| :: vs[i]
    decreases |vs|
  {
    if |vs| == 0 then t else InsertAll(Insert(t, vs[0]), vs[1..])
  }

  /** Insertion keeps the search-tree order. */
  lemma {:induction false} InsertKeepsBst(t: Tree<int>, v: int)
    requires IsBst(t)
    ensures IsBst(Insert(t, v))
  {
    match t
    case Nil =>
    case Node(x, l, r) =>
      if v < x {
        InsertKeepsBst(l, v);
      } else if v > x {
        InsertKeepsBst(r, v);
      }
  }

  /** In a search tree, inserting a value already present changes nothing. */
  lemma {:induction false} InsertPresent(t: Tree<int>, v: int)
    requires IsBst(t) && v in Elems(t)
    ensures Insert(t, v) == t
  {
    match t
    case Node(x, l, r) =>
      if v < x {
        InsertPresent(l, v);
      } else if v > x {
        InsertPresent(r, v);
      }
  }

  /** Inserting twice is inserting once, in any tree: the second search
      takes the same turns and ends at the node the first one left. */
  lemma {:induction false} InsertIdempotent(t: Tree<int>, v: int)
    ensures Insert(Insert(t, v), v) == Insert(t, v)
  {
    match t
    case Nil =>
    case Node(x, l, r) =>
      if v < x {
        InsertIdempotent(l, v);
      } else if v > x {
        InsertIdempotent(r, v);
      }
  }

  /** The tree grows by one node exactly when the value is new. */
  lemma {:induction false} InsertSize(t: Tree<int>, v: int)
    requires IsBst(t)
    ensures Size(Insert(t, v)) == if v in Elems(t) then Size(t) else Size(t) + 1
  {
    match t
    case Nil =>
    case Node(x, l, r) =>
      if v < x {
        InsertSize(l, v);
        assert v !in Elems(r);
      } else if v > x {
        InsertSize(r, v);
        assert v !in Elems(l);
      }
  }

  /** The subtree reached by following `p` from the root, `false` meaning
      left and `true` right; `Nil` once the path leaves the tree. */
  function Subtree<T>(t: Tree<T>, p: seq<bool>): Tree<T>
    decreases |p|
  {
    if |p| == 0 || t.Nil? then t
    else Subtree(if p[0] then t.right else t.left, p[1..])
  }

  /** The turns `insertRec` takes: down to an empty child or to a node
      holding the value. */
  function SearchPath(t: Tree<int>, v: int): (p: seq<bool>)
    ensures Subtree(t, p).Nil? || Subtree(t, p).value == v
  {
    match t
    case Nil => []
    case Node(x, l, r) =>
      if v < x then [false] + SearchPath(l, v)
      else if v > x then [true] + SearchPath(r, v)
      else []
  }

  /** Where the search for `v` ends, insertion puts a new leaf in place of
      the empty child, or leaves the node that already holds `v`. */
  lemma {:induction false} InsertAtPathEnd(t: Tree<int>, v: int)
    ensures var p := SearchPath(t, v);
      Subtree(Insert(t, v), p) == if Subtree(t, p).Nil? then Leaf(v) else Subtree(t, p)
  {
    match t
    case Nil =>
    case Node(x, l, r) =>
      var p := SearchPath(t, v);
      if v < x {
        InsertAtPathEnd(l, v);
        assert p[1..] == SearchPath(l, v);
      } else if v > x {
        InsertAtPathEnd(r, v);
        assert p[1..] == SearchPath(r, v);
      }
  }

  /** Paths that part ways at some turn. */
  predicate Diverge(p: seq<bool>, q: seq<bool>) {
    exists k :: 0 <= k < |p| && k < |q| && p[k] != q[k]
  }

  /** Every subtree off the search path is left as it was. */
  lemma {:induction false} InsertOffPath(t: Tree<int>, v: int, q: seq<bool>)
    requires Diverge(SearchPath(t, v), q)
    ensures Subtree(Insert(t, v), q) == Subtree(t, q)
  {
    var p := SearchPath(t, v);
    var k :| 0 <= k < |p| && k < |q| && p[k] != q[k];
    match t
    case Node(x, l, r) =>
      if v < x {
        assert p[1..] == SearchPath(l, v);
        if k > 0 {
          assert p[1..][k - 1] != q[1..][k - 1];
          InsertOffPath(l, v, q[1..]);
        }
      } else if v > x {
        assert p[1..] == SearchPath(r, v);
        if k > 0 {
          assert p[1..][k - 1] != q[1..][k - 1];
          InsertOffPath(r, v, q[1..]);
        }
      }
  }

  /** The integer tree built by `main`: 50, 30, 20, 40, 70, 60, 80
      inserted in turn. */
  lemma DemoTree()
    ensures InsertAll(Nil, [50, 30, 20, 40, 70, 60, 80])
         == Node(50, Node(30, Leaf(20), Leaf(40)), Node(70, Leaf(60), Leaf(80)))
  {
  }
}
