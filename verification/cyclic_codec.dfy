/** `CyclicTreeSerializer`: the same pre-order writer run over a graph of
    node objects, refusing to enter a node it has entered before. Node
    identity is Java reference identity (`Node` has no `equals`), so nodes
    are named by ids in a heap map, and the `HashSet` of visited nodes is a
    set of ids that is threaded through the walk and never cleared. */
module CyclicCodec {
  import opened Wrappers
  import opened BinaryTree
  import opened TreeCodec

  type Id = nat

  /** A node object: its value's text and its two child references. */
  datatype Cell = Cell(value: string, left: Option<Id>, right: Option<Id>)

  type Heap = map<Id, Cell>

  /** A reference is `null` or names a node of the heap. */
  predicate Points(h: Heap, o: Option<Id>) {
    o.None? || o.value in h
  }

  /** Every child reference of every node names a node: Java references do
      not dangle. */
  predicate Closed(h: Heap) {
    forall id {:trigger h[id]} :: id in h ==> Points(h, h[id].left) && Points(h, h[id].right)
  }

  /** The `RuntimeException` thrown on meeting a visited node again. */
  datatype WalkError = CyclicConnection

  /** `serializeHelper`: `null,` for a null reference; a node already in
      `visited` aborts the walk; otherwise the node joins `visited`, and its
      value, a comma and both subtrees' texts follow. Returns the text and
      the visited set as the walk leaves it. */
  function Walk(h: Heap, root: Option<Id>, visited: set<Id>): (r: Result<(string, set<Id>), WalkError>)
    requires Closed(h) && Points(h, root)
    ensures r.Success? ==> visited <= r.value.1 && r.value.1 - visited <= h.Keys
    ensures r.Success? && root.Some? ==> root.value in r.value.1 - visited
    decreases h.Keys - visited
  {
    match root
    case None => Success(("null,", visited))
    case Some(id) =>
      if id in visited then Failure(CyclicConnection)
      else
        var seen := visited + {id};
        match Walk(h, h[id].left, seen)
        case Failure(e) => Failure(e)
        case Success((ls, v1)) =>
          match Walk(h, h[id].right, v1)
          case Failure(e) => Failure(e)
          case Success((rs, v2)) => Success((h[id].value + "," + ls + rs, v2))
  }

  /** `t` is the finite unfolding of the graph from `root`: a tree of node
      ids that follows the child references down to every `null`. A cycle
      has no finite unfolding; a shared node occurs in it more than once. */
  predicate Unfolds(h: Heap, root: Option<Id>, t: Tree<Id>)
    decreases t
  {
    match t
    case Nil => root.None?
    case Node(id, l, r) =>
      root == Some(id) && id in h && Unfolds(h, h[id].left, l) && Unfolds(h, h[id].right, r)
  }

  function Ids(t: Tree<Id>): set<Id> {
    match t
    case Nil => {}
    case Node(id, l, r) => Ids(l) + {id} + Ids(r)
  }

  /** No id occurs twice in the unfolding: each node is reached by one path
      only. */
  predicate NoRepeat(t: Tree<Id>) {
    match t
    case Nil => true
    case Node(id, l, r) =>
      && NoRepeat(l) && NoRepeat(r)
      && id !in Ids(l) && id !in Ids(r)
      && Ids(l) !! Ids(r)
  }

  /** The value tree the unfolding stands for. */
  function Values(h: Heap, t: Tree<Id>): Tree<string>
    requires Ids(t) <= h.Keys
  {
    match t
    case Nil => Nil
    case Node(id, l, r) => Node(h[id].value, Values(h, l), Values(h, r))
  }

  lemma {:induction false} UnfoldsInHeap(h: Heap, root: Option<Id>, t: Tree<Id>)
    requires Unfolds(h, root, t)
    ensures Ids(t) <= h.Keys
    decreases t
  {
    match t
    case Nil =>
    case Node(id, l, r) =>
      UnfoldsInHeap(h, h[id].left, l);
      UnfoldsInHeap(h, h[id].right, r);
  }

  /** On a structure where every node is reached by exactly one path and no
      node has been visited yet, the walk succeeds, writes the plain
      pre-order serialization, and visits exactly the unfolding's nodes. */
  lemma {:induction false} WalkTree(h: Heap, root: Option<Id>, t: Tree<Id>, visited: set<Id>)
    requires Closed(h) && Points(h, root)
    requires Unfolds(h, root, t) && NoRepeat(t) && Ids(t) !! visited
    ensures Ids(t) <= h.Keys
    ensures Walk(h, root, visited) == Success((TreeCodec.Serialize(Values(h, t)), visited + Ids(t)))
    decreases t
  {
    UnfoldsInHeap(h, root, t);
    match t
    case Nil =>
      assert visited + Ids(t) == visited;
    case Node(id, l, r) =>
      var seen := visited + {id};
      SplitVisited(t, visited);
      WalkTree(h, h[id].left, l, seen);
      WalkTree(h, h[id].right, r, seen + Ids(l));
      var ls, rs := TreeCodec.Serialize(Values(h, l)), TreeCodec.Serialize(Values(h, r));
      WalkNode(h, id, visited, ls, seen + Ids(l), rs, visited + Ids(t));
      SerializeValues(h, t);
  }

  /** How the visited set grows across a node of a repetition-free
      unfolding. */
  lemma SplitVisited(t: Tree<Id>, visited: set<Id>)
    requires t.Node? && NoRepeat(t) && Ids(t) !! visited
    ensures var seen := visited + {t.value};
      && Ids(t.left) !! seen && Ids(t.right) !! seen + Ids(t.left)
      && seen + Ids(t.left) + Ids(t.right) == visited + Ids(t)
  {
  }

  /** The plain serialization of a node's value tree. */
  lemma SerializeValues(h: Heap, t: Tree<Id>)
    requires t.Node? && Ids(t) <= h.Keys
    ensures TreeCodec.Serialize(Values(h, t))
         == h[t.value].value + "," + TreeCodec.Serialize(Values(h, t.left)) + TreeCodec.Serialize(Values(h, t.right))
  {
  }

  /** One step of the walk: a node not visited before, whose subtrees' walks
      succeed in turn. */
  lemma WalkNode(h: Heap, id: Id, visited: set<Id>, ls: string, v1: set<Id>, rs: string, v2: set<Id>)
    requires Closed(h) && id in h && id !in visited
    requires Walk(h, h[id].left, visited + {id}) == Success((ls, v1))
    requires Walk(h, h[id].right, v1) == Success((rs, v2))
    ensures Walk(h, Some(id), visited) == Success((h[id].value + "," + ls + rs, v2))
  {
  }

  /** When the unfolding repeats a node, or reaches a node visited before,
      the walk fails. */
  lemma {:induction false} WalkRepeat(h: Heap, root: Option<Id>, t: Tree<Id>, visited: set<Id>)
    requires Closed(h) && Points(h, root)
    requires Unfolds(h, root, t) && !(NoRepeat(t) && Ids(t) !! visited)
    ensures Walk(h, root, visited) == Failure(CyclicConnection)
    decreases t
  {
    match t
    case Node(id, l, r) =>
      if id !in visited {
        var seen := visited + {id};
        if !(NoRepeat(l) && Ids(l) !! seen) {
          WalkRepeat(h, h[id].left, l, seen);
        } else {
          WalkTree(h, h[id].left, l, seen);
          assert !(NoRepeat(r) && Ids(r) !! seen + Ids(l));
          WalkRepeat(h, h[id].right, r, seen + Ids(l));
        }
      }
  }

  /** The unfolding a successful walk followed. */
  ghost function WalkShape(h: Heap, root: Option<Id>, visited: set<Id>): (t: Tree<Id>)
    requires Closed(h) && Points(h, root) && Walk(h, root, visited).Success?
    ensures Unfolds(h, root, t) && NoRepeat(t) && Ids(t) !! visited
    ensures Walk(h, root, visited).value.1 == visited + Ids(t)
    decreases h.Keys - visited
  {
    match root
    case None => Nil
    case Some(id) =>
      var seen := visited + {id};
      var l := WalkShape(h, h[id].left, seen);
      var v1 := Walk(h, h[id].left, seen).value.1;
      var r := WalkShape(h, h[id].right, v1);
      Node(id, l, r)
  }

  /** The walk from an empty visited set fails exactly when it would reach
      some node twice: it succeeds if and only if the graph has a finite
      unfolding from the root in which no node repeats. A cycle has no
      finite unfolding, and a node shared by two parents repeats in it. */
  lemma WalkSucceeds(h: Heap, root: Option<Id>)
    requires Closed(h) && Points(h, root)
    ensures Walk(h, root, {}).Success? <==> exists t :: Unfolds(h, root, t) && NoRepeat(t)
  {
    if Walk(h, root, {}).Success? {
      var t := WalkShape(h, root, {});
      assert Unfolds(h, root, t) && NoRepeat(t);
      assert exists u :: Unfolds(h, root, u) && NoRepeat(u);
    } else if t :| Unfolds(h, root, t) && NoRepeat(t) {
      WalkTree(h, root, t, {});
      assert false;
    }
  }

  /** From an empty visited set, the walk along any repetition-free
      unfolding writes that unfolding's plain serialization. */
  lemma WalkPlain(h: Heap, root: Option<Id>)
    requires Closed(h) && Points(h, root)
    ensures forall t :: Unfolds(h, root, t) && NoRepeat(t) ==>
      Ids(t) <= h.Keys && Walk(h, root, {}) == Success((TreeCodec.Serialize(Values(h, t)), Ids(t)))
  {
    forall t | Unfolds(h, root, t) && NoRepeat(t)
      ensures Ids(t) <= h.Keys && Walk(h, root, {}) == Success((TreeCodec.Serialize(Values(h, t)), Ids(t)))
    {
      WalkTree(h, root, t, {});
      assert {} + Ids(t) == Ids(t);
    }
  }

  /** `serialize`: the walk from the root with an empty visited set. It
      fails exactly when the walk would reach some node twice, that is when
      the graph has no finite unfolding from the root in which no node
      repeats; otherwise it writes the plain serializer's text for the
      unfolding's tree of values. */
  function Serialize(h: Heap, root: Option<Id>): (r: Result<string, WalkError>)
    requires Closed(h) && Points(h, root)
    ensures r.Success? <==> exists t :: Unfolds(h, root, t) && NoRepeat(t)
    ensures forall t :: Unfolds(h, root, t) && NoRepeat(t) ==>
      Ids(t) <= h.Keys && r == Success(TreeCodec.Serialize(Values(h, t)))
  {
    WalkSucceeds(h, root);
    WalkPlain(h, root);
    match Walk(h, root, {})
    case Success((s, _)) => Success(s)
    case Failure(e) => Failure(e)
  }

  /** On success the output is the plain serializer's output for the tree of
      values, and the visited set holds exactly the nodes the walk reached. */
  lemma SerializeIsPlain(h: Heap, root: Option<Id>)
    requires Closed(h) && Points(h, root) && Walk(h, root, {}).Success?
    ensures var t := WalkShape(h, root, {});
      && Ids(t) <= h.Keys
      && Serialize(h, root) == Success(TreeCodec.Serialize(Values(h, t)))
      && Walk(h, root, {}).value.1 == Ids(t)
  {
    var t := WalkShape(h, root, {});
    WalkTree(h, root, t, {});
    assert {} + Ids(t) == Ids(t);
  }

  /** A repetition-free tree of ids has as many distinct ids as nodes. */
  lemma {:induction false} NoRepeatCount(t: Tree<Id>)
    requires NoRepeat(t)
    ensures |Ids(t)| == Size(t)
  {
    match t
    case Nil =>
    case Node(id, l, r) =>
      NoRepeatCount(l);
      NoRepeatCount(r);
      assert Ids(t) == (Ids(l) + Ids(r)) + {id};
  }

  /** Each successful non-null step enters a node not entered before, so a
      walk that succeeds takes at most as many such steps as the heap has
      nodes. */
  lemma WalkBounded(h: Heap, root: Option<Id>)
    requires Closed(h) && Points(h, root) && Walk(h, root, {}).Success?
    ensures Size(WalkShape(h, root, {})) <= |h.Keys|
  {
    var t := WalkShape(h, root, {});
    UnfoldsInHeap(h, root, t);
    NoRepeatCount(t);
    SubsetCard(Ids(t), h.Keys);
  }

  lemma SubsetCard<T>(a: set<T>, b: set<T>)
    requires a <= b
    ensures |a| <= |b|
  {
    assert b == a + (b - a);
  }

  /** Following turns from the root along child references; `None` once a
      `null` is met. */
  function Follow(h: Heap, root: Option<Id>, p: seq<bool>): Option<Id>
    requires Closed(h) && Points(h, root)
    decreases |p|
  {
    if |p| == 0 || root.None? then root
    else Follow(h, if p[0] then h[root.value].right else h[root.value].left, p[1..])
  }

  /** Following a path in the graph is taking the same path in the
      unfolding. */
  lemma {:induction false} FollowUnfolds(h: Heap, root: Option<Id>, t: Tree<Id>, p: seq<bool>)
    requires Closed(h) && Points(h, root) && Unfolds(h, root, t)
    ensures Follow(h, root, p) == if Subtree(t, p).Nil? then None else Some(Subtree(t, p).value)
    decreases |p|
  {
    if |p| > 0 && t.Node? {
      FollowUnfolds(h, if p[0] then h[root.value].right else h[root.value].left,
        if p[0] then t.right else t.left, p[1..]);
    }
  }

  /** A path to each id of a tree. */
  lemma {:induction false} PathTo(t: Tree<Id>, id: Id) returns (p: seq<bool>)
    requires id in Ids(t)
    ensures Subtree(t, p).Node? && Subtree(t, p).value == id
  {
    match t
    case Node(x, l, r) =>
      if id == x {
        p := [];
      } else if id in Ids(l) {
        var q := PathTo(l, id);
        p := [false] + q;
        assert p[1..] == q;
      } else {
        var q := PathTo(r, id);
        p := [true] + q;
        assert p[1..] == q;
      }
  }

  /** Every subtree at a path lies inside the tree. */
  lemma {:induction false} SubtreeIds(t: Tree<Id>, p: seq<bool>)
    ensures Ids(Subtree(t, p)) <= Ids(t)
    decreases |p|
  {
    if |p| > 0 && t.Node? {
      SubtreeIds(if p[0] then t.right else t.left, p[1..]);
    }
  }

  ghost predicate Reachable(h: Heap, root: Option<Id>, id: Id)
    requires Closed(h) && Points(h, root)
  {
    exists p :: Follow(h, root, p) == Some(id)
  }

  /** After a successful walk the visited set is exactly the set of nodes
      reachable from the root. */
  lemma VisitedIsReachable(h: Heap, root: Option<Id>)
    requires Closed(h) && Points(h, root) && Walk(h, root, {}).Success?
    ensures forall id :: id in Walk(h, root, {}).value.1 <==> Reachable(h, root, id)
  {
    var t := WalkShape(h, root, {});
    assert Walk(h, root, {}).value.1 == Ids(t);
    forall id
      ensures id in Ids(t) <==> Reachable(h, root, id)
    {
      if id in Ids(t) {
        var p := PathTo(t, id);
        FollowUnfolds(h, root, t, p);
      }
      if Reachable(h, root, id) {
        var p :| Follow(h, root, p) == Some(id);
        FollowUnfolds(h, root, t, p);
        SubtreeIds(t, p);
      }
    }
  }

  /** `deserialize` of the cyclic serializer is the plain reader: what a
      successful walk writes reads back as the tree of values it walked. */
  lemma WalkReadsBack(h: Heap, root: Option<Id>)
    requires Closed(h) && Points(h, root) && Walk(h, root, {}).Success?
    requires var t := WalkShape(h, root, {}); Ids(t) <= h.Keys && Clean(Values(h, t))
    ensures Serialize(h, root).Success?
    ensures TreeCodec.Deserialize(Serialize(h, root).value) == Success(Values(h, WalkShape(h, root, {})))
  {
    SerializeIsPlain(h, root);
    TreeCodec.RoundTrip(Values(h, WalkShape(h, root, {})));
  }

  /** A repetition-free tree holds different ids at different positions. */
  lemma {:induction false} PositionsDistinct(t: Tree<Id>, p: seq<bool>, q: seq<bool>)
    requires NoRepeat(t) && p != q
    requires Subtree(t, p).Node? && Subtree(t, q).Node?
    ensures Subtree(t, p).value != Subtree(t, q).value
    decreases |p| + |q|
  {
    if |p| == 0 {
      DescendantDiffers(t, q);
    } else if |q| == 0 {
      DescendantDiffers(t, p);
    } else {
      var cp := if p[0] then t.right else t.left;
      var cq := if q[0] then t.right else t.left;
      if p[0] == q[0] {
        assert p == [p[0]] + p[1..] && q == [q[0]] + q[1..];
        PositionsDistinct(cp, p[1..], q[1..]);
      } else {
        SubtreeIds(cp, p[1..]);
        SubtreeIds(cq, q[1..]);
      }
    }
  }

  /** In a repetition-free tree no proper descendant repeats the root's id. */
  lemma DescendantDiffers(t: Tree<Id>, q: seq<bool>)
    requires NoRepeat(t) && |q| > 0 && Subtree(t, q).Node?
    ensures Subtree(t, q).value != t.value
  {
    SubtreeIds(if q[0] then t.right else t.left, q[1..]);
  }

  /** Two different paths from the root that end at the same node — a back
      edge to an ancestor or a node shared by two parents — make the walk
      fail: the visited set is never cleared, so the second arrival meets a
      visited node. */
  lemma ReachedTwiceFails(h: Heap, root: Option<Id>, p: seq<bool>, q: seq<bool>)
    requires Closed(h) && Points(h, root)
    requires p != q && Follow(h, root, p).Some? && Follow(h, root, p) == Follow(h, root, q)
    ensures Walk(h, root, {}) == Failure(CyclicConnection)
  {
    if Walk(h, root, {}).Success? {
      var t := WalkShape(h, root, {});
      FollowUnfolds(h, root, t, p);
      FollowUnfolds(h, root, t, q);
      PositionsDistinct(t, p, q);
      assert false;
    }
    assert Walk(h, root, {}).Failure?;
    assert Walk(h, root, {}).error == CyclicConnection;
  }

  /** The integer tree of `main` as node objects 0 to 6 holding 50, 30,
      20, 40, 70, 60 and 80. */
  function IntHeap(): (h: Heap)
    ensures Closed(h)
  {
    map[0 := Cell("50", Some(1), Some(4)), 1 := Cell("30", Some(2), Some(3)),
        2 := Cell("20", None, None), 3 := Cell("40", None, None),
        4 := Cell("70", Some(5), Some(6)), 5 := Cell("60", None, None),
        6 := Cell("80", None, None)]
  }

  /** The demo tree's node ids, as the heap links them. */
  function IntIds(): Tree<Id> {
    Node(0, Node(1, Leaf(2), Leaf(3)), Node(4, Leaf(5), Leaf(6)))
  }

  lemma IntHeapUnfolds()
    ensures Unfolds(IntHeap(), Some(0), IntIds()) && NoRepeat(IntIds())
    ensures Ids(IntIds()) <= IntHeap().Keys
    ensures Values(IntHeap(), IntIds()) == IntValues()
  {
    var h := IntHeap();
    ThreeNodes(h, 1, 2, 3);
    ThreeNodes(h, 4, 5, 6);
    assert h[0] == Cell("50", Some(1), Some(4));
  }

  /** A node with two childless children unfolds to a tree of three ids. */
  lemma ThreeNodes(h: Heap, x: Id, y: Id, z: Id)
    requires x in h && y in h && z in h && x != y && y != z && x != z
    requires h[x].left == Some(y) && h[x].right == Some(z)
    requires h[y].left.None? && h[y].right.None? && h[z].left.None? && h[z].right.None?
    ensures var t := Node(x, Leaf(y), Leaf(z));
      && Unfolds(h, Some(x), t) && NoRepeat(t) && Ids(t) == {x, y, z}
      && Values(h, t) == Node(h[x].value, Leaf(h[y].value), Leaf(h[z].value))
  {
    assert Ids(Leaf(y)) == {y} && Ids(Leaf(z)) == {z};
    assert Values(h, Leaf(y)) == Leaf(h[y].value);
    assert Values(h, Leaf(z)) == Leaf(h[z].value);
  }

  /** The values of the demo tree's nodes, in the shape the inserts
      built. */
  function IntValues(): Tree<string> {
    Node("50", Node("30", Leaf("20"), Leaf("40")), Node("70", Leaf("60"), Leaf("80")))
  }

  /** Before the back edge is added the cyclic serializer writes what the
      plain one writes for the demo tree. */
  lemma IntHeapPlain()
    ensures Serialize(IntHeap(), Some(0)) == Success(TreeCodec.Serialize(IntValues()))
  {
    IntHeapUnfolds();
    WalkTree(IntHeap(), Some(0), IntIds(), {});
  }

  /** That text reads back as the demo tree. */
  lemma IntHeapReadsBack()
    ensures TreeCodec.Deserialize(TreeCodec.Serialize(IntValues())) == Success(IntValues())
  {
    assert Clean(Node("30", Leaf("20"), Leaf("40")));
    assert Clean(Node("70", Leaf("60"), Leaf("80")));
    TreeCodec.RoundTrip(IntValues());
  }

  /** `root.left.right.right = root.left`: the node holding 40 points back
      at the node holding 30, and serializing fails. */
  lemma IntHeapCycle()
    ensures var h := IntHeap()[3 := Cell("40", None, Some(1))];
      Closed(h) && Serialize(h, Some(0)) == Failure(CyclicConnection)
  {
    var h := IntHeap()[3 := Cell("40", None, Some(1))];
    assert Follow(h, Some(0), [false]) == Some(1);
    assert Follow(h, Some(0), [false, true, true]) == Some(1);
    ReachedTwiceFails(h, Some(0), [false], [false, true, true]);
  }

  /** The string tree of `main`: dog, cat, apple, elephant, zebra and
      mongoose inserted in turn, as node objects 0 to 5. */
  function StringHeap(): (h: Heap)
    ensures Closed(h)
  {
    map[0 := Cell("dog", Some(1), Some(3)), 1 := Cell("cat", Some(2), None),
        2 := Cell("apple", None, None), 3 := Cell("elephant", None, Some(4)),
        4 := Cell("zebra", Some(5), None), 5 := Cell("mongoose", None, None)]
  }

  /** `root.left.right = root.left`: the node holding cat becomes its own
      right child, and serializing fails. */
  lemma StringHeapCycle()
    ensures var h := StringHeap()[1 := Cell("cat", Some(2), Some(1))];
      Closed(h) && Serialize(h, Some(0)) == Failure(CyclicConnection)
  {
    var h := StringHeap()[1 := Cell("cat", Some(2), Some(1))];
    assert Follow(h, Some(0), [false]) == Some(1);
    assert Follow(h, Some(0), [false, true]) == Some(1);
    ReachedTwiceFails(h, Some(0), [false], [false, true]);
  }

  /** A node shared by two parents is not a cycle, yet the walk rejects it
      all the same. */
  lemma SharedNodeRejected()
    ensures var h := map[0 := Cell("a", Some(1), Some(1)), 1 := Cell("b", None, None)];
      Closed(h) && Serialize(h, Some(0)) == Failure(CyclicConnection)
  {
    var h := map[0 := Cell("a", Some(1), Some(1)), 1 := Cell("b", None, None)];
    assert Follow(h, Some(0), [false]) == Some(1);
    assert Follow(h, Some(0), [true]) == Some(1);
    ReachedTwiceFails(h, Some(0), [false], [true]);
  }
}
