/** The breadth-first iterator of src/tree_iterator.c and src/tree_iterator_bfs.c: a queue of node pointers,
    refilled as nodes are handed out. */
module TreeIterator {
  import opened TreeShape
  import opened TreeMemory
  import opened TreeLevels
  import TreeT
  import Vqueue

  function Roots(ts: seq<Shape>): (ns: seq<Node?>)
    ensures |ns| == |ts|
    ensures forall i :: 0 <= i < |ts| ==> ns[i] == Root(ts[i])
  {
    seq(|ts|, i requires 0 <= i < |ts| => Root(ts[i]))
  }

  lemma RootsAppend(a: seq<Shape>, b: seq<Shape>)
    ensures Roots(a + b) == Roots(a) + Roots(b)
  {
  }

  lemma RootsTake(a: seq<Shape>, n: nat)
    requires n <= |a|
    ensures Roots(a[..n]) == Roots(a)[..n]
  {
  }

  lemma KidRoots(t: Shape)
    requires t.Fork?
    ensures Roots(Kids(t)) == (if t.l.Fork? then [Root(t.l)] else []) + (if t.r.Fork? then [Root(t.r)] else [])
  {
  }

  /** The queue after the one child has been offered to it and then the other. */
  lemma QueuedRoots(ts: seq<Shape>, cap: nat)
    requires ts != [] && ts[0].Fork? && |ts| <= cap
    ensures var c := Roots(ts[1..]) + if ts[0].l.Fork? then [Root(ts[0].l)] else [];
            && (|ts| - 1 + |Kids(ts[0])| <= cap <==> ts[0].r.Leaf? || |c| < cap)
            && |c| <= cap
            && Roots(Queued(ts, cap)) == c + if ts[0].r.Fork? && |c| < cap then [Root(ts[0].r)] else []
  {
    KidRoots(ts[0]);
    RootsAppend(ts[1..], Kids(ts[0]));
    RootsTake(ts[1..] + Kids(ts[0]), |Queued(ts, cap)|);
  }

  lemma RootsHead(ts: seq<Shape>, n: Node?, rest: seq<Node?>)
    requires Roots(ts) == [n] + rest
    ensures ts != [] && Root(ts[0]) == n && rest == Roots(ts[1..])
  {
    assert |ts| == 1 + |rest|;
    forall i | 0 <= i < |rest|
      ensures rest[i] == Root(ts[1..][i])
    {
      assert Roots(ts)[i + 1] == rest[i];
    }
  }

  ghost predicate AllDown(ts: seq<Shape>, h: Memory) {
    forall i :: 0 <= i < |ts| ==> Down(ts[i], h)
  }

  lemma QueuedDown(ts: seq<Shape>, cap: nat, h: Memory)
    requires ts != [] && Forest(ts) && AllDown(ts, h)
    ensures Forest(Queued(ts, cap)) && AllDown(Queued(ts, cap), h)
  {
    var all := ts[1..] + Kids(ts[0]);
    assert forall i :: 0 <= i < |ts| - 1 ==> all[i] == ts[i + 1];
    assert Down(ts[0], h);
  }

  class BfsIterator {
    const tree: TreeT.TreeTree
    const nodeQueue: Vqueue.VqueueQueue<Node?>
    // the subtrees whose roots are queued; the one empty tree when the tree had no root
    ghost var pending: seq<Shape>

    ghost predicate Valid()
      reads this, tree, tree.nodes, nodeQueue, nodeQueue.elems
    {
      && tree.Searchable()
      && nodeQueue.Valid()
      && nodeQueue.Contents() == Roots(pending)
      && (pending == [Leaf] || Forest(pending))
      && AllDown(pending, Snap(tree.nodes))
    }

    /** What comes before the next null. */
    ghost function Rest(): (ns: seq<Node>)
      requires pending == [Leaf] || Forest(pending)
      reads this, nodeQueue
    {
      if pending == [Leaf] then [] else Yield(pending, nodeQueue.cap)
    }

    /** tree_iterator_init for TREE_ITERATOR_BFS: the whole tree is to come, in level order, if and only if the queue
        is large enough for it. */
    constructor (tree: TreeT.TreeTree, maxNodes: nat)
      requires tree.Searchable() && 0 < maxNodes
      ensures Valid() && this.tree == tree && nodeQueue.cap == maxNodes && fresh(nodeQueue) && fresh(nodeQueue.elems)
      ensures Rest() == LevelOrder(tree.shape) <==> tree.shape.Leaf? || Peak([tree.shape]) <= maxNodes
      ensures Size(tree.shape) <= maxNodes ==> Rest() == LevelOrder(tree.shape)
    {
      this.tree := tree;
      nodeQueue := new Vqueue.VqueueQueue<Node?>(maxNodes);
      pending := [tree.shape];
      new;
      var code := nodeQueue.Enqueue(tree.root, false);
      assert nodeQueue.Contents() == Roots(pending);
      if tree.shape.Fork? {
        YieldsLevelOrderIff(tree.shape, maxNodes);
      }
    }

    /** tree_iterator_bfs_next: the next node in level order; null when none is left or a child does not fit. */
    method Next() returns (node: Node?)
      requires Valid()
      modifies this, nodeQueue, nodeQueue.elems
      ensures Valid() && nodeQueue.elems == old(nodeQueue.elems)
      ensures old(Rest()) == [] ==> node == null
      ensures old(Rest()) != [] ==> node == old(Rest())[0] && Rest() == old(Rest())[1..]
      ensures pending == if old(pending) == [] || old(pending) == [Leaf] then []
                         else Queued(old(pending), nodeQueue.cap)
    {
      var code;
      code, node := nodeQueue.Dequeue();
      if code == Vqueue.NoData {
        return null;
      }
      ghost var ts := pending;
      RootsHead(ts, node, nodeQueue.Contents());
      if node == null {
        pending := [];
        return;
      }
      assert Forest(ts);
      YieldStep(ts, nodeQueue.cap);
      var fit := Advance(node, ts);
      if !fit {
        return null;
      }
    }

    /** The rest of tree_iterator_bfs_next, with a node in hand. */
    method Advance(node: Node, ghost ts: seq<Shape>) returns (fit: bool)
      requires ts != [] && tree.Searchable() && nodeQueue.Valid() && nodeQueue.Contents() == Roots(ts[1..])
      requires Forest(ts) && Root(ts[0]) == node && |ts| <= nodeQueue.cap && AllDown(ts, Snap(tree.nodes))
      modifies `pending, nodeQueue, nodeQueue.elems
      ensures Valid() && nodeQueue.elems == old(nodeQueue.elems) && pending == Queued(ts, nodeQueue.cap)
      ensures fit <==> |ts| - 1 + |Kids(ts[0])| <= nodeQueue.cap
    {
      assert Down(ts[0], Snap(tree.nodes));
      fit := QueueChildren(node, ts);
      QueuedDown(ts, nodeQueue.cap, Snap(tree.nodes));
      pending := Queued(ts, nodeQueue.cap);
    }

    /** The two enqueues of tree_iterator_bfs_next. The first finds the slot that the node itself has left. */
    method QueueChildren(node: Node, ghost ts: seq<Shape>) returns (fit: bool)
      requires nodeQueue.Valid() && ts != [] && ts[0].Fork? && Root(ts[0]) == node && node in tree.nodes
      requires Down(ts[0], Snap(tree.nodes))
      requires nodeQueue.Contents() == Roots(ts[1..]) && |ts| <= nodeQueue.cap
      modifies nodeQueue, nodeQueue.elems
      ensures nodeQueue.Valid() && nodeQueue.elems == old(nodeQueue.elems)
      ensures fit <==> |ts| - 1 + |Kids(ts[0])| <= nodeQueue.cap
      ensures nodeQueue.Contents() == Roots(Queued(ts, nodeQueue.cap))
    {
      QueuedRoots(ts, nodeQueue.cap);
      if node.lchild != null {
        var code := nodeQueue.Enqueue(node.lchild, false);
        assert code == Vqueue.Ok;
      }
      if node.rchild != null {
        var code := nodeQueue.Enqueue(node.rchild, false);
        if code != Vqueue.Ok {
          return false;
        }
      }
      return true;
    }
  }
}
