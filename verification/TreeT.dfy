/** The tree of src/tree_T.c, changed in place. A ghost shape records which tree the pointers spell out;
    every operation is proved to change it as the functions of TreeShape say. */
module TreeT {
  import opened TreeShape
  import opened TreeMemory

  class TreeTree {
    var root: Node?
    var numNodes: nat
    var maxNodes: nat
    // every node ever handed out, whether in the tree or deleted
    ghost var nodes: set<Node>
    ghost var shape: Shape
    // which nodes of the tree are their own parents
    ghost var tangled: set<Node>

    /** Child links, values and order. */
    ghost predicate Searchable()
      reads this, nodes
    {
      && root == Root(shape)
      && NodeSet(shape) <= nodes && |nodes| == numNodes <= maxNodes
      && Distinct(shape) && Bst(shape)
      && Down(shape, Snap(nodes))
    }

    /** Every parent link is right as well, or leads to the node itself. */
    ghost predicate Valid()
      reads this, nodes
    {
      Searchable() && IsTree(shape, tangled, Snap(nodes))
    }

    /** tree_init */
    constructor (maxNodes: nat)
      requires maxNodes > 0
      ensures Valid() && shape == Leaf && tangled == {} && numNodes == 0 && this.maxNodes == maxNodes && fresh(nodes)
    {
      root, numNodes, shape, nodes, tangled := null, 0, Leaf, {}, {};
      this.maxNodes := maxNodes;
    }

    /** tree_exists */
    method Exists(val: int) returns (there: bool)
      requires Searchable()
      ensures there <==> val in InOrder(shape)
    {
      var node := LookupNode(val);
      return node != null;
    }

    /** tree_lookup_range */
    method LookupRange(minimum: int, maximum: int, strategy: Strategy) returns (target: Node?)
      requires Searchable()
      ensures target == FoundNode(Range(shape, minimum, maximum, strategy, Miss))
      ensures target == null ==> forall v :: !InRange(InOrder(shape), minimum, maximum, v)
      ensures target != null ==>
                && target in NodeSet(shape)
                && Best(InOrder(shape), minimum, maximum, strategy, HitOf(target, target.val))
    {
      RangeBelow(shape, minimum, maximum, strategy, Miss);
      var current := root;
      target := null;
      var best := false;
      ghost var rest := shape;
      ghost var answer := Range(shape, minimum, maximum, strategy, Miss);
      ghost var found := Miss;
      while current != null && (target == null || !best)
        invariant found == (if target == null then Miss else HitOf(target, target.val))
        invariant best ==> target != null && answer == found
        invariant !best ==> current == Root(rest) && Down(rest, Snap(nodes))
                            && answer == Range(rest, minimum, maximum, strategy, found)
        decreases if best then 0 else 1, rest
      {
        if minimum > current.val {
          current := current.rchild;
          rest := rest.r;
        } else if maximum < current.val {
          current := current.lchild;
          rest := rest.l;
        } else {
          target := current;
          found := HitOf(target, target.val);
          match strategy {
            case First => best := true;
            case Smallest =>
              current := current.lchild;
              rest := rest.l;
            case Largest =>
              current := current.rchild;
              rest := rest.r;
          }
        }
      }
    }

    /** tree_ordered: both recursive checks find no fault. */
    method Ordered() returns (ordered: bool)
      requires root == Root(shape) && NodeSet(shape) <= nodes && Down(shape, Snap(nodes))
      ensures ordered <==> root != null && Bst(shape)
    {
      OrderedIffBst(shape);
      var min := NodeMin(root, shape);
      var max := NodeMax(root, shape);
      return min != null && max != null;
    }

    /** tree_node_min */
    method NodeMin(node: Node?, ghost t: Shape) returns (min: Node?)
      requires node == Root(t) && NodeSet(t) <= nodes && Down(t, Snap(nodes))
      ensures min == FoundNode(MinOf(t)) && (min != null ==> min in nodes && min.val == MinOf(t).val)
      decreases t
    {
      if node == null {
        return null;
      }
      var minLchild := NodeMin(node.lchild, t.l);
      var minRchild := NodeMin(node.rchild, t.r);
      min := node;
      if minLchild != null {
        if minLchild.val >= node.val {
          return null;
        }
        min := minLchild;
      } else if node.lchild != null {
        return null;
      }
      if minRchild != null {
        if node.val > minRchild.val {
          return null;
        }
      } else if node.rchild != null {
        return null;
      }
    }

    /** tree_node_max */
    method NodeMax(node: Node?, ghost t: Shape) returns (max: Node?)
      requires node == Root(t) && NodeSet(t) <= nodes && Down(t, Snap(nodes))
      ensures max == FoundNode(MaxOf(t)) && (max != null ==> max in nodes && max.val == MaxOf(t).val)
      decreases t
    {
      if node == null {
        return null;
      }
      max := node;
      var maxLchild := NodeMax(node.lchild, t.l);
      var maxRchild := NodeMax(node.rchild, t.r);
      if maxLchild != null {
        if maxLchild.val >= node.val {
          return null;
        }
      } else if node.lchild != null {
        return null;
      }
      if maxRchild != null {
        if node.val > maxRchild.val {
          return null;
        }
        max := maxRchild;
      } else if node.rchild != null {
        return null;
      }
    }

    /** tree_node_reachable: the node itself, if every link below it is mutual. */
    method NodeReachable(node: Node?, ghost t: Shape) returns (reachable: Node?)
      requires node == Root(t) && NodeSet(t) <= nodes && Down(t, Snap(nodes))
      ensures reachable == (if t.Fork? && Up(t.l, t.node, {}, Snap(nodes)) && Up(t.r, t.node, {}, Snap(nodes))
                            then t.node else null)
      decreases t
    {
      if node == null {
        return null;
      }
      var lchildHasThisAsParent, lchild := true, node.lchild;
      if node.lchild != null {
        lchildHasThisAsParent := node.lchild.parent == node;
        lchild := NodeReachable(node.lchild, t.l);
      }
      var rchildHasThisAsParent, rchild := true, node.rchild;
      if node.rchild != null {
        rchildHasThisAsParent := node.rchild.parent == node;
        rchild := NodeReachable(node.rchild, t.r);
      }
      var lchildCorrect := lchildHasThisAsParent && lchild == node.lchild;
      var rchildCorrect := rchildHasThisAsParent && rchild == node.rchild;
      return if lchildCorrect && rchildCorrect then node else null;
    }

    ghost method Adopt(t: Shape, own: set<Node>)
      requires root == Root(t) && |nodes| == numNodes <= maxNodes
      requires IsTree(t, own, Snap(nodes))
      modifies `shape, `tangled
      ensures Valid() && shape == t && tangled == own
    {
      shape, tangled := t, own;
      SnapKeys();
    }

    lemma SnapKeys()
      ensures Snap(nodes).Keys == nodes
    {
    }

    /** The descent of tree_insert: the node that has no child on the side where val belongs. */
    method Descend(val: int) returns (parent: Node?)
      requires Searchable()
      ensures parent == InsertParent(shape, val)
      ensures parent == null <==> shape.Leaf?
      ensures parent != null ==> parent in NodeSet(shape)
    {
      if shape.Fork? {
        InsertParentInside(shape, val);
      }
      parent := null;
      var current := root;
      ghost var rest := shape;
      while current != null
        invariant current == Root(rest) && Down(rest, Snap(nodes))
        invariant rest.Fork? ==> InsertParent(shape, val) == InsertParent(rest, val)
        invariant rest.Leaf? ==> parent == InsertParent(shape, val)
        decreases rest
      {
        parent := current;
        if val < current.val {
          current := current.lchild;
          rest := rest.l;
        } else {
          current := current.rchild;
          rest := rest.r;
        }
      }
    }

    /** tree_insert */
    method Insert(val: int) returns (outcome: Outcome, ghost added: Node?)
      requires Valid()
      modifies this, nodes
      ensures Valid() && maxNodes == old(maxNodes) && fresh(nodes - old(nodes))
      ensures outcome == if old(numNodes) == maxNodes then Einval else Ok
      ensures tangled == old(tangled)
      ensures outcome == Einval ==> shape == old(shape) && nodes == old(nodes)
      ensures outcome == Ok ==>
                && added != null && added !in old(nodes) && nodes == old(nodes) + {added}
                && shape == TreeShape.Insert(old(shape), added, val)
    {
      if numNodes == maxNodes {
        return Einval, null;
      }
      var parent := Descend(val);
      ghost var t, h := shape, Snap(nodes);
      var newNode := NodeInsert(val, parent);
      InsertKeepsTree(t, tangled, val, newNode, h);
      Adopt(TreeShape.Insert(t, newNode, val), tangled);
      return Ok, newNode;
    }

    /** tree_node_insert, with tree_harvest and tree_node_init, on the nodes alone. */
    method NodeInsert(val: int, expectedParent: Node?) returns (newNode: Node)
      requires expectedParent == null || expectedParent in nodes
      modifies this, nodes
      ensures fresh(newNode) && nodes == old(nodes) + {newNode}
      ensures Snap(nodes) == Hung(old(Snap(nodes)), expectedParent, val, newNode)
      ensures root == if expectedParent == null then newNode else old(root)
      ensures numNodes == old(numNodes) + 1 && maxNodes == old(maxNodes)
      ensures shape == old(shape) && tangled == old(tangled)
    {
      ghost var h := Snap(nodes);
      newNode := new Node(val);
      numNodes := numNodes + 1;
      if expectedParent == null {
        root := newNode;
      } else if val < expectedParent.val {
        expectedParent.lchild := newNode;
      } else {
        expectedParent.rchild := newNode;
      }
      newNode.parent := expectedParent;
      nodes := nodes + {newNode};
      HungIs(h, expectedParent, val, newNode, Snap(nodes));
    }

    /** tree_lookup */
    method LookupNode(val: int) returns (found: Node?)
      requires Searchable()
      ensures found == FoundNode(Lookup(shape, val))
      ensures found != null <==> val in InOrder(shape)
      ensures found != null ==> found in NodeSet(shape) && found.val == val
    {
      LookupFindsIff(shape, val);
      var current := root;
      ghost var rest := shape;
      while current != null && current.val != val
        invariant current == Root(rest) && Down(rest, Snap(nodes))
        invariant Lookup(shape, val) == Lookup(rest, val)
        decreases rest
      {
        if val < current.val {
          current := current.lchild;
          rest := rest.l;
        } else {
          current := current.rchild;
          rest := rest.r;
        }
      }
      return current;
    }

    // single assignments to a node of the tree

    method SetLchild(n: Node, c: Node?)
      requires n in nodes
      modifies n`lchild
      ensures n.lchild == c && Snap(nodes) == SetL(old(Snap(nodes)), n, c)
    {
      n.lchild := c;
    }

    method SetRchild(n: Node, c: Node?)
      requires n in nodes
      modifies n`rchild
      ensures n.rchild == c && Snap(nodes) == SetR(old(Snap(nodes)), n, c)
    {
      n.rchild := c;
    }

    method SetParent(n: Node, p: Node?)
      requires n in nodes
      modifies n`parent
      ensures n.parent == p && Snap(nodes) == SetP(old(Snap(nodes)), n, p)
    {
      n.parent := p;
    }

    /** tree_reorder_rol: rchild takes lchild as its left child, and its former left child goes under the
        end of lchild's right spine. */
    method ReorderRol(lchild: Node, rchild: Node, ghost l: Shape)
      requires l.Fork? && Distinct(l) && Root(l) == lchild && NodeSet(l) <= nodes
      requires rchild in nodes && rchild !in NodeSet(l)
      requires Down(l, Snap(nodes)) && (rchild.lchild == null || rchild.lchild in nodes)
      modifies nodes
      ensures Snap(nodes) == Rol(old(Snap(nodes)), lchild, rchild, SpineEnd(l))
    {
      var rchildLchild, current, parent := rchild.lchild, lchild.rchild, lchild;
      ghost var h := Snap(nodes);
      SetLchild(rchild, lchild);
      SetParent(lchild, rchild);
      ghost var h1 := Snap(nodes);
      Frame(l.r, null, {}, h, h1);
      ghost var rest := l;
      while current != null
        invariant rest.Fork? && NodeSet(rest) <= nodes && parent == rest.node && current == Root(rest.r)
        invariant SpineEnd(rest) == SpineEnd(l) && Down(rest.r, h1) && Snap(nodes) == h1
        decreases rest
      {
        parent := current;
        rest := rest.r;
        current := current.rchild;
      }
      SetRchild(parent, rchildLchild);
      if rchildLchild != null {
        SetParent(rchildLchild, parent);
      }
    }

    /** tree_reorder_move: take the root of sub out of the tree from the given side of q, where its parent link
        leads. */
    method ReorderMove(willBeMoved: Node, ghost sub: Shape, ghost q: Node?, ghost left: bool)
      returns (outcome: Outcome)
      requires Readable(sub, q, Snap(nodes)) && Root(sub) == willBeMoved
      requires q == null ==> root == willBeMoved
      requires q != null && sub.r.Fork? ==> (left <==> sub.r.val < q.val)
      requires q != null ==> (left <==> q.lchild == willBeMoved)
      modifies this`root, nodes
      ensures outcome == if Crashes(sub, q, left) then Crash else Ok
      ensures Snap(nodes) == Moved(old(Snap(nodes)), sub, q, left)
      ensures root == if q == null then Root(Merge(sub.l, sub.r)) else old(root)
    {
      var parent, l, r := willBeMoved.parent, willBeMoved.lchild, willBeMoved.rchild;
      RootInside(sub.l);
      RootInside(sub.r);
      var rotateLeftRequired := false;
      if parent == null {
        if l != null && r != null {
          rotateLeftRequired := true;
        } else if l != null {
          SetParent(l, null);
          root := l;
        } else if r != null {
          SetParent(r, null);
          root := r;
        } else {
          root := null;
        }
      } else if r == null && l == null {
        if parent.lchild == willBeMoved {
          SetLchild(parent, null);
        } else {
          SetRchild(parent, null);
        }
      } else if l == null {
        if parent.lchild == willBeMoved {
          SetLchild(parent, r);
          SetParent(parent.lchild, parent);
        } else {
          SetRchild(parent, r);
          SetParent(parent.rchild, parent.rchild);
        }
      } else if r == null {
        if parent.lchild == willBeMoved {
          SetLchild(parent, l);
          SetParent(parent.lchild, parent);
        } else {
          // the code takes the right child, which is missing, and writes through it
          SetRchild(parent, r);
          return Crash;
        }
      } else {
        rotateLeftRequired := true;
      }
      if rotateLeftRequired {
        MovedBoth(Snap(nodes), sub, q, left);
        MoveBoth(parent, l, r, sub.l, left);
      }
      return Ok;
    }

    /** The rotation of tree_reorder_move, for a node with children l and r under parent. */
    method MoveBoth(parent: Node?, l: Node, r: Node, ghost ls: Shape, ghost left: bool)
      requires ls.Fork? && Distinct(ls) && Root(ls) == l && r in nodes && NodeSet(ls) <= nodes && r !in NodeSet(ls)
      requires Down(ls, Snap(nodes)) && (r.lchild == null || r.lchild in nodes)
      requires parent != null ==> parent in nodes && (left <==> r.val < parent.val)
      modifies this`root, nodes
      ensures Snap(nodes) == SetP(Link(Rol(old(Snap(nodes)), l, r, SpineEnd(ls)), parent, left, r), r, parent)
      ensures root == if parent == null then r else old(root)
    {
      ghost var h := Snap(nodes);
      ReorderRol(l, r, ls);
      assert Snap(nodes)[r].val == h[r].val;
      assert parent != null ==> Snap(nodes)[parent].val == h[parent].val;
      LinkUnder(parent, r, left);
      SetParent(r, parent);
    }

    /** Where the rotated subtree goes: on the side of its value under parent, or to the root. */
    method LinkUnder(parent: Node?, r: Node, ghost left: bool)
      requires r in nodes
      requires parent != null ==> parent in nodes && (left <==> r.val < parent.val)
      modifies this`root, nodes`lchild, nodes`rchild
      ensures Snap(nodes) == Link(old(Snap(nodes)), parent, left, r)
      ensures root == if parent == null then r else old(root)
    {
      if parent == null {
        root := r;
      } else if r.val < parent.val {
        SetLchild(parent, r);
      } else {
        SetRchild(parent, r);
      }
    }

    /** tree_delete, with tree_node_delete and tree_reap: removes the first node with this value, unless that node is
        its own parent. */
    method Delete(val: int) returns (outcome: Outcome)
      requires Valid()
      modifies this, nodes
      ensures maxNodes == old(maxNodes) && numNodes == old(numNodes) && nodes == old(nodes)
      ensures outcome == Einval <==> val !in InOrder(old(shape))
      ensures outcome == Einval ==> Valid() && shape == old(shape) && tangled == old(tangled)
      ensures outcome == Crash <==> Lookup(old(shape), val).Hit? && CrashesAt(old(shape), old(tangled), val)
      ensures outcome == Ok ==> Lookup(old(shape), val).Hit?
      ensures outcome == Ok && Lookup(old(shape), val).node !in old(tangled) ==>
                && Valid() && shape == TreeShape.Delete(old(shape), val)
                && tangled == TangledAfter(old(shape), old(tangled), val)
      ensures outcome == Ok && Lookup(old(shape), val).node in old(tangled) ==>
                && root == Root(Zeroed(old(shape), val)) && Down(Zeroed(old(shape), val), Snap(nodes))
                && !Down(TreeShape.Delete(old(shape), val), Snap(nodes))
    {
      var current := LookupNode(val);
      LookupFindsIff(shape, val);
      if numNodes == 0 || current == null {
        return Einval;
      }
      ghost var t, own, h := shape, tangled, Snap(nodes);
      outcome := NodeDelete(current, val, t, own);
      if outcome == Ok {
        if current in own {
          DeleteLosesSubtree(t, own, val, h);
        } else {
          AdoptDeleted(t, own, val, h);
        }
      }
    }

    ghost method AdoptDeleted(t: Shape, own: set<Node>, val: int, h: Memory)
      requires IsTree(t, own, h) && Lookup(t, val).Hit? && Lookup(t, val).node !in own && !DeleteCrashes(t, val)
      requires Deletable(t, val, h) && Snap(nodes) == Deleted(h, t, val) && |nodes| == numNodes <= maxNodes
      requires root == if val == t.val then Root(Merge(t.l, t.r)) else Root(t)
      modifies `shape, `tangled
      ensures Valid() && shape == TreeShape.Delete(t, val) && tangled == TangledAfter(t, own, val)
    {
      DeleteKeepsTree(t, own, val, h);
      Adopt(TreeShape.Delete(t, val), TangledAfter(t, own, val));
    }

    /** tree_node_delete, on the nodes alone. */
    method NodeDelete(current: Node, val: int, ghost t: Shape, ghost own: set<Node>) returns (outcome: Outcome)
      requires IsTree(t, own, Snap(nodes)) && root == Root(t)
      requires Lookup(t, val).Hit? && Lookup(t, val).node == current
      modifies this`root, nodes
      ensures outcome == if CrashesAt(t, own, val) then Crash else Ok
      ensures Deletable(t, val, old(Snap(nodes)))
      ensures outcome == Ok ==> Snap(nodes) == Deleted(old(Snap(nodes)), t, val)
      ensures root == if val == t.val then Root(Merge(t.l, t.r)) else old(root)
    {
      Aim(t, own, val, Snap(nodes));
      outcome := ReorderMove(current, SubAt(t, val), ParentRead(t, own, val), LeftRead(t, own, val));
      if outcome == Ok {
        Reap(current);
      }
    }

    /** tree_reap */
    method Reap(node: Node)
      requires node in nodes
      modifies node
      ensures Snap(nodes) == Reaped(old(Snap(nodes)), node)
    {
      node.val, node.parent, node.lchild, node.rchild := 0, null, null, null;
    }
  }
}
