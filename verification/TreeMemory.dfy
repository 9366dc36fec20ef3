/** The pointers of the tree in src/tree_T.c: which memory spells out which tree, and what each rewiring of
    pointers makes of both. A snapshot of the nodes is a map, so all of this is about values. */
module TreeMemory {
  import opened TreeShape

  class Node {
    var val: int
    var parent: Node?
    var lchild: Node?
    var rchild: Node?

    constructor (v: int)
      ensures val == v && parent == null && lchild == null && rchild == null
    {
      val, parent, lchild, rchild := v, null, null, null;
    }
  }

  type Shape = Tree<Node>

  /** Crash stands for a dereference of a null pointer. */
  datatype Outcome = Ok | Einval | Crash

  // ----- links, over a snapshot of the nodes

  datatype Fields = Fields(val: int, parent: Node?, lchild: Node?, rchild: Node?)

  type Memory = map<Node, Fields>

  ghost function Snap(nodes: set<Node>): (h: Memory)
    reads nodes
  {
    map n | n in nodes :: Fields(n.val, n.parent, n.lchild, n.rchild)
  }

  function Root(t: Shape): (n: Node?) {
    if t.Leaf? then null else t.node
  }

  /** Values and child pointers are those of t. */
  ghost predicate Down(t: Shape, h: Memory) {
    t.Fork? ==>
      && t.node in h && h[t.node].val == t.val
      && h[t.node].lchild == Root(t.l) && h[t.node].rchild == Root(t.r)
      && Down(t.l, h) && Down(t.r, h)
  }

  /** Every node of t points to its parent, the root of t to p; except that those in own point to
      themselves. */
  ghost predicate Up(t: Shape, p: Node?, own: set<Node>, h: Memory) {
    t.Fork? ==>
      && t.node in h
      && h[t.node].parent == (if t.node in own then t.node else p)
      && Up(t.l, t.node, own, h) && Up(t.r, t.node, own, h)
  }

  ghost predicate SameOn(s: set<Node>, h: Memory, k: Memory) {
    forall n :: n in s && n in h ==> n in k && k[n] == h[n]
  }

  /** Nodes outside t do not matter to t. */
  lemma {:induction false} Frame(t: Shape, p: Node?, own: set<Node>, h: Memory, k: Memory)
    requires SameOn(NodeSet(t), h, k)
    ensures Down(t, h) ==> Down(t, k)
    ensures Up(t, p, own, h) ==> Up(t, p, own, k)
  {
    if t.Fork? {
      Frame(t.l, t.node, own, h, k);
      Frame(t.r, t.node, own, h, k);
    }
  }

  /** Nor does it matter whether they are their own parents. */
  lemma {:induction false} UpAgree(t: Shape, p: Node?, own: set<Node>, now: set<Node>, h: Memory)
    requires forall n :: n in NodeSet(t) ==> (n in own <==> n in now)
    ensures Up(t, p, own, h) <==> Up(t, p, now, h)
  {
    if t.Fork? {
      UpAgree(t.l, t.node, own, now, h);
      UpAgree(t.r, t.node, own, now, h);
    }
  }

  /** The child links spell at most one tree. */
  lemma {:induction false} DownIsUnique(t: Shape, u: Shape, h: Memory)
    requires Down(t, h) && Down(u, h) && Root(t) == Root(u)
    ensures t == u
  {
    if t.Fork? && u.Fork? {
      DownIsUnique(t.l, u.l, h);
      DownIsUnique(t.r, u.r, h);
    }
  }

  /** The child links spell the search tree t. */
  ghost predicate Spells(t: Shape, h: Memory) {
    Distinct(t) && Bst(t) && NodeSet(t) <= h.Keys && Down(t, h)
  }

  /** They do, and every parent link is right but for those of own, which are nodes of t other than its root. */
  ghost predicate IsTree(t: Shape, own: set<Node>, h: Memory) {
    && Spells(t, h) && Up(t, null, own, h)
    && own <= NodeSet(t) && (t.Fork? ==> t.node !in own)
  }

  /** All links are mutual if and only if no node is its own parent. */
  lemma MutualIff(t: Shape, own: set<Node>, h: Memory)
    requires IsTree(t, own, h)
    ensures Up(t, null, {}, h) <==> own == {}
  {
    if own != {} {
      var n :| n in own;
      OwnBreaksLinks(t, null, own, n, h);
    }
  }

  /** A tree with a node that is its own parent is not properly linked. */
  lemma {:induction false} OwnBreaksLinks(t: Shape, p: Node?, own: set<Node>, n: Node, h: Memory)
    requires Distinct(t) && n in NodeSet(t) && n in own && Up(t, p, own, h) && (p != null ==> p !in NodeSet(t))
    ensures !Up(t, p, {}, h)
  {
    if n in NodeSet(t.l) {
      OwnBreaksLinks(t.l, t.node, own, n, h);
    } else if n in NodeSet(t.r) {
      OwnBreaksLinks(t.r, t.node, own, n, h);
    }
  }

  // ----- insertion

  /** Who gets the new node as a child. */
  ghost function InsertParent(t: Shape, v: int): (n: Node?) {
    if t.Leaf? then null
    else if v < t.val then (if t.l.Leaf? then t.node else InsertParent(t.l, v))
    else (if t.r.Leaf? then t.node else InsertParent(t.r, v))
  }

  lemma {:induction false} InsertParentInside(t: Shape, v: int)
    requires t.Fork?
    ensures InsertParent(t, v) != null && InsertParent(t, v) in NodeSet(t)
  {
    if t.l.Fork? { InsertParentInside(t.l, v); }
    if t.r.Fork? { InsertParentInside(t.r, v); }
  }

  /** f with c as its child on the side of v. */
  function WithChild(f: Fields, v: int, c: Node?): (g: Fields) {
    if v < f.val then f.(lchild := c) else f.(rchild := c)
  }

  lemma {:induction false} InsertLinks(t: Shape, p: Node?, own: set<Node>, v: int, n: Node, h: Memory, k: Memory)
    requires t.Fork? && Distinct(t) && n !in NodeSet(t) && n !in own && Down(t, h) && Up(t, p, own, h)
    requires var at := InsertParent(t, v);
             && at != null && at in NodeSet(t) && at in h && at in k
             && SameOn(NodeSet(t) - {at}, h, k) && k[at] == WithChild(h[at], v, n)
             && n in k && k[n] == Fields(v, at, null, null)
    ensures Down(Insert(t, n, v), k) && Up(Insert(t, n, v), p, own, k)
  {
    var at := InsertParent(t, v);
    var side, other := if v < t.val then t.l else t.r, if v < t.val then t.r else t.l;
    if side.Fork? {
      InsertParentInside(side, v);
      InsertLinks(side, t.node, own, v, n, h, k);
    }
    Frame(other, t.node, own, h, k);
  }

  /** The links after hanging a new node n holding v under at. */
  ghost function Hung(h: Memory, at: Node?, v: int, n: Node): (k: Memory)
    requires at != null ==> at in h
  {
    (if at == null then h else h[at := WithChild(h[at], v, n)])[n := Fields(v, at, null, null)]
  }

  lemma HungIs(h: Memory, at: Node?, v: int, n: Node, k: Memory)
    requires n !in h && k.Keys == h.Keys + {n} && (at != null ==> at in h)
    requires forall m :: m in h && m != at ==> k[m] == h[m]
    requires at != null ==> k[at] == WithChild(h[at], v, n)
    requires k[n] == Fields(v, at, null, null)
    ensures k == Hung(h, at, v, n)
  {
  }

  /** An insertion hangs the new node in its place, and no other node becomes its own parent. */
  lemma InsertKeepsTree(t: Shape, own: set<Node>, v: int, n: Node, h: Memory)
    requires IsTree(t, own, h) && n !in h
    ensures InsertParent(t, v) != null ==> InsertParent(t, v) in h
    ensures var r := Insert(t, n, v);
            && IsTree(r, own, Hung(h, InsertParent(t, v), v, n))
            && NodeSet(r) == NodeSet(t) + {n} && Root(r) == (if t.Leaf? then n else Root(t))
  {
    InsertKeepsBst(t, n, v);
    InsertNodes(t, n, v);
    if t.Fork? {
      InsertParentInside(t, v);
      InsertLinks(t, null, own, v, n, h, Hung(h, InsertParent(t, v), v, n));
    }
  }

  function HitOf(n: Node, v: int): (h: Hit<Node>) {
    Hit(n, v)
  }

  function FoundNode(hit: Hit<Node>): (n: Node?) {
    if hit.Miss? then null else hit.node
  }

  // ----- deletion: single assignments

  function SetL(h: Memory, n: Node, c: Node?): (k: Memory)
    requires n in h
  {
    h[n := h[n].(lchild := c)]
  }

  function SetR(h: Memory, n: Node, c: Node?): (k: Memory)
    requires n in h
  {
    h[n := h[n].(rchild := c)]
  }

  function SetP(h: Memory, n: Node, p: Node?): (k: Memory)
    requires n in h
  {
    h[n := h[n].(parent := p)]
  }

  /** The last node of t's right spine. */
  ghost function SpineEnd(t: Shape): (n: Node)
    requires t.Fork?
    ensures n in NodeSet(t)
  {
    if t.r.Leaf? then t.node else SpineEnd(t.r)
  }

  /** tree_reorder_rol: l becomes r's left child, and what that was before hangs under at. */
  function Rol(h: Memory, l: Node, r: Node, at: Node): (k: Memory)
    requires l in h && r in h && at in h
    requires h[r].lchild == null || h[r].lchild in h
    ensures k.Keys == h.Keys
  {
    var rl := h[r].lchild;
    var h2 := SetR(SetP(SetL(h, r, l), l, r), at, rl);
    if rl == null then h2 else SetP(h2, rl, at)
  }

  lemma {:induction false} GraftLinks(l: Shape, sub: Shape, p: Node?, own: set<Node>, h: Memory, k: Memory)
    requires l.Fork? && Distinct(l) && NodeSet(l) !! NodeSet(sub)
    requires Down(l, h) && Up(l, p, own, h)
    requires Down(sub, k) && Up(sub, SpineEnd(l), own, k)
    requires SameOn(NodeSet(l) - {SpineEnd(l)}, h, k)
    requires SpineEnd(l) in h && SpineEnd(l) in k && k[SpineEnd(l)] == h[SpineEnd(l)].(rchild := Root(sub))
    ensures Down(Graft(l, sub), k) && Up(Graft(l, sub), p, own, k)
  {
    Frame(l.l, l.node, own, h, k);
    if l.r.Fork? {
      GraftLinks(l.r, sub, l.node, own, h, k);
    }
  }

  /** Giving t's root another parent, or making it its own, changes nothing else about t. */
  lemma Reparent(t: Shape, p: Node?, q: Node?, own: set<Node>, now: set<Node>, h: Memory)
    requires t.Fork? && Distinct(t) && t.node in h && Down(t, h) && Up(t, p, own, h)
    requires forall n :: n in NodeSet(t) && n != t.node ==> (n in own <==> n in now)
    ensures var k := SetP(h, t.node, if t.node in now then t.node else q);
            Down(t, k) && Up(t, q, now, k)
  {
    var k := SetP(h, t.node, if t.node in now then t.node else q);
    Frame(t.l, t.node, own, h, k);
    Frame(t.r, t.node, own, h, k);
    UpAgree(t.l, t.node, own, now, k);
    UpAgree(t.r, t.node, own, now, k);
  }

  /** The memory of a node with two children after tree_reorder_rol and the new parent link. */
  ghost function Rotated(h: Memory, l: Shape, r: Shape, q: Node?): (k: Memory)
    requires l.Fork? && r.Fork? && NodeSet(l) + NodeSet(r) <= h.Keys
    requires h[r.node].lchild == null || h[r.node].lchild in h
  {
    SetP(Rol(h, l.node, r.node, SpineEnd(l)), r.node, q)
  }

  ghost predicate TwoSubtrees(l: Shape, r: Shape, x: Node, own: set<Node>, h: Memory) {
    && l.Fork? && r.Fork? && NodeSet(l) + NodeSet(r) <= h.Keys
    && Distinct(l) && Distinct(r) && NodeSet(l) !! NodeSet(r)
    && Down(l, h) && Up(l, x, own, h) && Down(r, h) && Up(r, x, own, h)
  }

  function RootSet(t: Shape): (ns: set<Node>) {
    if t.Leaf? then {} else {t.node}
  }

  /** Which nodes are their own parents after a rotation: the three that get a new parent are not. */
  function Turned(own: set<Node>, l: Shape, r: Shape): (now: set<Node>) {
    own - RootSet(l) - RootSet(r) - (if r.Fork? then RootSet(r.l) else {})
  }

  lemma RootInside(t: Shape)
    ensures Root(t) != null ==> Root(t) in NodeSet(t)
  {
  }

  lemma RolPieces(l: Shape, r: Shape, x: Node, q: Node?, own: set<Node>, h: Memory)
    requires TwoSubtrees(l, r, x, own, h)
    ensures h[r.node].lchild == null || h[r.node].lchild in h
    ensures var k, at, now := Rotated(h, l, r, q), SpineEnd(l), Turned(own, l, r);
            var h1 := SetP(h, l.node, r.node);
            && Down(l, h1) && Up(l, r.node, now, h1)
            && Down(r.l, k) && Up(r.l, at, now, k)
            && Down(r.r, k) && Up(r.r, r.node, now, k)
            && SameOn(NodeSet(l) - {at}, h1, k) && k[at] == h1[at].(rchild := Root(r.l))
            && k[r.node] == Fields(r.val, q, l.node, Root(r.r))
            && SameOn(h.Keys - NodeSet(l) - NodeSet(r), h, k)
  {
    RootInside(r.l);
    var at, now := SpineEnd(l), Turned(own, l, r);
    var h1 := SetP(h, l.node, r.node);
    var k := Rotated(h, l, r, q);
    Reparent(l, x, r.node, own, now, h);
    Frame(r.r, r.node, own, h, k);
    UpAgree(r.r, r.node, own, now, k);
    if r.l.Fork? {
      var h2 := SetP(h, r.l.node, at);
      Reparent(r.l, r.node, at, own, now, h);
      Frame(r.l, at, now, h2, k);
    }
  }

  lemma RotatedLinks(l: Shape, r: Shape, x: Node, q: Node?, own: set<Node>, h: Memory)
    requires TwoSubtrees(l, r, x, own, h)
    ensures h[r.node].lchild == null || h[r.node].lchild in h
    ensures var k := Rotated(h, l, r, q);
            && Down(Merge(l, r), k) && Up(Merge(l, r), q, Turned(own, l, r), k)
            && SameOn(h.Keys - NodeSet(l) - NodeSet(r), h, k)
  {
    RolPieces(l, r, x, q, own, h);
    GraftLinks(l, r.l, r.node, Turned(own, l, r), SetP(h, l.node, r.node), Rotated(h, l, r, q));
  }

  // ----- deletion: the whole rewiring around one node

  /** The link from q down to the subtree that hung on its left or right side. */
  function Link(h: Memory, q: Node?, left: bool, c: Node?): (k: Memory)
    requires q == null || q in h
    ensures k.Keys == h.Keys
  {
    if q == null then h else if left then SetL(h, q, c) else SetR(h, q, c)
  }

  /** The right child of q that has only a left child: tree_reorder_move takes its missing right child. */
  predicate Crashes(sub: Shape, q: Node?, left: bool) {
    sub.Fork? && q != null && !left && sub.l.Fork? && sub.r.Leaf?
  }

  /** The right child of q that has only a right child: that child is made its own parent. */
  predicate MakesSelfish(sub: Shape, q: Node?, left: bool) {
    sub.Fork? && q != null && !left && sub.l.Leaf? && sub.r.Fork?
  }

  /** Which nodes are their own parents after the root of sub has been taken out from under q. */
  function Entangled(own: set<Node>, sub: Shape, q: Node?, left: bool): (now: set<Node>)
    requires sub.Fork?
  {
    if MakesSelfish(sub, q, left) then own - {sub.node} + {sub.r.node}
    else if sub.l.Fork? && sub.r.Fork? then Turned(own - {sub.node}, sub.l, sub.r)
    else own - {sub.node} - RootSet(sub.l) - RootSet(sub.r)
  }

  /** The links read when the root of sub is moved: those of sub, and up to q. */
  ghost predicate Readable(sub: Shape, q: Node?, h: Memory) {
    && sub.Fork? && Distinct(sub) && NodeSet(sub) <= h.Keys && Down(sub, h)
    && h[sub.node].parent == q && (q != null ==> q in h)
  }

  /** sub hangs under q, and its root knows it. */
  ghost predicate Hangs(sub: Shape, q: Node?, own: set<Node>, h: Memory) {
    && Readable(sub, q, h) && sub.node !in own && Up(sub, q, own, h)
    && (q != null ==> q !in NodeSet(sub))
  }

  /** The memory after tree_reorder_move takes the root of sub out of the tree. */
  ghost function Moved(h: Memory, sub: Shape, q: Node?, left: bool): (k: Memory)
    requires Readable(sub, q, h)
    ensures k.Keys == h.Keys
  {
    var l, r := sub.l, sub.r;
    RootInside(l);
    RootInside(r);
    if l.Leaf? && r.Leaf? then Link(h, q, left, null)
    else if l.Leaf? then
      SetP(Link(h, q, left, r.node), r.node, if MakesSelfish(sub, q, left) then r.node else q)
    else if r.Leaf? then
      if Crashes(sub, q, left) then Link(h, q, left, null)
      else SetP(Link(h, q, left, l.node), l.node, q)
    else
      RootInside(r.l);
      assert Down(r, h) && h[r.node].lchild == Root(r.l);
      Link(Rotated(h, l, r, q), q, left, r.node)
  }

  /** The two last assignments of a rotation commute. */
  lemma MovedBoth(h: Memory, sub: Shape, q: Node?, left: bool)
    requires Readable(sub, q, h) && sub.l.Fork? && sub.r.Fork?
    ensures h[sub.r.node].val == sub.r.val && (h[sub.r.node].lchild == null || h[sub.r.node].lchild in h)
    ensures Moved(h, sub, q, left)
         == SetP(Link(Rol(h, sub.l.node, sub.r.node, SpineEnd(sub.l)), q, left, sub.r.node), sub.r.node, q)
  {
    RootInside(sub.r.l);
    assert Down(sub.r, h) && h[sub.r.node].lchild == Root(sub.r.l);
  }

  lemma OneChildLinks(c: Shape, x: Node, q: Node?, left: bool, own: set<Node>, now: set<Node>, h: Memory)
    requires c.Fork? && Distinct(c) && NodeSet(c) <= h.Keys && Down(c, h) && Up(c, x, own, h)
    requires q != null ==> q in h && q !in NodeSet(c)
    requires forall n :: n in NodeSet(c) && n != c.node ==> (n in own <==> n in now)
    ensures var k := SetP(Link(h, q, left, c.node), c.node, if c.node in now then c.node else q);
            Down(c, k) && Up(c, q, now, k)
  {
    var k := Link(h, q, left, c.node);
    Frame(c, x, own, h, k);
    Reparent(c, x, q, own, now, k);
  }

  /** What takes the place of sub's root is linked under q, and nothing else has changed but q's link. */
  lemma MovedLinks(h: Memory, sub: Shape, q: Node?, left: bool, own: set<Node>)
    requires Hangs(sub, q, own, h) && !Crashes(sub, q, left)
    ensures var k, m := Moved(h, sub, q, left), Merge(sub.l, sub.r);
            && Down(m, k) && Up(m, q, Entangled(own, sub, q, left), k)
            && SameOn(h.Keys - NodeSet(sub) - (if q == null then {} else {q}), h, k)
            && (q != null ==> k[q] == Link(h, q, left, Root(m))[q])
  {
    var l, r, now := sub.l, sub.r, Entangled(own, sub, q, left);
    if l.Fork? && r.Fork? {
      RotatedLinks(l, r, sub.node, q, own, h);
      var m := Merge(l, r);
      MergeNodes(l, r);
      UpAgree(m, q, Turned(own, l, r), now, Rotated(h, l, r, q));
      Frame(m, q, now, Rotated(h, l, r, q), Moved(h, sub, q, left));
    } else if l.Fork? {
      OneChildLinks(l, sub.node, q, left, own, now, h);
    } else if r.Fork? {
      OneChildLinks(r, sub.node, q, left, own, now, h);
    }
  }

  /** Moving a node that is its own parent changes nothing outside its subtree. */
  lemma MovedInside(h: Memory, sub: Shape, left: bool)
    requires sub.Fork? && Readable(sub, sub.node, h)
    ensures SameOn(h.Keys - NodeSet(sub), h, Moved(h, sub, sub.node, left))
  {
    var l, r := sub.l, sub.r;
    RootInside(l);
    RootInside(r);
    if l.Fork? && r.Fork? {
      RootInside(r.l);
      assert Down(r, h) && h[r.node].lchild == Root(r.l);
    }
  }

  // ----- deletion: where the node is

  /** The subtree whose root tree_lookup finds. */
  function SubAt(t: Shape, v: int): (s: Shape)
    requires Lookup(t, v).Hit?
    ensures s.Fork? && s.node == Lookup(t, v).node && s.val == v
  {
    if v == t.val then t else if v < t.val then SubAt(t.l, v) else SubAt(t.r, v)
  }

  /** Its parent, when the parent of t is p. */
  function ParentAt(t: Shape, p: Node?, v: int): (q: Node?)
    requires Lookup(t, v).Hit?
  {
    if v == t.val then p else if v < t.val then ParentAt(t.l, t.node, v) else ParentAt(t.r, t.node, v)
  }

  function LeftAt(t: Shape, left: bool, v: int): (b: bool)
    requires Lookup(t, v).Hit?
  {
    if v == t.val then left else if v < t.val then LeftAt(t.l, true, v) else LeftAt(t.r, false, v)
  }

  lemma {:induction false} SubInside(t: Shape, v: int, h: Memory)
    requires Lookup(t, v).Hit?
    ensures NodeSet(SubAt(t, v)) <= NodeSet(t) && SubAt(t, v).node in NodeSet(t)
    ensures Distinct(t) ==> Distinct(SubAt(t, v)) && (v != t.val ==> t.node !in NodeSet(SubAt(t, v)))
    ensures Down(t, h) ==> Down(SubAt(t, v), h)
  {
    if v < t.val {
      SubInside(t.l, v, h);
    } else if v > t.val {
      SubInside(t.r, v, h);
    }
  }

  lemma {:induction false} Located(t: Shape, p: Node?, own: set<Node>, v: int, h: Memory)
    requires Distinct(t) && NodeSet(t) <= h.Keys && Up(t, p, own, h) && Lookup(t, v).Hit?
    requires p != null ==> p in h && p !in NodeSet(t)
    ensures var sub, q := SubAt(t, v), ParentAt(t, p, v);
            && Up(sub, q, own, h) && (q != null ==> q in h && q !in NodeSet(sub))
            && (v != t.val ==> q != null && q in NodeSet(t))
  {
    if v < t.val {
      Located(t.l, t.node, own, v, h);
    } else if v > t.val {
      Located(t.r, t.node, own, v, h);
    }
  }

  lemma {:induction false} SubBounds(t: Shape, v: int, b: int)
    requires Lookup(t, v).Hit?
    ensures Below(t, b) ==> Below(SubAt(t, v), b)
    ensures AtLeast(t, b) ==> AtLeast(SubAt(t, v), b)
    ensures Bst(t) ==> Bst(SubAt(t, v))
  {
    if v < t.val {
      SubBounds(t.l, v, b);
    } else if v > t.val {
      SubBounds(t.r, v, b);
    }
  }

  /** Below the root, the parent's link is on the side that the node's values are on. */
  lemma {:induction false} SideOfParent(t: Shape, p: Node?, left: bool, v: int, h: Memory)
    requires Distinct(t) && Bst(t) && NodeSet(t) <= h.Keys && Down(t, h) && Lookup(t, v).Hit? && v != t.val
    ensures var sub, q, side := SubAt(t, v), ParentAt(t, p, v), LeftAt(t, left, v);
            && q != null && q in h
            && (side <==> h[q].lchild == sub.node)
            && (side ==> Below(sub, h[q].val)) && (!side ==> h[q].rchild == sub.node && AtLeast(sub, h[q].val))
  {
    var side := if v < t.val then t.l else t.r;
    SubBounds(side, v, t.val);
    RootInside(t.l);
    if side.val != v {
      SideOfParent(side, t.node, v < t.val, v, h);
    }
  }

  /** Replacing the subtree at v by one that is linked in its place gives the tree without v. */
  lemma {:induction false} ReplaceLinks(t: Shape, p: Node?, left: bool, v: int, own: set<Node>, now: set<Node>,
        h: Memory, k: Memory)
    requires Distinct(t) && NodeSet(t) <= h.Keys && Down(t, h) && Up(t, p, own, h) && Lookup(t, v).Hit?
    requires p != null ==> p in h && p !in NodeSet(t)
    requires forall n :: n in NodeSet(t) && n !in NodeSet(SubAt(t, v)) ==> (n in own <==> n in now)
    requires var sub, q := SubAt(t, v), ParentAt(t, p, v);
             && Down(Merge(sub.l, sub.r), k) && Up(Merge(sub.l, sub.r), q, now, k)
             && SameOn(NodeSet(t) - NodeSet(sub) - (if q == null then {} else {q}), h, k)
             && (q != null && q in NodeSet(t) ==>
                   q in k && q in h && k[q] == Link(h, q, LeftAt(t, left, v), Root(Merge(sub.l, sub.r)))[q])
    ensures Down(Delete(t, v), k) && Up(Delete(t, v), p, now, k)
  {
    if v != t.val {
      var side, other := if v < t.val then t.l else t.r, if v < t.val then t.r else t.l;
      SubInside(side, v, h);
      Located(side, t.node, own, v, h);
      ReplaceLinks(side, t.node, v < t.val, v, own, now, h, k);
      UpAgree(other, t.node, own, now, h);
      Frame(other, t.node, now, h, k);
    }
  }

  /** tree_reap */
  function Reaped(h: Memory, x: Node): (k: Memory) {
    h[x := Fields(0, null, null, null)]
  }

  // ----- deletion: as a whole

  /** The delete meets the right child with only a left child. */
  predicate DeleteCrashes(t: Shape, v: int)
    requires Lookup(t, v).Hit?
  {
    Crashes(SubAt(t, v), ParentAt(t, null, v), LeftAt(t, false, v))
  }

  /** The delete turns a node into its own parent. */
  predicate DeleteEntangles(t: Shape, v: int)
    requires Lookup(t, v).Hit?
  {
    MakesSelfish(SubAt(t, v), ParentAt(t, null, v), LeftAt(t, false, v))
  }

  /** Which nodes are their own parents after a delete, when those of own were before. */
  function TangledAfter(t: Shape, own: set<Node>, v: int): (now: set<Node>)
    requires Lookup(t, v).Hit?
  {
    Entangled(own, SubAt(t, v), ParentAt(t, null, v), LeftAt(t, false, v))
  }

  /** The node that the parent link of the found node leads to. */
  function ParentRead(t: Shape, own: set<Node>, v: int): (q: Node?)
    requires Lookup(t, v).Hit?
  {
    if SubAt(t, v).node in own then SubAt(t, v).node else ParentAt(t, null, v)
  }

  /** Whether the found node is that one's left child. */
  predicate LeftRead(t: Shape, own: set<Node>, v: int)
    requires Lookup(t, v).Hit?
  {
    SubAt(t, v).node !in own && LeftAt(t, false, v)
  }

  /** The delete follows a null pointer, when the nodes of own are their own parents. */
  predicate CrashesAt(t: Shape, own: set<Node>, v: int)
    requires Lookup(t, v).Hit?
  {
    Crashes(SubAt(t, v), ParentRead(t, own, v), LeftRead(t, own, v))
  }

  /** Comparing values or links, one finds the node on the same side of its parent. */
  lemma ParentSide(t: Shape, v: int, h: Memory)
    requires Spells(t, h) && Lookup(t, v).Hit?
    ensures var sub, q, left := SubAt(t, v), ParentAt(t, null, v), LeftAt(t, false, v);
            q != null ==> q in h && (left <==> h[q].lchild == sub.node)
                          && (sub.r.Fork? ==> (left <==> sub.r.val < h[q].val))
  {
    if v != t.val {
      SideOfParent(t, null, false, v, h);
    }
  }

  /** The links that a delete of v reads are there, and a node without a parent is the root. */
  ghost predicate Deletable(t: Shape, v: int, h: Memory) {
    && Lookup(t, v).Hit? && SubAt(t, v).node in h && Readable(SubAt(t, v), h[SubAt(t, v).node].parent, h)
    && (h[SubAt(t, v).node].parent == null ==> v == t.val)
  }

  /** n is the left child of q. */
  ghost predicate OnLeft(h: Memory, q: Node?, n: Node) {
    q != null && q in h && h[q].lchild == n
  }

  /** The delete follows a null pointer, as the links of h lead it. */
  ghost predicate FollowsNull(h: Memory, t: Shape, v: int)
    requires Deletable(t, v, h)
  {
    var x := SubAt(t, v).node;
    Crashes(SubAt(t, v), h[x].parent, OnLeft(h, h[x].parent, x))
  }

  /** The memory after the whole delete: the move of the found node, as its links are read, and its reaping. */
  ghost function Deleted(h: Memory, t: Shape, v: int): (k: Memory)
    requires Deletable(t, v, h)
    ensures k.Keys == h.Keys
  {
    var x := SubAt(t, v).node;
    Reaped(Moved(h, SubAt(t, v), h[x].parent, OnLeft(h, h[x].parent, x)), x)
  }

  /** Where tree_reorder_move is called, for which subtree and under which parent; the same parent on both ways of
      telling the side, also when it is the node itself. */
  lemma Aim(t: Shape, own: set<Node>, v: int, h: Memory)
    requires IsTree(t, own, h) && Lookup(t, v).Hit?
    ensures var sub, q, left := SubAt(t, v), ParentRead(t, own, v), LeftRead(t, own, v);
            && sub.node in h && h[sub.node].parent == q
            && Readable(sub, q, h) && (sub.node !in own ==> Hangs(sub, q, own, h))
            && (q == null <==> v == t.val)
            && (q != null ==> (left <==> h[q].lchild == sub.node)
                              && (sub.r.Fork? ==> (left <==> sub.r.val < h[q].val)))
    ensures Deletable(t, v, h) && (FollowsNull(h, t, v) <==> CrashesAt(t, own, v))
  {
    SubInside(t, v, h);
    Located(t, null, own, v, h);
    ParentSide(t, v, h);
    SubBounds(t, v, 0);
    RootInside(SubAt(t, v).l);
  }

  /** A delete that does not crash, of a node that is not its own parent, leaves the tree without it. */
  lemma DeleteKeepsTree(t: Shape, own: set<Node>, v: int, h: Memory)
    requires IsTree(t, own, h) && Lookup(t, v).Hit? && Lookup(t, v).node !in own && !DeleteCrashes(t, v)
    ensures Deletable(t, v, h)
    ensures IsTree(Delete(t, v), TangledAfter(t, own, v), Deleted(h, t, v))
    ensures Root(Delete(t, v)) == if v == t.val then Root(Merge(t.l, t.r)) else Root(t)
  {
    var sub, q, left := SubAt(t, v), ParentAt(t, null, v), LeftAt(t, false, v);
    Aim(t, own, v, h);
    MovedLinks(h, sub, q, left, own);
    var k, now := Moved(h, sub, q, left), TangledAfter(t, own, v);
    SubInside(t, v, h);
    RootInside(sub.l);
    RootInside(sub.r);
    TangledInside(t, own, v);
    Located(t, null, own, v, h);
    ReplaceLinks(t, null, false, v, own, now, h, k);
    DeleteNodes(t, v);
    Frame(Delete(t, v), null, now, k, Reaped(k, sub.node));
    DeleteKeepsBst(t, v);
  }

  lemma TangledInside(t: Shape, own: set<Node>, v: int)
    requires Distinct(t) && Lookup(t, v).Hit? && own <= NodeSet(t) && t.node !in own
    ensures var r, now := Delete(t, v), TangledAfter(t, own, v);
            && now <= NodeSet(r) && (r.Fork? ==> r.node !in now)
            && (forall n :: n in NodeSet(t) && n !in NodeSet(SubAt(t, v)) ==> (n in own <==> n in now))
  {
    var sub := SubAt(t, v);
    SubInside(t, v, map[]);
    DeleteNodes(t, v);
    RootInside(sub.l);
    RootInside(sub.r);
    if sub.r.Fork? { RootInside(sub.r.l); }
  }

  /** The links are all mutual again if and only if none is left that is its own parent; in a tree without any, if
      and only if the delete does not make one. */
  lemma DeleteLinksIff(t: Shape, own: set<Node>, v: int, h: Memory)
    requires IsTree(t, own, h) && Lookup(t, v).Hit? && Lookup(t, v).node !in own && !DeleteCrashes(t, v)
    ensures Deletable(t, v, h)
    ensures Up(Delete(t, v), null, {}, Deleted(h, t, v)) <==> TangledAfter(t, own, v) == {}
    ensures own == {} ==> (TangledAfter(t, own, v) == {} <==> !DeleteEntangles(t, v))
  {
    DeleteKeepsTree(t, own, v, h);
    MutualIff(Delete(t, v), TangledAfter(t, own, v), Deleted(h, t, v));
    if DeleteEntangles(t, v) {
      assert SubAt(t, v).r.node in TangledAfter(t, own, v);
    }
  }

  // ----- deletion of a node that is its own parent

  /** The tree whose subtree at v has come down to a single zeroed node. */
  function Zeroed(t: Shape, v: int): (z: Shape)
    requires Lookup(t, v).Hit?
  {
    if v == t.val then Fork(Leaf, t.node, 0, Leaf)
    else if v < t.val then Fork(Zeroed(t.l, v), t.node, t.val, t.r)
    else Fork(t.l, t.node, t.val, Zeroed(t.r, v))
  }

  lemma {:induction false} ZeroedLinks(t: Shape, v: int, h: Memory, k: Memory)
    requires Lookup(t, v).Hit? && Distinct(t) && Down(t, h)
    requires SubAt(t, v).node in k && k[SubAt(t, v).node] == Fields(0, null, null, null)
    requires SameOn(NodeSet(t) - NodeSet(SubAt(t, v)), h, k)
    ensures Down(Zeroed(t, v), k) && Root(Zeroed(t, v)) == Root(t) && SubAt(t, v).node in NodeSet(Zeroed(t, v))
  {
    if v != t.val {
      var side, other := if v < t.val then t.l else t.r, if v < t.val then t.r else t.l;
      SubInside(side, v, h);
      ZeroedLinks(side, v, h, k);
      Frame(other, null, {}, h, k);
    }
  }

  /** Deleting a node that is its own parent loses its whole subtree: the node stays in the tree with value 0 and
      without children, so that the links do not spell the tree without it. */
  lemma DeleteLosesSubtree(t: Shape, own: set<Node>, v: int, h: Memory)
    requires IsTree(t, own, h) && Lookup(t, v).Hit? && Lookup(t, v).node in own
    ensures Deletable(t, v, h)
    ensures Down(Zeroed(t, v), Deleted(h, t, v)) && Root(Zeroed(t, v)) == Root(t)
    ensures !Down(Delete(t, v), Deleted(h, t, v))
  {
    var sub := SubAt(t, v);
    Aim(t, own, v, h);
    var k := Deleted(h, t, v);
    SubInside(t, v, h);
    MovedInside(h, sub, false);
    ZeroedLinks(t, v, h, k);
    DeleteNodes(t, v);
    if Down(Delete(t, v), k) {
      DownIsUnique(Zeroed(t, v), Delete(t, v), k);
      assert false;
    }
  }

  /** Inserting 1, 3 and 2 and then deleting 3 makes tree_reorder_move follow a null pointer; inserting 1, 2
      and 3 and then deleting 2 makes the node of 3 its own parent. */
  lemma DeleteWitnesses(a: Node, b: Node, c: Node)
    ensures var t: Shape := Insert(Insert(Insert(Leaf, a, 1), b, 3), c, 2);
            Bst(t) && Lookup(t, 3).Hit? && DeleteCrashes(t, 3)
    ensures var t: Shape := Insert(Insert(Insert(Leaf, a, 1), b, 2), c, 3);
            Bst(t) && Lookup(t, 2).Hit? && !DeleteCrashes(t, 2) && TangledAfter(t, {}, 2) == {c}
  {
    var one: Shape := Fork(Leaf, a, 1, Leaf);
    var t := Fork(Leaf, a, 1, Fork(Fork(Leaf, c, 2, Leaf), b, 3, Leaf));
    assert Insert(one, b, 3) == Fork(Leaf, a, 1, Fork(Leaf, b, 3, Leaf));
    assert Insert(Fork(Leaf, b, 3, Leaf), c, 2) == t.r;
    assert t == Insert(Insert(one, b, 3), c, 2);
    assert SubAt(t.r, 3) == t.r && ParentAt(t.r, a, 3) == a && !LeftAt(t.r, false, 3);
    InsertKeepsBst(one, b, 3);
    InsertKeepsBst(Insert(one, b, 3), c, 2);
    var u := Fork(Leaf, a, 1, Fork(Leaf, b, 2, Fork(Leaf, c, 3, Leaf)));
    assert Insert(one, b, 2) == Fork(Leaf, a, 1, Fork(Leaf, b, 2, Leaf));
    assert Insert(Fork(Leaf, b, 2, Leaf), c, 3) == u.r;
    assert u == Insert(Insert(one, b, 2), c, 3);
    assert SubAt(u.r, 2) == u.r && ParentAt(u.r, a, 2) == a && !LeftAt(u.r, false, 2);
    InsertKeepsBst(one, b, 2);
    InsertKeepsBst(Insert(one, b, 2), c, 3);
  }
}
