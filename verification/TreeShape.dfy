/** The binary search tree of src/tree_T.c as a value: what each operation makes of the tree, and the laws
    of those results. N stands for the node pointers. Equal values go to the right, so at every node
    the left subtree is smaller and the right subtree at least as large. */
module TreeShape {

  datatype Tree<N> = Leaf | Fork(l: Tree<N>, node: N, val: int, r: Tree<N>)

  datatype Hit<N> = Miss | Hit(node: N, val: int)

  datatype Strategy = First | Smallest | Largest

  function InOrder<N>(t: Tree<N>): (s: seq<int>) {
    match t
    case Leaf => []
    case Fork(l, _, v, r) => InOrder(l) + ([v] + InOrder(r))
  }

  ghost function NodeSet<N>(t: Tree<N>): (s: set<N>) {
    match t
    case Leaf => {}
    case Fork(l, n, _, r) => NodeSet(l) + {n} + NodeSet(r)
  }

  function Size<N>(t: Tree<N>): (n: nat)
    ensures n == |InOrder(t)|
  {
    match t
    case Leaf => 0
    case Fork(l, _, _, r) => Size(l) + 1 + Size(r)
  }

  /** No node occurs twice. */
  ghost predicate Distinct<N>(t: Tree<N>) {
    t.Fork? ==>
      && Distinct(t.l) && Distinct(t.r)
      && NodeSet(t.l) !! NodeSet(t.r)
      && t.node !in NodeSet(t.l) && t.node !in NodeSet(t.r)
  }

  predicate Below<N>(t: Tree<N>, b: int) {
    t.Fork? ==> t.val < b && Below(t.l, b) && Below(t.r, b)
  }

  predicate AtLeast<N>(t: Tree<N>, b: int) {
    t.Fork? ==> b <= t.val && AtLeast(t.l, b) && AtLeast(t.r, b)
  }

  predicate Bst<N>(t: Tree<N>) {
    t.Fork? ==> Below(t.l, t.val) && AtLeast(t.r, t.val) && Bst(t.l) && Bst(t.r)
  }

  lemma Members<N>(t: Tree<N>, x: int)
    ensures x in InOrder(t) <==> t.Fork? && (x in InOrder(t.l) || x == t.val || x in InOrder(t.r))
  {
  }

  lemma {:induction false} BelowIs<N>(t: Tree<N>, b: int)
    ensures Below(t, b) <==> forall x :: x in InOrder(t) ==> x < b
    ensures Below(t, b) ==> forall i :: 0 <= i < |InOrder(t)| ==> InOrder(t)[i] < b
  {
    if t.Fork? {
      BelowIs(t.l, b);
      BelowIs(t.r, b);
      forall x ensures x in InOrder(t) <==> x in InOrder(t.l) || x == t.val || x in InOrder(t.r) { Members(t, x); }
      assert t.val in InOrder(t);
      assert forall x :: x in InOrder(t.l) ==> x in InOrder(t);
      assert forall x :: x in InOrder(t.r) ==> x in InOrder(t);
    }
    assert forall i :: 0 <= i < |InOrder(t)| ==> InOrder(t)[i] in InOrder(t);
  }

  lemma {:induction false} AtLeastIs<N>(t: Tree<N>, b: int)
    ensures AtLeast(t, b) <==> forall x :: x in InOrder(t) ==> b <= x
    ensures AtLeast(t, b) ==> forall i :: 0 <= i < |InOrder(t)| ==> b <= InOrder(t)[i]
  {
    if t.Fork? {
      AtLeastIs(t.l, b);
      AtLeastIs(t.r, b);
      forall x ensures x in InOrder(t) <==> x in InOrder(t.l) || x == t.val || x in InOrder(t.r) { Members(t, x); }
      assert t.val in InOrder(t);
      assert forall x :: x in InOrder(t.l) ==> x in InOrder(t);
      assert forall x :: x in InOrder(t.r) ==> x in InOrder(t);
    }
    assert forall i :: 0 <= i < |InOrder(t)| ==> InOrder(t)[i] in InOrder(t);
  }

  predicate Sorted(s: seq<int>) {
    forall i, j :: 0 <= i < j < |s| ==> s[i] <= s[j]
  }

  /** The in-order sequence of a search tree is sorted. */
  lemma {:induction false} BstIsSorted<N>(t: Tree<N>)
    requires Bst(t)
    ensures Sorted(InOrder(t))
  {
    if t.Fork? {
      BstIsSorted(t.l);
      BstIsSorted(t.r);
      BelowIs(t.l, t.val);
      AtLeastIs(t.r, t.val);
    }
  }

  // ----- tree_insert

  function Insert<N>(t: Tree<N>, n: N, v: int): (r: Tree<N>) {
    match t
    case Leaf => Fork(Leaf, n, v, Leaf)
    case Fork(l, m, w, r) => if v < w then Fork(Insert(l, n, v), m, w, r) else Fork(l, m, w, Insert(r, n, v))
  }

  /** How many values of t are at most v: where v goes in the sorted sequence. */
  function Rank<N>(t: Tree<N>, v: int): (i: nat)
    ensures i <= Size(t)
  {
    match t
    case Leaf => 0
    case Fork(l, _, w, r) => if v < w then Rank(l, v) else Size(l) + 1 + Rank(r, v)
  }

  lemma {:induction false} InsertKeepsBounds<N>(t: Tree<N>, n: N, v: int, b: int)
    ensures Below(Insert(t, n, v), b) <==> Below(t, b) && v < b
    ensures AtLeast(Insert(t, n, v), b) <==> AtLeast(t, b) && b <= v
  {
    if t.Fork? {
      InsertKeepsBounds(t.l, n, v, b);
      InsertKeepsBounds(t.r, n, v, b);
    }
  }

  lemma {:induction false} InsertKeepsBst<N>(t: Tree<N>, n: N, v: int)
    requires Bst(t)
    ensures Bst(Insert(t, n, v))
  {
    if t.Fork? {
      InsertKeepsBounds(t.l, n, v, t.val);
      InsertKeepsBounds(t.r, n, v, t.val);
      if v < t.val { InsertKeepsBst(t.l, n, v); } else { InsertKeepsBst(t.r, n, v); }
    }
  }

  lemma {:induction false} RankSplits<N>(t: Tree<N>, v: int)
    requires Bst(t)
    ensures forall j :: 0 <= j < Rank(t, v) ==> InOrder(t)[j] <= v
    ensures forall j :: Rank(t, v) <= j < |InOrder(t)| ==> v < InOrder(t)[j]
  {
    if t.Fork? {
      BelowIs(t.l, t.val);
      AtLeastIs(t.r, t.val);
      RankSplits(t.l, v);
      RankSplits(t.r, v);
    }
  }

  lemma PutLeft(a: seq<int>, b: seq<int>, i: nat, v: int)
    requires i <= |a|
    ensures (a + b)[..i] + [v] + (a + b)[i..] == (a[..i] + [v] + a[i..]) + b
  {
  }

  lemma PutRight(a: seq<int>, b: seq<int>, i: nat, v: int)
    requires i <= |b|
    ensures (a + b)[..|a| + i] + [v] + (a + b)[|a| + i..] == a + (b[..i] + [v] + b[i..])
  {
  }

  /** Insertion keeps the order and puts the value behind exactly the values that are at most as large. */
  lemma {:induction false} InsertIsSortedInsert<N>(t: Tree<N>, n: N, v: int)
    requires Bst(t)
    ensures Bst(Insert(t, n, v))
    ensures InOrder(Insert(t, n, v)) == InOrder(t)[..Rank(t, v)] + [v] + InOrder(t)[Rank(t, v)..]
    ensures forall j :: 0 <= j < Rank(t, v) ==> InOrder(t)[j] <= v
    ensures forall j :: Rank(t, v) <= j < |InOrder(t)| ==> v < InOrder(t)[j]
  {
    InsertKeepsBst(t, n, v);
    RankSplits(t, v);
    InsertPlace(t, n, v);
  }

  lemma {:induction false} InsertPlace<N>(t: Tree<N>, n: N, v: int)
    ensures InOrder(Insert(t, n, v)) == InOrder(t)[..Rank(t, v)] + [v] + InOrder(t)[Rank(t, v)..]
  {
    if t.Fork? {
      var l, r, i := InOrder(t.l), InOrder(t.r), Rank(t, v);
      if v < t.val {
        InsertPlace(t.l, n, v);
        PutLeft(l, [t.val] + r, i, v);
      } else {
        InsertPlace(t.r, n, v);
        Regroup(l, t.val, r);
        Regroup(l, t.val, InOrder(Insert(t.r, n, v)));
        PutRight(l + [t.val], r, i - |l| - 1, v);
      }
    }
  }

  lemma Regroup(a: seq<int>, v: int, b: seq<int>)
    ensures a + ([v] + b) == (a + [v]) + b
  {
  }

  lemma {:induction false} InsertNodes<N>(t: Tree<N>, n: N, v: int)
    ensures NodeSet(Insert(t, n, v)) == NodeSet(t) + {n}
    ensures Distinct(t) && n !in NodeSet(t) ==> Distinct(Insert(t, n, v))
  {
    if t.Fork? {
      InsertNodes(t.l, n, v);
      InsertNodes(t.r, n, v);
    }
  }

  // ----- tree_lookup and tree_lookup_range

  function Lookup<N>(t: Tree<N>, v: int): (h: Hit<N>) {
    match t
    case Leaf => Miss
    case Fork(l, n, w, r) => if v == w then Hit(n, w) else if v < w then Lookup(l, v) else Lookup(r, v)
  }

  lemma {:induction false} LookupFindsIff<N>(t: Tree<N>, v: int)
    requires Bst(t)
    ensures Lookup(t, v).Hit? <==> v in InOrder(t)
    ensures Lookup(t, v).Hit? ==> Lookup(t, v).val == v && Lookup(t, v).node in NodeSet(t)
  {
    if t.Fork? {
      LookupFindsIff(t.l, v);
      LookupFindsIff(t.r, v);
      BelowIs(t.l, t.val);
      AtLeastIs(t.r, t.val);
      assert v in InOrder(t) <==> v in InOrder(t.l) || v == t.val || v in InOrder(t.r);
    }
  }

  /** The search of tree_lookup_range below t when best is the target so far. */
  function Range<N>(t: Tree<N>, lo: int, hi: int, strategy: Strategy, best: Hit<N>): (h: Hit<N>) {
    match t
    case Leaf => best
    case Fork(l, n, v, r) =>
      if lo > v then Range(r, lo, hi, strategy, best)
      else if hi < v then Range(l, lo, hi, strategy, best)
      else match strategy
        case First => Hit(n, v)
        case Smallest => Range(l, lo, hi, strategy, Hit(n, v))
        case Largest => Range(r, lo, hi, strategy, Hit(n, v))
  }

  ghost predicate InRange(s: seq<int>, lo: int, hi: int, v: int) {
    v in s && lo <= v <= hi
  }

  /** h is a right answer for the values of s. */
  ghost predicate Best<N>(s: seq<int>, lo: int, hi: int, strategy: Strategy, h: Hit<N>) {
    && (h.Miss? ==> forall v :: !InRange(s, lo, hi, v))
    && (h.Hit? ==> InRange(s, lo, hi, h.val))
    && (h.Hit? && strategy.Smallest? ==> forall v :: InRange(s, lo, hi, v) ==> h.val <= v)
    && (h.Hit? && strategy.Largest? ==> forall v :: InRange(s, lo, hi, v) ==> v <= h.val)
  }

  /** A search below t either finds something there or keeps what it had. */
  lemma {:induction false} RangeBelow<N>(t: Tree<N>, lo: int, hi: int, strategy: Strategy, best: Hit<N>)
    requires Bst(t)
    ensures var h := Range(t, lo, hi, strategy, Miss);
            && Best(InOrder(t), lo, hi, strategy, h)
            && Range(t, lo, hi, strategy, best) == (if h.Hit? then h else best)
            && (h.Hit? ==> h.node in NodeSet(t))
  {
    if t.Fork? {
      BelowIs(t.l, t.val);
      AtLeastIs(t.r, t.val);
      forall v
        ensures InRange(InOrder(t), lo, hi, v)
                <==> || InRange(InOrder(t.l), lo, hi, v)
                     || (v == t.val && lo <= v <= hi)
                     || InRange(InOrder(t.r), lo, hi, v)
      {
        Members(t, v);
      }
      RangeBelow(t.l, lo, hi, strategy, best);
      RangeBelow(t.r, lo, hi, strategy, best);
      RangeBelow(t.l, lo, hi, strategy, Hit(t.node, t.val));
      RangeBelow(t.r, lo, hi, strategy, Hit(t.node, t.val));
    }
  }

  /** tree_lookup_range finds nothing iff no value is in range; otherwise a value in range, the smallest
      or the largest as the strategy asks. */
  lemma RangeIsBest<N>(t: Tree<N>, lo: int, hi: int, strategy: Strategy)
    requires Bst(t)
    ensures Best(InOrder(t), lo, hi, strategy, Range(t, lo, hi, strategy, Miss))
  {
    RangeBelow(t, lo, hi, strategy, Miss);
  }

  /** n is a node in range with none in range above it. */
  ghost predicate Topmost<N>(t: Tree<N>, lo: int, hi: int, n: N) {
    t.Fork? && if lo <= t.val <= hi then t.node == n else Topmost(t.l, lo, hi, n) || Topmost(t.r, lo, hi, n)
  }

  lemma {:induction false} TopmostInRange<N>(t: Tree<N>, lo: int, hi: int, n: N)
    requires Topmost(t, lo, hi, n)
    ensures n in NodeSet(t) && exists v :: InRange(InOrder(t), lo, hi, v)
  {
    Members(t, t.val);
    if !(lo <= t.val <= hi) {
      var side := if Topmost(t.l, lo, hi, n) then t.l else t.r;
      TopmostInRange(side, lo, hi, n);
      var v :| InRange(InOrder(side), lo, hi, v);
      Members(t, v);
      assert InRange(InOrder(t), lo, hi, v);
    } else {
      assert InRange(InOrder(t), lo, hi, t.val);
    }
  }

  /** With the strategy that stops at the first hit the answer is the one node in range that has none in range above
      it. */
  lemma {:induction false} FirstIsTopmost<N>(t: Tree<N>, lo: int, hi: int, n: N)
    requires Bst(t)
    ensures Topmost(t, lo, hi, n)
            <==> Range(t, lo, hi, First, Miss).Hit? && Range(t, lo, hi, First, Miss).node == n
  {
    if t.Fork? && !(lo <= t.val <= hi) {
      FirstIsTopmost(t.l, lo, hi, n);
      FirstIsTopmost(t.r, lo, hi, n);
      var other := if t.val < lo then t.l else t.r;
      BelowIs(t.l, t.val);
      AtLeastIs(t.r, t.val);
      if Topmost(other, lo, hi, n) {
        TopmostInRange(other, lo, hi, n);
        assert false;
      }
    }
  }

  // ----- tree_delete

  /** The left subtree with sub hung under its maximum, by tree_reorder_rol. */
  function Graft<N>(l: Tree<N>, sub: Tree<N>): (r: Tree<N>)
    requires l.Fork?
    ensures r.Fork?
  {
    Fork(l.l, l.node, l.val, if l.r.Leaf? then sub else Graft(l.r, sub))
  }

  /** What takes the place of a node with these two subtrees. */
  function Merge<N>(l: Tree<N>, r: Tree<N>): (m: Tree<N>) {
    if l.Leaf? then r else if r.Leaf? then l
    else Fork(Graft(l, r.l), r.node, r.val, r.r)
  }

  function Delete<N>(t: Tree<N>, v: int): (r: Tree<N>) {
    match t
    case Leaf => Leaf
    case Fork(l, n, w, r) =>
      if v == w then Merge(l, r)
      else if v < w then Fork(Delete(l, v), n, w, r)
      else Fork(l, n, w, Delete(r, v))
  }

  lemma {:induction false} GraftIs<N>(l: Tree<N>, sub: Tree<N>, b: int)
    requires l.Fork?
    ensures InOrder(Graft(l, sub)) == InOrder(l) + InOrder(sub)
    ensures Below(Graft(l, sub), b) <==> Below(l, b) && Below(sub, b)
    ensures AtLeast(Graft(l, sub), b) <==> AtLeast(l, b) && AtLeast(sub, b)
    ensures NodeSet(Graft(l, sub)) == NodeSet(l) + NodeSet(sub)
  {
    if l.r.Fork? {
      GraftIs(l.r, sub, b);
    }
  }

  /** Grafting values that are all at least some bound above l keeps the order. */
  lemma {:induction false} GraftKeepsBst<N>(l: Tree<N>, sub: Tree<N>, b: int)
    requires l.Fork? && Bst(l) && Bst(sub) && Below(l, b) && AtLeast(sub, b)
    ensures Bst(Graft(l, sub))
  {
    AtLeastWeaken(sub, b, l.val);
    if l.r.Fork? {
      GraftKeepsBst(l.r, sub, b);
      GraftIs(l.r, sub, l.val);
    }
  }

  lemma {:induction false} AtLeastWeaken<N>(t: Tree<N>, b: int, c: int)
    requires AtLeast(t, b) && c <= b
    ensures AtLeast(t, c)
  {
    if t.Fork? {
      AtLeastWeaken(t.l, b, c);
      AtLeastWeaken(t.r, b, c);
    }
  }

  lemma {:induction false} BelowWeaken<N>(t: Tree<N>, b: int, c: int)
    requires Below(t, b) && b <= c
    ensures Below(t, c)
  {
    if t.Fork? {
      BelowWeaken(t.l, b, c);
      BelowWeaken(t.r, b, c);
    }
  }

  lemma MergeIs<N>(l: Tree<N>, r: Tree<N>, v: int, b: int)
    requires Bst(l) && Bst(r) && Below(l, v) && AtLeast(r, v)
    ensures Bst(Merge(l, r)) && InOrder(Merge(l, r)) == InOrder(l) + InOrder(r)
    ensures Below(Merge(l, r), b) <==> Below(l, b) && Below(r, b)
    ensures AtLeast(Merge(l, r), b) <==> AtLeast(l, b) && AtLeast(r, b)
  {
    if l.Fork? && r.Fork? {
      GraftIs(l, r.l, b);
      GraftIs(l, r.l, r.val);
      GraftKeepsBst(l, r.l, v);
      BelowWeaken(l, v, r.val);
    }
  }

  /** Where the deleted occurrence stands in the in-order sequence. */
  function DeletedAt<N>(t: Tree<N>, v: int): (i: nat)
    ensures i <= Size(t)
  {
    match t
    case Leaf => 0
    case Fork(l, _, w, r) =>
      if v == w then Size(l) else if v < w then DeletedAt(l, v) else Size(l) + 1 + DeletedAt(r, v)
  }

  lemma {:induction false} DeleteKeepsBounds<N>(t: Tree<N>, v: int, b: int)
    requires Bst(t)
    ensures Below(t, b) ==> Below(Delete(t, v), b)
    ensures AtLeast(t, b) ==> AtLeast(Delete(t, v), b)
  {
    if t.Fork? {
      if v == t.val {
        MergeIs(t.l, t.r, t.val, b);
      } else {
        DeleteKeepsBounds(t.l, v, b);
        DeleteKeepsBounds(t.r, v, b);
      }
    }
  }

  lemma {:induction false} DeleteKeepsBst<N>(t: Tree<N>, v: int)
    requires Bst(t)
    ensures Bst(Delete(t, v))
  {
    if t.Fork? {
      if v == t.val {
        MergeIs(t.l, t.r, t.val, 0);
      } else if v < t.val {
        DeleteKeepsBst(t.l, v);
        DeleteKeepsBounds(t.l, v, t.val);
      } else {
        DeleteKeepsBst(t.r, v);
        DeleteKeepsBounds(t.r, v, t.val);
      }
    }
  }

  /** s without its element i. */
  function Cut(s: seq<int>, i: nat): (r: seq<int>)
    requires i < |s|
  {
    s[..i] + s[i + 1..]
  }

  lemma CutLeft(a: seq<int>, b: seq<int>, i: nat)
    requires i < |a|
    ensures Cut(a + b, i) == Cut(a, i) + b
  {
  }

  lemma CutRight(a: seq<int>, v: int, b: seq<int>, i: nat)
    requires i < |b|
    ensures Cut(a + ([v] + b), |a| + 1 + i) == a + ([v] + Cut(b, i))
  {
  }

  lemma CutHead(a: seq<int>, v: int, b: seq<int>)
    ensures Cut(a + ([v] + b), |a|) == a + b
  {
  }

  lemma MergeInOrder<N>(l: Tree<N>, r: Tree<N>)
    ensures InOrder(Merge(l, r)) == InOrder(l) + InOrder(r)
  {
    if l.Fork? && r.Fork? {
      GraftIs(l, r.l, 0);
    }
  }

  /** Deleting a present value keeps the order and removes exactly one occurrence from the in-order
      sequence, whatever the shape around the node. */
  lemma DeleteRemovesOne<N>(t: Tree<N>, v: int)
    requires Bst(t) && Lookup(t, v).Hit?
    ensures Bst(Delete(t, v))
    ensures var s, i := InOrder(t), DeletedAt(t, v);
            i < |s| && s[i] == v && InOrder(Delete(t, v)) == Cut(s, i)
  {
    DeleteKeepsBst(t, v);
    DeletedAtHits(t, v);
    DeletePlace(t, v);
  }

  lemma {:induction false} DeletedAtHits<N>(t: Tree<N>, v: int)
    requires Lookup(t, v).Hit?
    ensures DeletedAt(t, v) < |InOrder(t)| && InOrder(t)[DeletedAt(t, v)] == v
  {
    if v < t.val {
      DeletedAtHits(t.l, v);
    } else if v > t.val {
      DeletedAtHits(t.r, v);
    }
  }

  lemma {:induction false} DeletePlace<N>(t: Tree<N>, v: int)
    requires Lookup(t, v).Hit?
    ensures DeletedAt(t, v) < |InOrder(t)| && InOrder(Delete(t, v)) == Cut(InOrder(t), DeletedAt(t, v))
  {
    var l, r := InOrder(t.l), InOrder(t.r);
    if v == t.val {
      MergeInOrder(t.l, t.r);
      CutHead(l, t.val, r);
    } else if v < t.val {
      DeletePlace(t.l, v);
      CutLeft(l, [t.val] + r, DeletedAt(t.l, v));
    } else {
      DeletePlace(t.r, v);
      CutRight(l, t.val, r, DeletedAt(t.r, v));
    }
  }

  lemma {:induction false} DeleteNodes<N>(t: Tree<N>, v: int)
    requires Distinct(t)
    ensures Distinct(Delete(t, v)) && NodeSet(Delete(t, v)) <= NodeSet(t)
    ensures Lookup(t, v).Hit? ==> NodeSet(Delete(t, v)) == NodeSet(t) - {Lookup(t, v).node}
  {
    if t.Fork? {
      DeleteNodes(t.l, v);
      DeleteNodes(t.r, v);
      LookupInside(t.l, v);
      LookupInside(t.r, v);
      if v == t.val { MergeNodes(t.l, t.r); }
    }
  }

  lemma {:induction false} LookupInside<N>(t: Tree<N>, v: int)
    ensures Lookup(t, v).Hit? ==> Lookup(t, v).node in NodeSet(t)
  {
    if t.Fork? {
      LookupInside(t.l, v);
      LookupInside(t.r, v);
    }
  }

  lemma {:induction false} GraftDistinct<N>(l: Tree<N>, sub: Tree<N>)
    requires l.Fork? && Distinct(l) && Distinct(sub) && NodeSet(l) !! NodeSet(sub)
    ensures Distinct(Graft(l, sub))
  {
    if l.r.Fork? {
      GraftDistinct(l.r, sub);
      GraftIs(l.r, sub, 0);
    }
  }

  lemma MergeNodes<N>(l: Tree<N>, r: Tree<N>)
    requires Distinct(l) && Distinct(r) && NodeSet(l) !! NodeSet(r)
    ensures Distinct(Merge(l, r)) && NodeSet(Merge(l, r)) == NodeSet(l) + NodeSet(r)
  {
    if l.Fork? && r.Fork? {
      GraftDistinct(l, r.l);
      GraftIs(l, r.l, 0);
    }
  }

  // ----- tree_ordered

  /** tree_node_min: the leftmost node, or nothing when one of its comparisons finds a fault. */
  function MinOf<N>(t: Tree<N>): (h: Hit<N>) {
    if t.Leaf? then Miss else
    var l, r := MinOf(t.l), MinOf(t.r);
    if t.l.Fork? && (l.Miss? || l.val >= t.val) then Miss
    else if t.r.Fork? && (r.Miss? || t.val > r.val) then Miss
    else if l.Hit? then l else Hit(t.node, t.val)
  }

  /** tree_node_max */
  function MaxOf<N>(t: Tree<N>): (h: Hit<N>) {
    if t.Leaf? then Miss else
    var l, r := MaxOf(t.l), MaxOf(t.r);
    if t.l.Fork? && (l.Miss? || l.val >= t.val) then Miss
    else if t.r.Fork? && (r.Miss? || t.val > r.val) then Miss
    else if r.Hit? then r else Hit(t.node, t.val)
  }

  /** A value tree_node_min returns is a true minimum. */
  lemma {:induction false} MinIsLeast<N>(t: Tree<N>)
    requires MinOf(t).Hit?
    ensures MinOf(t).val in InOrder(t) && AtLeast(t, MinOf(t).val)
  {
    if t.l.Fork? {
      MinIsLeast(t.l);
      AtLeastWeaken(t.l, MinOf(t.l).val, MinOf(t).val);
    }
    if t.r.Fork? {
      MinIsLeast(t.r);
      AtLeastWeaken(t.r, MinOf(t.r).val, MinOf(t).val);
    }
  }

  lemma {:induction false} MaxIsGreatest<N>(t: Tree<N>)
    requires MaxOf(t).Hit?
    ensures MaxOf(t).val in InOrder(t) && Below(t, MaxOf(t).val + 1)
  {
    if t.l.Fork? {
      MaxIsGreatest(t.l);
      BelowWeaken(t.l, MaxOf(t.l).val + 1, MaxOf(t).val + 1);
    }
    if t.r.Fork? {
      MaxIsGreatest(t.r);
      BelowWeaken(t.r, MaxOf(t.r).val + 1, MaxOf(t).val + 1);
    }
  }

  lemma {:induction false} BstHasExtremes<N>(t: Tree<N>)
    requires Bst(t) && t.Fork?
    ensures MinOf(t).Hit? && MaxOf(t).Hit?
  {
    if t.l.Fork? {
      BstHasExtremes(t.l);
      MinIsLeast(t.l);
      MaxIsGreatest(t.l);
      BelowIs(t.l, t.val);
    }
    if t.r.Fork? {
      BstHasExtremes(t.r);
      MinIsLeast(t.r);
      MaxIsGreatest(t.r);
      AtLeastIs(t.r, t.val);
    }
  }

  /** The two checks together are exact: tree_ordered accepts a non-empty tree if and only if it is a
      search tree. It rejects the empty tree, which is one. */
  lemma {:induction false} OrderedIffBst<N>(t: Tree<N>)
    ensures MinOf(t).Hit? && MaxOf(t).Hit? <==> t.Fork? && Bst(t)
  {
    if t.Fork? && Bst(t) {
      BstHasExtremes(t);
    }
    if MinOf(t).Hit? && MaxOf(t).Hit? {
      OrderedIffBst(t.l);
      OrderedIffBst(t.r);
      if t.l.Fork? {
        MaxIsGreatest(t.l);
        BelowWeaken(t.l, MaxOf(t.l).val + 1, t.val);
      }
      if t.r.Fork? {
        MinIsLeast(t.r);
        AtLeastWeaken(t.r, MinOf(t.r).val, t.val);
      }
    }
  }

  /** Neither half alone is enough: each accepts a tree the other rejects. */
  lemma OneCheckIsNotEnough<N>(a: N, b: N, c: N)
    ensures var t := Fork(Fork(Leaf, a, 1, Fork(Leaf, b, 5, Leaf)), c, 3, Leaf);
            MinOf(t).Hit? && MaxOf(t).Miss? && !Bst(t)
    ensures var t := Fork(Leaf, a, 3, Fork(Fork(Leaf, b, 1, Leaf), c, 5, Leaf));
            MaxOf(t).Hit? && MinOf(t).Miss? && !Bst(t)
  {
    var t := Fork(Fork(Leaf, a, 1, Fork(Leaf, b, 5, Leaf)), c, 3, Leaf);
    assert MinOf(t.l.r) == Hit(b, 5) && MinOf(t.l) == Hit(a, 1);
    assert MaxOf(t.l.r) == Hit(b, 5) && MaxOf(t.l) == Hit(b, 5);
    var u := Fork(Leaf, a, 3, Fork(Fork(Leaf, b, 1, Leaf), c, 5, Leaf));
    assert MinOf(u.r.l) == Hit(b, 1) && MinOf(u.r) == Hit(b, 1);
    assert MaxOf(u.r.l) == Hit(b, 1) && MaxOf(u.r) == Hit(c, 5);
    assert Below(t.l.r, 3) == false && Below(t.l, 3) == false;
    assert AtLeast(u.r.l, 3) == false && AtLeast(u.r, 3) == false;
  }
}
