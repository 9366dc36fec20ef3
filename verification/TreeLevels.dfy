/** Level order: what a queue of subtrees yields when each step takes the first one and queues its children,
    and why that is the tree level by level. */
module TreeLevels {
  import opened TreeShape

  ghost predicate Forest<N>(ts: seq<Tree<N>>) {
    forall i :: 0 <= i < |ts| ==> ts[i].Fork?
  }

  function Total<N>(ts: seq<Tree<N>>): (n: nat) {
    if ts == [] then 0 else Size(ts[0]) + Total(ts[1..])
  }

  /** The children that are queued behind a node, left before right. */
  function Kids<N>(t: Tree<N>): (ks: seq<Tree<N>>)
    requires t.Fork?
  {
    (if t.l.Fork? then [t.l] else []) + (if t.r.Fork? then [t.r] else [])
  }

  lemma {:induction false} TotalAppend<N>(a: seq<Tree<N>>, b: seq<Tree<N>>)
    ensures Total(a + b) == Total(a) + Total(b)
  {
    if a == [] {
      assert a + b == b;
    } else {
      assert (a + b)[1..] == a[1..] + b;
      TotalAppend(a[1..], b);
    }
  }

  lemma KidsTotal<N>(t: Tree<N>, rest: seq<Tree<N>>)
    requires t.Fork?
    ensures Total(rest + Kids(t)) < Total([t] + rest)
    ensures Total(rest + Kids(t)) + 1 == Total([t] + rest)
  {
    TotalAppend(rest, Kids(t));
    assert ([t] + rest)[1..] == rest;
    var l: seq<Tree<N>>, r: seq<Tree<N>> := if t.l.Fork? then [t.l] else [], if t.r.Fork? then [t.r] else [];
    TotalAppend(l, r);
    assert Total(l) == Size(t.l) && Total(r) == Size(t.r);
  }

  lemma {:induction false} ForestAtMostTotal<N>(ts: seq<Tree<N>>)
    requires Forest(ts)
    ensures |ts| <= Total(ts)
  {
    if ts != [] { ForestAtMostTotal(ts[1..]); }
  }

  /** The nodes in the order in which the queue yields them. */
  ghost function Bfs<N>(q: seq<Tree<N>>): (ns: seq<N>)
    requires Forest(q)
    decreases Total(q)
  {
    if q == [] then [] else
    assert q == [q[0]] + q[1..];
    KidsTotal(q[0], q[1..]);
    [q[0].node] + Bfs(q[1..] + Kids(q[0]))
  }

  /** The nodes of t at depth d, left to right. */
  function Level<N>(t: Tree<N>, d: nat): (ns: seq<N>) {
    if t.Leaf? then [] else if d == 0 then [t.node] else Level(t.l, d - 1) + Level(t.r, d - 1)
  }

  function Height<N>(t: Tree<N>): (h: nat) {
    if t.Leaf? then 0 else 1 + if Height(t.l) < Height(t.r) then Height(t.r) else Height(t.l)
  }

  /** All levels from depth d on, one after another. */
  function LevelsFrom<N>(t: Tree<N>, d: nat): (ns: seq<N>)
    decreases Height(t) - d
  {
    if d >= Height(t) then [] else Level(t, d) + LevelsFrom(t, d + 1)
  }

  function LevelOrder<N>(t: Tree<N>): (ns: seq<N>) {
    LevelsFrom(t, 0)
  }

  // ----- a queue works level by level

  function Heads<N>(ts: seq<Tree<N>>): (ns: seq<N>)
    requires Forest(ts)
  {
    if ts == [] then [] else [ts[0].node] + Heads(ts[1..])
  }

  function AllKids<N>(ts: seq<Tree<N>>): (ks: seq<Tree<N>>)
    requires Forest(ts)
    ensures Forest(ks)
  {
    if ts == [] then [] else Kids(ts[0]) + AllKids(ts[1..])
  }

  lemma BfsHead<N>(q: seq<Tree<N>>, rest: seq<Tree<N>>)
    requires Forest(q) && q != [] && rest == q[1..] + Kids(q[0])
    ensures Bfs(q) == [q[0].node] + Bfs(rest)
  {
  }

  lemma Chain<X>(a: seq<X>, b: seq<X>, c: seq<X>)
    ensures a + b + c == a + (b + c)
  {
  }

  lemma RestIs<X>(a: seq<X>, b: seq<X>, c: seq<X>)
    requires a != []
    ensures a[1..] + (b + c) == (a + b)[1..] + c && (a + b)[0] == a[0]
  {
    assert (a + b)[1..] == a[1..] + b;
    Chain(a[1..], b, c);
  }

  lemma BfsStep<N>(a: seq<Tree<N>>, b: seq<Tree<N>>)
    requires Forest(a) && Forest(b) && a != []
    ensures Bfs(a + b) == [a[0].node] + Bfs(a[1..] + (b + Kids(a[0])))
  {
    RestIs(a, b, Kids(a[0]));
    BfsHead(a + b, a[1..] + (b + Kids(a[0])));
  }

  /** Working off the rest of one level a queues exactly the next one behind b. */
  lemma {:induction false} BfsLevel<N>(a: seq<Tree<N>>, b: seq<Tree<N>>)
    requires Forest(a) && Forest(b)
    ensures Bfs(a + b) == Heads(a) + Bfs(b + AllKids(a))
    decreases |a|
  {
    if a == [] {
      assert a + b == b && b + AllKids(a) == b;
    } else {
      BfsStep(a, b);
      BfsLevel(a[1..], b + Kids(a[0]));
      Chain(b, Kids(a[0]), AllKids(a[1..]));
      Chain([a[0].node], Heads(a[1..]), Bfs(b + AllKids(a)));
    }
  }

  /** Depth d of a whole forest. */
  function ForestLevel<N>(ts: seq<Tree<N>>, d: nat): (ns: seq<N>) {
    if ts == [] then [] else Level(ts[0], d) + ForestLevel(ts[1..], d)
  }

  lemma {:induction false} ForestLevelAppend<N>(a: seq<Tree<N>>, b: seq<Tree<N>>, d: nat)
    ensures ForestLevel(a + b, d) == ForestLevel(a, d) + ForestLevel(b, d)
  {
    if a == [] {
      assert a + b == b;
    } else {
      assert (a + b)[1..] == a[1..] + b;
      ForestLevelAppend(a[1..], b, d);
    }
  }

  lemma {:induction false} LevelBelow<N>(ts: seq<Tree<N>>, d: nat)
    requires Forest(ts)
    ensures ForestLevel(ts, 0) == Heads(ts)
    ensures ForestLevel(ts, d + 1) == ForestLevel(AllKids(ts), d)
  {
    if ts != [] {
      LevelBelow(ts[1..], d);
      ForestLevelAppend(Kids(ts[0]), AllKids(ts[1..]), d);
      KidsLevel(ts[0], d);
    }
  }

  lemma KidsLevel<N>(t: Tree<N>, d: nat)
    requires t.Fork?
    ensures ForestLevel(Kids(t), d) == Level(t, d + 1)
  {
    var l: seq<Tree<N>>, r: seq<Tree<N>> := if t.l.Fork? then [t.l] else [], if t.r.Fork? then [t.r] else [];
    ForestLevelAppend(l, r, d);
    assert ForestLevel(l, d) == Level(t.l, d) by { if t.l.Fork? { assert [t.l][1..] == []; } }
    assert ForestLevel(r, d) == Level(t.r, d) by { if t.r.Fork? { assert [t.r][1..] == []; } }
  }

  /** Depths d up to d + n of a forest. */
  function ForestLevels<N>(ts: seq<Tree<N>>, d: nat, n: nat): (ns: seq<N>)
    decreases n
  {
    if n == 0 then [] else ForestLevel(ts, d) + ForestLevels(ts, d + 1, n - 1)
  }

  lemma {:induction false} LevelsBelow<N>(ts: seq<Tree<N>>, d: nat, n: nat)
    requires Forest(ts)
    ensures ForestLevels(ts, d + 1, n) == ForestLevels(AllKids(ts), d, n)
    decreases n
  {
    if n > 0 {
      LevelBelow(ts, d);
      LevelsBelow(ts, d + 1, n - 1);
    }
  }

  ghost predicate NoTaller<N>(ts: seq<Tree<N>>, h: nat) {
    forall i :: 0 <= i < |ts| ==> Height(ts[i]) <= h
  }

  lemma {:induction false} KidsShorter<N>(ts: seq<Tree<N>>, h: nat)
    requires Forest(ts) && NoTaller(ts, h + 1)
    ensures NoTaller(AllKids(ts), h)
  {
    if ts != [] {
      KidsShorter(ts[1..], h);
    }
  }

  lemma OneLevel<N>(ts: seq<Tree<N>>)
    requires Forest(ts)
    ensures Bfs(ts) == ForestLevel(ts, 0) + Bfs(AllKids(ts))
  {
    BfsLevel(ts, []);
    LevelBelow(ts, 0);
    assert ts + [] == ts && [] + AllKids(ts) == AllKids(ts);
  }

  lemma {:induction false} NoLevels<N>(d: nat, n: nat)
    ensures ForestLevels<N>([], d, n) == []
    decreases n
  {
    if n > 0 { NoLevels<N>(d + 1, n - 1); }
  }

  lemma LevelsSplit<N>(ts: seq<Tree<N>>, n: nat)
    requires n > 0
    ensures ForestLevels(ts, 0, n) == ForestLevel(ts, 0) + ForestLevels(ts, 1, n - 1)
  {
  }

  lemma SomeHeight<N>(ts: seq<Tree<N>>, h: nat)
    requires Forest(ts) && NoTaller(ts, h) && ts != []
    ensures h > 0
  {
    assert 1 <= Height(ts[0]) <= h;
  }

  lemma NextLevels<N>(ts: seq<Tree<N>>, h: nat)
    requires Forest(ts) && NoTaller(ts, h) && ts != []
    ensures h > 0 && NoTaller(AllKids(ts), h - 1)
    ensures ForestLevels(ts, 0, h) == ForestLevel(ts, 0) + ForestLevels(AllKids(ts), 0, h - 1)
  {
    SomeHeight(ts, h);
    LevelsSplit(ts, h);
    LevelsBelow(ts, 0, h - 1);
    KidsShorter(ts, h - 1);
  }

  /** The queue yields a forest level by level. */
  lemma {:induction false} BfsIsLevels<N>(ts: seq<Tree<N>>, h: nat)
    requires Forest(ts) && NoTaller(ts, h)
    ensures Bfs(ts) == ForestLevels(ts, 0, h)
    decreases h
  {
    if ts == [] {
      NoLevels<N>(0, h);
    } else {
      NextLevels(ts, h);
      OneLevel(ts);
      BfsIsLevels(AllKids(ts), h - 1);
    }
  }

  lemma {:induction false} OneTreeLevels<N>(t: Tree<N>, d: nat)
    requires d <= Height(t)
    ensures ForestLevels([t], d, Height(t) - d) == LevelsFrom(t, d)
    decreases Height(t) - d
  {
    if d < Height(t) {
      OneTreeLevels(t, d + 1);
      assert [t][1..] == [];
      assert ForestLevel([t], d) == Level(t, d) + [] == Level(t, d);
    }
  }

  /** Breadth-first search from the root is level order. */
  lemma BfsIsLevelOrder<N>(t: Tree<N>)
    requires t.Fork?
    ensures Bfs([t]) == LevelOrder(t)
  {
    BfsIsLevels([t], Height(t));
    OneTreeLevels(t, 0);
  }

  /** The queue yields the nodes of its subtrees and no others, as many in all as there are. */
  lemma {:induction false} BfsNodes<N>(q: seq<Tree<N>>)
    requires Forest(q)
    ensures |Bfs(q)| == Total(q)
    ensures forall n :: n in Bfs(q) <==> exists i :: 0 <= i < |q| && n in NodeSet(q[i])
    decreases Total(q)
  {
    if q != [] {
      var rest := q[1..] + Kids(q[0]);
      assert q == [q[0]] + q[1..];
      KidsTotal(q[0], q[1..]);
      BfsNodes(rest);
      forall n
        ensures n in Bfs(q) <==> exists i :: 0 <= i < |q| && n in NodeSet(q[i])
      {
        if n in Bfs(rest) {
          var i :| 0 <= i < |rest| && n in NodeSet(rest[i]);
          if i < |q| - 1 { assert rest[i] == q[i + 1]; } else { assert n in NodeSet(q[0]); }
        }
        if i :| 0 <= i < |q| && n in NodeSet(q[i]) {
          if i > 0 { assert rest[i - 1] == q[i]; }
          else if n in NodeSet(q[0].l) { assert rest[|q| - 1] == q[0].l; }
          else if n in NodeSet(q[0].r) { assert rest[|rest| - 1] == q[0].r; }
        }
      }
    }
  }

  /** No node occurs twice in a forest. */
  ghost predicate Disjoint<N>(q: seq<Tree<N>>) {
    && (forall i :: 0 <= i < |q| ==> Distinct(q[i]))
    && (forall i, j :: 0 <= i < j < |q| ==> NodeSet(q[i]) !! NodeSet(q[j]))
  }

  lemma KidsDisjoint<N>(q: seq<Tree<N>>)
    requires Forest(q) && q != [] && Disjoint(q)
    ensures var rest := q[1..] + Kids(q[0]);
            Disjoint(rest) && forall i :: 0 <= i < |rest| ==> q[0].node !in NodeSet(rest[i])
  {
    var rest, n := q[1..] + Kids(q[0]), |q| - 1;
    forall i | 0 <= i < |rest|
      ensures i < n ==> rest[i] == q[i + 1]
      ensures i >= n ==> rest[i] in Kids(q[0]) && NodeSet(rest[i]) <= NodeSet(q[0])
    {
    }
  }

  /** Every node is yielded at most once. */
  lemma {:induction false} BfsOnce<N>(q: seq<Tree<N>>)
    requires Forest(q) && Disjoint(q)
    ensures forall i, j :: 0 <= i < j < |Bfs(q)| ==> Bfs(q)[i] != Bfs(q)[j]
    decreases Total(q)
  {
    if q != [] {
      var rest := q[1..] + Kids(q[0]);
      assert q == [q[0]] + q[1..];
      KidsTotal(q[0], q[1..]);
      KidsDisjoint(q);
      BfsOnce(rest);
      BfsNodes(rest);
      assert q[0].node !in Bfs(rest);
      assert forall i :: 0 <= i < |Bfs(rest)| ==> Bfs(rest)[i] in Bfs(rest);
    }
  }

  /** Level order lists every node of a tree exactly once. */
  lemma LevelOrderIsEachOnce<N>(t: Tree<N>)
    requires Distinct(t)
    ensures forall n :: n in LevelOrder(t) <==> n in NodeSet(t)
    ensures forall i, j :: 0 <= i < j < |LevelOrder(t)| ==> LevelOrder(t)[i] != LevelOrder(t)[j]
  {
    if t.Fork? {
      BfsIsLevelOrder(t);
      BfsNodes([t]);
      BfsOnce([t]);
      assert [t][0] == t;
    }
  }

  // ----- a queue of limited size

  /** What is queued after one step. When the second of two children does not fit, it is dropped. */
  function Queued<N>(q: seq<Tree<N>>, cap: nat): (rest: seq<Tree<N>>)
    requires q != [] && q[0].Fork?
  {
    var all := q[1..] + Kids(q[0]);
    if |all| <= cap then all else all[..cap]
  }

  /** The most subtrees that are ever queued when none is dropped. */
  ghost function Peak<N>(q: seq<Tree<N>>): (n: nat)
    requires Forest(q)
    decreases Total(q)
  {
    if q == [] then 0 else
    assert q == [q[0]] + q[1..];
    KidsTotal(q[0], q[1..]);
    var later := Peak(q[1..] + Kids(q[0]));
    if |q| < later then later else |q|
  }

  /** The nodes handed out until the first null, which comes when the queue is empty or a child does not fit. */
  ghost function Yield<N>(q: seq<Tree<N>>, cap: nat): (ns: seq<N>)
    requires Forest(q)
    decreases Total(q)
  {
    if q == [] || |q| - 1 + |Kids(q[0])| > cap then [] else
    assert q == [q[0]] + q[1..];
    KidsTotal(q[0], q[1..]);
    [q[0].node] + Yield(q[1..] + Kids(q[0]), cap)
  }

  lemma YieldStep<N>(q: seq<Tree<N>>, cap: nat)
    requires Forest(q) && q != []
    ensures Forest(Queued(q, cap))
    ensures Yield(q, cap)
         == if |q| - 1 + |Kids(q[0])| <= cap then [q[0].node] + Yield(Queued(q, cap), cap) else []
  {
  }

  /** All nodes are handed out if and only if nothing ever has to be dropped. */
  lemma {:induction false} YieldsAllIff<N>(q: seq<Tree<N>>, cap: nat)
    requires Forest(q) && |q| <= cap
    ensures Yield(q, cap) == Bfs(q) <==> Peak(q) <= cap
    ensures Peak(q) <= Total(q)
    decreases Total(q)
  {
    if q != [] {
      var rest := q[1..] + Kids(q[0]);
      assert q == [q[0]] + q[1..];
      KidsTotal(q[0], q[1..]);
      ForestAtMostTotal(q);
      BfsHead(q, rest);
      if |rest| <= cap {
        YieldsAllIff(rest, cap);
        assert Yield(q, cap) == [q[0].node] + Yield(rest, cap);
        assert Yield(q, cap)[1..] == Yield(rest, cap) && Bfs(q)[1..] == Bfs(rest);
      } else {
        PeakAtLeast(rest);
        YieldsAllIff(rest, |rest|);
      }
    }
  }

  lemma PeakAtLeast<N>(q: seq<Tree<N>>)
    requires Forest(q)
    ensures |q| <= Peak(q)
  {
  }

  /** The iterator hands out the whole tree in level order if and only if its queue is as large as the most nodes that
      are ever queued; one that could hold all nodes always is. */
  lemma YieldsLevelOrderIff<N>(t: Tree<N>, cap: nat)
    requires t.Fork? && 0 < cap
    ensures Yield([t], cap) == LevelOrder(t) <==> Peak([t]) <= cap
    ensures Size(t) <= cap ==> Peak([t]) <= cap
  {
    YieldsAllIff([t], cap);
    BfsIsLevelOrder(t);
    assert [t][1..] == [];
  }
}
