/** Whole runs of inserts, deletes and lookups on the tree of TreeShape, against a multiset. The nodes are the slots
    of one array, which tree_harvest hands out in order and never again. The deletion here is the function of TreeShape,
    which neither crashes nor loses anything; TreeLinkRuns says on which runs src/tree_T.c keeps to it. */
module TreeRuns {
  import opened TreeShape

  datatype Op = Ins(v: int) | Del(v: int) | Find(v: int)

  datatype State<N> = State(tree: Tree<N>, used: nat)

  datatype Answer = Found(there: bool) | Worked(ok: bool)

  function Step<N>(s: State<N>, slots: seq<N>, op: Op): (r: (State<N>, Answer)) {
    match op
    case Ins(v) =>
      if s.used >= |slots| then (s, Worked(false))
      else (State(Insert(s.tree, slots[s.used], v), s.used + 1), Worked(true))
    case Del(v) =>
      if Lookup(s.tree, v).Miss? then (s, Worked(false)) else (State(Delete(s.tree, v), s.used), Worked(true))
    case Find(v) => (s, Found(Lookup(s.tree, v).Hit?))
  }

  function Run<N>(s: State<N>, slots: seq<N>, ops: seq<Op>): (r: (State<N>, seq<Answer>))
    ensures |r.1| == |ops|
    decreases |ops|
  {
    if ops == [] then (s, [])
    else
      var (next, answer) := Step(s, slots, ops[0]);
      var (end, answers) := Run(next, slots, ops[1..]);
      (end, [answer] + answers)
  }

  // ----- the same operations on a multiset with a budget of inserts

  datatype Bag = Bag(values: multiset<int>, budget: nat)

  function BagStep(b: Bag, op: Op): (r: (Bag, Answer)) {
    match op
    case Ins(v) =>
      if b.budget == 0 then (b, Worked(false)) else (Bag(b.values + multiset{v}, b.budget - 1), Worked(true))
    case Del(v) => (Bag(b.values - multiset{v}, b.budget), Worked(v in b.values))
    case Find(v) => (b, Found(v in b.values))
  }

  function BagRun(b: Bag, ops: seq<Op>): (r: (Bag, seq<Answer>))
    ensures |r.1| == |ops|
    decreases |ops|
  {
    if ops == [] then (b, [])
    else
      var (next, answer) := BagStep(b, ops[0]);
      var (end, answers) := BagRun(next, ops[1..]);
      (end, [answer] + answers)
  }

  ghost predicate Different<N>(slots: seq<N>) {
    forall i, j :: 0 <= i < j < |slots| ==> slots[i] != slots[j]
  }

  ghost predicate Inv<N>(s: State<N>, slots: seq<N>, b: Bag) {
    && Bst(s.tree) && Distinct(s.tree)
    && Different(slots) && s.used + b.budget == |slots|
    && (forall n :: n in NodeSet(s.tree) ==> n in slots[..s.used])
    && multiset(InOrder(s.tree)) == b.values
  }

  lemma CutMultiset(s: seq<int>, i: nat)
    requires i < |s|
    ensures multiset(Cut(s, i)) == multiset(s) - multiset{s[i]}
  {
    assert s == s[..i] + ([s[i]] + s[i + 1..]);
    assert multiset(s) == multiset(s[..i]) + multiset{s[i]} + multiset(s[i + 1..]);
  }

  lemma PutMultiset(s: seq<int>, i: nat, v: int)
    requires i <= |s|
    ensures multiset(s[..i] + [v] + s[i..]) == multiset(s) + multiset{v}
  {
    assert s == s[..i] + s[i..];
  }

  /** Insertion adds one occurrence of the value. */
  lemma InsertAddsOne<N>(t: Tree<N>, n: N, v: int)
    requires Bst(t)
    ensures Bst(Insert(t, n, v)) && multiset(InOrder(Insert(t, n, v))) == multiset(InOrder(t)) + multiset{v}
  {
    InsertIsSortedInsert(t, n, v);
    PutMultiset(InOrder(t), Rank(t, v), v);
  }

  /** Deletion of a present value takes one occurrence of it. */
  lemma DeleteTakesOne<N>(t: Tree<N>, v: int)
    requires Bst(t) && Lookup(t, v).Hit?
    ensures Bst(Delete(t, v)) && multiset(InOrder(Delete(t, v))) == multiset(InOrder(t)) - multiset{v}
    ensures v in multiset(InOrder(t))
  {
    DeleteRemovesOne(t, v);
    CutMultiset(InOrder(t), DeletedAt(t, v));
  }

  lemma NextSlot<N>(slots: seq<N>, used: nat)
    requires Different(slots) && used < |slots|
    ensures slots[used] !in slots[..used]
    ensures forall n :: n in slots[..used + 1] <==> n in slots[..used] || n == slots[used]
  {
    assert slots[..used + 1] == slots[..used] + [slots[used]];
  }

  lemma InsRefines<N>(s: State<N>, slots: seq<N>, b: Bag, v: int)
    requires Inv(s, slots, b)
    ensures Inv(Step(s, slots, Ins(v)).0, slots, BagStep(b, Ins(v)).0)
    ensures Step(s, slots, Ins(v)).1 == BagStep(b, Ins(v)).1
  {
    if s.used < |slots| {
      NextSlot(slots, s.used);
      InsertAddsOne(s.tree, slots[s.used], v);
      InsertNodes(s.tree, slots[s.used], v);
    }
  }

  lemma DelRefines<N>(s: State<N>, slots: seq<N>, b: Bag, v: int)
    requires Inv(s, slots, b)
    ensures Inv(Step(s, slots, Del(v)).0, slots, BagStep(b, Del(v)).0)
    ensures Step(s, slots, Del(v)).1 == BagStep(b, Del(v)).1
  {
    if Lookup(s.tree, v).Hit? {
      DeleteTakesOne(s.tree, v);
      DeleteNodes(s.tree, v);
    } else {
      LookupFindsIff(s.tree, v);
      assert b.values - multiset{v} == b.values;
    }
  }

  lemma StepRefines<N>(s: State<N>, slots: seq<N>, b: Bag, op: Op)
    requires Inv(s, slots, b)
    ensures Inv(Step(s, slots, op).0, slots, BagStep(b, op).0)
    ensures Step(s, slots, op).1 == BagStep(b, op).1
  {
    match op
    case Ins(v) => InsRefines(s, slots, b, v);
    case Del(v) => DelRefines(s, slots, b, v);
    case Find(v) => LookupFindsIff(s.tree, v);
  }

  lemma {:induction false} RunFrom<N>(s: State<N>, slots: seq<N>, b: Bag, ops: seq<Op>)
    requires Inv(s, slots, b)
    ensures Inv(Run(s, slots, ops).0, slots, BagRun(b, ops).0)
    ensures Run(s, slots, ops).1 == BagRun(b, ops).1
    decreases |ops|
  {
    if ops != [] {
      StepRefines(s, slots, b, ops[0]);
      RunFrom(Step(s, slots, ops[0]).0, slots, BagStep(b, ops[0]).0, ops[1..]);
    }
  }

  /** With that deletion every run from an empty tree answers as a multiset does that accepts as many inserts in all
      as there are slots, and ends in a search tree whose in-order sequence is that multiset sorted. */
  lemma RunRefinesMultiset<N>(slots: seq<N>, ops: seq<Op>)
    requires Different(slots)
    ensures var (s, answers) := Run(State(Leaf, 0), slots, ops);
            var (b, expected) := BagRun(Bag(multiset{}, |slots|), ops);
            && answers == expected
            && Bst(s.tree) && Distinct(s.tree)
            && Sorted(InOrder(s.tree)) && multiset(InOrder(s.tree)) == b.values
            && s.used == |slots| - b.budget && |InOrder(s.tree)| <= s.used
  {
    RunFrom(State(Leaf, 0), slots, Bag(multiset{}, |slots|), ops);
    var s := Run(State(Leaf, 0), slots, ops).0;
    BstIsSorted(s.tree);
    BagFits(Bag(multiset{}, |slots|), |slots|, ops);
    assert |InOrder(s.tree)| == |multiset(InOrder(s.tree))|;
  }

  lemma {:induction false} BagFits(b: Bag, cap: nat, ops: seq<Op>)
    requires |b.values| + b.budget <= cap
    ensures |BagRun(b, ops).0.values| + BagRun(b, ops).0.budget <= cap
    decreases |ops|
  {
    if ops != [] {
      BagFits(BagStep(b, ops[0]).0, cap, ops[1..]);
    }
  }
}
