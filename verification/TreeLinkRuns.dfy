/** The links of the nodes over whole runs on the tree of src/tree_T.c, exactly as the code sets them, also when a
    delete has left a node as its own parent. A run keeps the child links spelling the tree that they should if and
    only if no delete in it follows a null pointer or removes such a node; and such runs refine a multiset. */
module TreeLinkRuns {
  import opened TreeShape
  import opened TreeMemory
  import opened TreeRuns

  /** The nodes handed out so far. */
  ghost function Handed(slots: seq<Node>, used: nat): (ns: set<Node>)
    requires used <= |slots|
  {
    set n | n in slots[..used]
  }

  /** The child links spell the tree, and the nodes are the slots handed out. */
  ghost predicate Spelled(s: State<Node>, slots: seq<Node>, h: Memory) {
    s.used <= |slots| && Spells(s.tree, h) && h.Keys == Handed(slots, s.used)
  }

  /** In addition every parent link is right, or that of a node of own and leads to itself. */
  ghost predicate Tied(s: State<Node>, own: set<Node>, slots: seq<Node>, h: Memory) {
    Spelled(s, slots, h) && IsTree(s.tree, own, h)
  }

  /** All links are mutual. */
  ghost predicate Linked(s: State<Node>, slots: seq<Node>, h: Memory) {
    Spelled(s, slots, h) && Up(s.tree, null, {}, h)
  }

  /** The operation finds a value to delete. */
  predicate Hits(s: State<Node>, op: Op) {
    op.Del? && Lookup(s.tree, op.v).Hit?
  }

  /** The operation follows a null pointer. */
  ghost predicate StepCrashes(s: State<Node>, h: Memory, op: Op) {
    Hits(s, op) && Deletable(s.tree, op.v, h) && FollowsNull(h, s.tree, op.v)
  }

  lemma ParentHandedOut(t: Shape, v: int, h: Memory)
    requires NodeSet(t) <= h.Keys
    ensures InsertParent(t, v) != null ==> InsertParent(t, v) in h
  {
    if t.Fork? {
      InsertParentInside(t, v);
    }
  }

  /** The memory after an operation that does not crash. */
  ghost function After(s: State<Node>, slots: seq<Node>, h: Memory, op: Op): (k: Memory)
    requires Spelled(s, slots, h)
  {
    match op
    case Ins(v) =>
      if s.used >= |slots| then h
      else
        ParentHandedOut(s.tree, v, h);
        Hung(h, InsertParent(s.tree, v), v, slots[s.used])
    case Del(v) => if Deletable(s.tree, v, h) then Deleted(h, s.tree, v) else h
    case Find(_) => h
  }

  /** Before and after every operation the child links spell the tree of the run, and no operation crashes. */
  ghost predicate StaysSpelled(s: State<Node>, slots: seq<Node>, h: Memory, ops: seq<Op>)
    decreases |ops|
  {
    && Spelled(s, slots, h)
    && (ops != [] ==>
          && !StepCrashes(s, h, ops[0])
          && StaysSpelled(Step(s, slots, ops[0]).0, slots, After(s, slots, h, ops[0]), ops[1..]))
  }

  /** In addition all links are mutual throughout. */
  ghost predicate StaysLinked(s: State<Node>, slots: seq<Node>, h: Memory, ops: seq<Op>)
    decreases |ops|
  {
    && Linked(s, slots, h)
    && (ops != [] ==>
          && !StepCrashes(s, h, ops[0])
          && StaysLinked(Step(s, slots, ops[0]).0, slots, After(s, slots, h, ops[0]), ops[1..]))
  }

  // ----- what happens is decided by the trees alone

  /** The operation does not delete a right child with only a left child, nor a node that is its own parent. */
  predicate StepClear(s: State<Node>, own: set<Node>, op: Op) {
    Hits(s, op) ==> !DeleteCrashes(s.tree, op.v) && Lookup(s.tree, op.v).node !in own
  }

  /** Which nodes are their own parents after the operation. */
  function OwnAfter(s: State<Node>, own: set<Node>, op: Op): (now: set<Node>) {
    if Hits(s, op) then TangledAfter(s.tree, own, op.v) else own
  }

  /** No delete of the run follows a null pointer or removes a node that is its own parent. */
  predicate KeepsClear(s: State<Node>, own: set<Node>, slots: seq<Node>, ops: seq<Op>)
    decreases |ops|
  {
    ops != [] ==>
      StepClear(s, own, ops[0]) && KeepsClear(Step(s, slots, ops[0]).0, OwnAfter(s, own, ops[0]), slots, ops[1..])
  }

  /** The operation does not delete a right child that has just one child. */
  predicate StepKeepsShape(s: State<Node>, op: Op) {
    Hits(s, op) ==> !DeleteCrashes(s.tree, op.v) && !DeleteEntangles(s.tree, op.v)
  }

  predicate MeetsNoBadShape(s: State<Node>, slots: seq<Node>, ops: seq<Op>)
    decreases |ops|
  {
    ops != [] ==> StepKeepsShape(s, ops[0]) && MeetsNoBadShape(Step(s, slots, ops[0]).0, slots, ops[1..])
  }

  lemma InsertTied(s: State<Node>, own: set<Node>, slots: seq<Node>, h: Memory, v: int)
    requires Tied(s, own, slots, h) && Different(slots) && s.used < |slots|
    ensures Tied(Step(s, slots, Ins(v)).0, own, slots, After(s, slots, h, Ins(v)))
  {
    var n := slots[s.used];
    NextSlot(slots, s.used);
    ParentHandedOut(s.tree, v, h);
    InsertKeepsTree(s.tree, own, v, n, h);
    assert After(s, slots, h, Ins(v)).Keys == h.Keys + {n};
  }

  lemma DeleteTiedIff(s: State<Node>, own: set<Node>, slots: seq<Node>, h: Memory, v: int)
    requires Tied(s, own, slots, h) && Lookup(s.tree, v).Hit?
    ensures var op := Del(v); var next, k := Step(s, slots, op).0, After(s, slots, h, op);
            && (!StepCrashes(s, h, op) && Spelled(next, slots, k) <==> StepClear(s, own, op))
            && (StepClear(s, own, op) ==> Tied(next, OwnAfter(s, own, op), slots, k))
  {
    Aim(s.tree, own, v, h);
    if Lookup(s.tree, v).node in own {
      DeleteLosesSubtree(s.tree, own, v, h);
    } else if !DeleteCrashes(s.tree, v) {
      DeleteKeepsTree(s.tree, own, v, h);
    }
  }

  /** An operation leaves the child links as they should be if and only if it neither follows a null pointer nor deletes
      a node that is its own parent; and then every parent link is still right or leads to the node itself. */
  lemma StepSpelledIff(s: State<Node>, own: set<Node>, slots: seq<Node>, h: Memory, op: Op)
    requires Tied(s, own, slots, h) && Different(slots)
    ensures var next, k := Step(s, slots, op).0, After(s, slots, h, op);
            && (!StepCrashes(s, h, op) && Spelled(next, slots, k) <==> StepClear(s, own, op))
            && (StepClear(s, own, op) ==> Tied(next, OwnAfter(s, own, op), slots, k))
  {
    match op
    case Ins(v) => if s.used < |slots| { InsertTied(s, own, slots, h, v); }
    case Del(v) => if Lookup(s.tree, v).Hit? { DeleteTiedIff(s, own, slots, h, v); }
    case Find(_) =>
  }

  lemma {:induction false} RunSpelledIff(s: State<Node>, own: set<Node>, slots: seq<Node>, h: Memory, ops: seq<Op>)
    requires Tied(s, own, slots, h) && Different(slots)
    ensures StaysSpelled(s, slots, h, ops) <==> KeepsClear(s, own, slots, ops)
    decreases |ops|
  {
    if ops != [] {
      StepSpelledIff(s, own, slots, h, ops[0]);
      if StepClear(s, own, ops[0]) {
        RunSpelledIff(Step(s, slots, ops[0]).0, OwnAfter(s, own, ops[0]), slots, After(s, slots, h, ops[0]), ops[1..]);
      }
    }
  }

  const START: State<Node> := State(Leaf, 0)

  /** Over every run from an empty tree the child links as coded spell the tree that they should throughout, and no null
      pointer is followed, if and only if no delete takes a right child with only a left child or a node that an earlier
      delete has made its own parent. */
  lemma EveryRunSpelledIff(slots: seq<Node>, ops: seq<Op>)
    requires Different(slots)
    ensures StaysSpelled(START, slots, map[], ops) <==> KeepsClear(START, {}, slots, ops)
  {
    RunSpelledIff(START, {}, slots, map[], ops);
  }

  // ----- mutual links

  /** An operation leaves all links mutual if and only if it does not delete a right child with just one child. */
  lemma StepLinkedIff(s: State<Node>, slots: seq<Node>, h: Memory, op: Op)
    requires Linked(s, slots, h) && Different(slots)
    ensures !StepCrashes(s, h, op) && Linked(Step(s, slots, op).0, slots, After(s, slots, h, op))
            <==> StepKeepsShape(s, op)
  {
    StepSpelledIff(s, {}, slots, h, op);
    if Hits(s, op) && !DeleteCrashes(s.tree, op.v) {
      DeleteLinksIff(s.tree, {}, op.v, h);
    }
  }

  lemma {:induction false} RunLinkedIff(s: State<Node>, slots: seq<Node>, h: Memory, ops: seq<Op>)
    requires Linked(s, slots, h) && Different(slots)
    ensures StaysLinked(s, slots, h, ops) <==> MeetsNoBadShape(s, slots, ops)
    decreases |ops|
  {
    if ops != [] {
      StepLinkedIff(s, slots, h, ops[0]);
      if StepKeepsShape(s, ops[0]) {
        RunLinkedIff(Step(s, slots, ops[0]).0, slots, After(s, slots, h, ops[0]), ops[1..]);
      }
    }
  }

  /** Every run from an empty tree keeps all links mutual throughout and never crashes if and only if no delete in it
      meets a right child that has just one child. */
  lemma EveryRunLinkedIff(slots: seq<Node>, ops: seq<Op>)
    requires Different(slots)
    ensures StaysLinked(START, slots, map[], ops) <==> MeetsNoBadShape(START, slots, ops)
  {
    RunLinkedIff(START, slots, map[], ops);
  }

  // ----- the runs as coded against a multiset

  ghost function MemoryAfter(s: State<Node>, slots: seq<Node>, h: Memory, ops: seq<Op>): (k: Memory)
    requires StaysSpelled(s, slots, h, ops)
    decreases |ops|
  {
    if ops == [] then h else MemoryAfter(Step(s, slots, ops[0]).0, slots, After(s, slots, h, ops[0]), ops[1..])
  }

  function OwnAfterRun(s: State<Node>, own: set<Node>, slots: seq<Node>, ops: seq<Op>): (now: set<Node>)
    decreases |ops|
  {
    if ops == [] then own else OwnAfterRun(Step(s, slots, ops[0]).0, OwnAfter(s, own, ops[0]), slots, ops[1..])
  }

  lemma {:induction false} RunTied(s: State<Node>, own: set<Node>, slots: seq<Node>, h: Memory, ops: seq<Op>)
    requires Tied(s, own, slots, h) && Different(slots) && KeepsClear(s, own, slots, ops)
    ensures StaysSpelled(s, slots, h, ops)
    ensures Tied(Run(s, slots, ops).0, OwnAfterRun(s, own, slots, ops), slots, MemoryAfter(s, slots, h, ops))
    decreases |ops|
  {
    if ops != [] {
      StepSpelledIff(s, own, slots, h, ops[0]);
      RunTied(Step(s, slots, ops[0]).0, OwnAfter(s, own, ops[0]), slots, After(s, slots, h, ops[0]), ops[1..]);
    }
  }

  /** The descent of tree_lookup from n along the child links of h. */
  ghost function Walk(h: Memory, n: Node?, v: int): (found: Node?)
    decreases |h|
  {
    if n == null || n !in h then null
    else if h[n].val == v then n
    else Walk(h - {n}, if v < h[n].val then h[n].lchild else h[n].rchild, v)
  }

  lemma {:induction false} WalkIsLookup(t: Shape, v: int, h: Memory)
    requires Distinct(t) && Down(t, h)
    ensures Walk(h, Root(t), v) == FoundNode(Lookup(t, v))
  {
    if t.Fork? && v != t.val {
      var side := if v < t.val then t.l else t.r;
      Frame(side, null, {}, h, h - {t.node});
      WalkIsLookup(side, v, h - {t.node});
    }
  }

  /** What the operation answers, by the links that it reads. */
  ghost function AnswerRead(s: State<Node>, slots: seq<Node>, h: Memory, op: Op): (a: Answer) {
    match op
    case Ins(_) => Worked(s.used < |slots|)
    case Del(v) => Worked(Walk(h, Root(s.tree), v) != null)
    case Find(v) => Found(Walk(h, Root(s.tree), v) != null)
  }

  ghost function AnswersRead(s: State<Node>, slots: seq<Node>, h: Memory, ops: seq<Op>): (answers: seq<Answer>)
    requires StaysSpelled(s, slots, h, ops)
    decreases |ops|
  {
    if ops == [] then []
    else [AnswerRead(s, slots, h, ops[0])]
         + AnswersRead(Step(s, slots, ops[0]).0, slots, After(s, slots, h, ops[0]), ops[1..])
  }

  lemma {:induction false} ReadsWhatIsSpelled(s: State<Node>, slots: seq<Node>, h: Memory, ops: seq<Op>)
    requires StaysSpelled(s, slots, h, ops)
    ensures AnswersRead(s, slots, h, ops) == Run(s, slots, ops).1
    decreases |ops|
  {
    if ops != [] {
      if !ops[0].Ins? { WalkIsLookup(s.tree, ops[0].v, h); }
      ReadsWhatIsSpelled(Step(s, slots, ops[0]).0, slots, After(s, slots, h, ops[0]), ops[1..]);
    }
  }

  /** A run as coded in which no delete follows a null pointer or takes a node that is its own parent answers as a
      multiset does that accepts as many inserts as there are slots, and its memory spells a search tree whose
      in-order sequence is that multiset sorted. */
  lemma CodeRefinesMultiset(slots: seq<Node>, ops: seq<Op>)
    requires Different(slots) && KeepsClear(START, {}, slots, ops)
    ensures StaysSpelled(START, slots, map[], ops)
    ensures var (s, answers) := Run(START, slots, ops);
            var (b, expected) := BagRun(Bag(multiset{}, |slots|), ops);
            && AnswersRead(START, slots, map[], ops) == expected == answers
            && Spelled(s, slots, MemoryAfter(START, slots, map[], ops))
            && Sorted(InOrder(s.tree)) && multiset(InOrder(s.tree)) == b.values
  {
    RunTied(START, {}, slots, map[], ops);
    ReadsWhatIsSpelled(START, slots, map[], ops);
    RunRefinesMultiset(slots, ops);
  }

  // ----- a run that loses values

  lemma RunCons(s: State<Node>, own: set<Node>, slots: seq<Node>, op: Op, rest: seq<Op>)
    ensures Run(s, slots, [op] + rest).0 == Run(Step(s, slots, op).0, slots, rest).0
    ensures OwnAfterRun(s, own, slots, [op] + rest)
         == OwnAfterRun(Step(s, slots, op).0, OwnAfter(s, own, op), slots, rest)
    ensures KeepsClear(s, own, slots, [op] + rest)
            <==> StepClear(s, own, op) && KeepsClear(Step(s, slots, op).0, OwnAfter(s, own, op), slots, rest)
  {
    assert ([op] + rest)[1..] == rest;
  }

  function One(n: Node, v: int): (t: Shape) {
    Fork(Leaf, n, v, Leaf)
  }

  /** The tree of a run that inserts 1, 2, 4, 3, 5. */
  function Five(a: Node, b: Node, c: Node, d: Node, e: Node): (t: Shape) {
    Fork(Leaf, a, 1, Fork(Leaf, b, 2, Fork(One(d, 3), c, 4, One(e, 5))))
  }

  function Rest(a: Node, c: Node, d: Node, e: Node): (t: Shape) {
    Fork(Leaf, a, 1, Fork(One(d, 3), c, 4, One(e, 5)))
  }

  lemma FiveInserts(slots: seq<Node>, rest: seq<Op>)
    requires |slots| == 5
    ensures var s := State(Five(slots[0], slots[1], slots[2], slots[3], slots[4]), 5);
            var ops := [Ins(1)] + ([Ins(2)] + ([Ins(4)] + ([Ins(3)] + ([Ins(5)] + rest))));
            && Run(START, slots, ops).0 == Run(s, slots, rest).0
            && OwnAfterRun(START, {}, slots, ops) == OwnAfterRun(s, {}, slots, rest)
            && (KeepsClear(START, {}, slots, ops) <==> KeepsClear(s, {}, slots, rest))
  {
    var a, b, c, d := slots[0], slots[1], slots[2], slots[3];
    var u2 := One(b, 2);
    var u3 := Fork(Leaf, b, 2, One(c, 4));
    var u4 := Fork(Leaf, b, 2, Fork(One(d, 3), c, 4, Leaf));
    assert Insert(u2, c, 4) == u3;
    assert Insert(u3, d, 3) == u4 by { assert Insert(One(c, 4), d, 3) == Fork(One(d, 3), c, 4, Leaf); }
    assert Insert(u4, slots[4], 5) == Five(a, b, c, d, slots[4]).r by {
      assert Insert(Fork(One(d, 3), c, 4, Leaf), slots[4], 5) == Fork(One(d, 3), c, 4, One(slots[4], 5));
    }
    assert Insert(One(a, 1), b, 2) == Fork(Leaf, a, 1, u2);
    RunCons(State(Fork(Leaf, a, 1, u4), 4), {}, slots, Ins(5), rest);
    RunCons(State(Fork(Leaf, a, 1, u3), 3), {}, slots, Ins(3), [Ins(5)] + rest);
    RunCons(State(Fork(Leaf, a, 1, u2), 2), {}, slots, Ins(4), [Ins(3)] + ([Ins(5)] + rest));
    RunCons(State(One(a, 1), 1), {}, slots, Ins(2), [Ins(4)] + ([Ins(3)] + ([Ins(5)] + rest)));
    RunCons(START, {}, slots, Ins(1), [Ins(2)] + ([Ins(4)] + ([Ins(3)] + ([Ins(5)] + rest))));
  }

  lemma DeleteTwo(a: Node, b: Node, c: Node, d: Node, e: Node)
    requires Different([a, b, c, d, e])
    ensures var t := Five(a, b, c, d, e);
            && Lookup(t, 2).Hit? && !DeleteCrashes(t, 2)
            && Delete(t, 2) == Rest(a, c, d, e) && TangledAfter(t, {}, 2) == {c}
  {
    var u := Five(a, b, c, d, e).r;
    assert SubAt(u, 2) == u && ParentAt(u, a, 2) == a && !LeftAt(u, false, 2);
    assert Delete(u, 2) == u.r;
  }

  /** The run that inserts 1, 2, 4, 3 and 5 and deletes 2. */
  function LosingRun(): (ops: seq<Op>) {
    [Ins(1)] + ([Ins(2)] + ([Ins(4)] + ([Ins(3)] + ([Ins(5)] + [Del(2)]))))
  }

  lemma LosingRunIs(slots: seq<Node>)
    requires Different(slots) && |slots| == 5
    ensures KeepsClear(START, {}, slots, LosingRun())
    ensures OwnAfterRun(START, {}, slots, LosingRun()) == {slots[2]}
    ensures Run(START, slots, LosingRun()).0 == State(Rest(slots[0], slots[2], slots[3], slots[4]), 5)
  {
    var s := State(Five(slots[0], slots[1], slots[2], slots[3], slots[4]), 5);
    FiveInserts(slots, [Del(2)]);
    assert slots == [slots[0], slots[1], slots[2], slots[3], slots[4]];
    DeleteTwo(slots[0], slots[1], slots[2], slots[3], slots[4]);
    RunCons(s, {}, slots, Del(2), []);
    assert [Del(2)] + [] == [Del(2)];
  }

  /** After inserting 1, 2, 4, 3 and 5 and deleting 2 the node of 4 is its own parent. Deleting 4 then succeeds, but 3
      and 5 are gone as well: a zeroed node is left under that of 1. */
  lemma DeleteCanLoseOtherValues(slots: seq<Node>)
    requires Different(slots) && |slots| == 5
    ensures StaysSpelled(START, slots, map[], LosingRun())
    ensures var s, h := Run(START, slots, LosingRun()).0, MemoryAfter(START, slots, map[], LosingRun());
            && InOrder(s.tree) == [1, 3, 4, 5] && Spelled(s, slots, h) && !StepCrashes(s, h, Del(4))
            && var k := After(s, slots, h, Del(4));
            && Down(Fork(Leaf, slots[0], 1, One(slots[2], 0)), k)
            && Walk(k, slots[0], 3) == null && Walk(k, slots[0], 5) == null
  {
    LosingRunIs(slots);
    RunTied(START, {}, slots, map[], LosingRun());
    var s, h := Run(START, slots, LosingRun()).0, MemoryAfter(START, slots, map[], LosingRun());
    Loss(slots, h);
  }

  lemma Loss(slots: seq<Node>, h: Memory)
    requires Different(slots) && |slots| == 5
    requires Tied(State(Rest(slots[0], slots[2], slots[3], slots[4]), 5), {slots[2]}, slots, h)
    ensures var s := State(Rest(slots[0], slots[2], slots[3], slots[4]), 5);
            && InOrder(s.tree) == [1, 3, 4, 5] && !StepCrashes(s, h, Del(4))
            && var k := After(s, slots, h, Del(4));
            && Down(Fork(Leaf, slots[0], 1, One(slots[2], 0)), k)
            && Walk(k, slots[0], 3) == null && Walk(k, slots[0], 5) == null
  {
    var t, c := Rest(slots[0], slots[2], slots[3], slots[4]), slots[2];
    assert SubAt(t.r, 4) == t.r && Zeroed(t.r, 4) == One(c, 0);
    assert Lookup(t, 4) == Hit(c, 4);
    Aim(t, {c}, 4, h);
    DeleteLosesSubtree(t, {c}, 4, h);
    assert InOrder(One(slots[3], 3)) == [3] && InOrder(One(slots[4], 5)) == [5];
    assert InOrder(t.r) == [3] + ([4] + [5]);
    assert Zeroed(t, 4) == Fork(Leaf, slots[0], 1, One(c, 0));
    LeftOver(slots[0], c, Deleted(h, t, 4));
  }

  lemma LeftOver(a: Node, c: Node, k: Memory)
    requires a != c && Down(Fork(Leaf, a, 1, One(c, 0)), k)
    ensures Walk(k, a, 3) == null && Walk(k, a, 5) == null
  {
    var z := Fork(Leaf, a, 1, One(c, 0));
    WalkIsLookup(z, 3, k);
    WalkIsLookup(z, 5, k);
    assert Lookup(One(c, 0), 3).Miss? && Lookup(One(c, 0), 5).Miss?;
  }
}
