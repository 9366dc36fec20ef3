/** The pointers of the doubly linked list in src/vdll.c, over a snapshot of its nodes. */
module ListLinks {

  class Node<T> {
    var data: T
    var prev: Node?<T>
    var next: Node?<T>

    constructor (data: T)
      ensures this.data == data && prev == null && next == null
    {
      this.data, prev, next := data, null, null;
    }
  }

  datatype Fields<!T> = Fields(data: T, prev: Node?<T>, next: Node?<T>)

  type Memory<!T> = map<Node<T>, Fields<T>>

  ghost function Snap<T>(nodes: set<Node<T>>): (h: Memory<T>)
    reads nodes
  {
    map n | n in nodes :: Fields(n.data, n.prev, n.next)
  }

  function At<T>(chain: seq<Node<T>>, i: int): (n: Node?<T>) {
    if 0 <= i < |chain| then chain[i] else null
  }

  predicate Differ<T>(chain: seq<Node<T>>, i: nat, j: nat)
    requires i < |chain| && j < |chain|
  {
    chain[i] != chain[j]
  }

  ghost predicate Distinct<T>(chain: seq<Node<T>>) {
    forall i, j :: 0 <= i < j < |chain| ==> Differ(chain, i, j)
  }

  lemma TwoPlaces<T>(chain: seq<Node<T>>, i: int, j: int)
    requires Distinct(chain)
    ensures At(chain, i) == At(chain, j) <==> i == j || (At(chain, i) == null && At(chain, j) == null)
  {
    if 0 <= i < j < |chain| {
      assert Differ(chain, i, j);
    } else if 0 <= j < i < |chain| {
      assert Differ(chain, j, i);
    }
  }

  ghost predicate LinkedAt<T>(chain: seq<Node<T>>, h: Memory<T>, i: nat)
    requires i < |chain|
  {
    chain[i] in h && h[chain[i]].prev == At(chain, i - 1) && h[chain[i]].next == At(chain, i + 1)
  }

  /** The nodes of chain are linked both ways, in order, with ends. */
  ghost predicate Linked<T>(chain: seq<Node<T>>, h: Memory<T>) {
    Distinct(chain) && forall i :: 0 <= i < |chain| ==> LinkedAt(chain, h, i)
  }

  lemma InMemory<T>(chain: seq<Node<T>>, h: Memory<T>, i: int)
    requires Linked(chain, h)
    ensures At(chain, i) == null || At(chain, i) in h
    ensures At(chain, i) != null ==>
              h[At(chain, i)].prev == At(chain, i - 1) && h[At(chain, i)].next == At(chain, i + 1)
  {
    if 0 <= i < |chain| {
      assert LinkedAt(chain, h, i);
    }
  }

  function SetPrev<T>(h: Memory<T>, n: Node?<T>, p: Node?<T>): (k: Memory<T>)
    requires n == null || n in h
  {
    if n == null then h else h[n := h[n].(prev := p)]
  }

  function SetNext<T>(h: Memory<T>, n: Node?<T>, p: Node?<T>): (k: Memory<T>)
    requires n == null || n in h
  {
    if n == null then h else h[n := h[n].(next := p)]
  }

  /** chain with n put before index i. */
  function Inserted<T>(chain: seq<Node<T>>, i: nat, n: Node<T>): (c: seq<Node<T>>)
    requires i <= |chain|
  {
    chain[..i] + [n] + chain[i..]
  }

  function Removed<T>(chain: seq<Node<T>>, i: nat): (c: seq<Node<T>>)
    requires i < |chain|
  {
    chain[..i] + chain[i + 1..]
  }

  /** The memory after a new node n holding d has been linked between l and r. */
  function Between<T>(h: Memory<T>, l: Node?<T>, r: Node?<T>, n: Node<T>, d: T): (k: Memory<T>)
    requires (l == null || l in h) && (r == null || r in h)
  {
    SetPrev(SetNext(h, l, n), r, n)[n := Fields(d, l, r)]
  }

  /** Data does not matter to the links. */
  lemma SameLinks<T>(chain: seq<Node<T>>, h: Memory<T>, k: Memory<T>)
    requires Linked(chain, h)
    requires forall n :: n in h ==> n in k && k[n].prev == h[n].prev && k[n].next == h[n].next
    ensures Linked(chain, k)
  {
    forall i | 0 <= i < |chain|
      ensures LinkedAt(chain, k, i)
    {
      InMemory(chain, h, i);
    }
  }

  lemma InsertedAt<T>(chain: seq<Node<T>>, i: nat, n: Node<T>, j: int)
    requires i <= |chain|
    ensures At(Inserted(chain, i, n), j) == if j < i then At(chain, j) else if j == i then n else At(chain, j - 1)
  {
  }

  lemma InsertOneLink<T>(chain: seq<Node<T>>, h: Memory<T>, i: nat, n: Node<T>, d: T, j: nat)
    requires Linked(chain, h) && i <= |chain| && n !in chain && j <= |chain|
    requires At(chain, i - 1) == null || At(chain, i - 1) in h
    requires At(chain, i) == null || At(chain, i) in h
    ensures LinkedAt(Inserted(chain, i, n), Between(h, At(chain, i - 1), At(chain, i), n, d), j)
  {
    var c := Inserted(chain, i, n);
    InsertedAt(chain, i, n, j - 1);
    InsertedAt(chain, i, n, j);
    InsertedAt(chain, i, n, j + 1);
    if j != i {
      var o := if j < i then j else j - 1;
      InMemory(chain, h, o);
      TwoPlaces(chain, o, i - 1);
      TwoPlaces(chain, o, i);
      assert c[j] == chain[o];
    }
  }

  lemma InsertedDistinct<T>(chain: seq<Node<T>>, i: nat, n: Node<T>)
    requires Distinct(chain) && i <= |chain| && n !in chain
    ensures Distinct(Inserted(chain, i, n))
  {
    var c := Inserted(chain, i, n);
    forall j, k | 0 <= j < k < |c|
      ensures Differ(c, j, k)
    {
      InsertedAt(chain, i, n, j);
      InsertedAt(chain, i, n, k);
      TwoPlaces(chain, if j < i then j else j - 1, if k < i then k else k - 1);
    }
  }

  /** Linking a new node between its neighbours. */
  lemma InsertLinks<T>(chain: seq<Node<T>>, h: Memory<T>, i: nat, n: Node<T>, d: T)
    requires Linked(chain, h) && i <= |chain| && n !in chain
    ensures At(chain, i - 1) == null || At(chain, i - 1) in h
    ensures At(chain, i) == null || At(chain, i) in h
    ensures Linked(Inserted(chain, i, n), Between(h, At(chain, i - 1), At(chain, i), n, d))
  {
    InMemory(chain, h, i - 1);
    InMemory(chain, h, i);
    var c, k := Inserted(chain, i, n), Between(h, At(chain, i - 1), At(chain, i), n, d);
    InsertedDistinct(chain, i, n);
    forall j | 0 <= j < |c|
      ensures LinkedAt(c, k, j)
    {
      InsertOneLink(chain, h, i, n, d, j);
    }
  }

  lemma RemovedAt<T>(chain: seq<Node<T>>, i: nat, j: int)
    requires i < |chain|
    ensures At(Removed(chain, i), j) == if j < i then At(chain, j) else At(chain, j + 1)
  {
  }

  lemma RemoveOneLink<T>(chain: seq<Node<T>>, h: Memory<T>, i: nat, j: nat)
    requires Linked(chain, h) && i < |chain| && j < |chain| - 1
    requires At(chain, i - 1) == null || At(chain, i - 1) in h
    requires At(chain, i + 1) == null || At(chain, i + 1) in h
    ensures var k := SetPrev(SetNext(h, At(chain, i - 1), At(chain, i + 1)), At(chain, i + 1), At(chain, i - 1));
            LinkedAt(Removed(chain, i), k, j)
  {
    var o := if j < i then j else j + 1;
    RemovedAt(chain, i, j - 1);
    RemovedAt(chain, i, j);
    RemovedAt(chain, i, j + 1);
    InMemory(chain, h, o);
    TwoPlaces(chain, o, i - 1);
    TwoPlaces(chain, o, i + 1);
  }

  lemma RemovedDistinct<T>(chain: seq<Node<T>>, i: nat)
    requires Distinct(chain) && i < |chain|
    ensures Distinct(Removed(chain, i))
  {
    var c := Removed(chain, i);
    forall j, k | 0 <= j < k < |c|
      ensures Differ(c, j, k)
    {
      RemovedAt(chain, i, j);
      RemovedAt(chain, i, k);
      TwoPlaces(chain, if j < i then j else j + 1, if k < i then k else k + 1);
    }
  }

  /** Unlinking a node by joining its neighbours. */
  lemma RemoveLinks<T>(chain: seq<Node<T>>, h: Memory<T>, i: nat)
    requires Linked(chain, h) && i < |chain|
    ensures At(chain, i - 1) == null || At(chain, i - 1) in h
    ensures At(chain, i + 1) == null || At(chain, i + 1) in h
    ensures var k := SetPrev(SetNext(h, At(chain, i - 1), At(chain, i + 1)), At(chain, i + 1), At(chain, i - 1));
            Linked(Removed(chain, i), k)
  {
    InMemory(chain, h, i - 1);
    InMemory(chain, h, i + 1);
    var c := Removed(chain, i);
    var k := SetPrev(SetNext(h, At(chain, i - 1), At(chain, i + 1)), At(chain, i + 1), At(chain, i - 1));
    RemovedDistinct(chain, i);
    forall j | 0 <= j < |c|
      ensures LinkedAt(c, k, j)
    {
      RemoveOneLink(chain, h, i, j);
    }
  }
}
