/** The doubly linked list of src/vdll.c with its cached cursor. A ghost sequence records the nodes in order;
    Valid says that they are linked both ways and that the cursor is the node at its position. */
module Vdll {
  import opened ListLinks
  import opened Modular

  /** Crash stands for a dereference of a null pointer; Fail(n) for the return value n. */
  datatype Code = Ok | Fail(n: nat) | Crash

  // size_t wraps at this bound
  const SIZE_MAX: nat := 0x1_0000_0000_0000_0000

  /** chain without the n nodes that a delete at position pos takes: it works backwards from pos, and
      forwards only when it has reached the front. */
  function Deleted<T>(chain: seq<Node<T>>, pos: nat, n: nat): (c: seq<Node<T>>)
    requires pos < |chain| && pos + n <= |chain|
    ensures |c| == |chain| - n
  {
    chain[..From(pos, n)] + chain[From(pos, n) + n..]
  }

  /** The index of the first of them. */
  function From(pos: nat, n: nat): (i: nat)
    ensures i <= pos + 1
  {
    if n <= pos then pos + 1 - n else 0
  }

  /** c with the nodes of created between index s and what was there. */
  function Widened<T>(c: seq<Node<T>>, s: nat, created: seq<Node<T>>): (r: seq<Node<T>>)
    requires s <= |c|
    ensures |r| == |c| + |created|
  {
    c[..s] + created + c[s..]
  }

  lemma WidenedMore<T>(c: seq<Node<T>>, s: nat, created: seq<Node<T>>, node: Node<T>)
    requires s <= |c|
    ensures Inserted(Widened(c, s, created), s, node) == Widened(c, s, [node] + created)
  {
    var w := Widened(c, s, created);
    assert w[..s] == c[..s] && w[s..] == created + c[s..];
  }

  // ----- what the header promises, and when the code does it

  /** A delete takes the nodes from position p on, as header/vdll.h says, if and only if it takes one node or
      starts at the front. */
  lemma DeletesRangeIff<T>(c: seq<Node<T>>, p: nat, n: nat)
    requires Distinct(c) && 0 < n && p + n <= |c|
    ensures Deleted(c, p, n) == c[..p] + c[p + n..] <==> n == 1 || p == 0
  {
    var d, e := Deleted(c, p, n), c[..p] + c[p + n..];
    if n == 1 || p == 0 {
      assert d == e;
    } else {
      var from := From(p, n);
      TwoPlaces(c, from, from + n);
      assert d[from] == c[from + n] && e[from] == c[from];
    }
  }

  /** A shrink takes the last n nodes if and only if n is 1 or the whole length. */
  lemma ShrinkTakesTailIff<T>(c: seq<Node<T>>, n: nat)
    requires Distinct(c) && 0 < n <= |c|
    ensures Deleted(c, |c| - n, n) == c[..|c| - n] <==> n == 1 || n == |c|
  {
    DeletesRangeIff(c, |c| - n, n);
    assert c[|c| - n + n..] == [];
  }

  /** New nodes put in at two different places give two different lists. */
  lemma PlacesDiffer<T>(c: seq<Node<T>>, s: nat, t: nat, created: seq<Node<T>>)
    requires s < t <= |c| && created != [] && forall n :: n in created ==> n !in c
    ensures Widened(c, s, created) != Widened(c, t, created)
  {
    assert Widened(c, s, created)[s] == created[0];
    assert Widened(c, t, created)[s] == c[s] && created[0] in created && c[s] in c;
  }

  /** vdll_insert puts the new nodes before the one at position p if and only if the list is empty; otherwise they
      go behind it. The other form, which vdll_grow uses, promises behind and puts them before. */
  lemma InsertsBeforeIff<T>(c: seq<Node<T>>, p: nat, created: seq<Node<T>>)
    requires created != [] && (forall n :: n in created ==> n !in c)
    requires p < |c| || (c == [] && p == 0)
    ensures Widened(c, Spot(|c|, p, false), created) == Widened(c, p, created) <==> c == []
    ensures Widened(c, Spot(|c|, p, true), created) == Widened(c, Min(p + 1, |c|), created) <==> c == []
  {
    if c != [] {
      PlacesDiffer(c, p, p + 1, created);
    }
  }

  /** What a failed insert at position p leaves of the list w after it has created made nodes. The rollback comes only
      after two, and does nothing when its range leaves the list. */
  function RolledBack<T>(w: seq<Node<T>>, p: nat, made: nat): (c: seq<Node<T>>)
  {
    if p + 1 + made <= |w| && 1 < made then Deleted(w, p + 1, made) else w
  }

  /** A failed insert gives back the list as it was if and only if no node had been created, or the list is not empty,
      the form was the one that inserts before, and two nodes had been created or, at position 0, more. */
  lemma RollbackRestoresIff<T>(c: seq<Node<T>>, p: nat, after: bool, created: seq<Node<T>>)
    requires (p < |c| || p == |c| == 0) && forall n :: n in created ==> n !in c
    ensures Spot(|c|, p, after) <= |c|
    ensures RolledBack(Widened(c, Spot(|c|, p, after), created), p, |created|) == c
            <==> created == [] || (c != [] && after && |created| >= 2 && (|created| == 2 || p == 0))
  {
    if |created| <= 1 || c == [] {
      assert |Widened(c, Spot(|c|, p, after), created)| == |c| + |created|;
      assert created == [] ==> Widened(c, Spot(|c|, p, after), created) == c;
    } else {
      RollbackOfManyIff(c, p, after, created);
    }
  }

  lemma RollbackOfManyIff<T>(c: seq<Node<T>>, p: nat, after: bool, created: seq<Node<T>>)
    requires p < |c| && |created| >= 2 && forall n :: n in created ==> n !in c
    ensures RolledBack(Widened(c, Spot(|c|, p, after), created), p, |created|) == c
            <==> after && (|created| == 2 || p == 0)
  {
    var s, m := Spot(|c|, p, after), |created|;
    var w := Widened(c, s, created);
    var from := if m <= p + 1 then p + 2 - m else 0;
    var r := RolledBack(w, p, m);
    Elements(c, s, created, from, m);
    if from == s {
      assert r == c;
    } else {
      assert r[from] == created[m - (s - from)];
      assert r[from] in created && c[from] in c;
    }
  }

  /** Taking m nodes from index i on out of a list into which m nodes were put at index s. */
  lemma Elements<T>(c: seq<Node<T>>, s: nat, created: seq<Node<T>>, i: nat, m: nat)
    requires i <= s <= |c| && m == |created|
    ensures var w := Widened(c, s, created);
            && i + m <= |w|
            && (i == s ==> w[..i] + w[i + m..] == c)
            && (s - m <= i < s ==> (w[..i] + w[i + m..])[i] == created[m - (s - i)])
  {
    var w := Widened(c, s, created);
    if i == s {
      assert w[..i] == c[..s] && w[i + m..] == c[s..];
    } else if s - m <= i {
      assert w[i + m] == created[i + m - s];
    }
  }

  /** A grow puts the new nodes at the end if and only if the list is empty. */
  lemma GrowsAtEndIff<T>(c: seq<Node<T>>, created: seq<Node<T>>)
    requires created != [] && forall n :: n in created ==> n !in c
    ensures Widened(c, if c == [] then 0 else |c| - 1, created) == c + created <==> c == []
  {
    assert Widened(c, |c|, created) == c + created;
    if c != [] {
      PlacesDiffer(c, |c| - 1, |c|, created);
    }
  }

  lemma InsertedMembers<T>(c: seq<Node<T>>, i: nat, node: Node<T>)
    requires i <= |c|
    ensures forall n :: n in Inserted(c, i, node) <==> n in c || n == node
  {
    assert c == c[..i] + c[i..];
    assert forall n :: n in c <==> n in c[..i] || n in c[i..];
  }

  lemma WidenedEmpty<T>(created: seq<Node<T>>)
    ensures Widened([], 0, created) == created
  {
  }

  /** Where in the run of new nodes the newest one is. */
  lemma Created<T>(c: seq<Node<T>>, s: nat, created: seq<Node<T>>, node: Node<T>, i: nat) returns (r: seq<Node<T>>)
    requires s <= |c| && i <= |c| + |created| && (c == [] || i == s)
    ensures |r| == |created| + 1 && Inserted(Widened(c, s, created), i, node) == Widened(c, s, r)
    ensures forall n :: n in r <==> n in created || n == node
  {
    if c == [] {
      r := Inserted(created, i, node);
      WidenedEmpty(created);
      WidenedEmpty(r);
      InsertedMembers(created, i, node);
    } else {
      r := [node] + created;
      WidenedMore(c, s, created, node);
    }
  }

  function Back(pos: nat, n: nat): (p: nat) {
    if n <= pos then pos - n else 0
  }

  lemma CutMore<T>(c: seq<Node<T>>, i: nat, j: nat)
    requires i <= j <= |c|
    ensures 0 < i ==> Removed(c[..i] + c[j..], i - 1) == c[..i - 1] + c[j..]
    ensures j < |c| ==> Removed(c[..i] + c[j..], i) == c[..i] + c[j + 1..]
  {
    if 0 < i {
      CutBefore(c, i, j);
    }
    if j < |c| {
      CutBehind(c, i, j);
    }
  }

  lemma CutBefore<T>(c: seq<Node<T>>, i: nat, j: nat)
    requires 0 < i <= j <= |c|
    ensures Removed(c[..i] + c[j..], i - 1) == c[..i - 1] + c[j..]
  {
    var d := c[..i] + c[j..];
    assert d[..i - 1] == c[..i - 1] && d[i..] == c[j..];
  }

  lemma CutBehind<T>(c: seq<Node<T>>, i: nat, j: nat)
    requires i <= j < |c|
    ensures Removed(c[..i] + c[j..], i) == c[..i] + c[j + 1..]
  {
    var d := c[..i] + c[j..];
    assert d[..i] == c[..i] && d[i + 1..] == c[j + 1..];
  }

  lemma FromStep(pos: nat, n: nat)
    ensures if n <= pos then From(pos, n + 1) == Back(pos, n) == From(pos, n) - 1
            else From(pos, n + 1) == Back(pos, n) == From(pos, n) == 0
  {
  }

  lemma DeletedStep<T>(chain: seq<Node<T>>, pos: nat, n: nat)
    requires pos < |chain| && pos + n < |chain|
    ensures Back(pos, n) < |chain| - n
    ensures Removed(Deleted(chain, pos, n), Back(pos, n)) == Deleted(chain, pos, n + 1)
  {
    FromStep(pos, n);
    CutMore(chain, From(pos, n), From(pos, n) + n);
  }

  class VdllList<T> {
    // what a new element holds
    const zero: T
    var ptr: Node?<T>
    var pos: nat
    var cap: nat
    ghost var chain: seq<Node<T>>
    ghost var nodes: set<Node<T>>

    ghost predicate LinkedAll()
      reads this, nodes
    {
      Linked(chain, Snap(nodes)) && cap == |chain| < SIZE_MAX
    }

    ghost predicate AtCursor()
      reads this
    {
      if chain == [] then ptr == null && pos == 0 else pos < |chain| && ptr == chain[pos]
    }

    ghost predicate Valid()
      reads this, nodes
    {
      LinkedAll() && AtCursor()
    }

    /** vdll_init */
    constructor (zero: T)
      ensures Valid() && chain == [] && nodes == {} && this.zero == zero
    {
      this.zero := zero;
      ptr, pos, cap, chain, nodes := null, 0, 0, [], {};
    }

    lemma Neighbours(i: nat)
      requires LinkedAll() && i < |chain|
      ensures chain[i] in nodes && chain[i].prev == At(chain, i - 1) && chain[i].next == At(chain, i + 1)
      ensures At(chain, i - 1) == null || At(chain, i - 1) in nodes
      ensures At(chain, i + 1) == null || (At(chain, i + 1) in nodes && At(chain, i + 1) != At(chain, i - 1))
    {
      InMemory(chain, Snap(nodes), i - 1);
      InMemory(chain, Snap(nodes), i);
      InMemory(chain, Snap(nodes), i + 1);
      TwoPlaces(chain, i - 1, i + 1);
    }

    /** vdll_wind: it checks the increment against the capacity but not the position it starts from. */
    method Wind(increment: nat) returns (code: Code)
      requires Valid()
      modifies this`ptr, this`pos
      ensures LinkedAll()
      ensures var k := Min(increment, if cap == 0 then 0 else cap - 1);
              if cap == 0 then code == Fail(1) && Valid() && pos == old(pos)
              else if old(pos) + k < cap then
                Valid() && pos == old(pos) + k && code == if increment < cap then Ok else Fail(2)
              else if old(pos) + k == cap then
                !Valid() && ptr == null && pos == cap && code == if increment < cap then Ok else Fail(2)
              else code == Crash && !Valid() && ptr == null
    {
      if ptr == null {
        return Fail(1);
      }
      var i := 0;
      while i < increment && i + 1 < cap
        invariant i <= increment && i <= cap - 1 && LinkedAll() && pos == old(pos) + i <= cap && cap > 0
        invariant ptr == At(chain, pos)
      {
        if ptr == null {
          return Crash;
        }
        Neighbours(pos);
        ptr := ptr.next;
        pos := pos + 1;
        i := i + 1;
      }
      if i != increment {
        return Fail(2);
      }
      return Ok;
    }

    /** vdll_rewind */
    method Rewind(decrement: nat) returns (code: Code)
      requires LinkedAll() && ptr == At(chain, pos)
      modifies this`ptr, this`pos
      ensures LinkedAll()
      ensures old(ptr) == null ==> code == Fail(1) && ptr == null && pos == old(pos)
      ensures old(ptr) != null ==>
                Valid() && pos == Back(old(pos), decrement) && code == if decrement <= old(pos) then Ok else Fail(2)
    {
      if ptr == null {
        return Fail(1);
      }
      var i := decrement;
      while i >= 1 && pos > 0
        invariant 0 <= i <= decrement && LinkedAll() && pos + decrement == old(pos) + i
        invariant pos < |chain| && ptr == chain[pos]
      {
        assert ptr.prev == chain[pos - 1] by {
          Neighbours(pos);
        }
        ptr := ptr.prev;
        pos := pos - 1;
        i := i - 1;
      }
      if i != 0 {
        return Fail(2);
      }
      return Ok;
    }

    predicate CanSeek(p: nat)
      reads this
    {
      p < cap || (pos == 0 && cap == 0 && p == 0)
    }

    /** vdll_seek */
    method Seek(p: nat) returns (code: Code)
      requires Valid()
      modifies this`ptr, this`pos
      ensures Valid()
      ensures code == if CanSeek(p) then Ok else Fail(2)
      ensures pos == if CanSeek(p) then p else old(pos)
    {
      if !(pos == 0 && cap == 0 && p == 0) && p >= cap {
        return Fail(2);
      }
      if p > pos {
        code := Wind(p - pos);
      } else if p < pos {
        code := Rewind(pos - p);
      } else {
        code := Ok;
      }
    }

    /** vdll_get_direct; node is the one whose data it returns, Fail(2) its null result. */
    method GetDirect(p: nat) returns (code: Code, node: Node?<T>)
      requires Valid()
      modifies this`ptr, this`pos
      ensures Valid() && node == if p < cap then chain[p] else null
      ensures code == if p < cap then Ok else if p == cap == 0 then Crash else Fail(2)
    {
      code := Seek(p);
      if code != Ok {
        return Fail(2), null;
      }
      return if ptr == null then Crash else Ok, ptr;
    }

    /** vdll_set: writes the element at index p and no other. */
    method Set(p: nat, src: T) returns (code: Code)
      requires Valid()
      modifies this`ptr, this`pos, nodes`data
      ensures Valid() && chain == old(chain)
      ensures code == if p < cap then Ok else if p == cap == 0 then Crash else Fail(2)
      ensures forall i :: 0 <= i < |chain| ==> chain[i].data == if i == p then src else old(chain[i].data)
    {
      code := Seek(p);
      if code != Ok {
        return Fail(2);
      }
      if ptr == null {
        return Crash;
      }
      ghost var h := Snap(nodes);
      Neighbours(p);
      ptr.data := src;
      SameLinks(chain, h, Snap(nodes));
      forall i | 0 <= i < |chain|
        ensures chain[i] in nodes && (chain[i] == ptr <==> i == p)
      {
        InMemory(chain, h, i);
        TwoPlaces(chain, i, p);
      }
    }

    lemma Beside()
      requires Valid() && cap > 0
      ensures ptr in nodes
      ensures var l, r := At(chain, pos as int - 1), At(chain, pos + 1);
              && ptr.prev == l && ptr.next == r
              && (l == null || l in nodes) && (r == null || (r in nodes && r != l))
    {
      Neighbours(pos);
    }

    /** One round of the loop of vdll_delete: the node at the cursor goes, and the cursor moves back. */
    method DeleteOne()
      requires Valid() && cap > 0
      modifies this, nodes`prev, nodes`next
      ensures Valid() && nodes == old(nodes)
      ensures chain == Removed(old(chain), old(pos)) && pos == Back(old(pos), 1)
    {
      ghost var c, h, p := chain, Snap(nodes), pos;
      Beside();
      ptr := Unlink(ptr, At(c, p as int - 1), At(c, p + 1));
      if pos != 0 {
        pos := pos - 1;
      }
      cap := cap - 1;
      ghost var r := Removed(c, p);
      assert Linked(r, Snap(nodes)) by {
        RemoveLinks(c, h, p);
      }
      assert cap == |r| && if r == [] then ptr == null && pos == 0 else pos < |r| && ptr == r[pos] by {
        CursorBack(c, p);
      }
      Settle(r);
    }

    lemma CursorBack(c: seq<Node<T>>, p: nat)
      requires p < |c|
      ensures var r := Removed(c, p);
              |r| == |c| - 1 && (r != [] ==> Back(p, 1) < |r|)
              && At(r, Back(p, 1)) == if At(c, p - 1) == null then At(c, p + 1) else At(c, p - 1)
    {
    }

    /** The four ways to join the neighbours of a node; the result is the node the cursor moves to. */
    method Unlink(current: Node<T>, ghost l: Node?<T>, ghost r: Node?<T>) returns (cursor: Node?<T>)
      requires current in nodes && current.prev == l && current.next == r
      requires (l == null || l in nodes) && (r == null || (r in nodes && r != l))
      modifies nodes`prev, nodes`next
      ensures cursor == if l == null then r else l
      ensures Snap(nodes) == SetPrev(SetNext(old(Snap(nodes)), l, r), r, l)
    {
      ghost var h := Snap(nodes);
      var prev, next := current.prev, current.next;
      if prev == null && next == null {
        cursor := null;
      } else if prev == null {
        cursor := next;
        cursor.prev := null;
      } else if next == null {
        cursor := prev;
        cursor.next := null;
      } else {
        prev.next := next;
        next.prev := prev;
        cursor := prev;
      }
      Same(SetPrev(SetNext(h, prev, next), next, prev), Snap(nodes));
    }

    lemma Same(h: Memory<T>, k: Memory<T>)
      requires h.Keys == k.Keys && forall n :: n in h ==> k[n] == h[n]
      ensures h == k
    {
    }

    lemma Around(after: bool)
      requires Valid()
      ensures var i := Spot(|chain|, pos, after);
              && At(chain, i as int - 1) == (if ptr == null then null else if after then ptr.prev else ptr)
              && At(chain, i) == if ptr == null then null else if after then ptr else ptr.next
      ensures ptr != null ==>
                && ptr in nodes && (ptr.prev == null || ptr.prev in nodes) && (ptr.next == null || ptr.next in nodes)
    {
      if chain != [] {
        Neighbours(pos);
      }
    }

    /** One round of the loop of _vdll_insert, when node creation succeeds. */
    method InsertOne(after: bool) returns (node: Node<T>)
      requires Valid() && cap + 1 < SIZE_MAX
      modifies this, nodes`prev, nodes`next
      ensures Valid() && fresh(node) && nodes == old(nodes) + {node} && node.data == zero
      ensures chain == Inserted(old(chain), Spot(old(|chain|), old(pos), after), node)
      ensures pos == old(pos)
    {
      ghost var c, h, i := chain, Snap(nodes), Spot(|chain|, pos, after);
      Around(after);
      node := new Node(zero);
      Link(node, after, At(c, i as int - 1), At(c, i));
      cap := cap + 1;
      ghost var r := Inserted(c, i, node);
      assert Linked(r, Snap(nodes)) by {
        InsertLinks(c, h, i, node, zero);
      }
      assert cap == |r| && pos < |r| && ptr == r[pos] by {
        CursorAfter(c, pos, after, node);
      }
      Settle(r);
    }

    lemma CursorAfter(c: seq<Node<T>>, p: nat, after: bool, n: Node<T>)
      requires c != [] ==> p < |c|
      requires c == [] ==> p == 0
      ensures var r := Inserted(c, Spot(|c|, p, after), n);
              |r| == |c| + 1 && p < |r| && r[p] == if c == [] || after then n else c[p]
    {
    }

    ghost method Settle(c: seq<Node<T>>)
      requires Linked(c, Snap(nodes)) && cap == |c| < SIZE_MAX
      requires if c == [] then ptr == null && pos == 0 else pos < |c| && ptr == c[pos]
      modifies `chain
      ensures Valid() && chain == c
    {
      chain := c;
    }

    /** The links of a new node and back from its neighbours. */
    method Splice(node: Node<T>, l: Node?<T>, r: Node?<T>)
      requires node !in nodes && (l == null || l in nodes) && (r == null || r in nodes)
      modifies nodes`prev, nodes`next, node`prev, node`next
      ensures Snap(nodes + {node}) == Between(old(Snap(nodes)), l, r, node, node.data)
    {
      ghost var h := Snap(nodes);
      node.prev := l;
      node.next := r;
      if l != null {
        l.next := node;
      }
      if r != null {
        r.prev := node;
      }
      Same(Between(h, l, r, node, node.data), Snap(nodes + {node}));
    }

    /** The three ways to link a new node at the cursor. */
    method Link(node: Node<T>, after: bool, ghost l: Node?<T>, ghost r: Node?<T>)
      requires node !in nodes && node.prev == null && node.next == null
      requires l == (if ptr == null then null else if after then ptr.prev else ptr)
      requires r == (if ptr == null then null else if after then ptr else ptr.next)
      requires ptr != null ==>
                 && ptr in nodes && (ptr.prev == null || ptr.prev in nodes) && (ptr.next == null || ptr.next in nodes)
      modifies this`ptr, this`nodes, nodes`prev, nodes`next, node`prev, node`next
      ensures nodes == old(nodes) + {node}
      ensures ptr == if old(ptr) == null || after then node else old(ptr)
      ensures (l == null || l in old(nodes)) && (r == null || r in old(nodes))
      ensures Snap(nodes) == Between(old(Snap(nodes)), l, r, node, node.data)
    {
      if ptr == null {
        Splice(node, null, null);
        ptr := node;
      } else if after {
        Splice(node, ptr.prev, ptr);
        ptr := node;
      } else {
        Splice(node, ptr, ptr.next);
      }
      nodes := nodes + {node};
    }

    /** vdll_delete. The list and cursor stay sound if and only if the range lies inside the list, or the
        call fails early, or it starts at the front. */
    method Delete(p: nat, numElems: nat) returns (code: Code)
      requires Valid()
      modifies this, nodes`prev, nodes`next
      ensures LinkedAll() && nodes == old(nodes)
      ensures Valid() <==> numElems == 0 || p >= old(cap) || p + numElems <= old(cap) || p == 0
      ensures code == if numElems == 0 then Fail(1)
                      else if p < old(cap) && p + numElems <= old(cap) then Ok
                      else if 0 < p < old(cap) && p + Min(numElems, old(cap)) > old(cap) + 1 then Crash
                      else Fail(2)
      ensures chain == if code == Ok then Deleted(old(chain), p, numElems) else old(chain)
      ensures code == Ok ==> pos == Back(p, numElems)
    {
      if numElems == 0 {
        return Fail(1);
      }
      code := Seek(p);
      if code != Ok {
        return Fail(2);
      }
      code := Wind(numElems - 1);
      if code == Crash {
        return;
      }
      if code != Ok {
        return Fail(2);
      }
      code := Rewind(numElems - 1);
      if code != Ok {
        return Fail(2);
      }
      DeleteRounds(p, numElems);
      return Ok;
    }

    /** The loop of vdll_delete. */
    method DeleteRounds(p: nat, numElems: nat)
      requires Valid() && pos == p < cap && p + numElems <= cap
      modifies this, nodes`prev, nodes`next
      ensures Valid() && nodes == old(nodes)
      ensures chain == Deleted(old(chain), p, numElems) && pos == Back(p, numElems)
    {
      ghost var c := chain;
      for i := 0 to numElems
        invariant Valid() && nodes == old(nodes)
        invariant chain == Deleted(c, p, i) && pos == Back(p, i)
      {
        DeleteOne();
        assert chain == Deleted(c, p, i + 1) by {
          DeletedStep(c, p, i);
        }
      }
    }

    /** _vdll_insert: numElems new nodes, created in list order, next to the node at p. made tells how many nodes can
        be created; when that is too few, the rollback deletes as many nodes going back from p + 1. */
    method Insert(p: nat, numElems: nat, after: bool, made: nat) returns (code: Code, ghost created: seq<Node<T>>)
      requires Valid() && cap + numElems < SIZE_MAX
      modifies this, nodes`prev, nodes`next
      ensures LinkedAll() && old(nodes) <= nodes && fresh(nodes - old(nodes))
      ensures Valid() <==> numElems == 0 || made >= numElems || made <= 1 || old(cap) > 0 || p > 0
      ensures code == if numElems == 0 then Fail(1)
                      else if !(p < old(cap) || p == old(cap) == 0) then Fail(2)
                      else if made < numElems then Fail(3) else Ok
      ensures code == Fail(1) || code == Fail(2) ==> chain == old(chain)
      ensures forall n :: n in created ==> n !in old(nodes) && n in nodes && n.data == zero
      ensures code == Ok || code == Fail(3) ==>
                && |created| == Min(made, numElems) && Spot(|old(chain)|, p, after) <= |old(chain)|
                && var w := Widened(old(chain), Spot(|old(chain)|, p, after), created);
                   chain == if code == Ok then w else RolledBack(w, p, made)
      ensures code == Ok ==> pos == p
    {
      created := [];
      if numElems == 0 {
        return Fail(1), [];
      }
      code := Seek(p);
      if code != Ok {
        return Fail(2), [];
      }
      created := InsertRounds(p, Min(made, numElems), after);
      if made < numElems {
        Rollback(p, made);
        return Fail(3), created;
      }
      return Ok, created;
    }

    /** What _vdll_insert does when a node cannot be created after made others. */
    method Rollback(p: nat, made: nat)
      requires Valid()
      modifies this, nodes`prev, nodes`next
      ensures LinkedAll() && nodes == old(nodes)
      ensures Valid() <==> made <= 1 || p + 1 >= old(cap) || p + 1 + made <= old(cap)
      ensures chain == RolledBack(old(chain), p, made)
    {
      if made > 1 {
        ghost var c := chain;
        var code := Delete(p + 1, made);
        assert code == Ok <==> p + 1 + made <= |c|;
      }
    }

    /** The loop of _vdll_insert. */
    method InsertRounds(p: nat, numElems: nat, after: bool) returns (ghost created: seq<Node<T>>)
      requires Valid() && pos == p && (cap == 0 ==> p == 0) && cap + numElems < SIZE_MAX
      modifies this, nodes`prev, nodes`next
      ensures Valid() && old(nodes) <= nodes && fresh(nodes - old(nodes)) && pos == p
      ensures |created| == numElems
      ensures forall n :: n in created ==> n !in old(nodes) && n in nodes && n.data == zero
      ensures Spot(|old(chain)|, p, after) <= |old(chain)|
      ensures var s := Spot(|old(chain)|, p, after); chain == Widened(old(chain), s, created)
    {
      ghost var c, s := chain, Spot(|chain|, p, after);
      created := [];
      assert c == Widened(c, s, created);
      for i := 0 to numElems
        invariant Valid() && old(nodes) <= nodes && fresh(nodes - old(nodes)) && pos == p
        invariant |created| == i && cap == |c| + i
        invariant chain == Widened(c, s, created)
        invariant forall n :: n in created ==> n !in old(nodes) && n in nodes && n.data == zero
      {
        ghost var before := chain;
        var node := InsertOne(after);
        created := Created(c, s, created, node, Spot(|before|, p, after));
      }
    }

    /** vdll_grow: the new elements go before the last one. */
    method Grow(numElems: nat, made: nat) returns (code: Code, ghost created: seq<Node<T>>)
      requires Valid() && cap + numElems < SIZE_MAX
      modifies this, nodes`prev, nodes`next
      ensures Valid() <==> numElems == 0 || made >= numElems || made <= 1 || old(cap) > 0
      ensures code == if numElems == 0 then Fail(1) else if made < numElems then Fail(2) else Ok
      ensures code == Fail(1) ==> chain == old(chain)
      ensures forall n :: n in created ==> n !in old(nodes) && n.data == zero
      ensures code != Fail(1) ==>
                var end := if old(chain) == [] then 0 else |old(chain)| - 1;
                var w := Widened(old(chain), end, created);
                && |created| == Min(made, numElems)
                && chain == if code == Ok then w else RolledBack(w, end, made)
    {
      created := [];
      if numElems == 0 {
        return Fail(1), [];
      }
      var end := 0;
      if cap > 1 {
        end := cap - 1;
      }
      code, created := Insert(end, numElems, true, made);
      if code != Ok {
        code := Fail(2);
      }
    }

    /** vdll_shrink; the start position wraps around when more elements are to go than there are. */
    method Shrink(numElems: nat) returns (code: Code)
      requires Valid() && numElems < SIZE_MAX
      modifies this, nodes`prev, nodes`next
      ensures Valid() && nodes == old(nodes)
      ensures code == if numElems == 0 then Fail(1) else if numElems <= old(cap) then Ok else Fail(2)
      ensures chain == if code == Ok then Deleted(old(chain), old(|chain|) - numElems, numElems) else old(chain)
    {
      if numElems == 0 {
        return Fail(1);
      }
      var from := if numElems <= cap then cap - numElems else cap + SIZE_MAX - numElems;
      code := Delete(from, numElems);
      if code != Ok {
        return Fail(2);
      }
    }

    /** vdll_deinit: every node goes. */
    method Deinit()
      requires Valid()
      modifies this, nodes`prev, nodes`next
      ensures Valid() && chain == []
    {
      if cap != 0 {
        ghost var c := chain;
        var _ := Shrink(cap);
        ShrinkTakesTailIff(c, |c|);
      }
    }
  }

  /** The index a new node gets: at the cursor or right behind it. */
  function Spot(len: nat, pos: nat, after: bool): (i: nat) {
    if len == 0 then 0 else if after then pos else pos + 1
  }
}
