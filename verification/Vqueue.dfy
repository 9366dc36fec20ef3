/** The ring buffer of src/vqueue.c, which may overwrite its oldest elements. The indices front and back are
    wrapped by the single operations and left unwrapped by the batch operations. */
module Vqueue {
  import opened Modular

  datatype Code = Ok | ExFull | NoData | Einval

  /** vqueue_wrap */
  function Wrap(pos: nat, cap: nat): (slot: nat)
    requires cap > 0
    ensures slot < cap
  {
    pos % cap
  }

  /** The elements from position front on, oldest first. */
  function Ring<T>(buf: seq<T>, front: nat, len: nat): (c: seq<T>)
    requires |buf| > 0
    ensures |c| == len
    ensures forall i :: 0 <= i < len ==> c[i] == buf[Wrap(front + i, |buf|)]
  {
    seq(len, i requires 0 <= i < len => buf[Wrap(front + i, |buf|)])
  }

  // ----- the sequence each operation stands for

  function EnqueueOne<T>(c: seq<T>, cap: nat, x: T, overwrite: bool): (r: seq<T>)
    requires 0 < cap && |c| <= cap
    ensures |r| <= cap
  {
    if |c| < cap then c + [x] else if overwrite then c[1..] + [x] else c
  }

  function EnqueueEach<T>(c: seq<T>, cap: nat, xs: seq<T>, overwrite: bool): (r: seq<T>)
    requires 0 < cap && |c| <= cap
    ensures |r| <= cap
    decreases |xs|
  {
    if xs == [] then c else EnqueueEach(EnqueueOne(c, cap, xs[0], overwrite), cap, xs[1..], overwrite)
  }

  function Last<T>(c: seq<T>, n: nat): (r: seq<T>) {
    if |c| <= n then c else c[|c| - n..]
  }

  lemma LastCases<T>(c: seq<T>, src: seq<T>, n: nat, cap: nat)
    requires n <= |src|
    ensures n == |src| ==> src[..n] == src
    ensures |c| + n <= cap ==> Last(c + src[..n], cap) == c + src[..n]
    ensures n == cap ==> Last(c + src[..n], cap) == src[..n]
  {
  }

  /** How many of n elements a batch takes. */
  function Taken(len: nat, cap: nat, n: nat, overwrite: bool): (m: nat)
    requires len <= cap
  {
    Min(n, if overwrite then cap else cap - len)
  }

  lemma LastStep<T>(c: seq<T>, cap: nat, x: T, rest: seq<T>, overwrite: bool)
    requires 0 < cap && |c| <= cap && (!overwrite ==> |c| < cap)
    ensures Last(EnqueueOne(c, cap, x, overwrite) + rest, cap) == Last(c + ([x] + rest), cap)
  {
    var all := c + ([x] + rest);
    if |c| < cap {
      assert (c + [x]) + rest == all;
    } else {
      assert (c[1..] + [x]) + rest == all[1..];
    }
  }

  /** Enqueuing the taken elements one at a time, with the same flag, leaves the last cap elements. */
  lemma {:induction false} EachKeepsLast<T>(c: seq<T>, cap: nat, xs: seq<T>, overwrite: bool)
    requires 0 < cap && |c| <= cap && (!overwrite ==> |c| + |xs| <= cap)
    ensures EnqueueEach(c, cap, xs, overwrite) == Last(c + xs, cap)
    decreases |xs|
  {
    if xs == [] {
      assert c + xs == c;
    } else {
      EachKeepsLast(EnqueueOne(c, cap, xs[0], overwrite), cap, xs[1..], overwrite);
      LastStep(c, cap, xs[0], xs[1..], overwrite);
      assert [xs[0]] + xs[1..] == xs;
    }
  }

  /** Without overwriting, offering all n elements one at a time takes exactly the first of them for which there is
      room, and these are the ones that a batch takes. */
  lemma {:induction false} EachStopsWhenFull<T>(c: seq<T>, cap: nat, xs: seq<T>)
    requires 0 < cap && |c| <= cap
    ensures EnqueueEach(c, cap, xs, false) == c + xs[..if |c| + |xs| <= cap then |xs| else cap - |c|]
    ensures EnqueueEach(c, cap, xs, false) == c + xs[..Taken(|c|, cap, |xs|, false)]
    decreases |xs|
  {
    if xs == [] {
      assert c + xs[..0] == c;
    } else if |c| < cap {
      EachStopsWhenFull(c + [xs[0]], cap, xs[1..]);
      var m := Taken(|c|, cap, |xs|, false);
      assert xs[..m] == [xs[0]] + xs[1..][..m - 1];
    } else {
      EachStopsWhenFull(c, cap, xs[1..]);
      assert c + xs[..0] == c == c + xs[1..][..0];
    }
  }

  // ----- the ring in the buffer

  /** buf' is buf with xs written into the slots from position end on. */
  ghost predicate Written<T>(buf: seq<T>, buf': seq<T>, end: nat, xs: seq<T>)
    requires |buf| > 0 && |buf'| == |buf|
  {
    && (forall j :: end <= j < end + |xs| ==> buf'[Wrap(j, |buf|)] == xs[j - end])
    && (forall i: nat :: end + |xs| <= i + |buf| && i < end ==> buf'[Wrap(i, |buf|)] == buf[Wrap(i, |buf|)])
  }

  /** Writing behind the ring appends, at the price of as many of the oldest elements as do not fit. */
  lemma WrittenAppends<T>(buf: seq<T>, buf': seq<T>, front: nat, len: nat, xs: seq<T>, drop: nat)
    requires |buf| > 0 && |buf'| == |buf| && len <= |buf| && |xs| <= |buf|
    requires drop == (if len + |xs| > |buf| then len + |xs| - |buf| else 0)
    requires Written(buf, buf', front + len, xs)
    ensures Ring(buf', front + drop, len + |xs| - drop) == (Ring(buf, front, len) + xs)[drop..]
  {
    var r := Ring(buf', front + drop, len + |xs| - drop);
    var e := (Ring(buf, front, len) + xs)[drop..];
    forall i | 0 <= i < |r|
      ensures r[i] == e[i]
    {
      var p := front + drop + i;
      assert r[i] == buf'[Wrap(p, |buf|)];
      if drop + i < len {
        assert e[i] == Ring(buf, front, len)[drop + i] == buf[Wrap(front + (drop + i), |buf|)];
      } else {
        assert e[i] == xs[p - (front + len)];
      }
    }
  }

  /** The ring depends on front only up to wrapping. */
  lemma RingWrap<T>(buf: seq<T>, front: nat, front': nat, len: nat)
    requires |buf| > 0 && Wrap(front, |buf|) == Wrap(front', |buf|)
    ensures Ring(buf, front, len) == Ring(buf, front', len)
  {
    var r, r' := Ring(buf, front, len), Ring(buf, front', len);
    forall i | 0 <= i < len
      ensures r[i] == r'[i]
    {
      ModStep(front, front', i, |buf|);
    }
  }

  lemma RingDrop<T>(buf: seq<T>, front: nat, len: nat, n: nat)
    requires |buf| > 0 && n <= len
    ensures Ring(buf, front + n, len - n) == Ring(buf, front, len)[n..]
  {
    var r, r' := Ring(buf, front + n, len - n), Ring(buf, front, len)[n..];
    forall i | 0 <= i < len - n
      ensures r[i] == r'[i]
    {
      assert front + n + i == front + (n + i);
    }
  }

  /** A copy of xs to the spots from slot start on writes xs behind position end. */
  lemma CopyWrites<T>(buf: seq<T>, buf': seq<T>, pos: nat, end: nat, xs: seq<T>)
    requires |buf| > 0 && |buf'| == |buf| && |xs| <= |buf| && Wrap(pos, |buf|) == Wrap(end, |buf|)
    requires forall i :: 0 <= i < |xs| ==> 0 <= CopySlot(Wrap(pos, |buf|), |buf|, i) < |buf|
                                           && buf'[CopySlot(Wrap(pos, |buf|), |buf|, i)] == xs[i]
    requires forall i :: |xs| <= i < |buf| ==>
               0 <= CopySlot(Wrap(pos, |buf|), |buf|, i) < |buf|
               && buf'[CopySlot(Wrap(pos, |buf|), |buf|, i)] == buf[CopySlot(Wrap(pos, |buf|), |buf|, i)]
    ensures Written(buf, buf', end, xs)
  {
    var cap := |buf|;
    forall j | end <= j < end + |xs|
      ensures buf'[Wrap(j, cap)] == xs[j - end]
    {
      CopySlotIs(pos, end, cap, j - end);
    }
    forall i: nat | end + |xs| <= i + cap && i < end
      ensures buf'[Wrap(i, cap)] == buf[Wrap(i, cap)]
    {
      CopySlotIs(pos, end, cap, i + cap - end);
      ModAdd(i, 1, cap);
    }
  }

  class VqueueQueue<T(0)> {
    var elems: array<T>
    var front: nat
    var back: nat
    var len: nat
    const cap: nat

    ghost predicate Valid()
      reads this, elems
    {
      cap > 0 && elems.Length == cap && len <= cap && Wrap(front + len, cap) == Wrap(back, cap)
    }

    ghost function Contents(): (c: seq<T>)
      reads this, elems
      requires Valid()
      ensures |c| == len
    {
      Ring(elems[..], front, len)
    }

    /** vqueue_init */
    constructor (numElems: nat)
      requires numElems > 0
      ensures Valid() && fresh(elems) && Contents() == [] && cap == numElems
    {
      elems := new T[numElems];
      front, back, len, cap := 0, 0, 0, numElems;
    }

    /** The state after xs has been written behind a ring of n elements from f on, whichever way the indices
        are kept. */
    lemma Settled(buf: seq<T>, f: nat, n: nat, xs: seq<T>, drop: nat)
      requires cap > 0 && elems.Length == cap == |buf| && n <= cap && |xs| <= cap
      requires drop == if n + |xs| > cap then n + |xs| - cap else 0
      requires Written(buf, elems[..], f + n, xs)
      requires len == n + |xs| - drop
      requires Wrap(front, cap) == Wrap(f + drop, cap) && Wrap(back, cap) == Wrap(f + n + |xs|, cap)
      ensures Valid()
      ensures Contents() == (Ring(buf, f, n) + xs)[drop..]
    {
      WrittenAppends(buf, elems[..], f, n, xs, drop);
      RingWrap(elems[..], f + drop, front, len);
      ModStep(front, f + drop, len, cap);
    }

    /** vqueue_enqueue */
    method Enqueue(x: T, overwrite: bool) returns (code: Code)
      requires Valid()
      modifies this, elems
      ensures Valid() && elems == old(elems)
      ensures code == if old(len) < cap || overwrite then Ok else ExFull
      ensures Contents() == EnqueueOne(old(Contents()), cap, x, overwrite)
    {
      var somethingWillBeOverwritten := false;
      if len == cap {
        if overwrite {
          somethingWillBeOverwritten := true;
        } else {
          return ExFull;
        }
      }
      ghost var buf, f, n, b := elems[..], front, len, back;
      elems[Wrap(back, cap)] := x;
      assert elems[..] == buf[Wrap(f + n, cap) := x];
      WriteOne(buf, f + n, x);
      back := Wrap(back + 1, cap);
      if somethingWillBeOverwritten {
        front := Wrap(front + 1, cap);
      } else {
        len := len + 1;
      }
      IndexAfter(b, f + n, 1, cap);
      IndexAfter(f, f, 1, cap);
      Settled(buf, f, n, [x], if n == cap then 1 else 0);
      return Ok;
    }

    /** The one or two memcpy calls of a batch enqueue. */
    method CopyIn(xs: seq<T>, ghost end: nat)
      requires cap > 0 && elems.Length == cap && |xs| <= cap && Wrap(back, cap) == Wrap(end, cap)
      modifies elems
      ensures Written(old(elems[..]), elems[..], end, xs)
    {
      ghost var buf := elems[..];
      var start := Wrap(back, cap);
      var beforeWrapping := cap - start;
      if beforeWrapping >= |xs| {
        forall i | 0 <= i < |xs| {
          elems[start + i] := xs[i];
        }
      } else {
        forall i | 0 <= i < beforeWrapping {
          elems[start + i] := xs[i];
        }
        forall i | 0 <= i < |xs| - beforeWrapping {
          elems[i] := xs[beforeWrapping + i];
        }
      }
      CopyWrites(buf, elems[..], back, end, xs);
    }

    /** The part of vqueue_enqueue_some that copies the elements it takes and moves the indices. */
    method EnqueueTaken(xs: seq<T>, canWithoutOverwriting: nat)
      requires Valid() && |xs| <= cap && canWithoutOverwriting == cap - len
      modifies this, elems
      ensures Valid() && elems == old(elems)
      ensures Contents() == Last(old(Contents()) + xs, cap)
    {
      ghost var buf, f, n, b := elems[..], front, len, back;
      CopyIn(xs, f + n);
      back := back + |xs|;
      if |xs| > canWithoutOverwriting {
        front := front + (|xs| - canWithoutOverwriting);
        len := len + canWithoutOverwriting;
      } else {
        len := len + |xs|;
      }
      TakenSettled(buf, f, n, b, xs);
    }

    /** The state after a batch enqueue has moved its indices. */
    lemma TakenSettled(buf: seq<T>, f: nat, n: nat, b: nat, xs: seq<T>)
      requires cap > 0 && elems.Length == cap == |buf| && n <= cap && |xs| <= cap
      requires Written(buf, elems[..], f + n, xs) && Wrap(b, cap) == Wrap(f + n, cap)
      requires back == b + |xs|
      requires var drop := if n + |xs| > cap then n + |xs| - cap else 0; front == f + drop && len == n + |xs| - drop
      ensures Valid()
      ensures Contents() == Last(Ring(buf, f, n) + xs, cap)
    {
      IndexAfter(b, f + n, |xs|, cap);
      Settled(buf, f, n, xs, if n + |xs| > cap then n + |xs| - cap else 0);
    }

    /** vqueue_enqueue_some */
    method EnqueueSome(src: seq<T>, overwrite: bool) returns (code: Code, numEnqueued: nat)
      requires Valid()
      modifies this, elems
      ensures Valid() && elems == old(elems)
      ensures numEnqueued == Taken(old(len), cap, |src|, overwrite)
      ensures code == if src == [] then Einval else if numEnqueued == |src| then Ok else ExFull
      ensures overwrite && |src| <= cap ==> numEnqueued == |src| && Contents() == Last(old(Contents()) + src, cap)
      ensures overwrite && |src| > cap ==> numEnqueued == cap && Contents() == src[..cap]
      ensures !overwrite && old(len) + |src| <= cap ==> numEnqueued == |src| && Contents() == old(Contents()) + src
      ensures !overwrite && old(len) + |src| > cap ==>
                old(len) + numEnqueued == cap && Contents() == old(Contents()) + src[..numEnqueued]
      ensures Contents() == Last(old(Contents()) + src[..numEnqueued], cap)
      ensures Contents() == EnqueueEach(old(Contents()), cap, src[..numEnqueued], overwrite)
    {
      ghost var c := Contents();
      var canWithoutOverwriting := cap - len;
      var canWithOverwriting := if overwrite then len else 0;
      var can := canWithOverwriting + canWithoutOverwriting;
      if src == [] || can == 0 {
        assert src[..0] == [] && c + [] == c;
        return if src == [] then Einval else ExFull, 0;
      }
      if can >= |src| {
        numEnqueued, code := |src|, Ok;
      } else {
        numEnqueued, code := can, ExFull;
      }
      EnqueueTaken(src[..numEnqueued], canWithoutOverwriting);
      EachKeepsLast(c, cap, src[..numEnqueued], overwrite);
      LastCases(c, src, numEnqueued, cap);
    }

    /** vqueue_dequeue; the result is None when the queue is empty. */
    method Dequeue() returns (code: Code, dest: T)
      requires Valid()
      modifies this
      ensures Valid() && elems == old(elems)
      ensures code == if old(len) == 0 then NoData else Ok
      ensures code == NoData ==> Contents() == old(Contents())
      ensures code == Ok ==> old(Contents()) == [dest] + Contents()
    {
      if len == 0 {
        dest := *;
        return NoData, dest;
      }
      ghost var f, n := front, len;
      dest := elems[Wrap(front, cap)];
      assert dest == Contents()[0];
      front := Wrap(front + 1, cap);
      len := len - 1;
      TookFront(f, n, 1);
      return Ok, dest;
    }

    /** The state after n0 elements have been taken off a ring of n elements from f on. */
    lemma TookFront(f: nat, n: nat, n0: nat)
      requires cap > 0 && elems.Length == cap && n0 <= n <= cap && len == n - n0
      requires Wrap(front, cap) == Wrap(f + n0, cap) || front == Wrap(f + n0, cap)
      requires Wrap(f + n, cap) == Wrap(back, cap)
      ensures Valid() && Contents() == Ring(elems[..], f, n)[n0..]
    {
      IndexAfter(f, f, n0, cap);
      RingDrop(elems[..], f, n, n0);
      RingWrap(elems[..], f + n0, front, len);
      ModStep(front, f + n0, len, cap);
    }

    /** vqueue_dequeue_some */
    method DequeueSome(atMost: nat) returns (code: Code, dest: seq<T>)
      requires Valid()
      modifies this
      ensures Valid() && elems == old(elems)
      ensures |dest| == Min(old(len), atMost)
      ensures code == if atMost == 0 then Einval else if |dest| == atMost then Ok else NoData
      ensures old(Contents()) == dest + Contents()
    {
      if atMost == 0 {
        return Einval, [];
      }
      if len == 0 {
        return NoData, [];
      }
      ghost var f, n := front, len;
      var should;
      if len >= atMost {
        should, code := atMost, Ok;
      } else {
        should, code := len, NoData;
      }
      dest := CopyOut(should);
      front := front + should;
      len := len - should;
      TookFront(f, n, should);
    }

    /** The one or two memcpy calls of a batch dequeue. */
    method CopyOut(n: nat) returns (dest: seq<T>)
      requires Valid() && n <= len
      ensures dest == Contents()[..n]
    {
      var start := Wrap(front, cap);
      var beforeWrapping := cap - start;
      if beforeWrapping >= n {
        dest := elems[start..start + n];
      } else {
        dest := elems[start..] + elems[..n - beforeWrapping];
      }
      forall i | 0 <= i < n
        ensures dest[i] == Contents()[i]
      {
        CopySlotIs(front, front, cap, i);
      }
    }

    /** vqueue_front */
    method Front() returns (code: Code, dest: T)
      requires Valid()
      ensures code == if len == 0 then NoData else Ok
      ensures code == Ok ==> dest == Contents()[0]
    {
      if len == 0 {
        dest := *;
        return NoData, dest;
      }
      return Ok, elems[Wrap(front, cap)];
    }

    /** vqueue_back: back is one ahead of the newest element. */
    method Back() returns (code: Code, dest: T)
      requires Valid()
      ensures code == if len == 0 then NoData else Ok
      ensures code == Ok ==> dest == Contents()[len - 1]
    {
      if len == 0 {
        dest := *;
        return NoData, dest;
      }
      IndexAfter(back, front + len, cap - 1, cap);
      ModAdd(front + len - 1, 1, cap);
      return Ok, elems[Wrap(cap + back - 1, cap)];
    }
  }

  lemma WriteOne<T>(buf: seq<T>, end: nat, x: T)
    requires |buf| > 0
    ensures Written(buf, buf[Wrap(end, |buf|) := x], end, [x])
  {
    var buf' := buf[Wrap(end, |buf|) := x];
    forall i: nat | end + 1 <= i + |buf| && i < end
      ensures buf'[Wrap(i, |buf|)] == buf[Wrap(i, |buf|)]
    {
      LapDistinct(i, end, |buf|);
    }
  }
}
