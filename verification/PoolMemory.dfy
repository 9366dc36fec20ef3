/** The bookkeeping of src/vpool.c as a value: blocks of slots, a free list threaded through the first words
    of freed slots, and the slots the client holds. */
module PoolMemory {

  /** The address of an element: slot number slot of block number block. */
  datatype Ptr = Ptr(block: nat, slot: nat)

  /** What the first word of an element, or a next_free field, holds. */
  datatype Word = Null | To(p: Ptr) | Data(d: int)

  /** One header's view of its block: the first stored of capacity slots have been handed out. */
  datatype Block = Block(id: nat, stored: nat, capacity: nat)

  type Words = map<Ptr, Word>

  /** A slot that some header has handed out at some time. */
  ghost predicate Handed(blocks: seq<Block>, p: Ptr) {
    exists i :: 0 <= i < |blocks| && p.block == blocks[i].id && p.slot < blocks[i].stored
  }

  /** A slot of some block of the pool. */
  ghost predicate Inside(blocks: seq<Block>, p: Ptr) {
    exists i :: 0 <= i < |blocks| && p.block == blocks[i].id && p.slot < blocks[i].capacity
  }

  ghost predicate Separate(blocks: seq<Block>) {
    && (forall i :: 0 <= i < |blocks| ==> blocks[i].stored <= blocks[i].capacity)
    && (forall i, j :: 0 <= i < j < |blocks| ==> blocks[i].id != blocks[j].id)
  }

  ghost predicate NoDuplicates(s: seq<Ptr>) {
    forall i, j :: 0 <= i < j < |s| ==> s[i] != s[j]
  }

  function Head(free: seq<Ptr>): (w: Word) {
    if free == [] then Null else To(free[0])
  }

  /** next_free leads through the freed slots in the order of free and ends: no cycle. */
  ghost predicate Threaded(words: Words, nextFree: Word, free: seq<Ptr>) {
    && nextFree == Head(free)
    && NoDuplicates(free)
    && (forall i :: 0 <= i < |free| ==> free[i] in words && words[free[i]] == Head(free[i + 1..]))
  }

  ghost predicate Inv(blocks: seq<Block>, words: Words, nextFree: Word, free: seq<Ptr>, live: set<Ptr>) {
    && |blocks| > 0 && Separate(blocks)
    && Threaded(words, nextFree, free)
    && (forall p :: p in live ==> p !in free)
    && (forall p :: Handed(blocks, p) <==> p in live || p in free)
    && (forall p :: Inside(blocks, p) ==> p in words)
  }

  /** Everything the client holds, and everything on the free list, is a slot of one of the blocks. */
  lemma HandedIsInside(blocks: seq<Block>, words: Words, nextFree: Word, free: seq<Ptr>, live: set<Ptr>, p: Ptr)
    requires Inv(blocks, words, nextFree, free, live) && (p in live || p in free)
    ensures Inside(blocks, p)
  {
    assert Handed(blocks, p);
  }

  // ----- vpool_alloc

  /** Popping the free list. */
  lemma AllocPops(blocks: seq<Block>, words: Words, nextFree: Word, free: seq<Ptr>, live: set<Ptr>)
    requires Inv(blocks, words, nextFree, free, live) && free != []
    ensures free[0] !in live && free[0] in words && nextFree == To(free[0])
    ensures Inv(blocks, words[free[0] := Null], words[free[0]], free[1..], live + {free[0]})
  {
    var rest := free[1..];
    assert words[free[0]] == Head(rest);
    forall i | 0 <= i < |rest|
      ensures rest[i] in words && words[rest[i]] == Head(rest[i + 1..]) && rest[i] != free[0]
    {
      assert free[i + 1] == rest[i] && free[i + 1 + 1..] == rest[i + 1..];
    }
    assert forall p :: p in free <==> p == free[0] || p in rest;
  }

  /** Taking the next untouched slot of the current block. */
  lemma AllocTakes(blocks: seq<Block>, words: Words, live: set<Ptr>)
    requires Inv(blocks, words, Null, [], live) && blocks[0].stored < blocks[0].capacity
    ensures var b := blocks[0];
            var p := Ptr(b.id, b.stored);
            && p !in live && Inside(blocks, p)
            && Inv(blocks[0 := b.(stored := b.stored + 1)], words, Null, [], live + {p})
  {
    var b := blocks[0];
    var p := Ptr(b.id, b.stored);
    var bs := blocks[0 := b.(stored := b.stored + 1)];
    assert Inside(blocks, p);
    forall q
      ensures Handed(bs, q) <==> Handed(blocks, q) || q == p
      ensures Inside(bs, q) ==> Inside(blocks, q)
    {
      if Handed(blocks, q) {
        var i :| 0 <= i < |blocks| && q.block == blocks[i].id && q.slot < blocks[i].stored;
        assert q.block == bs[i].id && q.slot < bs[i].stored;
      }
      if q == p { assert q.block == bs[0].id && q.slot < bs[0].stored; }
    }
  }

  /** Putting a new, empty block in front. Its slots are zeroed by calloc. */
  function NewSlots(id: nat, capacity: nat): (w: Words)
    ensures forall p :: p in w <==> p.block == id && p.slot < capacity
    ensures forall p :: p in w ==> w[p] == Null
  {
    map i: nat | i < capacity :: Ptr(id, i) := Null
  }

  lemma GrowKeeps(blocks: seq<Block>, words: Words, nextFree: Word, free: seq<Ptr>, live: set<Ptr>, b: Block)
    requires Inv(blocks, words, nextFree, free, live) && b.stored == 0
    requires forall i :: 0 <= i < |blocks| ==> blocks[i].id < b.id
    ensures Inv([b] + blocks, words + NewSlots(b.id, b.capacity), nextFree, free, live)
  {
    var bs := [b] + blocks;
    var ws := words + NewSlots(b.id, b.capacity);
    forall q
      ensures Handed(bs, q) <==> Handed(blocks, q)
      ensures Inside(bs, q) ==> q in ws
    {
      if Handed(blocks, q) {
        var i :| 0 <= i < |blocks| && q.block == blocks[i].id && q.slot < blocks[i].stored;
        assert bs[i + 1] == blocks[i];
      }
      if Inside(bs, q) {
        var i :| 0 <= i < |bs| && q.block == bs[i].id && q.slot < bs[i].capacity;
        if i > 0 { assert bs[i] == blocks[i - 1]; }
      }
    }
    forall i | 0 <= i < |free|
      ensures free[i] in ws && ws[free[i]] == words[free[i]]
    {
      assert Handed(blocks, free[i]);
    }
  }

  // ----- vpool_dealloc and the client

  lemma DeallocPushes(blocks: seq<Block>, words: Words, nextFree: Word, free: seq<Ptr>, live: set<Ptr>, p: Ptr)
    requires Inv(blocks, words, nextFree, free, live) && p in live
    ensures Inv(blocks, words[p := nextFree], To(p), [p] + free, live - {p})
  {
    var f := [p] + free;
    var w := words[p := nextFree];
    forall i | 0 <= i < |f|
      ensures f[i] in w && w[f[i]] == Head(f[i + 1..])
    {
      if i == 0 { assert f[1..] == free; } else { assert f[i] == free[i - 1] && f[i + 1..] == free[i..]; }
    }
    assert forall q :: q in f <==> q == p || q in free;
  }

  /** The client may write what it likes into the elements it holds. */
  lemma ClientWriteKeeps(
    blocks: seq<Block>, words: Words, nextFree: Word, free: seq<Ptr>, live: set<Ptr>, p: Ptr, w: Word)
    requires Inv(blocks, words, nextFree, free, live) && p in live
    ensures Inv(blocks, words[p := w], nextFree, free, live)
  {
  }

  // ----- counting

  function Sum(blocks: seq<Block>): (n: nat) {
    if blocks == [] then 0 else blocks[0].capacity + Sum(blocks[1..])
  }

  function Pow2(n: nat): (p: nat)
    ensures p > 0
  {
    if n == 0 then 1 else 2 * Pow2(n - 1)
  }

  /** The blocks of a dynamic pool that started with c slots: each is full but the newest, and each is twice
      the size of the one before it. */
  ghost predicate Doubling(blocks: seq<Block>, c: nat) {
    && |blocks| > 0
    && (forall i :: 0 <= i < |blocks| ==> blocks[i].capacity == c * Pow2(|blocks| - 1 - i))
    && (forall i :: 0 < i < |blocks| ==> blocks[i].stored == blocks[i].capacity)
  }

  lemma DoublingGrows(blocks: seq<Block>, c: nat, id: nat)
    requires Doubling(blocks, c) && blocks[0].stored == blocks[0].capacity
    ensures Doubling([Block(id, 0, 2 * blocks[0].capacity)] + blocks, c)
  {
    var k := |blocks|;
    assert blocks[0].capacity == c * Pow2(k - 1);
    assert 2 * (c * Pow2(k - 1)) == c * Pow2(k);
  }

  /** After k growths a pool that started with c slots has c * (2^(k+1) - 1) of them. */
  lemma {:induction false} DoublingTotal(blocks: seq<Block>, c: nat)
    requires Doubling(blocks, c)
    ensures Sum(blocks) == c * (Pow2(|blocks|) - 1)
  {
    var k := |blocks|;
    var rest := blocks[1..];
    if k == 1 {
      assert Sum(rest) == 0;
      assert blocks[0].capacity == c * Pow2(0) == c * (Pow2(1) - 1);
    } else {
      assert forall i :: 0 <= i < |rest| ==> rest[i] == blocks[i + 1];
      DoublingTotal(rest, c);
      Distribute(c, Pow2(k - 1));
    }
  }

  lemma Distribute(c: nat, p: nat)
    ensures c * p + c * (p - 1) == c * (2 * p - 1)
  {
    assert c * p + c * (p - 1) == c * (p + (p - 1));
  }

  ghost function SlotSet(id: nat, n: nat): (s: set<Ptr>)
    ensures |s| == n
    ensures forall p :: p in s <==> p.block == id && p.slot < n
  {
    if n == 0 then {} else SlotSet(id, n - 1) + {Ptr(id, n - 1)}
  }

  ghost function Elements(s: seq<Ptr>): (r: set<Ptr>)
    ensures forall p :: p in r <==> p in s
  {
    set p | p in s
  }

  lemma {:induction false} ElementCount(s: seq<Ptr>)
    requires NoDuplicates(s)
    ensures |Elements(s)| == |s|
  {
    if s != [] {
      ElementCount(s[1..]);
      assert Elements(s) == Elements(s[1..]) + {s[0]};
    }
  }

  /** In a pool of one block, held and freed elements together are those handed out. */
  lemma OneBlockCount(b: Block, words: Words, nextFree: Word, free: seq<Ptr>, live: set<Ptr>)
    requires Inv([b], words, nextFree, free, live)
    ensures |live| + |free| == b.stored
  {
    ElementCount(free);
    forall p
      ensures p in SlotSet(b.id, b.stored) <==> p in live || p in Elements(free)
    {
      assert Handed([b], p) <==> p in live || p in free;
      if p.block == b.id && p.slot < b.stored { assert p.block == [b][0].id && p.slot < [b][0].stored; }
    }
    assert SlotSet(b.id, b.stored) == live + Elements(free);
    assert live !! Elements(free);
  }
}
