/** The pool allocator of src/vpool.c: headers that are swapped when a pool grows, so that the client's
    header always describes the newest block and the older ones hang on its prev chain. */
module Vpool {
  import opened Modular
  import opened PoolMemory

  datatype Kind = Static | Guided | Dynamic

  /** Overrun stands for a write past the end of the memory that was given. */
  datatype Code = Ok | Einval | Overrun

  const POINTER_SIZE: nat := 8

  // sizeof(Vpool) with 8-byte fields
  const HEADER_SIZE: nat := 56

  // size_t wraps at this bound
  const SIZE_MAX: nat := 0x1_0000_0000_0000_0000

  /** The memory that pools live in: first words of elements, and how many blocks have been obtained. */
  class Ram {
    var words: Words
    var blocks: nat

    constructor ()
      ensures words == map[] && blocks == 0
    {
      words, blocks := map[], 0;
    }
  }

  /** struct vpool; items is the block that follows the header. */
  datatype Struct = Struct(
    items: nat, elementSize: nat, stored: nat, capacity: nat, nextFree: Word, kind: Kind, prev: VpoolHeader?)

  function View(s: Struct): (b: Block) {
    Block(s.items, s.stored, s.capacity)
  }

  /** A place in memory that holds a struct vpool. The client keeps using the same place while its
      contents change hands. */
  class VpoolHeader {
    var s: Struct

    // the block in the same piece of memory as this place, and whether a growth obtained that piece
    ghost const own: nat
    ghost const grown: bool

    // for the client's header: the prev chain, the freed elements in order, the elements the client
    // holds, and the capacity the pool began with
    ghost var chain: seq<VpoolHeader>
    ghost var free: seq<Ptr>
    ghost var live: set<Ptr>
    ghost var first: nat

    ghost function Blocks(): (bs: seq<Block>)
      reads this, chain
      ensures |bs| == 1 + |chain| && bs[0] == View(s)
    {
      [View(s)] + Views(chain)
    }

    /** prev leads through chain, to an end, and never back to this header or to a header seen before. */
    ghost predicate Chained()
      reads this, chain
    {
      this !in chain && Distinct(chain) && Leads(s.prev, chain)
    }

    /** The places on the chain belong to the newer blocks and this place to the oldest, although the headers in
        them have been exchanged; the chain of a dynamic pool consists of what it has grown. */
    ghost predicate Owned()
      reads this, chain
    {
      && (forall i :: 0 <= i < |chain| ==> chain[i].own == Blocks()[i].id)
      && own == Blocks()[|chain|].id
      && (s.kind.Dynamic? ==> forall i :: 0 <= i < |chain| ==> chain[i].grown)
    }

    ghost predicate Valid(ram: Ram)
      reads this, chain, ram
    {
      && s.capacity > 0 && s.elementSize >= POINTER_SIZE
      && Chained() && Owned()
      && Inv(Blocks(), ram.words, s.nextFree, free, live)
      && (forall i :: 0 <= i < |Blocks()| ==> Blocks()[i].id < ram.blocks)
      && (s.kind.Dynamic? ==> Doubling(Blocks(), first))
      && (s.kind.Static? ==> chain == [])
    }

    constructor Raw(s: Struct, ghost grown: bool)
      ensures this.s == s && chain == [] && free == [] && live == {} && first == s.capacity
      ensures own == s.items && this.grown == grown
    {
      this.s := s;
      own, this.grown := s.items, grown;
      chain, free, live, first := [], [], {}, s.capacity;
    }

    /** vpool_init, with enough memory; null stands for its error. */
    static method Init(ram: Ram, numItems: nat, elemSize: nat, kind: Kind) returns (pool: VpoolHeader?)
      modifies ram
      ensures pool == null <==> numItems == 0 || elemSize == 0
      ensures pool == null ==> ram.words == old(ram.words) && ram.blocks == old(ram.blocks)
      ensures pool != null ==>
                && fresh(pool) && pool.Valid(ram) && pool.live == {} && pool.chain == []
                && pool.s.items == old(ram.blocks) && pool.s.stored == 0 && pool.s.capacity == numItems
                && pool.s.nextFree == Null && pool.s.kind == kind && pool.s.prev == null
                && pool.s.elementSize == (if elemSize < 8 then 8 else elemSize)
                && pool.first == numItems && pool.own == old(ram.blocks) && ram.blocks == old(ram.blocks) + 1
                && ram.words == old(ram.words) + NewSlots(old(ram.blocks), numItems)
    {
      if numItems == 0 || elemSize == 0 {
        return null;
      }
      pool := new VpoolHeader.Raw(Fresh(ram.blocks, numItems, elemSize, kind), false);
      ram.words := ram.words + NewSlots(ram.blocks, numItems);
      ram.blocks := ram.blocks + 1;
      assert pool.Blocks() == [Block(pool.s.items, 0, numItems)];
      assert numItems * Pow2(0) == numItems;
    }

    predicate Full()
      reads this
    {
      s.stored == s.capacity
    }

    /** Obtain memory for num slots, make a header of kind k in it that is its own prev, and exchange it with
        this header. */
    method Extend(ram: Ram, num: nat, k: Kind) returns (newPool: VpoolHeader)
      requires Chained() && Owned() && (k.Dynamic? ==> s.kind.Dynamic?)
      modifies this, ram
      ensures fresh(newPool) && chain == [newPool] + old(chain) && Chained() && Owned()
      ensures newPool.grown == k.Dynamic?
      ensures Blocks() == [Block(old(ram.blocks), 0, num)] + old(Blocks())
      ensures ram.blocks == old(ram.blocks) + 1
      ensures ram.words == old(ram.words) + NewSlots(old(ram.blocks), num)
      ensures s == Fresh(old(ram.blocks), num, old(s.elementSize), k).(prev := newPool)
      ensures newPool.s == old(s)
      ensures live == old(live) && free == old(free) && first == old(first)
    {
      ghost var rest, older, bs := chain, Views(chain), Blocks();
      newPool := new VpoolHeader.Raw(Fresh(ram.blocks, num, s.elementSize, k), k.Dynamic?);
      newPool.s := newPool.s.(prev := newPool);
      ram.words := ram.words + NewSlots(ram.blocks, num);
      ram.blocks := ram.blocks + 1;
      s, newPool.s := newPool.s, s;
      chain := [newPool] + rest;
      assert chain[1..] == rest && Views(rest) == older;
      assert Blocks() == [View(s)] + bs;
    }

    /** vpool_alloc; grown tells whether calloc succeeds if the pool has to grow. */
    method Alloc(ram: Ram, grown: bool) returns (elem: Word)
      requires Valid(ram)
      modifies this, ram
      ensures Valid(ram) && ram.blocks >= old(ram.blocks)
      ensures elem == Null <==> old(free) == [] && old(Full()) && !(old(s.kind).Dynamic? && grown)
      ensures elem == Null ==> s == old(s) && live == old(live) && free == old(free) && ram.words == old(ram.words)
      ensures elem != Null ==>
                && elem.To? && elem.p !in old(live) && live == old(live) + {elem.p}
                && Inside(Blocks(), elem.p)
                && (forall q :: q in old(live) ==>
                      q in ram.words && q in old(ram.words) && ram.words[q] == old(ram.words)[q])
      ensures old(free) != [] ==>
                && elem == To(old(free)[0]) && free == old(free)[1..]
                && elem.p in ram.words && ram.words[elem.p] == Null
      ensures old(free) == [] ==> free == []
      ensures first == old(first)
      ensures if elem != Null && old(free) == [] && old(Full())
              then chain != [] && chain[0].grown && chain[1..] == old(chain) && s.capacity == 2 * old(s.capacity)
              else chain == old(chain) && s.capacity == old(s.capacity)
      ensures s.kind == old(s.kind) && s.elementSize == old(s.elementSize)
      ensures s.stored == if elem == Null || old(free) != [] then old(s.stored)
                          else if old(Full()) then 1 else old(s.stored) + 1
      decreases if Full() && s.nextFree == Null then 1 else 0
    {
      if s.nextFree != Null {
        elem := PopFree(ram);
      } else if Full() {
        match s.kind {
          case Dynamic =>
            if !grown {
              return Null;
            }
            Regrow(ram);
            elem := Alloc(ram, grown);
          case _ =>
            return Null;
        }
      } else {
        elem := TakeNext(ram);
      }
    }

    /** The first branch of vpool_alloc: the top of the stack of freed elements. */
    method PopFree(ram: Ram) returns (elem: Word)
      requires Valid(ram) && free != []
      modifies this, ram
      ensures Valid(ram) && ram.blocks == old(ram.blocks)
      ensures elem == To(old(free)[0]) && elem.p !in old(live) && Inside(Blocks(), elem.p)
      ensures live == old(live) + {elem.p} && free == old(free)[1..]
      ensures ram.words == old(ram.words)[elem.p := Null]
      ensures s == old(s).(nextFree := s.nextFree) && chain == old(chain) && first == old(first)
    {
      ghost var bs := Blocks();
      AllocPops(bs, ram.words, s.nextFree, free, live);
      elem := s.nextFree;
      s := s.(nextFree := ram.words[elem.p]);
      ram.words := ram.words[elem.p := Null];
      live, free := live + {free[0]}, free[1..];
      assert Blocks() == bs;
      HandedIsInside(bs, ram.words, s.nextFree, free, live, elem.p);
    }

    /** The last branch of vpool_alloc: the next slot that has never been handed out. */
    method TakeNext(ram: Ram) returns (elem: Word)
      requires Valid(ram) && free == [] && !Full()
      modifies this
      ensures Valid(ram)
      ensures elem == To(Ptr(s.items, old(s.stored))) && elem.p !in old(live) && Inside(Blocks(), elem.p)
      ensures live == old(live) + {elem.p} && free == []
      ensures s == old(s).(stored := old(s.stored) + 1) && chain == old(chain) && first == old(first)
    {
      ghost var bs := Blocks();
      AllocTakes(bs, ram.words, live);
      elem := To(Ptr(s.items, s.stored));
      s := s.(stored := s.stored + 1);
      live := live + {elem.p};
      assert Blocks() == bs[0 := bs[0].(stored := bs[0].stored + 1)];
      HandedIsInside(Blocks(), ram.words, s.nextFree, free, live, elem.p);
    }

    /** The growth step of vpool_alloc: a block twice as large. */
    method Regrow(ram: Ram)
      requires Valid(ram) && Full() && free == [] && s.kind.Dynamic?
      modifies this, ram
      ensures Valid(ram) && !Full() && free == [] && s.nextFree == Null && s.kind.Dynamic?
      ensures live == old(live) && first == old(first)
      ensures chain != [] && fresh(chain[0]) && chain[0].grown && chain[1..] == old(chain)
      ensures chain[0].own == s.items == old(ram.blocks)
      ensures s.stored == 0 && s.capacity == 2 * old(s.capacity) && s.elementSize == old(s.elementSize)
      ensures ram.blocks == old(ram.blocks) + 1
      ensures forall q :: q in old(live) ==> q in ram.words && q in old(ram.words) && ram.words[q] == old(ram.words)[q]
    {
      ghost var bs := Blocks();
      GrowKeeps(bs, ram.words, s.nextFree, free, live, Block(ram.blocks, 0, 2 * s.capacity));
      DoublingGrows(bs, first, ram.blocks);
      LiveWords(bs, ram.words, s.nextFree, free, live, NewSlots(ram.blocks, 2 * s.capacity), ram.blocks);
      var _ := Extend(ram, 2 * s.capacity, Dynamic);
    }

    /** vpool_dealloc of an element the client holds. */
    method Dealloc(ram: Ram, elem: Ptr)
      requires Valid(ram) && elem in live
      modifies this, ram
      ensures Valid(ram) && ram.blocks == old(ram.blocks)
      ensures live == old(live) - {elem} && free == [elem] + old(free)
      ensures s == old(s).(nextFree := To(elem)) && chain == old(chain) && first == old(first)
      ensures ram.words == old(ram.words)[elem := old(s.nextFree)]
    {
      ghost var bs := Blocks();
      DeallocPushes(bs, ram.words, s.nextFree, free, live, elem);
      ram.words := ram.words[elem := Null];
      if s.nextFree != Null {
        ram.words := ram.words[elem := s.nextFree];
      }
      s := s.(nextFree := To(elem));
      live, free := live - {elem}, [elem] + free;
      assert Blocks() == bs;
    }

    /** The client writes to an element it holds. */
    method ClientWrite(ram: Ram, elem: Ptr, w: Word)
      requires Valid(ram) && elem in live
      modifies ram
      ensures Valid(ram) && ram.words == old(ram.words)[elem := w]
    {
      ClientWriteKeeps(Blocks(), ram.words, s.nextFree, free, live, elem, w);
      HandedIsInside(Blocks(), ram.words, s.nextFree, free, live, elem);
      ram.words := ram.words[elem := w];
    }

    /** How many elements vpool_guided_extend counts in memory of this size; the subtraction wraps. */
    function ItemsIn(memorySize: nat): (n: nat)
      requires s.elementSize > 0 && memorySize < SIZE_MAX
      reads this
    {
      var left := if memorySize < HEADER_SIZE then memorySize + SIZE_MAX - HEADER_SIZE else memorySize - HEADER_SIZE;
      Quotient(left, s.elementSize)
    }

    /** As many elements as fit behind a header, for memory that can hold one. */
    lemma ItemsFit(memorySize: nat)
      requires s.elementSize > 0 && memorySize < SIZE_MAX
      ensures var n := ItemsIn(memorySize);
              && (HEADER_SIZE <= memorySize ==>
                    HEADER_SIZE + n * s.elementSize <= memorySize < HEADER_SIZE + (n + 1) * s.elementSize)
              && (n == 0 <==> || HEADER_SIZE <= memorySize < HEADER_SIZE + s.elementSize
                              || (memorySize < HEADER_SIZE && memorySize + SIZE_MAX < HEADER_SIZE + s.elementSize))
    {
      var left := if memorySize < HEADER_SIZE then memorySize + SIZE_MAX - HEADER_SIZE else memorySize - HEADER_SIZE;
      QuotientIs(left, s.elementSize);
    }

    /** vpool_guided_extend. Memory smaller than a header is overrun unless the call is refused; nothing is then known
        of what lies behind that memory. */
    method GuidedExtend(ram: Ram, memorySize: nat) returns (code: Code)
      requires Valid(ram) && memorySize < SIZE_MAX
      modifies this, ram
      ensures code != Overrun ==> Valid(ram) && live == old(live) && free == old(free)
      ensures code == Einval <==>
                old(s.kind).Static? || HEADER_SIZE <= memorySize < HEADER_SIZE + old(s.elementSize)
                || (memorySize < HEADER_SIZE && memorySize + SIZE_MAX < HEADER_SIZE + old(s.elementSize))
      ensures code == Overrun ==> memorySize < HEADER_SIZE
      ensures code == Ok ==>
                HEADER_SIZE + s.capacity * s.elementSize <= memorySize < HEADER_SIZE + (s.capacity + 1) * s.elementSize
      ensures code == Einval ==> s == old(s) && chain == old(chain) && ram.words == old(ram.words)
      ensures code == Ok ==>
                && s.capacity > 0 && s.stored == 0 && s.kind == Guided && s.elementSize == old(s.elementSize)
                && Blocks()[1..] == old(Blocks())
                && chain != [] && !chain[0].grown && chain[1..] == old(chain)
      ensures code != Overrun ==>
                forall q :: q in live ==> q in ram.words && q in old(ram.words) && ram.words[q] == old(ram.words)[q]
    {
      var numItems := ItemsIn(memorySize);
      ItemsFit(memorySize);
      KeepsHeld(ram, numItems);
      if s.kind == Static || numItems == 0 {
        return Einval;
      }
      if memorySize < HEADER_SIZE {
        return Overrun;
      }
      ExchangeIn(ram, numItems);
      return Ok;
    }

    /** New slots change no word that is held. */
    lemma KeepsHeld(ram: Ram, n: nat)
      requires Valid(ram)
      ensures var more := ram.words + NewSlots(ram.blocks, n);
              forall q :: q in live ==> q in ram.words && q in more && more[q] == ram.words[q]
    {
      LiveWords(Blocks(), ram.words, s.nextFree, free, live, NewSlots(ram.blocks, n), ram.blocks);
    }

    method SetNextFree(w: Word)
      requires Chained() && Owned()
      modifies this`s
      ensures s == old(s).(nextFree := w) && Chained() && Owned() && Blocks() == old(Blocks())
    {
      s := s.(nextFree := w);
    }

    lemma Assembled(ram: Ram, bs: seq<Block>)
      requires Chained() && Owned() && Blocks() == bs && Inv(bs, ram.words, s.nextFree, free, live)
      requires s.kind.Guided? && s.capacity > 0 && s.elementSize >= POINTER_SIZE
      requires forall i :: 0 <= i < |bs| ==> bs[i].id < ram.blocks
      ensures Valid(ram)
    {
    }

    /** The header exchange of vpool_guided_extend, which keeps the stack of freed elements. */
    method ExchangeIn(ram: Ram, numItems: nat)
      requires Valid(ram) && numItems > 0 && !s.kind.Static?
      modifies this, ram
      ensures Valid(ram) && live == old(live) && free == old(free)
      ensures s.capacity == numItems && s.stored == 0 && s.kind == Guided && s.elementSize == old(s.elementSize)
      ensures Blocks()[1..] == old(Blocks()) && chain != [] && !chain[0].grown && chain[1..] == old(chain)
      ensures ram.words == old(ram.words) + NewSlots(old(ram.blocks), numItems)
    {
      ghost var bs := Blocks();
      ghost var now := [Block(ram.blocks, 0, numItems)] + bs;
      var nextFree := s.nextFree;
      GrowKeeps(bs, ram.words, nextFree, free, live, Block(ram.blocks, 0, numItems));
      IdsBelow(bs, Block(ram.blocks, 0, numItems), ram.blocks + 1);
      SetNextFree(Null);
      var newPool := Extend(ram, numItems, Guided);
      SetNextFree(nextFree);
      Assembled(ram, now);
    }

    /** The places that vpool_deinit gives back to free, in order. */
    ghost function Freed(): (freed: seq<VpoolHeader>)
      reads this
    {
      if s.kind.Dynamic? then chain else []
    }

    /** Of a dynamic pool these are the memory of every block but the first, once each. */
    lemma FreedBlocks()
      requires Chained() && Owned()
      ensures this !in Freed() && Distinct(Freed())
      ensures s.kind.Dynamic? ==>
                && |Blocks()| == |Freed()| + 1 && own == Blocks()[|Freed()|].id
                && forall i :: 0 <= i < |Freed()| ==> Freed()[i].own == Blocks()[i].id
    {
    }

    /** What has been grown is given back, and nothing else, if and only if the pool is still dynamic or has never
        grown. */
    lemma FreesGrownIff()
      requires Chained() && Owned()
      ensures (forall h :: h in Freed() <==> h in chain && h.grown)
              <==> s.kind.Dynamic? || forall h :: h in chain ==> !h.grown
    {
      if s.kind.Dynamic? {
        assert forall h :: h in chain ==> h.grown;
      } else if h :| h in chain && h.grown {
        assert h !in Freed();
      }
    }

    /** vpool_deinit */
    method Deinit() returns (freed: seq<VpoolHeader>)
      requires Chained()
      ensures freed == Freed()
    {
      if s.kind.Dynamic? {
        freed := Collect(s.prev, chain);
      } else {
        freed := [];
      }
    }

    /** The loop of vpool_deinit, from the header before this one on. */
    static method Collect(prev: VpoolHeader?, ghost chain: seq<VpoolHeader>) returns (freed: seq<VpoolHeader>)
      requires Leads(prev, chain)
      ensures freed == chain
    {
      freed := [];
      var iterate := prev;
      while iterate != null
        invariant |freed| <= |chain| && freed == chain[..|freed|] && Leads(iterate, chain[|freed|..])
        decreases |chain| - |freed|
      {
        assert chain[|freed|..][1..] == chain[|freed| + 1..];
        freed := freed + [iterate];
        iterate := iterate.s.prev;
      }
    }

    /** A static pool refuses exactly when the client holds all capacity elements. */
    lemma StaticFullIff(ram: Ram)
      requires Valid(ram) && s.kind.Static?
      ensures |live| + |free| == s.stored
      ensures free == [] && Full() <==> |live| == s.capacity
    {
      assert Blocks() == [View(s)];
      OneBlockCount(View(s), ram.words, s.nextFree, free, live);
    }

    /** A dynamic pool that has grown k times owns first * (2^(k+1) - 1) slots. */
    lemma DynamicTotal(ram: Ram)
      requires Valid(ram) && s.kind.Dynamic?
      ensures Sum(Blocks()) == first * (Pow2(|chain| + 1) - 1)
    {
      DoublingTotal(Blocks(), first);
    }
  }

  /** A dynamic pool of one element that has grown at the second allocation. */
  method GrownPool(ram: Ram) returns (pool: VpoolHeader)
    modifies ram
    ensures fresh(pool) && pool.Valid(ram) && pool.s.kind == Dynamic && pool.s.elementSize == 8
    ensures |pool.chain| == 1 && pool.chain[0].grown
  {
    var made := VpoolHeader.Init(ram, 1, 8, Dynamic);
    pool := made;
    var first := pool.Alloc(ram, true);
    assert pool.Full() && pool.free == [];
    var second := pool.Alloc(ram, true);
  }

  lemma NineFit(capacity: nat)
    requires HEADER_SIZE + capacity * 8 <= 128 < HEADER_SIZE + (capacity + 1) * 8
    ensures capacity == 9
  {
  }

  /** A dynamic pool that has grown is extended by 128 bytes, 9 elements of 8 bytes behind a header. After that deinit
      gives back nothing, and the block of the growth is lost. */
  method ExtendedPoolLeaks(ram: Ram) returns (pool: VpoolHeader, freed: seq<VpoolHeader>)
    modifies ram
    ensures freed == [] && |pool.chain| == 2 && pool.chain[1].grown && fresh(pool) && pool.s.capacity == 9
  {
    pool := GrownPool(ram);
    ghost var grown := pool.chain;
    var code := pool.GuidedExtend(ram, 128);
    assert pool.chain == [pool.chain[0]] + grown;
    NineFit(pool.s.capacity);
    freed := pool.Deinit();
  }

  lemma IdsBelow(bs: seq<Block>, b: Block, n: nat)
    requires b.id < n && forall i :: 0 <= i < |bs| ==> bs[i].id < n
    ensures forall i :: 0 <= i < |[b] + bs| ==> ([b] + bs)[i].id < n
    ensures ([b] + bs)[1..] == bs
  {
  }

  function Quotient(a: nat, b: nat): (q: nat)
    requires b > 0
  {
    a / b
  }

  lemma QuotientIs(a: nat, b: nat)
    requires b > 0
    ensures Quotient(a, b) * b <= a < (Quotient(a, b) + 1) * b
    ensures Quotient(a, b) == 0 <==> a < b
  {
    assert a == a / b * b + a % b;
    assert (a / b + 1) * b == a / b * b + b;
    if a < b {
      DivModUnique(a, 0, a, b);
    } else {
      assert a / b >= 1;
    }
  }

  /** The struct that _vpool_init makes, with prev NULL. */
  function Fresh(items: nat, numItems: nat, elemSize: nat, kind: Kind): (s: Struct) {
    Struct(items, if elemSize < POINTER_SIZE then POINTER_SIZE else elemSize, 0, numItems, Null, kind, null)
  }

  lemma LiveWords(bs: seq<Block>, words: Words, nextFree: Word, free: seq<Ptr>, live: set<Ptr>, more: Words, id: nat)
    requires Inv(bs, words, nextFree, free, live) && (forall p :: p in more ==> p.block == id)
    requires forall i :: 0 <= i < |bs| ==> bs[i].id < id
    ensures forall q :: q in live ==> q in words && q in words + more && (words + more)[q] == words[q]
  {
    forall q | q in live
      ensures q in words && (words + more)[q] == words[q]
    {
      HandedIsInside(bs, words, nextFree, free, live, q);
    }
  }

  ghost predicate Distinct(chain: seq<VpoolHeader>) {
    chain != [] ==> chain[0] !in chain[1..] && Distinct(chain[1..])
  }

  /** Following prev from h on visits exactly the headers of chain, in order. */
  ghost predicate Leads(h: VpoolHeader?, chain: seq<VpoolHeader>)
    reads chain
  {
    if chain == [] then h == null else h == chain[0] && Leads(chain[0].s.prev, chain[1..])
  }

  ghost function Views(chain: seq<VpoolHeader>): (bs: seq<Block>)
    reads chain
    ensures |bs| == |chain|
  {
    if chain == [] then [] else [View(chain[0].s)] + Views(chain[1..])
  }
}
