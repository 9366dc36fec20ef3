/** The arena of src/varena.c, whose frame records lie in the bytes it hands out, proved against the frame stack. */
module Varena {
  import opened ArenaStack

  datatype Code = Done | Fail(code: nat) | Crash

  function Total(regions: seq<Region>): (n: nat) {
    if regions == [] then 0 else regions[0].len + Total(regions[1..])
  }

  lemma {:induction false} TilesTotal(regions: seq<Region>, from: nat, to: nat)
    requires Tiles(regions, from, to)
    ensures to == from + Total(regions)
  {
    if regions != [] {
      TilesTotal(regions[1..], from + regions[0].len, to);
    }
  }

  class Arena {
    const bytes: array<Byte>
    var top: nat
    var bottom: nat
    const capacity: nat
    ghost var levels: seq<Level>

    ghost predicate Valid()
      reads this, bytes
    {
      && capacity == bytes.Length < SIZE_MAX
      && top == Top(levels) && bottom == Bottom(levels)
      && Stacked(levels, bytes[..])
    }

    /** An arena of numBytes zero bytes with no frame. */
    constructor (numBytes: nat)
      requires 0 < numBytes < SIZE_MAX
      ensures Valid() && fresh(bytes)
      ensures levels == [] && capacity == numBytes && forall i :: 0 <= i < numBytes ==> bytes[i] == 0
    {
      bytes := new Byte[numBytes](i => 0);
      top, bottom, capacity, levels := 0, 0, numBytes, [];
    }

    /** Where a frame of n bytes would end, with sizes that wrap. */
    function Reach(n: nat): (b: nat)
      reads this
    {
      (bottom + (n + FRAME) % SIZE_MAX) % SIZE_MAX
    }

    lemma ReachIs(n: nat)
      requires Valid() && n < SIZE_MAX
      ensures bottom + n + FRAME < SIZE_MAX ==> Reach(n) == bottom + n + FRAME
      ensures bottom + n + FRAME >= SIZE_MAX && Reach(n) <= capacity ==> Reach(n) < bottom + FRAME
    {
      Bounds(levels, bytes[..]);
      if n + FRAME < SIZE_MAX {
        assert (n + FRAME) % SIZE_MAX == n + FRAME;
      } else {
        assert (n + FRAME) % SIZE_MAX == n + FRAME - SIZE_MAX;
      }
    }

    /** Copies a record to the last bytes below bottom. */
    method CopyRecord(record: Record)
      requires FRAME <= bottom <= bytes.Length
      modifies bytes
      ensures bytes[bottom - FRAME..bottom] == Encoded(record)
      ensures bytes[..bottom - FRAME] == old(bytes[..bottom - FRAME])
      ensures bytes[bottom..] == old(bytes[bottom..])
    {
      var saved := Encoded(record);
      forall i | 0 <= i < FRAME {
        bytes[bottom - FRAME + i] := saved[i];
      }
    }

    /** Makes the arena end its innermost frame at end and saves the old top and bottom there, if end leaves
        room for them at all. */
    method Open(end: nat) returns (code: Code)
      requires Valid() && end <= capacity
      modifies this, bytes
      ensures code == if end < FRAME then Crash else Done
      ensures top == old(bottom) && bottom == end
      ensures Valid() <==> old(bottom) + FRAME <= end
      ensures levels == [Level(old(bottom), old(bottom), end, [])] + old(levels)
      ensures code == Done ==>
                && RecordAt(bytes[..], end) == Record(old(top), old(bottom))
                && bytes[..end - FRAME] == old(bytes[..])[..end - FRAME]
                && bytes[end..] == old(bytes[..])[end..]
    {
      var record := Record(top, bottom);
      ghost var was, before := levels, bytes[..];
      top := bottom;
      bottom := end;
      levels := [Level(record.bottom, record.bottom, bottom, [])] + levels;
      assert levels[1..] == was;
      if bottom < FRAME {
        return Crash;
      }
      CopyRecord(record);
      Bounds(was, before);
      RecordRoundTrip(bytes[..], bottom, record);
      if record.bottom + FRAME <= bottom {
        RecordKept(was, before, bytes[..], record, bottom);
      }
      return Done;
    }

    /** Opens a frame of n bytes. The arena stays well formed exactly when the request is refused or its size does
        not wrap; an accepted request that wraps leaves a frame too small to hold its own record. */
    method Claim(n: nat) returns (code: Code)
      requires Valid() && n < SIZE_MAX
      modifies this, bytes
      ensures Valid() <==> n == 0 || old(Reach(n)) > capacity || old(bottom) + n + FRAME < SIZE_MAX
      ensures code == Fail(4) <==> n != 0 && old(Reach(n)) > capacity
      ensures Valid() ==> levels == Apply(old(levels), capacity, Op.Claim(n))
      ensures Valid() ==>
                code == if n == 0 then Fail(3) else if old(bottom) + n + FRAME > capacity then Fail(4) else Done
      ensures !Valid() ==> top == old(bottom) && bottom < top + FRAME
      ensures code == Crash <==> n != 0 && old(Reach(n)) <= capacity && old(Reach(n)) < FRAME
      ensures code.Fail? ==> unchanged(this, bytes)
      ensures code == Done ==>
                && bottom == old(Reach(n)) && FRAME <= bottom <= bytes.Length
                && RecordAt(bytes[..], bottom) == Record(old(top), old(bottom))
                && bytes[..bottom - FRAME] == old(bytes[..])[..bottom - FRAME]
                && bytes[bottom..] == old(bytes[..])[bottom..]
    {
      if n == 0 {
        return Fail(3);
      }
      ReachIs(n);
      var end := (bottom + (n + FRAME) % SIZE_MAX) % SIZE_MAX;
      assert end == Reach(n);
      if end > capacity {
        return Fail(4);
      }
      ghost var fits := end == bottom + n + FRAME;
      assert fits <==> bottom + n + FRAME < SIZE_MAX;
      assert fits ==> Apply(levels, capacity, Op.Claim(n)) == [Level(bottom, bottom, end, [])] + levels;
      code := Open(end);
    }

    /** Closes the innermost frame and takes top and bottom from its record. */
    method Disclaim() returns (code: Code)
      requires Valid()
      modifies this
      ensures Valid() && levels == Apply(old(levels), capacity, Op.Disclaim)
      ensures code == if old(levels) == [] then Fail(3) else Done
    {
      if levels != [] {
        LevelBounds(levels, bytes[..], 0);
      }
      if bottom < FRAME {
        return Fail(3);
      }
      var record := RecordAt(bytes[..], bottom);
      top := record.top;
      bottom := record.bottom;
      levels := levels[1..];
      return Done;
    }

    /** Takes n bytes of the innermost frame; -1 is the null pointer. The region handed out lies in the frame
        exactly when the size does not wrap, and only then the arena is still well formed. */
    method Alloc(n: nat) returns (start: int)
      requires Valid() && levels != [] && n < SIZE_MAX
      modifies this
      ensures Valid() <==> (old(top) + n) % SIZE_MAX > bottom - FRAME || old(top) + n < SIZE_MAX
      ensures start == -1 <==> (old(top) + n) % SIZE_MAX > bottom - FRAME
      ensures Valid() ==> levels == Apply(old(levels), capacity, Op.Alloc(n))
      ensures Valid() ==> start == if old(top) + n + FRAME > bottom then -1 else old(top)
      ensures !Valid() ==> start == old(top) && start + n > capacity && top == start + n - SIZE_MAX
      ensures bottom == old(bottom)
    {
      LevelBounds(levels, bytes[..], 0);
      if (top + n) % SIZE_MAX > bottom - FRAME {
        return -1;
      }
      start := top;
      ghost var wraps := top + n >= SIZE_MAX;
      assert wraps ==> (top + n) % SIZE_MAX == top + n - SIZE_MAX;
      top := (top + n) % SIZE_MAX;
      if !wraps {
        ghost var l := levels[0];
        TilesAppend(l.regions, l.base, l.top, n);
        levels := [Level(l.base, l.top + n, l.bottom, l.regions + [Region(l.top, n)])] + levels[1..];
      }
    }

    /** A client stores a byte in an allocation of any frame; no frame record changes. */
    method ClientWrite(i: nat, a: nat, at: nat, x: Byte)
      requires Valid() && i < |levels| && a < |levels[i].regions|
      requires levels[i].regions[a].start <= at < levels[i].regions[a].start + levels[i].regions[a].len
      requires at < bytes.Length
      modifies bytes
      ensures Valid() && bytes[..] == old(bytes[..])[at := x]
    {
      ghost var before := bytes[..];
      bytes[at] := x;
      forall j | 0 <= j < |levels|
        ensures FRAME <= levels[j].bottom <= |before|
        ensures bytes[..][levels[j].bottom - FRAME..levels[j].bottom]
             == before[levels[j].bottom - FRAME..levels[j].bottom]
      {
        LevelBounds(levels, before, j);
        RecordsClear(levels, before, i, a, j);
      }
      StackedFrame(levels, before, bytes[..]);
    }

    /** The bytes used in the innermost frame are what its allocations add up to. */
    method FrameUsed() returns (n: nat)
      requires Valid() && levels != []
      ensures n == Total(levels[0].regions)
    {
      LevelBounds(levels, bytes[..], 0);
      TilesTotal(levels[0].regions, levels[0].base, levels[0].top);
      return top - RecordAt(bytes[..], bottom).bottom;
    }
  }

  lemma Bounds(levels: seq<Level>, bytes: seq<Byte>)
    requires Stacked(levels, bytes)
    ensures Top(levels) <= Bottom(levels) <= |bytes|
    ensures levels != [] ==> Top(levels) + FRAME <= Bottom(levels)
  {
    if levels != [] {
      LevelBounds(levels, bytes, 0);
    }
  }

  /** A claim of 2^64 - 16 bytes, made inside a frame, is accepted: its record goes where the record of that frame
      was, which is lost, and nothing is left of the frame. */
  method WrappingClaim() returns (arena: Arena, code: Code)
    ensures code == Done && arena.top == arena.bottom == 32 && !arena.Valid()
    ensures arena.bytes.Length == 64 && RecordAt(arena.bytes[..], 32) == Record(0, 32)
  {
    arena := new Arena(64);
    code := arena.Claim(16);
    assert RecordAt(arena.bytes[..], 32) == Record(0, 0);
    code := arena.Claim(SIZE_MAX - FRAME);
  }

  /** An allocation of 2^64 - 1 bytes, made behind one of 8, is accepted and moves top back. */
  method WrappingAlloc() returns (arena: Arena, start: int)
    ensures start == 8 && arena.top == 7 && !arena.Valid()
  {
    arena := new Arena(64);
    var code := arena.Claim(16);
    start := arena.Alloc(8);
    start := arena.Alloc(SIZE_MAX - 1);
  }

  /** Writing the record of a new frame above all the others keeps the others and can be read back. */
  lemma RecordKept(levels: seq<Level>, before: seq<Byte>, bytes: seq<Byte>, record: Record, bottom: nat)
    requires Stacked(levels, before) && |before| == |bytes| < SIZE_MAX
    requires record == Record(Top(levels), Bottom(levels))
    requires record.bottom + FRAME <= bottom <= |bytes|
    requires bytes[..bottom - FRAME] == before[..bottom - FRAME]
    requires bytes[bottom - FRAME..bottom] == Encoded(record)
    ensures Stacked(levels, bytes) && RecordAt(bytes, bottom) == record
  {
    Bounds(levels, before);
    RecordRoundTrip(bytes, bottom, record);
    forall j | 0 <= j < |levels|
      ensures FRAME <= levels[j].bottom <= |before|
      ensures bytes[levels[j].bottom - FRAME..levels[j].bottom]
           == before[levels[j].bottom - FRAME..levels[j].bottom]
    {
      LevelBounds(levels, before, j);
      SlicesAgree(bytes, before, bottom - FRAME, levels[j].bottom - FRAME, levels[j].bottom);
    }
    StackedFrame(levels, before, bytes);
  }
}
