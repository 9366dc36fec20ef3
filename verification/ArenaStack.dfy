/** The frame stack of src/varena.c as a value. Each claimed frame begins where the frame below ends, holds
    its allocations one after another, and keeps in its last 16 bytes the top and bottom to return to. */
module ArenaStack {

  type Byte = x: nat | x < 256

  // sizeof(struct varena_frame): two 8-byte numbers
  const FRAME: nat := 16

  // size_t wraps at this bound
  const SIZE_MAX: nat := 0x1_0000_0000_0000_0000

  // ----- numbers in memory, little endian

  function Pow256(w: nat): (p: nat)
    ensures p > 0
  {
    if w == 0 then 1 else 256 * Pow256(w - 1)
  }

  function Enc(n: nat, w: nat): (s: seq<Byte>)
    ensures |s| == w
  {
    if w == 0 then [] else [n % 256] + Enc(n / 256, w - 1)
  }

  function Dec(s: seq<Byte>): (n: nat) {
    if s == [] then 0 else s[0] + 256 * Dec(s[1..])
  }

  /** A number that fits is read back as it was written. */
  lemma {:induction false} RoundTrip(n: nat, w: nat)
    requires n < Pow256(w)
    ensures Dec(Enc(n, w)) == n
  {
    if w > 0 {
      RoundTrip(n / 256, w - 1);
      assert Enc(n, w)[1..] == Enc(n / 256, w - 1);
    }
  }

  lemma EightBytes()
    ensures Pow256(8) == SIZE_MAX
  {
    assert Pow256(2) == 0x1_0000;
    assert Pow256(4) == 0x1_0000_0000;
    assert Pow256(6) == 0x1_0000_0000_0000;
  }

  datatype Record = Record(top: nat, bottom: nat)

  function Encoded(r: Record): (s: seq<Byte>)
    ensures |s| == FRAME
  {
    Enc(r.top, 8) + Enc(r.bottom, 8)
  }

  function RecordAt(bytes: seq<Byte>, bottom: nat): (r: Record)
    requires FRAME <= bottom <= |bytes|
  {
    Record(Dec(bytes[bottom - FRAME..bottom - 8]), Dec(bytes[bottom - 8..bottom]))
  }

  lemma RecordRoundTrip(bytes: seq<Byte>, bottom: nat, r: Record)
    requires FRAME <= bottom <= |bytes| && r.top < SIZE_MAX && r.bottom < SIZE_MAX
    requires bytes[bottom - FRAME..bottom] == Encoded(r)
    ensures RecordAt(bytes, bottom) == r
  {
    EightBytes();
    RoundTrip(r.top, 8);
    RoundTrip(r.bottom, 8);
    Halves(bytes, bottom, Enc(r.top, 8), Enc(r.bottom, 8));
  }

  lemma Halves(bytes: seq<Byte>, bottom: nat, a: seq<Byte>, b: seq<Byte>)
    requires FRAME <= bottom <= |bytes| && |a| == |b| == 8 && bytes[bottom - FRAME..bottom] == a + b
    ensures bytes[bottom - FRAME..bottom - 8] == a && bytes[bottom - 8..bottom] == b
  {
    var s := bytes[bottom - FRAME..bottom];
    assert bytes[bottom - FRAME..bottom - 8] == s[..8];
    assert bytes[bottom - 8..bottom] == s[8..];
  }

  // ----- frames

  datatype Region = Region(start: nat, len: nat)

  /** One claimed frame: its bytes run from base to bottom, and those below top are allocated. */
  datatype Level = Level(base: nat, top: nat, bottom: nat, regions: seq<Region>)

  function Top(levels: seq<Level>): (n: nat) {
    if levels == [] then 0 else levels[0].top
  }

  function Bottom(levels: seq<Level>): (n: nat) {
    if levels == [] then 0 else levels[0].bottom
  }

  /** The regions fill the space between from and to, in order. */
  ghost predicate Tiles(regions: seq<Region>, from: nat, to: nat) {
    if regions == [] then from == to
    else regions[0].start == from && Tiles(regions[1..], from + regions[0].len, to)
  }

  /** The frames as they lie in memory, innermost first. */
  ghost predicate Stacked(levels: seq<Level>, bytes: seq<Byte>) {
    levels != [] ==>
      var l := levels[0];
      && l.base == Bottom(levels[1..])
      && Tiles(l.regions, l.base, l.top)
      && l.top + FRAME <= l.bottom <= |bytes|
      && RecordAt(bytes, l.bottom) == Record(Top(levels[1..]), Bottom(levels[1..]))
      && Stacked(levels[1..], bytes)
  }

  lemma {:induction false} TilesBounds(regions: seq<Region>, from: nat, to: nat)
    requires Tiles(regions, from, to)
    ensures from <= to
    ensures forall i :: 0 <= i < |regions| ==> from <= regions[i].start && regions[i].start + regions[i].len <= to
  {
    if regions != [] {
      TilesBounds(regions[1..], from + regions[0].len, to);
      assert forall i :: 0 < i < |regions| ==> regions[i] == regions[1..][i - 1];
    }
  }

  lemma {:induction false} TilesAppend(regions: seq<Region>, from: nat, to: nat, len: nat)
    requires Tiles(regions, from, to)
    ensures Tiles(regions + [Region(to, len)], from, to + len)
  {
    if regions != [] {
      TilesAppend(regions[1..], from + regions[0].len, to, len);
      assert (regions + [Region(to, len)])[1..] == regions[1..] + [Region(to, len)];
    } else {
      assert [Region(to, len)][1..] == [];
    }
  }

  predicate Apart(a: Region, b: Region) {
    a.start + a.len <= b.start || b.start + b.len <= a.start
  }

  lemma {:induction false} TilesApart(regions: seq<Region>, from: nat, to: nat, i: nat, j: nat)
    requires Tiles(regions, from, to) && i < j < |regions|
    ensures Apart(regions[i], regions[j])
  {
    var rest := regions[1..];
    TilesBounds(rest, from + regions[0].len, to);
    if i == 0 {
      assert regions[j] == rest[j - 1];
    } else {
      TilesApart(rest, from + regions[0].len, to, i - 1, j - 1);
    }
  }

  /** The bytes in which a frame keeps its record. */
  function Saved(l: Level): (r: Region)
    requires l.bottom >= FRAME
  {
    Region(l.bottom - FRAME, FRAME)
  }

  lemma {:induction false} LevelBounds(levels: seq<Level>, bytes: seq<Byte>, i: nat)
    requires Stacked(levels, bytes) && i < |levels|
    ensures var l := levels[i];
            && l.base <= l.top && l.top + FRAME <= l.bottom <= Bottom(levels) && l.bottom <= |bytes|
            && Tiles(l.regions, l.base, l.top)
    ensures i > 0 ==> levels[i].bottom <= levels[0].base
    ensures Bottom(levels) <= |bytes| && Top(levels) <= Bottom(levels)
  {
    TilesBounds(levels[0].regions, levels[0].base, levels[0].top);
    if i > 0 {
      assert levels[i] == levels[1..][i - 1];
      LevelBounds(levels[1..], bytes, i - 1);
    }
  }

  /** Frames do not overlap. */
  lemma {:induction false} LevelsApart(levels: seq<Level>, bytes: seq<Byte>, i: nat, j: nat)
    requires Stacked(levels, bytes) && i < j < |levels|
    ensures levels[j].bottom <= levels[i].base
  {
    if i == 0 {
      LevelBounds(levels, bytes, j);
    } else {
      LevelsApart(levels[1..], bytes, i - 1, j - 1);
    }
  }

  /** An allocation lies inside its own frame and clear of the record of every frame. */
  lemma RecordsClear(levels: seq<Level>, bytes: seq<Byte>, i: nat, a: nat, j: nat)
    requires Stacked(levels, bytes) && i < |levels| && j < |levels| && a < |levels[i].regions|
    ensures levels[j].bottom >= FRAME && Apart(levels[i].regions[a], Saved(levels[j]))
    ensures levels[i].base <= levels[i].regions[a].start
            && levels[i].regions[a].start + levels[i].regions[a].len <= levels[i].bottom - FRAME
  {
    LevelBounds(levels, bytes, i);
    LevelBounds(levels, bytes, j);
    TilesBounds(levels[i].regions, levels[i].base, levels[i].top);
    if i < j {
      LevelsApart(levels, bytes, i, j);
    } else if j < i {
      LevelsApart(levels, bytes, j, i);
    }
  }

  /** Any two allocations of any frames are disjoint. */
  lemma AllocationsApart(levels: seq<Level>, bytes: seq<Byte>, i: nat, a: nat, j: nat, b: nat)
    requires Stacked(levels, bytes) && i < |levels| && j < |levels|
    requires a < |levels[i].regions| && b < |levels[j].regions|
    requires i != j || a != b
    ensures Apart(levels[i].regions[a], levels[j].regions[b])
  {
    RecordsClear(levels, bytes, i, a, i);
    RecordsClear(levels, bytes, j, b, j);
    LevelBounds(levels, bytes, i);
    LevelBounds(levels, bytes, j);
    if i < j {
      LevelsApart(levels, bytes, i, j);
    } else if j < i {
      LevelsApart(levels, bytes, j, i);
    } else if a < b {
      TilesApart(levels[i].regions, levels[i].base, levels[i].top, a, b);
    } else {
      TilesApart(levels[i].regions, levels[i].base, levels[i].top, b, a);
    }
  }

  lemma SlicesAgree<T>(s: seq<T>, t: seq<T>, n: nat, i: nat, j: nat)
    requires i <= j <= n <= |s| && n <= |t| && s[..n] == t[..n]
    ensures s[i..j] == t[i..j]
  {
    SliceOfTake(s, n, i, j);
    SliceOfTake(t, n, i, j);
  }

  lemma SliceOfTake<T>(s: seq<T>, n: nat, i: nat, j: nat)
    requires i <= j <= n <= |s|
    ensures s[..n][i..j] == s[i..j]
  {
    forall k | 0 <= k < j - i
      ensures s[..n][i..j][k] == s[i..j][k]
    {
      assert s[..n][i + k] == s[i + k];
    }
  }

  lemma HalvesAgree(s: seq<Byte>, t: seq<Byte>, b: nat)
    requires FRAME <= b <= |s| && b <= |t| && s[b - FRAME..b] == t[b - FRAME..b]
    ensures s[b - FRAME..b - 8] == t[b - FRAME..b - 8] && s[b - 8..b] == t[b - 8..b]
  {
    assert s[b - FRAME..b - 8] == s[b - FRAME..b][..8] && t[b - FRAME..b - 8] == t[b - FRAME..b][..8];
    assert s[b - 8..b] == s[b - FRAME..b][8..] && t[b - 8..b] == t[b - FRAME..b][8..];
  }

  /** Bytes that no record uses do not matter. */
  lemma {:induction false} StackedFrame(levels: seq<Level>, bytes: seq<Byte>, bytes': seq<Byte>)
    requires Stacked(levels, bytes) && |bytes'| == |bytes|
    requires forall i :: 0 <= i < |levels| ==>
               FRAME <= levels[i].bottom <= |bytes|
               && bytes'[levels[i].bottom - FRAME..levels[i].bottom]
                  == bytes[levels[i].bottom - FRAME..levels[i].bottom]
    ensures Stacked(levels, bytes')
  {
    if levels != [] {
      var b := levels[0].bottom;
      HalvesAgree(bytes, bytes', b);
      assert forall i :: 0 <= i < |levels| - 1 ==> levels[1..][i] == levels[i + 1];
      StackedFrame(levels[1..], bytes, bytes');
    }
  }

  // ----- brackets

  datatype Op = Claim(n: nat) | Alloc(m: nat) | Disclaim

  /** What each operation makes of the frames when no size wraps; a refused operation changes nothing. */
  function Apply(levels: seq<Level>, cap: nat, op: Op): (r: seq<Level>) {
    match op
    case Claim(n) =>
      if n == 0 || Bottom(levels) + n + FRAME > cap then levels
      else [Level(Bottom(levels), Bottom(levels), Bottom(levels) + n + FRAME, [])] + levels
    case Alloc(m) =>
      if levels == [] || levels[0].top + m + FRAME > levels[0].bottom then levels
      else [Level(levels[0].base, levels[0].top + m, levels[0].bottom,
                  levels[0].regions + [Region(levels[0].top, m)])] + levels[1..]
    case Disclaim => if levels == [] then levels else levels[1..]
  }

  function Run(levels: seq<Level>, cap: nat, ops: seq<Op>): (r: seq<Level>)
    decreases |ops|
  {
    if ops == [] then levels else Run(Apply(levels, cap, ops[0]), cap, ops[1..])
  }

  /** The run never gives up one of the k outermost frames. */
  ghost predicate StaysAbove(levels: seq<Level>, cap: nat, ops: seq<Op>, k: nat)
    decreases |ops|
  {
    |levels| >= k && (ops != [] ==> StaysAbove(Apply(levels, cap, ops[0]), cap, ops[1..], k))
  }

  lemma StepKeepsOuter(levels: seq<Level>, outer: seq<Level>, cap: nat, op: Op)
    requires |levels| > |outer| && levels[|levels| - |outer|..] == outer
    requires |Apply(levels, cap, op)| > |outer|
    ensures var next := Apply(levels, cap, op); next[|next| - |outer|..] == outer
  {
    var next := Apply(levels, cap, op);
    forall i | 0 <= i < |outer|
      ensures next[|next| - |outer| + i] == outer[i]
    {
      assert levels[|levels| - |outer| + i] == outer[i];
    }
  }

  lemma {:induction false} OuterFramesKept(levels: seq<Level>, outer: seq<Level>, cap: nat, ops: seq<Op>)
    requires |levels| > |outer| && levels[|levels| - |outer|..] == outer
    requires StaysAbove(levels, cap, ops, |outer| + 1)
    ensures var r := Run(levels, cap, ops); |r| > |outer| && r[|r| - |outer|..] == outer
    decreases |ops|
  {
    if ops != [] {
      var next := Apply(levels, cap, ops[0]);
      assert StaysAbove(next, cap, ops[1..], |outer| + 1);
      assert |next| > |outer| && next[|next| - |outer|..] == outer by {
        StepKeepsOuter(levels, outer, cap, ops[0]);
      }
      OuterFramesKept(next, outer, cap, ops[1..]);
    }
  }

  /** A claim that succeeds, any run inside it that opens and closes its own frames, and the matching
      disclaim restore everything: the frames, and with them top and bottom. */
  lemma BracketRestores(levels: seq<Level>, cap: nat, n: nat, ops: seq<Op>)
    requires Apply(levels, cap, Claim(n)) != levels
    requires StaysAbove(Apply(levels, cap, Claim(n)), cap, ops, |levels| + 1)
    requires |Run(Apply(levels, cap, Claim(n)), cap, ops)| == |levels| + 1
    ensures Apply(Run(Apply(levels, cap, Claim(n)), cap, ops), cap, Disclaim) == levels
  {
    OuterFramesKept(Apply(levels, cap, Claim(n)), levels, cap, ops);
  }
}
