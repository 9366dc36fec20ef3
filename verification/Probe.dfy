/** Arithmetic of the double-hashing probe sequence of src/vht.c: 32-bit wrapping offsets,
    an odd stride, and a table whose capacity is 16 * 4^k slots. Offsets reach at most 2^32 slots. */
module Probe {
  import opened FiniteSets
  import opened Modular

  // uint32_t offsets wrap at this bound
  const WORD: nat := 0x1_0000_0000

  const INITIAL_CAP: nat := 16

  /** The capacities a table can have: vht_init starts at 16 and vht_double multiplies by 4. */
  ghost predicate IsCap(n: nat) {
    n == INITIAL_CAP || (n > INITIAL_CAP && n % 4 == 0 && IsCap(n / 4))
  }

  ghost predicate IsPow2(n: nat) {
    n == 1 || (n > 1 && n % 2 == 0 && IsPow2(n / 2))
  }

  /** Low half of the 64-bit hash. */
  function Start(hash: nat): (offset: nat)
    ensures offset < WORD
  {
    hash % WORD
  }

  /** High half of the 64-bit hash, made odd. */
  function Stride(hash: nat): (iterate: nat)
    ensures iterate < WORD && iterate % 2 == 1
  {
    var high := (hash / WORD) % WORD;
    if high % 2 == 0 then high + 1 else high
  }

  /** The wrapped 32-bit offset after j probe steps. */
  function Offset(hash: nat, j: nat): (offset: nat)
    ensures offset < WORD
  {
    if j == 0 then Start(hash) else (Offset(hash, j - 1) + Stride(hash)) % WORD
  }

  /** The slot that probe number j looks at. */
  function At(hash: nat, cap: nat, j: nat): (slot: nat)
    requires cap > 0
    ensures slot < cap
  {
    Offset(hash, j) % cap
  }

  // ----- capacities

  lemma {:induction false} CapIsPow2(n: nat)
    requires IsCap(n)
    ensures IsPow2(n) && n >= INITIAL_CAP && n % 4 == 0
  {
    if n == INITIAL_CAP {
      assert IsPow2(1) && IsPow2(2) && IsPow2(4) && IsPow2(8);
    } else {
      CapIsPow2(n / 4);
      assert n / 2 / 2 == n / 4;
      assert IsPow2(n / 2);
    }
  }

  lemma WordIsCap()
    ensures IsCap(WORD)
  {
    assert IsCap(0x100) by { assert IsCap(0x10); assert IsCap(0x40); }
    assert IsCap(0x1000) by { assert IsCap(0x400); }
    assert IsCap(0x1_0000) by { assert IsCap(0x4000); }
    assert IsCap(0x10_0000) by { assert IsCap(0x4_0000); }
    assert IsCap(0x100_0000) by { assert IsCap(0x40_0000); }
    assert IsCap(0x1000_0000) by { assert IsCap(0x400_0000); }
    assert IsCap(0x1_0000_0000) by { assert IsCap(0x4000_0000); }
  }

  lemma {:induction false} PowDivides(a: nat, b: nat)
    requires IsPow2(a) && IsPow2(b) && a <= b
    ensures b % a == 0
  {
    if a != 1 {
      PowDivides(a / 2, b / 2);
      var q := (b / 2) / (a / 2);
      assert b / 2 == q * (a / 2);
      assert b == q * a;
      MultipleMod(q, a);
    }
  }

  /** Reducing twice is reducing once when one modulus divides the other. */
  lemma ModMod(x: int, big: nat, small: nat)
    requires small > 0 && big > 0 && big % small == 0
    ensures (x % big) % small == x % small
  {
    var m := big / small;
    assert big == m * small;
    var q := x / big;
    assert x % big == x - q * (m * small);
    assert q * (m * small) == (q * m) * small;
    ModAdd(x % big, q * m, small);
  }

  /** How many slots of a table an offset can reach. */
  function Reach(cap: nat): (n: nat)
    ensures n <= cap && n <= WORD
  {
    if cap <= WORD then cap else WORD
  }

  // ----- the probe sequence

  lemma CapDividesWord(cap: nat)
    requires IsCap(cap) && cap <= WORD
    ensures 0 < cap && WORD % cap == 0
  {
    CapIsPow2(cap);
    WordIsCap();
    CapIsPow2(WORD);
    PowDivides(cap, WORD);
  }

  lemma TimesNext(j: nat, s: nat)
    requires j > 0
    ensures (j - 1) * s + s == j * s
  {
  }

  lemma WrappedStep(prev: nat, o: nat, s: nat, j: nat, cap: nat)
    requires cap > 0 && WORD % cap == 0 && j > 0 && prev % cap == (o + (j - 1) * s) % cap
    ensures ((prev + s) % WORD) % cap == (o + j * s) % cap
  {
    ModMod(prev + s, WORD, cap);
    ModStep(prev, o + (j - 1) * s, s, cap);
    TimesNext(j, s);
  }

  /** Wrapping at 2^32 is invisible modulo a capacity that divides 2^32. */
  lemma {:induction false} AtIsLinear(hash: nat, cap: nat, j: nat)
    requires IsCap(cap) && cap <= WORD
    ensures At(hash, cap, j) == (Start(hash) + j * Stride(hash)) % cap
  {
    CapDividesWord(cap);
    if j > 0 {
      AtIsLinear(hash, cap, j - 1);
      WrappedStep(Offset(hash, j - 1), Start(hash), Stride(hash), j, cap);
    }
  }

  /** An odd factor cannot help a power of two divide a product. */
  lemma {:induction false} OddCancel(a: int, s: int, cap: nat)
    requires IsPow2(cap) && s % 2 == 1 && (a * s) % cap == 0
    ensures a % cap == 0
    decreases cap
  {
    if cap > 1 {
      var c := cap / 2;
      var q := (a * s) / cap;
      assert a * s == q * cap == 2 * (q * c);
      EvenFactor(a, s, q * c);
      var b := a / 2;
      assert a == 2 * b;
      assert b * s == q * c by { assert 2 * (b * s) == a * s; }
      MultipleMod(q, c);
      OddCancel(b, s, c);
      var t := b / c;
      assert b == t * c;
      assert a == t * cap;
      MultipleMod(t, cap);
    }
  }

  lemma EvenFactor(a: int, s: int, h: int)
    requires s % 2 == 1 && a * s == 2 * h
    ensures a % 2 == 0
  {
    var t := s / 2;
    OddTimes(a, t);
    assert a * s == a * (2 * t + 1);
    assert a == 2 * (h - a * t);
  }

  lemma OddTimes(a: int, t: int)
    ensures a * (2 * t + 1) == 2 * (a * t) + a
  {
  }

  /** No two of cap consecutive probes meet the same slot. */
  lemma ProbesDistinct(hash: nat, cap: nat, i: nat, j: nat)
    requires IsCap(cap) && cap <= WORD
    requires i < j < i + cap
    ensures At(hash, cap, i) != At(hash, cap, j)
  {
    AtIsLinear(hash, cap, i);
    AtIsLinear(hash, cap, j);
    CapIsPow2(cap);
    OddStepsDiffer(Start(hash), Stride(hash), cap, i, j);
  }

  lemma OddStepsDiffer(o: nat, s: nat, cap: nat, i: nat, j: nat)
    requires IsPow2(cap) && s % 2 == 1
    requires i < j < i + cap
    ensures (o + i * s) % cap != (o + j * s) % cap
  {
    var x, y, d := o + j * s, o + i * s, j - i;
    assert x - y == d * s;
    if x % cap == y % cap {
      SameModDivides(x, y, cap);
      OddFactorOut(d, s, cap);
    }
  }

  lemma OddFactorOut(d: nat, s: nat, cap: nat)
    requires IsPow2(cap) && s % 2 == 1 && 0 < d < cap
    ensures (d * s) % cap != 0
  {
    if (d * s) % cap == 0 {
      OddCancel(d, s, cap);
      DivModUnique(d, 0, d, cap);
    }
  }

  ghost function Visited(hash: nat, cap: nat, from: nat, count: nat): (slots: set<nat>)
    requires cap > 0
  {
    set j | from <= j < from + count :: At(hash, cap, j)
  }

  lemma VisitedNext(hash: nat, cap: nat, from: nat, count: nat)
    requires IsCap(cap) && count < cap <= WORD
    ensures Visited(hash, cap, from, count + 1) == Visited(hash, cap, from, count) + {At(hash, cap, from + count)}
    ensures At(hash, cap, from + count) !in Visited(hash, cap, from, count)
  {
    var last := from + count;
    forall j | from <= j < last
      ensures At(hash, cap, j) != At(hash, cap, last)
    {
      ProbesDistinct(hash, cap, j, last);
    }
  }

  lemma {:induction false} VisitedCount(hash: nat, cap: nat, from: nat, count: nat)
    requires IsCap(cap) && count <= cap <= WORD
    ensures |Visited(hash, cap, from, count)| == count
    decreases count
  {
    if count > 0 {
      VisitedCount(hash, cap, from, count - 1);
      VisitedNext(hash, cap, from, count - 1);
    }
  }

  /** Any cap consecutive probes visit every slot, each exactly once. */
  lemma ProbesCoverTable(hash: nat, cap: nat, from: nat, slot: nat)
    requires IsCap(cap) && cap <= WORD && slot < cap
    ensures exists j :: from <= j < from + cap && At(hash, cap, j) == slot
    ensures forall i, j ::
              (from <= i < from + cap && from <= j < from + cap
               && At(hash, cap, i) == slot && At(hash, cap, j) == slot) ==> i == j
  {
    VisitedCount(hash, cap, from, cap);
    BelowCount(cap);
    SubsetSameSize(Visited(hash, cap, from, cap), Below(cap));
    assert slot in Visited(hash, cap, from, cap);
    forall i, j | from <= i < from + cap && from <= j < from + cap
                  && At(hash, cap, i) == slot && At(hash, cap, j) == slot
      ensures i == j
    {
      if i < j { ProbesDistinct(hash, cap, i, j); } else if j < i { ProbesDistinct(hash, cap, j, i); }
    }
  }

  /** In a table of more than 2^32 slots the probes are those of its first 2^32 slots. */
  lemma AtReach(hash: nat, cap: nat, j: nat)
    requires IsCap(cap)
    ensures 0 < cap && IsCap(Reach(cap)) && 0 < Reach(cap)
    ensures At(hash, cap, j) == At(hash, Reach(cap), j) < Reach(cap)
  {
    WordIsCap();
    CapIsPow2(cap);
    if cap > WORD {
      DivModUnique(Offset(hash, j), 0, Offset(hash, j), cap);
      DivModUnique(Offset(hash, j), 0, Offset(hash, j), WORD);
    }
  }

  /** The first probe looks at the hash itself, reduced. */
  lemma FirstSlot(hash: nat, cap: nat)
    requires IsCap(cap)
    ensures 0 < Reach(cap) && 0 < cap && At(hash, cap, 0) == hash % Reach(cap)
  {
    AtReach(hash, cap, 0);
    CapDividesWord(Reach(cap));
    ModMod(hash, WORD, Reach(cap));
  }

  /** Which slot each probe looks at, by the 64-bit hash: its low half first, then steps of its high half with the
      lowest bit set. */
  lemma AtOfHash(hash: nat, cap: nat, j: nat)
    requires IsCap(cap) && hash < WORD * WORD
    ensures 0 < Reach(cap) && 0 < cap && At(hash, cap, j) == (hash + j * (hash / WORD / 2 * 2 + 1)) % Reach(cap)
  {
    AtReach(hash, cap, j);
    AtIsLinear(hash, Reach(cap), j);
    HighHalf(hash);
    LowHalf(hash, Reach(cap), j * Stride(hash));
  }

  lemma LowHalf(hash: nat, n: nat, steps: nat)
    requires IsCap(n) && n <= WORD
    ensures 0 < n && (Start(hash) + steps) % n == (hash + steps) % n
  {
    CapDividesWord(n);
    ModMod(hash, WORD, n);
    ModStep(Start(hash), hash, steps, n);
  }

  lemma HighHalf(hash: nat)
    requires hash < WORD * WORD
    ensures Stride(hash) == hash / WORD / 2 * 2 + 1
  {
    var high := hash / WORD;
    assert high < WORD;
    DivModUnique(high, 0, high, WORD);
  }

  /** Any Reach(cap) consecutive probes visit every slot that can be reached. */
  lemma ProbeOf(hash: nat, cap: nat, from: nat, slot: nat) returns (j: nat)
    requires IsCap(cap) && slot < Reach(cap)
    ensures from <= j < from + Reach(cap) && 0 < cap && At(hash, cap, j) == slot
  {
    AtReach(hash, cap, 0);
    ProbesCoverTable(hash, Reach(cap), from, slot);
    j :| from <= j < from + Reach(cap) && At(hash, Reach(cap), j) == slot;
    AtReach(hash, cap, j);
  }
}
