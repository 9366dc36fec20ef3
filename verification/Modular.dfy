/** Facts about remainders that the ring buffers and the probe sequence share. */
module Modular {

  lemma MultipleMod(q: int, a: nat)
    requires a > 0
    ensures (q * a) % a == 0
  {
    DivModUnique(q * a, q, 0, a);
  }

  lemma DivModUnique(x: int, q: int, r: int, a: nat)
    requires a > 0 && 0 <= r < a && x == q * a + r
    ensures x % a == r && x / a == q
  {
    var d := x / a - q;
    assert d * a == r - x % a;
    MulAtLeast(d, a);
  }

  lemma MulAtLeast(d: int, a: int)
    requires a > 0
    ensures d >= 1 ==> d * a >= a
    ensures d <= -1 ==> d * a <= -a
  {
  }

  lemma ModAdd(x: int, q: int, a: nat)
    requires a > 0
    ensures (x + q * a) % a == x % a
  {
    DivModUnique(x + q * a, x / a + q, x % a, a);
  }

  lemma ModStep(x: int, y: int, s: int, cap: nat)
    requires cap > 0 && x % cap == y % cap
    ensures (x + s) % cap == (y + s) % cap
  {
    var q := x / cap - y / cap;
    assert x == y + q * cap;
    ModAdd(y + s, q, cap);
  }

  lemma SameModDivides(x: int, y: int, cap: nat)
    requires cap > 0 && x % cap == y % cap
    ensures (x - y) % cap == 0
  {
    var q := x / cap - y / cap;
    assert x - y == q * cap;
    MultipleMod(q, cap);
  }

  /** Positions less than one lap apart fall on different slots. */
  lemma LapDistinct(i: int, j: int, cap: nat)
    requires cap > 0 && i < j < i + cap
    ensures i % cap != j % cap
  {
    if i % cap == j % cap {
      var q := j / cap - i / cap;
      assert j - i == q * cap;
      MulAtLeast(q, cap);
    }
  }

  lemma IndexAfter(pos: nat, total: nat, n: nat, cap: nat)
    requires cap > 0 && pos % cap == total % cap
    ensures (pos + n) % cap == (total + n) % cap
    ensures ((pos + n) % cap) % cap == (total + n) % cap
  {
    ModStep(pos, total, n, cap);
    var r := (pos + n) % cap;
    DivModUnique(r, 0, r, cap);
  }

  // ----- what the ring buffers and others share

  function Min(a: nat, b: nat): (m: nat)
    ensures m <= a && m <= b && (m == a || m == b)
  {
    if a <= b then a else b
  }

  /** The slot of element number i of a copy that starts at slot start: up to the end of the buffer first, the
      rest from its beginning. */
  function CopySlot(start: nat, cap: nat, i: nat): (slot: int) {
    if i < cap - start then start + i else i - (cap - start)
  }

  lemma CopySlotIs(pos: nat, total: nat, cap: nat, i: nat)
    requires cap > 0 && pos % cap == total % cap && i < cap
    ensures (total + i) % cap == CopySlot(pos % cap, cap, i)
  {
    ModStep(pos, total, i, cap);
    var q := pos / cap;
    if i < cap - pos % cap {
      DivModUnique(pos + i, q, pos % cap + i, cap);
    } else {
      DivModUnique(pos + i, q + 1, pos % cap + i - cap, cap);
    }
  }
}
