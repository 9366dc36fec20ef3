/** The open-addressing table of src/vht.c as a value: the specification that the class in Vht.dfy is
    proved against, and the laws of that specification. A hash is any function from keys to numbers;
    its low 32 bits are the first offset and its next 32 bits, made odd, the stride. */
module HashTable {
  import opened FiniteSets
  import opened Probe

  datatype Option<T> = None | Some(value: T)

  datatype Slot<K, V> = Free | Used(key: K, val: V)

  datatype Code = Ok | ExFull | NoData | NoMem

  /** A walk for key k goes past this slot. */
  predicate Passes<K(==), V>(slot: Slot<K, V>, k: K) {
    slot.Used? && slot.key != k
  }

  /** The number of the probe at which a walk for k that has reached probe j ends;
      |s| when the guesses run out. */
  function Scan<K(==), V>(s: seq<Slot<K, V>>, h: nat, k: K, j: nat): (r: nat)
    requires 0 < |s| && j <= |s|
    ensures j <= r <= |s|
    ensures forall i :: j <= i < r ==> Passes(s[At(h, |s|, i)], k)
    ensures r < |s| ==> !Passes(s[At(h, |s|, r)], k)
    decreases |s| - j
  {
    if j == |s| || !Passes(s[At(h, |s|, j)], k) then j else Scan(s, h, k, j + 1)
  }

  function Lookup<K(==), V>(s: seq<Slot<K, V>>, hash: K -> nat, k: K): (r: Option<V>)
    requires 0 < |s|
  {
    var j := Scan(s, hash(k), k, 0);
    if j < |s| && s[At(hash(k), |s|, j)].Used? then Some(s[At(hash(k), |s|, j)].val) else None
  }

  /** vht_set once the table has had its chance to grow. */
  function Put<K(==), V>(s: seq<Slot<K, V>>, hash: K -> nat, k: K, v: V): (r: (seq<Slot<K, V>>, Code))
    requires 0 < |s|
    ensures |r.0| == |s|
  {
    var j := Scan(s, hash(k), k, 0);
    if j < |s| then (s[At(hash(k), |s|, j) := Used(k, v)], Ok) else (s, ExFull)
  }

  function Remove<K(==), V>(s: seq<Slot<K, V>>, hash: K -> nat, k: K): (r: (seq<Slot<K, V>>, Code))
    requires 0 < |s|
    ensures |r.0| == |s|
  {
    var j := Scan(s, hash(k), k, 0);
    if j < |s| && s[At(hash(k), |s|, j)].Used? then (s[At(hash(k), |s|, j) := Free], Ok) else (s, NoData)
  }

  function Empty<K, V>(n: nat): (s: seq<Slot<K, V>>)
    ensures |s| == n
    ensures forall p :: 0 <= p < n ==> s[p] == Free
  {
    seq(n, _ => Free)
  }

  function RehashOne<K(==), V>(acc: seq<Slot<K, V>>, hash: K -> nat, slot: Slot<K, V>): (s: seq<Slot<K, V>>)
    requires 0 < |acc|
    ensures |s| == |acc|
  {
    if slot.Used? then Put(acc, hash, slot.key, slot.val).0 else acc
  }

  /** What vht_double has put into its new table after j steps of its walk over src. The walk moves
      on before it looks, so step j looks at probe j, counted from 1. */
  function Rehash<K(==), V>(src: seq<Slot<K, V>>, hash: K -> nat, seed: nat, j: nat): (s: seq<Slot<K, V>>)
    requires 0 < |src|
    ensures |s| == 4 * |src|
  {
    if j == 0 then Empty(4 * |src|)
    else RehashOne(Rehash(src, hash, seed, j - 1), hash, src[At(seed, |src|, j)])
  }

  function Grow<K(==), V>(src: seq<Slot<K, V>>, hash: K -> nat, seed: nat): (s: seq<Slot<K, V>>)
    requires 0 < |src|
    ensures |s| == 4 * |src|
  {
    Rehash(src, hash, seed, |src|)
  }

  ghost function UsedAt<K(!new), V(!new)>(s: seq<Slot<K, V>>): (r: set<nat>)
  {
    set p: nat | p < |s| && s[p].Used?
  }

  predicate MustGrow<K, V>(s: seq<Slot<K, V>>, len: nat) {
    len * 4 >= |s|
  }

  /** The table that vht_set works on after its chance to grow; grown tells whether the allocations of vht_double
      succeed if it is called. */
  function Ready<K(==), V>(s: seq<Slot<K, V>>, len: nat, hash: K -> nat, grown: bool, seed: nat): (t: seq<Slot<K, V>>)
    requires 0 < |s|
    ensures |t| == if MustGrow(s, len) && grown then 4 * |s| else |s|
  {
    if MustGrow(s, len) && grown then Grow(s, hash, seed) else s
  }

  /** vht_set as a whole. */
  function Set<K(==), V>(s: seq<Slot<K, V>>, len: nat, hash: K -> nat, k: K, v: V, grown: bool, seed: nat)
    : (r: (seq<Slot<K, V>>, Code))
    requires 0 < |s|
    ensures |r.0| == |s| || |r.0| == 4 * |s|
  {
    Put(Ready(s, len, hash, grown, seed), hash, k, v)
  }

  // ----- what the table means

  ghost predicate Holds<K(!new), V(!new)>(s: seq<Slot<K, V>>, k: K, v: V) {
    exists p :: 0 <= p < |s| && s[p] == Used(k, v)
  }

  ghost predicate HasKey<K(!new), V(!new)>(s: seq<Slot<K, V>>, k: K) {
    exists p :: 0 <= p < |s| && s[p].Used? && s[p].key == k
  }

  ghost predicate Unique<K(!new), V(!new)>(s: seq<Slot<K, V>>) {
    forall p, q :: 0 <= p < |s| && 0 <= q < |s| && s[p].Used? && s[q].Used? && s[p].key == s[q].key ==> p == q
  }

  /** Slot p is where the walk for its own key ends. */
  ghost predicate AtHome<K(!new), V(!new)>(s: seq<Slot<K, V>>, hash: K -> nat, p: nat)
    requires p < |s| && s[p].Used?
  {
    var h := hash(s[p].key);
    var j := Scan(s, h, s[p].key, 0);
    j < |s| && At(h, |s|, j) == p
  }

  /** Every entry is reached from its key's start through occupied slots only. */
  ghost predicate Chained<K(!new), V(!new)>(s: seq<Slot<K, V>>, hash: K -> nat) {
    forall p {:trigger AtHome(s, hash, p)} :: 0 <= p < |s| && s[p].Used? ==> AtHome(s, hash, p)
  }

  /** The finite map that the occupied slots spell out. */
  ghost function Contents<K(!new), V(!new)>(s: seq<Slot<K, V>>): (m: map<K, V>)
    requires Unique(s)
    ensures forall k, v :: (k in m && m[k] == v) <==> Holds(s, k, v)
  {
    var m := map p | 0 <= p < |s| && s[p].Used? :: s[p].key := s[p].val;
    assert forall k, v :: Holds(s, k, v) ==> k in m && m[k] == v;
    m
  }

  /** A capacity of the table, with entries only where offsets can reach. */
  ghost predicate WellSized<K(!new), V(!new)>(s: seq<Slot<K, V>>) {
    IsCap(|s|) && forall p :: Reach(|s|) <= p < |s| ==> s[p] == Free
  }

  // ----- walks

  /** The end of a walk is determined by what the walk meets. */
  lemma {:induction false} ScanIs<K(!new), V(!new)>(s: seq<Slot<K, V>>, h: nat, k: K, j: nat, r: nat)
    requires 0 < |s| && j <= r <= |s|
    requires forall i :: j <= i < r ==> Passes(s[At(h, |s|, i)], k)
    requires r < |s| ==> !Passes(s[At(h, |s|, r)], k)
    ensures Scan(s, h, k, j) == r
    decreases r - j
  {
    if j < r {
      ScanIs(s, h, k, j + 1, r);
    }
  }

  lemma ChainedUnique<K(!new), V(!new)>(s: seq<Slot<K, V>>, hash: K -> nat)
    requires Chained(s, hash)
    ensures Unique(s)
  {
    forall p, q | 0 <= p < |s| && 0 <= q < |s| && s[p].Used? && s[q].Used? && s[p].key == s[q].key
      ensures p == q
    {
      assert AtHome(s, hash, p) && AtHome(s, hash, q);
    }
  }

  lemma LookupHolds<K(!new), V(!new)>(s: seq<Slot<K, V>>, hash: K -> nat, k: K)
    requires 0 < |s| && Lookup(s, hash, k).Some?
    ensures Holds(s, k, Lookup(s, hash, k).value)
  {
    var p := At(hash(k), |s|, Scan(s, hash(k), k, 0));
    assert s[p] == Used(k, Lookup(s, hash, k).value);
  }

  /** vht_get returns the value the map has for the key, and misses exactly the keys outside it. */
  lemma LookupIsMapLookup<K(!new), V(!new)>(s: seq<Slot<K, V>>, hash: K -> nat, k: K)
    requires 0 < |s| && Chained(s, hash)
    ensures Unique(s)
    ensures Lookup(s, hash, k) == if k in Contents(s) then Some(Contents(s)[k]) else None
  {
    ChainedUnique(s, hash);
    if k in Contents(s) {
      assert Holds(s, k, Contents(s)[k]);
      var p :| 0 <= p < |s| && s[p] == Used(k, Contents(s)[k]);
      assert AtHome(s, hash, p);
    } else {
      if Lookup(s, hash, k).Some? {
        LookupHolds(s, hash, k);
      }
    }
  }

  lemma HasKeyIsContents<K(!new), V(!new)>(s: seq<Slot<K, V>>, k: K)
    requires Unique(s)
    ensures HasKey(s, k) <==> k in Contents(s)
  {
    if HasKey(s, k) {
      var p :| 0 <= p < |s| && s[p].Used? && s[p].key == k;
      assert Holds(s, k, s[p].val);
    }
    if k in Contents(s) {
      assert Holds(s, k, Contents(s)[k]);
    }
  }

  /** A walk runs out of guesses only when every slot it can reach is taken by another key. */
  lemma WalkEndsUnlessFull<K(!new), V(!new)>(s: seq<Slot<K, V>>, h: nat, k: K)
    requires IsCap(|s|) && |s| > 0
    ensures Scan(s, h, k, 0) == |s| <==> forall p :: 0 <= p < Reach(|s|) ==> Passes(s[p], k)
  {
    var n := |s|;
    if Scan(s, h, k, 0) == n {
      forall p | 0 <= p < Reach(n)
        ensures Passes(s[p], k)
      {
        var j := ProbeOf(h, n, 0, p);
      }
    } else {
      AtReach(h, n, Scan(s, h, k, 0));
    }
  }

  lemma UsedAtBound<K(!new), V(!new)>(s: seq<Slot<K, V>>)
    requires WellSized(s)
    ensures |UsedAt(s)| <= Reach(|s|)
    ensures |UsedAt(s)| == Reach(|s|) <==> forall p :: 0 <= p < Reach(|s|) ==> s[p].Used?
  {
    var used, all := UsedAt(s), Below(Reach(|s|));
    BelowCount(Reach(|s|));
    SubsetSize(used, all);
    if |used| == Reach(|s|) {
      SubsetSameSize(used, all);
      forall p | 0 <= p < Reach(|s|)
        ensures s[p].Used?
      {
        assert p in all;
      }
    }
    if forall p :: 0 <= p < Reach(|s|) ==> s[p].Used? {
      assert used == all;
    }
  }

  // ----- vht_set

  /** A set reports a full table exactly when it does not find the key and every slot within reach is taken. */
  lemma PutAccounting<K(!new), V(!new)>(s: seq<Slot<K, V>>, hash: K -> nat, k: K, v: V)
    requires WellSized(s) && |s| > 0
    ensures var (t, code) := Put(s, hash, k, v);
            && (code == Ok || (code == ExFull && t == s))
            && (code == ExFull <==> Lookup(s, hash, k).None? && |UsedAt(s)| == Reach(|s|))
            && WellSized(t)
            && (code == Ok ==> |UsedAt(t)| == |UsedAt(s)| + if Lookup(s, hash, k).Some? then 0 else 1)
  {
    var j := Scan(s, hash(k), k, 0);
    WalkEndsUnlessFull(s, hash(k), k);
    UsedAtBound(s);
    if j < |s| {
      AtReach(hash(k), |s|, j);
      UsedAfterWrite(s, At(hash(k), |s|, j), k, v);
    }
  }

  lemma UsedAfterWrite<K(!new), V(!new)>(s: seq<Slot<K, V>>, p: nat, k: K, v: V)
    requires p < |s|
    ensures |UsedAt(s[p := Used(k, v)])| == |UsedAt(s)| + if s[p].Used? then 0 else 1
  {
    assert UsedAt(s[p := Used(k, v)]) == UsedAt(s) + {p};
  }

  /** Writing k at the end of its walk moves no other walk. */
  lemma PutKeepsWalk<K(!new), V(!new)>(s: seq<Slot<K, V>>, hash: K -> nat, k: K, v: V, q: nat)
    requires 0 < |s| && q < |s| && s[q].Used? && AtHome(s, hash, q)
    requires Scan(s, hash(k), k, 0) < |s|
    ensures var p := At(hash(k), |s|, Scan(s, hash(k), k, 0));
            var s' := s[p := Used(k, v)];
            s'[q].Used? && s'[q].key == s[q].key && AtHome(s', hash, q)
  {
    var p := At(hash(k), |s|, Scan(s, hash(k), k, 0));
    var s' := s[p := Used(k, v)];
    var k2 := s[q].key;
    var h2 := hash(k2);
    var r := Scan(s, h2, k2, 0);
    forall i | 0 <= i < r
      ensures Passes(s'[At(h2, |s'|, i)], k2)
    {
      assert Passes(s[At(h2, |s|, i)], k2);
    }
    ScanIs(s', h2, k2, 0, r);
  }

  lemma PutKeepsChains<K(!new), V(!new)>(s: seq<Slot<K, V>>, hash: K -> nat, k: K, v: V)
    requires 0 < |s| && Chained(s, hash) && Put(s, hash, k, v).1 == Ok
    ensures Chained(Put(s, hash, k, v).0, hash)
  {
    var h := hash(k);
    var j := Scan(s, h, k, 0);
    var p := At(h, |s|, j);
    var s' := s[p := Used(k, v)];
    forall q | 0 <= q < |s'| && s'[q].Used?
      ensures AtHome(s', hash, q)
    {
      if q == p {
        forall i | 0 <= i < j
          ensures Passes(s'[At(h, |s'|, i)], k)
        {
          assert Passes(s[At(h, |s|, i)], k);
        }
        ScanIs(s', h, k, 0, j);
      } else {
        assert AtHome(s, hash, q);
        PutKeepsWalk(s, hash, k, v, q);
      }
    }
  }

  /** A set that finds room updates the map at that one key and keeps every chain intact. */
  lemma PutIsMapUpdate<K(!new), V(!new)>(s: seq<Slot<K, V>>, hash: K -> nat, k: K, v: V)
    requires 0 < |s| && Chained(s, hash) && Put(s, hash, k, v).1 == Ok
    ensures var s' := Put(s, hash, k, v).0;
            Unique(s) && Chained(s', hash) && Unique(s') && Contents(s') == Contents(s)[k := v]
  {
    PutKeepsChains(s, hash, k, v);
    ChainedUnique(s, hash);
    ChainedUnique(Put(s, hash, k, v).0, hash);
    PutContents(s, k, v, At(hash(k), |s|, Scan(s, hash(k), k, 0)));
  }

  lemma PutContents<K(!new), V(!new)>(s: seq<Slot<K, V>>, k: K, v: V, p: nat)
    requires p < |s| && !Passes(s[p], k) && Unique(s) && Unique(s[p := Used(k, v)])
    ensures Contents(s[p := Used(k, v)]) == Contents(s)[k := v]
  {
    var s' := s[p := Used(k, v)];
    var m, m' := Contents(s), Contents(s');
    assert s'[p] == Used(k, v);
    assert Holds(s', k, v);
    forall k2 | k2 in m && k2 != k
      ensures k2 in m' && m'[k2] == m[k2]
    {
      assert Holds(s, k2, m[k2]);
      var q :| 0 <= q < |s| && s[q] == Used(k2, m[k2]);
      assert s'[q] == s[q];
      assert Holds(s', k2, m[k2]);
    }
    forall k2 | k2 in m' && k2 != k
      ensures k2 in m
    {
      assert Holds(s', k2, m'[k2]);
      var q :| 0 <= q < |s| && s'[q] == Used(k2, m'[k2]);
      assert s[q] == s'[q];
      assert Holds(s, k2, m'[k2]);
    }
  }

  // ----- vht_double

  /** acc is chained and holds, under the same keys, the entries of the slots of src in seen. */
  ghost predicate Copied<K(!new), V(!new)>(src: seq<Slot<K, V>>, hash: K -> nat, seen: set<nat>, acc: seq<Slot<K, V>>)
  {
    && Chained(acc, hash)
    && (forall p :: p in seen && p < |src| && src[p].Used? ==> HasKey(acc, src[p].key))
    && (forall k, v :: Holds(acc, k, v) ==> Holds(src, k, v))
  }

  /** Writing one entry at the end of its walk adds that entry and loses no key. */
  lemma PutEntries<K(!new), V(!new)>(s: seq<Slot<K, V>>, hash: K -> nat, k: K, v: V)
    requires 0 < |s| && Put(s, hash, k, v).1 == Ok
    ensures HasKey(Put(s, hash, k, v).0, k)
    ensures forall k2 :: HasKey(s, k2) ==> HasKey(Put(s, hash, k, v).0, k2)
    ensures forall k2, v2 :: Holds(Put(s, hash, k, v).0, k2, v2) ==> Holds(s, k2, v2) || (k2 == k && v2 == v)
  {
    var p := At(hash(k), |s|, Scan(s, hash(k), k, 0));
    var s' := s[p := Used(k, v)];
    assert s'[p].Used? && s'[p].key == k;
    forall k2 | HasKey(s, k2)
      ensures HasKey(s', k2)
    {
      var q :| 0 <= q < |s| && s[q].Used? && s[q].key == k2;
      assert s'[q].Used? && s'[q].key == k2;
    }
    forall k2, v2 | Holds(s', k2, v2)
      ensures Holds(s, k2, v2) || (k2 == k && v2 == v)
    {
      var q :| 0 <= q < |s| && s'[q] == Used(k2, v2);
      assert q != p ==> s[q] == Used(k2, v2);
    }
  }

  lemma CopiedStep<K(!new), V(!new)>(src: seq<Slot<K, V>>, hash: K -> nat, seen: set<nat>, p: nat, acc: seq<Slot<K, V>>)
    requires 0 < |acc| && p < |src| && src[p].Used?
    requires Copied(src, hash, seen, acc)
    requires Put(acc, hash, src[p].key, src[p].val).1 == Ok
    ensures Copied(src, hash, seen + {p}, Put(acc, hash, src[p].key, src[p].val).0)
  {
    PutKeepsChains(acc, hash, src[p].key, src[p].val);
    PutEntries(acc, hash, src[p].key, src[p].val);
    assert Holds(src, src[p].key, src[p].val);
  }

  /** After j steps of the walk. */
  ghost predicate Walked<K(!new), V(!new)>(
    src: seq<Slot<K, V>>, hash: K -> nat, seed: nat, j: nat, acc: seq<Slot<K, V>>)
    requires 0 < |src|
  {
    |UsedAt(acc)| <= j && Copied(src, hash, Visited(seed, |src|, 1, j), acc)
  }

  /** The new table always has room for the entry, or holds its key already. */
  lemma RehashPutFits<K(!new), V(!new)>(src: seq<Slot<K, V>>, hash: K -> nat, seed: nat, j: nat, acc: seq<Slot<K, V>>)
    requires WellSized(src) && 0 < |src| && j < |src| && |acc| == 4 * |src| && WellSized(acc)
    requires Walked(src, hash, seed, j, acc)
    requires src[At(seed, |src|, j + 1)].Used?
    ensures var slot := src[At(seed, |src|, j + 1)]; Put(acc, hash, slot.key, slot.val).1 == Ok
  {
    var p := At(seed, |src|, j + 1);
    PutAccounting(acc, hash, src[p].key, src[p].val);
    if j >= Reach(|acc|) {
      AtReach(seed, |src|, j + 1);
      var i := ProbeOf(seed, |src|, 1, p);
      assert p in Visited(seed, |src|, 1, j);
      LookupIsMapLookup(acc, hash, src[p].key);
      HasKeyIsContents(acc, src[p].key);
    }
  }

  /** next is the new table after step j of the walk, and acc the one before. */
  lemma WalkedStep<K(!new), V(!new)>(
    src: seq<Slot<K, V>>, hash: K -> nat, seed: nat, j: nat, acc: seq<Slot<K, V>>, next: seq<Slot<K, V>>)
    requires WellSized(src) && 0 < j <= |src| && |acc| == 4 * |src| && WellSized(acc)
    requires Walked(src, hash, seed, j - 1, acc)
    requires next == RehashOne(acc, hash, src[At(seed, |src|, j)])
    ensures var slot := src[At(seed, |src|, j)]; slot.Used? ==> Put(acc, hash, slot.key, slot.val) == (next, Ok)
    ensures WellSized(next) && Walked(src, hash, seed, j, next)
  {
    var p := At(seed, |src|, j);
    assert Visited(seed, |src|, 1, j) == Visited(seed, |src|, 1, j - 1) + {p};
    if src[p].Used? {
      assert Put(acc, hash, src[p].key, src[p].val) == (next, Ok) by {
        RehashPutFits(src, hash, seed, j - 1, acc);
      }
      PutAccounting(acc, hash, src[p].key, src[p].val);
      CopiedStep(src, hash, Visited(seed, |src|, 1, j - 1), p, acc);
    }
  }

  /** After j steps the new table is one and holds what the walk has seen. */
  ghost predicate WalkedWell<K(!new), V(!new)>(src: seq<Slot<K, V>>, hash: K -> nat, seed: nat, j: nat)
    requires 0 < |src|
  {
    WellSized(Rehash(src, hash, seed, j)) && Walked(src, hash, seed, j, Rehash(src, hash, seed, j))
  }

  lemma WalkStarts<K(!new), V(!new)>(src: seq<Slot<K, V>>, hash: K -> nat, seed: nat)
    requires WellSized(src) && 0 < |src|
    ensures WalkedWell(src, hash, seed, 0)
  {
    GrownSize(|src|);
    var blank: seq<Slot<K, V>> := Empty(4 * |src|);
    assert UsedAt(blank) == {} && Visited(seed, |src|, 1, 0) == {};
  }

  lemma WalkGoesOn<K(!new), V(!new)>(src: seq<Slot<K, V>>, hash: K -> nat, seed: nat, j: nat)
    requires WellSized(src) && 0 < j <= |src| && WalkedWell(src, hash, seed, j - 1)
    ensures WalkedWell(src, hash, seed, j)
  {
    WalkedStep(src, hash, seed, j, Rehash(src, hash, seed, j - 1), Rehash(src, hash, seed, j));
  }

  /** The walk leaves every slot it visits copied. */
  lemma {:induction false} WalkedTo<K(!new), V(!new)>(src: seq<Slot<K, V>>, hash: K -> nat, seed: nat, j: nat)
    requires WellSized(src) && 0 < |src| && j <= |src|
    ensures WalkedWell(src, hash, seed, j)
    decreases j
  {
    if j == 0 {
      WalkStarts(src, hash, seed);
    } else {
      WalkedTo(src, hash, seed, j - 1);
      WalkGoesOn(src, hash, seed, j);
    }
  }

  lemma GrownSize(n: nat)
    requires IsCap(n)
    ensures 0 < n && IsCap(4 * n)
  {
    CapIsPow2(n);
    assert 4 * n / 4 == n;
  }

  /** Growing keeps every key and invents no entry, and its result is always chained: keys that
      deletions had cut off in the old table become reachable again. */
  lemma GrowKeepsKeys<K(!new), V(!new)>(s: seq<Slot<K, V>>, hash: K -> nat, seed: nat)
    requires WellSized(s)
    ensures 0 < |s| && WellSized(Grow(s, hash, seed)) && Chained(Grow(s, hash, seed), hash)
    ensures |UsedAt(Grow(s, hash, seed))| <= |UsedAt(s)|
    ensures forall k, v :: Holds(Grow(s, hash, seed), k, v) ==> Holds(s, k, v)
    ensures forall k :: HasKey(s, k) ==> HasKey(Grow(s, hash, seed), k)
  {
    GrownSize(|s|);
    var n := |s|;
    WalkedTo(s, hash, seed, n);
    var t := Grow(s, hash, seed);
    forall k | HasKey(s, k)
      ensures HasKey(t, k)
    {
      var p :| 0 <= p < n && s[p].Used? && s[p].key == k;
      var j := ProbeOf(seed, n, 1, p);
      assert p in Visited(seed, n, 1, n);
    }
    GrownNoLarger(s, t, hash);
  }

  ghost function KeysAt<K(!new), V(!new)>(s: seq<Slot<K, V>>, at: set<nat>): (r: set<K>)
    requires at <= UsedAt(s)
  {
    set p | p in at :: s[p].key
  }

  lemma KeysWithout<K(!new), V(!new)>(s: seq<Slot<K, V>>, at: set<nat>, p: nat)
    requires at <= UsedAt(s) && p in at
    ensures KeysAt(s, at) == KeysAt(s, at - {p}) + {s[p].key}
    ensures Unique(s) ==> s[p].key !in KeysAt(s, at - {p})
  {
  }

  lemma {:induction false} ImageSize<K(!new), V(!new)>(s: seq<Slot<K, V>>, at: set<nat>)
    requires at <= UsedAt(s)
    ensures |KeysAt(s, at)| <= |at|
    ensures Unique(s) ==> |KeysAt(s, at)| == |at|
  {
    if at != {} {
      var p :| p in at;
      ImageSize(s, at - {p});
      KeysWithout(s, at, p);
    }
  }

  /** A table has no more keys than entries; a chained one has exactly as many. */
  lemma GrownNoLarger<K(!new), V(!new)>(s: seq<Slot<K, V>>, t: seq<Slot<K, V>>, hash: K -> nat)
    requires Chained(t, hash)
    requires forall k, v :: Holds(t, k, v) ==> Holds(s, k, v)
    ensures |UsedAt(t)| <= |UsedAt(s)|
  {
    ChainedUnique(t, hash);
    ImageSize(s, UsedAt(s));
    ImageSize(t, UsedAt(t));
    forall k | k in KeysAt(t, UsedAt(t))
      ensures k in KeysAt(s, UsedAt(s))
    {
      var p :| p in UsedAt(t) && t[p].key == k;
      assert Holds(t, k, t[p].val);
      var q :| 0 <= q < |s| && s[q] == Used(k, t[p].val);
      assert q in UsedAt(s);
    }
    SubsetSize(KeysAt(t, UsedAt(t)), KeysAt(s, UsedAt(s)));
  }

  lemma SameContents<K(!new), V(!new)>(s: seq<Slot<K, V>>, t: seq<Slot<K, V>>)
    requires Unique(s) && Unique(t)
    requires forall k, v :: Holds(s, k, v) <==> Holds(t, k, v)
    ensures Contents(s) == Contents(t)
  {
    var m, m' := Contents(s), Contents(t);
    assert forall k :: k in m ==> Holds(s, k, m[k]);
    assert forall k :: k in m' ==> Holds(t, k, m'[k]);
  }

  lemma OneValue<K(!new), V(!new)>(s: seq<Slot<K, V>>, k: K, v: V, v': V)
    requires Unique(s) && Holds(s, k, v) && Holds(s, k, v')
    ensures v == v'
  {
  }

  /** On a chained table growing does not change the map at all. */
  lemma GrowKeepsMap<K(!new), V(!new)>(s: seq<Slot<K, V>>, hash: K -> nat, seed: nat)
    requires WellSized(s) && Chained(s, hash)
    ensures var t := Grow(s, hash, seed);
            0 < |s| && Unique(s) && Chained(t, hash) && Unique(t) && Contents(t) == Contents(s)
  {
    GrowKeepsKeys(s, hash, seed);
    var t := Grow(s, hash, seed);
    ChainedUnique(s, hash);
    ChainedUnique(t, hash);
    forall k, v | Holds(s, k, v)
      ensures Holds(t, k, v)
    {
      assert HasKey(s, k);
      var p :| 0 <= p < |t| && t[p].Used? && t[p].key == k;
      assert Holds(t, k, t[p].val);
      OneValue(s, k, v, t[p].val);
    }
    SameContents(s, t);
  }

  // ----- vht_del

  /** The walk for k goes past slot p before it ends. */
  ghost predicate OnPath<K(!new), V(!new)>(s: seq<Slot<K, V>>, hash: K -> nat, k: K, p: nat)
    requires 0 < |s|
  {
    exists i :: 0 <= i < Scan(s, hash(k), k, 0) && At(hash(k), |s|, i) == p
  }

  /** Where vht_del finds its key. */
  ghost function Found<K(!new), V(!new)>(s: seq<Slot<K, V>>, hash: K -> nat, k: K): (p: nat)
    requires 0 < |s| && Lookup(s, hash, k).Some?
    ensures p < |s| && s[p].Used? && s[p].key == k
  {
    At(hash(k), |s|, Scan(s, hash(k), k, 0))
  }

  /** A get right after a successful delete of the same key misses, on any table. */
  lemma RemoveForgets<K(!new), V(!new)>(s: seq<Slot<K, V>>, hash: K -> nat, k: K)
    requires 0 < |s|
    ensures Remove(s, hash, k).1 == Ok <==> Lookup(s, hash, k).Some?
    ensures Lookup(Remove(s, hash, k).0, hash, k) == None
  {
    if Lookup(s, hash, k).Some? {
      CutWalk(s, hash, k, Found(s, hash, k), Scan(s, hash(k), k, 0));
    }
  }

  /** Freeing the slot at step r of a walk makes the walk end there with nothing. */
  lemma CutWalk<K(!new), V(!new)>(s: seq<Slot<K, V>>, hash: K -> nat, k: K, p: nat, r: nat)
    requires 0 < |s| && p < |s| && r <= Scan(s, hash(k), k, 0) && r < |s|
    requires At(hash(k), |s|, r) == p
    requires forall i :: 0 <= i < r ==> At(hash(k), |s|, i) != p
    ensures Lookup(s[p := Free], hash, k) == None
  {
    var s' := s[p := Free];
    forall i | 0 <= i < r
      ensures Passes(s'[At(hash(k), |s'|, i)], k)
    {
      assert Passes(s[At(hash(k), |s|, i)], k);
    }
    ScanIs(s', hash(k), k, 0, r);
  }

  lemma {:induction false} FirstVisit(h: nat, cap: nat, p: nat, i: nat) returns (r: nat)
    requires cap > 0 && At(h, cap, i) == p
    ensures r <= i && At(h, cap, r) == p
    ensures forall j :: 0 <= j < r ==> At(h, cap, j) != p
  {
    if forall j :: 0 <= j < i ==> At(h, cap, j) != p {
      r := i;
    } else {
      var j :| 0 <= j < i && At(h, cap, j) == p;
      r := FirstVisit(h, cap, p, j);
    }
  }

  /** What a delete does to every other key: it is lost exactly when its walk goes past the freed slot. */
  lemma RemoveOthers<K(!new), V(!new)>(s: seq<Slot<K, V>>, hash: K -> nat, k: K, k2: K)
    requires 0 < |s| && Lookup(s, hash, k).Some? && k2 != k
    ensures Lookup(Remove(s, hash, k).0, hash, k2)
         == if OnPath(s, hash, k2, Found(s, hash, k)) then None else Lookup(s, hash, k2)
  {
    var p := Found(s, hash, k);
    var s' := s[p := Free];
    var h, r := hash(k2), Scan(s, hash(k2), k2, 0);
    if OnPath(s, hash, k2, p) {
      var i :| 0 <= i < r && At(h, |s|, i) == p;
      var f := FirstVisit(h, |s|, p, i);
      CutWalk(s, hash, k2, p, f);
    } else {
      forall i | 0 <= i < r
        ensures Passes(s'[At(h, |s'|, i)], k2)
      {
        assert Passes(s[At(h, |s|, i)], k2);
      }
      ScanIs(s', h, k2, 0, r);
    }
  }

  lemma RemoveAccounting<K(!new), V(!new)>(s: seq<Slot<K, V>>, hash: K -> nat, k: K)
    requires 0 < |s|
    ensures |UsedAt(Remove(s, hash, k).0)| == |UsedAt(s)| - if Remove(s, hash, k).1 == Ok then 1 else 0
  {
    if Lookup(s, hash, k).Some? {
      var p := Found(s, hash, k);
      assert UsedAt(s) == UsedAt(s[p := Free]) + {p};
      assert p !in UsedAt(s[p := Free]);
    }
  }

  function MapGet<K(==), V>(m: map<K, V>, k: K): (r: Option<V>)
  {
    if k in m then Some(m[k]) else None
  }

  /** Some other stored key depends on the slot that holds k. */
  ghost predicate Cuts<K(!new), V(!new)>(s: seq<Slot<K, V>>, hash: K -> nat, k: K)
    requires 0 < |s| && Lookup(s, hash, k).Some?
  {
    exists k2 :: k2 != k && HasKey(s, k2) && OnPath(s, hash, k2, Found(s, hash, k))
  }

  /** On a chained table a delete answers every get as map removal would, and leaves the table chained, if and
      only if the freed slot lies on no other stored key's path. */
  lemma RemoveIsMapRemovalIff<K(!new), V(!new)>(s: seq<Slot<K, V>>, hash: K -> nat, k: K)
    requires 0 < |s| && Chained(s, hash) && Lookup(s, hash, k).Some?
    ensures Unique(s)
    ensures (forall k2 :: Lookup(Remove(s, hash, k).0, hash, k2) == MapGet(Contents(s) - {k}, k2))
            <==> !Cuts(s, hash, k)
    ensures Chained(Remove(s, hash, k).0, hash) <==> !Cuts(s, hash, k)
  {
    ChainedUnique(s, hash);
    var s', m := Remove(s, hash, k).0, Contents(s) - {k};
    RemoveForgets(s, hash, k);
    forall k2 | k2 != k
      ensures (Lookup(s', hash, k2) == MapGet(m, k2))
              <==> !(HasKey(s, k2) && OnPath(s, hash, k2, Found(s, hash, k)))
    {
      RemoveOneIff(s, hash, k, k2);
    }
    if Cuts(s, hash, k) {
      var k2 :| k2 != k && HasKey(s, k2) && OnPath(s, hash, k2, Found(s, hash, k));
      RemoveOthers(s, hash, k, k2);
      var q :| 0 <= q < |s| && s[q].Used? && s[q].key == k2;
      assert s'[q] == s[q] && !AtHome(s', hash, q);
    } else {
      RemoveKeepsChains(s, hash, k);
    }
  }

  lemma RemoveKeepsChains<K(!new), V(!new)>(s: seq<Slot<K, V>>, hash: K -> nat, k: K)
    requires 0 < |s| && Chained(s, hash) && Lookup(s, hash, k).Some? && !Cuts(s, hash, k)
    ensures Chained(Remove(s, hash, k).0, hash)
  {
    var s', p := Remove(s, hash, k).0, Found(s, hash, k);
    ChainedUnique(s, hash);
    forall q | 0 <= q < |s'| && s'[q].Used?
      ensures AtHome(s', hash, q)
    {
      var k2 := s[q].key;
      assert AtHome(s, hash, q) && HasKey(s, k2) && k2 != k;
      OffPathStays(s, hash, k2, p);
    }
  }

  /** Freeing a slot that a walk does not go past, and does not end at, leaves the walk as it was. */
  lemma OffPathStays<K(!new), V(!new)>(s: seq<Slot<K, V>>, hash: K -> nat, k2: K, p: nat)
    requires 0 < |s| && p < |s| && s[p].Used? && s[p].key != k2 && !OnPath(s, hash, k2, p)
    ensures Scan(s[p := Free], hash(k2), k2, 0) == Scan(s, hash(k2), k2, 0)
  {
    var s', h, r := s[p := Free], hash(k2), Scan(s, hash(k2), k2, 0);
    forall i | 0 <= i < r
      ensures Passes(s'[At(h, |s'|, i)], k2)
    {
      assert Passes(s[At(h, |s|, i)], k2);
    }
    ScanIs(s', h, k2, 0, r);
  }

  lemma FreedHolds<K(!new), V(!new)>(s: seq<Slot<K, V>>, p: nat, k: K, v: V)
    requires p < |s| && s[p].Used? && Unique(s)
    ensures Holds(s[p := Free], k, v) <==> Holds(s, k, v) && k != s[p].key
  {
    var s' := s[p := Free];
    if Holds(s, k, v) && k != s[p].key {
      var q :| 0 <= q < |s| && s[q] == Used(k, v);
      assert s'[q] == s[q];
    }
  }

  lemma RemoveContents<K(!new), V(!new)>(s: seq<Slot<K, V>>, hash: K -> nat, k: K)
    requires 0 < |s| && Lookup(s, hash, k).Some? && Unique(s) && Unique(Remove(s, hash, k).0)
    ensures Contents(Remove(s, hash, k).0) == Contents(s) - {k}
  {
    var m, s' := Contents(s), Remove(s, hash, k).0;
    forall k2
      ensures MapGet(Contents(s'), k2) == if k2 == k then None else MapGet(m, k2)
    {
      if k2 in m { FreedHolds(s, Found(s, hash, k), k2, m[k2]); }
      if k2 in Contents(s') { FreedHolds(s, Found(s, hash, k), k2, Contents(s')[k2]); }
    }
    SameButKey(m, Contents(s'), k);
  }

  lemma SameButKey<K(!new), V(!new)>(m: map<K, V>, m': map<K, V>, k: K)
    requires forall k2 :: MapGet(m', k2) == if k2 == k then None else MapGet(m, k2)
    ensures m' == m - {k}
  {
    assert forall k2 :: k2 in m' ==> MapGet(m', k2) == Some(m'[k2]);
    assert forall k2 :: k2 in m ==> MapGet(m, k2) == Some(m[k2]);
  }

  lemma RemoveOneIff<K(!new), V(!new)>(s: seq<Slot<K, V>>, hash: K -> nat, k: K, k2: K)
    requires 0 < |s| && Chained(s, hash) && Lookup(s, hash, k).Some? && k2 != k
    ensures Unique(s)
    ensures Lookup(Remove(s, hash, k).0, hash, k2) == MapGet(Contents(s) - {k}, k2)
            <==> !(HasKey(s, k2) && OnPath(s, hash, k2, Found(s, hash, k)))
  {
    RemoveOthers(s, hash, k, k2);
    LookupIsMapLookup(s, hash, k2);
    HasKeyIsContents(s, k2);
  }

  lemma OneSet<K(!new), V(!new)>(hash: K -> nat, n: nat, k: K, v: V)
    requires IsCap(n)
    ensures 0 < n && 0 < Reach(n)
    ensures Put<K, V>(Empty(n), hash, k, v) == (Empty(n)[hash(k) % Reach(n) := Used(k, v)], Ok)
  {
    FirstSlot(hash(k), n);
    ScanIs<K, V>(Empty(n), hash(k), k, 0, 0);
  }

  /** The first two probes for a key in a table with one entry. */
  lemma TwoProbes(h: nat, n: nat)
    requires IsCap(n)
    ensures 0 < n && 0 < Reach(n) && At(h, n, 0) == h % Reach(n) != At(h, n, 1)
  {
    FirstSlot(h, n);
    AtReach(h, n, 0);
    AtReach(h, n, 1);
    CapIsPow2(Reach(n));
    ProbesDistinct(h, Reach(n), 0, 1);
  }

  lemma SecondScan<K(!new), V(!new)>(s: seq<Slot<K, V>>, n: nat, p: nat, k1: K, v1: V, h: nat, k2: K)
    requires IsCap(n) && p < n && s == Empty(n)[p := Used(k1, v1)] && k1 != k2
    ensures 0 < n && 0 < Reach(n) && Scan(s, h, k2, 0) == if h % Reach(n) == p then 1 else 0
  {
    TwoProbes(h, n);
    ScanIs(s, h, k2, 0, if h % Reach(n) == p then 1 else 0);
  }

  /** Where the second of two keys goes. */
  lemma TwoSets<K(!new), V(!new)>(hash: K -> nat, n: nat, k1: K, v1: V, k2: K, v2: V)
    requires IsCap(n) && k1 != k2
    ensures 0 < n && 0 < Reach(n)
    ensures var p1 := hash(k1) % Reach(n);
            var p2 := if hash(k2) % Reach(n) == p1 then At(hash(k2), n, 1) else hash(k2) % Reach(n);
            && p2 != p1
            && Put(Put<K, V>(Empty(n), hash, k1, v1).0, hash, k2, v2)
               == (Empty(n)[p1 := Used(k1, v1)][p2 := Used(k2, v2)], Ok)
  {
    OneSet<K, V>(hash, n, k1, v1);
    var p1 := hash(k1) % Reach(n);
    SecondScan<K, V>(Empty(n)[p1 := Used(k1, v1)], n, p1, k1, v1, hash(k2), k2);
    TwoProbes(hash(k2), n);
  }

  /** Of two keys set in an empty table, deleting the first hides the second if and only if their hashes agree modulo
      the slots within reach; deleting the second never hides the first. */
  lemma DeleteAfterTwoSets<K(!new), V(!new)>(hash: K -> nat, n: nat, k1: K, v1: V, k2: K, v2: V)
    requires IsCap(n) && k1 != k2
    ensures 0 < n && 0 < Reach(n)
    ensures var s := Put(Put<K, V>(Empty(n), hash, k1, v1).0, hash, k2, v2).0;
            && Lookup(Remove(s, hash, k1).0, hash, k2)
               == (if hash(k1) % Reach(n) == hash(k2) % Reach(n) then None else Some(v2))
            && Lookup(Remove(s, hash, k2).0, hash, k1) == Some(v1)
  {
    TwoSets(hash, n, k1, v1, k2, v2);
    TwoProbes(hash(k1), n);
    TwoProbes(hash(k2), n);
    var p1 := hash(k1) % Reach(n);
    var p2 := if hash(k2) % Reach(n) == p1 then At(hash(k2), n, 1) else hash(k2) % Reach(n);
    var s: seq<Slot<K, V>> := Empty(n)[p1 := Used(k1, v1)][p2 := Used(k2, v2)];
    ScanIs(s, hash(k1), k1, 0, 0);
    ScanIs(s, hash(k2), k2, 0, if hash(k2) % Reach(n) == p1 then 1 else 0);
    ScanIs(s[p1 := Free], hash(k2), k2, 0, 0);
    ScanIs(s[p2 := Free], hash(k1), k1, 0, 0);
  }

  /** The two directions are both inhabited: with two keys of equal hash, deleting the first hides the
      second although its entry is still in the table. */
  lemma DeleteCanHideAnotherKey()
    ensures var hash := (k: bool) => 0;
            var s := Put(Put(Empty<bool, int>(INITIAL_CAP), hash, false, 10).0, hash, true, 20).0;
            && Lookup(s, hash, true) == Some(20)
            && Remove(s, hash, false).1 == Ok
            && Lookup(Remove(s, hash, false).0, hash, true) == None
            && Holds(Remove(s, hash, false).0, true, 20)
  {
    var hash := (k: bool) => 0;
    var s0 := Empty<bool, int>(INITIAL_CAP);
    assert At(0, 16, 0) == 0 && At(0, 16, 1) == 1;
    ScanIs(s0, 0, false, 0, 0);
    var s1 := s0[0 := Used(false, 10)];
    assert s1 == Put(s0, hash, false, 10).0;
    ScanIs(s1, 0, true, 0, 1);
    var s2 := s1[1 := Used(true, 20)];
    assert s2 == Put(s1, hash, true, 20).0;
    ScanIs(s2, 0, true, 0, 1);
    ScanIs(s2, 0, false, 0, 0);
    var s3 := s2[0 := Free];
    assert s3 == Remove(s2, hash, false).0;
    ScanIs(s3, 0, true, 0, 0);
    assert s3[1] == Used(true, 20);
  }

  // ----- whole runs

  /** grown tells whether the allocations of the growth that a set may need succeed. */
  datatype Op<K, V> =
    | SetOp(k: K, v: V, grown: bool, seed: nat)
    | GetOp(g: K)
    | DelOp(d: K)

  datatype Answer<V> = Status(code: Code) | Value(found: Option<V>)

  ghost function Apply<K(!new), V(!new)>(s: seq<Slot<K, V>>, hash: K -> nat, op: Op<K, V>)
    : (r: (seq<Slot<K, V>>, Answer<V>))
    requires 0 < |s|
    ensures 0 < |r.0|
  {
    match op
    case SetOp(k, v, grown, seed) => var (t, c) := Set(s, |UsedAt(s)|, hash, k, v, grown, seed); (t, Status(c))
    case GetOp(k) => (s, Value(Lookup(s, hash, k)))
    case DelOp(k) => var (t, c) := Remove(s, hash, k); (t, Status(c))
  }

  ghost function Run<K(!new), V(!new)>(s: seq<Slot<K, V>>, hash: K -> nat, ops: seq<Op<K, V>>): (r: seq<Slot<K, V>>)
    requires 0 < |s|
    ensures 0 < |r|
    decreases |ops|
  {
    if ops == [] then s else Run(Apply(s, hash, ops[0]).0, hash, ops[1..])
  }

  ghost function Answers<K(!new), V(!new)>(s: seq<Slot<K, V>>, hash: K -> nat, ops: seq<Op<K, V>>): (r: seq<Answer<V>>)
    requires 0 < |s|
    ensures |r| == |ops|
    decreases |ops|
  {
    if ops == [] then [] else [Apply(s, hash, ops[0]).1] + Answers(Apply(s, hash, ops[0]).0, hash, ops[1..])
  }

  /** Capacities that the load limit leads to: none is so large that multiplying it by 4 could wrap a size_t. */
  const LARGEST_CAP: nat := 16 * WORD

  ghost predicate Sound<K(!new), V(!new)>(s: seq<Slot<K, V>>) {
    WellSized(s) && 0 < |s| <= LARGEST_CAP
  }

  lemma ReadySound<K(!new), V(!new)>(s: seq<Slot<K, V>>, hash: K -> nat, grown: bool, seed: nat)
    requires Sound(s)
    ensures var t := Ready(s, |UsedAt(s)|, hash, grown, seed); Sound(t) && |UsedAt(t)| <= |UsedAt(s)| <= WORD
    ensures MustGrow(s, |UsedAt(s)|) ==> |s| <= 4 * WORD
  {
    UsedAtBound(s);
    GrowKeepsKeys(s, hash, seed);
  }

  /** The sets inside vht_double meet a table below its load limit, so they never double again, and
      they never fail. */
  lemma RehashNeverGrows<K(!new), V(!new)>(src: seq<Slot<K, V>>, hash: K -> nat, seed: nat, j: nat)
    requires WellSized(src) && 0 < |src| && j < |src|
    ensures var now, slot := Rehash(src, hash, seed, j), src[At(seed, |src|, j + 1)];
            && WellSized(now) && !MustGrow(now, |UsedAt(now)|)
            && (slot.Free? ==> Rehash(src, hash, seed, j + 1) == now)
            && (slot.Used? ==> Set(now, |UsedAt(now)|, hash, slot.key, slot.val, false, 0)
                               == (Rehash(src, hash, seed, j + 1), Ok))
  {
    WalkedTo(src, hash, seed, j);
    WalkedStep(src, hash, seed, j + 1, Rehash(src, hash, seed, j), Rehash(src, hash, seed, j + 1));
  }

  /** The load limit between operations: len * 4 <= cap. */
  ghost predicate Loaded<K(!new), V(!new)>(s: seq<Slot<K, V>>) {
    Sound(s) && 4 * |UsedAt(s)| <= |s|
  }

  lemma ReadyRoom<K(!new), V(!new)>(s: seq<Slot<K, V>>, hash: K -> nat, seed: nat)
    requires Loaded(s)
    ensures var t := Ready(s, |UsedAt(s)|, hash, true, seed);
            Sound(t) && 4 * (|UsedAt(t)| + 1) <= |t| && |UsedAt(t)| <= |UsedAt(s)|
  {
    CapIsPow2(|s|);
    ReadySound(s, hash, true, seed);
  }

  /** A set whose allocations succeed leaves the load at most 1/4 and never reports a full table, unless all 2^32
      slots that an offset can reach are taken by other keys. */
  lemma SetKeepsLoad<K(!new), V(!new)>(s: seq<Slot<K, V>>, hash: K -> nat, k: K, v: V, seed: nat)
    requires Loaded(s)
    ensures var (t, code) := Set(s, |UsedAt(s)|, hash, k, v, true, seed);
            && Loaded(t) && |UsedAt(t)| <= |UsedAt(s)| + 1
            && (code == Ok || (code == ExFull && |UsedAt(s)| == WORD))
  {
    ReadyRoom(s, hash, seed);
    ReadySound(s, hash, true, seed);
    PutAccounting(Ready(s, |UsedAt(s)|, hash, true, seed), hash, k, v);
  }

  lemma StepKeepsLoad<K(!new), V(!new)>(s: seq<Slot<K, V>>, hash: K -> nat, op: Op<K, V>)
    requires Loaded(s) && (op.SetOp? ==> op.grown)
    ensures var (t, answer) := Apply(s, hash, op);
            Loaded(t) && (op.SetOp? ==> answer == Status(Ok) || (answer == Status(ExFull) && |UsedAt(s)| == WORD))
  {
    match op {
      case SetOp(k, v, grown, seed) => SetKeepsLoad(s, hash, k, v, seed);
      case GetOp(k) =>
      case DelOp(k) => RemoveAccounting(s, hash, k);
    }
  }

  /** Every run of set, get and del whose allocations succeed, with all its resizes: the load limit holds
      throughout, and a set fails only with 2^32 entries in the table. */
  lemma {:induction false} RunKeepsLoad<K(!new), V(!new)>(s: seq<Slot<K, V>>, hash: K -> nat, ops: seq<Op<K, V>>)
    requires Loaded(s) && forall i :: 0 <= i < |ops| && ops[i].SetOp? ==> ops[i].grown
    ensures Loaded(Run(s, hash, ops))
    ensures forall i :: 0 <= i < |ops| && ops[i].SetOp? ==>
              || Answers(s, hash, ops)[i] == Status(Ok)
              || (Answers(s, hash, ops)[i] == Status(ExFull) && |UsedAt(Run(s, hash, ops[..i]))| == WORD)
    decreases |ops|
  {
    if ops != [] {
      StepKeepsLoad(s, hash, ops[0]);
      RunKeepsLoad(Apply(s, hash, ops[0]).0, hash, ops[1..]);
      forall i | 0 < i < |ops|
        ensures ops[i] == ops[1..][i - 1]
        ensures Run(s, hash, ops[..i]) == Run(Apply(s, hash, ops[0]).0, hash, ops[1..][..i - 1])
      {
        assert ops[..i][1..] == ops[1..][..i - 1];
      }
    }
  }

  // ----- the same runs on a map

  /** A map with the capacity that the table has. */
  datatype Bounded<K, V> = Bounded(m: map<K, V>, cap: nat)

  ghost function RoomFor<K(!new), V(!new)>(b: Bounded<K, V>, grown: bool): (cap: nat)
  {
    if 4 * |b.m| >= b.cap && grown then 4 * b.cap else b.cap
  }

  ghost function BoundedApply<K(!new), V(!new)>(b: Bounded<K, V>, op: Op<K, V>): (r: (Bounded<K, V>, Answer<V>))
  {
    match op
    case SetOp(k, v, grown, _) =>
      if k in b.m || |b.m| < Reach(RoomFor(b, grown)) then (Bounded(b.m[k := v], RoomFor(b, grown)), Status(Ok))
      else (Bounded(b.m, RoomFor(b, grown)), Status(ExFull))
    case GetOp(k) => (b, Value(MapGet(b.m, k)))
    case DelOp(k) => (Bounded(b.m - {k}, b.cap), Status(if k in b.m then Ok else NoData))
  }

  ghost function BoundedAnswers<K(!new), V(!new)>(b: Bounded<K, V>, ops: seq<Op<K, V>>): (r: seq<Answer<V>>)
    ensures |r| == |ops|
    decreases |ops|
  {
    if ops == [] then [] else [BoundedApply(b, ops[0]).1] + BoundedAnswers(BoundedApply(b, ops[0]).0, ops[1..])
  }

  /** No delete of the run frees a slot on the path of another stored key. */
  ghost predicate NeverCuts<K(!new), V(!new)>(s: seq<Slot<K, V>>, hash: K -> nat, ops: seq<Op<K, V>>)
    requires 0 < |s|
    decreases |ops|
  {
    ops != [] ==>
      && (ops[0].DelOp? && Lookup(s, hash, ops[0].d).Some? ==> !Cuts(s, hash, ops[0].d))
      && NeverCuts(Apply(s, hash, ops[0]).0, hash, ops[1..])
  }

  ghost predicate Means<K(!new), V(!new)>(s: seq<Slot<K, V>>, hash: K -> nat, b: Bounded<K, V>) {
    Sound(s) && Chained(s, hash) && Unique(s) && Contents(s) == b.m && |s| == b.cap
  }

  /** A chained table has as many entries as its map. */
  lemma EntriesAreKeys<K(!new), V(!new)>(s: seq<Slot<K, V>>)
    requires Unique(s)
    ensures |UsedAt(s)| == |Contents(s)|
  {
    ImageSize(s, UsedAt(s));
    var m := Contents(s);
    forall k
      ensures k in KeysAt(s, UsedAt(s)) <==> k in m.Keys
    {
      HasKeyIsContents(s, k);
      if HasKey(s, k) {
        var p :| 0 <= p < |s| && s[p].Used? && s[p].key == k;
        assert p in UsedAt(s);
      }
    }
    assert KeysAt(s, UsedAt(s)) == m.Keys;
  }

  lemma ReadyMeans<K(!new), V(!new)>(s: seq<Slot<K, V>>, hash: K -> nat, b: Bounded<K, V>, grown: bool, seed: nat)
    requires Means(s, hash, b)
    ensures Means(Ready(s, |UsedAt(s)|, hash, grown, seed), hash, Bounded(b.m, RoomFor(b, grown)))
  {
    EntriesAreKeys(s);
    ReadySound(s, hash, grown, seed);
    GrowKeepsMap(s, hash, seed);
  }

  lemma PutMeans<K(!new), V(!new)>(s: seq<Slot<K, V>>, hash: K -> nat, b: Bounded<K, V>, k: K, v: V)
    requires Means(s, hash, b)
    ensures var (t, code) := Put(s, hash, k, v);
            if k in b.m || |b.m| < Reach(b.cap) then code == Ok && Means(t, hash, Bounded(b.m[k := v], b.cap))
            else code == ExFull && t == s
  {
    EntriesAreKeys(s);
    UsedAtBound(s);
    LookupIsMapLookup(s, hash, k);
    PutAccounting(s, hash, k, v);
    if Put(s, hash, k, v).1 == Ok {
      PutIsMapUpdate(s, hash, k, v);
    }
  }

  lemma RemoveMeans<K(!new), V(!new)>(s: seq<Slot<K, V>>, hash: K -> nat, b: Bounded<K, V>, k: K)
    requires Means(s, hash, b) && (Lookup(s, hash, k).Some? ==> !Cuts(s, hash, k))
    ensures var (t, code) := Remove(s, hash, k);
            Means(t, hash, Bounded(b.m - {k}, b.cap)) && code == if k in b.m then Ok else NoData
  {
    LookupIsMapLookup(s, hash, k);
    if k in b.m {
      RemoveKeepsChains(s, hash, k);
      ChainedUnique(Remove(s, hash, k).0, hash);
      RemoveContents(s, hash, k);
    } else {
      assert b.m - {k} == b.m;
    }
  }

  /** One operation does to the table what it does to the map. */
  lemma StepRefinesMap<K(!new), V(!new)>(s: seq<Slot<K, V>>, hash: K -> nat, b: Bounded<K, V>, op: Op<K, V>)
    requires Means(s, hash, b) && (op.DelOp? && Lookup(s, hash, op.d).Some? ==> !Cuts(s, hash, op.d))
    ensures Means(Apply(s, hash, op).0, hash, BoundedApply(b, op).0)
    ensures Apply(s, hash, op).1 == BoundedApply(b, op).1
  {
    match op {
      case SetOp(k, v, grown, seed) =>
        ReadyMeans(s, hash, b, grown, seed);
        PutMeans(Ready(s, |UsedAt(s)|, hash, grown, seed), hash, Bounded(b.m, RoomFor(b, grown)), k, v);
      case GetOp(k) => LookupIsMapLookup(s, hash, k);
      case DelOp(k) => RemoveMeans(s, hash, b, k);
    }
  }

  lemma {:induction false} RunFromMap<K(!new), V(!new)>(
    s: seq<Slot<K, V>>, hash: K -> nat, b: Bounded<K, V>, ops: seq<Op<K, V>>)
    requires Means(s, hash, b) && NeverCuts(s, hash, ops)
    ensures Answers(s, hash, ops) == BoundedAnswers(b, ops)
    decreases |ops|
  {
    if ops != [] {
      StepRefinesMap(s, hash, b, ops[0]);
      RunFromMap(Apply(s, hash, ops[0]).0, hash, BoundedApply(b, ops[0]).0, ops[1..]);
    }
  }

  lemma EmptyMeans<K(!new), V(!new)>(hash: K -> nat)
    ensures Means<K, V>(Empty(INITIAL_CAP), hash, Bounded(map[], INITIAL_CAP))
  {
    var s: seq<Slot<K, V>> := Empty(INITIAL_CAP);
    assert forall k, v :: !Holds(s, k, v);
    assert Contents(s) == map[];
  }

  /** Every run of set, get and del from an empty table, of any length, with all the resizes it triggers and
      whichever allocations fail, gives the answers of a finite map of limited size, provided no delete cuts
      another key's chain. */
  lemma RunRefinesBoundedMap<K(!new), V(!new)>(hash: K -> nat, ops: seq<Op<K, V>>)
    requires NeverCuts(Empty(INITIAL_CAP), hash, ops)
    ensures Answers(Empty(INITIAL_CAP), hash, ops) == BoundedAnswers(Bounded(map[], INITIAL_CAP), ops)
  {
    EmptyMeans<K, V>(hash);
    RunFromMap(Empty(INITIAL_CAP), hash, Bounded(map[], INITIAL_CAP), ops);
  }

  ghost predicate GetsAgree<K(!new), V(!new)>(s: seq<Slot<K, V>>, hash: K -> nat, m: map<K, V>)
    requires 0 < |s|
  {
    forall k :: Lookup(s, hash, k) == MapGet(m, k)
  }

  /** Every key is looked up as in the map, before and after every operation of the run. */
  ghost predicate AlwaysAgrees<K(!new), V(!new)>(
    s: seq<Slot<K, V>>, hash: K -> nat, b: Bounded<K, V>, ops: seq<Op<K, V>>)
    requires 0 < |s|
    decreases |ops|
  {
    && GetsAgree(s, hash, b.m)
    && (ops != [] ==> AlwaysAgrees(Apply(s, hash, ops[0]).0, hash, BoundedApply(b, ops[0]).0, ops[1..]))
  }

  lemma MeansAgrees<K(!new), V(!new)>(s: seq<Slot<K, V>>, hash: K -> nat, b: Bounded<K, V>)
    requires Means(s, hash, b)
    ensures GetsAgree(s, hash, b.m)
  {
    forall k
      ensures Lookup(s, hash, k) == MapGet(b.m, k)
    {
      LookupIsMapLookup(s, hash, k);
    }
  }

  /** The table of a run keeps to its map at every point if and only if no delete cuts another key's chain. */
  lemma {:induction false} AgreesIffNeverCuts<K(!new), V(!new)>(
    s: seq<Slot<K, V>>, hash: K -> nat, b: Bounded<K, V>, ops: seq<Op<K, V>>)
    requires Means(s, hash, b)
    ensures AlwaysAgrees(s, hash, b, ops) <==> NeverCuts(s, hash, ops)
    decreases |ops|
  {
    MeansAgrees(s, hash, b);
    if ops != [] {
      var next := Apply(s, hash, ops[0]).0;
      if ops[0].DelOp? && Lookup(s, hash, ops[0].d).Some? && Cuts(s, hash, ops[0].d) {
        RemoveIsMapRemovalIff(s, hash, ops[0].d);
        assert !GetsAgree(next, hash, BoundedApply(b, ops[0]).0.m);
      } else {
        StepRefinesMap(s, hash, b, ops[0]);
        AgreesIffNeverCuts(next, hash, BoundedApply(b, ops[0]).0, ops[1..]);
      }
    }
  }

  /** Over every run from an empty table, whichever allocations fail. */
  lemma RunAgreesIffNeverCuts<K(!new), V(!new)>(hash: K -> nat, ops: seq<Op<K, V>>)
    ensures AlwaysAgrees(Empty(INITIAL_CAP), hash, Bounded(map[], INITIAL_CAP), ops)
            <==> NeverCuts(Empty(INITIAL_CAP), hash, ops)
  {
    EmptyMeans<K, V>(hash);
    AgreesIffNeverCuts(Empty(INITIAL_CAP), hash, Bounded(map[], INITIAL_CAP), ops);
  }

  // ----- runs in which memory does not run out

  /** The map itself: it refuses a new key only when it has 2^32 of them. */
  ghost function MapApply<K(!new), V(!new)>(m: map<K, V>, op: Op<K, V>): (r: (map<K, V>, Answer<V>))
  {
    match op
    case SetOp(k, v, _, _) => if k in m || |m| < WORD then (m[k := v], Status(Ok)) else (m, Status(ExFull))
    case GetOp(k) => (m, Value(MapGet(m, k)))
    case DelOp(k) => (m - {k}, Status(if k in m then Ok else NoData))
  }

  ghost function MapAnswers<K(!new), V(!new)>(m: map<K, V>, ops: seq<Op<K, V>>): (r: seq<Answer<V>>)
    ensures |r| == |ops|
    decreases |ops|
  {
    if ops == [] then [] else [MapApply(m, ops[0]).1] + MapAnswers(MapApply(m, ops[0]).0, ops[1..])
  }

  ghost predicate Roomy<K(!new), V(!new)>(b: Bounded<K, V>) {
    4 * |b.m| <= b.cap && b.cap >= 4 && b.cap % 4 == 0
  }

  lemma RoomySet<K(!new), V(!new)>(b: Bounded<K, V>, op: Op<K, V>)
    requires Roomy(b) && op.SetOp? && op.grown
    ensures Roomy(BoundedApply(b, op).0)
    ensures BoundedApply(b, op).0.m == MapApply(b.m, op).0 && BoundedApply(b, op).1 == MapApply(b.m, op).1
  {
    Added(b.m, op.k, op.v);
    var cap := RoomFor(b, true);
    assert cap >= 4 * |b.m| + 4 && cap >= b.cap && cap % 4 == 0;
  }

  lemma RoomyStep<K(!new), V(!new)>(b: Bounded<K, V>, op: Op<K, V>)
    requires Roomy(b) && (op.SetOp? ==> op.grown)
    ensures Roomy(BoundedApply(b, op).0)
    ensures BoundedApply(b, op).0.m == MapApply(b.m, op).0 && BoundedApply(b, op).1 == MapApply(b.m, op).1
  {
    match op {
      case SetOp(_, _, _, _) => RoomySet(b, op);
      case GetOp(_) =>
      case DelOp(k) => Taken(b.m, k);
    }
  }

  lemma Added<K, V>(m: map<K, V>, k: K, v: V)
    ensures |m[k := v]| == |m| + if k in m then 0 else 1
  {
    assert m[k := v].Keys == m.Keys + {k};
  }

  lemma Taken<K, V>(m: map<K, V>, k: K)
    ensures |m - {k}| <= |m|
  {
    assert (m - {k}).Keys <= m.Keys;
    SubsetSize((m - {k}).Keys, m.Keys);
  }

  lemma {:induction false} RoomyRun<K(!new), V(!new)>(b: Bounded<K, V>, ops: seq<Op<K, V>>)
    requires Roomy(b) && forall i :: 0 <= i < |ops| && ops[i].SetOp? ==> ops[i].grown
    ensures BoundedAnswers(b, ops) == MapAnswers(b.m, ops)
    decreases |ops|
  {
    if ops != [] {
      RoomyStep(b, ops[0]);
      RoomyRun(BoundedApply(b, ops[0]).0, ops[1..]);
    }
  }

  /** When allocation succeeds, every such run gives the answers of a finite map that refuses a new key only when it
      has 2^32 keys. */
  lemma RunRefinesMap<K(!new), V(!new)>(hash: K -> nat, ops: seq<Op<K, V>>)
    requires forall i :: 0 <= i < |ops| && ops[i].SetOp? ==> ops[i].grown
    requires NeverCuts(Empty(INITIAL_CAP), hash, ops)
    ensures Answers(Empty(INITIAL_CAP), hash, ops) == MapAnswers(map[], ops)
  {
    RunRefinesBoundedMap(hash, ops);
    RoomyRun<K, V>(Bounded(map[], INITIAL_CAP), ops);
  }

  lemma {:induction false} NoDeletesNeverCut<K(!new), V(!new)>(s: seq<Slot<K, V>>, hash: K -> nat, ops: seq<Op<K, V>>)
    requires 0 < |s| && forall i :: 0 <= i < |ops| ==> !ops[i].DelOp?
    ensures NeverCuts(s, hash, ops)
    decreases |ops|
  {
    if ops != [] {
      NoDeletesNeverCut(Apply(s, hash, ops[0]).0, hash, ops[1..]);
    }
  }
}
