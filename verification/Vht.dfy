/** The hash table of src/vht.c as the object it is: probe loops over a slot array that vht_double
    replaces. Every method is proved against its specification function in HashTable. */
module VhtTable {
  import opened Probe
  import opened HashTable

  class Vht<K(==, !new), V(!new)> {
    // stands for vht_hash_calc; any pure function of the key
    const hash: K -> nat
    var slots: array<Slot<K, V>>
    var len: nat
    var cap: nat

    ghost predicate Valid()
      reads this, slots
    {
      && cap > 0
      && slots.Length == cap
      && WellSized(slots[..])
      && len == |UsedAt(slots[..])|
    }

    constructor Init(hash: K -> nat, numElems: nat)
      ensures fresh(slots) && this.hash == hash
      ensures len == 0 && cap == slots.Length && slots[..] == Empty(if numElems == 0 then INITIAL_CAP else numElems)
      ensures Valid() <==> numElems == 0 || IsCap(numElems)
    {
      var n := if numElems == 0 then INITIAL_CAP else numElems;
      this.hash := hash;
      slots := new Slot[n](_ => Free);
      len := 0;
      cap := n;
      new;
      assert slots[..] == Empty(n);
      assert UsedAt(slots[..]) == {};
    }

    constructor (hash: K -> nat)
      ensures Valid() && fresh(slots) && this.hash == hash
      ensures len == 0 && slots[..] == Empty(INITIAL_CAP)
    {
      this.hash := hash;
      slots := new Slot[INITIAL_CAP](_ => Free);
      len := 0;
      cap := INITIAL_CAP;
      new;
      assert slots[..] == Empty(INITIAL_CAP);
      assert UsedAt(slots[..]) == {};
    }

    /** vht_get: the probe loop stops at a free slot, at the key, or when the guesses run out. */
    method Get(key: K) returns (found: Option<V>)
      requires Valid()
      ensures found == Lookup(slots[..], hash, key)
    {
      ghost var s := slots[..];
      var remainingGuesses := cap;
      var offset, iterate := Start(hash(key)), Stride(hash(key));
      ghost var j := 0;
      while remainingGuesses > 0 && slots[offset % cap].Used?
        invariant j + remainingGuesses == cap
        invariant offset == Offset(hash(key), j) && iterate == Stride(hash(key))
        invariant Scan(s, hash(key), key, 0) == Scan(s, hash(key), key, j)
      {
        if slots[offset % cap].key == key {
          return Some(slots[offset % cap].val);
        }
        remainingGuesses := remainingGuesses - 1;
        offset := (offset + iterate) % WORD;
        j := j + 1;
      }
      return None;
    }

    /** vht_set. grown says whether the allocations of a doubling succeed; a failed doubling is ignored
        and the old table is used. */
    method Set(key: K, val: V, grown: bool, seed: nat) returns (code: Code)
      requires Valid()
      modifies this, slots
      ensures Valid() && (slots == old(slots) || fresh(slots))
      ensures (slots[..], code) == HashTable.Set(old(slots[..]), old(len), hash, key, val, grown, seed)
      decreases if len * 4 >= cap then 2 else 0
    {
      if len * 4 >= cap {
        var _ := Double(grown, seed);
      }
      assert slots[..] == Ready(old(slots[..]), old(len), hash, grown, seed);
      code := Place(key, val);
    }

    /** The probe loop of vht_set. */
    method Place(key: K, val: V) returns (code: Code)
      requires Valid()
      modifies this`len, slots
      ensures Valid()
      ensures (slots[..], code) == Put(old(slots[..]), hash, key, val)
    {
      ghost var s := slots[..];
      PutAccounting(s, hash, key, val);
      var remainingGuesses := cap;
      var offset, iterate := Start(hash(key)), Stride(hash(key));
      ghost var j := 0;
      while remainingGuesses > 0
        invariant j + remainingGuesses == cap
        invariant offset == Offset(hash(key), j) && iterate == Stride(hash(key))
        invariant Scan(s, hash(key), key, 0) == Scan(s, hash(key), key, j)
      {
        var at := offset % cap;
        if slots[at].Free? {
          slots[at] := Used(key, val);
          len := len + 1;
          assert slots[..] == s[at := Used(key, val)];
          return Ok;
        } else if slots[at].key == key {
          slots[at] := Used(key, val);
          assert slots[..] == s[at := Used(key, val)];
          return Ok;
        }
        remainingGuesses := remainingGuesses - 1;
        offset := (offset + iterate) % WORD;
        j := j + 1;
      }
      return ExFull;
    }

    /** vht_del */
    method Del(key: K) returns (code: Code)
      requires Valid()
      modifies this, slots
      ensures Valid() && slots == old(slots)
      ensures (slots[..], code) == Remove(old(slots[..]), hash, key)
    {
      ghost var s := slots[..];
      RemoveAccounting(s, hash, key);
      var remainingGuesses := cap;
      var offset, iterate := Start(hash(key)), Stride(hash(key));
      ghost var j := 0;
      while remainingGuesses > 0 && slots[offset % cap].Used?
        invariant j + remainingGuesses == cap
        invariant offset == Offset(hash(key), j) && iterate == Stride(hash(key))
        invariant Scan(s, hash(key), key, 0) == Scan(s, hash(key), key, j)
      {
        var at := offset % cap;
        if slots[at].key == key {
          slots[at] := Free;
          len := len - 1;
          assert slots[..] == s[at := Free];
          return Ok;
        }
        remainingGuesses := remainingGuesses - 1;
        offset := (offset + iterate) % WORD;
        j := j + 1;
      }
      return NoData;
    }

    /** vht_double: a table four times the size, filled by walking this one from an arbitrary seed. */
    method Double(grown: bool, seed: nat) returns (code: Code)
      requires Valid()
      modifies this
      ensures Valid() && (slots == old(slots) || fresh(slots))
      ensures code == if grown then Ok else NoMem
      ensures slots[..] == if grown then Grow(old(slots[..]), hash, seed) else old(slots[..])
      decreases 1
    {
      if !grown {
        return NoMem;
      }
      GrownSize(cap);
      var newTable := new Vht.Init(hash, 4 * cap);
      var remainingPositions := cap;
      var offset, iterate := Start(seed), Stride(seed);
      ghost var s := slots[..];
      ghost var j := 0;
      while remainingPositions > 0
        invariant unchanged(this) && slots[..] == s
        invariant 0 <= j && 0 <= remainingPositions && j + remainingPositions == cap
        invariant offset == Offset(seed, j) && iterate == Stride(seed)
        invariant newTable.Valid() && newTable.hash == hash && fresh(newTable) && fresh(newTable.slots)
        invariant newTable.slots[..] == Rehash(s, hash, seed, j)
      {
        RehashNeverGrows(s, hash, seed, j);
        remainingPositions := remainingPositions - 1;
        offset := (offset + iterate) % WORD;
        j := j + 1;
        match slots[offset % cap] {
          case Used(k, v) =>
            var setCode := newTable.Set(k, v, false, 0);
            assert setCode == Ok;
          case Free =>
        }
      }
      slots, len, cap := newTable.slots, newTable.len, newTable.cap;
      return Ok;
    }
  }
}
