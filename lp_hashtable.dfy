/**
 * The LPHashtable class of markovian/collections/lp_hashtable.py: a string ->
 * int table kept in one list of slots, probed linearly from a Horner hash,
 * that doubles in place once it is half full. Each method is proved against
 * the pure definitions of the Probing and Growth modules.
 */
module LPHashtables {
  import opened Probing
  import opened Growth
  import opened Modular

  /** Step k of linear probing from h lands one slot after step k - 1, wrapping at n. */
  lemma WrapNext(h: nat, d: nat, n: nat)
    requires h < n && d < n
    ensures d + 1 < n ==> Wrap(h, d + 1, n) == (Wrap(h, d, n) + 1) % n
    ensures (Wrap(h, d, n) + 1) % n == h <==> d + 1 == n
  {
    var x := Wrap(h, d, n);
    if x + 1 < n {
      ModBelow(x + 1, n);
    } else {
      ModAbove(x + 1, n);
    }
  }

  class LPHashtable {
    var capacity: nat
    var items: seq<Slot>
    var default: int
    var size: nat

    /** The fields agree, the count is exact, and the table is less than half full. */
    ghost predicate Valid()
      reads this
    {
      && capacity >= 2
      && |items| == capacity
      && size == Occupied(items)
      && !TooFull(size, capacity)
    }

    /** __init__: `capacity` empty slots. */
    constructor (capacity: nat, default_value: int)
      requires capacity >= 2
      ensures Valid() && Keyed(items)
      ensures this.capacity == capacity && default == default_value && size == 0
      ensures items == seq(capacity, _ => None)
      ensures forall k :: Lookup(items, k, default) == default
    {
      this.capacity := capacity;
      items := seq(capacity, _ => None);
      default := default_value;
      size := 0;
      new;
      OccupiedNones(capacity);
      forall k
        ensures Lookup(items, k, default) == default
      {
        LookupSpec(items, k, default);
      }
    }

    /** _hash: the Horner fold of the key's code points, reduced modulo the capacity at every step. */
    method HashKey(key: string) returns (h: nat)
      requires capacity > 0
      ensures h == Hash(key, capacity)
    {
      h := 0;
      for j := 0 to |key|
        invariant h == Hash(key[..j], capacity)
      {
        HashSnoc(key[..j], key[j], capacity);
        assert key[..j + 1] == key[..j] + [key[j]];
        h := P_CONSTANT * h + key[j] as int;
        h := h % capacity;
      }
      assert key[..|key|] == key;
    }

    /**
     * __getitem__: probe from the key's hash, passing over empty slots, until
     * the key is found or the probe is back where it started.
     */
    method Get(key: string) returns (v: int)
      requires Valid()
      ensures v == Lookup(items, key, default)
    {
      var index := HashKey(key);
      var temp := index;
      ghost var d: nat := 0;
      while true
        invariant d < capacity && index == Wrap(temp, d, capacity)
        invariant FindKeyFrom(items, key, temp, d) == FindKey(items, key)
        decreases capacity - d
      {
        if items[index].Some? && items[index].value.key == key {
          return items[index].value.val;
        }
        WrapNext(temp, d, capacity);
        index := (index + 1) % capacity;
        d := d + 1;
        if index == temp {
          return default;
        }
      }
    }

    /** __len__: the number of stored pairs. */
    method Len() returns (n: nat)
      requires Valid()
      ensures n == Occupied(items) && 2 * n < capacity
    {
      n := size;
    }

    /**
     * __setitem__: probe at most `capacity` slots from the key's hash; an
     * empty slot takes the pair (and may trigger a rehash), a slot holding the
     * key has its value replaced. In a kept table this is a map update
     * (Growth.SetSpecUpdates).
     */
    method Set(key: string, val: int)
      requires Valid()
      modifies this
      ensures Valid()
      ensures items == SetSpec(old(items), key, val)
      ensures default == old(default)
      ensures old(Keyed(items)) ==> Keyed(items)
      ensures old(Keyed(items)) ==>
        forall k :: Lookup(items, k, default) == if k == key then val else Lookup(old(items), k, default)
      decreases if TooFull(size + 1, capacity) then 1 else 0, 1
    {
      ghost var items0 := items;
      var temptuple := Entry(key, val);
      var index := HashKey(key);
      ghost var h := index;
      SetSpecAt(items, key, val);
      var step := 0;
      while step < capacity
        invariant items == items0 && Valid() && h < capacity && default == old(default)
        invariant step <= capacity
        invariant step < capacity ==> index == Wrap(h, step, capacity)
        invariant FindSlotFrom(items, key, h, step) == FindSlot(items, key)
        decreases capacity - step
      {
        if items[index].None? {
          items := items[index := Some(temptuple)];
          size := size + 1;
          if TooFull(size, capacity) {
            Rehash();
          }
          break;
        }
        if items[index].value.key == key {
          items := items[index := Some(temptuple)];
          break;
        }
        WrapNext(h, step, capacity);
        index := (index + 1) % capacity;
        step := step + 1;
      }
      SetKeepsMap(items0, key, val, default);
    }

    /**
     * rehash: append capacity empty slots, double the capacity, then walk the
     * list by index, clearing each occupied slot and setting its pair again.
     * Called only from Set, when fewer pairs than slots are stored, so the
     * inner sets never rehash again.
     */
    method Rehash()
      requires |items| == capacity && capacity > 0
      requires size == Occupied(items) && size < capacity
      modifies this
      ensures capacity == 2 * old(capacity)
      ensures items == RehashSpec(old(items))
      ensures size == Occupied(items) && size <= old(size)
      ensures default == old(default)
      decreases 1, 0
    {
      ghost var items0 := items;
      ghost var s0 := size;
      var temp: seq<Slot> := seq(capacity * (GROWTH_RATIO - 1), _ => None);
      items := items + temp;
      capacity := capacity * GROWTH_RATIO;
      assert items == Extend(items0);
      ExtendCount(items0);
      var i := 0;
      while i < |items|
        invariant i <= |items| == capacity == 2 * old(capacity)
        invariant RehashFrom(items, i) == RehashSpec(items0)
        invariant size == Occupied(items) && size <= s0
        invariant default == old(default)
      {
        RehashFromStep(items, i);
        Reinsert(i);
        i := i + 1;
      }
    }

    /**
     * One turn of the rehash loop: when slot i holds a pair, clear it, count
     * it out of the size and set the pair again. With the table less than
     * half full this set never rehashes.
     */
    method Reinsert(i: nat)
      requires |items| == capacity && i < capacity
      requires size == Occupied(items) && 2 * size < capacity
      modifies this
      ensures items == ReinsertAt(old(items), i)
      ensures capacity == old(capacity) && default == old(default)
      ensures size == Occupied(items) && size <= old(size)
      decreases 0, 2
    {
      ghost var items0 := items;
      var pair := items[i];
      if pair.Some? {
        ReinsertBySet(items, i, size);
        items := items[i := None];
        size := size - 1;
        Set(pair.value.key, pair.value.val);
      }
    }
  }
}
