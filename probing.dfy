/**
 * The slot-level semantics of the linear-probing table in
 * markovian/collections/lp_hashtable.py, as pure functions on the slot list:
 * the Horner hash, the probe order, where an insertion lands (Put) and what a
 * lookup returns (Lookup), together with the invariants a well-kept table has.
 */
module Probing {
  import opened Modular

  datatype Option<T> = None | Some(value: T)

  /** A stored (key, value) pair; the source keeps these as 2-tuples. */
  datatype Entry = Entry(key: string, val: int)

  /** One cell of the table: empty (Python's None) or a pair. */
  type Slot = Option<Entry>

  /** The polynomial constant of the hash (P_CONSTANT). */
  const P_CONSTANT: nat := 37

  // ---------------------------------------------------------------- hashing

  /**
   * The accumulator loop of _hash: starting from `acc`, each character `ch`
   * replaces the accumulator by (37 * acc + ord(ch)) mod n (Modular.Reduce).
   */
  function HashFrom(acc: nat, key: string, n: nat): (h: nat)
    requires acc < n
    ensures h < n
    decreases |key|
  {
    if key == [] then acc
    else HashFrom(Reduce(P_CONSTANT * acc + key[0] as int, n), key[1..], n)
  }

  /** _hash: the fold started from 0. */
  function Hash(key: string, n: nat): (h: nat)
    requires n > 0
    ensures h < n
  {
    HashFrom(0, key, n)
  }

  /** Horner's rule read from the other end: appending a character extends the fold by one step. */
  lemma {:induction false} HashFromSnoc(acc: nat, key: string, ch: char, n: nat)
    requires acc < n
    ensures HashFrom(acc, key + [ch], n) == Reduce(P_CONSTANT * HashFrom(acc, key, n) + ch as int, n)
    decreases |key|
  {
    if key != [] {
      assert (key + [ch])[1..] == key[1..] + [ch];
      HashFromSnoc(Reduce(P_CONSTANT * acc + key[0] as int, n), key[1..], ch, n);
    }
  }

  /** The hash of the empty key is 0, and each further character is one Horner step. */
  lemma HashSnoc(key: string, ch: char, n: nat)
    requires n > 0
    ensures Hash([], n) == 0
    ensures Hash(key + [ch], n) == (P_CONSTANT * Hash(key, n) + ch as int) % n
  {
    HashFromSnoc(0, key, ch, n);
    ReduceIsMod(P_CONSTANT * Hash(key, n) + ch as int, n);
  }

  // ------------------------------------------------------------ probe order

  /** The slot reached `d` probe steps after `h` in a table of `n` slots. */
  function Wrap(h: nat, d: nat, n: nat): (x: nat)
    requires h < n && d < n
    ensures x < n && (x >= h <==> h + d < n)
  {
    if h + d < n then h + d else h + d - n
  }

  /** The wrapped slot is (h + d) mod n, the index linear probing computes. */
  lemma WrapMod(h: nat, d: nat, n: nat)
    requires h < n && d < n
    ensures Wrap(h, d, n) == (h + d) % n
  {
    if h + d < n {
      ModBelow(h + d, n);
    } else {
      ModAbove(h + d, n);
    }
  }

  /** How many probe steps after `h` the slot `x` comes. */
  function Dist(h: nat, x: nat, n: nat): (d: nat)
    requires h < n && x < n
    ensures d < n && Wrap(h, d, n) == x
  {
    if h <= x then x - h else x + n - h
  }

  lemma DistWrap(h: nat, d: nat, n: nat)
    requires h < n && d < n
    ensures Dist(h, Wrap(h, d, n), n) == d
  {
  }

  // ---------------------------------------------------------- slot queries

  predicate Holds(items: seq<Slot>, x: nat, key: string)
    requires x < |items|
  {
    items[x].Some? && items[x].value.key == key
  }

  /** A probe of __setitem__ stops at an empty slot or at the key itself. */
  predicate Stops(items: seq<Slot>, x: nat, key: string)
    requires x < |items|
  {
    items[x].None? || items[x].value.key == key
  }

  /** The slot where __setitem__'s probe loop stops, searching offsets d, d+1, ..., n-1 from h. */
  function FindSlotFrom(items: seq<Slot>, key: string, h: nat, d: nat): (r: Option<nat>)
    requires h < |items|
    ensures r.Some? ==> r.value < |items| && Stops(items, r.value, key)
    decreases |items| - d
  {
    if d >= |items| then None
    else if Stops(items, Wrap(h, d, |items|), key) then Some(Wrap(h, d, |items|))
    else FindSlotFrom(items, key, h, d + 1)
  }

  function FindSlot(items: seq<Slot>, key: string): Option<nat>
    requires |items| > 0
  {
    FindSlotFrom(items, key, Hash(key, |items|), 0)
  }

  /** The slot where __getitem__'s probe finds the key, searching offsets d..n-1 from h; empty slots are passed over. */
  function FindKeyFrom(items: seq<Slot>, key: string, h: nat, d: nat): (r: Option<nat>)
    requires h < |items|
    ensures r.Some? ==> r.value < |items| && Holds(items, r.value, key)
    decreases |items| - d
  {
    if d >= |items| then None
    else if Holds(items, Wrap(h, d, |items|), key) then Some(Wrap(h, d, |items|))
    else FindKeyFrom(items, key, h, d + 1)
  }

  function FindKey(items: seq<Slot>, key: string): Option<nat>
    requires |items| > 0
  {
    FindKeyFrom(items, key, Hash(key, |items|), 0)
  }

  /** __getitem__: the value in the first slot, in probe order, holding `key`; `default` if none does. */
  function Lookup(items: seq<Slot>, key: string, default: int): int
    requires |items| > 0
  {
    match FindKey(items, key)
    case Some(x) => items[x].value.val
    case None => default
  }

  /**
   * The slot list after __setitem__'s probe loop, before any rehash: the pair
   * goes where the probe stops; if it never stops the list is unchanged.
   */
  function Put(items: seq<Slot>, key: string, val: int): (r: seq<Slot>)
    requires |items| > 0
    ensures |r| == |items|
  {
    match FindSlot(items, key)
    case Some(x) => items[x := Some(Entry(key, val))]
    case None => items
  }

  /** Whether __setitem__ fills an empty slot (the branch that grows `size`). */
  predicate Inserts(items: seq<Slot>, key: string)
    requires |items| > 0
  {
    var r := FindSlot(items, key);
    r.Some? && items[r.value].None?
  }

  /** Number of occupied slots. */
  function Occupied(items: seq<Slot>): (k: nat)
    ensures k <= |items|
  {
    if items == [] then 0
    else Occupied(items[..|items| - 1]) + (if items[|items| - 1].Some? then 1 else 0)
  }

  /** The pairs stored in the table. */
  ghost function Entries(items: seq<Slot>): set<Entry>
  {
    set x | 0 <= x < |items| && items[x].Some? :: items[x].value
  }

  // ------------------------------------------------------------- invariants

  /** No two occupied slots share a key. */
  ghost predicate Distinct(items: seq<Slot>)
  {
    forall x, y {:trigger items[x].value.key, items[y].value.key} :: 0 <= x < y < |items| && items[x].Some? && items[y].Some? ==> items[x].value.key != items[y].value.key
  }

  /** Every slot on the probe path from the key's hash up to `q`, at index `lo` or beyond, is occupied. */
  ghost predicate PathFull(items: seq<Slot>, q: nat, lo: nat)
    requires q < |items| && items[q].Some?
  {
    var n := |items|;
    var h := Hash(items[q].value.key, n);
    forall y :: lo <= y < n && Dist(h, y, n) <= Dist(h, q, n) ==> items[y].Some?
  }

  /** The pair at `q` is reached by probing from its hash without crossing an empty slot. */
  ghost predicate Reachable(items: seq<Slot>, q: nat)
    requires q < |items|
  {
    items[q].Some? && PathFull(items, q, 0)
  }

  ghost predicate GapFree(items: seq<Slot>)
  {
    forall q :: 0 <= q < |items| && items[q].Some? ==> Reachable(items, q)
  }

  /** The invariant of a table between operations: distinct keys, each on an unbroken probe path. */
  ghost predicate Keyed(items: seq<Slot>)
  {
    Distinct(items) && GapFree(items)
  }

  // ------------------------------------------------------ counting helpers

  lemma {:induction false} OccupiedAppend(a: seq<Slot>, b: seq<Slot>)
    ensures Occupied(a + b) == Occupied(a) + Occupied(b)
    decreases |b|
  {
    if b == [] {
      assert a + b == a;
    } else {
      var b' := b[..|b| - 1];
      assert (a + b)[..|a + b| - 1] == a + b';
      OccupiedAppend(a, b');
    }
  }

  lemma {:induction false} OccupiedNones(k: nat)
    ensures Occupied(seq(k, _ => None)) == 0
  {
    if k > 0 {
      var s: seq<Slot> := seq(k, _ => None);
      assert s[..k - 1] == seq(k - 1, _ => None);
      OccupiedNones(k - 1);
    }
  }

  /** Overwriting one slot changes the count by the change in that slot's occupancy. */
  lemma {:induction false} OccupiedUpdate(items: seq<Slot>, x: nat, v: Slot)
    requires x < |items|
    ensures Occupied(items[x := v]) + (if items[x].Some? then 1 else 0)
         == Occupied(items) + (if v.Some? then 1 else 0)
  {
    var s := items[x := v];
    assert items == items[..x] + [items[x]] + items[x + 1..];
    assert s == items[..x] + [v] + items[x + 1..];
    OccupiedAppend(items[..x] + [items[x]], items[x + 1..]);
    OccupiedAppend(items[..x] + [v], items[x + 1..]);
    OccupiedAppend(items[..x], [items[x]]);
    OccupiedAppend(items[..x], [v]);
    assert Occupied([items[x]]) == (if items[x].Some? then 1 else 0) by {
      assert [items[x]][..0] == [];
    }
    assert Occupied([v]) == (if v.Some? then 1 else 0) by {
      assert [v][..0] == [];
    }
  }

  /** A table with fewer occupied slots than cells has an empty cell. */
  lemma {:induction false} OccupiedHasEmpty(items: seq<Slot>)
    requires Occupied(items) < |items|
    ensures exists x :: 0 <= x < |items| && items[x].None?
    decreases |items|
  {
    var last := |items| - 1;
    if items[last].Some? {
      OccupiedHasEmpty(items[..last]);
      var x :| 0 <= x < last && items[..last][x].None?;
      assert items[x].None?;
    } else {
      assert items[last].None?;
    }
  }

  /** If every slot from `lo` to the end is occupied, at least that many slots are occupied. */
  lemma {:induction false} OccupiedSuffix(items: seq<Slot>, lo: nat)
    requires lo <= |items|
    requires forall y :: lo <= y < |items| ==> items[y].Some?
    ensures Occupied(items) >= |items| - lo
    decreases |items|
  {
    if lo < |items| {
      var last := |items| - 1;
      OccupiedSuffix(items[..last], lo);
    }
  }

  /** Appending a slot adds its pair, if any, to the stored pairs. */
  lemma EntriesSnoc(pre: seq<Slot>, slot: Slot)
    ensures Entries(pre + [slot]) == Entries(pre) + (if slot.Some? then {slot.value} else {})
  {
    var items := pre + [slot];
    forall v | v in Entries(items)
      ensures v in Entries(pre) || (slot.Some? && v == slot.value)
    {
      var x :| 0 <= x < |items| && items[x].Some? && items[x].value == v;
      if x < |pre| {
        assert pre[x] == items[x];
      }
    }
    forall v | v in Entries(pre)
      ensures v in Entries(items)
    {
      var x :| 0 <= x < |pre| && pre[x].Some? && pre[x].value == v;
      assert items[x] == pre[x];
    }
    if slot.Some? {
      assert items[|pre|] == slot;
    }
  }

  /** With distinct keys, the pair in the last slot is not among those before it. */
  lemma LastIsNew(items: seq<Slot>)
    requires Distinct(items) && items != [] && items[|items| - 1].Some?
    ensures items[|items| - 1].value !in Entries(items[..|items| - 1])
  {
    var last := |items| - 1;
    var pre := items[..last];
    forall v | v in Entries(pre)
      ensures v != items[last].value
    {
      var x :| 0 <= x < |pre| && pre[x].Some? && pre[x].value == v;
      assert items[x] == pre[x];
    }
  }

  /** With distinct keys, the number of occupied slots is the number of stored pairs. */
  lemma {:induction false} OccupiedEntries(items: seq<Slot>)
    requires Distinct(items)
    ensures Occupied(items) == |Entries(items)|
    decreases |items|
  {
    if items != [] {
      var last := |items| - 1;
      var pre := items[..last];
      assert Distinct(pre);
      OccupiedEntries(pre);
      assert items == pre + [items[last]];
      EntriesSnoc(pre, items[last]);
      if items[last].Some? {
        LastIsNew(items);
      }
    } else {
      assert Entries(items) == {};
    }
  }

  // ------------------------------------------------------- probe searches

  lemma {:induction false} FindSlotFromSpec(items: seq<Slot>, key: string, h: nat, d: nat)
    requires h < |items| && d <= |items|
    ensures var n := |items|;
      match FindSlotFrom(items, key, h, d)
      case Some(x) =>
        d <= Dist(h, x, n) &&
        forall e :: d <= e < Dist(h, x, n) ==> !Stops(items, Wrap(h, e, n), key)
      case None => forall e :: d <= e < n ==> !Stops(items, Wrap(h, e, n), key)
    decreases |items| - d
  {
    var n := |items|;
    if d < n {
      if Stops(items, Wrap(h, d, n), key) {
        DistWrap(h, d, n);
      } else {
        FindSlotFromSpec(items, key, h, d + 1);
      }
    }
  }

  /**
   * __setitem__'s probe stops at the first slot, in probe order from the key's
   * hash, that is empty or holds the key; every slot before it holds another
   * key; if it never stops, every slot holds another key.
   */
  lemma FindSlotSpec(items: seq<Slot>, key: string)
    requires |items| > 0
    ensures var n := |items|; var h := Hash(key, n);
      match FindSlot(items, key)
      case Some(x) =>
        x < n && Stops(items, x, key) &&
        forall y :: 0 <= y < n && Dist(h, y, n) < Dist(h, x, n) ==> items[y].Some? && items[y].value.key != key
      case None => forall y :: 0 <= y < n ==> items[y].Some? && items[y].value.key != key
  {
    var n := |items|;
    var h := Hash(key, n);
    FindSlotFromSpec(items, key, h, 0);
    match FindSlot(items, key)
    case Some(x) =>
      forall y | 0 <= y < n && Dist(h, y, n) < Dist(h, x, n)
        ensures items[y].Some? && items[y].value.key != key
      {
        assert Wrap(h, Dist(h, y, n), n) == y;
      }
    case None =>
      forall y | 0 <= y < n
        ensures items[y].Some? && items[y].value.key != key
      {
        assert Wrap(h, Dist(h, y, n), n) == y;
      }
  }

  lemma {:induction false} FindKeyFromSpec(items: seq<Slot>, key: string, h: nat, d: nat)
    requires h < |items| && d <= |items|
    ensures var n := |items|;
      match FindKeyFrom(items, key, h, d)
      case Some(x) =>
        d <= Dist(h, x, n) &&
        forall e :: d <= e < Dist(h, x, n) ==> !Holds(items, Wrap(h, e, n), key)
      case None => forall e :: d <= e < n ==> !Holds(items, Wrap(h, e, n), key)
    decreases |items| - d
  {
    var n := |items|;
    if d < n {
      if Holds(items, Wrap(h, d, n), key) {
        DistWrap(h, d, n);
      } else {
        FindKeyFromSpec(items, key, h, d + 1);
      }
    }
  }

  /**
   * __getitem__ finds the first slot, in probe order from the key's hash,
   * holding the key, passing over empty slots; it finds none exactly when no
   * slot holds the key.
   */
  lemma FindKeySpec(items: seq<Slot>, key: string)
    requires |items| > 0
    ensures var n := |items|; var h := Hash(key, n);
      match FindKey(items, key)
      case Some(x) =>
        x < n && Holds(items, x, key) &&
        forall y :: 0 <= y < n && Dist(h, y, n) < Dist(h, x, n) ==> !Holds(items, y, key)
      case None => forall y :: 0 <= y < n ==> !Holds(items, y, key)
  {
    var n := |items|;
    var h := Hash(key, n);
    FindKeyFromSpec(items, key, h, 0);
    match FindKey(items, key)
    case Some(x) =>
      forall y | 0 <= y < n && Dist(h, y, n) < Dist(h, x, n)
        ensures !Holds(items, y, key)
      {
        assert Wrap(h, Dist(h, y, n), n) == y;
      }
    case None =>
      forall y | 0 <= y < n
        ensures !Holds(items, y, key)
      {
        assert Wrap(h, Dist(h, y, n), n) == y;
      }
  }

  /** The first slot, in probe order, satisfying the conditions of FindKeySpec is the one FindKey returns. */
  lemma FindKeyUnique(items: seq<Slot>, key: string, x: nat)
    requires 0 < |items| && x < |items| && Holds(items, x, key)
    requires var n := |items|; var h := Hash(key, n);
      forall y :: 0 <= y < n && Dist(h, y, n) < Dist(h, x, n) ==> !Holds(items, y, key)
    ensures FindKey(items, key) == Some(x)
  {
    FindKeySpec(items, key);
    var n := |items|;
    var h := Hash(key, n);
    var x' := FindKey(items, key).value;
    assert Dist(h, x, n) <= Dist(h, x', n) && Dist(h, x', n) <= Dist(h, x, n);
  }

  // ----------------------------------------------------- lookup properties

  /**
   * What __getitem__ returns: the default when no slot holds the key, and
   * otherwise the value of a slot holding it (in a table with distinct keys,
   * the value of that key's only slot).
   */
  lemma LookupSpec(items: seq<Slot>, key: string, default: int)
    requires |items| > 0
    ensures (forall y :: 0 <= y < |items| ==> !Holds(items, y, key)) <==> FindKey(items, key).None?
    ensures FindKey(items, key).None? ==> Lookup(items, key, default) == default
    ensures FindKey(items, key).Some? ==> Entry(key, Lookup(items, key, default)) in Entries(items)
    ensures Distinct(items) ==>
      forall y :: 0 <= y < |items| && Holds(items, y, key) ==> Lookup(items, key, default) == items[y].value.val
  {
    FindKeySpec(items, key);
    if FindKey(items, key).Some? {
      var x := FindKey(items, key).value;
      assert items[x] == Some(Entry(key, items[x].value.val));
      if Distinct(items) {
        forall y | 0 <= y < |items| && Holds(items, y, key)
          ensures Lookup(items, key, default) == items[y].value.val
        {
          assert y == x;
        }
      }
    }
  }

  /** In a table with distinct keys, Lookup gives the value stored with the key, or the default if there is none. */
  lemma LookupEntries(items: seq<Slot>, key: string, default: int)
    requires |items| > 0 && Distinct(items)
    ensures forall v :: Entry(key, v) in Entries(items) ==> Lookup(items, key, default) == v
    ensures (forall v :: Entry(key, v) !in Entries(items)) ==> Lookup(items, key, default) == default
  {
    LookupSpec(items, key, default);
    forall v | Entry(key, v) in Entries(items)
      ensures Lookup(items, key, default) == v
    {
      var y :| 0 <= y < |items| && items[y].Some? && items[y].value == Entry(key, v);
      assert Holds(items, y, key);
    }
  }

  /** Two tables with distinct keys and the same pairs answer every lookup alike. */
  lemma LookupByEntries(a: seq<Slot>, b: seq<Slot>, default: int)
    requires |a| > 0 && |b| > 0 && Distinct(a) && Distinct(b) && Entries(a) == Entries(b)
    ensures forall key :: Lookup(a, key, default) == Lookup(b, key, default)
  {
    forall key
      ensures Lookup(a, key, default) == Lookup(b, key, default)
    {
      LookupEntries(a, key, default);
      LookupEntries(b, key, default);
      LookupSpec(a, key, default);
      if FindKey(a, key).Some? {
        assert Entry(key, Lookup(a, key, default)) in Entries(b);
      } else {
        LookupSpec(b, key, default);
        if FindKey(b, key).Some? {
          assert Entry(key, Lookup(b, key, default)) in Entries(a);
        }
      }
    }
  }

  // ------------------------------------------------------ put properties

  /**
   * The two cases of __setitem__ (before any rehash). When the probe stops at
   * an empty slot the pair fills it and one more slot is occupied; when it
   * stops at the key, only that slot's value changes. Nothing else changes,
   * and a table with an empty slot always gets a stop.
   */
  lemma PutSpec(items: seq<Slot>, key: string, val: int)
    requires |items| > 0
    ensures Occupied(items) < |items| ==> FindSlot(items, key).Some?
    ensures FindSlot(items, key).None? ==> Put(items, key, val) == items
    ensures FindSlot(items, key).Some? ==>
      var x := FindSlot(items, key).value;
      var r := Put(items, key, val);
      && r[x] == Some(Entry(key, val))
      && (forall y :: 0 <= y < |items| && y != x ==> r[y] == items[y])
      && (items[x].None? ==> Occupied(r) == Occupied(items) + 1)
      && (items[x].Some? ==> items[x].value.key == key && Occupied(r) == Occupied(items))
    ensures Inserts(items, key) ==> Occupied(Put(items, key, val)) == Occupied(items) + 1
    ensures !Inserts(items, key) ==> Occupied(Put(items, key, val)) == Occupied(items)
  {
    FindSlotSpec(items, key);
    if Occupied(items) < |items| {
      OccupiedHasEmpty(items);
    }
    if FindSlot(items, key).Some? {
      var x := FindSlot(items, key).value;
      OccupiedUpdate(items, x, Some(Entry(key, val)));
    }
  }

  /** Immediately after a put that found a slot, looking the key up gives the value just stored. */
  lemma {:induction false} LookupAfterPut(items: seq<Slot>, key: string, val: int, default: int)
    requires |items| > 0 && FindSlot(items, key).Some?
    ensures Lookup(Put(items, key, val), key, default) == val
  {
    var n := |items|;
    var h := Hash(key, n);
    var x := FindSlot(items, key).value;
    var r := Put(items, key, val);
    FindSlotSpec(items, key);
    forall y | 0 <= y < n && Dist(h, y, n) < Dist(h, x, n)
      ensures !Holds(r, y, key)
    {
      assert r[y] == items[y];
    }
    FindKeyUnique(r, key, x);
  }

  /** A put leaves the lookup of every other key unchanged. */
  lemma {:induction false} LookupOtherAfterPut(items: seq<Slot>, key: string, val: int, other: string, default: int)
    requires |items| > 0 && other != key
    ensures Lookup(Put(items, key, val), other, default) == Lookup(items, other, default)
  {
    var n := |items|;
    var r := Put(items, key, val);
    if FindSlot(items, key).Some? {
      var x := FindSlot(items, key).value;
      FindSlotSpec(items, key);
      assert forall y :: 0 <= y < n ==> (Holds(r, y, other) <==> Holds(items, y, other));
      FindKeySpec(items, other);
      FindKeySpec(r, other);
      var h := Hash(other, n);
      match FindKey(items, other)
      case Some(z) =>
        FindKeyUnique(r, other, z);
      case None =>
        assert forall y :: 0 <= y < n ==> !Holds(r, y, other);
    }
  }

  /** Put is a map update: the key gets the value, every other key keeps its lookup. */
  lemma PutUpdates(items: seq<Slot>, key: string, val: int, default: int)
    requires |items| > 0 && Occupied(items) < |items|
    ensures forall k :: Lookup(Put(items, key, val), k, default) == if k == key then val else Lookup(items, k, default)
  {
    PutSpec(items, key, val);
    forall k
      ensures Lookup(Put(items, key, val), k, default) == if k == key then val else Lookup(items, k, default)
    {
      if k == key {
        LookupAfterPut(items, key, val, default);
      } else {
        LookupOtherAfterPut(items, key, val, k, default);
      }
    }
  }

  /**
   * In a kept table, a probe that stops at an empty slot proves the key is
   * absent: had it been stored, its unbroken path would have stopped the
   * probe at it first.
   */
  lemma {:induction false} StopAtEmptyAbsent(items: seq<Slot>, key: string)
    requires |items| > 0 && Keyed(items)
    requires FindSlot(items, key).Some? && items[FindSlot(items, key).value].None?
    ensures forall y :: 0 <= y < |items| ==> !Holds(items, y, key)
  {
    var n := |items|;
    var h := Hash(key, n);
    var x := FindSlot(items, key).value;
    FindSlotSpec(items, key);
    forall y | 0 <= y < n
      ensures !Holds(items, y, key)
    {
      if Dist(h, x, n) <= Dist(h, y, n) {
        assert Holds(items, y, key) ==> Reachable(items, y);
      }
    }
  }

  /** Put keeps the table's invariant: distinct keys, each reachable along its probe path. */
  lemma {:induction false} PutKeyed(items: seq<Slot>, key: string, val: int)
    requires |items| > 0 && Keyed(items)
    ensures Keyed(Put(items, key, val))
  {
    var n := |items|;
    var r := Put(items, key, val);
    FindSlotSpec(items, key);
    if FindSlot(items, key).Some? {
      var x := FindSlot(items, key).value;
      var h := Hash(key, n);
      assert r == items[x := Some(Entry(key, val))];
      // every occupied slot of the old table is still occupied
      assert forall y :: 0 <= y < n && items[y].Some? ==> r[y].Some?;
      forall y, z | 0 <= y < z < n && r[y].Some? && r[z].Some?
        ensures r[y].value.key != r[z].value.key
      {
        if items[x].None? && (y == x || z == x) {
          StopAtEmptyAbsent(items, key);
          assert !Holds(items, y, key) && !Holds(items, z, key);
        }
      }
      forall q | 0 <= q < n && r[q].Some?
        ensures Reachable(r, q)
      {
        if q == x {
          forall y | 0 <= y < n && Dist(h, y, n) <= Dist(h, x, n)
            ensures r[y].Some?
          {
          }
        } else {
          assert Reachable(items, q);
          assert items[q].value.key == r[q].value.key;
        }
      }
    }
  }

  /** In a kept table, no slot other than where the probe for a key stops holds that key. */
  lemma KeyOnlyAtStop(items: seq<Slot>, key: string)
    requires |items| > 0 && Keyed(items) && FindSlot(items, key).Some?
    ensures forall y :: 0 <= y < |items| && y != FindSlot(items, key).value ==> !Holds(items, y, key)
  {
    var x := FindSlot(items, key).value;
    if items[x].None? {
      StopAtEmptyAbsent(items, key);
    } else {
      assert items[x].value.key == key;
    }
  }

  /** The pairs after a put: the new pair, plus the old pairs except the one it overwrote. */
  lemma PutEntries(items: seq<Slot>, key: string, val: int)
    requires |items| > 0
    ensures Entries(Put(items, key, val)) <= Entries(items) + {Entry(key, val)}
    ensures Keyed(items) && FindSlot(items, key).Some? ==>
      Entries(Put(items, key, val)) == (set e | e in Entries(items) && e.key != key) + {Entry(key, val)}
  {
    if FindSlot(items, key).Some? {
      var x := FindSlot(items, key).value;
      WriteEntries(items, x, Entry(key, val));
      if Keyed(items) {
        KeyOnlyAtStop(items, key);
        WriteOnlyKeyEntries(items, x, Entry(key, val));
      }
    }
  }

  /** Writing a pair into slot x replaces at most the pair that was there. */
  lemma WriteEntries(items: seq<Slot>, x: nat, e: Entry)
    requires x < |items|
    ensures Entries(items[x := Some(e)]) <= Entries(items) + {e}
    ensures e in Entries(items[x := Some(e)])
  {
    var r := items[x := Some(e)];
    forall f | f in Entries(r)
      ensures f in Entries(items) + {e}
    {
      var y :| 0 <= y < |r| && r[y].Some? && r[y].value == f;
      if y != x {
        assert items[y] == r[y];
      }
    }
    assert r[x].value == e;
  }

  /** Writing a pair into the only slot that may hold its key keeps every pair under another key. */
  lemma WriteOnlyKeyEntries(items: seq<Slot>, x: nat, e: Entry)
    requires x < |items|
    requires forall y :: 0 <= y < |items| && y != x ==> !Holds(items, y, e.key)
    requires items[x].Some? ==> items[x].value.key == e.key
    ensures Entries(items[x := Some(e)]) == (set f | f in Entries(items) && f.key != e.key) + {e}
  {
    var r := items[x := Some(e)];
    WriteEntries(items, x, e);
    forall f | f in Entries(items) && f.key != e.key
      ensures f in Entries(r)
    {
      var y :| 0 <= y < |items| && items[y].Some? && items[y].value == f;
      assert y != x;
      assert r[y] == items[y];
    }
    forall f | f in Entries(r) && f != e
      ensures f.key != e.key
    {
      var y :| 0 <= y < |r| && r[y].Some? && r[y].value == f;
      assert y != x;
      assert items[y] == r[y];
      assert !Holds(items, y, e.key);
    }
  }
}
