/**
 * Growth of the linear-probing table (LPHashtable.rehash and the insertion
 * that triggers it), as pure functions on the slot list, and the theorem that
 * the in-place rehash loop leaves every stored key where a lookup finds it.
 *
 * rehash does not build a fresh list: it appends empty slots to the same list,
 * doubles the capacity, then walks the list by index; each occupied slot it
 * meets is cleared and its pair inserted again under the new capacity. A pair
 * may land at an index the walk has not reached yet and be moved a second
 * time. RehashInv below is the invariant of that walk.
 */
module Growth {
  import opened Probing

  /**
   * Factor by which rehash grows the capacity (GROWTH_RATIO). The pure
   * definitions below write its value, 2, as a literal so that the solver
   * sees linear arithmetic.
   */
  const GROWTH_RATIO: nat := 2

  /** The load test of __setitem__, size / capacity >= TOO_FULL with TOO_FULL = 0.5, in integers. */
  predicate TooFull(size: nat, capacity: nat)
  {
    2 * size >= capacity
  }

  /** The integer test is the source's ratio test size / capacity >= 0.5, for any positive capacity. */
  lemma TooFullIsLoadTest(size: nat, capacity: nat)
    requires capacity > 0
    ensures TooFull(size, capacity) <==> size as real / capacity as real >= 0.5
  {
    var c := capacity as real;
    var q := size as real / c;
    assert q * c == size as real;
    assert q >= 0.5 <==> q * c >= 0.5 * c;
  }

  /** The list after rehash's first step: capacity * (GROWTH_RATIO - 1) = capacity empty slots appended. */
  function Extend(items: seq<Slot>): (r: seq<Slot>)
    ensures |r| == 2 * |items| && r[..|items|] == items
  {
    items + seq(|items|, _ => None)
  }

  /** One turn of the rehash loop at index i: an occupied slot is cleared and its pair put again. */
  function ReinsertAt(items: seq<Slot>, i: nat): (r: seq<Slot>)
    requires i < |items|
    ensures |r| == |items|
  {
    match items[i]
    case None => items
    case Some(e) => Put(items[i := None], e.key, e.val)
  }

  /** The rehash loop from index i to the end of the (already extended) list. */
  function RehashFrom(items: seq<Slot>, i: nat): (r: seq<Slot>)
    requires i <= |items|
    ensures |r| == |items|
    decreases |items| - i
  {
    if i == |items| then items else RehashFrom(ReinsertAt(items, i), i + 1)
  }

  /** rehash: extend, then walk the whole list re-inserting every pair met. */
  function RehashSpec(items: seq<Slot>): (r: seq<Slot>)
    ensures |r| == 2 * |items|
  {
    RehashFrom(Extend(items), 0)
  }

  /**
   * __setitem__: the probe loop's put, followed by a rehash when the put filled
   * an empty slot and the table is now at least half full.
   */
  function SetSpec(items: seq<Slot>, key: string, val: int): (r: seq<Slot>)
    requires |items| > 0
    ensures |r| == |items| || |r| == 2 * |items|
  {
    var p := Put(items, key, val);
    if Inserts(items, key) && TooFull(Occupied(p), |items|) then RehashSpec(p) else p
  }

  // ------------------------------------------------------- extension facts

  /** The appended slots are empty, and so the count of pairs is unchanged. */
  lemma ExtendCount(items: seq<Slot>)
    ensures forall y :: |items| <= y < |Extend(items)| ==> Extend(items)[y].None?
    ensures Occupied(Extend(items)) == Occupied(items)
  {
    var tail: seq<Slot> := seq(|items|, _ => None);
    assert Extend(items) == items + tail;
    OccupiedAppend(items, tail);
    OccupiedNones(|items|);
  }

  /** Extending adds only empty slots: the pairs and their distinctness are kept. */
  lemma ExtendKeeps(items: seq<Slot>)
    ensures Entries(Extend(items)) == Entries(items)
    ensures Distinct(items) ==> Distinct(Extend(items))
  {
    ExtendCount(items);
    assert Extend(items)[..|items|] == items;
  }

  // ------------------------------------------------------- one reinsertion

  /**
   * With distinct keys, the reinsertion at an occupied slot i finds an empty
   * slot for its pair (the list has just lost one pair, so it is not full, and
   * no other slot holds that key) and puts the pair back there.
   */
  lemma {:induction false} ReinsertLands(items: seq<Slot>, i: nat)
    requires i < |items| && Distinct(items) && items[i].Some?
    ensures var items1 := items[i := None];
      var k := items[i].value.key;
      && FindSlot(items1, k).Some?
      && items1[FindSlot(items1, k).value].None?
      && ReinsertAt(items, i) == items1[FindSlot(items1, k).value := items[i]]
  {
    var n := |items|;
    var items1 := items[i := None];
    var e := items[i].value;
    OccupiedUpdate(items, i, None);
    PutSpec(items1, e.key, e.val);
    assert forall y :: 0 <= y < n && y != i ==> !Holds(items, y, e.key);
    assert forall y :: 0 <= y < n ==> !Holds(items1, y, e.key);
  }

  /** A reinsertion keeps the pairs, their number and their distinctness. */
  lemma ReinsertKeeps(items: seq<Slot>, i: nat)
    requires i < |items| && Distinct(items)
    ensures Distinct(ReinsertAt(items, i))
    ensures Occupied(ReinsertAt(items, i)) == Occupied(items)
    ensures Entries(ReinsertAt(items, i)) == Entries(items)
  {
    if items[i].Some? {
      ReinsertLands(items, i);
      var items1 := items[i := None];
      var x := FindSlot(items1, items[i].value.key).value;
      OccupiedUpdate(items, i, None);
      OccupiedUpdate(items1, x, items[i]);
      MoveKeeps(items, i, x);
    }
  }

  /** Moving the pair at i into the empty slot x keeps the pairs and their distinctness. */
  lemma MoveKeeps(items: seq<Slot>, i: nat, x: nat)
    requires i < |items| && x < |items| && Distinct(items) && items[i].Some?
    requires items[i := None][x].None?
    ensures var r := items[i := None][x := items[i]];
      Distinct(r) && Entries(r) == Entries(items)
  {
    var r := items[i := None][x := items[i]];
    forall y, z | 0 <= y < z < |r| && r[y].Some? && r[z].Some?
      ensures r[y].value.key != r[z].value.key
    {
      var y' := if y == x then i else y;
      var z' := if z == x then i else z;
      assert r[y] == items[y'] && r[z] == items[z'];
      assert y' != z';
    }
    forall e | e in Entries(items)
      ensures e in Entries(r)
    {
      var y :| 0 <= y < |items| && items[y].Some? && items[y].value == e;
      var y' := if y == i then x else y;
      assert r[y'] == items[y];
    }
    forall e | e in Entries(r)
      ensures e in Entries(items)
    {
      var y :| 0 <= y < |r| && r[y].Some? && r[y].value == e;
      var y' := if y == x then i else y;
      assert items[y'] == r[y];
    }
  }

  /** The whole walk keeps the pairs, their number and their distinctness. */
  lemma {:induction false} RehashFromKeeps(items: seq<Slot>, i: nat)
    requires i <= |items| && Distinct(items)
    ensures Distinct(RehashFrom(items, i))
    ensures Occupied(RehashFrom(items, i)) == Occupied(items)
    ensures Entries(RehashFrom(items, i)) == Entries(items)
    decreases |items| - i
  {
    if i < |items| {
      ReinsertKeeps(items, i);
      RehashFromKeeps(ReinsertAt(items, i), i + 1);
    }
  }

  /**
   * The branches of __setitem__'s loop body at the slot x where the probe
   * stops: an empty slot takes the pair, raises the count by one and rehashes
   * the list if it is now half full; a slot holding the key has its value
   * replaced. A probe that never stops leaves the list as it was.
   */
  lemma SetSpecAt(items: seq<Slot>, key: string, val: int)
    requires |items| > 0
    ensures FindSlot(items, key).None? ==> SetSpec(items, key, val) == items
    ensures FindSlot(items, key).Some? ==>
      var x := FindSlot(items, key).value;
      var p := items[x := Some(Entry(key, val))];
      && (items[x].None? ==> Occupied(p) == Occupied(items) + 1)
      && (items[x].None? ==> SetSpec(items, key, val) == if TooFull(Occupied(items) + 1, |items|) then RehashSpec(p) else p)
      && (items[x].Some? ==> SetSpec(items, key, val) == p && Occupied(p) == Occupied(items))
  {
    PutSpec(items, key, val);
  }

  /**
   * One turn of the rehash loop, as the method performs it: clearing slot i
   * drops the count by one, and setting the pair again in a list less than
   * half full is the plain put of ReinsertAt, which does not raise the count.
   */
  lemma ReinsertBySet(items: seq<Slot>, i: nat, bound: nat)
    requires i < |items| && items[i].Some?
    requires Occupied(items) <= bound && 2 * bound < |items|
    ensures var items1 := items[i := None]; var e := items[i].value;
      && Occupied(items1) + 1 == Occupied(items)
      && SetSpec(items1, e.key, e.val) == ReinsertAt(items, i)
      && Occupied(ReinsertAt(items, i)) <= Occupied(items)
      && !TooFull(Occupied(items1) + 1, |items|)
  {
    var items1 := items[i := None];
    var e := items[i].value;
    OccupiedUpdate(items, i, None);
    PutSpec(items1, e.key, e.val);
  }

  /** The walk from i is the reinsertion at i followed by the walk from i + 1. */
  lemma RehashFromStep(items: seq<Slot>, i: nat)
    requires i < |items|
    ensures RehashFrom(items, i) == RehashFrom(ReinsertAt(items, i), i + 1)
  {
  }

  // --------------------------------------------------- the walk's invariant

  /** Every slot from q to the end of the list is occupied. */
  ghost predicate TopRun(items: seq<Slot>, q: nat)
  {
    forall y :: q <= y < |items| ==> items[y].Some?
  }

  /**
   * The invariant of the rehash walk over a list of 2c slots, before index i:
   * keys distinct and fewer than c of them; every pair below i is reachable;
   * every pair in the occupied run that ends the list is reachable; and every
   * pair in the upper half finds all slots of its probe path from index i on
   * occupied.
   */
  ghost predicate RehashInv(items: seq<Slot>, i: nat, c: nat)
  {
    && |items| == 2 * c && i <= |items|
    && Distinct(items) && Occupied(items) < c
    && (forall q :: 0 <= q < i && items[q].Some? ==> Reachable(items, q))
    && (forall q :: i <= q < |items| && TopRun(items, q) ==> Reachable(items, q))
    && (forall q :: c <= q < |items| && items[q].Some? ==> PathFull(items, q, i))
  }

  lemma {:induction false} OccupiedTop(items: seq<Slot>, lo: nat)
    requires lo <= |items|
    ensures TopRun(items, lo) ==> Occupied(items) >= |items| - lo
  {
    if TopRun(items, lo) {
      OccupiedSuffix(items, lo);
    }
  }

  /** On a probe path that does not wrap past q, every slot between a path slot y and q is on the path too. */
  lemma PathBetween(h: nat, q: nat, y: nat, z: nat, n: nat)
    requires h < n && q < n && y <= z <= q
    ensures Dist(h, y, n) <= Dist(h, q, n) ==> Dist(h, z, n) <= Dist(h, q, n)
  {
  }

  /** A probe path that reaches q after passing a slot y above q has wrapped: it covers every slot from y to the end. */
  lemma PathTail(h: nat, q: nat, y: nat, z: nat, n: nat)
    requires h < n && q < y <= z < n
    ensures Dist(h, y, n) <= Dist(h, q, n) ==> Dist(h, z, n) <= Dist(h, q, n)
  {
  }

  /** At the start of the walk (after extension) the invariant holds. */
  lemma RehashBase(items: seq<Slot>)
    requires Distinct(items) && Occupied(items) < |items|
    ensures RehashInv(Extend(items), 0, |items|)
  {
    var e := Extend(items);
    var n := |e|;
    ExtendCount(items);
    ExtendKeeps(items);
    assert e[n - 1].None?;
    assert forall q :: 0 <= q < n ==> !TopRun(e, q);
  }

  /** One turn of the walk keeps the invariant. */
  lemma {:induction false} RehashStep(items: seq<Slot>, i: nat, c: nat)
    requires RehashInv(items, i, c) && i < |items|
    ensures RehashInv(ReinsertAt(items, i), i + 1, c)
  {
    var n := |items|;
    var r := ReinsertAt(items, i);
    ReinsertKeeps(items, i);
    if items[i].None? {
      assert r == items;
      forall q | c <= q < n && items[q].Some?
        ensures PathFull(items, q, i + 1)
      {
        assert PathFull(items, q, i);
      }
    } else {
      RehashStepSome(items, i, c);
    }
  }

  /** The turn of the walk at an occupied slot i. */
  lemma RehashStepSome(items: seq<Slot>, i: nat, c: nat)
    requires RehashInv(items, i, c) && i < |items| && items[i].Some?
    requires Distinct(ReinsertAt(items, i)) && Occupied(ReinsertAt(items, i)) == Occupied(items)
    ensures RehashInv(ReinsertAt(items, i), i + 1, c)
  {
    var n := |items|;
    var e := items[i].value;
    var items1 := items[i := None];
    var x := LandingPath(items, i);
    var h := Hash(e.key, n);
    if x == i {
      assert ReinsertAt(items, i) == items;
    } else {
      // x comes before i on the pair's probe path, and x was empty
      assert Wrap(h, Dist(h, i, n), n) == i;
      assert Dist(h, x, n) < Dist(h, i, n);
      RehashStepMoved(items, i, c, x);
    }
  }

  /**
   * The reinsertion at an occupied slot i puts the pair at the first empty
   * slot x of its probe path (or back at i), and the path up to x is full.
   */
  lemma LandingPath(items: seq<Slot>, i: nat) returns (x: nat)
    requires i < |items| && Distinct(items) && items[i].Some?
    ensures x < |items| && items[i := None][x].None?
    ensures ReinsertAt(items, i) == items[i := None][x := items[i]]
    ensures x == i || items[x].None?
    ensures var h := Hash(items[i].value.key, |items|); Dist(h, x, |items|) <= Dist(h, i, |items|)
    ensures PathFull(ReinsertAt(items, i), x, 0)
  {
    var n := |items|;
    var e := items[i].value;
    var items1 := items[i := None];
    ReinsertLands(items, i);
    x := FindSlot(items1, e.key).value;
    var h := Hash(e.key, n);
    FindSlotSpec(items1, e.key);
    var r := ReinsertAt(items, i);
    assert r == items1[x := Some(e)];
    forall y | 0 <= y < n && Dist(h, y, n) <= Dist(h, x, n)
      ensures r[y].Some?
    {
      if y != x {
        assert Wrap(h, Dist(h, y, n), n) == y;
      }
    }
  }

  /** The pair at i has moved to the empty slot x; nothing else differs. */
  ghost predicate Moved(items: seq<Slot>, r: seq<Slot>, i: nat, x: nat)
  {
    && i < |items| && x < |items| && x != i
    && items[i].Some? && items[x].None?
    && r == items[i := None][x := items[i]]
  }

  /** A pair whose probe path avoids the vacated slot i stays reachable after the move. */
  lemma MovedKeepsPath(items: seq<Slot>, r: seq<Slot>, i: nat, x: nat, q: nat)
    requires Moved(items, r, i, x) && q < |items| && q != i && Reachable(items, q)
    requires var n := |items|; var hq := Hash(items[q].value.key, n); Dist(hq, i, n) > Dist(hq, q, n)
    ensures Reachable(r, q)
  {
    assert r[q] == items[q];
  }

  /** The turn of the walk in which the pair at i moves to another slot x. */
  lemma {:induction false} RehashStepMoved(items: seq<Slot>, i: nat, c: nat, x: nat)
    requires RehashInv(items, i, c) && i < |items| && Moved(items, ReinsertAt(items, i), i, x)
    requires var h := Hash(items[i].value.key, |items|); Dist(h, x, |items|) < Dist(h, i, |items|)
    requires Distinct(ReinsertAt(items, i)) && Occupied(ReinsertAt(items, i)) == Occupied(items)
    requires PathFull(ReinsertAt(items, i), x, 0)
    ensures RehashInv(ReinsertAt(items, i), i + 1, c)
  {
    var n := |items|;
    var r := ReinsertAt(items, i);
    // the pair at i was not reachable (x lies empty on its path), hence not in the final run
    assert !PathFull(items, i, 0);
    assert !TopRun(items, i);
    var z0 :| i <= z0 < n && items[z0].None?;

    forall q | 0 <= q < i + 1 && r[q].Some?
      ensures Reachable(r, q)
    {
      if q != x {
        assert r[q] == items[q];
        StepBelow(items, r, i, c, x, z0, q);
      }
    }

    forall q | i + 1 <= q < n && TopRun(r, q)
      ensures Reachable(r, q)
    {
      if q != x {
        assert r[q].Some? && r[q] == items[q];
        if x < q {
          StepRunBelowMove(items, r, i, c, x, z0, q);
        } else {
          StepRunAbove(items, r, i, c, x, q);
        }
      }
    }

    forall q | c <= q < n && r[q].Some?
      ensures PathFull(r, q, i + 1)
    {
      if q != x {
        assert r[q] == items[q];
        assert PathFull(items, q, i);
      }
    }
  }

  /** A pair below i: its path cannot wrap past i, or everything from i on would be occupied. */
  lemma StepBelow(items: seq<Slot>, r: seq<Slot>, i: nat, c: nat, x: nat, z0: nat, q: nat)
    requires RehashInv(items, i, c) && Moved(items, r, i, x)
    requires i <= z0 < |items| && items[z0].None?
    requires q < i && items[q].Some?
    ensures Reachable(r, q)
  {
    var n := |items|;
    var hq := Hash(items[q].value.key, n);
    assert Reachable(items, q);
    PathTail(hq, q, i, z0, n);
    MovedKeepsPath(items, r, i, x, q);
  }

  /** A pair in the final run that the move did not touch: its path cannot reach back to i. */
  lemma StepRunBelowMove(items: seq<Slot>, r: seq<Slot>, i: nat, c: nat, x: nat, z0: nat, q: nat)
    requires RehashInv(items, i, c) && Moved(items, r, i, x)
    requires i <= z0 < |items| && items[z0].None?
    requires i < q < |items| && x < q && TopRun(r, q)
    ensures Reachable(r, q)
  {
    var n := |items|;
    forall y | q <= y < n
      ensures items[y].Some?
    {
      assert r[y] == items[y];
    }
    assert Reachable(items, q);
    var hq := Hash(items[q].value.key, n);
    PathBetween(hq, q, i, z0, n);
    MovedKeepsPath(items, r, i, x, q);
  }

  /**
   * The delicate case of the walk: a pair at q above i that the move to x
   * (beyond q) has joined to the final run. Its probe path cannot reach back to
   * i: that would make everything from i on occupied, hence i in the upper
   * half, and then the invariant would have had x occupied.
   */
  lemma {:induction false} StepRunAbove(items: seq<Slot>, r: seq<Slot>, i: nat, c: nat, x: nat, q: nat)
    requires RehashInv(items, i, c) && Moved(items, r, i, x)
    requires var h := Hash(items[i].value.key, |items|); Dist(h, x, |items|) < Dist(h, i, |items|)
    requires i < q < x && Occupied(r) == Occupied(items)
    requires TopRun(r, q)
    ensures Reachable(r, q)
  {
    var n := |items|;
    assert r[q] == items[q];
    var hq := Hash(items[q].value.key, n);
    OccupiedTop(r, q);
    assert q > c;
    assert PathFull(items, q, i);
    RunJoins(items, r, i, x, q);
    var next: nat := i + 1;
    OccupiedTop(r, next);
    var fullHere := PathFull(items, i, i);
    assert c <= i ==> fullHere;
    assert Dist(hq, i, n) > Dist(hq, q, n);
    RunReachable(items, r, i, x, q);
  }

  /** Were i on the probe path of the pair at q, the run ending the list would start right after i. */
  lemma RunJoins(items: seq<Slot>, r: seq<Slot>, i: nat, x: nat, q: nat)
    requires Moved(items, r, i, x) && i < q < x && TopRun(r, q)
    requires items[q].Some? && PathFull(items, q, i)
    ensures var n := |items|; var hq := Hash(items[q].value.key, n);
      Dist(hq, i, n) <= Dist(hq, q, n) ==> TopRun(r, i + 1)
  {
    var n := |items|;
    var hq := Hash(items[q].value.key, n);
    if Dist(hq, i, n) <= Dist(hq, q, n) {
      forall y | i + 1 <= y < n
        ensures r[y].Some?
      {
        if y < q {
          PathBetween(hq, q, i, y, n);
          assert r[y] == items[y];
        }
      }
    }
  }

  /**
   * A pair at q between i and x whose probe path ends before reaching i, and
   * whose path from i on was full: after the move its whole path is full.
   */
  lemma RunReachable(items: seq<Slot>, r: seq<Slot>, i: nat, x: nat, q: nat)
    requires Moved(items, r, i, x) && i < q < x && TopRun(r, q)
    requires items[q].Some? && PathFull(items, q, i)
    requires var n := |items|; var hq := Hash(items[q].value.key, n); Dist(hq, i, n) > Dist(hq, q, n)
    ensures Reachable(r, q)
  {
    var n := |items|;
    var hq := Hash(items[q].value.key, n);
    assert r[q] == items[q];
    forall y | 0 <= y < n && Dist(hq, y, n) <= Dist(hq, q, n)
      ensures r[y].Some?
    {
      if y < i {
        PathBetween(hq, q, y, i, n);
        assert false;
      } else if y < q {
        assert r[y] == items[y];
      }
    }
  }

  /**
   * The walk from any index at which the invariant holds leaves a kept list:
   * at the end of the walk the invariant makes every pair reachable.
   */
  lemma {:induction false} RehashFromInv(items: seq<Slot>, i: nat, c: nat)
    requires RehashInv(items, i, c)
    ensures Keyed(RehashFrom(items, i))
    decreases |items| - i, 1
  {
    if i < |items| {
      RehashFromInvStep(items, i, c);
    }
  }

  /** The walk from an index inside the list: one turn, then the rest of the walk. */
  lemma {:induction false} RehashFromInvStep(items: seq<Slot>, i: nat, c: nat)
    requires RehashInv(items, i, c) && i < |items|
    ensures Keyed(RehashFrom(items, i))
    decreases |items| - i, 0
  {
    RehashStep(items, i, c);
    RehashFromInv(ReinsertAt(items, i), i + 1, c);
    KeyedFromStep(items, i);
  }

  /** A walk whose remainder after index i leaves a kept list leaves a kept list from i. */
  lemma KeyedFromStep(items: seq<Slot>, i: nat)
    requires i < |items| && Keyed(RehashFrom(ReinsertAt(items, i), i + 1))
    ensures Keyed(RehashFrom(items, i))
  {
    RehashFromStep(items, i);
  }

  // ------------------------------------------------------------ theorems

  /**
   * rehash of a list with distinct keys and fewer pairs than slots: the list
   * doubles, keeps exactly its pairs, and every pair becomes reachable, so
   * every lookup answers as before.
   */
  lemma RehashCorrect(items: seq<Slot>, default: int)
    requires Distinct(items) && Occupied(items) < |items|
    ensures Keyed(RehashSpec(items))
    ensures Entries(RehashSpec(items)) == Entries(items)
    ensures Occupied(RehashSpec(items)) == Occupied(items)
    ensures forall k :: Lookup(RehashSpec(items), k, default) == Lookup(items, k, default)
  {
    ExtendCount(items);
    ExtendKeeps(items);
    RehashBase(items);
    RehashFromInv(Extend(items), 0, |items|);
    RehashFromKeeps(Extend(items), 0);
    LookupByEntries(RehashSpec(items), items, default);
  }

  /**
   * __setitem__ on a kept table that is less than half full is a map update:
   * the key gets the value, every other key keeps its lookup, the table stays
   * kept and less than half full, and it doubles exactly when the insertion
   * made it half full.
   */
  lemma SetSpecUpdates(items: seq<Slot>, key: string, val: int, default: int)
    requires |items| >= 2 && Keyed(items) && !TooFull(Occupied(items), |items|)
    ensures var r := SetSpec(items, key, val);
      && Keyed(r)
      && !TooFull(Occupied(r), |r|)
      && (forall k :: Lookup(r, k, default) == if k == key then val else Lookup(items, k, default))
      && |r| == if Inserts(items, key) && TooFull(Occupied(items) + 1, |items|) then 2 * |items| else |items|
  {
    var p := Put(items, key, val);
    PutFacts(items, key, val, default);
    if Inserts(items, key) && TooFull(Occupied(p), |items|) {
      RehashFacts(p, default);
    }
  }

  /** SetSpecUpdates for a table that may or may not be kept, in the form __setitem__ promises it. */
  lemma SetKeepsMap(items: seq<Slot>, key: string, val: int, default: int)
    requires |items| >= 2 && !TooFull(Occupied(items), |items|)
    ensures Keyed(items) ==> Keyed(SetSpec(items, key, val))
    ensures Keyed(items) ==>
      forall k :: Lookup(SetSpec(items, key, val), k, default) == if k == key then val else Lookup(items, k, default)
  {
    if Keyed(items) {
      SetSpecUpdates(items, key, val, default);
    }
  }

  /** The probe loop's put on a kept table: kept, one more pair exactly when it inserts, and a map update. */
  lemma PutFacts(items: seq<Slot>, key: string, val: int, default: int)
    requires |items| >= 2 && Keyed(items) && !TooFull(Occupied(items), |items|)
    ensures var p := Put(items, key, val);
      && |p| == |items| && Keyed(p)
      && Occupied(p) == (if Inserts(items, key) then Occupied(items) + 1 else Occupied(items))
      && forall k :: Lookup(p, k, default) == if k == key then val else Lookup(items, k, default)
  {
    PutSpec(items, key, val);
    PutKeyed(items, key, val);
    PutUpdates(items, key, val, default);
  }

  /** The rehash that follows an insertion filling half the table keeps it kept and answers as before. */
  lemma RehashFacts(p: seq<Slot>, default: int)
    requires Keyed(p) && Occupied(p) < |p|
    ensures var r := RehashSpec(p);
      && |r| == 2 * |p| && Keyed(r) && Occupied(r) == Occupied(p)
      && forall k :: Lookup(r, k, default) == Lookup(p, k, default)
  {
    RehashCorrect(p, default);
  }

  /** __setitem__ stores exactly the new pair and the old pairs under other keys. */
  lemma SetSpecEntries(items: seq<Slot>, key: string, val: int)
    requires |items| >= 2 && Keyed(items) && !TooFull(Occupied(items), |items|)
    ensures Entries(SetSpec(items, key, val)) == (set e | e in Entries(items) && e.key != key) + {Entry(key, val)}
  {
    var p := Put(items, key, val);
    PutSpec(items, key, val);
    PutKeyed(items, key, val);
    PutEntries(items, key, val);
    if Inserts(items, key) && TooFull(Occupied(p), |items|) {
      RehashCorrect(p, 0);
    }
  }
}
