/**
 * The Markov class of markovian/models/markov.py: a k-order model that counts
 * every k-window and (k+1)-window of a training text into one LPHashtable,
 * then scores a string by summing smoothed log ratios of those counts.
 */
module Models {
  import opened Probing
  import opened Growth
  import opened LPHashtables
  import opened NGrams

  /**
   * A table part way through the counting loop of __init__: kept, less than
   * half full, every lookup is the number of times the key occurs among the
   * windows counted so far, and every stored count is positive.
   */
  ghost predicate Tallies(items: seq<Slot>, counted: seq<string>)
  {
    && |items| >= 2 && Keyed(items) && !TooFull(Occupied(items), |items|)
    && (forall w :: Lookup(items, w, 0) == Occurrences(counted, w))
    && (forall e :: e in Entries(items) ==> e.val >= 1)
  }

  /** A fresh kept table, empty and answering 0 everywhere, has counted nothing. */
  lemma NothingTallied(items: seq<Slot>)
    requires |items| >= 2 && Keyed(items) && Occupied(items) == 0
    requires forall w :: Lookup(items, w, 0) == 0
    ensures Tallies(items, [])
  {
    OccupiedEntries(items);
  }

  /**
   * One turn of the counting loop: setting a window to one more than its
   * current lookup (1 when it was absent) counts one more occurrence of it
   * and keeps every stored count positive.
   */
  lemma CountOne(items: seq<Slot>, w: string, v: int, counted: seq<string>)
    requires Tallies(items, counted) && v == Lookup(items, w, 0) + 1
    ensures Tallies(SetSpec(items, w, v), counted + [w])
  {
    var r := SetSpec(items, w, v);
    SetSpecUpdates(items, w, v, 0);
    forall u
      ensures Lookup(r, u, 0) == Occurrences(counted + [w], u)
    {
      OccurrencesSnoc(counted, w, u);
    }
    assert v >= 1;
    PositiveAfterSet(items, w, v);
  }

  /** Setting a positive count keeps every stored count positive. */
  lemma PositiveAfterSet(items: seq<Slot>, w: string, v: int)
    requires |items| >= 2 && Keyed(items) && !TooFull(Occupied(items), |items|)
    requires (forall e :: e in Entries(items) ==> e.val >= 1) && v >= 1
    ensures forall e :: e in Entries(SetSpec(items, w, v)) ==> e.val >= 1
  {
    SetSpecEntries(items, w, v);
  }

  /**
   * The table left by the counting loop answers every lookup with the
   * training count, and holds exactly one pair per distinct training window,
   * paired with its count; so its size is the number of distinct windows,
   * and an empty text leaves it empty.
   */
  lemma StoredCounts(items: seq<Slot>, text: string, k: nat)
    requires Tallies(items, TrainingWindows(text, k))
    ensures forall w :: Lookup(items, w, 0) == Count(text, k, w)
    ensures Entries(items) == set w | w in TrainingWindows(text, k) :: Entry(w, Count(text, k, w))
    ensures Occupied(items) == |Entries(items)|
    ensures |text| == 0 ==> Occupied(items) == 0
  {
    var want := set w | w in TrainingWindows(text, k) :: Entry(w, Count(text, k, w));
    forall e | e in Entries(items)
      ensures e in want
    {
      LookupEntries(items, e.key, 0);
      CountSpec(text, k, e.key);
    }
    forall w | w in TrainingWindows(text, k)
      ensures Entry(w, Count(text, k, w)) in Entries(items)
    {
      CountSpec(text, k, w);
      LookupSpec(items, w, 0);
    }
    OccupiedEntries(items);
    if |text| == 0 {
      assert want == {};
    }
  }

  /**
   * One turn of the counting loop of __init__: look w up and set it to 1 when
   * it is absent, otherwise to one more than its count; the table then counts
   * w once more.
   */
  method CountWindow(table: LPHashtable, w: string, ghost counted: seq<string>)
    requires table.Valid() && table.default == 0 && Tallies(table.items, counted)
    modifies table
    ensures table.Valid() && table.default == 0 && Tallies(table.items, counted + [w])
    ensures table.capacity >= old(table.capacity)
  {
    ghost var before := table.items;
    var current := table.Get(w);
    if current == 0 {
      CountOne(before, w, 1, counted);
      table.Set(w, 1);
    } else {
      var g := table.Get(w);
      CountOne(before, w, g + 1, counted);
      table.Set(w, g + 1);
    }
  }

  /**
   * The first loop of __init__: the k-window and the (k+1)-window of every
   * start index of text, the k-windows first.
   */
  method CutWindows(text: string, k: nat) returns (kstr: seq<string>)
    ensures kstr == TrainingWindows(text, k)
  {
    kstr := [];
    var kone: seq<string> := [];
    for i := 0 to |text|
      invariant kstr == Windows(text, k)[..i] && kone == Windows(text, k + 1)[..i]
    {
      WindowsAt(text, k, i);
      WindowsAt(text, k + 1, i);
      kstr := kstr + [Window(text, i, k)];
      kone := kone + [Window(text, i, k + 1)];
    }
    kstr := kstr + kone;
  }

  /**
   * The second loop of __init__: a fresh table of HASH_CELLS slots with
   * default 0, into which every window of kstr is counted in turn.
   */
  method CountWindows(kstr: seq<string>) returns (table: LPHashtable)
    ensures fresh(table) && table.Valid() && table.default == 0
    ensures table.capacity >= HASH_CELLS && Tallies(table.items, kstr)
  {
    table := new LPHashtable(HASH_CELLS, 0);
    NothingTallied(table.items);
    for j := 0 to |kstr|
      invariant table.Valid() && table.default == 0 && table.capacity >= HASH_CELLS
      invariant Tallies(table.items, kstr[..j])
    {
      CountWindow(table, kstr[j], kstr[..j]);
      assert kstr[..j + 1] == kstr[..j] + [kstr[j]];
    }
    assert kstr[..|kstr|] == kstr;
  }

  class Markov {
    var S: nat
    var k: nat
    var lphash: LPHashtable
    /** The training text, kept only to state what the table holds. */
    ghost var text: string
    /** The count of every string among the training windows of text. */
    ghost var counts: string -> nat

    /**
     * The table is a kept LPHashtable with default 0 whose lookups are the
     * counts of the training windows, and S is the number of distinct
     * symbols of the text.
     */
    ghost predicate Valid()
      reads this, lphash
    {
      && lphash.Valid() && Keyed(lphash.items) && lphash.default == 0
      && S == |CharSet(text)|
      && (forall w {:trigger Count(text, k, w)} :: counts(w) == Count(text, k, w))
      && (forall w {:trigger Lookup(lphash.items, w, 0)} :: Lookup(lphash.items, w, 0) == counts(w))
    }

    /**
     * __init__: build the k-windows and (k+1)-windows of every start index,
     * then count them into a fresh table of HASH_CELLS slots, looking each one
     * up and setting 1 or one more than its current count.
     */
    constructor (k: nat, text: string)
      ensures Valid() && this.k == k && this.text == text
      ensures fresh(lphash) && lphash.capacity >= HASH_CELLS
      ensures Entries(lphash.items) == set w | w in TrainingWindows(text, k) :: Entry(w, Count(text, k, w))
      ensures |text| == 0 ==> lphash.size == 0
    {
      var symbols := |CharSet(text)|;
      var kstr := CutWindows(text, k);
      var table := CountWindows(kstr);
      StoredCounts(table.items, text, k);
      ghost var c := Counts(text, k);
      assert forall w :: Lookup(table.items, w, 0) == c(w);
      S := symbols;
      this.k := k;
      lphash := table;
      this.text := text;
      counts := c;
    }

    /**
     * The two lookups of one position of log_probability: the counts N of the
     * k-window and M of the (k+1)-window of s starting at i, cut as the
     * training windows are.
     */
    method PositionCounts(s: string, i: nat) returns (n: nat, m: nat)
      requires Valid() && i < |s|
      ensures n == counts(Window(s, i, k)) && m == counts(Window(s, i, k + 1))
    {
      var temp1 := Window(s, i, k);
      var temp2 := Window(s, i, k + 1);
      var table := lphash;
      n := table.Get(temp1);
      m := table.Get(temp2);
    }

    /**
     * log_probability: for each start index of s, look up the counts N of its
     * k-window and M of its (k+1)-window and add ln((M + 1) / (N + S)); a
     * zero denominator raises ZeroDivisionError.
     */
    method LogProbability(s: string, ln: real -> real) returns (r: Outcome)
      requires Valid()
      ensures r == ScoreUpTo(counts, S, k, s, ln, |s|) && r == Score(text, k, s, ln)
    {
      ScoreOfCounts(counts, text, k, s, ln);
      var order := k;
      var symbols := S;
      var answer := 0.0;
      for i := 0 to |s|
        invariant ScoreUpTo(counts, symbols, order, s, ln, i) == Ok(answer)
      {
        var n, m := PositionCounts(s, i);
        ScoreStep(counts, symbols, order, s, ln, i, answer);
        if n + symbols == 0 {
          ZeroDivisionSticks(counts, symbols, order, s, ln, i + 1, |s|);
          return ZeroDivision;
        }
        answer := answer + ln(Ratio(n, m, symbols));
      }
      return Ok(answer);
    }
  }
}
