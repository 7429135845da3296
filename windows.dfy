/**
 * The pure side of the k-order Markov model of markovian/models/markov.py:
 * the wrap-around windows cut from a text by slicing, the symbol count S, the
 * n-gram counts the model's table holds, and the smoothed score
 * log_probability sums. The natural logarithm is a parameter `ln`.
 */
module NGrams {
  import opened Modular

  /** The number of slots the model's table is created with (HASH_CELLS). */
  const HASH_CELLS: nat := 57

  /**
   * The window of length `len` starting at i, as the code slices it:
   * text[i:i+len] when it fits, and otherwise text[i:] + text[:(i+len) % n]
   * (the remainder written as Modular.Reduce).
   */
  function Window(text: string, i: nat, len: nat): string
    requires i < |text|
  {
    if i + len <= |text| then text[i..i + len]
    else text[i..] + text[..Reduce(i + len, |text|)]
  }

  /** The ideal circular window: `len` characters read around the text from i. */
  function CircularWindow(text: string, i: nat, len: nat): (w: string)
    requires i < |text|
    ensures |w| == len
  {
    seq(len, j => text[(i + j) % |text|])
  }

  /**
   * The sliced window is a prefix of the circular one, of length len when it
   * fits and n - i + (i + len) mod n otherwise; it is the whole circular window
   * exactly when i + len < 2n, so for len > n some windows come out short.
   */
  lemma WindowIsCircularPrefix(text: string, i: nat, len: nat)
    requires i < |text|
    ensures var w := Window(text, i, len); var n := |text|;
      && |w| == (if i + len <= n then len else n - i + (i + len) % n)
      && w == CircularWindow(text, i, len)[..|w|]
      && (w == CircularWindow(text, i, len) <==> i + len < 2 * n)
  {
    var n := |text|;
    var w := Window(text, i, len);
    var c := CircularWindow(text, i, len);
    if i + len <= n {
      forall j | 0 <= j < len
        ensures w[j] == c[j]
      {
        ModBelow(i + j, n);
      }
    } else {
      ReduceIsMod(i + len, n);
      ModAbove(i + len, n);
      forall j | 0 <= j < |w|
        ensures w[j] == c[j]
      {
        if j < n - i {
          ModBelow(i + j, n);
          assert w[j] == text[i + j];
        } else {
          ModAbove(i + j, n);
          assert w[j] == text[j - (n - i)];
        }
      }
      assert |w| == len <==> i + len < 2 * n;
    }
  }

  /** The windows of one length, one per start index of the text. */
  function Windows(text: string, len: nat): (ws: seq<string>)
    ensures |ws| == |text|
  {
    seq(|text|, i requires 0 <= i < |text| => Window(text, i, len))
  }

  /** Entry i of the windows of one length is the window starting at i. */
  lemma WindowsAt(text: string, len: nat, i: nat)
    requires i < |text|
    ensures Windows(text, len)[i] == Window(text, i, len)
  {
  }

  /** What the constructor counts: the k-windows followed by the (k+1)-windows. */
  function TrainingWindows(text: string, k: nat): (ws: seq<string>)
    ensures |ws| == 2 * |text|
  {
    Windows(text, k) + Windows(text, k + 1)
  }

  /** How many entries of ws equal w, counted from the last entry back. */
  function Occurrences(ws: seq<string>, w: string): (c: nat)
    ensures c <= |ws|
    decreases |ws|
  {
    if ws == [] then 0
    else Occurrences(ws[..|ws| - 1], w) + (if ws[|ws| - 1] == w then 1 else 0)
  }

  /** Appending one string adds one occurrence of it and none of any other. */
  lemma OccurrencesSnoc(ws: seq<string>, x: string, w: string)
    ensures Occurrences(ws + [x], w) == Occurrences(ws, w) + (if x == w then 1 else 0)
  {
    assert (ws + [x])[..|ws|] == ws;
  }

  /** Occurrences is the multiplicity of w in the multiset of ws; so it is positive exactly for members. */
  lemma {:induction false} OccurrencesMultiplicity(ws: seq<string>, w: string)
    ensures Occurrences(ws, w) == multiset(ws)[w]
    ensures Occurrences(ws, w) >= 1 <==> w in ws
    decreases |ws|
  {
    if ws != [] {
      var prefix := ws[..|ws| - 1];
      OccurrencesMultiplicity(prefix, w);
      assert ws == prefix + [ws[|ws| - 1]];
    }
  }

  /** How many of the training windows equal w. */
  function Count(text: string, k: nat, w: string): nat
  {
    Occurrences(TrainingWindows(text, k), w)
  }

  /** A string counts at least once exactly when it is one of the training windows; an empty text counts nothing. */
  lemma CountSpec(text: string, k: nat, w: string)
    ensures Count(text, k, w) >= 1 <==> w in TrainingWindows(text, k)
    ensures |text| == 0 ==> Count(text, k, w) == 0
  {
    OccurrencesMultiplicity(TrainingWindows(text, k), w);
  }

  /** The distinct symbols of the text (set(text)). */
  function CharSet(text: string): set<char>
  {
    set c | c in text
  }

  /** S, the number of distinct symbols, is positive exactly for a non-empty text and at most its length. */
  lemma {:induction false} CharSetSize(text: string)
    ensures |CharSet(text)| <= |text|
    ensures |CharSet(text)| == 0 <==> |text| == 0
  {
    if text != [] {
      var rest := text[1..];
      CharSetSize(rest);
      assert CharSet(text) == CharSet(rest) + {text[0]};
      assert text[0] in CharSet(text);
    }
  }

  // ---------------------------------------------------------------- scoring

  /** The outcome of log_probability: a sum, or the ZeroDivisionError of a zero denominator. */
  datatype Outcome = Ok(value: real) | ZeroDivision

  /** The smoothed ratio (M + 1) / (N + S), exact. */
  function Ratio(n: nat, m: nat, s: nat): (r: real)
    requires n + s > 0
    ensures r > 0.0
  {
    (m + 1) as real / (n + s) as real
  }

  /**
   * log_probability over the first `upto` positions of s, for a model whose
   * table answers `counts` and whose symbol count is `symbols`: each position
   * adds ln((M + 1) / (N + S)) for the counts N of its k-window and M of its
   * (k+1)-window; a zero denominator stops the sum with ZeroDivision.
   */
  function ScoreUpTo(counts: string -> nat, symbols: nat, k: nat, s: string, ln: real -> real, upto: nat): Outcome
    requires upto <= |s|
  {
    if upto == 0 then Ok(0.0)
    else
      match ScoreUpTo(counts, symbols, k, s, ln, upto - 1)
      case ZeroDivision => ZeroDivision
      case Ok(acc) =>
        var n := counts(Window(s, upto - 1, k));
        var m := counts(Window(s, upto - 1, k + 1));
        if n + symbols == 0 then ZeroDivision else Ok(acc + ln(Ratio(n, m, symbols)))
  }

  /** The counts a model trained on text with order k answers. */
  function Counts(text: string, k: nat): (counts: string -> nat)
    ensures forall w :: counts(w) == Count(text, k, w)
  {
    w => Count(text, k, w)
  }

  /** log_probability of s under the model trained on text with order k. */
  function Score(text: string, k: nat, s: string, ln: real -> real): Outcome
  {
    ScoreUpTo(Counts(text, k), |CharSet(text)|, k, s, ln, |s|)
  }

  /** The sum depends on the counts only through their values: tables that answer alike score alike. */
  lemma {:induction false} ScoreUpToAgree(c1: string -> nat, c2: string -> nat, symbols: nat, k: nat, s: string, ln: real -> real, upto: nat)
    requires upto <= |s| && forall w :: c1(w) == c2(w)
    ensures ScoreUpTo(c1, symbols, k, s, ln, upto) == ScoreUpTo(c2, symbols, k, s, ln, upto)
  {
    if upto > 0 {
      ScoreUpToAgree(c1, c2, symbols, k, s, ln, upto - 1);
    }
  }

  /** A table that answers the training counts of text scores s as the model trained on text does. */
  lemma ScoreOfCounts(counts: string -> nat, text: string, k: nat, s: string, ln: real -> real)
    requires forall w :: counts(w) == Count(text, k, w)
    ensures ScoreUpTo(counts, |CharSet(text)|, k, s, ln, |s|) == Score(text, k, s, ln)
  {
    ScoreUpToAgree(counts, Counts(text, k), |CharSet(text)|, k, s, ln, |s|);
  }

  /** One more position of the sum: its term is added, or a zero denominator stops it. */
  lemma ScoreStep(counts: string -> nat, symbols: nat, k: nat, s: string, ln: real -> real, i: nat, acc: real)
    requires i < |s| && ScoreUpTo(counts, symbols, k, s, ln, i) == Ok(acc)
    ensures var n := counts(Window(s, i, k));
      var m := counts(Window(s, i, k + 1));
      ScoreUpTo(counts, symbols, k, s, ln, i + 1) == if n + symbols == 0 then ZeroDivision else Ok(acc + ln(Ratio(n, m, symbols)))
  {
  }

  /** Once a division by zero has stopped the sum, it stays stopped. */
  lemma {:induction false} ZeroDivisionSticks(counts: string -> nat, symbols: nat, k: nat, s: string, ln: real -> real, upto: nat, later: nat)
    requires upto <= later <= |s| && ScoreUpTo(counts, symbols, k, s, ln, upto) == ZeroDivision
    ensures ScoreUpTo(counts, symbols, k, s, ln, later) == ZeroDivision
    decreases later - upto
  {
    if upto < later {
      ZeroDivisionSticks(counts, symbols, k, s, ln, upto + 1, later);
    }
  }

  /**
   * With at least one symbol every denominator is positive and the sum is
   * defined; with no symbols and a table that answers 0 everywhere, the
   * first position already divides by zero. No positions sum to 0.
   */
  lemma {:induction false} ScoreUpToDefined(counts: string -> nat, symbols: nat, k: nat, s: string, ln: real -> real, upto: nat)
    requires upto <= |s|
    ensures symbols > 0 ==> ScoreUpTo(counts, symbols, k, s, ln, upto).Ok?
    ensures symbols == 0 && (forall w :: counts(w) == 0) ==> (ScoreUpTo(counts, symbols, k, s, ln, upto).Ok? <==> upto == 0)
    ensures upto == 0 ==> ScoreUpTo(counts, symbols, k, s, ln, upto) == Ok(0.0)
  {
    if upto > 0 {
      ScoreUpToDefined(counts, symbols, k, s, ln, upto - 1);
    }
  }

  /**
   * The score is defined unless the training text is empty and s is not: an
   * empty text has S = 0 and no counts, so the first ratio divides by zero;
   * a non-empty one has S >= 1. An empty s scores 0.
   */
  lemma ScoreDefined(text: string, k: nat, s: string, ln: real -> real)
    ensures Score(text, k, s, ln).Ok? <==> |text| > 0 || |s| == 0
    ensures |s| == 0 ==> Score(text, k, s, ln) == Ok(0.0)
  {
    CharSetSize(text);
    var counts := Counts(text, k);
    if |text| == 0 {
      forall w
        ensures counts(w) == 0
      {
        CountSpec(text, k, w);
      }
    }
    ScoreUpToDefined(counts, |CharSet(text)|, k, s, ln, |s|);
  }

  /**
   * With a non-empty training text every term's denominator N + S is at
   * least 1, so every ratio is defined and positive.
   */
  lemma TermsPositive(text: string, k: nat, s: string, i: nat)
    requires |text| > 0 && i < |s|
    ensures var n := Count(text, k, Window(s, i, k));
      var m := Count(text, k, Window(s, i, k + 1));
      n + |CharSet(text)| >= 1 && Ratio(n, m, |CharSet(text)|) > 0.0
  {
    CharSetSize(text);
  }
}
