/** The accuracy helpers of utils.py: the share of positions where the
    predictions equal the ground truth, before and after a normalisation
    that lower-cases the text and collapses its whitespace. */
module Accuracy {
  import opened PyStr

  /** `sum(1 for p, g in zip(predictions, ground_truth) if p == g)` on lists
      of equal length. */
  function CountEqual(p: seq<string>, g: seq<string>): (r: nat)
    requires |p| == |g|
    ensures r <= |p|
    decreases |p|
  {
    if |p| == 0 then 0
    else (if p[0] == g[0] then 1 else 0) + CountEqual(p[1..], g[1..])
  }

  /** Every position counts exactly when the lists agree everywhere. */
  lemma {:induction false} CountEqualAll(p: seq<string>, g: seq<string>)
    requires |p| == |g|
    ensures CountEqual(p, g) == |p| <==> forall i | 0 <= i < |p| :: p[i] == g[i]
    decreases |p|
  {
    if |p| > 0 {
      CountEqualAll(p[1..], g[1..]);
      assert forall i | 1 <= i < |p| :: p[i] == p[1..][i - 1] && g[i] == g[1..][i - 1];
    }
  }

  /** No position counts exactly when the lists differ everywhere. */
  lemma {:induction false} CountEqualNone(p: seq<string>, g: seq<string>)
    requires |p| == |g|
    ensures CountEqual(p, g) == 0 <==> forall i | 0 <= i < |p| :: p[i] != g[i]
    decreases |p|
  {
    if |p| > 0 {
      CountEqualNone(p[1..], g[1..]);
      assert forall i | 1 <= i < |p| :: p[i] == p[1..][i - 1] && g[i] == g[1..][i - 1];
    }
  }

  /** Appending one pair of entries adds one exactly when they agree: with
      the empty lists counting zero, this pins the count of every pair of
      lists. */
  lemma {:induction false} CountEqualAppend(p: seq<string>, g: seq<string>, x: string, y: string)
    requires |p| == |g|
    ensures CountEqual(p + [x], g + [y]) == CountEqual(p, g) + (if x == y then 1 else 0)
    decreases |p|
  {
    if |p| == 0 {
      assert p + [x] == [x] && g + [y] == [y];
      assert CountEqual([x][1..], [y][1..]) == 0;
    } else {
      assert (p + [x])[1..] == p[1..] + [x];
      assert (g + [y])[1..] == g[1..] + [y];
      CountEqualAppend(p[1..], g[1..], x, y);
    }
  }

  /** Counting is monotone: a pair of lists that agrees wherever another pair
      agrees counts at least as many positions. */
  lemma {:induction false} CountEqualMono(p: seq<string>, g: seq<string>, p': seq<string>, g': seq<string>)
    requires |p| == |g| == |p'| == |g'|
    requires forall i | 0 <= i < |p| :: p[i] == g[i] ==> p'[i] == g'[i]
    ensures CountEqual(p, g) <= CountEqual(p', g')
    decreases |p|
  {
    if |p| > 0 {
      assert p[0] == g[0] ==> p'[0] == g'[0];
      assert forall i | 0 <= i < |p| - 1 ::
        (p[1..][i] == p[i + 1] && g[1..][i] == g[i + 1] && p'[1..][i] == p'[i + 1] && g'[1..][i] == g'[i + 1]);
      CountEqualMono(p[1..], g[1..], p'[1..], g'[1..]);
    }
  }

  /** `calculate_accuracy`: zero for lists of different lengths and for
      empty lists, otherwise the share of equal positions. Python's float
      division is exact division here. */
  function CalculateAccuracy(p: seq<string>, g: seq<string>): (r: real)
    ensures 0.0 <= r <= 1.0
    ensures |p| != |g| || |p| == 0 ==> r == 0.0
    ensures |p| == |g| && |p| > 0 ==> r * (|p| as real) == CountEqual(p, g) as real
  {
    if |p| != |g| then 0.0
    else if |p| == 0 then 0.0
    else (CountEqual(p, g) as real) / (|p| as real)
  }

  /** The accuracy is one exactly for two equal, non-empty lists, and zero
      exactly when nothing can be compared or no position agrees. */
  lemma AccuracyBounds(p: seq<string>, g: seq<string>)
    ensures CalculateAccuracy(p, g) == 1.0 <==> |p| > 0 && p == g
    ensures CalculateAccuracy(p, g) == 0.0 <==>
      |p| != |g| || forall i | 0 <= i < |p| :: p[i] != g[i]
  {
    if |p| == |g| {
      CountEqualAll(p, g);
      CountEqualNone(p, g);
      if |p| > 0 && CalculateAccuracy(p, g) == 1.0 {
        assert p == g;
      }
    }
  }

  /** `normalize_text` of utils.py: empty text stays empty, anything else is
      lower-cased and its whitespace collapsed. */
  function NormalizeText(s: string): (r: string)
    ensures |s| == 0 ==> r == ""
  {
    if |s| == 0 then "" else Collapse(Lower(s))
  }

  /** The early return for empty text changes nothing: the general branch
      gives the empty string too. */
  lemma NormalizeTextGuard(s: string)
    ensures NormalizeText(s) == Collapse(Lower(s))
  {
    if |s| == 0 {
      assert Lower(s) == "";
      SplitEmpty("");
    }
  }

  /** The normal form has no upper-case letter, is in collapsed shape, and
      keeps the lower-cased words. */
  lemma NormalizeTextShape(s: string)
    ensures NoUpper(NormalizeText(s))
    ensures IsNormalized(NormalizeText(s))
    ensures Split(NormalizeText(s)) == Split(Lower(s))
  {
    NormalizeTextGuard(s);
    LowerShape(s);
    CollapseNoUpper(Lower(s));
    CollapseNormalized(Lower(s));
  }

  /** Normalising twice is normalising once. */
  lemma NormalizeTextIdempotent(s: string)
    ensures NormalizeText(NormalizeText(s)) == NormalizeText(s)
  {
    var r := NormalizeText(s);
    NormalizeTextShape(s);
    LowerShape(r);
    NormalizeTextGuard(r);
    NormalizeTextGuard(s);
    CollapseIdempotent(Lower(s));
  }

  /** Two texts have the same normal form exactly when their lower-cased
      words agree. */
  lemma NormalizeTextEqual(a: string, b: string)
    ensures NormalizeText(a) == NormalizeText(b) <==> Split(Lower(a)) == Split(Lower(b))
  {
    NormalizeTextShape(a);
    NormalizeTextShape(b);
    NormalizeTextGuard(a);
    NormalizeTextGuard(b);
  }

  function NormalizeAll(ts: seq<string>): (r: seq<string>)
    ensures |r| == |ts|
    ensures forall i | 0 <= i < |ts| :: r[i] == NormalizeText(ts[i])
  {
    seq(|ts|, i requires 0 <= i < |ts| => NormalizeText(ts[i]))
  }

  /** `calculate_accuracy_normalized`. */
  function CalculateAccuracyNormalized(p: seq<string>, g: seq<string>): (r: real)
    ensures 0.0 <= r <= 1.0
    ensures |p| != |g| || |p| == 0 ==> r == 0.0
  {
    if |p| != |g| then 0.0
    else CalculateAccuracy(NormalizeAll(p), NormalizeAll(g))
  }

  /** Normalising can only turn a mismatch into a match, never the
      reverse, so the normalised accuracy is never lower. */
  lemma NormalizedNotLower(p: seq<string>, g: seq<string>)
    ensures CalculateAccuracy(p, g) <= CalculateAccuracyNormalized(p, g)
  {
    if |p| == |g| && |p| > 0 {
      var np := NormalizeAll(p);
      var ng := NormalizeAll(g);
      CountEqualMono(p, g, np, ng);
      DivideMono(CountEqual(p, g) as real, CountEqual(np, ng) as real, |p| as real);
    }
  }

  lemma DivideMono(a: real, b: real, n: real)
    requires a <= b && n > 0.0
    ensures a / n <= b / n
  {
    assert b / n - a / n == (b - a) / n;
  }

  /** On texts already in normal form both accuracies agree. */
  lemma NormalizedOnNormalForms(p: seq<string>, g: seq<string>)
    requires forall i | 0 <= i < |p| :: NormalizeText(p[i]) == p[i]
    requires forall i | 0 <= i < |g| :: NormalizeText(g[i]) == g[i]
    ensures CalculateAccuracyNormalized(p, g) == CalculateAccuracy(p, g)
  {
    if |p| == |g| {
      assert NormalizeAll(p) == p;
      assert NormalizeAll(g) == g;
    }
  }
}
