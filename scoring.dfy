/**
 * The per-action statistics of the search tree and the two ways the engine
 * turns them into a choice (src/mcts.rs): the PUCT score with
 * `max_by_key` over `OrderedFloat`, and visit-count probabilities with a
 * cumulative-threshold pick.
 */
module Scoring {
  import opened Float32

  /**
   * `Stats`: N(s, a), the number of times the action was taken; W(s, a),
   * the summed value seen through it; and P(s, a), its prior.
   */
  datatype Stats = Stats(count: nat, totalValue: real, prior: real)

  /** The square root and power functions of the f32 library, on finite operands. */
  datatype MathLib = MathLib(sqrt: real -> real, pow: (nat, real) -> real)

  /** The exploration constant `Nodes::select_action` passes to `puct`. */
  const ExploreFactor: real := 3.0

  /** `Stats::quality`: Q(s, a) = W(s, a) / N(s, a), an f32 division even when N(s, a) is 0. */
  function Quality(s: Stats): Float
  {
    Div(Num(s.totalValue), Num(s.count as real))
  }

  /**
   * An action never taken (count 0, total 0) has quality 0/0, i.e. NaN; a
   * taken one has the mean of its values.
   */
  lemma QualityCases(s: Stats)
    ensures s.count == 0 && s.totalValue == 0.0 ==> Quality(s).NaN?
    ensures s.count > 0 ==> Quality(s) == Num(s.totalValue / s.count as real)
  {
  }

  /** The f32 `sum` of the first `n` qualities, from 0 onwards. */
  function QualitySum(stats: seq<Stats>, n: nat): Float
    requires n <= |stats|
  {
    if n == 0 then Num(0.0) else Add(QualitySum(stats, n - 1), Quality(stats[n - 1]))
  }

  /** The exact sum of the first `n` mean values, when every one of those actions was taken. */
  function SumOfMeans(stats: seq<Stats>, n: nat): real
    requires n <= |stats| && forall k :: 0 <= k < n ==> stats[k].count > 0
  {
    if n == 0 then 0.0 else SumOfMeans(stats, n - 1) + stats[n - 1].totalValue / stats[n - 1].count as real
  }

  /** `ActionMap<Stats>::quality`: the f32 sum of the qualities over the number of actions. */
  function MeanQuality(stats: seq<Stats>): Float
  {
    Div(QualitySum(stats, |stats|), Num(|stats| as real))
  }

  /**
   * One action never taken makes the whole sum NaN; when every action was
   * taken, the sum is the exact sum of their means.
   */
  lemma {:induction false} QualitySumCases(stats: seq<Stats>, n: nat)
    requires n <= |stats|
    ensures (exists k :: 0 <= k < n && stats[k].count == 0 && stats[k].totalValue == 0.0) ==> QualitySum(stats, n).NaN?
    ensures (forall k :: 0 <= k < n ==> stats[k].count > 0) ==> QualitySum(stats, n) == Num(SumOfMeans(stats, n))
  {
    if n > 0 {
      QualitySumCases(stats, n - 1);
      QualityCases(stats[n - 1]);
    }
  }

  /**
   * The mean quality of a node is NaN when it has no action or one never
   * taken, and the mean of its actions' means when all were taken.
   */
  lemma MeanQualityCases(stats: seq<Stats>)
    ensures |stats| == 0 ==> MeanQuality(stats).NaN?
    ensures (exists k :: 0 <= k < |stats| && stats[k].count == 0 && stats[k].totalValue == 0.0) ==> MeanQuality(stats).NaN?
    ensures |stats| > 0 && (forall k :: 0 <= k < |stats| ==> stats[k].count > 0) ==>
      MeanQuality(stats) == Num(SumOfMeans(stats, |stats|) / |stats| as real)
  {
    QualitySumCases(stats, |stats|);
  }

  /** `Stats::puct`: Q(s, a) + c * P(s, a) * sqrt(N(s)) / (1 + N(s, a)). */
  function Puct(s: Stats, visitCount: nat, explore: real, sqrt: real -> real): Float
  {
    Add(Quality(s), Num(explore * s.prior * sqrt(visitCount as real) / (1.0 + s.count as real)))
  }

  /**
   * The PUCT score of an action never taken is NaN, whatever the exploration
   * term, so `OrderedFloat` puts it above every score; a taken action scores
   * its mean value plus the exploration term.
   */
  lemma PuctCases(s: Stats, visitCount: nat, explore: real, sqrt: real -> real)
    ensures s.count == 0 && s.totalValue == 0.0 ==>
      Puct(s, visitCount, explore, sqrt).NaN? &&
      forall f :: AtMost(f, Puct(s, visitCount, explore, sqrt))
    ensures s.count > 0 ==> (Puct(s, visitCount, explore, sqrt) ==
      Num(s.totalValue / s.count as real + explore * s.prior * sqrt(visitCount as real) / (1.0 + s.count as real)))
  {
    QualityCases(s);
  }

  /** The PUCT score of every action, in action order. */
  function PuctScores(stats: seq<Stats>, visitCount: nat, explore: real, sqrt: real -> real): (scores: seq<Float>)
    ensures |scores| == |stats|
    ensures forall k :: 0 <= k < |stats| ==> scores[k] == Puct(stats[k], visitCount, explore, sqrt)
  {
    seq(|stats|, k requires 0 <= k < |stats| => Puct(stats[k], visitCount, explore, sqrt))
  }

  /**
   * `i` is where `max_by_key` over `OrderedFloat` stops: no score is above
   * the one at `i`, and every later score is strictly below it (ties go to
   * the last).
   */
  predicate IsLastMax(scores: seq<Float>, i: nat)
  {
    i < |scores| &&
    (forall k :: 0 <= k < |scores| ==> AtMost(scores[k], scores[i])) &&
    (forall k :: i < k < |scores| ==> !AtMost(scores[i], scores[k]))
  }

  /**
   * The index `max_by_key` returns: a left fold that replaces the best so
   * far by each element at least as large.
   */
  function LastMax(scores: seq<Float>): (i: nat)
    requires |scores| > 0
    ensures i < |scores|
    decreases |scores|
  {
    if |scores| == 1 then 0
    else
      var best := LastMax(scores[..|scores| - 1]);
      if AtMost(scores[best], scores[|scores| - 1]) then |scores| - 1 else best
  }

  /** One more score in the fold: it takes the place of the best so far when it is at least as large. */
  lemma LastMaxStep(scores: seq<Float>, k: nat)
    requires 0 < k < |scores|
    ensures LastMax(scores[..k + 1]) ==
      if AtMost(scores[LastMax(scores[..k])], scores[k]) then k else LastMax(scores[..k])
  {
    assert scores[..k + 1][..k] == scores[..k];
  }

  /** The fold does find the last maximal score. */
  lemma {:induction false} LastMaxIsLastMax(scores: seq<Float>)
    requires |scores| > 0
    ensures IsLastMax(scores, LastMax(scores))
    decreases |scores|
  {
    if |scores| > 1 {
      var front := scores[..|scores| - 1];
      var last := scores[|scores| - 1];
      var best := LastMax(front);
      LastMaxIsLastMax(front);
      forall k | 0 <= k < |scores|
        ensures AtMost(scores[k], scores[LastMax(scores)])
      {
        OrderedFloatIsTotalPreorder(scores[k], scores[best], last);
        OrderedFloatIsTotalPreorder(last, scores[best], last);
      }
      forall k | LastMax(scores) < k < |scores|
        ensures !AtMost(scores[LastMax(scores)], scores[k])
      {
        assert k < |front| ==> scores[k] == front[k];
        OrderedFloatIsTotalPreorder(scores[best], last, last);
      }
    }
  }

  /** There is only one last maximal score, so the fold's answer is the only one. */
  lemma LastMaxIsUnique(scores: seq<Float>, i: nat)
    requires IsLastMax(scores, i)
    ensures i == LastMax(scores)
  {
    LastMaxIsLastMax(scores);
  }

  /**
   * When some action has a NaN score, the choice is the last such action:
   * its score is NaN and no later score is.
   */
  lemma LastMaxPrefersNaN(scores: seq<Float>, k: nat)
    requires k < |scores| && scores[k].NaN?
    ensures scores[LastMax(scores)].NaN?
    ensures k <= LastMax(scores)
    ensures forall l :: LastMax(scores) < l < |scores| ==> !scores[l].NaN?
  {
    LastMaxIsLastMax(scores);
    var i := LastMax(scores);
    OrderedFloatIsTotalPreorder(scores[k], scores[i], scores[i]);
    forall l | i < l < |scores|
      ensures !scores[l].NaN?
    {
      OrderedFloatIsTotalPreorder(scores[i], scores[l], scores[l]);
    }
  }

  /**
   * `probability_iter`: for each action, N(s, a)^(1/T) / N(s)^(1/T), with
   * f32 `powf` and division.
   */
  function ProbabilityIter(stats: seq<Stats>, visitCount: nat, temperature: Float, pow: (nat, real) -> real): (probs: seq<Float>)
    ensures |probs| == |stats|
  {
    var denom := PowF(visitCount, Reciprocal(temperature), pow);
    seq(|stats|, k requires 0 <= k < |stats| => Div(PowF(stats[k].count, Reciprocal(temperature), pow), denom))
  }

  /**
   * At a node never visited, whose actions were never taken, every
   * probability is NaN, except at an infinite temperature, where every
   * probability is 0^0 / 0^0 = 1.
   */
  lemma UnvisitedProbabilities(stats: seq<Stats>, temperature: Float, pow: (nat, real) -> real)
    requires forall k :: 0 <= k < |stats| ==> stats[k].count == 0
    ensures !temperature.Inf? ==> forall k :: 0 <= k < |stats| ==> ProbabilityIter(stats, 0, temperature, pow)[k].NaN?
    ensures temperature.Inf? ==> forall k :: 0 <= k < |stats| ==> ProbabilityIter(stats, 0, temperature, pow)[k] == Num(1.0)
  {
    ZeroPowerOverItself(temperature, pow);
  }

  /**
   * With a positive finite temperature and a visited node, an action never
   * taken gets probability 0 (the library's power of a count of two or more
   * is positive).
   */
  lemma VisitedProbabilities(stats: seq<Stats>, visitCount: nat, temperature: Float, pow: (nat, real) -> real)
    requires visitCount > 0 && temperature.Num? && temperature.value > 0.0
    requires visitCount >= 2 ==> pow(visitCount, 1.0 / temperature.value) > 0.0
    ensures forall k :: 0 <= k < |stats| && stats[k].count == 0 ==>
      ProbabilityIter(stats, visitCount, temperature, pow)[k] == Num(0.0)
  {
    assert Reciprocal(temperature) == Num(1.0 / temperature.value) && 1.0 / temperature.value > 0.0;
  }

  /** The running f32 sum `p` after the first `n` probabilities have been added to 0. */
  function RunningSum(probs: seq<Float>, n: nat): Float
    requires n <= |probs|
  {
    if n == 0 then Num(0.0) else Add(RunningSum(probs, n - 1), probs[n - 1])
  }

  /** The running sum, once the probability at position `j` has been added, is at least the draw `r`. */
  predicate Reached(probs: seq<Float>, r: real, j: nat)
  {
    j < |probs| && GreaterOrEqual(RunningSum(probs, j + 1), Num(r))
  }

  /**
   * `find_or_last` from position `k`: the first position whose running sum
   * reaches `r`, or the last position when none does.
   */
  function FindFrom(probs: seq<Float>, r: real, k: nat): (i: nat)
    requires 0 < |probs| && k <= |probs|
    ensures k <= i < |probs| || (k == |probs| && i == |probs| - 1)
    decreases |probs| - k
  {
    if k == |probs| then |probs| - 1
    else if Reached(probs, r, k) then k
    else FindFrom(probs, r, k + 1)
  }

  /**
   * One more probability in the running sum: the search stops at `k` when
   * the new sum reaches the draw, and goes on from `k + 1` otherwise.
   */
  lemma FindFromStep(probs: seq<Float>, r: real, k: nat)
    requires k < |probs|
    ensures RunningSum(probs, k + 1) == Add(RunningSum(probs, k), probs[k])
    ensures GreaterOrEqual(RunningSum(probs, k + 1), Num(r)) ==> FindFrom(probs, r, k) == k
    ensures !GreaterOrEqual(RunningSum(probs, k + 1), Num(r)) ==> FindFrom(probs, r, k) == FindFrom(probs, r, k + 1)
  {
  }

  /** The action `sample_action` picks for the draw `r`. */
  function FindOrLast(probs: seq<Float>, r: real): nat
    requires |probs| > 0
  {
    FindFrom(probs, r, 0)
  }

  /**
   * `find_or_last` with the closure of `sample_action`: add each
   * probability to the running sum `p`, stop at the first position where
   * `p >= r`, or give the last position when none is.
   */
  method FindOrLastReached(probs: seq<Float>, r: real) returns (i: nat)
    requires |probs| > 0
    ensures i == FindOrLast(probs, r)
  {
    var p := Num(0.0);
    var k := 0;
    while k < |probs|
      invariant 0 <= k <= |probs|
      invariant p == RunningSum(probs, k)
      invariant FindOrLast(probs, r) == FindFrom(probs, r, k)
    {
      FindFromStep(probs, r, k);
      p := Add(p, probs[k]);
      if GreaterOrEqual(p, Num(r)) {
        return k;
      }
      k := k + 1;
    }
    i := |probs| - 1;
  }

  /**
   * The pick is the first position whose running sum reaches the draw; when
   * no running sum does, it is the last position.
   */
  lemma {:induction false} FindOrLastIsFirstReached(probs: seq<Float>, r: real, k: nat)
    requires 0 < |probs| && k <= |probs|
    requires forall j :: 0 <= j < k ==> !Reached(probs, r, j)
    ensures var i := FindFrom(probs, r, k);
      i < |probs| &&
      (forall j :: 0 <= j < i ==> !Reached(probs, r, j)) &&
      (Reached(probs, r, i) || (i == |probs| - 1 && forall j :: 0 <= j < |probs| ==> !Reached(probs, r, j)))
    decreases |probs| - k
  {
    if k < |probs| && !Reached(probs, r, k) {
      FindOrLastIsFirstReached(probs, r, k + 1);
    }
  }

  /** Once a NaN probability has been added, the running sum stays NaN. */
  lemma {:induction false} RunningSumAfterNaN(probs: seq<Float>, n: nat)
    requires 0 < n <= |probs|
    requires forall k :: 0 <= k < |probs| ==> probs[k].NaN?
    ensures RunningSum(probs, n).NaN?
  {
  }

  /** When every probability is NaN no running sum reaches the draw, and the last action is picked. */
  lemma AllNaNPicksLast(probs: seq<Float>, r: real)
    requires |probs| > 0
    requires forall k :: 0 <= k < |probs| ==> probs[k].NaN?
    ensures FindOrLast(probs, r) == |probs| - 1
  {
    forall j | 0 <= j < |probs|
      ensures !Reached(probs, r, j)
    {
      RunningSumAfterNaN(probs, j + 1);
    }
    FindOrLastIsFirstReached(probs, r, 0);
  }

  /** When the first probability is 1, a draw of at most 1 is reached at once and the first action is picked. */
  lemma FirstOnePicksFirst(probs: seq<Float>, r: real)
    requires |probs| > 0 && probs[0] == Num(1.0) && r <= 1.0
    ensures FindOrLast(probs, r) == 0
  {
    FindFromStep(probs, r, 0);
  }

  /** The sum of the counts of a node's actions. */
  function SumCounts(stats: seq<Stats>): nat
  {
    if |stats| == 0 then 0 else SumCounts(stats[..|stats| - 1]) + stats[|stats| - 1].count
  }

  /** The counts sum to 0 exactly when every count is 0. */
  lemma {:induction false} SumCountsZero(stats: seq<Stats>)
    ensures SumCounts(stats) == 0 <==> forall k :: 0 <= k < |stats| ==> stats[k].count == 0
  {
    if |stats| > 0 {
      SumCountsZero(stats[..|stats| - 1]);
      assert forall k :: 0 <= k < |stats| - 1 ==> stats[..|stats| - 1][k] == stats[k];
    }
  }

  /** Taking one action once more raises the sum of the counts by one. */
  lemma {:induction false} SumCountsIncrement(stats: seq<Stats>, a: nat, s: Stats)
    requires a < |stats| && s.count == stats[a].count + 1
    ensures SumCounts(stats[a := s]) == SumCounts(stats) + 1
    decreases |stats|
  {
    var n := |stats| - 1;
    if a < n {
      assert stats[a := s][..n] == stats[..n][a := s];
      SumCountsIncrement(stats[..n], a, s);
    } else {
      assert stats[a := s][..n] == stats[..n];
    }
  }
}
