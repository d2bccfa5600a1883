/** The novelty reward computed from the nearest-neighbour distances
    (rlax/_src/exploration.py, lines 238-273), over `real`.  The square root is
    a parameter, assumed only to be non-negative on non-negative arguments. */
module Reward {

  /** The numeric parameters of the reward: β, c, ε, ξ and the similarity cap. */
  datatype RewardParams = RewardParams(
    rewardScale: real,
    constant: real,
    epsilon: real,
    clusterDistance: real,
    maxSimilarity: real)

  /** The stability terms are positive, as they are meant to be. */
  predicate ParamsValid(p: RewardParams)
  {
    p.constant > 0.0 && p.epsilon > 0.0
  }

  /** What the model assumes of the square root it is given. */
  ghost predicate SqrtContract(sqrt: real -> real)
  {
    forall x :: 0.0 <= x ==> 0.0 <= sqrt(x)
  }

  /** Sum of a row of reals. */
  function RowSum(row: seq<real>): real
    decreases |row|
  {
    if row == [] then 0.0 else RowSum(row[..|row| - 1]) + row[|row| - 1]
  }

  /** `jnp.sum` of a [M, K] array. */
  function SumAll(m: seq<seq<real>>): real
    decreases |m|
  {
    if m == [] then 0.0 else SumAll(m[..|m| - 1]) + RowSum(m[|m| - 1])
  }

  /** `.size` of a [M, K] array: the number of its entries. */
  function Size(m: seq<seq<real>>): nat
    decreases |m|
  {
    if m == [] then 0 else Size(m[..|m| - 1]) + |m[|m| - 1]|
  }

  lemma MulNonNegative(a: real, b: real)
    requires 0.0 <= a && 0.0 <= b
    ensures 0.0 <= a * b
  {
  }

  lemma MulPositive(a: real, b: real)
    requires 0.0 < a && 0.0 < b
    ensures 0.0 < a * b
  {
  }

  /** Every entry is non-negative (squared distances are). */
  predicate AllNonNegative(m: seq<seq<real>>)
  {
    forall i, j :: 0 <= i < |m| && 0 <= j < |m[i]| ==> 0.0 <= m[i][j]
  }

  lemma {:induction false} RowSumNonNegative(row: seq<real>)
    requires forall j :: 0 <= j < |row| ==> 0.0 <= row[j]
    ensures 0.0 <= RowSum(row)
    decreases |row|
  {
    if row != [] {
      RowSumNonNegative(row[..|row| - 1]);
    }
  }

  /** A sum of squared distances is non-negative, so adding it to
      `distance_sum` never decreases it. */
  lemma {:induction false} SumAllNonNegative(m: seq<seq<real>>)
    requires AllNonNegative(m)
    ensures 0.0 <= SumAll(m)
    decreases |m|
  {
    if m != [] {
      var n := |m| - 1;
      assert AllNonNegative(m[..n]) by {
        forall i, j | 0 <= i < n && 0 <= j < |m[..n][i]| ensures 0.0 <= m[..n][i][j] {
          assert m[..n][i] == m[i];
        }
      }
      SumAllNonNegative(m[..n]);
      RowSumNonNegative(m[n]);
    }
  }

  /** A [M, K] array has M * K entries. */
  lemma {:induction false} SizeOfMatrix(m: seq<seq<real>>, k: nat)
    requires forall i :: 0 <= i < |m| ==> |m[i]| == k
    ensures Size(m) == |m| * k
    decreases |m|
  {
    if m != [] {
      SizeOfMatrix(m[..|m| - 1], k);
    }
  }

  /** An array has no entries exactly when every row is empty. */
  lemma {:induction false} SizeZeroIffEmptyRows(m: seq<seq<real>>)
    ensures Size(m) == 0 <==> forall i :: 0 <= i < |m| ==> |m[i]| == 0
    decreases |m|
  {
    if m != [] {
      var n := |m| - 1;
      SizeZeroIffEmptyRows(m[..n]);
      assert forall i :: 0 <= i < n ==> m[..n][i] == m[i];
    }
  }

  /** `distance_sum / distance_counts` (line 249), defined once a distance has
      been counted. */
  function MeanDistance(sum: real, count: int): real
    requires count > 0
  {
    sum / count as real
  }

  /** Lines 250-254: d / (mean + c), then `max(rate - ξ, 0)`. */
  function ClippedRate(d: real, mean: real, p: RewardParams): (r: real)
    requires mean + p.constant > 0.0
    ensures 0.0 <= r
    ensures d / (mean + p.constant) - p.clusterDistance <= r
    ensures r == 0.0 || r == d / (mean + p.constant) - p.clusterDistance
  {
    var rate := d / (mean + p.constant);
    if rate - p.clusterDistance >= 0.0 then rate - p.clusterDistance else 0.0
  }

  /** The kernel of line 257, ε / (rate + ε). */
  function Kernel(rate: real, epsilon: real): real
    requires 0.0 <= rate && 0.0 < epsilon
  {
    epsilon / (rate + epsilon)
  }

  /** The kernel lies in (0, 1] and reaches 1 exactly at rate 0. */
  lemma KernelBounds(rate: real, epsilon: real)
    requires 0.0 <= rate && 0.0 < epsilon
    ensures 0.0 < Kernel(rate, epsilon) <= 1.0
    ensures Kernel(rate, epsilon) == 1.0 <==> rate == 0.0
  {
    var k := Kernel(rate, epsilon);
    assert k * (rate + epsilon) == epsilon;
  }

  /** A larger rate gives a smaller kernel value. */
  lemma KernelAntitone(r1: real, r2: real, epsilon: real)
    requires 0.0 <= r1 <= r2 && 0.0 < epsilon
    ensures Kernel(r2, epsilon) <= Kernel(r1, epsilon)
  {
    var k1, k2 := Kernel(r1, epsilon), Kernel(r2, epsilon);
    assert k1 * (r1 + epsilon) == epsilon;
    assert k2 * (r2 + epsilon) == epsilon;
    KernelBounds(r2, epsilon);
    MulNonNegative(k2, r2 - r1);
    assert k2 * (r1 + epsilon) <= k2 * (r2 + epsilon);
    if k1 < k2 {
      MulPositive(k2 - k1, r1 + epsilon);
      assert false;
    }
  }

  /** `jnp.sum(kernel_output, axis=-1)` for one embedding's K distances
      (lines 250-261); the mean is formed only when there is a distance. */
  function KernelSum(row: seq<real>, sum: real, count: int, p: RewardParams): (s: real)
    requires ParamsValid(p)
    requires |row| > 0 ==> count > 0 && 0.0 <= sum
    ensures 0.0 <= s <= |row| as real
    ensures |row| > 0 ==> 0.0 < s
    decreases |row|
  {
    if row == [] then 0.0
    else
      var n := |row| - 1;
      var mean := MeanDistance(sum, count);
      var rate := ClippedRate(row[n], mean, p);
      KernelBounds(rate, p.epsilon);
      KernelSum(row[..n], sum, count, p) + Kernel(rate, p.epsilon)
  }

  /** Line 261: s = sqrt(sum of kernels) + c, never below c. */
  function Similarity(row: seq<real>, sum: real, count: int, p: RewardParams, sqrt: real -> real): (s: real)
    requires ParamsValid(p) && SqrtContract(sqrt)
    requires |row| > 0 ==> count > 0 && 0.0 <= sum
    ensures p.constant <= s
  {
    sqrt(KernelSum(row, sum, count, p)) + p.constant
  }

  /** Lines 265-273: 1 / s, zeroed when s exceeds the similarity cap, times β. */
  function GatedReward(similarity: real, p: RewardParams): real
    requires 0.0 < similarity
  {
    (if similarity > p.maxSimilarity then 0.0 else 1.0 / similarity) * p.rewardScale
  }

  /** The reward is 0 above the similarity cap and β / s otherwise; with a
      non-negative β and s >= c > 0 it lies in [0, β / c], and it is 0 exactly
      when the cap is exceeded or β is 0. */
  lemma GatedRewardSpec(similarity: real, p: RewardParams)
    requires ParamsValid(p) && p.constant <= similarity
    ensures similarity > p.maxSimilarity ==> GatedReward(similarity, p) == 0.0
    ensures similarity <= p.maxSimilarity ==> GatedReward(similarity, p) == p.rewardScale / similarity
    ensures 0.0 <= p.rewardScale ==> 0.0 <= GatedReward(similarity, p) <= p.rewardScale / p.constant
    ensures GatedReward(similarity, p) == 0.0 <==> similarity > p.maxSimilarity || p.rewardScale == 0.0
  {
    var inv := 1.0 / similarity;
    assert inv * similarity == 1.0;
    assert 0.0 < inv;
    if 0.0 <= p.rewardScale {
      var bound := p.rewardScale / p.constant;
      assert bound * p.constant == p.rewardScale;
      assert inv * p.constant <= inv * similarity;
      var r := inv * p.rewardScale;
      assert r * p.constant == p.rewardScale * (inv * p.constant);
      MulNonNegative(p.rewardScale, 1.0 - inv * p.constant);
      assert p.rewardScale * (inv * p.constant) <= p.rewardScale;
      if r > bound {
        assert r * p.constant > bound * p.constant;
      }
    }
  }

  /** The reward of every embedding of the batch, from its row of K distances
      and the updated running statistics. */
  function Rewards(dists: seq<seq<real>>, sum: real, count: int, p: RewardParams, sqrt: real -> real): (r: seq<real>)
    requires ParamsValid(p) && SqrtContract(sqrt)
    requires 0.0 <= sum
    requires count > 0 || forall i :: 0 <= i < |dists| ==> |dists[i]| == 0
    ensures |r| == |dists|
  {
    seq(|dists|, i requires 0 <= i < |dists| => GatedReward(Similarity(dists[i], sum, count, p, sqrt), p))
  }

  /** Each reward is the gated reward of its embedding's similarity: 0 when the
      similarity exceeds the cap, and in [0, β / c] when β >= 0. */
  lemma RewardsSpec(dists: seq<seq<real>>, sum: real, count: int, p: RewardParams, sqrt: real -> real, i: int)
    requires ParamsValid(p) && SqrtContract(sqrt)
    requires 0.0 <= sum
    requires count > 0 || forall i :: 0 <= i < |dists| ==> |dists[i]| == 0
    requires 0 <= i < |dists|
    ensures var s := Similarity(dists[i], sum, count, p, sqrt);
      && p.constant <= s
      && (s > p.maxSimilarity ==> Rewards(dists, sum, count, p, sqrt)[i] == 0.0)
      && (s <= p.maxSimilarity ==> Rewards(dists, sum, count, p, sqrt)[i] == p.rewardScale / s)
      && (0.0 <= p.rewardScale ==> 0.0 <= Rewards(dists, sum, count, p, sqrt)[i] <= p.rewardScale / p.constant)
  {
    GatedRewardSpec(Similarity(dists[i], sum, count, p, sqrt), p);
  }
}
