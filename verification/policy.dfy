/**
 * The epsilon-greedy policy of the taxi agent, as pure functions over one row
 * of the action-value table: the first-maximum argmax (numpy's `argmax`),
 * the policy's probability vector (`get_probs`) and the expectation of the
 * row's values under that vector (`sum(probs * Q_state)`).
 *
 * Values are exact reals: every sum below is exact, with no rounding.
 */
module EpsilonGreedy {

  /** The vector of length `n` whose every entry is `c` (`c * np.ones(n)`). */
  function Const(n: nat, c: real): (r: seq<real>)
    ensures |r| == n
    ensures forall i :: 0 <= i < n ==> r[i] == c
  {
    seq(n, _ => c)
  }

  /** The probability every action gets for exploration: `eps / nA`. */
  function BaseProb(n: nat, eps: real): (b: real)
    requires n > 0
  {
    eps / n as real
  }

  /** The sum of a vector, taken from the front. */
  function Sum(s: seq<real>): (r: real)
  {
    if s == [] then 0.0 else s[0] + Sum(s[1..])
  }

  /** The inner product of two vectors of equal length, `sum(p * q)`. */
  function Dot(p: seq<real>, q: seq<real>): (r: real)
    requires |p| == |q|
  {
    if p == [] then 0.0 else p[0] * q[0] + Dot(p[1..], q[1..])
  }

  /** `k` indexes a maximum of `q`, and no earlier entry reaches that maximum. */
  ghost predicate IsFirstMax(q: seq<real>, k: int)
  {
    && 0 <= k < |q|
    && (forall j :: 0 <= j < |q| ==> q[j] <= q[k])
    && (forall j :: 0 <= j < k ==> q[j] < q[k])
  }

  /**
   * numpy's `argmax`: the index of the largest entry, ties going to the
   * lowest index. numpy raises on an empty vector, hence the requires.
   */
  function ArgMax(q: seq<real>): (k: nat)
    requires |q| > 0
    ensures IsFirstMax(q, k)
  {
    FirstMaxFrom(q, 1, 0)
  }

  /**
   * The scan behind `ArgMax`: `best` is the first maximum of `q[..i]`; the
   * scan moves on only to a strictly larger entry, so earlier ties win.
   */
  function FirstMaxFrom(q: seq<real>, i: nat, best: nat): (k: nat)
    requires best < i <= |q| && IsFirstMax(q[..i], best)
    ensures IsFirstMax(q, k)
    decreases |q| - i
  {
    if i == |q| then
      assert q[..i] == q;
      best
    else
      FirstMaxFrom(q, i + 1, if q[i] > q[best] then i else best)
  }

  /** The first maximum is unique, so `ArgMax` is the only index with that property. */
  lemma {:induction false} ArgMaxIsTheFirstMax(q: seq<real>, k: int)
    requires |q| > 0
    ensures IsFirstMax(q, k) <==> k == ArgMax(q)
  {
  }

  /**
   * The epsilon-greedy distribution over `n` actions that favours action `k`:
   * every action gets `eps / n`, and `k` gets `1 - eps` on top.
   */
  function Greedy(n: nat, eps: real, k: nat): (p: seq<real>)
    requires k < n
    ensures |p| == n
  {
    Const(n, BaseProb(n, eps))[k := BaseProb(n, eps) + (1.0 - eps)]
  }

  /** `get_probs`: the epsilon-greedy distribution favouring the first maximum of the row. */
  function Probs(q: seq<real>, eps: real): (p: seq<real>)
    requires |q| > 0
    ensures |p| == |q|
    ensures p[ArgMax(q)] == BaseProb(|q|, eps) + (1.0 - eps)
    ensures forall i :: 0 <= i < |p| && i != ArgMax(q) ==> p[i] == BaseProb(|q|, eps)
  {
    Greedy(|q|, eps, ArgMax(q))
  }

  /** The expected value of a row under the epsilon-greedy policy derived from it. */
  function ExpectedValue(q: seq<real>, eps: real): (v: real)
    requires |q| > 0
  {
    Dot(Probs(q, eps), q)
  }

  lemma {:induction false} SumConst(n: nat, c: real)
    ensures Sum(Const(n, c)) == n as real * c
  {
    if n > 0 {
      assert Const(n, c)[1..] == Const(n - 1, c);
      SumConst(n - 1, c);
    }
  }

  /** Adding `d` to one entry adds `d` to the sum. */
  lemma {:induction false} SumBump(s: seq<real>, k: nat, d: real)
    requires k < |s|
    ensures Sum(s[k := s[k] + d]) == Sum(s) + d
  {
    if k == 0 {
      assert s[k := s[k] + d][1..] == s[1..];
    } else {
      assert s[k := s[k] + d][1..] == s[1..][k - 1 := s[k] + d];
      SumBump(s[1..], k - 1, d);
    }
  }

  /** A sum of entries that are all at most `m` is at most `|s| * m`. */
  lemma {:induction false} SumAtMost(s: seq<real>, m: real)
    requires forall i :: 0 <= i < |s| ==> s[i] <= m
    ensures Sum(s) <= |s| as real * m
  {
    if s != [] {
      SumAtMost(s[1..], m);
    }
  }

  lemma {:induction false} DotConst(c: real, q: seq<real>)
    ensures Dot(Const(|q|, c), q) == c * Sum(q)
  {
    if q != [] {
      assert Const(|q|, c)[1..] == Const(|q| - 1, c);
      DotConst(c, q[1..]);
    }
  }

  /** Adding `d` to one weight adds `d` times the matching value to the inner product. */
  lemma {:induction false} DotBump(p: seq<real>, q: seq<real>, k: nat, d: real)
    requires |p| == |q| && k < |p|
    ensures Dot(p[k := p[k] + d], q) == Dot(p, q) + d * q[k]
  {
    if k == 0 {
      assert p[k := p[k] + d][1..] == p[1..];
    } else {
      assert p[k := p[k] + d][1..] == p[1..][k - 1 := p[k] + d];
      DotBump(p[1..], q[1..], k - 1, d);
    }
  }

  /** The weights of an epsilon-greedy distribution sum to exactly 1, whatever `eps` is. */
  lemma {:induction false} GreedySumToOne(n: nat, eps: real, k: nat)
    requires k < n
    ensures Sum(Greedy(n, eps, k)) == 1.0
  {
    var b := BaseProb(n, eps);
    SumBump(Const(n, b), k, 1.0 - eps);
    SumConst(n, b);
    assert n as real * b == eps;
  }

  /** `get_probs` always returns weights that sum to exactly 1. */
  lemma {:induction false} ProbsSumToOne(q: seq<real>, eps: real)
    requires |q| > 0
    ensures Sum(Probs(q, eps)) == 1.0
  {
    GreedySumToOne(|q|, eps, ArgMax(q));
  }

  /**
   * For `0 <= eps <= 1` the vector is a probability distribution in which
   * every action keeps at least `eps / nA`.
   */
  lemma {:induction false} ProbsIsDistribution(q: seq<real>, eps: real)
    requires |q| > 0 && 0.0 <= eps <= 1.0
    ensures forall i :: 0 <= i < |q| ==> 0.0 <= BaseProb(|q|, eps) <= Probs(q, eps)[i] <= 1.0
    ensures Sum(Probs(q, eps)) == 1.0
  {
    var n, b := |q| as real, BaseProb(|q|, eps);
    assert b * n == eps;
    assert 0.0 <= b;
    assert b <= eps by {
      assert n >= 1.0;
      assert b * (n - 1.0) >= 0.0;
    }
    ProbsSumToOne(q, eps);
  }

  /**
   * Under the distribution favouring `k`, the expectation of `q` is the sum of
   * its values weighted by `eps / n` plus `q[k]` weighted by `1 - eps`.
   */
  lemma {:induction false} GreedyExpectation(q: seq<real>, eps: real, k: nat)
    requires k < |q|
    ensures Dot(Greedy(|q|, eps, k), q) == BaseProb(|q|, eps) * Sum(q) + (1.0 - eps) * q[k]
  {
    var b := BaseProb(|q|, eps);
    DotBump(Const(|q|, b), q, k, 1.0 - eps);
    DotConst(b, q);
  }

  /**
   * The expectation splits into the exploring part (the sum of the values
   * weighted by `eps / nA`) and the greedy part (the maximum weighted by `1 - eps`).
   */
  lemma {:induction false} ExpectedValueFormula(q: seq<real>, eps: real)
    requires |q| > 0
    ensures ExpectedValue(q, eps) == BaseProb(|q|, eps) * Sum(q) + (1.0 - eps) * q[ArgMax(q)]
  {
    GreedyExpectation(q, eps, ArgMax(q));
  }

  /** A fresh (all-zero) row has expected value 0 under any policy parameter. */
  lemma {:induction false} ExpectedValueOfZeros(n: nat, eps: real)
    requires n > 0
    ensures ExpectedValue(Const(n, 0.0), eps) == 0.0
  {
    ExpectedValueFormula(Const(n, 0.0), eps);
    SumConst(n, 0.0);
  }

  /** With `eps = 0` the policy is greedy and the expectation is the maximum. */
  lemma {:induction false} GreedyExpectedValueIsMax(q: seq<real>)
    requires |q| > 0
    ensures ExpectedValue(q, 0.0) == q[ArgMax(q)]
  {
    ExpectedValueFormula(q, 0.0);
  }

  /** For `0 <= eps <= 1` the expectation lies between the row's mean and its maximum. */
  lemma {:induction false} ExpectedValueBetweenMeanAndMax(q: seq<real>, eps: real)
    requires |q| > 0 && 0.0 <= eps <= 1.0
    ensures Sum(q) / |q| as real <= ExpectedValue(q, eps) <= q[ArgMax(q)]
  {
    ExpectedValueFormula(q, eps);
    SumAtMost(q, q[ArgMax(q)]);
    MixtureBounds(Sum(q), |q| as real, q[ArgMax(q)], eps);
  }

  /** Arithmetic behind the bounds above: with `s <= n * m`, mixing `s / n` and `m` stays between them. */
  lemma MixtureBounds(s: real, n: real, m: real, eps: real)
    requires n >= 1.0 && s <= n * m && 0.0 <= eps <= 1.0
    ensures s / n <= eps / n * s + (1.0 - eps) * m <= m
  {
    var mean := s / n;
    assert mean * n == s;
    assert mean <= m;
    assert eps / n * s == eps * mean;
    assert eps / n * s + (1.0 - eps) * m - mean == (1.0 - eps) * (m - mean);
    assert m - (eps / n * s + (1.0 - eps) * m) == eps * (m - mean);
  }
}
