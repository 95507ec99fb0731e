/**
 Counting the words of Lemire's rejection sampling, arkhe-rand/src/range.rs: every result below
 n comes from the same number of words.
 */
module Lemire {

  /** The rejection threshold: `n.wrapping_neg() % n` in arithmetic modulo W. */
  function Threshold(W: nat, n: nat): nat
    requires 0 < n <= W
  {
    (W - n) % n
  }

  /** The test on the low half of the widened product. */
  predicate Accepted(W: nat, n: nat, x: nat)
    requires 0 < n <= W
  {
    var low := (x * n) % W;
    !(low < n && low < Threshold(W, n))
  }

  /** The high half of the widened product: the sample. */
  function Sample(W: nat, n: nat, x: nat): (r: nat)
    requires 0 < n <= W
  {
    (x * n) / W
  }

  // ------------------------------------------------------------------ counting

  /** The words below W that yield the sample r. */
  ghost function WordsFor(W: nat, n: nat, r: nat): set<nat>
    requires 0 < n <= W
  {
    set x: nat | x < W && Accepted(W, n, x) && Sample(W, n, x) == r
  }

  ghost function RejectedWords(W: nat, n: nat): set<nat>
    requires 0 < n <= W
  {
    set x: nat | x < W && !Accepted(W, n, x)
  }

  predicate Within(x: nat, lo: nat, k: nat) {
    lo <= x < lo + k
  }

  ghost function Interval(lo: nat, k: nat): set<nat> {
    set x: nat | x < lo + k && Within(x, lo, k)
  }

  lemma {:induction false} IntervalSize(lo: nat, k: nat)
    ensures |Interval(lo, k)| == k
  {
    if k > 0 {
      IntervalSize(lo, k - 1);
      assert Interval(lo, k) == Interval(lo, k - 1) + {lo + k - 1};
    }
  }

  lemma ThresholdIsRemainder(W: nat, n: nat)
    requires 0 < n <= W
    ensures Threshold(W, n) == W % n < n
    ensures W == n * (W / n) + W % n
  {
    var q, t := (W - n) / n, (W - n) % n;
    assert W == (q + 1) * n + t;
    DivisionUnique(W, n, q + 1, t);
  }

  lemma MulMonotone(a: int, b: int, c: nat)
    requires a <= b
    ensures a * c <= b * c
  {}

  lemma DivisionUnique(a: int, n: int, q: int, r: int)
    requires n > 0 && a == q * n + r && 0 <= r < n
    ensures a / n == q && a % n == r
  {
    var q', r' := a / n, a % n;
    assert a == q' * n + r';
    if q' > q {
      MulMonotone(q + 1, q', n);
    } else if q' < q {
      MulMonotone(q' + 1, q, n);
    }
  }

  /** x is a word for r exactly when x * n lies in one window of length n * (W / n). */
  lemma WindowOf(W: nat, n: nat, r: nat, x: nat)
    requires 0 < n <= W && r < n
    ensures x < W && Accepted(W, n, x) && Sample(W, n, x) == r
        <==> r * W + W % n <= x * n < r * W + W
  {
    ThresholdIsRemainder(W, n);
    var p := x * n;
    var hi, low := p / W, p % W;
    assert p == hi * W + low;
    if r * W + W % n <= p < r * W + W {
      DivisionUnique(p, W, r, p - r * W);
      if x >= W {
        MulMonotone(r + 1, n, W);
        MulMonotone(W, x, n);
      }
    }
  }

  /** Multiples of n in a half-open window of length n * k are k consecutive ones. */
  lemma MultiplesInWindow(n: nat, a: nat, k: nat, x: nat)
    requires n > 0
    ensures a <= x * n < a + n * k <==> (a + n - 1) / n <= x < (a + n - 1) / n + k
  {
    var lo := (a + n - 1) / n;
    assert lo * n <= a + n - 1 < lo * n + n;
    SumTimes(lo, k, n);
    SumTimes(lo, -1, n);
    SumTimes(lo + k, -1, n);
    if x < lo {
      MulMonotone(x, lo - 1, n);
    } else if x < lo + k {
      MulMonotone(lo, x, n);
      MulMonotone(x, lo + k - 1, n);
    } else {
      MulMonotone(lo + k, x, n);
    }
  }

  lemma SumTimes(a: int, b: int, n: nat)
    ensures (a + b) * n == a * n + b * n
  {}

  /** Uniformity: each sample below n comes from exactly W / n words. */
  lemma UniformSamples(W: nat, n: nat, r: nat)
    requires 0 < n <= W && r < n
    ensures |WordsFor(W, n, r)| == W / n
  {
    ThresholdIsRemainder(W, n);
    var a, k := r * W + W % n, W / n;
    var lo := (a + n - 1) / n;
    forall x: nat ensures x in WordsFor(W, n, r) <==> x in Interval(lo, k) {
      WindowOf(W, n, r, x);
      MultiplesInWindow(n, a, k, x);
    }
    assert WordsFor(W, n, r) == Interval(lo, k);
    IntervalSize(lo, k);
  }

  lemma SampleInRange(W: nat, n: nat, x: nat)
    requires 0 < n <= W && x < W
    ensures Sample(W, n, x) < n
  {
    var p := x * n;
    var hi := p / W;
    MulMonotone(x, W - 1, n);
    assert p < W * n;
    assert p == hi * W + p % W;
    if hi >= n {
      MulMonotone(n, hi, W);
    }
  }

  ghost function AcceptedBelow(W: nat, n: nat, m: nat): set<nat>
    requires 0 < n <= W
  {
    set x: nat | x < W && Accepted(W, n, x) && Sample(W, n, x) < m
  }

  lemma {:induction false} AcceptedCount(W: nat, n: nat, m: nat)
    requires 0 < n <= W && m <= n
    ensures |AcceptedBelow(W, n, m)| == m * (W / n)
  {
    if m == 0 {
      assert AcceptedBelow(W, n, 0) == {};
    } else {
      AcceptedCount(W, n, m - 1);
      UniformSamples(W, n, m - 1);
      var old', new' := AcceptedBelow(W, n, m - 1), WordsFor(W, n, m - 1);
      assert AcceptedBelow(W, n, m) == old' + new';
      assert old' !! new';
      var k := W / n;
      assert |old'| == (m - 1) * k && |new'| == k;
      assert (m - 1) * k + k == m * k;
    }
  }

  /** Exactly W % n words are rejected. */
  lemma RejectionCount(W: nat, n: nat)
    requires 0 < n <= W
    ensures |RejectedWords(W, n)| == W % n
  {
    var accepted := AcceptedBelow(W, n, n);
    forall x: nat | x < W ensures x in accepted <==> x !in RejectedWords(W, n) {
      SampleInRange(W, n, x);
    }
    assert Interval(0, W) == accepted + RejectedWords(W, n);
    assert accepted !! RejectedWords(W, n);
    IntervalSize(0, W);
    AcceptedCount(W, n, n);
    ThresholdIsRemainder(W, n);
  }

  /** The full range n = W: nothing is rejected and the word itself is the sample. */
  lemma FullRange(W: nat, x: nat)
    requires x < W
    ensures Accepted(W, W, x) && Sample(W, W, x) == x
  {
    DivisionUnique(x * W, W, x, 0);
    DivisionUnique(0, W, 0, 0);
  }
}
