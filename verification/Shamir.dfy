/**
 Shamir sharing of byte strings, arkhe-forge-platform/src/hf2_kms/threshold.rs: one random
 polynomial of degree t - 1 per secret byte, evaluated at 1..=n, and Lagrange interpolation at 0.
 */
module Shamir {
  import opened Gf256
  import opened Polynomials
  import opened Types

  type Count = n: int | 0 <= n <= 255

  datatype Config = Config(t: Count, n: Count) {
    /** Note that a valid configuration always has n >= 2. */
    predicate IsValid() {
      t >= 2 && t <= n
    }
  }

  datatype Share = Share(index: u8, bytes: seq<u8>)

  datatype Error =
    | InvalidConfig(t: Count, n: Count)
    | InsufficientShares(need: nat, got: nat)
    | InvalidShareIndex(index: u8)
    | DuplicateShares
    | ShareLengthMismatch(expected: nat, actual: nat)
    | EntropyFailure

  /** The answer of the operating system's random source. */
  datatype Entropy = Drawn(bytes: seq<u8>) | Unavailable

  // ------------------------------------------------------------------ splitting

  /** The coefficients of byte b. */
  function Block(coeffs: seq<u8>, t: Count, count: nat, b: nat): (block: seq<u8>)
    requires t >= 1 && |coeffs| == count * (t - 1) && b < count
    ensures |block| == t - 1
  {
    SliceBounds(count, t - 1, b);
    coeffs[b * (t - 1)..b * (t - 1) + (t - 1)]
  }

  /** The polynomial of one secret byte: the byte, then its t - 1 coefficients. */
  function SecretPoly(secret: seq<u8>, coeffs: seq<u8>, t: Count, b: nat): (p: Poly)
    requires t >= 1 && |coeffs| == |secret| * (t - 1) && b < |secret|
    ensures |p| == t && p[0] == secret[b]
  {
    [secret[b]] + Block(coeffs, t, |secret|, b)
  }

  lemma SliceBounds(count: nat, width: nat, b: nat)
    requires b < count
    ensures 0 <= b * width <= b * width + width <= count * width
  {
    assert count * width - (b + 1) * width == (count - b - 1) * width;
  }

  /** The share with a given index. */
  function ShareOf(secret: seq<u8>, coeffs: seq<u8>, t: Count, index: u8): (s: Share)
    requires t >= 1 && |coeffs| == |secret| * (t - 1)
  {
    Share(index, seq(|secret|, b requires 0 <= b < |secret| => Eval(SecretPoly(secret, coeffs, t, b), index)))
  }

  /** The byte reached by counting up from 0. */
  function ByteOf(n: nat): u8 {
    if n == 0 then 0 else ByteOf(n - 1) + 1
  }

  lemma {:induction false} ByteOfValue(n: nat)
    requires n <= 255
    ensures ByteOf(n) as int == n
  {
    if n > 0 {
      ByteOfValue(n - 1);
    }
  }

  /** The shares 1..=n. */
  function Split(secret: seq<u8>, coeffs: seq<u8>, t: Count, n: Count): (shares: seq<Share>)
    requires t >= 1 && |coeffs| == |secret| * (t - 1)
    ensures |shares| == n
  {
    seq(n, k requires 0 <= k < n => ShareOf(secret, coeffs, t, ByteOf(k + 1)))
  }

  /** Horner's rule from the highest coefficient down; the constant term is folded in last. */
  method PolyEvalWithConst(constTerm: u8, coeffs: seq<u8>, x: u8) returns (v: u8)
    ensures v == Eval([constTerm] + coeffs, x)
  {
    var acc: u8 := 0;
    for k := |coeffs| downto 0
      invariant acc == Eval(coeffs[k..], x)
    {
      var p := GfMul(acc, x);
      assert coeffs[k..][1..] == coeffs[k + 1..];
      acc := Add(p, coeffs[k]);
    }
    assert coeffs[0..] == coeffs;
    assert ([constTerm] + coeffs)[1..] == coeffs;
    var p := GfMul(acc, x);
    v := Add(p, constTerm);
  }

  /**
   `split_secret`, with the random coefficients as the parameter `entropy`. They are not asked for
   when the secret is empty.
   */
  method SplitSecret(secret: seq<u8>, config: Config, entropy: Entropy) returns (r: Result<seq<Share>, Error>)
    requires config.IsValid() && entropy.Drawn? ==> |entropy.bytes| == |secret| * (config.t - 1)
    ensures r == if !config.IsValid() then Err(InvalidConfig(config.t, config.n))
                 else if secret == [] then Ok(Split([], [], config.t, config.n))
                 else if entropy.Unavailable? then Err(EntropyFailure)
                 else Ok(Split(secret, entropy.bytes, config.t, config.n))
    ensures r.Ok? <==> 2 <= config.t <= config.n && (secret == [] || entropy.Drawn?)
  {
    if !config.IsValid() {
      return Err(InvalidConfig(config.t, config.n));
    }
    var t, n := config.t, config.n;
    var coeffs: seq<u8> := [];
    CoefficientCount(|secret|, t - 1);
    if |secret| * (t - 1) != 0 {
      if entropy.Unavailable? {
        return Err(EntropyFailure);
      }
      coeffs := entropy.bytes;
    }
    var shares: seq<Share> := [];
    var index: u8 := 1;
    for k := 0 to n
      invariant |shares| == k && index == ByteOf(k + 1)
      invariant forall i :: 0 <= i < k ==> shares[i] == ShareOf(secret, coeffs, t, ByteOf(i + 1))
    {
      var ys: seq<u8> := [];
      for b := 0 to |secret|
        invariant |ys| == b
        invariant forall i :: 0 <= i < b ==> ys[i] == Eval(SecretPoly(secret, coeffs, t, i), index)
      {
        SliceBounds(|secret|, t - 1, b);
        var start := b * (t - 1);
        var y := PolyEvalWithConst(secret[b], coeffs[start..start + (t - 1)], index);
        ys := ys + [y];
      }
      assert Share(index, ys) == ShareOf(secret, coeffs, t, index);
      shares := shares + [Share(index, ys)];
      index := index + 1;
    }
    assert shares == Split(secret, coeffs, t, n);
    r := Ok(shares);
  }

  lemma CoefficientCount(count: nat, width: nat)
    requires width >= 1
    ensures count * width == 0 <==> count == 0
  {}

  // ------------------------------------------------------------------ combining

  function Indices(shares: seq<Share>): (xs: seq<u8>)
    ensures |xs| == |shares|
  {
    seq(|shares|, i requires 0 <= i < |shares| => shares[i].index)
  }

  function Column(shares: seq<Share>, b: nat): (ys: seq<u8>)
    requires forall i :: 0 <= i < |shares| ==> b < |shares[i].bytes|
    ensures |ys| == |shares|
  {
    seq(|shares|, i requires 0 <= i < |shares| => shares[i].bytes[b])
  }

  predicate SameLength(shares: seq<Share>) {
    forall i :: 0 <= i < |shares| ==> |shares[i].bytes| == |shares[0].bytes|
  }

  /** What `combine_shares` accepts. */
  predicate Combinable(shares: seq<Share>, config: Config) {
    && config.IsValid()
    && |shares| >= config.t
    && 0 !in Indices(shares)
    && Distinct(Indices(shares))
    && SameLength(shares)
  }

  /** Lagrange interpolation at 0 on the given shares, byte by byte. */
  function Reconstruct(shares: seq<Share>): (secret: seq<u8>)
    requires shares != [] && SameLength(shares)
  {
    seq(|shares[0].bytes|, b requires 0 <= b < |shares[0].bytes| =>
      Lagrange(Indices(shares), Column(shares, b), 0, |shares|))
  }

  /** The interpolation loops for one byte position. */
  method InterpolateAtZero(shares: seq<Share>, b: nat) returns (acc: u8)
    requires forall i :: 0 <= i < |shares| ==> b < |shares[i].bytes|
    ensures acc == Lagrange(Indices(shares), Column(shares, b), 0, |shares|)
  {
    ghost var xs, ys := Indices(shares), Column(shares, b);
    acc := 0;
    for i := 0 to |shares|
      invariant acc == Lagrange(xs, ys, 0, i)
    {
      var num: u8, den: u8 := 1, 1;
      for j := 0 to |shares|
        invariant num == Product(xs, i, 0, j) && den == Product(xs, i, xs[i], j)
      {
        if i != j {
          assert Add(0, xs[j]) == xs[j];
          num := GfMul(num, shares[j].index);
          den := GfMul(den, Add(shares[i].index, shares[j].index));
        }
      }
      var inv := GfInv(den);
      var basis := GfMul(num, inv);
      var term := GfMul(shares[i].bytes[b], basis);
      acc := Add(acc, term);
    }
  }

  /** `combine_shares`: the checks in the order of the source, then the first t shares. */
  method CombineShares(shares: seq<Share>, config: Config) returns (r: Result<seq<u8>, Error>)
    ensures r.Ok? <==> Combinable(shares, config)
    ensures r.Ok? <==> && 2 <= config.t <= config.n && config.t <= |shares|
                       && (forall i :: 0 <= i < |shares| ==> shares[i].index != 0)
                       && (forall i, j :: 0 <= i < j < |shares| ==> shares[i].index != shares[j].index)
                       && forall i :: 0 <= i < |shares| ==> |shares[i].bytes| == |shares[0].bytes|
    ensures r.Ok? ==> r.value == Reconstruct(shares[..config.t])
    ensures !config.IsValid() ==> r == Err(InvalidConfig(config.t, config.n))
    ensures config.IsValid() && |shares| < config.t
            ==> r == Err(InsufficientShares(config.t, |shares|))
    ensures config.IsValid() && |shares| >= config.t && 0 in Indices(shares)
            ==> r == Err(InvalidShareIndex(0))
    ensures config.IsValid() && |shares| >= config.t && 0 !in Indices(shares) && !Distinct(Indices(shares))
            ==> r == Err(DuplicateShares)
    ensures config.IsValid() && |shares| >= config.t && 0 !in Indices(shares) && Distinct(Indices(shares))
            && !SameLength(shares)
            ==> exists i :: 0 < i < |shares| && SameLength(shares[..i]) && |shares[i].bytes| != |shares[0].bytes|
                            && r == Err(ShareLengthMismatch(|shares[0].bytes|, |shares[i].bytes|))
  {
    if !config.IsValid() {
      return Err(InvalidConfig(config.t, config.n));
    }
    if |shares| < config.t {
      return Err(InsufficientShares(config.t, |shares|));
    }
    ghost var xs := Indices(shares);
    for i := 0 to |shares|
      invariant forall k :: 0 <= k < i ==> shares[k].index != 0
    {
      if shares[i].index == 0 {
        assert xs[i] == 0;
        return Err(InvalidShareIndex(0));
      }
    }
    assert 0 !in xs;
    for i := 0 to |shares|
      invariant forall k, j :: 0 <= k < i && k < j < |shares| ==> shares[k].index != shares[j].index
    {
      for j := i + 1 to |shares|
        invariant forall k :: i < k < j ==> shares[i].index != shares[k].index
      {
        if shares[i].index == shares[j].index {
          assert xs[i] == xs[j];
          return Err(DuplicateShares);
        }
      }
    }
    var secretLen := |shares[0].bytes|;
    for i := 0 to |shares|
      invariant forall k :: 0 <= k < i ==> |shares[k].bytes| == secretLen
    {
      if |shares[i].bytes| != secretLen {
        assert SameLength(shares[..i]);
        return Err(ShareLengthMismatch(secretLen, |shares[i].bytes|));
      }
    }
    var selected := shares[..config.t];
    var secret: seq<u8> := [];
    for b := 0 to secretLen
      invariant |secret| == b
      invariant forall k :: 0 <= k < b ==> secret[k] == Lagrange(Indices(selected), Column(selected, k), 0, |selected|)
    {
      var y := InterpolateAtZero(selected, b);
      secret := secret + [y];
    }
    assert secret == Reconstruct(selected);
    r := Ok(secret);
  }

  // ------------------------------------------------------------------ what sharing is for

  lemma ByteOfIsInjective(m: nat, n: nat)
    requires 0 < m <= 255 && 0 < n <= 255
    ensures ByteOf(m) != 0 && (ByteOf(m) == ByteOf(n) <==> m == n)
  {
    ByteOfValue(m);
    ByteOfValue(n);
  }

  /** Share k carries the index k + 1, so that indices of distinct shares are distinct and never 0. */
  lemma ShareIndices(secret: seq<u8>, coeffs: seq<u8>, t: Count, n: Count, i: nat, j: nat)
    requires t >= 1 && |coeffs| == |secret| * (t - 1) && i < n && j < n
    ensures var shares := Split(secret, coeffs, t, n);
            && shares[i].index as int == i + 1
            && shares[i].index != 0 && (shares[i].index == shares[j].index <==> i == j)
  {
    ByteOfValue(i + 1);
    ByteOfIsInjective(i + 1, j + 1);
  }

  lemma PickedShare(secret: seq<u8>, coeffs: seq<u8>, t: Count, n: Count, s: Share)
    requires t >= 1 && |coeffs| == |secret| * (t - 1)
    requires s in Split(secret, coeffs, t, n)
    ensures s.index != 0 && s == ShareOf(secret, coeffs, t, s.index)
  {
    var i :| 0 <= i < n && Split(secret, coeffs, t, n)[i] == s;
    ShareIndices(secret, coeffs, t, n, i, i);
  }

  /** One byte of the secret from t shares. */
  lemma ByteRecovered(secret: seq<u8>, coeffs: seq<u8>, t: Count, used: seq<Share>, b: nat)
    requires t >= 1 && |coeffs| == |secret| * (t - 1) && b < |secret|
    requires |used| == t && Distinct(Indices(used))
    requires forall k :: 0 <= k < t ==> |used[k].bytes| == |secret|
    requires forall k :: 0 <= k < t ==> used[k] == ShareOf(secret, coeffs, t, used[k].index)
    ensures Lagrange(Indices(used), Column(used, b), 0, t) == secret[b]
  {
    var p := SecretPoly(secret, coeffs, t, b);
    LagrangeRecovers(p, Indices(used), Column(used, b), 0);
    ValueAtZero(p);
  }

  /**
   Reconstruction: any list of at least t shares of one split with different indices, in any
   order, is accepted and gives back the secret.
   */
  lemma CombineInvertsSplit(secret: seq<u8>, coeffs: seq<u8>, config: Config, picked: seq<Share>)
    requires config.IsValid() && |coeffs| == |secret| * (config.t - 1)
    requires |picked| >= config.t && Distinct(Indices(picked))
    requires forall k :: 0 <= k < |picked| ==> picked[k] in Split(secret, coeffs, config.t, config.n)
    ensures Combinable(picked, config)
    ensures Reconstruct(picked[..config.t]) == secret
  {
    var t, used := config.t, picked[..config.t];
    forall k | 0 <= k < |picked|
      ensures picked[k].index != 0 && picked[k] == ShareOf(secret, coeffs, t, picked[k].index)
    {
      PickedShare(secret, coeffs, t, config.n, picked[k]);
    }
    assert Indices(used) == Indices(picked)[..t];
    forall b | 0 <= b < |secret| ensures Reconstruct(used)[b] == secret[b] {
      ByteRecovered(secret, coeffs, t, used, b);
    }
  }

  /**
   Secrecy: t - 1 shares of a byte fit every candidate value of that byte, each through exactly
   one choice of the t - 1 random coefficients.
   */
  lemma FewSharesFitEverySecret(t: Count, xs: seq<u8>, ys: seq<u8>, candidate: u8) returns (coeffs: seq<u8>)
    requires t >= 1 && Distinct(xs) && 0 !in xs && |xs| == |ys| == t - 1
    ensures Explains(coeffs, t, xs, ys, candidate)
    ensures forall other :: Explains(other, t, xs, ys, candidate) ==> other == coeffs
  {
    var nodes, values := [0] + xs, [candidate] + ys;
    var p := InterpolantExists(nodes, values);
    coeffs := p[1..];
    ValueAtZero(p);
    assert nodes[0] == 0 && values[0] == candidate;
    assert p == [candidate] + coeffs;
    forall k | 0 <= k < |xs| ensures Eval([candidate] + coeffs, xs[k]) == ys[k] {
      assert nodes[k + 1] == xs[k] && values[k + 1] == ys[k];
    }
    forall other | Explains(other, t, xs, ys, candidate) ensures other == coeffs {
      var q: Poly := [candidate] + other;
      ValueAtZero(q);
      forall k | 0 <= k < |nodes| ensures Eval(q, nodes[k]) == Eval(p, nodes[k]) {
        if k > 0 {
          assert nodes[k] == xs[k - 1] && values[k] == ys[k - 1];
        }
      }
      UniqueInterpolant(q, p, nodes);
      assert other == q[1..];
    }
  }

  /** The coefficients produce these share bytes from this secret byte. */
  ghost predicate Explains(coeffs: seq<u8>, t: Count, xs: seq<u8>, ys: seq<u8>, secret: u8)
    requires |xs| == |ys|
  {
    |coeffs| == t - 1 && forall k :: 0 <= k < |xs| ==> Eval([secret] + coeffs, xs[k]) == ys[k]
  }

  // ------------------------------------------------------------------ what a share holds

  /** The first m terms of a polynomial at x, written as a sum of powers. */
  function PowerSum(p: Poly, x: u8, m: nat): u8
    requires m <= |p|
  {
    if m == 0 then 0 else Add(PowerSum(p, x, m - 1), Mul(p[m - 1], Pow(x, m - 1)))
  }

  /** Moving every term one power up multiplies the sum. */
  lemma {:induction false} PowerSumShifts(p: Poly, x: u8, m: nat)
    requires 0 < m <= |p|
    ensures PowerSum(p, x, m) == Add(Mul(PowerSum(p[1..], x, m - 1), x), p[0])
  {
    if m == 1 {
      MulOneRight(p[0]);
      MulZeroLeft(x);
    } else {
      var rest, term := PowerSum(p[1..], x, m - 2), Mul(p[m - 1], Pow(x, m - 2));
      PowerSumShifts(p, x, m - 1);
      MulAddLeft(rest, term, x);
      MulAssoc(p[m - 1], Pow(x, m - 2), x);
      MulComm(x, Pow(x, m - 2));
      AddAssoc(Mul(rest, x), Mul(term, x), p[0]);
      AddComm(Mul(term, x), p[0]);
      AddAssoc(Mul(rest, x), p[0], Mul(term, x));
    }
  }

  lemma {:induction false} EvalIsPowerSum(p: Poly, x: u8)
    ensures Eval(p, x) == PowerSum(p, x, |p|)
  {
    if p != [] {
      EvalIsPowerSum(p[1..], x);
      PowerSumShifts(p, x, |p|);
    }
  }

  /** Byte b of share k is the secret byte plus its own t - 1 coefficients times the powers of k + 1. */
  lemma ShareByteIsPowerSum(secret: seq<u8>, coeffs: seq<u8>, t: Count, n: Count, k: nat, b: nat)
    requires t >= 1 && |coeffs| == |secret| * (t - 1) && k < n && b < |secret|
    ensures b * (t - 1) + (t - 1) <= |coeffs|
    ensures var share := Split(secret, coeffs, t, n)[k];
            && share.index as int == k + 1 && |share.bytes| == |secret|
            && share.bytes[b] == PowerSum([secret[b]] + coeffs[b * (t - 1)..b * (t - 1) + (t - 1)], share.index, t)
  {
    ShareIndices(secret, coeffs, t, n, k, k);
    SliceBounds(|secret|, t - 1, b);
    EvalIsPowerSum(SecretPoly(secret, coeffs, t, b), ByteOf(k + 1));
  }

  predicate AllDifferent(ks: seq<nat>) {
    forall i, j :: 0 <= i < j < |ks| ==> ks[i] != ks[j]
  }

  /** Both splits hand out the same shares at these positions. */
  ghost predicate SameShares(secret: seq<u8>, coeffs: seq<u8>, other: seq<u8>, others: seq<u8>, t: Count, n: Count,
                             ks: seq<nat>)
    requires t >= 1 && |coeffs| == |secret| * (t - 1) && |others| == |other| * (t - 1)
    requires forall i :: 0 <= i < |ks| ==> ks[i] < n
  {
    forall i :: 0 <= i < |ks| ==> Split(other, others, t, n)[ks[i]] == Split(secret, coeffs, t, n)[ks[i]]
  }

  /** The points of the polynomials behind the shares at these positions. */
  function PointsOf(ks: seq<nat>): (xs: seq<u8>)
    ensures |xs| == |ks|
  {
    seq(|ks|, i requires 0 <= i < |ks| => ByteOf(ks[i] + 1))
  }

  /** What those shares hold at byte b. */
  function BytesAt(secret: seq<u8>, coeffs: seq<u8>, t: Count, ks: seq<nat>, b: nat): (ys: seq<u8>)
    requires t >= 1 && |coeffs| == |secret| * (t - 1) && b < |secret|
    ensures |ys| == |ks|
  {
    seq(|ks|, i requires 0 <= i < |ks| => Eval(SecretPoly(secret, coeffs, t, b), ByteOf(ks[i] + 1)))
  }

  lemma PointsAreDistinct(ks: seq<nat>, n: Count)
    requires AllDifferent(ks) && forall i :: 0 <= i < |ks| ==> ks[i] < n
    ensures Distinct(PointsOf(ks)) && 0 !in PointsOf(ks)
  {
    forall i, j | 0 <= i <= j < |ks|
      ensures PointsOf(ks)[i] != 0 && (i < j ==> PointsOf(ks)[i] != PointsOf(ks)[j])
    {
      ByteOfIsInjective(ks[i] + 1, ks[j] + 1);
    }
  }

  predicate SameBlocks(coeffs: seq<u8>, others: seq<u8>, t: Count, count: nat)
    requires t >= 1 && |coeffs| == |others| == count * (t - 1)
  {
    forall b :: 0 <= b < count ==> Block(coeffs, t, count, b) == Block(others, t, count, b)
  }

  lemma {:induction false} BlocksDetermine(coeffs: seq<u8>, others: seq<u8>, t: Count, count: nat)
    requires t >= 1 && |coeffs| == |others| == count * (t - 1) && SameBlocks(coeffs, others, t, count)
    ensures coeffs == others
    decreases count
  {
    if count > 0 {
      var m, end := count - 1, (count - 1) * (t - 1);
      WholeBlocks(count, t - 1);
      var front, first := coeffs[..end], others[..end];
      forall b | 0 <= b < m
        ensures Block(front, t, m, b) == Block(first, t, m, b)
      {
        BlockOfPrefix(coeffs, t, count, b);
        BlockOfPrefix(others, t, count, b);
      }
      BlocksDetermine(front, first, t, m);
      assert Block(coeffs, t, count, count - 1) == Block(others, t, count, count - 1);
      assert coeffs == coeffs[..end] + coeffs[end..] && others == others[..end] + others[end..];
    }
  }

  lemma WholeBlocks(count: nat, width: nat)
    requires count > 0
    ensures 0 <= (count - 1) * width && (count - 1) * width + width == count * width
  {}

  lemma SliceOfPrefix<T>(s: seq<T>, end: nat, low: nat, high: nat)
    requires low <= high <= end <= |s|
    ensures s[..end][low..high] == s[low..high]
  {}

  lemma BlockOfPrefix(coeffs: seq<u8>, t: Count, count: nat, b: nat)
    requires t >= 1 && |coeffs| == count * (t - 1) && b + 1 < count
    ensures 0 <= (count - 1) * (t - 1) <= |coeffs|
    ensures Block(coeffs[..(count - 1) * (t - 1)], t, count - 1, b) == Block(coeffs, t, count, b)
  {
    var end, low := (count - 1) * (t - 1), b * (t - 1);
    WholeBlocks(count, t - 1);
    SliceBounds(count - 1, t - 1, b);
    SliceOfPrefix(coeffs, end, low, low + (t - 1));
  }

  /** Some coefficients have any given blocks. */
  lemma {:induction false} BlocksExist(blocks: seq<seq<u8>>, t: Count) returns (coeffs: seq<u8>)
    requires t >= 1 && forall b :: 0 <= b < |blocks| ==> |blocks[b]| == t - 1
    ensures |coeffs| == |blocks| * (t - 1)
    ensures forall b :: 0 <= b < |blocks| ==> Block(coeffs, t, |blocks|, b) == blocks[b]
    decreases |blocks|
  {
    coeffs := [];
    if blocks != [] {
      var m := |blocks| - 1;
      var front := BlocksExist(blocks[..m], t);
      coeffs := front + blocks[m];
      WholeBlocks(|blocks|, t - 1);
      assert coeffs[..m * (t - 1)] == front;
      forall b | 0 <= b < |blocks|
        ensures Block(coeffs, t, |blocks|, b) == blocks[b]
      {
        if b < m {
          BlockOfPrefix(coeffs, t, |blocks|, b);
          assert Block(front, t, m, b) == blocks[..m][b];
        }
      }
    }
  }

  /** The shares agree exactly when every byte of the other secret is explained by its own block. */
  lemma SameSharesByByte(secret: seq<u8>, coeffs: seq<u8>, other: seq<u8>, others: seq<u8>, t: Count, n: Count,
                         ks: seq<nat>)
    requires t >= 1 && |secret| == |other| && |coeffs| == |secret| * (t - 1) && |others| == |other| * (t - 1)
    requires forall i :: 0 <= i < |ks| ==> ks[i] < n
    ensures SameShares(secret, coeffs, other, others, t, n, ks)
       <==> forall b :: 0 <= b < |other| ==>
              Explains(Block(others, t, |other|, b), t, PointsOf(ks), BytesAt(secret, coeffs, t, ks, b), other[b])
  {
    forall i, b | 0 <= i < |ks| && 0 <= b < |other|
      ensures Split(other, others, t, n)[ks[i]].bytes[b]
           == Eval([other[b]] + Block(others, t, |other|, b), PointsOf(ks)[i])
      ensures Split(secret, coeffs, t, n)[ks[i]].bytes[b] == BytesAt(secret, coeffs, t, ks, b)[i]
    {}
    forall i | 0 <= i < |ks|
      ensures Split(other, others, t, n)[ks[i]] == Split(secret, coeffs, t, n)[ks[i]]
         <==> forall b :: 0 <= b < |other| ==>
                Split(other, others, t, n)[ks[i]].bytes[b] == Split(secret, coeffs, t, n)[ks[i]].bytes[b]
    {}
  }

  /**
   Secrecy of a whole split: any t - 1 of its shares are those of any other secret of the same length,
   through exactly one choice of that secret's random coefficients. Over uniformly drawn coefficients
   fewer than t shares therefore say nothing about the secret but its length.
   */
  lemma FewSharesTellNothing(secret: seq<u8>, coeffs: seq<u8>, other: seq<u8>, t: Count, n: Count, ks: seq<nat>)
    returns (fit: seq<u8>)
    requires t >= 1 && |secret| == |other| && |coeffs| == |secret| * (t - 1)
    requires |ks| == t - 1 && AllDifferent(ks) && forall i :: 0 <= i < |ks| ==> ks[i] < n
    ensures |fit| == |other| * (t - 1) && SameShares(secret, coeffs, other, fit, t, n, ks)
    ensures forall others :: |others| == |other| * (t - 1) && SameShares(secret, coeffs, other, others, t, n, ks) ==>
              others == fit
  {
    var xs := PointsOf(ks);
    PointsAreDistinct(ks, n);
    var blocks: seq<seq<u8>> := [];
    for b := 0 to |other|
      invariant |blocks| == b
      invariant forall c :: 0 <= c < b ==> OnlyExplains(blocks[c], t, xs, BytesAt(secret, coeffs, t, ks, c), other[c])
    {
      var block := FewSharesFitEverySecret(t, xs, BytesAt(secret, coeffs, t, ks, b), other[b]);
      blocks := blocks + [block];
    }
    fit := BlocksExist(blocks, t);
    SameSharesByByte(secret, coeffs, other, fit, t, n, ks);
    forall others | |others| == |other| * (t - 1) && SameShares(secret, coeffs, other, others, t, n, ks)
      ensures others == fit
    {
      SameSharesByByte(secret, coeffs, other, others, t, n, ks);
      forall b | 0 <= b < |other|
        ensures Block(others, t, |other|, b) == Block(fit, t, |other|, b)
      {
        assert OnlyExplains(blocks[b], t, xs, BytesAt(secret, coeffs, t, ks, b), other[b]);
      }
      BlocksDetermine(others, fit, t, |other|);
    }
  }

  /** This and no other choice of coefficients produces these share bytes from this secret byte. */
  ghost predicate OnlyExplains(coeffs: seq<u8>, t: Count, xs: seq<u8>, ys: seq<u8>, secret: u8)
    requires |xs| == |ys|
  {
    && Explains(coeffs, t, xs, ys, secret)
    && forall other :: Explains(other, t, xs, ys, secret) ==> other == coeffs
  }

  lemma ValueAtZero(p: Poly)
    requires p != []
    ensures Eval(p, 0) == p[0]
  {
    MulZeroRight(Eval(p[1..], 0));
    AddZero(p[0], 0);
  }
}
