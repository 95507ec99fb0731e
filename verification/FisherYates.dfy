/**
 The Fisher-Yates shuffle as a function of its draws: a bijection between draw vectors and
 permutations, so that uniform draws give a uniform permutation.
 */
module FisherYates {
  import opened Lemire

  /** The number of draws for a slice of length n. */
  function Rounds(n: nat): nat {
    if n < 2 then 0 else n - 1
  }

  /** `d[k]` is the draw of the round with i = k + 1, so it lies in 0..=k + 1. */
  predicate IsDraws(d: seq<nat>) {
    forall k :: 0 <= k < |d| ==> d[k] <= k + 1
  }

  function Swap<T>(s: seq<T>, i: nat, j: nat): (r: seq<T>)
    requires i < |s| && j < |s|
    ensures |r| == |s|
  {
    s[i := s[j]][j := s[i]]
  }

  /** The rounds i = |d|, ..., 1: swap place i with the drawn place, then go on below it. */
  function ShuffleBy<T>(s: seq<T>, d: seq<nat>): (r: seq<T>)
    requires |d| <= Rounds(|s|) && IsDraws(d)
    ensures |r| == |s|
    decreases |d|
  {
    var i := |d|;
    if i == 0 then s else ShuffleBy(Swap(s, i, d[i - 1]), d[..i - 1])
  }

  // ------------------------------------------------------------------ a bijection

  predicate NoRepeats<T(==)>(s: seq<T>) {
    forall i, j :: 0 <= i < j < |s| ==> s[i] != s[j]
  }

  lemma SwapKeepsElements<T>(s: seq<T>, i: nat, j: nat)
    requires i < |s| && j < |s|
    ensures multiset(Swap(s, i, j)) == multiset(s)
    ensures NoRepeats(s) ==> NoRepeats(Swap(s, i, j))
  {}

  /** The result is always a permutation. */
  lemma {:induction false} ShuffleIsPermutation<T>(s: seq<T>, d: seq<nat>)
    requires |d| <= Rounds(|s|) && IsDraws(d)
    ensures multiset(ShuffleBy(s, d)) == multiset(s)
    decreases |d|
  {
    var i := |d|;
    if i > 0 {
      SwapKeepsElements(s, i, d[i - 1]);
      ShuffleIsPermutation(Swap(s, i, d[i - 1]), d[..i - 1]);
    }
  }

  /** Places above the current round are final. */
  lemma {:induction false} PlacesAbove<T>(s: seq<T>, d: seq<nat>, k: nat)
    requires |d| <= Rounds(|s|) && IsDraws(d) && |d| < k < |s|
    ensures ShuffleBy(s, d)[k] == s[k]
    decreases |d|
  {
    var i := |d|;
    if i > 0 {
      PlacesAbove(Swap(s, i, d[i - 1]), d[..i - 1], k);
    }
  }

  lemma PlaceOfRound<T>(s: seq<T>, d: seq<nat>)
    requires 0 < |d| <= Rounds(|s|) && IsDraws(d)
    ensures ShuffleBy(s, d)[|d|] == s[d[|d| - 1]]
  {
    var i := |d|;
    PlacesAbove(Swap(s, i, d[i - 1]), d[..i - 1], i);
  }

  lemma {:induction false} ShuffleLeavesTheEnd<T>(s: seq<T>, d: seq<nat>, x: T)
    requires |d| <= Rounds(|s|) && IsDraws(d)
    ensures ShuffleBy(s + [x], d) == ShuffleBy(s, d) + [x]
    decreases |d|
  {
    var i := |d|;
    if i > 0 {
      assert Swap(s + [x], i, d[i - 1]) == Swap(s, i, d[i - 1]) + [x];
      ShuffleLeavesTheEnd(Swap(s, i, d[i - 1]), d[..i - 1], x);
    }
  }

  /** The first round: the last place takes the drawn element, whose place takes the last one; then the rest. */
  lemma FirstRoundBy<T>(s: seq<T>, d: seq<nat>)
    requires |s| >= 2 && |d| == |s| - 1 && IsDraws(d)
    ensures var i := |d|;
            var j := d[i - 1];
            ShuffleBy(s, d) == ShuffleBy(s[j := s[i]][..i], d[..i - 1]) + [s[j]]
  {
    var i := |d|;
    var j := d[i - 1];
    assert Swap(s, i, j) == s[j := s[i]][..i] + [s[j]];
    ShuffleLeavesTheEnd(s[j := s[i]][..i], d[..i - 1], s[j]);
  }

  /** On distinct elements different draws give different results. */
  lemma {:induction false} DrawsAreDetermined<T>(s: seq<T>, d: seq<nat>, e: seq<nat>)
    requires |d| == |e| <= Rounds(|s|) && IsDraws(d) && IsDraws(e)
    requires NoRepeats(s) && ShuffleBy(s, d) == ShuffleBy(s, e)
    ensures d == e
    decreases |d|
  {
    var i := |d|;
    if i > 0 {
      PlaceOfRound(s, d);
      PlaceOfRound(s, e);
      var j := d[i - 1];
      assert e[i - 1] == j;
      SwapKeepsElements(s, i, j);
      DrawsAreDetermined(Swap(s, i, j), d[..i - 1], e[..i - 1]);
      assert d == d[..i - 1] + [j] && e == e[..i - 1] + [j];
    }
  }

  lemma FindBelow<T>(s: seq<T>, p: seq<T>, i: nat) returns (j: nat)
    requires |s| == |p| && multiset(s) == multiset(p) && i < |s|
    requires forall k :: i < k < |s| ==> s[k] == p[k]
    ensures j <= i && s[j] == p[i]
  {
    assert s == s[..i + 1] + s[i + 1..] && p == p[..i + 1] + p[i + 1..];
    assert s[i + 1..] == p[i + 1..];
    assert multiset(s[..i + 1]) == multiset(s) - multiset(s[i + 1..]) == multiset(p[..i + 1]);
    assert p[i] in multiset(p[..i + 1]);
    assert p[i] in s[..i + 1];
    j :| 0 <= j < i + 1 && s[..i + 1][j] == p[i];
  }

  lemma {:induction false} Reach<T>(s: seq<T>, p: seq<T>, i: nat) returns (d: seq<nat>)
    requires |s| == |p| && multiset(s) == multiset(p) && i <= Rounds(|s|)
    requires forall k :: i < k < |s| ==> s[k] == p[k]
    ensures |d| == i && IsDraws(d) && ShuffleBy(s, d) == p
    decreases i
  {
    d := [];
    if i == 0 {
      if s != [] {
        var j := FindBelow(s, p, 0);
      }
    } else {
      var j := FindBelow(s, p, i);
      SwapKeepsElements(s, i, j);
      var rest := Reach(Swap(s, i, j), p, i - 1);
      d := rest + [j];
      assert d[..i - 1] == rest;
    }
  }

  /** Every permutation is reached. */
  lemma EveryPermutationIsReached<T>(s: seq<T>, p: seq<T>) returns (d: seq<nat>)
    requires multiset(p) == multiset(s)
    ensures |d| == Rounds(|s|) && IsDraws(d) && ShuffleBy(s, d) == p
  {
    assert |p| == |multiset(p)| == |s|;
    d := Reach(s, p, Rounds(|s|));
  }

  // ------------------------------------------------------------------ counting word vectors

  /** Vectors of accepted words whose samples are the draws d; `w[k]` is the word of round k + 1. */
  ghost predicate Samples(W: nat, w: seq<nat>, d: seq<nat>)
    requires |d| < W
  {
    |w| == |d| && forall k :: 0 <= k < |d| ==> w[k] in WordsFor(W, k + 2, d[k])
  }

  ghost function Append(vs: set<seq<nat>>, y: nat): set<seq<nat>> {
    set v | v in vs :: v + [y]
  }

  ghost function Extend(vs: set<seq<nat>>, xs: set<nat>): set<seq<nat>> {
    set v, x | v in vs && x in xs :: v + [x]
  }

  ghost function WordVectors(W: nat, d: seq<nat>): set<seq<nat>>
    requires |d| < W
  {
    if d == [] then {[]} else
      var m := |d| - 1;
      Extend(WordVectors(W, d[..m]), WordsFor(W, m + 2, d[m]))
  }

  /** The product of the numbers of words per sample, over the rounds 1..=n. */
  function VectorCount(W: nat, n: nat): nat {
    if n == 0 then 1 else VectorCount(W, n - 1) * (W / (n + 1))
  }

  lemma {:induction false} WordVectorsAreSamples(W: nat, d: seq<nat>, w: seq<nat>)
    requires |d| < W
    ensures w in WordVectors(W, d) <==> Samples(W, w, d)
    decreases |d|
  {
    if d != [] {
      var m := |d| - 1;
      if w in WordVectors(W, d) {
        var v, x :| v in WordVectors(W, d[..m]) && x in WordsFor(W, m + 2, d[m]) && w == v + [x];
        WordVectorsAreSamples(W, d[..m], v);
      }
      if Samples(W, w, d) {
        WordVectorsAreSamples(W, d[..m], w[..m]);
        assert w == w[..m] + [w[m]];
      }
    }
  }

  lemma AppendInjective(v: seq<nat>, w: seq<nat>, y: nat, z: nat)
    requires v + [y] == w + [z]
    ensures v == w && y == z
  {
    assert v == (v + [y])[..|v|] && w == (w + [z])[..|w|];
    assert y == (v + [y])[|v|] && z == (w + [z])[|w|];
  }

  lemma {:induction false} AppendCount(vs: set<seq<nat>>, y: nat)
    ensures |Append(vs, y)| == |vs|
  {
    if vs == {} {
      assert Append(vs, y) == {};
    } else {
      var v :| v in vs;
      AppendCount(vs - {v}, y);
      assert Append(vs, y) == Append(vs - {v}, y) + {v + [y]};
      if v + [y] in Append(vs - {v}, y) {
        var w :| w in vs - {v} && w + [y] == v + [y];
        AppendInjective(w, v, y, y);
      }
    }
  }

  lemma {:induction false} ExtendCount(vs: set<seq<nat>>, xs: set<nat>)
    ensures |Extend(vs, xs)| == |vs| * |xs|
    decreases |xs|
  {
    if xs == {} {
      assert Extend(vs, xs) == {};
    } else {
      var y :| y in xs;
      var rest := xs - {y};
      ExtendCount(vs, rest);
      AppendCount(vs, y);
      ExtendSplit(vs, xs, y);
      DistributeOne(|vs|, |rest|, |xs|);
    }
  }

  lemma DistributeOne(a: nat, b: nat, c: nat)
    requires c == b + 1
    ensures a * c == a * b + a
  {}

  lemma ExtendSplit(vs: set<seq<nat>>, xs: set<nat>, y: nat)
    requires y in xs
    ensures Extend(vs, xs) == Extend(vs, xs - {y}) + Append(vs, y)
    ensures Extend(vs, xs - {y}) !! Append(vs, y)
  {
    forall u | u in Extend(vs, xs) ensures u in Extend(vs, xs - {y}) || u in Append(vs, y) {
      var v, x :| v in vs && x in xs && u == v + [x];
      assert x == y || x in xs - {y};
    }
    forall u | u in Extend(vs, xs - {y}) ensures u !in Append(vs, y) {
      var v, x :| v in vs && x in xs - {y} && u == v + [x];
      if u in Append(vs, y) {
        var w :| w in vs && u == w + [y];
        AppendInjective(v, w, x, y);
      }
    }
  }

  lemma {:induction false} WordVectorsCount(W: nat, d: seq<nat>)
    requires |d| < W && IsDraws(d)
    ensures |WordVectors(W, d)| == VectorCount(W, |d|)
    decreases |d|
  {
    if d != [] {
      var m := |d| - 1;
      WordVectorsCount(W, d[..m]);
      UniformSamples(W, m + 2, d[m]);
      ExtendCount(WordVectors(W, d[..m]), WordsFor(W, m + 2, d[m]));
    }
  }

  /**
   The shuffle of distinct elements is uniform: every permutation has its own draw vector, and that
   vector comes from equally many vectors of accepted words, whichever the permutation.
   */
  lemma ShuffleIsUniform<T>(W: nat, s: seq<T>, p: seq<T>) returns (d: seq<nat>)
    requires |s| <= W && W > 0 && NoRepeats(s) && multiset(p) == multiset(s)
    ensures |d| == Rounds(|s|) && IsDraws(d)
    ensures forall e :: |e| == Rounds(|s|) && IsDraws(e) ==> (ShuffleBy(s, e) == p <==> e == d)
    ensures forall w :: w in WordVectors(W, d) <==> Samples(W, w, d)
    ensures |WordVectors(W, d)| == VectorCount(W, Rounds(|s|))
  {
    d := EveryPermutationIsReached(s, p);
    forall e | |e| == Rounds(|s|) && IsDraws(e) ensures ShuffleBy(s, e) == p <==> e == d {
      if ShuffleBy(s, e) == p {
        DrawsAreDetermined(s, d, e);
      }
    }
    forall w ensures w in WordVectors(W, d) <==> Samples(W, w, d) {
      WordVectorsAreSamples(W, d, w);
    }
    WordVectorsCount(W, d);
  }
}
