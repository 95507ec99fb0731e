/** The in-place shuffle of arkhe-rand/src/shuffle.rs, drawing from the random source. */
module Shuffle {
  import opened Bytes
  import opened FisherYates
  import opened Rng

  /** The draws for i, i - 1, ..., 1 exist at this position of the stream. */
  ghost predicate SuppliesDraws(stream: Stream, from: nat, i: nat)
    decreases i
  {
    i > 0 ==>
      && i + 1 < Pow256(8)
      && Supplies(stream, from, 8, i + 1)
      && SuppliesDraws(stream, from + DrawnBytes(stream, from, 8, i + 1), i - 1)
  }

  /** Those draws, lowest round first, and the stream position after them. */
  ghost function StreamDraws(stream: Stream, from: nat, i: nat): (r: (seq<nat>, nat))
    requires SuppliesDraws(stream, from, i)
    ensures |r.0| == i && IsDraws(r.0)
    decreases i
  {
    if i == 0 then ([], from) else
      var (rest, end) := StreamDraws(stream, from + DrawnBytes(stream, from, 8, i + 1), i - 1);
      (rest + [DrawnSample(stream, from, 8, i + 1)], end)
  }

  /** What one draw takes off the stream. */
  lemma DrawsStep(stream: Stream, pos: nat, i: nat, next: nat, d: seq<nat>, end: nat)
    requires i > 0 && SuppliesDraws(stream, pos, i) && StreamDraws(stream, pos, i) == (d, end)
    requires next == pos + DrawnBytes(stream, pos, 8, i + 1)
    ensures d[i - 1] == DrawnSample(stream, pos, 8, i + 1)
    ensures SuppliesDraws(stream, next, i - 1) && StreamDraws(stream, next, i - 1) == (d[..i - 1], end)
  {}

  /**
   The shuffle drawn from a stream, by its first round: the last place takes the element at a place drawn below the
   length, that place takes the last element, and the rest is shuffled by the stream after that draw.
   */
  lemma FirstRound<T>(s: seq<T>, stream: Stream, from: nat)
    requires |s| >= 2 && SuppliesDraws(stream, from, |s| - 1)
    ensures var i := |s| - 1;
            var j := DrawnSample(stream, from, 8, |s|);
            var next := from + DrawnBytes(stream, from, 8, |s|);
            && j <= i && SuppliesDraws(stream, next, i - 1)
            && ShuffleBy(s, StreamDraws(stream, from, i).0)
               == ShuffleBy(s[j := s[i]][..i], StreamDraws(stream, next, i - 1).0) + [s[j]]
  {
    var i := |s| - 1;
    var (d, end) := StreamDraws(stream, from, i);
    DrawsStep(stream, from, i, from + DrawnBytes(stream, from, 8, i + 1), d, end);
    FirstRoundBy(s, d);
  }

  /** The draw of one round: a place in 0..=i. */
  method DrawIndex(rng: RngSource, i: nat) returns (j: nat)
    requires rng.Valid() && i + 1 < Pow256(8)
    requires Supplies(rng.Source(), rng.Emitted(), 8, i + 1)
    modifies rng`xofPos, rng`pos, rng.block
    ensures rng.Valid() && j <= i
    ensures j == DrawnSample(rng.Source(), old(rng.Emitted()), 8, i + 1)
    ensures rng.Emitted() == old(rng.Emitted()) + DrawnBytes(rng.Source(), old(rng.Emitted()), 8, i + 1)
  {
    Pow256Values();
    assert Usize64.WordWidth() == 8 && InclusiveBound(Usize64, 0, i) == i + 1;
    j := GenRangeInclusive(rng, Usize64, 0, i);
  }

  method SwapAt<T>(a: array<T>, i: nat, j: nat)
    requires i < a.Length && j < a.Length
    modifies a
    ensures a[..] == Swap(old(a[..]), i, j)
  {
    a[i], a[j] := a[j], a[i];
  }

  /** `shuffle`: from the last place down, swap with a place drawn uniformly from 0..=i. */
  method ShuffleInPlace<T>(rng: RngSource, a: array<T>)
    requires rng.Valid()
    requires a as object != rng.block && a as object != rng
    requires SuppliesDraws(rng.Source(), rng.Emitted(), Rounds(a.Length))
    modifies rng`xofPos, rng`pos, rng.block, a
    ensures rng.Valid()
    ensures var (draws, end) := StreamDraws(rng.Source(), old(rng.Emitted()), Rounds(a.Length));
            a[..] == ShuffleBy(old(a[..]), draws) && rng.Emitted() == end
  {
    var len := a.Length;
    if len < 2 {
      return;
    }
    ghost var stream, pos := rng.Source(), rng.Emitted();
    ghost var (d, end) := StreamDraws(stream, pos, len - 1);
    ghost var result := ShuffleBy(a[..], d);
    var i := len - 1;
    while i > 0
      invariant rng.Valid() && 0 <= i < len && rng.Emitted() == pos
      invariant SuppliesDraws(stream, pos, i) && StreamDraws(stream, pos, i) == (d, end)
      invariant ShuffleBy(a[..], d) == result
    {
      ghost var next := pos + DrawnBytes(stream, pos, 8, i + 1);
      DrawsStep(stream, pos, i, next, d, end);
      var j := DrawIndex(rng, i);
      SwapAt(a, i, j);
      pos, d := next, d[..i - 1];
      i := i - 1;
    }
  }
}
