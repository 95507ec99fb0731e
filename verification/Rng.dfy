/**
 The random source of arkhe-rand/src/lib.rs and the integer sampling of arkhe-rand/src/range.rs.
 The extendable-output function is a parameter: an endless byte stream for every seed.
 */
module Rng {
  import opened Bytes
  import opened Lemire

  const XOF_BLOCK_LEN: nat := 64

  type Stream = nat -> byte
  type Xof = seq<byte> -> Stream

  class RngSource {
    const xof: Xof
    const seed: seq<byte>
    /** Bytes taken from the stream so far. */
    var xofPos: nat
    /** One block of prefetched stream bytes, of which `block[pos..]` are not yet emitted. */
    const block: array<byte>
    var pos: nat

    ghost function Source(): Stream {
      xof(seed)
    }

    /** Bytes emitted so far. */
    ghost function Emitted(): nat
      reads this, block
      requires Valid()
    {
      xofPos - (XOF_BLOCK_LEN - pos)
    }

    /** The unread part of the cache is the end of what was read from the stream. */
    ghost predicate Valid()
      reads this, block
    {
      && block.Length == XOF_BLOCK_LEN
      && pos <= XOF_BLOCK_LEN
      && XOF_BLOCK_LEN - pos <= xofPos
      && forall i :: pos <= i < XOF_BLOCK_LEN ==> block[i] == Source()(xofPos - XOF_BLOCK_LEN + i)
    }

    constructor FromSeed(xof: Xof, seed: seq<byte>)
      requires |seed| == 32
      ensures Valid() && fresh(block) && Emitted() == 0
      ensures this.xof == xof && this.seed == seed
    {
      this.xof := xof;
      this.seed := seed;
      block := new byte[XOF_BLOCK_LEN](_ => 0);
      xofPos := 0;
      pos := XOF_BLOCK_LEN;
    }

    /** Reads the stream straight into `dst[lo..]`. */
    method XofFill(dst: array<byte>, lo: nat)
      requires lo <= dst.Length
      modifies this`xofPos, dst
      ensures xofPos == old(xofPos) + (dst.Length - lo)
      ensures forall i :: 0 <= i < lo ==> dst[i] == old(dst[i])
      ensures forall i :: lo <= i < dst.Length ==> dst[i] == Source()(old(xofPos) + i - lo)
    {
      for i := lo to dst.Length
        invariant xofPos == old(xofPos) + (i - lo)
        invariant forall k :: 0 <= k < lo ==> dst[k] == old(dst[k])
        invariant forall k :: lo <= k < i ==> dst[k] == Source()(old(xofPos) + k - lo)
      {
        dst[i] := xof(seed)(xofPos);
        xofPos := xofPos + 1;
      }
    }

    /** Emits exactly the next `buf.Length` bytes of the stream, whatever the cache holds. */
    method FillBytes(buf: array<byte>)
      requires Valid() && buf != block
      modifies this`xofPos, this`pos, block, buf
      ensures Valid() && Emitted() == old(Emitted()) + buf.Length
      ensures buf[..] == Slice(Source(), old(Emitted()), buf.Length)
    {
      ghost var start := Emitted();
      var filled := 0;
      while filled < buf.Length
        invariant Valid() && 0 <= filled <= buf.Length
        invariant Emitted() == start + filled
        invariant forall k :: 0 <= k < filled ==> buf[k] == Source()(start + k)
        decreases buf.Length - filled
      {
        if pos == XOF_BLOCK_LEN {
          if buf.Length - filled >= XOF_BLOCK_LEN {
            XofFill(buf, filled);
            break;
          }
          XofFill(block, 0);
          pos := 0;
        }
        var n := Min(buf.Length - filled, XOF_BLOCK_LEN - pos);
        CopyFromBlock(buf, filled, n);
        pos := pos + n;
        filled := filled + n;
      }
      assert forall k :: 0 <= k < buf.Length ==> buf[k] == Source()(start + k);
    }

    /** `buf[filled..filled + n].copy_from_slice(&block[pos..pos + n])` */
    method CopyFromBlock(buf: array<byte>, filled: nat, n: nat)
      requires buf != block && filled + n <= buf.Length && pos + n <= block.Length
      modifies buf
      ensures forall k :: filled <= k < filled + n ==> buf[k] == block[pos + k - filled]
      ensures forall k :: 0 <= k < filled || filled + n <= k < buf.Length ==> buf[k] == old(buf[k])
    {
      forall k | filled <= k < filled + n {
        buf[k] := block[pos + k - filled];
      }
    }

    /** The child's seed is the next 32 bytes of the parent; the child starts its own stream. */
    method Split() returns (child: RngSource)
      requires Valid()
      modifies this`xofPos, this`pos, block
      ensures Valid() && Emitted() == old(Emitted()) + 32
      ensures fresh(child) && fresh(child.block) && child.Valid() && child.Emitted() == 0
      ensures child.xof == xof && child.seed == Slice(Source(), old(Emitted()), 32)
    {
      var buf := new byte[32](_ => 0);
      FillBytes(buf);
      child := new RngSource.FromSeed(xof, buf[..]);
    }
  }

  function Min(a: nat, b: nat): nat {
    if a <= b then a else b
  }

  // ------------------------------------------------------------------ requests in sequence

  /** A caller asks for n bytes, or for a child source. */
  datatype Request = Fill(n: nat) | SplitOff

  datatype Answer = Filled(bytes: seq<byte>) | Child(rng: RngSource)

  function Needed(q: Request): nat {
    match q
    case Fill(n) => n
    case SplitOff => 32
  }

  function Total(requests: seq<Request>): nat {
    if requests == [] then 0
    else Total(requests[..|requests| - 1]) + Needed(requests[|requests| - 1])
  }

  /** The stream bytes that went into an answer; a child takes its seed. */
  function HandedOut(a: Answer): seq<byte> {
    match a
    case Filled(bytes) => bytes
    case Child(rng) => rng.seed
  }

  function AllHandedOut(answers: seq<Answer>): seq<byte> {
    if answers == [] then []
    else AllHandedOut(answers[..|answers| - 1]) + HandedOut(answers[|answers| - 1])
  }

  /** The answer is of the kind and length asked for; a child draws from the same family of streams. */
  ghost predicate Answers(xof: Xof, q: Request, a: Answer) {
    && (q.SplitOff? <==> a.Child?)
    && |HandedOut(a)| == Needed(q)
    && (a.Child? ==> a.rng.xof == xof)
  }

  /** A child in the answer is ready to use and has emitted nothing. */
  ghost predicate Ready(a: Answer)
    reads if a.Child? then {a.rng, a.rng.block} else {}
  {
    a.Child? ==> a.rng.Valid() && a.rng.Emitted() == 0
  }

  /** The children and their caches are among these objects, and no two children share one. */
  ghost predicate Apart(owned: set<object>, answers: seq<Answer>) {
    && (forall i :: 0 <= i < |answers| && answers[i].Child? ==>
          answers[i].rng in owned && answers[i].rng.block in owned)
    && (forall i, j :: 0 <= i < j < |answers| && answers[i].Child? && answers[j].Child? ==>
          answers[i].rng != answers[j].rng && answers[i].rng.block != answers[j].rng.block)
  }

  ghost function ObjectsOf(a: Answer): set<object> {
    if a.Child? then {a.rng, a.rng.block} else {}
  }

  /** Every child in the answers is ready to use. */
  ghost predicate AllReady(owned: set<object>, answers: seq<Answer>)
    reads owned
  {
    forall i :: 0 <= i < |answers| && answers[i].Child? ==>
      answers[i].rng in owned && answers[i].rng.block in owned && Ready(answers[i])
  }

  lemma ApartAppend(owned: set<object>, answers: seq<Answer>, a: Answer)
    requires Apart(owned, answers) && ObjectsOf(a) !! owned
    ensures Apart(owned + ObjectsOf(a), answers + [a])
  {}

  lemma AllReadyAppend(owned: set<object>, answers: seq<Answer>, a: Answer)
    requires AllReady(owned, answers) && Ready(a)
    ensures AllReady(owned + ObjectsOf(a), answers + [a])
  {}

  method ServeOne(rng: RngSource, q: Request) returns (a: Answer)
    requires rng.Valid()
    modifies rng`xofPos, rng`pos, rng.block
    ensures rng.Valid() && rng.Emitted() == old(rng.Emitted()) + Needed(q)
    ensures Answers(rng.xof, q, a) && HandedOut(a) == Slice(rng.Source(), old(rng.Emitted()), Needed(q))
    ensures Ready(a) && fresh(ObjectsOf(a))
  {
    match q
    case Fill(n) =>
      var buf := new byte[n](_ => 0);
      rng.FillBytes(buf);
      a := Filled(buf[..]);
    case SplitOff =>
      var child := rng.Split();
      a := Child(child);
  }

  /** Together the answers use up the stretch of the stream from `start` on, each byte once and in order. */
  ghost predicate Served(rng: RngSource, start: nat, requests: seq<Request>, answers: seq<Answer>) {
    && |answers| == |requests|
    && (forall k :: 0 <= k < |requests| ==> Answers(rng.xof, requests[k], answers[k]))
    && AllHandedOut(answers) == Slice(rng.Source(), start, Total(requests))
  }

  lemma ServedStep(rng: RngSource, start: nat, requests: seq<Request>, answers: seq<Answer>, q: Request, a: Answer)
    requires Served(rng, start, requests, answers) && Answers(rng.xof, q, a)
    requires HandedOut(a) == Slice(rng.Source(), start + Total(requests), Needed(q))
    ensures Served(rng, start, requests + [q], answers + [a])
    ensures Total(requests + [q]) == Total(requests) + Needed(q)
  {
    assert (requests + [q])[..|requests|] == requests && (answers + [a])[..|answers|] == answers;
    SliceAppend(rng.Source(), start, Total(requests), Needed(q));
  }

  /** One more request after those answered: the children so far are not touched. */
  method ServeNext(rng: RngSource, ghost start: nat, ghost requests: seq<Request>, answers: seq<Answer>,
                   ghost owned: set<object>, q: Request) returns (all: seq<Answer>, ghost wider: set<object>)
    requires rng.Valid() && rng.Emitted() == start + Total(requests) && Served(rng, start, requests, answers)
    requires {rng, rng.block} !! owned && Apart(owned, answers) && AllReady(owned, answers)
    modifies rng`xofPos, rng`pos, rng.block
    ensures rng.Valid() && rng.Emitted() == start + Total(requests + [q]) && Served(rng, start, requests + [q], all)
    ensures owned <= wider && fresh(wider - owned) && Apart(wider, all) && AllReady(wider, all)
  {
    var answer := ServeOne(rng, q);
    ServedStep(rng, start, requests, answers, q, answer);
    assert ObjectsOf(answer) !! owned;
    ApartAppend(owned, answers, answer);
    AllReadyAppend(owned, answers, answer);
    all, wider := answers + [answer], owned + ObjectsOf(answer);
  }

  /** Fills and splits in any order, served one after the other; every child comes out unused and on its own. */
  method ServeRequests(rng: RngSource, requests: seq<Request>) returns (answers: seq<Answer>, ghost owned: set<object>)
    requires rng.Valid()
    modifies rng`xofPos, rng`pos, rng.block
    ensures rng.Valid() && rng.Emitted() == old(rng.Emitted()) + Total(requests)
    ensures Served(rng, old(rng.Emitted()), requests, answers)
    ensures fresh(owned) && Apart(owned, answers) && AllReady(owned, answers)
    decreases |requests|
  {
    if requests == [] {
      return [], {};
    }
    var n := |requests| - 1;
    ghost var start, front := rng.Emitted(), requests[..n];
    assert requests == front + [requests[n]];
    answers, owned := ServeRequests(rng, requests[..n]);
    answers, owned := ServeNext(rng, start, front, answers, owned, requests[n]);
  }

  // ------------------------------------------------------------------ rejection sampling

  /** The k-th word of `width` bytes from a position on. */
  function WordAt(stream: Stream, from: nat, width: nat, k: nat): (w: nat)
    ensures w < Pow256(width)
  {
    LeWord(Slice(stream, from + k * width, width))
  }

  /** The span a bound stands for: 0 is the whole word range. */
  function SpanOf(width: nat, n: nat): (span: nat)
    requires n < Pow256(width)
    ensures 0 < span <= Pow256(width)
  {
    if n == 0 then Pow256(width) else n
  }

  predicate AcceptedAt(stream: Stream, from: nat, width: nat, n: nat, k: nat)
    requires n < Pow256(width)
  {
    Accepted(Pow256(width), SpanOf(width, n), WordAt(stream, from, width, k))
  }

  /** Some word from this position on is accepted, so that the loop ends. */
  ghost predicate Supplies(stream: Stream, from: nat, width: nat, n: nat)
    requires n < Pow256(width)
  {
    exists k: nat :: AcceptedAt(stream, from, width, n, k)
  }

  ghost predicate IsFirstAccepted(stream: Stream, from: nat, width: nat, n: nat, k: nat)
    requires n < Pow256(width)
  {
    AcceptedAt(stream, from, width, n, k)
    && forall j: nat :: j < k ==> !AcceptedAt(stream, from, width, n, j)
  }

  lemma {:induction false} LeastAccepted(stream: Stream, from: nat, width: nat, n: nat, bound: nat) returns (k: nat)
    requires n < Pow256(width) && AcceptedAt(stream, from, width, n, bound)
    ensures IsFirstAccepted(stream, from, width, n, k)
    decreases bound
  {
    k := bound;
    if j: nat :| j < bound && AcceptedAt(stream, from, width, n, j) {
      k := LeastAccepted(stream, from, width, n, j);
    }
  }

  ghost function FirstAccepted(stream: Stream, from: nat, width: nat, n: nat): (k: nat)
    requires n < Pow256(width) && Supplies(stream, from, width, n)
    ensures IsFirstAccepted(stream, from, width, n, k)
  {
    var bound: nat :| AcceptedAt(stream, from, width, n, bound);
    assert exists k: nat :: IsFirstAccepted(stream, from, width, n, k) by {
      var k := LeastAccepted(stream, from, width, n, bound);
    }
    var k: nat :| IsFirstAccepted(stream, from, width, n, k);
    k
  }

  /** The sample a bounded draw returns, and how many stream bytes it uses up. */
  ghost function DrawnSample(stream: Stream, from: nat, width: nat, n: nat): (r: nat)
    requires n < Pow256(width) && Supplies(stream, from, width, n)
    ensures r < SpanOf(width, n)
  {
    var x := WordAt(stream, from, width, FirstAccepted(stream, from, width, n));
    SampleInRange(Pow256(width), SpanOf(width, n), x);
    Sample(Pow256(width), SpanOf(width, n), x)
  }

  ghost function DrawnBytes(stream: Stream, from: nat, width: nat, n: nat): nat
    requires n < Pow256(width) && Supplies(stream, from, width, n)
  {
    (FirstAccepted(stream, from, width, n) + 1) * width
  }

  /** The value of the little-endian word of four bytes, and of eight as two of four. */
  lemma WordValues(s: seq<byte>)
    ensures |s| == 4 ==>
              LeWord(s) == s[0] as nat + 0x100 * (s[1] as nat) + 0x1_0000 * (s[2] as nat) + 0x100_0000 * (s[3] as nat)
    ensures |s| == 8 ==> LeWord(s) == LeWord(s[..4]) + 0x1_0000_0000 * LeWord(s[4..])
  {
    if |s| == 4 {
      WordOfFour(s);
    }
    if |s| == 8 {
      WordOfFour(s[..4]);
      LeWordStep(s);
      LeWordStep(s[1..]);
      LeWordStep(s[2..]);
      LeWordStep(s[3..]);
    }
  }

  lemma LeWordStep(s: seq<byte>)
    requires s != []
    ensures LeWord(s) == s[0] + 256 * LeWord(s[1..])
    ensures forall k :: 1 <= k <= |s| ==> s[1..][k - 1..] == s[k..]
  {}

  lemma WordOfFour(s: seq<byte>)
    requires |s| == 4
    ensures LeWord(s) == s[0] as nat + 0x100 * (s[1] as nat) + 0x1_0000 * (s[2] as nat) + 0x100_0000 * (s[3] as nat)
  {
    LeWordStep(s);
    LeWordStep(s[1..]);
    LeWordStep(s[2..]);
    LeWordStep(s[3..]);
  }

  /** The k-th word read is too low in its window: the low half of its product is below W mod span. */
  ghost predicate TooLow(stream: Stream, from: nat, width: nat, span: nat, k: nat)
    requires 0 < span <= Pow256(width)
  {
    (LeWord(Slice(stream, from + k * width, width)) * span) % Pow256(width) < Pow256(width) % span
  }

  /**
   A draw in full: it reads words of `width` bytes, skips the k that are too low, and returns the r in whose
   window, from r * W + W mod span up to the next multiple of W, the following word times the span lies.
   */
  lemma DrawIsInWindow(stream: Stream, from: nat, width: nat, n: nat) returns (k: nat)
    requires n < Pow256(width) && Supplies(stream, from, width, n)
    ensures DrawnBytes(stream, from, width, n) == (k + 1) * width
    ensures forall j: nat :: j < k ==> TooLow(stream, from, width, SpanOf(width, n), j)
    ensures var W, span := Pow256(width), if n == 0 then Pow256(width) else n;
            var r, x := DrawnSample(stream, from, width, n), LeWord(Slice(stream, from + k * width, width));
            r * W + W % span <= x * span < r * W + W
  {
    k := FirstAccepted(stream, from, width, n);
    var W, span := Pow256(width), SpanOf(width, n);
    WindowOf(W, span, DrawnSample(stream, from, width, n), WordAt(stream, from, width, k));
    forall j: nat | j < k
      ensures TooLow(stream, from, width, span, j)
    {
      assert !AcceptedAt(stream, from, width, n, j);
      ThresholdIsRemainder(W, span);
    }
  }

  lemma FullRangeIsAccepted(stream: Stream, from: nat, width: nat, k: nat)
    ensures AcceptedAt(stream, from, width, 0, k)
    ensures Sample(Pow256(width), Pow256(width), WordAt(stream, from, width, k)) == WordAt(stream, from, width, k)
  {
    FullRange(Pow256(width), WordAt(stream, from, width, k));
  }

  /** Fills a buffer of `width` bytes and reads it as a little-endian word. */
  method NextWord(rng: RngSource, width: nat) returns (x: nat)
    requires rng.Valid()
    modifies rng`xofPos, rng`pos, rng.block
    ensures rng.Valid() && rng.Emitted() == old(rng.Emitted()) + width
    ensures x == LeWord(Slice(rng.Source(), old(rng.Emitted()), width))
  {
    var buf := new byte[width](_ => 0);
    rng.FillBytes(buf);
    x := LeWord(buf[..]);
  }

  /** One turn of the loop: the threshold is worked out only when the low half is below n. */
  method TryWord(W: nat, n: nat, x: nat) returns (ok: bool, r: nat)
    requires 0 < n < W && x < W
    ensures ok == Accepted(W, n, x)
    ensures ok ==> r == Sample(W, n, x) < n
  {
    var m := x * n;
    var l := m % W;
    if l < n {
      var t := (W - n) % n;
      if l < t {
        return false, 0;
      }
    }
    SampleInRange(W, n, x);
    r := m / W;
    ok := true;
  }

  /**
   `lemire_u32` and `lemire_u64`, for words of 4 and 8 bytes. The loop returns the sample of the
   first accepted word; the bound 0 stands for the full range and takes the first word as it is.
   */
  method LemireDraw(rng: RngSource, width: nat, n: nat) returns (r: nat)
    requires rng.Valid() && width in {4, 8} && n < Pow256(width)
    requires n != 0 ==> Supplies(rng.Source(), rng.Emitted(), width, n)
    modifies rng`xofPos, rng`pos, rng.block
    ensures rng.Valid() && Supplies(rng.Source(), old(rng.Emitted()), width, n)
    ensures r == DrawnSample(rng.Source(), old(rng.Emitted()), width, n)
    ensures rng.Emitted() == old(rng.Emitted()) + DrawnBytes(rng.Source(), old(rng.Emitted()), width, n)
  {
    ghost var stream, from := rng.Source(), rng.Emitted();
    if n == 0 {
      FullRangeIsAccepted(stream, from, width, 0);
      assert IsFirstAccepted(stream, from, width, 0, 0);
      assert FirstAccepted(stream, from, width, 0) == 0;
      r := NextWord(rng, width);
      return;
    }
    var W := Pow256(width);
    ghost var first := FirstAccepted(stream, from, width, n);
    ghost var k := 0;
    while true
      invariant rng.Valid() && k <= first
      invariant rng.Emitted() == from + k * width
      decreases first - k
    {
      var x := NextWord(rng, width);
      assert x == WordAt(stream, from, width, k);
      assert (k + 1) * width == k * width + width;
      var ok, sample := TryWord(W, n, x);
      if ok {
        assert AcceptedAt(stream, from, width, n, k);
        return sample;
      }
      assert !AcceptedAt(stream, from, width, n, k);
      k := k + 1;
    }
  }

  // ------------------------------------------------------------------ integer types

  /** The sampled integer types; `Usize` carries the pointer width of the target. */
  datatype IntType = U8 | U16 | U32 | U64 | Usize32 | Usize64 {
    function Modulus(): (m: nat)
      ensures m > 0
    {
      match this
      case U8 => 0x100
      case U16 => 0x1_0000
      case U32 | Usize32 => 0x1_0000_0000
      case U64 | Usize64 => 0x1_0000_0000_0000_0000
    }

    /** Bytes of a draw: `usize` takes the 64-bit path on every target. */
    function WordWidth(): (w: nat)
      ensures w in {4, 8} && Modulus() <= Pow256(w)
      ensures w == 4 <==> this in {U8, U16, U32}
    {
      Pow256Values();
      match this
      case U8 | U16 | U32 => 4
      case U64 | Usize32 | Usize64 => 8
    }
  }

  /** How many bytes a value of the type takes. */
  lemma ModulusIsByByteSize(ty: IntType)
    ensures ty.Modulus() == Pow256(match ty case U8 => 1 case U16 => 2 case U32 | Usize32 => 4 case U64 | Usize64 => 8)
  {
    Pow256Values();
    assert Pow256(1) == 256 * Pow256(0) && Pow256(2) == 256 * Pow256(1);
  }

  /** The bound passed on for an inclusive range: a full word range becomes the sentinel 0, and an
      inverted one, in a build without overflow checks, whatever its span wraps to. */
  function InclusiveBound(ty: IntType, low: nat, high: nat): (n: nat)
    requires low < ty.Modulus() && high < ty.Modulus()
    ensures n < Pow256(ty.WordWidth())
    ensures low <= high ==> SpanOf(ty.WordWidth(), n) == high - low + 1
  {
    var W := Pow256(ty.WordWidth());
    SpanModulo(high - low + 1, W);
    (high - low + 1) % W
  }

  lemma SpanModulo(span: int, W: nat)
    requires W > 0
    ensures 0 < span <= W ==> span % W == if span == W then 0 else span
  {
    if span == W {
      DivisionUnique(span, W, 1, 0);
    } else if 0 < span < W {
      SmallModulo(span, W);
    }
  }

  /** A cast to a type that can hold the value changes nothing. */
  lemma SmallModulo(a: nat, m: nat)
    requires a < m
    ensures a % m == a
  {}

  lemma Regroup(q: int, W: nat, d: int, r: int)
    ensures q * (W * W) + (d * W + r) == (q * W + d) * W + r
  {}

  /** Narrowing a span wrapped to twice the width leaves it modulo the width. */
  lemma NarrowedSpan(x: int, W: nat)
    requires W > 0
    ensures W * W > 0 && (x % (W * W)) % W == x % W
  {
    var r := x % (W * W);
    Regroup(x / (W * W), W, r / W, r % W);
    DivisionUnique(x, W, x / (W * W) * W + r / W, r % W);
  }

  /** The span of an inclusive range, worked out in twice the width and narrowed. */
  method WidenedBound(ty: IntType, low: nat, high: nat) returns (n: nat)
    requires low < ty.Modulus() && high < ty.Modulus()
    ensures n == InclusiveBound(ty, low, high)
  {
    var W := Pow256(ty.WordWidth());
    NarrowedSpan(high - low + 1, W);
    var span := (high - low + 1) % (W * W);
    n := if span == W then 0 else span % W;
  }

  /** `gen_range_inclusive` through `lemire_inclusive`, with its wrapping addition. */
  method GenRangeInclusive(rng: RngSource, ty: IntType, low: nat, high: nat) returns (v: nat)
    requires rng.Valid() && low < ty.Modulus() && high < ty.Modulus()
    requires Supplies(rng.Source(), rng.Emitted(), ty.WordWidth(), InclusiveBound(ty, low, high))
    modifies rng`xofPos, rng`pos, rng.block
    ensures rng.Valid()
    ensures var width := if ty in {U8, U16, U32} then 4 else 8;
            var n := InclusiveBound(ty, low, high);
            && v == (low + DrawnSample(rng.Source(), old(rng.Emitted()), width, n)) % ty.Modulus()
            && rng.Emitted() == old(rng.Emitted()) + DrawnBytes(rng.Source(), old(rng.Emitted()), width, n)
    ensures low <= high ==>
      && low <= v <= high
      && v == low + DrawnSample(rng.Source(), old(rng.Emitted()), ty.WordWidth(), InclusiveBound(ty, low, high))
  {
    var n := WidenedBound(ty, low, high);
    var r := LemireDraw(rng, ty.WordWidth(), n);
    v := WrappingAdd(ty, low, r);
  }

  lemma AddedModulo(low: nat, r: nat, M: nat)
    requires M > 0
    ensures (low + r % M) % M == (low + r) % M
    ensures low + r < M ==> (low + r) % M == low + r
  {
    Distributes(r / M, (low + r % M) / M, M);
    DivisionUnique(low + r, M, r / M + (low + r % M) / M, (low + r % M) % M);
    if low + r < M {
      SmallModulo(low + r, M);
    }
  }

  lemma Distributes(a: int, b: int, M: nat)
    ensures (a + b) * M == a * M + b * M
  {}

  /** `low.wrapping_add(r as Self)` */
  function WrappingAdd(ty: IntType, low: nat, r: nat): (v: nat)
    requires low < ty.Modulus()
    ensures v == (low + r) % ty.Modulus()
    ensures low + r < ty.Modulus() ==> v == low + r
  {
    var M := ty.Modulus();
    AddedModulo(low, r, M);
    (low + r % M) % M
  }

  /** `gen_range`: an empty range returns its start and takes nothing from the stream. */
  method GenRange(rng: RngSource, ty: IntType, start: nat, end: nat) returns (v: nat)
    requires rng.Valid() && start < ty.Modulus() && end < ty.Modulus()
    requires start < end ==> Supplies(rng.Source(), rng.Emitted(), ty.WordWidth(), end - start)
    modifies rng`xofPos, rng`pos, rng.block
    ensures rng.Valid()
    ensures start >= end ==> v == start && rng.Emitted() == old(rng.Emitted())
    ensures start < end ==>
      var width := if ty in {U8, U16, U32} then 4 else 8;
      && start <= v < end
      && v == start + DrawnSample(rng.Source(), old(rng.Emitted()), width, end - start)
      && rng.Emitted() == old(rng.Emitted()) + DrawnBytes(rng.Source(), old(rng.Emitted()), width, end - start)
  {
    if start >= end {
      return start;
    }
    var r := LemireDraw(rng, ty.WordWidth(), end - start);
    SmallModulo(r, ty.Modulus());
    v := start + r % ty.Modulus();
  }

  // ------------------------------------------------------------------ uniformity of a range

  /** The words of one draw that make `gen_range_inclusive` return v. */
  ghost function WordsGiving(ty: IntType, low: nat, high: nat, v: nat): set<nat>
    requires low <= high < ty.Modulus()
  {
    set x: nat | x < Pow256(ty.WordWidth()) && Gives(ty, low, high, x, v)
  }

  predicate Gives(ty: IntType, low: nat, high: nat, x: nat, v: nat)
    requires low <= high < ty.Modulus()
  {
    var W, span := Pow256(ty.WordWidth()), high - low + 1;
    Accepted(W, span, x) && low + Sample(W, span, x) == v
  }

  /** Every value of an inclusive range, the full range of the type included, is equally likely. */
  lemma InclusiveIsUniform(ty: IntType, low: nat, high: nat, v: nat)
    requires low <= v <= high < ty.Modulus()
    ensures |WordsGiving(ty, low, high, v)| == Pow256(ty.WordWidth()) / (high - low + 1)
    ensures |RejectedWords(Pow256(ty.WordWidth()), high - low + 1)| == Pow256(ty.WordWidth()) % (high - low + 1)
  {
    var W, span := Pow256(ty.WordWidth()), high - low + 1;
    assert WordsGiving(ty, low, high, v) == WordsFor(W, span, v - low);
    UniformSamples(W, span, v - low);
    RejectionCount(W, span);
  }

  /** The byte strings of one draw that make `gen_range_inclusive` return v: what the stream really supplies. */
  ghost function BytesGiving(ty: IntType, low: nat, high: nat, v: nat): set<seq<byte>>
    requires low <= high < ty.Modulus()
  {
    BytesOf(WordsGiving(ty, low, high, v), ty.WordWidth())
  }

  ghost function BytesOf(words: set<nat>, width: nat): set<seq<byte>>
    requires forall x :: x in words ==> x < Pow256(width)
  {
    set x | x in words :: LeBytes(x, width)
  }

  /** Reading bytes as a word loses nothing, so there are as many byte strings as words. */
  lemma {:induction false} BytesCount(words: set<nat>, width: nat)
    requires forall x :: x in words ==> x < Pow256(width)
    ensures |BytesOf(words, width)| == |words|
    decreases |words|
  {
    if words != {} {
      var x :| x in words;
      var rest := words - {x};
      BytesCount(rest, width);
      assert LeBytes(x, width) !in BytesOf(rest, width) by {
        assert forall y :: y in rest ==> LeWord(LeBytes(y, width)) != LeWord(LeBytes(x, width));
      }
      assert BytesOf(words, width) == BytesOf(rest, width) + {LeBytes(x, width)};
    }
  }

  lemma BytesOfWords(words: set<nat>, width: nat, s: seq<byte>)
    requires forall x :: x in words ==> x < Pow256(width)
    ensures s in BytesOf(words, width) <==> |s| == width && LeWord(s) in words
  {
    if |s| == width && LeWord(s) in words {
      LeWordInjective(s, LeBytes(LeWord(s), width));
    }
  }

  /** Among the byte strings of a word's length equally many give each value of an inclusive range. */
  lemma InclusiveBytesAreUniform(ty: IntType, low: nat, high: nat, v: nat)
    requires low <= v <= high < ty.Modulus()
    ensures forall s :: s in BytesGiving(ty, low, high, v)
                   <==> |s| == ty.WordWidth() && Gives(ty, low, high, LeWord(s), v)
    ensures |BytesGiving(ty, low, high, v)| == Pow256(ty.WordWidth()) / (high - low + 1)
  {
    var words := WordsGiving(ty, low, high, v);
    forall s
      ensures s in BytesGiving(ty, low, high, v) <==> |s| == ty.WordWidth() && Gives(ty, low, high, LeWord(s), v)
    {
      BytesOfWords(words, ty.WordWidth(), s);
    }
    BytesCount(words, ty.WordWidth());
    InclusiveIsUniform(ty, low, high, v);
  }
}
