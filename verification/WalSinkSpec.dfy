/**
 The buffered sink of arkhe-forge-platform/src/wal_export/buffered_sink.rs as a function on values,
 and what every run of appends and flushes puts on the stream.
 */
module WalSinkSpec {
  import opened Bytes
  import opened Types
  import opened WalFrames

  const USIZE_MAX: nat := 0xFFFF_FFFF_FFFF_FFFF

  type Capacity = n: nat | n <= 0xFFFF_FFFF_FFFF_FFFF

  /** What the underlying writer does with one flush: all of it, nothing, or write but fail to sync. */
  datatype WriterOutcome = Done | WriteFails | SyncFails

  datatype Sink = Sink(
    written: seq<byte>,
    outcomes: nat -> WriterOutcome,
    flushes: nat,
    buffer: seq<byte>,
    capacity: Capacity,
    headerEmitted: bool,
    lastSeq: Option<u64>)

  datatype Error =
    | Io
    | InvalidFraming(reason: Reason)
    | AppendOnlyViolation(expectedSeq: u64, gotSeq: u64, previousSeq: Option<u64>)
    | SeqExhausted(last: u64)
    | BufferOverflow(capacity: nat, requested: nat, currentBuffer: nat)

  function NewSink(capacity: Capacity, outcomes: nat -> WriterOutcome): Sink {
    Sink([], outcomes, 0, [], capacity, false, None)
  }

  function CheckLength(p: Payload): Result<nat, Error> {
    if |p| == 0 then Err(InvalidFraming(LengthZero))
    else if |p| > MAX_RECORD_BYTES then Err(InvalidFraming(LengthExceedsMax(|p|)))
    else Ok(|p|)
  }

  function CheckSeq(last: Option<u64>, seqNo: u64): Result<(), Error> {
    match last
    case None => Ok(())
    case Some(prev) =>
      if prev == U64_MAX then Err(SeqExhausted(prev))
      else if seqNo != prev + 1 then Err(AppendOnlyViolation(prev + 1, seqNo, Some(prev)))
      else Ok(())
  }

  function EnsureHeader(s: Sink): Sink {
    if s.headerEmitted then s else s.(buffer := s.buffer + STREAM_HEADER_MAGIC, headerEmitted := true)
  }

  /** The saturating sum of the capacity check. */
  function SaturatingUsize(a: nat, b: nat): nat {
    if a + b > USIZE_MAX then USIZE_MAX else a + b
  }

  /** `append_record`; note that the header goes in before the capacity check. */
  function Append(s: Sink, seqNo: u64, p: Payload): (Sink, Result<(), Error>) {
    if CheckLength(p).Err? then (s, Err(CheckLength(p).error))
    else if CheckSeq(s.lastSeq, seqNo).Err? then (s, Err(CheckSeq(s.lastSeq, seqNo).error))
    else
      var s' := EnsureHeader(s);
      if SaturatingUsize(|s'.buffer|, 8 + |p|) > s.capacity
      then (s', Err(BufferOverflow(s.capacity, 8 + |p|, |s'.buffer|)))
      else (s'.(buffer := s'.buffer + Frame(p), lastSeq := Some(seqNo)), Ok(()))
  }

  /** `flush`; the buffer is cleared only when write and sync both succeed. */
  function Flush(s: Sink): (Sink, Result<(), Error>) {
    var s' := EnsureHeader(s);
    if s'.buffer == [] then (s', Ok(()))
    else
      var out := s'.(flushes := s'.flushes + 1);
      match s'.outcomes(s'.flushes)
      case Done => (out.(written := s'.written + s'.buffer, buffer := []), Ok(()))
      case WriteFails => (out, Err(Io))
      case SyncFails => (out.(written := s'.written + s'.buffer), Err(Io))
  }

  // ------------------------------------------------------------------ when an append is taken

  predicate Follows(a: u64, b: u64) {
    a as int + 1 == b as int
  }

  /** What the buffer holds once the header is in. */
  function Pinned(s: Sink): nat {
    |s.buffer| + if s.headerEmitted then 0 else 8
  }

  /** The record is legal, next in sequence, and header and frame fit; the largest capacity refuses nothing. */
  predicate Takes(s: Sink, seqNo: u64, p: Payload) {
    && 0 < |p| <= 0x100_0000
    && (s.lastSeq.Some? ==> Follows(s.lastSeq.value, seqNo))
    && (s.capacity == USIZE_MAX || Pinned(s) + 8 + |p| <= s.capacity)
  }

  /** An append is taken exactly then, and adds the frame, behind the header if that was missing. */
  lemma AppendTakesIff(s: Sink, seqNo: u64, p: Payload)
    ensures Append(s, seqNo, p).1.Ok? <==> Takes(s, seqNo, p)
    ensures Takes(s, seqNo, p) ==>
              && Legal(p)
              && Append(s, seqNo, p).0
                 == Sink(s.written, s.outcomes, s.flushes,
                         s.buffer + (if s.headerEmitted then [] else STREAM_HEADER_MAGIC) + Frame(p),
                         s.capacity, true, Some(seqNo))
  {
    ConcatEmpty(s.buffer);
  }

  /** Otherwise: the length is reported first, then the end of the sequence or a hole in it, both leaving the
      sink alone, then the overflow, which leaves the header in the buffer. */
  lemma AppendRefusals(s: Sink, seqNo: u64, p: Payload)
    ensures p == [] ==> Append(s, seqNo, p) == (s, Err(InvalidFraming(LengthZero)))
    ensures |p| > 0x100_0000 ==> Append(s, seqNo, p) == (s, Err(InvalidFraming(LengthExceedsMax(|p|))))
    ensures Legal(p) && s.lastSeq == Some(U64_MAX) ==> Append(s, seqNo, p) == (s, Err(SeqExhausted(U64_MAX)))
    ensures forall last: u64 :: Legal(p) && s.lastSeq == Some(last) && last < U64_MAX && !Follows(last, seqNo) ==>
              Append(s, seqNo, p) == (s, Err(AppendOnlyViolation(last + 1, seqNo, Some(last))))
    ensures Legal(p) && (s.lastSeq.Some? ==> Follows(s.lastSeq.value, seqNo)) && !Takes(s, seqNo, p) ==>
              && Append(s, seqNo, p).1 == Err(BufferOverflow(s.capacity, 8 + |p|, Pinned(s)))
              && Append(s, seqNo, p).0
                 == s.(headerEmitted := true,
                       buffer := s.buffer + if s.headerEmitted then [] else STREAM_HEADER_MAGIC)
  {
    ConcatEmpty(s.buffer);
  }

  /** A flush with nothing to write succeeds without the writer. Any other puts the header in and calls the writer
      once: it succeeds, with the buffer moved to the stream, exactly when the writer is done; a failed write
      changes neither, and a failed sync leaves the buffer, all of it also on the stream. */
  lemma FlushOutcome(s: Sink)
    ensures var (s', r) := Flush(s);
            var full := s.buffer + if s.headerEmitted then [] else STREAM_HEADER_MAGIC;
            if full == [] then s' == s && r == Ok(())
            else
              && s'.headerEmitted && s'.flushes == s.flushes + 1
              && s'.capacity == s.capacity && s'.lastSeq == s.lastSeq && s'.outcomes == s.outcomes
              && match s.outcomes(s.flushes)
                 case Done => r == Ok(()) && s'.written == s.written + full && s'.buffer == []
                 case WriteFails => r == Err(Io) && s'.written == s.written && s'.buffer == full
                 case SyncFails => r == Err(Io) && s'.written == s.written + full && s'.buffer == full
  {
    ConcatEmpty(s.buffer);
  }

  // ------------------------------------------------------------------ runs

  datatype Step = AppendStep(seqNo: u64, p: Payload) | FlushStep

  /** A sink with the records it took in. */
  datatype Run = Run(sink: Sink, taken: seq<(u64, Payload)>)

  function Next(run: Run, step: Step): Run {
    match step
    case AppendStep(seqNo, p) =>
      var (s, r) := Append(run.sink, seqNo, p);
      Run(s, if r.Ok? then run.taken + [(seqNo, p)] else run.taken)
    case FlushStep => run.(sink := Flush(run.sink).0)
  }

  function After(run: Run, steps: seq<Step>): Run
    decreases steps
  {
    if steps == [] then run else After(Next(run, steps[0]), steps[1..])
  }

  function PayloadsOf(records: seq<(u64, Payload)>): (ps: seq<Payload>)
    ensures |ps| == |records|
  {
    seq(|records|, k requires 0 <= k < |records| => records[k].1)
  }

  predicate Consecutive(records: seq<(u64, Payload)>) {
    forall k :: 0 < k < |records| ==> Follows(records[k - 1].0, records[k].0)
  }

  // ------------------------------------------------------------------ what a run keeps

  /** The records taken are legal, in sequence, and behind a header. */
  ghost predicate InSequence(run: Run) {
    && AllLegal(PayloadsOf(run.taken))
    && Consecutive(run.taken)
    && run.sink.lastSeq == (if run.taken == [] then None else Some(run.taken[|run.taken| - 1].0))
    && (run.taken != [] ==> run.sink.headerEmitted)
  }

  lemma NextInSequence(run: Run, step: Step)
    requires InSequence(run)
    ensures InSequence(Next(run, step))
  {
    if step.AppendStep? && Append(run.sink, step.seqNo, step.p).1.Ok? {
      assert PayloadsOf(run.taken + [(step.seqNo, step.p)]) == PayloadsOf(run.taken) + [step.p];
    }
  }

  /** The buffer is empty before the header and within the capacity, or the header, after it. */
  ghost predicate Bounded(s: Sink) {
    && (!s.headerEmitted ==> s.buffer == [])
    && (s.capacity < USIZE_MAX ==> |s.buffer| <= if s.capacity < 8 then 8 else s.capacity)
  }

  lemma NextBounded(run: Run, step: Step)
    requires Bounded(run.sink)
    ensures Bounded(Next(run, step).sink)
    ensures Next(run, step).sink.capacity == run.sink.capacity
    ensures Next(run, step).sink.outcomes == run.sink.outcomes
  {}

  /** Some flush so far wrote its bytes and then failed to sync. */
  ghost predicate HalfFailed(s: Sink) {
    exists n: nat :: n < s.flushes && s.outcomes(n) == SyncFails
  }

  /** What one header and each record once would be. */
  function Once(run: Run): seq<byte>
    requires AllLegal(PayloadsOf(run.taken))
  {
    (if run.sink.headerEmitted then STREAM_HEADER_MAGIC else []) + Frames(PayloadsOf(run.taken))
  }

  /** Written and buffered bytes are those, or more than those after a half-failed flush. */
  ghost predicate Accounted(run: Run)
    requires AllLegal(PayloadsOf(run.taken))
  {
    if HalfFailed(run.sink) then |run.sink.written| + |run.sink.buffer| > |Once(run)|
    else run.sink.written + run.sink.buffer == Once(run)
  }

  ghost predicate Invariant(run: Run) {
    InSequence(run) && Bounded(run.sink) && Accounted(run)
  }

  lemma HeaderAccounted(run: Run)
    requires Invariant(run)
    ensures Invariant(run.(sink := EnsureHeader(run.sink)))
  {
    var run' := run.(sink := EnsureHeader(run.sink));
    assert HalfFailed(run'.sink) == HalfFailed(run.sink);
    if !run.sink.headerEmitted {
      assert Once(run) == [] && Once(run') == STREAM_HEADER_MAGIC;
    }
  }

  lemma OnceGrows(run: Run, seqNo: u64, p: Payload)
    requires AllLegal(PayloadsOf(run.taken)) && Legal(p)
    ensures var run' := run.(taken := run.taken + [(seqNo, p)]);
            AllLegal(PayloadsOf(run'.taken)) && Once(run') == Once(run) + Frame(p)
  {
    var ps := PayloadsOf(run.taken);
    assert PayloadsOf(run.taken + [(seqNo, p)]) == ps + [p];
    FramesAppend(ps, p);
    ConcatAssoc(if run.sink.headerEmitted then STREAM_HEADER_MAGIC else [], Frames(ps), Frame(p));
  }

  lemma TakingAccounted(run: Run, seqNo: u64, p: Payload)
    requires AllLegal(PayloadsOf(run.taken)) && Legal(p) && Accounted(run)
    ensures var run' := Run(run.sink.(buffer := run.sink.buffer + Frame(p), lastSeq := Some(seqNo)),
                            run.taken + [(seqNo, p)]);
            AllLegal(PayloadsOf(run'.taken)) && Accounted(run')
  {
    var run' := Run(run.sink.(buffer := run.sink.buffer + Frame(p), lastSeq := Some(seqNo)),
                    run.taken + [(seqNo, p)]);
    assert HalfFailed(run'.sink) == HalfFailed(run.sink);
    OnceGrows(run, seqNo, p);
    assert Once(run') == Once(run) + Frame(p);
    ConcatAssoc(run.sink.written, run.sink.buffer, Frame(p));
  }

  lemma AppendAccounted(run: Run, seqNo: u64, p: Payload)
    requires Invariant(run)
    ensures InSequence(Next(run, AppendStep(seqNo, p))) && Accounted(Next(run, AppendStep(seqNo, p)))
  {
    NextInSequence(run, AppendStep(seqNo, p));
    if CheckLength(p).Ok? && CheckSeq(run.sink.lastSeq, seqNo).Ok? {
      HeaderAccounted(run);
      var s := EnsureHeader(run.sink);
      if SaturatingUsize(|s.buffer|, 8 + |p|) <= s.capacity {
        TakingAccounted(run.(sink := s), seqNo, p);
      }
    }
  }

  /** One more flush is a half failure or leaves their number alone. */
  lemma HalfFailedAfter(s: Sink, s': Sink)
    requires s'.outcomes == s.outcomes && s'.flushes == s.flushes + 1
    ensures HalfFailed(s') <==> HalfFailed(s) || s.outcomes(s.flushes) == SyncFails
  {
    if s.outcomes(s.flushes) == SyncFails {
      assert s'.outcomes(s.flushes) == SyncFails;
    }
    if HalfFailed(s) {
      var n: nat :| n < s.flushes && s.outcomes(n) == SyncFails;
      assert s'.outcomes(n) == SyncFails;
    }
  }

  lemma FlushAccounted(run: Run)
    requires Invariant(run)
    ensures InSequence(Next(run, FlushStep)) && Accounted(Next(run, FlushStep))
  {
    NextInSequence(run, FlushStep);
    HeaderAccounted(run);
    var s, s' := EnsureHeader(run.sink), Flush(run.sink).0;
    if s.buffer != [] {
      HalfFailedAfter(s, s');
      assert Once(Next(run, FlushStep)) == Once(run.(sink := s));
      ConcatEmpty(s.written + s.buffer);
    }
  }

  lemma NextKeeps(run: Run, step: Step)
    requires Invariant(run)
    ensures Invariant(Next(run, step))
  {
    NextBounded(run, step);
    match step
    case AppendStep(seqNo, p) => AppendAccounted(run, seqNo, p);
    case FlushStep => FlushAccounted(run);
  }

  lemma {:induction false} AfterKeeps(run: Run, steps: seq<Step>)
    requires Invariant(run)
    ensures Invariant(After(run, steps))
    ensures After(run, steps).sink.capacity == run.sink.capacity
    ensures After(run, steps).sink.outcomes == run.sink.outcomes
    decreases steps
  {
    if steps != [] {
      NextKeeps(run, steps[0]);
      NextBounded(run, steps[0]);
      AfterKeeps(Next(run, steps[0]), steps[1..]);
    }
  }

  lemma StartKeeps(capacity: Capacity, outcomes: nat -> WriterOutcome)
    ensures Invariant(Run(NewSink(capacity, outcomes), []))
  {
    assert PayloadsOf([]) == [];
  }

  /** A successful flush leaves everything written, and more than once each after a half failure. */
  lemma FlushedEnd(run: Run)
    requires Invariant(run) && Flush(run.sink).1.Ok?
    ensures var end, all := Flush(run.sink).0, STREAM_HEADER_MAGIC + Frames(PayloadsOf(run.taken));
            if HalfFailed(end) then |end.written| > |all| else end.written == all
  {
    NextKeeps(run, FlushStep);
    var end := Flush(run.sink).0;
    ConcatEmpty(end.written);
    assert Once(Next(run, FlushStep)) == STREAM_HEADER_MAGIC + Frames(PayloadsOf(run.taken));
  }

  /**
   Round trip: after any run of appends and flushes that ends in a successful flush, the reader gets
   exactly the payloads taken in and then a clean end, if and only if no flush of the run wrote its
   bytes and then failed to sync. The payloads taken are in consecutive sequence either way.
   */
  lemma ReaderGetsWhatWasTaken(capacity: Capacity, outcomes: nat -> WriterOutcome, steps: seq<Step>)
    ensures var run := After(Run(NewSink(capacity, outcomes), []), steps);
            var (end, r) := Flush(run.sink);
            && Consecutive(run.taken)
            && (r.Ok? ==>
                  (ReadStream(end.written) == Opened(PayloadsOf(run.taken), EndOfStream)
                   <==> forall n: nat :: n < end.flushes ==> outcomes(n) != SyncFails))
  {
    var start := Run(NewSink(capacity, outcomes), []);
    StartKeeps(capacity, outcomes);
    AfterKeeps(start, steps);
    var run := After(start, steps);
    if Flush(run.sink).1.Ok? {
      FlushedEnd(run);
      StreamsAreHeaderAndFrames(Flush(run.sink).0.written, PayloadsOf(run.taken));
    }
  }

  // ------------------------------------------------------------------ at any moment of a run

  /** Without a half failure the stream so far is nothing, or a header and the first j records taken. */
  ghost predicate Durable(run: Run, j: nat)
    requires AllLegal(PayloadsOf(run.taken))
  {
    HalfFailed(run.sink) ||
    (j <= |run.taken| && (run.sink.written == [] ||
                          run.sink.written == STREAM_HEADER_MAGIC + Frames(PayloadsOf(run.taken)[..j])))
  }

  lemma AppendDurable(run: Run, seqNo: u64, p: Payload, j: nat)
    requires AllLegal(PayloadsOf(run.taken)) && Durable(run, j)
    requires AllLegal(PayloadsOf(Next(run, AppendStep(seqNo, p)).taken))
    ensures Durable(Next(run, AppendStep(seqNo, p)), j)
  {
    var run' := Next(run, AppendStep(seqNo, p));
    assert HalfFailed(run'.sink) == HalfFailed(run.sink) && run'.sink.written == run.sink.written;
    if j <= |run.taken| {
      assert PayloadsOf(run'.taken)[..j] == PayloadsOf(run.taken)[..j];
    }
  }

  lemma FlushDurable(run: Run, j: nat) returns (j': nat)
    requires Invariant(run) && Durable(run, j)
    ensures Durable(Next(run, FlushStep), j')
  {
    var s, s' := EnsureHeader(run.sink), Flush(run.sink).0;
    j' := j;
    if s.buffer != [] {
      HalfFailedAfter(s, s');
      assert HalfFailed(s) == HalfFailed(run.sink);
      if s.outcomes(s.flushes) == Done {
        j' := |run.taken|;
        FlushedEnd(run);
        assert PayloadsOf(run.taken)[..j'] == PayloadsOf(run.taken);
      }
    }
  }

  lemma {:induction false} AfterDurable(run: Run, steps: seq<Step>, j: nat) returns (j': nat)
    requires Invariant(run) && Durable(run, j)
    ensures Invariant(After(run, steps)) && Durable(After(run, steps), j')
    decreases steps
  {
    j' := j;
    if steps != [] {
      NextKeeps(run, steps[0]);
      match steps[0] {
        case AppendStep(seqNo, p) => AppendDurable(run, seqNo, p, j);
        case FlushStep => j' := FlushDurable(run, j);
      }
      j' := AfterDurable(Next(run, steps[0]), steps[1..], j');
    }
  }

  /**
   A crash at any moment of a run in which no flush wrote and then failed to sync: the stream is still
   empty, or the reader gets the first j payloads taken and a clean end.
   */
  lemma CrashLeavesAPrefix(capacity: Capacity, outcomes: nat -> WriterOutcome, steps: seq<Step>) returns (j: nat)
    ensures var run := After(Run(NewSink(capacity, outcomes), []), steps);
            HalfFailed(run.sink) ||
            (j <= |run.taken| && (run.sink.written == [] ||
                                  ReadStream(run.sink.written) == Opened(PayloadsOf(run.taken)[..j], EndOfStream)))
  {
    var start := Run(NewSink(capacity, outcomes), []);
    StartKeeps(capacity, outcomes);
    j := AfterDurable(start, steps, 0);
    var run := After(start, steps);
    if !HalfFailed(run.sink) && run.sink.written != [] {
      StreamsAreHeaderAndFrames(run.sink.written, PayloadsOf(run.taken)[..j]);
    }
  }

  /** Whatever the writer does, the buffer stays within the capacity, or the header when that is larger. */
  lemma BufferIsBounded(capacity: Capacity, outcomes: nat -> WriterOutcome, steps: seq<Step>)
    requires capacity < USIZE_MAX
    ensures |After(Run(NewSink(capacity, outcomes), []), steps).sink.buffer| <= if capacity < 8 then 8 else capacity
  {
    StartKeeps(capacity, outcomes);
    AfterKeeps(Run(NewSink(capacity, outcomes), []), steps);
  }

  // ------------------------------------------------------------------ a writer that fails to sync

  /** A flush keeps written plus buffered bytes exactly when the writer does not write and then fail. */
  lemma FlushKeepsContentUnlessHalfFailed(s: Sink)
    ensures var s0, s' := EnsureHeader(s), Flush(s).0;
            s'.written + s'.buffer == s0.written + s0.buffer
            <==> s0.buffer == [] || s.outcomes(s.flushes) != SyncFails
  {
    var s0, s' := EnsureHeader(s), Flush(s).0;
    if s0.buffer != [] && s.outcomes(s.flushes) == SyncFails {
      assert |s'.written + s'.buffer| == |s0.written + s0.buffer| + |s0.buffer|;
    }
  }

  /** Flushing again after such a failure repeats the buffer, and the reader rejects the stream. */
  lemma RetryAfterFailedSync(outcomes: nat -> WriterOutcome)
    requires outcomes(0) == SyncFails && outcomes(1) == Done
    ensures var s := Flush(Flush(NewSink(64, outcomes)).0).0;
            s.written == STREAM_HEADER_MAGIC + STREAM_HEADER_MAGIC
            && ReadStream(s.written) == Opened([], Broken(LengthExceedsMax(0x41524B4845585031)))
  {
    var bytes := STREAM_HEADER_MAGIC + STREAM_HEADER_MAGIC;
    assert bytes[..8] == STREAM_HEADER_MAGIC && bytes[8..] == STREAM_HEADER_MAGIC;
    MagicAsLength();
    assert STREAM_HEADER_MAGIC[..8] == STREAM_HEADER_MAGIC;
  }

  lemma MagicAsLength()
    ensures BeWord(STREAM_HEADER_MAGIC) == 0x41524B4845585031
  {
    var m := STREAM_HEADER_MAGIC;
    assert m[..8] == m;
    BeWordStep(m, 0); BeWordStep(m, 1); BeWordStep(m, 2); BeWordStep(m, 3);
    BeWordStep(m, 4); BeWordStep(m, 5); BeWordStep(m, 6); BeWordStep(m, 7);
  }

  lemma BeWordStep(s: seq<byte>, k: nat)
    requires k < |s|
    ensures BeWord(s[..k + 1]) == 256 * BeWord(s[..k]) + s[k]
  {
    assert s[..k + 1][..k] == s[..k];
  }

  // ------------------------------------------------------------------ exporting a whole log

  /** The loop of `wal_to_sink` from record k on, with one flush and one retry on overflow. */
  function Export(s: Sink, records: seq<(u64, Payload)>): (Sink, Result<(), Error>)
    decreases records
  {
    if records == [] then Flush(s) else
      var (seqNo, p) := records[0];
      var (s1, r1) := Append(s, seqNo, p);
      if r1.Ok? then Export(s1, records[1..])
      else if !r1.error.BufferOverflow? then (s1, r1)
      else
        var (s2, r2) := Flush(s1);
        if r2.Err? then (s2, r2) else
          var (s3, r3) := Append(s2, seqNo, p);
          if r3.Err? then (s3, r3) else Export(s3, records[1..])
  }

  /** Every frame fits an empty buffer. */
  predicate Exportable(last: Option<u64>, records: seq<(u64, Payload)>, capacity: Capacity) {
    && Consecutive(records)
    && (records != [] && last.Some? ==> Follows(last.value, records[0].0))
    && forall k :: 0 <= k < |records| ==> Legal(records[k].1) && 8 + |records[k].1| <= capacity
  }

  /** Written and buffered bytes, the header counted in. */
  function Stream(s: Sink): seq<byte> {
    s.written + EnsureHeader(s).buffer
  }

  lemma ExportableTail(last: Option<u64>, records: seq<(u64, Payload)>, capacity: Capacity)
    requires records != []
    ensures Exportable(last, records, capacity)
       <==> && Legal(records[0].1) && 8 + |records[0].1| <= capacity
            && (last.Some? ==> Follows(last.value, records[0].0))
            && Exportable(Some(records[0].0), records[1..], capacity)
  {
    var tail := records[1..];
    assert forall k :: 0 < k < |records| ==> records[k] == tail[k - 1];
    if Consecutive(tail) && (tail != [] ==> Follows(records[0].0, tail[0].0)) {
      forall k | 0 < k < |records| ensures Follows(records[k - 1].0, records[k].0) {
        if k > 1 {
          assert Follows(tail[k - 2].0, tail[k - 1].0);
        }
      }
    }
    if Consecutive(records) {
      forall k | 0 < k < |tail| ensures Follows(tail[k - 1].0, tail[k].0) {
        assert Follows(records[k].0, records[k + 1].0);
      }
    }
  }

  /** The record can be taken at all: legal, next in sequence, and no larger than the capacity. */
  predicate Fits(s: Sink, seqNo: u64, p: Payload) {
    Legal(p) && (s.lastSeq.Some? ==> Follows(s.lastSeq.value, seqNo)) && 8 + |p| <= s.capacity
  }

  /** Same writer and capacity. */
  ghost predicate SameSetup(s: Sink, later: Sink) {
    later.outcomes == s.outcomes && later.capacity == s.capacity && s.flushes <= later.flushes
  }

  /** Every flush attempted between the two was done. */
  ghost predicate WriterDone(s: Sink, later: Sink) {
    forall n: nat :: s.flushes <= n < later.flushes ==> s.outcomes(n) == Done
  }

  /** The record went in: its frame is the only addition to the stream. */
  predicate WentIn(s: Sink, later: Sink, seqNo: u64, p: Payload) {
    Legal(p) && Stream(later) == Stream(s) + Frame(p) && later.lastSeq == Some(seqNo)
  }

  lemma AppendAttempt(s: Sink, seqNo: u64, p: Payload)
    ensures var (s1, r1) := Append(s, seqNo, p);
            && SameSetup(s, s1) && s1.flushes == s.flushes && r1 != Err(Io)
            && (r1.Ok? ==> Fits(s, seqNo, p) && WentIn(s, s1, seqNo, p))
            && (r1.Err? && !r1.error.BufferOverflow? ==> !Fits(s, seqNo, p))
            && (r1.Err? && r1.error.BufferOverflow? ==>
                  s1.headerEmitted && Stream(s1) == Stream(s) && s1.lastSeq == s.lastSeq)
  {
    var s0 := EnsureHeader(s);
    ConcatEmpty(STREAM_HEADER_MAGIC);
    if Legal(p) {
      ConcatAssoc(s0.written, s0.buffer, Frame(p));
    }
  }

  lemma FlushAttempt(s: Sink)
    ensures var (s', r) := Flush(s);
            && SameSetup(s, s') && s'.lastSeq == s.lastSeq && s'.headerEmitted
            && (r.Ok? <==> WriterDone(s, s')) && (r.Err? ==> r == Err(Io))
            && (r.Ok? ==> s'.buffer == [] && s'.written == Stream(s) && Stream(s') == Stream(s))
  {
    var s0, s' := EnsureHeader(s), Flush(s).0;
    ConcatEmpty(s0.written);
    ConcatEmpty(s'.written);
    assert s0.buffer != [] ==> s.flushes < s'.flushes && (WriterDone(s, s') <==> s.outcomes(s.flushes) == Done);
  }

  /** What fits goes into an empty buffer behind the header. */
  lemma EmptyBufferTakes(s: Sink, seqNo: u64, p: Payload)
    requires s.buffer == [] && s.headerEmitted
    ensures Append(s, seqNo, p).1.Ok? <==> Fits(s, seqNo, p)
  {}

  /** One retry after a successful flush is enough: it fails only if the frame can never fit. */
  lemma AppendOrRetry(s: Sink, seqNo: u64, p: Payload)
    requires Append(s, seqNo, p).1.Err? && Append(s, seqNo, p).1.error.BufferOverflow?
    ensures var (s2, r2) := Flush(Append(s, seqNo, p).0);
            && SameSetup(s, s2) && (r2.Ok? <==> WriterDone(s, s2)) && (r2.Err? ==> r2 == Err(Io))
            && (r2.Ok? ==>
                  var (s3, r3) := Append(s2, seqNo, p);
                  && SameSetup(s, s3) && s3.flushes == s2.flushes && r3 != Err(Io)
                  && (r3.Ok? <==> Fits(s, seqNo, p)) && (r3.Ok? ==> WentIn(s, s3, seqNo, p)))
  {
    AppendAttempt(s, seqNo, p);
    FlushAttempt(Append(s, seqNo, p).0);
    var s2 := Flush(Append(s, seqNo, p).0).0;
    AppendAttempt(s2, seqNo, p);
    if s2.buffer == [] {
      EmptyBufferTakes(s2, seqNo, p);
    }
  }

  /** One turn of the loop: the sink it goes on with, or the outcome it stops with. */
  lemma ExportStep(s: Sink, records: seq<(u64, Payload)>) returns (s': Sink, on: bool)
    requires records != []
    ensures var (seqNo, p) := records[0];
            && SameSetup(s, s')
            && if on then
                 && Export(s, records) == Export(s', records[1..]) && WriterDone(s, s')
                 && Fits(s, seqNo, p) && WentIn(s, s', seqNo, p)
               else
                 && Export(s, records).0 == s' && Export(s, records).1.Err?
                 && (Export(s, records).1 == Err(Io) <==> !WriterDone(s, s'))
                 && (WriterDone(s, s') ==> !Fits(s, seqNo, p))
  {
    var (seqNo, p) := records[0];
    AppendAttempt(s, seqNo, p);
    var (s1, r1) := Append(s, seqNo, p);
    s', on := s1, r1.Ok?;
    if r1.Err? && r1.error.BufferOverflow? {
      AppendOrRetry(s, seqNo, p);
      var (s2, r2) := Flush(s1);
      s' := s2;
      if r2.Ok? {
        s', on := Append(s2, seqNo, p).0, Append(s2, seqNo, p).1.Ok?;
      }
    }
  }

  /** What is left of an export after its first record, and what it adds. */
  lemma ExportedRest(s: Sink, s': Sink, end: Sink, records: seq<(u64, Payload)>)
    requires records != [] && SameSetup(s, s') && SameSetup(s', end) && WriterDone(s, s')
    requires WentIn(s, s', records[0].0, records[0].1)
    ensures SameSetup(s, end) && (WriterDone(s, end) <==> WriterDone(s', end))
    ensures AllLegal(PayloadsOf(records[1..])) ==>
              && AllLegal(PayloadsOf(records))
              && Stream(s) + Frames(PayloadsOf(records)) == Stream(s') + Frames(PayloadsOf(records[1..]))
  {
    assert PayloadsOf(records)[1..] == PayloadsOf(records[1..]);
    if AllLegal(PayloadsOf(records[1..])) {
      assert forall k :: 0 < k < |records| ==> PayloadsOf(records)[k] == PayloadsOf(records[1..])[k - 1];
      ConcatAssoc(Stream(s), Frame(records[0].1), Frames(PayloadsOf(records[1..])));
    }
  }

  /**
   The export succeeds exactly when the sequence numbers go on without a hole, every frame fits the record ceiling
   and the capacity, and every flush it attempts is done; then header and frames are on the stream and nothing is
   left in the buffer. It reports an I/O error exactly when a flush is not done.
   */
  lemma {:induction false} ExportSucceeds(s: Sink, records: seq<(u64, Payload)>)
    ensures var (end, r) := Export(s, records);
            && SameSetup(s, end)
            && (r.Ok? <==> Exportable(s.lastSeq, records, s.capacity) && WriterDone(s, end))
            && (r == Err(Io) <==> !WriterDone(s, end))
            && (r.Ok? ==> && AllLegal(PayloadsOf(records)) && end.buffer == []
                          && end.written == Stream(s) + Frames(PayloadsOf(records)))
    decreases records
  {
    if records == [] {
      FlushAttempt(s);
      assert PayloadsOf(records) == [];
      ConcatEmpty(Stream(s));
    } else {
      ExportableTail(s.lastSeq, records, s.capacity);
      var s', on := ExportStep(s, records);
      if on {
        ExportSucceeds(s', records[1..]);
        ExportedRest(s, s', Export(s, records).0, records);
      }
    }
  }

  /** The exported bytes do not depend on the capacity: one header, then the frames, for any writer. */
  lemma ExportIsCapacityIndependent(records: seq<(u64, Payload)>, capacity: Capacity, outcomes: nat -> WriterOutcome)
    ensures var (s, r) := Export(NewSink(capacity, outcomes), records);
            && (r.Ok? <==> && Exportable(None, records, capacity)
                           && forall n: nat :: n < s.flushes ==> outcomes(n) == Done)
            && (r.Ok? ==> AllLegal(PayloadsOf(records))
                          && s.written == STREAM_HEADER_MAGIC + Frames(PayloadsOf(records))
                          && ReadStream(s.written) == Opened(PayloadsOf(records), EndOfStream))
  {
    ExportSucceeds(NewSink(capacity, outcomes), records);
    var (s, r) := Export(NewSink(capacity, outcomes), records);
    if r.Ok? {
      StreamsAreHeaderAndFrames(s.written, PayloadsOf(records));
    }
  }
}
