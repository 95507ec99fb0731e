/**
 Whole runs of the projection router: the accepted stream is gapless, a pin is kept until exactly
 that event is applied, and every projection applies what it observes exactly once and in order.
 */
module RouterRuns {
  import opened Bytes
  import opened Types
  import opened RouterSpec

  datatype Step = RegisterStep(p: Projection) | TransitionStep(next: ObserverState) | DispatchStep(e: Event)

  /** What a projection had applied, and where the accepted stream stood, when it was registered. */
  datatype Origin = Origin(log: seq<Event>, from: nat, lastApplied: Option<Position>)

  /** A router with the history of what it accepted: the events the cursor moved over. */
  datatype Run = Run(router: Router, accepted: seq<Event>, origins: seq<Origin>)

  const START := Run(NEW_ROUTER, [], [])

  ghost function Next(run: Run, step: Step): Run
    requires IndexIsSound(run.router)
  {
    match step
    case RegisterStep(p) =>
      Run(Register(run.router, p), run.accepted, run.origins + [Origin(p.log, |run.accepted|, p.lastApplied)])
    case TransitionStep(next) => run.(router := Transition(run.router, next).0)
    case DispatchStep(e) =>
      var r := Dispatch(run.router, e).0;
      run.(router := r, accepted := if Accepts(run.router, e) then run.accepted + [e] else run.accepted)
  }

  /** The dispatch moves the cursor over the event. */
  ghost predicate Accepts(r: Router, e: Event)
    requires IndexIsSound(r)
  {
    Check(r, e) == Proceed && FanOut(r.projections, Observers(r.observersByCode, e.typeCode), e, 0).2
  }

  // ------------------------------------------------------------------ the accepted stream

  /** The next position: one further in the same tick, or the head of a later tick. */
  predicate Successor(p: Position, q: Position) {
    || (q.tick == p.tick && q.sequence == p.sequence + 1)
    || (q.tick > p.tick && q.sequence == 0)
  }

  predicate IsStream(es: seq<Event>) {
    forall k :: 0 < k < |es| ==> Successor(es[k - 1].At(), es[k].At())
  }

  /**
   The router's test after ruling out the cursor itself and anything before it is exactly the
   successor relation. At sequence u64::MAX the saturating sum is the cursor itself, so that no
   event of that tick can follow.
   */
  lemma ContiguousIsSuccessor(last: Position, at: Position)
    ensures at != last && !at.Before(last) && Contiguous(last, at) <==> Successor(last, at)
  {}

  lemma {:induction false} StreamIsOrdered(es: seq<Event>, i: nat, j: nat)
    requires IsStream(es) && i < j < |es|
    ensures es[i].At().Before(es[j].At())
    decreases j
  {
    if i + 1 < j {
      StreamIsOrdered(es, i, j - 1);
    }
  }

  // ------------------------------------------------------------------ what a projection owes

  predicate Wants(observes: seq<u32>, start: Option<Position>, e: Event) {
    e.typeCode in observes && (start.None? || start.value.Before(e.At()))
  }

  /** The events a projection has to apply, in stream order. */
  function Wanted(observes: seq<u32>, start: Option<Position>, es: seq<Event>): seq<Event> {
    if es == [] then [] else
      var n := |es| - 1;
      Wanted(observes, start, es[..n]) + if Wants(observes, start, es[n]) then [es[n]] else []
  }

  /** The projection has applied, beyond its own past, exactly what it wants of the events es. */
  ghost predicate Settled(p: Projection, o: Origin, es: seq<Event>) {
    && o.from <= |es|
    && p.log == o.log + Wanted(p.observes, o.lastApplied, es[o.from..])
    && p.lastApplied == if |p.log| == |o.log| then o.lastApplied else Some(p.log[|p.log| - 1].At())
  }

  /** Settled with or without one more event. */
  ghost predicate Either(p: Projection, o: Origin, es: seq<Event>, e: Event) {
    o.from <= |es| && (Settled(p, o, es) || Settled(p, o, es + [e]))
  }

  function PinnedEvent(pin: (Position, u32, seq<byte>)): Event {
    Event(pin.1, pin.0.sequence, pin.0.tick, pin.2)
  }

  predicate Ordered(list: seq<nat>) {
    forall a, b :: 0 <= a < b < |list| ==> list[a] <= list[b]
  }

  predicate AtMost(list: seq<nat>, bound: nat) {
    forall a :: 0 <= a < |list| ==> list[a] <= bound
  }

  /** Observers are listed, and hence visited, in registration order. */
  ghost predicate IndexIsOrdered(r: Router) {
    forall code :: Ordered(Observers(r.observersByCode, code))
  }

  ghost predicate Invariant(run: Run) {
    var r, es := run.router, run.accepted;
    && IndexIsSound(r)
    && IndexIsOrdered(r)
    && |run.origins| == |r.projections|
    && IsStream(es)
    && r.cursor == (if es == [] then None else Some(es[|es| - 1].At()))
    && r.lastEvent == (if es == [] then None else Some((es[|es| - 1].typeCode, es[|es| - 1].payload)))
    && match r.pendingRetry
       case None => forall i :: 0 <= i < |r.projections| ==> Settled(r.projections[i], run.origins[i], es)
       case Some(pin) =>
         && IsStream(es + [PinnedEvent(pin)])
         && forall i :: 0 <= i < |r.projections| ==> Either(r.projections[i], run.origins[i], es, PinnedEvent(pin))
  }

  ghost predicate SameStanding(p: Projection, p': Projection, o: Origin) {
    forall es :: Settled(p', o, es) <==> Settled(p, o, es)
  }

  /** Projections that only counted calls, and another observer state, change nothing the invariant speaks of. */
  lemma SameStandingKeeps(run: Run, ps: seq<Projection>, next: ObserverState)
    requires Invariant(run) && |ps| == |run.router.projections|
    requires forall i :: 0 <= i < |ps| ==> SameStanding(run.router.projections[i], ps[i], run.origins[i])
    requires IndexIsSound(run.router.(projections := ps, state := next))
    ensures Invariant(run.(router := run.router.(projections := ps, state := next)))
  {
    forall i | 0 <= i < |ps|
      ensures Settled(ps[i], run.origins[i], run.accepted)
         <==> Settled(run.router.projections[i], run.origins[i], run.accepted)
      ensures forall e :: Either(ps[i], run.origins[i], run.accepted, e)
                     <==> Either(run.router.projections[i], run.origins[i], run.accepted, e)
    {
      assert SameStanding(run.router.projections[i], ps[i], run.origins[i]);
    }
  }

  // ------------------------------------------------------------------ one visit

  lemma WantedExtends(observes: seq<u32>, start: Option<Position>, es: seq<Event>, from: nat, e: Event)
    requires from <= |es|
    ensures Wanted(observes, start, (es + [e])[from..])
         == Wanted(observes, start, es[from..]) + if Wants(observes, start, e) then [e] else []
  {
    var long := (es + [e])[from..];
    assert long[..|long| - 1] == es[from..];
  }

  lemma {:induction false} WantedAreIn(observes: seq<u32>, start: Option<Position>, es: seq<Event>, e: Event)
    requires e in Wanted(observes, start, es)
    ensures e in es && Wants(observes, start, e)
  {
    var n := |es| - 1;
    if e in Wanted(observes, start, es[..n]) {
      WantedAreIn(observes, start, es[..n], e);
    }
  }

  /** The last applied position of a settled projection never passes the stream head. */
  lemma LastAppliedIsBehind(p: Projection, o: Origin, es: seq<Event>, e: Event)
    requires IsStream(es + [e]) && Settled(p, o, es) && |p.log| > |o.log|
    ensures p.lastApplied.value.Before(e.At())
    ensures o.lastApplied.None? || o.lastApplied.value.Before(e.At())
  {
    var wanted := Wanted(p.observes, o.lastApplied, es[o.from..]);
    var last := wanted[|wanted| - 1];
    assert p.log[|p.log| - 1] == last;
    WantedAreIn(p.observes, o.lastApplied, es[o.from..], last);
    var k :| 0 <= k < |es| && es[k] == last;
    StreamIsOrdered(es + [e], k, |es|);
  }

  /** An observer that is skipped has applied or never wanted the event; one that is called wants it. */
  lemma Visit(p: Projection, o: Origin, es: seq<Event>, e: Event)
    requires IsStream(es + [e]) && Either(p, o, es, e) && e.typeCode in p.observes
    ensures AlreadyApplied(p, e.At()) ==> Settled(p, o, es + [e])
    ensures !AlreadyApplied(p, e.At()) ==> Settled(p, o, es) && Wants(p.observes, o.lastApplied, e)
  {
    WantedExtends(p.observes, o.lastApplied, es, o.from, e);
    if Settled(p, o, es) && |p.log| > |o.log| {
      LastAppliedIsBehind(p, o, es, e);
    }
    if Settled(p, o, es + [e]) && !Settled(p, o, es) {
      assert Wants(p.observes, o.lastApplied, e);
      assert p.log[|p.log| - 1] == e;
    }
  }

  lemma Unobserved(p: Projection, o: Origin, es: seq<Event>, e: Event)
    requires Either(p, o, es, e) && e.typeCode !in p.observes
    ensures Settled(p, o, es) && Settled(p, o, es + [e])
  {
    WantedExtends(p.observes, o.lastApplied, es, o.from, e);
  }

  /** Calling a settled projection that wants the event moves it past the event or leaves it. */
  lemma Called(p: Projection, o: Origin, es: seq<Event>, e: Event)
    requires Settled(p, o, es) && Wants(p.observes, o.lastApplied, e)
    ensures var (p', ok) := OnEvent(p, e);
            p'.observes == p.observes && if ok then Settled(p', o, es + [e]) else Settled(p', o, es)
  {
    WantedExtends(p.observes, o.lastApplied, es, o.from, e);
    var p' := OnEvent(p, e).0;
    assert p.accepts(e, p.calls) ==>
      p'.log == o.log + (Wanted(p.observes, o.lastApplied, es[o.from..]) + [e]);
  }

  ghost predicate AllEither(ps: seq<Projection>, os: seq<Origin>, es: seq<Event>, e: Event)
    requires |ps| == |os|
  {
    forall i :: 0 <= i < |ps| ==> Either(ps[i], os[i], es, e)
  }

  /** A fan-out leaves every projection on one side of the event, and a complete one past it. */
  lemma {:induction false} FanOutSettles(ps: seq<Projection>, os: seq<Origin>, es: seq<Event>, e: Event,
                                         matching: seq<nat>, k: nat)
    requires |ps| == |os| && k <= |matching| && IsStream(es + [e])
    requires forall j :: 0 <= j < |matching| ==> matching[j] < |ps| && e.typeCode in ps[matching[j]].observes
    requires AllEither(ps, os, es, e)
    ensures var (ps', _, all) := FanOut(ps, matching, e, k);
            && AllEither(ps', os, es, e)
            && (forall i :: 0 <= i < |ps| ==> ps'[i].observes == ps[i].observes)
            && (all ==> forall i :: 0 <= i < |ps| && (Settled(ps[i], os[i], es + [e]) || i in matching[k..])
                          ==> Settled(ps'[i], os[i], es + [e]))
    decreases |matching| - k
  {
    if k < |matching| {
      var i := matching[k];
      Visit(ps[i], os[i], es, e);
      assert matching[k..] == [i] + matching[k + 1..];
      if AlreadyApplied(ps[i], e.At()) {
        FanOutSettles(ps, os, es, e, matching, k + 1);
      } else {
        var (p, ok) := OnEvent(ps[i], e);
        Called(ps[i], os[i], es, e);
        if ok {
          FanOutSettles(ps[i := p], os, es, e, matching, k + 1);
        }
      }
    }
  }

  // ------------------------------------------------------------------ the steps keep the invariant

  /** An event that passes the checks extends the stream, and with a pin outstanding it is the pin. */
  lemma ProceedMeansNext(run: Run, e: Event)
    requires Invariant(run) && Check(run.router, e) == Proceed
    ensures IsStream(run.accepted + [e])
    ensures run.router.pendingRetry.Some? ==> e == PinnedEvent(run.router.pendingRetry.value)
  {
    var r, es := run.router, run.accepted;
    if r.pendingRetry.None? && es != [] {
      ContiguousIsSuccessor(es[|es| - 1].At(), e.At());
    }
  }

  lemma DispatchKeeps(run: Run, e: Event)
    requires Invariant(run)
    ensures Invariant(Next(run, DispatchStep(e)))
  {
    var r, es, os := run.router, run.accepted, run.origins;
    if Check(r, e) == Proceed {
      ProceedMeansNext(run, e);
      var matching := Observers(r.observersByCode, e.typeCode);
      FanOutSettles(r.projections, os, es, e, matching, 0);
      var (ps, _, all) := FanOut(r.projections, matching, e, 0);
      assert matching[0..] == matching;
      if all {
        forall i | 0 <= i < |ps| ensures Settled(ps[i], os[i], es + [e]) {
          if e.typeCode !in ps[i].observes {
            Unobserved(ps[i], os[i], es, e);
          }
        }
      } else {
        assert PinnedEvent((e.At(), e.typeCode, e.payload)) == e;
      }
    }
  }

  lemma {:induction false} AddToIndexOrdered(index: map<u32, seq<nat>>, codes: seq<u32>, idx: nat, code: u32)
    requires forall c :: Ordered(Observers(index, c)) && AtMost(Observers(index, c), idx)
    ensures Ordered(Observers(AddToIndex(index, codes, idx), code))
    decreases codes
  {
    if codes != [] {
      var first := index[codes[0] := Observers(index, codes[0]) + [idx]];
      forall c ensures Ordered(Observers(first, c)) && AtMost(Observers(first, c), idx) {
        assert Ordered(Observers(index, c)) && AtMost(Observers(index, c), idx);
      }
      AddToIndexOrdered(first, codes[1..], idx, code);
    }
  }

  lemma RegisterKeepsOrder(r: Router, p: Projection)
    requires IndexIsSound(r) && IndexIsOrdered(r)
    ensures IndexIsOrdered(Register(r, p))
  {
    forall code ensures Ordered(Observers(Register(r, p).observersByCode, code)) {
      AddToIndexOrdered(r.observersByCode, p.observes, |r.projections|, code);
    }
  }

  lemma RegisterKeeps(run: Run, p: Projection)
    requires Invariant(run)
    ensures Invariant(Next(run, RegisterStep(p)))
  {
    RegisterKeepsIndex(run.router, p);
    RegisterKeepsOrder(run.router, p);
    var o := Origin(p.log, |run.accepted|, p.lastApplied);
    assert run.accepted[|run.accepted|..] == [];
    assert Settled(p, o, run.accepted);
  }

  lemma TransitionKeeps(run: Run, next: ObserverState)
    requires Invariant(run)
    ensures Invariant(Next(run, TransitionStep(next)))
  {
    var r, r' := run.router, Next(run, TransitionStep(next)).router;
    NotifyKeepsObserves(r.projections, next, 0);
    TransitionKeepsIndex(r, next);
    assert r' == r.(projections := r'.projections, state := r'.state);
    forall i | 0 <= i < |r.projections|
      ensures SameStanding(r.projections[i], r'.projections[i], run.origins[i])
    {
      CallsAreNoStanding(r.projections[i], r'.projections[i], run.origins[i]);
    }
    SameStandingKeeps(run, r'.projections, r'.state);
  }

  lemma CallsAreNoStanding(p: Projection, p': Projection, o: Origin)
    requires p' == p.(calls := p'.calls)
    ensures SameStanding(p, p', o)
  {}

  lemma StepKeeps(run: Run, step: Step)
    requires Invariant(run)
    ensures Invariant(Next(run, step))
  {
    match step
    case RegisterStep(p) => RegisterKeeps(run, p);
    case TransitionStep(next) => TransitionKeeps(run, next);
    case DispatchStep(e) => DispatchKeeps(run, e);
  }

  /** The run after any steps. */
  ghost function After(run: Run, steps: seq<Step>): (end: Run)
    requires Invariant(run)
    ensures Invariant(end)
    decreases steps
  {
    if steps == [] then run else
      StepKeeps(run, steps[0]);
      After(Next(run, steps[0]), steps[1..])
  }

  // ------------------------------------------------------------------ which events are accepted

  /** The stream can go on with this event: the pinned one, or else any first one or one at a successor position. */
  ghost predicate IsNext(run: Run, e: Event) {
    var r, es := run.router, run.accepted;
    && r.state == Active
    && if r.pendingRetry.Some? then e == PinnedEvent(r.pendingRetry.value)
       else es == [] || Successor(es[|es| - 1].At(), e.At())
  }

  /** The event is the one accepted last. */
  ghost predicate IsLast(run: Run, e: Event) {
    run.router.state == Active && run.accepted != [] && e == run.accepted[|run.accepted| - 1]
  }

  /** Where the pin or else the last accepted event stands. */
  ghost function Head(run: Run): Option<Position> {
    if run.router.pendingRetry.Some? then Some(run.router.pendingRetry.value.0)
    else if run.accepted == [] then None
    else Some(run.accepted[|run.accepted| - 1].At())
  }

  lemma CheckByStream(run: Run, e: Event)
    requires Invariant(run)
    ensures Check(run.router, e) == Proceed <==> IsNext(run, e)
    ensures Check(run.router, e) == Redelivery <==> IsLast(run, e)
  {
    var r, es := run.router, run.accepted;
    if r.pendingRetry.Some? {
      if es != [] {
        var pinned := PinnedEvent(r.pendingRetry.value);
        assert (es + [pinned])[|es| - 1] == es[|es| - 1] && (es + [pinned])[|es|] == pinned;
      }
    } else if es != [] {
      ContiguousIsSuccessor(es[|es| - 1].At(), e.At());
    }
  }

  /**
   The fan-out is reached exactly by an event the stream can go on with; it moves the cursor when complete and
   pins the event when not. The event accepted last is answered without one, and every other event is refused:
   both leave the router as it was.
   */
  lemma DispatchByStream(run: Run, e: Event)
    requires Invariant(run)
    ensures IsNext(run, e) ==>
              var r := run.router;
              var (ps, applied, all) := FanOut(r.projections, Observers(r.observersByCode, e.typeCode), e, 0);
              Dispatch(r, e)
              == if all then
                   (Router(ps, r.observersByCode, Some(e.At()), Some((e.typeCode, e.payload)), None, Active),
                    Ok(applied))
                 else
                   (r.(projections := ps, pendingRetry := Some((e.At(), e.typeCode, e.payload))), Err(ProjectionFailed))
    ensures Dispatch(run.router, e) == (run.router, Ok(0)) <==> IsLast(run, e)
    ensures !IsNext(run, e) && !IsLast(run, e) ==>
              Dispatch(run.router, e).0 == run.router && Dispatch(run.router, e).1.Err?
              && Dispatch(run.router, e).1 != Err(ProjectionFailed)
  {
    CheckByStream(run, e);
    if Check(run.router, e) == Proceed {
      ProceedMeansNext(run, e);
      if run.accepted != [] {
        StreamIsOrdered(run.accepted + [e], |run.accepted| - 1, |run.accepted|);
      }
    }
  }

  /** Which refusal an event gets: by the router's state, then against the last accepted event, then the head. */
  lemma RefusalsAreExact(run: Run, e: Event)
    requires Invariant(run) && !IsNext(run, e) && !IsLast(run, e)
    ensures var at, head := e.At(), Head(run);
            Dispatch(run.router, e).1
            == if run.router.state != Active then Err(NotActive(run.router.state))
               else if run.accepted != [] && at == run.accepted[|run.accepted| - 1].At() then Err(PositionConflict(at))
               else if at.Before(head.value) then Err(SequenceBackward(head.value, at))
               else if at != head.value then Err(SequenceGap(head.value, at))
               else Err(PositionConflict(at))
  {
    CheckByStream(run, e);
  }

  /** A dispatch succeeds exactly for the event accepted last, and for one the stream can go on with that every
      listed observer has passed or accepts. */
  lemma DispatchSucceedsIff(run: Run, e: Event)
    requires Invariant(run)
    ensures var observers := Observers(run.router.observersByCode, e.typeCode);
            Dispatch(run.router, e).1.Ok?
            <==> IsLast(run, e)
                 || (IsNext(run, e)
                     && forall j :: 0 <= j < |observers| ==> Ready(run.router.projections[observers[j]], e))
  {
    CheckByStream(run, e);
    FanOutCompletesIff(run.router.projections, Observers(run.router.observersByCode, e.typeCode), e, 0);
  }

  function Dispatches(es: seq<Event>): (steps: seq<Step>)
    ensures |steps| == |es|
  {
    seq(|es|, k requires 0 <= k < |es| => DispatchStep(es[k]))
  }

  ghost predicate NeverRefuse(ps: seq<Projection>) {
    forall i, e, n :: 0 <= i < |ps| ==> ps[i].accepts(e, n)
  }

  lemma NextIsAccepted(run: Run, e: Event)
    requires Invariant(run) && IsNext(run, e) && NeverRefuse(run.router.projections)
    ensures var next := Next(run, DispatchStep(e));
            && next.accepted == run.accepted + [e] && next.origins == run.origins
            && next.router.state == Active && next.router.pendingRetry == None
            && NeverRefuse(next.router.projections)
  {
    var r := run.router;
    var observers := Observers(r.observersByCode, e.typeCode);
    CheckByStream(run, e);
    FanOutCompletesIff(r.projections, observers, e, 0);
    assert forall j :: 0 <= j < |observers| ==> Ready(r.projections[observers[j]], e);
    var j := FanOutStopsAtRefusal(r.projections, observers, e, 0);
  }

  /**
   Progress: with projections that do not refuse, an active router without a pin accepts any stream that goes on
   where the accepted one ends, a fresh one any stream at all, and every projection applies all it wants of it.
   */
  lemma {:induction false} EveryStreamIsAccepted(run: Run, es: seq<Event>)
    requires Invariant(run) && run.router.state == Active && run.router.pendingRetry == None
    requires NeverRefuse(run.router.projections) && IsStream(run.accepted + es)
    ensures var end := After(run, Dispatches(es));
            && end.accepted == run.accepted + es && end.origins == run.origins
            && |end.router.projections| == |end.origins|
            && forall i :: 0 <= i < |end.origins| ==>
                 Settled(end.router.projections[i], end.origins[i], run.accepted + es)
    decreases es
  {
    if es == [] {
      assert run.accepted + [] == run.accepted;
    } else {
      var n := |run.accepted|;
      assert (run.accepted + es)[n] == es[0] && (n > 0 ==> (run.accepted + es)[n - 1] == run.accepted[n - 1]);
      NextIsAccepted(run, es[0]);
      StepKeeps(run, DispatchStep(es[0]));
      assert (run.accepted + [es[0]]) + es[1..] == run.accepted + es;
      EveryStreamIsAccepted(Next(run, DispatchStep(es[0])), es[1..]);
      assert Dispatches(es)[1..] == Dispatches(es[1..]);
    }
  }

  // ------------------------------------------------------------------ the main results

  lemma {:induction false} WantedIsOrdered(observes: seq<u32>, start: Option<Position>, es: seq<Event>, i: nat, j: nat)
    requires IsStream(es) && i < j < |Wanted(observes, start, es)|
    ensures var w := Wanted(observes, start, es); w[i].At().Before(w[j].At())
  {
    var n := |es| - 1;
    var rest, w := Wanted(observes, start, es[..n]), Wanted(observes, start, es);
    if j < |rest| {
      WantedIsOrdered(observes, start, es[..n], i, j);
    } else {
      assert w[i] == rest[i] && w[j] == es[n];
      WantedAreIn(observes, start, es[..n], rest[i]);
      var k :| 0 <= k < n && es[k] == rest[i];
      StreamIsOrdered(es, k, n);
    }
  }

  /**
   Exactly once, in order: after any run of a router, what a projection has applied since it was
   registered is the list of accepted events it wants, plus at most the pinned one. With no pin
   outstanding every projection has caught up.
   */
  lemma AppliedExactlyOnce(steps: seq<Step>, i: nat)
    requires i < |After(START, steps).router.projections|
    ensures var end := After(START, steps);
            var p, o := end.router.projections[i], end.origins[i];
            && o.log <= p.log
            && var applied := p.log[|o.log|..];
            && var owed := Wanted(p.observes, o.lastApplied, end.accepted[o.from..]);
            && (forall a, b :: 0 <= a < b < |applied| ==> applied[a].At().Before(applied[b].At()))
            && (applied == owed
                || (end.router.pendingRetry.Some?
                    && var pinned := PinnedEvent(end.router.pendingRetry.value);
                       applied == owed + [pinned] && pinned.typeCode in p.observes))
  {
    var end := After(START, steps);
    var p, o := end.router.projections[i], end.origins[i];
    var es := if Settled(p, o, end.accepted) then end.accepted
              else end.accepted + [PinnedEvent(end.router.pendingRetry.value)];
    assert Settled(p, o, es) && IsStream(es);
    var applied := p.log[|o.log|..];
    assert applied == Wanted(p.observes, o.lastApplied, es[o.from..]);
    forall a, b | 0 <= a < b < |applied| ensures applied[a].At().Before(applied[b].At()) {
      WantedIsOrdered(p.observes, o.lastApplied, es[o.from..], a, b);
    }
    if end.router.pendingRetry.Some? {
      WantedExtends(p.observes, o.lastApplied, end.accepted, o.from, PinnedEvent(end.router.pendingRetry.value));
    }
  }

  /** The accepted events of any run form one gapless, strictly increasing stream under the cursor. */
  lemma AcceptedIsGapless(steps: seq<Step>)
    ensures var end := After(START, steps);
            && IsStream(end.accepted)
            && (forall a, b :: 0 <= a < b < |end.accepted| ==> end.accepted[a].At().Before(end.accepted[b].At()))
            && end.router.cursor == (if end.accepted == [] then None
                                     else Some(end.accepted[|end.accepted| - 1].At()))
            && (end.router.pendingRetry.Some? && end.router.cursor.Some? ==>
                  Successor(end.router.cursor.value, end.router.pendingRetry.value.0))
  {
    var es := After(START, steps).accepted;
    forall a, b | 0 <= a < b < |es| ensures es[a].At().Before(es[b].At()) {
      StreamIsOrdered(es, a, b);
    }
    if After(START, steps).router.pendingRetry.Some? && es != [] {
      var pin := After(START, steps).router.pendingRetry.value;
      assert (es + [PinnedEvent(pin)])[|es| - 1] == es[|es| - 1];
      assert (es + [PinnedEvent(pin)])[|es|] == PinnedEvent(pin);
    }
  }

  /** Until the pinned event itself is accepted, a pin stays and nothing else is accepted. */
  lemma {:induction false} PinIsNext(run: Run, steps: seq<Step>)
    requires Invariant(run) && run.router.pendingRetry.Some?
    ensures var end, pin := After(run, steps), run.router.pendingRetry;
            if end.accepted == run.accepted then end.router.pendingRetry == pin
            else run.accepted + [PinnedEvent(pin.value)] <= end.accepted
    decreases steps
  {
    if steps != [] {
      StepKeeps(run, steps[0]);
      var next := Next(run, steps[0]);
      if steps[0].DispatchStep? && Check(run.router, steps[0].e) == Proceed {
        ProceedMeansNext(run, steps[0].e);
      }
      if next.accepted == run.accepted {
        PinIsNext(next, steps[1..]);
      } else {
        AcceptedGrows(next, steps[1..]);
      }
    }
  }

  lemma {:induction false} AcceptedGrows(run: Run, steps: seq<Step>)
    requires Invariant(run)
    ensures run.accepted <= After(run, steps).accepted
    decreases steps
  {
    if steps != [] {
      StepKeeps(run, steps[0]);
      AcceptedGrows(Next(run, steps[0]), steps[1..]);
    }
  }

  /** Draining is terminal: nothing is accepted or applied any more. */
  lemma {:induction false} DrainingIsTerminal(run: Run, steps: seq<Step>)
    requires Invariant(run) && run.router.state == Draining
    ensures var end := After(run, steps);
            && end.router.state == Draining && end.accepted == run.accepted
            && |run.router.projections| <= |end.router.projections|
            && forall i :: 0 <= i < |run.router.projections| ==>
                 end.router.projections[i] == run.router.projections[i]
    decreases steps
  {
    if steps != [] {
      StepKeeps(run, steps[0]);
      DrainingIsTerminal(Next(run, steps[0]), steps[1..]);
    }
  }
}
