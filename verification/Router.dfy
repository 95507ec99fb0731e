/**
 The projection router as an object, arkhe-forge-platform/src/projection.rs: the methods that
 register projections, change state and dispatch events in place, proved against `RouterSpec`.
 */
module ProjectionRouting {
  import opened Bytes
  import opened Types
  import opened RouterSpec

  /** A registered projection. Its two unknown functions decide which calls succeed. */
  class Observer {
    const observes: seq<u32>
    const accepts: (Event, nat) -> bool
    const acceptsState: (ObserverState, nat) -> bool
    var calls: nat
    var lastApplied: Option<Position>
    var log: seq<Event>

    constructor (observes: seq<u32>, accepts: (Event, nat) -> bool, acceptsState: (ObserverState, nat) -> bool,
                 lastApplied: Option<Position>, log: seq<Event>)
      ensures Value() == Projection(observes, accepts, acceptsState, 0, lastApplied, log)
    {
      this.observes, this.accepts, this.acceptsState := observes, accepts, acceptsState;
      this.calls, this.lastApplied, this.log := 0, lastApplied, log;
    }

    ghost function Value(): Projection
      reads this
    {
      Projection(observes, accepts, acceptsState, calls, lastApplied, log)
    }

    method ApplyEvent(e: Event) returns (ok: bool)
      modifies this
      ensures (Value(), ok) == OnEvent(old(Value()), e)
    {
      ok := accepts(e, calls);
      calls := calls + 1;
      if ok {
        lastApplied := Some(e.At());
        log := log + [e];
      }
    }

    method ChangeState(next: ObserverState) returns (ok: bool)
      modifies this
      ensures (Value(), ok) == OnStateChange(old(Value()), next)
    {
      ok := acceptsState(next, calls);
      calls := calls + 1;
    }
  }

  ghost function ValuesOf(ps: seq<Observer>): (vs: seq<Projection>)
    reads ps
    ensures |vs| == |ps|
  {
    seq(|ps|, i requires 0 <= i < |ps| reads ps => ps[i].Value())
  }

  predicate Separate(ps: seq<Observer>) {
    forall i, j :: 0 <= i < j < |ps| ==> ps[i] != ps[j]
  }

  /** `projections[i].on_event(event)` touches that projection only. */
  method ApplyAt(ps: seq<Observer>, i: nat, e: Event) returns (ok: bool)
    requires i < |ps| && Separate(ps)
    modifies ps[i]
    ensures var (p, accepted) := OnEvent(old(ValuesOf(ps))[i], e);
            ok == accepted && ValuesOf(ps) == old(ValuesOf(ps))[i := p]
  {
    ok := ps[i].ApplyEvent(e);
  }

  /** `projections[i].on_state_change(next)` likewise. */
  method ChangeStateAt(ps: seq<Observer>, i: nat, next: ObserverState) returns (ok: bool)
    requires i < |ps| && Separate(ps)
    modifies ps[i]
    ensures var (p, accepted) := OnStateChange(old(ValuesOf(ps))[i], next);
            ok == accepted && ValuesOf(ps) == old(ValuesOf(ps))[i := p]
  {
    ok := ps[i].ChangeState(next);
  }

  /** The notification loop of a state change. */
  method NotifyAll(ps: seq<Observer>, next: ObserverState) returns (ok: bool)
    requires Separate(ps)
    modifies ps
    ensures (ValuesOf(ps), ok) == NotifyFrom(old(ValuesOf(ps)), next, 0)
  {
    ghost var end := NotifyFrom(ValuesOf(ps), next, 0);
    for i := 0 to |ps|
      invariant NotifyFrom(ValuesOf(ps), next, i) == end
    {
      var accepted := ChangeStateAt(ps, i, next);
      if !accepted {
        return false;
      }
    }
    ok := true;
  }

  /** The fan-out loop of a dispatch. */
  method FanOutAll(ps: seq<Observer>, matching: seq<nat>, e: Event) returns (applied: nat, all: bool)
    requires Separate(ps) && forall j :: 0 <= j < |matching| ==> matching[j] < |ps|
    modifies ps
    ensures (ValuesOf(ps), applied, all) == FanOut(old(ValuesOf(ps)), matching, e, 0)
  {
    ghost var (end, total, complete) := FanOut(ValuesOf(ps), matching, e, 0);
    applied := 0;
    for k := 0 to |matching|
      invariant FanOut(ValuesOf(ps), matching, e, k) == (end, total - applied, complete)
    {
      var i := matching[k];
      FanOutStep(ValuesOf(ps), matching, e, k);
      assert ValuesOf(ps)[i] == ps[i].Value();
      if ps[i].lastApplied.Some? && !ps[i].lastApplied.value.Before(e.At()) {
        continue;
      }
      var ok := ApplyAt(ps, i, e);
      if !ok {
        return applied, false;
      }
      applied := applied + 1;
    }
    all := true;
  }

  class ProjectionRouter {
    var projections: seq<Observer>
    var observersByCode: map<u32, seq<nat>>
    var cursor: Option<Position>
    var lastEvent: Option<(u32, seq<byte>)>
    var pendingRetry: Option<(Position, u32, seq<byte>)>
    var state: ObserverState

    ghost function Value(): Router
      reads this, projections
    {
      Router(ValuesOf(projections), observersByCode, cursor, lastEvent, pendingRetry, state)
    }

    /** The router owns its projections, and its index is the one `Register` builds. */
    ghost predicate Valid()
      reads this, projections
    {
      && Separate(projections)
      && IndexIsSound(Value())
    }

    constructor ()
      ensures Valid() && Value() == NEW_ROUTER
    {
      projections, observersByCode := [], map[];
      cursor, lastEvent, pendingRetry, state := None, None, None, Passive;
    }

    method RegisterProjection(p: Observer)
      requires Valid() && p !in projections
      modifies this
      ensures Valid() && projections == old(projections) + [p]
      ensures Value() == Register(old(Value()), p.Value())
    {
      RegisterKeepsIndex(Value(), p.Value());
      var idx := |projections|;
      ghost var result := AddToIndex(observersByCode, p.observes, idx);
      for k := 0 to |p.observes|
        invariant AddToIndex(observersByCode, p.observes[k..], idx) == result
        invariant projections == old(projections)
        invariant unchanged(this`cursor, this`lastEvent, this`pendingRetry, this`state)
      {
        var code := p.observes[k];
        assert p.observes[k..][1..] == p.observes[k + 1..];
        observersByCode := observersByCode[code := Observers(observersByCode, code) + [idx]];
      }
      projections := projections + [p];
      assert ValuesOf(projections) == old(ValuesOf(projections)) + [p.Value()];
    }

    /** Draining is terminal; otherwise every projection is told first, and one refusal keeps the state. */
    method ChangeState(next: ObserverState) returns (r: Result<(), Error>)
      requires Valid()
      modifies this`state, projections
      ensures Valid()
      ensures (Value(), r) == Transition(old(Value()), next)
    {
      if state == Draining {
        return Err(NotActive(Draining));
      }
      TransitionKeepsIndex(Value(), next);
      var ok := NotifyAll(projections, next);
      if !ok {
        return Err(ProjectionFailed);
      }
      state := next;
      r := Ok(());
    }

    /** The state and stream-order checks of a dispatch. */
    method CheckEvent(e: Event) returns (v: Verdict)
      ensures v == Check(Value(), e)
    {
      if state != Active {
        return Reject(NotActive(state));
      }
      var incoming := e.At();
      if cursor.Some? {
        if incoming == cursor.value {
          if lastEvent.Some? && lastEvent.value.0 == e.typeCode && lastEvent.value.1 == e.payload {
            return Redelivery;
          }
          return Reject(PositionConflict(incoming));
        }
      }
      if pendingRetry.Some? {
        var (pending, code, payload) := pendingRetry.value;
        if incoming.Before(pending) {
          return Reject(SequenceBackward(pending, incoming));
        }
        if incoming != pending {
          return Reject(SequenceGap(pending, incoming));
        }
        if code != e.typeCode || payload != e.payload {
          return Reject(PositionConflict(incoming));
        }
      } else if cursor.Some? {
        var last := cursor.value;
        if incoming.Before(last) {
          return Reject(SequenceBackward(last, incoming));
        }
        var contiguous :=
          if incoming.tick == last.tick then incoming.sequence == SaturatingAdd(last.sequence, 1)
          else incoming.sequence == 0;
        if !contiguous {
          return Reject(SequenceGap(last, incoming));
        }
      }
      v := Proceed;
    }

    /** The checks, the fan-out in registration order, then the cursor or the pin. */
    method DispatchEvent(e: Event) returns (r: Result<nat, Error>)
      requires Valid()
      modifies this`cursor, this`lastEvent, this`pendingRetry, projections
      ensures Valid()
      ensures (Value(), r) == Dispatch(old(Value()), e)
    {
      var verdict := CheckEvent(e);
      if verdict == Redelivery {
        return Ok(0);
      }
      if verdict.Reject? {
        return Err(verdict.error);
      }
      FanOutKeepsIndex(Value(), e);
      ghost var (after, _) := Dispatch(Value(), e);
      var applied, all := FanOutAll(projections, Observers(observersByCode, e.typeCode), e);
      if !all {
        pendingRetry := Some((e.At(), e.typeCode, e.payload));
        assert Value() == after;
        return Err(ProjectionFailed);
      }
      cursor := Some(e.At());
      lastEvent := Some((e.typeCode, e.payload));
      pendingRetry := None;
      assert Value() == after;
      r := Ok(applied);
    }
  }
}
