/**
 The projection router of arkhe-forge-platform/src/projection.rs as a function on values: the
 stream-order checks, the fan-out over observers, and the pinned retry of a failed fan-out.
 */
module RouterSpec {
  import opened Bytes
  import opened Types

  /** A stream position; positions are ordered tick first. */
  datatype Position = Position(tick: u64, sequence: u64) {
    predicate Before(other: Position) {
      tick < other.tick || (tick == other.tick && sequence < other.sequence)
    }
  }

  datatype Event = Event(typeCode: u32, sequence: u64, tick: u64, payload: seq<byte>) {
    function At(): Position {
      Position(tick, sequence)
    }
  }

  datatype ObserverState = Passive | Active | Draining

  datatype Error =
    | SequenceBackward(last: Position, incoming: Position)
    | SequenceGap(last: Position, incoming: Position)
    | PositionConflict(at: Position)
    | NotActive(state: ObserverState)
    | ProjectionFailed

  /**
   A projection seen from the router: what it observes, its last applied position, and the events
   it has applied. Whether its n-th call succeeds is arbitrary, given by two unknown functions.
   */
  datatype Projection = Projection(
    observes: seq<u32>,
    accepts: (Event, nat) -> bool,
    acceptsState: (ObserverState, nat) -> bool,
    calls: nat,
    lastApplied: Option<Position>,
    log: seq<Event>)

  /** `on_event`: success records the event and moves `lastApplied`; failure changes neither. */
  function OnEvent(p: Projection, e: Event): (Projection, bool) {
    var called := p.(calls := p.calls + 1);
    if p.accepts(e, p.calls)
    then (called.(lastApplied := Some(e.At()), log := p.log + [e]), true)
    else (called, false)
  }

  function OnStateChange(p: Projection, next: ObserverState): (Projection, bool) {
    (p.(calls := p.calls + 1), p.acceptsState(next, p.calls))
  }

  /** The event a failed fan-out left unapplied, pinned by position, type code and payload. */
  datatype Router = Router(
    projections: seq<Projection>,
    observersByCode: map<u32, seq<nat>>,
    cursor: Option<Position>,
    lastEvent: Option<(u32, seq<byte>)>,
    pendingRetry: Option<(Position, u32, seq<byte>)>,
    state: ObserverState)

  const NEW_ROUTER := Router([], map[], None, None, None, Passive)

  function Observers(index: map<u32, seq<nat>>, code: u32): seq<nat> {
    if code in index then index[code] else []
  }

  // ------------------------------------------------------------------ register and transition

  /** Adds an observer index under each listed code, once per listing. */
  function AddToIndex(index: map<u32, seq<nat>>, codes: seq<u32>, idx: nat): map<u32, seq<nat>>
    decreases codes
  {
    if codes == [] then index
    else AddToIndex(index[codes[0] := Observers(index, codes[0]) + [idx]], codes[1..], idx)
  }

  function Register(r: Router, p: Projection): Router {
    r.(projections := r.projections + [p],
       observersByCode := AddToIndex(r.observersByCode, p.observes, |r.projections|))
  }

  /** Notifies the projections from `i` on, stopping at the first refusal. */
  function NotifyFrom(ps: seq<Projection>, next: ObserverState, i: nat): (r: (seq<Projection>, bool))
    requires i <= |ps|
    ensures |r.0| == |ps|
    decreases |ps| - i
  {
    if i == |ps| then (ps, true) else
      var (p, ok) := OnStateChange(ps[i], next);
      if ok then NotifyFrom(ps[i := p], next, i + 1) else (ps[i := p], false)
  }

  function Transition(r: Router, next: ObserverState): (Router, Result<(), Error>) {
    if r.state == Draining then (r, Err(NotActive(Draining))) else
      var (ps, ok) := NotifyFrom(r.projections, next, 0);
      if ok then (r.(projections := ps, state := next), Ok(()))
      else (r.(projections := ps), Err(ProjectionFailed))
  }

  // ------------------------------------------------------------------ dispatch

  datatype Verdict = Redelivery | Reject(error: Error) | Proceed

  /** The state and stream-order checks, in the order of the source. */
  function Check(r: Router, e: Event): Verdict {
    var at := e.At();
    if r.state != Active then Reject(NotActive(r.state))
    else if r.cursor == Some(at) then
      if r.lastEvent == Some((e.typeCode, e.payload)) then Redelivery else Reject(PositionConflict(at))
    else match r.pendingRetry
      case Some((pending, code, payload)) =>
        if at.Before(pending) then Reject(SequenceBackward(pending, at))
        else if at != pending then Reject(SequenceGap(pending, at))
        else if code != e.typeCode || payload != e.payload then Reject(PositionConflict(at))
        else Proceed
      case None =>
        match r.cursor
        case None => Proceed
        case Some(last) =>
          if at.Before(last) then Reject(SequenceBackward(last, at))
          else if !Contiguous(last, at) then Reject(SequenceGap(last, at))
          else Proceed
  }

  /** The contiguity test, with the saturating successor of the source. */
  predicate Contiguous(last: Position, at: Position) {
    if at.tick == last.tick then at.sequence == SaturatingAdd(last.sequence, 1) else at.sequence == 0
  }

  predicate AlreadyApplied(p: Projection, at: Position) {
    p.lastApplied.Some? && !p.lastApplied.value.Before(at)
  }

  /** Offers the event to the listed projections from entry k on; stops at the first failure. */
  function FanOut(ps: seq<Projection>, matching: seq<nat>, e: Event, k: nat): (r: (seq<Projection>, nat, bool))
    requires k <= |matching| && forall j :: 0 <= j < |matching| ==> matching[j] < |ps|
    ensures |r.0| == |ps|
    decreases |matching| - k
  {
    if k == |matching| then (ps, 0, true) else
      var i := matching[k];
      if AlreadyApplied(ps[i], e.At()) then FanOut(ps, matching, e, k + 1) else
        var (p, ok) := OnEvent(ps[i], e);
        if !ok then (ps[i := p], 0, false) else
          var (rest, applied, all) := FanOut(ps[i := p], matching, e, k + 1);
          (rest, applied + 1, all)
  }

  /** One listed projection: skipped, applied, or refusing and ending the fan-out. */
  lemma FanOutStep(ps: seq<Projection>, matching: seq<nat>, e: Event, k: nat)
    requires k < |matching| && forall j :: 0 <= j < |matching| ==> matching[j] < |ps|
    ensures var i := matching[k];
            var (p, ok) := OnEvent(ps[i], e);
            FanOut(ps, matching, e, k)
            == if AlreadyApplied(ps[i], e.At()) then FanOut(ps, matching, e, k + 1)
               else if !ok then (ps[i := p], 0, false)
               else (FanOut(ps[i := p], matching, e, k + 1).0, FanOut(ps[i := p], matching, e, k + 1).1 + 1,
                     FanOut(ps[i := p], matching, e, k + 1).2)
  {}

  /** Every listed observer exists and lists the code, and every projection listing it is there. */
  ghost predicate IndexIsSound(r: Router) {
    && (forall code, k :: code in r.observersByCode && 0 <= k < |r.observersByCode[code]| ==>
          var i := r.observersByCode[code][k];
          i < |r.projections| && code in r.projections[i].observes)
    && (forall i, code :: 0 <= i < |r.projections| && code in r.projections[i].observes ==>
          i in Observers(r.observersByCode, code))
  }

  lemma {:induction false} AddToIndexContents(index: map<u32, seq<nat>>, codes: seq<u32>, idx: nat, code: u32, i: nat)
    ensures i in Observers(AddToIndex(index, codes, idx), code)
       <==> i in Observers(index, code) || (i == idx && code in codes)
    decreases codes
  {
    if codes != [] {
      var first := index[codes[0] := Observers(index, codes[0]) + [idx]];
      AddToIndexContents(first, codes[1..], idx, code, i);
      assert codes == [codes[0]] + codes[1..];
    }
  }

  /** Registration keeps the index sound. */
  lemma RegisterKeepsIndex(r: Router, p: Projection)
    requires IndexIsSound(r)
    ensures IndexIsSound(Register(r, p))
  {
    var r' := Register(r, p);
    var n := |r.projections|;
    forall code, k | code in r'.observersByCode && 0 <= k < |r'.observersByCode[code]|
      ensures var i := r'.observersByCode[code][k]; i <= n && code in r'.projections[i].observes
    {
      AddToIndexContents(r.observersByCode, p.observes, n, code, r'.observersByCode[code][k]);
    }
    forall i, code | 0 <= i <= n && code in r'.projections[i].observes
      ensures i in Observers(r'.observersByCode, code)
    {
      AddToIndexContents(r.observersByCode, p.observes, n, code, i);
    }
  }

  function Copies(x: nat, n: nat): (s: seq<nat>)
    ensures |s| == n
  {
    seq(n, _ => x)
  }

  lemma {:induction false} AddToIndexCounts(index: map<u32, seq<nat>>, codes: seq<u32>, idx: nat, code: u32)
    ensures Observers(AddToIndex(index, codes, idx), code)
         == Observers(index, code) + Copies(idx, multiset(codes)[code])
    decreases codes
  {
    if codes != [] {
      var first := index[codes[0] := Observers(index, codes[0]) + [idx]];
      AddToIndexCounts(first, codes[1..], idx, code);
      assert codes == [codes[0]] + codes[1..];
    }
  }

  /** Registration appends the projection, lists it once more per listing of a code, and nothing else. */
  lemma RegisterAddsOne(r: Router, p: Projection, code: u32)
    ensures Register(r, p).projections == r.projections + [p]
    ensures Observers(Register(r, p).observersByCode, code)
         == Observers(r.observersByCode, code) + Copies(|r.projections|, multiset(p.observes)[code])
    ensures Register(r, p)
         == Router(r.projections + [p], Register(r, p).observersByCode, r.cursor, r.lastEvent, r.pendingRetry, r.state)
  {
    AddToIndexCounts(r.observersByCode, p.observes, |r.projections|, code);
  }

  lemma IndexFollowsObserves(r: Router, r': Router)
    requires IndexIsSound(r) && r'.observersByCode == r.observersByCode
    requires |r'.projections| == |r.projections|
    requires forall i :: 0 <= i < |r.projections| ==> r'.projections[i].observes == r.projections[i].observes
    ensures IndexIsSound(r')
  {}

  lemma {:induction false} NotifyKeepsObserves(ps: seq<Projection>, next: ObserverState, i: nat)
    requires i <= |ps|
    ensures var ps' := NotifyFrom(ps, next, i).0;
            forall k :: 0 <= k < |ps| ==> ps'[k] == ps[k].(calls := ps'[k].calls)
    decreases |ps| - i
  {
    if i < |ps| {
      var (p, ok) := OnStateChange(ps[i], next);
      if ok {
        NotifyKeepsObserves(ps[i := p], next, i + 1);
      }
    }
  }

  predicate Welcomes(p: Projection, next: ObserverState) {
    p.acceptsState(next, p.calls)
  }

  /** The projections before `upto` have been called once more, the others not at all. */
  ghost predicate CalledUpTo(before: seq<Projection>, after: seq<Projection>, from: nat, upto: nat) {
    && |after| == |before|
    && forall k :: 0 <= k < |before| ==>
         after[k] == if from <= k < upto then before[k].(calls := before[k].calls + 1) else before[k]
  }

  /** Notification stops right after the first projection that refuses. */
  lemma {:induction false} NotifyStopsAtRefusal(ps: seq<Projection>, next: ObserverState, i: nat) returns (j: nat)
    requires i <= |ps|
    ensures i <= j <= |ps| && (forall k :: i <= k < j ==> Welcomes(ps[k], next))
    ensures j < |ps| ==> !Welcomes(ps[j], next)
    ensures var (ps', ok) := NotifyFrom(ps, next, i);
            (ok <==> j == |ps|) && CalledUpTo(ps, ps', i, if ok then j else j + 1)
    decreases |ps| - i
  {
    j := i;
    if i < |ps| && Welcomes(ps[i], next) {
      var called := ps[i := OnStateChange(ps[i], next).0];
      j := NotifyStopsAtRefusal(called, next, i + 1);
      assert forall k :: i < k < j ==> Welcomes(called[k], next) && called[k] == ps[k];
    }
  }

  /**
   A draining router refuses untouched. Any other moves to the next state exactly when every projection
   accepts it, having told each of them; else it keeps its state, having told those up to the first refusal.
   */
  lemma TransitionMovesIff(r: Router, next: ObserverState) returns (j: nat)
    ensures j <= |r.projections|
    ensures forall k :: 0 <= k < j ==> r.projections[k].acceptsState(next, r.projections[k].calls)
    ensures j < |r.projections| ==> !r.projections[j].acceptsState(next, r.projections[j].calls)
    ensures var (r', result) := Transition(r, next);
            if r.state == Draining then r' == r && result == Err(NotActive(Draining))
            else if j == |r.projections| then
              && result == Ok(()) && r' == r.(state := next, projections := r'.projections)
              && CalledUpTo(r.projections, r'.projections, 0, j)
            else
              && result == Err(ProjectionFailed) && r' == r.(projections := r'.projections)
              && CalledUpTo(r.projections, r'.projections, 0, j + 1)
  {
    j := NotifyStopsAtRefusal(r.projections, next, 0);
    assert forall k :: 0 <= k < |r.projections| ==>
      Welcomes(r.projections[k], next) == r.projections[k].acceptsState(next, r.projections[k].calls);
  }

  lemma TransitionKeepsIndex(r: Router, next: ObserverState)
    requires IndexIsSound(r)
    ensures IndexIsSound(Transition(r, next).0)
  {
    NotifyKeepsObserves(r.projections, next, 0);
    IndexFollowsObserves(r, Transition(r, next).0);
  }

  lemma {:induction false} FanOutKeepsObserves(ps: seq<Projection>, matching: seq<nat>, e: Event, k: nat)
    requires k <= |matching| && forall j :: 0 <= j < |matching| ==> matching[j] < |ps|
    ensures var ps' := FanOut(ps, matching, e, k).0;
            forall i :: 0 <= i < |ps| ==> ps'[i].observes == ps[i].observes
    decreases |matching| - k
  {
    if k < |matching| {
      var i := matching[k];
      var (p, ok) := OnEvent(ps[i], e);
      if AlreadyApplied(ps[i], e.At()) {
        FanOutKeepsObserves(ps, matching, e, k + 1);
      } else if ok {
        FanOutKeepsObserves(ps[i := p], matching, e, k + 1);
      }
    }
  }

  /** The projection needs no call for the event, or its next call succeeds. */
  predicate Ready(p: Projection, e: Event) {
    (p.lastApplied.Some? && !p.lastApplied.value.Before(e.At())) || p.accepts(e, p.calls)
  }

  /** A fan-out is complete exactly when every listed projection has passed the event or accepts it. */
  lemma {:induction false} FanOutCompletesIff(ps: seq<Projection>, matching: seq<nat>, e: Event, k: nat)
    requires k <= |matching| && forall j :: 0 <= j < |matching| ==> matching[j] < |ps|
    ensures FanOut(ps, matching, e, k).2 <==> forall j :: k <= j < |matching| ==> Ready(ps[matching[j]], e)
    decreases |matching| - k
  {
    if k < |matching| {
      var i := matching[k];
      var (p, ok) := OnEvent(ps[i], e);
      FanOutStep(ps, matching, e, k);
      if AlreadyApplied(ps[i], e.At()) {
        FanOutCompletesIff(ps, matching, e, k + 1);
      } else if ok {
        assert Ready(p, e) && Ready(ps[i], e);
        FanOutCompletesIff(ps[i := p], matching, e, k + 1);
        assert forall j :: k + 1 <= j < |matching| ==>
          (Ready(ps[i := p][matching[j]], e) <==> Ready(ps[matching[j]], e));
      } else {
        assert !Ready(ps[matching[k]], e);
      }
    }
  }

  /** After a call for the event: applied, or refused. */
  ghost predicate WasCalled(p: Projection, p': Projection, e: Event) {
    p' == if p.accepts(e, p.calls) then p.(calls := p.calls + 1, lastApplied := Some(e.At()), log := p.log + [e])
          else p.(calls := p.calls + 1)
  }

  /** Every projection is as before, or was called once, which it was not if it had passed the event. */
  ghost predicate CalledOnce(before: seq<Projection>, after: seq<Projection>, e: Event) {
    && |after| == |before|
    && forall i :: 0 <= i < |before| ==>
         after[i] == before[i] || (WasCalled(before[i], after[i], e) && !AlreadyApplied(before[i], e.At()))
  }

  /** The projections listed between k and j have all passed the event, and those not listed are as before. */
  ghost predicate PassedUpTo(before: seq<Projection>, after: seq<Projection>, matching: seq<nat>, e: Event,
                             k: nat, j: nat)
    requires k <= j <= |matching| && |after| == |before|
    requires forall m :: 0 <= m < |matching| ==> matching[m] < |before|
  {
    && (forall m :: k <= m < j ==> AlreadyApplied(after[matching[m]], e.At()))
    && forall i :: 0 <= i < |before| && i !in matching[k..j] ==>
         after[i] == before[i] || (j < |matching| && i == matching[j])
  }

  lemma PassedOneMore(ps: seq<Projection>, p: Projection, after: seq<Projection>, matching: seq<nat>, e: Event,
                      k: nat, j: nat)
    requires k < j <= |matching| && |after| == |ps| && forall m :: 0 <= m < |matching| ==> matching[m] < |ps|
    requires PassedUpTo(ps[matching[k] := p], after, matching, e, k + 1, j)
    requires CalledOnce(ps[matching[k] := p], after, e) && AlreadyApplied(p, e.At())
    ensures PassedUpTo(ps, after, matching, e, k, j)
  {
    assert matching[k..j] == [matching[k]] + matching[k + 1..j];
  }

  lemma CalledOneMore(ps: seq<Projection>, i: nat, p: Projection, after: seq<Projection>, e: Event)
    requires i < |ps| && WasCalled(ps[i], p, e) && !AlreadyApplied(ps[i], e.At()) && AlreadyApplied(p, e.At())
    requires CalledOnce(ps[i := p], after, e)
    ensures CalledOnce(ps, after, e)
  {}

  /** The listed projection j needed the call and refused it. */
  ghost predicate RefusedAt(before: seq<Projection>, after: seq<Projection>, i: nat, e: Event)
    requires i < |before| == |after|
  {
    && !AlreadyApplied(before[i], e.At()) && !before[i].accepts(e, before[i].calls)
    && after[i] == before[i].(calls := before[i].calls + 1)
  }

  /** A fan-out calls the listed projections in order and stops at the first refusal, which is at j. */
  lemma {:induction false} FanOutStopsAtRefusal(ps: seq<Projection>, matching: seq<nat>, e: Event, k: nat)
    returns (j: nat)
    requires k <= |matching| && forall m :: 0 <= m < |matching| ==> matching[m] < |ps|
    ensures var (ps', _, all) := FanOut(ps, matching, e, k);
            && k <= j <= |matching| && (all <==> j == |matching|)
            && CalledOnce(ps, ps', e) && PassedUpTo(ps, ps', matching, e, k, j)
            && (j < |matching| ==> RefusedAt(ps, ps', matching[j], e))
    decreases |matching| - k
  {
    j := k;
    if k < |matching| {
      var i := matching[k];
      var (p, ok) := OnEvent(ps[i], e);
      FanOutStep(ps, matching, e, k);
      if AlreadyApplied(ps[i], e.At()) {
        j := FanOutStopsAtRefusal(ps, matching, e, k + 1);
        assert ps[i := ps[i]] == ps;
        PassedOneMore(ps, ps[i], FanOut(ps, matching, e, k).0, matching, e, k, j);
      } else if ok {
        j := FanOutStopsAtRefusal(ps[i := p], matching, e, k + 1);
        var after := FanOut(ps, matching, e, k).0;
        PassedOneMore(ps, p, after, matching, e, k, j);
        CalledOneMore(ps, i, p, after, e);
      }
    }
  }

  function Applied(ps: seq<Projection>): nat {
    if ps == [] then 0 else Applied(ps[..|ps| - 1]) + |ps[|ps| - 1].log|
  }

  lemma {:induction false} AppliedUpdate(ps: seq<Projection>, i: nat, p: Projection)
    requires i < |ps|
    ensures Applied(ps[i := p]) == Applied(ps) - |ps[i].log| + |p.log|
    decreases |ps|
  {
    var n := |ps| - 1;
    if i < n {
      AppliedUpdate(ps[..n], i, p);
      assert ps[i := p][..n] == ps[..n][i := p];
    } else {
      assert ps[i := p][..n] == ps[..n];
    }
  }

  /** The count returned is the number of events added to the projections' logs. */
  lemma {:induction false} FanOutCountsApplied(ps: seq<Projection>, matching: seq<nat>, e: Event, k: nat)
    requires k <= |matching| && forall j :: 0 <= j < |matching| ==> matching[j] < |ps|
    ensures Applied(FanOut(ps, matching, e, k).0) == Applied(ps) + FanOut(ps, matching, e, k).1
    decreases |matching| - k
  {
    if k < |matching| {
      var i := matching[k];
      var (p, ok) := OnEvent(ps[i], e);
      FanOutStep(ps, matching, e, k);
      AppliedUpdate(ps, i, p);
      if AlreadyApplied(ps[i], e.At()) {
        FanOutCountsApplied(ps, matching, e, k + 1);
      } else if ok {
        FanOutCountsApplied(ps[i := p], matching, e, k + 1);
      }
    }
  }

  function Dispatch(r: Router, e: Event): (Router, Result<nat, Error>)
    requires IndexIsSound(r)
  {
    match Check(r, e)
    case Redelivery => (r, Ok(0))
    case Reject(error) => (r, Err(error))
    case Proceed =>
      var (ps, applied, all) := FanOut(r.projections, Observers(r.observersByCode, e.typeCode), e, 0);
      if all then
        (r.(projections := ps, cursor := Some(e.At()), lastEvent := Some((e.typeCode, e.payload)),
            pendingRetry := None), Ok(applied))
      else
        (r.(projections := ps, pendingRetry := Some((e.At(), e.typeCode, e.payload))), Err(ProjectionFailed))
  }

  lemma FanOutKeepsIndex(r: Router, e: Event)
    requires IndexIsSound(r)
    ensures IndexIsSound(Dispatch(r, e).0)
  {
    FanOutKeepsObserves(r.projections, Observers(r.observersByCode, e.typeCode), e, 0);
    IndexFollowsObserves(r, Dispatch(r, e).0);
  }
}
