/**
 The erasure cascade of arkhe-forge-platform/src/crypto_erasure.rs on values: key destruction with
 numbered attestations, row tombstones, and the observer that drives both.
 */
module ErasureSpec {
  import opened Bytes
  import opened Types
  import opened EntityIds
  import C = CryptoSpec

  type DekId = C.DekId

  /** A destruction receipt; the placeholder for a user without a key has no log index. */
  datatype Attestation = Attestation(bytes: seq<byte>, logIndex: Option<u64>)

  datatype ShredError = UnknownDek | AlreadyShredded | Backend(what: string)

  /** The keyed digest a receipt carries. */
  type Digest = (DekId, u64) -> seq<byte>

  /** `InMemoryDekShredder`. */
  datatype Shredder = Shredder(live: set<DekId>, shredded: map<DekId, Attestation>, nextLogIndex: u64)

  function RegisterDek(s: Shredder, dek: DekId): Shredder {
    s.(live := s.live + {dek})
  }

  function IssueAttestation(s: Shredder, digest: Digest, dek: DekId): (Shredder, Result<Attestation, ShredError>) {
    if s.nextLogIndex == U64_MAX then (s, Err(Backend("DEK shred log index overflow")))
    else (s.(nextLogIndex := s.nextLogIndex + 1),
          Ok(Attestation(digest(dek, s.nextLogIndex), Some(s.nextLogIndex))))
  }

  /** `shred`: a repeat returns the cached receipt; the key leaves the live set before one is issued. */
  function Shred(s: Shredder, digest: Digest, dek: DekId): (Shredder, Result<Attestation, ShredError>) {
    if dek in s.shredded then (s, Ok(s.shredded[dek]))
    else if dek !in s.live then (s, Err(UnknownDek))
    else
      var (issued, r) := IssueAttestation(s.(live := s.live - {dek}), digest, dek);
      if r.Err? then (issued, r) else (issued.(shredded := issued.shredded[dek := r.value]), r)
  }

  datatype UserRows = UserRows(rows: seq<u64>, dekId: Option<DekId>)

  /** `InMemoryPiiRowStore`. */
  datatype RowStore = RowStore(users: map<EntityId, UserRows>, tombstoned: set<EntityId>)

  function RowsFor(s: RowStore, user: EntityId): UserRows {
    if user in s.users then s.users[user] else UserRows([], None)
  }

  function Upsert(s: RowStore, user: EntityId, rows: seq<u64>, dek: DekId): RowStore {
    s.(users := s.users[user := UserRows(rows, Some(dek))])
  }

  function Tombstone(s: RowStore, user: EntityId): RowStore {
    RowStore(s.users - {user}, s.tombstoned + {user})
  }

  // ------------------------------------------------------------------ the observer

  datatype Region = Region(scope: string, shredTick: u64, bytes: seq<byte>)

  datatype Completion = Completion(user: EntityId, completedTick: u64, tombstonedRows: nat, attestation: Attestation,
                                   regions: seq<Region>)

  datatype ProjectionError = DecodeFailed | Storage(what: string)

  /** A scheduled erasure; an undecodable payload names no user. */
  datatype Event = Event(user: Option<EntityId>, sequence: u64, tick: u64)

  /** What the two backends do when called: an outage answers before the backend changes anything. */
  datatype Outage = Outage(shred: Option<ShredError>, tombstone: Option<string>)

  /** `held` keeps, per tombstone, the user and the key its rows were under at that moment. */
  datatype Cascade = Cascade(rows: RowStore, shredder: Shredder, completions: seq<Completion>,
                             cursor: Option<(u64, u64)>, held: seq<(EntityId, Option<DekId>)>)

  /** `shred_with_regions`: one default region around the overall receipt. */
  function ShredWithRegions(s: Shredder, digest: Digest, dek: DekId, tick: u64, outage: Option<ShredError>)
    : (Shredder, Result<(Attestation, seq<Region>), ShredError>)
  {
    if outage.Some? then (s, Err(outage.value))
    else
      var (s', r) := Shred(s, digest, dek);
      (s', if r.Err? then Err(r.error) else Ok((r.value, [Region("default-region", tick, r.value.bytes)])))
  }

  function Describe(e: ShredError): ProjectionError {
    match e
    case AlreadyShredded => Storage("shredder returned AlreadyShredded; implementations must cache attestation")
    case UnknownDek => Storage("DEK unknown to shredder")
    case Backend(what) => Storage(what)
  }

  /** The key step of the cascade; a user without a key gets the empty receipt. */
  function DestroyKey(s: Shredder, digest: Digest, dek: Option<DekId>, tick: u64, outage: Option<ShredError>)
    : (Shredder, Result<(Attestation, seq<Region>), ShredError>)
  {
    if dek.Some? then ShredWithRegions(s, digest, dek.value, tick, outage)
    else (s, Ok((Attestation([], None), [])))
  }

  /** `on_event`: shred first, tombstone second. */
  function OnEvent(c: Cascade, digest: Digest, e: Event, tick: u64, outage: Outage)
    : (Cascade, Result<(), ProjectionError>)
  {
    if e.user.None? then (c, Err(DecodeFailed))
    else
      var user := e.user.value;
      var rows := RowsFor(c.rows, user);
      var (s', result) := DestroyKey(c.shredder, digest, rows.dekId, tick, outage.shred);
      if result.Err? then (c.(shredder := s'), Err(Describe(result.error)))
      else if outage.tombstone.Some? then (c.(shredder := s'), Err(Storage(outage.tombstone.value)))
      else
        var done := Completion(user, tick, |rows.rows|, result.value.0, result.value.1);
        (Cascade(Tombstone(c.rows, user), s', c.completions + [done], Some((e.sequence, e.tick)),
                 c.held + [(user, rows.dekId)]), Ok(()))
  }

  // ------------------------------------------------------------------ when a call succeeds

  /** A key is shredded already, or live with a log index left for its receipt. */
  predicate Shreddable(s: Shredder, dek: DekId) {
    dek in s.shredded || (dek in s.live && s.nextLogIndex < U64_MAX)
  }

  /**
   A shred succeeds exactly on such keys. A key shredded before gets its receipt again; a live one leaves the live
   set and gets the receipt of the next index; one that is neither is unknown.
   */
  lemma ShredOutcome(s: Shredder, digest: Digest, dek: DekId)
    ensures var (s', r) := Shred(s, digest, dek);
            && (r.Ok? <==> Shreddable(s, dek))
            && (dek in s.shredded ==> s' == s && r == Ok(s.shredded[dek]))
            && (dek !in s.shredded && Shreddable(s, dek) ==>
                  var receipt := Attestation(digest(dek, s.nextLogIndex), Some(s.nextLogIndex));
                  r == Ok(receipt)
                  && s' == Shredder(s.live - {dek}, s.shredded[dek := receipt], s.nextLogIndex + 1))
            && (dek !in s.shredded && dek !in s.live ==> s' == s && r == Err(UnknownDek))
            && (dek !in s.shredded && dek in s.live && s.nextLogIndex == U64_MAX ==>
                  r == Err(Backend("DEK shred log index overflow")))
  {}

  /** The user's rows, none for a user the store does not know. */
  function HeldRows(c: Cascade, user: EntityId): seq<u64> {
    if user in c.rows.users then c.rows.users[user].rows else []
  }

  function HeldKey(c: Cascade, user: EntityId): Option<DekId> {
    if user in c.rows.users then c.rows.users[user].dekId else None
  }

  /** Registering a key makes it live and touches neither receipts nor other keys; attaching rows sets one user's. */
  lemma RegistrationAndAttachment(c: Cascade, dek: DekId, user: EntityId, rows: seq<u64>, other: EntityId)
    ensures var s := RegisterDek(c.shredder, dek);
            s == Shredder(c.shredder.live + {dek}, c.shredder.shredded, c.shredder.nextLogIndex)
    ensures var c' := c.(rows := Upsert(c.rows, user, rows, dek));
            && HeldRows(c', user) == rows && HeldKey(c', user) == Some(dek)
            && (other != user ==> HeldRows(c', other) == HeldRows(c, other) && HeldKey(c', other) == HeldKey(c, other))
            && c'.rows.tombstoned == c.rows.tombstoned
  {}

  /** The event decodes, its key, if there is one, can be shredded, and the backends that are called answer. */
  predicate Deliverable(c: Cascade, e: Event, outage: Outage) {
    && e.user.Some?
    && (HeldKey(c, e.user.value).Some? ==>
          outage.shred == None && Shreddable(c.shredder, HeldKey(c, e.user.value).value))
    && outage.tombstone == None
  }

  /** The receipt and regions a delivery reports: those of the user's key, or the empty ones. */
  ghost predicate Reports(c: Cascade, digest: Digest, user: EntityId, tick: u64, done: Completion) {
    match HeldKey(c, user)
    case None => done.attestation == Attestation([], None) && done.regions == []
    case Some(dek) =>
      && Shred(c.shredder, digest, dek).1 == Ok(done.attestation)
      && done.regions == [Region("default-region", tick, done.attestation.bytes)]
  }

  /**
   A delivery succeeds exactly then. It then drops the user's rows, marks the user, appends one completion with the
   number of rows held before, and moves the cursor to the event.
   */
  lemma DeliveryOutcome(c: Cascade, digest: Digest, e: Event, tick: u64, outage: Outage)
    ensures OnEvent(c, digest, e, tick, outage).1.Ok? <==> Deliverable(c, e, outage)
    ensures Deliverable(c, e, outage) ==>
              var c', user := OnEvent(c, digest, e, tick, outage).0, e.user.value;
              && |c'.completions| == |c.completions| + 1
              && c'.completions[..|c.completions|] == c.completions
              && var done := c'.completions[|c.completions|];
                 && done.user == user && done.completedTick == tick && done.tombstonedRows == |HeldRows(c, user)|
                 && Reports(c, digest, user, tick, done)
    ensures Deliverable(c, e, outage) ==>
              var c', user := OnEvent(c, digest, e, tick, outage).0, e.user.value;
              && c'.cursor == Some((e.sequence, e.tick))
              && c'.rows.users == c.rows.users - {user} && c'.rows.tombstoned == c.rows.tombstoned + {user}
              && c'.held == c.held + [(user, HeldKey(c, user))]
              && c'.shredder == if HeldKey(c, user).Some?
                                then Shred(c.shredder, digest, HeldKey(c, user).value).0 else c.shredder
  {
    if e.user.Some? && HeldKey(c, e.user.value).Some? {
      ShredOutcome(c.shredder, digest, HeldKey(c, e.user.value).value);
    }
  }

  /** A failed delivery reports what failed first: the decoding, the shredder, the row store. */
  lemma DeliveryRefusals(c: Cascade, digest: Digest, e: Event, tick: u64, outage: Outage)
    ensures e.user == None ==> OnEvent(c, digest, e, tick, outage) == (c, Err(DecodeFailed))
    ensures e.user.Some? && HeldKey(c, e.user.value).Some? && outage.shred.Some? ==>
              OnEvent(c, digest, e, tick, outage) == (c, Err(Describe(outage.shred.value)))
    ensures e.user.Some? && HeldKey(c, e.user.value).Some? && outage.shred == None
            && !Shreddable(c.shredder, HeldKey(c, e.user.value).value) ==>
              var (s', r) := Shred(c.shredder, digest, HeldKey(c, e.user.value).value);
              OnEvent(c, digest, e, tick, outage) == (c.(shredder := s'), Err(Describe(r.error)))
    ensures e.user.Some? && HeldKey(c, e.user.value) == None && outage.tombstone.Some? ==>
              OnEvent(c, digest, e, tick, outage) == (c, Err(Storage(outage.tombstone.value)))
    ensures e.user.Some? && HeldKey(c, e.user.value).Some? && outage.shred == None
            && Shreddable(c.shredder, HeldKey(c, e.user.value).value) && outage.tombstone.Some? ==>
              OnEvent(c, digest, e, tick, outage)
              == (c.(shredder := Shred(c.shredder, digest, HeldKey(c, e.user.value).value).0),
                  Err(Storage(outage.tombstone.value)))
  {
    if e.user.Some? && HeldKey(c, e.user.value).Some? {
      ShredOutcome(c.shredder, digest, HeldKey(c, e.user.value).value);
    }
  }

  // ------------------------------------------------------------------ failed shreds

  /** A shred that fails leaves the shredder as it was, except for one family of calls: a live key never
      shredded, at the overflow of the log index, has already been dropped when the overflow is noticed. */
  lemma FailedShredIsCleanIff(s: Shredder, digest: Digest, dek: DekId)
    ensures (Shred(s, digest, dek).1.Err? ==> Shred(s, digest, dek).0 == s)
       <==> !(dek in s.live && dek !in s.shredded && s.nextLogIndex == U64_MAX)
  {
    if dek in s.live && dek !in s.shredded {
      assert dek !in Shred(s, digest, dek).0.live;
    }
  }

  /** Such a key is neither live nor attested: every retry is refused until it is registered again. */
  lemma OverflowLosesTheKey(s: Shredder, digest: Digest, dek: DekId)
    requires dek in s.live && dek !in s.shredded && s.nextLogIndex == U64_MAX
    ensures var (s', r) := Shred(s, digest, dek);
            && r == Err(Backend("DEK shred log index overflow"))
            && dek !in s'.live && dek !in s'.shredded
            && Shred(s', digest, dek) == (s', Err(UnknownDek))
  {
    assert Shred(s, digest, dek).0 == s.(live := s.live - {dek});
  }

  // ------------------------------------------------------------------ numbered receipts

  /** The receipts issued so far, in order: the i-th carries index i, and there are no others. */
  ghost predicate Numbered(s: Shredder, digest: Digest, order: seq<DekId>) {
    && |order| == s.nextLogIndex
    && (forall i :: 0 <= i < |order| ==>
          order[i] in s.shredded && s.shredded[order[i]] == Attestation(digest(order[i], i), Some(i)))
    && (forall d :: d in s.shredded ==> d in order)
  }

  /** Some receipt carries the index. */
  ghost predicate Taken(s: Shredder, i: u64) {
    exists d :: d in s.shredded && s.shredded[d].logIndex == Some(i)
  }

  /** Equal indices mean the same key, and the indices below the next one are all taken. */
  lemma IndicesAreExact(s: Shredder, digest: Digest, order: seq<DekId>)
    requires Numbered(s, digest, order)
    ensures forall d, e :: d in s.shredded && e in s.shredded && s.shredded[d].logIndex == s.shredded[e].logIndex ==>
              d == e
    ensures forall d :: d in s.shredded ==>
              s.shredded[d].logIndex.Some? && s.shredded[d].logIndex.value < s.nextLogIndex
    ensures forall i: u64 :: Taken(s, i) <==> i < s.nextLogIndex
  {
    forall i: u64 | i < s.nextLogIndex
      ensures Taken(s, i)
    {
      assert order[i] in s.shredded;
    }
  }

  lemma ShredKeepsNumbered(s: Shredder, digest: Digest, order: seq<DekId>, dek: DekId) returns (order': seq<DekId>)
    requires Numbered(s, digest, order)
    ensures Numbered(Shred(s, digest, dek).0, digest, order') && order <= order'
  {
    order' := order;
    if dek !in s.shredded && dek in s.live && s.nextLogIndex < U64_MAX {
      order' := order + [dek];
    }
  }

  /** Receipts are never taken back or replaced. */
  ghost predicate Keeps(before: Shredder, after: Shredder) {
    forall d :: d in before.shredded ==> d in after.shredded && after.shredded[d] == before.shredded[d]
  }

  // ------------------------------------------------------------------ runs

  datatype Step =
    | Register(dek: DekId)
    | Attach(user: EntityId, rows: seq<u64>, dek: DekId)
    | Deliver(event: Event, tick: u64, outage: Outage)
    | Drain

  function Next(c: Cascade, digest: Digest, step: Step): Cascade {
    match step
    case Register(dek) => c.(shredder := RegisterDek(c.shredder, dek))
    case Attach(user, rows, dek) => c.(rows := Upsert(c.rows, user, rows, dek))
    case Deliver(event, tick, outage) => OnEvent(c, digest, event, tick, outage).0
    case Drain => c.(completions := [])
  }

  function After(digest: Digest, steps: seq<Step>): Cascade {
    if steps == [] then Cascade(RowStore(map[], {}), Shredder({}, map[], 0), [], None, [])
    else Next(After(digest, steps[..|steps| - 1]), digest, steps[|steps| - 1])
  }

  /** Every key that ever protected tombstoned rows is shredded, and tombstones are exactly those recorded. */
  ghost predicate ShreddedBeforeTombstoned(c: Cascade) {
    && (forall i :: 0 <= i < |c.held| && c.held[i].1.Some? ==> c.held[i].1.value in c.shredder.shredded)
    && (forall u :: u in c.rows.tombstoned <==> exists i :: 0 <= i < |c.held| && c.held[i].0 == u)
  }

  /** A delivery that fails changes neither rows nor completions nor the cursor. */
  lemma FailureChangesNoRows(c: Cascade, digest: Digest, e: Event, tick: u64, outage: Outage)
    requires OnEvent(c, digest, e, tick, outage).1.Err?
    ensures var c' := OnEvent(c, digest, e, tick, outage).0;
            c'.rows == c.rows && c'.completions == c.completions && c'.cursor == c.cursor && c'.held == c.held
  {}

  /** A completion carries the key's numbered receipt exactly when the user held a key when it ran. */
  lemma CompletionIsAttested(c: Cascade, digest: Digest, order: seq<DekId>, e: Event, tick: u64, outage: Outage)
    requires Numbered(c.shredder, digest, order) && OnEvent(c, digest, e, tick, outage).1.Ok?
    ensures var c' := OnEvent(c, digest, e, tick, outage).0;
            var done := c'.completions[|c.completions|];
            var dek := RowsFor(c.rows, e.user.value).dekId;
            && done.user == e.user.value && done.user in c'.rows.tombstoned && done.user !in c'.rows.users
            && (dek.Some? <==> done.attestation.logIndex.Some?)
            && (dek.Some? ==> dek.value in c'.shredder.shredded && done.attestation == c'.shredder.shredded[dek.value])
  {
    var dek := RowsFor(c.rows, e.user.value).dekId;
    if dek.Some? {
      var after := ShredKeepsNumbered(c.shredder, digest, order, dek.value);
    }
  }

  /** A redelivery after completion destroys nothing and is completed with the empty receipt. */
  lemma RedeliveryIsEmpty(c: Cascade, digest: Digest, e: Event, tick: u64, outage: Outage, again: u64)
    requires OnEvent(c, digest, e, tick, outage).1.Ok?
    ensures var c' := OnEvent(c, digest, e, tick, outage).0;
            var (c'', r) := OnEvent(c', digest, e, again, Outage(None, None));
            && r == Ok(()) && c''.shredder == c'.shredder
            && c''.completions == c'.completions + [Completion(e.user.value, again, 0, Attestation([], None), [])]
  {}

  lemma DeliverKeeps(c: Cascade, digest: Digest, order: seq<DekId>, e: Event, tick: u64, outage: Outage)
    returns (order': seq<DekId>)
    requires Numbered(c.shredder, digest, order) && ShreddedBeforeTombstoned(c)
    ensures var c' := OnEvent(c, digest, e, tick, outage).0;
            Numbered(c'.shredder, digest, order') && ShreddedBeforeTombstoned(c') && Keeps(c.shredder, c'.shredder)
  {
    order' := order;
    if e.user.Some? {
      var user := e.user.value;
      var dek := RowsFor(c.rows, user).dekId;
      if dek.Some? && outage.shred.None? {
        order' := ShredKeepsNumbered(c.shredder, digest, order, dek.value);
      }
      var c' := OnEvent(c, digest, e, tick, outage).0;
      if OnEvent(c, digest, e, tick, outage).1.Ok? {
        assert c'.held[|c.held|].0 == user;
        forall u | u in c.rows.tombstoned
          ensures exists i :: 0 <= i < |c'.held| && c'.held[i].0 == u
        {
          var i :| 0 <= i < |c.held| && c.held[i].0 == u;
          assert c'.held[i].0 == u;
        }
      }
    }
  }

  /** Over every run, outages and redeliveries included: receipts are numbered without gaps, and no rows are
      tombstoned before the key they were under is shredded. */
  lemma {:induction false} EveryRunShredsFirst(digest: Digest, steps: seq<Step>) returns (order: seq<DekId>)
    ensures Numbered(After(digest, steps).shredder, digest, order)
    ensures ShreddedBeforeTombstoned(After(digest, steps))
    decreases |steps|
  {
    order := [];
    if steps != [] {
      var n := |steps| - 1;
      order := EveryRunShredsFirst(digest, steps[..n]);
      match steps[n]
      case Deliver(e, tick, outage) => order := DeliverKeeps(After(digest, steps[..n]), digest, order, e, tick, outage);
      case Register(_) =>
      case Attach(_, _, _) =>
      case Drain =>
    }
  }

  /** A key shredded at any point of a run keeps returning the receipt it got then. */
  lemma {:induction false} RepeatShredsAreIdentical(digest: Digest, steps: seq<Step>, m: nat, dek: DekId)
    requires m <= |steps| && dek in After(digest, steps[..m]).shredder.shredded
    ensures var s := After(digest, steps).shredder;
            Shred(s, digest, dek) == (s, Ok(After(digest, steps[..m]).shredder.shredded[dek]))
    decreases |steps|
  {
    if m == |steps| {
      assert steps[..m] == steps;
    } else {
      var n := |steps| - 1;
      assert steps[..n][..m] == steps[..m];
      RepeatShredsAreIdentical(digest, steps[..n], m, dek);
      var order := EveryRunShredsFirst(digest, steps[..n]);
      if steps[n].Deliver? {
        var order' := DeliverKeeps(After(digest, steps[..n]), digest, order, steps[n].event, steps[n].tick,
                                   steps[n].outage);
      }
    }
  }
}
