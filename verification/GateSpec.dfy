/**
 The admission gate and dispatch of arkhe-forge-platform/src/dispatcher.rs on values, with the
 viewless compute of arkhe-forge-core/src/bridge.rs, and what holds over whole runs of dispatches.
 */
module GateSpec {
  import opened Bytes
  import opened Types
  import opened EntityIds
  import opened ContextSpec

  /** What a submission records: the action, its tick and the authenticated actor. */
  datatype Submission = Submission(instance: u64, action: Action, at: u64, actor: Option<EntityId>)

  type Call = s: Submission | s.action.WellTyped() witness Submission(0, RetractActivity(1), 0, None)

  /** The kernel: the ledgers of the live instances, and the submissions taken so far. */
  datatype Kernel = Kernel(worlds: map<u64, View>, wal: seq<Call>)

  datatype DispatchError =
    | GateErasurePending(user: EntityId, tick: u64)
    | UnboundUserLifecycle(user: EntityId)
    | ProbeViewCorrupt
    | InstanceNotFound

  /** The gate's probe: a context with the instance's view bound. */
  function ProbeContext(h: Hash, view: View, call: Call): Context {
    Context(h, call.instance, call.at, None, Some(view), {}, {}, 0, 0, [], [])
  }

  function Gate(h: Hash, view: View, call: Call): Result<(), DispatchError> {
    if call.actor.None? then Ok(())
    else match EnsureActorEligible(ProbeContext(h, view, call), call.actor.value, call.at)
      case Ok(_) => Ok(())
      case Err(UserErasurePending(user, _)) => Err(GateErasurePending(user, call.at))
      case Err(UserLifecycleUnresolved(user)) => Err(UnboundUserLifecycle(user))
      case Err(_) => Err(ProbeViewCorrupt)
  }

  /** The bridge computes without a view and without indices; the injected actor is the identity. */
  function BridgeContext(h: Hash, call: Call): Context {
    Context(h, call.instance, call.at, call.actor, None, {}, {}, 0, 0, [], [])
  }

  /** Any compute error becomes no operations. */
  function BridgeOps(h: Hash, call: Call): seq<Op> {
    var computed := Compute(BridgeContext(h, call), call.action);
    if computed.Ok? then computed.value else []
  }

  /** `dispatch`: gate, submit, step. */
  function Dispatch(h: Hash, k: Kernel, call: Call): (Kernel, Result<(), DispatchError>) {
    if call.instance !in k.worlds then (k, Err(InstanceNotFound))
    else
      var view := k.worlds[call.instance];
      var gate := Gate(h, view, call);
      if gate.Err? then (k, gate)
      else (Kernel(With<u64, View>(k.worlds, call.instance, ApplyOps(view, BridgeOps(h, call))), k.wal + [call]),
            Ok(()))
  }

  function Run(h: Hash, k: Kernel, calls: seq<Call>): Kernel {
    if calls == [] then k else Dispatch(h, Run(h, k, calls[..|calls| - 1]), calls[|calls| - 1]).0
  }

  // ------------------------------------------------------------------ the bridge

  /** Without a view the in-compute check passes every actor: only the gate can refuse one. */
  lemma BridgeNeverChecksEligibility(h: Hash, call: Call, actor: EntityId)
    ensures EnsureActorEligible(BridgeContext(h, call), actor, call.at) == Ok(())
  {}

  /** The space names no parent, the call carries the current versions and an actor, and an id can be derived. */
  predicate Rooted(h: Hash, call: Call)
    requires call.action.CreateSpace?
  {
    && call.action.parent.None?
    && call.action.schemaVersion == SCHEMA_VERSION && call.action.draftVersion == SCHEMA_VERSION
    && call.actor.Some?
    && Derive(h, Coordinates(call.instance, SPACE_CONFIG, call.at, 0)).Some?
  }

  /** The bridge asks for operations exactly for such a space: it cannot read a parent. */
  lemma BridgeCreatesIffRooted(h: Hash, call: Call)
    requires call.action.CreateSpace?
    ensures BridgeOps(h, call) != [] <==> Rooted(h, call)
  {
    var ctx := BridgeContext(h, call);
    if call.actor.Some? {
      BridgeNeverChecksEligibility(h, call, call.actor.value);
      assert ActingActor(ctx) == Ok(call.actor.value);
    }
    if call.action.parent.Some? {
      assert Read(ctx, call.action.parent.value, PARENT_CHAIN_DEPTH) == Ok(None);
      assert ChildDepth(ctx, call.action.parent).Err?;
    }
  }

  // ------------------------------------------------------------------ runs

  function Origin(call: Call): Option<Coordinates> {
    SpawnsAt(call.instance, call.at, call.action)
  }

  function Origins(calls: seq<Call>): seq<Option<Coordinates>> {
    seq(|calls|, i requires 0 <= i < |calls| => Origin(calls[i]))
  }

  lemma OriginsAppend(calls: seq<Call>, call: Call)
    ensures Origins(calls + [call]) == Origins(calls) + [Origin(call)]
  {}

  ghost predicate Started(k: Kernel) {
    k.wal == [] && forall i :: i in k.worlds ==> k.worlds[i] == map[]
  }

  /** The identity a component records as its author. */
  function Author(c: Component): Option<EntityId> {
    match c
    case SpaceConfig(_, creator, _, _) => Some(creator)
    case ActivityRecord(_, actor, _, _) => Some(actor)
    case _ => None
  }

  /** Some recorded submission derived this entity and injected this actor. */
  ghost predicate Injected(h: Hash, wal: seq<Call>, instance: u64, id: EntityId, author: EntityId) {
    exists i :: 0 <= i < |wal| && Derives(h, Origin(wal[i]), instance, id) && wal[i].actor == Some(author)
  }

  ghost predicate EntryIsGood(h: Hash, wal: seq<Call>, instance: u64, id: EntityId, code: u32, stored: Stored) {
    && stored.Encoded? && stored.component.Code() == code
    && (Author(stored.component).Some? ==> Injected(h, wal, instance, id, Author(stored.component).value))
  }

  /** Every entity was derived by a recorded submission, every component decodes as what its type code says, and
      every recorded author was injected by the submission that created the record. */
  ghost predicate WorldIsGood(h: Hash, wal: seq<Call>, instance: u64, view: View) {
    && (forall e :: e in view ==> Derived(h, Origins(wal), instance, e))
    && (forall e, c :: e in view && c in view[e] ==> EntryIsGood(h, wal, instance, e, c, view[e][c]))
  }

  ghost predicate Invariant(h: Hash, k: Kernel) {
    forall i :: i in k.worlds ==> WorldIsGood(h, k.wal, i, k.worlds[i])
  }

  lemma EntryStaysGood(h: Hash, wal: seq<Call>, call: Call, instance: u64, id: EntityId, code: u32, stored: Stored)
    requires EntryIsGood(h, wal, instance, id, code, stored)
    ensures EntryIsGood(h, wal + [call], instance, id, code, stored)
  {
    var author := Author(stored.component);
    if author.Some? {
      var i :| 0 <= i < |wal| && Derives(h, Origin(wal[i]), instance, id) && wal[i].actor == Some(author.value);
      assert Derives(h, Origin((wal + [call])[i]), instance, id) && (wal + [call])[i].actor == Some(author.value);
    }
  }

  lemma GoodWorldStays(h: Hash, wal: seq<Call>, call: Call, instance: u64, view: View)
    requires WorldIsGood(h, wal, instance, view)
    ensures WorldIsGood(h, wal + [call], instance, view)
  {
    forall e | e in view
      ensures Derived(h, Origins(wal + [call]), instance, e)
    {
      OriginsAppend(wal, call);
      DerivedGrows(h, Origins(wal), Origin(call), instance, e);
    }
    forall e, c | e in view && c in view[e]
      ensures EntryIsGood(h, wal + [call], instance, e, c, view[e][c])
    {
      EntryStaysGood(h, wal, call, instance, e, c, view[e][c]);
    }
  }

  /** A submission that stays apart from the recorded ones spawns a new id. */
  lemma SpawnIsFresh(h: Hash, wal: seq<Call>, call: Call, view: View)
    requires WorldIsGood(h, wal, call.instance, view) && StayApart(h, Origins(wal + [call]))
    requires SpawnCode(call.action).Some? && Spawned(BridgeContext(h, call), SpawnCode(call.action).value).Ok?
    ensures Spawned(BridgeContext(h, call), SpawnCode(call.action).value).value !in view
  {
    OriginsAppend(wal, call);
    NextIdIsFresh(h, Origins(wal), Origin(call), call.instance,
                  Spawned(BridgeContext(h, call), SpawnCode(call.action).value).value);
  }

  lemma CreatorActs(ctx: Context, version: nat, draftVersion: nat, parent: Option<EntityId>)
    requires SpaceChecks(ctx, version, draftVersion, parent).Ok?
    ensures ctx.actingActor == Some(SpaceChecks(ctx, version, draftVersion, parent).value.0)
  {
    assert ActingActor(ctx).Ok?;
  }

  lemma ActivityActorActs(ctx: Context, version: nat, draftVersion: nat, target: Target, key: Option<seq<byte>>)
    requires ActivityChecks(ctx, version, draftVersion, target, key).Ok?
    ensures ctx.actingActor == Some(ActivityChecks(ctx, version, draftVersion, target, key).value)
  {
    assert ActingActor(ctx).Ok?;
  }

  /** The author an action writes into its new entity is the acting actor. */
  lemma NewAuthorActs(ctx: Context, a: Action, code: u32)
    requires a.WellTyped() && NewComponent(ctx, a, code).Some?
    ensures var c := NewComponent(ctx, a, code).value;
            c.Code() == code && (Author(c).Some? ==> ctx.actingActor == Author(c))
  {
    match a
    case CreateSpace(version, draftVersion, parent, _) => CreatorActs(ctx, version, draftVersion, parent);
    case SubmitActivity(version, draftVersion, target, _, key) =>
      ActivityActorActs(ctx, version, draftVersion, target, key);
    case _ =>
  }

  /** A committed spawn adds a well-formed entity of its own. */
  lemma NewEntryIsGood(h: Hash, wal: seq<Call>, call: Call, view: View, code: u32)
    requires Compute(BridgeContext(h, call), call.action).Ok? && SpawnCode(call.action).Some?
    requires Spawned(BridgeContext(h, call), SpawnCode(call.action).value).value !in view
    ensures var id := Spawned(BridgeContext(h, call), SpawnCode(call.action).value).value;
            var stored := Lookup(ApplyOps(view, BridgeOps(h, call)), id, code);
            && Derived(h, Origins(wal + [call]), call.instance, id)
            && (stored.Some? ==> EntryIsGood(h, wal + [call], call.instance, id, code, stored.value))
  {
    var ctx := BridgeContext(h, call);
    var id := Spawned(ctx, SpawnCode(call.action).value).value;
    SpawnFillsIn(ctx, call.action, view, code);
    if NewComponent(ctx, call.action, code).Some? {
      NewAuthorActs(ctx, call.action, code);
    }
    OriginsAppend(wal, call);
    DerivedGrows(h, Origins(wal), Origin(call), call.instance, id);
    assert (wal + [call])[|wal|] == call;
  }

  /** An entry of an entity, or of the same entity after its erasure. */
  lemma OldEntryStaysGood(h: Hash, wal: seq<Call>, instance: u64, e: EntityId, before: map<u32, Stored>,
                          after: map<u32, Stored>, c: u32)
    requires c in before ==> EntryIsGood(h, wal, instance, e, c, before[c])
    requires after == before
          || after == With<u32, Stored>(before, USER_GDPR_STATE, Encoded(UserGdprState(ErasurePending)))
    ensures c in after ==> EntryIsGood(h, wal, instance, e, c, after[c])
  {}

  lemma GrownWorldIsGood(h: Hash, wal: seq<Call>, instance: u64, view: View, after: View, added: Option<EntityId>,
                         erased: Option<EntityId>)
    requires WorldIsGood(h, wal, instance, view) && Grows(view, after, added, erased)
    requires added.Some? ==> Derived(h, Origins(wal), instance, added.value)
    requires added.Some? ==> forall c :: c in after[added.value] ==>
               EntryIsGood(h, wal, instance, added.value, c, after[added.value][c])
    ensures WorldIsGood(h, wal, instance, after)
  {
    forall e, c | e in after && c in after[e]
      ensures EntryIsGood(h, wal, instance, e, c, after[e][c])
    {
      if e in view {
        assert c in view[e] ==> EntryIsGood(h, wal, instance, e, c, view[e][c]);
        OldEntryStaysGood(h, wal, instance, e, view[e], after[e], c);
      }
    }
  }

  lemma CommitKeepsGood(h: Hash, wal: seq<Call>, call: Call, view: View) returns (added: Option<EntityId>)
    requires WorldIsGood(h, wal, call.instance, view) && StayApart(h, Origins(wal + [call]))
    requires Compute(BridgeContext(h, call), call.action).Ok?
    ensures WorldIsGood(h, wal + [call], call.instance, ApplyOps(view, BridgeOps(h, call)))
    ensures Grows(view, ApplyOps(view, BridgeOps(h, call)), added, Erases(call.action))
  {
    GoodWorldStays(h, wal, call, call.instance, view);
    if SpawnCode(call.action).Some? {
      SpawnIsFresh(h, wal, call, view);
    }
    added := CommitGrows(BridgeContext(h, call), call.action, view);
    var after := ApplyOps(view, BridgeOps(h, call));
    if added.Some? {
      NewEntryIsGood(h, wal, call, view, 0);
      forall c | c in after[added.value]
        ensures EntryIsGood(h, wal + [call], call.instance, added.value, c, after[added.value][c])
      {
        NewEntryIsGood(h, wal, call, view, c);
      }
    }
    GrownWorldIsGood(h, wal + [call], call.instance, view, after, added, Erases(call.action));
  }

  // ------------------------------------------------------------------ whole runs

  const PENDING: Stored := Encoded(UserGdprState(ErasurePending))

  /** Entities stay, their components never change, and a status only ever becomes pending. */
  ghost predicate Evolves(before: View, after: View) {
    forall e :: e in before ==>
      && e in after
      && (forall c: u32 :: c != USER_GDPR_STATE ==> Lookup(after, e, c) == Lookup(before, e, c))
      && Lookup(after, e, USER_GDPR_STATE) in {Lookup(before, e, USER_GDPR_STATE), Some(PENDING)}
  }

  lemma GrowsEvolves(before: View, after: View, added: Option<EntityId>, erased: Option<EntityId>)
    requires Grows(before, after, added, erased)
    ensures Evolves(before, after)
  {}

  /** What one accepted dispatch makes of its instance's ledger. */
  lemma WorldStep(h: Hash, wal: seq<Call>, call: Call, view: View)
    requires WorldIsGood(h, wal, call.instance, view) && StayApart(h, Origins(wal + [call]))
    ensures WorldIsGood(h, wal + [call], call.instance, ApplyOps(view, BridgeOps(h, call)))
    ensures Evolves(view, ApplyOps(view, BridgeOps(h, call)))
  {
    if Compute(BridgeContext(h, call), call.action).Ok? {
      var added := CommitKeepsGood(h, wal, call, view);
      GrowsEvolves(view, ApplyOps(view, BridgeOps(h, call)), added, Erases(call.action));
    } else {
      GoodWorldStays(h, wal, call, call.instance, view);
    }
  }

  lemma KernelStep(h: Hash, k: Kernel, call: Call, after: View)
    requires Invariant(h, k) && call.instance in k.worlds
    requires WorldIsGood(h, k.wal + [call], call.instance, after)
    ensures Invariant(h, Kernel(With<u64, View>(k.worlds, call.instance, after), k.wal + [call]))
  {
    forall i | i in k.worlds && i != call.instance
      ensures WorldIsGood(h, k.wal + [call], i, k.worlds[i])
    {
      GoodWorldStays(h, k.wal, call, i, k.worlds[i]);
    }
  }

  /** One dispatch keeps the invariant and only lets the ledgers evolve. */
  lemma DispatchKeeps(h: Hash, k: Kernel, call: Call)
    requires Invariant(h, k) && StayApart(h, Origins(Dispatch(h, k, call).0.wal))
    ensures var k' := Dispatch(h, k, call).0;
            && Invariant(h, k') && k'.worlds.Keys == k.worlds.Keys
            && forall i :: i in k.worlds ==> Evolves(k.worlds[i], k'.worlds[i])
  {
    if Dispatch(h, k, call).1.Ok? {
      var view := k.worlds[call.instance];
      WorldStep(h, k.wal, call, view);
      KernelStep(h, k, call, ApplyOps(view, BridgeOps(h, call)));
    }
  }

  /** An accepted dispatch of `CreateSpace` changes the ledger exactly for such a space, and then by one entity
      with the derived id; a space below a parent is recorded but never created. */
  lemma SpaceIsCreatedIffRooted(h: Hash, k: Kernel, call: Call)
    requires Invariant(h, k) && StayApart(h, Origins(k.wal + [call]))
    requires call.action.CreateSpace? && Dispatch(h, k, call).1.Ok?
    ensures var before, after := k.worlds[call.instance], Dispatch(h, k, call).0.worlds[call.instance];
            && (after != before <==> Rooted(h, call))
            && (Rooted(h, call) ==>
                  var id := Derive(h, Coordinates(call.instance, SPACE_CONFIG, call.at, 0)).value;
                  id !in before && after.Keys == before.Keys + {id})
  {
    var view, ctx := k.worlds[call.instance], BridgeContext(h, call);
    BridgeCreatesIffRooted(h, call);
    if Rooted(h, call) {
      assert WorldIsGood(h, k.wal, call.instance, view);
      assert Compute(ctx, call.action).Ok?;
      SpawnIsFresh(h, k.wal, call, view);
      var added := CommitGrows(ctx, call.action, view);
    }
  }

  /** The log only grows, and instances stay live. */
  lemma {:induction false} LogGrows(h: Hash, k: Kernel, calls: seq<Call>, m: nat)
    requires m <= |calls|
    ensures Run(h, k, calls[..m]).wal <= Run(h, k, calls).wal
    ensures Run(h, k, calls).worlds.Keys == k.worlds.Keys
    decreases calls
  {
    if calls == [] {
    } else if m == |calls| {
      assert calls[..m] == calls;
      LogGrows(h, k, calls[..m - 1], 0);
    } else {
      assert calls[..|calls| - 1][..m] == calls[..m];
      LogGrows(h, k, calls[..|calls| - 1], m);
    }
  }

  lemma EarlierStaysApart(h: Hash, k: Kernel, calls: seq<Call>, m: nat)
    requires m <= |calls| && StayApart(h, Origins(Run(h, k, calls).wal))
    ensures StayApart(h, Origins(Run(h, k, calls[..m]).wal))
  {
    LogGrows(h, k, calls, m);
    var earlier, all := Run(h, k, calls[..m]).wal, Run(h, k, calls).wal;
    assert Origins(earlier) <= Origins(all) by {
      assert forall i :: 0 <= i < |earlier| ==> earlier[i] == all[i];
    }
    PrefixStaysApart(h, Origins(earlier), Origins(all));
  }

  /** Every reachable kernel is good, if the submissions it recorded stay apart. */
  lemma {:induction false} Reachable(h: Hash, k: Kernel, calls: seq<Call>)
    requires Started(k) && StayApart(h, Origins(Run(h, k, calls).wal))
    ensures Invariant(h, Run(h, k, calls))
    decreases calls
  {
    if calls != [] {
      var n := |calls| - 1;
      EarlierStaysApart(h, k, calls, n);
      Reachable(h, k, calls[..n]);
      DispatchKeeps(h, Run(h, k, calls[..n]), calls[n]);
    }
  }

  lemma EvolvesTransitive(a: View, b: View, c: View)
    requires Evolves(a, b) && Evolves(b, c)
    ensures Evolves(a, c)
  {}

  lemma LastStepEvolves(h: Hash, k: Kernel, calls: seq<Call>, instance: u64)
    requires Started(k) && calls != [] && StayApart(h, Origins(Run(h, k, calls).wal)) && instance in k.worlds
    ensures var before, after := Run(h, k, calls[..|calls| - 1]).worlds, Run(h, k, calls).worlds;
            instance in before && instance in after && Evolves(before[instance], after[instance])
  {
    var n := |calls| - 1;
    EarlierStaysApart(h, k, calls, n);
    LogGrows(h, k, calls, n);
    LogGrows(h, k, calls[..n], 0);
    Reachable(h, k, calls[..n]);
    DispatchKeeps(h, Run(h, k, calls[..n]), calls[n]);
  }

  /** Over any stretch of a run no entity disappears, no component changes, no status returns to active. */
  lemma {:induction false} RunEvolves(h: Hash, k: Kernel, calls: seq<Call>, m: nat, instance: u64)
    requires Started(k) && StayApart(h, Origins(Run(h, k, calls).wal)) && m <= |calls| && instance in k.worlds
    ensures instance in Run(h, k, calls[..m]).worlds && instance in Run(h, k, calls).worlds
    ensures Evolves(Run(h, k, calls[..m]).worlds[instance], Run(h, k, calls).worlds[instance])
    decreases calls
  {
    if m == |calls| {
      assert calls[..m] == calls;
      LogGrows(h, k, calls, 0);
    } else {
      var earlier := calls[..|calls| - 1];
      assert earlier[..m] == calls[..m];
      EarlierStaysApart(h, k, calls, |calls| - 1);
      LogGrows(h, k, calls, 0);
      RunEvolves(h, k, earlier, m, instance);
      LastStepEvolves(h, k, calls, instance);
      EvolvesTransitive(Run(h, k, calls[..m]).worlds[instance], Run(h, k, earlier).worlds[instance],
                        Run(h, k, calls).worlds[instance]);
    }
  }

  // ------------------------------------------------------------------ who may act

  /** The user an actor is bound to. */
  function BoundUser(view: View, actor: EntityId): Option<EntityId> {
    var stored := Lookup(view, actor, USER_BINDING);
    if stored.Some? && stored.value.Encoded? && stored.value.component.UserBinding?
    then Some(stored.value.component.user) else None
  }

  lemma ProbeReadsTheLedger(h: Hash, view: View, call: Call, entity: EntityId, code: u32)
    ensures StagedRead(ProbeContext(h, view, call), entity, code)
         == Decode(Lookup(view, entity, code), code, "component decode failed")
  {}

  /** The verdict on an actor bound to a user, from the user's stored status. */
  lemma GateOnBoundActor(h: Hash, view: View, call: Call, user: EntityId)
    requires call.actor.Some? && BoundUser(view, call.actor.value) == Some(user)
    requires Lookup(view, user, USER_GDPR_STATE).Some? ==>
               var stored := Lookup(view, user, USER_GDPR_STATE).value;
               stored.Encoded? && stored.component.UserGdprState?
    ensures Gate(h, view, call) == match Lookup(view, user, USER_GDPR_STATE)
                                   case None => Err(UnboundUserLifecycle(user))
                                   case Some(s) => if s.component.status == Active then Ok(())
                                                   else Err(GateErasurePending(user, call.at))
  {
    ProbeReadsTheLedger(h, view, call, call.actor.value, USER_BINDING);
    ProbeReadsTheLedger(h, view, call, user, USER_GDPR_STATE);
  }

  lemma GateOnUnboundActor(h: Hash, view: View, call: Call)
    requires call.actor.Some? && Lookup(view, call.actor.value, USER_BINDING) == None
    ensures Gate(h, view, call) == Ok(())
  {
    ProbeReadsTheLedger(h, view, call, call.actor.value, USER_BINDING);
  }

  /** Stored bindings and statuses decode as such. */
  lemma StoredAsCoded(h: Hash, wal: seq<Call>, instance: u64, view: View, entity: EntityId)
    requires WorldIsGood(h, wal, instance, view)
    ensures Lookup(view, entity, USER_BINDING) == None || BoundUser(view, entity).Some?
    ensures var status := Lookup(view, entity, USER_GDPR_STATE);
            status == None || (status.value.Encoded? && status.value.component.UserGdprState?)
  {
    if entity in view && USER_BINDING in view[entity] {
      assert EntryIsGood(h, wal, instance, entity, USER_BINDING, view[entity][USER_BINDING]);
    }
    if entity in view && USER_GDPR_STATE in view[entity] {
      assert EntryIsGood(h, wal, instance, entity, USER_GDPR_STATE, view[entity][USER_GDPR_STATE]);
    }
  }

  /** On a reachable ledger the gate admits exactly unbound actors and actors of active users. */
  lemma GateIsExact(h: Hash, k: Kernel, call: Call)
    requires Invariant(h, k) && call.instance in k.worlds && call.actor.Some?
    ensures var view := k.worlds[call.instance];
            var user := BoundUser(view, call.actor.value);
            var gate := Gate(h, view, call);
            && (gate.Ok? <==>
                user.None? || Lookup(view, user.value, USER_GDPR_STATE) == Some(Encoded(UserGdprState(Active))))
            && (gate.Err? ==> gate.error == if Lookup(view, user.value, USER_GDPR_STATE) == None
                                            then UnboundUserLifecycle(user.value)
                                            else GateErasurePending(user.value, call.at))
  {
    var view := k.worlds[call.instance];
    var user := BoundUser(view, call.actor.value);
    StoredAsCoded(h, k.wal, call.instance, view, call.actor.value);
    if user.None? {
      GateOnUnboundActor(h, view, call);
    } else {
      StoredAsCoded(h, k.wal, call.instance, view, user.value);
      GateOnBoundActor(h, view, call, user.value);
    }
  }

  /** An accepted erase request takes effect exactly when its user was ever spawned. */
  lemma EraseTakesEffectIffSpawned(h: Hash, k: Kernel, call: Call, user: EntityId)
    requires call.action == GdprEraseUser(1, user) && Dispatch(h, k, call).1.Ok?
    ensures Lookup(Dispatch(h, k, call).0.worlds[call.instance], user, USER_GDPR_STATE) == Some(PENDING)
       <==> user in k.worlds[call.instance]
  {
    EraseCommits(k.worlds[call.instance], user, call.at);
  }

  /** Call `erase` of the run commits the erasure of a spawned user. */
  ghost predicate ErasesSpawnedUser(h: Hash, k: Kernel, calls: seq<Call>, erase: nat, user: EntityId)
    requires erase < |calls|
  {
    var kernel := Run(h, k, calls[..erase]);
    && calls[erase].action == GdprEraseUser(1, user) && Dispatch(h, kernel, calls[erase]).1.Ok?
    && user in kernel.worlds[calls[erase].instance]
  }

  lemma RunStep(h: Hash, k: Kernel, calls: seq<Call>, m: nat)
    requires m < |calls|
    ensures Run(h, k, calls[..m + 1]) == Dispatch(h, Run(h, k, calls[..m]), calls[m]).0
  {
    assert calls[..m + 1][..m] == calls[..m];
  }

  lemma PendingStaysPending(before: View, after: View, user: EntityId)
    requires Evolves(before, after) && Lookup(before, user, USER_GDPR_STATE) == Some(PENDING)
    ensures Lookup(after, user, USER_GDPR_STATE) == Some(PENDING)
  {}

  /** Once committed, an erasure is never undone by any later dispatch. */
  lemma ErasedStaysErased(h: Hash, k: Kernel, calls: seq<Call>, erase: nat, user: EntityId)
    requires Started(k) && StayApart(h, Origins(Run(h, k, calls).wal)) && erase < |calls|
    requires ErasesSpawnedUser(h, k, calls, erase, user)
    ensures calls[erase].instance in Run(h, k, calls).worlds
    ensures Lookup(Run(h, k, calls).worlds[calls[erase].instance], user, USER_GDPR_STATE) == Some(PENDING)
  {
    var instance := calls[erase].instance;
    assert instance in k.worlds by {
      LogGrows(h, k, calls[..erase], 0);
    }
    RunStep(h, k, calls, erase);
    EraseTakesEffectIffSpawned(h, Run(h, k, calls[..erase]), calls[erase], user);
    RunEvolves(h, k, calls, erase + 1, instance);
    PendingStaysPending(Run(h, k, calls[..erase + 1]).worlds[instance], Run(h, k, calls).worlds[instance], user);
  }

  /**
   After the erasure of a spawned user commits, every later dispatch injecting an actor bound to that
   user, whenever that actor was registered, is refused and leaves the kernel and its log as they were.
   */
  lemma ErasureShutsTheGate(h: Hash, k: Kernel, calls: seq<Call>, erase: nat, later: nat, user: EntityId)
    requires Started(k) && erase < later < |calls| && StayApart(h, Origins(Run(h, k, calls[..later]).wal))
    requires ErasesSpawnedUser(h, k, calls, erase, user)
    requires calls[later].instance == calls[erase].instance && calls[later].actor.Some?
    requires calls[later].instance in Run(h, k, calls[..later]).worlds
    requires BoundUser(Run(h, k, calls[..later]).worlds[calls[later].instance], calls[later].actor.value) == Some(user)
    ensures Dispatch(h, Run(h, k, calls[..later]), calls[later])
         == (Run(h, k, calls[..later]), Err(GateErasurePending(user, calls[later].at)))
  {
    var until := calls[..later];
    assert until[..erase] == calls[..erase];
    ErasedStaysErased(h, k, until, erase, user);
    GateOnBoundActor(h, Run(h, k, until).worlds[calls[later].instance], calls[later], user);
  }

  /** Replaying the submissions a run recorded rebuilds its kernel: the refused ones left no trace. */
  lemma {:induction false} WalReplaysTheRun(h: Hash, k: Kernel, calls: seq<Call>)
    requires k.wal == []
    ensures Run(h, k, Run(h, k, calls).wal) == Run(h, k, calls)
    decreases calls
  {
    if calls != [] {
      var n := |calls| - 1;
      WalReplaysTheRun(h, k, calls[..n]);
      var before := Run(h, k, calls[..n]);
      if Dispatch(h, before, calls[n]).1.Ok? {
        assert (before.wal + [calls[n]])[..|before.wal|] == before.wal;
      }
    }
  }
}
