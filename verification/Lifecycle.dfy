/**
 What `dispatch` of arkhe-forge-platform/src/dispatcher.rs does with each production action, and the
 life of a user under it: registered, acting through bound actors, and scheduled for erasure.
 */
module Lifecycle {
  import opened Bytes
  import opened Types
  import opened EntityIds
  import opened ContextSpec
  import opened ActionRules
  import opened GateSpec

  // ------------------------------------------------------------------ admission and locality

  /** A call for an instance that is not live is refused as such, and a call without an actor for nothing else. */
  lemma AnonymousCallsAreAdmitted(h: Hash, k: Kernel, call: Call)
    ensures Dispatch(h, k, call).1 == Err(InstanceNotFound) <==> call.instance !in k.worlds
    ensures call.actor == None && call.instance in k.worlds ==> Dispatch(h, k, call).1 == Ok(())
  {}

  /** A refused dispatch changes nothing; an accepted one is recorded, and reaches no other instance. */
  lemma DispatchIsLocal(h: Hash, k: Kernel, call: Call)
    ensures Dispatch(h, k, call).1.Err? ==> Dispatch(h, k, call).0 == k
    ensures Dispatch(h, k, call).1.Ok? ==>
              var k' := Dispatch(h, k, call).0;
              && k'.wal == k.wal + [call] && k'.worlds.Keys == k.worlds.Keys
              && forall i :: i in k.worlds && i != call.instance ==> k'.worlds[i] == k.worlds[i]
  {}

  // ------------------------------------------------------------------ what the bridge accepts

  /** The id a submission derives for the entity it spawns. */
  function SpawnId(h: Hash, call: Call, code: u32): Option<EntityId> {
    Derive(h, Coordinates(call.instance, code, call.at, 0))
  }

  lemma BridgeIdentity(h: Hash, call: Call, parent: Option<EntityId>)
    ensures MayAct(BridgeContext(h, call)) <==> call.actor.Some?
    ensures DepthBelow(BridgeContext(h, call), parent) == if parent == None then Some(0) else None
  {}

  ghost predicate UserIsFit(a: Action)
    requires a.WellTyped() && a.RegisterUser?
  {
    a.schemaVersion == 1 && a.profile.schemaVersion == 1 && a.credential.schemaVersion == 1 && Strong(a.credential)
  }

  ghost predicate ActorIsFit(a: Action)
    requires a.WellTyped() && a.RegisterActor?
  {
    a.schemaVersion == 1 && a.actorProfile.schemaVersion == 1
  }

  /** The ledger of the call's instance, before and after. */
  ghost function Before(k: Kernel, call: Call): View
    requires call.instance in k.worlds
  {
    k.worlds[call.instance]
  }

  ghost function Behind(h: Hash, k: Kernel, call: Call): View
    requires Dispatch(h, k, call).1.Ok?
  {
    Dispatch(h, k, call).0.worlds[call.instance]
  }

  /** An accepted dispatch registers a fit user whose id can be derived, and otherwise changes no ledger. */
  lemma UserIsRegistered(h: Hash, k: Kernel, call: Call)
    requires Invariant(h, k) && StayApart(h, Origins(k.wal + [call])) && Dispatch(h, k, call).1.Ok?
    requires call.action.RegisterUser?
    ensures var id, before := SpawnId(h, call, USER_PROFILE), Before(k, call);
            if UserIsFit(call.action) && id.Some? then
              && id.value !in before
              && Behind(h, k, call) == before[id.value := UserEntry(call.action)]
            else Behind(h, k, call) == before
  {
    var ctx, view := BridgeContext(h, call), Before(k, call);
    assert WorldIsGood(h, k.wal, call.instance, view);
    ComputeAcceptsIff(ctx, call.action);
    if UserIsFit(call.action) && SpawnId(h, call, USER_PROFILE).Some? {
      SpawnIsFresh(h, k.wal, call, view);
      UserCommits(ctx, call.action, view, SpawnId(h, call, USER_PROFILE).value);
    }
  }

  /** So it does with an actor; handles in use are not known to it. */
  lemma ActorIsRegistered(h: Hash, k: Kernel, call: Call)
    requires Invariant(h, k) && StayApart(h, Origins(k.wal + [call])) && Dispatch(h, k, call).1.Ok?
    requires call.action.RegisterActor?
    ensures var id, before := SpawnId(h, call, ACTOR_PROFILE), Before(k, call);
            if ActorIsFit(call.action) && id.Some? then
              && id.value !in before
              && Behind(h, k, call) == before[id.value := ActorEntry(call.action)]
            else Behind(h, k, call) == before
  {
    var ctx, view := BridgeContext(h, call), Before(k, call);
    assert WorldIsGood(h, k.wal, call.instance, view);
    ComputeAcceptsIff(ctx, call.action);
    if ActorIsFit(call.action) && SpawnId(h, call, ACTOR_PROFILE).Some? {
      SpawnIsFresh(h, k.wal, call, view);
      ActorCommits(ctx, call.action, view, SpawnId(h, call, ACTOR_PROFILE).value);
    }
  }

  /** A space without a parent is created at depth 0 under the injected actor. */
  lemma SpaceIsCreated(h: Hash, k: Kernel, call: Call)
    requires Invariant(h, k) && StayApart(h, Origins(k.wal + [call])) && Dispatch(h, k, call).1.Ok?
    requires call.action.CreateSpace?
    ensures var id, before := SpawnId(h, call, SPACE_CONFIG), Before(k, call);
            if Rooted(h, call) then
              && id.value !in before
              && Behind(h, k, call) == before[id.value := SpaceEntry(call.action, call.actor.value, 0)]
            else Behind(h, k, call) == before
  {
    var ctx, view := BridgeContext(h, call), Before(k, call);
    assert WorldIsGood(h, k.wal, call.instance, view);
    ComputeAcceptsIff(ctx, call.action);
    BridgeIdentity(h, call, call.action.parent);
    if Rooted(h, call) {
      SpawnIsFresh(h, k.wal, call, view);
      SpaceCommits(ctx, call.action, view, SpawnId(h, call, SPACE_CONFIG).value);
    }
  }

  /** The call carries the current versions, an actor, and a target other than the activity's own id. */
  predicate ActivityIsFit(h: Hash, call: Call)
    requires call.action.SubmitActivity?
  {
    && call.action.schemaVersion == 1 && call.action.draftVersion == 1 && call.actor.Some?
    && SpawnId(h, call, ACTIVITY_RECORD).Some?
    && call.action.target != ActivityTarget(SpawnId(h, call, ACTIVITY_RECORD).value)
  }

  /** An activity is recorded under the injected actor; idempotency keys in use are not known to the bridge. */
  lemma ActivityIsRecorded(h: Hash, k: Kernel, call: Call)
    requires Invariant(h, k) && StayApart(h, Origins(k.wal + [call])) && Dispatch(h, k, call).1.Ok?
    requires call.action.SubmitActivity?
    ensures var id, before := SpawnId(h, call, ACTIVITY_RECORD), Before(k, call);
            if ActivityIsFit(h, call) then
              && id.value !in before
              && Behind(h, k, call) == before[id.value := ActivityEntry(call.action, call.actor.value)]
            else Behind(h, k, call) == before
  {
    var ctx, view := BridgeContext(h, call), Before(k, call);
    assert WorldIsGood(h, k.wal, call.instance, view);
    ComputeAcceptsIff(ctx, call.action);
    BridgeIdentity(h, call, None);
    if ActivityIsFit(h, call) {
      SpawnIsFresh(h, k.wal, call, view);
      ActivityCommits(ctx, call.action, view, SpawnId(h, call, ACTIVITY_RECORD).value);
    }
  }

  /** An erase request with the current version marks a spawned user pending; nothing else changes. */
  lemma EraseIsScheduled(h: Hash, k: Kernel, call: Call)
    requires Dispatch(h, k, call).1.Ok? && call.action.GdprEraseUser?
    ensures var user, before := call.action.user, Before(k, call);
            Behind(h, k, call)
            == if call.action.schemaVersion == 1 && user in before
               then before[user := With<u32, Stored>(before[user], USER_GDPR_STATE, PENDING)] else before
  {
    ComputeAcceptsIff(BridgeContext(h, call), call.action);
    if call.action.schemaVersion == 1 {
      EraseIsExact(BridgeContext(h, call), call.action, Before(k, call));
    }
  }

  // ------------------------------------------------------------------ the life of a user

  const ACTIVE: Stored := Encoded(UserGdprState(Active))

  /** Call m of the run registered this user. */
  ghost predicate RegistersUser(h: Hash, k: Kernel, calls: seq<Call>, m: nat, user: EntityId)
    requires m < |calls|
  {
    var call := calls[m];
    && call.action.RegisterUser? && UserIsFit(call.action) && SpawnId(h, call, USER_PROFILE) == Some(user)
    && Dispatch(h, Run(h, k, calls[..m]), call).1.Ok?
  }

  /** Call j of the run was an accepted request to erase this user of this instance. */
  ghost predicate ErasesUser(h: Hash, k: Kernel, calls: seq<Call>, j: nat, instance: u64, user: EntityId)
    requires j < |calls|
  {
    && calls[j].instance == instance && calls[j].action == GdprEraseUser(1, user)
    && Dispatch(h, Run(h, k, calls[..j]), calls[j]).1.Ok?
  }

  ghost predicate ErasedSince(h: Hash, k: Kernel, calls: seq<Call>, m: nat, instance: u64, user: EntityId) {
    exists j :: m < j < |calls| && ErasesUser(h, k, calls, j, instance, user)
  }

  lemma ErasedSinceStep(h: Hash, k: Kernel, calls: seq<Call>, m: nat, instance: u64, user: EntityId)
    requires m < |calls| - 1
    ensures ErasedSince(h, k, calls, m, instance, user)
       <==> ErasedSince(h, k, calls[..|calls| - 1], m, instance, user)
            || ErasesUser(h, k, calls, |calls| - 1, instance, user)
  {
    var n := |calls| - 1;
    forall j | 0 <= j < n
      ensures ErasesUser(h, k, calls, j, instance, user) == ErasesUser(h, k, calls[..n], j, instance, user)
    {
      assert calls[..n][..j] == calls[..j];
    }
    if ErasedSince(h, k, calls[..n], m, instance, user) {
      var j :| m < j < n && ErasesUser(h, k, calls[..n], j, instance, user);
      assert ErasesUser(h, k, calls, j, instance, user);
    }
  }

  lemma StatusAfter(before: View, after: View, added: Option<EntityId>, erased: Option<EntityId>, user: EntityId)
    requires Grows(before, after, added, erased) && user in before
    ensures Lookup(after, user, USER_GDPR_STATE)
         == if erased == Some(user) then Some(PENDING) else Lookup(before, user, USER_GDPR_STATE)
  {}

  /** The ledger after an accepted dispatch. */
  lemma BehindIsCommitted(h: Hash, k: Kernel, call: Call)
    requires Dispatch(h, k, call).1.Ok?
    ensures Behind(h, k, call) == ApplyOps(k.worlds[call.instance], BridgeOps(h, call))
  {}

  lemma StatusBehind(h: Hash, k: Kernel, call: Call, user: EntityId)
    requires Invariant(h, k) && StayApart(h, Origins(k.wal + [call]))
    requires Dispatch(h, k, call).1.Ok? && user in Before(k, call)
    ensures Lookup(Behind(h, k, call), user, USER_GDPR_STATE)
         == if call.action == GdprEraseUser(1, user) then Some(PENDING)
            else Lookup(Before(k, call), user, USER_GDPR_STATE)
  {
    var ctx, view := BridgeContext(h, call), Before(k, call);
    BehindIsCommitted(h, k, call);
    ComputeAcceptsIff(ctx, call.action);
    if Compute(ctx, call.action).Ok? {
      assert WorldIsGood(h, k.wal, call.instance, view);
      var added := CommitKeepsGood(h, k.wal, call, view);
      StatusAfter(view, Behind(h, k, call), added, Erases(call.action), user);
    }
  }

  /** What one dispatch does to the status of an entity: only an accepted request to erase it counts. */
  lemma StatusStep(h: Hash, k: Kernel, call: Call, instance: u64, user: EntityId)
    requires Invariant(h, k) && StayApart(h, Origins(Dispatch(h, k, call).0.wal))
    requires instance in k.worlds && user in k.worlds[instance]
    ensures var k' := Dispatch(h, k, call).0;
            && instance in k'.worlds
            && Lookup(k'.worlds[instance], user, USER_GDPR_STATE)
            == if call.instance == instance && call.action == GdprEraseUser(1, user) && Dispatch(h, k, call).1.Ok?
               then Some(PENDING) else Lookup(k.worlds[instance], user, USER_GDPR_STATE)
  {
    DispatchIsLocal(h, k, call);
    if Dispatch(h, k, call).1.Ok? && call.instance == instance {
      StatusBehind(h, k, call, user);
    }
  }

  lemma NewUserIsActive(h: Hash, k: Kernel, call: Call, user: EntityId)
    requires Invariant(h, k) && StayApart(h, Origins(k.wal + [call])) && Dispatch(h, k, call).1.Ok?
    requires call.action.RegisterUser? && UserIsFit(call.action) && SpawnId(h, call, USER_PROFILE) == Some(user)
    ensures user in Behind(h, k, call) && Lookup(Behind(h, k, call), user, USER_GDPR_STATE) == Some(ACTIVE)
  {
    UserIsRegistered(h, k, call);
    var entry := UserEntry(call.action);
    assert USER_GDPR_STATE in entry && entry[USER_GDPR_STATE] == ACTIVE;
  }

  lemma NewActorIsBound(h: Hash, k: Kernel, call: Call, actor: EntityId)
    requires Invariant(h, k) && StayApart(h, Origins(k.wal + [call])) && Dispatch(h, k, call).1.Ok?
    requires call.action.RegisterActor? && ActorIsFit(call.action) && SpawnId(h, call, ACTOR_PROFILE) == Some(actor)
    ensures actor in Behind(h, k, call) && BoundUser(Behind(h, k, call), actor) == Some(call.action.boundUser)
  {
    ActorIsRegistered(h, k, call);
    var entry := ActorEntry(call.action);
    assert USER_BINDING in entry && entry[USER_BINDING] == Encoded(UserBinding(call.action.boundUser));
  }

  lemma BindingStays(before: View, after: View, actor: EntityId)
    requires Evolves(before, after) && actor in before
    ensures BoundUser(after, actor) == BoundUser(before, actor)
  {
    assert Lookup(after, actor, USER_BINDING) == Lookup(before, actor, USER_BINDING);
  }

  /** The kernel a call of the run is dispatched to. */
  lemma KernelBefore(h: Hash, k: Kernel, calls: seq<Call>, m: nat)
    requires Started(k) && StayApart(h, Origins(Run(h, k, calls).wal)) && m < |calls|
    ensures var kernel := Run(h, k, calls[..m]);
            && Invariant(h, kernel) && StayApart(h, Origins(Dispatch(h, kernel, calls[m]).0.wal))
            && Run(h, k, calls[..m + 1]) == Dispatch(h, kernel, calls[m]).0
  {
    EarlierStaysApart(h, k, calls, m);
    EarlierStaysApart(h, k, calls, m + 1);
    Reachable(h, k, calls[..m]);
    RunStep(h, k, calls, m);
  }

  /** The user's status at the end of the run is pending if an erase request was accepted after call m, else active. */
  ghost predicate TellsErasure(h: Hash, k: Kernel, calls: seq<Call>, m: nat, instance: u64, user: EntityId) {
    var worlds := Run(h, k, calls).worlds;
    && instance in worlds && user in worlds[instance]
    && Lookup(worlds[instance], user, USER_GDPR_STATE)
       == Some(if ErasedSince(h, k, calls, m, instance, user) then PENDING else ACTIVE)
  }

  lemma TellsErasureAtFirst(h: Hash, k: Kernel, calls: seq<Call>, user: EntityId)
    requires Started(k) && StayApart(h, Origins(Run(h, k, calls).wal))
    requires calls != [] && RegistersUser(h, k, calls, |calls| - 1, user)
    ensures TellsErasure(h, k, calls, |calls| - 1, calls[|calls| - 1].instance, user)
  {
    var n := |calls| - 1;
    KernelBefore(h, k, calls, n);
    assert calls[..n + 1] == calls;
    NewUserIsActive(h, Run(h, k, calls[..n]), calls[n], user);
  }

  lemma TellsErasureNext(h: Hash, k: Kernel, calls: seq<Call>, m: nat, instance: u64, user: EntityId)
    requires Started(k) && StayApart(h, Origins(Run(h, k, calls).wal)) && m < |calls| - 1
    requires TellsErasure(h, k, calls[..|calls| - 1], m, instance, user)
    ensures TellsErasure(h, k, calls, m, instance, user)
  {
    var n := |calls| - 1;
    KernelBefore(h, k, calls, n);
    assert calls[..n + 1] == calls;
    StatusStep(h, Run(h, k, calls[..n]), calls[n], instance, user);
    ErasedSinceStep(h, k, calls, m, instance, user);
  }

  /** So it is in every run, from the user's registration on. */
  lemma {:induction false} StatusTellsErasure(h: Hash, k: Kernel, calls: seq<Call>, m: nat, user: EntityId)
    requires Started(k) && StayApart(h, Origins(Run(h, k, calls).wal))
    requires m < |calls| && RegistersUser(h, k, calls, m, user)
    ensures TellsErasure(h, k, calls, m, calls[m].instance, user)
    decreases |calls|
  {
    var n := |calls| - 1;
    if m == n {
      TellsErasureAtFirst(h, k, calls, user);
    } else {
      assert calls[..n][..m] == calls[..m];
      EarlierStaysApart(h, k, calls, n);
      StatusTellsErasure(h, k, calls[..n], m, user);
      TellsErasureNext(h, k, calls, m, calls[m].instance, user);
    }
  }

  /** Call m of the run registered this actor for the user. */
  ghost predicate RegistersActor(h: Hash, k: Kernel, calls: seq<Call>, m: nat, actor: EntityId, user: EntityId)
    requires m < |calls|
  {
    var call := calls[m];
    && call.action.RegisterActor? && call.action.boundUser == user
    && ActorIsFit(call.action) && SpawnId(h, call, ACTOR_PROFILE) == Some(actor)
    && Dispatch(h, Run(h, k, calls[..m]), call).1.Ok?
  }

  /** A registered actor stays bound to its user. */
  lemma ActorStaysBound(h: Hash, k: Kernel, calls: seq<Call>, m: nat, actor: EntityId, user: EntityId)
    requires Started(k) && StayApart(h, Origins(Run(h, k, calls).wal))
    requires m < |calls| && RegistersActor(h, k, calls, m, actor, user)
    ensures calls[m].instance in Run(h, k, calls).worlds
    ensures BoundUser(Run(h, k, calls).worlds[calls[m].instance], actor) == Some(user)
  {
    var kernel, instance := Run(h, k, calls[..m]), calls[m].instance;
    KernelBefore(h, k, calls, m);
    NewActorIsBound(h, kernel, calls[m], actor);
    LogGrows(h, k, calls[..m], 0);
    RunEvolves(h, k, calls, m + 1, instance);
    BindingStays(Run(h, k, calls[..m + 1]).worlds[instance], Run(h, k, calls).worlds[instance], actor);
  }

  /**
   Admission over a whole run: once a user and an actor bound to it are registered in an instance, a call that
   injects the actor is accepted exactly as long as no request to erase the user has been accepted since.
   */
  lemma RegisteredActorIsAdmittedIff(h: Hash, k: Kernel, calls: seq<Call>, m: nat, user: EntityId, b: nat,
                                     actor: EntityId, call: Call)
    requires Started(k) && StayApart(h, Origins(Run(h, k, calls).wal)) && m < |calls| && b < |calls|
    requires RegistersUser(h, k, calls, m, user) && RegistersActor(h, k, calls, b, actor, user)
    requires calls[b].instance == calls[m].instance == call.instance && call.actor == Some(actor)
    ensures Dispatch(h, Run(h, k, calls), call).1
         == if ErasedSince(h, k, calls, m, call.instance, user) then Err(GateErasurePending(user, call.at)) else Ok(())
  {
    StatusTellsErasure(h, k, calls, m, user);
    ActorStaysBound(h, k, calls, b, actor, user);
    GateOnBoundActor(h, Run(h, k, calls).worlds[call.instance], call, user);
  }
}
