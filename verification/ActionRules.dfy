/**
 When the production actions of user.rs, actor.rs, space.rs and activity.rs are accepted, with which
 error they are rejected otherwise, and what exactly a commit of an accepted one makes of the ledger.
 */
module ActionRules {
  import opened Bytes
  import opened Types
  import opened EntityIds
  import opened ContextSpec

  // ------------------------------------------------------------------ conditions

  function TwoTo(k: nat): (p: nat)
    ensures p > 0
  {
    if k == 0 then 1 else 2 * TwoTo(k - 1)
  }

  ghost predicate IsTwoTo(n: nat) {
    exists k: nat :: n == TwoTo(k)
  }

  lemma LargerOnesAreEven(k: nat)
    ensures k == 0 || TwoTo(k) % 2 == 0
  {}

  /** `is_power_of_two`. */
  lemma {:induction false} PowerOfTwoIff(n: nat)
    ensures IsPowerOfTwo(n) <==> IsTwoTo(n)
  {
    if n == 1 {
      assert n == TwoTo(0);
    } else if n > 1 && n % 2 == 0 {
      PowerOfTwoIff(n / 2);
      if IsTwoTo(n / 2) {
        var k: nat :| n / 2 == TwoTo(k);
        assert n == TwoTo(k + 1);
      }
      if IsTwoTo(n) {
        var k: nat :| n == TwoTo(k);
        assert n / 2 == TwoTo(k - 1);
      }
    } else {
      forall k: nat
        ensures n != TwoTo(k)
      {
        LargerOnesAreEven(k);
      }
    }
  }

  /** The key-derivation minimums: 19 MiB and two passes, or a power of two from 2^15 on and blocks of 8. */
  ghost predicate Strong(c: Component)
    requires c.AuthCredential?
  {
    match c.kdf
    case Argon2id => c.mCost >= 19 * 1024 && c.tCost >= 2 && c.pCost >= 1
    case Scrypt => c.mCost >= TwoTo(15) && IsTwoTo(c.mCost) && c.tCost >= 8 && c.pCost >= 1
  }

  lemma StrongIsChecked(c: Component)
    requires c.AuthCredential?
    ensures KdfParamsAreStrong(c) <==> Strong(c)
  {
    PowerOfTwoIff(c.mCost);
    assert TwoTo(5) == 32 && TwoTo(10) == 32 * TwoTo(5) && TwoTo(15) == 32 * TwoTo(10);
  }

  /** The id the next spawn under a type code gets, if the sequence goes on and a retry hashes to other than zero. */
  function IdFor(ctx: Context, code: u32): Option<EntityId> {
    if ctx.idSeq < U32_MAX then Derive(ctx.hash, Coordinates(ctx.instance, code, ctx.tick, ctx.idSeq)) else None
  }

  /** An actor was injected, and it is bound to no user or to an active one. */
  predicate MayAct(ctx: Context) {
    && ctx.actingActor.Some?
    && match Staged(ctx, ctx.actingActor.value, USER_BINDING)
       case None => true
       case Some(Encoded(UserBinding(user))) =>
         Staged(ctx, user, USER_GDPR_STATE) == Some(Encoded(UserGdprState(Active)))
       case Some(_) => false
  }

  /** The depth stored for a space in the view. */
  function DepthOf(ctx: Context, space: EntityId): Option<nat> {
    match Lookup(ViewOf(ctx), space, PARENT_CHAIN_DEPTH)
    case Some(Encoded(ParentChainDepth(depth))) => Some(depth)
    case _ => None
  }

  /** The depth below a parent: the root is at 0, and a parent must be in the view, above the limit. */
  function DepthBelow(ctx: Context, parent: Option<EntityId>): Option<nat> {
    if parent == None then Some(0)
    else
      var above := DepthOf(ctx, parent.value);
      if above.Some? && above.value < 64 then Some(above.value + 1) else None
  }

  predicate KeyIsFree(ctx: Context, key: Option<seq<byte>>) {
    key.Some? ==> key.value !in ctx.usedKeys
  }

  ghost predicate Acceptable(ctx: Context, a: Action)
    requires a.WellTyped()
  {
    match a
    case RegisterUser(version, profile, credential) =>
      && version == 1 && profile.schemaVersion == 1 && credential.schemaVersion == 1
      && Strong(credential) && IdFor(ctx, USER_PROFILE).Some?
    case GdprEraseUser(version, _) => version == 1
    case RegisterActor(version, profile, _) =>
      && version == 1 && profile.schemaVersion == 1
      && (profile.shell, profile.handle) !in ctx.usedHandles && IdFor(ctx, ACTOR_PROFILE).Some?
    case CreateSpace(version, draftVersion, parent, _) =>
      && version == 1 && draftVersion == 1
      && MayAct(ctx) && DepthBelow(ctx, parent).Some? && IdFor(ctx, SPACE_CONFIG).Some?
    case SubmitActivity(version, draftVersion, target, _, key) =>
      && version == 1 && draftVersion == 1
      && MayAct(ctx) && KeyIsFree(ctx, key)
      && IdFor(ctx, ACTIVITY_RECORD).Some? && target != ActivityTarget(IdFor(ctx, ACTIVITY_RECORD).value)
    case RetractActivity(version) => version == 1
  }

  // ------------------------------------------------------------------ what the checks let through

  lemma SpawnedId(ctx: Context, code: u32)
    ensures Spawned(ctx, code) == if IdFor(ctx, code).Some? then Ok(IdFor(ctx, code).value) else Err(IdExhaustion)
  {}

  lemma ActorMayAct(ctx: Context)
    ensures ActingActor(ctx).Ok? <==> MayAct(ctx)
    ensures ActingActor(ctx).Ok? ==> ActingActor(ctx) == Ok(ctx.actingActor.value)
    ensures ctx.actingActor == None ==> ActingActor(ctx) == Err(AuthorizationFailed)
    ensures ctx.actingActor.Some? && !MayAct(ctx) ==>
              ActingActor(ctx) == Err(EnsureActorEligible(ctx, ctx.actingActor.value, ctx.tick).error)
  {
    if ctx.actingActor.Some? {
      EligibilityIsExact(ctx, ctx.actingActor.value, ctx.tick);
    }
  }

  lemma DepthIsChecked(ctx: Context, parent: Option<EntityId>)
    ensures ChildDepth(ctx, parent).Ok? <==> DepthBelow(ctx, parent).Some?
    ensures ChildDepth(ctx, parent).Ok? ==> ChildDepth(ctx, parent).value as nat == DepthBelow(ctx, parent).value
    ensures parent.Some? && Lookup(ViewOf(ctx), parent.value, PARENT_CHAIN_DEPTH) == None ==>
              ChildDepth(ctx, parent) == Err(InvalidInput("parent space not found"))
    ensures parent.Some? && DepthOf(ctx, parent.value).Some? && DepthOf(ctx, parent.value).value >= MAX_SPACE_DEPTH ==>
              ChildDepth(ctx, parent) == Err(InvalidInput("space depth exceeded"))
  {
    if parent.Some? {
      var stored := Lookup(ViewOf(ctx), parent.value, PARENT_CHAIN_DEPTH);
      if stored.Some? && stored.value.Encoded? {
        CodesTellKinds(stored.value.component);
      }
    }
  }

  lemma SpaceChecksPass(ctx: Context, version: nat, draftVersion: nat, parent: Option<EntityId>)
    ensures var checked := SpaceChecks(ctx, version, draftVersion, parent);
            && (checked.Ok? <==> version == 1 && draftVersion == 1 && MayAct(ctx) && DepthBelow(ctx, parent).Some?)
            && (checked.Ok? ==> checked.value.0 == ctx.actingActor.value
                                && checked.value.1 as nat == DepthBelow(ctx, parent).value)
  {
    ActorMayAct(ctx);
    DepthIsChecked(ctx, parent);
  }

  lemma ActivityChecksPass(ctx: Context, version: nat, draftVersion: nat, target: Target, key: Option<seq<byte>>)
    requires IdFor(ctx, ACTIVITY_RECORD).Some?
    ensures var checked := ActivityChecks(ctx, version, draftVersion, target, key);
            && (checked.Ok? <==> && version == 1 && draftVersion == 1 && MayAct(ctx)
                                 && KeyIsFree(ctx, key)
                                 && target != ActivityTarget(IdFor(ctx, ACTIVITY_RECORD).value))
            && (checked.Ok? ==> checked.value == ctx.actingActor.value)
  {
    ActorMayAct(ctx);
  }

  lemma RegisterUserAccepted(ctx: Context, a: Action)
    requires a.WellTyped() && a.RegisterUser?
    ensures Compute(ctx, a).Ok? <==> Acceptable(ctx, a)
  {
    StrongIsChecked(a.credential);
    SpawnedId(ctx, USER_PROFILE);
  }

  lemma RegisterActorAccepted(ctx: Context, a: Action)
    requires a.WellTyped() && a.RegisterActor?
    ensures Compute(ctx, a).Ok? <==> Acceptable(ctx, a)
  {
    SpawnedId(ctx, ACTOR_PROFILE);
  }

  lemma CreateSpaceAccepted(ctx: Context, a: Action)
    requires a.WellTyped() && a.CreateSpace?
    ensures Compute(ctx, a).Ok? <==> Acceptable(ctx, a)
  {
    SpaceChecksPass(ctx, a.schemaVersion, a.draftVersion, a.parent);
    SpawnedId(ctx, SPACE_CONFIG);
  }

  lemma SubmitActivityAccepted(ctx: Context, a: Action)
    requires a.WellTyped() && a.SubmitActivity?
    ensures Compute(ctx, a).Ok? <==> Acceptable(ctx, a)
  {
    SpawnedId(ctx, ACTIVITY_RECORD);
    if IdFor(ctx, ACTIVITY_RECORD).Some? {
      ActivityChecksPass(ctx, a.schemaVersion, a.draftVersion, a.target, a.key);
    }
  }

  /** A compute succeeds exactly on an acceptable action. */
  lemma ComputeAcceptsIff(ctx: Context, a: Action)
    requires a.WellTyped()
    ensures Compute(ctx, a).Ok? <==> Acceptable(ctx, a)
  {
    match a
    case RegisterUser(_, _, _) => RegisterUserAccepted(ctx, a);
    case GdprEraseUser(_, _) =>
    case RegisterActor(_, _, _) => RegisterActorAccepted(ctx, a);
    case CreateSpace(_, _, _, _) => CreateSpaceAccepted(ctx, a);
    case SubmitActivity(_, _, _, _, _) => SubmitActivityAccepted(ctx, a);
    case RetractActivity(_) =>
  }

  // ------------------------------------------------------------------ what a commit makes of the ledger

  lemma LedgerGains(view: View, after: View, id: EntityId, entry: map<u32, Stored>)
    requires Grows(view, after, Some(id), None) && id !in view
    requires forall code: u32 :: Lookup(after, id, code) == if code in entry then Some(entry[code]) else None
    ensures after == view[id := entry]
  {
    forall code: u32
      ensures code in after[id] <==> code in entry
      ensures code in entry ==> after[id][code] == entry[code]
    {
      assert Lookup(after, id, code) == if code in entry then Some(entry[code]) else None;
    }
    assert after[id] == entry;
  }

  ghost predicate Fills(ctx: Context, a: Action, entry: map<u32, Stored>) {
    forall code: u32 :: Storing(NewComponent(ctx, a, code)) == if code in entry then Some(entry[code]) else None
  }

  lemma EntryCommits(ctx: Context, a: Action, view: View, id: EntityId, entry: map<u32, Stored>)
    requires a.WellTyped() && Compute(ctx, a).Ok? && SpawnCode(a).Some? && Erases(a) == None
    requires IdFor(ctx, SpawnCode(a).value) == Some(id) && id !in view && Fills(ctx, a, entry)
    ensures ApplyOps(view, Compute(ctx, a).value) == view[id := entry]
  {
    var after := ApplyOps(view, Compute(ctx, a).value);
    var added := CommitGrows(ctx, a, view);
    forall code: u32
      ensures Lookup(after, id, code) == if code in entry then Some(entry[code]) else None
    {
      SpawnFillsIn(ctx, a, view, code);
    }
    LedgerGains(view, after, id, entry);
  }

  function UserEntry(a: Action): map<u32, Stored>
    requires a.RegisterUser?
  {
    map[USER_PROFILE := Encoded(a.profile), AUTH_CREDENTIAL := Encoded(a.credential),
        USER_GDPR_STATE := Encoded(UserGdprState(Active))]
  }

  function ActorEntry(a: Action): map<u32, Stored>
    requires a.RegisterActor?
  {
    map[ACTOR_PROFILE := Encoded(a.actorProfile), USER_BINDING := Encoded(UserBinding(a.boundUser))]
  }

  function ActivityEntry(a: Action, actor: EntityId): map<u32, Stored>
    requires a.SubmitActivity?
  {
    map[ACTIVITY_RECORD := Encoded(ActivityRecord(1, actor, a.target, a.rest))]
  }

  function SpaceEntry(a: Action, creator: EntityId, depth: byte): map<u32, Stored>
    requires a.CreateSpace?
  {
    map[SPACE_CONFIG := Encoded(SpaceConfig(1, creator, a.parent, a.rest)),
        PARENT_CHAIN_DEPTH := Encoded(ParentChainDepth(depth))]
  }

  lemma UserFills(ctx: Context, a: Action)
    requires a.RegisterUser?
    ensures Fills(ctx, a, UserEntry(a))
  {}

  /** A registered user holds its profile, its credential and an active status. */
  lemma UserCommits(ctx: Context, a: Action, view: View, id: EntityId)
    requires a.WellTyped() && a.RegisterUser? && Compute(ctx, a).Ok? && IdFor(ctx, USER_PROFILE) == Some(id)
    requires id !in view
    ensures ApplyOps(view, Compute(ctx, a).value)
         == view[id := map[USER_PROFILE := Encoded(a.profile), AUTH_CREDENTIAL := Encoded(a.credential),
                           USER_GDPR_STATE := Encoded(UserGdprState(Active))]]
  {
    UserFills(ctx, a);
    EntryCommits(ctx, a, view, id, UserEntry(a));
  }

  /** A registered actor holds its profile and its binding. */
  lemma ActorCommits(ctx: Context, a: Action, view: View, id: EntityId)
    requires a.WellTyped() && a.RegisterActor? && Compute(ctx, a).Ok? && IdFor(ctx, ACTOR_PROFILE) == Some(id)
    requires id !in view
    ensures ApplyOps(view, Compute(ctx, a).value)
         == view[id := map[ACTOR_PROFILE := Encoded(a.actorProfile), USER_BINDING := Encoded(UserBinding(a.boundUser))]]
  {
    EntryCommits(ctx, a, view, id, ActorEntry(a));
  }

  lemma SpaceFills(ctx: Context, a: Action, creator: EntityId, depth: byte)
    requires a.CreateSpace? && a.draftVersion == 1
    requires SpaceChecks(ctx, a.schemaVersion, a.draftVersion, a.parent) == Ok((creator, depth))
    ensures Fills(ctx, a, SpaceEntry(a, creator, depth))
  {}

  /** A space names the acting actor as its creator, and is one deeper than its parent. */
  lemma SpaceCommits(ctx: Context, a: Action, view: View, id: EntityId)
    requires a.WellTyped() && a.CreateSpace? && Compute(ctx, a).Ok? && IdFor(ctx, SPACE_CONFIG) == Some(id)
    requires id !in view
    ensures ctx.actingActor.Some? && DepthBelow(ctx, a.parent).Some?
    ensures ApplyOps(view, Compute(ctx, a).value)
         == view[id := map[SPACE_CONFIG := Encoded(SpaceConfig(1, ctx.actingActor.value, a.parent, a.rest)),
                           PARENT_CHAIN_DEPTH := Encoded(ParentChainDepth(DepthBelow(ctx, a.parent).value))]]
  {
    SpaceChecksPass(ctx, a.schemaVersion, a.draftVersion, a.parent);
    var (creator, depth) := SpaceChecks(ctx, a.schemaVersion, a.draftVersion, a.parent).value;
    SpaceFills(ctx, a, creator, depth);
    EntryCommits(ctx, a, view, id, SpaceEntry(a, creator, depth));
  }

  /** An activity names the acting actor and its target. */
  lemma ActivityCommits(ctx: Context, a: Action, view: View, id: EntityId)
    requires a.WellTyped() && a.SubmitActivity? && Compute(ctx, a).Ok? && IdFor(ctx, ACTIVITY_RECORD) == Some(id)
    requires id !in view
    ensures ctx.actingActor.Some?
    ensures ApplyOps(view, Compute(ctx, a).value)
         == view[id := map[ACTIVITY_RECORD := Encoded(ActivityRecord(1, ctx.actingActor.value, a.target, a.rest))]]
  {
    ActivityChecksPass(ctx, a.schemaVersion, a.draftVersion, a.target, a.key);
    EntryCommits(ctx, a, view, id, ActivityEntry(a, ctx.actingActor.value));
  }

  /** An erase request sets the status of a spawned user to pending, touches nothing else, and schedules the event. */
  lemma EraseIsExact(ctx: Context, a: Action, view: View)
    requires a.WellTyped() && a.GdprEraseUser? && Compute(ctx, a).Ok?
    ensures ApplyOps(view, Compute(ctx, a).value)
         == if a.user in view
            then view[a.user := With<u32, Stored>(view[a.user], USER_GDPR_STATE,
                                                  Encoded(UserGdprState(ErasurePending)))]
            else view
    ensures EmitEvent(USER_ERASURE_SCHEDULED, a.user, ctx.tick) in Compute(ctx, a).value
    ensures RecordedBy(ctx, a) == [EventRecord(USER_ERASURE_SCHEDULED, ctx.eventSeq, ctx.tick, a.user)]
  {
    EraseCommits(view, a.user, ctx.tick);
    assert Compute(ctx, a).value[1] == EmitEvent(USER_ERASURE_SCHEDULED, a.user, ctx.tick);
  }

  // ------------------------------------------------------------------ why an action is rejected

  /** The first version field that is not 1 is reported, before anything else is looked at. */
  lemma VersionsComeFirst(ctx: Context, a: Action)
    requires a.WellTyped()
    ensures a.schemaVersion != 1 ==> Compute(ctx, a) == Err(SchemaMismatch(1, a.schemaVersion))
    ensures a.schemaVersion == 1 && (a.CreateSpace? || a.SubmitActivity?) && a.draftVersion != 1 ==>
              Compute(ctx, a) == Err(SchemaMismatch(1, a.draftVersion))
    ensures a.schemaVersion == 1 && a.RegisterUser? && a.profile.schemaVersion != 1 ==>
              Compute(ctx, a) == Err(SchemaMismatch(1, a.profile.schemaVersion))
    ensures a.RegisterUser? && a.schemaVersion == a.profile.schemaVersion == 1 && a.credential.schemaVersion != 1 ==>
              Compute(ctx, a) == Err(SchemaMismatch(1, a.credential.schemaVersion))
    ensures a.schemaVersion == 1 && a.RegisterActor? && a.actorProfile.schemaVersion != 1 ==>
              Compute(ctx, a) == Err(SchemaMismatch(1, a.actorProfile.schemaVersion))
  {}

  /** With current versions a user is refused for weak parameters, then for want of an id. */
  lemma UserRejections(ctx: Context, a: Action)
    requires a.WellTyped() && a.RegisterUser?
    requires a.schemaVersion == a.profile.schemaVersion == a.credential.schemaVersion == 1 && !Acceptable(ctx, a)
    ensures Compute(ctx, a)
         == Err(if Strong(a.credential) then IdExhaustion else InvalidInput("KDF params below minimum"))
  {
    StrongIsChecked(a.credential);
    SpawnedId(ctx, USER_PROFILE);
  }

  /** An actor for a handle in use, then for want of an id. */
  lemma ActorRejections(ctx: Context, a: Action)
    requires a.WellTyped() && a.RegisterActor?
    requires a.schemaVersion == a.actorProfile.schemaVersion == 1 && !Acceptable(ctx, a)
    ensures var shell, handle := a.actorProfile.shell, a.actorProfile.handle;
            Compute(ctx, a)
            == Err(if (shell, handle) in ctx.usedHandles then ActorHandleCollision(shell, handle) else IdExhaustion)
  {
    SpawnedId(ctx, ACTOR_PROFILE);
  }

  /** Why the acting identity is refused: none was injected, or it is not eligible. */
  function Unauthorized(ctx: Context): ActionError
    requires !MayAct(ctx)
  {
    if ctx.actingActor == None then AuthorizationFailed
    else match Staged(ctx, ctx.actingActor.value, USER_BINDING)
      case Some(Encoded(UserBinding(user))) => VerdictOn(ctx, user, ctx.tick).error
      case _ => ReadFailure(ctx, ctx.actingActor.value, USER_BINDING)
  }

  lemma IdentityIsRefused(ctx: Context)
    requires !MayAct(ctx)
    ensures ActingActor(ctx) == Err(Unauthorized(ctx))
  {
    ActorMayAct(ctx);
    if ctx.actingActor.Some? {
      EligibilityIsExact(ctx, ctx.actingActor.value, ctx.tick);
    }
  }

  predicate TooDeep(ctx: Context, parent: Option<EntityId>) {
    parent.Some? && DepthOf(ctx, parent.value).Some? && DepthOf(ctx, parent.value).value >= 64
  }

  /** A space for its creator, then for its parent or depth, then for want of an id. */
  lemma SpaceRejections(ctx: Context, a: Action)
    requires a.WellTyped() && a.CreateSpace? && a.schemaVersion == a.draftVersion == 1 && !Acceptable(ctx, a)
    ensures !MayAct(ctx) ==> Compute(ctx, a) == Err(Unauthorized(ctx))
    ensures MayAct(ctx) && a.parent.Some? && Lookup(ViewOf(ctx), a.parent.value, PARENT_CHAIN_DEPTH) == None ==>
              Compute(ctx, a) == Err(InvalidInput("parent space not found"))
    ensures MayAct(ctx) && TooDeep(ctx, a.parent) ==> Compute(ctx, a) == Err(InvalidInput("space depth exceeded"))
    ensures MayAct(ctx) && DepthBelow(ctx, a.parent).Some? ==> Compute(ctx, a) == Err(IdExhaustion)
  {
    ActorMayAct(ctx);
    DepthIsChecked(ctx, a.parent);
    SpawnedId(ctx, SPACE_CONFIG);
    if !MayAct(ctx) {
      IdentityIsRefused(ctx);
    }
  }

  /** An activity for its actor, then for a key in use, then for want of an id, then for targeting itself. */
  lemma ActivityRejections(ctx: Context, a: Action)
    requires a.WellTyped() && a.SubmitActivity? && a.schemaVersion == a.draftVersion == 1 && !Acceptable(ctx, a)
    ensures !MayAct(ctx) ==> Compute(ctx, a) == Err(Unauthorized(ctx))
    ensures MayAct(ctx) && a.key.Some? && a.key.value in ctx.usedKeys ==>
              Compute(ctx, a) == Err(IdempotencyConflict(a.key.value))
    ensures MayAct(ctx) && KeyIsFree(ctx, a.key) && IdFor(ctx, ACTIVITY_RECORD).Some? ==>
              Compute(ctx, a) == Err(InvalidInput("activity self-loop"))
    ensures MayAct(ctx) && KeyIsFree(ctx, a.key) && ctx.idSeq < U32_MAX && IdFor(ctx, ACTIVITY_RECORD) == None ==>
              Compute(ctx, a) == Err(IdExhaustion)
  {
    ActorMayAct(ctx);
    SpawnedId(ctx, ACTIVITY_RECORD);
    if !MayAct(ctx) {
      IdentityIsRefused(ctx);
    }
  }
}
