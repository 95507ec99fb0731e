/**
 The compute context of arkhe-forge-core/src/context.rs and the production actions on values:
 reads through staged operations, what each action asks the kernel to do, and what the kernel's
 component ledger makes of it.
 */
module ContextSpec {
  import opened Bytes
  import opened Types
  import opened EntityIds

  // ------------------------------------------------------------------ components

  const USER_PROFILE: u32 := 0x0003_0001
  const AUTH_CREDENTIAL: u32 := 0x0003_0002
  const USER_GDPR_STATE: u32 := 0x0003_0003
  const ACTOR_PROFILE: u32 := 0x0003_0101
  const USER_BINDING: u32 := 0x0003_0102
  const SPACE_CONFIG: u32 := 0x0003_0201
  const PARENT_CHAIN_DEPTH: u32 := 0x0003_0202
  const ACTIVITY_RECORD: u32 := 0x0003_0401
  const USER_ERASURE_SCHEDULED: u32 := 0x0003_0F02

  const SCHEMA_VERSION: nat := 1
  const MAX_SPACE_DEPTH: nat := 64
  const U32_MAX: nat := 0xFFFF_FFFF

  datatype GdprStatus = Active | ErasurePending | Erased

  datatype Kdf = Argon2id | Scrypt

  datatype Target = ActivityTarget(id: EntityId) | OtherTarget(key: seq<byte>)

  /** Stored components; fields no check or rule looks at are kept as one opaque `rest`. */
  datatype Component =
    | UserProfile(schemaVersion: nat, rest: seq<byte>)
    | AuthCredential(schemaVersion: nat, kdf: Kdf, mCost: u32, tCost: u32, pCost: u32, rest: seq<byte>)
    | UserGdprState(status: GdprStatus)
    | ActorProfile(schemaVersion: nat, shell: seq<byte>, handle: seq<byte>, rest: seq<byte>)
    | UserBinding(user: EntityId)
    | SpaceConfig(schemaVersion: nat, creator: EntityId, parent: Option<EntityId>, rest: seq<byte>)
    | ParentChainDepth(depth: byte)
    | ActivityRecord(schemaVersion: nat, actor: EntityId, target: Target, rest: seq<byte>)
  {
    function Code(): u32 {
      match this
      case UserProfile(_, _) => USER_PROFILE
      case AuthCredential(_, _, _, _, _, _) => AUTH_CREDENTIAL
      case UserGdprState(_) => USER_GDPR_STATE
      case ActorProfile(_, _, _, _) => ACTOR_PROFILE
      case UserBinding(_) => USER_BINDING
      case SpaceConfig(_, _, _, _) => SPACE_CONFIG
      case ParentChainDepth(_) => PARENT_CHAIN_DEPTH
      case ActivityRecord(_, _, _, _) => ACTIVITY_RECORD
    }
  }

  /** Component bytes: the encoding of a component, or bytes nothing decodes. */
  datatype Stored = Encoded(component: Component) | Garbage

  /** The kernel's ledger: the components of every spawned entity. */
  type View = map<EntityId, map<u32, Stored>>

  function Lookup(view: View, entity: EntityId, code: u32): Option<Stored> {
    if entity in view && code in view[entity] then Some(view[entity][code]) else None
  }

  // ------------------------------------------------------------------ operations

  datatype Op =
    | SpawnEntity(id: EntityId)
    | SetComponent(entity: EntityId, code: u32, bytes: Stored)
    | RemoveComponent(entity: EntityId, code: u32)
    | EmitEvent(eventCode: u32, user: EntityId, tick: u64)

  function With<K, V>(m: map<K, V>, k: K, v: V): map<K, V> {
    m[k := v]
  }

  function Without<K, V>(m: map<K, V>, k: K): map<K, V> {
    m - {k}
  }

  /** One operation on the ledger; setting a component of an entity never spawned does nothing. */
  function ApplyOp(view: View, op: Op): View {
    match op
    case SpawnEntity(id) => if id in view then view else view[id := map[]]
    case SetComponent(entity, code, bytes) =>
      if entity in view then view[entity := With<u32, Stored>(view[entity], code, bytes)] else view
    case RemoveComponent(entity, code) =>
      if entity in view then view[entity := Without<u32, Stored>(view[entity], code)] else view
    case EmitEvent(_, _, _) => view
  }

  function ApplyOps(view: View, ops: seq<Op>): View {
    if ops == [] then view else ApplyOp(ApplyOps(view, ops[..|ops| - 1]), ops[|ops| - 1])
  }

  // ------------------------------------------------------------------ reading

  datatype ActionError =
    | SchemaMismatch(expected: nat, got: nat)
    | InvalidInput(what: string)
    | IdExhaustion
    | AuthorizationFailed
    | IdempotencyConflict(key: seq<byte>)
    | ActorHandleCollision(shell: seq<byte>, handle: seq<byte>)
    | UserErasurePending(user: EntityId, scheduledTick: u64)
    | UserLifecycleUnresolved(user: EntityId)

  type ReadResult = Result<Option<Component>, ActionError>

  function Decode(raw: Option<Stored>, code: u32, failure: string): (r: ReadResult)
    ensures r.Ok? && r.value.Some? ==> r.value.value.Code() == code
  {
    match raw
    case None => Ok(None)
    case Some(Encoded(c)) => if c.Code() == code then Ok(Some(c)) else Err(InvalidInput(failure))
    case Some(Garbage) => Err(InvalidInput(failure))
  }

  datatype EventRecord = EventRecord(code: u32, sequence: u64, tick: u64, user: EntityId)

  /** The context of one compute. The idempotency and handle indices are empty when none is bound. */
  datatype Context = Context(
    hash: Hash,
    instance: u64,
    tick: u64,
    actingActor: Option<EntityId>,
    view: Option<View>,
    usedKeys: set<seq<byte>>,
    usedHandles: set<(seq<byte>, seq<byte>)>,
    idSeq: u32,
    eventSeq: u64,
    events: seq<EventRecord>,
    ops: seq<Op>)

  function ViewOf(ctx: Context): View {
    if ctx.view.Some? then ctx.view.value else map[]
  }

  /** `read`: the bound view only. */
  function Read(ctx: Context, entity: EntityId, code: u32): ReadResult {
    Decode(Lookup(ViewOf(ctx), entity, code), code, "component decode failed")
  }

  /** The reverse scan: the bytes the last matching operation leaves, or those of the view. */
  function StagedBytes(view: View, ops: seq<Op>, entity: EntityId, code: u32): Option<Stored> {
    if ops == [] then Lookup(view, entity, code) else
      var n := |ops| - 1;
      match ops[n]
      case SetComponent(e, c, bytes) =>
        if e == entity && c == code then Some(bytes) else StagedBytes(view, ops[..n], entity, code)
      case RemoveComponent(e, c) =>
        if e == entity && c == code then None else StagedBytes(view, ops[..n], entity, code)
      case SpawnEntity(_) => StagedBytes(view, ops[..n], entity, code)
      case EmitEvent(_, _, _) => StagedBytes(view, ops[..n], entity, code)
  }

  /** The operation sets or removes the component. */
  predicate Touches(op: Op, entity: EntityId, code: u32) {
    (op.SetComponent? || op.RemoveComponent?) && op.entity == entity && op.code == code
  }

  /** `staged_read`: the error names where the undecodable bytes came from. */
  function StagedRead(ctx: Context, entity: EntityId, code: u32): ReadResult {
    if exists k :: 0 <= k < |ctx.ops| && Touches(ctx.ops[k], entity, code)
    then Decode(StagedBytes(ViewOf(ctx), ctx.ops, entity, code), code, "staged component decode failed")
    else Decode(StagedBytes(ViewOf(ctx), ctx.ops, entity, code), code, "component decode failed")
  }

  // ------------------------------------------------------------------ staged reads are replays

  type Ledger = map<(EntityId, u32), Stored>

  /** The view as one flat map. */
  function Flatten(view: View): Ledger {
    map e, c | e in view && c in view[e] :: (e, c) := view[e][c]
  }

  function ReplayOp(m: Ledger, op: Op): Ledger {
    match op
    case SetComponent(e, c, bytes) => m[(e, c) := bytes]
    case RemoveComponent(e, c) => Without<(EntityId, u32), Stored>(m, (e, c))
    case SpawnEntity(_) => m
    case EmitEvent(_, _, _) => m
  }

  /** Replays the operations forward, first one first. */
  function Replay(m: Ledger, ops: seq<Op>): Ledger
    decreases ops
  {
    if ops == [] then m else Replay(ReplayOp(m, ops[0]), ops[1..])
  }

  lemma {:induction false} ReplayAppend(m: Ledger, ops: seq<Op>, op: Op)
    ensures Replay(m, ops + [op]) == ReplayOp(Replay(m, ops), op)
    decreases ops
  {
    if ops == [] {
      assert ([] + [op])[1..] == [];
    } else {
      assert (ops + [op])[1..] == ops[1..] + [op];
      ReplayAppend(ReplayOp(m, ops[0]), ops[1..], op);
    }
  }

  function At(m: Ledger, entity: EntityId, code: u32): Option<Stored> {
    if (entity, code) in m then Some(m[(entity, code)]) else None
  }

  lemma FlattenAt(view: View, entity: EntityId, code: u32)
    ensures At(Flatten(view), entity, code) == Lookup(view, entity, code)
  {}

  lemma ReplayOpAt(m: Ledger, op: Op, entity: EntityId, code: u32)
    ensures At(ReplayOp(m, op), entity, code)
         == if !Touches(op, entity, code) then At(m, entity, code)
            else if op.SetComponent? then Some(op.bytes) else None
  {}

  /** The reverse scan reads what a forward replay onto the view would hold, for every op log. */
  lemma {:induction false} StagedReadIsReplay(view: View, ops: seq<Op>, entity: EntityId, code: u32)
    ensures StagedBytes(view, ops, entity, code) == At(Replay(Flatten(view), ops), entity, code)
    decreases ops
  {
    if ops == [] {
      FlattenAt(view, entity, code);
    } else {
      var n := |ops| - 1;
      var m := Replay(Flatten(view), ops[..n]);
      assert Replay(Flatten(view), ops) == ReplayOp(m, ops[n]) by {
        assert ops == ops[..n] + [ops[n]];
        ReplayAppend(Flatten(view), ops[..n], ops[n]);
      }
      ReplayOpAt(m, ops[n], entity, code);
      StagedReadIsReplay(view, ops[..n], entity, code);
    }
  }

  /** What the sets and removes pushed so far, replayed onto the bound view, leave of a component. */
  function Staged(ctx: Context, entity: EntityId, code: u32): Option<Stored> {
    At(Replay(Flatten(ViewOf(ctx)), ctx.ops), entity, code)
  }

  /**
   A staged read answers from the replayed state: nothing there, the component there, or, where the bytes do not
   decode under the code asked for, an error that tells staged bytes from bytes of the view.
   */
  lemma StagedReadAnswers(ctx: Context, entity: EntityId, code: u32)
    ensures StagedRead(ctx, entity, code)
         == match Staged(ctx, entity, code)
            case None => Ok(None)
            case Some(Encoded(c)) => if c.Code() == code then Ok(Some(c)) else Err(ReadFailure(ctx, entity, code))
            case Some(Garbage) => Err(ReadFailure(ctx, entity, code))
    ensures ReadFailure(ctx, entity, code)
         == if exists k :: 0 <= k < |ctx.ops| && (ctx.ops[k].SetComponent? || ctx.ops[k].RemoveComponent?)
                           && ctx.ops[k].entity == entity && ctx.ops[k].code == code
            then InvalidInput("staged component decode failed") else InvalidInput("component decode failed")
  {
    StagedReadIsReplay(ViewOf(ctx), ctx.ops, entity, code);
    if k :| 0 <= k < |ctx.ops| && Touches(ctx.ops[k], entity, code) {
      assert ctx.ops[k].entity == entity && ctx.ops[k].code == code;
    }
  }

  function ReadFailure(ctx: Context, entity: EntityId, code: u32): ActionError {
    if exists k :: 0 <= k < |ctx.ops| && Touches(ctx.ops[k], entity, code)
    then InvalidInput("staged component decode failed") else InvalidInput("component decode failed")
  }

  /** Every set or remove on the entity finds it spawned. */
  ghost predicate SpawnedFirst(view: View, ops: seq<Op>, entity: EntityId) {
    ops == [] ||
      var n := |ops| - 1;
      && SpawnedFirst(view, ops[..n], entity)
      && (ops[n].SetComponent? && ops[n].entity == entity ==> entity in ApplyOps(view, ops[..n]))
  }

  /** Then a staged read also tells what the kernel will hold after committing the operations. */
  lemma {:induction false} StagedReadForetellsCommit(view: View, ops: seq<Op>, entity: EntityId, code: u32)
    requires SpawnedFirst(view, ops, entity)
    ensures StagedBytes(view, ops, entity, code) == Lookup(ApplyOps(view, ops), entity, code)
    decreases ops
  {
    if ops != [] {
      StagedReadForetellsCommit(view, ops[..|ops| - 1], entity, code);
    }
  }

  /** Without that the two differ: a component staged on an entity never spawned is not committed. */
  lemma StagedButNeverCommitted(entity: EntityId, bytes: Stored)
    ensures var ops := [SetComponent(entity, USER_GDPR_STATE, bytes)];
            && StagedBytes(map[], ops, entity, USER_GDPR_STATE) == Some(bytes)
            && Lookup(ApplyOps(map[], ops), entity, USER_GDPR_STATE) == None
  {
    var ops := [SetComponent(entity, USER_GDPR_STATE, bytes)];
    assert ops[..0] == [];
  }

  // ------------------------------------------------------------------ ids

  function CoordinatesOf(ctx: Context, code: u32): Coordinates {
    Coordinates(ctx.instance, code, ctx.tick, ctx.idSeq)
  }

  /** `next_id`: the sequence is advanced, checked, before an id is handed out. */
  function NextId(ctx: Context, code: u32): (Context, Result<EntityId, ActionError>) {
    if ctx.idSeq == U32_MAX then (ctx, Err(IdExhaustion))
    else
      var id := Derive(ctx.hash, CoordinatesOf(ctx, code));
      (ctx.(idSeq := ctx.idSeq + 1), if id.Some? then Ok(id.value) else Err(IdExhaustion))
  }

  /** `preview_next_id_for`. */
  function PreviewNextId(ctx: Context, code: u32): Result<EntityId, ActionError> {
    var id := Derive(ctx.hash, CoordinatesOf(ctx, code));
    if id.Some? then Ok(id.value) else Err(IdExhaustion)
  }

  /** The preview agrees with the next id except at the very end of the sequence. */
  lemma PreviewForetellsNext(ctx: Context, code: u32)
    ensures NextId(ctx, code).1 == PreviewNextId(ctx, code)
       <==> ctx.idSeq < U32_MAX || Derive(ctx.hash, CoordinatesOf(ctx, code)) == None
  {}

  /** One context never hands out the same id twice, unless the messages hashed for the two collide. */
  lemma SuccessiveIdsDiffer(ctx: Context, code: u32, other: u32)
    requires ctx.idSeq + 1 < U32_MAX
    requires NoCollision(ctx.hash, CoordinatesOf(ctx, code), CoordinatesOf(NextId(ctx, code).0, other))
    ensures var (next, id) := NextId(ctx, code);
            && next == ctx.(idSeq := ctx.idSeq + 1)
            && (id.Ok? ==> NextId(next, other).1 != id)
  {
    var c, d := CoordinatesOf(ctx, code), CoordinatesOf(NextId(ctx, code).0, other);
    if Derive(ctx.hash, c).Some? && Derive(ctx.hash, c) == Derive(ctx.hash, d) {
      IdsAreDistinct(ctx.hash, c, d);
    }
  }

  // ------------------------------------------------------------------ eligibility

  /** `ensure_actor_eligible`: no binding passes, a bound user must be active. */
  function EnsureActorEligible(ctx: Context, actor: EntityId, scheduledTick: u64): Result<(), ActionError> {
    match StagedRead(ctx, actor, USER_BINDING)
    case Err(e) => Err(e)
    case Ok(None) => Ok(())
    case Ok(Some(binding)) =>
      match StagedRead(ctx, binding.user, USER_GDPR_STATE)
      case Err(e) => Err(e)
      case Ok(None) => Err(UserLifecycleUnresolved(binding.user))
      case Ok(Some(state)) =>
        if state.status == Active then Ok(()) else Err(UserErasurePending(binding.user, scheduledTick))
  }

  /** The verdict on an actor bound to this user. */
  function VerdictOn(ctx: Context, user: EntityId, scheduledTick: u64): Result<(), ActionError> {
    match Staged(ctx, user, USER_GDPR_STATE)
    case None => Err(UserLifecycleUnresolved(user))
    case Some(Encoded(UserGdprState(status))) =>
      if status == Active then Ok(()) else Err(UserErasurePending(user, scheduledTick))
    case Some(_) => Err(ReadFailure(ctx, user, USER_GDPR_STATE))
  }

  lemma CodesTellKinds(c: Component)
    ensures c.Code() == USER_BINDING <==> c.UserBinding?
    ensures c.Code() == USER_GDPR_STATE <==> c.UserGdprState?
    ensures c.Code() == PARENT_CHAIN_DEPTH <==> c.ParentChainDepth?
  {}

  lemma StagedBinding(ctx: Context, entity: EntityId)
    ensures StagedRead(ctx, entity, USER_BINDING)
         == match Staged(ctx, entity, USER_BINDING)
            case None => Ok(None)
            case Some(Encoded(UserBinding(user))) => Ok(Some(UserBinding(user)))
            case Some(_) => Err(ReadFailure(ctx, entity, USER_BINDING))
  {
    StagedReadAnswers(ctx, entity, USER_BINDING);
    var staged := Staged(ctx, entity, USER_BINDING);
    if staged.Some? && staged.value.Encoded? {
      CodesTellKinds(staged.value.component);
    }
  }

  lemma StagedStatus(ctx: Context, entity: EntityId)
    ensures StagedRead(ctx, entity, USER_GDPR_STATE)
         == match Staged(ctx, entity, USER_GDPR_STATE)
            case None => Ok(None)
            case Some(Encoded(UserGdprState(status))) => Ok(Some(UserGdprState(status)))
            case Some(_) => Err(ReadFailure(ctx, entity, USER_GDPR_STATE))
  {
    StagedReadAnswers(ctx, entity, USER_GDPR_STATE);
    var staged := Staged(ctx, entity, USER_GDPR_STATE);
    if staged.Some? && staged.value.Encoded? {
      CodesTellKinds(staged.value.component);
    }
  }

  /**
   Eligibility by the replayed state: an actor without a binding passes, and one with a binding passes exactly
   when its user's status is active; a missing and any other status each have their own refusal, and bytes
   that do not decode are refused as such.
   */
  lemma EligibilityIsExact(ctx: Context, actor: EntityId, scheduledTick: u64)
    ensures EnsureActorEligible(ctx, actor, scheduledTick)
         == match Staged(ctx, actor, USER_BINDING)
            case None => Ok(())
            case Some(Encoded(UserBinding(user))) => VerdictOn(ctx, user, scheduledTick)
            case Some(_) => Err(ReadFailure(ctx, actor, USER_BINDING))
    ensures forall user :: VerdictOn(ctx, user, scheduledTick) == Ok(())
                      <==> Staged(ctx, user, USER_GDPR_STATE) == Some(Encoded(UserGdprState(Active)))
    ensures forall user :: VerdictOn(ctx, user, scheduledTick) == Err(UserLifecycleUnresolved(user))
                      <==> Staged(ctx, user, USER_GDPR_STATE) == None
    ensures forall user :: VerdictOn(ctx, user, scheduledTick) == Err(UserErasurePending(user, scheduledTick))
                      <==> Staged(ctx, user, USER_GDPR_STATE)
                           in {Some(Encoded(UserGdprState(ErasurePending))), Some(Encoded(UserGdprState(Erased)))}
  {
    StagedBinding(ctx, actor);
    match Staged(ctx, actor, USER_BINDING)
    case Some(Encoded(UserBinding(user))) => StagedStatus(ctx, user);
    case _ =>
  }

  // ------------------------------------------------------------------ the production actions

  datatype Action =
    | RegisterUser(schemaVersion: nat, profile: Component, credential: Component)
    | GdprEraseUser(schemaVersion: nat, user: EntityId)
    | RegisterActor(schemaVersion: nat, actorProfile: Component, boundUser: EntityId)
    | CreateSpace(schemaVersion: nat, draftVersion: nat, parent: Option<EntityId>, rest: seq<byte>)
    | SubmitActivity(schemaVersion: nat, draftVersion: nat, target: Target, rest: seq<byte>, key: Option<seq<byte>>)
    | RetractActivity(schemaVersion: nat)
  {
    /** The payload fields have the component types the source declares. */
    predicate WellTyped() {
      match this
      case RegisterUser(_, profile, credential) => profile.UserProfile? && credential.AuthCredential?
      case RegisterActor(_, profile, _) => profile.ActorProfile?
      case _ => true
    }
  }

  predicate IsPowerOfTwo(n: nat) {
    n == 1 || (n > 0 && n % 2 == 0 && IsPowerOfTwo(n / 2))
  }

  predicate KdfParamsAreStrong(c: Component)
    requires c.AuthCredential?
  {
    match c.kdf
    case Argon2id => c.mCost >= 19_456 && c.tCost >= 2 && c.pCost >= 1
    case Scrypt => c.mCost >= 0x8000 && IsPowerOfTwo(c.mCost) && c.tCost >= 8 && c.pCost >= 1
  }

  function CheckVersion(got: nat): Result<(), ActionError> {
    if got == SCHEMA_VERSION then Ok(()) else Err(SchemaMismatch(SCHEMA_VERSION, got))
  }

  function Set(entity: EntityId, c: Component): Op {
    SetComponent(entity, c.Code(), Encoded(c))
  }

  /** The depth of a new space: one below its parent, whose depth is read from the bound view. */
  function ChildDepth(ctx: Context, parent: Option<EntityId>): Result<byte, ActionError> {
    match parent
    case None => Ok(0)
    case Some(p) =>
      match Read(ctx, p, PARENT_CHAIN_DEPTH)
      case Err(e) => Err(e)
      case Ok(None) => Err(InvalidInput("parent space not found"))
      case Ok(Some(d)) =>
        var next: byte := if d.depth == 255 then 255 else d.depth + 1;
        if next > MAX_SPACE_DEPTH then Err(InvalidInput("space depth exceeded")) else Ok(next)
  }

  function Spawned(ctx: Context, code: u32): Result<EntityId, ActionError> {
    NextId(ctx, code).1
  }

  /** Spawns one entity under the type code and then only attaches components to it. */
  predicate Spawns(ctx: Context, ops: seq<Op>, code: u32) {
    && |ops| >= 1 && ops[0].SpawnEntity?
    && Spawned(ctx, code) == Ok(ops[0].id)
    && forall k :: 1 <= k < |ops| ==> ops[k].SetComponent? && ops[k].entity == ops[0].id
  }

  function RegisterUserOps(ctx: Context, version: nat, profile: Component, credential: Component)
    : (r: Result<seq<Op>, ActionError>)
    requires profile.UserProfile? && credential.AuthCredential?
    ensures r.Ok? ==> Spawns(ctx, r.value, USER_PROFILE)
  {
    if CheckVersion(version).Err? then Err(CheckVersion(version).error)
    else if CheckVersion(profile.schemaVersion).Err? then Err(CheckVersion(profile.schemaVersion).error)
    else if CheckVersion(credential.schemaVersion).Err? then Err(CheckVersion(credential.schemaVersion).error)
    else if !KdfParamsAreStrong(credential) then Err(InvalidInput("KDF params below minimum"))
    else match Spawned(ctx, USER_PROFILE)
      case Err(e) => Err(e)
      case Ok(id) => Ok([SpawnEntity(id), Set(id, profile), Set(id, credential), Set(id, UserGdprState(Active))])
  }

  function GdprEraseUserOps(ctx: Context, version: nat, user: EntityId): Result<seq<Op>, ActionError> {
    if CheckVersion(version).Err? then Err(CheckVersion(version).error)
    else Ok([Set(user, UserGdprState(ErasurePending)), EmitEvent(USER_ERASURE_SCHEDULED, user, ctx.tick)])
  }

  function RegisterActorOps(ctx: Context, version: nat, profile: Component, user: EntityId)
    : (r: Result<seq<Op>, ActionError>)
    requires profile.ActorProfile?
    ensures r.Ok? ==> Spawns(ctx, r.value, ACTOR_PROFILE)
  {
    if CheckVersion(version).Err? then Err(CheckVersion(version).error)
    else if CheckVersion(profile.schemaVersion).Err? then Err(CheckVersion(profile.schemaVersion).error)
    else if (profile.shell, profile.handle) in ctx.usedHandles
    then Err(ActorHandleCollision(profile.shell, profile.handle))
    else match Spawned(ctx, ACTOR_PROFILE)
      case Err(e) => Err(e)
      case Ok(id) => Ok([SpawnEntity(id), Set(id, profile), Set(id, UserBinding(user))])
  }

  /** The identity a user-scoped action acts under: the injected one, if eligible. */
  function ActingActor(ctx: Context): Result<EntityId, ActionError> {
    if ctx.actingActor.None? then Err(AuthorizationFailed)
    else match EnsureActorEligible(ctx, ctx.actingActor.value, ctx.tick)
      case Err(e) => Err(e)
      case Ok(_) => Ok(ctx.actingActor.value)
  }

  /** The checks of `CreateSpace`: who creates the space, and how deep it will be. */
  function SpaceChecks(ctx: Context, version: nat, draftVersion: nat, parent: Option<EntityId>)
    : Result<(EntityId, byte), ActionError>
  {
    if CheckVersion(version).Err? then Err(CheckVersion(version).error)
    else if CheckVersion(draftVersion).Err? then Err(CheckVersion(draftVersion).error)
    else match ActingActor(ctx)
      case Err(e) => Err(e)
      case Ok(creator) =>
        match ChildDepth(ctx, parent)
        case Err(e) => Err(e)
        case Ok(depth) => Ok((creator, depth))
  }

  function CreateSpaceOps(ctx: Context, version: nat, draftVersion: nat, parent: Option<EntityId>, rest: seq<byte>)
    : (r: Result<seq<Op>, ActionError>)
    ensures r.Ok? ==> Spawns(ctx, r.value, SPACE_CONFIG)
  {
    match SpaceChecks(ctx, version, draftVersion, parent)
    case Err(e) => Err(e)
    case Ok((creator, depth)) =>
      match Spawned(ctx, SPACE_CONFIG)
      case Err(e) => Err(e)
      case Ok(id) =>
        Ok([SpawnEntity(id), Set(id, SpaceConfig(draftVersion, creator, parent, rest)),
            Set(id, ParentChainDepth(depth))])
  }

  /** The checks of `SubmitActivity`: who acts; an activity must not target its own future id. */
  function ActivityChecks(ctx: Context, version: nat, draftVersion: nat, target: Target, key: Option<seq<byte>>)
    : Result<EntityId, ActionError>
  {
    if CheckVersion(version).Err? then Err(CheckVersion(version).error)
    else if CheckVersion(draftVersion).Err? then Err(CheckVersion(draftVersion).error)
    else match ActingActor(ctx)
      case Err(e) => Err(e)
      case Ok(actor) =>
        if key.Some? && key.value in ctx.usedKeys then Err(IdempotencyConflict(key.value))
        else match PreviewNextId(ctx, ACTIVITY_RECORD)
          case Err(e) => Err(e)
          case Ok(predicted) =>
            if target == ActivityTarget(predicted) then Err(InvalidInput("activity self-loop")) else Ok(actor)
  }

  function SubmitActivityOps(ctx: Context, version: nat, draftVersion: nat, target: Target, rest: seq<byte>,
                             key: Option<seq<byte>>): (r: Result<seq<Op>, ActionError>)
    ensures r.Ok? ==> Spawns(ctx, r.value, ACTIVITY_RECORD)
  {
    match ActivityChecks(ctx, version, draftVersion, target, key)
    case Err(e) => Err(e)
    case Ok(actor) =>
      match Spawned(ctx, ACTIVITY_RECORD)
      case Err(e) => Err(e)
      case Ok(id) => Ok([SpawnEntity(id), Set(id, ActivityRecord(draftVersion, actor, target, rest))])
  }

  /** No accepted activity targets itself, though the check runs before the id exists. */
  lemma NoSelfLoop(ctx: Context, version: nat, draftVersion: nat, target: Target, rest: seq<byte>,
                   key: Option<seq<byte>>)
    requires SubmitActivityOps(ctx, version, draftVersion, target, rest, key).Ok?
    ensures target != ActivityTarget(SubmitActivityOps(ctx, version, draftVersion, target, rest, key).value[0].id)
  {
    PreviewForetellsNext(ctx, ACTIVITY_RECORD);
  }

  /** What a compute asks for: the operations it pushes, or the error it rejects with. */
  function Compute(ctx: Context, a: Action): Result<seq<Op>, ActionError>
    requires a.WellTyped()
  {
    match a
    case RegisterUser(version, profile, credential) => RegisterUserOps(ctx, version, profile, credential)
    case GdprEraseUser(version, user) => GdprEraseUserOps(ctx, version, user)
    case RegisterActor(version, profile, user) => RegisterActorOps(ctx, version, profile, user)
    case CreateSpace(version, draftVersion, parent, rest) => CreateSpaceOps(ctx, version, draftVersion, parent, rest)
    case SubmitActivity(version, draftVersion, target, rest, key) =>
      SubmitActivityOps(ctx, version, draftVersion, target, rest, key)
    case RetractActivity(version) => if CheckVersion(version).Err? then Err(CheckVersion(version).error) else Ok([])
  }

  /** The type code of the one entity an action spawns. */
  function SpawnCode(a: Action): Option<u32> {
    match a
    case RegisterUser(_, _, _) => Some(USER_PROFILE)
    case GdprEraseUser(_, _) => None
    case RegisterActor(_, _, _) => Some(ACTOR_PROFILE)
    case CreateSpace(_, _, _, _) => Some(SPACE_CONFIG)
    case SubmitActivity(_, _, _, _, _) => Some(ACTIVITY_RECORD)
    case RetractActivity(_) => None
  }

  /** Where a compute at the start of its context derives the id of the entity it spawns. */
  function SpawnsAt(instance: u64, at: u64, a: Action): Option<Coordinates> {
    if SpawnCode(a).Some? then Some(Coordinates(instance, SpawnCode(a).value, at, 0)) else None
  }

  /** The events an action records beside its operations. */
  function RecordedBy(ctx: Context, a: Action): seq<EventRecord> {
    match a
    case GdprEraseUser(_, user) => [EventRecord(USER_ERASURE_SCHEDULED, ctx.eventSeq, ctx.tick, user)]
    case _ => []
  }

  /** The context after pushing operations and events, having spawned or not. */
  function Pushed(ctx: Context, ops: seq<Op>, spawned: bool, records: seq<EventRecord>): Context
    requires spawned ==> ctx.idSeq < U32_MAX
  {
    ctx.(ops := ctx.ops + ops,
         events := ctx.events + records,
         idSeq := if spawned then ctx.idSeq + 1 else ctx.idSeq,
         eventSeq := if records == [] then ctx.eventSeq else SaturatingAdd(ctx.eventSeq, 1))
  }

  // ------------------------------------------------------------------ what a commit can change

  /** Spawning a fresh entity and filling it in leaves every other entity alone. */
  lemma {:induction false} SpawnCommits(view: View, ops: seq<Op>, id: EntityId)
    requires |ops| >= 1 && ops[0] == SpawnEntity(id) && id !in view
    requires forall k :: 1 <= k < |ops| ==> ops[k].SetComponent? && ops[k].entity == id
    ensures ApplyOps(view, ops).Keys == view.Keys + {id}
    ensures forall e :: e in view ==> ApplyOps(view, ops)[e] == view[e]
    decreases ops
  {
    if |ops| == 1 {
      assert ops[..0] == [];
    } else {
      SpawnCommits(view, ops[..|ops| - 1], id);
    }
  }

  /** The new entity holds exactly what was staged on it. */
  lemma {:induction false} SpawnHoldsStaged(view: View, ops: seq<Op>, id: EntityId, code: u32)
    requires |ops| >= 1 && ops[0] == SpawnEntity(id) && id !in view
    requires forall k :: 1 <= k < |ops| ==> ops[k].SetComponent? && ops[k].entity == id
    ensures Lookup(ApplyOps(view, ops), id, code) == StagedBytes(map[], ops, id, code)
    decreases ops
  {
    if |ops| == 1 {
      assert ops[..0] == [];
    } else {
      var before := ops[..|ops| - 1];
      SpawnHoldsStaged(view, before, id, code);
      SpawnCommits(view, before, id);
    }
  }

  lemma StagedOnTwo(id: EntityId, b: Component, code: u32)
    ensures StagedBytes(map[], [SpawnEntity(id), Set(id, b)], id, code)
         == if b.Code() == code then Some(Encoded(b)) else None
  {
    var ops := [SpawnEntity(id), Set(id, b)];
    assert ops[..1] == [SpawnEntity(id)] && [ops[0]][..0] == [];
    assert StagedBytes(map[], [SpawnEntity(id)], id, code) == None;
  }

  lemma StagedOnThree(id: EntityId, b: Component, c: Component, code: u32)
    ensures StagedBytes(map[], [SpawnEntity(id), Set(id, b), Set(id, c)], id, code)
         == if c.Code() == code then Some(Encoded(c)) else if b.Code() == code then Some(Encoded(b)) else None
  {
    assert [SpawnEntity(id), Set(id, b), Set(id, c)][..2] == [SpawnEntity(id), Set(id, b)];
    StagedOnTwo(id, b, code);
  }

  lemma StagedOnFour(id: EntityId, b: Component, c: Component, d: Component, code: u32)
    ensures StagedBytes(map[], [SpawnEntity(id), Set(id, b), Set(id, c), Set(id, d)], id, code)
         == if d.Code() == code then Some(Encoded(d)) else if c.Code() == code then Some(Encoded(c))
            else if b.Code() == code then Some(Encoded(b)) else None
  {
    assert [SpawnEntity(id), Set(id, b), Set(id, c), Set(id, d)][..3] == [SpawnEntity(id), Set(id, b), Set(id, c)];
    StagedOnThree(id, b, c, code);
  }

  /** The components an action gives the entity it spawns, once its checks pass. */
  function NewComponent(ctx: Context, a: Action, code: u32): Option<Component> {
    match a
    case RegisterUser(_, profile, credential) =>
      if code == USER_PROFILE then Some(profile) else if code == AUTH_CREDENTIAL then Some(credential)
      else if code == USER_GDPR_STATE then Some(UserGdprState(Active)) else None
    case GdprEraseUser(_, _) => None
    case RegisterActor(_, profile, user) =>
      if code == ACTOR_PROFILE then Some(profile) else if code == USER_BINDING then Some(UserBinding(user)) else None
    case CreateSpace(version, draftVersion, parent, rest) =>
      var checked := SpaceChecks(ctx, version, draftVersion, parent);
      if checked.Err? then None
      else if code == SPACE_CONFIG then Some(SpaceConfig(draftVersion, checked.value.0, parent, rest))
      else if code == PARENT_CHAIN_DEPTH then Some(ParentChainDepth(checked.value.1)) else None
    case SubmitActivity(version, draftVersion, target, rest, key) =>
      var actor := ActivityChecks(ctx, version, draftVersion, target, key);
      if actor.Ok? && code == ACTIVITY_RECORD
      then Some(ActivityRecord(draftVersion, actor.value, target, rest)) else None
    case RetractActivity(_) => None
  }

  function Storing(c: Option<Component>): Option<Stored> {
    if c.Some? then Some(Encoded(c.value)) else None
  }

  ghost predicate Stages(ctx: Context, a: Action, code: u32)
    requires a.WellTyped() && Compute(ctx, a).Ok? && SpawnCode(a).Some?
  {
    StagedBytes(map[], Compute(ctx, a).value, Spawned(ctx, SpawnCode(a).value).value, code)
      == Storing(NewComponent(ctx, a, code))
  }

  lemma RegisterUserStages(ctx: Context, a: Action, code: u32)
    requires a.WellTyped() && a.RegisterUser? && Compute(ctx, a).Ok?
    ensures Stages(ctx, a, code)
  {
    var ops := Compute(ctx, a).value;
    var id := ops[0].id;
    var active := UserGdprState(Active);
    assert ops == [SpawnEntity(id), Set(id, a.profile), Set(id, a.credential), Set(id, active)];
    StagedOnFour(id, a.profile, a.credential, active, code);
  }

  lemma RegisterActorStages(ctx: Context, a: Action, code: u32)
    requires a.WellTyped() && a.RegisterActor? && Compute(ctx, a).Ok?
    ensures Stages(ctx, a, code)
  {
    var ops := Compute(ctx, a).value;
    var id := ops[0].id;
    var binding := UserBinding(a.boundUser);
    assert ops == [SpawnEntity(id), Set(id, a.actorProfile), Set(id, binding)];
    StagedOnThree(id, a.actorProfile, binding, code);
  }

  lemma CreateSpaceStages(ctx: Context, a: Action, code: u32)
    requires a.WellTyped() && a.CreateSpace? && Compute(ctx, a).Ok?
    ensures Stages(ctx, a, code)
  {
    var ops := Compute(ctx, a).value;
    var id := ops[0].id;
    var checked := SpaceChecks(ctx, a.schemaVersion, a.draftVersion, a.parent).value;
    var config, cached := SpaceConfig(a.draftVersion, checked.0, a.parent, a.rest), ParentChainDepth(checked.1);
    assert ops == [SpawnEntity(id), Set(id, config), Set(id, cached)];
    StagedOnThree(id, config, cached, code);
  }

  lemma SubmitActivityStages(ctx: Context, a: Action, code: u32)
    requires a.WellTyped() && a.SubmitActivity? && Compute(ctx, a).Ok?
    ensures Stages(ctx, a, code)
  {
    var ops := Compute(ctx, a).value;
    var id := ops[0].id;
    var actor := ActivityChecks(ctx, a.schemaVersion, a.draftVersion, a.target, a.key).value;
    var activity := ActivityRecord(a.draftVersion, actor, a.target, a.rest);
    assert ops == [SpawnEntity(id), Set(id, activity)];
    StagedOnTwo(id, activity, code);
  }

  lemma StagesItsComponents(ctx: Context, a: Action, code: u32)
    requires a.WellTyped() && Compute(ctx, a).Ok? && SpawnCode(a).Some?
    ensures Stages(ctx, a, code)
  {
    match a
    case RegisterUser(_, _, _) => RegisterUserStages(ctx, a, code);
    case RegisterActor(_, _, _) => RegisterActorStages(ctx, a, code);
    case CreateSpace(_, _, _, _) => CreateSpaceStages(ctx, a, code);
    case SubmitActivity(_, _, _, _, _) => SubmitActivityStages(ctx, a, code);
  }

  lemma SpawnFillsIn(ctx: Context, a: Action, view: View, code: u32)
    requires a.WellTyped() && Compute(ctx, a).Ok? && SpawnCode(a).Some?
    requires Spawned(ctx, SpawnCode(a).value).value !in view
    ensures Lookup(ApplyOps(view, Compute(ctx, a).value), Spawned(ctx, SpawnCode(a).value).value, code)
         == Storing(NewComponent(ctx, a, code))
  {
    var ops := Compute(ctx, a).value;
    SpawnHoldsStaged(view, ops, ops[0].id, code);
    StagesItsComponents(ctx, a, code);
  }

  lemma EraseCommits(view: View, user: EntityId, tick: u64)
    ensures ApplyOps(view, [Set(user, UserGdprState(ErasurePending)), EmitEvent(USER_ERASURE_SCHEDULED, user, tick)])
         == ApplyOp(view, Set(user, UserGdprState(ErasurePending)))
  {
    var ops := [Set(user, UserGdprState(ErasurePending)), EmitEvent(USER_ERASURE_SCHEDULED, user, tick)];
    assert ops[..1] == [ops[0]] && [ops[0]][..0] == [];
    assert ApplyOps(view, [ops[0]]) == ApplyOp(view, ops[0]);
    assert ApplyOps(view, ops) == ApplyOp(ApplyOps(view, ops[..1]), ops[1]);
  }

  /** The ledger gains at most one entity; of the others only an erased user's status changes. */
  ghost predicate Grows(before: View, after: View, added: Option<EntityId>, erased: Option<EntityId>) {
    && after.Keys == before.Keys + (if added.Some? then {added.value} else {})
    && forall e :: e in before ==>
         after[e] == if erased == Some(e)
                     then With<u32, Stored>(before[e], USER_GDPR_STATE, Encoded(UserGdprState(ErasurePending)))
                     else before[e]
  }

  /** The user whose status an action sets. */
  function Erases(a: Action): Option<EntityId> {
    if a.GdprEraseUser? then Some(a.user) else None
  }

  /** Committing any accepted compute only grows the ledger. */
  lemma CommitGrows(ctx: Context, a: Action, view: View) returns (added: Option<EntityId>)
    requires a.WellTyped() && Compute(ctx, a).Ok?
    requires SpawnCode(a).Some? ==> Spawned(ctx, SpawnCode(a).value).value !in view
    ensures added == if SpawnCode(a).Some? then Some(Spawned(ctx, SpawnCode(a).value).value) else None
    ensures Grows(view, ApplyOps(view, Compute(ctx, a).value), added, Erases(a))
  {
    var ops := Compute(ctx, a).value;
    added := None;
    if SpawnCode(a).Some? {
      added := Some(ops[0].id);
      SpawnCommits(view, ops, ops[0].id);
    } else if a.GdprEraseUser? {
      EraseCommits(view, a.user, ctx.tick);
    }
  }
}
