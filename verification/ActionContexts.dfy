/**
 The mutable compute context of arkhe-forge-core/src/context.rs, with the production compute
 bodies of user.rs, actor.rs, space.rs and activity.rs run against it step by step.
 */
module ActionContexts {
  import opened Bytes
  import opened Types
  import opened EntityIds
  import S = ContextSpec

  /** What a compute leaves: the pushed context, or on error the operations and events it found. */
  ghost predicate Ran(before: S.Context, asked: Result<seq<S.Op>, S.ActionError>, spawned: bool,
                      records: seq<S.EventRecord>, r: Result<(), S.ActionError>, after: S.Context)
    requires asked.Ok? && spawned ==> before.idSeq < S.U32_MAX
  {
    match asked
    case Ok(ops) => r == Ok(()) && after == S.Pushed(before, ops, spawned, records)
    case Err(e) => r == Err(e) && after == before.(idSeq := after.idSeq)
  }

  lemma PushedTwo<T>(s: seq<T>, a: T, b: T)
    ensures s + [a] + [b] == s + [a, b]
  {}

  lemma PushedThree<T>(s: seq<T>, a: T, b: T, c: T)
    ensures s + [a] + [b] + [c] == s + [a, b, c]
  {}

  lemma PushedFour<T>(s: seq<T>, a: T, b: T, c: T, d: T)
    ensures s + [a] + [b] + [c] + [d] == s + [a, b, c, d]
  {}

  class ActionContext {
    const hash: Hash
    const instance: u64
    const tick: u64
    const actingActor: Option<EntityId>
    const view: Option<S.View>
    const usedKeys: set<seq<byte>>
    const usedHandles: set<(seq<byte>, seq<byte>)>
    var idSeq: u32
    var eventSeq: u64
    var events: seq<S.EventRecord>
    var ops: seq<S.Op>

    function Value(): S.Context
      reads this
    {
      S.Context(hash, instance, tick, actingActor, view, usedKeys, usedHandles, idSeq, eventSeq, events, ops)
    }

    /** `new` followed by the `with_` builders. */
    constructor (hash: Hash, instance: u64, tick: u64, actingActor: Option<EntityId>, view: Option<S.View>,
                 usedKeys: set<seq<byte>>, usedHandles: set<(seq<byte>, seq<byte>)>)
      ensures Value() == S.Context(hash, instance, tick, actingActor, view, usedKeys, usedHandles, 0, 0, [], [])
    {
      this.hash, this.instance, this.tick, this.actingActor, this.view := hash, instance, tick, actingActor, view;
      this.usedKeys, this.usedHandles := usedKeys, usedHandles;
      idSeq, eventSeq, events, ops := 0, 0, [], [];
    }

    method NextId(code: u32) returns (r: Result<EntityId, S.ActionError>)
      modifies this`idSeq
      ensures (Value(), r) == old(S.NextId(Value(), code))
    {
      var seqNo := idSeq;
      if seqNo == S.U32_MAX {
        return Err(S.IdExhaustion);
      }
      idSeq := seqNo + 1;
      var id := DeriveEntityId(hash, Coordinates(instance, code, tick, seqNo));
      r := if id.Some? then Ok(id.value) else Err(S.IdExhaustion);
    }

    method PreviewNextId(code: u32) returns (r: Result<EntityId, S.ActionError>)
      ensures r == S.PreviewNextId(Value(), code)
    {
      var id := DeriveEntityId(hash, Coordinates(instance, code, tick, idSeq));
      r := if id.Some? then Ok(id.value) else Err(S.IdExhaustion);
    }

    /** Both paths of `emit_event`: the numbered record and the kernel operation. */
    method EmitEvent(code: u32, user: EntityId)
      modifies this`eventSeq, this`events, this`ops
      ensures events == old(events) + [S.EventRecord(code, old(eventSeq), tick, user)]
      ensures ops == old(ops) + [S.EmitEvent(code, user, tick)]
      ensures eventSeq == SaturatingAdd(old(eventSeq), 1)
    {
      var record := S.EventRecord(code, eventSeq, tick, user);
      eventSeq := SaturatingAdd(eventSeq, 1);
      events := events + [record];
      ops := ops + [S.EmitEvent(code, user, tick)];
    }

    method SpawnEntityFor(code: u32) returns (r: Result<EntityId, S.ActionError>)
      modifies this`idSeq, this`ops
      ensures r == old(S.Spawned(Value(), code))
      ensures Value() == old(S.NextId(Value(), code).0)
                           .(ops := if r.Ok? then old(ops) + [S.SpawnEntity(r.value)] else old(ops))
    {
      r := NextId(code);
      if r.Ok? {
        ops := ops + [S.SpawnEntity(r.value)];
      }
    }

    method SetComponent(entity: EntityId, component: S.Component)
      modifies this`ops
      ensures Value() == old(Value()).(ops := old(ops) + [S.Set(entity, component)])
    {
      ops := ops + [S.SetComponent(entity, component.Code(), S.Encoded(component))];
    }

    method RemoveComponent(entity: EntityId, code: u32)
      modifies this`ops
      ensures ops == old(ops) + [S.RemoveComponent(entity, code)]
    {
      ops := ops + [S.RemoveComponent(entity, code)];
    }

    method DrainOps() returns (drained: seq<S.Op>)
      modifies this`ops
      ensures drained == old(ops) && ops == []
    {
      drained, ops := ops, [];
    }

    method DrainEvents() returns (drained: seq<S.EventRecord>)
      modifies this`events
      ensures drained == old(events) && events == []
    {
      drained, events := events, [];
    }

    /** The reverse scan of the operations, then the view. */
    method StagedRead(entity: EntityId, code: u32) returns (r: S.ReadResult)
      ensures r == S.StagedRead(Value(), entity, code)
    {
      ghost var base := S.ViewOf(Value());
      assert ops[..|ops|] == ops;
      var i := |ops|;
      while i > 0
        invariant 0 <= i <= |ops|
        invariant S.StagedBytes(base, ops[..i], entity, code) == S.StagedBytes(base, ops, entity, code)
        invariant forall k :: i <= k < |ops| ==> !S.Touches(ops[k], entity, code)
      {
        i := i - 1;
        var op := ops[i];
        assert ops[..i + 1][..i] == ops[..i];
        assert S.Touches(op, entity, code) ==> S.Touches(ops[i], entity, code);
        match op
        case SetComponent(e, c, bytes) =>
          if e == entity && c == code {
            return S.Decode(Some(bytes), code, "staged component decode failed");
          }
        case RemoveComponent(e, c) =>
          if e == entity && c == code {
            return Ok(None);
          }
        case SpawnEntity(_) =>
        case EmitEvent(_, _, _) =>
      }
      r := S.Read(Value(), entity, code);
    }

    method EnsureActorEligible(actor: EntityId, scheduledTick: u64) returns (r: Result<(), S.ActionError>)
      ensures r == S.EnsureActorEligible(Value(), actor, scheduledTick)
    {
      var binding := StagedRead(actor, S.USER_BINDING);
      if binding.Err? {
        return Err(binding.error);
      }
      if binding.value.None? {
        return Ok(());
      }
      var user := binding.value.value.user;
      var state := StagedRead(user, S.USER_GDPR_STATE);
      if state.Err? {
        return Err(state.error);
      }
      match state.value
      case None => r := Err(S.UserLifecycleUnresolved(user));
      case Some(gdpr) =>
        r := if gdpr.status == S.Active then Ok(()) else Err(S.UserErasurePending(user, scheduledTick));
    }

    /** The identity check every user-scoped compute starts with. */
    method ActingActor() returns (r: Result<EntityId, S.ActionError>)
      ensures r == S.ActingActor(Value())
    {
      if actingActor.None? {
        return Err(S.AuthorizationFailed);
      }
      var eligible := EnsureActorEligible(actingActor.value, tick);
      r := if eligible.Ok? then Ok(actingActor.value) else Err(eligible.error);
    }

    /** The depth of a space about to be created under `parent`. */
    method ChildDepth(parent: Option<EntityId>) returns (r: Result<byte, S.ActionError>)
      ensures r == S.ChildDepth(Value(), parent)
    {
      if parent.None? {
        return Ok(0);
      }
      var above := S.Read(Value(), parent.value, S.PARENT_CHAIN_DEPTH);
      if above.Err? {
        return Err(above.error);
      }
      if above.value.None? {
        return Err(S.InvalidInput("parent space not found"));
      }
      var next: byte := if above.value.value.depth == 255 then 255 else above.value.value.depth + 1;
      r := if next > S.MAX_SPACE_DEPTH then Err(S.InvalidInput("space depth exceeded")) else Ok(next);
    }

    // ---------------------------------------------------------------- compute bodies

    method RegisterUser(version: nat, profile: S.Component, credential: S.Component)
      returns (r: Result<(), S.ActionError>)
      requires profile.UserProfile? && credential.AuthCredential?
      modifies this
      ensures Ran(old(Value()), S.RegisterUserOps(old(Value()), version, profile, credential), true, [], r, Value())
    {
      if version != S.SCHEMA_VERSION {
        return Err(S.SchemaMismatch(S.SCHEMA_VERSION, version));
      }
      if profile.schemaVersion != S.SCHEMA_VERSION {
        return Err(S.SchemaMismatch(S.SCHEMA_VERSION, profile.schemaVersion));
      }
      if credential.schemaVersion != S.SCHEMA_VERSION {
        return Err(S.SchemaMismatch(S.SCHEMA_VERSION, credential.schemaVersion));
      }
      if !S.KdfParamsAreStrong(credential) {
        return Err(S.InvalidInput("KDF params below minimum"));
      }
      var spawned := SpawnEntityFor(S.USER_PROFILE);
      if spawned.Err? {
        return Err(spawned.error);
      }
      var user := spawned.value;
      SetComponent(user, profile);
      SetComponent(user, credential);
      SetComponent(user, S.UserGdprState(S.Active));
      PushedFour(old(ops), S.SpawnEntity(user), S.Set(user, profile), S.Set(user, credential),
                 S.Set(user, S.UserGdprState(S.Active)));
      r := Ok(());
    }

    method GdprEraseUser(version: nat, user: EntityId) returns (r: Result<(), S.ActionError>)
      modifies this
      ensures Ran(old(Value()), S.GdprEraseUserOps(old(Value()), version, user), false,
                  [S.EventRecord(S.USER_ERASURE_SCHEDULED, old(eventSeq), tick, user)], r, Value())
    {
      if version != S.SCHEMA_VERSION {
        return Err(S.SchemaMismatch(S.SCHEMA_VERSION, version));
      }
      SetComponent(user, S.UserGdprState(S.ErasurePending));
      EmitEvent(S.USER_ERASURE_SCHEDULED, user);
      PushedTwo(old(ops), S.Set(user, S.UserGdprState(S.ErasurePending)),
                S.EmitEvent(S.USER_ERASURE_SCHEDULED, user, tick));
      r := Ok(());
    }

    method RegisterActor(version: nat, profile: S.Component, user: EntityId) returns (r: Result<(), S.ActionError>)
      requires profile.ActorProfile?
      modifies this
      ensures Ran(old(Value()), S.RegisterActorOps(old(Value()), version, profile, user), true, [], r, Value())
    {
      if version != S.SCHEMA_VERSION {
        return Err(S.SchemaMismatch(S.SCHEMA_VERSION, version));
      }
      if profile.schemaVersion != S.SCHEMA_VERSION {
        return Err(S.SchemaMismatch(S.SCHEMA_VERSION, profile.schemaVersion));
      }
      if (profile.shell, profile.handle) in usedHandles {
        return Err(S.ActorHandleCollision(profile.shell, profile.handle));
      }
      var spawned := SpawnEntityFor(S.ACTOR_PROFILE);
      if spawned.Err? {
        return Err(spawned.error);
      }
      var actor := spawned.value;
      SetComponent(actor, profile);
      SetComponent(actor, S.UserBinding(user));
      PushedThree(old(ops), S.SpawnEntity(actor), S.Set(actor, profile), S.Set(actor, S.UserBinding(user)));
      r := Ok(());
    }

    method SpaceChecks(version: nat, draftVersion: nat, parent: Option<EntityId>)
      returns (r: Result<(EntityId, byte), S.ActionError>)
      ensures r == S.SpaceChecks(Value(), version, draftVersion, parent)
    {
      if version != S.SCHEMA_VERSION {
        return Err(S.SchemaMismatch(S.SCHEMA_VERSION, version));
      }
      if draftVersion != S.SCHEMA_VERSION {
        return Err(S.SchemaMismatch(S.SCHEMA_VERSION, draftVersion));
      }
      var creator := ActingActor();
      if creator.Err? {
        return Err(creator.error);
      }
      var depth := ChildDepth(parent);
      r := if depth.Ok? then Ok((creator.value, depth.value)) else Err(depth.error);
    }

    method CreateSpace(version: nat, draftVersion: nat, parent: Option<EntityId>, rest: seq<byte>)
      returns (r: Result<(), S.ActionError>)
      modifies this
      ensures Ran(old(Value()), S.CreateSpaceOps(old(Value()), version, draftVersion, parent, rest), true, [], r,
                  Value())
    {
      var checked := SpaceChecks(version, draftVersion, parent);
      if checked.Err? {
        return Err(checked.error);
      }
      var (creator, depth) := checked.value;
      var spawned := SpawnEntityFor(S.SPACE_CONFIG);
      if spawned.Err? {
        return Err(spawned.error);
      }
      var space := spawned.value;
      SetComponent(space, S.SpaceConfig(draftVersion, creator, parent, rest));
      SetComponent(space, S.ParentChainDepth(depth));
      PushedThree(old(ops), S.SpawnEntity(space), S.Set(space, S.SpaceConfig(draftVersion, creator, parent, rest)),
                  S.Set(space, S.ParentChainDepth(depth)));
      r := Ok(());
    }

    method ActivityChecks(version: nat, draftVersion: nat, target: S.Target, key: Option<seq<byte>>)
      returns (r: Result<EntityId, S.ActionError>)
      ensures r == S.ActivityChecks(Value(), version, draftVersion, target, key)
    {
      if version != S.SCHEMA_VERSION {
        return Err(S.SchemaMismatch(S.SCHEMA_VERSION, version));
      }
      if draftVersion != S.SCHEMA_VERSION {
        return Err(S.SchemaMismatch(S.SCHEMA_VERSION, draftVersion));
      }
      var actor := ActingActor();
      if actor.Err? {
        return Err(actor.error);
      }
      if key.Some? && key.value in usedKeys {
        return Err(S.IdempotencyConflict(key.value));
      }
      var predicted := PreviewNextId(S.ACTIVITY_RECORD);
      if predicted.Err? {
        return Err(predicted.error);
      }
      r := if target == S.ActivityTarget(predicted.value) then Err(S.InvalidInput("activity self-loop")) else actor;
    }

    method SubmitActivity(version: nat, draftVersion: nat, target: S.Target, rest: seq<byte>, key: Option<seq<byte>>)
      returns (r: Result<(), S.ActionError>)
      modifies this
      ensures Ran(old(Value()), S.SubmitActivityOps(old(Value()), version, draftVersion, target, rest, key), true, [],
                  r, Value())
    {
      var actor := ActivityChecks(version, draftVersion, target, key);
      if actor.Err? {
        return Err(actor.error);
      }
      var spawned := SpawnEntityFor(S.ACTIVITY_RECORD);
      if spawned.Err? {
        return Err(spawned.error);
      }
      var id := spawned.value;
      SetComponent(id, S.ActivityRecord(draftVersion, actor.value, target, rest));
      PushedTwo(old(ops), S.SpawnEntity(id), S.Set(id, S.ActivityRecord(draftVersion, actor.value, target, rest)));
      r := Ok(());
    }

    /** `compute` of whichever production action it is. */
    method Compute(a: S.Action) returns (r: Result<(), S.ActionError>)
      requires a.WellTyped()
      modifies this
      ensures Ran(old(Value()), S.Compute(old(Value()), a), S.SpawnCode(a).Some?, S.RecordedBy(old(Value()), a), r,
                  Value())
    {
      match a
      case RegisterUser(version, profile, credential) => r := RegisterUser(version, profile, credential);
      case GdprEraseUser(version, user) => r := GdprEraseUser(version, user);
      case RegisterActor(version, profile, user) => r := RegisterActor(version, profile, user);
      case CreateSpace(version, draftVersion, parent, rest) => r := CreateSpace(version, draftVersion, parent, rest);
      case SubmitActivity(version, draftVersion, target, rest, key) =>
        r := SubmitActivity(version, draftVersion, target, rest, key);
      case RetractActivity(version) =>
        r := if version == S.SCHEMA_VERSION then Ok(()) else Err(S.SchemaMismatch(S.SCHEMA_VERSION, version));
        assert ops + [] == ops && events + [] == events;
    }
  }
}
