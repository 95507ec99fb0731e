/**
 Parent chains of spaces, arkhe-forge-core/src/space.rs: over every run of view-bound computes the
 cached depth is the real distance to the root.
 */
module Spaces {
  import opened Bytes
  import opened Types
  import opened EntityIds
  import opened ContextSpec
  import A = ActionRules

  /** One compute on the direct path: the context binds the ledger as it stands. */
  datatype DirectSubmission = DirectSubmission(action: Action, at: u64, actor: Option<EntityId>,
                                               usedKeys: set<seq<byte>>, usedHandles: set<(seq<byte>, seq<byte>)>)

  type DirectCall = s: DirectSubmission | s.action.WellTyped()
    witness DirectSubmission(RetractActivity(1), 0, None, {}, {})

  function DirectContext(h: Hash, instance: u64, view: View, call: DirectCall): Context {
    Context(h, instance, call.at, call.actor, Some(view), call.usedKeys, call.usedHandles, 0, 0, [], [])
  }

  /** An accepted compute is committed, a rejected one changes nothing. */
  function DirectStep(h: Hash, instance: u64, view: View, call: DirectCall): View {
    var computed := Compute(DirectContext(h, instance, view, call), call.action);
    if computed.Ok? then ApplyOps(view, computed.value) else view
  }

  function DirectRun(h: Hash, instance: u64, calls: seq<DirectCall>): View {
    if calls == [] then map[]
    else DirectStep(h, instance, DirectRun(h, instance, calls[..|calls| - 1]), calls[|calls| - 1])
  }

  // ------------------------------------------------------------------ fresh ids

  function Origin(instance: u64, call: DirectCall): Option<Coordinates> {
    SpawnsAt(instance, call.at, call.action)
  }

  function Origins(instance: u64, calls: seq<DirectCall>): seq<Option<Coordinates>> {
    seq(|calls|, i requires 0 <= i < |calls| => Origin(instance, calls[i]))
  }

  ghost predicate AllDerived(h: Hash, instance: u64, origins: seq<Option<Coordinates>>, view: View) {
    forall e :: e in view ==> Derived(h, origins, instance, e)
  }

  lemma StillDerived(h: Hash, instance: u64, origins: seq<Option<Coordinates>>, origin: Option<Coordinates>, view: View,
                     after: View, added: Option<EntityId>)
    requires AllDerived(h, instance, origins, view)
    requires after.Keys == view.Keys + (if added.Some? then {added.value} else {})
    requires added.Some? ==> Derives(h, origin, instance, added.value)
    ensures AllDerived(h, instance, origins + [origin], after)
  {
    forall e | e in after
      ensures Derived(h, origins + [origin], instance, e)
    {
      DerivedGrows(h, origins, origin, instance, e);
    }
  }

  // ------------------------------------------------------------------ parents and depths

  /** The stored parent reference of a space. */
  function ParentOf(view: View, e: EntityId): Option<Option<EntityId>> {
    match Lookup(view, e, SPACE_CONFIG)
    case Some(Encoded(SpaceConfig(_, _, parent, _))) => Some(parent)
    case _ => None
  }

  /** The cached depth of a space. */
  function DepthOf(view: View, e: EntityId): Option<nat> {
    match Lookup(view, e, PARENT_CHAIN_DEPTH)
    case Some(Encoded(ParentChainDepth(depth))) => Some(depth)
    case _ => None
  }

  /** The distance to the root found by walking up, none on a cycle or a dangling parent. */
  function Distance(view: View, e: EntityId, seen: set<EntityId>): Option<nat>
    decreases view.Keys - seen
  {
    if e in seen || ParentOf(view, e).None? then None
    else match ParentOf(view, e).value
      case None => Some(0)
      case Some(p) =>
        var up := Distance(view, p, seen + {e});
        if up.Some? then Some(up.value + 1) else None
  }

  ghost predicate SpaceIsSound(view: View, e: EntityId) {
    var parent, depth := ParentOf(view, e), DepthOf(view, e);
    && (parent.None? <==> depth.None?)
    && (depth.Some? ==> depth.value <= MAX_SPACE_DEPTH)
    && (depth.Some? ==> if parent.value.None? then depth.value == 0
                        else depth.value > 0 && DepthOf(view, parent.value.value) == Some(depth.value - 1))
  }

  ghost predicate Sound(view: View) {
    forall e :: SpaceIsSound(view, e)
  }

  /** The cache is the distance: no walk up ever meets itself or a missing parent. */
  lemma {:induction false} CacheIsDistance(view: View, e: EntityId, seen: set<EntityId>)
    requires Sound(view) && DepthOf(view, e).Some?
    requires forall s :: s in seen ==> DepthOf(view, s).Some? && DepthOf(view, s).value > DepthOf(view, e).value
    ensures Distance(view, e, seen) == DepthOf(view, e)
    decreases DepthOf(view, e).value
  {
    assert SpaceIsSound(view, e);
    var parent := ParentOf(view, e).value;
    if parent.Some? {
      CacheIsDistance(view, parent.value, seen + {e});
    }
  }

  ghost predicate Ancestry(view: View, path: seq<EntityId>) {
    forall i :: 0 <= i < |path| - 1 ==> ParentOf(view, path[i]) == Some(Some(path[i + 1]))
  }

  lemma {:induction false} DepthFallsAlong(view: View, path: seq<EntityId>, i: nat)
    requires Sound(view) && Ancestry(view, path) && |path| >= 2 && i < |path|
    ensures DepthOf(view, path[0]).Some? && DepthOf(view, path[i]) == Some(DepthOf(view, path[0]).value - i)
    decreases i
  {
    assert ParentOf(view, path[0]) == Some(Some(path[0 + 1])) && SpaceIsSound(view, path[0]);
    if i > 0 {
      var child := i - 1;
      DepthFallsAlong(view, path, child);
      assert ParentOf(view, path[child]) == Some(Some(path[child + 1])) && SpaceIsSound(view, path[child]);
    }
  }

  /** The parent relation has no cycle, and no chain of ancestors is longer than the limit. */
  lemma ParentsAreAcyclic(view: View, path: seq<EntityId>)
    requires Sound(view) && Ancestry(view, path) && |path| >= 2
    ensures path[0] != path[|path| - 1]
    ensures |path| <= MAX_SPACE_DEPTH + 1
  {
    DepthFallsAlong(view, path, |path| - 1);
    assert SpaceIsSound(view, path[0]);
  }

  // ------------------------------------------------------------------ runs

  /** What the entity a compute adds may look like. */
  ghost predicate AddsSoundly(view: View, parent: Option<Option<EntityId>>, depth: Option<nat>) {
    || (parent == None && depth == None)
    || (parent == Some(None) && depth == Some(0))
    || (parent.Some? && parent.value.Some? && DepthOf(view, parent.value.value).Some?
        && depth == Some(DepthOf(view, parent.value.value).value + 1) && depth.value <= MAX_SPACE_DEPTH)
  }

  lemma SpaceStays(view: View, after: View, added: Option<EntityId>, erased: Option<EntityId>, e: EntityId)
    requires Grows(view, after, added, erased) && e in view
    ensures ParentOf(after, e) == ParentOf(view, e) && DepthOf(after, e) == DepthOf(view, e)
  {
    assert Lookup(after, e, SPACE_CONFIG) == Lookup(view, e, SPACE_CONFIG);
    assert Lookup(after, e, PARENT_CHAIN_DEPTH) == Lookup(view, e, PARENT_CHAIN_DEPTH);
  }

  lemma GrownSpaceIsSound(view: View, after: View, added: Option<EntityId>, erased: Option<EntityId>, e: EntityId)
    requires SpaceIsSound(view, e) && Grows(view, after, added, erased)
    requires added.Some? ==> added.value !in view
    requires added == Some(e) ==> AddsSoundly(view, ParentOf(after, e), DepthOf(after, e))
    ensures SpaceIsSound(after, e)
  {
    if e in view {
      SpaceStays(view, after, added, erased, e);
    }
    var parent := ParentOf(after, e);
    if parent.Some? && parent.value.Some? && parent.value.value in view {
      SpaceStays(view, after, added, erased, parent.value.value);
    }
  }

  lemma GrownIsSound(view: View, after: View, added: Option<EntityId>, erased: Option<EntityId>)
    requires Sound(view) && Grows(view, after, added, erased)
    requires added.Some? ==> added.value !in view
    requires added.Some? ==> AddsSoundly(view, ParentOf(after, added.value), DepthOf(after, added.value))
    ensures Sound(after)
  {
    forall e
      ensures SpaceIsSound(after, e)
    {
      assert SpaceIsSound(view, e);
      GrownSpaceIsSound(view, after, added, erased, e);
    }
  }

  /** The depth `CreateSpace` checked is the parent's plus one, within the limit. */
  lemma CheckedDepth(ctx: Context, version: nat, draftVersion: nat, parent: Option<EntityId>)
    requires SpaceChecks(ctx, version, draftVersion, parent).Ok?
    ensures AddsSoundly(ViewOf(ctx), Some(parent), Some(SpaceChecks(ctx, version, draftVersion, parent).value.1 as nat))
  {
    assert ChildDepth(ctx, parent).Ok?;
    if parent.Some? {
      assert Read(ctx, parent.value, PARENT_CHAIN_DEPTH).Ok?;
    }
  }

  lemma NewComponentsAddSoundly(ctx: Context, a: Action)
    requires a.WellTyped() && Compute(ctx, a).Ok? && SpawnCode(a).Some?
    ensures var config, depth := NewComponent(ctx, a, SPACE_CONFIG), NewComponent(ctx, a, PARENT_CHAIN_DEPTH);
            if a.CreateSpace? then
              && config.Some? && config.value.SpaceConfig? && depth.Some? && depth.value.ParentChainDepth?
              && AddsSoundly(ViewOf(ctx), Some(config.value.parent), Some(depth.value.depth as nat))
            else config == None && depth == None
  {
    if a.CreateSpace? {
      CheckedDepth(ctx, a.schemaVersion, a.draftVersion, a.parent);
    }
  }

  /** A space is stored under the depth its checks computed from its parent's. */
  lemma NewSpaceAddsSoundly(h: Hash, instance: u64, view: View, call: DirectCall, id: EntityId)
    requires Compute(DirectContext(h, instance, view, call), call.action).Ok? && SpawnCode(call.action).Some?
    requires Spawned(DirectContext(h, instance, view, call), SpawnCode(call.action).value) == Ok(id) && id !in view
    ensures var after := DirectStep(h, instance, view, call);
            AddsSoundly(view, ParentOf(after, id), DepthOf(after, id))
  {
    var ctx := DirectContext(h, instance, view, call);
    SpawnFillsIn(ctx, call.action, view, SPACE_CONFIG);
    SpawnFillsIn(ctx, call.action, view, PARENT_CHAIN_DEPTH);
    NewComponentsAddSoundly(ctx, call.action);
  }

  /** Submitting a space adds exactly that space, one below its parent, when it is acceptable, and else nothing. */
  lemma SpaceIsAddedIff(h: Hash, instance: u64, view: View, call: DirectCall)
    requires call.action.CreateSpace?
    requires Derive(h, Coordinates(instance, SPACE_CONFIG, call.at, 0)).Some? ==>
               Derive(h, Coordinates(instance, SPACE_CONFIG, call.at, 0)).value !in view
    ensures var ctx := DirectContext(h, instance, view, call);
            var id := Derive(h, Coordinates(instance, SPACE_CONFIG, call.at, 0));
            var depth := A.DepthBelow(ctx, call.action.parent);
            DirectStep(h, instance, view, call)
            == if A.Acceptable(ctx, call.action)
               then view[id.value := A.SpaceEntry(call.action, call.actor.value, depth.value)]
               else view
  {
    var ctx := DirectContext(h, instance, view, call);
    A.ComputeAcceptsIff(ctx, call.action);
    if A.Acceptable(ctx, call.action) {
      A.SpaceCommits(ctx, call.action, view, A.IdFor(ctx, SPACE_CONFIG).value);
    }
  }

  lemma DirectStepKeeps(h: Hash, instance: u64, origins: seq<Option<Coordinates>>, view: View, call: DirectCall)
    requires StayApart(h, origins + [Origin(instance, call)])
    requires AllDerived(h, instance, origins, view) && Sound(view)
    ensures AllDerived(h, instance, origins + [Origin(instance, call)], DirectStep(h, instance, view, call))
    ensures Sound(DirectStep(h, instance, view, call))
  {
    var ctx := DirectContext(h, instance, view, call);
    var added: Option<EntityId> := None;
    if Compute(ctx, call.action).Ok? {
      if SpawnCode(call.action).Some? {
        NextIdIsFresh(h, origins, Origin(instance, call), instance, Spawned(ctx, SpawnCode(call.action).value).value);
      }
      added := CommitGrows(ctx, call.action, view);
      if added.Some? {
        NewSpaceAddsSoundly(h, instance, view, call, added.value);
      }
      GrownIsSound(view, DirectStep(h, instance, view, call), added, Erases(call.action));
    }
    StillDerived(h, instance, origins, Origin(instance, call), view, DirectStep(h, instance, view, call), added);
  }

  /** In every run of view-bound computes each cached depth is the distance to the root, at most 64. */
  lemma {:induction false} RunsAreSound(h: Hash, instance: u64, calls: seq<DirectCall>)
    requires StayApart(h, Origins(instance, calls))
    ensures AllDerived(h, instance, Origins(instance, calls), DirectRun(h, instance, calls))
    ensures Sound(DirectRun(h, instance, calls))
    ensures forall e :: DepthOf(DirectRun(h, instance, calls), e).Some? ==>
              Distance(DirectRun(h, instance, calls), e, {}) == DepthOf(DirectRun(h, instance, calls), e)
    decreases calls
  {
    var view := DirectRun(h, instance, calls);
    if calls != [] {
      var n := |calls| - 1;
      var earlier := Origins(instance, calls[..n]);
      assert Origins(instance, calls) == earlier + [Origin(instance, calls[n])];
      PrefixStaysApart(h, earlier, Origins(instance, calls));
      RunsAreSound(h, instance, calls[..n]);
      DirectStepKeeps(h, instance, earlier, DirectRun(h, instance, calls[..n]), calls[n]);
    }
    forall e | DepthOf(view, e).Some?
      ensures Distance(view, e, {}) == DepthOf(view, e)
    {
      CacheIsDistance(view, e, {});
    }
  }
}
