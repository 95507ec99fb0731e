/**
 `RuntimeService::dispatch` of arkhe-forge-platform/src/dispatcher.rs as an object that owns its
 kernel, and the bridge of arkhe-forge-core/src/bridge.rs, proved against `GateSpec`.
 */
module Runtime {
  import opened Bytes
  import opened Types
  import opened EntityIds
  import opened ActionContexts
  import S = ContextSpec
  import G = GateSpec

  /** `kernel_compute`: a fresh viewless context, and no operations when the compute rejects. */
  method KernelCompute(h: Hash, call: G.Call) returns (ops: seq<S.Op>)
    ensures ops == G.BridgeOps(h, call)
  {
    var ctx := new ActionContext(h, call.instance, call.at, call.actor, None, {}, {});
    var computed := ctx.Compute(call.action);
    if computed.Ok? {
      ops := ctx.DrainOps();
    } else {
      ops := [];
    }
  }

  /** The kernel's step commits the operations one by one. */
  method Commit(view: S.View, ops: seq<S.Op>) returns (after: S.View)
    ensures after == S.ApplyOps(view, ops)
  {
    after := view;
    for i := 0 to |ops|
      invariant after == S.ApplyOps(view, ops[..i])
    {
      assert ops[..i + 1][..i] == ops[..i];
      after := S.ApplyOp(after, ops[i]);
    }
    assert ops[..|ops|] == ops;
  }

  class RuntimeService {
    const hash: Hash
    var worlds: map<u64, S.View>
    var wal: seq<G.Call>

    function Value(): G.Kernel
      reads this
    {
      G.Kernel(worlds, wal)
    }

    /** A kernel with these instances live and nothing submitted yet. */
    constructor (hash: Hash, instances: set<u64>)
      ensures this.hash == hash && G.Started(Value()) && worlds.Keys == instances
    {
      this.hash := hash;
      this.worlds := map i | i in instances :: map[];
      this.wal := [];
    }

    /** The admission gate runs first and touches nothing; then submit, then step. */
    method Dispatch(call: G.Call) returns (r: Result<(), G.DispatchError>)
      modifies this
      ensures (Value(), r) == G.Dispatch(hash, old(Value()), call)
    {
      if call.actor.Some? {
        if call.instance !in worlds {
          return Err(G.InstanceNotFound);
        }
        var probe := new ActionContext(hash, call.instance, call.at, None, Some(worlds[call.instance]), {}, {});
        var eligible := probe.EnsureActorEligible(call.actor.value, call.at);
        if eligible.Err? {
          match eligible.error {
            case UserErasurePending(user, _) => return Err(G.GateErasurePending(user, call.at));
            case UserLifecycleUnresolved(user) => return Err(G.UnboundUserLifecycle(user));
            case _ => return Err(G.ProbeViewCorrupt);
          }
        }
      }
      if call.instance !in worlds {
        return Err(G.InstanceNotFound);
      }
      wal := wal + [call];
      var ops := KernelCompute(hash, call);
      var after := Commit(worlds[call.instance], ops);
      worlds := S.With<u64, S.View>(worlds, call.instance, after);
      r := Ok(());
    }
  }
}
