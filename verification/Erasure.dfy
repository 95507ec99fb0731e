/**
 The key shredder, the row store and the cascade observer of
 arkhe-forge-platform/src/crypto_erasure.rs as objects proved against `ErasureSpec`.
 */
module Erasure {
  import opened Bytes
  import opened Types
  import opened EntityIds
  import S = ErasureSpec

  class InMemoryDekShredder {
    const digest: S.Digest
    var live: set<S.DekId>
    var shredded: map<S.DekId, S.Attestation>
    var nextLogIndex: u64

    function Value(): S.Shredder
      reads this
    {
      S.Shredder(live, shredded, nextLogIndex)
    }

    constructor (digest: S.Digest)
      ensures Value() == S.Shredder({}, map[], 0) && this.digest == digest
    {
      this.digest, live, shredded, nextLogIndex := digest, {}, map[], 0;
    }

    method Register(dek: S.DekId)
      modifies this
      ensures Value() == S.RegisterDek(old(Value()), dek)
    {
      live := live + {dek};
    }

    method IssueAttestation(dek: S.DekId) returns (r: Result<S.Attestation, S.ShredError>)
      modifies this`nextLogIndex
      ensures (Value(), r) == S.IssueAttestation(old(Value()), digest, dek)
    {
      var logIndex := nextLogIndex;
      if nextLogIndex == U64_MAX {
        return Err(S.Backend("DEK shred log index overflow"));
      }
      nextLogIndex := nextLogIndex + 1;
      r := Ok(S.Attestation(digest(dek, logIndex), Some(logIndex)));
    }

    method Shred(dek: S.DekId) returns (r: Result<S.Attestation, S.ShredError>)
      modifies this
      ensures (Value(), r) == S.Shred(old(Value()), digest, dek)
    {
      if dek in shredded {
        return Ok(shredded[dek]);
      }
      if dek !in live {
        return Err(S.UnknownDek);
      }
      live := live - {dek};
      r := IssueAttestation(dek);
      if r.Ok? {
        shredded := shredded[dek := r.value];
      }
    }

    /** The trait's default method, behind a connection that may fail first. */
    method ShredWithRegions(dek: S.DekId, tick: u64, outage: Option<S.ShredError>)
      returns (r: Result<(S.Attestation, seq<S.Region>), S.ShredError>)
      modifies this
      ensures (Value(), r) == S.ShredWithRegions(old(Value()), digest, dek, tick, outage)
    {
      if outage.Some? {
        return Err(outage.value);
      }
      var overall := Shred(dek);
      if overall.Err? {
        return Err(overall.error);
      }
      r := Ok((overall.value, [S.Region("default-region", tick, overall.value.bytes)]));
    }
  }

  class InMemoryPiiRowStore {
    var users: map<EntityId, S.UserRows>
    var tombstoned: set<EntityId>

    function Value(): S.RowStore
      reads this
    {
      S.RowStore(users, tombstoned)
    }

    constructor ()
      ensures Value() == S.RowStore(map[], {})
    {
      users, tombstoned := map[], {};
    }

    method Upsert(user: EntityId, rows: seq<u64>, dek: S.DekId)
      modifies this
      ensures Value() == S.Upsert(old(Value()), user, rows, dek)
    {
      users := users[user := S.UserRows(rows, Some(dek))];
    }

    method RowsFor(user: EntityId) returns (rows: S.UserRows)
      ensures rows == S.RowsFor(Value(), user)
    {
      rows := if user in users then users[user] else S.UserRows([], None);
    }

    method Tombstone(user: EntityId, outage: Option<string>) returns (r: Result<(), S.ProjectionError>)
      modifies this
      ensures if outage.Some? then Value() == old(Value()) && r == Err(S.Storage(outage.value))
              else Value() == S.Tombstone(old(Value()), user) && r == Ok(())
    {
      if outage.Some? {
        return Err(S.Storage(outage.value));
      }
      users := users - {user};
      tombstoned := tombstoned + {user};
      r := Ok(());
    }
  }

  class ErasureCascadeObserver {
    const rows: InMemoryPiiRowStore
    const shredder: InMemoryDekShredder
    var completions: seq<S.Completion>
    var cursor: Option<(u64, u64)>
    ghost var held: seq<(EntityId, Option<S.DekId>)>

    ghost function Value(): S.Cascade
      reads this, rows, shredder
    {
      S.Cascade(rows.Value(), shredder.Value(), completions, cursor, held)
    }

    constructor (rows: InMemoryPiiRowStore, shredder: InMemoryDekShredder)
      ensures this.rows == rows && this.shredder == shredder
      ensures Value() == S.Cascade(rows.Value(), shredder.Value(), [], None, [])
    {
      this.rows, this.shredder, completions, cursor, held := rows, shredder, [], None, [];
    }

    method DrainCompletions() returns (drained: seq<S.Completion>)
      modifies this`completions
      ensures drained == old(completions) && completions == []
      ensures Value() == S.Next(old(Value()), shredder.digest, S.Drain)
    {
      drained, completions := completions, [];
    }

    method OnEvent(e: S.Event, tick: u64, outage: S.Outage) returns (r: Result<(), S.ProjectionError>)
      modifies this, rows, shredder
      ensures (Value(), r) == S.OnEvent(old(Value()), shredder.digest, e, tick, outage)
    {
      if e.user.None? {
        return Err(S.DecodeFailed);
      }
      var user := e.user.value;
      var found := rows.RowsFor(user);
      var count := |found.rows|;
      var result: Result<(S.Attestation, seq<S.Region>), S.ShredError> := Ok((S.Attestation([], None), []));
      if found.dekId.Some? {
        result := shredder.ShredWithRegions(found.dekId.value, tick, outage.shred);
      }
      if result.Err? {
        return Err(S.Describe(result.error));
      }
      r := rows.Tombstone(user, outage.tombstone);
      if r.Err? {
        return;
      }
      completions := completions + [S.Completion(user, tick, count, result.value.0, result.value.1)];
      cursor := Some((e.sequence, e.tick));
      held := held + [(user, found.dekId)];
    }
  }
}
