/**
 Entity ids, arkhe-forge-core/src/lib.rs: a keyed hash of the spawning coordinates, retried in a
 domain of its own while it comes out as zero. The hash, truncated to 64 bits, is a parameter.
 */
module EntityIds {
  import opened Bytes
  import opened Types

  type EntityId = n: u64 | n != 0 witness 1

  /** The keyed hash of one message, first eight bytes read as a number. */
  type Hash = seq<byte> -> u64

  const MAX_ID_DERIVE_RETRIES: nat := 16

  /** Where and when an id is derived. */
  datatype Coordinates = Coordinates(instance: u64, typeCode: u32, tick: u64, idSeq: u32)

  /** The 28 hashed bytes: instance, type code, tick, sequence, retry number. */
  function Message(c: Coordinates, bump: nat): (m: seq<byte>)
    requires bump < MAX_ID_DERIVE_RETRIES
    ensures |m| == 28
  {
    U64Bytes(c.instance) + (U32Bytes(c.typeCode) + (U64Bytes(c.tick) + (U32Bytes(c.idSeq) + U32Bytes(bump))))
  }

  /** Where the coordinates lie, each highest byte first. */
  lemma MessageLayout(c: Coordinates, bump: nat)
    requires bump < MAX_ID_DERIVE_RETRIES
    ensures var m := Message(c, bump);
            && BeWord(m[0..8]) == c.instance && BeWord(m[8..12]) == c.typeCode && BeWord(m[12..20]) == c.tick
            && BeWord(m[20..24]) == c.idSeq && BeWord(m[24..28]) == bump
  {
    var m := Message(c, bump);
    assert m[0..8] == U64Bytes(c.instance) && m[8..12] == U32Bytes(c.typeCode) && m[12..20] == U64Bytes(c.tick);
    assert m[20..24] == U32Bytes(c.idSeq) && m[24..28] == U32Bytes(bump);
  }

  /** The first non-zero hash from retry `bump` on. */
  function DeriveFrom(h: Hash, c: Coordinates, bump: nat): Option<EntityId>
    requires bump <= MAX_ID_DERIVE_RETRIES
    decreases MAX_ID_DERIVE_RETRIES - bump
  {
    if bump == MAX_ID_DERIVE_RETRIES then None
    else if h(Message(c, bump)) != 0 then Some(h(Message(c, bump)))
    else DeriveFrom(h, c, bump + 1)
  }

  function Derive(h: Hash, c: Coordinates): Option<EntityId> {
    DeriveFrom(h, c, 0)
  }

  /** `derive_entity_id`: one bounded retry loop. */
  method DeriveEntityId(h: Hash, c: Coordinates) returns (id: Option<EntityId>)
    ensures id == Derive(h, c)
  {
    for bump := 0 to MAX_ID_DERIVE_RETRIES
      invariant DeriveFrom(h, c, bump) == Derive(h, c)
    {
      var raw := h(Message(c, bump));
      if raw != 0 {
        return Some(raw);
      }
    }
    id := None;
  }

  /** Derivation gives up exactly when every retry hashes to zero. */
  lemma {:induction false} DerivationExhausts(h: Hash, c: Coordinates, bump: nat)
    requires bump <= MAX_ID_DERIVE_RETRIES
    ensures DeriveFrom(h, c, bump) == None
       <==> forall b :: bump <= b < MAX_ID_DERIVE_RETRIES ==> h(Message(c, b)) == 0
    decreases MAX_ID_DERIVE_RETRIES - bump
  {
    if bump < MAX_ID_DERIVE_RETRIES {
      DerivationExhausts(h, c, bump + 1);
    }
  }

  lemma {:induction false} DeriveSkipsZeros(h: Hash, c: Coordinates, from: nat, bump: nat)
    requires from <= bump < MAX_ID_DERIVE_RETRIES && h(Message(c, bump)) != 0
    requires forall b :: from <= b < bump ==> h(Message(c, b)) == 0
    ensures DeriveFrom(h, c, from) == Some(h(Message(c, bump)))
    decreases bump - from
  {
    if from < bump {
      DeriveSkipsZeros(h, c, from + 1, bump);
    }
  }

  /** The id is the first of the 16 hashes that is not zero; there is none when all are zero. */
  lemma DeriveIsFirstNonZero(h: Hash, c: Coordinates, bump: nat)
    requires bump < 16
    ensures h(Message(c, bump)) != 0 && (forall b :: 0 <= b < bump ==> h(Message(c, b)) == 0) ==>
              Derive(h, c) == Some(h(Message(c, bump)))
    ensures Derive(h, c) == None <==> forall b :: 0 <= b < 16 ==> h(Message(c, b)) == 0
  {
    DerivationExhausts(h, c, 0);
    if h(Message(c, bump)) != 0 && (forall b :: 0 <= b < bump ==> h(Message(c, b)) == 0) {
      DeriveSkipsZeros(h, c, 0, bump);
    }
  }

  // ------------------------------------------------------------------ distinct ids

  /** Derivation gets as far as hashing this retry: all earlier ones came out as zero. */
  ghost predicate Hashed(h: Hash, c: Coordinates, bump: nat) {
    bump < MAX_ID_DERIVE_RETRIES && forall b :: 0 <= b < bump ==> h(Message(c, b)) == 0
  }

  /** No two different messages that these two derivations hash share a non-zero truncated hash. */
  ghost predicate NoCollision(h: Hash, c: Coordinates, d: Coordinates) {
    forall b, e :: Hashed(h, c, b) && Hashed(h, d, e) && h(Message(c, b)) == h(Message(d, e)) != 0 ==>
      Message(c, b) == Message(d, e)
  }

  /** The fixed layout keeps every coordinate apart, the retry number included. */
  lemma MessageInjective(c: Coordinates, b: nat, d: Coordinates, e: nat)
    requires b < MAX_ID_DERIVE_RETRIES && e < MAX_ID_DERIVE_RETRIES
    requires Message(c, b) == Message(d, e)
    ensures c == d && b == e
  {
    SameParts(U64Bytes(c.instance), U32Bytes(c.typeCode) + (U64Bytes(c.tick) + (U32Bytes(c.idSeq) + U32Bytes(b))),
              U64Bytes(d.instance), U32Bytes(d.typeCode) + (U64Bytes(d.tick) + (U32Bytes(d.idSeq) + U32Bytes(e))));
    SameParts(U32Bytes(c.typeCode), U64Bytes(c.tick) + (U32Bytes(c.idSeq) + U32Bytes(b)),
              U32Bytes(d.typeCode), U64Bytes(d.tick) + (U32Bytes(d.idSeq) + U32Bytes(e)));
    SameParts(U64Bytes(c.tick), U32Bytes(c.idSeq) + U32Bytes(b), U64Bytes(d.tick), U32Bytes(d.idSeq) + U32Bytes(e));
    SameParts(U32Bytes(c.idSeq), U32Bytes(b), U32Bytes(d.idSeq), U32Bytes(e));
  }

  lemma {:induction false} DerivedFromSome(h: Hash, c: Coordinates, bump: nat) returns (b: nat)
    requires Hashed(h, c, bump) && DeriveFrom(h, c, bump).Some?
    ensures Hashed(h, c, b) && h(Message(c, b)) == DeriveFrom(h, c, bump).value
    decreases MAX_ID_DERIVE_RETRIES - bump
  {
    b := bump;
    if h(Message(c, bump)) == 0 {
      assert bump + 1 < MAX_ID_DERIVE_RETRIES;
      b := DerivedFromSome(h, c, bump + 1);
    }
  }

  /** Equal ids come from equal coordinates, retries included, exactly when the hashed messages do not collide. */
  lemma IdsAreDistinct(h: Hash, c: Coordinates, d: Coordinates)
    requires Derive(h, c).Some? && Derive(h, c) == Derive(h, d)
    ensures c == d <==> NoCollision(h, c, d)
  {
    var b := DerivedFromSome(h, c, 0);
    var e := DerivedFromSome(h, d, 0);
    if NoCollision(h, c, d) {
      MessageInjective(c, b, d, e);
    }
    if c == d {
      forall i, j | Hashed(h, c, i) && Hashed(h, d, j) && h(Message(c, i)) == h(Message(d, j)) != 0
        ensures Message(c, i) == Message(d, j)
      {
        assert i <= j && j <= i;
      }
    }
  }

  // ------------------------------------------------------------------ the ids of a run

  /** Two derivations for one instance start from different coordinates and do not collide. */
  ghost predicate Apart(h: Hash, c: Coordinates, d: Coordinates) {
    c.instance == d.instance ==> c != d && NoCollision(h, c, d)
  }

  /** So do any two submissions of a run, each given by where it derives an id, if it derives one. */
  ghost predicate StayApart(h: Hash, origins: seq<Option<Coordinates>>) {
    forall i, j :: 0 <= i < j < |origins| && origins[i].Some? && origins[j].Some? ==>
      Apart(h, origins[i].value, origins[j].value)
  }

  ghost predicate Derives(h: Hash, origin: Option<Coordinates>, instance: u64, id: EntityId) {
    origin.Some? && origin.value.instance == instance && Derive(h, origin.value) == Some(id)
  }

  /** Some submission of the run derives this id for the instance. */
  ghost predicate Derived(h: Hash, origins: seq<Option<Coordinates>>, instance: u64, id: EntityId) {
    exists i :: 0 <= i < |origins| && Derives(h, origins[i], instance, id)
  }

  lemma DerivedGrows(h: Hash, origins: seq<Option<Coordinates>>, origin: Option<Coordinates>, instance: u64,
                     id: EntityId)
    ensures Derived(h, origins + [origin], instance, id)
       <==> Derived(h, origins, instance, id) || Derives(h, origin, instance, id)
  {
    var all := origins + [origin];
    if Derived(h, origins, instance, id) {
      var i :| 0 <= i < |origins| && Derives(h, origins[i], instance, id);
      assert Derives(h, all[i], instance, id);
    }
    if Derives(h, origin, instance, id) {
      assert Derives(h, all[|origins|], instance, id);
    }
  }

  /** The id of a submission that stays apart from all before it is new. */
  lemma NextIdIsFresh(h: Hash, origins: seq<Option<Coordinates>>, origin: Option<Coordinates>, instance: u64,
                      id: EntityId)
    requires StayApart(h, origins + [origin]) && Derives(h, origin, instance, id)
    ensures !Derived(h, origins, instance, id)
  {
    if Derived(h, origins, instance, id) {
      var i :| 0 <= i < |origins| && Derives(h, origins[i], instance, id);
      var all := origins + [origin];
      assert all[i] == origins[i] && all[|origins|] == origin;
      assert Apart(h, all[i].value, all[|origins|].value);
      IdsAreDistinct(h, origins[i].value, origin.value);
      assert false;
    }
  }

  lemma PrefixStaysApart(h: Hash, origins: seq<Option<Coordinates>>, all: seq<Option<Coordinates>>)
    requires origins <= all && StayApart(h, all)
    ensures StayApart(h, origins)
  {
    forall i, j | 0 <= i < j < |origins| && origins[i].Some? && origins[j].Some?
      ensures Apart(h, origins[i].value, origins[j].value)
    {
      assert all[i] == origins[i] && all[j] == origins[j];
    }
  }
}
