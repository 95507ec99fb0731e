/**
 The chain-signed journal of consumed tokens, arkhe-forge-platform/src/hf2_kms/journal.rs. The
 chain hash and the signature scheme are parameters.
 */
module Journal {
  import opened Bytes
  import opened Types

  type Bytes32 = s: seq<byte> | |s| == 32 witness seq(32, _ => 0)
  type Bytes8 = s: seq<byte> | |s| == 8 witness seq(8, _ => 0)
  type Payload = s: seq<byte> | |s| == 80 witness seq(80, _ => 0)

  function Zeros(n: nat): (s: seq<byte>)
    ensures |s| == n
  {
    if n == 0 then [] else [0] + Zeros(n - 1)
  }

  const GENESIS_PREV_HASH: Bytes32 := Zeros(32)

  datatype ConsumedToken = ConsumedToken(tokenHash: Bytes32, fingerprint: Bytes8, tick: u64)

  datatype JournalEntry = JournalEntry(token: ConsumedToken, prevHash: Bytes32, entryHash: Bytes32,
                                       signature: seq<byte>, signer: Bytes32)

  /** The domain-separated hash, key decoding and signature verification. */
  datatype Scheme = Scheme(hash: Payload -> Bytes32, decodes: Bytes32 -> bool,
                           verifies: (Bytes32, Bytes32, seq<byte>) -> bool)

  datatype JournalSigner = JournalSigner(publicKey: Bytes32, sign: Bytes32 -> seq<byte>)

  /** Its public key decodes and accepts everything it signs. */
  ghost predicate Signs(c: Scheme, signer: JournalSigner) {
    c.decodes(signer.publicKey) && forall m :: c.verifies(signer.publicKey, m, signer.sign(m))
  }

  datatype JournalError =
    | DuplicateToken
    | ChainIntegrity(index: nat)
    | SignatureInvalid(index: nat)
    | SignerKeyMismatch(index: nat)
    | TipMismatch
    | LengthMismatch(expected: nat, actual: nat)

  // ------------------------------------------------------------------ entries

  /** The 80 hashed bytes. */
  function EntryPayload(prev: Bytes32, token: ConsumedToken): Payload {
    prev + (token.tokenHash + (token.fingerprint + U64Bytes(token.tick)))
  }

  function EntryHash(c: Scheme, prev: Bytes32, token: ConsumedToken): Bytes32 {
    c.hash(EntryPayload(prev, token))
  }

  /** Where the fields lie: the previous hash, the token hash, the fingerprint, the tick highest byte first. */
  lemma PayloadLayout(prev: Bytes32, token: ConsumedToken)
    ensures var p := EntryPayload(prev, token);
            && p[0..32] == prev && p[32..64] == token.tokenHash && p[64..72] == token.fingerprint
            && BeWord(p[72..80]) == token.tick
  {
    var p := EntryPayload(prev, token);
    assert p[72..80] == U64Bytes(token.tick);
  }

  lemma PayloadInjective(p: Bytes32, t: ConsumedToken, q: Bytes32, u: ConsumedToken)
    requires EntryPayload(p, t) == EntryPayload(q, u)
    ensures p == q && t == u
  {
    SameParts(p, t.tokenHash + (t.fingerprint + U64Bytes(t.tick)), q, u.tokenHash + (u.fingerprint + U64Bytes(u.tick)));
    SameParts(t.tokenHash, t.fingerprint + U64Bytes(t.tick), u.tokenHash, u.fingerprint + U64Bytes(u.tick));
    SameParts(t.fingerprint, U64Bytes(t.tick), u.fingerprint, U64Bytes(u.tick));
  }

  function TipHash(es: seq<JournalEntry>): Bytes32 {
    if es == [] then GENESIS_PREV_HASH else es[|es| - 1].entryHash
  }

  // ------------------------------------------------------------------ verification

  /** The hash entry i must follow: the genesis value or its predecessor's. */
  function PrevOf(es: seq<JournalEntry>, i: nat): Bytes32
    requires i <= |es|
  {
    if i == 0 then GENESIS_PREV_HASH else es[i - 1].entryHash
  }

  /** The entry follows this hash, and its own hash is that of its 80 bytes. */
  predicate Chained(c: Scheme, e: JournalEntry, prev: Bytes32) {
    e.prevHash == prev && e.entryHash == c.hash(EntryPayload(prev, e.token))
  }

  /** Its key decodes and verifies the signature over its hash. */
  predicate Signed(c: Scheme, e: JournalEntry) {
    c.decodes(e.signer) && c.verifies(e.signer, e.entryHash, e.signature)
  }

  /** Entry i is chained to the one before it, hashes right, and is signed under its own key. */
  predicate Sound(c: Scheme, es: seq<JournalEntry>, i: nat)
    requires i < |es|
  {
    Chained(c, es[i], PrevOf(es, i)) && Signed(c, es[i])
  }

  ghost predicate AllSound(c: Scheme, es: seq<JournalEntry>) {
    forall i :: 0 <= i < |es| ==> Sound(c, es, i)
  }

  /** The error is that of an entry whose predecessors are all sound: of its chaining first, of its signature else. */
  ghost predicate IsFirstUnsound(c: Scheme, es: seq<JournalEntry>, e: JournalError) {
    && (e.ChainIntegrity? || e.SignatureInvalid?) && e.index < |es|
    && (forall i :: 0 <= i < e.index ==> Sound(c, es, i))
    && (e.ChainIntegrity? <==> !Chained(c, es[e.index], PrevOf(es, e.index)))
    && (e.SignatureInvalid? ==> !Signed(c, es[e.index]))
  }

  /** The loop body of `verify_chain`: link, hash, key and signature of one entry. */
  method VerifyEntry(c: Scheme, e: JournalEntry, expectedPrev: Bytes32, idx: nat) returns (r: Result<(), JournalError>)
    ensures r.Ok? <==> && e.prevHash == expectedPrev && e.entryHash == c.hash(EntryPayload(e.prevHash, e.token))
                       && c.decodes(e.signer) && c.verifies(e.signer, e.entryHash, e.signature)
    ensures r.Err? ==> r.error == if Chained(c, e, expectedPrev) then SignatureInvalid(idx) else ChainIntegrity(idx)
  {
    if e.prevHash != expectedPrev {
      return Err(ChainIntegrity(idx));
    }
    var recomputed := EntryHash(c, e.prevHash, e.token);
    if recomputed != e.entryHash {
      return Err(ChainIntegrity(idx));
    }
    if !c.decodes(e.signer) {
      return Err(SignatureInvalid(idx));
    }
    r := if c.verifies(e.signer, e.entryHash, e.signature) then Ok(()) else Err(SignatureInvalid(idx));
  }

  /** The loop of `verify_chain`. */
  method VerifyEntries(c: Scheme, es: seq<JournalEntry>) returns (r: Result<(), JournalError>)
    ensures r.Ok? <==> AllSound(c, es)
    ensures r.Err? ==> IsFirstUnsound(c, es, r.error)
  {
    var expectedPrev := GENESIS_PREV_HASH;
    for idx := 0 to |es|
      invariant expectedPrev == PrevOf(es, idx)
      invariant forall i :: 0 <= i < idx ==> Sound(c, es, i)
    {
      r := VerifyEntry(c, es[idx], expectedPrev, idx);
      if r.Err? {
        assert !Sound(c, es, idx);
        return;
      }
      expectedPrev := es[idx].entryHash;
    }
    r := Ok(());
  }

  /** `verify_chain`: the first entry that is not sound decides. */
  method VerifyChain(c: Scheme, es: seq<JournalEntry>) returns (r: Result<(), JournalError>)
    ensures r.Ok? <==>
      forall i :: 0 <= i < |es| ==>
        && es[i].prevHash == (if i == 0 then GENESIS_PREV_HASH else es[i - 1].entryHash)
        && es[i].entryHash == c.hash(EntryPayload(es[i].prevHash, es[i].token))
        && c.decodes(es[i].signer) && c.verifies(es[i].signer, es[i].entryHash, es[i].signature)
    ensures r.Ok? <==> AllSound(c, es)
    ensures r.Err? ==> IsFirstUnsound(c, es, r.error)
  {
    r := VerifyEntries(c, es);
    SoundIsExplicit(c, es);
  }

  lemma SoundIsExplicit(c: Scheme, es: seq<JournalEntry>)
    ensures AllSound(c, es) <==>
      forall i :: 0 <= i < |es| ==>
        && es[i].prevHash == (if i == 0 then GENESIS_PREV_HASH else es[i - 1].entryHash)
        && es[i].entryHash == c.hash(EntryPayload(es[i].prevHash, es[i].token))
        && c.decodes(es[i].signer) && c.verifies(es[i].signer, es[i].entryHash, es[i].signature)
  {
    if AllSound(c, es) {
      forall i | 0 <= i < |es|
        ensures && es[i].prevHash == (if i == 0 then GENESIS_PREV_HASH else es[i - 1].entryHash)
                && es[i].entryHash == c.hash(EntryPayload(es[i].prevHash, es[i].token))
                && c.decodes(es[i].signer) && c.verifies(es[i].signer, es[i].entryHash, es[i].signature)
      {
        assert Sound(c, es, i);
      }
    }
  }

  /** What the anchored check accepts. */
  ghost predicate Anchored(c: Scheme, es: seq<JournalEntry>, key: Bytes32, tip: Bytes32, len: nat) {
    && |es| == len
    && AllSound(c, es)
    && (forall i :: 0 <= i < |es| ==> es[i].signer == key)
    && TipHash(es) == tip
  }

  lemma AnchoredIsExplicit(c: Scheme, es: seq<JournalEntry>, key: Bytes32, tip: Bytes32, len: nat)
    ensures Anchored(c, es, key, tip, len) <==>
      && |es| == len && tip == (if es == [] then GENESIS_PREV_HASH else es[|es| - 1].entryHash)
      && forall i :: 0 <= i < |es| ==>
           && es[i].prevHash == (if i == 0 then GENESIS_PREV_HASH else es[i - 1].entryHash)
           && es[i].entryHash == c.hash(EntryPayload(es[i].prevHash, es[i].token))
           && es[i].signer == key
           && c.decodes(es[i].signer) && c.verifies(es[i].signer, es[i].entryHash, es[i].signature)
  {
    SoundIsExplicit(c, es);
  }

  /** Every entry must be signed by the trusted key. */
  method VerifySigners(es: seq<JournalEntry>, key: Bytes32) returns (r: Result<(), JournalError>)
    ensures r.Ok? <==> forall i :: 0 <= i < |es| ==> es[i].signer == key
    ensures r.Err? ==> && r.error.SignerKeyMismatch? && r.error.index < |es| && es[r.error.index].signer != key
                       && forall i :: 0 <= i < r.error.index ==> es[i].signer == key
  {
    for idx := 0 to |es|
      invariant forall i :: 0 <= i < idx ==> es[i].signer == key
    {
      if es[idx].signer != key {
        return Err(SignerKeyMismatch(idx));
      }
    }
    r := Ok(());
  }

  /** `verify_chain_anchored`: length, chain, signer, tip, in this order. */
  method VerifyChainAnchored(c: Scheme, es: seq<JournalEntry>, key: Bytes32, tip: Bytes32, len: nat)
    returns (r: Result<(), JournalError>)
    ensures r.Ok? <==>
      && |es| == len && tip == (if es == [] then GENESIS_PREV_HASH else es[|es| - 1].entryHash)
      && forall i :: 0 <= i < |es| ==>
           && es[i].prevHash == (if i == 0 then GENESIS_PREV_HASH else es[i - 1].entryHash)
           && es[i].entryHash == c.hash(EntryPayload(es[i].prevHash, es[i].token))
           && es[i].signer == key
           && c.decodes(es[i].signer) && c.verifies(es[i].signer, es[i].entryHash, es[i].signature)
    ensures r.Ok? <==> Anchored(c, es, key, tip, len)
    ensures r == Err(LengthMismatch(len, |es|)) <==> |es| != len
    ensures |es| == len && !AllSound(c, es) ==> r.Err? && IsFirstUnsound(c, es, r.error)
    ensures |es| == len && AllSound(c, es) && (exists i :: 0 <= i < |es| && es[i].signer != key) ==>
              && r.Err? && r.error.SignerKeyMismatch? && r.error.index < |es| && es[r.error.index].signer != key
              && forall i :: 0 <= i < r.error.index ==> es[i].signer == key
    ensures |es| == len && AllSound(c, es) && TipHash(es) != tip && (forall i :: 0 <= i < |es| ==> es[i].signer == key)
            ==> r == Err(TipMismatch)
  {
    AnchoredIsExplicit(c, es, key, tip, len);
    if |es| != len {
      return Err(LengthMismatch(len, |es|));
    }
    r := VerifyChain(c, es);
    if r.Err? {
      return;
    }
    r := VerifySigners(es, key);
    if r.Err? {
      return;
    }
    r := if TipHash(es) == tip then Ok(()) else Err(TipMismatch);
  }

  // ------------------------------------------------------------------ the tip pins the history

  lemma SoundPrefix(c: Scheme, es: seq<JournalEntry>)
    requires es != [] && AllSound(c, es)
    ensures AllSound(c, es[..|es| - 1])
    ensures es[|es| - 1].prevHash == TipHash(es[..|es| - 1])
    ensures es[|es| - 1].entryHash == EntryHash(c, es[|es| - 1].prevHash, es[|es| - 1].token)
  {
    var front := es[..|es| - 1];
    forall i | 0 <= i < |front|
      ensures Sound(c, front, i)
    {
      assert Sound(c, es, i) && PrevOf(front, i) == PrevOf(es, i);
    }
    assert Sound(c, es, |es| - 1);
  }

  /** The two entries hash different payloads to the same value. */
  predicate Collide(c: Scheme, e: JournalEntry, f: JournalEntry) {
    && EntryPayload(e.prevHash, e.token) != EntryPayload(f.prevHash, f.token)
    && EntryHash(c, e.prevHash, e.token) == EntryHash(c, f.prevHash, f.token)
  }

  /** The entries hold the same token behind the same link. */
  predicate SameRecord(e: JournalEntry, f: JournalEntry) {
    e.token == f.token && e.prevHash == f.prevHash && e.entryHash == f.entryHash
  }

  /** Sound entries with the same hash hold the same record unless their payloads collide. */
  lemma HashPinsRecord(c: Scheme, e: JournalEntry, f: JournalEntry)
    requires e.entryHash == EntryHash(c, e.prevHash, e.token) && f.entryHash == EntryHash(c, f.prevHash, f.token)
    requires e.entryHash == f.entryHash
    ensures SameRecord(e, f) <==> !Collide(c, e, f)
  {
    if !Collide(c, e, f) {
      PayloadInjective(e.prevHash, e.token, f.prevHash, f.token);
    }
  }

  /** Two sound chains with the same tip and length, without a collision at any position. */
  lemma {:induction false} TipPinsRecord(c: Scheme, es: seq<JournalEntry>, fs: seq<JournalEntry>, k: nat)
    requires AllSound(c, es) && AllSound(c, fs) && |es| == |fs| && TipHash(es) == TipHash(fs) && k < |es|
    requires forall i :: 0 <= i < |es| ==> !Collide(c, es[i], fs[i])
    ensures SameRecord(es[k], fs[k])
    decreases |es|
  {
    var n := |es| - 1;
    SoundPrefix(c, es);
    SoundPrefix(c, fs);
    HashPinsRecord(c, es[n], fs[n]);
    if k < n {
      TipPinsRecord(c, es[..n], fs[..n], k);
    }
  }

  /**
   Two sound chains with the same tip and length hold the same tokens and links at every position
   exactly when no two payloads at the same position collide.
   */
  lemma TipPinsHistory(c: Scheme, es: seq<JournalEntry>, fs: seq<JournalEntry>)
    requires AllSound(c, es) && AllSound(c, fs) && |es| == |fs| && TipHash(es) == TipHash(fs)
    ensures (forall k :: 0 <= k < |es| ==> SameRecord(es[k], fs[k]))
       <==> (forall k :: 0 <= k < |es| ==> !Collide(c, es[k], fs[k]))
  {
    if forall k :: 0 <= k < |es| ==> !Collide(c, es[k], fs[k]) {
      forall k | 0 <= k < |es|
        ensures SameRecord(es[k], fs[k])
      {
        TipPinsRecord(c, es, fs, k);
      }
    }
    if forall k :: 0 <= k < |es| ==> SameRecord(es[k], fs[k]) {
      forall k | 0 <= k < |es|
        ensures !Collide(c, es[k], fs[k])
      {
        assert SameRecord(es[k], fs[k]);
      }
    }
  }

  /** So it is for journals accepted by the anchored check under one tip and length, whoever signed them. */
  lemma AnchorsPinHistory(c: Scheme, es: seq<JournalEntry>, fs: seq<JournalEntry>, key: Bytes32, other: Bytes32,
                          tip: Bytes32, len: nat)
    requires Anchored(c, es, key, tip, len) && Anchored(c, fs, other, tip, len)
    ensures |es| == |fs| == len
    ensures (forall k :: 0 <= k < len ==> SameRecord(es[k], fs[k]))
       <==> (forall k :: 0 <= k < len ==> !Collide(c, es[k], fs[k]))
  {
    TipPinsHistory(c, es, fs);
  }

  /** The last entries, then those before them: none collide, and where one log ends the other does not
      go on from an entry that hashes to the genesis value. */
  predicate ApartFromTip(c: Scheme, es: seq<JournalEntry>, fs: seq<JournalEntry>) {
    if es == [] then fs == [] || TipHash(fs) != GENESIS_PREV_HASH
    else if fs == [] then TipHash(es) != GENESIS_PREV_HASH
    else !Collide(c, es[|es| - 1], fs[|fs| - 1]) && ApartFromTip(c, es[..|es| - 1], fs[..|fs| - 1])
  }

  ghost predicate SameHistory(es: seq<JournalEntry>, fs: seq<JournalEntry>) {
    |es| == |fs| && forall k :: 0 <= k < |es| ==> SameRecord(es[k], fs[k])
  }

  lemma SameHistoryStep(es: seq<JournalEntry>, fs: seq<JournalEntry>)
    requires es != [] && fs != []
    ensures SameHistory(es, fs)
       <==> SameRecord(es[|es| - 1], fs[|fs| - 1]) && SameHistory(es[..|es| - 1], fs[..|fs| - 1])
  {
    var m, n := |es| - 1, |fs| - 1;
    if SameHistory(es, fs) {
      assert forall k :: 0 <= k < m ==> es[..m][k] == es[k] && fs[..n][k] == fs[k];
    }
    if SameRecord(es[m], fs[n]) && SameHistory(es[..m], fs[..n]) {
      forall k | 0 <= k < |es|
        ensures SameRecord(es[k], fs[k])
      {
        assert k < m ==> SameRecord(es[..m][k], fs[..n][k]);
      }
    }
  }

  /** Sound chains with the same tip have one history, its length included, exactly when they are apart. */
  lemma {:induction false} TipPinsLength(c: Scheme, es: seq<JournalEntry>, fs: seq<JournalEntry>)
    requires AllSound(c, es) && AllSound(c, fs) && TipHash(es) == TipHash(fs)
    ensures SameHistory(es, fs) <==> ApartFromTip(c, es, fs)
    decreases |es|
  {
    if es != [] && fs != [] {
      var m, n := |es| - 1, |fs| - 1;
      SoundPrefix(c, es);
      SoundPrefix(c, fs);
      HashPinsRecord(c, es[m], fs[n]);
      SameHistoryStep(es, fs);
      if SameRecord(es[m], fs[n]) {
        TipPinsLength(c, es[..m], fs[..n]);
      }
    }
  }

  // ------------------------------------------------------------------ appending

  function HashesOf(es: seq<JournalEntry>): set<Bytes32> {
    set i | 0 <= i < |es| :: es[i].token.tokenHash
  }

  function TokenHashes(tokens: seq<ConsumedToken>): set<Bytes32> {
    if tokens == [] then {} else TokenHashes(tokens[..|tokens| - 1]) + {tokens[|tokens| - 1].tokenHash}
  }

  ghost predicate Distinct(es: seq<JournalEntry>) {
    forall i, j :: 0 <= i < j < |es| ==> es[i].token.tokenHash != es[j].token.tokenHash
  }

  /** The entry an append would add. */
  function NextEntry(c: Scheme, es: seq<JournalEntry>, token: ConsumedToken, signer: JournalSigner): JournalEntry {
    var hash := EntryHash(c, TipHash(es), token);
    JournalEntry(token, TipHash(es), hash, signer.sign(hash), signer.publicKey)
  }

  /** A token already consumed is refused. */
  function AppendOne(c: Scheme, es: seq<JournalEntry>, token: ConsumedToken, signer: JournalSigner): seq<JournalEntry> {
    if token.tokenHash in HashesOf(es) then es else es + [NextEntry(c, es, token, signer)]
  }

  function Appended(c: Scheme, tokens: seq<ConsumedToken>, signer: JournalSigner): seq<JournalEntry> {
    if tokens == [] then []
    else AppendOne(c, Appended(c, tokens[..|tokens| - 1], signer), tokens[|tokens| - 1], signer)
  }

  lemma NextIsSound(c: Scheme, es: seq<JournalEntry>, token: ConsumedToken, signer: JournalSigner)
    requires Signs(c, signer) && token.tokenHash !in HashesOf(es) && Distinct(es)
    requires AllSound(c, es)
    ensures Distinct(es + [NextEntry(c, es, token, signer)]) && AllSound(c, es + [NextEntry(c, es, token, signer)])
  {
    var fs := es + [NextEntry(c, es, token, signer)];
    forall i | 0 <= i < |fs|
      ensures Sound(c, fs, i)
    {
      if i < |es| {
        assert Sound(c, es, i) && PrevOf(fs, i) == PrevOf(es, i);
      }
    }
    forall i | 0 <= i < |es|
      ensures es[i].token.tokenHash != token.tokenHash
    {
      assert es[i].token.tokenHash in HashesOf(es);
    }
  }

  /** Every run of appends with one signer is accepted by the anchored check, without repeated tokens. */
  lemma {:induction false} AppendsVerify(c: Scheme, tokens: seq<ConsumedToken>, signer: JournalSigner)
    requires Signs(c, signer)
    ensures var es := Appended(c, tokens, signer);
            && Anchored(c, es, signer.publicKey, TipHash(es), |es|) && Distinct(es)
            && HashesOf(es) == TokenHashes(tokens)
    decreases |tokens|
  {
    if tokens != [] {
      var n := |tokens| - 1;
      AppendsVerify(c, tokens[..n], signer);
      var es := Appended(c, tokens[..n], signer);
      if tokens[n].tokenHash !in HashesOf(es) {
        NextIsSound(c, es, tokens[n], signer);
      }
      HashesAppend(es, NextEntry(c, es, tokens[n], signer));
    }
  }

  function TokensOf(es: seq<JournalEntry>): (tokens: seq<ConsumedToken>)
    ensures |tokens| == |es|
  {
    seq(|es|, i requires 0 <= i < |es| => es[i].token)
  }

  /** One of the first n tokens has this hash. */
  predicate Offered(tokens: seq<ConsumedToken>, n: nat, h: Bytes32)
    requires n <= |tokens|
  {
    exists i :: 0 <= i < n && tokens[i].tokenHash == h
  }

  /** The tokens whose hash no earlier token has. */
  function FirstOfEach(tokens: seq<ConsumedToken>): seq<ConsumedToken> {
    if tokens == [] then [] else
      var n := |tokens| - 1;
      if Offered(tokens, n, tokens[n].tokenHash) then FirstOfEach(tokens[..n])
      else FirstOfEach(tokens[..n]) + [tokens[n]]
  }

  lemma OfferedBefore(tokens: seq<ConsumedToken>, n: nat, h: Bytes32)
    requires n <= |tokens|
    ensures Offered(tokens[..n], n, h) <==> Offered(tokens, n, h)
  {
    if Offered(tokens, n, h) {
      var i :| 0 <= i < n && tokens[i].tokenHash == h;
      assert tokens[..n][i].tokenHash == h;
    }
  }

  lemma {:induction false} TokenHashesHold(tokens: seq<ConsumedToken>, h: Bytes32)
    ensures h in TokenHashes(tokens) <==> Offered(tokens, |tokens|, h)
    decreases |tokens|
  {
    if tokens != [] {
      var n := |tokens| - 1;
      TokenHashesHold(tokens[..n], h);
      OfferedBefore(tokens, n, h);
      if Offered(tokens, n, h) {
        var i :| 0 <= i < n && tokens[i].tokenHash == h;
        assert Offered(tokens, n + 1, h);
      }
    }
  }

  /** The journal holds the first token of each hash as it was offered, in the order offered. */
  lemma {:induction false} AppendsKeepTokens(c: Scheme, tokens: seq<ConsumedToken>, signer: JournalSigner)
    ensures TokensOf(Appended(c, tokens, signer)) == FirstOfEach(tokens)
    ensures HashesOf(Appended(c, tokens, signer)) == TokenHashes(tokens)
    decreases |tokens|
  {
    if tokens != [] {
      var n := |tokens| - 1;
      AppendsKeepTokens(c, tokens[..n], signer);
      var es := Appended(c, tokens[..n], signer);
      TokenHashesHold(tokens[..n], tokens[n].tokenHash);
      OfferedBefore(tokens, n, tokens[n].tokenHash);
      HashesAppend(es, NextEntry(c, es, tokens[n], signer));
      assert TokensOf(es + [NextEntry(c, es, tokens[n], signer)]) == TokensOf(es) + [tokens[n]];
    }
  }

  lemma HashesAppend(es: seq<JournalEntry>, e: JournalEntry)
    ensures HashesOf(es + [e]) == HashesOf(es) + {e.token.tokenHash}
  {
    forall h | h in HashesOf(es) + {e.token.tokenHash}
      ensures h in HashesOf(es + [e])
    {
      if h in HashesOf(es) {
        var i :| 0 <= i < |es| && es[i].token.tokenHash == h;
        assert (es + [e])[i].token.tokenHash == h;
      } else {
        assert (es + [e])[|es|].token.tokenHash == h;
      }
    }
  }

  /** A log written under any other key passes the plain check and fails the anchored one. */
  lemma ForeignLogNeedsTheAnchor(c: Scheme, tokens: seq<ConsumedToken>, signer: JournalSigner, key: Bytes32,
                                 tip: Bytes32, len: nat)
    requires Signs(c, signer) && signer.publicKey != key && tokens != []
    ensures AllSound(c, Appended(c, tokens, signer)) && !Anchored(c, Appended(c, tokens, signer), key, tip, len)
  {
    AppendsVerify(c, tokens, signer);
    var es := Appended(c, tokens, signer);
    assert tokens[|tokens| - 1].tokenHash in HashesOf(es);
    assert es[0].signer == signer.publicKey;
  }

  class InMemoryJournal {
    const scheme: Scheme
    var entries: seq<JournalEntry>
    var seen: set<Bytes32>

    /** The replay guard holds exactly the hashes of the entries. */
    ghost predicate Valid()
      reads this
    {
      seen == HashesOf(entries) && Distinct(entries)
    }

    constructor (scheme: Scheme)
      ensures Valid() && entries == [] && this.scheme == scheme
    {
      this.scheme, entries, seen := scheme, [], {};
    }

    method Append(token: ConsumedToken, signer: JournalSigner) returns (r: Result<JournalEntry, JournalError>)
      requires Valid()
      modifies this
      ensures Valid()
      ensures entries == AppendOne(scheme, old(entries), token, signer)
      ensures r == if token.tokenHash in old(HashesOf(entries)) then Err(DuplicateToken)
                   else Ok(NextEntry(scheme, old(entries), token, signer))
      ensures r.Ok? ==>
        && entries == old(entries) + [r.value]
        && r.value.token == token && r.value.signer == signer.publicKey
        && r.value.prevHash == (if old(entries) == [] then GENESIS_PREV_HASH
                                else old(entries)[|old(entries)| - 1].entryHash)
        && r.value.entryHash == scheme.hash(EntryPayload(r.value.prevHash, token))
        && r.value.signature == signer.sign(r.value.entryHash)
    {
      if token.tokenHash in seen {
        return Err(DuplicateToken);
      }
      var prev := TipHash(entries);
      var hash := EntryHash(scheme, prev, token);
      var entry := JournalEntry(token, prev, hash, signer.sign(hash), signer.publicKey);
      HashesAppend(entries, entry);
      assert forall i :: 0 <= i < |entries| ==> entries[i].token.tokenHash in HashesOf(entries);
      seen := seen + {token.tokenHash};
      entries := entries + [entry];
      r := Ok(entry);
    }
  }
}
