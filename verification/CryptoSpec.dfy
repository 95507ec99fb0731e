/**
 Envelope encryption of arkhe-forge-platform/src/crypto.rs on values: the counter nonces of a DEK,
 the cipher dispatch and key rotation, over abstract AEAD functions.
 */
module CryptoSpec {
  import opened Bytes
  import opened Types

  type u16 = n: int | 0 <= n < 0x1_0000

  type DekId = s: seq<byte> | |s| == 16 witness seq(16, _ => 0)

  datatype AeadKind = XChaCha20Poly1305 | Aes256Gcm | Aes256GcmSiv

  type Nonce24 = s: seq<byte> | |s| == 24 witness seq(24, _ => 0)
  type Nonce12 = s: seq<byte> | |s| == 12 witness seq(12, _ => 0)

  datatype NonceBytes = X24(bytes24: Nonce24) | Short12(bytes12: Nonce12)

  datatype EncryptedPii = EncryptedPii(dekId: DekId, piiCode: u16, kind: AeadKind, nonce: NonceBytes,
                                       ciphertext: seq<byte>)

  datatype PiiError =
    | TypeMismatch | CipherDowngrade | AadMismatch | DecodeFailed | EncryptFailed
    | TierTooLow | UnsupportedAead | NonceReuseRisk | DekExhausted

  /** The cipher implementations: key, nonce, associated data, message; None is their error. */
  datatype Aead = Aead(
    seal: (AeadKind, seq<byte>, seq<byte>, seq<byte>, seq<byte>) -> Option<seq<byte>>,
    open: (AeadKind, seq<byte>, seq<byte>, seq<byte>, seq<byte>) -> Option<seq<byte>>)

  /** What was sealed opens to itself. */
  ghost predicate Correct(a: Aead) {
    forall kind, key, nonce, aad, m :: a.seal(kind, key, nonce, aad, m).Some? ==>
      a.open(kind, key, nonce, aad, a.seal(kind, key, nonce, aad, m).value) == Some(m)
  }

  /** A PII family: its wire code and its serialization. */
  datatype PiiType<!T> = PiiType(code: u16, encode: T -> Option<seq<byte>>, decode: seq<byte> -> Option<T>)

  ghost predicate Faithful<T(!new)>(p: PiiType<T>) {
    forall v :: p.encode(v).Some? ==> p.decode(p.encode(v).value) == Some(v)
  }

  /** A coordinator: the ciphers, the compiled-in tiers, the manifest's cipher, the nonce source. */
  datatype Setup = Setup(aead: Aead, tier1: bool, tier2: bool, cipher: AeadKind, nonces: nat -> Nonce24)

  /** The immutable part of a `Dek`. */
  datatype Key = Key(material: seq<byte>, replicaId: u32, longLived: bool)

  /** What encryption changes: the DEK's counter and its log of nonces used, the nonces drawn. */
  datatype State = State(counter: u64, issued: seq<Nonce12>, drawn: nat)

  // ------------------------------------------------------------------ layouts

  function U16Bytes(n: u16): (s: seq<byte>)
    ensures |s| == 2 && BeWord(s) == n
  {
    assert Pow256(2) == 256 * (256 * Pow256(0));
    BeBytes(n, 2)
  }

  function KindByte(kind: AeadKind): byte {
    match kind
    case XChaCha20Poly1305 => 0
    case Aes256Gcm => 1
    case Aes256GcmSiv => 2
  }

  /** `compute_aad`: id, code, kind in 19 bytes. */
  function Aad(dekId: DekId, code: u16, kind: AeadKind): (s: seq<byte>)
    ensures |s| == 19
  {
    dekId + (U16Bytes(code) + [KindByte(kind)])
  }

  /** Where the fields lie: the id, the code highest byte first, the cipher's number. */
  lemma AadLayout(dekId: DekId, code: u16, kind: AeadKind)
    ensures var s := Aad(dekId, code, kind);
            && s[..16] == dekId && BeWord(s[16..18]) == code
            && s[18] == (match kind case XChaCha20Poly1305 => 0 case Aes256Gcm => 1 case Aes256GcmSiv => 2)
  {
    assert Aad(dekId, code, kind)[16..18] == U16Bytes(code);
  }

  /** The associated data pins the key id, the PII family and the cipher. */
  lemma AadInjective(a: DekId, c: u16, j: AeadKind, b: DekId, d: u16, k: AeadKind)
    requires Aad(a, c, j) == Aad(b, d, k)
    ensures a == b && c == d && j == k
  {
    SameParts(a, U16Bytes(c) + [KindByte(j)], b, U16Bytes(d) + [KindByte(k)]);
    SameParts(U16Bytes(c), [KindByte(j)], U16Bytes(d), [KindByte(k)]);
    assert [KindByte(j)][0] == [KindByte(k)][0];
  }

  /** `aes_gcm_nonce_from_counter`: invocation field, then counter. */
  function CounterNonce(replicaId: u32, counter: u64): Nonce12 {
    U32Bytes(replicaId) + U64Bytes(counter)
  }

  /** Four bytes of replica, eight of counter, each highest byte first. */
  lemma CounterNonceLayout(replicaId: u32, counter: u64)
    ensures BeWord(CounterNonce(replicaId, counter)[..4]) == replicaId
    ensures BeWord(CounterNonce(replicaId, counter)[4..12]) == counter
  {
    assert CounterNonce(replicaId, counter)[..4] == U32Bytes(replicaId);
    assert CounterNonce(replicaId, counter)[4..12] == U64Bytes(counter);
  }

  /** Two replicas, or two counters, never make the same nonce. */
  lemma CounterNonceInjective(r: u32, c: u64, s: u32, d: u64)
    requires CounterNonce(r, c) == CounterNonce(s, d)
    ensures r == s && c == d
  {
    SameParts(U32Bytes(r), U64Bytes(c), U32Bytes(s), U64Bytes(d));
  }

  // ------------------------------------------------------------------ encrypt and decrypt

  function NonceValue(n: NonceBytes): seq<byte> {
    match n
    case X24(b) => b
    case Short12(b) => b
  }

  function Sealed(s: Setup, key: Key, nonce: NonceBytes, aad: seq<byte>, m: seq<byte>)
    : Result<(NonceBytes, seq<byte>), PiiError>
  {
    var c := s.aead.seal(s.cipher, key.material, NonceValue(nonce), aad, m);
    if c.Some? then Ok((nonce, c.value)) else Err(EncryptFailed)
  }

  /** Encryption under the next counter nonce; an exhausted counter refuses first. */
  function CounterEncrypt(s: Setup, key: Key, st: State, aad: seq<byte>, m: seq<byte>)
    : (State, Result<(NonceBytes, seq<byte>), PiiError>)
  {
    if st.counter == U64_MAX then (st, Err(DekExhausted))
    else
      var nonce := CounterNonce(key.replicaId, st.counter);
      (State(st.counter + 1, st.issued + [nonce], st.drawn), Sealed(s, key, Short12(nonce), aad, m))
  }

  /** `encrypt_raw`: the manifest's cipher decides. */
  function EncryptRaw(s: Setup, key: Key, st: State, aad: seq<byte>, m: seq<byte>)
    : (State, Result<(NonceBytes, seq<byte>), PiiError>)
  {
    match s.cipher
    case XChaCha20Poly1305 =>
      if !s.tier1 then (st, Err(TierTooLow))
      else (st.(drawn := st.drawn + 1), Sealed(s, key, X24(s.nonces(st.drawn)), aad, m))
    case Aes256Gcm =>
      if !s.tier2 then (st, Err(UnsupportedAead))
      else if key.longLived then (st, Err(NonceReuseRisk))
      else CounterEncrypt(s, key, st, aad, m)
    case Aes256GcmSiv =>
      if !s.tier2 then (st, Err(UnsupportedAead)) else CounterEncrypt(s, key, st, aad, m)
  }

  function Opened(s: Setup, key: Key, kind: AeadKind, nonce: NonceBytes, aad: seq<byte>, c: seq<byte>)
    : Result<seq<byte>, PiiError>
  {
    if nonce.X24? != kind.XChaCha20Poly1305? then Err(AadMismatch)
    else
      var m := s.aead.open(kind, key.material, NonceValue(nonce), aad, c);
      if m.Some? then Ok(m.value) else Err(AadMismatch)
  }

  /** `decrypt_raw`: the envelope's cipher decides. */
  function DecryptRaw(s: Setup, key: Key, kind: AeadKind, nonce: NonceBytes, aad: seq<byte>, c: seq<byte>)
    : Result<seq<byte>, PiiError>
  {
    match kind
    case XChaCha20Poly1305 => if !s.tier1 then Err(TierTooLow) else Opened(s, key, kind, nonce, aad, c)
    case Aes256Gcm => if !s.tier2 then Err(UnsupportedAead) else Opened(s, key, kind, nonce, aad, c)
    case Aes256GcmSiv => if !s.tier2 then Err(UnsupportedAead) else Opened(s, key, kind, nonce, aad, c)
  }

  function Encrypt<T>(s: Setup, p: PiiType<T>, v: T, key: Key, dekId: DekId, st: State)
    : (State, Result<EncryptedPii, PiiError>)
  {
    var encoded := p.encode(v);
    if encoded.None? then (st, Err(EncryptFailed))
    else
      var (st', r) := EncryptRaw(s, key, st, Aad(dekId, p.code, s.cipher), encoded.value);
      (st', if r.Ok? then Ok(EncryptedPii(dekId, p.code, s.cipher, r.value.0, r.value.1)) else Err(r.error))
  }

  /** `decrypt_raw_under`: no manifest check. */
  function DecryptRawUnder(s: Setup, key: Key, e: EncryptedPii): Result<seq<byte>, PiiError> {
    DecryptRaw(s, key, e.kind, e.nonce, Aad(e.dekId, e.piiCode, e.kind), e.ciphertext)
  }

  function Decrypt<T>(s: Setup, p: PiiType<T>, e: EncryptedPii, key: Key): Result<T, PiiError> {
    if e.piiCode != p.code then Err(TypeMismatch)
    else if e.kind != s.cipher then Err(CipherDowngrade)
    else match DecryptRawUnder(s, key, e)
      case Err(err) => Err(err)
      case Ok(m) => if p.decode(m).Some? then Ok(p.decode(m).value) else Err(DecodeFailed)
  }

  /** What was encrypted raw decrypts raw, whatever the cipher and tiers. */
  lemma RawRoundTrip(s: Setup, key: Key, st: State, aad: seq<byte>, m: seq<byte>)
    requires Correct(s.aead) && EncryptRaw(s, key, st, aad, m).1.Ok?
    ensures var (nonce, c) := EncryptRaw(s, key, st, aad, m).1.value;
            DecryptRaw(s, key, s.cipher, nonce, aad, c) == Ok(m)
  {}

  /** Decryption undoes encryption for every value of every PII family. */
  lemma EncryptThenDecrypt<T(!new)>(s: Setup, p: PiiType<T>, v: T, key: Key, dekId: DekId, st: State)
    requires Correct(s.aead) && Faithful(p) && Encrypt(s, p, v, key, dekId, st).1.Ok?
    ensures Decrypt(s, p, Encrypt(s, p, v, key, dekId, st).1.value, key) == Ok(v)
  {
    RawRoundTrip(s, key, st, Aad(dekId, p.code, s.cipher), p.encode(v).value);
  }

  /** The ciphertext of e opens under its own associated data and under that of f, and the two differ. */
  ghost predicate OpensTwice(s: Setup, e: EncryptedPii, f: EncryptedPii, key: Key) {
    && Aad(e.dekId, e.piiCode, e.kind) != Aad(f.dekId, f.piiCode, f.kind)
    && DecryptRaw(s, key, e.kind, e.nonce, Aad(e.dekId, e.piiCode, e.kind), e.ciphertext).Ok?
    && DecryptRaw(s, key, e.kind, e.nonce, Aad(f.dekId, f.piiCode, f.kind), e.ciphertext).Ok?
  }

  /** An envelope that decrypts is refused once its id, code or cipher field is altered, with the error of the
      first of the three that no longer fits; only if the id alone is altered can it be accepted, and then
      exactly when the ciphertext itself opens under two associated data. */
  lemma TamperingIsRefused<T>(s: Setup, p: PiiType<T>, e: EncryptedPii, f: EncryptedPii, key: Key)
    requires Decrypt(s, p, e, key).Ok?
    requires f.nonce == e.nonce && f.ciphertext == e.ciphertext
    requires f.dekId != e.dekId || f.piiCode != e.piiCode || f.kind != e.kind
    ensures f.piiCode != e.piiCode ==> Decrypt(s, p, f, key) == Err(TypeMismatch)
    ensures f.piiCode == e.piiCode && f.kind != e.kind ==> Decrypt(s, p, f, key) == Err(CipherDowngrade)
    ensures f.piiCode == e.piiCode && f.kind == e.kind ==>
              (Decrypt(s, p, f, key) == Err(AadMismatch) <==> !OpensTwice(s, e, f, key))
  {
    if f.piiCode == e.piiCode && f.kind == e.kind
       && Aad(f.dekId, f.piiCode, f.kind) == Aad(e.dekId, e.piiCode, e.kind) {
      AadInjective(f.dekId, f.piiCode, f.kind, e.dekId, e.piiCode, e.kind);
    }
  }

  // ------------------------------------------------------------------ rotation

  /** One element: open under the old key, seal under the new key, id and the family's own code. */
  function RotateOne(s: Setup, oldKey: Key, newKey: Key, newId: DekId, code: u16, e: EncryptedPii, st: State)
    : (State, Result<EncryptedPii, PiiError>)
  {
    match DecryptRawUnder(s, oldKey, e)
    case Err(err) => (st, Err(err))
    case Ok(m) =>
      var (st', r) := EncryptRaw(s, newKey, st, Aad(newId, code, s.cipher), m);
      (st', if r.Ok? then Ok(EncryptedPii(newId, code, s.cipher, r.value.0, r.value.1)) else Err(r.error))
  }

  /** All elements in order, up to the first failure. */
  function RotateAll(s: Setup, oldKey: Key, newKey: Key, newId: DekId, code: u16, es: seq<EncryptedPii>, st: State)
    : (State, Result<seq<EncryptedPii>, PiiError>)
    decreases |es|
  {
    if es == [] then (st, Ok([]))
    else
      var (mid, done) := RotateAll(s, oldKey, newKey, newId, code, es[..|es| - 1], st);
      if done.Err? then (mid, done)
      else
        var (end, last) := RotateOne(s, oldKey, newKey, newId, code, es[|es| - 1], mid);
        (end, if last.Ok? then Ok(done.value + [last.value]) else Err(last.error))
  }

  /** Nothing happens after the first failure. */
  lemma {:induction false} RotateStops(s: Setup, oldKey: Key, newKey: Key, newId: DekId, code: u16,
                                       es: seq<EncryptedPii>, st: State, n: nat)
    requires n <= |es| && RotateAll(s, oldKey, newKey, newId, code, es[..n], st).1.Err?
    ensures RotateAll(s, oldKey, newKey, newId, code, es, st) == RotateAll(s, oldKey, newKey, newId, code, es[..n], st)
    decreases |es|
  {
    if n == |es| {
      assert es[..n] == es;
    } else {
      assert es[..|es| - 1][..n] == es[..n];
      RotateStops(s, oldKey, newKey, newId, code, es[..|es| - 1], st, n);
    }
  }

  /** Every rotated element carries the new id, its family's code and the manifest's cipher, and opens
      under the new key to what the original opened to under the old one. */
  lemma {:induction false} RotationKeepsPlaintexts(s: Setup, oldKey: Key, newKey: Key, newId: DekId, code: u16,
                                                   es: seq<EncryptedPii>, st: State, i: nat)
    requires Correct(s.aead) && i < |es| && RotateAll(s, oldKey, newKey, newId, code, es, st).1.Ok?
    ensures var done := RotateAll(s, oldKey, newKey, newId, code, es, st).1.value;
            && |done| == |es|
            && done[i].dekId == newId && done[i].piiCode == code && done[i].kind == s.cipher
            && DecryptRawUnder(s, oldKey, es[i]).Ok?
            && DecryptRawUnder(s, newKey, done[i]) == DecryptRawUnder(s, oldKey, es[i])
    decreases |es|
  {
    var n := |es| - 1;
    var (mid, done) := RotateAll(s, oldKey, newKey, newId, code, es[..n], st);
    assert |done.value| == n by {
      if n > 0 {
        RotationKeepsPlaintexts(s, oldKey, newKey, newId, code, es[..n], st, 0);
      }
    }
    if i < n {
      RotationKeepsPlaintexts(s, oldKey, newKey, newId, code, es[..n], st, i);
    } else {
      RawRoundTrip(s, newKey, mid, Aad(newId, code, s.cipher), DecryptRawUnder(s, oldKey, es[n]).value);
    }
  }

  /**
   Reading an element through its type gives the same before, under the manifest it was written for,
   and after rotation, exactly when its envelope carried the type's code: rotation never checks that
   code, so an envelope of another family comes out relabelled.
   */
  lemma RotationPreservesReading<T>(s: Setup, p: PiiType<T>, oldKey: Key, newKey: Key, newId: DekId,
                                    es: seq<EncryptedPii>, st: State, i: nat)
    requires Correct(s.aead) && i < |es| && RotateAll(s, oldKey, newKey, newId, p.code, es, st).1.Ok?
    ensures var done := RotateAll(s, oldKey, newKey, newId, p.code, es, st).1.value;
            && |done| == |es|
            && (Decrypt(s, p, done[i], newKey) == Decrypt(s.(cipher := es[i].kind), p, es[i], oldKey)
                <==> es[i].piiCode == p.code)
  {
    RotationKeepsPlaintexts(s, oldKey, newKey, newId, p.code, es, st, i);
    assert DecryptRawUnder(s.(cipher := es[i].kind), oldKey, es[i]) == DecryptRawUnder(s, oldKey, es[i]);
  }

  // ------------------------------------------------------------------ nonces

  /** The DEK has used exactly the nonces of the counters below its own. */
  ghost predicate Numbered(key: Key, st: State) {
    |st.issued| == st.counter && forall i :: 0 <= i < |st.issued| ==> st.issued[i] == CounterNonce(key.replicaId, i)
  }

  lemma EncryptKeepsNumbered(s: Setup, key: Key, st: State, aad: seq<byte>, m: seq<byte>)
    requires Numbered(key, st)
    ensures Numbered(key, EncryptRaw(s, key, st, aad, m).0)
  {}

  lemma {:induction false} RotateKeepsNumbered(s: Setup, oldKey: Key, newKey: Key, newId: DekId, code: u16,
                                               es: seq<EncryptedPii>, st: State)
    requires Numbered(newKey, st)
    ensures Numbered(newKey, RotateAll(s, oldKey, newKey, newId, code, es, st).0)
    decreases |es|
  {
    if es != [] {
      var n := |es| - 1;
      RotateKeepsNumbered(s, oldKey, newKey, newId, code, es[..n], st);
      var (mid, done) := RotateAll(s, oldKey, newKey, newId, code, es[..n], st);
      var m := DecryptRawUnder(s, oldKey, es[n]);
      if m.Ok? {
        EncryptKeepsNumbered(s, newKey, mid, Aad(newId, code, s.cipher), m.value);
      }
    }
  }

  /** One use of a DEK for encryption, under any coordinator. */
  datatype Use =
    | EncryptUse(setup: Setup, aad: seq<byte>, m: seq<byte>)
    | RotateUse(setup: Setup, oldKey: Key, newId: DekId, code: u16, es: seq<EncryptedPii>)

  function AfterUse(key: Key, st: State, u: Use): State {
    match u
    case EncryptUse(s, aad, m) => EncryptRaw(s, key, st, aad, m).0
    case RotateUse(s, oldKey, newId, code, es) => RotateAll(s, oldKey, key, newId, code, es, st).0
  }

  /** A fresh DEK used this way, in order; a failed use still counts. */
  function AfterUses(key: Key, drawn: nat, uses: seq<Use>): State {
    if uses == [] then State(0, [], drawn)
    else AfterUse(key, AfterUses(key, drawn, uses[..|uses| - 1]), uses[|uses| - 1])
  }

  lemma {:induction false} UsesKeepNumbered(key: Key, drawn: nat, uses: seq<Use>)
    ensures Numbered(key, AfterUses(key, drawn, uses))
    decreases |uses|
  {
    if uses != [] {
      var n := |uses| - 1;
      UsesKeepNumbered(key, drawn, uses[..n]);
      var st := AfterUses(key, drawn, uses[..n]);
      match uses[n]
      case EncryptUse(s, aad, m) => EncryptKeepsNumbered(s, key, st, aad, m);
      case RotateUse(s, oldKey, newId, code, es) => RotateKeepsNumbered(s, oldKey, key, newId, code, es, st);
    }
  }

  /** No run of encryptions and rotations, failed ones included, uses a counter nonce twice. */
  lemma NoncesNeverRepeat(key: Key, drawn: nat, uses: seq<Use>, i: nat, j: nat)
    requires i < j < |AfterUses(key, drawn, uses).issued|
    ensures AfterUses(key, drawn, uses).issued[i] != AfterUses(key, drawn, uses).issued[j]
  {
    UsesKeepNumbered(key, drawn, uses);
    if CounterNonce(key.replicaId, i) == CounterNonce(key.replicaId, j) {
      CounterNonceInjective(key.replicaId, i, key.replicaId, j);
    }
  }

  /** DEKs of different replicas never use the same nonce, even over the same key material. */
  lemma ReplicasNeverShareNonces(a: Key, b: Key, m: nat, n: nat, us: seq<Use>, vs: seq<Use>, i: nat, j: nat)
    requires a.replicaId != b.replicaId
    requires i < |AfterUses(a, m, us).issued| && j < |AfterUses(b, n, vs).issued|
    ensures AfterUses(a, m, us).issued[i] != AfterUses(b, n, vs).issued[j]
  {
    UsesKeepNumbered(a, m, us);
    UsesKeepNumbered(b, n, vs);
    if CounterNonce(a.replicaId, i) == CounterNonce(b.replicaId, j) {
      CounterNonceInjective(a.replicaId, i, b.replicaId, j);
    }
  }

  // ------------------------------------------------------------------ exhaustion

  /** Encryption reports exhaustion exactly at the last counter of an admitted AES call, consuming nothing. */
  lemma ExhaustionRefuses(s: Setup, key: Key, st: State, aad: seq<byte>, m: seq<byte>)
    ensures EncryptRaw(s, key, st, aad, m).1 == Err(DekExhausted)
       <==> s.tier2 && !s.cipher.XChaCha20Poly1305? && !(s.cipher.Aes256Gcm? && key.longLived) && st.counter == U64_MAX
    ensures EncryptRaw(s, key, st, aad, m).1.Err? && EncryptRaw(s, key, st, aad, m).1 != Err(EncryptFailed) ==>
              EncryptRaw(s, key, st, aad, m).0 == st
  {}

  /** The manifest's cipher is compiled in and may use this key. */
  predicate Admits(s: Setup, key: Key) {
    match s.cipher
    case XChaCha20Poly1305 => s.tier1
    case Aes256Gcm => s.tier2 && !key.longLived
    case Aes256GcmSiv => s.tier2
  }

  /** The counter, where one is used, reaches n more messages. */
  predicate HasRoom(s: Setup, st: State, n: nat) {
    s.cipher.XChaCha20Poly1305? || st.counter + n <= U64_MAX
  }

  /** The nonce of the i-th message from here. */
  function NonceOf(s: Setup, key: Key, st: State, i: nat): NonceBytes
    requires HasRoom(s, st, i)
  {
    if s.cipher.XChaCha20Poly1305? then X24(s.nonces(st.drawn + i))
    else Short12(CounterNonce(key.replicaId, st.counter + i))
  }

  /** n messages later. */
  predicate Advanced(s: Setup, st: State, n: nat, later: State) {
    if s.cipher.XChaCha20Poly1305? then later.drawn == st.drawn + n && later.counter == st.counter
    else later.drawn == st.drawn && later.counter == st.counter + n
  }

  /**
   What encryption answers: one refusal per missing admission, none of which uses a nonce; else, under the next
   nonce, what the cipher makes of the message, or its failure, either way one nonce further.
   */
  lemma EncryptAnswers(s: Setup, key: Key, st: State, aad: seq<byte>, m: seq<byte>)
    ensures var (st', r) := EncryptRaw(s, key, st, aad, m);
            if !Admits(s, key) || !HasRoom(s, st, 1) then
              && st' == st
              && r == Err(if s.cipher.XChaCha20Poly1305? then TierTooLow
                          else if !s.tier2 then UnsupportedAead
                          else if s.cipher.Aes256Gcm? && key.longLived then NonceReuseRisk
                          else DekExhausted)
            else
              var nonce := NonceOf(s, key, st, 0);
              var sealed := s.aead.seal(s.cipher, key.material, NonceValue(nonce), aad, m);
              && Advanced(s, st, 1, st')
              && r == if sealed.Some? then Ok((nonce, sealed.value)) else Err(EncryptFailed)
  {}

  /** An envelope carries the id, the type's code, the manifest's cipher, and the serialized value sealed under the
      nonce it names and the associated data of these three fields; a value that does not serialize uses nothing. */
  lemma EnvelopeIsSealed<T>(s: Setup, p: PiiType<T>, v: T, key: Key, dekId: DekId, st: State)
    ensures p.encode(v) == None ==> Encrypt(s, p, v, key, dekId, st) == (st, Err(EncryptFailed))
    ensures var r := Encrypt(s, p, v, key, dekId, st).1;
            r.Ok? ==> && p.encode(v).Some? && HasRoom(s, st, 1)
                      && r.value.dekId == dekId && r.value.piiCode == p.code && r.value.kind == s.cipher
                      && r.value.nonce == NonceOf(s, key, st, 0)
                      && s.aead.seal(s.cipher, key.material, NonceValue(r.value.nonce), Aad(dekId, p.code, s.cipher),
                                     p.encode(v).value) == Some(r.value.ciphertext)
  {
    if p.encode(v).Some? {
      EncryptAnswers(s, key, st, Aad(dekId, p.code, s.cipher), p.encode(v).value);
    }
  }

  /** The tier of the envelope's cipher is compiled in. */
  predicate HasTier(s: Setup, kind: AeadKind) {
    if kind.XChaCha20Poly1305? then s.tier1 else s.tier2
  }

  /** What the cipher opens the envelope to under its own fields; a nonce of the wrong length opens to nothing. */
  function OpenedTo(s: Setup, e: EncryptedPii, key: Key): Option<seq<byte>> {
    if e.nonce.X24? <==> e.kind.XChaCha20Poly1305?
    then s.aead.open(e.kind, key.material, NonceValue(e.nonce), Aad(e.dekId, e.piiCode, e.kind), e.ciphertext)
    else None
  }

  /** Raw decryption goes by the envelope's own cipher, whatever the manifest's. */
  lemma RawDecryptAnswers(s: Setup, e: EncryptedPii, key: Key)
    ensures DecryptRawUnder(s, key, e)
         == if !HasTier(s, e.kind) then Err(if e.kind.XChaCha20Poly1305? then TierTooLow else UnsupportedAead)
            else if OpenedTo(s, e, key) == None then Err(AadMismatch)
            else Ok(OpenedTo(s, e, key).value)
  {}

  /** What decryption answers: by type, by cipher, by tier, by opening, by decoding, the first that fails deciding. */
  lemma DecryptAnswers<T>(s: Setup, p: PiiType<T>, e: EncryptedPii, key: Key)
    ensures var plain := OpenedTo(s, e, key);
            Decrypt(s, p, e, key)
            == if e.piiCode != p.code then Err(TypeMismatch)
               else if e.kind != s.cipher then Err(CipherDowngrade)
               else if !HasTier(s, e.kind) then Err(if e.kind.XChaCha20Poly1305? then TierTooLow else UnsupportedAead)
               else if plain == None then Err(AadMismatch)
               else if p.decode(plain.value) == None then Err(DecodeFailed)
               else Ok(p.decode(plain.value).value)
  {}

  lemma EncryptOutcome(s: Setup, key: Key, st: State, aad: seq<byte>, m: seq<byte>)
    ensures var (st', r) := EncryptRaw(s, key, st, aad, m);
            && (r.Ok? <==> Admits(s, key) && HasRoom(s, st, 1) && Sealed(s, key, NonceOf(s, key, st, 0), aad, m).Ok?)
            && (r.Ok? ==> r.value.0 == NonceOf(s, key, st, 0) && Advanced(s, st, 1, st'))
  {}

  /** The i-th element opens, and its plaintext seals under the i-th nonce. */
  predicate Rotates(s: Setup, oldKey: Key, newKey: Key, newId: DekId, code: u16, e: EncryptedPii, st: State, i: nat)
    requires HasRoom(s, st, i)
  {
    var m := DecryptRawUnder(s, oldKey, e);
    m.Ok? && Sealed(s, newKey, NonceOf(s, newKey, st, i), Aad(newId, code, s.cipher), m.value).Ok?
  }

  lemma RotateOneOutcome(s: Setup, oldKey: Key, newKey: Key, newId: DekId, code: u16, e: EncryptedPii, st: State,
                         i: nat, mid: State)
    requires HasRoom(s, st, i) && Advanced(s, st, i, mid)
    ensures var (end, last) := RotateOne(s, oldKey, newKey, newId, code, e, mid);
            && (last.Ok? <==> Admits(s, newKey) && HasRoom(s, st, i + 1)
                              && Rotates(s, oldKey, newKey, newId, code, e, st, i))
            && (last.Ok? ==> last.value.nonce == NonceOf(s, newKey, st, i) && Advanced(s, st, i + 1, end))
  {
    var m := DecryptRawUnder(s, oldKey, e);
    if m.Ok? {
      EncryptOutcome(s, newKey, mid, Aad(newId, code, s.cipher), m.value);
      assert NonceOf(s, newKey, mid, 0) == NonceOf(s, newKey, st, i);
    }
  }

  /** Every element rotates in its turn, as far as the counter reaches. */
  ghost predicate AllRotate(s: Setup, oldKey: Key, newKey: Key, newId: DekId, code: u16, es: seq<EncryptedPii>,
                            st: State)
  {
    && HasRoom(s, st, |es|)
    && forall i :: 0 <= i < |es| ==> Rotates(s, oldKey, newKey, newId, code, es[i], st, i)
  }

  lemma AllRotateStep(s: Setup, oldKey: Key, newKey: Key, newId: DekId, code: u16, es: seq<EncryptedPii>, st: State)
    requires es != []
    ensures AllRotate(s, oldKey, newKey, newId, code, es, st)
       <==> && AllRotate(s, oldKey, newKey, newId, code, es[..|es| - 1], st)
            && HasRoom(s, st, |es|) && Rotates(s, oldKey, newKey, newId, code, es[|es| - 1], st, |es| - 1)
  {
    var n := |es| - 1;
    if AllRotate(s, oldKey, newKey, newId, code, es, st) {
      assert forall i :: 0 <= i < n ==> es[..n][i] == es[i];
    }
    if AllRotate(s, oldKey, newKey, newId, code, es[..n], st) && HasRoom(s, st, n + 1)
       && Rotates(s, oldKey, newKey, newId, code, es[n], st, n) {
      forall i | 0 <= i < |es|
        ensures Rotates(s, oldKey, newKey, newId, code, es[i], st, i)
      {
        assert i < n ==> es[..n][i] == es[i];
      }
    }
  }

  /** The elements carry the nonces from here on, one each. */
  ghost predicate InTurn(s: Setup, key: Key, st: State, done: seq<EncryptedPii>) {
    HasRoom(s, st, |done|) && forall i :: 0 <= i < |done| ==> done[i].nonce == NonceOf(s, key, st, i)
  }

  lemma InTurnStep(s: Setup, key: Key, st: State, done: seq<EncryptedPii>, e: EncryptedPii)
    requires InTurn(s, key, st, done) && HasRoom(s, st, |done| + 1) && e.nonce == NonceOf(s, key, st, |done|)
    ensures InTurn(s, key, st, done + [e])
  {}

  /** Under any cipher a rotation succeeds exactly when nothing is to be rotated, or the cipher is admitted, the
      new counter has room for all, and every element opens and seals; it then uses consecutive nonces. */
  lemma {:induction false} RotationOutcome(s: Setup, oldKey: Key, newKey: Key, newId: DekId, code: u16,
                                           es: seq<EncryptedPii>, st: State)
    ensures var (end, done) := RotateAll(s, oldKey, newKey, newId, code, es, st);
            && (done.Ok? <==> es == [] || (Admits(s, newKey) && AllRotate(s, oldKey, newKey, newId, code, es, st)))
            && (done.Ok? ==> Advanced(s, st, |es|, end) && |done.value| == |es| && InTurn(s, newKey, st, done.value))
    decreases |es|
  {
    if es != [] {
      var n := |es| - 1;
      RotationOutcome(s, oldKey, newKey, newId, code, es[..n], st);
      AllRotateStep(s, oldKey, newKey, newId, code, es, st);
      var (mid, done) := RotateAll(s, oldKey, newKey, newId, code, es[..n], st);
      if done.Ok? {
        RotateOneOutcome(s, oldKey, newKey, newId, code, es[n], st, n, mid);
        var last := RotateOne(s, oldKey, newKey, newId, code, es[n], mid).1;
        if last.Ok? {
          InTurnStep(s, newKey, st, done.value, last.value);
        }
      }
    }
  }

  /** A rotation that fails reports why its first failing element did not open or seal. */
  lemma {:induction false} RotationReports(s: Setup, oldKey: Key, newKey: Key, newId: DekId, code: u16,
                                           es: seq<EncryptedPii>, st: State) returns (i: nat)
    requires RotateAll(s, oldKey, newKey, newId, code, es, st).1.Err?
    ensures i < |es| && RotateAll(s, oldKey, newKey, newId, code, es[..i], st).1.Ok?
    ensures var mid := RotateAll(s, oldKey, newKey, newId, code, es[..i], st).0;
            match DecryptRawUnder(s, oldKey, es[i])
            case Err(e) => RotateAll(s, oldKey, newKey, newId, code, es, st) == (mid, Err(e))
            case Ok(m) =>
              var (end, sealed) := EncryptRaw(s, newKey, mid, Aad(newId, code, s.cipher), m);
              sealed.Err? && RotateAll(s, oldKey, newKey, newId, code, es, st) == (end, Err(sealed.error))
    decreases |es|
  {
    var n := |es| - 1;
    if RotateAll(s, oldKey, newKey, newId, code, es[..n], st).1.Ok? {
      i := n;
    } else {
      i := RotationReports(s, oldKey, newKey, newId, code, es[..n], st);
      assert es[..n][..i] == es[..i];
    }
  }

  /**
   A value encrypted as one family and rotated as another: the rotation succeeds, and an envelope that
   could not be read as p before is now read as p, its plaintext decoded as the wrong type.
   */
  lemma RotationRelabels<T, U>(s: Setup, p: PiiType<T>, q: PiiType<U>, v: U, oldKey: Key, newKey: Key, oldId: DekId,
                               newId: DekId, used: State, next: State)
    requires Correct(s.aead) && q.code != p.code && Encrypt(s, q, v, oldKey, oldId, used).1.Ok?
    requires Admits(s, newKey) && HasRoom(s, next, 1)
    requires Sealed(s, newKey, NonceOf(s, newKey, next, 0), Aad(newId, p.code, s.cipher), q.encode(v).value).Ok?
    ensures var e := Encrypt(s, q, v, oldKey, oldId, used).1.value;
            var (_, done) := RotateAll(s, oldKey, newKey, newId, p.code, [e], next);
            && Decrypt(s, p, e, oldKey) == Err(TypeMismatch)
            && done.Ok? && |done.value| == 1 && done.value[0].piiCode == p.code
            && Decrypt(s, p, done.value[0], newKey)
            == if p.decode(q.encode(v).value).Some? then Ok(p.decode(q.encode(v).value).value) else Err(DecodeFailed)
  {
    var m := q.encode(v).value;
    var e := Encrypt(s, q, v, oldKey, oldId, used).1.value;
    RawRoundTrip(s, oldKey, used, Aad(oldId, q.code, s.cipher), m);
    assert DecryptRawUnder(s, oldKey, e) == Ok(m);
    assert [e][0] == e && Rotates(s, oldKey, newKey, newId, p.code, e, next, 0);
    RotationOutcome(s, oldKey, newKey, newId, p.code, [e], next);
    RotationKeepsPlaintexts(s, oldKey, newKey, newId, p.code, [e], next, 0);
  }
}
