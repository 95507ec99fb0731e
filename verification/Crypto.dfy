/**
 `Dek`, `CryptoCoordinator` and `rotate_dek` of arkhe-forge-platform/src/crypto.rs, with the message
 counter of arkhe-forge-core/src/pii.rs, as objects proved against `CryptoSpec`.
 */
module Crypto {
  import opened Bytes
  import opened Types
  import opened CryptoSpec

  class Dek {
    const key: Key
    var counter: u64
    ghost var issued: seq<Nonce12>

    /** `with_config` and `from_unwrapped`: the counter starts at zero. */
    constructor (key: Key)
      ensures this.key == key && counter == 0 && issued == []
    {
      this.key, counter, issued := key, 0, [];
    }

    method AdvanceCounter() returns (r: Result<u64, PiiError>)
      modifies this`counter
      ensures if old(counter) == U64_MAX then r == Err(DekExhausted) && counter == old(counter)
              else r == Ok(old(counter)) && counter == old(counter) + 1
    {
      var n := counter;
      if n == U64_MAX {
        return Err(DekExhausted);
      }
      counter := n + 1;
      r := Ok(n);
    }
  }

  /** The per-DEK message metric. */
  class DekMessageCounter {
    var count: u64

    constructor ()
      ensures count == 0
    {
      count := 0;
    }

    method RecordMessage()
      modifies this
      ensures count == SaturatingAdd(old(count), 1)
    {
      count := SaturatingAdd(count, 1);
    }
  }

  class CryptoCoordinator {
    const aead: Aead
    const tier1: bool
    const tier2: bool
    const cipher: AeadKind
    const nonces: nat -> Nonce24
    var drawn: nat

    constructor (s: Setup)
      ensures Config() == s && drawn == 0
    {
      aead, tier1, tier2, cipher, nonces, drawn := s.aead, s.tier1, s.tier2, s.cipher, s.nonces, 0;
    }

    function Config(): Setup {
      Setup(aead, tier1, tier2, cipher, nonces)
    }

    ghost function Use(dek: Dek): State
      reads this, dek
    {
      State(dek.counter, dek.issued, drawn)
    }

    method EncryptXChaCha(dek: Dek, aad: seq<byte>, m: seq<byte>) returns (r: Result<(NonceBytes, seq<byte>), PiiError>)
      requires cipher == XChaCha20Poly1305
      modifies this
      ensures (Use(dek), r) == CryptoSpec.EncryptRaw(Config(), dek.key, old(Use(dek)), aad, m)
    {
      if !tier1 {
        return Err(TierTooLow);
      }
      var nonce := X24(nonces(drawn));
      drawn := drawn + 1;
      r := Sealed(Config(), dek.key, nonce, aad, m);
    }

    /** The shared body of both AES paths: the counter advances before any cipher work. */
    method EncryptUnderCounter(dek: Dek, aad: seq<byte>, m: seq<byte>)
      returns (r: Result<(NonceBytes, seq<byte>), PiiError>)
      modifies dek
      ensures (Use(dek), r) == CounterEncrypt(Config(), dek.key, old(Use(dek)), aad, m)
    {
      var counter := dek.AdvanceCounter();
      if counter.Err? {
        return Err(counter.error);
      }
      var nonce := CounterNonce(dek.key.replicaId, counter.value);
      dek.issued := dek.issued + [nonce];
      r := Sealed(Config(), dek.key, Short12(nonce), aad, m);
    }

    method EncryptRaw(dek: Dek, aad: seq<byte>, m: seq<byte>) returns (r: Result<(NonceBytes, seq<byte>), PiiError>)
      modifies this, dek
      ensures (Use(dek), r) == CryptoSpec.EncryptRaw(Config(), dek.key, old(Use(dek)), aad, m)
    {
      match cipher
      case XChaCha20Poly1305 => r := EncryptXChaCha(dek, aad, m);
      case Aes256Gcm =>
        if !tier2 {
          return Err(UnsupportedAead);
        }
        if dek.key.longLived {
          return Err(NonceReuseRisk);
        }
        r := EncryptUnderCounter(dek, aad, m);
      case Aes256GcmSiv =>
        if !tier2 {
          return Err(UnsupportedAead);
        }
        r := EncryptUnderCounter(dek, aad, m);
    }

    method Encrypt<T>(p: PiiType<T>, v: T, dek: Dek, dekId: DekId) returns (r: Result<EncryptedPii, PiiError>)
      modifies this, dek
      ensures (Use(dek), r) == CryptoSpec.Encrypt(Config(), p, v, dek.key, dekId, old(Use(dek)))
    {
      var aad := Aad(dekId, p.code, cipher);
      var encoded := p.encode(v);
      if encoded.None? {
        return Err(EncryptFailed);
      }
      var raw := EncryptRaw(dek, aad, encoded.value);
      if raw.Err? {
        return Err(raw.error);
      }
      r := Ok(EncryptedPii(dekId, p.code, cipher, raw.value.0, raw.value.1));
    }
  }

  /** Puts the elements saved on entry back. */
  method Restore(es: array<EncryptedPii>, originals: seq<EncryptedPii>)
    requires es.Length == |originals|
    modifies es
    ensures es[..] == originals
  {
    for i := 0 to es.Length
      invariant es[..i] == originals[..i]
    {
      es[i] := originals[i];
      assert es[..i + 1] == es[..i] + [es[i]];
      assert originals[..i + 1] == originals[..i] + [originals[i]];
    }
    assert es[..] == es[..es.Length];
  }

  /**
   `rotate_dek`: on success the slice holds every rotated element and the metric has counted them, on
   failure both are as on entry; the new DEK's counter keeps what it used either way.
   */
  method RotateDek(coordinator: CryptoCoordinator, oldDek: Dek, newDek: Dek, newId: DekId, code: u16,
                   es: array<EncryptedPii>, metric: DekMessageCounter) returns (r: Result<(), PiiError>)
    modifies coordinator, newDek, es, metric
    ensures var (end, done) := RotateAll(coordinator.Config(), oldDek.key, newDek.key, newId, code, old(es[..]),
                                         old(coordinator.Use(newDek)));
            && coordinator.Use(newDek) == end
            && match done
               case Ok(rotated) =>
                 && r == Ok(()) && es[..] == rotated
                 && metric.count == (if old(metric.count) + es.Length <= U64_MAX then old(metric.count) + es.Length
                                     else U64_MAX)
               case Err(e) => r == Err(e) && es[..] == old(es[..]) && metric.count == old(metric.count)
  {
    ghost var s, oldKey, newKey := coordinator.Config(), oldDek.key, newDek.key;
    ghost var start := coordinator.Use(newDek);
    var originals := es[..];
    var snapshot := metric.count;
    var aad := Aad(newId, code, coordinator.cipher);
    var idx := 0;
    while idx < es.Length
      invariant 0 <= idx <= es.Length
      invariant RotateAll(s, oldKey, newKey, newId, code, originals[..idx], start)
             == (coordinator.Use(newDek), Ok(es[..idx]))
      invariant es[idx..] == originals[idx..]
      invariant metric.count == Counted(snapshot, idx)
    {
      ghost var before := es[..idx];
      assert originals[..idx + 1][..idx] == originals[..idx];
      assert es[idx] == es[idx..][0] == originals[idx..][0] == originals[idx];
      ghost var (end, last) := RotateOne(s, oldKey, newKey, newId, code, originals[idx], coordinator.Use(newDek));
      var plain := DecryptRawUnder(coordinator.Config(), oldDek.key, es[idx]);
      var sealed: Result<(NonceBytes, seq<byte>), PiiError>;
      if plain.Ok? {
        sealed := coordinator.EncryptRaw(newDek, aad, plain.value);
      } else {
        sealed := Err(plain.error);
      }
      if sealed.Err? {
        Restore(es, originals);
        metric.count := snapshot;
        RotateStops(s, oldKey, newKey, newId, code, originals, start, idx + 1);
        return Err(sealed.error);
      }
      es[idx] := EncryptedPii(newId, code, coordinator.cipher, sealed.value.0, sealed.value.1);
      metric.RecordMessage();
      assert es[..idx + 1] == before + [es[idx]];
      assert es[idx + 1..] == originals[idx + 1..] by {
        assert originals[idx..][1..] == originals[idx + 1..];
      }
      idx := idx + 1;
    }
    assert originals[..idx] == originals && es[..idx] == es[..];
    r := Ok(());
  }

  /** The metric after n more messages. */
  function Counted(count: u64, n: nat): u64 {
    if count + n > U64_MAX then U64_MAX else count + n
  }
}
