/** The cryptographic primitives, idealised. Argon2id, scrypt, HKDF-SHA256 and
    HMAC-SHA1 are arbitrary deterministic functions; ChaCha20-Poly1305 is an ideal
    AEAD: sealing is logged, and opening succeeds exactly on logged tuples. */
module Primitives {
  import opened Bytes
  import opened Errors
  import K = Kdf

  type Block32 = s: bytes | |s| == 32 witness Zeros(32)
  type Block20 = s: bytes | |s| == 20 witness Zeros(20)

  const KEY_SIZE: nat := 32
  const TAG_SIZE: nat := 16

  // Any choice of the primitives. `unseal` only says that decryption undoes
  // encryption under one key, nonce and associated data; nothing is assumed
  // about different keys.
  datatype Crypto = Crypto(
    stretch: (K.Kdf, bytes, bytes) -> Block32,
    accepts: K.Kdf -> bool,
    hkdf: (bytes, bytes, bytes) -> Block32,
    hmac: (bytes, bytes) -> Block20,
    seal: (bytes, bytes, bytes, bytes) -> bytes,
    unseal: (bytes, bytes, bytes, bytes) -> bytes)
  {
    ghost predicate Correct() {
      forall key, nonce, pt, aad ::
        |seal(key, nonce, pt, aad)| == |pt| + TAG_SIZE
        && unseal(key, nonce, seal(key, nonce, pt, aad), aad) == pt
    }
  }

  // One sealing.
  datatype Sealed = Sealed(key: bytes, nonce: bytes, aad: bytes, pt: bytes, ct: bytes)

  ghost predicate Honest(c: Crypto, log: seq<Sealed>) {
    forall i :: 0 <= i < |log| ==> log[i].ct == c.seal(log[i].key, log[i].nonce, log[i].pt, log[i].aad)
  }

  predicate Matches(e: Sealed, key: bytes, nonce: bytes, ct: bytes, aad: bytes) {
    e.key == key && e.nonce == nonce && e.ct == ct && e.aad == aad
  }

  // The ideal open: the plaintext of the first logged sealing that matches.
  function Lookup(log: seq<Sealed>, key: bytes, nonce: bytes, ct: bytes, aad: bytes): Option<bytes> {
    if log == [] then None
    else if Matches(log[0], key, nonce, ct, aad) then Some(log[0].pt)
    else Lookup(log[1..], key, nonce, ct, aad)
  }

  const ZERO_BLOCK: Block32 := Zeros(32)
  const ONE_BLOCK: Block32 := [1] + Zeros(31)

  // Primitives whose HKDF singles out one call.
  function PickyCrypto(ikm: bytes, salt: bytes, info: bytes): Crypto {
    Crypto(
      (k, p, s) => ZERO_BLOCK, k => true,
      (i, s, f) => if i == ikm && s == salt && f == info then ZERO_BLOCK else ONE_BLOCK,
      (k, m) => Zeros(20), (k, n, p, a) => p + Zeros(16),
      (k, n, x, a) => if |x| >= 16 then x[..|x| - 16] else [])
  }

  lemma PickyIsCorrect(ikm: bytes, salt: bytes, info: bytes)
    ensures PickyCrypto(ikm, salt, info).Correct()
  {
    var c := PickyCrypto(ikm, salt, info);
    forall k: bytes, n: bytes, p: bytes, a: bytes
      ensures |c.seal(k, n, p, a)| == |p| + TAG_SIZE && c.unseal(k, n, c.seal(k, n, p, a), a) == p
    {
      assert (p + Zeros(16))[..|p|] == p;
    }
  }

  // The assumption on the AEAD can be met, so nothing below holds vacuously.
  lemma CorrectIsPossible()
    ensures exists c: Crypto :: c.Correct()
  {
    PickyIsCorrect([], [], []);
  }

  // Opening answers a plaintext only if that very tuple was sealed.
  lemma {:induction false} LookupSound(log: seq<Sealed>, key: bytes, nonce: bytes, ct: bytes, aad: bytes)
    ensures Lookup(log, key, nonce, ct, aad).Some? <==>
      exists i :: 0 <= i < |log| && Matches(log[i], key, nonce, ct, aad)
    ensures Lookup(log, key, nonce, ct, aad).Some? <==>
      exists i :: 0 <= i < |log| && log[i] == Sealed(key, nonce, aad, log[i].pt, ct)
    ensures Lookup(log, key, nonce, ct, aad).Some? ==>
      exists i :: 0 <= i < |log| && Matches(log[i], key, nonce, ct, aad)
        && log[i].pt == Lookup(log, key, nonce, ct, aad).value
  {
    if log != [] {
      LookupSound(log[1..], key, nonce, ct, aad);
      if !Matches(log[0], key, nonce, ct, aad) {
        if Lookup(log[1..], key, nonce, ct, aad).Some? {
          var i :| 0 <= i < |log[1..]| && Matches(log[1..][i], key, nonce, ct, aad)
            && log[1..][i].pt == Lookup(log[1..], key, nonce, ct, aad).value;
          assert log[i + 1] == log[1..][i];
        }
        if i :| 0 <= i < |log| && Matches(log[i], key, nonce, ct, aad) {
          assert log[i] == log[1..][i - 1];
        }
      }
    }
  }

  // In an honest log a sealed tuple opens to the plaintext that was sealed.
  lemma LookupComplete(c: Crypto, log: seq<Sealed>, i: nat)
    requires c.Correct() && Honest(c, log) && i < |log|
    ensures Lookup(log, log[i].key, log[i].nonce, log[i].ct, log[i].aad) == Some(log[i].pt)
  {
    var e := log[i];
    assert Matches(e, e.key, e.nonce, e.ct, e.aad);
    LookupSound(log, e.key, e.nonce, e.ct, e.aad);
    var j :| 0 <= j < |log| && Matches(log[j], e.key, e.nonce, e.ct, e.aad)
      && log[j].pt == Lookup(log, e.key, e.nonce, e.ct, e.aad).value;
    assert c.unseal(e.key, e.nonce, c.seal(e.key, e.nonce, log[j].pt, e.aad), e.aad) == log[j].pt;
    assert c.unseal(e.key, e.nonce, c.seal(e.key, e.nonce, e.pt, e.aad), e.aad) == e.pt;
  }

  // A later sealing never changes what an earlier one opens to.
  lemma {:induction false} LookupAppend(log: seq<Sealed>, more: seq<Sealed>, key: bytes, nonce: bytes,
      ct: bytes, aad: bytes)
    requires Lookup(log, key, nonce, ct, aad).Some?
    ensures Lookup(log + more, key, nonce, ct, aad) == Lookup(log, key, nonce, ct, aad)
  {
    if !Matches(log[0], key, nonce, ct, aad) {
      LookupAppend(log[1..], more, key, nonce, ct, aad);
    }
    assert (log + more)[1..] == log[1..] + more;
  }
}
