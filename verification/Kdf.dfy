/** KDF parameters: encoding, parsing and the safety bounds (kdf.go). */
module Kdf {
  import opened Bytes
  import opened Errors
  import opened Kinds

  datatype Kdf =
    | Argon2id(time: word32, memoryKiB: word32, threads: byte)
    | Scrypt(logN: byte, r: word32, p: word32)

  const MAX_KDF_MEM_BYTES: nat := 2 * 1024 * 1024 * 1024
  const KDF_PARAMS_LEN: nat := 9
  const DEFAULT_SALT_LEN: nat := 16

  function Id(k: Kdf): byte {
    if k.Argon2id? then KDF_ARGON2ID else KDF_SCRYPT
  }

  // The layout MarshalParams writes.
  function ParamBytes(k: Kdf): bytes {
    match k
    case Argon2id(t, m, n) => BE32(t) + BE32(m) + [n]
    case Scrypt(logN, r, p) => [logN] + BE32(r) + BE32(p)
  }

  method PutUint32(b: array<byte>, at: nat, n: word32)
    requires at + 4 <= b.Length
    modifies b
    ensures b[..] == old(b[..at]) + BE32(n) + old(b[at + 4..])
  {
    var be := BE32(n);
    b[at], b[at + 1], b[at + 2], b[at + 3] := be[0], be[1], be[2], be[3];
  }

  method MarshalParams(k: Kdf) returns (b: array<byte>)
    ensures fresh(b) && b[..] == ParamBytes(k)
  {
    b := new byte[KDF_PARAMS_LEN];
    match k {
      case Argon2id(time, memoryKiB, threads) =>
        PutUint32(b, 0, time);
        PutUint32(b, 4, memoryKiB);
        b[8] := threads;
      case Scrypt(logN, r, p) =>
        b[0] := logN;
        PutUint32(b, 1, r);
        PutUint32(b, 5, p);
    }
  }

  // Go's uint64 product: everything above 64 bits is lost.
  function U64(n: nat): nat {
    n % 0x1_0000_0000_0000_0000
  }

  // 128 * N * r in uint64 arithmetic.
  function ScryptMemory(logN: byte, r: word32): nat {
    U64(U64(128 * U64(Pow2(logN as nat))) * r)
  }

  function CheckArgon2id(t: word32, mem: word32, threads: byte): Result<Option<Kdf>> {
    if t < 1 || t > 32 then Failure(KdfParams)
    else if mem < 8 || U64(mem * 1024) > MAX_KDF_MEM_BYTES then Failure(KdfParams)
    else if threads < 1 || threads > 16 then Failure(KdfParams)
    else Success(Some(Argon2id(t, mem, threads)))
  }

  function CheckScrypt(logN: byte, r: word32, p: word32): Result<Option<Kdf>> {
    if logN < 1 || logN > 22 then Failure(KdfParams)
    else if r < 1 || r > 32 then Failure(KdfParams)
    else if p < 1 || p > 16 then Failure(KdfParams)
    else if ScryptMemory(logN, r) > MAX_KDF_MEM_BYTES then Failure(KdfParams)
    else Success(Some(Scrypt(logN, r, p)))
  }

  function Word(params: bytes, at: nat): word32
    requires at + 4 <= |params|
  {
    FromBE32(params[at], params[at + 1], params[at + 2], params[at + 3])
  }

  // parseKDF; None is the "no KDF" answer for KDF_NONE.
  function ParseKdf(id: byte, params: bytes): Result<Option<Kdf>> {
    if id == KDF_NONE then
      if |params| != 0 then Failure(KdfParams) else Success(None)
    else if id == KDF_ARGON2ID then
      if |params| != KDF_PARAMS_LEN then Failure(KdfParams)
      else CheckArgon2id(Word(params, 0), Word(params, 4), params[8])
    else if id == KDF_SCRYPT then
      if |params| != KDF_PARAMS_LEN then Failure(KdfParams)
      else CheckScrypt(params[0], Word(params, 1), Word(params, 5))
    else Failure(UnsupportedKdf)
  }

  // The parameter sets a caller may enrol with and later read back.
  ghost predicate InBounds(k: Kdf) {
    match k
    case Argon2id(t, m, n) => 1 <= t <= 32 && 8 <= m <= 2097152 && 1 <= n <= 16
    case Scrypt(logN, r, p) =>
      1 <= logN <= 22 && 1 <= r <= 32 && 1 <= p <= 16 && 128 * Pow2(logN as nat) * r <= 0x8000_0000
  }

  lemma {:induction false} Pow2Monotone(a: nat, b: nat)
    requires a <= b
    ensures 1 <= Pow2(a) <= Pow2(b)
  {
    if b > 0 {
      if a < b { Pow2Monotone(a, b - 1); } else { Pow2Monotone(a - 1, b - 1); }
    }
  }

  lemma Pow2Of22()
    ensures Pow2(22) == 4194304
  {
    assert Pow2(4) == 16;
    assert Pow2(8) == 256;
    assert Pow2(12) == 4096;
    assert Pow2(16) == 65536;
    assert Pow2(20) == 1048576;
  }

  lemma MulMonotone(a: nat, b: nat, c: nat, d: nat)
    requires a <= b && c <= d
    ensures 0 <= a * c <= b * d
  {
    assert a * c <= b * c <= b * d;
  }

  // The three uint64 products of the scrypt bound never wrap.
  lemma ScryptCheckDoesNotWrap(logN: byte, r: word32)
    requires 1 <= logN <= 22 && 1 <= r <= 32
    ensures ScryptMemory(logN, r) == 128 * Pow2(logN as nat) * r
  {
    Pow2Monotone(logN as nat, 22);
    Pow2Of22();
    var n := Pow2(logN as nat);
    assert U64(128 * U64(n)) == 128 * n;
    MulMonotone(128 * n, 128 * 4194304, r, 32);
    assert (128 * n) * r == 128 * n * r;
  }

  lemma CheckExact(t: word32, m: word32, n: byte, logN: byte, r: word32, p: word32, k: Kdf)
    ensures CheckArgon2id(t, m, n) == Success(Some(k)) <==> InBounds(k) && k == Argon2id(t, m, n)
    ensures CheckScrypt(logN, r, p) == Success(Some(k)) <==> InBounds(k) && k == Scrypt(logN, r, p)
  {
    if 1 <= logN <= 22 && 1 <= r <= 32 { ScryptCheckDoesNotWrap(logN, r); }
  }

  lemma WordExact(params: bytes, at: nat, n: word32)
    requires at + 4 <= |params|
    ensures Word(params, at) == n <==> params[at..at + 4] == BE32(n)
  {
    BE32Exact(params[at..at + 4], n);
  }

  // parseKDF accepts exactly the encodings of the in-bounds parameter sets,
  // and recovers the set that was encoded.
  lemma ParseKdfExact(id: byte, params: bytes, k: Kdf)
    ensures ParseKdf(id, params) == Success(Some(k)) <==> InBounds(k) && id == Id(k) && params == ParamBytes(k)
  {
    hide CheckArgon2id, CheckScrypt, BE32, Word, InBounds;
    if |params| == KDF_PARAMS_LEN {
      CheckExact(Word(params, 0), Word(params, 4), params[8], params[0], Word(params, 1), Word(params, 5), k);
      match k {
        case Argon2id(t, m, n) =>
          WordExact(params, 0, t);
          WordExact(params, 4, m);
          assert params == params[0..4] + params[4..8] + [params[8]];
        case Scrypt(logN, r, p) =>
          WordExact(params, 1, r);
          WordExact(params, 5, p);
          assert params == [params[0]] + params[1..5] + params[5..9];
      }
    }
  }

  lemma ParamBytesInjective(k: Kdf, l: Kdf)
    requires Id(k) == Id(l) && ParamBytes(k) == ParamBytes(l)
    ensures k == l
  {
    hide BE32;
    var b := ParamBytes(k);
    if k.Argon2id? {
      assert b[0..4] == BE32(k.time) == BE32(l.time) && b[4..8] == BE32(k.memoryKiB) == BE32(l.memoryKiB);
      assert b[8] == k.threads == l.threads;
      WordExact(b, 0, k.time);
      WordExact(b, 0, l.time);
      WordExact(b, 4, k.memoryKiB);
      WordExact(b, 4, l.memoryKiB);
    } else {
      assert b[1..5] == BE32(k.r) == BE32(l.r) && b[5..9] == BE32(k.p) == BE32(l.p);
      assert b[0] == k.logN == l.logN;
      WordExact(b, 1, k.r);
      WordExact(b, 1, l.r);
      WordExact(b, 5, k.p);
      WordExact(b, 5, l.p);
    }
  }

  // What MarshalParams wrote for a KDF is read back as that KDF if it is within
  // the bounds, and refused otherwise.
  lemma ParseOfParams(k: Kdf)
    ensures InBounds(k) ==> ParseKdf(Id(k), ParamBytes(k)) == Success(Some(k))
    ensures !InBounds(k) ==> ParseKdf(Id(k), ParamBytes(k)).Failure?
  {
    hide ParseKdf, ParamBytes, InBounds;
    ParseKdfExact(Id(k), ParamBytes(k), k);
    ParseKdfNone(Id(k), ParamBytes(k));
    var r := ParseKdf(Id(k), ParamBytes(k));
    if r.Success? && r.value.Some? {
      ParseKdfExact(Id(k), ParamBytes(k), r.value.value);
      ParamBytesInjective(k, r.value.value);
    }
  }

  // "No KDF" is read back exactly from the empty parameter string of KDF_NONE.
  lemma ParseKdfNone(id: byte, params: bytes)
    ensures ParseKdf(id, params) == Success(None) <==> id == KDF_NONE && params == []
  {
  }

  // Every accepted set keeps the working memory within 2 GiB.
  lemma AcceptedMemory(id: byte, params: bytes)
    requires ParseKdf(id, params).Success? && ParseKdf(id, params).value.Some?
    ensures var k := ParseKdf(id, params).value.value;
      if k.Argon2id? then k.memoryKiB * 1024 <= 0x8000_0000 else 128 * Pow2(k.logN as nat) * k.r <= 0x8000_0000
  {
    ParseKdfExact(id, params, ParseKdf(id, params).value.value);
  }

  // Why parameters are refused.
  lemma ParseKdfErrors(id: byte, params: bytes)
    requires ParseKdf(id, params).Failure?
    ensures ParseKdf(id, params).error == if id > 2 then UnsupportedKdf else KdfParams
  {
  }
}
