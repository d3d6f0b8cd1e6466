/** One keyslot, its authenticated metadata and its shape rules (envelope.go). */
module Slots {
  import opened Bytes
  import opened Errors
  import opened Kinds
  import Kdf

  // Go's fixed-size arrays.
  type SlotId = s: bytes | |s| == 8 witness [0, 0, 0, 0, 0, 0, 0, 0]
  type HkdfSalt = s: bytes | |s| == 16 witness [0, 0, 0, 0, 0, 0, 0, 0, 0, 0, 0, 0, 0, 0, 0, 0]
  type Nonce = s: bytes | |s| == 12 witness [0, 0, 0, 0, 0, 0, 0, 0, 0, 0, 0, 0]

  const NO_ID: SlotId := [0, 0, 0, 0, 0, 0, 0, 0]
  const NO_SALT: HkdfSalt := [0, 0, 0, 0, 0, 0, 0, 0, 0, 0, 0, 0, 0, 0, 0, 0]
  const NO_NONCE: Nonce := [0, 0, 0, 0, 0, 0, 0, 0, 0, 0, 0, 0]

  // `meta` is the serialized metadata kept beside the fields; None is Go's nil.
  datatype Slot = Slot(
    typ: byte,
    id: SlotId,
    flags: byte,
    aeadId: byte,
    kdfId: byte,
    ykSlot: byte,
    kdfParams: bytes,
    kdfSalt: bytes,
    chalSalt: bytes,
    hkdfSalt: HkdfSalt,
    challenge: bytes,
    slotLabel: bytes,
    nonce: Nonce,
    wrapped: bytes,
    meta: Option<bytes>)

  // appendU16Bytes(nil, b).
  function Prefixed(b: bytes): bytes {
    BE16(|b|) + b
  }

  // The bytes marshalMeta writes: every field but Wrapped.
  function MetaBytes(s: Slot): bytes {
    [s.typ] + s.id + [s.flags, s.aeadId, s.kdfId, s.ykSlot]
    + Prefixed(s.kdfParams) + Prefixed(s.kdfSalt) + Prefixed(s.chalSalt)
    + s.hkdfSalt + Prefixed(s.challenge) + Prefixed(s.slotLabel) + s.nonce
  }

  // The bounds marshalMeta checks, in its order.
  function MetaError(s: Slot): Option<Error> {
    if !MethodTypeValid(s.typ) then Some(Malformed)
    else if s.aeadId != AEAD_CHACHA20_POLY1305 then Some(UnsupportedAead)
    else if |s.kdfParams| > MAX_KDF_PARAMS_LEN then Some(Malformed)
    else if |s.kdfSalt| > MAX_SALT_LEN || |s.chalSalt| > MAX_SALT_LEN then Some(Malformed)
    else if |s.challenge| > MAX_CHALLENGE_LEN then Some(Malformed)
    else if |s.slotLabel| > MAX_LABEL_LEN then Some(Malformed)
    else None
  }

  function MetaOf(s: Slot): Result<bytes> {
    if MetaError(s).Some? then Failure(MetaError(s).value) else Success(MetaBytes(s))
  }

  method AppendU16Bytes(dst: bytes, b: bytes) returns (out: bytes)
    ensures out == dst + Prefixed(b)
  {
    out := dst + BE16(|b|);
    out := out + b;
    Assoc(dst, BE16(|b|), b);
  }

  method MarshalMeta(s: Slot) returns (r: Result<bytes>)
    ensures r == MetaOf(s)
  {
    if !MethodTypeValid(s.typ) { return Failure(Malformed); }
    if s.aeadId != AEAD_CHACHA20_POLY1305 { return Failure(UnsupportedAead); }
    if |s.kdfParams| > MAX_KDF_PARAMS_LEN { return Failure(Malformed); }
    if |s.kdfSalt| > MAX_SALT_LEN || |s.chalSalt| > MAX_SALT_LEN { return Failure(Malformed); }
    if |s.challenge| > MAX_CHALLENGE_LEN { return Failure(Malformed); }
    if |s.slotLabel| > MAX_LABEL_LEN { return Failure(Malformed); }
    var b := [s.typ];
    b := b + s.id;
    b := b + [s.flags, s.aeadId, s.kdfId, s.ykSlot];
    b := AppendU16Bytes(b, s.kdfParams);
    b := AppendU16Bytes(b, s.kdfSalt);
    b := AppendU16Bytes(b, s.chalSalt);
    b := b + s.hkdfSalt;
    b := AppendU16Bytes(b, s.challenge);
    b := AppendU16Bytes(b, s.slotLabel);
    b := b + s.nonce;
    return Success(b);
  }

  // validateSlotShape: which types carry a KDF, and its parameter bounds.
  function ShapeError(s: Slot): Option<Error> {
    if (s.typ == METHOD_PASSWORD || s.typ == METHOD_PASSWORD_AND_YUBIKEY) && s.kdfId == KDF_NONE then Some(Malformed)
    else if (s.typ == METHOD_YUBIKEY || s.typ == METHOD_RECOVERY) && s.kdfId != KDF_NONE then Some(Malformed)
    else
      var k := Kdf.ParseKdf(s.kdfId, s.kdfParams);
      if k.Failure? then Some(k.error) else None
  }

  // The KDF of a slot as its type demands it: parameters within the bounds for
  // passwords and two factors, none at all for YubiKeys and recovery codes.
  ghost predicate KdfFitsType(s: Slot) {
    ((s.typ == 1 || s.typ == 3) ==>
      exists k :: Kdf.InBounds(k) && s.kdfId == Kdf.Id(k) && s.kdfParams == Kdf.ParamBytes(k))
    && ((s.typ == 2 || s.typ == 4) ==> s.kdfId == 0 && s.kdfParams == [])
  }

  // The shape check accepts exactly those.
  lemma ShapeExactly(s: Slot)
    requires 1 <= s.typ <= 4
    ensures ShapeError(s).None? <==> KdfFitsType(s)
  {
    hide Kdf.ParseKdf, Kdf.ParamBytes, Kdf.InBounds;
    Kdf.ParseKdfNone(s.kdfId, s.kdfParams);
    var r := Kdf.ParseKdf(s.kdfId, s.kdfParams);
    if r.Success? && r.value.Some? { Kdf.ParseKdfExact(s.kdfId, s.kdfParams, r.value.value); }
    if k :| Kdf.InBounds(k) && s.kdfId == Kdf.Id(k) && s.kdfParams == Kdf.ParamBytes(k) {
      Kdf.ParseKdfExact(s.kdfId, s.kdfParams, k);
    }
  }

  // Why a shape is refused.
  lemma ShapeErrors(s: Slot)
    requires 1 <= s.typ <= 4 && ShapeError(s).Some?
    ensures ShapeError(s).value ==
      if (s.kdfId == 0) == (s.typ == 1 || s.typ == 3) then Malformed
      else if s.kdfId > 2 then UnsupportedKdf
      else KdfParams
  {
  }

  // The bounds of the fields, in numbers.
  ghost predicate FieldsInNumbers(s: Slot) {
    1 <= s.typ <= 4 && s.aeadId == 1 && |s.kdfParams| <= 64 && |s.kdfSalt| <= 64 && |s.chalSalt| <= 64
    && |s.challenge| <= 64 && |s.slotLabel| <= 256
  }

  lemma MetaErrorExactly(s: Slot)
    ensures MetaError(s).None? <==> FieldsInNumbers(s)
    ensures MetaError(s).Some? ==>
      MetaError(s).value == if 1 <= s.typ <= 4 && s.aeadId != 1 then UnsupportedAead else Malformed
  {
  }

  // What the wire format can carry: bounded fields, a valid shape and
  // canonical metadata.
  ghost predicate WellFormed(s: Slot) {
    MetaError(s).None? && ShapeError(s).None?
    && WRAPPED_OVERHEAD <= |s.wrapped| <= MAX_WRAPPED_LEN
    && s.meta == Some(MetaBytes(s))
  }

  // Without length truncation, metadata is at most 563 bytes and at least the
  // 13-byte floor that parseSlot checks first.
  lemma MetaSize(s: Slot)
    requires MetaError(s).None?
    ensures SLOT_FIXED_LEN < |MetaBytes(s)| <= 563
  {
  }

  // The metadata followed by `tail`, opened field by field from the front.
  function MetaThen(s: Slot, tail: bytes): bytes {
    [s.typ] + (s.id + ([s.flags, s.aeadId, s.kdfId, s.ykSlot] + PrefixedThen(s, tail)))
  }

  function PrefixedThen(s: Slot, tail: bytes): bytes {
    Prefixed(s.kdfParams) + (Prefixed(s.kdfSalt) + (Prefixed(s.chalSalt) + LateThen(s, tail)))
  }

  function LateThen(s: Slot, tail: bytes): bytes {
    s.hkdfSalt + (Prefixed(s.challenge) + (Prefixed(s.slotLabel) + (s.nonce + tail)))
  }

  lemma Assoc4<T>(a: seq<T>, b: seq<T>, c: seq<T>, d: seq<T>, e: seq<T>)
    ensures a + b + c + d + e == a + (b + (c + (d + e)))
  {
    Assoc(a + b + c, d, e);
    Assoc(a + b, c, d + e);
    Assoc(a, b, c + (d + e));
  }

  lemma MetaThenIsMeta(s: Slot, tail: bytes)
    ensures MetaThen(s, tail) == MetaBytes(s) + tail
  {
    var early := [s.typ] + s.id + [s.flags, s.aeadId, s.kdfId, s.ykSlot];
    var mid := early + Prefixed(s.kdfParams) + Prefixed(s.kdfSalt) + Prefixed(s.chalSalt);
    Assoc4(mid + s.hkdfSalt, Prefixed(s.challenge), Prefixed(s.slotLabel), s.nonce, tail);
    Assoc(mid, s.hkdfSalt, Prefixed(s.challenge) + (Prefixed(s.slotLabel) + (s.nonce + tail)));
    assert MetaBytes(s) + tail == mid + LateThen(s, tail);
    Assoc4(early, Prefixed(s.kdfParams), Prefixed(s.kdfSalt), Prefixed(s.chalSalt), LateThen(s, tail));
    assert mid + LateThen(s, tail) == early + PrefixedThen(s, tail);
    Assoc([s.typ] + s.id, [s.flags, s.aeadId, s.kdfId, s.ykSlot], PrefixedThen(s, tail));
    Assoc([s.typ], s.id, [s.flags, s.aeadId, s.kdfId, s.ykSlot] + PrefixedThen(s, tail));
  }
}
