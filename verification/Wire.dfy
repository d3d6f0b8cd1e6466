/** The wire format as functions on byte strings: what Marshal prints and what
    ParseEnvelope accepts, and the theorems that tie the two together. */
module Wire {
  import opened Bytes
  import opened Errors
  import opened Kinds
  import opened Slots

  // The value of an Envelope object.
  datatype Image = Image(version: byte, policyHint: byte, slots: seq<Slot>)

  const MAGIC: bytes := [0x54, 0x4D, 0x42, 0x4C]

  // ---- printing ----

  // The metadata Marshal writes for a slot: the kept bytes, else freshly encoded.
  function MetaToWrite(s: Slot): Result<bytes> {
    if s.meta.Some? then Success(s.meta.value) else MetaOf(s)
  }

  function Chunk(meta: bytes, wrapped: bytes): bytes {
    BE32(|meta + wrapped|) + (meta + wrapped)
  }

  function Header(version: byte, policyHint: byte, count: nat): bytes {
    MAGIC + [version, policyHint] + BE16(count)
  }

  // One turn of Marshal's loop: the output grown by one slot.
  function MarshalSlot(s: Slot, out: bytes): Result<bytes> {
    if |s.wrapped| == 0 || |s.wrapped| > MAX_WRAPPED_LEN then Failure(Malformed) else
    var meta :- MetaToWrite(s);
    var grown := out + Chunk(meta, s.wrapped);
    if |grown| > MAX_ENVELOPE_LEN then Failure(Malformed) else Success(grown)
  }

  function MarshalSlots(slots: seq<Slot>, out: bytes): Result<bytes> {
    if slots == [] then Success(out) else
    var grown :- MarshalSlot(slots[0], out);
    MarshalSlots(slots[1..], grown)
  }

  function Marshal(e: Image): Result<bytes> {
    if |e.slots| == 0 || |e.slots| > MAX_SLOT_COUNT then Failure(Malformed)
    else MarshalSlots(e.slots, Header(e.version, e.policyHint, |e.slots|))
  }

  // ---- parsing, on the bytes still unread ----

  function Take(rest: bytes, n: nat): Result<(bytes, bytes)> {
    if n > |rest| then Failure(ShortData) else Success((rest[..n], rest[n..]))
  }

  function ReadU8(rest: bytes): Result<(byte, bytes)> {
    if |rest| < 1 then Failure(ShortData) else Success((rest[0], rest[1..]))
  }

  function ReadU16(rest: bytes): Result<(word16, bytes)> {
    if |rest| < 2 then Failure(ShortData) else Success((FromBE16(rest[0], rest[1]), rest[2..]))
  }

  function ReadU32(rest: bytes): Result<(word32, bytes)> {
    if |rest| < 4 then Failure(ShortData)
    else Success((FromBE32(rest[0], rest[1], rest[2], rest[3]), rest[4..]))
  }

  function TakeU16(rest: bytes, maxLen: nat): Result<(bytes, bytes)> {
    var (n, r) :- ReadU16(rest);
    if n > maxLen then Failure(Malformed) else Take(r, n)
  }

  const BLANK: Slot :=
    Slot(0, NO_ID, 0, 0, 0, 0, [], [], [], NO_SALT, [], [], NO_NONCE, [], None)

  // The six fixed fields.
  function ParseFixed(body: bytes): Result<(Slot, bytes)> {
    var (t, r1) :- ReadU8(body);
    if !MethodTypeValid(t) then Failure(Malformed) else
    var (id, r2) :- Take(r1, 8);
    var (flags, r3) :- ReadU8(r2);
    var (aead, r4) :- ReadU8(r3);
    if aead != AEAD_CHACHA20_POLY1305 then Failure(UnsupportedAead) else
    var (kdf, r5) :- ReadU8(r4);
    var (yk, r6) :- ReadU8(r5);
    Success((BLANK.(typ := t, id := id, flags := flags, aeadId := aead, kdfId := kdf, ykSlot := yk), r6))
  }

  // The three length-prefixed fields before the HKDF salt.
  function ParseEarly(s: Slot, rest: bytes): Result<(Slot, bytes)> {
    var (params, r1) :- TakeU16(rest, MAX_KDF_PARAMS_LEN);
    var (kdfSalt, r2) :- TakeU16(r1, MAX_SALT_LEN);
    var (chalSalt, r3) :- TakeU16(r2, MAX_SALT_LEN);
    Success((s.(kdfParams := params, kdfSalt := kdfSalt, chalSalt := chalSalt), r3))
  }

  function ParseLate(s: Slot, rest: bytes): Result<(Slot, bytes)> {
    var (hkdfSalt, r1) :- Take(rest, 16);
    var (challenge, r2) :- TakeU16(r1, MAX_CHALLENGE_LEN);
    var (name, r3) :- TakeU16(r2, MAX_LABEL_LEN);
    var (nonce, r4) :- Take(r3, 12);
    Success((s.(hkdfSalt := hkdfSalt, challenge := challenge, slotLabel := name, nonce := nonce), r4))
  }

  // All the metadata fields of a slot body; what follows is the wrapped key.
  function ParseMeta(body: bytes): Result<(Slot, bytes)> {
    var (s1, r1) :- ParseFixed(body);
    var (s2, r2) :- ParseEarly(s1, r1);
    ParseLate(s2, r2)
  }

  // The body of one slot: every byte belongs to this slot.
  function ParseBody(body: bytes): Result<Slot> {
    var (s, wrapped) :- ParseMeta(body);
    if |wrapped| < WRAPPED_OVERHEAD || |wrapped| > MAX_WRAPPED_LEN || |wrapped| > |body| then Failure(Malformed) else
    var full := s.(meta := Some(body[..|body| - |wrapped|]), wrapped := wrapped);
    if ShapeError(full).Some? then Failure(ShapeError(full).value) else Success(full)
  }

  function ParseSlot(rest: bytes): Result<(Slot, bytes)> {
    var (n, r) :- ReadU32(rest);
    if n < SLOT_FIXED_LEN || n > MAX_ENVELOPE_LEN then Failure(Malformed)
    else if n > |r| then Failure(ShortData)
    else
      var s :- ParseBody(r[..n]);
      Success((s, r[n..]))
  }

  function ParseSlots(rest: bytes, count: nat): Result<(seq<Slot>, bytes)> {
    if count == 0 then Success(([], rest)) else
    var (s, r) :- ParseSlot(rest);
    var (ss, r') :- ParseSlots(r, count - 1);
    Success(([s] + ss, r'))
  }

  function Parse(b: bytes): Result<Image> {
    if |b| > MAX_ENVELOPE_LEN then Failure(Malformed)
    else if |b| < HEADER_LEN then Failure(ShortData)
    else if b[0] != MAGIC[0] || b[1] != MAGIC[1] || b[2] != MAGIC[2] || b[3] != MAGIC[3] then Failure(BadMagic)
    else if b[4] != FORMAT_VERSION then Failure(BadVersion)
    else
      var count := FromBE16(b[6], b[7]);
      if count == 0 || count > MAX_SLOT_COUNT then Failure(Malformed) else
      var (slots, rest) :- ParseSlots(b[HEADER_LEN..], count);
      if rest != [] then Failure(Malformed) else Success(Image(b[4], b[5], slots))
  }

  // ---- the fields ----

  lemma ReadU8Exact(rest: bytes, v: byte, tail: bytes)
    ensures ReadU8(rest) == Success((v, tail)) <==> rest == [v] + tail
  {
    if |rest| > 0 { assert rest == [rest[0]] + rest[1..]; }
  }

  lemma TakeExact(rest: bytes, n: nat, v: bytes, tail: bytes)
    ensures Take(rest, n) == Success((v, tail)) <==> |v| == n && rest == v + tail
  {
    if n <= |rest| { assert rest == rest[..n] + rest[n..]; }
    if |v| == n && rest == v + tail { assert rest[..n] == v && rest[n..] == tail; }
  }

  lemma ReadU32Exact(rest: bytes, n: word32, tail: bytes)
    ensures ReadU32(rest) == Success((n, tail)) <==> rest == BE32(n) + tail
  {
    if |rest| >= 4 {
      BE32Exact(rest[..4], n);
      TakeExact(rest, 4, BE32(n), tail);
    }
  }

  lemma ReadU16Exact(rest: bytes, n: word16, tail: bytes)
    ensures ReadU16(rest) == Success((n, tail)) <==> rest == BE16(n) + tail
  {
    BE16RoundTrip(n);
    if |rest| >= 2 {
      FromBE16RoundTrip(rest[0], rest[1]);
      assert rest == [rest[0], rest[1]] + rest[2..];
      TakeExact(rest, 2, BE16(n), tail);
    }
  }

  // A length-prefixed field is read back exactly when it was printed within its bound.
  lemma TakeU16Exact(rest: bytes, maxLen: word16, v: bytes, tail: bytes)
    ensures TakeU16(rest, maxLen) == Success((v, tail)) <==> |v| <= maxLen && rest == Prefixed(v) + tail
  {
    if TakeU16(rest, maxLen) == Success((v, tail)) {
      var (n, r) := ReadU16(rest).value;
      ReadU16Exact(rest, n, r);
      TakeExact(r, n, v, tail);
      Assoc(BE16(n), v, tail);
    }
    if |v| <= maxLen && rest == Prefixed(v) + tail {
      Assoc(BE16(|v|), v, tail);
      ReadU16Exact(rest, |v|, v + tail);
      TakeExact(v + tail, |v|, v, tail);
    }
  }

  // ---- parse, then print ----

  // The slot with its six fixed fields only.
  function FixedPart(s: Slot): Slot {
    BLANK.(typ := s.typ, id := s.id, flags := s.flags, aeadId := s.aeadId, kdfId := s.kdfId, ykSlot := s.ykSlot)
  }

  // s0 with the late fields of s.
  function WithLate(s0: Slot, s: Slot): Slot {
    s0.(hkdfSalt := s.hkdfSalt, challenge := s.challenge, slotLabel := s.slotLabel, nonce := s.nonce)
  }

  lemma FixedSound(body: bytes, s: Slot, rest: bytes)
    requires ParseFixed(body) == Success((s, rest))
    ensures body == [s.typ] + (s.id + ([s.flags, s.aeadId, s.kdfId, s.ykSlot] + rest))
    ensures MethodTypeValid(s.typ) && s.aeadId == AEAD_CHACHA20_POLY1305
    ensures s == FixedPart(s)
  {
    var r1 := body[1..];
    var r2 := r1[8..];
    ReadU8Exact(body, s.typ, r1);
    TakeExact(r1, 8, s.id, r2);
    assert r2 == [s.flags, s.aeadId, s.kdfId, s.ykSlot] + rest;
  }

  lemma EarlySound(s0: Slot, input: bytes, s: Slot, rest: bytes)
    requires ParseEarly(s0, input) == Success((s, rest))
    ensures input == Prefixed(s.kdfParams) + (Prefixed(s.kdfSalt) + (Prefixed(s.chalSalt) + rest))
    ensures |s.kdfParams| <= MAX_KDF_PARAMS_LEN && |s.kdfSalt| <= MAX_SALT_LEN && |s.chalSalt| <= MAX_SALT_LEN
    ensures s == s0.(kdfParams := s.kdfParams, kdfSalt := s.kdfSalt, chalSalt := s.chalSalt)
  {
    var (a, r1) := TakeU16(input, MAX_KDF_PARAMS_LEN).value;
    var (b, r2) := TakeU16(r1, MAX_SALT_LEN).value;
    TakeU16Exact(input, MAX_KDF_PARAMS_LEN, a, r1);
    TakeU16Exact(r1, MAX_SALT_LEN, b, r2);
    TakeU16Exact(r2, MAX_SALT_LEN, s.chalSalt, rest);
  }

  lemma LateSound(s0: Slot, input: bytes, s: Slot, rest: bytes)
    requires ParseLate(s0, input) == Success((s, rest))
    ensures input == LateThen(s, rest)
    ensures |s.challenge| <= MAX_CHALLENGE_LEN && |s.slotLabel| <= MAX_LABEL_LEN
    ensures s == WithLate(s0, s)
  {
    var (h, r1) := Take(input, 16).value;
    var (c, r2) := TakeU16(r1, MAX_CHALLENGE_LEN).value;
    var (l, r3) := TakeU16(r2, MAX_LABEL_LEN).value;
    TakeExact(input, 16, h, r1);
    TakeU16Exact(r1, MAX_CHALLENGE_LEN, c, r2);
    TakeU16Exact(r2, MAX_LABEL_LEN, l, r3);
    TakeExact(r3, 12, s.nonce, rest);
  }

  // The bytes consumed for the metadata are the bytes marshalMeta writes for it.
  lemma MetaSound(body: bytes, s: Slot, rest: bytes)
    requires ParseMeta(body) == Success((s, rest))
    ensures body == MetaBytes(s) + rest
    ensures MetaError(s).None?
    ensures s.wrapped == [] && s.meta == None
  {
    var (s1, r1) := ParseFixed(body).value;
    var (s2, r2) := ParseEarly(s1, r1).value;
    FixedSound(body, s1, r1);
    EarlySound(s1, r1, s2, r2);
    LateSound(s2, r2, s, rest);
    assert body == MetaThen(s, rest);
    MetaThenIsMeta(s, rest);
  }

  lemma MetaIgnoresWrapped(s: Slot, wrapped: bytes, meta: Option<bytes>)
    ensures MetaBytes(s.(wrapped := wrapped, meta := meta)) == MetaBytes(s)
    ensures MetaError(s.(wrapped := wrapped, meta := meta)) == MetaError(s)
    ensures ShapeError(s.(wrapped := wrapped, meta := meta)) == ShapeError(s)
  {
  }

  lemma BodySound(body: bytes, s: Slot)
    requires ParseBody(body) == Success(s)
    ensures WellFormed(s) && body == MetaBytes(s) + s.wrapped
  {
    var (m, wrapped) := ParseMeta(body).value;
    MetaSound(body, m, wrapped);
    assert body[..|body| - |wrapped|] == MetaBytes(m);
    MetaIgnoresWrapped(m, wrapped, s.meta);
  }

  lemma SlotSound(rest: bytes, s: Slot, tail: bytes)
    requires ParseSlot(rest) == Success((s, tail))
    ensures WellFormed(s) && rest == Chunk(MetaBytes(s), s.wrapped) + tail
  {
    hide ReadU32, ParseBody, WellFormed, MetaBytes, BE32;
    var (n, r) := ReadU32(rest).value;
    ReadU32Exact(rest, n, r);
    BodySound(r[..n], s);
    assert r == r[..n] + r[n..];
    Assoc(BE32(n), r[..n], r[n..]);
  }

  // ---- print, then parse ----

  lemma FixedComplete(s: Slot, rest: bytes)
    requires MetaError(s).None?
    ensures ParseFixed([s.typ] + (s.id + ([s.flags, s.aeadId, s.kdfId, s.ykSlot] + rest)))
      == Success((FixedPart(s), rest))
  {
    var r2 := [s.flags, s.aeadId, s.kdfId, s.ykSlot] + rest;
    var r1 := s.id + r2;
    ReadU8Exact([s.typ] + r1, s.typ, r1);
    TakeExact(r1, 8, s.id, r2);
    assert r2[1..][1..][1..][1..] == rest;
  }

  lemma EarlyComplete(s0: Slot, s: Slot, rest: bytes)
    requires MetaError(s).None?
    ensures ParseEarly(s0, Prefixed(s.kdfParams) + (Prefixed(s.kdfSalt) + (Prefixed(s.chalSalt) + rest)))
      == Success((s0.(kdfParams := s.kdfParams, kdfSalt := s.kdfSalt, chalSalt := s.chalSalt), rest))
  {
    var r2 := Prefixed(s.chalSalt) + rest;
    var r1 := Prefixed(s.kdfSalt) + r2;
    TakeU16Exact(Prefixed(s.kdfParams) + r1, MAX_KDF_PARAMS_LEN, s.kdfParams, r1);
    TakeU16Exact(r1, MAX_SALT_LEN, s.kdfSalt, r2);
    TakeU16Exact(r2, MAX_SALT_LEN, s.chalSalt, rest);
  }

  lemma LateComplete(s0: Slot, s: Slot, rest: bytes)
    requires MetaError(s).None?
    ensures ParseLate(s0, LateThen(s, rest))
      == Success((WithLate(s0, s), rest))
  {
    var r3 := s.nonce + rest;
    var r2 := Prefixed(s.slotLabel) + r3;
    var r1 := Prefixed(s.challenge) + r2;
    TakeExact(s.hkdfSalt + r1, 16, s.hkdfSalt, r1);
    TakeU16Exact(r1, MAX_CHALLENGE_LEN, s.challenge, r2);
    TakeU16Exact(r2, MAX_LABEL_LEN, s.slotLabel, r3);
    TakeExact(r3, 12, s.nonce, rest);
  }

  lemma MetaComplete(s: Slot, rest: bytes)
    requires MetaError(s).None?
    ensures ParseMeta(MetaBytes(s) + rest) == Success((s.(wrapped := [], meta := None), rest))
  {
    MetaThenIsMeta(s, rest);
    FixedComplete(s, PrefixedThen(s, rest));
    var (s1, r1) := ParseFixed(MetaThen(s, rest)).value;
    EarlyComplete(s1, s, LateThen(s, rest));
    var (s2, r2) := ParseEarly(s1, r1).value;
    LateComplete(s2, s, rest);
  }

  lemma BodyComplete(s: Slot)
    requires WellFormed(s)
    ensures ParseBody(MetaBytes(s) + s.wrapped) == Success(s)
  {
    hide ParseMeta, MetaBytes, MetaError, ShapeError;
    MetaComplete(s, s.wrapped);
    MetaIgnoresWrapped(s, [], None);
    var body := MetaBytes(s) + s.wrapped;
    assert body[..|body| - |s.wrapped|] == MetaBytes(s);
  }

  lemma SlotComplete(s: Slot, tail: bytes)
    requires WellFormed(s)
    ensures ParseSlot(Chunk(MetaBytes(s), s.wrapped) + tail) == Success((s, tail))
  {
    var body := MetaBytes(s) + s.wrapped;
    MetaSize(s);
    Assoc(BE32(|body|), body, tail);
    ReadU32Exact(BE32(|body|) + (body + tail), |body|, body + tail);
    TakeExact(body + tail, |body|, body, tail);
    BodyComplete(s);
  }

  // ---- whole envelopes ----

  ghost predicate AllWellFormed(slots: seq<Slot>) {
    forall i :: 0 <= i < |slots| ==> WellFormed(slots[i])
  }

  ghost predicate WellFormedImage(e: Image) {
    e.version == FORMAT_VERSION && 1 <= |e.slots| <= MAX_SLOT_COUNT && AllWellFormed(e.slots)
  }

  // The slot section of a well-formed envelope.
  function Chunks(slots: seq<Slot>): bytes {
    if slots == [] then [] else Chunk(MetaBytes(slots[0]), slots[0].wrapped) + Chunks(slots[1..])
  }

  // Every slot a caller can hold: built in memory without kept metadata, or made
  // by enrolling or parsing.
  ghost predicate Kept(s: Slot) {
    s.meta.Some? ==> MetaError(s).None? && s.meta == Some(MetaBytes(s))
  }

  ghost predicate Printable(s: Slot) {
    MetaError(s).None? && 1 <= |s.wrapped| <= MAX_WRAPPED_LEN
  }

  lemma PrintOne(s: Slot, out: bytes)
    requires Kept(s) && |out| + (4 + 563 + 256) <= MAX_ENVELOPE_LEN
    ensures MarshalSlot(s, out).Success? <==> Printable(s)
    ensures Printable(s) ==>
      MarshalSlot(s, out) == Success(out + Chunk(MetaBytes(s), s.wrapped))
      && |Chunk(MetaBytes(s), s.wrapped)| <= 4 + 563 + 256
  {
    hide MetaBytes;
    if MetaError(s).None? { MetaSize(s); }
  }

  lemma {:induction false} PrintAll(slots: seq<Slot>, out: bytes)
    requires forall s :: s in slots ==> Kept(s)
    requires |out| + |slots| * (4 + 563 + 256) <= MAX_ENVELOPE_LEN
    ensures MarshalSlots(slots, out).Success? <==> forall s :: s in slots ==> Printable(s)
    ensures (forall s :: s in slots ==> Printable(s)) ==> MarshalSlots(slots, out) == Success(out + Chunks(slots))
  {
    hide Kept, Printable, MarshalSlot, Chunk, MetaBytes;
    if slots == [] {
      assert out + Chunks(slots) == out;
    } else {
      var s := slots[0];
      var c := Chunk(MetaBytes(s), s.wrapped);
      PrintOne(s, out);
      assert forall t :: t in slots <==> t == s || t in slots[1..];
      if Printable(s) {
        PrintAll(slots[1..], out + c);
        Assoc(out, c, Chunks(slots[1..]));
      }
    }
  }

  lemma {:induction false} BodySize(slots: seq<Slot>)
    requires forall s :: s in slots ==> Printable(s)
    ensures |Chunks(slots)| <= |slots| * (4 + 563 + 256)
  {
    if slots != [] {
      assert slots[0] in slots && forall s :: s in slots[1..] ==> s in slots;
      MetaSize(slots[0]);
      BodySize(slots[1..]);
    }
  }

  lemma {:induction false} SlotsExact(b: bytes, count: nat, slots: seq<Slot>, rest: bytes)
    ensures ParseSlots(b, count) == Success((slots, rest))
      <==> |slots| == count && AllWellFormed(slots) && b == Chunks(slots) + rest
    decreases count
  {
    hide ParseSlot, Chunk, MetaBytes, WellFormed;
    if count == 0 {
      if |slots| == 0 { assert Chunks(slots) + rest == rest; }
    } else {
      if ParseSlots(b, count) == Success((slots, rest)) {
        var (s, r) := ParseSlot(b).value;
        var (ss, _) := ParseSlots(r, count - 1).value;
        SlotSound(b, s, r);
        SlotsExact(r, count - 1, ss, rest);
        assert slots == [s] + ss && slots[1..] == ss;
        Assoc(Chunk(MetaBytes(s), s.wrapped), Chunks(ss), rest);
      }
      if |slots| == count && AllWellFormed(slots) && b == Chunks(slots) + rest {
        var s, ss := slots[0], slots[1..];
        Assoc(Chunk(MetaBytes(s), s.wrapped), Chunks(ss), rest);
        SlotComplete(s, Chunks(ss) + rest);
        SlotsExact(Chunks(ss) + rest, count - 1, ss, rest);
        assert slots == [s] + ss;
      }
    }
  }

  // Marshalling a well-formed envelope never fails, and is at most 52680 bytes long.
  lemma MarshalWellFormed(e: Image)
    requires WellFormedImage(e)
    ensures Marshal(e) == Success(Header(e.version, e.policyHint, |e.slots|) + Chunks(e.slots))
    ensures |Marshal(e).value| <= 8 + |e.slots| * (4 + 563 + 256) <= 52680
  {
    hide MetaBytes, MetaError, ShapeError, Chunk;
    forall s | s in e.slots ensures Kept(s) && Printable(s) {
      var i :| 0 <= i < |e.slots| && e.slots[i] == s;
      assert WellFormed(e.slots[i]);
    }
    PrintAll(e.slots, Header(e.version, e.policyHint, |e.slots|));
    BodySize(e.slots);
  }

  lemma HeaderExact(b: bytes, version: byte, hint: byte, count: word16, rest: bytes)
    ensures b == Header(version, hint, count) + rest <==>
      |b| >= HEADER_LEN && b[0] == MAGIC[0] && b[1] == MAGIC[1] && b[2] == MAGIC[2] && b[3] == MAGIC[3]
      && b[4] == version && b[5] == hint && FromBE16(b[6], b[7]) == count && b[HEADER_LEN..] == rest
  {
    BE16RoundTrip(count);
    if |b| >= HEADER_LEN {
      FromBE16RoundTrip(b[6], b[7]);
      assert b == b[..HEADER_LEN] + b[HEADER_LEN..];
      assert b[..HEADER_LEN] == [b[0], b[1], b[2], b[3]] + [b[4], b[5]] + [b[6], b[7]];
      TakeExact(b, HEADER_LEN, Header(version, hint, count), rest);
    }
  }

  lemma ParseThenPrint(b: bytes, e: Image)
    requires Parse(b) == Success(e)
    ensures WellFormedImage(e) && Marshal(e) == Success(b)
  {
    hide WellFormed, Header;
    var count := FromBE16(b[6], b[7]);
    SlotsExact(b[HEADER_LEN..], count, e.slots, []);
    assert b[HEADER_LEN..] == Chunks(e.slots);
    HeaderExact(b, e.version, e.policyHint, count, Chunks(e.slots));
    MarshalWellFormed(e);
  }

  lemma PrintThenParse(b: bytes, e: Image)
    requires WellFormedImage(e) && Marshal(e) == Success(b)
    ensures Parse(b) == Success(e)
  {
    hide WellFormed, Header;
    MarshalWellFormed(e);
    HeaderExact(b, e.version, e.policyHint, |e.slots|, Chunks(e.slots));
    assert Chunks(e.slots) + [] == Chunks(e.slots);
    SlotsExact(b[HEADER_LEN..], |e.slots|, e.slots, []);
  }

  // The parser accepts a byte string with result `e` exactly when `e` is
  // well-formed and prints to that byte string.
  lemma ParseIffMarshal(b: bytes, e: Image)
    ensures Parse(b) == Success(e) <==> WellFormedImage(e) && Marshal(e) == Success(b)
  {
    if Parse(b) == Success(e) { ParseThenPrint(b, e); }
    if WellFormedImage(e) && Marshal(e) == Success(b) { PrintThenParse(b, e); }
  }

  // Different well-formed envelopes never print to the same bytes.
  lemma MarshalInjective(e: Image, f: Image)
    requires WellFormedImage(e) && WellFormedImage(f)
    requires Marshal(e) == Marshal(f)
    ensures e == f
  {
    MarshalWellFormed(e);
    ParseIffMarshal(Marshal(e).value, e);
    ParseIffMarshal(Marshal(e).value, f);
  }

  // Metadata bytes determine every authenticated field: no slot's metadata is
  // even a prefix of another's unless the fields agree.
  lemma MetaInjective(s: Slot, t: Slot, a: bytes, b: bytes)
    requires MetaError(s).None? && MetaError(t).None?
    requires MetaBytes(s) + a == MetaBytes(t) + b
    ensures s.(wrapped := [], meta := None) == t.(wrapped := [], meta := None) && a == b
  {
    MetaComplete(s, a);
    MetaComplete(t, b);
  }

  // ---- in numbers ----

  // What the parser lets through in any slot.
  ghost predicate InNumbers(s: Slot) {
    FieldsInNumbers(s) && KdfFitsType(s) && 16 <= |s.wrapped| <= 256
  }

  lemma WellFormedInNumbers(s: Slot)
    ensures WellFormed(s) <==> InNumbers(s) && s.meta == Some(MetaBytes(s))
  {
    hide MetaBytes, MetaError, ShapeError, FieldsInNumbers, KdfFitsType;
    MetaErrorExactly(s);
    if MetaError(s).None? {
      TypeInRange(s);
      ShapeExactly(s);
    }
  }

  lemma TypeInRange(s: Slot)
    requires MetaError(s).None?
    ensures 1 <= s.typ <= 4
  {
  }

  // A byte string is accepted exactly when it is the printed form of 1 to 64 slots
  // within these numbers, under version 1.
  lemma AcceptedInNumbers(b: bytes, e: Image)
    ensures Parse(b) == Success(e) <==>
      e.version == 1 && 1 <= |e.slots| <= 64
      && (forall i :: 0 <= i < |e.slots| ==> InNumbers(e.slots[i]) && e.slots[i].meta == Some(MetaBytes(e.slots[i])))
      && Marshal(e) == Success(b)
  {
    hide WellFormed, MetaBytes, InNumbers, Parse, Marshal;
    ParseIffMarshal(b, e);
    forall i | 0 <= i < |e.slots|
      ensures WellFormed(e.slots[i]) <==> InNumbers(e.slots[i]) && e.slots[i].meta == Some(MetaBytes(e.slots[i]))
    {
      WellFormedInNumbers(e.slots[i]);
    }
  }

  // Which error the header gives, in the order of the checks.
  lemma HeaderErrors(b: bytes)
    ensures |b| > 1048576 ==> Parse(b) == Failure(Malformed)
    ensures |b| < 8 ==> Parse(b) == Failure(ShortData)
    ensures 8 <= |b| <= 1048576 && b[..4] != [84, 77, 66, 76] ==> Parse(b) == Failure(BadMagic)
    ensures 8 <= |b| <= 1048576 && b[..4] == [84, 77, 66, 76] && b[4] != 1 ==> Parse(b) == Failure(BadVersion)
    ensures 8 <= |b| <= 1048576 && b[..4] == [84, 77, 66, 76] && b[4] == 1 ==>
      (b[6] > 0 || b[7] == 0 || b[7] > 64) ==> Parse(b) == Failure(Malformed)
  {
    hide ParseSlots;
    if |b| >= 8 {
      assert b[..4] == [b[0], b[1], b[2], b[3]];
      assert MAGIC == [84, 77, 66, 76];
    }
  }

  // Bytes behind the last slot are refused.
  lemma TrailingBytes(b: bytes, e: Image, more: bytes)
    requires Parse(b) == Success(e) && more != [] && |b + more| <= 1048576
    ensures Parse(b + more) == Failure(Malformed)
  {
    hide WellFormed, Header, Chunks, ParseSlots;
    var count := FromBE16(b[6], b[7]);
    SlotsExact(b[HEADER_LEN..], count, e.slots, []);
    assert Chunks(e.slots) + [] == Chunks(e.slots);
    var body := b[HEADER_LEN..];
    assert ParseSlots(body, count).value == (e.slots, ParseSlots(body, count).value.1);
    assert body == Chunks(e.slots);
    assert (b + more)[HEADER_LEN..] == body + more;
    SlotsExact((b + more)[HEADER_LEN..], count, e.slots, more);
  }

  lemma TakeU16Complete(v: bytes, maxLen: word16, tail: bytes)
    requires |v| < 0x1_0000
    ensures TakeU16(Prefixed(v) + tail, maxLen) == if |v| > maxLen then Failure(Malformed) else Success((v, tail))
  {
    Assoc(BE16(|v|), v, tail);
    ReadU16Exact(BE16(|v|) + (v + tail), |v|, v + tail);
    if |v| <= maxLen { TakeExact(v + tail, |v|, v, tail); }
  }

  // Metadata whose lengths fit their length fields is refused exactly for a bound.
  lemma MetaRefused(s: Slot, rest: bytes)
    requires |s.kdfParams| < 0x1_0000 && |s.kdfSalt| < 0x1_0000 && |s.chalSalt| < 0x1_0000
    requires |s.challenge| < 0x1_0000 && |s.slotLabel| < 0x1_0000
    ensures !FieldsInNumbers(s) ==>
      ParseMeta(MetaBytes(s) + rest) == Failure(if 1 <= s.typ <= 4 && s.aeadId != 1 then UnsupportedAead else Malformed)
  {
    MetaThenIsMeta(s, rest);
    FixedRefused(s, PrefixedThen(s, rest));
    if 1 <= s.typ <= 4 && s.aeadId == 1 {
      hide TakeU16, ParseFixed, Prefixed;
      var early := LateThen(s, rest);
      TakeU16Complete(s.kdfParams, 64, Prefixed(s.kdfSalt) + (Prefixed(s.chalSalt) + early));
      TakeU16Complete(s.kdfSalt, 64, Prefixed(s.chalSalt) + early);
      TakeU16Complete(s.chalSalt, 64, early);
      var late := Prefixed(s.challenge) + (Prefixed(s.slotLabel) + (s.nonce + rest));
      TakeExact(early, 16, s.hkdfSalt, late);
      TakeU16Complete(s.challenge, 64, Prefixed(s.slotLabel) + (s.nonce + rest));
      TakeU16Complete(s.slotLabel, 256, s.nonce + rest);
    }
  }

  lemma FixedRefused(s: Slot, rest: bytes)
    ensures ParseFixed([s.typ] + (s.id + ([s.flags, s.aeadId, s.kdfId, s.ykSlot] + rest))) ==
      if !(1 <= s.typ <= 4) then Failure(Malformed)
      else if s.aeadId != 1 then Failure(UnsupportedAead)
      else Success((FixedPart(s), rest))
  {
    var r2 := [s.flags, s.aeadId, s.kdfId, s.ykSlot] + rest;
    var r1 := s.id + r2;
    ReadU8Exact([s.typ] + r1, s.typ, r1);
    TakeExact(r1, 8, s.id, r2);
    assert r2[1..][1..][1..][1..] == rest;
  }

  lemma LongEnough(s: Slot)
    ensures |MetaBytes(s)| >= SLOT_FIXED_LEN
  {
  }

  // What a complete slot chunk is refused for: the first broken bound in field order,
  // then the wrapped length, then the shape.
  lemma SlotRefused(s: Slot, tail: bytes)
    requires |s.kdfParams| < 0x1_0000 && |s.kdfSalt| < 0x1_0000 && |s.chalSalt| < 0x1_0000
    requires |s.challenge| < 0x1_0000 && |s.slotLabel| < 0x1_0000
    requires |MetaBytes(s) + s.wrapped| <= 1048576
    ensures !(1 <= s.typ <= 4) ==> ParseSlot(Chunk(MetaBytes(s), s.wrapped) + tail) == Failure(Malformed)
    ensures 1 <= s.typ <= 4 && s.aeadId != 1 ==>
      ParseSlot(Chunk(MetaBytes(s), s.wrapped) + tail) == Failure(UnsupportedAead)
    ensures 1 <= s.typ <= 4 && s.aeadId == 1 && !FieldsInNumbers(s) ==>
      ParseSlot(Chunk(MetaBytes(s), s.wrapped) + tail) == Failure(Malformed)
    ensures FieldsInNumbers(s) && !(16 <= |s.wrapped| <= 256) ==>
      ParseSlot(Chunk(MetaBytes(s), s.wrapped) + tail) == Failure(Malformed)
  {
    hide MetaBytes, ParseMeta, FieldsInNumbers;
    var body := MetaBytes(s) + s.wrapped;
    Assoc(BE32(|body|), body, tail);
    ReadU32Exact(BE32(|body|) + (body + tail), |body|, body + tail);
    TakeExact(body + tail, |body|, body, tail);
    LongEnough(s);
    MetaRefused(s, s.wrapped);
    MetaErrorExactly(s);
    if FieldsInNumbers(s) { MetaComplete(s, s.wrapped); }
  }

  // A chunk that is cut off anywhere.
  lemma SlotTruncated(s: Slot, p: bytes)
    requires WellFormed(s) && p < Chunk(MetaBytes(s), s.wrapped)
    ensures ParseSlot(p) == Failure(ShortData)
  {
    hide MetaBytes, ParseBody;
    var body := MetaBytes(s) + s.wrapped;
    var chunk := BE32(|body|) + body;
    MetaSize(s);
    if |p| >= 4 {
      assert p == chunk[..|p|];
      assert p[..4] == BE32(|body|);
      assert p == BE32(|body|) + p[4..];
      ReadU32Exact(p, |body|, p[4..]);
    }
  }

  lemma {:induction false} SlotsTruncated(slots: seq<Slot>, p: bytes)
    requires AllWellFormed(slots) && p < Chunks(slots)
    ensures ParseSlots(p, |slots|) == Failure(ShortData)
  {
    hide WellFormed, Chunk, MetaBytes, ParseSlot;
    var s, rest := slots[0], slots[1..];
    var chunk := Chunk(MetaBytes(s), s.wrapped);
    assert p == (chunk + Chunks(rest))[..|p|];
    if |p| < |chunk| {
      assert p == chunk[..|p|];
      SlotTruncated(s, p);
    } else {
      var q := p[|chunk|..];
      assert p == chunk + q && q == Chunks(rest)[..|q|];
      SlotComplete(s, q);
      SlotsTruncated(rest, q);
    }
  }

  // An accepted byte string that is cut off anywhere gives ErrShortData.
  lemma TruncatedBytes(b: bytes, e: Image, p: bytes)
    requires Parse(b) == Success(e) && p < b
    ensures Parse(p) == Failure(ShortData)
  {
    hide WellFormed, Header, Chunks;
    if |p| >= HEADER_LEN {
      var count := FromBE16(b[6], b[7]);
      SlotsExact(b[HEADER_LEN..], count, e.slots, []);
      assert Chunks(e.slots) + [] == Chunks(e.slots);
      assert p == b[..|p|] && p[HEADER_LEN..] == Chunks(e.slots)[..|p| - HEADER_LEN];
      SlotsTruncated(e.slots, p[HEADER_LEN..]);
    }
  }

  // Which error the length field of a slot gives.
  lemma SlotLengthErrors(rest: bytes)
    ensures |rest| < 4 ==> ParseSlot(rest) == Failure(ShortData)
    ensures |rest| >= 4 ==>
      var n := FromBE32(rest[0], rest[1], rest[2], rest[3]);
      (!(13 <= n <= 1048576) ==> ParseSlot(rest) == Failure(Malformed))
      && (13 <= n <= 1048576 && n > |rest| - 4 ==> ParseSlot(rest) == Failure(ShortData))
  {
    hide ParseBody;
  }

  // Cut off, a field is either still there in full or missing.
  lemma TakeCut(full: bytes, n: nat, cut: nat)
    requires n <= |full| && cut <= |full|
    ensures Take(full[..cut], n) == if cut < n then Failure(ShortData) else Success((full[..n], full[n..][..cut - n]))
  {
    if cut >= n {
      assert full[..cut][..n] == full[..n];
      assert full[..cut][n..] == full[n..][..cut - n];
    }
  }

  lemma TakeU16Cut(v: bytes, maxLen: word16, tail: bytes, cut: nat)
    requires |v| <= maxLen && cut <= 2 + |v| + |tail|
    ensures TakeU16((Prefixed(v) + tail)[..cut], maxLen) ==
      if cut < 2 + |v| then Failure(ShortData) else Success((v, tail[..cut - 2 - |v|]))
  {
    var full := Prefixed(v) + tail;
    if cut >= 2 {
      assert full[..cut] == BE16(|v|) + full[2..][..cut - 2];
      ReadU16Exact(full[..cut], |v|, full[2..][..cut - 2]);
      assert full[2..] == v + tail;
      TakeCut(v + tail, |v|, cut - 2);
      assert (v + tail)[|v|..] == tail && (v + tail)[..|v|] == v;
    }
  }

  lemma FixedCut(s: Slot, rest: bytes, cut: nat)
    requires FieldsInNumbers(s) && cut <= 13 + |rest|
    ensures var full := [s.typ] + (s.id + ([s.flags, s.aeadId, s.kdfId, s.ykSlot] + rest));
      |full| == 13 + |rest|
      && ParseFixed(full[..cut]) == if cut < 13 then Failure(ShortData) else Success((FixedPart(s), rest[..cut - 13]))
  {
    var full := [s.typ] + (s.id + ([s.flags, s.aeadId, s.kdfId, s.ykSlot] + rest));
    if cut >= 13 {
      FixedRefused(s, rest[..cut - 13]);
      assert full[..cut] == [s.typ] + (s.id + ([s.flags, s.aeadId, s.kdfId, s.ykSlot] + rest[..cut - 13]));
    }
  }

  // Metadata that is cut off anywhere.
  lemma MetaTruncated(s: Slot, cut: nat)
    requires FieldsInNumbers(s) && cut < |MetaBytes(s)|
    ensures ParseMeta(MetaBytes(s)[..cut]) == Failure(ShortData)
  {
    MetaThenIsMeta(s, []);
    assert MetaThen(s, []) == MetaBytes(s);
    FixedCut(s, PrefixedThen(s, []), cut);
    if cut >= 13 {
      hide Prefixed, MetaBytes, ParseFixed;
      EarlyCut(FixedPart(s), s, LateThen(s, []), cut - 13);
    }
  }

  lemma EarlyCut(s0: Slot, s: Slot, late: bytes, cut: nat)
    requires FieldsInNumbers(s) && late == LateThen(s, [])
    requires cut < |Prefixed(s.kdfParams) + (Prefixed(s.kdfSalt) + (Prefixed(s.chalSalt) + late))|
    ensures var full := Prefixed(s.kdfParams) + (Prefixed(s.kdfSalt) + (Prefixed(s.chalSalt) + late));
      var r := ParseEarly(s0, full[..cut]);
      if r.Failure? then r.error == ShortData else ParseLate(r.value.0, r.value.1) == Failure(ShortData)
  {
    hide TakeU16, ParseLate;
    var r2 := Prefixed(s.chalSalt) + late;
    var r1 := Prefixed(s.kdfSalt) + r2;
    TakeU16Cut(s.kdfParams, 64, r1, cut);
    if cut >= 2 + |s.kdfParams| {
      var c1 := cut - 2 - |s.kdfParams|;
      TakeU16Cut(s.kdfSalt, 64, r2, c1);
      if c1 >= 2 + |s.kdfSalt| {
        var c2 := c1 - 2 - |s.kdfSalt|;
        TakeU16Cut(s.chalSalt, 64, late, c2);
        if c2 >= 2 + |s.chalSalt| {
          var s1 := s0.(kdfParams := s.kdfParams, kdfSalt := s.kdfSalt, chalSalt := s.chalSalt);
          LateCut(s1, s, c2 - 2 - |s.chalSalt|);
        }
      }
    }
  }

  lemma LateCut(s0: Slot, s: Slot, cut: nat)
    requires FieldsInNumbers(s) && cut < |LateThen(s, [])|
    ensures ParseLate(s0, LateThen(s, [])[..cut]) == Failure(ShortData)
  {
    hide TakeU16;
    var r3 := s.nonce + [];
    var r2 := Prefixed(s.slotLabel) + r3;
    var r1 := Prefixed(s.challenge) + r2;
    TakeCut(s.hkdfSalt + r1, 16, cut);
    if cut >= 16 {
      assert (s.hkdfSalt + r1)[16..] == r1;
      TakeU16Cut(s.challenge, 64, r2, cut - 16);
      if cut - 16 >= 2 + |s.challenge| {
        var c2 := cut - 18 - |s.challenge|;
        TakeU16Cut(s.slotLabel, 256, r3, c2);
      }
    }
  }
}
