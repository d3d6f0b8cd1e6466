/** What an edited slot does: it never opens, and when that is reported as
    ErrAuthFailed; and one changed byte on disk for which it is not. */
module Tampering {
  import opened Bytes
  import opened Errors
  import opened Kinds
  import opened Slots
  import opened Primitives
  import opened Envelopes
  import opened Records
  import opened Searching
  import P = Protocol
  import Printing
  import Wire

  // A well-formed slot that was not enrolled just so, such as an enrolled slot with
  // any field edited, does not open for anyone; the failure is ErrAuthFailed exactly
  // when the attempt can be made.
  lemma EditedSlotExactly(c: Crypto, coins: nat -> byte, log: seq<Sealed>, book: seq<Record>, s: Slot,
                          m: P.Credential)
    requires Audited(c, coins, log, book) && WellFormed(s)
    requires forall i :: 0 <= i < |book| ==> book[i].slot != s
    ensures P.Unlock(c, log, m, s).Failure?
    ensures P.Unlock(c, log, m, s) == Failure(AuthFailed) <==> CanTry(c, m, s)
  {
    hide P.Unlock, CanTry, Made, WellFormed;
    TryExactly(c, log, m, s);
    var r := P.Unlock(c, log, m, s);
    if r.Success? {
      OpenedWasEnrolled(c, coins, log, book, s, m, r.value);
    }
  }

  // Where the OTP slot number of the first slot lies: after the header, the slot
  // length, the type, the slot ID, the flags, the AEAD and the KDF.
  const OTP_OFFSET: nat := HEADER_LEN + 4 + 12

  predicate UsesDevice(typ: byte) {
    typ == METHOD_YUBIKEY || typ == METHOD_PASSWORD_AND_YUBIKEY
  }

  function WithOtp(s: Slot, v: byte): Slot {
    var t := s.(ykSlot := v);
    t.(meta := Some(MetaBytes(t)))
  }

  lemma MetaWithOtp(s: Slot, v: byte)
    ensures |MetaBytes(s)| > 12 && MetaBytes(WithOtp(s, v)) == MetaBytes(s)[12 := v]
  {
    var t := WithOtp(s, v);
    var tail := Prefixed(s.kdfParams) + Prefixed(s.kdfSalt) + Prefixed(s.chalSalt)
      + s.hkdfSalt + Prefixed(s.challenge) + Prefixed(s.slotLabel) + s.nonce;
    assert MetaBytes(s) == [s.typ] + s.id + [s.flags, s.aeadId, s.kdfId, s.ykSlot] + tail;
    assert MetaBytes(t) == [s.typ] + s.id + [s.flags, s.aeadId, s.kdfId, v] + tail;
  }

  // Changing that byte changes one field of one slot, and the bytes still parse.
  lemma OtpByteParses(b: bytes, e: Wire.Image, v: byte)
    requires Wire.Parse(b) == Success(e)
    ensures |b| > OTP_OFFSET && |e.slots| > 0
    ensures Wire.Parse(b[OTP_OFFSET := v]) == Success(e.(slots := e.slots[0 := WithOtp(e.slots[0], v)]))
  {
    hide MetaBytes, WithOtp, Wire.Parse, Wire.Marshal, Wire.Header, ShapeError, MetaError;
    Wire.ParseThenPrint(b, e);
    var s := e.slots[0];
    var t := WithOtp(s, v);
    var e' := e.(slots := e.slots[0 := t]);
    WithOtpFits(s, v);
    assert e'.slots[1..] == e.slots[1..];
    Wire.MarshalWellFormed(e);
    Wire.MarshalWellFormed(e');
    MetaWithOtp(s, v);
    Printing.HeaderSize(e.version, e.policyHint, |e.slots|);
    ByteOfChunk(Wire.Header(e.version, e.policyHint, |e.slots|), MetaBytes(s), v, s.wrapped, Wire.Chunks(e.slots[1..]));
    assert Wire.Marshal(e') == Success(b[OTP_OFFSET := v]);
    Wire.PrintThenParse(b[OTP_OFFSET := v], e');
  }

  lemma WithOtpFits(s: Slot, v: byte)
    requires WellFormed(s)
    ensures WellFormed(WithOtp(s, v)) && WithOtp(s, v).wrapped == s.wrapped
  {
    hide MetaBytes;
    var t := s.(ykSlot := v);
    Wire.MetaIgnoresWrapped(t, t.wrapped, Some(MetaBytes(t)));
  }

  lemma ByteOfChunk(header: bytes, meta: bytes, v: byte, wrapped: bytes, rest: bytes)
    requires |header| == HEADER_LEN && |meta| > 12
    ensures |header + (Wire.Chunk(meta, wrapped) + rest)| > OTP_OFFSET
    ensures header + (Wire.Chunk(meta[12 := v], wrapped) + rest)
      == (header + (Wire.Chunk(meta, wrapped) + rest))[OTP_OFFSET := v]
  {
  }

  // With an OTP slot number other than 1 and 2 in the first slot, Unlock with a
  // method of that slot's type ends in ErrMalformed, whatever the secrets, the
  // other slots and the other methods are.
  lemma OtpByteIsNotAuthFailed(c: Crypto, log: seq<Sealed>, b: bytes, e: Wire.Image, v: byte, ms: seq<P.Credential>)
    requires Wire.Parse(b) == Success(e) && e.slots != [] && UsesDevice(e.slots[0].typ) && !P.OtpSlotValid(v)
    requires exists m :: m in ms && P.TypeOf(m) == e.slots[0].typ
    ensures |b| > OTP_OFFSET
    ensures var r := Wire.Parse(b[OTP_OFFSET := v]);
      r.Success? && P.Search(c, log, r.value.slots, ms) == Failure(Malformed)
  {
    hide Wire.Parse, P.Unlock, P.Row, P.Verdict, MetaBytes;
    OtpByteParses(b, e, v);
    var t := WithOtp(e.slots[0], v);
    var slots := e.slots[0 := t];
    var m :| m in ms && P.TypeOf(m) == t.typ;
    P.RowExact(t, ms, m);
    var row := P.Row(t, ms);
    var (s, n) := row[0];
    assert (t, n) in row;
    P.RowExact(t, ms, n);
    Assoc([(t, n)], row[1..], P.Attempts(slots[1..], ms));
    assert row == [(t, n)] + row[1..];
    NoSuchOtpSlot(c, log, n, t);
    VerdictStep(c, log, (t, n), row[1..] + P.Attempts(slots[1..], ms));
  }

  lemma NoSuchOtpSlot(c: Crypto, log: seq<Sealed>, m: P.Credential, s: Slot)
    requires UsesDevice(s.typ) && P.TypeOf(m) == s.typ && !P.OtpSlotValid(s.ykSlot)
    ensures P.Unlock(c, log, m, s) == Failure(Malformed)
  {
  }
}
