/** What one enrolment leaves behind, and what opens it again. */
module Records {
  import opened Bytes
  import opened Errors
  import opened Kinds
  import opened Slots
  import opened Primitives
  import opened Ikm
  import K = Kdf
  import P = Protocol
  import Wire

  // One successful enrolment: the method, the data key, the randomness and the slot.
  datatype Record = Record(m: P.Credential, dek: bytes, at: nat, slot: Slot)

  // The record r is an enrolment, and `e` is the sealing it made.
  ghost predicate Made(c: Crypto, coins: nat -> byte, r: Record, e: Sealed) {
    P.Enroll(c, r.m, Some(r.dek), coins, r.at) == Success(r.slot)
    && P.EnrollLog(c, r.m, Some(r.dek), coins, r.at) == [e]
  }

  // Every sealing in the log was made by the enrolment recorded beside it.
  ghost predicate Audited(c: Crypto, coins: nat -> byte, log: seq<Sealed>, book: seq<Record>) {
    |log| == |book| && forall i :: 0 <= i < |log| ==> Made(c, coins, book[i], log[i])
  }

  // The roles an enrolment used.
  ghost function RolesOf(c: Crypto, coins: nat -> byte, r: Record): Roles
    requires P.Prepare(c, r.m, coins, r.at).Success?
  {
    P.Prepare(c, r.m, coins, r.at).value.0
  }

  // An enrolled slot carries its method's type and canonical metadata, and the
  // logged sealing binds the data key to exactly that metadata.
  lemma MadeFacts(c: Crypto, coins: nat -> byte, r: Record, e: Sealed)
    requires Made(c, coins, r, e)
    ensures P.Prepare(c, r.m, coins, r.at).Success?
    ensures r.slot.typ == P.TypeOf(r.m)
    ensures MetaError(r.slot).None? && r.slot.meta == Some(MetaBytes(r.slot))
    ensures e == P.SealingOf(c, r.dek, RolesOf(c, coins, r), r.slot)
    ensures e.ct == c.seal(e.key, e.nonce, e.pt, e.aad) && e.pt == r.dek
  {
    hide MetaBytes, MetaError, P.KekOf, P.Prepare;
    PrepareType(c, r.m, coins, r.at);
    var (roles, s) := P.Prepare(c, r.m, coins, r.at).value;
    Wire.MetaIgnoresWrapped(s, r.slot.wrapped, r.slot.meta);
    assert r.slot == s.(wrapped := r.slot.wrapped, meta := r.slot.meta);
  }

  lemma PrepareType(c: Crypto, m: P.Credential, coins: nat -> byte, at: nat)
    ensures P.Prepare(c, m, coins, at).Success? ==> P.Prepare(c, m, coins, at).value.1.typ == P.TypeOf(m)
  {
    hide P.Derive, P.Respond, P.DeriveChallenge, K.ParamBytes;
  }

  lemma AuditedIsHonest(c: Crypto, coins: nat -> byte, log: seq<Sealed>, book: seq<Record>)
    requires Audited(c, coins, log, book)
    ensures Honest(c, log)
  {
    hide Made;
    forall i | 0 <= i < |log| ensures log[i].ct == c.seal(log[i].key, log[i].nonce, log[i].pt, log[i].aad) {
      MadeFacts(c, coins, book[i], log[i]);
    }
  }

  // The KDF a method carries is one that parseKDF would accept.
  ghost predicate KdfInBounds(m: P.Credential) {
    match m
    case Password(kdf, _, _) => kdf.Some? ==> K.InBounds(kdf.value)
    case TwoFactor(_, _, kdf, _, _) => kdf.Some? ==> K.InBounds(kdf.value)
    case _ => true
  }

  // How an enrolled slot stores what its method needs again.
  lemma SlotFields(c: Crypto, coins: nat -> byte, r: Record, e: Sealed)
    requires Made(c, coins, r, e)
    ensures match r.m
      case Password(kdf, pw, _) =>
        kdf.Some? && r.slot.kdfId == K.Id(kdf.value) && r.slot.kdfParams == K.ParamBytes(kdf.value)
        && P.Derive(c, kdf.value, pw, r.slot.kdfSalt).Success?
        && RolesOf(c, coins, r) == Roles(Some(P.Derive(c, kdf.value, pw, r.slot.kdfSalt).value), None, None)
      case YubiKey(token, otpSlot, _) =>
        r.slot.kdfId == KDF_NONE && r.slot.kdfParams == [] && r.slot.ykSlot == otpSlot && P.OtpSlotValid(otpSlot)
        && P.Respond(c, token, otpSlot, r.slot.challenge).Success?
        && RolesOf(c, coins, r) == Roles(None, Some(P.Respond(c, token, otpSlot, r.slot.challenge).value), None)
      case TwoFactor(token, otpSlot, kdf, pw, _) =>
        kdf.Some? && r.slot.kdfId == K.Id(kdf.value) && r.slot.kdfParams == K.ParamBytes(kdf.value)
        && r.slot.ykSlot == otpSlot && P.OtpSlotValid(otpSlot)
        && P.Derive(c, kdf.value, pw, r.slot.kdfSalt).Success?
        && (var pk := P.Derive(c, kdf.value, pw, r.slot.kdfSalt).value;
            var yr := P.Respond(c, token, otpSlot, P.DeriveChallenge(c, pk, r.slot.chalSalt));
            yr.Success? && RolesOf(c, coins, r) == Roles(Some(pk), Some(yr.value), None))
      case Recovery(code, _) =>
        r.slot.kdfId == KDF_NONE && r.slot.kdfParams == [] && code.Some?
        && RolesOf(c, coins, r) == Roles(None, None, code)
  {
    hide MetaBytes, MetaError, P.KekOf, P.Derive, P.Respond, P.DeriveChallenge, K.ParamBytes;
  }

  // An enrolled slot with a data key that fits is one the wire format can carry
  // exactly when its KDF is within the bounds.
  lemma MadeWellFormed(c: Crypto, coins: nat -> byte, r: Record, e: Sealed)
    requires c.Correct() && Made(c, coins, r, e)
    requires |r.dek| <= MAX_DEK_LEN
    ensures WellFormed(r.slot) <==> KdfInBounds(r.m)
    ensures ShapeError(r.slot).None? <==> KdfInBounds(r.m)
  {
    hide MetaBytes, MetaError, K.ParseKdf, K.ParamBytes, K.InBounds, Made;
    MadeFacts(c, coins, r, e);
    SlotFields(c, coins, r, e);
    K.ParseKdfNone(r.slot.kdfId, r.slot.kdfParams);
    if r.m.Password? { K.ParseOfParams(r.m.kdf.value); }
    if r.m.TwoFactor? { K.ParseOfParams(r.m.kdf.value); }
  }

  // m holds the secrets of `enrolled`: the same password or code, and a device with
  // the same secret in the OTP slot that was used. KDF and label do not matter.
  ghost predicate SameSecret(m: P.Credential, enrolled: P.Credential) {
    match (m, enrolled)
    case (Password(_, a, _), Password(_, b, _)) => a == b
    case (YubiKey(s, _, _), YubiKey(t, otp, _)) => otp in s && otp in t && s[otp] == t[otp]
    case (TwoFactor(s, _, _, a, _), TwoFactor(t, otp, _, b, _)) => a == b && otp in s && otp in t && s[otp] == t[otp]
    case (Recovery(a, _), Recovery(b, _)) => a == b
    case _ => false
  }

  // Whoever holds the secrets rebuilds the same roles from the slot alone.
  lemma SameRoles(c: Crypto, coins: nat -> byte, r: Record, e: Sealed, m: P.Credential)
    requires Made(c, coins, r, e) && KdfInBounds(r.m) && SameSecret(m, r.m)
    ensures P.Prepare(c, r.m, coins, r.at).Success?
    ensures P.Roled(c, m, r.slot) == Success(RolesOf(c, coins, r))
  {
    hide MetaBytes, MetaError, P.KekOf, K.ParamBytes, K.ParseKdf, K.InBounds, P.DeriveChallenge, Made, P.Prepare;
    MadeFacts(c, coins, r, e);
    SlotFields(c, coins, r, e);
    if r.m.Password? { K.ParseKdfExact(r.slot.kdfId, r.slot.kdfParams, r.m.kdf.value); }
    if r.m.TwoFactor? { K.ParseKdfExact(r.slot.kdfId, r.slot.kdfParams, r.m.kdf.value); }
  }

  // The secret of an enrolment opens its slot, whatever else was sealed.
  lemma SecretOpens(c: Crypto, coins: nat -> byte, log: seq<Sealed>, book: seq<Record>, i: nat, m: P.Credential)
    requires c.Correct() && Audited(c, coins, log, book) && i < |book|
    requires KdfInBounds(book[i].m) && SameSecret(m, book[i].m)
    ensures P.Unlock(c, log, m, book[i].slot) == Success(book[i].dek)
  {
    hide MetaBytes, MetaError, P.KekOf, P.Roled, Made, Lookup;
    var r, e := book[i], log[i];
    AuditedIsHonest(c, coins, log, book);
    MadeFacts(c, coins, r, e);
    SameRoles(c, coins, r, e, m);
    LookupComplete(c, log, i);
  }

  // What matches a well-formed slot was sealed for exactly that slot.
  lemma MatchWasEnrolled(c: Crypto, coins: nat -> byte, log: seq<Sealed>, book: seq<Record>, s: Slot, kek: bytes)
    requires Audited(c, coins, log, book) && WellFormed(s)
    ensures forall i :: 0 <= i < |log| && Matches(log[i], kek, s.nonce, s.wrapped, MetaBytes(s)) ==> book[i].slot == s
  {
    hide MetaBytes, MetaError, ShapeError, Made;
    forall i | 0 <= i < |log| && Matches(log[i], kek, s.nonce, s.wrapped, MetaBytes(s)) ensures book[i].slot == s {
      var r := book[i];
      assert Made(c, coins, r, log[i]);
      MadeFacts(c, coins, r, log[i]);
      assert MetaBytes(s) + [] == MetaBytes(r.slot) + [];
      Wire.MetaInjective(s, r.slot, [], []);
      assert r.slot == s.(wrapped := r.slot.wrapped, meta := r.slot.meta);
    }
  }

  // A well-formed slot that opens is, field for field, a slot that was enrolled,
  // and what comes out is the data key of that enrolment.
  lemma OpenedWasEnrolled(c: Crypto, coins: nat -> byte, log: seq<Sealed>, book: seq<Record>,
                          s: Slot, m: P.Credential, key: bytes)
    requires Audited(c, coins, log, book) && WellFormed(s)
    requires P.Unlock(c, log, m, s) == Success(key)
    ensures exists i :: 0 <= i < |book| && book[i].slot == s && book[i].dek == key
  {
    hide MetaBytes, MetaError, P.KekOf, P.Roled, Made, Lookup, ShapeError;
    var roles := P.Roled(c, m, s).value;
    var kek := P.KekOf(c, roles, s.hkdfSalt, FORMAT_VERSION, s.typ, s.id);
    LookupSound(log, kek, s.nonce, s.wrapped, MetaBytes(s));
    MatchWasEnrolled(c, coins, log, book, s, kek);
    var i :| 0 <= i < |log| && Matches(log[i], kek, s.nonce, s.wrapped, MetaBytes(s)) && log[i].pt == key;
    assert Made(c, coins, book[i], log[i]);
    MadeFacts(c, coins, book[i], log[i]);
  }

  // The method can try the slot: a YubiKey must have that OTP slot configured.
  ghost predicate Answers(m: P.Credential, s: Slot) {
    match m
    case YubiKey(token, _, _) => s.ykSlot in token
    case TwoFactor(token, _, _, _, _) => s.ykSlot in token
    case _ => true
  }

  ghost predicate SecretLive(m: P.Credential) {
    match m
    case Password(_, pw, _) => pw.Some?
    case TwoFactor(_, _, _, pw, _) => pw.Some?
    case Recovery(code, _) => code.Some?
    case YubiKey(_, _, _) => true
  }

  // Clearing the kept metadata of a canonical slot changes neither what is
  // written to disk nor what is authenticated.
  lemma MetaIsCanonical(c: Crypto, log: seq<Sealed>, s: Slot, roles: Roles, out: bytes)
    requires MetaError(s).None? && s.meta == Some(MetaBytes(s))
    ensures P.Unwrap(c, log, s.(meta := None), roles) == P.Unwrap(c, log, s, roles)
    ensures Wire.MarshalSlot(s.(meta := None), out) == Wire.MarshalSlot(s, out)
  {
    hide MetaBytes, MetaError, P.KekOf, Lookup;
    Wire.MetaIgnoresWrapped(s, s.wrapped, None);
  }
}
