/** Enrolment and unlocking as functions: what each method computes when no
    outside call fails (combine.go, method.go, password.go, yubikey.go, recovery.go). */
module Protocol {
  import opened Bytes
  import opened Errors
  import opened Kinds
  import opened Slots
  import opened Primitives
  import opened Ikm
  import Effects
  import K = Kdf
  import Wire

  const LABEL_KEK: bytes := Ascii("tumbler/v1 kek")
  const LABEL_CHALLENGE: bytes := Ascii("tumbler/v1 challenge")
  const RECOVERY_CODE_LEN: nat := 32
  const YUBI_CHALLENGE_LEN: nat := 32

  // The HKDF info of a KEK: label, version, method type, slot ID.
  function KekInfo(version: byte, typ: byte, id: SlotId): bytes {
    LABEL_KEK + [version, typ] + id
  }

  function KekOf(c: Crypto, roles: Roles, hkdfSalt: bytes, version: byte, typ: byte, id: SlotId): Block32 {
    c.hkdf(Encode(roles), hkdfSalt, KekInfo(version, typ, id))
  }

  // The info separates: a KEK for another version, type or slot, or a challenge,
  // is derived under another info string.
  lemma InfoSeparates(v: byte, t: byte, id: SlotId, v': byte, t': byte, id': SlotId)
    ensures KekInfo(v, t, id) == KekInfo(v', t', id') <==> v == v' && t == t' && id == id'
    ensures KekInfo(v, t, id) != LABEL_CHALLENGE
  {
    if KekInfo(v, t, id) == KekInfo(v', t', id') {
      SplitEqual(LABEL_KEK + [v, t], id, LABEL_KEK + [v', t'], id');
      SplitEqual(LABEL_KEK, [v, t], LABEL_KEK, [v', t']);
      assert [v, t][0] == [v', t'][0] && [v, t][1] == [v', t'][1];
    }
  }

  // A YubiKey: the HMAC secret of each configured OTP slot.
  type Token = map<byte, bytes>

  predicate OtpSlotValid(s: byte) {
    s == 1 || s == 2
  }

  function Respond(c: Crypto, token: Token, otpSlot: byte, challenge: bytes): Result<bytes> {
    if !OtpSlotValid(otpSlot) || otpSlot !in token then Failure(SlotNotConfigured)
    else Success(c.hmac(token[otpSlot], challenge))
  }

  // An unlock method with its secrets by value; a None secret is a destroyed container.
  datatype Credential =
    | Password(kdf: Option<K.Kdf>, pw: Option<bytes>, name: bytes)
    | YubiKey(token: Token, otpSlot: byte, name: bytes)
    | TwoFactor(token: Token, otpSlot: byte, kdf: Option<K.Kdf>, pw: Option<bytes>, name: bytes)
    | Recovery(code: Option<bytes>, name: bytes)

  function TypeOf(m: Credential): byte {
    match m
    case Password(_, _, _) => METHOD_PASSWORD
    case YubiKey(_, _, _) => METHOD_YUBIKEY
    case TwoFactor(_, _, _, _, _) => METHOD_PASSWORD_AND_YUBIKEY
    case Recovery(_, _) => METHOD_RECOVERY
  }

  // The Argon2id library panics. Every caller up to the public one then ends the same
  // way, with the same deferred clean-up as on an error.
  predicate Panics(k: K.Kdf) {
    k.Argon2id? && (k.time == 0 || k.threads == 0)
  }

  // The KDF derives a key.
  predicate Runs(c: Crypto, k: K.Kdf) {
    !Panics(k) && (k.Scrypt? ==> c.accepts(k))
  }

  // KDF.Derive of the built-in KDFs.
  function Derive(c: Crypto, k: K.Kdf, pw: Option<bytes>, salt: bytes): Result<bytes> {
    if pw.None? then Failure(Destroyed)
    else if Panics(k) then Failure(Panicked)
    else if k.Scrypt? && !c.accepts(k) then Failure(KdfRejected)
    else Success(c.stretch(k, pw.value, salt))
  }

  function DeriveChallenge(c: Crypto, pk: bytes, chalSalt: bytes): bytes {
    c.hkdf(pk, chalSalt, LABEL_CHALLENGE)
  }

  // ---- sealing a slot ----

  // wrapDEK on a slot whose fields and random values are filled in.
  function Wrap(c: Crypto, dek: Option<bytes>, roles: Roles, s: Slot): Result<Slot> {
    var meta :- MetaOf(s);
    if dek.None? then Failure(Destroyed) else
    var kek := KekOf(c, roles, s.hkdfSalt, FORMAT_VERSION, s.typ, s.id);
    Success(s.(wrapped := c.seal(kek, s.nonce, dek.value, meta), meta := Some(meta)))
  }

  // The sealing wrapDEK logs for the slot it returns.
  function SealingOf(c: Crypto, dek: bytes, roles: Roles, s: Slot): Sealed {
    Sealed(KekOf(c, roles, s.hkdfSalt, FORMAT_VERSION, s.typ, s.id), s.nonce, MetaBytes(s), dek, s.wrapped)
  }

  // slotShape: the fields a method chooses.
  datatype SlotShape = SlotShape(typ: byte, kdfId: byte, kdfParams: bytes, kdfSalt: bytes, chalSalt: bytes,
                                 challenge: bytes, ykSlot: byte, name: bytes)

  // The slot before sealing, with ID, HKDF salt and nonce drawn from position `at`.
  function Draft(coins: nat -> byte, at: nat, sh: SlotShape): Slot {
    Slot(sh.typ, Effects.Draw(coins, at, 8), 0, AEAD_CHACHA20_POLY1305, sh.kdfId, sh.ykSlot, sh.kdfParams,
         sh.kdfSalt, sh.chalSalt, Effects.Draw(coins, at + 8, 16), sh.challenge, sh.name,
         Effects.Draw(coins, at + 24, 12), [], None)
  }

  // Method.Enroll when no outside call fails, drawing coins from position `at`:
  // the roles it feeds the KEK and the slot before sealing.
  function Prepare(c: Crypto, m: Credential, coins: nat -> byte, at: nat): Result<(Roles, Slot)> {
    match m
    case Password(kdf, pw, name) =>
      if kdf.None? then Failure(UnsupportedKdf) else
      var k := kdf.value;
      var salt := Effects.Draw(coins, at, K.DEFAULT_SALT_LEN);
      var pk :- Derive(c, k, pw, salt);
      Success((Roles(Some(pk), None, None),
               Draft(coins, at + 16, SlotShape(METHOD_PASSWORD, K.Id(k), K.ParamBytes(k), salt, [], [], 0, name))))
    case YubiKey(token, otpSlot, name) =>
      if !OtpSlotValid(otpSlot) then Failure(Malformed) else
      var challenge := Effects.Draw(coins, at, YUBI_CHALLENGE_LEN);
      var yr :- Respond(c, token, otpSlot, challenge);
      Success((Roles(None, Some(yr), None),
               Draft(coins, at + 32, SlotShape(METHOD_YUBIKEY, KDF_NONE, [], [], [], challenge, otpSlot, name))))
    case TwoFactor(token, otpSlot, kdf, pw, name) =>
      if !OtpSlotValid(otpSlot) then Failure(Malformed)
      else if kdf.None? then Failure(UnsupportedKdf) else
      var k := kdf.value;
      var salt := Effects.Draw(coins, at, K.DEFAULT_SALT_LEN);
      var pk :- Derive(c, k, pw, salt);
      var chalSalt := Effects.Draw(coins, at + 16, K.DEFAULT_SALT_LEN);
      var yr :- Respond(c, token, otpSlot, DeriveChallenge(c, pk, chalSalt));
      Success((Roles(Some(pk), Some(yr), None),
               Draft(coins, at + 32, SlotShape(METHOD_PASSWORD_AND_YUBIKEY, K.Id(k), K.ParamBytes(k),
                                               salt, chalSalt, [], otpSlot, name))))
    case Recovery(code, name) =>
      if code.None? || |code.value| != RECOVERY_CODE_LEN then Failure(InvalidRecoveryCode)
      else Success((Roles(None, None, code),
                    Draft(coins, at, SlotShape(METHOD_RECOVERY, KDF_NONE, [], [], [], [], 0, name))))
  }

  // The random bytes one enrolment consumes.
  function CoinsUsed(m: Credential): nat {
    match m
    case Password(_, _, _) => 16 + 36
    case YubiKey(_, _, _) => 32 + 36
    case TwoFactor(_, _, _, _, _) => 16 + 16 + 36
    case Recovery(_, _) => 36
  }

  function Enroll(c: Crypto, m: Credential, dek: Option<bytes>, coins: nat -> byte, at: nat): Result<Slot> {
    var (roles, s) :- Prepare(c, m, coins, at);
    Wrap(c, dek, roles, s)
  }

  // What an enrolment adds to the record of sealings.
  function EnrollLog(c: Crypto, m: Credential, dek: Option<bytes>, coins: nat -> byte, at: nat): seq<Sealed> {
    var r := Enroll(c, m, dek, coins, at);
    if r.Failure? || dek.None? then [] else
    var p := Prepare(c, m, coins, at);
    if p.Failure? then [] else [SealingOf(c, dek.value, p.value.0, r.value)]
  }

  // ---- opening a slot ----

  // unwrapDEK
  function Unwrap(c: Crypto, log: seq<Sealed>, s: Slot, roles: Roles): Result<bytes> {
    var kek := KekOf(c, roles, s.hkdfSalt, FORMAT_VERSION, s.typ, s.id);
    var meta :- Wire.MetaToWrite(s);
    match Lookup(log, kek, s.nonce, s.wrapped, meta)
    case None => Failure(AuthFailed)
    case Some(pt) => Success(pt)
  }

  // derivePasswordKey: the KDF comes from the slot, not from the method.
  function SlotPasswordKey(c: Crypto, s: Slot, pw: Option<bytes>): Result<bytes> {
    var k :- K.ParseKdf(s.kdfId, s.kdfParams);
    if k.None? then Failure(Malformed) else Derive(c, k.value, pw, s.kdfSalt)
  }

  // The roles a method rebuilds for a slot.
  function Roled(c: Crypto, m: Credential, s: Slot): Result<Roles> {
    match m
    case Password(_, pw, _) =>
      var pk :- SlotPasswordKey(c, s, pw);
      Success(Roles(Some(pk), None, None))
    case YubiKey(token, _, _) =>
      if !OtpSlotValid(s.ykSlot) then Failure(Malformed) else
      var yr :- Respond(c, token, s.ykSlot, s.challenge);
      Success(Roles(None, Some(yr), None))
    case TwoFactor(token, _, _, pw, _) =>
      if !OtpSlotValid(s.ykSlot) then Failure(Malformed) else
      var pk :- SlotPasswordKey(c, s, pw);
      var yr :- Respond(c, token, s.ykSlot, DeriveChallenge(c, pk, s.chalSalt));
      Success(Roles(Some(pk), Some(yr), None))
    case Recovery(code, _) =>
      if code.None? then Failure(Destroyed) else Success(Roles(None, None, code))
  }

  // Method.Unlock when no outside call fails.
  function Unlock(c: Crypto, log: seq<Sealed>, m: Credential, s: Slot): Result<bytes> {
    var roles :- Roled(c, m, s);
    Unwrap(c, log, s, roles)
  }

  // ---- the search of Envelope.Unlock ----

  // The attempts on one slot: every method of its type, in order.
  function Row(s: Slot, methods: seq<Credential>): seq<(Slot, Credential)> {
    if methods == [] then []
    else (if TypeOf(methods[0]) == s.typ then [(s, methods[0])] else []) + Row(s, methods[1..])
  }

  // All attempts, slot by slot.
  function Attempts(slots: seq<Slot>, methods: seq<Credential>): seq<(Slot, Credential)> {
    if slots == [] then [] else Row(slots[0], methods) + Attempts(slots[1..], methods)
  }

  // The verdict over attempts made in order: authentication failures are passed over.
  function Verdict(c: Crypto, log: seq<Sealed>, attempts: seq<(Slot, Credential)>): Result<bytes> {
    if attempts == [] then Failure(AuthFailed) else
    var r := Unlock(c, log, attempts[0].1, attempts[0].0);
    if r == Failure(AuthFailed) then Verdict(c, log, attempts[1..]) else r
  }

  function Search(c: Crypto, log: seq<Sealed>, slots: seq<Slot>, methods: seq<Credential>): Result<bytes> {
    if methods == [] then Failure(NoMethods) else Verdict(c, log, Attempts(slots, methods))
  }

  ghost predicate Outcome(c: Crypto, log: seq<Sealed>, a: (Slot, Credential), r: Result<bytes>) {
    Unlock(c, log, a.1, a.0) == r
  }

  // Attempt i ends with r, and every earlier one with an authentication failure.
  ghost predicate FirstAt(c: Crypto, log: seq<Sealed>, attempts: seq<(Slot, Credential)>, r: Result<bytes>, i: nat) {
    i < |attempts| && Outcome(c, log, attempts[i], r)
    && forall j :: 0 <= j < i ==> Outcome(c, log, attempts[j], Failure(AuthFailed))
  }

  // The verdict is the first outcome other than ErrAuthFailed, and is
  // ErrAuthFailed exactly when every attempt was, also when there is none.
  lemma {:induction false} VerdictIsFirst(c: Crypto, log: seq<Sealed>, attempts: seq<(Slot, Credential)>,
      r: Result<bytes>)
    ensures Verdict(c, log, attempts) == r <==>
      if r == Failure(AuthFailed) then forall i :: 0 <= i < |attempts| ==> Outcome(c, log, attempts[i], r)
      else exists i :: FirstAt(c, log, attempts, r, i)
  {
    hide Unlock;
    if attempts != [] {
      var rest := attempts[1..];
      VerdictIsFirst(c, log, rest, r);
      if Outcome(c, log, attempts[0], Failure(AuthFailed)) {
        if r == Failure(AuthFailed) {
          forall i | 0 <= i < |attempts| && Verdict(c, log, attempts) == r
            ensures Outcome(c, log, attempts[i], r)
          {
            if i > 0 { assert attempts[i] == rest[i - 1]; }
          }
        } else {
          forall i: nat ensures FirstAt(c, log, rest, r, i) == FirstAt(c, log, attempts, r, i + 1) {
            ShiftFirst(c, log, attempts, r, i);
          }
          forall i: nat ensures FirstAt(c, log, attempts, r, i) ==> i > 0 && FirstAt(c, log, rest, r, i - 1) {
          }
        }
      } else {
        if r != Failure(AuthFailed) && Verdict(c, log, attempts) == r { assert FirstAt(c, log, attempts, r, 0); }
      }
    }
  }

  lemma ShiftFirst(c: Crypto, log: seq<Sealed>, attempts: seq<(Slot, Credential)>, r: Result<bytes>, i: nat)
    requires attempts != [] && Outcome(c, log, attempts[0], Failure(AuthFailed))
    ensures FirstAt(c, log, attempts[1..], r, i) == FirstAt(c, log, attempts, r, i + 1)
  {
    hide Unlock;
    var rest := attempts[1..];
    if FirstAt(c, log, rest, r, i) {
      forall j | 0 <= j < i + 1 ensures Outcome(c, log, attempts[j], Failure(AuthFailed)) {
        if j > 0 { assert attempts[j] == rest[j - 1]; }
      }
    }
    if FirstAt(c, log, attempts, r, i + 1) {
      forall j | 0 <= j < i ensures Outcome(c, log, rest[j], Failure(AuthFailed)) {
        assert rest[j] == attempts[j + 1];
      }
    }
  }

  // The attempts are the type-matching pairs: nothing else is tried, and
  // nothing that matches is left out.
  lemma {:induction false} RowExact(s: Slot, methods: seq<Credential>, m: Credential)
    ensures (s, m) in Row(s, methods) <==> m in methods && TypeOf(m) == s.typ
    ensures forall a :: a in Row(s, methods) ==> a.0 == s
  {
    if methods != [] {
      RowExact(s, methods[1..], m);
      assert m in methods <==> m == methods[0] || m in methods[1..];
    }
  }

  lemma {:induction false} AttemptsExact(slots: seq<Slot>, methods: seq<Credential>, s: Slot, m: Credential)
    ensures (s, m) in Attempts(slots, methods) <==> s in slots && m in methods && TypeOf(m) == s.typ
  {
    if slots != [] {
      RowExact(slots[0], methods, m);
      AttemptsExact(slots[1..], methods, s, m);
      assert s in slots <==> s == slots[0] || s in slots[1..];
    }
  }

  // The order is lexicographic: earlier slots first, then earlier methods.
  lemma {:induction false} RowSplit(s: Slot, a: seq<Credential>, b: seq<Credential>)
    ensures Row(s, a + b) == Row(s, a) + Row(s, b)
  {
    if a == [] {
      assert a + b == b;
    } else {
      RowSplit(s, a[1..], b);
      assert (a + b)[1..] == a[1..] + b;
    }
  }

  lemma {:induction false} AttemptsSplit(a: seq<Slot>, b: seq<Slot>, methods: seq<Credential>)
    ensures Attempts(a + b, methods) == Attempts(a, methods) + Attempts(b, methods)
  {
    hide Row;
    if a == [] {
      assert a + b == b;
    } else {
      AttemptsSplit(a[1..], b, methods);
      assert (a + b)[1..] == a[1..] + b;
    }
  }

  // ---- what an enrolled slot holds ----

  // The 36 bytes of the slot ID, the HKDF salt and the nonce are the last ones drawn.
  ghost predicate DrawnLast(s: Slot, coins: nat -> byte, end: nat)
    requires end >= 36
  {
    (forall i :: 0 <= i < 8 ==> s.id[i] == coins(end - 36 + i))
    && (forall i :: 0 <= i < 16 ==> s.hkdfSalt[i] == coins(end - 28 + i))
    && forall i :: 0 <= i < 12 ==> s.nonce[i] == coins(end - 12 + i)
  }

  // The field is n random bytes from position `at`.
  ghost predicate DrawnFrom(b: bytes, n: nat, coins: nat -> byte, at: nat) {
    |b| == n && forall i :: 0 <= i < n ==> b[i] == coins(at + i)
  }

  // Which random byte, method parameter or constant each field of a fresh slot is.
  lemma EnrolledFields(c: Crypto, m: Credential, dek: Option<bytes>, coins: nat -> byte, at: nat)
    requires Enroll(c, m, dek, coins, at).Success?
    ensures var s := Enroll(c, m, dek, coins, at).value;
      s.flags == 0 && s.aeadId == 1
      && match m
         case Password(k, _, name) =>
           s.typ == 1 && s.slotLabel == name && DrawnFrom(s.kdfSalt, 16, coins, at) && DrawnLast(s, coins, at + 52)
           && k.Some? && s.kdfId == K.Id(k.value) && s.kdfParams == K.ParamBytes(k.value)
           && s.chalSalt == [] && s.challenge == [] && s.ykSlot == 0
         case YubiKey(_, otp, name) =>
           s.typ == 2 && s.slotLabel == name && DrawnFrom(s.challenge, 32, coins, at) && DrawnLast(s, coins, at + 68)
           && s.kdfId == 0 && s.kdfParams == [] && s.kdfSalt == [] && s.chalSalt == [] && s.ykSlot == otp
         case TwoFactor(_, otp, k, _, name) =>
           s.typ == 3 && s.slotLabel == name && DrawnFrom(s.kdfSalt, 16, coins, at)
           && DrawnFrom(s.chalSalt, 16, coins, at + 16) && DrawnLast(s, coins, at + 68)
           && k.Some? && s.kdfId == K.Id(k.value) && s.kdfParams == K.ParamBytes(k.value)
           && s.challenge == [] && s.ykSlot == otp
         case Recovery(_, name) =>
           s.typ == 4 && s.slotLabel == name && DrawnLast(s, coins, at + 36)
           && s.kdfId == 0 && s.kdfParams == [] && s.kdfSalt == [] && s.chalSalt == [] && s.challenge == []
           && s.ykSlot == 0
  {
    hide MetaBytes, MetaError, KekOf, Derive, Respond, DeriveChallenge, K.ParamBytes, K.Id;
  }

  // Enrolling uses up the coins that its slot shows, and no more.
  lemma CoinsInNumbers(m: Credential)
    ensures CoinsUsed(m) == if m.Password? then 52 else if m.Recovery? then 36 else 68
  {
  }

  // The first reason not to enrol, in the order in which the code meets them.
  function EnrollRefusal(c: Crypto, m: Credential, dek: Option<bytes>): Option<Error> {
    match m
    case Password(k, pw, name) =>
      if k.None? then Some(UnsupportedKdf)
      else if pw.None? then Some(Destroyed)
      else if k.value.Argon2id? && (k.value.time == 0 || k.value.threads == 0) then Some(Panicked)
      else if k.value.Scrypt? && !c.accepts(k.value) then Some(KdfRejected)
      else LateRefusal(name, dek)
    case YubiKey(token, otp, name) =>
      if otp != 1 && otp != 2 then Some(Malformed)
      else if otp !in token then Some(SlotNotConfigured)
      else LateRefusal(name, dek)
    case TwoFactor(token, otp, k, pw, name) =>
      if otp != 1 && otp != 2 then Some(Malformed)
      else if k.None? then Some(UnsupportedKdf)
      else if pw.None? then Some(Destroyed)
      else if k.value.Argon2id? && (k.value.time == 0 || k.value.threads == 0) then Some(Panicked)
      else if k.value.Scrypt? && !c.accepts(k.value) then Some(KdfRejected)
      else if otp !in token then Some(SlotNotConfigured)
      else LateRefusal(name, dek)
    case Recovery(code, name) =>
      if code.None? || |code.value| != 32 then Some(InvalidRecoveryCode) else LateRefusal(name, dek)
  }

  function LateRefusal(name: bytes, dek: Option<bytes>): Option<Error> {
    if |name| > 256 then Some(Malformed) else if dek.None? then Some(Destroyed) else None
  }

  // An enrolment fails exactly for one of those reasons, and names the first.
  lemma EnrollExactly(c: Crypto, m: Credential, dek: Option<bytes>, coins: nat -> byte, at: nat)
    ensures match EnrollRefusal(c, m, dek)
      case None => Enroll(c, m, dek, coins, at).Success?
      case Some(e) => Enroll(c, m, dek, coins, at) == Failure(e)
  {
    hide MetaBytes, KekOf, DeriveChallenge, K.ParamBytes, Draft;
    if m.Password? && m.kdf.Some? { ParamsFit(m.kdf.value); }
    if m.TwoFactor? && m.kdf.Some? { ParamsFit(m.kdf.value); }
    DraftFits(coins, at);
  }

  lemma ParamsFit(k: K.Kdf)
    ensures |K.ParamBytes(k)| == 9
  {
  }

  lemma DraftFits(coins: nat -> byte, at: nat)
    ensures forall n: nat, sh: SlotShape ::
      var s := Draft(coins, n, sh);
      s.typ == sh.typ && s.aeadId == 1 && s.kdfParams == sh.kdfParams && s.kdfSalt == sh.kdfSalt
      && s.chalSalt == sh.chalSalt && s.challenge == sh.challenge && s.slotLabel == sh.name
  {
  }
}
