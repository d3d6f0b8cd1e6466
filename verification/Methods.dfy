/** The unlock methods with their effects: password, YubiKey, two-factor and
    recovery code (method.go, password.go, yubikey.go, recovery.go, kdf.go). */
module Methods {
  import opened Bytes
  import opened Errors
  import opened Kinds
  import opened Slots
  import opened Primitives
  import opened Ikm
  import opened Effects
  import opened SecureBytes
  import opened Combine
  import K = Kdf
  import P = Protocol
  import Wire

  // PasswordMethod, YubiKeyMethod (with a null password: YubiKey only) and
  // RecoveryCodeMethod. The secrets are borrowed, never owned.
  datatype Method =
    | PasswordMethod(kdf: Option<K.Kdf>, password: SecureBytes, name: bytes)
    | YubiKeyMethod(token: P.Token, otpSlot: byte, kdf: Option<K.Kdf>, second: SecureBytes?, name: bytes)
    | RecoveryMethod(code: SecureBytes, name: bytes)

  function SecretOf(m: Method): SecureBytes? {
    match m
    case PasswordMethod(_, password, _) => password
    case YubiKeyMethod(_, _, _, second, _) => second
    case RecoveryMethod(code, _) => code
  }

  ghost predicate Ready(m: Method)
    reads SecretOf(m)
  {
    RoleValid(SecretOf(m))
  }

  // The method with its secret by value.
  ghost function View(m: Method): P.Credential
    reads SecretOf(m), RoleFootprint(SecretOf(m))
  {
    match m
    case PasswordMethod(kdf, password, name) => P.Password(kdf, password.Contents(), name)
    case YubiKeyMethod(token, otpSlot, kdf, second, name) =>
      if second == null then P.YubiKey(token, otpSlot, name)
      else P.TwoFactor(token, otpSlot, kdf, second.Contents(), name)
    case RecoveryMethod(code, name) => P.Recovery(code.Contents(), name)
  }

  // Method.Type
  function TypeOf(m: Method): (t: byte) {
    match m
    case PasswordMethod(_, _, _) => METHOD_PASSWORD
    case YubiKeyMethod(_, _, _, second, _) => if second == null then METHOD_YUBIKEY else METHOD_PASSWORD_AND_YUBIKEY
    case RecoveryMethod(_, _) => METHOD_RECOVERY
  }

  // deriveWithStretch: the raw stretched key is zeroed on every path.
  method Derive(w: World, k: K.Kdf, password: SecureBytes, salt: bytes) returns (pk: Result<SecureBytes>)
    requires w.Valid() && password.Valid()
    modifies w`tick, w`hits, w`fault, w`live, w`residue
    ensures w.Valid()
    ensures Delivers(w, pk, P.Derive(w.crypto, k, password.Contents(), salt))
  {
    var pw :- password.Borrow();
    if P.Panics(k) { return Failure(Panicked); }
    if k.Scrypt? && !w.crypto.accepts(k) { return Failure(KdfRejected); }
    var raw := RawSecret(w, w.crypto.stretch(k, pw[..], salt));
    pk := SecureBytes.New(w, raw);
    Zero(w, raw);
  }

  // Transport.ChallengeResponse
  method ChallengeResponse(w: World, token: P.Token, otpSlot: byte, challenge: bytes) returns (yr: Result<SecureBytes>)
    requires w.Valid()
    modifies w`tick, w`hits, w`fault, w`live, w`residue
    ensures w.Valid()
    ensures Delivers(w, yr, P.Respond(w.crypto, token, otpSlot, challenge))
  {
    if !P.OtpSlotValid(otpSlot) { return Failure(SlotNotConfigured); }
    var _ :- w.CtxErr();
    var failed := w.Fails(Transport);
    if failed { return Failure(Fault(Transport)); }
    if otpSlot !in token { return Failure(SlotNotConfigured); }
    var raw := RawSecret(w, w.crypto.hmac(token[otpSlot], challenge));
    yr := SecureBytes.New(w, raw);
    Zero(w, raw);
  }

  // deriveChallenge: the caller owes the result a zeroing.
  method DeriveChallenge(w: World, pk: SecureBytes, chalSalt: bytes) returns (r: Result<array<byte>>)
    requires w.Valid() && pk.Valid() && !pk.destroyed
    modifies w`tick, w`hits, w`fault, w`residue
    ensures w.Valid()
    ensures w.hits == old(w.hits) ==>
      r.Success? && fresh(r.value) && r.value[..] == P.DeriveChallenge(w.crypto, pk.Contents().value, chalSalt)
      && w.residue == old(w.residue) + {r.value}
    ensures w.hits != old(w.hits) ==>
      w.hits == old(w.hits) + 1 && r == Failure(Fault(w.fault)) && w.residue == old(w.residue)
  {
    var pkb := pk.Borrow();
    r := Combine.Hkdf(w, pkb.value[..], chalSalt, P.LABEL_CHALLENGE);
  }

  // ---- wrapping and unwrapping ----

  function WantWrap(c: Crypto, dek: Option<bytes>, roles: Result<Roles>, s: Slot): Result<Slot> {
    var _ :- MetaOf(s);
    var rs :- roles;
    P.Wrap(c, dek, rs, s)
  }

  function WantWrapLog(c: Crypto, dek: Option<bytes>, roles: Result<Roles>, s: Slot): seq<Sealed> {
    var r := WantWrap(c, dek, roles, s);
    if r.Failure? || dek.None? || roles.Failure? then [] else [P.SealingOf(c, dek.value, roles.value, r.value)]
  }

  // The random fields of a new slot.
  method DraftSlot(w: World, sh: P.SlotShape) returns (r: Result<Slot>)
    requires w.Valid()
    modifies w`tick, w`hits, w`fault, w`drawn
    ensures w.Valid()
    ensures w.hits == old(w.hits) ==>
      r == Success(P.Draft(w.coins, old(w.drawn), sh)) && w.drawn == old(w.drawn) + 36
    ensures w.hits != old(w.hits) ==> w.hits == old(w.hits) + 1 && r == Failure(Fault(w.fault))
  {
    hide Failing, Honest;
    var id :- w.RandBytes(8);
    var hkdfSalt :- w.RandBytes(16);
    var nonce :- w.RandBytes(12);
    return Success(Slot(sh.typ, id, 0, AEAD_CHACHA20_POLY1305, sh.kdfId, sh.ykSlot, sh.kdfParams,
                        sh.kdfSalt, sh.chalSalt, hkdfSalt, sh.challenge, sh.name, nonce, [], None));
  }

  // Deriving the KEK of a drafted slot and sealing the data key under it.
  method SealSlot(w: World, dek: SecureBytes, ins: IkmInputs, ghost roles: Result<Roles>, s: Slot)
    returns (r: Result<Slot>)
    requires w.Valid() && dek.Valid() && InputsValid(ins) && roles == RolesOf(ins)
    modifies w`tick, w`hits, w`fault, w`live, w`residue, w`unlocks, w`log
    ensures w.Valid() && w.live == old(w.live) && w.residue == old(w.residue)
    ensures w.hits == old(w.hits) ==>
      r == WantWrap(w.crypto, dek.Contents(), roles, s)
      && w.log == old(w.log) + WantWrapLog(w.crypto, dek.Contents(), roles, s)
    ensures w.hits != old(w.hits) ==>
      w.hits == old(w.hits) + 1 && r == Failure(Fault(w.fault)) && w.log == old(w.log)
  {
    hide Encode, Failing, Honest, MetaBytes, MetaError, P.KekInfo;
    var meta :- MarshalMeta(s);
    var kek :- DeriveKek(w, ins, roles, s.hkdfSalt, FORMAT_VERSION, s.typ, s.id);
    var wrapped := Seal(w, kek, dek, s.nonce, meta);
    var _ := kek.Destroy(w);
    if wrapped.Failure? { return Failure(wrapped.error); }
    Wire.MetaIgnoresWrapped(s, wrapped.value, Some(meta));
    return Success(s.(wrapped := wrapped.value, meta := Some(meta)));
  }

  // wrapDEK
  method WrapDek(w: World, dek: SecureBytes, ins: IkmInputs, ghost roles: Result<Roles>, sh: P.SlotShape)
    returns (r: Result<Slot>)
    requires w.Valid() && dek.Valid() && InputsValid(ins) && roles == RolesOf(ins)
    modifies w`tick, w`hits, w`fault, w`drawn, w`live, w`residue, w`unlocks, w`log
    ensures w.Valid() && w.live == old(w.live) && w.residue == old(w.residue)
    ensures w.hits == old(w.hits) ==>
      var s := P.Draft(w.coins, old(w.drawn), sh);
      r == WantWrap(w.crypto, dek.Contents(), roles, s) && w.drawn == old(w.drawn) + 36
      && w.log == old(w.log) + WantWrapLog(w.crypto, dek.Contents(), roles, s)
    ensures w.hits != old(w.hits) ==>
      w.hits == old(w.hits) + 1 && r == Failure(Fault(w.fault)) && w.log == old(w.log)
  {
    hide Failing, Honest, P.Draft, WantWrap, WantWrapLog;
    var s :- DraftSlot(w, sh);
    r := SealSlot(w, dek, ins, roles, s);
  }

  ghost function WantUnwrap(c: Crypto, log: seq<Sealed>, s: Slot, roles: Result<Roles>): Result<bytes> {
    var rs :- roles;
    P.Unwrap(c, log, s, rs)
  }

  // unwrapDEK
  method UnwrapDek(w: World, s: Slot, ins: IkmInputs, ghost roles: Result<Roles>) returns (dek: Result<SecureBytes>)
    requires w.Valid() && InputsValid(ins) && roles == RolesOf(ins)
    modifies w`tick, w`hits, w`fault, w`live, w`residue, w`unlocks
    ensures w.Valid()
    ensures Delivers(w, dek, WantUnwrap(w.crypto, w.log, s, roles))
  {
    hide Encode, Failing, Honest, MetaBytes, MetaError, P.KekInfo, Lookup;
    var kek :- DeriveKek(w, ins, roles, s.hkdfSalt, FORMAT_VERSION, s.typ, s.id);
    if s.meta.Some? {
      dek := Open(w, kek, s.nonce, s.wrapped, s.meta.value);
    } else {
      var meta := MarshalMeta(s);
      if meta.Failure? {
        dek := Failure(meta.error);
      } else {
        dek := Open(w, kek, s.nonce, s.wrapped, meta.value);
      }
    }
    var _ := kek.Destroy(w);
  }

  // ---- enrolment ----

  // What an enrolment promises: with no outside failure, exactly the slot, the
  // sealing and the randomness of Protocol.Enroll; otherwise that failure and no
  // sealing. No secret it made stays behind.
  twostate predicate Enrols(w: World, new r: Result<Slot>, m: P.Credential, dek: Option<bytes>)
    reads w
  {
    w.live == old(w.live) && w.residue == old(w.residue)
    && if w.hits == old(w.hits) then
         r == P.Enroll(w.crypto, m, dek, w.coins, old(w.drawn))
         && w.log == old(w.log) + P.EnrollLog(w.crypto, m, dek, w.coins, old(w.drawn))
         && (r.Success? ==> w.drawn == old(w.drawn) + P.CoinsUsed(m))
       else w.hits == old(w.hits) + 1 && r == Failure(Fault(w.fault)) && w.log == old(w.log)
  }

  // How wrapDEK's answer becomes an enrolment, once the roles and the draft are known.
  lemma WrapIsEnroll(c: Crypto, m: P.Credential, dek: Option<bytes>, coins: nat -> byte, at: nat, roles: Roles, s: Slot)
    requires P.Prepare(c, m, coins, at) == Success((roles, s))
    ensures P.Enroll(c, m, dek, coins, at) == WantWrap(c, dek, Success(roles), s)
    ensures P.EnrollLog(c, m, dek, coins, at) == WantWrapLog(c, dek, Success(roles), s)
  {
    hide P.Prepare, MetaBytes, MetaError, P.KekOf;
  }

  lemma PrepareFails(c: Crypto, m: P.Credential, dek: Option<bytes>, coins: nat -> byte, at: nat, e: Error)
    requires P.Prepare(c, m, coins, at) == Failure(e)
    ensures P.Enroll(c, m, dek, coins, at) == Failure(e) && P.EnrollLog(c, m, dek, coins, at) == []
  {
    hide P.Prepare;
  }

  method Params(k: K.Kdf) returns (b: bytes)
    ensures b == K.ParamBytes(k)
  {
    var params := K.MarshalParams(k);
    return params[..];
  }

  // PasswordMethod.Enroll from the salt on.
  method EnrollPassword(w: World, k: K.Kdf, password: SecureBytes, name: bytes, dek: SecureBytes,
                        ghost m: P.Credential, ghost pt: Option<bytes>) returns (r: Result<Slot>)
    requires w.Valid() && password.Valid() && dek.Valid()
    requires m == P.Password(Some(k), password.Contents(), name) && pt == dek.Contents()
    modifies w`tick, w`hits, w`fault, w`drawn, w`live, w`residue, w`unlocks, w`log
    ensures w.Valid() && Enrols(w, r, m, pt)
  {
    hide Failing, Honest, Encode, P.Draft, WantWrap, WantWrapLog, P.Enroll, P.EnrollLog, K.ParamBytes, P.Derive,
      P.Prepare;
    ghost var c, coins, at := w.crypto, w.coins, w.drawn;
    PasswordPrepared(c, m, coins, at);
    var salt :- w.RandBytes(K.DEFAULT_SALT_LEN);
    var pk := Derive(w, k, password, salt);
    if pk.Failure? {
      if w.hits == old(w.hits) { PrepareFails(c, m, pt, coins, at, pk.error); }
      return Failure(pk.error);
    }
    var params := Params(k);
    var sh := P.SlotShape(METHOD_PASSWORD, K.Id(k), params, salt, [], [], 0, name);
    ghost var roles := Roles(pk.value.Contents(), None, None);
    WrapIsEnroll(c, m, pt, coins, at, roles, P.Draft(coins, at + 16, sh));
    r := WrapDek(w, dek, IkmInputs(pk.value, null, null), Success(roles), sh);
    var _ := pk.value.Destroy(w);
  }

  lemma PasswordPrepared(c: Crypto, m: P.Credential, coins: nat -> byte, at: nat)
    requires m.Password? && m.kdf.Some?
    ensures var k := m.kdf.value;
      var salt := Draw(coins, at, 16);
      P.Prepare(c, m, coins, at) ==
        match P.Derive(c, k, m.pw, salt)
        case Failure(e) => Failure(e)
        case Success(pk) =>
          Success((Roles(Some(pk), None, None), P.Draft(coins, at + 16,
            P.SlotShape(METHOD_PASSWORD, K.Id(k), K.ParamBytes(k), salt, [], [], 0, m.name))))
  {
    hide P.Derive, P.Draft, K.ParamBytes;
  }

  // YubiKeyMethod.enrollYubiOnly
  method EnrollYubiOnly(w: World, token: P.Token, otpSlot: byte, name: bytes, dek: SecureBytes,
                        ghost m: P.Credential, ghost pt: Option<bytes>) returns (r: Result<Slot>)
    requires w.Valid() && dek.Valid() && P.OtpSlotValid(otpSlot)
    requires m == P.YubiKey(token, otpSlot, name) && pt == dek.Contents()
    modifies w`tick, w`hits, w`fault, w`drawn, w`live, w`residue, w`unlocks, w`log
    ensures w.Valid() && Enrols(w, r, m, pt)
  {
    hide Failing, Honest, Encode, P.Draft, WantWrap, WantWrapLog, P.Enroll, P.EnrollLog;
    ghost var c, coins, at := w.crypto, w.coins, w.drawn;
    var challenge :- w.RandBytes(P.YUBI_CHALLENGE_LEN);
    var yr := ChallengeResponse(w, token, otpSlot, challenge);
    if yr.Failure? {
      if w.hits == old(w.hits) { PrepareFails(c, m, pt, coins, at, yr.error); }
      return Failure(yr.error);
    }
    var sh := P.SlotShape(METHOD_YUBIKEY, KDF_NONE, [], [], [], challenge, otpSlot, name);
    ghost var roles := Roles(None, yr.value.Contents(), None);
    WrapIsEnroll(c, m, pt, coins, at, roles, P.Draft(coins, at + 32, sh));
    r := WrapDek(w, dek, IkmInputs(null, yr.value, null), Success(roles), sh);
    var _ := yr.value.Destroy(w);
  }

  // What enroll2FA promises once the password key is in hand, drawing the
  // challenge salt from position `at`.
  ghost function WantPair(c: Crypto, token: P.Token, otpSlot: byte, pk: bytes, coins: nat -> byte,
      at: nat): Result<Roles> {
    var yr :- P.Respond(c, token, otpSlot, P.DeriveChallenge(c, pk, Draw(coins, at, 16)));
    Success(Roles(Some(pk), Some(yr), None))
  }

  // The secret challenge and the device's answer to it; the challenge is zeroed on every path.
  method SecretResponse(w: World, token: P.Token, otpSlot: byte, pk: SecureBytes, chalSalt: bytes)
    returns (yr: Result<SecureBytes>)
    requires w.Valid() && pk.Valid() && !pk.destroyed
    modifies w`tick, w`hits, w`fault, w`live, w`residue
    ensures w.Valid()
    ensures Delivers(w, yr,
      P.Respond(w.crypto, token, otpSlot, P.DeriveChallenge(w.crypto, pk.Contents().value, chalSalt)))
  {
    hide Failing, Honest, P.DeriveChallenge, P.Respond;
    var challenge :- DeriveChallenge(w, pk, chalSalt);
    yr := ChallengeResponse(w, token, otpSlot, challenge[..]);
    Zero(w, challenge);
  }

  // YubiKeyMethod.enroll2FA after the KDF nil-check.
  method EnrollTwoFactor(w: World, token: P.Token, otpSlot: byte, k: K.Kdf, password: SecureBytes, name: bytes,
                         dek: SecureBytes, ghost m: P.Credential, ghost pt: Option<bytes>) returns (r: Result<Slot>)
    requires w.Valid() && password.Valid() && dek.Valid() && P.OtpSlotValid(otpSlot)
    requires m == P.TwoFactor(token, otpSlot, Some(k), password.Contents(), name) && pt == dek.Contents()
    modifies w`tick, w`hits, w`fault, w`drawn, w`live, w`residue, w`unlocks, w`log
    ensures w.Valid() && Enrols(w, r, m, pt)
  {
    hide Failing, Honest, Encode, P.Enroll, P.EnrollLog, K.ParamBytes, P.Derive, P.Respond, P.DeriveChallenge,
        P.Prepare;
    hide WantWrap, WantWrapLog, P.Draft;
    ghost var c, coins, at := w.crypto, w.coins, w.drawn;
    var salt :- w.RandBytes(K.DEFAULT_SALT_LEN);
    var pk := Derive(w, k, password, salt);
    if pk.Failure? {
      if w.hits == old(w.hits) {
        TwoFactorPrepared(c, m, coins, at);
        PrepareFails(c, m, pt, coins, at, pk.error);
      }
      return Failure(pk.error);
    }
    r := EnrollPair(w, token, otpSlot, k, salt, pk.value, name, dek, m, pt, at);
    var _ := pk.value.Destroy(w);
  }

  lemma TwoFactorPrepared(c: Crypto, m: P.Credential, coins: nat -> byte, at: nat)
    requires m.TwoFactor? && P.OtpSlotValid(m.otpSlot) && m.kdf.Some?
    ensures var k := m.kdf.value;
      var salt := Draw(coins, at, 16);
      P.Prepare(c, m, coins, at) ==
        match P.Derive(c, k, m.pw, salt)
        case Failure(e) => Failure(e)
        case Success(pk) =>
          match WantPair(c, m.token, m.otpSlot, pk, coins, at + 16)
          case Failure(e) => Failure(e)
          case Success(roles) =>
            Success((roles, P.Draft(coins, at + 32,
              P.SlotShape(METHOD_PASSWORD_AND_YUBIKEY, K.Id(k), K.ParamBytes(k), salt, Draw(coins, at + 16,
                  16), [], m.otpSlot, m.name))))
  {
    hide P.Derive, P.DeriveChallenge, P.Respond, P.Draft, K.ParamBytes;
  }

  // The part of enroll2FA from the challenge salt on.
  method EnrollPair(w: World, token: P.Token, otpSlot: byte, k: K.Kdf, salt: bytes, pk: SecureBytes, name: bytes,
                    dek: SecureBytes, ghost m: P.Credential, ghost pt: Option<bytes>,
                        ghost at: nat) returns (r: Result<Slot>)
    requires w.Valid() && dek.Valid() && pk.Valid() && !pk.destroyed && P.OtpSlotValid(otpSlot)
    requires m.TwoFactor? && m.token == token && m.otpSlot == otpSlot && m.kdf == Some(k) && m.name == name
    requires pt == dek.Contents() && salt == Draw(w.coins, at, 16) && w.drawn == at + 16
    requires P.Derive(w.crypto, k, m.pw, salt) == Success(pk.Contents().value)
    modifies w`tick, w`hits, w`fault, w`drawn, w`live, w`residue, w`unlocks, w`log
    ensures w.Valid() && w.live == old(w.live) && w.residue == old(w.residue)
    ensures w.hits == old(w.hits) ==>
      r == P.Enroll(w.crypto, m, pt, w.coins, at)
      && w.log == old(w.log) + P.EnrollLog(w.crypto, m, pt, w.coins, at)
      && (r.Success? ==> w.drawn == at + P.CoinsUsed(m))
    ensures w.hits != old(w.hits) ==>
      w.hits == old(w.hits) + 1 && r == Failure(Fault(w.fault)) && w.log == old(w.log)
  {
    hide Failing, Honest, Encode, P.Draft, WantWrap, WantWrapLog, P.Enroll, P.EnrollLog, K.ParamBytes;
    hide P.Derive, P.Respond, P.DeriveChallenge, P.Prepare;
    ghost var c, coins := w.crypto, w.coins;
    TwoFactorPrepared(c, m, coins, at);
    var chalSalt :- w.RandBytes(K.DEFAULT_SALT_LEN);
    var yr := SecretResponse(w, token, otpSlot, pk, chalSalt);
    if yr.Failure? {
      if w.hits == old(w.hits) { PrepareFails(c, m, pt, coins, at, yr.error); }
      return Failure(yr.error);
    }
    var params := Params(k);
    var sh := P.SlotShape(METHOD_PASSWORD_AND_YUBIKEY, K.Id(k), params, salt, chalSalt, [], otpSlot, name);
    ghost var roles := Roles(pk.Contents(), yr.value.Contents(), None);
    WrapIsEnroll(c, m, pt, coins, at, roles, P.Draft(coins, at + 32, sh));
    r := WrapDek(w, dek, IkmInputs(pk, yr.value, null), Success(roles), sh);
    var _ := yr.value.Destroy(w);
  }

  // RecoveryCodeMethod.Enroll after the context check.
  method EnrollRecovery(w: World, code: SecureBytes, name: bytes, dek: SecureBytes,
                        ghost m: P.Credential, ghost pt: Option<bytes>) returns (r: Result<Slot>)
    requires w.Valid() && code.Valid() && dek.Valid()
    requires m == P.Recovery(code.Contents(), name) && pt == dek.Contents()
    modifies w`tick, w`hits, w`fault, w`drawn, w`live, w`residue, w`unlocks, w`log
    ensures w.Valid() && Enrols(w, r, m, pt)
  {
    hide Failing, Honest, Encode, P.Draft, WantWrap, WantWrapLog, P.Enroll, P.EnrollLog;
    ghost var c, coins, at := w.crypto, w.coins, w.drawn;
    var n := code.Len();
    if n != P.RECOVERY_CODE_LEN {
      PrepareFails(c, m, pt, coins, at, InvalidRecoveryCode);
      return Failure(InvalidRecoveryCode);
    }
    var sh := P.SlotShape(METHOD_RECOVERY, KDF_NONE, [], [], [], [], 0, name);
    ghost var roles := Roles(None, None, code.Contents());
    WrapIsEnroll(c, m, pt, coins, at, roles, P.Draft(coins, at, sh));
    r := WrapDek(w, dek, IkmInputs(null, null, code), Success(roles), sh);
  }

  // Method.Enroll
  method Enroll(w: World, m: Method, dek: SecureBytes, ghost v: P.Credential, ghost pt: Option<bytes>)
    returns (r: Result<Slot>)
    requires w.Valid() && Ready(m) && dek.Valid() && v == View(m) && pt == dek.Contents()
    modifies w`tick, w`hits, w`fault, w`drawn, w`live, w`residue, w`unlocks, w`log
    ensures w.Valid() && Enrols(w, r, v, pt)
  {
    hide Failing, Honest, Encode, P.Draft, P.Enroll, P.EnrollLog, P.Derive, P.Respond, P.DeriveChallenge;
    ghost var c, coins, at := w.crypto, w.coins, w.drawn;
    var _ :- w.CtxErr();
    match m {
      case PasswordMethod(kdf, password, name) =>
        if kdf.None? {
          PrepareFails(c, v, pt, coins, at, UnsupportedKdf);
          return Failure(UnsupportedKdf);
        }
        r := EnrollPassword(w, kdf.value, password, name, dek, v, pt);
      case YubiKeyMethod(token, otpSlot, kdf, second, name) =>
        if !P.OtpSlotValid(otpSlot) {
          PrepareFails(c, v, pt, coins, at, Malformed);
          return Failure(Malformed);
        }
        if second == null {
          r := EnrollYubiOnly(w, token, otpSlot, name, dek, v, pt);
        } else if kdf.None? {
          PrepareFails(c, v, pt, coins, at, UnsupportedKdf);
          return Failure(UnsupportedKdf);
        } else {
          r := EnrollTwoFactor(w, token, otpSlot, kdf.value, second, name, dek, v, pt);
        }
      case RecoveryMethod(code, name) =>
        r := EnrollRecovery(w, code, name, dek, v, pt);
    }
  }

  // ---- unlocking ----

  // derivePasswordKey
  method DerivePasswordKey(w: World, s: Slot, password: SecureBytes) returns (pk: Result<SecureBytes>)
    requires w.Valid() && password.Valid()
    modifies w`tick, w`hits, w`fault, w`live, w`residue
    ensures w.Valid()
    ensures Delivers(w, pk, P.SlotPasswordKey(w.crypto, s, password.Contents()))
  {
    hide Failing, Honest, P.Derive, K.ParseKdf;
    var k :- K.ParseKdf(s.kdfId, s.kdfParams);
    if k.None? { return Failure(Malformed); }
    pk := Derive(w, k.value, password, s.kdfSalt);
  }

  method UnlockPassword(w: World, password: SecureBytes, s: Slot,
      ghost m: P.Credential) returns (dek: Result<SecureBytes>)
    requires w.Valid() && password.Valid()
    requires m.Password? && m.pw == password.Contents()
    modifies w`tick, w`hits, w`fault, w`live, w`residue, w`unlocks
    ensures w.Valid()
    ensures Delivers(w, dek, P.Unlock(w.crypto, w.log, m, s))
  {
    hide Failing, Honest, Encode, P.SlotPasswordKey, P.Unwrap;
    var pk :- DerivePasswordKey(w, s, password);
    ghost var roles := Roles(pk.Contents(), None, None);
    dek := UnwrapDek(w, s, IkmInputs(pk, null, null), Success(roles));
    var _ := pk.Destroy(w);
  }

  method UnlockYubiOnly(w: World, token: P.Token, s: Slot, ghost m: P.Credential) returns (dek: Result<SecureBytes>)
    requires w.Valid() && P.OtpSlotValid(s.ykSlot)
    requires m.YubiKey? && m.token == token
    modifies w`tick, w`hits, w`fault, w`live, w`residue, w`unlocks
    ensures w.Valid()
    ensures Delivers(w, dek, P.Unlock(w.crypto, w.log, m, s))
  {
    hide Failing, Honest, Encode, P.Respond, P.Unwrap;
    var yr :- ChallengeResponse(w, token, s.ykSlot, s.challenge);
    ghost var roles := Roles(None, yr.Contents(), None);
    dek := UnwrapDek(w, s, IkmInputs(null, yr, null), Success(roles));
    var _ := yr.Destroy(w);
  }

  // The second half of a two-factor attempt, once the password key is known.
  ghost function WantPaired(c: Crypto, log: seq<Sealed>, token: P.Token, s: Slot, pk: bytes): Result<bytes> {
    var yr :- P.Respond(c, token, s.ykSlot, P.DeriveChallenge(c, pk, s.chalSalt));
    P.Unwrap(c, log, s, Roles(Some(pk), Some(yr), None))
  }

  method UnlockPaired(w: World, token: P.Token, pk: SecureBytes, s: Slot) returns (dek: Result<SecureBytes>)
    requires w.Valid() && pk.Valid() && pk.Contents().Some? && P.OtpSlotValid(s.ykSlot)
    modifies w`tick, w`hits, w`fault, w`live, w`residue, w`unlocks
    ensures w.Valid()
    ensures Delivers(w, dek, WantPaired(w.crypto, w.log, token, s, pk.Contents().value))
  {
    hide Failing, Honest, Encode, P.Respond, P.DeriveChallenge, P.Unwrap;
    var yr :- SecretResponse(w, token, s.ykSlot, pk, s.chalSalt);
    ghost var roles := Roles(pk.Contents(), yr.Contents(), None);
    dek := UnwrapDek(w, s, IkmInputs(pk, yr, null), Success(roles));
    var _ := yr.Destroy(w);
  }

  method UnlockTwoFactor(w: World, token: P.Token, password: SecureBytes, s: Slot, ghost m: P.Credential)
    returns (dek: Result<SecureBytes>)
    requires w.Valid() && password.Valid() && P.OtpSlotValid(s.ykSlot)
    requires m.TwoFactor? && m.token == token && m.pw == password.Contents()
    modifies w`tick, w`hits, w`fault, w`live, w`residue, w`unlocks
    ensures w.Valid()
    ensures Delivers(w, dek, P.Unlock(w.crypto, w.log, m, s))
  {
    hide Failing, Honest, P.SlotPasswordKey, P.Respond, P.DeriveChallenge, P.Unwrap;
    var pk :- DerivePasswordKey(w, s, password);
    dek := UnlockPaired(w, token, pk, s);
    var _ := pk.Destroy(w);
  }

  // Method.Unlock
  method Unlock(w: World, m: Method, s: Slot, ghost v: P.Credential) returns (dek: Result<SecureBytes>)
    requires w.Valid() && Ready(m) && v == View(m)
    modifies w`tick, w`hits, w`fault, w`live, w`residue, w`unlocks
    ensures w.Valid()
    ensures Delivers(w, dek, P.Unlock(w.crypto, w.log, v, s))
  {
    hide Failing, Honest, Encode, P.SlotPasswordKey, P.Respond, P.DeriveChallenge, P.Unwrap;
    var _ :- w.CtxErr();
    match m {
      case PasswordMethod(_, password, _) =>
        dek := UnlockPassword(w, password, s, v);
      case YubiKeyMethod(token, _, _, second, _) =>
        if !P.OtpSlotValid(s.ykSlot) { return Failure(Malformed); }
        if second == null {
          dek := UnlockYubiOnly(w, token, s, v);
        } else {
          dek := UnlockTwoFactor(w, token, second, s, v);
        }
      case RecoveryMethod(code, _) =>
        ghost var roles := if code.destroyed then Failure(Destroyed) else Success(Roles(None, None, code.Contents()));
        dek := UnwrapDek(w, s, IkmInputs(null, null, code), roles);
    }
  }
}
