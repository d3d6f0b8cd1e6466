/** What it takes to open a slot: the very secrets it was enrolled with, as long as
    the primitives do not collide on the few calls that are made. */
module Factors {
  import opened Bytes
  import opened Errors
  import opened Kinds
  import opened Slots
  import opened Primitives
  import opened Ikm
  import opened Records
  import opened Searching
  import K = Kdf
  import P = Protocol

  // The KEK of a slot under some roles.
  function SlotKek(c: Crypto, roles: Roles, s: Slot): Block32 {
    P.KekOf(c, roles, s.hkdfSalt, FORMAT_VERSION, s.typ, s.id)
  }

  ghost predicate SameKek(c: Crypto, coins: nat -> byte, roles: Roles, r: Record) {
    P.Prepare(c, r.m, coins, r.at).Success? && SlotKek(c, roles, r.slot) == SlotKek(c, RolesOf(c, coins, r), r.slot)
  }

  // A slot opens exactly when it was enrolled just so and the method rebuilds the KEK
  // it was sealed under.
  lemma OpensExactly(c: Crypto, coins: nat -> byte, log: seq<Sealed>, book: seq<Record>, s: Slot, m: P.Credential)
    requires Audited(c, coins, log, book) && WellFormed(s)
    ensures P.Unlock(c, log, m, s).Success? <==>
      P.Roled(c, m, s).Success?
      && exists i :: 0 <= i < |book| && book[i].slot == s && SameKek(c, coins, P.Roled(c, m, s).value, book[i])
  {
    hide MetaBytes, MetaError, ShapeError, P.KekOf, P.Roled, P.Prepare, Made, Lookup;
    var got := P.Roled(c, m, s);
    if got.Success? {
      var kek := SlotKek(c, got.value, s);
      LookupSound(log, kek, s.nonce, s.wrapped, MetaBytes(s));
      forall i | 0 <= i < |book| && book[i].slot == s
        ensures Matches(log[i], kek, s.nonce, s.wrapped, MetaBytes(s)) <==> SameKek(c, coins, got.value, book[i])
      {
        assert Made(c, coins, book[i], log[i]);
        MadeFacts(c, coins, book[i], log[i]);
      }
      if P.Unlock(c, log, m, s).Success? {
        MatchWasEnrolled(c, coins, log, book, s, kek);
      }
    }
  }

  // The password keys and responses of the built-in methods fit the length field.
  lemma RebuiltAreShort(c: Crypto, m: P.Credential, s: Slot)
    ensures P.Roled(c, m, s).Success? ==> ShortFactors(P.Roled(c, m, s).value)
  {
    hide K.ParseKdf, P.DeriveChallenge;
  }

  lemma EnrolledAreShort(c: Crypto, m: P.Credential, coins: nat -> byte, at: nat)
    ensures P.Prepare(c, m, coins, at).Success? ==> ShortFactors(P.Prepare(c, m, coins, at).value.0)
  {
    hide P.Draft, P.DeriveChallenge, K.ParamBytes;
  }

  // ---- the calls behind a KEK, from the description of the format ----

  type StretchCall = (K.Kdf, bytes, bytes)   // KDF, password, salt
  type HmacCall = (bytes, bytes)             // secret, challenge
  type HkdfCall = (bytes, bytes, bytes)      // keying material, salt, info

  // "tumbler/v1 challenge" and "tumbler/v1 kek" in ASCII.
  const CHALLENGE_INFO: bytes :=
    [116, 117, 109, 98, 108, 101, 114, 47, 118, 49, 32, 99, 104, 97, 108, 108, 101, 110, 103, 101]
  const KEK_INFO: bytes := [116, 117, 109, 98, 108, 101, 114, 47, 118, 49, 32, 107, 101, 107]

  lemma LabelsInAscii()
    ensures P.LABEL_CHALLENGE == CHALLENGE_INFO && P.LABEL_KEK == KEK_INFO
  {
  }

  function KdfOf(m: P.Credential): Option<K.Kdf> {
    match m
    case Password(k, _, _) => k
    case TwoFactor(_, _, k, _, _) => k
    case _ => None
  }

  // The calls one credential makes on a slot with this KDF.
  datatype Work = Work(stretched: set<StretchCall>, answered: set<HmacCall>, derived: set<HkdfCall>)

  function PasswordCall(k: Option<K.Kdf>, pw: Option<bytes>, s: Slot): Option<StretchCall> {
    if k.Some? && pw.Some? then Some((k.value, pw.value, s.kdfSalt)) else None
  }

  function DeviceCall(token: P.Token, s: Slot, challenge: bytes): Option<HmacCall> {
    if (s.ykSlot == 1 || s.ykSlot == 2) && s.ykSlot in token then Some((token[s.ykSlot], challenge)) else None
  }

  function ChallengeCall(pk: bytes, s: Slot): HkdfCall {
    (pk, s.chalSalt, CHALLENGE_INFO)
  }

  function KekCall(roles: Roles, s: Slot): HkdfCall {
    (Encode(roles), s.hkdfSalt, KEK_INFO + [1, s.typ] + s.id)
  }

  // The factors that enter the KEK, and every call on the way to it.
  function Trail(c: Crypto, k: Option<K.Kdf>, m: P.Credential, s: Slot): (Option<Roles>, Work) {
    match m
    case Password(_, pw, _) =>
      var call := PasswordCall(k, pw, s);
      if call.None? then (None, Work({}, {}, {})) else
      var roles := Roles(Some(c.stretch(call.value.0, call.value.1, call.value.2)), None, None);
      (Some(roles), Work({call.value}, {}, {KekCall(roles, s)}))
    case YubiKey(token, _, _) =>
      var call := DeviceCall(token, s, s.challenge);
      if call.None? then (None, Work({}, {}, {})) else
      var roles := Roles(None, Some(c.hmac(call.value.0, call.value.1)), None);
      (Some(roles), Work({}, {call.value}, {KekCall(roles, s)}))
    case TwoFactor(token, _, _, pw, _) =>
      var first := PasswordCall(k, pw, s);
      if first.None? then (None, Work({}, {}, {})) else
      var pk := c.stretch(first.value.0, first.value.1, first.value.2);
      var second := ChallengeCall(pk, s);
      var third := DeviceCall(token, s, c.hkdf(second.0, second.1, second.2));
      if third.None? then (None, Work({first.value}, {}, {second})) else
      var roles := Roles(Some(pk), Some(c.hmac(third.value.0, third.value.1)), None);
      (Some(roles), Work({first.value}, {third.value}, {second, KekCall(roles, s)}))
    case Recovery(code, _) =>
      if code.None? then (None, Work({}, {}, {})) else
      var roles := Roles(None, None, code);
      (Some(roles), Work({}, {}, {KekCall(roles, s)}))
  }

  // Among these calls each primitive gives equal outputs only for equal arguments.
  ghost predicate Distinct(c: Crypto, v: Work, w: Work) {
    (forall a, b | a in v.stretched && b in w.stretched :: StretchedAlike(c, a, b) ==> a == b)
    && (forall a, b | a in v.answered && b in w.answered :: AnsweredAlike(c, a, b) ==> a == b)
    && (forall a, b | a in v.derived && b in w.derived :: DerivedAlike(c, a, b) ==> a == b)
  }

  ghost predicate StretchedAlike(c: Crypto, a: StretchCall, b: StretchCall) {
    c.stretch(a.0, a.1, a.2) == c.stretch(b.0, b.1, b.2)
  }

  ghost predicate AnsweredAlike(c: Crypto, a: HmacCall, b: HmacCall) {
    c.hmac(a.0, a.1) == c.hmac(b.0, b.1)
  }

  ghost predicate DerivedAlike(c: Crypto, a: HkdfCall, b: HkdfCall) {
    c.hkdf(a.0, a.1, a.2) == c.hkdf(b.0, b.1, b.2)
  }

  // No collision between what the method does on the slot and what its enrolments did.
  ghost predicate NoCollision(c: Crypto, book: seq<Record>, s: Slot, m: P.Credential) {
    forall i :: 0 <= i < |book| && book[i].slot == s ==>
      var k := KdfOf(book[i].m);
      Distinct(c, Trail(c, k, m, s).1, Trail(c, k, book[i].m, s).1)
  }

  // ---- the protocol follows that description ----

  lemma WellFormedInBounds(c: Crypto, coins: nat -> byte, r: Record, e: Sealed)
    requires Made(c, coins, r, e) && WellFormed(r.slot)
    ensures KdfInBounds(r.m)
  {
    hide MetaBytes, MetaError, K.ParseKdf, K.ParamBytes, K.InBounds, Made;
    MadeFacts(c, coins, r, e);
    SlotFields(c, coins, r, e);
    if r.m.Password? { K.ParseOfParams(r.m.kdf.value); }
    if r.m.TwoFactor? { K.ParseOfParams(r.m.kdf.value); }
  }

  // On an enrolled slot any method rebuilds the factors of its trail, and the enrolment
  // itself used those of its own.
  lemma TrailOfRebuilt(c: Crypto, coins: nat -> byte, r: Record, e: Sealed, m: P.Credential)
    requires Made(c, coins, r, e) && WellFormed(r.slot)
    ensures var want := Trail(c, KdfOf(r.m), m, r.slot).0;
      P.Roled(c, m, r.slot).Success? == want.Some? && (want.Some? ==> P.Roled(c, m, r.slot) == Success(want.value))
    ensures P.Prepare(c, r.m, coins, r.at).Success?
    ensures Trail(c, KdfOf(r.m), r.m, r.slot).0 == Some(RolesOf(c, coins, r))
  {
    hide MetaBytes, MetaError, K.ParseKdf, K.ParamBytes, K.InBounds, Made, P.Prepare, KekCall;
    MadeFacts(c, coins, r, e);
    SlotFields(c, coins, r, e);
    WellFormedInBounds(c, coins, r, e);
    LabelsInAscii();
    K.ParseKdfNone(r.slot.kdfId, r.slot.kdfParams);
    if r.m.Password? { K.ParseOfParams(r.m.kdf.value); }
    if r.m.TwoFactor? { K.ParseOfParams(r.m.kdf.value); }
  }

  lemma KekOfTrail(c: Crypto, roles: Roles, s: Slot)
    ensures var call := KekCall(roles, s);
      SlotKek(c, roles, s) == c.hkdf(call.0, call.1, call.2)
  {
    hide Encode;
    LabelsInAscii();
  }

  // The last call of the trail is the one for the KEK.
  lemma KekOnTrail(c: Crypto, k: Option<K.Kdf>, m: P.Credential, s: Slot)
    requires Trail(c, k, m, s).0.Some?
    ensures KekCall(Trail(c, k, m, s).0.value, s) in Trail(c, k, m, s).1.derived
  {
    hide KekCall;
  }

  // Equal factors come from equal secrets.
  lemma SameTrail(c: Crypto, coins: nat -> byte, r: Record, e: Sealed, m: P.Credential)
    requires Made(c, coins, r, e) && WellFormed(r.slot)
    requires var k := KdfOf(r.m); Distinct(c, Trail(c, k, m, r.slot).1, Trail(c, k, r.m, r.slot).1)
    ensures var k := KdfOf(r.m);
      Trail(c, k, m, r.slot).0 == Trail(c, k, r.m, r.slot).0 <==> SameSecret(m, r.m)
  {
    hide MetaBytes, MetaError, K.ParamBytes, Made, P.Prepare, KekCall, Encode;
    MadeFacts(c, coins, r, e);
    SlotFields(c, coins, r, e);
    WellFormedInBounds(c, coins, r, e);
  }

  // Barring collisions a slot opens exactly for the secrets it was enrolled with: the
  // same password, the same device secret, both, or the same code.
  lemma OpensForItsSecret(c: Crypto, coins: nat -> byte, log: seq<Sealed>, book: seq<Record>, s: Slot,
                          m: P.Credential)
    requires Audited(c, coins, log, book) && WellFormed(s) && NoCollision(c, book, s, m)
    ensures P.Unlock(c, log, m, s).Success? <==>
      exists i :: 0 <= i < |book| && book[i].slot == s && SameSecret(m, book[i].m)
  {
    hide Audited, WellFormed, P.KekOf, P.Roled, P.Prepare, P.Unlock, Encode, Trail, Distinct, SameSecret, KdfOf,
      KekCall;
    OpensExactly(c, coins, log, book, s, m);
    forall i | 0 <= i < |book| && book[i].slot == s
      ensures P.Roled(c, m, s).Success? && SameKek(c, coins, P.Roled(c, m, s).value, book[i])
        <==> SameSecret(m, book[i].m)
    {
      SealedUnder(c, coins, log, book, i);
      OpensForOne(c, coins, book[i], log[i], m);
    }
  }

  lemma SealedUnder(c: Crypto, coins: nat -> byte, log: seq<Sealed>, book: seq<Record>, i: nat)
    requires Audited(c, coins, log, book) && i < |book|
    ensures i < |log| && Made(c, coins, book[i], log[i])
  {
    hide Made;
  }

  lemma OpensForOne(c: Crypto, coins: nat -> byte, r: Record, e: Sealed, m: P.Credential)
    requires Made(c, coins, r, e) && WellFormed(r.slot)
    requires var k := KdfOf(r.m); Distinct(c, Trail(c, k, m, r.slot).1, Trail(c, k, r.m, r.slot).1)
    ensures P.Roled(c, m, r.slot).Success? && SameKek(c, coins, P.Roled(c, m, r.slot).value, r)
      <==> SameSecret(m, r.m)
  {
    hide WellFormed, Made, P.KekOf, P.Roled, P.Prepare, Encode, Trail, SameSecret, KdfOf, KekCall, SlotKek;
    var k := KdfOf(r.m);
    TrailOfRebuilt(c, coins, r, e, m);
    SameTrail(c, coins, r, e, m);
    var mine, theirs := Trail(c, k, m, r.slot).0, Trail(c, k, r.m, r.slot).0.value;
    KekOfTrail(c, theirs, r.slot);
    KekOnTrail(c, k, r.m, r.slot);
    if mine.Some? {
      KekOfTrail(c, mine.value, r.slot);
      KekOnTrail(c, k, m, r.slot);
      RebuiltAreShort(c, m, r.slot);
      EnrolledAreShort(c, r.m, coins, r.at);
      if SameKek(c, coins, mine.value, r) {
        SameCallSameRoles(mine.value, theirs, r.slot);
      }
    }
  }

  lemma SameCallSameRoles(a: Roles, b: Roles, s: Slot)
    requires ShortFactors(a) && ShortFactors(b) && KekCall(a, s) == KekCall(b, s)
    ensures a == b
  {
    hide Encode;
    EncodeInjective(a, b);
  }

  // With another password, device secret or code, a live method of the slot's type whose
  // device has the OTP slot fails to authenticate.
  lemma WrongSecretFails(c: Crypto, coins: nat -> byte, log: seq<Sealed>, book: seq<Record>, s: Slot,
                         m: P.Credential)
    requires Audited(c, coins, log, book) && WellFormed(s) && NoCollision(c, book, s, m)
    requires exists i :: 0 <= i < |book| && book[i].slot == s
    requires P.TypeOf(m) == s.typ && SecretLive(m) && Answers(m, s)
    requires forall i :: 0 <= i < |book| && book[i].slot == s ==> !SameSecret(m, book[i].m)
    ensures P.Unlock(c, log, m, s) == Failure(AuthFailed)
  {
    hide Audited, WellFormed, P.Unlock, NoCollision, SameSecret, SecretLive, Answers, CanTry;
    OpensForItsSecret(c, coins, log, book, s, m);
    var i :| 0 <= i < |book| && book[i].slot == s;
    SealedUnder(c, coins, log, book, i);
    WellFormedInBounds(c, coins, book[i], log[i]);
    EnrolledCanTry(c, coins, book[i], log[i], m);
    TryExactly(c, log, m, s);
  }

  // The password and the device secret of the enrolment, both of them.
  ghost predicate BothFactors(m: P.Credential, r: Record) {
    m.TwoFactor? && r.m.TwoFactor? && m.pw == r.m.pw
    && r.slot.ykSlot in m.token && r.slot.ykSlot in r.m.token && m.token[r.slot.ykSlot] == r.m.token[r.slot.ykSlot]
  }

  // A two-factor slot opens exactly with both factors of its enrolment: a password
  // alone, a device alone or a code does not open it, and neither does one right
  // factor beside a wrong one.
  lemma TwoFactorNeedsBoth(c: Crypto, coins: nat -> byte, log: seq<Sealed>, book: seq<Record>, s: Slot,
                           m: P.Credential)
    requires Audited(c, coins, log, book) && WellFormed(s) && s.typ == 3
    requires NoCollision(c, book, s, m)
    ensures P.Unlock(c, log, m, s).Success? <==>
      exists i :: 0 <= i < |book| && book[i].slot == s && BothFactors(m, book[i])
  {
    hide Audited, WellFormed, P.Unlock, NoCollision;
    OpensForItsSecret(c, coins, log, book, s, m);
    forall i | 0 <= i < |book| && book[i].slot == s
      ensures SameSecret(m, book[i].m) <==> BothFactors(m, book[i])
    {
      SealedUnder(c, coins, log, book, i);
      TwoFactorRecord(c, coins, book[i], log[i]);
    }
  }

  lemma TwoFactorRecord(c: Crypto, coins: nat -> byte, r: Record, e: Sealed)
    requires Made(c, coins, r, e) && r.slot.typ == 3
    ensures r.m.TwoFactor? && r.slot.ykSlot == r.m.otpSlot
  {
    hide Made, P.Prepare, MetaBytes, MetaError;
    MadeFacts(c, coins, r, e);
    SlotFields(c, coins, r, e);
  }

  ghost predicate Separates(c: Crypto, m: P.Credential, n: P.Credential, s: Slot) {
    c.Correct() && Distinct(c, Trail(c, None, m, s).1, Trail(c, None, n, s).1)
  }

  // Collisions can be absent: for any two codes on any slot.
  lemma NoCollisionIsPossible(a: bytes, b: bytes, s: Slot)
    ensures exists c :: Separates(c, P.Recovery(Some(a), []), P.Recovery(Some(b), []), s)
  {
    hide Encode;
    var call := KekCall(Roles(None, None, Some(a)), s);
    var c := PickyCrypto(call.0, call.1, call.2);
    PickyIsCorrect(call.0, call.1, call.2);
    assert ZERO_BLOCK[0] != ONE_BLOCK[0];
    assert Separates(c, P.Recovery(Some(a), []), P.Recovery(Some(b), []), s);
  }

  // ---- what the KEK depends on ----

  datatype KekArgs = KekArgs(roles: Roles, salt: HkdfSalt, version: byte, typ: byte, id: SlotId)

  function KekFor(c: Crypto, a: KekArgs): Block32 {
    P.KekOf(c, a.roles, a.salt, a.version, a.typ, a.id)
  }

  ghost predicate TellsApart(c: Crypto, a: KekArgs, b: KekArgs) {
    c.Correct() && KekFor(c, a) != KekFor(c, b)
  }

  // The KEK depends on every secret, on the HKDF salt, the version, the method type and
  // the slot ID: a difference in any of them can make a difference.
  lemma KekDependsOnAll(a: KekArgs, b: KekArgs)
    requires ShortFactors(a.roles) && ShortFactors(b.roles)
    ensures (exists c :: TellsApart(c, a, b)) <==> a != b
  {
    if a != b {
      hide Encode, P.KekInfo;
      var ikm, info := Encode(a.roles), P.KekInfo(a.version, a.typ, a.id);
      var c := PickyCrypto(ikm, a.salt, info);
      PickyIsCorrect(ikm, a.salt, info);
      P.InfoSeparates(a.version, a.typ, a.id, b.version, b.typ, b.id);
      if Encode(a.roles) == Encode(b.roles) { EncodeInjective(a.roles, b.roles); }
      assert KekFor(c, a)[0] == 0 && KekFor(c, b)[0] == 1;
      assert TellsApart(c, a, b);
    }
  }
}
