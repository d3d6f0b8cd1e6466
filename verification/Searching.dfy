/** When Unlock finds a key, when it reports ErrAuthFailed, and when another error
    stops it: for every slot list, every method list and every log. */
module Searching {
  import opened Bytes
  import opened Errors
  import opened Kinds
  import opened Slots
  import opened Primitives
  import opened Records
  import K = Kdf
  import P = Protocol
  import Wire

  type Try = (Slot, P.Credential)

  // The password is live and the slot's KDF parameters are accepted.
  ghost predicate PasswordUsable(c: Crypto, pw: Option<bytes>, s: Slot) {
    var k := K.ParseKdf(s.kdfId, s.kdfParams);
    pw.Some? && k.Success? && k.value.Some? && P.Runs(c, k.value.value)
  }

  // The device is asked for a configured OTP slot.
  ghost predicate DeviceUsable(token: P.Token, s: Slot) {
    P.OtpSlotValid(s.ykSlot) && s.ykSlot in token
  }

  // Method and slot are fit for an attempt, whether or not the secret is right.
  ghost predicate CanTry(c: Crypto, m: P.Credential, s: Slot) {
    Wire.MetaToWrite(s).Success?
    && match m
       case Password(_, pw, _) => PasswordUsable(c, pw, s)
       case YubiKey(token, _, _) => DeviceUsable(token, s)
       case TwoFactor(token, _, _, pw, _) => PasswordUsable(c, pw, s) && DeviceUsable(token, s)
       case Recovery(code, _) => code.Some?
  }

  // An attempt ends in a key or in ErrAuthFailed exactly when it could be made.
  lemma TryExactly(c: Crypto, log: seq<Sealed>, m: P.Credential, s: Slot)
    ensures CanTry(c, m, s) <==> P.Unlock(c, log, m, s).Success? || P.Unlock(c, log, m, s) == Failure(AuthFailed)
  {
    hide MetaBytes, MetaError, P.KekOf, K.ParseKdf, P.DeriveChallenge, Lookup;
    var k := K.ParseKdf(s.kdfId, s.kdfParams);
    KdfErrors(s.kdfId, s.kdfParams);
    MetaErrors(s);
  }

  lemma KdfErrors(id: byte, params: bytes)
    ensures K.ParseKdf(id, params) != Failure(AuthFailed)
  {
  }

  lemma MetaErrors(s: Slot)
    ensures Wire.MetaToWrite(s) != Failure(AuthFailed)
  {
  }

  // On an enrolled slot of the method's type an attempt can be made exactly when the
  // slot was enrolled with a KDF within the bounds, the secret is live and the device
  // has the OTP slot.
  lemma EnrolledCanTry(c: Crypto, coins: nat -> byte, r: Record, e: Sealed, m: P.Credential)
    requires Made(c, coins, r, e) && P.TypeOf(m) == r.slot.typ
    ensures CanTry(c, m, r.slot) <==> KdfInBounds(r.m) && SecretLive(m) && Answers(m, r.slot)
  {
    hide MetaBytes, MetaError, K.ParamBytes, K.ParseKdf, K.InBounds, P.Respond, P.DeriveChallenge, Made, RolesOf;
    MadeFacts(c, coins, r, e);
    SlotFields(c, coins, r, e);
    if r.m.Password? { K.ParseOfParams(r.m.kdf.value); }
    if r.m.TwoFactor? { K.ParseOfParams(r.m.kdf.value); }
  }

  // Why the password of a slot cannot be stretched.
  function PasswordRefusal(c: Crypto, pw: Option<bytes>, s: Slot): Option<Error> {
    var k := K.ParseKdf(s.kdfId, s.kdfParams);
    if k.Failure? then Some(k.error)
    else if k.value.None? then Some(Malformed)
    else if pw.None? then Some(Destroyed)
    else if k.value.value.Scrypt? && !c.accepts(k.value.value) then Some(KdfRejected)
    else None
  }

  function DeviceRefusal(token: P.Token, s: Slot): Option<Error> {
    if s.ykSlot !in token then Some(SlotNotConfigured) else None
  }

  // The first reason why an attempt cannot be made.
  function TryRefusal(c: Crypto, m: P.Credential, s: Slot): Option<Error> {
    var first :=
      match m
      case Password(_, pw, _) => PasswordRefusal(c, pw, s)
      case YubiKey(token, _, _) => if s.ykSlot != 1 && s.ykSlot != 2 then Some(Malformed) else DeviceRefusal(token, s)
      case TwoFactor(token, _, _, pw, _) =>
        if s.ykSlot != 1 && s.ykSlot != 2 then Some(Malformed)
        else if PasswordRefusal(c, pw, s).Some? then PasswordRefusal(c, pw, s)
        else DeviceRefusal(token, s)
      case Recovery(code, _) => if code.None? then Some(Destroyed) else None;
    if first.Some? then first
    else if s.meta.None? && MetaError(s).Some? then MetaError(s)
    else None
  }

  // An attempt that cannot be made fails with the first reason.
  lemma TryErrors(c: Crypto, log: seq<Sealed>, m: P.Credential, s: Slot)
    ensures CanTry(c, m, s) <==> TryRefusal(c, m, s).None?
    ensures match TryRefusal(c, m, s) case None => true case Some(e) => P.Unlock(c, log, m, s) == Failure(e)
  {
    hide MetaBytes, MetaError, P.KekOf, K.ParseKdf, P.DeriveChallenge, Lookup, K.InBounds;
    var k := K.ParseKdf(s.kdfId, s.kdfParams);
    if k.Success? && k.value.Some? {
      K.ParseKdfExact(s.kdfId, s.kdfParams, k.value.value);
      InBoundsRuns(k.value.value);
    }
  }

  lemma InBoundsRuns(k: K.Kdf)
    requires K.InBounds(k)
    ensures !P.Panics(k)
  {
  }

  ghost predicate Opens(c: Crypto, log: seq<Sealed>, t: Try) {
    P.Unlock(c, log, t.1, t.0).Success?
  }

  // Attempt i opens its slot, and every earlier one could be made.
  ghost predicate Reaches(c: Crypto, log: seq<Sealed>, tries: seq<Try>, i: nat) {
    i < |tries| && Opens(c, log, tries[i]) && forall j :: 0 <= j < i ==> CanTry(c, tries[j].1, tries[j].0)
  }

  // Attempt j cannot be made, and no earlier one opens its slot.
  ghost predicate Blocked(c: Crypto, log: seq<Sealed>, tries: seq<Try>, j: nat) {
    j < |tries| && !CanTry(c, tries[j].1, tries[j].0) && forall i :: 0 <= i < j ==> !Opens(c, log, tries[i])
  }

  ghost predicate Hopeless(c: Crypto, log: seq<Sealed>, tries: seq<Try>) {
    forall j :: 0 <= j < |tries| ==> CanTry(c, tries[j].1, tries[j].0) && !Opens(c, log, tries[j])
  }

  lemma {:induction false} VerdictExactly(c: Crypto, log: seq<Sealed>, tries: seq<Try>)
    ensures P.Verdict(c, log, tries).Success? <==> exists i: nat :: Reaches(c, log, tries, i)
    ensures P.Verdict(c, log, tries) == Failure(AuthFailed) <==> Hopeless(c, log, tries)
    ensures P.Verdict(c, log, tries).Success? || P.Verdict(c, log, tries) == Failure(AuthFailed) <==>
      forall j: nat :: !Blocked(c, log, tries, j)
  {
    hide P.Unlock, CanTry, P.Verdict;
    forall j | 0 <= j < |tries| ensures CanTry(c, tries[j].1, tries[j].0) <==>
      Opens(c, log, tries[j]) || P.Outcome(c, log, tries[j], Failure(AuthFailed))
    {
      TryExactly(c, log, tries[j].1, tries[j].0);
    }
    var r := P.Verdict(c, log, tries);
    P.VerdictIsFirst(c, log, tries, r);
    P.VerdictIsFirst(c, log, tries, Failure(AuthFailed));
    if r != Failure(AuthFailed) {
      var p: nat :| P.FirstAt(c, log, tries, r, p);
      assert P.Outcome(c, log, tries[p], r);
      if r.Success? {
        assert Reaches(c, log, tries, p);
      } else {
        assert Blocked(c, log, tries, p);
      }
    }
  }

  // Unlock with any methods on any slots: the key, ErrAuthFailed, or neither,
  // each with its exact condition.
  lemma SearchExactly(c: Crypto, log: seq<Sealed>, slots: seq<Slot>, ms: seq<P.Credential>)
    requires ms != []
    ensures var tries := P.Attempts(slots, ms);
      var r := P.Search(c, log, slots, ms);
      (r.Success? <==> exists i: nat :: Reaches(c, log, tries, i))
      && (r == Failure(AuthFailed) <==> Hopeless(c, log, tries))
      && (r.Success? || r == Failure(AuthFailed) <==> forall j: nat :: !Blocked(c, log, tries, j))
  {
    hide P.Verdict, P.Attempts, Reaches, Hopeless, Blocked;
    VerdictExactly(c, log, P.Attempts(slots, ms));
    assert P.Search(c, log, slots, ms) == P.Verdict(c, log, P.Attempts(slots, ms));
  }

  // Without methods there is nothing to try.
  lemma SearchWithoutMethods(c: Crypto, log: seq<Sealed>, slots: seq<Slot>)
    ensures P.Search(c, log, slots, []) == Failure(NoMethods)
  {
  }

  // Seen from the guards alone: a search that finds no key reports ErrAuthFailed
  // exactly when every attempt could be made.
  lemma FailureExactly(c: Crypto, log: seq<Sealed>, slots: seq<Slot>, ms: seq<P.Credential>)
    requires ms != [] && P.Search(c, log, slots, ms).Failure?
    ensures P.Search(c, log, slots, ms) == Failure(AuthFailed) <==>
      forall t :: t in P.Attempts(slots, ms) ==> CanTry(c, t.1, t.0)
  {
    hide P.Search, P.Attempts, CanTry, Opens;
    SearchExactly(c, log, slots, ms);
    var tries := P.Attempts(slots, ms);
    if forall t :: t in tries ==> CanTry(c, t.1, t.0) {
      assert forall j: nat :: !Blocked(c, log, tries, j);
    }
  }

  // ---- one data key ----

  ghost predicate OneSealed(log: seq<Sealed>, dek: bytes) {
    forall i :: 0 <= i < |log| ==> log[i].pt == dek
  }

  lemma OpensToTheKey(c: Crypto, log: seq<Sealed>, dek: bytes, m: P.Credential, s: Slot)
    requires OneSealed(log, dek) && P.Unlock(c, log, m, s).Success?
    ensures P.Unlock(c, log, m, s) == Success(dek)
  {
    hide MetaBytes, MetaError, P.KekOf, P.Roled, Lookup;
    var roles := P.Roled(c, m, s).value;
    var kek := P.KekOf(c, roles, s.hkdfSalt, FORMAT_VERSION, s.typ, s.id);
    LookupSound(log, kek, s.nonce, s.wrapped, Wire.MetaToWrite(s).value);
  }

  lemma SearchFindsTheKey(c: Crypto, log: seq<Sealed>, dek: bytes, slots: seq<Slot>, ms: seq<P.Credential>)
    requires OneSealed(log, dek) && P.Search(c, log, slots, ms).Success?
    ensures P.Search(c, log, slots, ms) == Success(dek)
  {
    hide P.Unlock, P.Verdict;
    var tries := P.Attempts(slots, ms);
    var r := P.Search(c, log, slots, ms);
    P.VerdictIsFirst(c, log, tries, r);
    var p: nat :| P.FirstAt(c, log, tries, r, p);
    assert P.Outcome(c, log, tries[p], r);
    OpensToTheKey(c, log, dek, tries[p].1, tries[p].0);
  }

  // What opens goes on opening, to the same key, whatever is sealed later.
  lemma OpensLater(c: Crypto, log: seq<Sealed>, more: seq<Sealed>, m: P.Credential, s: Slot)
    requires P.Unlock(c, log, m, s).Success?
    ensures P.Unlock(c, log + more, m, s) == P.Unlock(c, log, m, s)
  {
    hide MetaBytes, MetaError, P.KekOf, P.Roled, Lookup;
    var roles := P.Roled(c, m, s).value;
    var kek := P.KekOf(c, roles, s.hkdfSalt, FORMAT_VERSION, s.typ, s.id);
    LookupAppend(log, more, kek, s.nonce, s.wrapped, Wire.MetaToWrite(s).value);
  }
}
