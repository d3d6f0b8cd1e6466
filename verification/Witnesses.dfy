/** Inputs that show what can happen: that runs exist, and where the code does less
    than its documentation says. */
module Witnesses {
  import opened Bytes
  import opened Errors
  import opened Kinds
  import opened Slots
  import opened Primitives
  import opened Policies
  import opened Envelopes
  import opened Records
  import opened Vault
  import opened Printing
  import K = Kdf
  import P = Protocol
  import Wire

  lemma ParamsSize(k: K.Kdf)
    ensures |K.ParamBytes(k)| == 9
  {
  }

  // What enrolling a password makes of any KDF that derives a key.
  lemma PasswordEnrols(c: Crypto, coins: nat -> byte, dek: bytes, k: K.Kdf, pw: bytes, at: nat)
    requires P.Runs(c, k)
    ensures P.Enroll(c, P.Password(Some(k), Some(pw), []), Some(dek), coins, at).Success?
  {
    hide MetaBytes, P.KekOf, K.ParamBytes;
    ParamsSize(k);
  }

  lemma OnePasswordIsAnEnvelope(c: Crypto, coins: nat -> byte, dek: bytes, k: K.Kdf, pw: bytes)
    requires DekFits(Some(dek)) && P.Runs(c, k)
    ensures var m := P.Password(Some(k), Some(pw), []);
      P.Enroll(c, m, Some(dek), coins, 0).Success?
      && NewWant(c, Some(dek), POLICY_PASSWORD_ONLY, [m], coins, 0)
         == Success(Wire.Image(FORMAT_VERSION, POLICY_PASSWORD_ONLY, [P.Enroll(c, m, Some(dek), coins, 0).value]))
  {
    hide P.Enroll, PolicyOf;
    var m := P.Password(Some(k), Some(pw), []);
    PasswordEnrols(c, coins, dek, k, pw, 0);
    var s := P.Enroll(c, m, Some(dek), coins, 0).value;
    EnrollType(c, m, Some(dek), coins, 0);
    assert [m][1..] == [];
    assert EnrollAll(c, [m], Some(dek), coins, 0) == Success([s] + []);
    assert [s] + [] == [s];
    assert Primary([s][0]) && Agree([s], POLICY_PASSWORD_ONLY);
    PolicyOfMeaning([s], POLICY_PASSWORD_ONLY);
  }

  // Reachable states exist for every data key that fits: one password suffices,
  // with any KDF that derives a key at all.
  lemma SomeStateIsReachable(c: Crypto, coins: nat -> byte, dek: bytes, k: K.Kdf, pw: bytes)
    requires DekFits(Some(dek)) && P.Runs(c, k)
    ensures var m := P.Password(Some(k), Some(pw), []);
      var s := P.Enroll(c, m, Some(dek), coins, 0);
      s.Success?
      && Reachable(c, coins, POLICY_PASSWORD_ONLY,
                   State(Wire.Image(FORMAT_VERSION, POLICY_PASSWORD_ONLY, [s.value]),
                         P.EnrollLog(c, m, Some(dek), coins, 0), [Record(m, dek, 0, s.value)]))
  {
    hide P.Enroll, P.EnrollLog, Audited, NewWant;
    var m := P.Password(Some(k), Some(pw), []);
    OnePasswordIsAnEnvelope(c, coins, dek, k, pw);
    var s := P.Enroll(c, m, Some(dek), coins, 0).value;
    var log := P.EnrollLog(c, m, Some(dek), coins, 0);
    var st := Start(c, coins, [], [], dek, POLICY_PASSWORD_ONLY, [m], 0);
    assert [m][1..] == [];
    assert log + [] == log && [] + log == log;
    assert EnrollAllLog(c, [m], Some(dek), coins, 0) == log + [];
    assert NewLog(c, Some(dek), POLICY_PASSWORD_ONLY, [m], coins, 0) == log + [];
    assert BookOf(c, [m], dek, coins, 0) == [Record(m, dek, 0, s)] + [];
    assert st == State(Wire.Image(FORMAT_VERSION, POLICY_PASSWORD_ONLY, [s]), log, [Record(m, dek, 0, s)]);
    StartIsReachable(c, coins, POLICY_PASSWORD_ONLY, dek, [m]);
  }

  lemma StartIsReachable(c: Crypto, coins: nat -> byte, policy: byte, dek: bytes, ms: seq<P.Credential>)
    requires NewWant(c, Some(dek), policy, ms, coins, 0).Success?
    ensures Reachable(c, coins, policy, Start(c, coins, [], [], dek, policy, ms, 0))
  {
    hide Audited, NewWant, Start;
    NothingAudited(c, coins);
    var st := Start(c, coins, [], [], dek, policy, ms, 0);
    assert Leads(c, coins, policy, [], [], dek, ms, 0, [], st);
  }

  // An enrolment whose KDF is out of bounds makes an envelope that is printed and
  // can never be read: NewEnvelope takes Argon2id with 4 KiB, the parser wants 8.
  lemma WeakKdfIsPrintedOnly(c: Crypto, coins: nat -> byte, dek: bytes, pw: bytes)
    requires c.Correct() && DekFits(Some(dek))
    ensures var m := P.Password(Some(K.Argon2id(1, 4, 1)), Some(pw), []);
      var e := NewWant(c, Some(dek), POLICY_PASSWORD_ONLY, [m], coins, 0);
      e.Success? && Wire.Marshal(e.value).Success? && Wire.Parse(Wire.Marshal(e.value).value).Failure?
  {
    hide P.Enroll, Made, NewWant, Wire.Marshal, Wire.Parse, MetaBytes, MetaError, ShapeError;
    var k := K.Argon2id(1, 4, 1);
    var m := P.Password(Some(k), Some(pw), []);
    OnePasswordIsAnEnvelope(c, coins, dek, k, pw);
    var s := P.Enroll(c, m, Some(dek), coins, 0).value;
    var e := Wire.Image(FORMAT_VERSION, POLICY_PASSWORD_ONLY, [s]);
    EnrollLogOfOne(c, m, dek, coins, 0);
    var r := Record(m, dek, 0, s);
    MadeFacts(c, coins, r, P.EnrollLog(c, m, Some(dek), coins, 0)[0]);
    MadeWellFormed(c, coins, r, P.EnrollLog(c, m, Some(dek), coins, 0)[0]);
    assert s in e.slots && !Readable(s);
    MarshalExactly(e);
    PrintedReadsBackIff(e, Wire.Marshal(e).value);
  }

  // What enrolling a YubiKey makes.
  lemma YubiKeyEnrols(c: Crypto, coins: nat -> byte, dek: bytes, otp: byte, secret: bytes, at: nat)
    requires P.OtpSlotValid(otp)
    ensures var r := P.Enroll(c, P.YubiKey(map[otp := secret], otp, []), Some(dek), coins, at);
      r.Success? && r.value.ykSlot == otp && r.value.typ == METHOD_YUBIKEY
  {
    hide MetaBytes, P.KekOf;
  }

  lemma CodeEnrols(c: Crypto, coins: nat -> byte, dek: bytes, code: bytes, at: nat)
    requires |code| == P.RECOVERY_CODE_LEN
    ensures var r := P.Enroll(c, P.Recovery(Some(code), []), Some(dek), coins, at);
      r.Success? && r.value.typ == METHOD_RECOVERY
  {
    hide MetaBytes, P.KekOf;
  }

  // The first slot asks for an OTP slot the first method's device does not have: that
  // failure is returned at once, whatever the other slots and methods are.
  lemma FirstTryBlocks(c: Crypto, log: seq<Sealed>, slots: seq<Slot>, ms: seq<P.Credential>)
    requires slots != [] && ms != [] && ms[0].YubiKey? && slots[0].typ == METHOD_YUBIKEY
    requires P.OtpSlotValid(slots[0].ykSlot) && slots[0].ykSlot !in ms[0].token
    ensures P.Search(c, log, slots, ms) == Failure(SlotNotConfigured)
  {
    hide P.Unwrap;
    var s, m := slots[0], ms[0];
    var later := P.Row(s, ms[1..]) + P.Attempts(slots[1..], ms);
    Assoc([(s, m)], P.Row(s, ms[1..]), P.Attempts(slots[1..], ms));
    assert P.Attempts(slots, ms) == [(s, m)] + later;
    assert P.Unlock(c, log, m, s) == Failure(SlotNotConfigured);
    VerdictStep(c, log, (s, m), later);
  }

  // Not every surviving slot can be reached: with a first YubiKey in OTP slot 1
  // and a backup key in OTP slot 2, the backup key alone does not unlock, because
  // the device has nothing in slot 1 and that failure is returned at once.
  lemma BackupKeyCanBeShadowed(c: Crypto, coins: nat -> byte, dek: bytes, a: bytes, b: bytes)
    requires DekFits(Some(dek))
    ensures var first, backup := P.YubiKey(map[1 := a], 1, []), P.YubiKey(map[2 := b], 2, []);
      var e := NewWant(c, Some(dek), POLICY_YUBIKEY_ONLY, [first, backup], coins, 0);
      e.Success? && |e.value.slots| == 2
      && P.Enroll(c, backup, Some(dek), coins, 68) == Success(e.value.slots[1])
      && forall log :: P.Search(c, log, e.value.slots, [backup]) == Failure(SlotNotConfigured)
  {
    hide P.Enroll, PolicyOf;
    var first, backup := P.YubiKey(map[1 := a], 1, []), P.YubiKey(map[2 := b], 2, []);
    YubiKeyEnrols(c, coins, dek, 1, a, 0);
    YubiKeyEnrols(c, coins, dek, 2, b, 68);
    var s := P.Enroll(c, first, Some(dek), coins, 0).value;
    var t := P.Enroll(c, backup, Some(dek), coins, 68).value;
    TwoEnrolled(c, first, backup, dek, coins, POLICY_YUBIKEY_ONLY);
    forall log ensures P.Search(c, log, [s, t], [backup]) == Failure(SlotNotConfigured) {
      FirstTryBlocks(c, log, [s, t], [backup]);
    }
  }

  lemma TwoEnrolled(c: Crypto, m: P.Credential, n: P.Credential, dek: bytes, coins: nat -> byte, policy: byte)
    requires DekFits(Some(dek)) && PolicyValid(policy) && PolicyForMethod(P.TypeOf(m)) == policy
    requires P.TypeOf(n) == METHOD_RECOVERY || PolicyForMethod(P.TypeOf(n)) == policy
    requires P.Enroll(c, m, Some(dek), coins, 0).Success?
    requires P.Enroll(c, n, Some(dek), coins, P.CoinsUsed(m)).Success?
    ensures NewWant(c, Some(dek), policy, [m, n], coins, 0)
      == Success(Wire.Image(FORMAT_VERSION, policy, [P.Enroll(c, m, Some(dek), coins, 0).value,
                                                     P.Enroll(c, n, Some(dek), coins, P.CoinsUsed(m)).value]))
  {
    hide P.Enroll, P.CoinsUsed, PolicyOf;
    var s := P.Enroll(c, m, Some(dek), coins, 0).value;
    var t := P.Enroll(c, n, Some(dek), coins, P.CoinsUsed(m)).value;
    EnrollType(c, m, Some(dek), coins, 0);
    EnrollType(c, n, Some(dek), coins, P.CoinsUsed(m));
    assert [m, n][1..] == [n] && [n][1..] == [];
    assert EnrollAll(c, [n], Some(dek), coins, P.CoinsUsed(m)) == Success([t] + []);
    assert [s] + ([t] + []) == [s, t];
    assert Primary([s, t][0]) && Agree([s, t], policy);
    PolicyOfMeaning([s, t], policy);
  }

  // Offering more can lose what less would find: next to a YubiKey in OTP slot 1 the
  // recovery code alone returns the key, but a backup key with nothing in that OTP
  // slot, offered before the code, keeps the code from being tried at all.
  lemma RecoveryCodeCanBeShadowed(c: Crypto, coins: nat -> byte, dek: bytes, a: bytes, b: bytes, code: bytes)
    requires c.Correct() && DekFits(Some(dek)) && |code| == P.RECOVERY_CODE_LEN
    ensures var key, recovery := P.YubiKey(map[1 := a], 1, []), P.Recovery(Some(code), []);
      var other := P.YubiKey(map[2 := b], 2, []);
      var e := NewWant(c, Some(dek), POLICY_YUBIKEY_ONLY, [key, recovery], coins, 0);
      e.Success?
      && P.Search(c, NewLog(c, Some(dek), POLICY_YUBIKEY_ONLY, [key, recovery], coins, 0), e.value.slots, [recovery])
         == Success(dek)
      && forall log :: P.Search(c, log, e.value.slots, [other, recovery]) == Failure(SlotNotConfigured)
  {
    hide P.Enroll, P.EnrollLog, PolicyOf, P.Unlock, P.Verdict, Made;
    var key, recovery := P.YubiKey(map[1 := a], 1, []), P.Recovery(Some(code), []);
    var other := P.YubiKey(map[2 := b], 2, []);
    YubiKeyEnrols(c, coins, dek, 1, a, 0);
    CodeEnrols(c, coins, dek, code, 68);
    TwoEnrolled(c, key, recovery, dek, coins, POLICY_YUBIKEY_ONLY);
    var s := P.Enroll(c, key, Some(dek), coins, 0).value;
    var t := P.Enroll(c, recovery, Some(dek), coins, 68).value;
    forall log ensures P.Search(c, log, [s, t], [other, recovery]) == Failure(SlotNotConfigured) {
      FirstTryBlocks(c, log, [s, t], [other, recovery]);
    }
    var log := NewLog(c, Some(dek), POLICY_YUBIKEY_ONLY, [key, recovery], coins, 0);
    var book := BookOf(c, [key, recovery], dek, coins, 0);
    EnrollAllAudited(c, [key, recovery], dek, coins, 0);
    assert [key, recovery][1..] == [recovery] && [recovery][1..] == [];
    assert BookOf(c, [recovery], dek, coins, 68) == [Record(recovery, dek, 68, t)];
    assert book[1] == Record(recovery, dek, 68, t);
    SecretOpens(c, coins, log, book, 1, recovery);
    LastOnly(s, t, recovery);
    OnlyTry(c, log, (t, recovery));
  }

  lemma OnlyTry(c: Crypto, log: seq<Sealed>, t: (Slot, P.Credential))
    requires P.Unlock(c, log, t.1, t.0).Success?
    ensures P.Verdict(c, log, [t]) == P.Unlock(c, log, t.1, t.0)
  {
    hide P.Unlock;
  }

  lemma LastOnly(s: Slot, t: Slot, m: P.Credential)
    requires s.typ != P.TypeOf(m) && t.typ == P.TypeOf(m)
    ensures P.Attempts([s, t], [m]) == [(t, m)]
  {
    assert [m][1..] == [] && [s, t][1..] == [t] && [t][1..] == [];
    assert P.Row(s, [m]) == [] && P.Row(t, [m]) == [(t, m)];
    assert P.Attempts([t], [m]) == [(t, m)] + [];
  }
}
