/** Fixed byte strings: the frozen version-1 envelope that the repository keeps as
    testdata/golden_v1.tmbl, and small encodings. */
module Golden {
  import opened Bytes
  import opened Errors
  import opened Kinds
  import opened Slots
  import opened Primitives
  import opened Envelopes
  import opened Records
  import Effects
  import Ikm
  import K = Kdf
  import P = Protocol
  import Policies
  import Printing
  import Vault
  import Wire
  import Base32
  import Recovery
  import YkmanOutput

  // The random stream of the fixture: 0, 1, 2 and so on.
  function Counting(i: nat): byte {
    (i % 256) as byte
  }

  const PRIMARY: bytes := [112, 114, 105, 109, 97, 114, 121]
  const RECOVERY_CODE: bytes := [114, 101, 99, 111, 118, 101, 114, 121, 45, 99, 111, 100, 101]

  // n bytes that count up from `first`.
  function UpFrom(first: byte, n: nat): (b: bytes)
    requires first as nat + n <= 256
    ensures |b| == n
  {
    seq(n, i requires 0 <= i < n => (first as nat + i) as byte)
  }

  // The metadata of the two slots in the fixture, without the wrapped keys.
  const META_1: bytes :=
    [1] + UpFrom(16, 8) + [0, 1, 2, 0]
    + ([0, 9] + [10, 0, 0, 0, 8, 0, 0, 0, 1]) + ([0, 16] + UpFrom(0, 16)) + [0, 0]
    + UpFrom(24, 16) + [0, 0] + ([0, 7] + PRIMARY) + UpFrom(40, 12)

  const META_2: bytes :=
    [4] + UpFrom(84, 8) + [0, 1, 0, 0] + [0, 0] + [0, 0] + [0, 0]
    + UpFrom(92, 16) + [0, 0] + ([0, 13] + RECOVERY_CODE) + UpFrom(108, 12)

  function PasswordMethod(pw: bytes): P.Credential {
    P.Password(Some(K.Scrypt(10, 8, 1)), Some(pw), PRIMARY)
  }

  // The code is drawn between the two enrolments.
  function CodeMethod(): P.Credential {
    P.Recovery(Some(Effects.Draw(Counting, 52, 32)), RECOVERY_CODE)
  }

  lemma CountedUp(b: bytes, first: byte, n: nat)
    requires |b| == n && first as nat + n <= 256
    requires forall i :: 0 <= i < n ==> b[i] == Counting(first as nat + i)
    ensures b == UpFrom(first, n)
  {
  }

  lemma EmptyField()
    ensures Prefixed([]) == [0, 0]
  {
  }

  lemma FirstFields(c: Crypto, pw: bytes, dek: bytes)
    requires P.Enroll(c, PasswordMethod(pw), Some(dek), Counting, 0).Success?
    ensures var s := P.Enroll(c, PasswordMethod(pw), Some(dek), Counting, 0).value;
      s.typ == 1 && s.flags == 0 && s.aeadId == 1 && s.kdfId == 2 && s.ykSlot == 0
      && s.id == UpFrom(16, 8) && s.kdfParams == [10, 0, 0, 0, 8, 0, 0, 0, 1] && s.kdfSalt == UpFrom(0, 16)
      && s.chalSalt == [] && s.hkdfSalt == UpFrom(24, 16) && s.challenge == [] && s.slotLabel == PRIMARY
      && s.nonce == UpFrom(40, 12)
  {
    P.EnrolledFields(c, PasswordMethod(pw), Some(dek), Counting, 0);
    SmallKdfs();
    hide P.Enroll, Counting, UpFrom, K.ParamBytes;
    var s := P.Enroll(c, PasswordMethod(pw), Some(dek), Counting, 0).value;
    CountedUp(s.id, 16, 8);
    CountedUp(s.kdfSalt, 0, 16);
    CountedUp(s.hkdfSalt, 24, 16);
    CountedUp(s.nonce, 40, 12);
  }

  lemma FirstMeta(c: Crypto, pw: bytes, dek: bytes)
    requires P.Enroll(c, PasswordMethod(pw), Some(dek), Counting, 0).Success?
    ensures MetaBytes(P.Enroll(c, PasswordMethod(pw), Some(dek), Counting, 0).value) == META_1
  {
    hide P.Enroll, Counting, UpFrom, Prefixed, PasswordMethod;
    FirstFields(c, pw, dek);
    var s := P.Enroll(c, PasswordMethod(pw), Some(dek), Counting, 0).value;
    EmptyField();
    ShortField(s.kdfParams);
    ShortField(s.kdfSalt);
    ShortField(s.slotLabel);
  }

  lemma ShortField(b: bytes)
    requires |b| < 256
    ensures Prefixed(b) == [0, |b| as byte] + b
  {
  }

  lemma SecondMeta(c: Crypto, dek: bytes)
    requires P.Enroll(c, CodeMethod(), Some(dek), Counting, 84).Success?
    ensures MetaBytes(P.Enroll(c, CodeMethod(), Some(dek), Counting, 84).value) == META_2
  {
    P.EnrolledFields(c, CodeMethod(), Some(dek), Counting, 84);
    hide P.Enroll, Counting, UpFrom, Prefixed;
    var s := P.Enroll(c, CodeMethod(), Some(dek), Counting, 84).value;
    CountedUp(s.id, 84, 8);
    CountedUp(s.hkdfSalt, 92, 16);
    CountedUp(s.nonce, 108, 12);
    EmptyField();
    ShortField(s.slotLabel);
  }

  // A fresh slot, ready to print.
  lemma Fresh(c: Crypto, m: P.Credential, dek: bytes, at: nat)
    requires c.Correct() && |dek| == 32 && P.EnrollRefusal(c, m, Some(dek)).None?
    ensures var r := P.Enroll(c, m, Some(dek), Counting, at);
      r.Success? && |r.value.wrapped| == 48 && Wire.Kept(r.value) && Wire.Printable(r.value)
  {
    hide P.Enroll, P.EnrollLog, Made, P.EnrollRefusal, MetaBytes, MetaError;
    P.EnrollExactly(c, m, Some(dek), Counting, at);
    var s := P.Enroll(c, m, Some(dek), Counting, at).value;
    Vault.EnrollLogOfOne(c, m, dek, Counting, at);
    MadeFacts(c, Counting, Record(m, dek, at, s), P.EnrollLog(c, m, Some(dek), Counting, at)[0]);
  }

  lemma BothEnrol(c: Crypto, pw: bytes, dek: bytes)
    requires c.accepts(K.Scrypt(10, 8, 1)) && |dek| == 32
    ensures P.EnrollRefusal(c, PasswordMethod(pw), Some(dek)).None?
    ensures P.EnrollRefusal(c, CodeMethod(), Some(dek)).None?
  {
  }

  // NewEnvelope with one password and then AddSlot with a recovery code.
  lemma GoldenSlots(c: Crypto, pw: bytes, dek: bytes)
    requires c.Correct() && c.accepts(K.Scrypt(10, 8, 1)) && |dek| == 32
    ensures var r := NewWant(c, Some(dek), 1, [PasswordMethod(pw)], Counting, 0);
      var s, t := P.Enroll(c, PasswordMethod(pw), Some(dek), Counting, 0),
        P.Enroll(c, CodeMethod(), Some(dek), Counting, 84);
      s.Success? && t.Success? && r == Success(Wire.Image(1, 1, [s.value]))
      && AddWant(c, r.value, CodeMethod(), Some(dek), Counting, 84) == Success(Wire.Image(1, 1, [s.value, t.value]))
  {
    hide P.Enroll, P.EnrollRefusal, NewWant, AddWant, PasswordMethod, CodeMethod, Policies.PolicyOf, EnrollAll;
    var m, n := PasswordMethod(pw), CodeMethod();
    BothEnrol(c, pw, dek);
    KindsOfBoth(pw);
    P.EnrollExactly(c, m, Some(dek), Counting, 0);
    P.EnrollExactly(c, n, Some(dek), Counting, 84);
    var s := P.Enroll(c, m, Some(dek), Counting, 0).value;
    assert ![m][0].Recovery? && Suits([m][0], 1);
    NewExactly(c, Some(dek), 1, [m], Counting, 0);
    OneEnrolled(c, m, dek);
    AddExactly(c, Wire.Image(1, 1, [s]), n, Some(dek), Counting, 84);
    assert [s] + [P.Enroll(c, n, Some(dek), Counting, 84).value] == [s, P.Enroll(c, n, Some(dek), Counting, 84).value];
  }

  lemma KindsOfBoth(pw: bytes)
    ensures PasswordMethod(pw).Password? && CodeMethod().Recovery?
  {
  }

  lemma OneEnrolled(c: Crypto, m: P.Credential, dek: bytes)
    requires NewWant(c, Some(dek), 1, [m], Counting, 0).Success?
    ensures P.Enroll(c, m, Some(dek), Counting, 0).Success?
    ensures NewWant(c, Some(dek), 1, [m], Counting, 0)
      == Success(Wire.Image(1, 1, [P.Enroll(c, m, Some(dek), Counting, 0).value]))
  {
    hide P.Enroll, Policies.PolicyOf, EnrollAll;
    EnrollAllInOrder(c, [m], Some(dek), Counting, 0, 0);
    assert [m][..0] == [];
    var slots := EnrollAll(c, [m], Some(dek), Counting, 0).value;
    assert slots == [slots[0]];
  }

  // What they print: the fixture, around two wrapped keys of 48 bytes.
  lemma GoldenEnvelope(c: Crypto, pw: bytes, dek: bytes)
    requires c.Correct() && c.accepts(K.Scrypt(10, 8, 1)) && |dek| == 32
    ensures var r := NewWant(c, Some(dek), 1, [PasswordMethod(pw)], Counting, 0);
      r.Success?
      && var r' := AddWant(c, r.value, CodeMethod(), Some(dek), Counting, 84);
      r'.Success? && |r'.value.slots| == 2
      && var w1, w2 := r'.value.slots[0].wrapped, r'.value.slots[1].wrapped;
      |w1| == 48 && |w2| == 48
      && Wire.Marshal(r'.value) == Success(
        [84, 77, 66, 76, 1, 1, 0, 2] + (([0, 0, 0, 131] + (META_1 + w1)) + ([0, 0, 0, 112] + (META_2 + w2))))
  {
    hide P.Enroll, P.EnrollRefusal, NewWant, AddWant, PasswordMethod, CodeMethod, Wire.Marshal, MetaBytes, Wire.Kept,
      Wire.Printable;
    GoldenSlots(c, pw, dek);
    BothEnrol(c, pw, dek);
    Fresh(c, PasswordMethod(pw), dek, 0);
    Fresh(c, CodeMethod(), dek, 84);
    FirstMeta(c, pw, dek);
    SecondMeta(c, dek);
    var s := P.Enroll(c, PasswordMethod(pw), Some(dek), Counting, 0).value;
    var t := P.Enroll(c, CodeMethod(), Some(dek), Counting, 84).value;
    Printing.MarshalExactly(Wire.Image(1, 1, [s, t]));
    assert [s, t][1..] == [t] && [t][1..] == [];
    Printing.OneChunk(t);
    assert Wire.Chunks([s, t]) == Wire.Chunk(META_1, s.wrapped) + Wire.Chunk(META_2, t.wrapped);
    assert |META_1| == 83 && |META_2| == 64;
    assert Wire.Header(1, 1, 2) == [84, 77, 66, 76, 1, 1, 0, 2];
    assert BE32(131) == [0, 0, 0, 131] && BE32(112) == [0, 0, 0, 112];
  }

  // ---- small encodings ----

  // "tumbler/v1 ikm", then per role its presence, its length and its bytes.
  lemma SmallIkm()
    ensures Ikm.Encode(Ikm.Roles(Some([7, 8]), None, Some([9]))) ==
      [116, 117, 109, 98, 108, 101, 114, 47, 118, 49, 32, 105, 107, 109, 1, 0, 2, 7, 8, 0, 0, 0, 1, 0, 1, 9]
    ensures Ikm.Encode(Ikm.Roles(None, Some([5]), None)) ==
      [116, 117, 109, 98, 108, 101, 114, 47, 118, 49, 32, 105, 107, 109, 0, 0, 0, 1, 0, 1, 5, 0, 0, 0]
  {
    assert Ikm.LABEL_IKM == [116, 117, 109, 98, 108, 101, 114, 47, 118, 49, 32, 105, 107, 109];
  }

  lemma SmallKdfs()
    ensures K.Id(K.Scrypt(10, 8, 1)) == 2 && K.ParamBytes(K.Scrypt(10, 8, 1)) == [10, 0, 0, 0, 8, 0, 0, 0, 1]
    ensures K.Id(K.Argon2id(4, 262144, 3)) == 1 && K.ParamBytes(K.Argon2id(4, 262144, 3)) == [0, 0, 0, 4, 0, 4, 0, 0, 3]
  {
  }

  // A test vector of section 10 of RFC 4648, unpadded: "fo".
  lemma SmallBase32()
    ensures Base32.Encode([102, 111]) == "MZXQ"
  {
    hide Base32.BitsOfBytes, Base32.Groups, Base32.Spell;
    BitsOfFo();
    GroupsOfFo();
    Spelled();
  }

  lemma BitsOfFo()
    ensures Base32.BitsOfBytes([102, 111]) ==
      [false, true, true, false, false, true, true, false] + [false, true, true, false, true, true, true, true]
  {
    var o: bytes, fo: bytes := [111], [102, 111];
    EightBits();
    hide Base32.Bits;
    assert o[1..] == [] && fo[1..] == o;
    assert Base32.BitsOfBytes(o) == [false, true, true, false, true, true, true, true] + [];
  }

  lemma GroupsOfFo()
    ensures Base32.Groups([false, true, true, false, false, true, true, false]
                          + [false, true, true, false, true, true, true, true]) == [12, 25, 23, 16]
  {
    hide Base32.Groups;
    var a, b, c := [false, true, true, false, false], [true, true, false, false, true], [true, false, true, true, true];
    FirstGroup(a, b + (c + [true]));
    FirstGroup(b, c + [true]);
    FirstGroup(c, [true]);
    LastOfOne();
    assert [false, true, true, false, false, true, true, false] + [false, true, true, false, true, true, true, true]
      == a + (b + (c + [true]));
  }

  lemma EightBits()
    ensures Base32.Bits(102, 8) == [false, true, true, false, false, true, true, false]
    ensures Base32.Bits(111, 8) == [false, true, true, false, true, true, true, true]
  {
    assert Base32.Bits(6, 4) == [false, true, true, false];
    assert Base32.Bits(25, 6) == Base32.Bits(6, 4) + [false] + [true];
    assert Base32.Bits(27, 6) == Base32.Bits(6, 4) + [true] + [true];
  }

  lemma FiveBits(b: Base32.bits)
    requires |b| == 5
    ensures Base32.Value(b) == (if b[0] then 16 else 0) + (if b[1] then 8 else 0) + (if b[2] then 4 else 0)
      + (if b[3] then 2 else 0) + if b[4] then 1 else 0
  {
    assert b[..4][..3] == b[..3] && b[..3][..2] == b[..2] && b[..2][..1] == b[..1] && b[..1][..0] == [];
    assert Base32.Value(b[..1]) == if b[0] then 1 else 0;
    assert Base32.Value(b[..3]) == 2 * Base32.Value(b[..2]) + if b[2] then 1 else 0;
  }

  lemma FirstGroup(a: Base32.bits, b: Base32.bits)
    requires |a| == 5
    ensures Base32.Groups(a + b) == [(if a[0] then 16 else 0) + (if a[1] then 8 else 0) + (if a[2] then 4 else 0)
      + (if a[3] then 2 else 0) + if a[4] then 1 else 0] + Base32.Groups(b)
  {
    FiveBits(a);
    assert (a + b)[..5] == a && (a + b)[5..] == b;
  }

  lemma LastOfOne()
    ensures Base32.Groups([true]) == [16]
  {
    FiveBits([true] + Base32.NoBits(4));
  }

  lemma Spelled()
    ensures Base32.Spell([12, 25, 23, 16]) == "MZXQ"
  {
    assert Base32.Spell([16]) == "Q" && [23, 16][1..] == [16] && [25, 23, 16][1..] == [23, 16];
    assert Base32.Spell([23, 16]) == "XQ" && Base32.Spell([25, 23, 16]) == "ZXQ";
    assert [12, 25, 23, 16][1..] == [25, 23, 16];
  }

  lemma SmallHex()
    ensures YkmanOutput.Hex([0x0f, 0xa9, 0x00]) == "0fa900"
  {
  }
}
