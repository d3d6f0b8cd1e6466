/** The input keying material: role-tagged, length-prefixed secrets (combine.go). */
module Ikm {
  import opened Bytes
  import opened Errors

  // The bytes of a label; every label here is ASCII.
  function Ascii(s: string): (b: bytes)
    ensures |b| == |s|
  {
    seq(|s|, i requires 0 <= i < |s| => (s[i] as int % 0x100) as byte)
  }

  const LABEL_IKM: bytes := Ascii("tumbler/v1 ikm")

  // The secret of each role; None is an absent role.
  datatype Roles = Roles(password: Option<bytes>, yubiResp: Option<bytes>, recovery: Option<bytes>)

  const NO_ROLES: Roles := Roles(None, None, None)

  // presence(1) len(2) secret; the length is cut to 16 bits.
  function EncodeRole(o: Option<bytes>): bytes {
    match o
    case None => [0] + BE16(0)
    case Some(s) => [1] + BE16(|s|) + s
  }

  function Encode(r: Roles): bytes {
    LABEL_IKM + (EncodeRole(r.password) + (EncodeRole(r.yubiResp) + EncodeRole(r.recovery)))
  }

  predicate Bounded(r: Roles, n: nat) {
    (r.password.Some? ==> |r.password.value| <= n)
    && (r.yubiResp.Some? ==> |r.yubiResp.value| <= n)
    && (r.recovery.Some? ==> |r.recovery.value| <= n)
  }

  ghost predicate InjectiveUpTo(n: nat) {
    forall a, b :: Bounded(a, n) && Bounded(b, n) && Encode(a) == Encode(b) ==> a == b
  }

  // One encoded role can be cut off the front of a byte string in one way only.
  lemma RolePrefix(o: Option<bytes>, x: bytes, p: Option<bytes>, y: bytes)
    requires o.Some? ==> |o.value| < 0x1_0000
    requires p.Some? ==> |p.value| < 0x1_0000
    requires EncodeRole(o) + x == EncodeRole(p) + y
    ensures o == p && x == y
  {
    assert (EncodeRole(o) + x)[0] == EncodeRole(o)[0] && (EncodeRole(p) + y)[0] == EncodeRole(p)[0];
    if o.Some? {
      assert (EncodeRole(o) + x)[1..3] == BE16(|o.value|);
      assert (EncodeRole(p) + y)[1..3] == BE16(|p.value|);
      BE16RoundTrip(|o.value|);
      BE16RoundTrip(|p.value|);
      assert |o.value| == |p.value|;
      assert EncodeRole(o)[3..] == o.value && EncodeRole(p)[3..] == p.value;
    }
    SplitEqual(EncodeRole(o), x, EncodeRole(p), y);
  }

  // Password key and response fit the length field, as the 32 and 20 bytes of the
  // built-in ones do. The recovery code may be of any length: it comes last.
  predicate ShortFactors(r: Roles) {
    (r.password.Some? ==> |r.password.value| < 0x1_0000) && (r.yubiResp.Some? ==> |r.yubiResp.value| < 0x1_0000)
  }

  lemma EncodeInjective(a: Roles, b: Roles)
    requires ShortFactors(a) && ShortFactors(b)
    requires Encode(a) == Encode(b)
    ensures a == b
  {
    hide EncodeRole;
    SplitEqual(LABEL_IKM, EncodeRole(a.password) + (EncodeRole(a.yubiResp) + EncodeRole(a.recovery)),
      LABEL_IKM, EncodeRole(b.password) + (EncodeRole(b.yubiResp) + EncodeRole(b.recovery)));
    RolePrefix(a.password, EncodeRole(a.yubiResp) + EncodeRole(a.recovery),
      b.password, EncodeRole(b.yubiResp) + EncodeRole(b.recovery));
    RolePrefix(a.yubiResp, EncodeRole(a.recovery), b.yubiResp, EncodeRole(b.recovery));
    LastRole(a.recovery, b.recovery);
  }

  // At the end of the encoding the length field is not needed.
  lemma LastRole(o: Option<bytes>, p: Option<bytes>)
    requires EncodeRole(o) == EncodeRole(p)
    ensures o == p
  {
    assert EncodeRole(o)[0] == EncodeRole(p)[0];
    assert o.Some? ==> EncodeRole(o)[3..] == o.value;
    assert p.Some? ==> EncodeRole(p)[3..] == p.value;
  }

  // Two configurations with one encoding: a password of 65536 bytes alone, and
  // an empty password beside a device response of 65536 zero bytes.
  lemma LongSecretsCollide()
    ensures var a := Roles(Some([1, 0, 0] + Zeros(0xFFFD)), None, None);
      var b := Roles(Some([]), Some(Zeros(0x1_0000)), None);
      a != b && Bounded(a, 0x1_0000) && Bounded(b, 0x1_0000) && Encode(a) == Encode(b)
  {
    var pw, yr := [1, 0, 0] + Zeros(0xFFFD), Zeros(0x1_0000);
    var none: bytes := [0, 0, 0];
    assert EncodeRole(None) == none;
    assert EncodeRole(Some(pw)) == [1, 0, 0] + pw;
    assert EncodeRole(Some([])) == [1, 0, 0];
    assert EncodeRole(Some(yr)) == [1, 0, 0] + yr;
    assert [1, 0, 0] + pw + (none + none) == [1, 0, 0] + ([1, 0, 0] + yr + none);
  }

  // The encoding separates all configurations of secrets up to n bytes exactly
  // when n fits the 16-bit length field.
  lemma EncodeInjectiveIff(n: nat)
    ensures InjectiveUpTo(n) <==> n < 0x1_0000
  {
    if n < 0x1_0000 {
      forall a, b | Bounded(a, n) && Bounded(b, n) && Encode(a) == Encode(b)
        ensures a == b
      {
        EncodeInjective(a, b);
      }
    } else {
      LongSecretsCollide();
      var a := Roles(Some([1, 0, 0] + Zeros(0xFFFD)), None, None);
      var b := Roles(Some([]), Some(Zeros(0x1_0000)), None);
      assert Bounded(a, n) && Bounded(b, n);
    }
  }
}
