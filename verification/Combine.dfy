/** Building the keying material, deriving the KEK, sealing and opening (combine.go). */
module Combine {
  import opened Bytes
  import opened Errors
  import opened Slots
  import opened Primitives
  import opened Ikm
  import opened Effects
  import opened SecureBytes
  import Protocol

  // ikmInputs: null is an absent role.
  datatype IkmInputs = IkmInputs(password: SecureBytes?, yubiResp: SecureBytes?, recovery: SecureBytes?)

  ghost function RoleFootprint(r: SecureBytes?): set<object>
    reads r
  {
    if r == null then {} else if r.buf == null then {r} else {r, r.buf}
  }

  // The secret bytes of a role; a destroyed container has none left.
  ghost function RoleBytes(r: SecureBytes?): Option<bytes>
    reads r, RoleFootprint(r)
  {
    if r == null then None else if r.buf == null then Some([]) else Some(r.buf[..])
  }

  ghost predicate RoleDead(r: SecureBytes?)
    reads r
  {
    r != null && r.destroyed
  }

  ghost predicate RoleValid(r: SecureBytes?)
    reads r
  {
    r != null ==> r.Valid()
  }

  ghost predicate InputsValid(ins: IkmInputs)
    reads ins.password, ins.yubiResp, ins.recovery
  {
    RoleValid(ins.password) && RoleValid(ins.yubiResp) && RoleValid(ins.recovery)
  }

  // The roles by value, or ErrDestroyed if a present secret is gone.
  ghost function RolesOf(ins: IkmInputs): Result<Roles>
    reads ins.password, ins.yubiResp, ins.recovery
    reads RoleFootprint(ins.password), RoleFootprint(ins.yubiResp), RoleFootprint(ins.recovery)
  {
    if RoleDead(ins.password) || RoleDead(ins.yubiResp) || RoleDead(ins.recovery) then Failure(Destroyed)
    else Success(Roles(RoleBytes(ins.password), RoleBytes(ins.yubiResp), RoleBytes(ins.recovery)))
  }

  // The encoding of the first roles, and its length.
  function EncodeAll(roles: seq<Option<bytes>>): bytes {
    if roles == [] then LABEL_IKM
    else EncodeAll(roles[..|roles| - 1]) + EncodeRole(roles[|roles| - 1])
  }

  lemma EncodeAllOfThree(a: Option<bytes>, b: Option<bytes>, c: Option<bytes>)
    ensures EncodeAll([a, b, c]) == Encode(Roles(a, b, c))
  {
    hide EncodeRole;
    assert [a, b, c][..2] == [a, b] && [a, b][..1] == [a];
    assert EncodeAll([a]) == LABEL_IKM + EncodeRole(a);
    assert EncodeAll([a, b]) == EncodeAll([a]) + EncodeRole(b);
    Assoc(LABEL_IKM + EncodeRole(a), EncodeRole(b), EncodeRole(c));
    Assoc(LABEL_IKM, EncodeRole(a), EncodeRole(b) + EncodeRole(c));
  }

  // copy(dst[n:], src), and the cursor after it.
  method Put(dst: array<byte>, n: nat, src: bytes) returns (n': nat)
    requires n + |src| <= dst.Length
    modifies dst
    ensures n' == n + |src| && dst[..n'] == old(dst[..n]) + src
  {
    for i := 0 to |src|
      invariant dst[..n + i] == old(dst[..n]) + src[..i]
    {
      dst[n + i] := src[i];
      assert dst[..n + i + 1] == dst[..n + i] + [src[i]];
      assert src[..i + 1] == src[..i] + [src[i]];
    }
    n' := n + |src|;
  }

  ghost function InputFootprint(ins: IkmInputs): set<object>
    reads ins.password, ins.yubiResp, ins.recovery
  {
    RoleFootprint(ins.password) + RoleFootprint(ins.yubiResp) + RoleFootprint(ins.recovery)
  }

  // The secrets behind the three roles, in order.
  ghost predicate Holds(ins: IkmInputs, secrets: seq<Option<bytes>>)
    reads ins.password, ins.yubiResp, ins.recovery, InputFootprint(ins)
  {
    InputsValid(ins) && secrets == [RoleBytes(ins.password), RoleBytes(ins.yubiResp), RoleBytes(ins.recovery)]
  }

  method IkmSize(ins: IkmInputs, ghost secrets: seq<Option<bytes>>) returns (size: nat)
    requires Holds(ins, secrets)
    ensures size == |EncodeAll(secrets)|
  {
    var roles: seq<SecureBytes?> := [ins.password, ins.yubiResp, ins.recovery];
    size := |LABEL_IKM|;
    for i := 0 to 3
      invariant size == |EncodeAll(secrets[..i])|
    {
      size := size + 1 + 2;
      if roles[i] != null {
        var l := roles[i].Len();
        size := size + l;
      }
      assert secrets[..i + 1][..i] == secrets[..i];
    }
    assert secrets[..3] == secrets;
  }

  // The bytes of one role at the cursor, which moves past exactly its encoding.
  method PutRole(dst: array<byte>, n: nat, secret: Option<bytes>) returns (n': nat)
    requires n + |EncodeRole(secret)| <= dst.Length
    modifies dst
    ensures n' == n + |EncodeRole(secret)| && dst[..n'] == old(dst[..n]) + EncodeRole(secret)
  {
    hide BE16;
    ghost var filled := dst[..n];
    match secret {
      case None =>
        n' := Put(dst, n, [0]);
        n' := Put(dst, n', BE16(0));
        Assoc(filled, [0], BE16(0));
      case Some(s) =>
        n' := Put(dst, n, [1]);
        n' := Put(dst, n', BE16(|s|));
        n' := Put(dst, n', s);
        Assoc(filled, [1], BE16(|s|));
        Assoc(filled, [1] + BE16(|s|), s);
    }
  }

  // One turn of the fill loop.
  method FillRole(dst: array<byte>, n: nat, role: SecureBytes?) returns (r: Result<nat>)
    requires RoleValid(role) && dst !in RoleFootprint(role)
    requires n + |EncodeRole(RoleBytes(role))| <= dst.Length
    modifies dst
    ensures r.Failure? ==> r.error == Destroyed && RoleDead(role)
    ensures r.Success? ==> !RoleDead(role) && r.value == n + |EncodeRole(RoleBytes(role))|
    ensures r.Success? ==> dst[..r.value] == old(dst[..n]) + EncodeRole(RoleBytes(role))
  {
    hide EncodeRole;
    var n': nat;
    if role == null {
      n' := PutRole(dst, n, None);
    } else {
      var s :- role.Borrow();
      n' := PutRole(dst, n, Some(s[..]));
    }
    return Success(n');
  }

  // The fill loop; it stops at the first destroyed secret.
  method Fill(dst: array<byte>, ins: IkmInputs, ghost secrets: seq<Option<bytes>>) returns (r: Result<nat>)
    requires Holds(ins, secrets)
    requires dst.Length == |EncodeAll(secrets)| && dst !in InputFootprint(ins)
    modifies dst
    ensures r.Failure? ==> RolesOf(ins) == Failure(r.error)
    ensures r.Success? ==> RolesOf(ins).Success? && r.value == dst.Length && dst[..] == EncodeAll(secrets)
  {
    hide EncodeRole, EncodeAll, LABEL_IKM;
    var roles: seq<SecureBytes?> := [ins.password, ins.yubiResp, ins.recovery];
    EncodeAllEnds(secrets);
    var n: nat := Put(dst, 0, LABEL_IKM);
    for i := 0 to 3
      invariant Holds(ins, secrets)
      invariant n <= dst.Length && dst[..n] == EncodeAll(secrets[..i])
      invariant forall k :: 0 <= k < i ==> !RoleDead(roles[k])
    {
      EncodeAllStep(secrets, i);
      assert secrets[i] == RoleBytes(roles[i]) && RoleValid(roles[i]);
      n :- FillRole(dst, n, roles[i]);
    }
    assert !RoleDead(roles[0]) && !RoleDead(roles[1]) && !RoleDead(roles[2]);
    assert dst[..n] == dst[..];
    return Success(n);
  }

  lemma {:induction false} EncodeAllGrows(secrets: seq<Option<bytes>>, i: nat)
    requires i <= |secrets|
    ensures |EncodeAll(secrets[..i])| <= |EncodeAll(secrets)|
    decreases |secrets|
  {
    if i < |secrets| {
      assert secrets[..|secrets| - 1][..i] == secrets[..i];
      EncodeAllGrows(secrets[..|secrets| - 1], i);
    } else {
      assert secrets[..i] == secrets;
    }
  }

  lemma EncodeAllEnds(secrets: seq<Option<bytes>>)
    ensures EncodeAll(secrets[..0]) == LABEL_IKM
    ensures |LABEL_IKM| <= |EncodeAll(secrets)|
    ensures EncodeAll(secrets[..|secrets|]) == EncodeAll(secrets)
  {
    EncodeAllGrows(secrets, 0);
    assert secrets[..|secrets|] == secrets;
  }

  lemma EncodeAllStep(secrets: seq<Option<bytes>>, i: nat)
    requires i < |secrets|
    ensures EncodeAll(secrets[..i + 1]) == EncodeAll(secrets[..i]) + EncodeRole(secrets[i])
    ensures |EncodeAll(secrets[..i + 1])| <= |EncodeAll(secrets)|
  {
    assert secrets[..i + 1][..i] == secrets[..i];
    EncodeAllGrows(secrets, i + 1);
  }

  ghost function WantIkm(roles: Result<Roles>): Result<bytes> {
    var rs :- roles;
    Success(Encode(rs))
  }

  // buildIKM: the cursor ends exactly at the computed size, and every write
  // lands inside the buffer.
  method BuildIKM(w: World, ins: IkmInputs, ghost roles: Result<Roles>) returns (r: Result<SecureBytes>)
    requires w.Valid() && InputsValid(ins) && roles == RolesOf(ins)
    modifies w`tick, w`hits, w`fault, w`live, w`unlocks
    ensures w.Valid()
    ensures Delivers(w, r, WantIkm(roles))
  {
    hide EncodeAll, EncodeRole, Encode;
    ghost var a, b, c := RoleBytes(ins.password), RoleBytes(ins.yubiResp), RoleBytes(ins.recovery);
    EncodeAllOfThree(a, b, c);
    var size := IkmSize(ins, [a, b, c]);
    r := SecureBytes.NewZero(w, size);
    if r.Failure? { return; }
    var ikm := r.value;
    var filled := Fill(ikm.buf, ins, [a, b, c]);
    if filled.Failure? {
      var _ := ikm.Destroy(w);
      return Failure(filled.error);
    }
  }

  ghost function WantKek(c: Crypto, roles: Result<Roles>, hkdfSalt: bytes, version: byte, typ: byte,
      id: SlotId): Result<bytes> {
    var rs :- roles;
    Success(Protocol.KekOf(c, rs, hkdfSalt, version, typ, id))
  }

  // A raw HKDF output, or the failure of the call.
  method Hkdf(w: World, ikm: bytes, salt: bytes, info: bytes) returns (r: Result<array<byte>>)
    requires w.Valid()
    modifies w`tick, w`hits, w`fault, w`residue
    ensures w.Valid()
    ensures w.hits == old(w.hits) ==>
      r.Success? && fresh(r.value) && r.value[..] == w.crypto.hkdf(ikm, salt, info)
      && w.residue == old(w.residue) + {r.value}
    ensures w.hits != old(w.hits) ==>
      w.hits == old(w.hits) + 1 && r == Failure(Fault(FaultKind.Hkdf)) && w.fault == FaultKind.Hkdf
      && w.residue == old(w.residue)
  {
    var failed := w.Fails(FaultKind.Hkdf);
    if failed { return Failure(Fault(FaultKind.Hkdf)); }
    var raw := RawSecret(w, w.crypto.hkdf(ikm, salt, info));
    return Success(raw);
  }

  // The body of the ikm.Use callback: the raw key is zeroed on every path.
  method HkdfKey(w: World, ikm: bytes, salt: bytes, info: bytes) returns (kek: Result<SecureBytes>)
    requires w.Valid()
    modifies w`tick, w`hits, w`fault, w`live, w`residue
    ensures w.Valid()
    ensures Delivers(w, kek, Success(w.crypto.hkdf(ikm, salt, info)))
  {
    hide Failing, Honest;
    var raw :- Hkdf(w, ikm, salt, info);
    kek := SecureBytes.New(w, raw);
    Zero(w, raw);
  }

  // deriveKEK: the IKM is destroyed on every path.
  method DeriveKek(w: World, ins: IkmInputs, ghost roles: Result<Roles>,
                   hkdfSalt: bytes, version: byte, typ: byte, id: SlotId)
    returns (kek: Result<SecureBytes>)
    requires w.Valid() && InputsValid(ins) && roles == RolesOf(ins)
    modifies w`tick, w`hits, w`fault, w`live, w`residue, w`unlocks
    ensures w.Valid()
    ensures Delivers(w, kek, WantKek(w.crypto, roles, hkdfSalt, version, typ, id))
  {
    hide Encode, Failing, Honest;
    var ikm :- BuildIKM(w, ins, roles);
    var info := Protocol.KekInfo(version, typ, id);
    var used := ikm.Borrow();
    kek := HkdfKey(w, used.value[..], hkdfSalt, info);
    var _ := ikm.Destroy(w);
  }

  // seal: every success is logged, and nothing else is.
  method Seal(w: World, kek: SecureBytes, dek: SecureBytes, nonce: bytes, aad: bytes) returns (r: Result<bytes>)
    requires w.Valid() && kek.Valid() && dek.Valid()
    modifies w`log
    ensures w.Valid()
    ensures match (kek.Contents(), dek.Contents())
      case (None, _) => r == Failure(Destroyed)
      case (Some(key), None) => r == Failure(if |key| != KEY_SIZE then KeySize else Destroyed)
      case (Some(key), Some(pt)) =>
        r == if |key| != KEY_SIZE then Failure(KeySize) else Success(w.crypto.seal(key, nonce, pt, aad))
    ensures r.Failure? ==> w.log == old(w.log)
    ensures r.Success? ==>
      w.log == old(w.log) + [Sealed(kek.Contents().value, nonce, aad, dek.Contents().value, r.value)]
  {
    var key :- kek.Borrow();
    if key.Length != KEY_SIZE { return Failure(KeySize); }
    var pt :- dek.Borrow();
    var ct := w.crypto.seal(key[..], nonce, pt[..], aad);
    w.log := w.log + [Sealed(key[..], nonce, aad, pt[..], ct)];
    return Success(ct);
  }

  ghost function WantOpen(log: seq<Sealed>, kek: Option<bytes>, nonce: bytes, ct: bytes, aad: bytes): Result<bytes> {
    match kek
    case None => Failure(Destroyed)
    case Some(key) =>
      if |key| != KEY_SIZE then Failure(KeySize) else
      match Lookup(log, key, nonce, ct, aad)
      case None => Failure(AuthFailed)
      case Some(pt) => Success(pt)
  }

  // What opening answers: the plaintext of a sealing of that very tuple, or why there is none.
  lemma OpenExactly(log: seq<Sealed>, kek: Option<bytes>, nonce: bytes, ct: bytes, aad: bytes)
    ensures kek.None? ==> WantOpen(log, kek, nonce, ct, aad) == Failure(Destroyed)
    ensures kek.Some? && |kek.value| != 32 ==> WantOpen(log, kek, nonce, ct, aad) == Failure(KeySize)
    ensures kek.Some? && |kek.value| == 32 ==>
      match WantOpen(log, kek, nonce, ct, aad)
      case Success(pt) => exists i :: 0 <= i < |log| && log[i] == Sealed(kek.value, nonce, aad, pt, ct)
      case Failure(e) =>
        e == AuthFailed && forall i :: 0 <= i < |log| ==> log[i] != Sealed(kek.value, nonce, aad, log[i].pt, ct)
  {
    hide Lookup;
    if kek.Some? { LookupSound(log, kek.value, nonce, ct, aad); }
  }

  // open: the recovered plaintext is zeroed on every path.
  method Open(w: World, kek: SecureBytes, nonce: bytes, ct: bytes, aad: bytes) returns (dek: Result<SecureBytes>)
    requires w.Valid() && kek.Valid()
    modifies w`tick, w`hits, w`fault, w`live, w`residue
    ensures w.Valid()
    ensures Delivers(w, dek, WantOpen(w.log, kek.Contents(), nonce, ct, aad))
  {
    var key :- kek.Borrow();
    if key.Length != KEY_SIZE { return Failure(KeySize); }
    var found := Lookup(w.log, key[..], nonce, ct, aad);
    if found.None? { return Failure(AuthFailed); }
    var pt := RawSecret(w, found.value);
    dek := SecureBytes.New(w, pt);
    Zero(w, pt);
  }
}
