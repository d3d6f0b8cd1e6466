/** The bounds-checked cursor and the slot decoder (envelope.go), proved against
    the functions of module Wire. */
module Parser {
  import opened Bytes
  import opened Errors
  import opened Kinds
  import opened Slots
  import Wire

  class Reader {
    const b: bytes
    var off: nat

    ghost predicate Valid()
      reads this
    {
      off <= |b|
    }

    // The bytes still unread.
    ghost function Rest(): bytes
      requires Valid()
      reads this
    {
      b[off..]
    }

    constructor (b: bytes, off: nat)
      requires off <= |b|
      ensures Valid() && this.b == b && this.off == off && Rest() == b[off..]
    {
      this.b := b;
      this.off := off;
    }

    method U8() returns (r: Result<byte>)
      requires Valid()
      modifies this`off
      ensures Valid() && old(off) <= off
      ensures match Wire.ReadU8(old(Rest()))
        case Success((v, tail)) => r == Success(v) && Rest() == tail && off == old(off) + 1
        case Failure(e) => r == Failure(e) && off == old(off)
    {
      if off + 1 > |b| { return Failure(ShortData); }
      r := Success(b[off]);
      off := off + 1;
    }

    method U16() returns (r: Result<word16>)
      requires Valid()
      modifies this`off
      ensures Valid() && old(off) <= off
      ensures match Wire.ReadU16(old(Rest()))
        case Success((v, tail)) => r == Success(v) && Rest() == tail && off == old(off) + 2
        case Failure(e) => r == Failure(e) && off == old(off)
    {
      if off + 2 > |b| { return Failure(ShortData); }
      r := Success(FromBE16(b[off], b[off + 1]));
      off := off + 2;
    }

    method U32() returns (r: Result<word32>)
      requires Valid()
      modifies this`off
      ensures Valid() && old(off) <= off
      ensures match Wire.ReadU32(old(Rest()))
        case Success((v, tail)) => r == Success(v) && Rest() == tail && off == old(off) + 4
        case Failure(e) => r == Failure(e) && off == old(off)
    {
      if off + 4 > |b| { return Failure(ShortData); }
      r := Success(FromBE32(b[off], b[off + 1], b[off + 2], b[off + 3]));
      off := off + 4;
    }

    method Take(n: int) returns (r: Result<bytes>)
      requires Valid()
      modifies this`off
      ensures Valid() && old(off) <= off
      ensures n < 0 ==> r == Failure(ShortData) && off == old(off)
      ensures n >= 0 ==>
        match Wire.Take(old(Rest()), n)
        case Success((v, tail)) => r == Success(v) && Rest() == tail && off == old(off) + n
        case Failure(e) => r == Failure(e) && off == old(off)
    {
      if n < 0 || off + n > |b| { return Failure(ShortData); }
      r := Success(b[off..off + n]);
      assert b[off..][..n] == b[off..off + n];
      off := off + n;
    }

    method TakeU16(maxLen: nat) returns (r: Result<bytes>)
      requires Valid()
      modifies this`off
      ensures Valid() && old(off) <= off
      ensures match Wire.TakeU16(old(Rest()), maxLen)
        case Success((v, tail)) => r == Success(v) && Rest() == tail
        case Failure(e) => r == Failure(e)
    {
      var n :- U16();
      if n > maxLen { return Failure(Malformed); }
      r := Take(n);
    }
  }

  // int(n) for a uint32, on a platform whose int has 32 or 64 bits.
  function ToInt(n: word32, wide: bool): int {
    if !wide && n >= 0x8000_0000 then n - 0x1_0000_0000 else n
  }

  method ParseFixed(body: Reader) returns (r: Result<Slot>)
    requires body.Valid()
    modifies body`off
    ensures body.Valid() && old(body.off) <= body.off
    ensures match Wire.ParseFixed(old(body.Rest()))
      case Success((s, tail)) => r == Success(s) && body.Rest() == tail
      case Failure(e) => r == Failure(e)
  {
    var s := Wire.BLANK;
    var t :- body.U8();
    if !MethodTypeValid(t) { return Failure(Malformed); }
    var id :- body.Take(8);
    var flags :- body.U8();
    var aead :- body.U8();
    if aead != AEAD_CHACHA20_POLY1305 { return Failure(UnsupportedAead); }
    var kdf :- body.U8();
    var yk :- body.U8();
    return Success(s.(typ := t, id := id, flags := flags, aeadId := aead, kdfId := kdf, ykSlot := yk));
  }

  method ParseEarly(s: Slot, body: Reader) returns (r: Result<Slot>)
    requires body.Valid()
    modifies body`off
    ensures body.Valid() && old(body.off) <= body.off
    ensures match Wire.ParseEarly(s, old(body.Rest()))
      case Success((s', tail)) => r == Success(s') && body.Rest() == tail
      case Failure(e) => r == Failure(e)
  {
    hide Wire.TakeU16;
    var params :- body.TakeU16(MAX_KDF_PARAMS_LEN);
    var kdfSalt :- body.TakeU16(MAX_SALT_LEN);
    var chalSalt :- body.TakeU16(MAX_SALT_LEN);
    return Success(s.(kdfParams := params, kdfSalt := kdfSalt, chalSalt := chalSalt));
  }

  method ParseLate(s: Slot, body: Reader) returns (r: Result<Slot>)
    requires body.Valid()
    modifies body`off
    ensures body.Valid() && old(body.off) <= body.off
    ensures match Wire.ParseLate(s, old(body.Rest()))
      case Success((s', tail)) => r == Success(s') && body.Rest() == tail
      case Failure(e) => r == Failure(e)
  {
    hide Wire.TakeU16;
    var hkdfSalt :- body.Take(16);
    var challenge :- body.TakeU16(MAX_CHALLENGE_LEN);
    var name :- body.TakeU16(MAX_LABEL_LEN);
    var nonce :- body.Take(12);
    return Success(s.(hkdfSalt := hkdfSalt, challenge := challenge, slotLabel := name, nonce := nonce));
  }

  // parseSlot behind the length field: a sub-reader that ends with the slot body.
  method ParseBody(b: bytes, off: nat, n: nat) returns (res: Result<Slot>)
    requires off + n <= |b|
    ensures res == Wire.ParseBody(b[off..][..n])
  {
    hide Wire.ParseFixed, Wire.ParseEarly, Wire.ParseLate, ShapeError;
    var body := new Reader(b[..off + n], off);
    Window(b, off, n);
    var s1 :- ParseFixed(body);
    var s2 :- ParseEarly(s1, body);
    var s3 :- ParseLate(s2, body);
    var metaEnd := body.off;
    var meta := b[off..metaEnd];
    var wrapped := body.b[metaEnd..];
    MetaBefore(b, off, n, metaEnd);
    if |wrapped| < WRAPPED_OVERHEAD || |wrapped| > MAX_WRAPPED_LEN { return Failure(Malformed); }
    var s := s3.(meta := Some(meta), wrapped := wrapped);
    if ShapeError(s).Some? { return Failure(ShapeError(s).value); }
    return Success(s);
  }

  // What is consumed of the body is what the rest leaves of it.
  lemma MetaBefore(b: bytes, off: nat, n: nat, end: nat)
    requires off <= end <= off + n <= |b|
    ensures var all, rest := b[off..][..n], b[..off + n][end..];
      |rest| <= |all| && b[off..end] == all[..|all| - |rest|]
  {
  }

  // parseSlot: the result is the same whether int has 32 or 64 bits.
  method ParseSlot(r: Reader, wide: bool) returns (res: Result<Slot>)
    requires r.Valid()
    modifies r`off
    ensures r.Valid() && old(r.off) <= r.off
    ensures match Wire.ParseSlot(old(r.Rest()))
      case Success((s, tail)) => res == Success(s) && r.Rest() == tail && old(r.off) + SLOT_FIXED_LEN < r.off
      case Failure(e) => res == Failure(e)
  {
    hide Wire.ParseBody;
    var bodyLen :- r.U32();
    var n := ToInt(bodyLen, wide);
    if n < SLOT_FIXED_LEN || n > MAX_ENVELOPE_LEN { return Failure(Malformed); }
    if r.off + n > |r.b| { return Failure(ShortData); }
    var s :- ParseBody(r.b, r.off, n);
    r.off := r.off + n;
    return Success(s);
  }

  // The 13-byte floor makes every read of a fixed-width leading field succeed.
  lemma FixedFieldsNeverRunShort(body: bytes)
    requires |body| >= SLOT_FIXED_LEN
    ensures Wire.ParseFixed(body) != Failure(ShortData)
  {
  }

  // An accepted slot is determined by its own chunk: it consumes at least the
  // length word and the floor, and whatever follows cannot change it.
  lemma SlotFraming(rest: bytes, s: Slot, tail: bytes, other: bytes)
    requires Wire.ParseSlot(rest) == Success((s, tail))
    ensures |tail| + 4 + SLOT_FIXED_LEN < |rest|
    ensures rest == rest[..|rest| - |tail|] + tail
    ensures Wire.ParseSlot(rest[..|rest| - |tail|] + other) == Success((s, other))
  {
    Wire.SlotSound(rest, s, tail);
    MetaSize(s);
    var c := Wire.Chunk(MetaBytes(s), s.wrapped);
    assert rest[..|rest| - |tail|] == c;
    Wire.SlotComplete(s, other);
  }
}
