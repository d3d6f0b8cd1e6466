/** Which envelopes can be printed at all, which printed ones can be read again,
    and what printing has to do with adding and removing slots. */
module Printing {
  import opened Bytes
  import opened Errors
  import opened Kinds
  import opened Slots
  import opened Wire
  import opened Envelopes
  import opened Policies
  import P = Protocol
  import Primitives
  import K = Kdf

  // What the parser asks for beyond what Marshal checks.
  ghost predicate Readable(s: Slot) {
    ShapeError(s).None? && WRAPPED_OVERHEAD <= |s.wrapped|
  }

  function Canonical(s: Slot): Slot {
    s.(meta := Some(MetaBytes(s)))
  }

  function AllCanonical(slots: seq<Slot>): (r: seq<Slot>)
    ensures |r| == |slots|
  {
    seq(|slots|, i requires 0 <= i < |slots| => Canonical(slots[i]))
  }

  // Marshal refuses an envelope for its slot count, a field bound or the wrapped
  // length, and for nothing else: the 1 MiB limit is never what stops it.
  lemma MarshalExactly(e: Image)
    requires forall s :: s in e.slots ==> Kept(s)
    ensures Marshal(e).Success? <==> 1 <= |e.slots| <= MAX_SLOT_COUNT && forall s :: s in e.slots ==> Printable(s)
    ensures Marshal(e).Success? ==> Marshal(e) == Success(Header(e.version, e.policyHint, |e.slots|) + Chunks(e.slots))
  {
    if 1 <= |e.slots| <= MAX_SLOT_COUNT {
      PrintAll(e.slots, Header(e.version, e.policyHint, |e.slots|));
    }
  }

  // Reading one printed slot: it comes back with its metadata kept, unless the
  // wrapped key is too short or the type and KDF do not fit.
  lemma ReadOne(s: Slot, tail: bytes)
    requires Printable(s)
    ensures ParseSlot(Chunk(MetaBytes(s), s.wrapped) + tail) ==
      if |s.wrapped| < WRAPPED_OVERHEAD then Failure(Malformed)
      else if ShapeError(s).Some? then Failure(ShapeError(s).value)
      else Success((Canonical(s), tail))
  {
    hide MetaBytes, MetaError, ParseMeta, ShapeError;
    var body := MetaBytes(s) + s.wrapped;
    MetaSize(s);
    MetaComplete(s, s.wrapped);
    assert body[..|body| - |s.wrapped|] == MetaBytes(s);
    MetaIgnoresWrapped(s, s.wrapped, Some(MetaBytes(s)));
    Assoc(BE32(|body|), body, tail);
    ReadU32Exact(BE32(|body|) + (body + tail), |body|, body + tail);
    TakeExact(body + tail, |body|, body, tail);
  }

  lemma {:induction false} ReadAll(slots: seq<Slot>, rest: bytes)
    requires forall s :: s in slots ==> Printable(s)
    ensures ParseSlots(Chunks(slots) + rest, |slots|).Success? <==> forall s :: s in slots ==> Readable(s)
    ensures (forall s :: s in slots ==> Readable(s)) ==>
      ParseSlots(Chunks(slots) + rest, |slots|) == Success((AllCanonical(slots), rest))
    decreases |slots|
  {
    hide Printable, Chunk, MetaBytes, ParseSlot, ShapeError;
    if slots == [] {
      assert Chunks(slots) + rest == rest;
    } else {
      var s, more := slots[0], slots[1..];
      Assoc(Chunk(MetaBytes(s), s.wrapped), Chunks(more), rest);
      ReadOne(s, Chunks(more) + rest);
      ReadAll(more, rest);
      assert forall t :: t in slots <==> t == s || t in more;
      assert AllCanonical(slots) == [Canonical(s)] + AllCanonical(more);
    }
  }

  // The field bounds are not all enforced on printing. What Marshal prints can be
  // read again exactly when the version is current, every slot's type and KDF fit,
  // and every wrapped key has at least the 16 bytes of its tag; it then reads as
  // the same slots.
  lemma PrintedReadsBackIff(e: Image, b: bytes)
    requires forall s :: s in e.slots ==> Kept(s)
    requires Marshal(e) == Success(b)
    ensures Parse(b).Success? <==> e.version == FORMAT_VERSION && forall s :: s in e.slots ==> Readable(s)
    ensures Parse(b).Success? ==> Parse(b) == Success(e.(slots := AllCanonical(e.slots)))
  {
    hide Kept, Printable, Readable, Header, ParseSlots;
    MarshalExactly(e);
    BodySize(e.slots);
    HeaderExact(b, e.version, e.policyHint, |e.slots|, Chunks(e.slots));
    assert Chunks(e.slots) + [] == Chunks(e.slots);
    ReadAll(e.slots, []);
    HeaderSize(e.version, e.policyHint, |e.slots|);
  }

  lemma HeaderSize(version: byte, hint: byte, count: nat)
    ensures |Header(version, hint, count)| == HEADER_LEN
  {
  }

  // A password slot with an 8-byte wrapped key is printed but not read back.
  lemma ShortWrappedIsPrintedOnly()
    ensures var k := K.Scrypt(1, 1, 1);
      var s := BLANK.(typ := METHOD_PASSWORD, aeadId := AEAD_CHACHA20_POLY1305, kdfId := KDF_SCRYPT,
                      kdfParams := K.ParamBytes(k), wrapped := Zeros(8));
      var e := Image(FORMAT_VERSION, POLICY_PASSWORD_ONLY, [s]);
      Marshal(e).Success? && Parse(Marshal(e).value).Failure?
  {
    var k := K.Scrypt(1, 1, 1);
    var s := BLANK.(typ := METHOD_PASSWORD, aeadId := AEAD_CHACHA20_POLY1305, kdfId := KDF_SCRYPT,
                    kdfParams := K.ParamBytes(k), wrapped := Zeros(8));
    var e := Image(FORMAT_VERSION, POLICY_PASSWORD_ONLY, [s]);
    assert s in e.slots && !Readable(s);
    MarshalExactly(e);
    PrintedReadsBackIff(e, Marshal(e).value);
  }

  // ---- siblings ----

  lemma {:induction false} ChunksSplit(a: seq<Slot>, b: seq<Slot>)
    ensures Chunks(a + b) == Chunks(a) + Chunks(b)
  {
    hide Chunk, MetaBytes;
    if a == [] {
      assert a + b == b;
    } else {
      assert (a + b)[1..] == a[1..] + b;
      ChunksSplit(a[1..], b);
      Assoc(Chunk(MetaBytes(a[0]), a[0].wrapped), Chunks(a[1..]), Chunks(b));
    }
  }

  lemma OneChunk(s: Slot)
    ensures Chunks([s]) == Chunk(MetaBytes(s), s.wrapped)
  {
    hide Chunk, MetaBytes;
    assert [s][1..] == [];
    assert Chunks([s]) == Chunk(MetaBytes(s), s.wrapped) + [];
  }

  // Printing after AddSlot: the bytes of the old slots are unchanged, and the
  // bytes of the new one follow.
  lemma AddLeavesSiblings(c: Primitives.Crypto, e: Image, m: P.Credential, dek: Option<bytes>, coins: nat -> byte,
                          at: nat, e': Image)
    requires AddWant(c, e, m, dek, coins, at) == Success(e')
    requires Marshal(e).Success? && Marshal(e').Success?
    requires forall s :: s in e'.slots ==> Kept(s)
    ensures |e'.slots| == |e.slots| + 1 && e.slots <= e'.slots
    ensures Marshal(e) == Success(Header(e.version, e.policyHint, |e.slots|) + Chunks(e.slots))
    ensures var s := e'.slots[|e.slots|];
      Marshal(e') == Success(Header(e.version, e.policyHint, |e.slots| + 1)
                             + (Chunks(e.slots) + Chunk(MetaBytes(s), s.wrapped)))
  {
    hide P.Enroll, Kept, Printable, Chunk, MetaBytes, Header, Marshal;
    var s := e'.slots[|e.slots|];
    assert e'.slots == e.slots + [s];
    assert forall t :: t in e.slots ==> t in e'.slots;
    MarshalExactly(e);
    MarshalExactly(e');
    ChunksSplit(e.slots, [s]);
    OneChunk(s);
  }

  lemma ChunksAround(a: seq<Slot>, s: Slot, b: seq<Slot>)
    ensures Chunks(a + [s] + b) == Chunks(a) + Chunk(MetaBytes(s), s.wrapped) + Chunks(b)
  {
    hide Chunk, MetaBytes, Chunks;
    ChunksSplit(a + [s], b);
    ChunksSplit(a, [s]);
    OneChunk(s);
  }

  // Printing after RemoveSlot: exactly the bytes of one slot, the first with that
  // ID, are gone; those before and after it are unchanged and in order.
  lemma RemoveLeavesSiblings(e: Image, id: SlotId, e': Image)
    requires RemoveWant(e, id) == Success(e')
    requires Marshal(e).Success? && forall s :: s in e.slots ==> Kept(s)
    ensures var i := Find(e.slots, id);
      i < |e.slots| && e.slots[i].id == id && (forall j :: 0 <= j < i ==> e.slots[j].id != id)
      && (var a, s, b := e.slots[..i], e.slots[i], e.slots[i + 1..];
          Marshal(e) == Success(Header(e.version, e.policyHint, |e.slots|)
                                + (Chunks(a) + Chunk(MetaBytes(s), s.wrapped) + Chunks(b)))
          && Marshal(e') == Success(Header(e.version, e.policyHint, |e.slots| - 1) + (Chunks(a) + Chunks(b))))
  {
    hide Kept, Printable, Chunk, MetaBytes, Header, Marshal, Chunks, Primary, PrimaryCount;
    var i := Find(e.slots, id);
    var a, s, b := e.slots[..i], e.slots[i], e.slots[i + 1..];
    assert e.slots == a + [s] + b && e'.slots == a + b;
    assert forall t :: t in e'.slots ==> t in e.slots;
    MarshalExactly(e);
    MarshalExactly(e');
    ChunksAround(a, s, b);
    ChunksSplit(a, b);
  }

  // Why printing fails: an unsupported AEAD if the first slot that cannot be printed has
  // only that fault, else a malformed envelope.
  lemma {:induction false} PrintErrors(slots: seq<Slot>, out: bytes)
    requires forall s :: s in slots ==> Kept(s)
    requires |out| + |slots| * (4 + 563 + 256) <= MAX_ENVELOPE_LEN
    requires MarshalSlots(slots, out).Failure?
    ensures exists i :: FirstUnprintable(slots, i) && MarshalSlots(slots, out).error == PrintError(slots[i])
  {
    hide Kept, Printable, MarshalSlot, Chunk, MetaBytes, PrintError;
    var s := slots[0];
    PrintOne(s, out);
    if Printable(s) {
      PrintErrors(slots[1..], MarshalSlot(s, out).value);
      var i :| FirstUnprintable(slots[1..], i)
        && MarshalSlots(slots[1..], MarshalSlot(s, out).value).error == PrintError(slots[1..][i]);
      forall j | 0 <= j < i + 1 ensures Printable(slots[j]) {
        if j > 0 { assert slots[j] == slots[1..][j - 1]; }
      }
      assert FirstUnprintable(slots, i + 1) && slots[i + 1] == slots[1..][i];
    } else {
      PrintOneError(s, out);
      assert FirstUnprintable(slots, 0);
    }
  }

  ghost predicate FirstUnprintable(slots: seq<Slot>, i: int) {
    0 <= i < |slots| && !Printable(slots[i]) && forall j :: 0 <= j < i ==> Printable(slots[j])
  }

  function PrintError(s: Slot): Error {
    if 1 <= |s.wrapped| <= 256 && 1 <= s.typ <= 4 && s.aeadId != 1 then UnsupportedAead else Malformed
  }

  lemma PrintOneError(s: Slot, out: bytes)
    requires Kept(s) && !Printable(s) && |out| + (4 + 563 + 256) <= MAX_ENVELOPE_LEN
    ensures MarshalSlot(s, out) == Failure(PrintError(s))
  {
    hide MetaBytes, MetaError;
    MetaErrorExactly(s);
  }

  // Why Marshal fails: the slot count, or the first slot that cannot be printed.
  lemma MarshalErrors(e: Image)
    requires forall s :: s in e.slots ==> Kept(s)
    requires Marshal(e).Failure?
    ensures |e.slots| == 0 || |e.slots| > 64 ==> Marshal(e) == Failure(Malformed)
    ensures 1 <= |e.slots| <= 64 ==>
      exists i :: FirstUnprintable(e.slots, i) && Marshal(e).error == PrintError(e.slots[i])
  {
    hide PrintError, FirstUnprintable, Kept;
    if 1 <= |e.slots| <= 64 { PrintErrors(e.slots, Header(e.version, e.policyHint, |e.slots|)); }
  }
}
