/** The destroy-once secret container (securebytes/securebytes.go). Every method
    runs under the container's mutex, so each call is one atomic step. */
module SecureBytes {
  import opened Bytes
  import opened Errors
  import opened Effects

  class SecureBytes {
    var buf: array?<byte>
    var destroyed: bool

    ghost predicate Valid()
      reads this
    {
      destroyed <==> buf == null
    }

    // The payload; None once destroyed.
    ghost function Contents(): Option<bytes>
      reads this, buf
    {
      if buf == null then None else Some(buf[..])
    }

    constructor Own(buf: array<byte>)
      ensures Valid() && this.buf == buf && !destroyed
    {
      this.buf := buf;
      destroyed := false;
    }

    // New: moves the payload of b into a fresh container and zeroes b, or
    // fails and leaves b as it was.
    static method New(w: World, b: array<byte>) returns (r: Result<SecureBytes>)
      requires w.Valid()
      modifies w`tick, w`hits, w`fault, w`live, w`residue, b
      ensures w.Valid()
      ensures w.tick == old(w.tick) + 1 && (w.hits == old(w.hits) <==> !w.faults(old(w.tick)))
      ensures w.hits == old(w.hits) ==>
        r.Success? && fresh(r.value) && r.value.Valid() && fresh(r.value.buf)
        && r.value.Contents() == Some(old(b[..]))
        && b[..] == Zeros(b.Length)
        && w.live == old(w.live) + {r.value} && w.residue == old(w.residue) - {b}
      ensures w.hits != old(w.hits) ==>
        w.hits == old(w.hits) + 1 && r == Failure(Fault(Mlock)) && w.fault == Mlock
        && b[..] == old(b[..]) && w.live == old(w.live) && w.residue == old(w.residue)
    {
      var buf := RawSecret(w, b[..]);
      var failed := w.Fails(Mlock);
      if failed {
        Zero(w, buf);
        return Failure(Fault(Mlock));
      }
      Zero(w, b);
      var sb := new SecureBytes.Own(buf);
      w.live := w.live + {sb};
      w.residue := w.residue - {buf};   // the container owns it now
      return Success(sb);
    }

    static method NewZero(w: World, size: int) returns (r: Result<SecureBytes>)
      requires w.Valid()
      modifies w`tick, w`hits, w`fault, w`live
      ensures w.Valid()
      ensures size < 0 ==> r == Failure(NegativeSize) && w.hits == old(w.hits) && w.live == old(w.live)
      ensures size >= 0 && w.hits == old(w.hits) ==>
        r.Success? && fresh(r.value) && r.value.Valid() && fresh(r.value.buf)
        && r.value.Contents() == Some(Zeros(size)) && w.live == old(w.live) + {r.value}
      ensures size >= 0 && w.hits != old(w.hits) ==>
        w.hits == old(w.hits) + 1 && r == Failure(Fault(Mlock)) && w.fault == Mlock && w.live == old(w.live)
    {
      if size < 0 { return Failure(NegativeSize); }
      var buf := new byte[size](_ => 0);
      var failed := w.Fails(Mlock);
      if failed { return Failure(Fault(Mlock)); }
      var sb := new SecureBytes.Own(buf);
      w.live := w.live + {sb};
      assert sb.buf[..] == Zeros(size);
      return Success(sb);
    }

    // The entry of Use: the live buffer, or ErrDestroyed without running the
    // callback. The callback is the code that follows.
    method Borrow() returns (r: Result<array<byte>>)
      requires Valid()
      ensures r == if destroyed then Failure(Destroyed) else Success(buf)
    {
      if destroyed { return Failure(Destroyed); }
      return Success(buf);
    }

    // Use with a callback that reads the payload and may rewrite it in place.
    // The callback does not run on a destroyed container.
    method Use(fn: bytes -> bytes) returns (saw: Result<bytes>)
      requires Valid()
      requires forall b :: |fn(b)| == |b|
      modifies buf
      ensures match old(Contents())
        case None => saw == Failure(Destroyed)
        case Some(b) => saw == Success(b) && Contents() == Some(fn(b))
    {
      var b :- Borrow();
      var before := b[..];
      var after := fn(before);
      for i := 0 to b.Length
        invariant b[..i] == after[..i]
      {
        b[i] := after[i];
      }
      assert b[..] == after;
      return Success(before);
    }

    method Len() returns (n: nat)
      requires Valid()
      ensures n == match Contents() { case Some(c) => |c| case None => 0 }
    {
      if destroyed { return 0; }
      return buf.Length;
    }

    // Destroy: the payload is all zero when the memory is handed back, whether
    // or not munlock succeeds.
    method Destroy(w: World) returns (unlocked: bool)
      requires Valid()
      modifies this, buf, w`live, w`unlocks
      ensures Valid() && destroyed
      ensures old(buf) != null ==> old(buf)[..] == Zeros(old(buf).Length)
      ensures w.live == if old(destroyed) then old(w.live) else old(w.live) - {this}
      ensures old(destroyed) ==> unlocked && w.unlocks == old(w.unlocks)
      ensures !old(destroyed) ==> unlocked == !w.unlockFaults(old(w.unlocks)) && w.unlocks == old(w.unlocks) + 1
    {
      if destroyed { return true; }
      ZeroLoop(buf);
      unlocked := !w.unlockFaults(w.unlocks);
      w.unlocks := w.unlocks + 1;
      w.live := w.live - {this};
      destroyed := true;
      buf := null;
    }

    // Clone: a second container with its own storage. If mlock fails, the plain
    // copy made for it is `left` behind with the payload still in it.
    method Clone(w: World) returns (r: Result<SecureBytes>, ghost left: array?<byte>)
      requires w.Valid() && Valid()
      modifies w`tick, w`hits, w`fault, w`live, w`residue
      ensures w.Valid()
      ensures destroyed ==>
        r == Failure(Destroyed) && w.hits == old(w.hits) && w.live == old(w.live) && w.tick == old(w.tick)
      ensures !destroyed ==> w.tick == old(w.tick) + 1 && (w.hits == old(w.hits) <==> !w.faults(old(w.tick)))
      ensures !destroyed && w.hits == old(w.hits) ==>
        r.Success? && fresh(r.value) && fresh(r.value.buf) && r.value.Valid()
        && r.value.Contents() == Contents() && w.live == old(w.live) + {r.value}
      ensures !destroyed && w.hits != old(w.hits) ==>
        w.hits == old(w.hits) + 1 && r == Failure(Fault(Mlock)) && w.fault == Mlock && w.live == old(w.live)
      ensures left == null <==> destroyed || w.hits == old(w.hits)
      ensures w.residue == if left == null then old(w.residue) else old(w.residue) + {left}
      ensures left != null ==> fresh(left) && Some(left[..]) == Contents()
    {
      left := null;
      var b := Borrow();
      if b.Failure? { return Failure(b.error), null; }
      var copy := RawSecret(w, b.value[..]);
      r := New(w, copy);
      left := if r.Success? then null else copy;
    }
  }

  method ZeroLoop(b: array<byte>)
    modifies b
    ensures b[..] == Zeros(b.Length)
  {
    for i := 0 to b.Length
      invariant forall j :: 0 <= j < i ==> b[j] == 0
    {
      b[i] := 0;
    }
  }

  // A raw buffer holding fresh secret bytes or characters, owed a zeroing.
  method RawSecret<T>(w: World, content: seq<T>) returns (raw: array<T>)
    modifies w`residue
    ensures fresh(raw) && raw[..] == content && w.residue == old(w.residue) + {raw}
  {
    raw := new T[|content|](i requires 0 <= i < |content| => content[i]);
    w.residue := w.residue + {raw};
  }

  // zero(raw)
  method Zero(w: World, raw: array<byte>)
    modifies raw, w`residue
    ensures raw[..] == Zeros(raw.Length) && w.residue == old(w.residue) - {raw}
  {
    ZeroLoop(raw);
    w.residue := w.residue - {raw};
  }

  // What a call that hands over one secret promises of its result. Either it succeeds
  // with the wanted payload in one new container, or it fails with the wanted error
  // or because exactly one call outside failed.
  twostate predicate Hands(w: World, new r: Result<SecureBytes>, new want: Result<bytes>)
    reads w, if r.Success? then {r.value} else {},
      if r.Success? && r.value.buf != null then {r.value.buf} else {}
  {
    match r
    case Success(sb) =>
      w.hits == old(w.hits) && want.Success?
      && fresh(sb) && sb.Valid() && (sb.buf != null ==> fresh(sb.buf)) && sb.Contents() == Some(want.value)
      && w.live == old(w.live) + {sb}
    case Failure(e) =>
      w.live == old(w.live)
      && if w.hits == old(w.hits) then want == Failure(e) else w.hits == old(w.hits) + 1 && e == Fault(w.fault)
  }

  // It also leaves no other secret behind.
  twostate predicate Delivers(w: World, new r: Result<SecureBytes>, new want: Result<bytes>)
    reads w, if r.Success? then {r.value} else {},
      if r.Success? && r.value.buf != null then {r.value.buf} else {}
  {
    w.residue == old(w.residue) && Hands(w, r, want)
  }
}
