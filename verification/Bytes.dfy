/** Bytes, big-endian integers and small facts about concatenation. */
module Bytes {
  newtype byte = x: int | 0 <= x < 256

  type bytes = seq<byte>

  type word16 = n: nat | n < 0x1_0000

  type word32 = n: nat | n < 0x1_0000_0000

  // binary.BigEndian.AppendUint16 of uint16(n): higher bits are cut off.
  function BE16(n: nat): (b: bytes)
    ensures |b| == 2
  {
    [(n / 0x100 % 0x100) as byte, (n % 0x100) as byte]
  }

  // binary.BigEndian.AppendUint32 of uint32(n): higher bits are cut off.
  function BE32(n: nat): (b: bytes)
    ensures |b| == 4
  {
    BE16(n / 0x1_0000) + BE16(n % 0x1_0000)
  }

  function FromBE16(a: byte, b: byte): word16 {
    a as nat * 0x100 + b as nat
  }

  function FromBE32(a: byte, b: byte, c: byte, d: byte): word32 {
    Join(FromBE16(a, b), FromBE16(c, d))
  }

  function Join(hi: word16, lo: word16): word32 {
    hi * 0x1_0000 + lo
  }

  lemma BE16RoundTrip(n: word16)
    ensures FromBE16(BE16(n)[0], BE16(n)[1]) == n
  {
  }

  lemma FromBE16RoundTrip(a: byte, b: byte)
    ensures BE16(FromBE16(a, b)) == [a, b]
  {
  }

  lemma JoinHalves(n: word32)
    ensures n / 0x1_0000 < 0x1_0000
    ensures Join(n / 0x1_0000, n % 0x1_0000) == n
  {
  }

  lemma HalvesOfJoin(hi: word16, lo: word16)
    ensures Join(hi, lo) / 0x1_0000 == hi && Join(hi, lo) % 0x1_0000 == lo
  {
  }

  lemma BE32RoundTrip(n: word32)
    ensures FromBE32(BE32(n)[0], BE32(n)[1], BE32(n)[2], BE32(n)[3]) == n
  {
    JoinHalves(n);
    BE16RoundTrip(n / 0x1_0000);
    BE16RoundTrip(n % 0x1_0000);
  }

  lemma FromBE32RoundTrip(a: byte, b: byte, c: byte, d: byte)
    ensures BE32(FromBE32(a, b, c, d)) == [a, b, c, d]
  {
    HalvesOfJoin(FromBE16(a, b), FromBE16(c, d));
    FromBE16RoundTrip(a, b);
    FromBE16RoundTrip(c, d);
  }

  // Reading and writing 32-bit words are inverse to each other.
  lemma BE32Exact(q: bytes, n: word32)
    requires |q| == 4
    ensures FromBE32(q[0], q[1], q[2], q[3]) == n <==> q == BE32(n)
  {
    BE32RoundTrip(n);
    FromBE32RoundTrip(q[0], q[1], q[2], q[3]);
    assert q == [q[0], q[1], q[2], q[3]];
  }

  lemma Assoc<T>(a: seq<T>, b: seq<T>, c: seq<T>)
    ensures (a + b) + c == a + (b + c)
  {
  }

  // The same bytes, cut behind first or in front first.
  lemma Window<T>(s: seq<T>, off: nat, n: nat)
    requires off + n <= |s|
    ensures s[..off + n][off..] == s[off..][..n]
  {
  }

  // Two concatenations with first parts of one length split the same way.
  lemma SplitEqual<T>(a: seq<T>, b: seq<T>, c: seq<T>, d: seq<T>)
    requires a + b == c + d
    requires |a| == |c|
    ensures a == c && b == d
  {
    assert a == (a + b)[..|a|] && b == (a + b)[|a|..];
    assert c == (c + d)[..|c|] && d == (c + d)[|c|..];
  }

  function Pow2(w: nat): nat {
    if w == 0 then 1 else 2 * Pow2(w - 1)
  }

  function Zeros(n: nat): (z: bytes)
    ensures |z| == n && forall i :: 0 <= i < n ==> z[i] == 0
  {
    seq(n, _ => 0)
  }
}
