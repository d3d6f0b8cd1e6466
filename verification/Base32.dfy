/** Unpadded base32 as section 6 of RFC 4648 defines it: the input is a bit
    stream, most significant bit first, cut into 5-bit groups, the last one filled
    with zero bits. */
module Base32 {
  import opened Bytes
  import opened Errors

  type bits = seq<bool>

  // The w lowest bits of n, most significant first.
  function Bits(n: nat, w: nat): (b: bits)
    ensures |b| == w
  {
    if w == 0 then [] else Bits(n / 2, w - 1) + [n % 2 == 1]
  }

  function Value(b: bits): nat {
    if b == [] then 0 else 2 * Value(b[..|b| - 1]) + if b[|b| - 1] then 1 else 0
  }

  lemma {:induction false} ValueOfBits(n: nat, w: nat)
    requires n < Pow2(w)
    ensures Value(Bits(n, w)) == n
  {
    if w > 0 {
      ValueOfBits(n / 2, w - 1);
      assert Bits(n, w)[..w - 1] == Bits(n / 2, w - 1);
    }
  }

  lemma {:induction false} BitsOfValue(b: bits)
    ensures Value(b) < Pow2(|b|) && Bits(Value(b), |b|) == b
  {
    if b != [] {
      var init := b[..|b| - 1];
      BitsOfValue(init);
      assert Value(b) / 2 == Value(init);
      assert b == init + [b[|b| - 1]];
    }
  }

  lemma PowersUsed()
    ensures Pow2(5) == 32 && Pow2(8) == 256
  {
    assert Pow2(2) == 4;
    assert Pow2(4) == 16;
    assert Pow2(6) == 64;
  }

  function NoBits(n: nat): (z: bits)
    ensures |z| == n
  {
    seq(n, _ => false)
  }

  // ---- symbols ----

  type symbol = v: nat | v < 32

  function SymbolChar(v: symbol): char {
    if v < 26 then 'A' + v as char else '2' + (v - 26) as char
  }

  predicate InAlphabet(ch: char) {
    'A' <= ch <= 'Z' || '2' <= ch <= '7'
  }

  function CharSymbol(ch: char): symbol
    requires InAlphabet(ch)
  {
    if 'A' <= ch then (ch - 'A') as nat else (ch - '2') as nat + 26
  }

  lemma SymbolRoundTrip(v: symbol)
    ensures InAlphabet(SymbolChar(v)) && CharSymbol(SymbolChar(v)) == v
  {
  }

  // The alphabet of section 6 of RFC 4648.
  lemma AlphabetInOrder(v: symbol)
    ensures SymbolChar(v) == "ABCDEFGHIJKLMNOPQRSTUVWXYZ234567"[v]
  {
  }

  // ---- bytes to symbols ----

  function BitsOfBytes(b: bytes): bits {
    if b == [] then [] else Bits(b[0] as nat, 8) + BitsOfBytes(b[1..])
  }

  function Groups(b: bits): seq<symbol> {
    PowersUsed();
    if b == [] then []
    else if |b| < 5 then
      var last := b + NoBits(5 - |b|);
      BitsOfValue(last);
      [Value(last)]
    else
      BitsOfValue(b[..5]);
      [Value(b[..5])] + Groups(b[5..])
  }

  function Spell(v: seq<symbol>): string {
    if v == [] then [] else [SymbolChar(v[0])] + Spell(v[1..])
  }

  function Encode(b: bytes): string {
    Spell(Groups(BitsOfBytes(b)))
  }

  // ---- symbols to bytes ----

  function BitsOfSymbols(v: seq<symbol>): bits {
    if v == [] then [] else Bits(v[0], 5) + BitsOfSymbols(v[1..])
  }

  // Whole bytes; left-over bits at the end are dropped.
  function WholeBytes(b: bits): bytes {
    PowersUsed();
    if |b| < 8 then []
    else
      BitsOfValue(b[..8]);
      [Value(b[..8]) as byte] + WholeBytes(b[8..])
  }

  function Unspell(s: string): Result<seq<symbol>> {
    if s == [] then Success([])
    else if !InAlphabet(s[0]) then Failure(InvalidRecoveryCode)
    else
      var rest :- Unspell(s[1..]);
      Success([CharSymbol(s[0])] + rest)
  }

  function Decode(s: string): Result<bytes> {
    var v :- Unspell(s);
    Success(WholeBytes(BitsOfSymbols(v)))
  }

  // ---- the round trip ----

  lemma {:induction false} UnspellSpell(v: seq<symbol>)
    ensures Unspell(Spell(v)) == Success(v)
  {
    if v != [] {
      SymbolRoundTrip(v[0]);
      UnspellSpell(v[1..]);
      assert Spell(v)[1..] == Spell(v[1..]);
      assert [v[0]] + v[1..] == v;
    }
  }

  // The zero bits that fill the last group.
  function Padding(n: nat): (p: nat)
    ensures p < 5
  {
    if n == 0 then 0 else if n < 5 then 5 - n else Padding(n - 5)
  }

  lemma LastGroup(b: bits)
    requires 0 < |b| < 5
    ensures BitsOfSymbols(Groups(b)) == b + NoBits(Padding(|b|))
  {
    var last := b + NoBits(5 - |b|);
    BitsOfValue(last);
    hide Bits, Value;
    assert Groups(b) == [Value(last)] && [Value(last)][1..] == [];
    assert BitsOfSymbols(Groups(b)) == last + [];
  }

  lemma FullGroup(b: bits)
    requires |b| >= 5
    ensures BitsOfSymbols(Groups(b)) == b[..5] + BitsOfSymbols(Groups(b[5..]))
  {
    BitsOfValue(b[..5]);
    assert Groups(b)[1..] == Groups(b[5..]);
  }

  // Splitting a bit stream in groups of five loses nothing and adds at most four zero bits.
  lemma {:induction false} RegroupBits(b: bits)
    ensures BitsOfSymbols(Groups(b)) == b + NoBits(Padding(|b|))
  {
    hide Bits, Value;
    if b == [] {
    } else if |b| < 5 {
      LastGroup(b);
    } else {
      FullGroup(b);
      RegroupBits(b[5..]);
      assert b[..5] + (b[5..] + NoBits(Padding(|b|))) == b + NoBits(Padding(|b|));
    }
  }

  lemma {:induction false} BytesFromBits(b: bytes, pad: nat)
    requires pad < 8
    ensures WholeBytes(BitsOfBytes(b) + NoBits(pad)) == b
  {
    PowersUsed();
    if b != [] {
      var first, rest := Bits(b[0] as nat, 8), BitsOfBytes(b[1..]);
      ValueOfBits(b[0] as nat, 8);
      BytesFromBits(b[1..], pad);
      assert (BitsOfBytes(b) + NoBits(pad))[..8] == first;
      assert (BitsOfBytes(b) + NoBits(pad))[8..] == rest + NoBits(pad);
    }
  }

  // Decoding the encoding gives back every byte string.
  lemma DecodeEncode(b: bytes)
    ensures Decode(Encode(b)) == Success(b)
  {
    hide Groups, WholeBytes, BitsOfBytes, BitsOfSymbols;
    UnspellSpell(Groups(BitsOfBytes(b)));
    RegroupBits(BitsOfBytes(b));
    BytesFromBits(b, Padding(|BitsOfBytes(b)|));
  }

  // ---- lengths ----

  lemma {:induction false} BitsOfBytesLength(b: bytes)
    ensures |BitsOfBytes(b)| == 8 * |b|
  {
    if b != [] { BitsOfBytesLength(b[1..]); }
  }

  lemma {:induction false} GroupsLength(b: bits)
    ensures |Groups(b)| == (|b| + 4) / 5
  {
    if |b| >= 5 { GroupsLength(b[5..]); }
  }

  lemma {:induction false} SpellLength(v: seq<symbol>)
    ensures |Spell(v)| == |v| && forall i :: 0 <= i < |v| ==> InAlphabet(Spell(v)[i])
  {
    if v != [] {
      SymbolRoundTrip(v[0]);
      SpellLength(v[1..]);
    }
  }

  // 32 bytes are spelled with 52 symbols of the alphabet.
  lemma EncodeShape(b: bytes)
    ensures |Encode(b)| == (8 * |b| + 4) / 5
    ensures forall i :: 0 <= i < |Encode(b)| ==> InAlphabet(Encode(b)[i])
  {
    BitsOfBytesLength(b);
    GroupsLength(BitsOfBytes(b));
    SpellLength(Groups(BitsOfBytes(b)));
  }

  lemma {:induction false} WholeBytesLength(b: bits)
    ensures |WholeBytes(b)| == |b| / 8
  {
    if |b| >= 8 { WholeBytesLength(b[8..]); }
  }

  lemma {:induction false} UnspellShape(s: string)
    ensures Unspell(s).Success? <==> forall i :: 0 <= i < |s| ==> InAlphabet(s[i])
    ensures Unspell(s).Success? ==> |BitsOfSymbols(Unspell(s).value)| == 5 * |s|
    ensures Unspell(s).Failure? ==> Unspell(s).error == InvalidRecoveryCode
  {
    if s != [] {
      UnspellShape(s[1..]);
      assert forall i :: 0 < i < |s| ==> s[i] == s[1..][i - 1];
      assert forall i :: 0 <= i < |s[1..]| ==> s[1..][i] == s[i + 1];
    }
  }
}
