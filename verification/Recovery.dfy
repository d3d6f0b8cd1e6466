/** Recovery codes: printing, tolerant re-entry and generation (recovery.go), and
    data-key generation (tumbler.go). */
module Recovery {
  import opened Bytes
  import opened Errors
  import opened Kinds
  import opened Effects
  import opened SecureBytes
  import Base32
  import Protocol

  predicate Junk(ch: char) {
    !('A' <= ch <= 'Z') && !('a' <= ch <= 'z') && !('0' <= ch <= '9')
  }

  function Upper(ch: char): char {
    if 'a' <= ch <= 'z' then ch - 'a' + 'A' else ch
  }

  // What ParseRecoveryCode keeps of an entry: letters in upper case, and digits.
  function Clean(s: string): string {
    if s == [] then []
    else (if Junk(s[0]) then [] else [Upper(s[0])]) + Clean(s[1..])
  }

  // The bytes of a character in UTF-8.
  function Width(ch: char): nat {
    if ch < '\U{0080}' then 1 else if ch < '\U{0800}' then 2 else if ch < '\U{10000}' then 3 else 4
  }

  // The byte offset behind the first i characters.
  function Offset(s: string, i: nat): nat
    requires i <= |s|
  {
    if i == 0 then 0 else Offset(s, i - 1) + Width(s[i - 1])
  }

  // groupString, up to character i: a hyphen before each character that starts at
  // a positive multiple of n bytes.
  function Grouped(s: string, n: nat, i: nat): string
    requires n > 0 && i <= |s|
  {
    if i == 0 then []
    else
      var at := Offset(s, i - 1);
      Grouped(s, n, i - 1) + (if at > 0 && at % n == 0 then "-" else "") + [s[i - 1]]
  }

  method GroupString(s: string, n: int) returns (out: string)
    ensures out == if n <= 0 || Offset(s, |s|) <= n then s else Grouped(s, n, |s|)
  {
    var len := Offset(s, |s|);
    if n <= 0 || len <= n { return s; }
    out := "";
    var at := 0;
    for i := 0 to |s|
      invariant at == Offset(s, i) && out == Grouped(s, n, i)
    {
      if at > 0 && at % n == 0 { out := out + "-"; }
      out := out + [s[i]];
      at := at + Width(s[i]);
    }
  }

  lemma {:induction false} OffsetOfAscii(s: string, i: nat)
    requires i <= |s| && forall k :: 0 <= k < |s| ==> s[k] < '\U{0080}'
    ensures Offset(s, i) == i
  {
    if i > 0 { OffsetOfAscii(s, i - 1); }
  }

  function FormatText(code: bytes): string {
    var s := Base32.Encode(code);
    if Offset(s, |s|) <= 4 then s else Grouped(s, 4, |s|)
  }

  function ParseText(s: string): Result<bytes> {
    var raw :- Base32.Decode(Clean(s));
    if |raw| != Protocol.RECOVERY_CODE_LEN then Failure(InvalidRecoveryCode) else Success(raw)
  }

  // ---- what grouping does ----

  // A hyphen at every fifth place, the symbols in order everywhere else.
  lemma {:induction false} GroupedByFour(s: string, i: nat)
    requires i <= |s| && forall k :: 0 <= k < |s| ==> s[k] < '\U{0080}'
    ensures |Grouped(s, 4, i)| == if i == 0 then 0 else i + (i - 1) / 4
    ensures forall k :: 0 <= k < |Grouped(s, 4, i)| && k % 5 == 4 ==> Grouped(s, 4, i)[k] == '-'
    ensures forall k :: 0 <= k < |Grouped(s, 4, i)| && k % 5 != 4 ==>
      k - k / 5 < |s| && Grouped(s, 4, i)[k] == s[k - k / 5]
  {
    if i > 0 {
      OffsetOfAscii(s, i - 1);
      GroupedByFour(s, i - 1);
      var g := Grouped(s, 4, i - 1);
      assert Grouped(s, 4, i) == g + (if i > 1 && (i - 1) % 4 == 0 then "-" else "") + [s[i - 1]];
      hide Grouped, Offset;
      assert (i - 1) % 4 == 0 && i > 1 ==> |g| % 5 == 4;
      var g' := Grouped(s, 4, i);
      assert |g'| == i + (i - 1) / 4 && |g'| - 1 - (|g'| - 1) / 5 == i - 1;
      forall k | 0 <= k < |g'|
        ensures if k % 5 == 4 then g'[k] == '-' else k - k / 5 < |s| && g'[k] == s[k - k / 5]
      {
        if k < |g| { assert g'[k] == g[k]; }
      }
    }
  }

  lemma {:induction false} CleanSplit(a: string, b: string)
    ensures Clean(a + b) == Clean(a) + Clean(b)
  {
    if a == [] {
      assert a + b == b;
    } else {
      assert (a + b)[1..] == a[1..] + b;
      CleanSplit(a[1..], b);
    }
  }

  lemma {:induction false} CleanGrouped(s: string, n: nat, i: nat)
    requires n > 0 && i <= |s|
    ensures Clean(Grouped(s, n, i)) == Clean(s[..i])
  {
    if i > 0 {
      CleanGrouped(s, n, i - 1);
      var at := Offset(s, i - 1);
      var sep := if at > 0 && at % n == 0 then "-" else "";
      assert Grouped(s, n, i) == Grouped(s, n, i - 1) + sep + [s[i - 1]];
      hide Grouped, Offset;
      CleanOneMore(Grouped(s, n, i - 1), sep, s[..i - 1], s[i - 1]);
      assert s[..i] == s[..i - 1] + [s[i - 1]];
    }
  }

  lemma CleanOneMore(a: string, sep: string, b: string, ch: char)
    requires Clean(a) == Clean(b) && (sep == "" || sep == "-")
    ensures Clean(a + sep + [ch]) == Clean(b + [ch])
  {
    assert Clean(sep) == "";
    hide Clean;
    CleanSplit(a + sep, [ch]);
    CleanSplit(a, sep);
    CleanSplit(b, [ch]);
  }

  lemma {:induction false} CleanOfAlphabet(s: string)
    requires forall i :: 0 <= i < |s| ==> Base32.InAlphabet(s[i])
    ensures Clean(s) == s
  {
    if s != [] {
      CleanOfAlphabet(s[1..]);
      assert Base32.InAlphabet(s[0]) && s == [s[0]] + s[1..];
    }
  }

  lemma CleanOfFormat(code: bytes)
    ensures Clean(FormatText(code)) == Base32.Encode(code)
  {
    var s := Base32.Encode(code);
    Base32.EncodeShape(code);
    CleanOfAlphabet(s);
    CleanGrouped(s, 4, |s|);
    assert s[..|s|] == s;
  }

  // A printed 32-byte code has 64 characters: a hyphen at every fifth place, and the
  // 52 symbols in order everywhere else.
  lemma PrintedCode(code: bytes)
    requires |code| == 32
    ensures var t := FormatText(code);
      |t| == 64 && |Base32.Encode(code)| == 52
      && forall k :: 0 <= k < 64 ==> t[k] == if k % 5 == 4 then '-' else Base32.Encode(code)[k - k / 5]
  {
    var s := Base32.Encode(code);
    Base32.EncodeShape(code);
    AlphabetIsAscii(s);
    OffsetOfAscii(s, |s|);
    GroupedByFour(s, |s|);
    hide Grouped, Offset, Base32.Encode;
    assert |s| == 52;
  }

  lemma AlphabetIsAscii(s: string)
    requires forall i :: 0 <= i < |s| ==> Base32.InAlphabet(s[i])
    ensures forall i :: 0 <= i < |s| ==> s[i] < '\U{0080}'
  {
  }

  // What is kept of a single character.
  lemma CleanOne(ch: char)
    ensures Clean([ch]) ==
      if 'A' <= ch <= 'Z' || '0' <= ch <= '9' then [ch]
      else if 'a' <= ch <= 'z' then [(ch as int - 32) as char]
      else []
  {
    assert [ch][1..] == [];
  }

  // ---- re-entry by hand ----

  // What a person may do to a printed code while typing it in.
  datatype Edit =
    | SwitchCase(at: nat)
    | Insert(at: nat, ch: char)   // any character that is no letter and no digit
    | Drop(at: nat)               // any such character

  predicate Harmless(s: string, e: Edit) {
    match e
    case SwitchCase(at) => at < |s|
    case Insert(at, ch) => at <= |s| && Junk(ch)
    case Drop(at) => at < |s| && Junk(s[at])
  }

  function OtherCase(ch: char): char {
    if 'a' <= ch <= 'z' then ch - 'a' + 'A' else if 'A' <= ch <= 'Z' then ch - 'A' + 'a' else ch
  }

  function Apply(s: string, e: Edit): string
    requires Harmless(s, e)
  {
    match e
    case SwitchCase(at) => s[..at] + [OtherCase(s[at])] + s[at + 1..]
    case Insert(at, ch) => s[..at] + [ch] + s[at..]
    case Drop(at) => s[..at] + s[at + 1..]
  }

  // t comes from s by the edits, one after the other.
  predicate Reentry(s: string, edits: seq<Edit>, t: string)
    decreases |edits|
  {
    if edits == [] then s == t
    else Harmless(s, edits[0]) && Reentry(Apply(s, edits[0]), edits[1..], t)
  }

  // Parts that clean alike can replace each other.
  lemma CleanReplace(a: string, x: string, y: string, b: string)
    requires Clean(x) == Clean(y)
    ensures Clean(a + x + b) == Clean(a + y + b)
  {
    CleanSplit(a + x, b);
    CleanSplit(a, x);
    CleanSplit(a + y, b);
    CleanSplit(a, y);
  }

  lemma CleanOfEdit(s: string, e: Edit)
    requires Harmless(s, e)
    ensures Clean(Apply(s, e)) == Clean(s)
  {
    var a := s[..e.at];
    match e {
      case Insert(at, ch) =>
        assert Clean([ch]) == Clean([]);
        CleanReplace(a, [], [ch], s[at..]);
        assert a + [] + s[at..] == s;
      case Drop(at) =>
        assert Clean([s[at]]) == Clean([]);
        CleanReplace(a, [s[at]], [], s[at + 1..]);
        assert a + [s[at]] + s[at + 1..] == s;
        assert a + [] + s[at + 1..] == a + s[at + 1..];
      case SwitchCase(at) =>
        assert Clean([OtherCase(s[at])]) == Clean([s[at]]);
        CleanReplace(a, [s[at]], [OtherCase(s[at])], s[at + 1..]);
        assert a + [s[at]] + s[at + 1..] == s;
    }
  }

  lemma {:induction false} CleanOfReentry(s: string, edits: seq<Edit>, t: string)
    requires Reentry(s, edits, t)
    ensures Clean(t) == Clean(s)
    decreases |edits|
  {
    if edits != [] {
      CleanOfEdit(s, edits[0]);
      CleanOfReentry(Apply(s, edits[0]), edits[1..], t);
    }
  }

  // Every 32-byte code is recovered from its printed form, however the letter
  // case was changed and separators were inserted or left out while typing it.
  lemma ReentryRecovers(code: bytes, edits: seq<Edit>, t: string)
    requires |code| == Protocol.RECOVERY_CODE_LEN
    requires Reentry(FormatText(code), edits, t)
    ensures ParseText(t) == Success(code)
  {
    CleanOfReentry(FormatText(code), edits, t);
    CleanOfFormat(code);
    Base32.DecodeEncode(code);
  }

  // Exactly the entries that clean to 52 symbols of the alphabet are accepted.
  lemma AcceptedEntries(s: string)
    ensures ParseText(s).Success? <==> |Clean(s)| == 52 && forall i :: 0 <= i < 52 ==> Base32.InAlphabet(Clean(s)[i])
    ensures ParseText(s).Failure? ==> ParseText(s).error == InvalidRecoveryCode
  {
    var t := Clean(s);
    Base32.UnspellShape(t);
    if Base32.Unspell(t).Success? {
      Base32.WholeBytesLength(Base32.BitsOfSymbols(Base32.Unspell(t).value));
    }
  }

  predicate BadDigit(ch: char) {
    ch == '0' || ch == '1' || ch == '8' || ch == '9'
  }

  // The library cannot decode an entry exactly when it has a digit outside the alphabet.
  lemma {:induction false} UndecodableEntries(s: string)
    ensures Base32.Decode(Clean(s)).Failure? <==>
      exists i :: 0 <= i < |s| && BadDigit(s[i])
  {
    if s != [] {
      UndecodableEntries(s[1..]);
      assert Clean(s) == if Junk(s[0]) then Clean(s[1..]) else [Upper(s[0])] + Clean(s[1..]);
      assert !Junk(s[0]) ==> Clean(s)[1..] == Clean(s[1..]);
      assert !Junk(s[0]) ==> (Base32.InAlphabet(Upper(s[0])) <==> !BadDigit(s[0]));
      assert forall i :: 0 < i < |s| ==> s[i] == s[1..][i - 1];
      assert forall i :: 0 <= i < |s[1..]| ==> s[1..][i] == s[i + 1];
    }
  }

  // ---- with effects ----

  method FormatRecoveryCode(code: SecureBytes) returns (r: Result<string>)
    requires code.Valid()
    ensures r == match code.Contents() { case None => Failure(Destroyed) case Some(b) => Success(FormatText(b)) }
  {
    var b :- code.Borrow();
    var text := GroupString(Base32.Encode(b[..]), 4);
    return Success(text);
  }

  // ParseRecoveryCode: what was decoded is zeroed, except when decoding fails: then
  // `partial`, the output the library returns beside its error, is `left` behind.
  method ParseRecoveryCode(w: World, s: string, partial: string -> bytes)
    returns (code: Result<SecureBytes>, ghost left: array?<byte>)
    requires w.Valid()
    modifies w`tick, w`hits, w`fault, w`live, w`residue
    ensures w.Valid() && Hands(w, code, ParseText(s))
    ensures left == null <==> Base32.Decode(Clean(s)).Success?
    ensures left != null ==> fresh(left) && left[..] == partial(Clean(s))
    ensures w.residue == if left == null then old(w.residue) else old(w.residue) + {left}
  {
    hide Failing, Clean, Base32.Decode;
    left := null;
    var cleaned := Clean(s);
    var decoded := Base32.Decode(cleaned);
    var raw := RawSecret(w, match decoded { case Success(b) => b case Failure(_) => partial(cleaned) });
    if decoded.Failure? { return Failure(decoded.error), raw; }
    if raw.Length != Protocol.RECOVERY_CODE_LEN {
      code := Failure(InvalidRecoveryCode);
    } else {
      code := SecureBytes.New(w, raw);
    }
    Zero(w, raw);
  }

  // GenerateRecoveryCode
  method GenerateRecoveryCode(w: World) returns (code: Result<SecureBytes>)
    requires w.Valid()
    modifies w`tick, w`hits, w`fault, w`drawn, w`live, w`residue
    ensures w.Valid()
    ensures Delivers(w, code, Success(Draw(w.coins, old(w.drawn), Protocol.RECOVERY_CODE_LEN)))
  {
    var random :- w.RandBytes(Protocol.RECOVERY_CODE_LEN);
    var raw := RawSecret(w, random);
    code := SecureBytes.New(w, raw);
    Zero(w, raw);
  }

  function WantDek(size: int, coins: nat -> byte, at: nat): Result<bytes> {
    if size <= 0 || size > MAX_DEK_LEN then Failure(DekSize) else Success(Draw(coins, at, size))
  }

  // GenerateDEK: random bytes are read straight into the container, which is
  // destroyed again if that fails.
  method GenerateDek(w: World, size: int) returns (dek: Result<SecureBytes>)
    requires w.Valid()
    modifies w`tick, w`hits, w`fault, w`drawn, w`live, w`unlocks
    ensures w.Valid()
    ensures Delivers(w, dek, WantDek(size, w.coins, old(w.drawn)))
  {
    if size <= 0 || size > MAX_DEK_LEN { return Failure(DekSize); }
    dek := SecureBytes.NewZero(w, size);
    if dek.Failure? { return; }
    var random := w.RandBytes(size);
    if random.Failure? {
      var _ := dek.value.Destroy(w);
      return Failure(random.error);
    }
    var b := dek.value.buf;
    for i := 0 to size
      modifies b
      invariant b[..i] == random.value[..i]
    {
      b[i] := random.value[i];
    }
    assert b[..] == random.value;
  }

  // A data key of 1 to 240 bytes is that many random bytes; other sizes are refused.
  lemma DekExactly(size: int, coins: nat -> byte, at: nat)
    ensures !(1 <= size <= 240) ==> WantDek(size, coins, at) == Failure(DekSize)
    ensures 1 <= size <= 240 ==>
      WantDek(size, coins, at).Success? && |WantDek(size, coins, at).value| == size
      && forall i :: 0 <= i < size ==> WantDek(size, coins, at).value[i] == coins(at + i)
  {
  }
}
