/** The device behind the ykman tool: reading the 20-byte response out of its output,
    and what is left of that output (transport/ykman.go). The output is taken as
    characters, so that Unicode white space separates too. */
module YkmanOutput {
  import opened Bytes
  import opened Errors
  import opened Effects
  import opened SecureBytes
  import Protocol

  const RESPONSE_HEX_LEN: nat := 40

  // unicode.IsSpace
  predicate IsSpace(ch: char) {
    '\t' <= ch <= '\r' || ch == ' ' || ch == '\U{0085}' || ch == '\U{00A0}' || ch == '\U{1680}'
    || '\U{2000}' <= ch <= '\U{200A}' || ch == '\U{2028}' || ch == '\U{2029}' || ch == '\U{202F}'
    || ch == '\U{205F}' || ch == '\U{3000}'
  }

  predicate IsHexDigit(ch: char) {
    '0' <= ch <= '9' || 'a' <= ch <= 'f' || 'A' <= ch <= 'F'
  }

  predicate IsHex40(s: string) {
    |s| == RESPONSE_HEX_LEN && forall i :: 0 <= i < |s| ==> IsHexDigit(s[i])
  }

  function LowerChar(ch: char): char {
    if 'A' <= ch <= 'Z' then ch - 'A' + 'a' else ch
  }

  function Lower(s: string): (t: string)
    ensures |t| == |s|
  {
    seq(|s|, i requires 0 <= i < |s| => LowerChar(s[i]))
  }

  function TrimLeft(s: string): string {
    if s == [] || !IsSpace(s[0]) then s else TrimLeft(s[1..])
  }

  function TrimRight(s: string): string {
    if s == [] || !IsSpace(s[|s| - 1]) then s else TrimRight(s[..|s| - 1])
  }

  function Trim(s: string): string {
    TrimRight(TrimLeft(s))
  }

  // The length of the token at the front.
  function TokenLen(s: string): (n: nat)
    ensures n <= |s|
    ensures forall i :: 0 <= i < n ==> !IsSpace(s[i])
    ensures n < |s| ==> IsSpace(s[n])
  {
    if s == [] || IsSpace(s[0]) then 0 else 1 + TokenLen(s[1..])
  }

  // bytes.Fields: the maximal runs of characters that are no white space.
  function Fields(s: string): seq<string> {
    if s == [] then []
    else if IsSpace(s[0]) then Fields(s[1..])
    else
      var n := TokenLen(s);
      [s[..n]] + Fields(s[n..])
  }

  // The tokens that look like a response.
  function HexTokens(tokens: seq<string>): seq<string> {
    if tokens == [] then []
    else HexTokens(tokens[..|tokens| - 1]) + if IsHex40(tokens[|tokens| - 1]) then [tokens[|tokens| - 1]] else []
  }

  // extractResponseHex succeeds exactly when one single token is a response; the
  // trimmed fast path never disagrees with the scan. With more than one such token it
  // gives up, and the copy it made of the first is `left` behind.
  method ExtractResponseHex(w: World, stdout: array<char>) returns (out: array?<char>, ghost left: array?<char>)
    modifies w`residue
    ensures var hits := HexTokens(Fields(stdout[..]));
      (out != null <==> |hits| == 1) && (left != null <==> |hits| > 1)
      && (out != null ==> fresh(out) && out[..] == Lower(hits[0]))
      && (left != null ==> fresh(left) && left[..] == Lower(hits[0]))
    ensures w.residue == old(w.residue) + (if out == null then {} else {out}) + (if left == null then {} else {left})
  {
    hide HexTokens, Fields, Trim, IsHex40, Lower;
    var trimmed := Trim(stdout[..]);
    if IsHex40(trimmed) {
      FastPath(stdout[..]);
      out := RawSecret(w, Lower(trimmed));
      return out, null;
    }
    out, left := null, null;
    var tokens := Fields(stdout[..]);
    NoHexTokens(tokens);
    for i := 0 to |tokens|
      invariant left == null && stdout[..] == old(stdout[..])
      invariant var hits := HexTokens(tokens[..i]);
        |hits| <= 1 && (out != null <==> |hits| == 1) && (out != null ==> fresh(out) && out[..] == Lower(hits[0]))
      invariant w.residue == old(w.residue) + if out == null then {} else {out}
    {
      NextHexToken(tokens, i);
      if !IsHex40(tokens[i]) { continue; }
      if out != null {
        HexTokensGrow(tokens, i + 1);
        return null, out;
      }
      out := RawSecret(w, Lower(tokens[i]));
    }
    assert tokens[..|tokens|] == tokens;
  }

  lemma NoHexTokens(tokens: seq<string>)
    ensures HexTokens(tokens[..0]) == []
  {
  }

  lemma NextHexToken(tokens: seq<string>, i: nat)
    requires i < |tokens|
    ensures HexTokens(tokens[..i + 1]) == HexTokens(tokens[..i]) + if IsHex40(tokens[i]) then [tokens[i]] else []
  {
    assert tokens[..i + 1][..i] == tokens[..i];
  }

  lemma {:induction false} HexTokensGrow(tokens: seq<string>, i: nat)
    requires i <= |tokens|
    ensures HexTokens(tokens[..i]) <= HexTokens(tokens)
    decreases |tokens|
  {
    if i < |tokens| {
      assert tokens[..|tokens| - 1][..i] == tokens[..i];
      HexTokensGrow(tokens[..|tokens| - 1], i);
    } else {
      assert tokens[..i] == tokens;
    }
  }

  // Not empty, and no white space in it.
  predicate Solid(t: string) {
    t != [] && forall i :: 0 <= i < |t| ==> !IsSpace(t[i])
  }

  // White space, or the end of the text, at the border.
  predicate Borders(a: string, b: string) {
    (a != [] ==> IsSpace(a[|a| - 1])) && (b != [] ==> IsSpace(b[0]))
  }

  // A text that begins with a token.
  lemma FieldsFrom(t: string, b: string)
    requires Solid(t) && Borders([], b)
    ensures Fields(t + b) == [t] + Fields(b)
  {
    var s := t + b;
    assert s[..|t|] == t && s[|t|..] == b && s[0] == t[0];
    assert forall i :: 0 <= i < |t| ==> t[i] == s[i];
    assert b != [] ==> s[|t|] == b[0];
    hide IsSpace;
    TokenLenOfPrefix(t, s);
  }

  // The tokens of a text are those before, at and behind any stretch without white space
  // that white space, or the end, bounds on both sides.
  lemma {:induction false} FieldsSplit(a: string, t: string, b: string)
    requires Solid(t) && Borders(a, b)
    ensures Fields(a + t + b) == Fields(a) + [t] + Fields(b)
    decreases |a|
  {
    hide Fields, Solid, TokenLen;
    if a == [] {
      FieldsFrom(t, b);
      FieldsOfNothing();
      assert a + t + b == t + b;
    } else {
      var n := if IsSpace(a[0]) then 1 else TokenLen(a);
      if !IsSpace(a[0]) { FirstTokenEnds(a); }
      var u, rest := a[..n], a[n..];
      assert Borders(rest, b) by { assert rest != [] ==> rest[|rest| - 1] == a[|a| - 1]; }
      FieldsSplit(rest, t, b);
      assert a == u + rest && a + t + b == u + (rest + t + b);
      if IsSpace(a[0]) {
        assert u == [u[0]];
        FieldsBehindSpace(u[0], rest);
        FieldsBehindSpace(u[0], rest + t + b);
      } else {
        StillBorders(rest, t, b);
        FieldsFrom(u, rest);
        FieldsFrom(u, rest + t + b);
        Assoc([u], Fields(rest), [t]);
        Assoc([u], Fields(rest) + [t], Fields(b));
      }
    }
  }

  lemma FieldsOfNothing()
    ensures Fields([]) == []
  {
  }

  lemma FieldsBehindSpace(ch: char, s: string)
    requires IsSpace(ch)
    ensures Fields([ch] + s) == Fields(s)
  {
    assert ([ch] + s)[1..] == s;
  }

  lemma StillBorders(rest: string, t: string, b: string)
    requires rest != [] && IsSpace(rest[0])
    ensures Borders([], rest) && Borders([], rest + t + b)
  {
    assert (rest + t + b)[0] == rest[0];
  }

  lemma FirstTokenEnds(a: string)
    requires a != [] && !IsSpace(a[0]) && IsSpace(a[|a| - 1])
    ensures 0 < TokenLen(a) < |a| && IsSpace(a[TokenLen(a)]) && Solid(a[..TokenLen(a)])
  {
    hide IsSpace;
  }

  lemma {:induction false} FieldsOfLeftTrimmed(s: string)
    ensures Fields(TrimLeft(s)) == Fields(s)
  {
    if s != [] && IsSpace(s[0]) { FieldsOfLeftTrimmed(s[1..]); }
  }

  // White space at the end is no token.
  lemma {:induction false} FieldsOfSpaces(s: string)
    requires forall i :: 0 <= i < |s| ==> IsSpace(s[i])
    ensures Fields(s) == []
  {
    if s != [] { FieldsOfSpaces(s[1..]); }
  }

  lemma {:induction false} RightTrimSplits(s: string)
    ensures TrimRight(s) <= s
    ensures forall i :: |TrimRight(s)| <= i < |s| ==> IsSpace(s[i])
  {
    if s != [] && IsSpace(s[|s| - 1]) { RightTrimSplits(s[..|s| - 1]); }
  }

  lemma {:induction false} TokenLenOfPrefix(t: string, s: string)
    requires t <= s && (forall i :: 0 <= i < |t| ==> !IsSpace(t[i])) && (|t| < |s| ==> IsSpace(s[|t|]))
    ensures TokenLen(s) == |t|
  {
    if t != [] {
      assert s[0] == t[0];
      TokenLenOfPrefix(t[1..], s[1..]);
    } else if s != [] {
      assert s[|t|] == s[0];
    }
  }

  // Output that is one response inside white space has that response as its only token.
  lemma FastPath(s: string)
    requires IsHex40(Trim(s))
    ensures Fields(s) == [Trim(s)] && HexTokens(Fields(s)) == [Trim(s)]
  {
    var l := TrimLeft(s);
    var t := TrimRight(l);
    FieldsOfLeftTrimmed(s);
    RightTrimSplits(l);
    assert forall i :: 0 <= i < |t| ==> IsHexDigit(t[i]) && !IsSpace(t[i]);
    TokenLenOfPrefix(t, l);
    assert l[0] == t[0];
    FieldsOfSpaces(l[|t|..]);
    assert l[..|t|] == t && TokenLen(l) == |t|;
    assert Fields(l) == [t] + Fields(l[|t|..]);
    assert Fields(l) == [t];
    assert [t][..0] == [];
  }

  // ---- decoding ----

  predicate IsLowerHex(ch: char) {
    '0' <= ch <= '9' || 'a' <= ch <= 'f'
  }

  function Nibble(ch: char): (v: nat)
    requires IsHexDigit(ch)
    ensures v < 16
  {
    if ch <= '9' then (ch - '0') as nat
    else if ch <= 'F' then (ch - 'A') as nat + 10
    else (ch - 'a') as nat + 10
  }

  // The 20 bytes that 40 hex digits spell.
  function Unhex(t: string): (b: bytes)
    requires IsHex40(t)
    ensures |b| == 20
  {
    seq(20, i requires 0 <= i < 20 => (16 * Nibble(t[2 * i]) + Nibble(t[2 * i + 1])) as byte)
  }

  predicate IsLowerHex40(text: string) {
    |text| == RESPONSE_HEX_LEN && forall i :: 0 <= i < |text| ==> IsLowerHex(text[i])
  }

  // decodeResponse
  method DecodeResponse(text: string) returns (r: Result<array<byte>>)
    ensures IsLowerHex40(text) ==> r.Success? && fresh(r.value) && IsHex40(text) && r.value[..] == Unhex(text)
    ensures !IsLowerHex40(text) ==> r == Failure(BadResponse)
  {
    if |text| != RESPONSE_HEX_LEN { return Failure(BadResponse); }
    for i := 0 to |text|
      invariant forall j :: 0 <= j < i ==> IsLowerHex(text[j])
    {
      if !IsLowerHex(text[i]) { return Failure(BadResponse); }
    }
    var resp := new byte[20];
    for i := 0 to 20
      invariant forall j :: 0 <= j < i ==> resp[j] as nat == 16 * Nibble(text[2 * j]) + Nibble(text[2 * j + 1])
    {
      resp[i] := (16 * Nibble(text[2 * i]) + Nibble(text[2 * i + 1])) as byte;
    }
    assert resp[..] == Unhex(text);
    return Success(resp);
  }

  // Whatever is extracted can be decoded: it is 40 lower-case hex digits with the
  // same value as the token that was found.
  lemma LowerIsDecodable(t: string)
    requires IsHex40(t)
    ensures |Lower(t)| == RESPONSE_HEX_LEN
    ensures forall i :: 0 <= i < |t| ==> IsLowerHex(Lower(t)[i]) && Nibble(Lower(t)[i]) == Nibble(t[i])
  {
    forall i | 0 <= i < |t| ensures IsLowerHex(Lower(t)[i]) && Nibble(Lower(t)[i]) == Nibble(t[i]) {
      assert IsHexDigit(t[i]);
    }
  }

  function HexChar(v: nat): char
    requires v < 16
  {
    if v < 10 then '0' + v as char else 'a' + (v - 10) as char
  }

  // The bytes spelled in lower-case hex digits.
  function Hex(b: bytes): (t: string)
    ensures |t| == 2 * |b|
  {
    seq(2 * |b|, i requires 0 <= i < 2 * |b| =>
      HexChar(if i % 2 == 0 then b[i / 2] as nat / 16 else b[i / 2] as nat % 16))
  }

  lemma HexCharNibble(v: nat, ch: char)
    requires v < 16
    ensures IsLowerHex(HexChar(v)) && Nibble(HexChar(v)) == v
    ensures IsLowerHex(ch) && Nibble(ch) == v ==> ch == HexChar(v)
  {
  }

  lemma NibblesOfByte(t: string, i: nat)
    requires IsHex40(t) && i < 20
    ensures Unhex(t)[i] as nat / 16 == Nibble(t[2 * i]) && Unhex(t)[i] as nat % 16 == Nibble(t[2 * i + 1])
  {
  }

  // A token in lower case spells exactly the bytes it decodes to.
  lemma UnhexExactly(t: string, b: bytes)
    requires IsHex40(t)
    ensures Unhex(t) == b <==> |b| == 20 && Lower(t) == Hex(b)
  {
    hide Unhex, HexChar, Nibble;
    LowerIsDecodable(t);
    if Unhex(t) == b {
      forall k | 0 <= k < 40 ensures Lower(t)[k] == Hex(b)[k] {
        NibblesOfByte(t, k / 2);
        HexCharNibble(Nibble(t[k]), Lower(t)[k]);
      }
    }
    if |b| == 20 && Lower(t) == Hex(b) {
      forall i | 0 <= i < 20 ensures Unhex(t)[i] == b[i] {
        NibblesOfByte(t, i);
        assert Lower(t)[2 * i] == Hex(b)[2 * i] && Lower(t)[2 * i + 1] == Hex(b)[2 * i + 1];
        HexCharNibble(b[i] as nat / 16, Lower(t)[2 * i]);
        HexCharNibble(b[i] as nat % 16, Lower(t)[2 * i + 1]);
      }
    }
  }

  // ---- the transport ----

  // What one run of the tool gives: its output, and its failure if it failed.
  datatype ToolRun = ToolRun(stdout: string, failure: Option<Error>)

  function Want(otpSlot: byte, run: ToolRun): Result<bytes> {
    if !Protocol.OtpSlotValid(otpSlot) then Failure(SlotNotConfigured)
    else if run.failure.Some? then Failure(run.failure.value)
    else
      var hits := HexTokens(Fields(run.stdout));
      if |hits| == 1 && IsHex40(hits[0]) then Success(Unhex(hits[0])) else Failure(BadResponse)
  }

  lemma {:induction false} HexTokensAreHex(tokens: seq<string>)
    ensures forall t :: t in HexTokens(tokens) ==> IsHex40(t)
  {
    if tokens != [] { HexTokensAreHex(tokens[..|tokens| - 1]); }
  }

  // A response is taken from the output exactly when one single token spells it, in
  // any letter case.
  lemma ResponseExactly(otpSlot: byte, stdout: string, b: bytes)
    requires Protocol.OtpSlotValid(otpSlot)
    ensures Want(otpSlot, ToolRun(stdout, None)) == Success(b) <==>
      |b| == 20 && |HexTokens(Fields(stdout))| == 1 && Lower(HexTokens(Fields(stdout))[0]) == Hex(b)
  {
    hide HexTokens, Fields, Unhex, Lower, Hex;
    HexTokensAreHex(Fields(stdout));
    var hits := HexTokens(Fields(stdout));
    if |hits| == 1 {
      assert hits[0] in hits;
      UnhexExactly(hits[0], b);
    }
  }

  lemma {:induction false} HexTokensSplit(a: seq<string>, b: seq<string>)
    ensures HexTokens(a + b) == HexTokens(a) + HexTokens(b)
  {
    if b == [] {
      assert a + b == a;
    } else {
      assert (a + b)[..|a + b| - 1] == a + b[..|b| - 1];
      HexTokensSplit(a, b[..|b| - 1]);
    }
  }

  lemma SpelledIsHex(t: string, b: bytes)
    requires |b| == 20 && Lower(t) == Hex(b)
    ensures IsHex40(t) && Solid(t)
  {
    hide HexChar, IsSpace;
    forall k | 0 <= k < |t| ensures IsHexDigit(t[k]) && !IsSpace(t[k]) {
      HexCharNibble(if k % 2 == 0 then b[k / 2] as nat / 16 else b[k / 2] as nat % 16, '0');
      assert Lower(t)[k] == Hex(b)[k];
      HexDigitsInAscii(t[k]);
    }
  }

  lemma HexDigitsInAscii(ch: char)
    ensures IsLowerHex(LowerChar(ch)) ==> IsHexDigit(ch)
    ensures IsHexDigit(ch) ==> !IsSpace(ch)
    ensures IsSpace(' ') && IsSpace('\t') && IsSpace('\n') && IsSpace('\r')
  {
  }

  lemma OneHexToken(t: string)
    requires IsHex40(t)
    ensures HexTokens([t]) == [t]
  {
    assert [t][..0] == [];
  }

  // The response in hex, in upper or lower case, amid white space and other tokens that
  // are no response: the transport takes it.
  lemma ResponseFound(otpSlot: byte, b: bytes, before: string, t: string, after: string)
    requires (otpSlot == 1 || otpSlot == 2) && |b| == 20 && Lower(t) == Hex(b)
    requires Borders(before, after) && HexTokens(Fields(before)) == [] && HexTokens(Fields(after)) == []
    ensures Want(otpSlot, ToolRun(before + t + after, None)) == Success(b)
  {
    hide HexTokens, Fields, Hex, Lower, Borders, IsHex40;
    SpelledIsHex(t, b);
    FieldsSplit(before, t, after);
    HexTokensSplit(Fields(before) + [t], Fields(after));
    HexTokensSplit(Fields(before), [t]);
    OneHexToken(t);
    assert [] + [t] + [] == [t];
    ResponseExactly(otpSlot, before + t + after, b);
  }

  // What the tool usually prints: the response and a line feed.
  lemma UsualOutput(otpSlot: byte, b: bytes)
    requires (otpSlot == 1 || otpSlot == 2) && |b| == 20
    ensures Want(otpSlot, ToolRun(Hex(b) + "\n", None)) == Success(b)
  {
    hide Hex, HexTokens, Want;
    LowerOfHex(b);
    HexDigitsInAscii('\n');
    assert "\n"[1..] == [];
    assert Fields([]) == [] && Fields("\n") == [] && HexTokens([]) == [] by { NoHexTokens([]); }
    ResponseFound(otpSlot, b, [], Hex(b), "\n");
    assert [] + Hex(b) + "\n" == Hex(b) + "\n";
  }

  lemma LowerOfHex(b: bytes)
    ensures Lower(Hex(b)) == Hex(b)
  {
    forall k | 0 <= k < 2 * |b| ensures LowerChar(Hex(b)[k]) == Hex(b)[k] {
      HexCharNibble(if k % 2 == 0 then b[k / 2] as nat / 16 else b[k / 2] as nat % 16, '0');
    }
  }

  // Why there is no response.
  lemma ResponseErrors(otpSlot: byte, run: ToolRun)
    ensures otpSlot != 1 && otpSlot != 2 ==> Want(otpSlot, run) == Failure(SlotNotConfigured)
    ensures (otpSlot == 1 || otpSlot == 2) && run.failure.Some? ==> Want(otpSlot, run) == Failure(run.failure.value)
    ensures (otpSlot == 1 || otpSlot == 2) && run.failure.None? && |HexTokens(Fields(run.stdout))| != 1 ==>
      Want(otpSlot, run) == Failure(BadResponse)
  {
    hide HexTokens, Fields;
  }

  method Wipe(w: World, raw: array<char>)
    modifies raw, w`residue
    ensures (forall i :: 0 <= i < raw.Length ==> raw[i] == '\0') && w.residue == old(w.residue) - {raw}
  {
    for i := 0 to raw.Length
      modifies raw
      invariant forall j :: 0 <= j < i ==> raw[j] == '\0'
    {
      raw[i] := '\0';
    }
    w.residue := w.residue - {raw};
  }

  // YkmanTransport.ChallengeResponse. Its buffers are zeroed, except for one that is
  // `left`: the whole output when the tool fails, and a copy of the first response
  // when the output holds more than one.
  method ChallengeResponse(w: World, otpSlot: byte, run: ToolRun)
    returns (yr: Result<SecureBytes>, ghost left: array?<char>)
    requires w.Valid()
    modifies w`tick, w`hits, w`fault, w`live, w`residue
    ensures w.Valid() && Hands(w, yr, Want(otpSlot, run))
    ensures left == null <==>
      !Protocol.OtpSlotValid(otpSlot) || (w.hits != old(w.hits) && w.fault == Cancelled)
      || (run.failure.None? && |HexTokens(Fields(run.stdout))| <= 1)
    ensures left != null ==>
      fresh(left)
      && left[..] == if run.failure.Some? then run.stdout else Lower(HexTokens(Fields(run.stdout))[0])
    ensures w.residue == if left == null then old(w.residue) else old(w.residue) + {left}
  {
    hide Failing, HexTokens, Fields, Lower, Unhex;
    left := null;
    if !Protocol.OtpSlotValid(otpSlot) { return Failure(SlotNotConfigured), null; }
    var alive := w.CtxErr();
    if alive.Failure? { return Failure(alive.error), null; }
    var stdout := RawSecret(w, run.stdout);
    if run.failure.Some? { return Failure(run.failure.value), stdout; }
    var out;
    out, left := ExtractResponseHex(w, stdout);
    Wipe(w, stdout);
    if out == null { return Failure(BadResponse), left; }
    HexTokensAreHex(Fields(run.stdout));
    yr := WrapResponse(w, out, HexTokens(Fields(run.stdout))[0]);
  }

  // From the digits to the container: digits and raw response are zeroed on every path.
  method WrapResponse(w: World, out: array<char>, ghost token: string) returns (yr: Result<SecureBytes>)
    requires w.Valid() && IsHex40(token) && out[..] == Lower(token)
    modifies w`tick, w`hits, w`fault, w`live, w`residue, out
    ensures w.Valid() && Hands(w, yr, Success(Unhex(token)))
    ensures w.residue == old(w.residue) - {out}
  {
    hide Failing, Nibble;
    LowerIsDecodable(token);
    var resp := DecodeResponse(out[..]);
    assert Unhex(Lower(token)) == Unhex(token);
    w.residue := w.residue + {resp.value};
    yr := SecureBytes.New(w, resp.value);
    Zero(w, resp.value);
    Wipe(w, out);
  }
}
