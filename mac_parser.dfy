/** `parse_mac`: a MAC address in text, six base-16 bytes separated by ':',
    becomes its six bytes. The text is split on ':', every piece goes through
    `u8::from_str_radix(_, 16)` and the bytes are kept only when there are six.
    A piece that does not parse is not an error value: the program aborts
    (a panic through `expect`) on the first such piece, before the count is
    looked at. */
module MacParser {
  import opened Hex
  import Text

  const Separator: char := ':'

  /** The length error `parse_mac` returns. */
  const IllegalLength: string := "Illegal MAC address length."

  /** What a call of `parse_mac` comes to: the bytes, the returned error, or an
      abort on the token that did not parse. */
  datatype Parsed = Ok(mac: seq<Byte>) | Err(message: string) | Abort(token: string)

  /** The tokens `parse_mac` reads. */
  function Tokens(text: string): seq<string>
  {
    Text.Split(text, Separator)
  }

  ghost predicate AllValid(tokens: seq<string>)
  {
    forall i :: 0 <= i < |tokens| ==> ValidToken(tokens[i])
  }

  /** Position of the first token `from_str_radix` rejects, or |tokens| when there is none. */
  function FirstRejected(tokens: seq<string>): (k: nat)
    ensures k <= |tokens|
    ensures forall j :: 0 <= j < k ==> FromStrRadix16(tokens[j]).Some?
    ensures k < |tokens| ==> FromStrRadix16(tokens[k]).None?
  {
    if tokens == [] then 0
    else if FromStrRadix16(tokens[0]).None? then 0
    else 1 + FirstRejected(tokens[1..])
  }

  /** The `map(..).collect()` over the tokens: every token parsed in order, the
      first one that fails aborting the rest. Never the length error. */
  function CollectBytes(tokens: seq<string>): (r: Parsed)
    ensures !r.Err?
    ensures r.Ok? <==> FirstRejected(tokens) == |tokens|
    ensures r.Ok? ==> |r.mac| == |tokens|
    ensures r.Ok? ==> forall i :: 0 <= i < |tokens| ==> FromStrRadix16(tokens[i]) == Some(r.mac[i])
    ensures r.Abort? ==> r.token == tokens[FirstRejected(tokens)]
  {
    if tokens == [] then Ok([])
    else
      match FromStrRadix16(tokens[0])
      case None => Abort(tokens[0])
      case Some(b) =>
        var rest := CollectBytes(tokens[1..]);
        if rest.Ok? then Ok([b] + rest.mac) else rest
  }

  /** Every token is accepted exactly when none is rejected. */
  lemma AllValidIff(tokens: seq<string>)
    ensures AllValid(tokens) <==> FirstRejected(tokens) == |tokens|
    ensures forall i :: 0 <= i < |tokens| ==>
      (FromStrRadix16(tokens[i]).Some? <==> ValidToken(tokens[i])) &&
      (FromStrRadix16(tokens[i]).Some? ==> FromStrRadix16(tokens[i]).value == HexValue(Unsigned(tokens[i])))
  {
    forall i | 0 <= i < |tokens|
      ensures FromStrRadix16(tokens[i]).Some? <==> ValidToken(tokens[i])
      ensures FromStrRadix16(tokens[i]).Some? ==> FromStrRadix16(tokens[i]).value == HexValue(Unsigned(tokens[i]))
    {
      FromStrRadixMeaning(tokens[i]);
    }
  }

  /** `parse_mac(text)`, stated in terms of the per-token parse; `ParseMacMeaning`
      restates it with the declarative token grammar. */
  function ParseMac(text: string): (r: Parsed)
    ensures r.Ok? <==> |Tokens(text)| == 6 && FirstRejected(Tokens(text)) == 6
    ensures r.Ok? ==> |r.mac| == 6
    ensures r.Ok? ==> forall i :: 0 <= i < 6 ==> FromStrRadix16(Tokens(text)[i]) == Some(r.mac[i])
    ensures r.Err? <==> |Tokens(text)| != 6 && FirstRejected(Tokens(text)) == |Tokens(text)|
    ensures r.Err? ==> r.message == IllegalLength
    ensures r.Abort? <==> FirstRejected(Tokens(text)) < |Tokens(text)|
    ensures r.Abort? ==> r.token == Tokens(text)[FirstRejected(Tokens(text))]
  {
    var collected := CollectBytes(Tokens(text));
    if !collected.Ok? then collected
    else if |collected.mac| == 6 then collected
    else Err(IllegalLength)
  }

  /** What `parse_mac` does, in terms of the token grammar: six tokens, all
      accepted, give their values in order; all accepted but not six give the
      length error; otherwise it aborts on the first token not accepted. */
  lemma ParseMacMeaning(text: string)
    ensures ParseMac(text).Ok? <==> |Tokens(text)| == 6 && AllValid(Tokens(text))
    ensures ParseMac(text).Ok? ==>
      forall i :: 0 <= i < 6 ==> ParseMac(text).mac[i] == HexValue(Unsigned(Tokens(text)[i]))
    ensures ParseMac(text).Err? <==> |Tokens(text)| != 6 && AllValid(Tokens(text))
    ensures ParseMac(text).Abort? <==> !AllValid(Tokens(text))
    ensures ParseMac(text).Abort? ==>
      exists k :: 0 <= k < |Tokens(text)| && ParseMac(text).token == Tokens(text)[k] &&
        !ValidToken(Tokens(text)[k]) && forall j :: 0 <= j < k ==> ValidToken(Tokens(text)[j])
  {
    var tokens := Tokens(text);
    AllValidIff(tokens);
    var r := ParseMac(text);
    if r.Abort? {
      var k := FirstRejected(tokens);
      assert r.token == tokens[k] && !ValidToken(tokens[k]);
    }
  }

  /** Bytes written as text `parse_mac` reads: two upper-case hex digits each, ':' between. */
  function FormatMac(bytes: seq<Byte>): string
  {
    Text.Join(FormatTokens(bytes), Separator)
  }

  function FormatTokens(bytes: seq<Byte>): (tokens: seq<string>)
    ensures |tokens| == |bytes|
    ensures forall i :: 0 <= i < |bytes| ==> tokens[i] == FormatByte(bytes[i])
  {
    if bytes == [] then [] else [FormatByte(bytes[0])] + FormatTokens(bytes[1..])
  }

  /** Reading formatted bytes back: six bytes come back unchanged; any other
      non-zero number of them meets the length error, never an abort. */
  lemma ParseFormat(bytes: seq<Byte>)
    requires |bytes| >= 1
    ensures ParseMac(FormatMac(bytes)) == if |bytes| == 6 then Ok(bytes) else Err(IllegalLength)
  {
    var tokens := FormatTokens(bytes);
    forall i | 0 <= i < |tokens| ensures Separator !in tokens[i] {
      assert AllHex(tokens[i]);
      assert !IsHexDigit(Separator);
    }
    Text.SplitJoin(tokens, Separator);
    assert Tokens(FormatMac(bytes)) == tokens;
    forall i | 0 <= i < |tokens| ensures FromStrRadix16(tokens[i]) == Some(bytes[i]) {
      FormatByteParses(bytes[i]);
    }
    CollectParsed(tokens, bytes);
  }

  /** The tokens of text written as the given pieces with ':' between them. */
  lemma TokensOfJoin(pieces: seq<string>, text: string)
    requires |pieces| >= 1 && text == Text.Join(pieces, Separator)
    requires forall i :: 0 <= i < |pieces| ==> Separator !in pieces[i]
    ensures Tokens(text) == pieces
  {
    Text.SplitJoin(pieces, Separator);
  }

  /** Tokens that each parse to the byte at the same position collect to those bytes. */
  lemma {:induction false} CollectParsed(tokens: seq<string>, bytes: seq<Byte>)
    requires |tokens| == |bytes|
    requires forall i :: 0 <= i < |tokens| ==> FromStrRadix16(tokens[i]) == Some(bytes[i])
    ensures CollectBytes(tokens) == Ok(bytes)
  {
    if tokens != [] {
      CollectParsed(tokens[1..], bytes[1..]);
      assert bytes == [bytes[0]] + bytes[1..];
    }
  }

  /** Collecting stops at the first token that does not parse. */
  lemma {:induction false} CollectStops(tokens: seq<string>, k: nat)
    requires k < |tokens| && FromStrRadix16(tokens[k]) == None
    requires forall j :: 0 <= j < k ==> FromStrRadix16(tokens[j]).Some?
    ensures CollectBytes(tokens) == Abort(tokens[k])
  {
    if k > 0 {
      CollectStops(tokens[1..], k - 1);
    }
  }

  /** `parse_mac` on text written as tokens that all parse. */
  lemma ParseJoinedBytes(text: string, tokens: seq<string>, bytes: seq<Byte>)
    requires |tokens| >= 1 && text == Text.Join(tokens, Separator)
    requires forall i :: 0 <= i < |tokens| ==> Separator !in tokens[i]
    requires |tokens| == |bytes|
    requires forall i :: 0 <= i < |tokens| ==> FromStrRadix16(tokens[i]) == Some(bytes[i])
    ensures ParseMac(text) == if |tokens| == 6 then Ok(bytes) else Err(IllegalLength)
  {
    TokensOfJoin(tokens, text);
    CollectParsed(tokens, bytes);
  }

  /** `parse_mac` on text written as tokens of which token k is the first that does not parse. */
  lemma ParseJoinedAbort(text: string, tokens: seq<string>, k: nat)
    requires |tokens| >= 1 && text == Text.Join(tokens, Separator)
    requires forall i :: 0 <= i < |tokens| ==> Separator !in tokens[i]
    requires k < |tokens| && FromStrRadix16(tokens[k]) == None
    requires forall j :: 0 <= j < k ==> FromStrRadix16(tokens[j]).Some?
    ensures ParseMac(text) == Abort(tokens[k])
  {
    TokensOfJoin(tokens, text);
    CollectStops(tokens, k);
  }

  /** The example in the documentation of `parse_mac`. */
  lemma ParseDocExample()
    ensures ParseMac("AA:FF:B0:12:34:56") == Ok([0xAA, 0xFF, 0xB0, 0x12, 0x34, 0x56])
  {
    var tokens := ["AA", "FF", "B0", "12", "34", "56"];
    var bytes := [0xAA, 0xFF, 0xB0, 0x12, 0x34, 0x56];
    DocExampleText();
    DocExampleTokens(tokens, bytes);
    ParseJoinedBytes("AA:FF:B0:12:34:56", tokens, bytes);
  }

  lemma DocExampleText()
    ensures Text.Join(["AA", "FF", "B0", "12", "34", "56"], Separator) == "AA:FF:B0:12:34:56"
  {
  }

  lemma DocExampleTokens(tokens: seq<string>, bytes: seq<Byte>)
    requires tokens == ["AA", "FF", "B0", "12", "34", "56"]
    requires bytes == [0xAA, 0xFF, 0xB0, 0x12, 0x34, 0x56]
    ensures forall i :: 0 <= i < |tokens| ==> FromStrRadix16(tokens[i]) == Some(bytes[i])
  {
    assert FromStrRadix16("AA") == Some(0xAA) && FromStrRadix16("FF") == Some(0xFF);
    assert FromStrRadix16("B0") == Some(0xB0) && FromStrRadix16("12") == Some(0x12);
    assert FromStrRadix16("34") == Some(0x34) && FromStrRadix16("56") == Some(0x56);
  }

  lemma ParseAllOnes()
    ensures ParseMac("FF:FF:FF:FF:FF:FF") == Ok([255, 255, 255, 255, 255, 255])
  {
    ParseJoinedBytes("FF:FF:FF:FF:FF:FF", ["FF", "FF", "FF", "FF", "FF", "FF"],
      [255, 255, 255, 255, 255, 255]);
  }

  lemma ParseAllZeros()
    ensures ParseMac("00:00:00:00:00:00") == Ok([0, 0, 0, 0, 0, 0])
  {
    ParseJoinedBytes("00:00:00:00:00:00", ["00", "00", "00", "00", "00", "00"], [0, 0, 0, 0, 0, 0]);
  }

  /** Three well-formed groups: the length error. */
  lemma ParseTooFew()
    ensures ParseMac("AA:BB:CC") == Err(IllegalLength)
  {
    assert FromStrRadix16("AA") == Some(0xAA) && FromStrRadix16("BB") == Some(0xBB);
    assert FromStrRadix16("CC") == Some(0xCC);
    ParseJoinedBytes("AA:BB:CC", ["AA", "BB", "CC"], [0xAA, 0xBB, 0xCC]);
  }

  /** A group that is not hex aborts, on that group. */
  lemma ParseNotHex()
    ensures ParseMac("GG:00:00:00:00:00") == Abort("GG")
  {
    assert FromStrRadix16("GG") == None;
    ParseJoinedAbort("GG:00:00:00:00:00", ["GG", "00", "00", "00", "00", "00"], 0);
  }

  /** A bad group and a wrong count together: the abort wins over the length error. */
  lemma ParseAbortBeforeLength()
    ensures ParseMac("GG:00") == Abort("GG")
  {
    assert FromStrRadix16("GG") == None;
    ParseJoinedAbort("GG:00", ["GG", "00"], 0);
  }

  /** The empty text is one empty group, which aborts. */
  lemma ParseEmpty()
    ensures ParseMac("") == Abort("")
  {
    ParseJoinedAbort("", [""], 0);
  }
}
