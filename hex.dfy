/** Bytes and their base-16 text form. `FromStrRadix16` follows the digit
    loop of Rust's `u8::from_str_radix(s, 16)`; `ValidToken` and `HexValue`
    say declaratively which texts it accepts and what value it gives. */
module Hex {

  /** Rust's `u8`. */
  type Byte = x: int | 0 <= x < 256

  datatype Option<+T> = None | Some(value: T)

  predicate IsHexDigit(c: char)
  {
    '0' <= c <= '9' || 'a' <= c <= 'f' || 'A' <= c <= 'F'
  }

  /** Value of one hex digit; upper and lower case letters stand for the same value. */
  function DigitValue(c: char): (d: nat)
    requires IsHexDigit(c)
    ensures d < 16
    ensures '0' <= c <= '9' ==> d <= 9
    ensures !('0' <= c <= '9') ==> 10 <= d
  {
    if '0' <= c <= '9' then c as int - '0' as int
    else if 'a' <= c <= 'f' then c as int - 'a' as int + 10
    else c as int - 'A' as int + 10
  }

  predicate AllHex(ds: string)
  {
    forall i :: 0 <= i < |ds| ==> IsHexDigit(ds[i])
  }

  function Pow16(n: nat): (p: nat)
    ensures p >= 1
  {
    if n == 0 then 1 else 16 * Pow16(n - 1)
  }

  /** Positional value of a run of hex digits: digit i (from the left) weighs 16^(|ds|-1-i). */
  ghost function HexValue(ds: string): nat
    requires AllHex(ds)
  {
    if ds == [] then 0 else DigitValue(ds[0]) * Pow16(|ds| - 1) + HexValue(ds[1..])
  }

  /** The digits of a token: one leading '+' is dropped, as `from_str_radix` does for unsigned types. */
  function Unsigned(tok: string): string
  {
    if |tok| > 0 && tok[0] == '+' then tok[1..] else tok
  }

  /** A token `u8::from_str_radix(_, 16)` accepts: an optional '+', then a
      non-empty run of hex digits (leading zeros allowed) whose value fits a byte. */
  ghost predicate ValidToken(tok: string)
  {
    var ds := Unsigned(tok);
    |ds| > 0 && AllHex(ds) && HexValue(ds) <= 255
  }

  /** Rust's digit loop: starting from `acc`, each character must be a digit
      and `acc * 16 + digit` must not overflow a `u8`. */
  function Accumulate(acc: Byte, ds: string): Option<Byte>
    decreases |ds|
  {
    if ds == [] then Some(acc)
    else if !IsHexDigit(ds[0]) then None
    else
      var n := acc * 16 + DigitValue(ds[0]);
      if n > 255 then None else Accumulate(n, ds[1..])
  }

  lemma HexValueCons(ds: string)
    requires ds != [] && AllHex(ds)
    ensures AllHex(ds[1..])
    ensures HexValue(ds) == DigitValue(ds[0]) * Pow16(|ds| - 1) + HexValue(ds[1..])
  {
  }

  lemma ShiftDigit(acc: nat, d: nat, p: nat, h: nat)
    ensures acc * (16 * p) + (d * p + h) == (acc * 16 + d) * p + h
  {
    assert acc * (16 * p) == (acc * 16) * p;
    assert (acc * 16) * p + d * p == (acc * 16 + d) * p;
  }

  lemma AllHexTail(ds: string)
    requires ds != [] && IsHexDigit(ds[0])
    ensures AllHex(ds) <==> AllHex(ds[1..])
  {
    if AllHex(ds[1..]) {
      forall i | 0 <= i < |ds| ensures IsHexDigit(ds[i]) {
        if i > 0 { assert ds[i] == ds[1..][i - 1]; }
      }
    }
  }

  /** One turn of the digit loop moves the leading digit into the accumulator
      without changing the shifted value. */
  lemma AccumulateStep(acc: Byte, ds: string)
    requires ds != [] && IsHexDigit(ds[0])
    ensures AllHex(ds) <==> AllHex(ds[1..])
    ensures AllHex(ds) ==>
      acc * Pow16(|ds|) + HexValue(ds) ==
      (acc * 16 + DigitValue(ds[0])) * Pow16(|ds| - 1) + HexValue(ds[1..])
  {
    AllHexTail(ds);
    var p := Pow16(|ds| - 1);
    assert Pow16(|ds|) == 16 * p;
    if AllHex(ds) {
      HexValueCons(ds);
      ShiftDigit(acc, DigitValue(ds[0]), p, HexValue(ds[1..]));
    }
  }

  lemma AtLeast(n: nat, p: nat, h: nat)
    requires p >= 1
    ensures n * p + h >= n
  {
    assert n * p == n * (p - 1) + n;
  }

  /** The digit loop succeeds exactly when every character is a digit and the
      positional value, shifted past `acc`, still fits a byte; it then yields that value. */
  lemma {:induction false} AccumulateValue(acc: Byte, ds: string)
    ensures Accumulate(acc, ds) ==
      if AllHex(ds) && acc * Pow16(|ds|) + HexValue(ds) <= 255
      then Some(acc * Pow16(|ds|) + HexValue(ds))
      else None
    decreases |ds|
  {
    if ds != [] && IsHexDigit(ds[0]) {
      var n := acc * 16 + DigitValue(ds[0]);
      var rest := ds[1..];
      AccumulateStep(acc, ds);
      if AllHex(rest) {
        AtLeast(n, Pow16(|rest|), HexValue(rest));
      }
      if n <= 255 {
        AccumulateValue(n, rest);
      }
    } else if ds != [] {
      assert !AllHex(ds);
    }
  }

  /** `u8::from_str_radix(tok, 16)`, `None` standing for any `Err`: the empty
      text fails, a lone sign fails, one leading '+' is skipped, and the digit
      loop does the rest. */
  function FromStrRadix16(tok: string): Option<Byte>
  {
    if tok == [] then None
    else if (tok[0] == '+' || tok[0] == '-') && |tok| == 1 then None
    else Accumulate(0, Unsigned(tok))
  }

  /** `from_str_radix` accepts exactly the tokens of the grammar and yields their positional value. */
  lemma FromStrRadixMeaning(tok: string)
    ensures FromStrRadix16(tok).Some? <==> ValidToken(tok)
    ensures FromStrRadix16(tok).Some? ==> FromStrRadix16(tok).value == HexValue(Unsigned(tok))
  {
    AccumulateValue(0, Unsigned(tok));
  }

  /** Edge cases of `from_str_radix`: no digits, a lone or doubled sign, a
      minus sign (a `u8` has none), a "0x" prefix and a value above 0xFF all
      fail; a '+', leading zeros and lower-case digits are accepted. */
  lemma FromStrRadixExamples()
    ensures FromStrRadix16("") == None
    ensures FromStrRadix16("+") == None && FromStrRadix16("-") == None
    ensures FromStrRadix16("++1") == None && FromStrRadix16("-1") == None
    ensures FromStrRadix16("0x1") == None && FromStrRadix16("100") == None
    ensures FromStrRadix16("+0FF") == Some(255)
    ensures FromStrRadix16("000aB") == Some(0xAB)
  {
  }

  /** Upper-case hex digit for a value below 16. */
  function HexChar(d: nat): (c: char)
    requires d < 16
    ensures IsHexDigit(c) && DigitValue(c) == d
  {
    if d < 10 then ('0' as int + d) as char else ('A' as int + d - 10) as char
  }

  /** A byte as two upper-case hex digits, as in "0A". */
  function FormatByte(b: Byte): (tok: string)
    ensures |tok| == 2 && AllHex(tok)
  {
    [HexChar(b / 16), HexChar(b % 16)]
  }

  /** `from_str_radix` reads back every byte written by `FormatByte`. */
  lemma FormatByteParses(b: Byte)
    ensures FromStrRadix16(FormatByte(b)) == Some(b)
  {
    var tok := FormatByte(b);
    assert Unsigned(tok) == tok;
    AccumulateValue(0, tok);
    HexValueCons(tok);
    HexValueCons(tok[1..]);
    assert HexValue(tok) == (b / 16) * 16 + b % 16;
  }
}
