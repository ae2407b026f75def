/**
 * Rust's `{:X}` formatting of a `u8`: upper-case hexadecimal, no zero padding,
 * and a hexadecimal parser to read such a token back.
 */
module Hex {
  import opened Bytes

  datatype Option<T> = None | Some(value: T)

  /** An upper-case hexadecimal digit, `0-9` or `A-F`. */
  predicate IsDigit(c: char)
  {
    '0' <= c <= '9' || 'A' <= c <= 'F'
  }

  /** The value of a hexadecimal digit. */
  function DigitValue(c: char): (v: nat)
    requires IsDigit(c)
    ensures v < 16
  {
    if c <= '9' then c as int - '0' as int else c as int - 'A' as int + 10
  }

  /** The digit that `{:X}` writes for a value below 16. */
  function Digit(d: nat): (c: char)
    requires d < 16
    ensures IsDigit(c) && DigitValue(c) == d
  {
    if d < 10 then ('0' as int + d) as char else ('A' as int + d - 10) as char
  }

  predicate AllDigits(t: string)
  {
    forall i | 0 <= i < |t| :: IsDigit(t[i])
  }

  /** The number a string of hexadecimal digits denotes, most significant digit first. */
  function DigitsValue(t: string): nat
    requires AllDigits(t)
  {
    if t == [] then 0 else 16 * DigitsValue(t[..|t| - 1]) + DigitValue(t[|t| - 1])
  }

  /** Parses a hexadecimal number: a non-empty string of hexadecimal digits, nothing else. */
  function ParseHex(t: string): (r: Option<nat>)
    ensures r.Some? <==> t != [] && AllDigits(t)
  {
    if t != [] && AllDigits(t) then Some(DigitsValue(t)) else None
  }

  /**
   * A well-formed `{:X}` token of a byte: one or two upper-case hexadecimal
   * digits, and a leading '0' only in the token "0" itself.
   */
  predicate IsToken(t: string)
  {
    1 <= |t| <= 2 && AllDigits(t) && (t[0] == '0' ==> t == "0")
  }

  /** `format!("{:X}", b)` for a byte `b`. */
  function Token(b: byte): (t: string)
    ensures IsToken(t)
    ensures |t| == 1 <==> b < 16
    ensures t[0] == '0' <==> b == 0
  {
    if b < 16 then [Digit(b as nat)] else [Digit(b as nat / 16), Digit(b as nat % 16)]
  }

  /** Parsing the token of a byte gives the byte back. */
  lemma TokenRoundTrip(b: byte)
    ensures ParseHex(Token(b)) == Some(b as nat)
  {
    var t := Token(b);
    TwoDigits(t);
  }

  /** The value of a one- or two-digit string, unfolded. */
  lemma TwoDigits(t: string)
    requires 1 <= |t| <= 2 && AllDigits(t)
    ensures |t| == 1 ==> DigitsValue(t) == DigitValue(t[0])
    ensures |t| == 2 ==> DigitsValue(t) == 16 * DigitValue(t[0]) + DigitValue(t[1])
  {
    assert DigitsValue(t[..0]) == 0;
    if |t| == 2 {
      assert t[..1][..0] == t[..0];
    }
  }

  /** Every well-formed token is the token of exactly the byte it parses to. */
  lemma TokenOfParse(t: string)
    requires IsToken(t)
    ensures ParseHex(t).Some? && ParseHex(t).value < 256
    ensures Token(ParseHex(t).value as byte) == t
  {
    var v := ParseHex(t).value;
    TwoDigits(t);
    if |t| == 1 {
      DigitInjective(Token(v as byte)[0], t[0]);
    } else {
      assert DigitValue(t[0]) != 0;
      var u := Token(v as byte);
      assert v / 16 == DigitValue(t[0]) && v % 16 == DigitValue(t[1]);
      DigitInjective(u[0], t[0]);
      DigitInjective(u[1], t[1]);
    }
  }

  /** Two digits with the same value are the same digit. */
  lemma DigitInjective(c: char, d: char)
    requires IsDigit(c) && IsDigit(d) && DigitValue(c) == DigitValue(d)
    ensures c == d
  {
  }

  /** Distinct bytes have distinct tokens. */
  lemma TokenInjective(a: byte, b: byte)
    requires Token(a) == Token(b)
    ensures a == b
  {
    TokenRoundTrip(a);
    TokenRoundTrip(b);
  }
}
