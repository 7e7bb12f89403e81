/**
 * The C library pieces the VDEX helpers lean on, stated over bytes:
 * `::isdigit` on one byte, `std::stoul` on a field that starts with a digit,
 * and, as the partner of the decoder, the zero-padded decimal encoder that
 * produces such a field.
 */
module AsciiDecimal {

  /** An unsigned 8-bit byte (`uint8_t`). */
  newtype uint8 = x: int | 0 <= x < 0x100

  /** `::isdigit` in the C locale: the bytes '0' (0x30) to '9' (0x39). */
  predicate IsDigit(b: uint8) {
    0x30 <= b <= 0x39
  }

  /** Every byte of `s` is an ASCII decimal digit. */
  predicate AllDigits(s: seq<uint8>) {
    forall i | 0 <= i < |s| :: IsDigit(s[i])
  }

  /** `::isdigit` accepts exactly the ten bytes that spell the digits 0 to 9. */
  lemma IsDigitIffDigitChar(b: uint8)
    ensures IsDigit(b) <==> exists d: nat | d < 10 :: b == DigitChar(d)
  {
    if IsDigit(b) {
      assert b == DigitChar(DigitValue(b));
    }
  }

  /** The value of one digit byte. */
  function DigitValue(b: uint8): (d: nat)
    requires IsDigit(b)
    ensures d < 10
  {
    b as int - 0x30
  }

  /** The digit byte that spells `d`; inverse of DigitValue. */
  function DigitChar(d: nat): (b: uint8)
    requires d < 10
    ensures IsDigit(b) && DigitValue(b) == d
  {
    (0x30 + d) as uint8
  }

  function Pow10(n: nat): (p: nat)
    ensures p >= 1
  {
    if n == 0 then 1 else 10 * Pow10(n - 1)
  }

  lemma {:induction false} Pow10Monotone(m: nat, n: nat)
    requires m <= n
    ensures Pow10(m) <= Pow10(n)
  {
    if m < n {
      Pow10Monotone(m, n - 1);
    }
  }

  /** The base-10 value of a run of digits, most significant digit first. */
  function DecimalValue(s: seq<uint8>): (r: nat)
    requires AllDigits(s)
    ensures r < Pow10(|s|)
  {
    if s == [] then 0
    else
      var r0 := DecimalValue(s[..|s| - 1]);
      assert r0 * 10 <= (Pow10(|s| - 1) - 1) * 10;
      r0 * 10 + DigitValue(s[|s| - 1])
  }

  /** `n` written in exactly `width` digits, with leading zeros ("0006" for 6 in four). */
  function EncodeDecimal(n: nat, width: nat): (s: seq<uint8>)
    requires n < Pow10(width)
    ensures |s| == width && AllDigits(s)
  {
    if width == 0 then []
    else EncodeDecimal(n / 10, width - 1) + [DigitChar(n % 10)]
  }

  /** Decoding what the encoder wrote gives the number back. */
  lemma {:induction false} DecodeEncode(n: nat, width: nat)
    requires n < Pow10(width)
    ensures DecimalValue(EncodeDecimal(n, width)) == n
  {
    if width > 0 {
      var s := EncodeDecimal(n, width);
      assert s[..width - 1] == EncodeDecimal(n / 10, width - 1);
      DecodeEncode(n / 10, width - 1);
    }
  }

  /** A digit field is the zero-padded encoding of its own value. */
  lemma {:induction false} EncodeDecode(s: seq<uint8>)
    requires AllDigits(s)
    ensures EncodeDecimal(DecimalValue(s), |s|) == s
  {
    if s != [] {
      var p := s[..|s| - 1];
      EncodeDecode(p);
      var v := DecimalValue(s);
      assert v / 10 == DecimalValue(p) && v % 10 == DigitValue(s[|s| - 1]);
      assert s == p + [s[|s| - 1]];
    }
  }

  /** The longest prefix of `s` made of digits. */
  function LeadingDigits(s: seq<uint8>): (p: seq<uint8>)
    ensures p <= s && AllDigits(p)
    ensures |p| < |s| ==> !IsDigit(s[|p|])
  {
    if s == [] || !IsDigit(s[0]) then []
    else [s[0]] + LeadingDigits(s[1..])
  }

  /**
   * `std::stoul(field)` for a field whose first byte is a digit (so no
   * whitespace is skipped, no sign is read and nothing is thrown): the value
   * of the run of digits that starts the field, read no further than the field.
   */
  function ParseUnsigned(field: seq<uint8>): (r: nat)
    requires |field| > 0 && IsDigit(field[0])
    ensures r < Pow10(|field|)
    ensures AllDigits(field) ==> r == DecimalValue(field)
  {
    var p := LeadingDigits(field);
    Pow10Monotone(|p|, |field|);
    assert AllDigits(field) ==> p == field;
    DecimalValue(p)
  }

  /** Parsing stops at the first non-digit: what follows it is never read. */
  lemma ParseStopsAtNonDigit(digits: seq<uint8>, stop: uint8, rest: seq<uint8>)
    requires |digits| > 0 && AllDigits(digits) && !IsDigit(stop)
    ensures ParseUnsigned(digits + [stop] + rest) == DecimalValue(digits)
  {
    LeadingDigitsOfRun(digits, [stop] + rest);
    assert digits + [stop] + rest == digits + ([stop] + rest);
  }

  lemma {:induction false} LeadingDigitsOfRun(digits: seq<uint8>, tail: seq<uint8>)
    requires AllDigits(digits) && (tail == [] || !IsDigit(tail[0]))
    ensures LeadingDigits(digits + tail) == digits
  {
    if digits != [] {
      assert (digits + tail)[1..] == digits[1..] + tail;
      LeadingDigitsOfRun(digits[1..], tail);
    }
  }

}
