/**
 * MongoDB ObjectIds as the controller sees them: the validity test applied
 * to a path parameter, and the 24-digit hexadecimal text of a generated id.
 * Ids are generated here from a counter, so an id's value is its creation
 * index; decoding the text gives the value back.
 */
module ObjectIds {
  import opened JsStrings

  const IdLength: nat := 24

  function Pow16(n: nat): (p: nat)
    ensures p >= 1
  {
    if n == 0 then 1 else 16 * Pow16(n - 1)
  }

  /** Number of distinct ObjectId values (12 bytes). */
  const IdSpace: nat := Pow16(IdLength)

  predicate IsHexDigit(c: char) {
    '0' <= c <= '9' || 'a' <= c <= 'f' || 'A' <= c <= 'F'
  }

  predicate AllHex(s: string) {
    forall i :: 0 <= i < |s| ==> IsHexDigit(s[i])
  }

  /** mongoose.Types.ObjectId.isValid on a string: 24 hexadecimal digits. */
  predicate IsValidId(s: string) {
    |s| == IdLength && AllHex(s)
  }

  function DigitValue(c: char): (d: nat)
    requires IsHexDigit(c)
    ensures d < 16
  {
    if c <= '9' then c as int - '0' as int
    else if c <= 'F' then c as int - 'A' as int + 10
    else c as int - 'a' as int + 10
  }

  /** Lower-case digit, as ObjectId.toHexString writes it. */
  function HexChar(d: nat): (c: char)
    requires d < 16
    ensures IsHexDigit(c) && DigitValue(c) == d
  {
    if d < 10 then ('0' as int + d) as char else ('a' as int + d - 10) as char
  }

  /** The number a string of hexadecimal digits denotes (either case). */
  function HexValue(s: string): (v: nat)
    requires AllHex(s)
    ensures v < Pow16(|s|)
  {
    if s == [] then 0
    else
      var p := HexValue(s[..|s| - 1]);
      assert p <= Pow16(|s| - 1) - 1;
      16 * p + DigitValue(s[|s| - 1])
  }

  /** The `width` lowest hexadecimal digits of n, most significant first. */
  function HexDigits(n: nat, width: nat): (s: string)
    ensures |s| == width && AllHex(s)
  {
    if width == 0 then [] else HexDigits(n / 16, width - 1) + [HexChar(n % 16)]
  }

  lemma {:induction false} HexDigitsRoundTrip(n: nat, width: nat)
    requires n < Pow16(width)
    ensures HexValue(HexDigits(n, width)) == n
  {
    if width > 0 {
      var s := HexDigits(n, width);
      assert s[..|s| - 1] == HexDigits(n / 16, width - 1);
      HexDigitsRoundTrip(n / 16, width - 1);
    }
  }

  /** The text of the id whose value is k. */
  function HexId(k: nat): (id: string)
    requires k < IdSpace
  {
    HexDigits(k, IdLength)
  }

  /** A generated id passes isValid and decodes to its value. */
  lemma HexIdRoundTrip(k: nat)
    requires k < IdSpace
    ensures IsValidId(HexId(k)) && HexValue(HexId(k)) == k
  {
    HexDigitsRoundTrip(k, IdLength);
  }

  /** Writing a digit's value back gives the digit in lower case. */
  lemma HexCharOfDigit(c: char)
    requires IsHexDigit(c)
    ensures HexChar(DigitValue(c)) == LowerChar(c)
  {
  }

  /** Re-encoding the value of a hexadecimal text gives the text in lower case. */
  lemma {:induction false} HexDigitsOfValue(s: string)
    requires AllHex(s)
    ensures HexDigits(HexValue(s), |s|) == ToLower(s)
  {
    if s != [] {
      var p, c := s[..|s| - 1], s[|s| - 1];
      assert s == p + [c];
      HexDigitsSnoc(p, c);
      HexDigitsOfValue(p);
      ToLowerSnoc(p, c);
    }
  }

  /** One more digit: its value is written back as the digit in lower case. */
  lemma HexDigitsSnoc(p: string, c: char)
    requires AllHex(p) && IsHexDigit(c)
    ensures AllHex(p + [c])
    ensures HexDigits(HexValue(p + [c]), |p| + 1) == HexDigits(HexValue(p), |p|) + [LowerChar(c)]
  {
    HexValueSnoc(p, c);
    var n := HexValue(p + [c]);
    LastDigit(n, HexValue(p), DigitValue(c));
    HexCharOfDigit(c);
    assert HexDigits(n, |p| + 1) == HexDigits(n / 16, |p|) + [HexChar(n % 16)];
  }

  /** Appending a digit multiplies the value by 16 and adds the digit. */
  lemma HexValueSnoc(p: string, c: char)
    requires AllHex(p) && IsHexDigit(c)
    ensures AllHex(p + [c]) && HexValue(p + [c]) == 16 * HexValue(p) + DigitValue(c)
  {
    var s := p + [c];
    assert forall i :: 0 <= i < |p| ==> s[i] == p[i];
    assert s[..|s| - 1] == p;
  }

  /** Dividing n = 16 * p + d by 16 splits off the last digit d. */
  lemma LastDigit(n: nat, p: nat, d: nat)
    requires d < 16 && n == 16 * p + d
    ensures n / 16 == p && n % 16 == d
  {
  }

  /**
   * A valid id text denotes an ObjectId value, and the id text of that value
   * is the given text in lower case: the ids of one record in either case.
   */
  lemma HexIdOfValidId(s: string)
    requires IsValidId(s)
    ensures HexValue(s) < IdSpace && HexId(HexValue(s)) == ToLower(s)
  {
    HexDigitsOfValue(s);
  }

  /**
   * isValid accepts exactly the id texts of ObjectId values, written in
   * either letter case.
   */
  lemma ValidIdsAreIdTexts(s: string)
    ensures IsValidId(s) <==> exists k: nat :: k < IdSpace && HexId(k) == ToLower(s)
  {
    if IsValidId(s) {
      HexIdOfValidId(s);
    }
    if k: nat :| k < IdSpace && HexId(k) == ToLower(s) {
      forall i | 0 <= i < |s| ensures IsHexDigit(s[i]) {
        assert IsHexDigit(LowerChar(s[i])) by {
          assert HexId(k)[i] == LowerChar(s[i]);
        }
      }
    }
  }

  /** Distinct values give distinct id texts. */
  lemma HexIdInjective(j: nat, k: nat)
    requires j < IdSpace && k < IdSpace && j != k
    ensures HexId(j) != HexId(k)
  {
    HexIdRoundTrip(j);
    HexIdRoundTrip(k);
  }
}
