/** Hexadecimal text as Python's `bytes.fromhex` reads it and `bytes.hex()` writes it. */
module Hex {
  import opened Wrappers
  import opened Text
  import opened Bits

  /** The ASCII whitespace `bytes.fromhex` skips: tab, line feed, vertical tab,
      form feed, carriage return and space. */
  predicate IsHexSpace(c: char) { c == ' ' || 9 <= c as int <= 13 }

  predicate IsHexString(s: string) { forall i :: 0 <= i < |s| ==> IsHexDigit(s[i]) }

  function HexValue(c: char): (v: nat)
    requires IsHexDigit(c)
    ensures v < 16
  {
    if IsDigit(c) then c as int - '0' as int
    else if 'a' <= c <= 'f' then c as int - 'a' as int + 10
    else c as int - 'A' as int + 10
  }

  /** The lowercase digit for `v`, as `hexdigest()` writes it. */
  function HexChar(v: nat): (c: char)
    requires v < 16
    ensures IsHexDigit(c) && !IsUpper(c)
    ensures HexValue(c) == v
  {
    if v < 10 then ('0' as int + v) as char else ('a' as int + v - 10) as char
  }

  /** `bytes.fromhex(s)`: pairs of hex digits, ASCII whitespace allowed before
      each pair but not inside one; anything else is a `ValueError` (`None`). */
  function FromHex(s: string): (r: Option<seq<byte>>)
    ensures r.Some? ==> 2 * |r.value| <= |s|
    decreases |s|
  {
    if |s| == 0 then Some([])
    else if IsHexSpace(s[0]) then FromHex(s[1..])
    else if |s| >= 2 && IsHexDigit(s[0]) && IsHexDigit(s[1]) then
      match FromHex(s[2..])
      case None => None
      case Some(rest) => Some([HexValue(s[0]) * 16 + HexValue(s[1])] + rest)
    else None
  }

  /** `bytes.hex()`: two lowercase digits per byte, high nibble first. */
  function ToHex(b: seq<byte>): (s: string)
    ensures |s| == 2 * |b|
    ensures IsHexString(s)
    ensures forall i :: 0 <= i < |s| ==> !IsUpper(s[i])
  {
    if |b| == 0 then "" else [HexChar(b[0] / 16), HexChar(b[0] % 16)] + ToHex(b[1..])
  }

  /** Reading back what `hex()` wrote gives the same bytes. */
  lemma {:induction false} FromHexToHex(b: seq<byte>)
    ensures FromHex(ToHex(b)) == Some(b)
  {
    if |b| > 0 {
      var s := ToHex(b);
      assert s[2..] == ToHex(b[1..]);
      FromHexToHex(b[1..]);
      assert HexValue(s[0]) * 16 + HexValue(s[1]) == b[0];
      assert !IsHexSpace(s[0]);
      assert FromHex(s) == Some([b[0]] + b[1..]);
      assert [b[0]] + b[1..] == b;
    }
  }

  /** Distinct digests have distinct hex renderings. */
  lemma ToHexInjective(b1: seq<byte>, b2: seq<byte>)
    requires ToHex(b1) == ToHex(b2)
    ensures b1 == b2
  {
    FromHexToHex(b1);
    FromHexToHex(b2);
  }

  /** A string with no upper-case letter is its own lower-case form. */
  lemma LowerOfLowercase(s: string)
    requires forall i :: 0 <= i < |s| ==> !IsUpper(s[i])
    ensures Lower(s) == s
  {
  }

  /** On a string made only of hex digits, `fromhex` succeeds exactly when the
      length is even, and then yields one byte per pair of digits. */
  lemma {:induction false} FromHexOfDigits(s: string)
    requires IsHexString(s)
    ensures FromHex(s).Some? <==> |s| % 2 == 0
    ensures FromHex(s).Some? ==> 2 * |FromHex(s).value| == |s|
    decreases |s|
  {
    if |s| >= 2 {
      FromHexOfDigits(s[2..]);
    }
  }
}
