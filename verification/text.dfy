/** Character classes and string helpers shared by the whole model.

    Python's `str` methods consult the Unicode database; here the letter,
    printable and case classes are the ASCII ones, and every other
    character is treated as a non-letter that `lower()` leaves alone. */
module Text {

  predicate IsUpper(c: char) { 'A' <= c <= 'Z' }

  predicate IsLower(c: char) { 'a' <= c <= 'z' }

  predicate IsLetter(c: char) { IsUpper(c) || IsLower(c) }

  predicate IsDigit(c: char) { '0' <= c <= '9' }

  predicate IsHexDigit(c: char) { IsDigit(c) || 'a' <= c <= 'f' || 'A' <= c <= 'F' }

  predicate IsAscii(c: char) { (c as int) < 128 }

  predicate IsAsciiString(s: string) { forall i :: 0 <= i < |s| ==> IsAscii(s[i]) }

  /** `str.isprintable()` on ASCII: space through tilde. */
  predicate IsPrintable(c: char) { ' ' <= c <= '~' }

  function LowerChar(c: char): char {
    if IsUpper(c) then (c as int + 32) as char else c
  }

  /** `str.lower()` restricted to ASCII letters. */
  function Lower(s: string): (r: string)
    ensures |r| == |s|
    ensures forall i :: 0 <= i < |s| ==> r[i] == LowerChar(s[i])
  {
    seq(|s|, i requires 0 <= i < |s| => LowerChar(s[i]))
  }

  /** Lower-casing twice is lower-casing once. */
  lemma LowerIdempotent(s: string)
    ensures Lower(Lower(s)) == Lower(s)
  {
  }

  /** `w` occurs in `t` starting at index `i`. */
  predicate OccursAt(t: string, w: string, i: int) {
    0 <= i && i + |w| <= |t| && t[i..i + |w|] == w
  }

  /** Python's `w in t` for strings. */
  predicate Contains(t: string, w: string) {
    exists i :: 0 <= i <= |t| - |w| && OccursAt(t, w, i)
  }

  /** Number of occurrences of the character `c` in `s`. */
  function CountChar(s: string, c: char): (n: nat)
    ensures n <= |s|
    ensures n == 0 <==> c !in s
  {
    if |s| == 0 then 0
    else (if s[0] == c then 1 else 0) + CountChar(s[1..], c)
  }

  function DigitChar(d: nat): (c: char)
    requires d < 10
    ensures IsDigit(c)
  {
    ('0' as int + d) as char
  }

  function DigitValue(c: char): (d: nat)
    requires IsDigit(c)
    ensures d < 10
  {
    c as int - '0' as int
  }

  predicate IsDigitString(s: string) { forall i :: 0 <= i < |s| ==> IsDigit(s[i]) }

  /** Python's `int(s)` on a string of ASCII decimal digits. */
  function ParseNat(s: string): nat
    requires IsDigitString(s)
  {
    if |s| == 0 then 0 else ParseNat(s[..|s| - 1]) * 10 + DigitValue(s[|s| - 1])
  }

  /** Python's `str(n)` on a non-negative integer. */
  function NatToString(n: nat): (s: string)
    ensures |s| > 0 && IsDigitString(s)
    ensures |s| > 1 ==> s[0] != '0'
  {
    if n < 10 then [DigitChar(n)] else NatToString(n / 10) + [DigitChar(n % 10)]
  }

  /** `int(str(n)) == n`: the decimal rendering reads back as the same number. */
  lemma {:induction false} ParseNatToString(n: nat)
    ensures ParseNat(NatToString(n)) == n
  {
    var s := NatToString(n);
    if n >= 10 {
      ParseNatToString(n / 10);
      assert s[..|s| - 1] == NatToString(n / 10);
    }
  }

  /** Python's `str(i)` on any integer: a minus sign before the digits of a negative. */
  function IntToString(i: int): (s: string)
    ensures |s| > 0
    ensures i < 0 <==> s[0] == '-'
    ensures i >= 0 ==> IsDigitString(s) && ParseNat(s) == i
    ensures i < 0 ==> IsDigitString(s[1..]) && ParseNat(s[1..]) == -i
  {
    var digits := NatToString(if i < 0 then -i else i);
    ParseNatToString(if i < 0 then -i else i);
    if i < 0 then "-" + digits else digits
  }

  /** Python's `s.rstrip(c)`: drops every trailing `c`. */
  function RStrip(s: string, c: char): (r: string)
    ensures |r| <= |s| && r == s[..|r|]
    ensures |r| == 0 || r[|r| - 1] != c
    ensures forall i :: |r| <= i < |s| ==> s[i] == c
  {
    if |s| > 0 && s[|s| - 1] == c then RStrip(s[..|s| - 1], c) else s
  }

  /** Stripping a run of `c` from the end of text that does not itself end in `c`. */
  lemma {:induction false} RStripAppend(x: string, y: string, c: char)
    requires |x| == 0 || x[|x| - 1] != c
    requires forall i :: 0 <= i < |y| ==> y[i] == c
    ensures RStrip(x + y, c) == x
    decreases |y|
  {
    if |y| > 0 {
      assert (x + y)[..|x + y| - 1] == x + y[..|y| - 1];
      RStripAppend(x, y[..|y| - 1], c);
    } else {
      assert x + y == x;
    }
  }

  /** Index of the first `c` in `s`. */
  function IndexOf(s: string, c: char): (i: nat)
    requires c in s
    ensures i < |s| && s[i] == c && c !in s[..i]
  {
    if s[0] == c then 0 else 1 + IndexOf(s[1..], c)
  }

  /** Python's `s.split(d)` with a single-character separator. */
  function Split(s: string, d: char): (parts: seq<string>)
    ensures |parts| == CountChar(s, d) + 1
    decreases |s|
  {
    if d !in s then [s]
    else
      var i := IndexOf(s, d);
      SplitCount(s, d, i);
      [s[..i]] + Split(s[i + 1..], d)
  }

  lemma SplitCount(s: string, d: char, i: nat)
    requires i < |s| && s[i] == d && d !in s[..i]
    ensures CountChar(s, d) == 1 + CountChar(s[i + 1..], d)
  {
    if i > 0 {
      assert d !in s[1..][..i - 1] by { assert s[1..][..i - 1] == s[1..i]; }
      SplitCount(s[1..], d, i - 1);
      assert s[1..][i..] == s[i + 1..];
    }
  }

  /** The first occurrence is the one with no earlier occurrence. */
  lemma {:induction false} IndexOfFirst(s: string, c: char, k: nat)
    requires k < |s| && s[k] == c && c !in s[..k]
    ensures IndexOf(s, c) == k
  {
    if k > 0 {
      assert s[0] == s[..k][0];
      assert s[1..][..k - 1] == s[1..k];
      IndexOfFirst(s[1..], c, k - 1);
    }
  }

  /** Splitting `x d y` where `x` has no separator peels off `x` first. */
  lemma {:induction false} SplitCons(x: string, d: char, y: string)
    requires d !in x
    ensures Split(x + [d] + y, d) == [x] + Split(y, d)
  {
    var s := x + [d] + y;
    assert s[..|x|] == x;
    IndexOfFirst(s, d, |x|);
    assert s[|x| + 1..] == y;
  }
}
