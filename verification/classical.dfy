/** The classical decoders of the weak-encryption breaker: ROT13, Caesar and
    repeating-key XOR. */
module Classical {
  import opened Wrappers
  import opened Text
  import opened Bits
  import opened Hex

  /** ROT13 on one character: ASCII letters rotate by 13 within their case,
      everything else is kept. */
  function Rot13Char(c: char): char {
    if IsLower(c) then ((c as int - 'a' as int + 13) % 26 + 'a' as int) as char
    else if IsUpper(c) then ((c as int - 'A' as int + 13) % 26 + 'A' as int) as char
    else c
  }

  /** `_rot13_decode`. */
  function Rot13(s: string): (r: string)
    ensures |r| == |s|
    ensures forall i :: 0 <= i < |s| ==> (IsLetter(r[i]) <==> IsLetter(s[i]))
    ensures forall i :: 0 <= i < |s| && !IsLetter(s[i]) ==> r[i] == s[i]
    ensures forall i :: 0 <= i < |s| ==> (IsUpper(r[i]) <==> IsUpper(s[i]))
  {
    seq(|s|, i requires 0 <= i < |s| => Rot13Char(s[i]))
  }

  /** Caesar decoding of one character: ASCII letters move back by `shift`
      within their case (Python's `%`, which never goes negative here). */
  function CaesarChar(c: char, shift: int): char {
    if IsLetter(c) then
      var base := if IsUpper(c) then 'A' as int else 'a' as int;
      ((c as int - base - shift) % 26 + base) as char
    else c
  }

  /** `_caesar_decode`. */
  function Caesar(s: string, shift: int): (r: string)
    ensures |r| == |s|
    ensures forall i :: 0 <= i < |s| ==> (IsUpper(r[i]) <==> IsUpper(s[i]))
    ensures forall i :: 0 <= i < |s| ==> (IsLower(r[i]) <==> IsLower(s[i]))
    ensures forall i :: 0 <= i < |s| && !IsLetter(s[i]) ==> r[i] == s[i]
  {
    seq(|s|, i requires 0 <= i < |s| => CaesarChar(s[i], shift))
  }

  lemma CaesarCharCompose(c: char, j: int, k: int)
    ensures CaesarChar(CaesarChar(c, j), k) == CaesarChar(c, j + k)
  {
    if IsLetter(c) {
      var base := if IsUpper(c) then 'A' as int else 'a' as int;
      var x := c as int - base;
      ModSub(x - j, k);
    }
  }

  /** `((x % 26) - k) % 26 == (x - k) % 26`. */
  lemma ModSub(x: int, k: int)
    ensures ((x % 26) - k) % 26 == (x - k) % 26
  {
    var q := x / 26;
    assert x - k == ((x % 26) - k) + 26 * q;
    ModShift((x % 26) - k, q);
  }

  lemma {:induction false} ModShift(y: int, q: int)
    ensures (y + 26 * q) % 26 == y % 26
    decreases if q < 0 then -q else q
  {
    if q > 0 {
      ModShift(y, q - 1);
      assert y + 26 * q == (y + 26 * (q - 1)) + 26;
    } else if q < 0 {
      ModShift(y, q + 1);
      assert y + 26 * q == (y + 26 * (q + 1)) - 26;
    }
  }

  /** Decoding by `j` then by `k` is decoding by `j + k`. */
  lemma CaesarCompose(s: string, j: int, k: int)
    ensures Caesar(Caesar(s, j), k) == Caesar(s, j + k)
  {
    forall i | 0 <= i < |s|
      ensures Caesar(Caesar(s, j), k)[i] == Caesar(s, j + k)[i]
    {
      CaesarCharCompose(s[i], j, k);
    }
  }

  /** Decoding by `k` and then by `26 - k` restores the text. */
  lemma CaesarInverse(s: string, k: int)
    ensures Caesar(Caesar(s, k), 26 - k) == s
  {
    CaesarCompose(s, k, 26 - k);
    var r := Caesar(s, 26);
    forall i | 0 <= i < |s|
      ensures r[i] == s[i]
    {
      if IsLetter(s[i]) {
        var base := if IsUpper(s[i]) then 'A' as int else 'a' as int;
        ModShift(s[i] as int - base, -1);
      }
    }
  }

  /** Decoding by one moves every letter one place back in the alphabet
      within its case, `a` and `A` wrapping round to `z` and `Z`; with
      `CaesarCompose` this fixes the decoding for every shift. */
  lemma CaesarStepBack(s: string)
    ensures forall i :: 0 <= i < |s| && IsLetter(s[i]) && s[i] != 'a' && s[i] != 'A' ==>
              Caesar(s, 1)[i] as int == s[i] as int - 1
    ensures forall i :: 0 <= i < |s| && s[i] == 'a' ==> Caesar(s, 1)[i] == 'z'
    ensures forall i :: 0 <= i < |s| && s[i] == 'A' ==> Caesar(s, 1)[i] == 'Z'
  {
  }

  /** ROT13 moves the first half of each case's alphabet forward by 13 and
      the second half back by 13. */
  lemma Rot13Moves(s: string)
    ensures forall i :: 0 <= i < |s| && ('a' <= s[i] <= 'm' || 'A' <= s[i] <= 'M') ==>
              Rot13(s)[i] as int == s[i] as int + 13
    ensures forall i :: 0 <= i < |s| && ('n' <= s[i] <= 'z' || 'N' <= s[i] <= 'Z') ==>
              Rot13(s)[i] as int == s[i] as int - 13
  {
  }

  /** On every string, ROT13 is the Caesar shift by 13. */
  lemma Rot13IsCaesar13(s: string)
    ensures Rot13(s) == Caesar(s, 13)
  {
    forall i | 0 <= i < |s|
      ensures Rot13(s)[i] == Caesar(s, 13)[i]
    {
      var c := s[i];
      if IsLetter(c) {
        var base := if IsUpper(c) then 'A' as int else 'a' as int;
        ModShift(c as int - base + 13, -1);
      }
    }
  }

  /** ROT13 undoes itself. */
  lemma Rot13Involution(s: string)
    ensures Rot13(Rot13(s)) == s
  {
    Rot13IsCaesar13(s);
    Rot13IsCaesar13(Rot13(s));
    CaesarInverse(s, 13);
  }

  lemma Pow2Values()
    ensures Pow2(7) == 128 && Pow2(8) == 256
  {
  }

  /** `chr(ord(c) ^ k)` for an ASCII key character `k` is again a character:
      xor with a value below 128 keeps the code point in the same block of 128,
      and blocks of 128 never straddle the surrogate range or the top of Unicode. */
  function XorChar(c: char, k: char): (r: char)
    requires IsAscii(k)
    ensures r as int == Xor(c as int, k as int)
  {
    Pow2Values();
    XorKeepsHighBits(c as int, k as int, 7);
    ShrSeven(c as int);
    ShrSeven(Xor(c as int, k as int));
    Xor(c as int, k as int) as char
  }

  /** `chr(b ^ k)` for a byte `b` and an ASCII key byte `k`. */
  function XorByte(b: byte, k: char): (r: char)
    requires IsAscii(k)
    ensures r as int == Xor(b, k as int) < 256
  {
    Pow2Values();
    XorBounded(b, k as int, 8);
    Xor(b, k as int) as char
  }

  /** The keys this module is used with: non-empty and ASCII, so that
      `key.encode()` is the list of its code points. */
  predicate IsXorKey(key: string) { |key| > 0 && IsAsciiString(key) }

  type XorKey = key: string | IsXorKey(key) witness "k"

  /** The hex branch of `_xor_decode`: byte `i` xored with key byte `i mod |key|`. */
  function XorBytes(data: seq<byte>, key: string): (r: string)
    requires IsXorKey(key)
    ensures |r| == |data|
    ensures forall i :: 0 <= i < |r| ==> r[i] as int == Xor(data[i], key[i % |key|] as int) < 256
  {
    seq(|data|, i requires 0 <= i < |data| => XorByte(data[i], key[i % |key|]))
  }

  /** The fallback branch of `_xor_decode`: character `i` xored with key character `i mod |key|`. */
  function XorChars(s: string, key: string): (r: string)
    requires IsXorKey(key)
    ensures |r| == |s|
    ensures forall i :: 0 <= i < |s| ==> r[i] as int == Xor(s[i] as int, key[i % |key|] as int)
  {
    seq(|s|, i requires 0 <= i < |s| => XorChar(s[i], key[i % |key|]))
  }

  /** Character-wise xor with a fixed key undoes itself. */
  lemma XorCharsInvolution(s: string, key: string)
    requires IsXorKey(key)
    ensures XorChars(XorChars(s, key), key) == s
  {
    var r := XorChars(XorChars(s, key), key);
    forall i | 0 <= i < |s|
      ensures r[i] == s[i]
    {
      XorSelfInverse(s[i] as int, key[i % |key|] as int);
    }
  }

  /** `_xor_decode`: when the text parses with `bytes.fromhex` the bytes are
      xored with the key, otherwise the characters are. */
  function XorDecode(s: string, key: XorKey): (r: string)
    ensures FromHex(s).Some? ==> |r| == |FromHex(s).value| && forall i :: 0 <= i < |r| ==> r[i] as int < 256
    ensures FromHex(s).Some? ==> forall i :: 0 <= i < |r| ==>
              r[i] as int == Xor(FromHex(s).value[i], key[i % |key|] as int)
    ensures FromHex(s).None? ==> |r| == |s| && XorChars(r, key) == s
  {
    match FromHex(s)
    case Some(data) => XorBytes(data, key)
    case None =>
      XorCharsInvolution(s, key);
      XorChars(s, key)
  }

  /** On text that parses as hex, xoring the result's codes with the key
      again gives back the parsed bytes. */
  lemma XorDecodeHexRoundTrip(s: string, key: XorKey)
    requires FromHex(s).Some?
    ensures |XorDecode(s, key)| == |FromHex(s).value|
    ensures forall i :: 0 <= i < |FromHex(s).value| ==>
              Xor(XorDecode(s, key)[i] as int, key[i % |key|] as int) == FromHex(s).value[i]
  {
    var data, r := FromHex(s).value, XorDecode(s, key);
    forall i | 0 <= i < |data|
      ensures Xor(r[i] as int, key[i % |key|] as int) == data[i]
    {
      XorSelfInverse(data[i], key[i % |key|] as int);
    }
  }

  /** On even-length text made only of hex digits, the result has one
      character per pair of digits, each below 256. */
  lemma XorDecodeHex(s: string, key: XorKey)
    requires IsHexString(s) && |s| % 2 == 0
    ensures 2 * |XorDecode(s, key)| == |s|
    ensures forall i :: 0 <= i < |XorDecode(s, key)| ==> XorDecode(s, key)[i] as int < 256
  {
    FromHexOfDigits(s);
  }
}
