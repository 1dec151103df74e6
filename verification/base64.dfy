/** Base64 as RFC 4648 defines it: the standard alphabet of section 4 and the
    URL- and filename-safe alphabet of section 5, with and without `=` padding. */
module Base64 {
  import opened Wrappers
  import opened Text
  import opened Bits

  datatype Alphabet = Standard | UrlSafe

  /** The character for the 6-bit value `v`. */
  function CharOf(a: Alphabet, v: nat): (c: char)
    requires v < 64
    ensures c != '=' && c != '.'
  {
    if v < 26 then ('A' as int + v) as char
    else if v < 52 then ('a' as int + v - 26) as char
    else if v < 62 then ('0' as int + v - 52) as char
    else if v == 62 then (if a == Standard then '+' else '-')
    else (if a == Standard then '/' else '_')
  }

  /** The 6-bit value of `c`, or `None` when `c` is not in the alphabet. */
  function ValueOf(a: Alphabet, c: char): (r: Option<nat>)
    ensures r.Some? ==> r.value < 64 && CharOf(a, r.value) == c
  {
    if 'A' <= c <= 'Z' then Some(c as int - 'A' as int)
    else if 'a' <= c <= 'z' then Some(c as int - 'a' as int + 26)
    else if '0' <= c <= '9' then Some(c as int - '0' as int + 52)
    else if c == (if a == Standard then '+' else '-') then Some(62)
    else if c == (if a == Standard then '/' else '_') then Some(63)
    else None
  }

  lemma ValueOfCharOf(a: Alphabet, v: nat)
    requires v < 64
    ensures ValueOf(a, CharOf(a, v)) == Some(v)
  {
  }

  /** Encoding without padding: four characters for every three bytes, and two
      or three characters for a final group of one or two bytes. */
  function EncodeUnpadded(a: Alphabet, b: seq<byte>): (s: string)
    ensures |s| == 4 * (|b| / 3) + (if |b| % 3 == 0 then 0 else |b| % 3 + 1)
    ensures '=' !in s && '.' !in s
    decreases |b|
  {
    if |b| == 0 then ""
    else if |b| == 1 then [CharOf(a, b[0] / 4), CharOf(a, (b[0] % 4) * 16)]
    else if |b| == 2 then
      [CharOf(a, b[0] / 4), CharOf(a, (b[0] % 4) * 16 + b[1] / 16), CharOf(a, (b[1] % 16) * 4)]
    else
      [CharOf(a, b[0] / 4), CharOf(a, (b[0] % 4) * 16 + b[1] / 16),
       CharOf(a, (b[1] % 16) * 4 + b[2] / 64), CharOf(a, b[2] % 64)]
      + EncodeUnpadded(a, b[3..])
  }

  /** The `=` characters that complete the last group of four. */
  function Padding(n: nat): string {
    if n % 3 == 1 then "==" else if n % 3 == 2 then "=" else ""
  }

  /** Python's `base64.b64encode` (standard) and `base64.urlsafe_b64encode` (URL-safe). */
  function Encode(a: Alphabet, b: seq<byte>): (s: string)
    ensures |s| == 4 * ((|b| + 2) / 3) && |s| % 4 == 0
  {
    PaddedLength(|b|);
    EncodeUnpadded(a, b) + Padding(|b|)
  }

  /** The padding completes the last group: four characters for every
      started group of three bytes. */
  lemma PaddedLength(n: nat)
    ensures 4 * (n / 3) + (if n % 3 == 0 then 0 else n % 3 + 1) + |Padding(n)| == 4 * ((n + 2) / 3)
  {
    var q, r := n / 3, n % 3;
    assert n == 3 * q + r;
    assert (n + 2) / 3 == q + (if r == 0 then 0 else 1);
  }

  /** Decoding of unpadded text; a single leftover character or a character
      outside the alphabet is an error. Unused low bits of the last character
      are ignored, as Python's decoder ignores them. */
  function DecodeUnpadded(a: Alphabet, s: string): (r: Option<seq<byte>>)
    decreases |s|
  {
    if |s| == 0 then Some([])
    else if |s| == 1 then None
    else
      var v0 := ValueOf(a, s[0]);
      var v1 := ValueOf(a, s[1]);
      if v0.None? || v1.None? then None
      else if |s| == 2 then Some([v0.value * 4 + v1.value / 16])
      else
        var v2 := ValueOf(a, s[2]);
        if v2.None? then None
        else if |s| == 3 then
          Some([v0.value * 4 + v1.value / 16, (v1.value % 16) * 16 + v2.value / 4])
        else
          var v3 := ValueOf(a, s[3]);
          if v3.None? then None
          else
            match DecodeUnpadded(a, s[4..])
            case None => None
            case Some(rest) =>
              Some([v0.value * 4 + v1.value / 16, (v1.value % 16) * 16 + v2.value / 4,
                    (v2.value % 4) * 64 + v3.value] + rest)
  }

  /** Strict decoding of padded text: the length is a multiple of four and at
      most two `=` close it. */
  function Decode(a: Alphabet, s: string): Option<seq<byte>> {
    if |s| % 4 != 0 then None
    else if |s| >= 2 && s[|s| - 2] == '=' && s[|s| - 1] == '=' then DecodeUnpadded(a, s[..|s| - 2])
    else if |s| >= 1 && s[|s| - 1] == '=' then DecodeUnpadded(a, s[..|s| - 1])
    else DecodeUnpadded(a, s)
  }

  /** The three bytes of a group come back from their four 6-bit values. */
  lemma GroupArithmetic(x: byte, y: byte, z: byte)
    ensures (x / 4) * 4 + ((x % 4) * 16 + y / 16) / 16 == x
    ensures (((x % 4) * 16 + y / 16) % 16) * 16 + ((y % 16) * 4 + z / 64) / 4 == y
    ensures (((y % 16) * 4 + z / 64) % 4) * 64 + z % 64 == z
  {
  }

  /** A final group of one byte decodes back. */
  lemma DecodeLastOne(a: Alphabet, x: byte)
    ensures DecodeUnpadded(a, EncodeUnpadded(a, [x])) == Some([x])
  {
    var v0, v1 := x / 4, (x % 4) * 16;
    ValueOfCharOf(a, v0);
    ValueOfCharOf(a, v1);
    GroupArithmetic(x, 0, 0);
    var s := EncodeUnpadded(a, [x]);
    assert s == [CharOf(a, v0), CharOf(a, v1)];
  }

  /** A final group of two bytes decodes back. */
  lemma DecodeLastTwo(a: Alphabet, x: byte, y: byte)
    ensures DecodeUnpadded(a, EncodeUnpadded(a, [x, y])) == Some([x, y])
  {
    var v0, v1, v2 := x / 4, (x % 4) * 16 + y / 16, (y % 16) * 4;
    ValueOfCharOf(a, v0);
    ValueOfCharOf(a, v1);
    ValueOfCharOf(a, v2);
    GroupArithmetic(x, y, 0);
    var s := EncodeUnpadded(a, [x, y]);
    assert s == [CharOf(a, v0), CharOf(a, v1), CharOf(a, v2)];
    assert v0 * 4 + v1 / 16 == x;
    assert (v1 % 16) * 16 + v2 / 4 == y;
  }

  /** A full group of three bytes decodes back ahead of whatever follows it. */
  lemma DecodeGroup(a: Alphabet, b: seq<byte>)
    requires |b| >= 3
    ensures DecodeUnpadded(a, EncodeUnpadded(a, b)) ==
            match DecodeUnpadded(a, EncodeUnpadded(a, b[3..]))
            case None => None
            case Some(rest) => Some([b[0], b[1], b[2]] + rest)
  {
    var tail := EncodeUnpadded(a, b[3..]);
    assert EncodeUnpadded(a, b) == GroupChars(a, b[0], b[1], b[2]) + tail;
    DecodeFour(a, b[0], b[1], b[2], tail);
  }

  /** The four characters that encode the bytes `x`, `y`, `z`. */
  function GroupChars(a: Alphabet, x: byte, y: byte, z: byte): string {
    [CharOf(a, x / 4), CharOf(a, (x % 4) * 16 + y / 16), CharOf(a, (y % 16) * 4 + z / 64), CharOf(a, z % 64)]
  }

  /** The four characters of a group decode to its three bytes, ahead of
      whatever the rest decodes to. */
  lemma DecodeFour(a: Alphabet, x: byte, y: byte, z: byte, tail: string)
    ensures DecodeUnpadded(a, GroupChars(a, x, y, z) + tail) ==
            match DecodeUnpadded(a, tail)
            case None => None
            case Some(rest) => Some([x, y, z] + rest)
  {
    var v0, v1, v2, v3 := x / 4, (x % 4) * 16 + y / 16, (y % 16) * 4 + z / 64, z % 64;
    GroupArithmetic(x, y, z);
    DecodeValues(a, v0, v1, v2, v3, tail);
    assert [v0 * 4 + v1 / 16, (v1 % 16) * 16 + v2 / 4, (v2 % 4) * 64 + v3] == [x, y, z];
  }

  /** Four alphabet characters decode to the three bytes their 6-bit values
      spell. */
  lemma DecodeValues(a: Alphabet, v0: nat, v1: nat, v2: nat, v3: nat, tail: string)
    requires v0 < 64 && v1 < 64 && v2 < 64 && v3 < 64
    ensures DecodeUnpadded(a, [CharOf(a, v0), CharOf(a, v1), CharOf(a, v2), CharOf(a, v3)] + tail) ==
            match DecodeUnpadded(a, tail)
            case None => None
            case Some(rest) => Some([v0 * 4 + v1 / 16, (v1 % 16) * 16 + v2 / 4, (v2 % 4) * 64 + v3] + rest)
  {
    var s := [CharOf(a, v0), CharOf(a, v1), CharOf(a, v2), CharOf(a, v3)] + tail;
    ValueOfCharOf(a, v0);
    ValueOfCharOf(a, v1);
    ValueOfCharOf(a, v2);
    ValueOfCharOf(a, v3);
    assert s[4..] == tail;
  }

  /** A final group of one or two bytes decodes back. */
  lemma DecodeLast(a: Alphabet, b: seq<byte>)
    requires 1 <= |b| <= 2
    ensures DecodeUnpadded(a, EncodeUnpadded(a, b)) == Some(b)
  {
    if |b| == 1 {
      DecodeLastOne(a, b[0]);
      assert [b[0]] == b;
    } else {
      DecodeLastTwo(a, b[0], b[1]);
      assert [b[0], b[1]] == b;
    }
  }

  /** Decoding inverts unpadded encoding. */
  lemma {:induction false} DecodeEncodeUnpadded(a: Alphabet, b: seq<byte>)
    ensures DecodeUnpadded(a, EncodeUnpadded(a, b)) == Some(b)
    decreases |b|
  {
    if 1 <= |b| <= 2 {
      DecodeLast(a, b);
    } else if |b| >= 3 {
      var rest := b[3..];
      DecodeEncodeUnpadded(a, rest);
      DecodeGroup(a, b);
      assert [b[0], b[1], b[2]] + rest == b;
    }
  }

  /** Decoding inverts padded encoding. */
  lemma DecodeEncode(a: Alphabet, b: seq<byte>)
    ensures Decode(a, Encode(a, b)) == Some(b)
  {
    var u := EncodeUnpadded(a, b);
    var s := Encode(a, b);
    DecodeEncodeUnpadded(a, b);
    if |b| % 3 == 1 {
      assert s[..|s| - 2] == u;
    } else if |b| % 3 == 2 {
      assert s[..|s| - 1] == u;
      assert |u| > 0 && u[|u| - 1] in u;
    } else {
      assert s == u;
      assert |u| > 0 ==> u[|u| - 1] in u;
    }
  }

  /** Stripping the `=` padding leaves exactly the unpadded encoding. */
  lemma StripEncode(a: Alphabet, b: seq<byte>)
    ensures RStrip(Encode(a, b), '=') == EncodeUnpadded(a, b)
  {
    var u := EncodeUnpadded(a, b);
    var s := Encode(a, b);
    assert |u| > 0 ==> u[|u| - 1] in u;
    RStripAppend(u, Padding(|b|), '=');
  }
}
