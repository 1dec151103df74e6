/** `analyze_crypto_implementation` and `_detect_ecb_mode`: the block-cipher
    fingerprinting. Electronic codebook mode encrypts equal plaintext blocks
    to equal ciphertext blocks (section 6.1 of NIST SP 800-38A), so a repeated
    16-byte block betrays it. */
module BlockMode {
  import opened Wrappers
  import opened Text
  import opened Bits
  import opened Hex
  import Base64

  const BlockSize: nat := 16

  /** `[data[i:i+16] for i in range(0, len(data), 16)]`: the last block may be short. */
  function Blocks(data: seq<byte>): (bs: seq<seq<byte>>)
    ensures |bs| == (|data| + 15) / 16
    ensures forall i :: 0 <= i < |bs| ==> 0 < |bs[i]| <= 16
    ensures forall i :: 0 <= i < |bs| - 1 ==> |bs[i]| == 16
    decreases |data|
  {
    if |data| == 0 then []
    else if |data| <= 16 then [data]
    else
      var rest := Blocks(data[16..]);
      assert forall i :: 1 <= i < |rest| + 1 ==> ([data[..16]] + rest)[i] == rest[i - 1];
      [data[..16]] + rest
  }

  function Flatten<T>(xss: seq<seq<T>>): seq<T> {
    if |xss| == 0 then [] else xss[0] + Flatten(xss[1..])
  }

  /** The blocks, put back together, are the data. */
  lemma {:induction false} FlattenBlocks(data: seq<byte>)
    ensures Flatten(Blocks(data)) == data
    decreases |data|
  {
    if |data| > 16 {
      FlattenBlocks(data[16..]);
      var bs := Blocks(data);
      assert bs[1..] == Blocks(data[16..]);
      assert data[..16] + data[16..] == data;
    } else if |data| > 0 {
      assert Blocks(data)[1..] == [];
      assert data + [] == data;
    }
  }

  /** Two positions hold equal elements. */
  predicate HasRepeat<T(==)>(xs: seq<T>) {
    exists i, j :: 0 <= i < j < |xs| && xs[i] == xs[j]
  }

  function SetOf<T>(xs: seq<T>): set<T> {
    set x | x in xs
  }

  lemma {:induction false} SetOfSize<T>(xs: seq<T>)
    ensures |SetOf(xs)| <= |xs|
  {
    if |xs| > 0 {
      SetOfSize(xs[1..]);
      assert SetOf(xs) == {xs[0]} + SetOf(xs[1..]);
    }
  }

  /** `len(xs) != len(set(xs))` exactly when some element repeats. */
  lemma {:induction false} SetSmallerIffRepeat<T>(xs: seq<T>)
    ensures |SetOf(xs)| != |xs| <==> HasRepeat(xs)
  {
    if |xs| > 0 {
      SetSmallerIffRepeat(xs[1..]);
      SetOfSize(xs[1..]);
      if xs[0] in xs[1..] {
        HeadRepeats(xs);
      } else {
        FreshHead(xs);
      }
    }
  }

  /** A first element that recurs later is a repeat and adds nothing to the set. */
  lemma HeadRepeats<T>(xs: seq<T>)
    requires |xs| > 0 && xs[0] in xs[1..]
    ensures HasRepeat(xs) && SetOf(xs) == SetOf(xs[1..])
  {
    var j :| 0 <= j < |xs[1..]| && xs[1..][j] == xs[0];
    assert xs[0] == xs[j + 1];
    assert SetOf(xs) == {xs[0]} + SetOf(xs[1..]);
  }

  /** A first element that does not recur adds one to the set and no repeat. */
  lemma FreshHead<T>(xs: seq<T>)
    requires |xs| > 0 && xs[0] !in xs[1..]
    ensures |SetOf(xs)| == 1 + |SetOf(xs[1..])|
    ensures HasRepeat(xs) <==> HasRepeat(xs[1..])
  {
    var tail := xs[1..];
    assert SetOf(xs) == {xs[0]} + SetOf(tail);
    assert |{xs[0]} + SetOf(tail)| == 1 + |SetOf(tail)|;
    if HasRepeat(tail) {
      var i, j :| 0 <= i < j < |tail| && tail[i] == tail[j];
      assert xs[i + 1] == xs[j + 1];
    }
    if HasRepeat(xs) {
      var i, j :| 0 <= i < j < |xs| && xs[i] == xs[j];
      if i > 0 {
        assert tail[i - 1] == tail[j - 1];
      }
    }
  }

  predicate AllHexDigits(s: string) {
    forall i :: 0 <= i < |s| ==> IsHexDigit(s[i])
  }

  /** The bytes the detector looks at: hex text is read with `bytes.fromhex`,
      anything else with a strict padded base64 decoder; `None` stands for the
      exception, which makes the detector answer false. */
  function CiphertextBytes(ciphertext: string): (r: Option<seq<byte>>)
    ensures AllHexDigits(ciphertext) ==> (r.Some? <==> |ciphertext| % 2 == 0)
    ensures AllHexDigits(ciphertext) && r.Some? ==> 2 * |r.value| == |ciphertext|
  {
    if AllHexDigits(ciphertext) then
      FromHexOfDigits(ciphertext);
      FromHex(ciphertext)
    else Base64.Decode(Base64.Standard, ciphertext)
  }

  /** `_detect_ecb_mode`: `len(blocks) != len(set(blocks))`. */
  function DetectEcb(ciphertext: string): (r: bool)
    ensures r <==> CiphertextBytes(ciphertext).Some? && HasRepeat(Blocks(CiphertextBytes(ciphertext).value))
  {
    match CiphertextBytes(ciphertext)
    case None => false
    case Some(data) =>
      var bs := Blocks(data);
      SetSmallerIffRepeat(bs);
      |SetOf(bs)| != |bs|
  }

  /** Fewer than two blocks cannot repeat: empty text, and hex text of at
      most 32 digits, are never flagged. */
  lemma ShortHexNotEcb(ciphertext: string)
    requires AllHexDigits(ciphertext) && |ciphertext| <= 32
    ensures !DetectEcb(ciphertext)
  {
  }

  /** Hex text of odd length fails to parse and is never flagged. */
  lemma OddHexNotEcb(ciphertext: string)
    requires AllHexDigits(ciphertext) && |ciphertext| % 2 == 1
    ensures !DetectEcb(ciphertext)
  {
  }

  /** The report: weaknesses, recommendations and, under `crack_attempts`,
      the key-size hints. */
  datatype Analysis = Analysis(weaknesses: seq<string>, recommendations: seq<string>, crackAttempts: seq<string>)

  const PaddingWeakness: string := "Possible weak padding (8-byte blocks)"
  const EcbWeakness: string := "Possible ECB mode encryption"
  const EcbAdvice: string := "Use CBC or GCM mode instead"

  /** A key size in bytes; `%` by it never divides by zero. */
  type KeySize = size: nat | size > 0 witness 8

  const Hint64: string := "Possible 64-bit key (weak)"
  const Hint128: string := "Possible 128-bit key"
  const Hint192: string := "Possible 192-bit key"
  const Hint256: string := "Possible 256-bit key (strong)"

  /** `key_size_hints`, in the dictionary's insertion order. */
  const KeySizeHints: seq<(KeySize, string)> := [(16, Hint64), (24, Hint128), (32, Hint192), (48, Hint256)]

  /** One `if length % size == 0` test of the hint loop. */
  function Hint(n: nat, size: KeySize, description: string): seq<string> {
    if n % size == 0 then [description] else []
  }

  /** The hints whose size divides `n`, in order. */
  function HintsFor(n: nat, hints: seq<(KeySize, string)>): (r: seq<string>)
    ensures |r| <= |hints|
    ensures forall d :: d in r ==> exists i :: 0 <= i < |hints| && hints[i].1 == d && n % hints[i].0 == 0
    ensures forall i :: 0 <= i < |hints| && n % hints[i].0 == 0 ==> hints[i].1 in r
  {
    if |hints| == 0 then []
    else
      var rest := HintsFor(n, hints[1..]);
      assert forall i :: 1 <= i < |hints| ==> hints[i] == hints[1..][i - 1];
      if n % hints[0].0 == 0 then [hints[0].1] + rest else rest
  }

  /** The hints are reported in list order: the hints of a concatenation are
      those of the first part followed by those of the second, and a single
      hint is reported exactly when its size divides `n`. */
  lemma {:induction false} HintsForAppend(n: nat, xs: seq<(KeySize, string)>, ys: seq<(KeySize, string)>)
    ensures HintsFor(n, xs + ys) == HintsFor(n, xs) + HintsFor(n, ys)
    ensures |xs| == 1 ==> HintsFor(n, xs) == Hint(n, xs[0].0, xs[0].1)
    decreases |xs|
  {
    if |xs| > 0 {
      assert (xs + ys)[1..] == xs[1..] + ys;
      HintsForAppend(n, xs[1..], ys);
      HintsFront(n, xs + ys);
      HintsFront(n, xs);
    } else {
      assert xs + ys == ys;
    }
  }

  /** The first hint is tested before the rest. */
  lemma HintsFront(n: nat, hints: seq<(KeySize, string)>)
    requires |hints| > 0
    ensures HintsFor(n, hints) == Hint(n, hints[0].0, hints[0].1) + HintsFor(n, hints[1..])
  {
  }

  /** The hints are tested in the dictionary's order: 16, 24, 32, then 48. */
  lemma KeySizeHintsInOrder(n: nat)
    ensures HintsFor(n, KeySizeHints)
              == Hint(n, 16, Hint64) + (Hint(n, 24, Hint128) + (Hint(n, 32, Hint192) + Hint(n, 48, Hint256)))
  {
    var h1, h2, h3 := KeySizeHints[1..], KeySizeHints[2..], KeySizeHints[3..];
    assert KeySizeHints[0] == (16, Hint64) && h1[0] == (24, Hint128) && h2[0] == (32, Hint192);
    assert h3 == [(48, Hint256)];
    HintsFront(n, h3);
    assert h2[1..] == h3;
    HintsFront(n, h2);
    assert h1[1..] == h2;
    HintsFront(n, h1);
    HintsFront(n, KeySizeHints);
  }

  /** `analyze_crypto_implementation(ciphertext)`; the lengths it tests are
      those of the text, not of the bytes it encodes. */
  function Analyze(ciphertext: string): (a: Analysis)
    ensures PaddingWeakness in a.weaknesses <==> |ciphertext| % 8 == 0
    ensures EcbWeakness in a.weaknesses <==> DetectEcb(ciphertext)
    ensures EcbAdvice in a.recommendations <==> DetectEcb(ciphertext)
    ensures a.recommendations == [] <==> !DetectEcb(ciphertext)
    ensures forall i :: 0 <= i < |KeySizeHints| ==>
              (KeySizeHints[i].1 in a.crackAttempts <==> |ciphertext| % KeySizeHints[i].0 == 0)
    ensures |a.weaknesses| <= 2 && |a.crackAttempts| <= 4
    ensures a.weaknesses == (if |ciphertext| % 8 == 0 then [PaddingWeakness] else [])
                            + (if DetectEcb(ciphertext) then [EcbWeakness] else [])
    ensures a.recommendations == if DetectEcb(ciphertext) then [EcbAdvice] else []
    ensures a.crackAttempts == Hint(|ciphertext|, 16, Hint64) + (Hint(|ciphertext|, 24, Hint128)
                               + (Hint(|ciphertext|, 32, Hint192) + Hint(|ciphertext|, 48, Hint256)))
  {
    var n := |ciphertext|;
    var ecb := DetectEcb(ciphertext);
    var padding := if n % 8 == 0 then [PaddingWeakness] else [];
    var weaknesses := padding + (if ecb then [EcbWeakness] else []);
    var recommendations := if ecb then [EcbAdvice] else [];
    KeySizeHintsInOrder(n);
    HintsListed(n);
    Analysis(weaknesses, recommendations, HintsFor(n, KeySizeHints))
  }

  /** Each key-size hint is listed exactly when its size divides `n`. */
  lemma HintsListed(n: nat)
    ensures forall i :: 0 <= i < |KeySizeHints| ==>
              (KeySizeHints[i].1 in HintsFor(n, KeySizeHints) <==> n % KeySizeHints[i].0 == 0)
  {
    forall i | 0 <= i < |KeySizeHints|
      ensures KeySizeHints[i].1 in HintsFor(n, KeySizeHints) <==> n % KeySizeHints[i].0 == 0
    {
      HintListed(n, i);
    }
  }

  lemma HintListed(n: nat, i: nat)
    requires i < |KeySizeHints|
    ensures KeySizeHints[i].1 in HintsFor(n, KeySizeHints) <==> n % KeySizeHints[i].0 == 0
  {
    KeySizeHintsInOrder(n);
    assert Hint64[9] == '6' && Hint128[9] == '1' && Hint192[9] == '1' && Hint256[9] == '2';
    assert Hint128[10] == '2' && Hint192[10] == '9';
  }

  lemma KeySizesOfEight(i: nat)
    requires i < |KeySizeHints|
    ensures (KeySizeHints[i].0 as nat) % 8 == 0
  {
    var size := KeySizeHints[i].0;
    assert size == 16 || size == 24 || size == 32 || size == 48;
  }

  /** A multiple of a multiple of eight is a multiple of eight. */
  lemma MultipleOfEight(n: nat, size: nat)
    requires size > 0 && size % 8 == 0 && n % size == 0
    ensures n % 8 == 0
  {
    var q, r := n / size, size / 8;
    assert n == size * q;
    assert n == 8 * (r * q);
  }

  /** Every key-size hint comes with the padding weakness: all four sizes are
      multiples of eight. */
  lemma HintImpliesPadding(ciphertext: string, d: string)
    requires d in Analyze(ciphertext).crackAttempts
    ensures PaddingWeakness in Analyze(ciphertext).weaknesses
  {
    var i :| 0 <= i < |KeySizeHints| && KeySizeHints[i].1 == d && |ciphertext| % KeySizeHints[i].0 == 0;
    KeySizesOfEight(i);
    MultipleOfEight(|ciphertext|, KeySizeHints[i].0);
  }
}
