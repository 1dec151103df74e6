/** `hash_crack_md5`, `hash_crack_sha1` and `hash_crack_sha256`: a dictionary
    scan in which the first matching entry wins, and for MD5 a bounded
    brute-force enumeration after it.

    The digest functions themselves are not modelled: each cracker takes the
    digest as a parameter `string -> seq<byte>` (the bytes of
    `password.encode()` hashed), and `hexdigest()` is `Hex.ToHex` of it. */
module HashCrack {
  import opened Wrappers
  import opened Text
  import opened Hex
  import opened Search
  import opened Bits

  /** `get_common_passwords()`, in its order. */
  const CommonPasswords: seq<string> := [
    "password", "123456", "admin", "test", "guest", "user",
    "root", "toor", "pass", "secret", "login", "password123",
    "admin123", "qwerty", "abc123", "welcome", "monkey",
    "dragon", "letmein", "trustno1", "111111", "1234",
    "juice", "juiceshop", "owasp", "security", "hacker"
  ]

  /** The list actually scanned: `None` and the empty list both mean the default. */
  function Wordlist(wordlist: Option<seq<string>>): (r: seq<string>)
    ensures |r| > 0
    ensures wordlist.Some? && |wordlist.value| > 0 ==> r == wordlist.value
    ensures wordlist.None? || |wordlist.value| == 0 ==> r == CommonPasswords
  {
    OrDefault(wordlist, CommonPasswords)
  }

  /** `hashlib.<algo>(p.encode()).hexdigest() == target_hash.lower()`. */
  predicate Cracks(digest: string -> seq<byte>, target: string, p: string) {
    ToHex(digest(p)) == Lower(target)
  }

  /** The dictionary scan shared by all three crackers; on its own it is
      `hash_crack_sha1` and `hash_crack_sha256`. */
  function CrackWithWordlist(digest: string -> seq<byte>, target: string, wordlist: Option<seq<string>>): (r: Option<string>)
    ensures r.Some? ==> r.value in Wordlist(wordlist) && Cracks(digest, target, r.value)
    ensures r.None? <==> forall p :: p in Wordlist(wordlist) ==> !Cracks(digest, target, p)
    ensures forall k :: 0 <= k < |Wordlist(wordlist)| && Cracks(digest, target, Wordlist(wordlist)[k])
              && (forall j :: 0 <= j < k ==> !Cracks(digest, target, Wordlist(wordlist)[j]))
              ==> r == Some(Wordlist(wordlist)[k])
  {
    FirstMatch(Wordlist(wordlist), p => Cracks(digest, target, p))
  }

  /** A hex digest never contains an upper-case letter or a non-hex character,
      so a target that still has one after lower-casing is never cracked. */
  lemma NonHexTargetUncrackable(digest: string -> seq<byte>, target: string, wordlist: Option<seq<string>>)
    requires exists i :: 0 <= i < |target| && !IsHexDigit(target[i])
    ensures CrackWithWordlist(digest, target, wordlist).None?
  {
    var i :| 0 <= i < |target| && !IsHexDigit(target[i]);
    forall p | p in Wordlist(wordlist)
      ensures !Cracks(digest, target, p)
    {
    }
  }

  /** Case of the target does not matter: it is lower-cased before comparing. */
  lemma CaseInsensitiveTarget(digest: string -> seq<byte>, target: string, wordlist: Option<seq<string>>)
    ensures CrackWithWordlist(digest, Lower(target), wordlist) == CrackWithWordlist(digest, target, wordlist)
  {
    LowerIdempotent(target);
    FirstMatchCongruence(Wordlist(wordlist), p => Cracks(digest, Lower(target), p), p => Cracks(digest, target, p));
  }

  /** `string.ascii_lowercase + string.digits`. */
  const Charset: string := "abcdefghijklmnopqrstuvwxyz0123456789"

  /** Character `k` of the charset. */
  function CharAt(k: nat): (c: char)
    requires k < 36
    ensures IsLower(c) || IsDigit(c)
  {
    if k < 26 then ('a' as int + k) as char else ('0' as int + k - 26) as char
  }

  /** Position of `c` in the charset (0 for a character outside it). */
  function Index(c: char): (k: nat)
    ensures k < 36
    ensures IsLower(c) || IsDigit(c) ==> CharAt(k) == c
  {
    if IsLower(c) then c as int - 'a' as int
    else if IsDigit(c) then 26 + c as int - '0' as int
    else 0
  }

  lemma CharsetIsCharAt()
    ensures |Charset| == 36
    ensures forall k :: 0 <= k < 36 ==> Charset[k] == CharAt(k)
  {
  }

  predicate OverCharset(s: string) { forall i :: 0 <= i < |s| ==> IsLower(s[i]) || IsDigit(s[i]) }

  function Pow36(n: nat): (r: nat)
    ensures r > 0
  {
    if n == 0 then 1 else 36 * Pow36(n - 1)
  }

  /** The string of length `n` whose base-36 digits, in charset order, spell `i`. */
  function Unrank(n: nat, i: nat): (s: string)
    ensures |s| == n && OverCharset(s)
  {
    if n == 0 then "" else Unrank(n - 1, i / 36) + [CharAt(i % 36)]
  }

  /** `itertools.product(charset, repeat=n)` joined into strings, in its
      order: the last character varies fastest. */
  function Product(n: nat): (ps: seq<string>)
    ensures |ps| == Pow36(n)
  {
    seq(Pow36(n), i requires 0 <= i < Pow36(n) => Unrank(n, i))
  }

  /** The base-36 value of `s` in charset order, most significant character
      first: for a string over the charset, its position among the strings
      of its length in lexicographic order. */
  function Rank(s: string): (r: nat)
    ensures r < Pow36(|s|)
  {
    if |s| == 0 then 0
    else Rank(s[..|s| - 1]) * 36 + Index(s[|s| - 1])
  }

  /** Unranking undoes ranking. */
  lemma {:induction false} UnrankRank(s: string)
    requires OverCharset(s)
    ensures Unrank(|s|, Rank(s)) == s
  {
    if |s| > 0 {
      var init := s[..|s| - 1];
      UnrankRank(init);
      var i := Rank(init) * 36 + Index(s[|s| - 1]);
      assert i / 36 == Rank(init) && i % 36 == Index(s[|s| - 1]);
      assert init + [s[|s| - 1]] == s;
    }
  }

  /** Ranking undoes unranking. */
  lemma {:induction false} RankUnrank(n: nat, i: nat)
    requires i < Pow36(n)
    ensures Rank(Unrank(n, i)) == i
  {
    if n > 0 {
      var s := Unrank(n, i);
      RankUnrank(n - 1, i / 36);
      assert s[..|s| - 1] == Unrank(n - 1, i / 36);
    }
  }

  /** Every string of length `n` over the charset is listed, at its rank. */
  lemma ProductAt(s: string)
    requires OverCharset(s)
    ensures Product(|s|)[Rank(s)] == s
  {
    UnrankRank(s);
  }

  /** The entry at position `i` has rank `i`: the listing is in lexicographic order. */
  lemma RankOfProduct(n: nat, i: nat)
    requires i < |Product(n)|
    ensures Rank(Product(n)[i]) == i
  {
    RankUnrank(n, i);
  }

  /** Number of candidates shorter than `n` in `BruteForce(lo, _)`. */
  function Offset(lo: nat, n: nat): nat
    decreases n - lo
  {
    if n <= lo then 0 else Offset(lo, n - 1) + Pow36(n - 1)
  }

  lemma {:induction false} OffsetStep(lo: nat, n: nat)
    requires lo < n
    ensures Offset(lo, n) == Pow36(lo) + Offset(lo + 1, n)
    decreases n - lo
  {
    if lo + 1 < n {
      OffsetStep(lo, n - 1);
    }
  }

  lemma {:induction false} OffsetMono(lo: nat, m: nat, n: nat)
    requires m <= n
    ensures Offset(lo, m) <= Offset(lo, n)
    decreases n - m
  {
    if m < n {
      OffsetMono(lo, m, n - 1);
    }
  }

  /** The brute-force candidates of lengths `lo` through `hi`, shortest first:
      `for length in range(lo, hi + 1): for password in ...`. */
  function BruteForce(lo: nat, hi: nat): (ps: seq<string>)
    decreases hi + 1 - lo
  {
    if lo > hi then [] else Product(lo) + BruteForce(lo + 1, hi)
  }

  /** There are `36^lo + ... + 36^hi` candidates. */
  lemma {:induction false} BruteForceLength(lo: nat, hi: nat)
    ensures |BruteForce(lo, hi)| == Offset(lo, hi + 1)
    decreases hi + 1 - lo
  {
    if lo <= hi {
      BruteForceLength(lo + 1, hi);
      OffsetStep(lo, hi + 1);
    }
  }

  /** Candidate `j` has a length between `lo` and `hi`, is drawn from the
      charset, and sits at `Offset(lo, length) + Rank`. */
  lemma {:induction false} BruteForceAt(lo: nat, hi: nat, j: nat)
    requires j < |BruteForce(lo, hi)|
    ensures lo <= |BruteForce(lo, hi)[j]| <= hi && OverCharset(BruteForce(lo, hi)[j])
    ensures j == Offset(lo, |BruteForce(lo, hi)[j]|) + Rank(BruteForce(lo, hi)[j])
    decreases hi + 1 - lo
  {
    BlockLength(lo, hi);
    if j < Pow36(lo) {
      FirstBlock(lo, hi, j);
      RankUnrank(lo, j);
      assert Offset(lo, lo) == 0;
    } else {
      var x := j - Pow36(lo);
      LaterBlock(lo, hi, x);
      BruteForceAt(lo + 1, hi, x);
      OffsetStep(lo, |BruteForce(lo + 1, hi)[x]|);
    }
  }

  /** The length-`lo` block is followed by the rest of the listing. */
  lemma BlockLength(lo: nat, hi: nat)
    ensures lo > hi ==> |BruteForce(lo, hi)| == 0
    ensures lo <= hi ==> |BruteForce(lo, hi)| == Pow36(lo) + |BruteForce(lo + 1, hi)|
  {
  }

  /** Entry `r` of the length-`n` listing is candidate `Offset(lo, n) + r`. */
  lemma {:induction false} BruteForceIndex(lo: nat, hi: nat, n: nat, r: nat)
    requires lo <= n <= hi && r < Pow36(n)
    ensures Offset(lo, n) + r < |BruteForce(lo, hi)|
    ensures BruteForce(lo, hi)[Offset(lo, n) + r] == Unrank(n, r)
    decreases hi + 1 - lo
  {
    if lo < n {
      BruteForceIndex(lo + 1, hi, n, r);
      IndexStep(lo, hi, n, r);
    } else {
      FirstBlock(lo, hi, r);
    }
  }

  /** A position in the listing from `lo + 1` moves up by the `36^lo`
      candidates of length `lo` in the listing from `lo`. */
  lemma IndexStep(lo: nat, hi: nat, n: nat, r: nat)
    requires lo < n <= hi
    requires Offset(lo + 1, n) + r < |BruteForce(lo + 1, hi)|
    requires BruteForce(lo + 1, hi)[Offset(lo + 1, n) + r] == Unrank(n, r)
    ensures Offset(lo, n) + r < |BruteForce(lo, hi)|
    ensures BruteForce(lo, hi)[Offset(lo, n) + r] == Unrank(n, r)
  {
    var x := Offset(lo + 1, n) + r;
    LaterBlock(lo, hi, x);
    OffsetStep(lo, n);
  }

  /** The listing starts with the strings of length `lo`. */
  lemma FirstBlock(lo: nat, hi: nat, r: nat)
    requires lo <= hi && r < Pow36(lo)
    ensures Offset(lo, lo) + r < |BruteForce(lo, hi)|
    ensures BruteForce(lo, hi)[Offset(lo, lo) + r] == Unrank(lo, r)
  {
    assert Offset(lo, lo) == 0;
    var block := Product(lo);
    assert BruteForce(lo, hi) == block + BruteForce(lo + 1, hi);
    assert block[r] == Unrank(lo, r);
  }

  /** After them come the longer candidates. */
  lemma LaterBlock(lo: nat, hi: nat, x: nat)
    requires lo <= hi && x < |BruteForce(lo + 1, hi)|
    ensures Pow36(lo) + x < |BruteForce(lo, hi)|
    ensures BruteForce(lo, hi)[Pow36(lo) + x] == BruteForce(lo + 1, hi)[x]
  {
    var block := Product(lo);
    var rest := BruteForce(lo + 1, hi);
    assert BruteForce(lo, hi) == block + rest;
    assert (block + rest)[|block| + x] == rest[x];
  }

  /** Every string of length `lo..hi` over the charset is a candidate, at `Offset(lo, |s|) + Rank(s)`. */
  lemma BruteForceComplete(lo: nat, hi: nat, s: string)
    requires lo <= |s| <= hi && OverCharset(s)
    ensures Offset(lo, |s|) + Rank(s) < |BruteForce(lo, hi)|
    ensures BruteForce(lo, hi)[Offset(lo, |s|) + Rank(s)] == s
  {
    var n, r := |s|, Rank(s);
    UnrankRank(s);
    BruteForceIndex(lo, hi, n, r);
    assert BruteForce(lo, hi)[Offset(lo, n) + r] == s;
  }

  /** `hash_crack_md5`: the dictionary scan, then every string of length 1 to
      5 over the charset, shortest first and in lexicographic order. */
  function CrackMd5(digest: string -> seq<byte>, target: string, wordlist: Option<seq<string>>): (r: Option<string>)
    ensures CrackWithWordlist(digest, target, wordlist).Some? ==> r == CrackWithWordlist(digest, target, wordlist)
    ensures r.Some? ==> Cracks(digest, target, r.value)
    ensures r.Some? ==> r.value in Wordlist(wordlist) || (1 <= |r.value| <= 5 && OverCharset(r.value))
    ensures r.None? <==>
              (forall p :: p in Wordlist(wordlist) ==> !Cracks(digest, target, p))
              && (forall s :: 1 <= |s| <= 5 && OverCharset(s) ==> !Cracks(digest, target, s))
  {
    match CrackWithWordlist(digest, target, wordlist)
    case Some(p) => Some(p)
    case None => BruteForceSearch(p => Cracks(digest, target, p), 1, 5)
  }

  /** The brute-force loop `for length in range(lo, hi + 1)`: the first
      candidate satisfying `p`. It has a length in range and is drawn from
      the charset, and there is none exactly when no such string satisfies `p`. */
  function BruteForceSearch(p: string -> bool, lo: nat, hi: nat): (r: Option<string>)
    ensures r.Some? ==> lo <= |r.value| <= hi && OverCharset(r.value) && p(r.value)
    ensures r.None? <==> forall s :: lo <= |s| <= hi && OverCharset(s) ==> !p(s)
  {
    var ps := BruteForce(lo, hi);
    var r := FirstMatch(ps, p);
    if r.Some? then
      BruteForceAt(lo, hi, FirstIndex(ps, p).value);
      r
    else
      assert forall s :: lo <= |s| <= hi && OverCharset(s) ==> !p(s) by {
        forall s | lo <= |s| <= hi && OverCharset(s)
          ensures !p(s)
        {
          BruteForceComplete(lo, hi, s);
        }
      }
      r
  }

  /** The MD5 search is one first-match scan over the dictionary followed by the candidates. */
  lemma Md5ScanOrder(digest: string -> seq<byte>, target: string, wordlist: Option<seq<string>>)
    ensures CrackMd5(digest, target, wordlist)
            == FirstMatch(Wordlist(wordlist) + BruteForce(1, 5), p => Cracks(digest, target, p))
  {
    assert BruteForceSearch(p => Cracks(digest, target, p), 1, 5)
           == FirstMatch(BruteForce(1, 5), p => Cracks(digest, target, p));
    FirstMatchAppend(Wordlist(wordlist), BruteForce(1, 5), p => Cracks(digest, target, p));
  }

  /** A brute-forced answer is the least cracking candidate: no shorter
      string, and no string of its length earlier in lexicographic order,
      cracks the target. */
  lemma BruteForceMinimal(digest: string -> seq<byte>, target: string, wordlist: Option<seq<string>>, t: string)
    requires CrackWithWordlist(digest, target, wordlist).None?
    requires CrackMd5(digest, target, wordlist).Some?
    requires 1 <= |t| && OverCharset(t)
    requires |t| < |CrackMd5(digest, target, wordlist).value|
             || (|t| == |CrackMd5(digest, target, wordlist).value|
                 && Rank(t) < Rank(CrackMd5(digest, target, wordlist).value))
    ensures !Cracks(digest, target, t)
  {
    var p := q => Cracks(digest, target, q);
    assert CrackMd5(digest, target, wordlist) == FirstMatch(BruteForce(1, 5), p);
    FirstCandidateMinimal(1, 5, p, t);
  }

  /** Before the first candidate satisfying `p`, no candidate does: neither a
      shorter one nor an earlier one of the same length. */
  lemma FirstCandidateMinimal(lo: nat, hi: nat, p: string -> bool, t: string)
    requires FirstMatch(BruteForce(lo, hi), p).Some?
    requires lo <= |t| && OverCharset(t)
    requires |t| < |FirstMatch(BruteForce(lo, hi), p).value|
             || (|t| == |FirstMatch(BruteForce(lo, hi), p).value|
                 && Rank(t) < Rank(FirstMatch(BruteForce(lo, hi), p).value))
    ensures !p(t)
  {
    var ps := BruteForce(lo, hi);
    var j := FirstIndex(ps, p).value;
    var s := ps[j];
    assert FirstMatch(ps, p).value == s;
    BruteForceAt(lo, hi, j);
    BruteForceComplete(lo, hi, t);
    var k := Offset(lo, |t|) + Rank(t);
    if |t| < |s| {
      ShorterFirst(lo, t, |s|);
    }
    assert k < j;
    assert ps[k] == t;
  }

  /** Every string shorter than `n` comes before all strings of length `n`. */
  lemma ShorterFirst(lo: nat, t: string, n: nat)
    requires lo <= |t| < n
    ensures Offset(lo, |t|) + Rank(t) < Offset(lo, n)
  {
    assert Offset(lo, |t| + 1) == Offset(lo, |t|) + Pow36(|t|);
    OffsetMono(lo, |t| + 1, n);
  }
}
