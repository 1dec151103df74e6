/** `_is_likely_plaintext`: the cheap "does this look like text" gate that
    every Caesar and XOR candidate must pass. */
module Plausibility {
  import opened Text

  const CommonWords: seq<string> := ["the", "and", "you", "that", "was", "for", "are", "with", "his", "they"]

  const HintWords: seq<string> := ["admin", "password", "user", "flag"]

  /** How many characters of `s` are printable. */
  function PrintableCount(s: string): (n: nat)
    ensures n <= |s|
    ensures n == |s| <==> forall i :: 0 <= i < |s| ==> IsPrintable(s[i])
  {
    if |s| == 0 then 0
    else
      var n := (if IsPrintable(s[0]) then 1 else 0) + PrintableCount(s[1..]);
      assert forall i :: 1 <= i < |s| ==> s[i] == s[1..][i - 1];
      n
  }

  /** The count adds up over concatenation and counts one for each single
      printable character, so it is the number of printable characters. */
  lemma {:induction false} PrintableCountAppend(s: string, t: string)
    ensures PrintableCount(s + t) == PrintableCount(s) + PrintableCount(t)
    ensures |s| == 1 ==> PrintableCount(s) == if IsPrintable(s[0]) then 1 else 0
    decreases |s|
  {
    if |s| == 0 {
      assert s + t == t;
    } else {
      assert (s + t)[1..] == s[1..] + t;
      PrintableCountAppend(s[1..], t);
    }
  }

  /** `sum(1 for word in words if word in text)`. */
  function WordCount(text: string, words: seq<string>): (n: nat)
    ensures n <= |words|
    ensures n > 0 <==> exists i :: 0 <= i < |words| && Contains(text, words[i])
  {
    if |words| == 0 then 0
    else
      var n := (if Contains(text, words[0]) then 1 else 0) + WordCount(text, words[1..]);
      assert forall i :: 1 <= i < |words| ==> words[i] == words[1..][i - 1];
      n
  }

  /** `any(word in text for word in words)`. */
  predicate AnyWord(text: string, words: seq<string>) {
    exists i :: 0 <= i < |words| && Contains(text, words[i])
  }

  /** The text is non-empty, at least four fifths of it is printable (the
      source compares the ratio with `0.8`; `5 * printable >= 4 * length` is
      the same test without floating point), and its lower-case form contains
      one of the fourteen listed words. */
  function IsLikelyPlaintext(text: string): (r: bool)
    ensures r ==> |text| > 0
    ensures r <==> |text| > 0 && 5 * PrintableCount(text) >= 4 * |text|
                   && exists w :: w in CommonWords + HintWords && Contains(Lower(text), w)
  {
    if |text| == 0 then false
    else if 5 * PrintableCount(text) < 4 * |text| then false
    else
      var low := Lower(text);
      assert forall i :: 0 <= i < |CommonWords| ==> CommonWords[i] == (CommonWords + HintWords)[i];
      assert forall i :: 0 <= i < |HintWords| ==> HintWords[i] == (CommonWords + HintWords)[|CommonWords| + i];
      WordCount(low, CommonWords) > 0 || AnyWord(low, HintWords)
  }

  lemma {:induction false} PrintableCountLower(s: string)
    ensures PrintableCount(Lower(s)) == PrintableCount(s)
  {
    if |s| > 0 {
      assert Lower(s)[1..] == Lower(s[1..]);
      PrintableCountLower(s[1..]);
    }
  }

  /** The verdict ignores case: a text and its lower-case form are judged alike. */
  lemma CaseInsensitive(text: string)
    ensures IsLikelyPlaintext(Lower(text)) == IsLikelyPlaintext(text)
  {
    LowerIdempotent(text);
    PrintableCountLower(text);
  }
}
