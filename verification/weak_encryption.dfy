/** `crack_weak_encryption`: every classical decoder is tried in a fixed order
    and each result that passes its gate is reported. */
module WeakEncryption {
  import opened Text
  import Classical
  import opened Plausibility

  /** Which decoder produced a finding; the source reports it as the strings
      `base64`, `rot13`, `caesar_shift_<k>` and `xor_<key>`. */
  datatype Strategy = Base64 | Rot13 | Caesar(shift: int) | Xor(key: string)

  /** One entry of `results`; its `success` flag is always true and is left implicit. */
  datatype Finding = Finding(strategy: Strategy, plaintext: string)

  datatype Report = Report(results: seq<Finding>, totalMethodsTried: nat)

  /** The XOR keys, in the order they are tried. */
  const XorKeys: seq<Classical.XorKey> := ["key", "password", "secret", "admin"]

  /** The `method` string the source attaches to a finding. */
  function Name(m: Strategy): string {
    match m
    case Base64 => "base64"
    case Rot13 => "rot13"
    case Caesar(k) => "caesar_shift_" + IntToString(k)
    case Xor(key) => "xor_" + key
  }

  /** The methods the breaker can report. */
  predicate Recognised(m: Strategy) {
    match m
    case Base64 => false
    case Rot13 => true
    case Caesar(k) => 1 <= k <= 25
    case Xor(key) => key in XorKeys
  }

  /** What a recognised method decodes `s` to. */
  function Decoded(m: Strategy, s: string): string
    requires Recognised(m)
  {
    match m
    case Rot13 => Classical.Rot13(s)
    case Caesar(k) => Classical.Caesar(s, k)
    case Xor(key) => Classical.XorDecode(s, key)
  }

  /** Position of a method in the order the strategies run. */
  function Rank(m: Strategy): int {
    match m
    case Base64 => 0
    case Rot13 => 1
    case Caesar(k) => 1 + k
    case Xor(key) => 27 + KeyIndex(key)
  }

  function KeyIndex(key: string): (i: nat)
    ensures key in XorKeys ==> i < |XorKeys| && XorKeys[i] == key
  {
    if key == "key" then 0 else if key == "password" then 1
    else if key == "secret" then 2 else if key == "admin" then 3 else 4
  }

  predicate HasStrategy(rs: seq<Finding>, m: Strategy) {
    exists i :: 0 <= i < |rs| && rs[i].strategy == m
  }

  /** Every entry is a recognised method carrying what that method decodes. */
  predicate Faithful(rs: seq<Finding>, s: string) {
    forall i :: 0 <= i < |rs| ==> Recognised(rs[i].strategy) && rs[i].plaintext == Decoded(rs[i].strategy, s)
  }

  /** Entries appear in strictly increasing strategy order, hence at most once each. */
  predicate Ordered(rs: seq<Finding>) {
    forall i, j :: 0 <= i < j < |rs| ==> Rank(rs[i].strategy) < Rank(rs[j].strategy)
  }

  predicate RanksWithin(rs: seq<Finding>, lo: int, hi: int) {
    forall i :: 0 <= i < |rs| ==> lo <= Rank(rs[i].strategy) < hi
  }

  lemma HasStrategyAppend(a: seq<Finding>, b: seq<Finding>, m: Strategy)
    ensures HasStrategy(a + b, m) <==> HasStrategy(a, m) || HasStrategy(b, m)
  {
    if HasStrategy(a, m) {
      var i :| 0 <= i < |a| && a[i].strategy == m;
      assert (a + b)[i] == a[i];
    }
    if HasStrategy(b, m) {
      var i :| 0 <= i < |b| && b[i].strategy == m;
      assert (a + b)[|a| + i] == b[i];
    }
  }

  /** A strategy ranked outside a band does not occur among entries ranked inside it. */
  lemma NotInBand(rs: seq<Finding>, m: Strategy, lo: int, hi: int)
    requires RanksWithin(rs, lo, hi) && !(lo <= Rank(m) < hi)
    ensures !HasStrategy(rs, m)
  {
  }

  lemma AppendInvariants(a: seq<Finding>, b: seq<Finding>, s: string, lo: int, mid: int, hi: int)
    requires Faithful(a, s) && Faithful(b, s)
    requires Ordered(a) && Ordered(b) && RanksWithin(a, lo, mid) && RanksWithin(b, mid, hi)
    requires lo <= mid <= hi
    ensures Faithful(a + b, s) && Ordered(a + b) && RanksWithin(a + b, lo, hi)
  {
    var c := a + b;
    assert forall i :: 0 <= i < |a| ==> c[i] == a[i];
    assert forall i :: |a| <= i < |c| ==> c[i] == b[i - |a|];
  }

  /** In the concatenation of the three reporting strategies, a method is
      found exactly in the part whose band holds its rank. */
  lemma ConcatMembership(r: seq<Finding>, c: seq<Finding>, x: seq<Finding>, m: Strategy)
    requires RanksWithin(r, 1, 2) && RanksWithin(c, 2, 27) && RanksWithin(x, 27, 31)
    ensures HasStrategy(r + c + x, m) <==>
              if Rank(m) == 1 then HasStrategy(r, m)
              else if 2 <= Rank(m) < 27 then HasStrategy(c, m)
              else if 27 <= Rank(m) < 31 then HasStrategy(x, m)
              else false
  {
    HasStrategyAppend(r + c, x, m);
    HasStrategyAppend(r, c, m);
    if Rank(m) != 1 { NotInBand(r, m, 1, 2); }
    if !(2 <= Rank(m) < 27) { NotInBand(c, m, 2, 27); }
    if !(27 <= Rank(m) < 31) { NotInBand(x, m, 27, 31); }
  }

  lemma XorMembership(r: seq<Finding>, c: seq<Finding>, x: seq<Finding>, i: nat)
    requires i < |XorKeys|
    requires RanksWithin(r, 1, 2) && RanksWithin(c, 2, 27) && RanksWithin(x, 27, 31)
    ensures HasStrategy(r + c + x, Xor(XorKeys[i])) <==> HasStrategy(x, Xor(XorKeys[i]))
  {
    KeyIndexOf(i);
    ConcatMembership(r, c, x, Xor(XorKeys[i]));
  }

  /** The three reporting parts, concatenated, keep the invariants and report no base64. */
  lemma AssembledInvariants(r: seq<Finding>, c: seq<Finding>, x: seq<Finding>, s: string)
    requires Faithful(r, s) && Ordered(r) && RanksWithin(r, 1, 2)
    requires Faithful(c, s) && Ordered(c) && RanksWithin(c, 2, 27)
    requires Faithful(x, s) && Ordered(x) && RanksWithin(x, 27, 31)
    ensures Faithful(r + c + x, s) && Ordered(r + c + x)
    ensures forall i :: 0 <= i < |r + c + x| ==> (r + c + x)[i].strategy != Base64
  {
    AppendInvariants(r, c, s, 1, 2, 27);
    AppendInvariants(r + c, x, s, 1, 27, 31);
    var rs := r + c + x;
    forall i | 0 <= i < |rs|
      ensures rs[i].strategy != Base64
    {
      assert 1 <= Rank(rs[i].strategy);
    }
  }

  /** The Caesar part decides alone which shifts the concatenation reports. */
  lemma AssembledCaesar(r: seq<Finding>, c: seq<Finding>, x: seq<Finding>, s: string, gate: string -> bool)
    requires RanksWithin(r, 1, 2) && RanksWithin(c, 2, 27) && RanksWithin(x, 27, 31)
    requires forall k :: 1 <= k <= 25 ==> (HasStrategy(c, Caesar(k)) <==> gate(Classical.Caesar(s, k)))
    ensures forall k :: 1 <= k <= 25 ==> (HasStrategy(r + c + x, Caesar(k)) <==> gate(Classical.Caesar(s, k)))
  {
    forall k | 1 <= k <= 25
      ensures HasStrategy(r + c + x, Caesar(k)) <==> gate(Classical.Caesar(s, k))
    {
      ConcatMembership(r, c, x, Caesar(k));
    }
  }

  /** The XOR part decides alone which keys the concatenation reports. */
  lemma AssembledXor(r: seq<Finding>, c: seq<Finding>, x: seq<Finding>, s: string, gate: string -> bool)
    requires RanksWithin(r, 1, 2) && RanksWithin(c, 2, 27) && RanksWithin(x, 27, 31)
    requires forall i :: 0 <= i < |XorKeys| ==>
               (HasStrategy(x, Xor(XorKeys[i])) <==> gate(Classical.XorDecode(s, XorKeys[i])))
    ensures forall i :: 0 <= i < |XorKeys| ==>
              (HasStrategy(r + c + x, Xor(XorKeys[i])) <==> gate(Classical.XorDecode(s, XorKeys[i])))
  {
    forall i | 0 <= i < |XorKeys|
      ensures HasStrategy(r + c + x, Xor(XorKeys[i])) <==> gate(Classical.XorDecode(s, XorKeys[i]))
    {
      XorMembership(r, c, x, i);
    }
  }

  lemma EmptyPrefix(b: seq<Finding>, rest: seq<Finding>)
    requires b == []
    ensures b + rest == rest
  {
  }

  lemma KeyIndexOf(i: nat)
    requires i < |XorKeys|
    ensures KeyIndex(XorKeys[i]) == i
  {
  }

  /** The base64 strategy. It calls `isprintable()` on `bytes`, which has no
      such method; the `AttributeError` is swallowed, so it never reports. */
  function Base64Results(s: string): seq<Finding> {
    []
  }

  /** The ROT13 strategy: reported whenever the decoding is non-empty. */
  function Rot13Results(s: string): (rs: seq<Finding>)
    ensures Faithful(rs, s) && Ordered(rs) && RanksWithin(rs, 1, 2)
    ensures HasStrategy(rs, Rot13) <==> |s| > 0
  {
    var r := Classical.Rot13(s);
    var rs := if r != "" then [Finding(Rot13, r)] else [];
    assert |s| > 0 ==> rs[0].strategy == Rot13;
    rs
  }

  /** The Caesar strategy for shifts `from` through 25, in ascending order,
      keeping the decodings that pass `gate`. */
  function CaesarResults(s: string, from: int, gate: string -> bool): (rs: seq<Finding>)
    requires 1 <= from <= 26
    ensures Faithful(rs, s) && Ordered(rs) && RanksWithin(rs, 1 + from, 27)
    ensures forall k :: from <= k <= 25 ==> (HasStrategy(rs, Caesar(k)) <==> gate(Classical.Caesar(s, k)))
    decreases 26 - from
  {
    if from == 26 then []
    else
      var c := Classical.Caesar(s, from);
      var head := if gate(c) then [Finding(Caesar(from), c)] else [];
      var tail := CaesarResults(s, from + 1, gate);
      assert RanksWithin(head, 1 + from, 2 + from);
      forall k | from <= k <= 25
        ensures HasStrategy(head + tail, Caesar(k)) <==> gate(Classical.Caesar(s, k))
      {
        HasStrategyAppend(head, tail, Caesar(k));
        if k == from {
          NotInBand(tail, Caesar(k), 2 + from, 27);
          assert gate(c) ==> head[0].strategy == Caesar(k);
        } else {
          NotInBand(head, Caesar(k), 1 + from, 2 + from);
        }
      }
      AppendInvariants(head, tail, s, 1 + from, 2 + from, 27);
      head + tail
  }

  /** The XOR strategy for the keys from position `from` on, in list order,
      keeping the decodings that pass `gate`. */
  function XorResults(s: string, from: nat, gate: string -> bool): (rs: seq<Finding>)
    requires from <= |XorKeys|
    ensures Faithful(rs, s) && Ordered(rs) && RanksWithin(rs, 27 + from, 31)
    ensures forall i :: from <= i < |XorKeys| ==>
              (HasStrategy(rs, Xor(XorKeys[i])) <==> gate(Classical.XorDecode(s, XorKeys[i])))
    decreases |XorKeys| - from
  {
    if from == |XorKeys| then []
    else
      var key := XorKeys[from];
      var x := Classical.XorDecode(s, key);
      var head := if gate(x) then [Finding(Xor(key), x)] else [];
      var tail := XorResults(s, from + 1, gate);
      XorHead(s, from, gate, head);
      XorStep(s, from, gate, head, tail);
      AppendInvariants(head, tail, s, 27 + from, 28 + from, 31);
      head + tail
  }

  /** The entry for one key is faithful and ranked at that key's place. */
  lemma XorHead(s: string, from: nat, gate: string -> bool, head: seq<Finding>)
    requires from < |XorKeys|
    requires var x := Classical.XorDecode(s, XorKeys[from]);
             head == if gate(x) then [Finding(Xor(XorKeys[from]), x)] else []
    ensures Faithful(head, s) && Ordered(head) && RanksWithin(head, 27 + from, 28 + from)
  {
    KeyIndexOf(from);
  }

  /** One more key in front: the keys the XOR results report stay exactly
      those whose decoding passes the gate. */
  lemma XorStep(s: string, from: nat, gate: string -> bool, head: seq<Finding>, tail: seq<Finding>)
    requires from < |XorKeys|
    requires var x := Classical.XorDecode(s, XorKeys[from]);
             head == if gate(x) then [Finding(Xor(XorKeys[from]), x)] else []
    requires RanksWithin(head, 27 + from, 28 + from) && RanksWithin(tail, 28 + from, 31)
    requires forall i :: from + 1 <= i < |XorKeys| ==>
               (HasStrategy(tail, Xor(XorKeys[i])) <==> gate(Classical.XorDecode(s, XorKeys[i])))
    ensures forall i :: from <= i < |XorKeys| ==>
              (HasStrategy(head + tail, Xor(XorKeys[i])) <==> gate(Classical.XorDecode(s, XorKeys[i])))
  {
    forall i | from <= i < |XorKeys|
      ensures HasStrategy(head + tail, Xor(XorKeys[i])) <==> gate(Classical.XorDecode(s, XorKeys[i]))
    {
      HasStrategyAppend(head, tail, Xor(XorKeys[i]));
      KeyIndexOf(i);
      if i == from {
        NotInBand(tail, Xor(XorKeys[i]), 28 + from, 31);
        assert gate(Classical.XorDecode(s, XorKeys[i])) ==> head[0].strategy == Xor(XorKeys[i]);
      } else {
        NotInBand(head, Xor(XorKeys[i]), 27 + from, 28 + from);
      }
    }
  }

  /** All strategies in order with the Caesar and XOR results filtered by `gate`. */
  function RunStrategies(ciphertext: string, gate: string -> bool): (rep: Report)
    ensures rep.totalMethodsTried == |rep.results|
    ensures forall i :: 0 <= i < |rep.results| ==> rep.results[i].strategy != Base64
    ensures Faithful(rep.results, ciphertext)
    ensures Ordered(rep.results)
    ensures HasStrategy(rep.results, Rot13) <==> |ciphertext| > 0
    ensures forall k :: 1 <= k <= 25 ==>
              (HasStrategy(rep.results, Caesar(k)) <==> gate(Classical.Caesar(ciphertext, k)))
    ensures forall i :: 0 <= i < |XorKeys| ==>
              (HasStrategy(rep.results, Xor(XorKeys[i])) <==> gate(Classical.XorDecode(ciphertext, XorKeys[i])))
  {
    var r := Rot13Results(ciphertext);
    var c := CaesarResults(ciphertext, 1, gate);
    var x := XorResults(ciphertext, 0, gate);
    AssembledInvariants(r, c, x, ciphertext);
    ConcatMembership(r, c, x, Rot13);
    AssembledCaesar(r, c, x, ciphertext, gate);
    AssembledXor(r, c, x, ciphertext, gate);
    var b := Base64Results(ciphertext);
    EmptyPrefix(b, r + c + x);
    var results := b + (r + c + x);
    Report(results, |results|)
  }

  /** `crack_weak_encryption(ciphertext)`: base64, then ROT13, then Caesar
      shifts 1 to 25, then the four XOR keys, concatenated in that order, with
      `_is_likely_plaintext` as the gate. */
  function CrackWeakEncryption(ciphertext: string): (rep: Report)
    ensures rep.totalMethodsTried == |rep.results|
    ensures forall i :: 0 <= i < |rep.results| ==> rep.results[i].strategy != Base64
    ensures Faithful(rep.results, ciphertext)
    ensures Ordered(rep.results)
    ensures HasStrategy(rep.results, Rot13) <==> |ciphertext| > 0
    ensures forall k :: 1 <= k <= 25 ==>
              (HasStrategy(rep.results, Caesar(k)) <==> IsLikelyPlaintext(Classical.Caesar(ciphertext, k)))
    ensures forall i :: 0 <= i < |XorKeys| ==>
              (HasStrategy(rep.results, Xor(XorKeys[i])) <==> IsLikelyPlaintext(Classical.XorDecode(ciphertext, XorKeys[i])))
  {
    RunStrategies(ciphertext, IsLikelyPlaintext)
  }
}
