/** `solve_math_captcha`, `solve_text_captcha`, the two answer extractors and
    the `solve_captcha_question` dispatcher: answering the arithmetic and
    trivia questions of the shop's CAPTCHA. */
module Captcha {
  import opened Wrappers
  import opened Text
  import opened Search

  /** The regular-expression class `\s`, restricted to ASCII: space, the
      controls from tab to carriage return, and the four separators
      0x1C to 0x1F that Python also counts as white space. */
  predicate IsSpace(c: char) {
    c == ' ' || 9 <= c as int <= 13 || 28 <= c as int <= 31
  }

  /** The two character classes of the pattern: `\d` and `\s`. */
  datatype CharClass = Digits | Spaces

  predicate In(c: char, cls: CharClass) {
    match cls
    case Digits => IsDigit(c)
    case Spaces => IsSpace(c)
  }

  /** Length of the longest run of `cls` characters starting at `i`. */
  function Span(s: string, i: nat, cls: CharClass): (n: nat)
    requires i <= |s|
    ensures i + n <= |s|
    decreases |s| - i
  {
    if i < |s| && In(s[i], cls) then 1 + Span(s, i + 1, cls) else 0
  }

  /** Every character of the span is of the class, and the character after
      it, if any, is not. */
  lemma {:induction false} SpanAll(s: string, i: nat, cls: CharClass)
    requires i <= |s|
    ensures forall k :: i <= k < i + Span(s, i, cls) ==> In(s[k], cls)
    ensures i + Span(s, i, cls) == |s| || !In(s[i + Span(s, i, cls)], cls)
    decreases |s| - i
  {
    if i < |s| && In(s[i], cls) {
      SpanAll(s, i + 1, cls);
    }
  }

  /** A run of `cls` characters that cannot be extended is exactly the span. */
  lemma {:induction false} SpanExact(s: string, i: nat, j: nat, cls: CharClass)
    requires i <= j <= |s|
    requires forall k :: i <= k < j ==> In(s[k], cls)
    requires j == |s| || !In(s[j], cls)
    ensures Span(s, i, cls) == j - i
    decreases j - i
  {
    if i < j {
      SpanExact(s, i + 1, j, cls);
    }
  }

  /** A run of `cls` characters never reaches beyond the span. */
  lemma {:induction false} SpanCovers(s: string, i: nat, j: nat, cls: CharClass)
    requires i <= j <= |s|
    requires forall k :: i <= k < j ==> In(s[k], cls)
    ensures j <= i + Span(s, i, cls)
    decreases j - i
  {
    if i < j {
      SpanCovers(s, i + 1, j, cls);
    }
  }

  /** The four operators, in the order their patterns are tried. */
  const Operators: seq<char> := ['+', '-', '*', '/']

  predicate IsOperator(c: char) { c in Operators }

  /** `s[i..e]` is one way of matching `(\d+)\s*op\s*(\d+)`: digits up to
      `j`, white space up to `k`, the operator at `k`, white space up to `m`
      and digits up to `e`. */
  predicate IsMatch(s: string, op: char, i: nat, j: nat, k: nat, m: nat, e: nat) {
    i < j <= k < m <= e <= |s| && m < e
    && (forall x :: i <= x < j ==> IsDigit(s[x]))
    && (forall x :: j <= x < k ==> IsSpace(s[x]))
    && s[k] == op
    && (forall x :: k + 1 <= x < m ==> IsSpace(s[x]))
    && (forall x :: m <= x < e ==> IsDigit(s[x]))
  }

  /** The two numbers the pattern captures when the match starts at `i`.
      Both `\d+` and both `\s*` are greedy, and backing off any of them
      leaves a digit or a space where the pattern needs the operator or a
      space, so the first match the regular-expression engine finds takes
      every run whole. */
  function MatchAt(s: string, op: char, i: nat): (r: Option<(nat, nat)>)
    requires i <= |s|
  {
    SpanAll(s, i, Digits);
    var j := i + Span(s, i, Digits);
    var k := j + Span(s, j, Spaces);
    if j == i || k == |s| || s[k] != op then None
    else
      var m := k + 1 + Span(s, k + 1, Spaces);
      var e := m + Span(s, m, Digits);
      SpanAll(s, m, Digits);
      if e == m then None
      else Some((ParseNat(s[i..j]), ParseNat(s[m..e])))
  }

  /** What `MatchAt` finds is a match, with both numbers taken whole. */
  lemma MatchAtSound(s: string, op: char, i: nat)
    requires i <= |s| && MatchAt(s, op, i).Some?
    ensures exists j: nat, k: nat, m: nat, e: nat :: IsMatch(s, op, i, j, k, m, e)
              && (e == |s| || !IsDigit(s[e]))
              && MatchAt(s, op, i) == Some((ParseNat(s[i..j]), ParseNat(s[m..e])))
  {
    var j := i + Span(s, i, Digits);
    var k := j + Span(s, j, Spaces);
    var m := k + 1 + Span(s, k + 1, Spaces);
    var e := m + Span(s, m, Digits);
    SpansMatch(s, op, i, j, k, m, e);
    assert MatchAt(s, op, i) == Some((ParseNat(s[i..j]), ParseNat(s[m..e])));
  }

  lemma SpansMatch(s: string, op: char, i: nat, j: nat, k: nat, m: nat, e: nat)
    requires i <= |s| && MatchAt(s, op, i).Some?
    requires j == i + Span(s, i, Digits) && k == j + Span(s, j, Spaces)
    requires k < |s| && m == k + 1 + Span(s, k + 1, Spaces) && e == m + Span(s, m, Digits)
    ensures IsMatch(s, op, i, j, k, m, e) && (e == |s| || !IsDigit(s[e]))
  {
    SpanAll(s, i, Digits);
    SpanAll(s, j, Spaces);
    SpanAll(s, k + 1, Spaces);
    SpanAll(s, m, Digits);
  }

  /** Wherever the pattern can match at `i`, `MatchAt` finds a match there. */
  lemma MatchAtComplete(s: string, op: char, i: nat, j: nat, k: nat, m: nat, e: nat)
    requires IsOperator(op) && IsMatch(s, op, i, j, k, m, e)
    ensures MatchAt(s, op, i).Some?
  {
    SpanExact(s, i, j, Digits);
    SpanExact(s, j, k, Spaces);
    SpanExact(s, k + 1, m, Spaces);
    SpanCovers(s, m, e, Digits);
  }

  /** At one starting position there is only one match whose second number
      is taken whole: every boundary is forced by the character classes. */
  lemma MatchUnique(s: string, op: char, i: nat, j: nat, k: nat, m: nat, e: nat,
                    j2: nat, k2: nat, m2: nat, e2: nat)
    requires IsOperator(op)
    requires IsMatch(s, op, i, j, k, m, e) && (e == |s| || !IsDigit(s[e]))
    requires IsMatch(s, op, i, j2, k2, m2, e2) && (e2 == |s| || !IsDigit(s[e2]))
    ensures j == j2 && k == k2 && m == m2 && e == e2
  {
    assert !IsDigit(s[j]) && !IsDigit(s[j2]);
    assert !IsSpace(s[k]) && !IsSpace(s[k2]);
    assert !IsSpace(s[m]) && !IsSpace(s[m2]);
  }

  /** A match whose second number is taken whole is the one `MatchAt` reports. */
  lemma MatchAtGroups(s: string, op: char, i: nat, j: nat, k: nat, m: nat, e: nat)
    requires IsOperator(op) && IsMatch(s, op, i, j, k, m, e)
    requires e == |s| || !IsDigit(s[e])
    ensures MatchAt(s, op, i) == Some((ParseNat(s[i..j]), ParseNat(s[m..e])))
  {
    SpansExact(s, op, i, j, k, m, e);
  }

  /** The boundaries of such a match are the ones `MatchAt` computes. */
  lemma SpansExact(s: string, op: char, i: nat, j: nat, k: nat, m: nat, e: nat)
    requires IsOperator(op) && IsMatch(s, op, i, j, k, m, e)
    requires e == |s| || !IsDigit(s[e])
    ensures j == i + Span(s, i, Digits) && k == j + Span(s, j, Spaces)
    ensures m == k + 1 + Span(s, k + 1, Spaces) && e == m + Span(s, m, Digits)
  {
    assert !IsDigit(s[j]) && !IsSpace(s[k]) && !IsSpace(s[m]);
    SpanExact(s, i, j, Digits);
    SpanExact(s, j, k, Spaces);
    SpanExact(s, k + 1, m, Spaces);
    SpanExact(s, m, e, Digits);
  }

  /** `re.search`: the match at the leftmost position from `i` on where the
      pattern matches. */
  function Leftmost(s: string, op: char, i: nat): (r: Option<nat>)
    requires i <= |s|
    ensures r.Some? ==> i <= r.value <= |s| && MatchAt(s, op, r.value).Some?
    decreases |s| - i
  {
    if MatchAt(s, op, i).Some? then Some(i)
    else if i == |s| then None
    else Leftmost(s, op, i + 1)
  }

  /** No position before the reported one matches, and when none is
      reported no position matches at all. */
  lemma {:induction false} LeftmostFirst(s: string, op: char, i: nat, x: nat)
    requires i <= x <= |s|
    requires Leftmost(s, op, i).None? || x < Leftmost(s, op, i).value
    ensures MatchAt(s, op, x).None?
    decreases x - i
  {
    if i < x {
      LeftmostFirst(s, op, i + 1, x);
    }
  }

  /** `re.search(pattern, text)` with its two groups converted by `int`. */
  function Find(s: string, op: char): Option<(nat, nat)> {
    match Leftmost(s, op, 0)
    case None => None
    case Some(x) => MatchAt(s, op, x)
  }

  /** The search fails exactly when the pattern matches nowhere. */
  lemma FindNoneIffNoMatch(s: string, op: char)
    requires IsOperator(op)
    ensures Find(s, op).None? <==>
              forall i: nat, j: nat, k: nat, m: nat, e: nat :: !IsMatch(s, op, i, j, k, m, e)
  {
    if Find(s, op).None? {
      forall i: nat, j: nat, k: nat, m: nat, e: nat | IsMatch(s, op, i, j, k, m, e)
        ensures false
      {
        MatchAtComplete(s, op, i, j, k, m, e);
        LeftmostFirst(s, op, 0, i);
      }
    } else {
      var x := Leftmost(s, op, 0).value;
      MatchAtSound(s, op, x);
    }
  }

  /** A successful search has seen its operator in the text. */
  lemma FindSeesOperator(s: string, op: char)
    requires Find(s, op).Some?
    ensures op in s
  {
    var x := Leftmost(s, op, 0).value;
    MatchAtSound(s, op, x);
  }

  /** The first operator whose pattern matches, with its two numbers. */
  function FirstPattern(s: string, ops: seq<char>): (r: Option<(char, (nat, nat))>)
    ensures r.Some? ==> r.value.0 in ops && Find(s, r.value.0) == Some(r.value.1)
    ensures r.None? <==> forall x :: x in ops ==> Find(s, x).None?
    ensures r.Some? ==> exists i :: 0 <= i < |ops| && ops[i] == r.value.0 && EarlierFail(s, ops, i)
    decreases |ops|
  {
    if |ops| == 0 then None
    else match Find(s, ops[0])
      case Some(ab) =>
        assert EarlierFail(s, ops, 0);
        Some((ops[0], ab))
      case None =>
        var r := FirstPattern(s, ops[1..]);
        assert forall x :: x in ops ==> x == ops[0] || x in ops[1..];
        if r.Some? then PatternShift(s, ops, r.value.0); r else r
  }

  /** No pattern before position `i` of `ops` matches `s`. */
  predicate EarlierFail(s: string, ops: seq<char>, i: nat) {
    forall j :: 0 <= j < i && j < |ops| ==> Find(s, ops[j]).None?
  }

  /** A pattern that is first among `ops[1..]` is first among `ops` when
      `ops[0]` does not match. */
  lemma PatternShift(s: string, ops: seq<char>, op: char)
    requires |ops| > 0 && Find(s, ops[0]).None?
    requires exists i :: 0 <= i < |ops[1..]| && ops[1..][i] == op && EarlierFail(s, ops[1..], i)
    ensures exists i :: 0 <= i < |ops| && ops[i] == op && EarlierFail(s, ops, i)
  {
    var i :| 0 <= i < |ops[1..]| && ops[1..][i] == op && EarlierFail(s, ops[1..], i);
    assert EarlierFail(s, ops, i + 1) by {
      forall j | 0 <= j < i + 1 && j < |ops|
        ensures Find(s, ops[j]).None?
      {
        if j > 0 {
          assert ops[j] == ops[1..][j - 1];
        }
      }
    }
  }

  /** The operator actually applied: the first of `+ - * /` anywhere in the text. */
  function FirstPresent(s: string): (r: Option<char>)
    ensures r.Some? ==> r.value in Operators && r.value in s
    ensures r.None? <==> forall x :: x in Operators ==> x !in s
  {
    FirstMatch(Operators, x => x in s)
  }

  /** The arithmetic; `None` for the division by zero that raises. Floor
      division on non-negative operands is Dafny's `/`. */
  function Apply(op: char, a: nat, b: nat): (r: Option<int>)
    requires IsOperator(op)
    ensures r.None? <==> op == '/' && b == 0
  {
    if op == '+' then Some(a + b)
    else if op == '-' then Some(a - b)
    else if op == '*' then Some(a * b)
    else if b == 0 then None
    else Some(a / b)
  }

  /** What one pass of the pattern loop does once a pattern has matched. */
  datatype Outcome = Answer(value: int) | Raised | Skip

  /** The `if '+' in captcha_text ... elif '/' in captcha_text ... else:
      continue` chain, as written. */
  function Evaluate(s: string, a: nat, b: nat): Outcome {
    if '+' in s then Answer(a + b)
    else if '-' in s then Answer(a - b)
    else if '*' in s then Answer(a * b)
    else if '/' in s then (if b == 0 then Raised else Answer(a / b))
    else Skip
  }

  /** The pattern loop over `ops`, as written: a zero divisor ends the whole
      solver with `None`, `continue` moves to the next pattern. */
  function SolveFrom(s: string, ops: seq<char>): Option<string>
    decreases |ops|
  {
    if |ops| == 0 then None
    else match Find(s, ops[0])
      case None => SolveFrom(s, ops[1..])
      case Some((a, b)) =>
        match Evaluate(s, a, b)
        case Answer(v) => Some(IntToString(v))
        case Raised => None
        case Skip => SolveFrom(s, ops[1..])
  }

  /** The two-step reading of the solver: the first matching pattern
      supplies the numbers, the first operator present anywhere the
      arithmetic, which need not be the operator that matched. */
  function MathAnswer(s: string): Option<string> {
    match FirstPattern(s, Operators)
    case None => None
    case Some((_, (a, b))) =>
      match FirstPresent(s)
      case None => None
      case Some(op) =>
        match Apply(op, a, b)
        case None => None
        case Some(v) => Some(IntToString(v))
  }

  /** `solve_math_captcha(text)`. */
  function SolveMath(s: string): (r: Option<string>)
    ensures r == MathAnswer(s)
    ensures r.Some? ==> |r.value| > 0
  {
    MathLoop(s, Operators);
    SolveFrom(s, Operators)
  }

  /** The loop over the patterns, with its `continue` and its caught
      exception, agrees with the two-step reading. */
  lemma {:induction false} MathLoop(s: string, ops: seq<char>)
    requires forall x :: x in ops ==> IsOperator(x)
    ensures SolveFrom(s, ops) == match FirstPattern(s, ops)
                                 case None => None
                                 case Some((_, (a, b))) =>
                                   match FirstPresent(s)
                                   case None => None
                                   case Some(op) =>
                                     match Apply(op, a, b)
                                     case None => None
                                     case Some(v) => Some(IntToString(v))
    decreases |ops|
  {
    if |ops| > 0 {
      match Find(s, ops[0])
      case None =>
        assert forall x :: x in ops[1..] ==> x in ops;
        MathLoop(s, ops[1..]);
      case Some(ab) =>
        FindSeesOperator(s, ops[0]);
        assert IsOperator(ops[0]) by { assert ops[0] in ops; }
        EvaluateIsApply(s, ops[0], ab.0, ab.1);
    }
  }

  /** With an operator in the text, the `elif` chain applies the first one present. */
  lemma EvaluateIsApply(s: string, op: char, a: nat, b: nat)
    requires op in Operators && op in s
    ensures FirstPresent(s).Some?
    ensures Evaluate(s, a, b) == match Apply(FirstPresent(s).value, a, b)
                                 case None => Raised
                                 case Some(v) => Answer(v)
  {
    var p := FirstPresent(s).value;
    assert Operators == ['+', '-', '*', '/'];
    if '+' in s {
      assert Operators[0] == '+';
    } else if '-' in s {
      assert Operators[1] == '-';
    } else if '*' in s {
      assert Operators[2] == '*';
    }
  }

  /** The pattern starts with `\d+`: no match starts at a non-digit. */
  lemma NoDigitNoMatch(s: string, op: char, i: nat)
    requires i < |s| && !IsDigit(s[i])
    ensures MatchAt(s, op, i).None?
  {
    assert Span(s, i, Digits) == 0;
  }

  /** No match starts at a position that does not hold a digit. */
  lemma {:induction false} LeftmostSkips(s: string, op: char, i: nat, t: nat)
    requires i <= t <= |s|
    requires forall x :: i <= x < t ==> !IsDigit(s[x])
    ensures Leftmost(s, op, i) == Leftmost(s, op, t)
    decreases t - i
  {
    if i < t {
      NoDigitNoMatch(s, op, i);
      LeftmostSkips(s, op, i + 1, t);
    }
  }

  /** The documented example: "What is 3+7?" gives "10". */
  lemma DocumentedExample()
    ensures SolveMath("What is 3+7?") == Some("10")
  {
    ExampleFind("What is 3+7?");
    OnlyPlusAdds("What is 3+7?", 3, 7);
    TenToString();
  }

  lemma TenToString()
    ensures IntToString(10) == "10"
  {
    assert NatToString(10) == NatToString(1) + [DigitChar(0)];
  }

  /** The leftmost `+` match in the example is `3+7`. */
  lemma ExampleFind(s: string)
    requires s == "What is 3+7?"
    ensures Find(s, '+') == Some((3, 7))
  {
    ExampleMatch(s);
    LeftmostSkips(s, '+', 0, 8);
  }

  lemma ExampleMatch(s: string)
    requires s == "What is 3+7?"
    ensures MatchAt(s, '+', 8) == Some((3, 7))
  {
    assert IsMatch(s, '+', 8, 9, 9, 10, 11);
    MatchAtGroups(s, '+', 8, 9, 9, 10, 11);
    assert s[8..9] == "3" && s[10..11] == "7";
    assert ParseNat("3") == 3 && ParseNat("7") == 7 by {
      assert "3"[..0] == "" && "7"[..0] == "";
    }
  }

  /** Once the `+` pattern matches, the numbers of its leftmost match are
      added, whatever other operators the text holds. */
  lemma OnlyPlusAdds(s: string, a: nat, b: nat)
    requires Find(s, '+') == Some((a, b))
    ensures SolveMath(s) == Some(IntToString(a + b))
  {
    assert FirstPattern(s, Operators) == Some(('+', (a, b)));
    FindSeesOperator(s, '+');
    assert FirstPresent(s) == Some('+');
  }

  /** `int(a) // int(b)` with a zero divisor raises and the handler turns it
      into `None`; this happens only when `/` is the sole operator present. */
  lemma DivisionByZero(s: string, a: nat)
    requires '+' !in s && '-' !in s && '*' !in s
    requires Find(s, '/') == Some((a, 0))
    ensures SolveMath(s).None?
  {
    FindSeesOperator(s, '/');
    assert FirstPresent(s) == Some('/');
    assert FirstPattern(s, Operators) == Some(('/', (a, 0)));
  }

  /** The five questions `solve_text_captcha` knows, with their answers. */
  const KnownQuestions: seq<(string, string)> := [
    ("What is the name of the company behind the Juice Shop?", "OWASP"),
    ("What is the first name of the person who started the OWASP Juice Shop project?", "Björn"),
    ("How many main characters are there in the Dunder Mifflin Scranton sitcom?", "9"),
    ("What is the answer to the Ultimate Question of Life, the Universe and Everything?", "42"),
    ("What is the name of the authentication method that does not require a password?", "OAuth")
  ]

  /** `_extract_what_is_answer`. */
  function ExtractWhatIs(text: string): (r: Option<string>)
    ensures r.Some? ==> r.value == "42" || r.value == "OWASP"
    ensures r == Some("42") <==> Contains(Lower(text), "ultimate question")
    ensures r.None? <==> !Contains(Lower(text), "ultimate question") && !Contains(Lower(text), "owasp")
  {
    var low := Lower(text);
    if Contains(low, "ultimate question") then Some("42")
    else if Contains(low, "owasp") then Some("OWASP")
    else None
  }

  /** `_extract_how_many_answer`. */
  function ExtractHowMany(text: string): (r: Option<string>)
    ensures r.Some? ==> r.value == "9"
    ensures r.Some? <==> Contains(Lower(text), "main characters") && Contains(Lower(text), "dunder mifflin")
  {
    var low := Lower(text);
    if Contains(low, "main characters") && Contains(low, "dunder mifflin") then Some("9") else None
  }

  /** The extractors ignore case. */
  lemma ExtractorsIgnoreCase(text: string)
    ensures ExtractWhatIs(Lower(text)) == ExtractWhatIs(text)
    ensures ExtractHowMany(Lower(text)) == ExtractHowMany(text)
  {
    LowerIdempotent(text);
  }

  /** The `solutions` dictionary, in insertion order: the five questions and
      the two pattern keys, whose values the extractors have already computed. */
  function Solutions(text: string): (table: seq<(string, Option<string>)>)
    ensures |table| == |KnownQuestions| + 2
    ensures forall i :: 0 <= i < |KnownQuestions| ==>
              table[i] == (KnownQuestions[i].0, Some(KnownQuestions[i].1))
    ensures table[|KnownQuestions|] == ("What is", ExtractWhatIs(text))
    ensures table[|KnownQuestions| + 1] == ("How many", ExtractHowMany(text))
  {
    seq(|KnownQuestions|, i requires 0 <= i < |KnownQuestions| => (KnownQuestions[i].0, Some(KnownQuestions[i].1)))
    + [("What is", ExtractWhatIs(text)), ("How many", ExtractHowMany(text))]
  }

  /** `table[key]` for a present key, `None` for an absent one. */
  function Lookup(table: seq<(string, Option<string>)>, key: string): (r: Option<Option<string>>)
    ensures r.None? <==> forall i :: 0 <= i < |table| ==> table[i].0 != key
    ensures r.Some? ==> exists i :: 0 <= i < |table| && table[i] == (key, r.value)
  {
    if |table| == 0 then None
    else if table[0].0 == key then Some(table[0].1)
    else
      var r := Lookup(table[1..], key);
      assert forall i :: 1 <= i < |table| ==> table[i] == table[1..][i - 1];
      r
  }

  /** No two of the five questions are the same text, and neither pattern
      key is one of them. */
  lemma QuestionsDistinct()
    ensures forall i, j :: 0 <= i < j < |KnownQuestions| ==> KnownQuestions[i].0 != KnownQuestions[j].0
    ensures forall i :: 0 <= i < |KnownQuestions| ==>
              KnownQuestions[i].0 != "What is" && KnownQuestions[i].0 != "How many"
  {
    forall i, j | 0 <= i < j < |KnownQuestions|
      ensures KnownQuestions[i].0 != KnownQuestions[j].0
    {
      assert KnownQuestions[i].0[8] != KnownQuestions[j].0[8]
          || KnownQuestions[i].0[12] != KnownQuestions[j].0[12]
          || |KnownQuestions[i].0| != |KnownQuestions[j].0|;
    }
  }

  /** Looked up as text of their own, the two pattern keys yield nothing. */
  lemma PatternKeysAnswerNothing()
    ensures ExtractWhatIs("What is").None? && ExtractHowMany("How many").None?
  {
    var low := Lower("What is");
    assert low == "what is";
    forall i | 0 <= i <= |low| - 5
      ensures !OccursAt(low, "owasp", i)
    {
      assert low[i..i + 5][0] == low[i] != 'o';
    }
    assert |Lower("How many")| < |"main characters"|;
  }

  /** `solve_text_captcha(text)`. The second loop only looks at callable
      values, and every value is a string or `None`, so it never answers. */
  function SolveText(text: string): (r: Option<string>)
    ensures r.Some? <==> exists i :: 0 <= i < |KnownQuestions| && KnownQuestions[i].0 == text
    ensures forall i :: 0 <= i < |KnownQuestions| && KnownQuestions[i].0 == text ==>
              r == Some(KnownQuestions[i].1)
    ensures r.Some? ==> |r.value| > 0
  {
    var table := Solutions(text);
    QuestionsDistinct();
    PatternKeysAnswerNothing();
    match Lookup(table, text)
    case Some(answer) => answer
    case None => None
  }

  /** Python's truth test on an optional answer: neither `None` nor empty. */
  predicate Truthy(a: Option<string>) { a.Some? && a.value != "" }

  /** `common_answers`; the fallback loop returns its first entry. */
  const FallbackAnswers: seq<string> := ["42", "OWASP", "admin", "test", "0", "1"]

  /** `solve_captcha_question(question)`: never `None`. */
  function SolveQuestion(question: string): (r: Option<string>)
    ensures r.Some? && |r.value| > 0
    ensures SolveMath(question).Some? ==> r == SolveMath(question)
    ensures SolveMath(question).None? && SolveText(question).Some? ==> r == SolveText(question)
    ensures SolveMath(question).None? && SolveText(question).None? ==> r == Some("42")
  {
    var math := SolveMath(question);
    var text := SolveText(question);
    if Truthy(math) then math
    else if Truthy(text) then text
    else Some(FallbackAnswers[0])
  }
}
