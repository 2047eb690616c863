/**
 * The `Plural-Forms` header value (src/index.ts `parsePluralForms`): the form count after
 * `nplurals=` and the plural expression after `plural=`, and the coercion applied to what the
 * expression evaluates to. The expression itself is evaluated by the JavaScript engine
 * (`new Function`); here that evaluation is an abstract `Evaluator`.
 */
module PluralForms {
  import opened Wrappers
  import opened Strings

  /**
   * A plurals descriptor. `length` is the form count; `countToIndex` holds the source text of
   * the plural expression from which the source builds its count-to-index closure.
   */
  datatype Plurals = Plurals(length: Option<nat>, countToIndex: Option<string>)

  /** What evaluating a plural expression for one count yields. */
  datatype EvalResult = BoolResult(b: bool) | IntResult(n: int)

  /** The JavaScript engine's evaluation of a plural expression with `n` bound to a count. */
  type Evaluator = (string, int) -> EvalResult

  // ---------------------------------------------------------------------------------------------
  // The two regular expressions: a literal followed by one or more characters of a class

  /** The two character classes the source's patterns repeat: `[0-9]` and `[^;]`. */
  datatype CharClass = Digit | NotSemicolon

  predicate InClass(c: char, q: CharClass) {
    match q
    case Digit => IsDigit(c)
    case NotSemicolon => c != ';'
  }

  /** Whether `lit` followed by at least one character satisfying `q` starts at position `i`. */
  predicate MatchesAt(s: string, lit: string, q: CharClass, i: nat) {
    OccursAt(s, lit, i) && i + |lit| < |s| && InClass(s[i + |lit|], q)
  }

  /** Length of the longest run of characters satisfying `q` starting at `k`. */
  function Run(s: string, k: nat, q: CharClass): (n: nat)
    requires k <= |s|
    ensures k + n <= |s|
    ensures forall j :: k <= j < k + n ==> InClass(s[j], q)
    ensures k + n == |s| || !InClass(s[k + n], q)
    decreases |s| - k
  {
    if k < |s| && InClass(s[k], q) then 1 + Run(s, k + 1, q) else 0
  }

  /** The leftmost position at or after `from` where a match starts. */
  function FindMatch(s: string, lit: string, q: CharClass, from: nat): (r: Option<nat>)
    ensures r.Some? ==> from <= r.value && MatchesAt(s, lit, q, r.value)
    ensures r.Some? ==> forall j :: from <= j < r.value ==> !MatchesAt(s, lit, q, j)
    ensures r.None? ==> forall j :: from <= j ==> !MatchesAt(s, lit, q, j)
    decreases |s| - from
  {
    if from >= |s| then None
    else if MatchesAt(s, lit, q, from) then Some(from)
    else FindMatch(s, lit, q, from + 1)
  }

  /**
   * The capture group of `lit([q]+)` matched against `s`, as `(s.match(re) || [])[1]`:
   * the longest run of `q` characters after the leftmost match of the literal.
   */
  function Capture(s: string, lit: string, q: CharClass): (r: Option<string>)
    ensures r.Some? ==> |r.value| >= 1 && forall k :: 0 <= k < |r.value| ==> InClass(r.value[k], q)
  {
    match FindMatch(s, lit, q, 0)
    case None => None
    case Some(i) =>
      var start := i + |lit|;
      Some(s[start..start + Run(s, start, q)])
  }

  /** The capture is present exactly when the literal is followed by a `q` character somewhere. */
  lemma CapturePresence(s: string, lit: string, q: CharClass)
    ensures Capture(s, lit, q).Some? <==> exists i: nat :: MatchesAt(s, lit, q, i)
  {
    if Capture(s, lit, q).Some? {
      var i := FindMatch(s, lit, q, 0).value;
      assert MatchesAt(s, lit, q, i);
    }
  }

  /** The capture starts right after the leftmost match and takes every `q` character there. */
  lemma CaptureValue(s: string, lit: string, q: CharClass, i: nat)
    requires MatchesAt(s, lit, q, i)
    requires forall j :: 0 <= j < i ==> !MatchesAt(s, lit, q, j)
    ensures Capture(s, lit, q) == Some(s[i + |lit|..i + |lit| + Run(s, i + |lit|, q)])
    ensures |Capture(s, lit, q).value| >= 1
  {
    var r := FindMatch(s, lit, q, 0);
    assert r.Some?;
    assert !(r.value < i) && !(i < r.value);
  }

  /** Every character of a capture is a character of the matched text. */
  lemma CaptureChars(s: string, lit: string, q: CharClass)
    ensures Capture(s, lit, q).Some? ==> forall c :: c in Capture(s, lit, q).value ==> c in s
  {
    match FindMatch(s, lit, q, 0)
    case None =>
    case Some(i) =>
      var start := i + |lit|;
      var d := s[start..start + Run(s, start, q)];
      forall c | c in d
        ensures c in s
      {
        var k :| 0 <= k < |d| && d[k] == c;
        assert s[start + k] == c;
      }
  }

  // ---------------------------------------------------------------------------------------------
  // parsePluralForms

  /** `${text};`.split(";") always has at least two pieces. */
  lemma SplitTerminated(text: string)
    ensures |Split(text + ";", ";")| >= 2
  {
    var s := text + ";";
    assert OccursAt(s, ";", |text|) by {
      assert s[|text|..|text| + 1] == ";";
    }
    var i := IndexOf(s, ";").value;
    assert Split(s, ";") == [s[..i]] + Split(s[i + 1..], ";");
  }

  /** The first `;`-separated segment of `text + ";"`, trimmed: where `nplurals=` is looked for. */
  function CountSegment(text: string): string {
    SplitTerminated(text);
    Trim(Split(text + ";", ";")[0])
  }

  /** The second `;`-separated segment of `text + ";"`, trimmed: where `plural=` is looked for. */
  function ExpressionSegment(text: string): string {
    SplitTerminated(text);
    Trim(Split(text + ";", ";")[1])
  }

  /**
   * `parseInt((segment.match(/nplurals=([0-9]+)/) || [])[1])` with NaN as `None`: the digits
   * after the leftmost `nplurals=` that is followed by a digit, read as a decimal number.
   */
  function CountValue(segment: string): Option<nat> {
    match Capture(segment, "nplurals=", Digit)
    case Some(d) => Some(DecimalValue(d))
    case None => None
  }

  /** `(segment.match(/plural=([^;]+)/) || [])[1]`; a non-empty capture is always truthy. */
  function ExpressionValue(segment: string): (r: Option<string>)
    ensures r.Some? ==> |r.value| >= 1 && ';' !in r.value
  {
    Capture(segment, "plural=", NotSemicolon)
  }

  /** `parsePluralForms` without evaluating the expression. */
  function ParsePluralForms(text: string): Plurals {
    Plurals(CountValue(CountSegment(text)), ExpressionValue(ExpressionSegment(text)))
  }

  /**
   * `length` is present exactly when the first segment contains `nplurals=` followed by a
   * digit, and `countToIndex` exactly when the second contains `plural=` followed by a character
   * other than `;`.
   */
  lemma ParsePluralFormsPresence(text: string)
    ensures ParsePluralForms(text).length.Some? <==>
      exists i: nat :: MatchesAt(CountSegment(text), "nplurals=", Digit, i)
    ensures ParsePluralForms(text).countToIndex.Some? <==>
      exists i: nat :: MatchesAt(ExpressionSegment(text), "plural=", NotSemicolon, i)
  {
    CapturePresence(CountSegment(text), "nplurals=", Digit);
    CapturePresence(ExpressionSegment(text), "plural=", NotSemicolon);
  }

  /**
   * The form count is the value of the digits right after the leftmost `nplurals=` of the
   * segment that is followed by a digit, and those digits are the longest run there.
   */
  lemma ParsedLength(segment: string, i: nat)
    requires MatchesAt(segment, "nplurals=", Digit, i)
    requires forall k :: 0 <= k < i ==> !MatchesAt(segment, "nplurals=", Digit, k)
    ensures var digits := segment[i + 9..i + 9 + Run(segment, i + 9, Digit)];
      |digits| >= 1 && AllDigits(digits) && CountValue(segment) == Some(DecimalValue(digits))
  {
    CaptureValue(segment, "nplurals=", Digit, i);
    RunIsDigits(segment, i + 9);
  }

  lemma RunIsDigits(s: string, k: nat)
    requires k <= |s|
    ensures AllDigits(s[k..k + Run(s, k, Digit)])
  {
    var d := s[k..k + Run(s, k, Digit)];
    forall m | 0 <= m < |d|
      ensures IsDigit(d[m])
    {
      assert d[m] == s[k + m];
      assert InClass(s[k + m], Digit);
    }
  }

  /**
   * The expression is everything after the leftmost `plural=` of the second segment that is
   * followed by a character.
   */
  lemma ParsedExpression(text: string, j: nat)
    requires MatchesAt(ExpressionSegment(text), "plural=", NotSemicolon, j)
    requires forall k :: 0 <= k < j ==> !MatchesAt(ExpressionSegment(text), "plural=", NotSemicolon, k)
    ensures ParsePluralForms(text).countToIndex == Some(ExpressionSegment(text)[j + 7..])
  {
    ExpressionSegmentHasNoSemicolon(text);
    CaptureToEnd(ExpressionSegment(text), "plural=", j);
  }

  lemma CaptureToEnd(t: string, lit: string, j: nat)
    requires MatchesAt(t, lit, NotSemicolon, j)
    requires forall k :: 0 <= k < j ==> !MatchesAt(t, lit, NotSemicolon, k)
    requires forall k :: 0 <= k < |t| ==> t[k] != ';'
    ensures Capture(t, lit, NotSemicolon) == Some(t[j + |lit|..])
  {
    CaptureValue(t, lit, NotSemicolon, j);
    RunToEnd(t, j + |lit|, NotSemicolon);
    assert t[j + |lit|..|t|] == t[j + |lit|..];
  }

  lemma ExpressionSegmentHasNoSemicolon(text: string)
    ensures forall k :: 0 <= k < |ExpressionSegment(text)| ==> ExpressionSegment(text)[k] != ';'
  {
    SplitTerminated(text);
    var parts := Split(text + ";", ";");
    SplitJoin(text + ";", ";");
    assert IndexOf(parts[1], ";").None?;
    forall k | 0 <= k < |ExpressionSegment(text)|
      ensures ExpressionSegment(text)[k] != ';'
    {
      TrimIsInside(parts[1], k);
    }
  }

  /** A character other than `;` that the text lacks is never part of the expression. */
  lemma ExpressionFromText(text: string, c: char)
    requires c != ';' && c !in text
    ensures ParsePluralForms(text).countToIndex.Some? ==> c !in ParsePluralForms(text).countToIndex.value
  {
    SplitTerminated(text);
    var parts := Split(text + ";", ";");
    SplitJoin(text + ";", ";");
    JoinHolds(parts, ";", 1);
    TrimChars(parts[1]);
    CaptureChars(ExpressionSegment(text), "plural=", NotSemicolon);
  }

  lemma RunToEnd(s: string, k: nat, q: CharClass)
    requires k <= |s|
    requires forall j :: k <= j < |s| ==> InClass(s[j], q)
    ensures Run(s, k, q) == |s| - k
    decreases |s| - k
  {
    if k < |s| {
      RunToEnd(s, k + 1, q);
    }
  }

  /** Every character of `Trim(s)` is a character of `s`; a piece contains no separator. */
  lemma TrimIsInside(s: string, k: nat)
    requires k < |Trim(s)|
    requires IndexOf(s, ";").None?
    ensures Trim(s)[k] != ';'
  {
    var i := TrimOffset(s) + k;
    assert Trim(s)[k] == s[i] by {
      TrimSlice(s);
    }
    AbsentChar(s, ';');
  }

  // ---------------------------------------------------------------------------------------------
  // countToIndex and the fallback rule

  /** The closure `parsePluralForms` builds: a boolean becomes 1 or 0, a number is kept. */
  function CountToIndex(evaluate: Evaluator, expression: string, count: int): (index: int)
    ensures evaluate(expression, count).BoolResult? ==>
      (index == 1 <==> evaluate(expression, count).b) && (index == 0 <==> !evaluate(expression, count).b)
    ensures evaluate(expression, count).IntResult? ==> index == evaluate(expression, count).n
  {
    match evaluate(expression, count)
    case BoolResult(b) => if b then 1 else 0
    case IntResult(n) => n
  }

  /** `fallbackCountToIndex`: the two-form rule used when no plural expression applies. */
  function FallbackCountToIndex(count: int): (index: nat)
    ensures index < 2
    ensures index == 0 <==> count == 1
  {
    if count != 1 then 1 else 0
  }
}
