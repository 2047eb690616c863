/**
 * The JavaScript string operations the translator relies on, as total functions on `seq<char>`:
 * global single-character `replace`, `indexOf`, `split` and `join` with a non-empty separator,
 * `trim`, and decimal digit strings as produced by `String(n)` and read by `parseInt`.
 */
module Strings {
  import opened Wrappers

  // ---------------------------------------------------------------------------------------------
  // Character classes

  /** The characters `String.prototype.trim` removes: ECMAScript WhiteSpace and LineTerminator. */
  predicate IsWhitespace(c: char) {
    || c == '\t' || c == '\n' || c == '\U{B}' || c == '\U{C}' || c == '\r' || c == ' '
    || c == '\U{A0}' || c == '\U{1680}' || ('\U{2000}' <= c <= '\U{200A}')
    || c == '\U{2028}' || c == '\U{2029}' || c == '\U{202F}' || c == '\U{205F}'
    || c == '\U{3000}' || c == '\U{FEFF}'
  }

  predicate IsDigit(c: char) {
    '0' <= c <= '9'
  }

  /** The class `[a-z]` of a JavaScript regular expression without the `i` flag. */
  predicate IsLowerLetter(c: char) {
    'a' <= c <= 'z'
  }

  predicate AllDigits(s: string) {
    forall i :: 0 <= i < |s| ==> IsDigit(s[i])
  }

  // ---------------------------------------------------------------------------------------------
  // replace(/c/g, r)

  /** `s.replace(/c/g, r)` for a single literal character `c` and a replacement without `$`. */
  function Replace(s: string, c: char, r: string): (t: string)
    ensures c !in r ==> c !in t
    ensures c !in s ==> t == s
  {
    if s == [] then [] else (if s[0] == c then r else [s[0]]) + Replace(s[1..], c, r)
  }

  lemma {:induction false} ReplaceAppend(a: string, b: string, c: char, r: string)
    ensures Replace(a + b, c, r) == Replace(a, c, r) + Replace(b, c, r)
  {
    if a != [] {
      var head := if a[0] == c then r else [a[0]];
      assert (a + b)[0] == a[0] && (a + b)[1..] == a[1..] + b;
      assert Replace(a + b, c, r) == head + Replace(a[1..] + b, c, r);
      ReplaceAppend(a[1..], b, c, r);
      AppendAssociative(head, Replace(a[1..], c, r), Replace(b, c, r));
    } else {
      assert a + b == b;
    }
  }

  lemma AppendAssociative<T>(x: seq<T>, y: seq<T>, z: seq<T>)
    ensures x + (y + z) == (x + y) + z
  {
  }

  /** Number of occurrences of `c` in `s`. */
  function Count(s: string, c: char): nat {
    if s == [] then 0 else (if s[0] == c then 1 else 0) + Count(s[1..], c)
  }

  lemma {:induction false} CountAppend(a: string, b: string, c: char)
    ensures Count(a + b, c) == Count(a, c) + Count(b, c)
  {
    if a != [] {
      assert (a + b)[1..] == a[1..] + b;
      CountAppend(a[1..], b, c);
    } else {
      assert a + b == b;
    }
  }

  lemma {:induction false} CountAbsent(s: string, c: char)
    requires c !in s
    ensures Count(s, c) == 0
  {
    if s != [] {
      CountAbsent(s[1..], c);
    }
  }

  /** Position of the first `c` in `s` (|s| when there is none). */
  function CharIndex(s: string, c: char): nat {
    if s == [] || s[0] == c then 0 else 1 + CharIndex(s[1..], c)
  }

  lemma {:induction false} CharIndexAfter(a: string, b: string, c: char)
    requires c !in a
    ensures CharIndex(a + [c] + b, c) == |a|
  {
    if a != [] {
      assert (a + [c] + b)[1..] == a[1..] + [c] + b;
      CharIndexAfter(a[1..], b, c);
    }
  }

  /** A separator that occurs in neither left-hand part determines where the parts meet. */
  lemma UniqueSeparator(a1: string, b1: string, a2: string, b2: string, c: char)
    requires c !in a1 && c !in a2
    requires a1 + [c] + b1 == a2 + [c] + b2
    ensures a1 == a2 && b1 == b2
  {
    var k1, k2 := a1 + [c] + b1, a2 + [c] + b2;
    CharIndexAfter(a1, b1, c);
    CharIndexAfter(a2, b2, c);
    assert a1 == k1[..|a1|] == k2[..|a2|] == a2;
    assert b1 == k1[|a1| + 1..] == k2[|a2| + 1..] == b2;
  }

  // ---------------------------------------------------------------------------------------------
  // indexOf, split, join

  /** Whether `sep` occurs in `s` starting at position `p`. */
  predicate OccursAt(s: string, sep: string, p: nat) {
    p + |sep| <= |s| && s[p..p + |sep|] == sep
  }

  /** `s.indexOf(sep)`: the leftmost position at which `sep` occurs, if any. */
  function IndexOf(s: string, sep: string): (r: Option<nat>)
    ensures r.Some? ==> OccursAt(s, sep, r.value)
    ensures r.Some? ==> forall p: nat :: p < r.value ==> !OccursAt(s, sep, p)
    ensures r.None? ==> forall p: nat :: !OccursAt(s, sep, p)
    decreases |s|
  {
    if |s| < |sep| then None
    else if s[..|sep|] == sep then Some(0)
    else
      OccursShift(s, sep);
      match IndexOf(s[1..], sep)
      case None => None
      case Some(i) => Some(i + 1)
  }

  lemma OccursShift(s: string, sep: string)
    requires |s| >= 1
    ensures forall p: nat :: p >= 1 ==> (OccursAt(s, sep, p) <==> OccursAt(s[1..], sep, p - 1))
  {
    forall p: nat | p >= 1
      ensures OccursAt(s, sep, p) <==> OccursAt(s[1..], sep, p - 1)
    {
      if p + |sep| <= |s| {
        var t := s[1..];
        var a, b := s[p..p + |sep|], t[p - 1..p - 1 + |sep|];
        forall j | 0 <= j < |sep|
          ensures a[j] == b[j]
        {
          assert a[j] == s[p + j];
          assert b[j] == t[p - 1 + j] == s[p + j];
        }
        assert a == b;
        assert s[p..p + |sep|] == t[p - 1..p - 1 + |sep|];
      }
    }
  }

  /** A one-character separator that does not occur is a character that does not appear. */
  lemma AbsentChar(s: string, c: char)
    requires IndexOf(s, [c]).None?
    ensures c !in s
  {
  }

  /** A character that does not appear does not occur as a one-character separator. */
  lemma NoCharNoIndex(s: string, c: char)
    requires c !in s
    ensures IndexOf(s, [c]).None?
  {
    forall p: nat | p + 1 <= |s|
      ensures !OccursAt(s, [c], p)
    {
      assert s[p..p + 1] == [s[p]];
    }
  }

  /** The first occurrence of `c` in `a + [c] + b`, when `a` has none, is right after `a`. */
  lemma IndexOfChar(a: string, b: string, c: char)
    requires c !in a
    ensures IndexOf(a + [c] + b, [c]) == Some(|a|)
  {
    var s := a + [c] + b;
    assert s[|a|..|a| + 1] == [c];
    assert OccursAt(s, [c], |a|);
    forall p: nat | p < |a|
      ensures !OccursAt(s, [c], p)
    {
      assert s[p..p + 1] == [a[p]];
    }
  }

  /** `s.split(sep)` for a non-empty separator: the pieces between non-overlapping occurrences. */
  function Split(s: string, sep: string): (parts: seq<string>)
    requires |sep| > 0
    ensures |parts| >= 1
    decreases |s|
  {
    match IndexOf(s, sep)
    case None => [s]
    case Some(i) => [s[..i]] + Split(s[i + |sep|..], sep)
  }

  /** `parts.join(sep)`. */
  function Join(parts: seq<string>, sep: string): string {
    if parts == [] then ""
    else if |parts| == 1 then parts[0]
    else parts[0] + sep + Join(parts[1..], sep)
  }

  /** A prefix of `s` that ends before the first occurrence of `sep` contains no occurrence of it. */
  lemma PrefixBeforeFirst(s: string, sep: string, i: nat)
    requires |sep| > 0 && i <= |s|
    requires forall p: nat :: p < i ==> !OccursAt(s, sep, p)
    ensures IndexOf(s[..i], sep).None?
  {
    var t := s[..i];
    if IndexOf(t, sep).Some? {
      var q := IndexOf(t, sep).value;
      assert t[q..q + |sep|] == s[q..q + |sep|];
      assert OccursAt(s, sep, q);
      assert false;
    }
  }

  /** Splitting at the first occurrence: the first piece ends there, the rest is split again. */
  lemma SplitFirst(s: string, sep: string, i: nat)
    requires |sep| > 0 && IndexOf(s, sep) == Some(i)
    ensures Split(s, sep) == [s[..i]] + Split(s[i + |sep|..], sep)
  {
  }

  /** Splitting at a one-character separator that `a` does not contain: `a` is the first piece. */
  lemma SplitAfterChar(a: string, b: string, c: char)
    requires c !in a
    ensures Split(a + [c] + b, [c]) == [a] + Split(b, [c])
  {
    var s := a + [c] + b;
    IndexOfChar(a, b, c);
    SplitFirst(s, [c], |a|);
    assert s[..|a|] == a && s[|a| + 1..] == b;
  }

  lemma SplitFirstJoin(s: string, sep: string, i: nat)
    requires |sep| > 0 && OccursAt(s, sep, i)
    ensures s == s[..i] + sep + s[i + |sep|..]
  {
    assert s[i..i + |sep|] == sep;
    assert s == s[..i] + s[i..i + |sep|] + s[i + |sep|..];
  }

  lemma JoinCons(a: string, parts: seq<string>, sep: string)
    requires |parts| >= 1
    ensures Join([a] + parts, sep) == a + sep + Join(parts, sep)
  {
    assert ([a] + parts)[1..] == parts;
  }

  /** Every character of a piece is a character of the joined string. */
  lemma {:induction false} JoinHolds(parts: seq<string>, sep: string, k: nat)
    requires k < |parts|
    ensures forall c :: c in parts[k] ==> c in Join(parts, sep)
    decreases |parts|
  {
    if |parts| >= 2 {
      JoinCons(parts[0], parts[1..], sep);
      assert [parts[0]] + parts[1..] == parts;
      if k > 0 {
        JoinHolds(parts[1..], sep, k - 1);
        assert parts[1..][k - 1] == parts[k];
      }
    }
  }

  /** Splitting and joining again gives back the string, and no piece contains the separator. */
  lemma {:induction false} SplitJoin(s: string, sep: string)
    requires |sep| > 0
    ensures Join(Split(s, sep), sep) == s
    ensures forall k :: 0 <= k < |Split(s, sep)| ==> IndexOf(Split(s, sep)[k], sep).None?
    decreases |s|
  {
    match IndexOf(s, sep)
    case None =>
    case Some(i) =>
      var rest := s[i + |sep|..];
      SplitJoin(rest, sep);
      SplitFirst(s, sep, i);
      SplitFirstJoin(s, sep, i);
      PrefixBeforeFirst(s, sep, i);
      JoinCons(s[..i], Split(rest, sep), sep);
      var parts := Split(s, sep);
      forall k | 0 <= k < |parts|
        ensures IndexOf(parts[k], sep).None?
      {
        if k > 0 {
          assert parts[k] == Split(rest, sep)[k - 1];
        }
      }
  }

  // ---------------------------------------------------------------------------------------------
  // trim

  /** `s.trimStart()`: drops the leading whitespace and nothing else. */
  function TrimStart(s: string): (t: string)
    ensures t == [] || !IsWhitespace(t[0])
    ensures |t| <= |s| && t == s[|s| - |t|..]
    ensures forall j :: 0 <= j < |s| - |t| ==> IsWhitespace(s[j])
  {
    if s != [] && IsWhitespace(s[0]) then TrimStart(s[1..]) else s
  }

  /** `s.trimEnd()`: drops the trailing whitespace and nothing else. */
  function TrimEnd(s: string): (t: string)
    ensures t == [] || !IsWhitespace(t[|t| - 1])
    ensures |t| <= |s| && t == s[..|t|]
    ensures forall j :: |t| <= j < |s| ==> IsWhitespace(s[j])
  {
    if s != [] && IsWhitespace(s[|s| - 1]) then TrimEnd(s[..|s| - 1]) else s
  }

  /** `s.trim()`. */
  function Trim(s: string): (t: string)
    ensures t == [] || (!IsWhitespace(t[0]) && !IsWhitespace(t[|t| - 1]))
  {
    var u := TrimStart(s);
    var t := TrimEnd(u);
    assert t != [] ==> t[0] == u[0];
    t
  }

  /** A string with no whitespace at either end is its own trim. */
  lemma TrimTrimmed(s: string)
    requires s == [] || (!IsWhitespace(s[0]) && !IsWhitespace(s[|s| - 1]))
    ensures Trim(s) == s
  {
  }

  /** Where `Trim(s)` starts inside `s`. */
  function TrimOffset(s: string): nat {
    |s| - |TrimStart(s)|
  }

  /**
   * `Trim(s)` is the slice of `s` from the first to the last non-whitespace character: every
   * character outside it is whitespace, so every other character of `s` lies inside it.
   */
  lemma TrimSlice(s: string)
    ensures TrimOffset(s) + |Trim(s)| <= |s|
    ensures Trim(s) == s[TrimOffset(s)..TrimOffset(s) + |Trim(s)|]
    ensures forall j :: 0 <= j < TrimOffset(s) ==> IsWhitespace(s[j])
    ensures forall j :: TrimOffset(s) + |Trim(s)| <= j < |s| ==> IsWhitespace(s[j])
  {
    var u := TrimStart(s);
    var t := TrimEnd(u);
    assert Trim(s) == t;
    PrefixOfSuffix(s, u, t);
  }

  /** A prefix `t` of a suffix `u` of `s` is a slice of `s`, followed there by the rest of `u`. */
  lemma PrefixOfSuffix(s: string, u: string, t: string)
    requires |u| <= |s| && u == s[|s| - |u|..]
    requires |t| <= |u| && t == u[..|t|]
    requires forall j :: |t| <= j < |u| ==> IsWhitespace(u[j])
    ensures t == s[|s| - |u|..|s| - |u| + |t|]
    ensures forall j :: |s| - |u| + |t| <= j < |s| ==> IsWhitespace(s[j])
  {
    var a := |s| - |u|;
    forall j | a + |t| <= j < |s|
      ensures IsWhitespace(s[j])
    {
      assert s[j] == u[j - a];
    }
  }

  /** A non-whitespace character of `s` is kept by `Trim`. */
  lemma TrimKeeps(s: string, p: nat)
    requires p < |s| && !IsWhitespace(s[p])
    ensures s[p] in Trim(s)
  {
    TrimSlice(s);
    assert Trim(s)[p - TrimOffset(s)] == s[p];
  }

  /** Every character of `Trim(s)` is a character of `s`. */
  lemma TrimChars(s: string)
    ensures forall c :: c in Trim(s) ==> c in s
  {
    TrimSlice(s);
    forall c | c in Trim(s)
      ensures c in s
    {
      var k :| 0 <= k < |Trim(s)| && Trim(s)[k] == c;
      assert s[TrimOffset(s) + k] == c;
    }
  }

  // ---------------------------------------------------------------------------------------------
  // decimal digit strings

  function DigitValue(c: char): nat
    requires IsDigit(c)
  {
    (c as int) - ('0' as int)
  }

  function DigitChar(d: nat): (c: char)
    requires d < 10
    ensures IsDigit(c) && DigitValue(c) == d
  {
    (('0' as int) + d) as char
  }

  /** The value of a string of decimal digits, as `parseInt` reads it (most significant first). */
  function DecimalValue(s: string): nat
    requires AllDigits(s)
  {
    if s == [] then 0 else DecimalValue(s[..|s| - 1]) * 10 + DigitValue(s[|s| - 1])
  }

  /** A digit string in the form `String(n)` prints: no leading zero unless it is "0". */
  predicate IsCanonicalNat(s: string) {
    |s| >= 1 && AllDigits(s) && (s[0] == '0' ==> |s| == 1)
  }

  /** `String(n)` for a non-negative integer `n`. */
  function NatToString(n: nat): (s: string)
    ensures IsCanonicalNat(s)
    ensures DecimalValue(s) == n
  {
    if n < 10 then [DigitChar(n)]
    else
      var prefix := NatToString(n / 10);
      var s := prefix + [DigitChar(n % 10)];
      assert s[..|s| - 1] == prefix;
      s
  }

  lemma {:induction false} DecimalPositive(s: string)
    requires AllDigits(s) && |s| >= 1 && s[0] != '0'
    ensures DecimalValue(s) >= 1
  {
    if |s| > 1 {
      DecimalPositive(s[..|s| - 1]);
    }
  }

  /** Printing the value of a canonical digit string gives back that string. */
  lemma {:induction false} CanonicalNatRoundTrip(s: string)
    requires IsCanonicalNat(s)
    ensures NatToString(DecimalValue(s)) == s
    decreases |s|
  {
    if |s| > 1 {
      var prefix := s[..|s| - 1];
      assert IsCanonicalNat(prefix);
      CanonicalNatRoundTrip(prefix);
      DecimalPositive(prefix);
      var n := DecimalValue(s);
      assert n / 10 == DecimalValue(prefix) && n % 10 == DigitValue(s[|s| - 1]);
      assert s == prefix + [s[|s| - 1]];
    }
  }

  /** `String(n)` is injective. */
  lemma NatToStringInjective(m: nat, n: nat)
    requires NatToString(m) == NatToString(n)
    ensures m == n
  {
  }
}
