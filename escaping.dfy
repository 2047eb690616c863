/**
 * Key escaping of the translator (src/index.ts): raw singular and plural texts are escaped
 * before they are used as keys of a localization's content, and a plural entry's key is the
 * escaped singular and the escaped plural joined by a colon.
 */
module Escaping {
  import opened Strings

  /** What a backslash becomes: the six characters `\u{5C}`. */
  const EscapedBackslash: string := "\\u{5C}"
  /** What a colon becomes: the six characters `\u{3A}`. */
  const EscapedColon: string := "\\u{3A}"

  /** `escape`: every backslash is replaced first, then every colon. */
  function Escape(text: string): (r: string)
    ensures ':' !in r
    ensures '\\' !in text && ':' !in text ==> r == text
  {
    Replace(Replace(text, '\\', EscapedBackslash), ':', EscapedColon)
  }

  /** The key under which the plural entry for `singular` / `plural` is stored. */
  function PluralKey(singular: string, plural: string): string {
    Escape(singular) + ":" + Escape(plural)
  }

  // ---------------------------------------------------------------------------------------------
  // Escape encodes character by character

  function Code(c: char): string {
    if c == '\\' then EscapedBackslash else if c == ':' then EscapedColon else [c]
  }

  function EncodeChars(s: string): string {
    if s == [] then [] else Code(s[0]) + EncodeChars(s[1..])
  }

  /** Because the backslash is replaced before the colon, no colon escape is escaped again. */
  lemma {:induction false} EscapeIsCharwise(s: string)
    ensures Escape(s) == EncodeChars(s)
  {
    if s != [] {
      var first := if s[0] == '\\' then EscapedBackslash else [s[0]];
      var rest := Replace(s[1..], '\\', EscapedBackslash);
      assert Replace(s, '\\', EscapedBackslash) == first + rest;
      ReplaceAppend(first, rest, ':', EscapedColon);
      assert Replace(first, ':', EscapedColon) == Code(s[0]) by {
        if s[0] == ':' {
          assert first == [':'];
          assert Replace(first, ':', EscapedColon) == EscapedColon + Replace([], ':', EscapedColon);
        } else if s[0] != '\\' {
          assert Replace(first, ':', EscapedColon) == [s[0]] + Replace([], ':', EscapedColon);
        }
      }
      EscapeIsCharwise(s[1..]);
    }
  }

  // ---------------------------------------------------------------------------------------------
  // Escape has an inverse

  /** Reads escaped text back: the inverse of `Escape` (not needed at run time). */
  function Unescape(s: string): string
    decreases |s|
  {
    if s == [] then []
    else if |s| >= 6 && s[..6] == EscapedBackslash then "\\" + Unescape(s[6..])
    else if |s| >= 6 && s[..6] == EscapedColon then ":" + Unescape(s[6..])
    else [s[0]] + Unescape(s[1..])
  }

  lemma UnescapeCode(c: char, rest: string)
    ensures Unescape(Code(c) + rest) == [c] + Unescape(rest)
  {
    var t := Code(c) + rest;
    if c == '\\' || c == ':' {
      assert t[..6] == Code(c) && t[6..] == rest;
    } else {
      assert t[0] == c && t[1..] == rest;
    }
  }

  lemma {:induction false} UnescapeEncode(s: string)
    ensures Unescape(EncodeChars(s)) == s
  {
    if s != [] {
      UnescapeCode(s[0], EncodeChars(s[1..]));
      UnescapeEncode(s[1..]);
    }
  }

  /** Escaping loses nothing: the escaped text determines the raw text. */
  lemma EscapeRoundTrip(s: string)
    ensures Unescape(Escape(s)) == s
  {
    EscapeIsCharwise(s);
    UnescapeEncode(s);
  }

  lemma EscapeInjective(s: string, t: string)
    requires Escape(s) == Escape(t)
    ensures s == t
  {
    EscapeRoundTrip(s);
    EscapeRoundTrip(t);
  }

  // ---------------------------------------------------------------------------------------------
  // Plural keys

  /** A plural key holds exactly one colon, the one between the two escaped texts. */
  lemma PluralKeyHasOneColon(singular: string, plural: string)
    ensures Count(PluralKey(singular, plural), ':') == 1
  {
    var a, b := Escape(singular), Escape(plural);
    CountAppend(a + ":", b, ':');
    CountAppend(a, ":", ':');
    CountAbsent(a, ':');
    CountAbsent(b, ':');
  }

  /** Distinct (singular, plural) pairs never share a key. */
  lemma PluralKeyInjective(s1: string, p1: string, s2: string, p2: string)
    requires PluralKey(s1, p1) == PluralKey(s2, p2)
    ensures s1 == s2 && p1 == p2
  {
    UniqueSeparator(Escape(s1), Escape(p1), Escape(s2), Escape(p2), ':');
    EscapeInjective(s1, s2);
    EscapeInjective(p1, p2);
  }

  /** A singular lookup key never coincides with a plural entry's key. */
  lemma SingularKeyIsNotPluralKey(key: string, singular: string, plural: string)
    ensures Escape(key) != PluralKey(singular, plural)
  {
    var k := PluralKey(singular, plural);
    assert k[|Escape(singular)|] == ':';
  }
}
