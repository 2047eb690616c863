/**
 * The composite-key builder of src/toKey.js: the non-empty tokens, each escaped so that it
 * holds no colon, joined by colons.
 */
module CompositeKeys {
  import opened Strings

  /** What an ampersand becomes. */
  const EscapedAmpersand: string := "&amp;"
  /** What a colon becomes. */
  const EscapedColon: string := "&colon;"

  /** `escape`: every `&` is replaced first, then every `:`. */
  function Escape(text: string): (r: string)
    ensures ':' !in r
    ensures '&' !in text && ':' !in text ==> r == text
  {
    Replace(Replace(text, '&', EscapedAmpersand), ':', EscapedColon)
  }

  /** `tokens.filter(p => p)`: the non-empty tokens, in order. */
  function NonEmpty(tokens: seq<string>): (kept: seq<string>)
    ensures forall i :: 0 <= i < |kept| ==> kept[i] != ""
  {
    if tokens == [] then []
    else (if tokens[0] != "" then [tokens[0]] else []) + NonEmpty(tokens[1..])
  }

  /** `.map(escape)`. */
  function EscapeAll(tokens: seq<string>): (escaped: seq<string>)
    ensures |escaped| == |tokens|
    ensures forall i :: 0 <= i < |tokens| ==> escaped[i] == Escape(tokens[i])
  {
    seq(|tokens|, i requires 0 <= i < |tokens| => Escape(tokens[i]))
  }

  /** `toKey(...tokens)`. */
  function ToKey(tokens: seq<string>): string {
    Join(EscapeAll(NonEmpty(tokens)), ":")
  }

  // ---------------------------------------------------------------------------------------------
  // Escape encodes character by character and has an inverse

  function Code(c: char): string {
    if c == '&' then EscapedAmpersand else if c == ':' then EscapedColon else [c]
  }

  function EncodeChars(s: string): string {
    if s == [] then [] else Code(s[0]) + EncodeChars(s[1..])
  }

  /** Because `&` is replaced before `:`, the `&` of a colon escape is not escaped again. */
  lemma {:induction false} EscapeIsCharwise(s: string)
    ensures Escape(s) == EncodeChars(s)
  {
    if s != [] {
      var first := if s[0] == '&' then EscapedAmpersand else [s[0]];
      var rest := Replace(s[1..], '&', EscapedAmpersand);
      assert Replace(s, '&', EscapedAmpersand) == first + rest;
      ReplaceAppend(first, rest, ':', EscapedColon);
      assert Replace(first, ':', EscapedColon) == Code(s[0]) by {
        if s[0] == ':' {
          assert first == [':'];
          assert Replace(first, ':', EscapedColon) == EscapedColon + Replace([], ':', EscapedColon);
        } else if s[0] != '&' {
          assert Replace(first, ':', EscapedColon) == [s[0]] + Replace([], ':', EscapedColon);
        }
      }
      EscapeIsCharwise(s[1..]);
    }
  }

  /** Reads escaped text back: the inverse of `Escape`. */
  function Unescape(s: string): string
    decreases |s|
  {
    if s == [] then []
    else if |s| >= 5 && s[..5] == EscapedAmpersand then "&" + Unescape(s[5..])
    else if |s| >= 7 && s[..7] == EscapedColon then ":" + Unescape(s[7..])
    else [s[0]] + Unescape(s[1..])
  }

  lemma UnescapeCode(c: char, rest: string)
    ensures Unescape(Code(c) + rest) == [c] + Unescape(rest)
  {
    if c == '&' {
      UnescapeAmpersand(rest);
    } else if c == ':' {
      UnescapeColon(rest);
    } else {
      UnescapePlain(c, rest);
    }
  }

  lemma UnescapeAmpersand(rest: string)
    ensures Unescape(EscapedAmpersand + rest) == "&" + Unescape(rest)
  {
    var t := EscapedAmpersand + rest;
    assert t[..5] == EscapedAmpersand && t[5..] == rest;
  }

  lemma UnescapeColon(rest: string)
    ensures Unescape(EscapedColon + rest) == ":" + Unescape(rest)
  {
    var t := EscapedColon + rest;
    assert t[1] == 'c' && EscapedAmpersand[1] == 'a';
    assert t[..5] != EscapedAmpersand;
    assert t[..7] == EscapedColon && t[7..] == rest;
  }

  lemma UnescapePlain(c: char, rest: string)
    requires c != '&' && c != ':'
    ensures Unescape([c] + rest) == [c] + Unescape(rest)
  {
    var t := [c] + rest;
    assert t[0] == c && t[1..] == rest;
    if |t| >= 5 {
      assert t[..5] != EscapedAmpersand by { assert t[..5][0] == c && EscapedAmpersand[0] == '&'; }
    }
    if |t| >= 7 {
      assert t[..7] != EscapedColon by { assert t[..7][0] == c && EscapedColon[0] == '&'; }
    }
  }

  lemma {:induction false} UnescapeEncode(s: string)
    ensures Unescape(EncodeChars(s)) == s
  {
    if s != [] {
      UnescapeCode(s[0], EncodeChars(s[1..]));
      UnescapeEncode(s[1..]);
    }
  }

  /** Escaping loses nothing: the escaped text determines the raw text. */
  lemma EscapeRoundTrip(s: string)
    ensures Unescape(Escape(s)) == s
  {
    EscapeIsCharwise(s);
    UnescapeEncode(s);
  }

  lemma EscapeInjective(s: string, t: string)
    requires Escape(s) == Escape(t)
    ensures s == t
  {
    EscapeRoundTrip(s);
    EscapeRoundTrip(t);
  }

  /** Only the empty text escapes to the empty text. */
  lemma EscapeEmpty(s: string)
    ensures Escape(s) == "" <==> s == ""
  {
    EscapeIsCharwise(s);
    if s != [] {
      assert |Code(s[0])| >= 1;
    }
  }

  // ---------------------------------------------------------------------------------------------
  // Properties of toKey

  /** `toKey()` is the empty key. */
  lemma ToKeyNone()
    ensures ToKey([]) == ""
  {
  }

  lemma {:induction false} NonEmptyAppend(a: seq<string>, b: seq<string>)
    ensures NonEmpty(a + b) == NonEmpty(a) + NonEmpty(b)
    decreases |a|
  {
    if a != [] {
      assert (a + b)[1..] == a[1..] + b;
      NonEmptyAppend(a[1..], b);
    } else {
      assert a + b == b;
    }
  }

  /** Empty tokens are ignored: `toKey(a, "", b) == toKey(a, b)`. */
  lemma ToKeyIgnoresEmpty(a: seq<string>, b: seq<string>)
    ensures ToKey(a + [""] + b) == ToKey(a + b)
  {
    NonEmptyAppend(a + [""], b);
    NonEmptyAppend(a, [""]);
    NonEmptyAppend(a, b);
    assert [""][1..] == [];
    assert NonEmpty([""]) == [];
    assert NonEmpty(a + [""] + b) == NonEmpty(a + b);
  }

  /** Tokens that are all non-empty are all kept. */
  lemma {:induction false} NonEmptyKeepsAll(tokens: seq<string>)
    requires forall i :: 0 <= i < |tokens| ==> tokens[i] != ""
    ensures NonEmpty(tokens) == tokens
    decreases |tokens|
  {
    if tokens != [] {
      NonEmptyKeepsAll(tokens[1..]);
      assert tokens == [tokens[0]] + tokens[1..];
    }
  }

  /** A single non-empty token is its own escape. */
  lemma ToKeySingle(t: string)
    requires t != ""
    ensures ToKey([t]) == Escape(t)
  {
    NonEmptyKeepsAll([t]);
  }

  lemma EscapeAllCons(tokens: seq<string>)
    requires tokens != []
    ensures EscapeAll(tokens) == [Escape(tokens[0])] + EscapeAll(tokens[1..])
  {
  }

  /** With `k` non-empty tokens the key holds exactly `k - 1` colons, one between each pair. */
  lemma {:induction false} JoinedColons(tokens: seq<string>)
    requires |tokens| >= 1
    ensures Count(Join(EscapeAll(tokens), ":"), ':') == |tokens| - 1
    decreases |tokens|
  {
    var first := Escape(tokens[0]);
    CountAbsent(first, ':');
    if |tokens| > 1 {
      var rest := tokens[1..];
      EscapeAllCons(tokens);
      JoinCons(first, EscapeAll(rest), ":");
      JoinedColons(rest);
      CountAppend(first + ":", Join(EscapeAll(rest), ":"), ':');
      CountAppend(first, ":", ':');
    }
  }

  lemma ToKeyColons(tokens: seq<string>)
    requires |tokens| >= 1 && forall i :: 0 <= i < |tokens| ==> tokens[i] != ""
    ensures Count(ToKey(tokens), ':') == |tokens| - 1
  {
    NonEmptyKeepsAll(tokens);
    JoinedColons(tokens);
  }

  /** Splitting a key at its colons gives back the escaped tokens. */
  lemma {:induction false} SplitJoined(tokens: seq<string>)
    requires |tokens| >= 1
    ensures Split(Join(EscapeAll(tokens), ":"), ":") == EscapeAll(tokens)
    decreases |tokens|
  {
    var first := Escape(tokens[0]);
    if |tokens| == 1 {
      NoCharNoIndex(first, ':');
    } else {
      var rest := tokens[1..];
      var tail := Join(EscapeAll(rest), ":");
      EscapeAllCons(tokens);
      JoinCons(first, EscapeAll(rest), ":");
      assert first + ":" + tail == first + [':'] + tail;
      IndexOfChar(first, tail, ':');
      SplitFirst(first + ":" + tail, ":", |first|);
      assert (first + ":" + tail)[..|first|] == first;
      assert (first + ":" + tail)[|first| + 1..] == tail;
      SplitJoined(rest);
    }
  }

  lemma ToKeySplit(tokens: seq<string>)
    requires |tokens| >= 1 && forall i :: 0 <= i < |tokens| ==> tokens[i] != ""
    ensures Split(ToKey(tokens), ":") == EscapeAll(tokens)
  {
    NonEmptyKeepsAll(tokens);
    SplitJoined(tokens);
  }

  /** Only the empty list of tokens gives the empty key, when every token is non-empty. */
  lemma ToKeyEmpty(tokens: seq<string>)
    requires forall i :: 0 <= i < |tokens| ==> tokens[i] != ""
    ensures ToKey(tokens) == "" <==> tokens == []
  {
    NonEmptyKeepsAll(tokens);
    if tokens != [] {
      EscapeEmpty(tokens[0]);
      if |tokens| > 1 {
        EscapeAllCons(tokens);
        JoinCons(Escape(tokens[0]), EscapeAll(tokens[1..]), ":");
      }
    }
  }

  /** Different lists of non-empty tokens never share a key. */
  lemma ToKeyInjective(a: seq<string>, b: seq<string>)
    requires forall i :: 0 <= i < |a| ==> a[i] != ""
    requires forall i :: 0 <= i < |b| ==> b[i] != ""
    requires ToKey(a) == ToKey(b)
    ensures a == b
  {
    ToKeyEmpty(a);
    ToKeyEmpty(b);
    if a != [] && b != [] {
      ToKeySplit(a);
      ToKeySplit(b);
      forall i | 0 <= i < |a|
        ensures a[i] == b[i]
      {
        EscapeInjective(a[i], b[i]);
      }
    }
  }
}
