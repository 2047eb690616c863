/**
 * `interpolate` in src/index.ts: every `%...r` specifier of a template is swapped for a unique
 * placeholder key and remembered with the argument it refers to; `printf` formats the rest; the
 * formatted text is then split back at the keys into a sequence of text pieces and the
 * referenced arguments, in template order. `printf` belongs to another package and is a
 * parameter here.
 */
module Interpolation {
  import opened Wrappers
  import opened Strings
  import opened PluralForms

  /** An interpolation argument; `Undefined` is what reading past the argument list yields. */
  datatype Value = Undefined | Num(n: int) | Str(s: string) | Other(id: nat)

  /** `printf(format, ...args)` from the formatting package. */
  type Printf = (string, seq<Value>) -> string

  /** A piece of the mixed result: a text piece, an argument, or a missing (`undefined`) piece. */
  datatype Part = Text(s: string) | Ref(v: Value) | Missing

  /** What `interpolate` returns: a string when there is no reference, else a sequence. */
  datatype Interpolated = Plain(text: string) | Mixed(parts: seq<Part>)

  /** `leftoverText.split(key)` on `undefined`, after a key was missing from the printed text. */
  datatype InterpolationError = SplitOfUndefined

  /** `leftover[index]`, with `undefined` outside the list (a negative index included). */
  function ArgAt(args: seq<Value>, index: int): (v: Value)
    ensures 0 <= index < |args| ==> v == args[index]
    ensures !(0 <= index < |args|) ==> v == Undefined
  {
    if 0 <= index < |args| then args[index] else Undefined
  }

  // ---------------------------------------------------------------------------------------------
  // The specifiers: /%[^a-z]*[a-z]/g

  /** A template cut into the text between specifiers and the specifiers themselves. */
  datatype Chunk = Literal(text: string) | Token(text: string)

  /** The first position at or after `from` where `s` has `c`. */
  function FindChar(s: string, c: char, from: nat): (r: Option<nat>)
    ensures r.Some? ==> from <= r.value < |s| && s[r.value] == c
    ensures r.Some? ==> forall j :: from <= j < r.value ==> s[j] != c
    ensures r.None? ==> forall j :: from <= j < |s| ==> s[j] != c
    decreases |s| - from
  {
    if from >= |s| then None else if s[from] == c then Some(from) else FindChar(s, c, from + 1)
  }

  /** The first position at or after `from` where `s` has a letter of `[a-z]`. */
  function FindLower(s: string, from: nat): (r: Option<nat>)
    ensures r.Some? ==> from <= r.value < |s| && IsLowerLetter(s[r.value])
    ensures r.Some? ==> forall j :: from <= j < r.value ==> !IsLowerLetter(s[j])
    ensures r.None? ==> forall j :: from <= j < |s| ==> !IsLowerLetter(s[j])
    decreases |s| - from
  {
    if from >= |s| then None
    else if IsLowerLetter(s[from]) then Some(from)
    else FindLower(s, from + 1)
  }

  /** A specifier: `%`, characters outside `[a-z]`, then one letter of `[a-z]`. */
  predicate IsSpecifier(t: string) {
    |t| >= 2 && t[0] == '%' && IsLowerLetter(t[|t| - 1]) &&
    forall j :: 1 <= j < |t| - 1 ==> !IsLowerLetter(t[j])
  }

  /**
   * The global scan of `/%[^a-z]*[a-z]/`: from the first `%`, the shortest stretch ending in a
   * letter of `[a-z]` (the class `[^a-z]*` cannot skip one), then the scan goes on after it.
   * Text after a `%` with no letter following is left as it is.
   */
  function Lex(s: string): seq<Chunk>
    decreases |s|
  {
    match FindChar(s, '%', 0)
    case None => [Literal(s)]
    case Some(p) =>
      match FindLower(s, p + 1)
      case None => [Literal(s)]
      case Some(q) => [Literal(s[..p]), Token(s[p..q + 1])] + Lex(s[q + 1..])
  }

  /** Every token among `chunks` is a specifier. */
  predicate TokensAreSpecifiers(chunks: seq<Chunk>) {
    forall i :: 0 <= i < |chunks| && chunks[i].Token? ==> IsSpecifier(chunks[i].text)
  }

  /** Every token the scan cuts out is a specifier. */
  lemma {:induction false} LexTokens(s: string)
    ensures TokensAreSpecifiers(Lex(s))
    decreases |s|
  {
    match FindChar(s, '%', 0)
    case None =>
    case Some(p) =>
      match FindLower(s, p + 1)
      case None =>
      case Some(q) =>
        LexStep(s, p, q);
        LexTokens(s[q + 1..]);
        PairTokens(s, p, q, Lex(s[q + 1..]));
  }

  lemma PairTokens(s: string, p: nat, q: nat, rest: seq<Chunk>)
    requires FindChar(s, '%', 0) == Some(p) && FindLower(s, p + 1) == Some(q)
    requires TokensAreSpecifiers(rest)
    ensures TokensAreSpecifiers([Literal(s[..p]), Token(s[p..q + 1])] + rest)
  {
    var t := s[p..q + 1];
    assert t[0] == '%' && t[|t| - 1] == s[q];
    forall j | 1 <= j < |t| - 1
      ensures !IsLowerLetter(t[j])
    {
      assert t[j] == s[p + j];
    }
    var chunks := [Literal(s[..p]), Token(t)] + rest;
    forall i | 2 <= i < |chunks|
      ensures chunks[i] == rest[i - 2]
    {
    }
  }

  /** The chunks put back together. */
  function Concat(chunks: seq<Chunk>): string {
    if chunks == [] then "" else Concat(chunks[..|chunks| - 1]) + chunks[|chunks| - 1].text
  }

  lemma {:induction false} ConcatAppend(a: seq<Chunk>, b: seq<Chunk>)
    ensures Concat(a + b) == Concat(a) + Concat(b)
    decreases |b|
  {
    if b != [] {
      var init := b[..|b| - 1];
      assert (a + b)[..|a + b| - 1] == a + init;
      ConcatAppend(a, init);
    } else {
      assert a + b == a;
    }
  }

  /** Cutting a template into chunks loses and adds nothing. */
  lemma {:induction false} LexConcat(s: string)
    ensures Concat(Lex(s)) == s
    decreases |s|
  {
    match FindChar(s, '%', 0)
    case None => LexWhole(s);
    case Some(p) =>
      match FindLower(s, p + 1)
      case None => LexWhole(s);
      case Some(q) =>
        LexConcat(s[q + 1..]);
        LexConcatStep(s, p, q);
  }

  lemma LexConcatStep(s: string, p: nat, q: nat)
    requires FindChar(s, '%', 0) == Some(p) && FindLower(s, p + 1) == Some(q)
    requires Concat(Lex(s[q + 1..])) == s[q + 1..]
    ensures Concat(Lex(s)) == s
  {
    LexStep(s, p, q);
    LexPieces(s, p, q, Lex(s[q + 1..]));
  }

  lemma LexPieces(s: string, p: nat, q: nat, rest: seq<Chunk>)
    requires p <= q < |s|
    requires Concat(rest) == s[q + 1..]
    ensures Concat([Literal(s[..p]), Token(s[p..q + 1])] + rest) == s
  {
    PairConcat(s[..p], s[p..q + 1], rest);
    assert s == s[..p] + s[p..q + 1] + s[q + 1..];
  }

  lemma LexWhole(s: string)
    requires FindChar(s, '%', 0).None? || FindLower(s, FindChar(s, '%', 0).value + 1).None?
    ensures Concat(Lex(s)) == s
  {
    assert Lex(s) == [Literal(s)];
    assert Concat([Literal(s)]) == Concat([]) + s;
  }

  lemma LexStep(s: string, p: nat, q: nat)
    requires FindChar(s, '%', 0) == Some(p) && FindLower(s, p + 1) == Some(q)
    ensures Lex(s) == [Literal(s[..p]), Token(s[p..q + 1])] + Lex(s[q + 1..])
  {
  }

  lemma PairConcat(a: string, b: string, rest: seq<Chunk>)
    ensures Concat([Literal(a), Token(b)] + rest) == a + b + Concat(rest)
  {
    var head := [Literal(a), Token(b)];
    ConcatAppend(head, rest);
    assert head[..1] == [Literal(a)];
    assert [Literal(a)][..0] == [];
    assert Concat([Literal(a)]) == Concat([]) + a == a;
    assert Concat(head) == Concat([Literal(a)]) + b;
  }

  /** `match.endsWith("r")`: the specifiers that are references. */
  predicate IsReference(c: Chunk) {
    c.Token? && |c.text| >= 1 && c.text[|c.text| - 1] == 'r'
  }

  // ---------------------------------------------------------------------------------------------
  // The positional form: match.match(/%([0-9]+)\$/)

  /** Whether `%`, one or more digits and `$` start at position `i` of `t`. */
  predicate PositionalAt(t: string, i: nat) {
    MatchesAt(t, "%", Digit, i) && i + 1 + Run(t, i + 1, Digit) < |t| &&
    t[i + 1 + Run(t, i + 1, Digit)] == '$'
  }

  /** The leftmost position at or after `from` where the positional form starts. */
  function FindPositional(t: string, from: nat): (r: Option<nat>)
    ensures r.Some? ==> from <= r.value && PositionalAt(t, r.value)
    ensures r.Some? ==> forall j :: from <= j < r.value ==> !PositionalAt(t, j)
    ensures r.None? ==> forall j :: from <= j ==> !PositionalAt(t, j)
    decreases |t| - from
  {
    if from >= |t| then None
    else if PositionalAt(t, from) then Some(from)
    else FindPositional(t, from + 1)
  }

  /** `parseInt(indexMatch[1])`: the number written in the positional form, if there is one. */
  function Position(t: string): Option<nat> {
    match FindPositional(t, 0)
    case None => None
    case Some(i) =>
      RunIsDigits(t, i + 1);
      Some(DecimalValue(t[i + 1..i + 1 + Run(t, i + 1, Digit)]))
  }

  // ---------------------------------------------------------------------------------------------
  // The replace callback

  /** The fixed text around the number in a key. */
  const KeyPrefix: string := "{__replacement-reference-"
  const KeySuffix: string := "__}"

  /** `{__replacement-reference-${increment}__}`. */
  function Key(i: nat): (key: string)
    ensures |key| >= 1 && key[0] == '{'
  {
    KeyPrefix + NatToString(i) + KeySuffix
  }

  /** The state the callback updates: the text built so far, `mapping` and `argIndex`. */
  datatype ScanState = ScanState(text: string, mapping: seq<(string, Value)>, argIndex: nat)

  /**
   * What the callback returns for one chunk, with the `mapping` and `argIndex` it leaves: a
   * reference becomes the next key, remembered with the argument its position names (counting
   * from 1) or else the next sequential argument; any other specifier, and the text between
   * specifiers, is replaced by itself.
   */
  function Replace(chunk: Chunk, mapping: seq<(string, Value)>, argIndex: nat, args: seq<Value>): (r: ScanState)
    ensures IsReference(chunk) ==> r.text == Key(|mapping|) && |r.mapping| == |mapping| + 1
    ensures !IsReference(chunk) ==> r == ScanState(chunk.text, mapping, argIndex)
  {
    if IsReference(chunk) then
      var key := Key(|mapping|);
      match Position(chunk.text)
      case Some(n) => ScanState(key, mapping + [(key, ArgAt(args, n - 1))], argIndex)
      case None => ScanState(key, mapping + [(key, ArgAt(args, argIndex))], argIndex + 1)
    else ScanState(chunk.text, mapping, argIndex)
  }

  /** One chunk through the callback: its replacement is appended to the text built so far. */
  function Step(st: ScanState, chunk: Chunk, args: seq<Value>): ScanState {
    var r := Replace(chunk, st.mapping, st.argIndex, args);
    ScanState(st.text + r.text, r.mapping, r.argIndex)
  }

  /** The state after the callback has seen every chunk. */
  function Scan(chunks: seq<Chunk>, args: seq<Value>): ScanState {
    if chunks == [] then ScanState("", [], 0)
    else Step(Scan(chunks[..|chunks| - 1], args), chunks[|chunks| - 1], args)
  }

  /** `text.replace(/%[^a-z]*[a-z]/g, callback)`, returning `newText` and `mapping`. */
  method ReplaceReferences(text: string, args: seq<Value>) returns (newText: string, mapping: seq<(string, Value)>)
    ensures newText == Scan(Lex(text), args).text
    ensures mapping == Scan(Lex(text), args).mapping
  {
    var chunks := Lex(text);
    var increment: nat := 0;
    var argIndex: nat := 0;
    newText, mapping := "", [];
    var i := 0;
    while i < |chunks|
      invariant 0 <= i <= |chunks|
      invariant Scan(chunks[..i], args) == ScanState(newText, mapping, argIndex)
      invariant increment == |mapping|
    {
      ghost var before := ScanState(newText, mapping, argIndex);
      var replacement;
      replacement, mapping, increment, argIndex := Callback(chunks[i], args, mapping, increment, argIndex);
      newText := newText + replacement;
      ScanNext(chunks, i, args, before, ScanState(newText, mapping, argIndex));
      i := i + 1;
    }
    assert chunks[..|chunks|] == chunks;
  }

  /**
   * The callback on one chunk, with the variables it closes over: a reference is replaced by
   * the next key and remembered; anything else is replaced by itself.
   */
  method Callback(chunk: Chunk, args: seq<Value>, mapping: seq<(string, Value)>, increment: nat, argIndex: nat)
    returns (replacement: string, mapping': seq<(string, Value)>, increment': nat, argIndex': nat)
    requires increment == |mapping|
    ensures increment' == |mapping'|
    ensures Replace(chunk, mapping, argIndex, args) == ScanState(replacement, mapping', argIndex')
  {
    mapping', increment', argIndex' := mapping, increment, argIndex;
    if IsReference(chunk) {
      var key := Key(increment);
      increment' := increment + 1;
      var indexMatch := Position(chunk.text);
      if indexMatch.Some? {
        mapping' := mapping + [(key, ArgAt(args, indexMatch.value as int - 1))];
      } else {
        mapping' := mapping + [(key, ArgAt(args, argIndex))];
        argIndex' := argIndex + 1;
      }
      replacement := key;
    } else {
      replacement := chunk.text;
    }
  }

  lemma ScanNext(chunks: seq<Chunk>, i: nat, args: seq<Value>, before: ScanState, after: ScanState)
    requires i < |chunks| && Scan(chunks[..i], args) == before && Step(before, chunks[i], args) == after
    ensures Scan(chunks[..i + 1], args) == after
  {
    ScanSnoc(chunks, i, args);
  }

  lemma ScanSnoc(chunks: seq<Chunk>, i: nat, args: seq<Value>)
    requires i < |chunks|
    ensures Scan(chunks[..i + 1], args) == Step(Scan(chunks[..i], args), chunks[i], args)
  {
    assert chunks[..i + 1][..i] == chunks[..i];
  }

  // ---------------------------------------------------------------------------------------------
  // What the callback records, stated without the running state

  /** The reference specifiers of the chunks, in template order. */
  function References(chunks: seq<Chunk>): seq<string> {
    if chunks == [] then []
    else
      var init := References(chunks[..|chunks| - 1]);
      if IsReference(chunks[|chunks| - 1]) then init + [chunks[|chunks| - 1].text] else init
  }

  /** How many of the references are not positional. */
  function Sequential(refs: seq<string>): nat {
    if refs == [] then 0
    else Sequential(refs[..|refs| - 1]) + (if Position(refs[|refs| - 1]).None? then 1 else 0)
  }

  /**
   * The argument the `j`-th reference stands for: for `%N$r` argument `N` (counting from 1),
   * otherwise the argument after those taken by the earlier non-positional references.
   */
  function Referenced(refs: seq<string>, j: nat, args: seq<Value>): Value
    requires j < |refs|
  {
    match Position(refs[j])
    case Some(n) => ArgAt(args, n - 1)
    case None => ArgAt(args, Sequential(refs[..j]))
  }

  /**
   * One remembered pair per reference: the `j`-th reference gets key `j` and the argument it
   * stands for; positional references do not move the sequential cursor.
   */
  lemma {:induction false} ScanRecords(chunks: seq<Chunk>, args: seq<Value>)
    ensures var st := Scan(chunks, args);
      && |st.mapping| == |References(chunks)|
      && st.argIndex == Sequential(References(chunks))
      && forall j :: 0 <= j < |st.mapping| ==>
           st.mapping[j] == (Key(j), Referenced(References(chunks), j, args))
    decreases |chunks|
  {
    if chunks != [] {
      var init := chunks[..|chunks| - 1];
      var last := chunks[|chunks| - 1];
      ScanRecords(init, args);
      StepRecords(Scan(init, args), References(init), last, args);
    }
  }

  /** The pairs remembered for the references `refs`. */
  predicate Records(st: ScanState, refs: seq<string>, args: seq<Value>) {
    && |st.mapping| == |refs|
    && st.argIndex == Sequential(refs)
    && forall j :: 0 <= j < |st.mapping| ==> st.mapping[j] == (Key(j), Referenced(refs, j, args))
  }

  lemma StepRecords(st: ScanState, refs: seq<string>, last: Chunk, args: seq<Value>)
    requires Records(st, refs, args)
    ensures Records(Step(st, last, args), if IsReference(last) then refs + [last.text] else refs, args)
  {
    if IsReference(last) {
      var all := refs + [last.text];
      var n := |refs|;
      var next := Step(st, last, args);
      assert all[..n] == refs;
      SequentialLast(refs, last.text);
      NextMapping(st, refs, last, args);
      forall j | 0 <= j < n
        ensures next.mapping[j] == (Key(j), Referenced(all, j, args))
      {
        ReferencedAppend(refs, last.text, j, args);
      }
    }
  }

  lemma NextMapping(st: ScanState, refs: seq<string>, last: Chunk, args: seq<Value>)
    requires IsReference(last) && |st.mapping| == |refs| && st.argIndex == Sequential(refs)
    ensures Step(st, last, args).mapping == st.mapping + [(Key(|refs|), Referenced(refs + [last.text], |refs|, args))]
    ensures Step(st, last, args).argIndex == st.argIndex + if Position(last.text).None? then 1 else 0
  {
    StepReference(st, last, args);
    ReferencedLast(refs, last.text, args);
  }

  lemma StepReference(st: ScanState, chunk: Chunk, args: seq<Value>)
    requires IsReference(chunk)
    ensures Step(st, chunk, args).text == st.text + Key(|st.mapping|)
    ensures Step(st, chunk, args).mapping == st.mapping + [(Key(|st.mapping|),
      if Position(chunk.text).Some? then ArgAt(args, Position(chunk.text).value - 1) else ArgAt(args, st.argIndex))]
    ensures Step(st, chunk, args).argIndex == st.argIndex + if Position(chunk.text).None? then 1 else 0
  {
  }

  lemma ReferencedLast(refs: seq<string>, x: string, args: seq<Value>)
    ensures Referenced(refs + [x], |refs|, args) ==
      if Position(x).Some? then ArgAt(args, Position(x).value - 1) else ArgAt(args, Sequential(refs))
  {
    var all := refs + [x];
    assert all[|refs|] == x;
    assert all[..|refs|] == refs;
  }

  lemma SequentialLast(refs: seq<string>, x: string)
    ensures Sequential(refs + [x]) == Sequential(refs) + if Position(x).None? then 1 else 0
  {
    assert (refs + [x])[..|refs|] == refs;
  }

  lemma ReferencedAppend(refs: seq<string>, x: string, j: nat, args: seq<Value>)
    requires j < |refs|
    ensures Referenced(refs + [x], j, args) == Referenced(refs, j, args)
  {
    assert (refs + [x])[..j] == refs[..j];
  }

  /** Without a reference the text is kept as it is and nothing is remembered. */
  lemma {:induction false} ScanWithoutReferences(chunks: seq<Chunk>, args: seq<Value>)
    requires forall i :: 0 <= i < |chunks| ==> !IsReference(chunks[i])
    ensures Scan(chunks, args) == ScanState(Concat(chunks), [], 0)
    decreases |chunks|
  {
    if chunks != [] {
      ScanWithoutReferences(chunks[..|chunks| - 1], args);
    }
  }

  // ---------------------------------------------------------------------------------------------
  // Splitting the printed text back at the keys

  /** `out` so far and `leftoverText`, which becomes `undefined` when a key was not found. */
  datatype SplitState = SplitState(out: seq<Part>, rest: Option<string>)

  /**
   * The `forEach` over `mapping`: split the leftover text at the key, keep the piece before it
   * and the argument, go on with the piece after it (the text between the first and second
   * occurrence of the key, or `undefined` when there is none). Splitting `undefined` throws.
   */
  function SplitBack(result: string, mapping: seq<(string, Value)>): Result<SplitState, InterpolationError>
    requires forall j :: 0 <= j < |mapping| ==> |mapping[j].0| >= 1
  {
    if mapping == [] then Success(SplitState([], Some(result)))
    else
      var (key, value) := mapping[|mapping| - 1];
      match SplitBack(result, mapping[..|mapping| - 1])
      case Failure(e) => Failure(e)
      case Success(st) =>
        match st.rest
        case None => Failure(SplitOfUndefined)
        case Some(leftover) =>
          var pieces := Split(leftover, key);
          Success(SplitState(st.out + [Text(pieces[0]), Ref(value)],
            if |pieces| >= 2 then Some(pieces[1]) else None))
  }

  /** `out.push(leftoverText)`, where the leftover may be `undefined`. */
  function Last(rest: Option<string>): Part {
    if rest.Some? then Text(rest.value) else Missing
  }

  /** The split pieces followed by the final leftover, or the exception. */
  function Assemble(result: string, mapping: seq<(string, Value)>): Result<seq<Part>, InterpolationError>
    requires forall j :: 0 <= j < |mapping| ==> |mapping[j].0| >= 1
  {
    match SplitBack(result, mapping)
    case Failure(e) => Failure(e)
    case Success(back) => Success(back.out + [Last(back.rest)])
  }

  /** What `interpolate(text, ...args)` returns or throws. */
  function Interpolate(printf: Printf, text: string, args: seq<Value>): Result<Interpolated, InterpolationError> {
    var st := Scan(Lex(text), args);
    var result := printf(st.text, args);
    if |st.mapping| == 0 then Success(Plain(result))
    else
      ScanRecords(Lex(text), args);
      match Assemble(result, st.mapping)
      case Failure(e) => Failure(e)
      case Success(parts) => Success(Mixed(parts))
  }

  /** The split-back loop of `interpolate`. */
  method SplitLoop(result: string, mapping: seq<(string, Value)>) returns (r: Result<seq<Part>, InterpolationError>)
    requires forall j :: 0 <= j < |mapping| ==> |mapping[j].0| >= 1
    ensures r == Assemble(result, mapping)
  {
    var leftoverText: Option<string> := Some(result);
    var out: seq<Part> := [];
    var i := 0;
    while i < |mapping|
      invariant 0 <= i <= |mapping|
      invariant SplitBack(result, mapping[..i]) == Success(SplitState(out, leftoverText))
    {
      assert mapping[..i + 1][..i] == mapping[..i];
      var (key, value) := mapping[i];
      if leftoverText.None? {
        SplitBackStaysFailed(result, mapping, i + 1);
        return Failure(SplitOfUndefined);
      }
      var pieces := Split(leftoverText.value, key);
      out := out + [Text(pieces[0]), Ref(value)];
      leftoverText := if |pieces| >= 2 then Some(pieces[1]) else None;
      i := i + 1;
    }
    assert mapping[..|mapping|] == mapping;
    return Success(out + [Last(leftoverText)]);
  }

  /** Once splitting has thrown, it stays thrown. */
  lemma {:induction false} SplitBackStaysFailed(result: string, mapping: seq<(string, Value)>, i: nat)
    requires forall j :: 0 <= j < |mapping| ==> |mapping[j].0| >= 1
    requires 1 <= i <= |mapping| && SplitBack(result, mapping[..i]).Failure?
    ensures SplitBack(result, mapping).Failure?
    ensures Assemble(result, mapping) == Failure(SplitOfUndefined)
    decreases |mapping| - i
  {
    if i < |mapping| {
      assert mapping[..i + 1][..i] == mapping[..i];
      SplitBackStaysFailed(result, mapping, i + 1);
    } else {
      assert mapping[..i] == mapping;
      assert SplitBack(result, mapping).error.SplitOfUndefined?;
    }
  }

  /** `interpolate`: the callback loop, `printf`, then the split-back loop when needed. */
  method InterpolateText(printf: Printf, text: string, args: seq<Value>) returns (r: Result<Interpolated, InterpolationError>)
    ensures r == Interpolate(printf, text, args)
  {
    var newText, mapping := ReplaceReferences(text, args);
    var result := printf(newText, args);
    if |mapping| == 0 {
      return Success(Plain(result));
    }
    ScanRecords(Lex(text), args);
    var parts := SplitLoop(result, mapping);
    if parts.Failure? {
      return Failure(parts.error);
    }
    return Success(Mixed(parts.value));
  }

  // ---------------------------------------------------------------------------------------------
  // Properties of interpolate

  /** Every split step adds a text piece and then the argument of that step's key. */
  lemma {:induction false} SplitBackShape(result: string, mapping: seq<(string, Value)>)
    requires forall j :: 0 <= j < |mapping| ==> |mapping[j].0| >= 1
    requires SplitBack(result, mapping).Success?
    ensures var out := SplitBack(result, mapping).value.out;
      && |out| == 2 * |mapping|
      && forall j :: 0 <= j < |mapping| ==> out[2 * j].Text? && out[2 * j + 1] == Ref(mapping[j].1)
    decreases |mapping|
  {
    if mapping != [] {
      var init := mapping[..|mapping| - 1];
      SplitBackShape(result, init);
      var out := SplitBack(result, mapping).value.out;
      var before := SplitBack(result, init).value.out;
      forall j | 0 <= j < |init|
        ensures out[2 * j].Text? && out[2 * j + 1] == Ref(mapping[j].1)
      {
        assert out[2 * j] == before[2 * j];
        assert out[2 * j + 1] == before[2 * j + 1];
      }
    }
  }

  /**
   * With `m` references the result is a sequence of `2m + 1` parts whose odd positions hold the
   * referenced arguments in template order, and whose even positions before the last hold text.
   */
  lemma InterpolateShape(printf: Printf, text: string, args: seq<Value>)
    requires Interpolate(printf, text, args).Success?
    requires |References(Lex(text))| >= 1
    ensures var refs := References(Lex(text));
      && Interpolate(printf, text, args).value.Mixed?
      && |Interpolate(printf, text, args).value.parts| == 2 * |refs| + 1
      && forall j :: 0 <= j < |refs| ==>
           && Interpolate(printf, text, args).value.parts[2 * j].Text?
           && Interpolate(printf, text, args).value.parts[2 * j + 1] == Ref(Referenced(refs, j, args))
  {
    ScanRecords(Lex(text), args);
    var st := Scan(Lex(text), args);
    var result := printf(st.text, args);
    SplitBackShape(result, st.mapping);
  }

  /** A template without a `%...r` reference is handed to `printf` unchanged, as a string. */
  lemma InterpolateWithoutReferences(printf: Printf, text: string, args: seq<Value>)
    requires References(Lex(text)) == []
    ensures Interpolate(printf, text, args) == Success(Plain(printf(text, args)))
  {
    var chunks := Lex(text);
    forall i | 0 <= i < |chunks|
      ensures !IsReference(chunks[i])
    {
      if IsReference(chunks[i]) {
        ReferencesInclude(chunks, i);
      }
    }
    ScanWithoutReferences(chunks, args);
    LexConcat(text);
  }

  /** A reference chunk shows up in `References`. */
  lemma {:induction false} ReferencesInclude(chunks: seq<Chunk>, i: nat)
    requires i < |chunks| && IsReference(chunks[i])
    ensures |References(chunks)| >= 1
    decreases |chunks|
  {
    if i < |chunks| - 1 {
      ReferencesInclude(chunks[..|chunks| - 1], i);
    }
  }


  // ---------------------------------------------------------------------------------------------
  // The exact parts, when printf leaves the keys alone

  /**
   * The text between the references: the texts of the other chunks, gathered between
   * consecutive references; there is one more segment than there are references.
   */
  function Segments(chunks: seq<Chunk>): (segs: seq<string>)
    ensures |segs| == |References(chunks)| + 1
  {
    if chunks == [] then [""]
    else
      var init := Segments(chunks[..|chunks| - 1]);
      var last := chunks[|chunks| - 1];
      if IsReference(last) then init + [""]
      else init[..|init| - 1] + [init[|init| - 1] + last.text]
  }

  /** The segments from `j` on, with key `i` between segment `i` and segment `i + 1`. */
  function Woven(segs: seq<string>, j: nat): string
    requires j < |segs|
    decreases |segs| - j
  {
    if j == |segs| - 1 then segs[j] else segs[j] + Key(j) + Woven(segs, j + 1)
  }

  lemma {:induction false} WovenSnoc(segs: seq<string>, x: string, j: nat)
    requires j < |segs|
    ensures Woven(segs + [x], j) == Woven(segs, j) + Key(|segs| - 1) + x
    decreases |segs| - j
  {
    var t := segs + [x];
    assert t[j] == segs[j];
    if j == |segs| - 1 {
      assert t[j + 1] == x;
    } else {
      WovenSnoc(segs, x, j + 1);
      Regroup5(segs[j], Key(j), Woven(segs, j + 1), Key(|segs| - 1), x);
    }
  }

  lemma Regroup5(a: string, b: string, c: string, d: string, e: string)
    ensures a + b + (c + d + e) == a + b + c + d + e
  {
  }

  lemma {:induction false} WovenExtend(segs: seq<string>, x: string, j: nat)
    requires j < |segs|
    ensures Woven(segs[..|segs| - 1] + [segs[|segs| - 1] + x], j) == Woven(segs, j) + x
    decreases |segs| - j
  {
    var t := segs[..|segs| - 1] + [segs[|segs| - 1] + x];
    if j == |segs| - 1 {
      assert t[j] == segs[j] + x;
    } else {
      assert t[j] == segs[j];
      WovenExtend(segs, x, j + 1);
    }
  }

  /** The text the callback builds is the segments woven together with the keys. */
  lemma {:induction false} ScanText(chunks: seq<Chunk>, args: seq<Value>)
    ensures Scan(chunks, args).text == Woven(Segments(chunks), 0)
    decreases |chunks|
  {
    if chunks != [] {
      var init := chunks[..|chunks| - 1];
      var last := chunks[|chunks| - 1];
      ScanText(init, args);
      ScanRecords(init, args);
      var segs := Segments(init);
      if IsReference(last) {
        WovenSnoc(segs, "", 0);
        assert Woven(segs, 0) + Key(|segs| - 1) + "" == Woven(segs, 0) + Key(|segs| - 1);
      } else {
        WovenExtend(segs, last.text, 0);
      }
    }
  }

  /** A character none of the chunks holds is in none of the segments. */
  lemma {:induction false} SegmentsLack(chunks: seq<Chunk>, c: char)
    requires forall i :: 0 <= i < |chunks| ==> c !in chunks[i].text
    ensures forall k :: 0 <= k < |Segments(chunks)| ==> c !in Segments(chunks)[k]
    decreases |chunks|
  {
    if chunks != [] {
      var init := chunks[..|chunks| - 1];
      forall i | 0 <= i < |init|
        ensures c !in init[i].text
      {
        assert init[i] == chunks[i];
      }
      SegmentsLack(init, c);
    }
  }

  /** A character the template lacks is in none of its chunks. */
  lemma {:induction false} LexLacks(s: string, c: char)
    requires c !in s
    ensures forall i :: 0 <= i < |Lex(s)| ==> c !in Lex(s)[i].text
    decreases |s|
  {
    match FindChar(s, '%', 0)
    case None =>
    case Some(p) =>
      match FindLower(s, p + 1)
      case None =>
      case Some(q) =>
        LexStep(s, p, q);
        SliceLacks(s, c, q + 1);
        LexLacks(s[q + 1..], c);
        PairLacks(s, p, q, c, Lex(s[q + 1..]), Lex(s));
  }

  lemma SliceLacks(s: string, c: char, i: nat)
    requires c !in s && i <= |s|
    ensures c !in s[i..]
  {
    assert forall k :: 0 <= k < |s| - i ==> s[i..][k] == s[i + k];
  }

  lemma PairLacks(s: string, p: nat, q: nat, c: char, rest: seq<Chunk>, chunks: seq<Chunk>)
    requires p <= q < |s| && c !in s
    requires forall i :: 0 <= i < |rest| ==> c !in rest[i].text
    requires chunks == [Literal(s[..p]), Token(s[p..q + 1])] + rest
    ensures forall i :: 0 <= i < |chunks| ==> c !in chunks[i].text
  {
    var before := s[..p];
    assert forall k :: 0 <= k < |before| ==> before[k] == s[k];
    var token := s[p..q + 1];
    assert forall k :: 0 <= k < |token| ==> token[k] == s[p + k];
    assert forall i :: 2 <= i < |chunks| ==> chunks[i] == rest[i - 2];
  }

  /** A key is its prefix, the number and its suffix; it holds `{` only at its start. */
  lemma KeyLayout(i: nat)
    ensures Key(i) == KeyPrefix + NatToString(i) + KeySuffix
    ensures |KeyPrefix| == 25 && KeyPrefix[0] == '{'
    ensures forall k :: 1 <= k < |Key(i)| ==> Key(i)[k] != '{'
  {
    var d := NatToString(i);
    var key := Key(i);
    assert forall k :: 1 <= k < 25 ==> KeyPrefix[k] != '{';
    forall k | 1 <= k < |key|
      ensures key[k] != '{'
    {
      if k < 25 {
        assert key[k] == KeyPrefix[k];
      } else if k < 25 + |d| {
        assert key[k] == d[k - 25];
        assert IsDigit(d[k - 25]);
      } else {
        assert key[k] == KeySuffix[k - 25 - |d|];
      }
    }
  }

  /** No other key starts where key `k` starts. */
  lemma KeyNotPrefix(j: nat, k: nat, w: string)
    requires j != k
    ensures !OccursAt(Key(k) + w, Key(j), 0)
  {
    var dj, dk := NatToString(j), NatToString(k);
    var m := KeysDiffer(j, k);
    var s, key := Key(k) + w, Key(j);
    assert s[m] == Key(k)[m];
    if |key| <= |s| {
      assert s[..|key|][m] == s[m];
    }
  }

  /** Two different keys differ at a position inside both. */
  lemma KeysDiffer(j: nat, k: nat) returns (m: nat)
    requires j != k
    ensures m < |Key(j)| && m < |Key(k)| && Key(j)[m] != Key(k)[m]
  {
    var dj, dk := NatToString(j), NatToString(k);
    if |dj| == |dk| {
      if dj == dk {
        NatToStringInjective(j, k);
      }
      var i :| 0 <= i < |dj| && dj[i] != dk[i];
      m := 25 + i;
      KeyChar(j, m);
      KeyChar(k, m);
    } else if |dj| < |dk| {
      m := 25 + |dj|;
      KeyChar(j, m);
      KeyChar(k, m);
      assert IsDigit(dk[|dj|]);
    } else {
      m := 25 + |dk|;
      KeyChar(j, m);
      KeyChar(k, m);
      assert IsDigit(dj[|dk|]);
    }
  }

  /** What a key holds at each position. */
  lemma KeyChar(i: nat, m: nat)
    requires m < |Key(i)|
    ensures |Key(i)| == 28 + |NatToString(i)|
    ensures m < 25 ==> Key(i)[m] == KeyPrefix[m]
    ensures 25 <= m < 25 + |NatToString(i)| ==> Key(i)[m] == NatToString(i)[m - 25]
    ensures 25 + |NatToString(i)| <= m ==> Key(i)[m] == KeySuffix[m - 25 - |NatToString(i)|]
    ensures KeySuffix[0] == '_'
  {
  }

  /** An occurrence past a prefix is an occurrence in what follows it. */
  lemma OccursAppend(x: string, y: string, sep: string, p: nat)
    ensures OccursAt(x + y, sep, |x| + p) <==> OccursAt(y, sep, p)
  {
    if p + |sep| <= |y| {
      assert (x + y)[|x| + p..|x| + p + |sep|] == y[p..p + |sep|];
    }
  }

  /** An occurrence of a key starts at a `{`. */
  lemma OccursAtBrace(s: string, j: nat, p: nat)
    requires OccursAt(s, Key(j), p)
    ensures p < |s| && s[p] == '{'
  {
    KeyLayout(j);
    assert s[p..p + |Key(j)|][0] == s[p];
  }

  /** Key `j` occurs nowhere from segment `k` on, when `j < k` and no segment holds `{`. */
  lemma {:induction false} KeyAbsent(segs: seq<string>, k: nat, j: nat)
    requires j < k < |segs|
    requires forall i :: 0 <= i < |segs| ==> '{' !in segs[i]
    ensures IndexOf(Woven(segs, k), Key(j)).None?
    decreases |segs| - k
  {
    var a := segs[k];
    if k == |segs| - 1 {
      assert Woven(segs, k) == a + [];
      NoKeyBefore(a, [], j);
    } else {
      var rest := Woven(segs, k + 1);
      assert Woven(segs, k) == a + (Key(k) + rest);
      NoKeyBefore(a, Key(k) + rest, j);
      KeyAbsent(segs, k + 1, j);
      NoKeyAfter(a, k, j, rest);
    }
  }

  /** No key starts inside a stretch without `{`. */
  lemma NoKeyBefore(a: string, t: string, j: nat)
    requires '{' !in a
    ensures forall p: nat :: p < |a| ==> !OccursAt(a + t, Key(j), p)
  {
    forall p: nat | p < |a|
      ensures !OccursAt(a + t, Key(j), p)
    {
      assert (a + t)[p] == a[p];
      if OccursAt(a + t, Key(j), p) {
        OccursAtBrace(a + t, j, p);
      }
    }
  }

  /** After the stretch, key `j` is neither key `k` nor inside the text that follows it. */
  lemma NoKeyAfter(a: string, k: nat, j: nat, rest: string)
    requires j != k && IndexOf(rest, Key(j)).None?
    ensures forall p: nat :: |a| <= p ==> !OccursAt(a + (Key(k) + rest), Key(j), p)
  {
    KeyLayout(k);
    forall p: nat | |a| <= p
      ensures !OccursAt(a + (Key(k) + rest), Key(j), p)
    {
      var p' := p - |a|;
      OccursAppend(a, Key(k) + rest, Key(j), p');
      if p' == 0 {
        KeyNotPrefix(j, k, rest);
      } else if p' < |Key(k)| {
        assert (Key(k) + rest)[p'] == Key(k)[p'];
        if OccursAt(Key(k) + rest, Key(j), p') {
          OccursAtBrace(Key(k) + rest, j, p');
        }
      } else {
        OccursAppend(Key(k), rest, Key(j), p' - |Key(k)|);
      }
    }
  }

  /** Splitting at a key right after a stretch without `{`: that stretch is the first piece. */
  lemma SplitAtKey(a: string, j: nat, rest: string)
    requires '{' !in a
    ensures Split(a + Key(j) + rest, Key(j)) == [a] + Split(rest, Key(j))
  {
    var s := a + Key(j) + rest;
    KeyLayout(j);
    assert s == a + (Key(j) + rest);
    assert OccursAt(s, Key(j), |a|) by {
      assert s[|a|..|a| + |Key(j)|] == Key(j);
    }
    forall p: nat | p < |a|
      ensures !OccursAt(s, Key(j), p)
    {
      assert s[p] == a[p];
      if OccursAt(s, Key(j), p) {
        OccursAtBrace(s, j, p);
      }
    }
    assert IndexOf(s, Key(j)) == Some(|a|);
    SplitFirst(s, Key(j), |a|);
    assert s[..|a|] == a && s[|a| + |Key(j)|..] == rest;
  }

  /** Text piece `i` and then the argument of key `i`, for the first `j` keys. */
  function Alternate(segs: seq<string>, mapping: seq<(string, Value)>, j: nat): (parts: seq<Part>)
    requires j <= |segs| && j <= |mapping|
    ensures |parts| == 2 * j
    ensures forall i :: 0 <= i < j ==> parts[2 * i] == Text(segs[i]) && parts[2 * i + 1] == Ref(mapping[i].1)
  {
    if j == 0 then [] else Alternate(segs, mapping, j - 1) + [Text(segs[j - 1]), Ref(mapping[j - 1].1)]
  }

  /** Splitting the woven text at the keys in order gives back each segment and its argument. */
  lemma {:induction false} SplitBackWoven(segs: seq<string>, mapping: seq<(string, Value)>, j: nat)
    requires |segs| == |mapping| + 1 && j <= |mapping|
    requires forall i :: 0 <= i < |mapping| ==> mapping[i].0 == Key(i)
    requires forall i :: 0 <= i < |segs| ==> '{' !in segs[i]
    ensures forall i :: 0 <= i < j ==> |mapping[..j][i].0| >= 1
    ensures SplitBack(Woven(segs, 0), mapping[..j]) ==
      Success(SplitState(Alternate(segs, mapping, j), Some(Woven(segs, j))))
    decreases j
  {
    if j > 0 {
      SplitBackWoven(segs, mapping, j - 1);
      SplitWovenAt(segs, j);
      SplitBackSnoc(Woven(segs, 0), mapping, j, Alternate(segs, mapping, j - 1), Woven(segs, j - 1));
    }
  }

  /** The leftover from segment `j - 1` on splits at key `j - 1` into that segment and the rest. */
  lemma SplitWovenAt(segs: seq<string>, j: nat)
    requires 0 < j < |segs|
    requires forall i :: 0 <= i < |segs| ==> '{' !in segs[i]
    ensures Split(Woven(segs, j - 1), Key(j - 1)) == [segs[j - 1], Woven(segs, j)]
  {
    var rest := Woven(segs, j);
    assert Woven(segs, j - 1) == segs[j - 1] + Key(j - 1) + rest;
    SplitAtKey(segs[j - 1], j - 1, rest);
    KeyAbsent(segs, j, j - 1);
    assert Split(rest, Key(j - 1)) == [rest];
  }

  /** One more key of `mapping` split off the leftover text. */
  lemma SplitBackSnoc(result: string, mapping: seq<(string, Value)>, j: nat, out: seq<Part>, leftover: string)
    requires 0 < j <= |mapping|
    requires forall i :: 0 <= i < |mapping| ==> |mapping[i].0| >= 1
    requires SplitBack(result, mapping[..j - 1]) == Success(SplitState(out, Some(leftover)))
    ensures var pieces := Split(leftover, mapping[j - 1].0);
      SplitBack(result, mapping[..j]) == Success(SplitState(out + [Text(pieces[0]), Ref(mapping[j - 1].1)],
        if |pieces| >= 2 then Some(pieces[1]) else None))
  {
    var m := mapping[..j];
    assert m[..j - 1] == mapping[..j - 1];
    assert m[j - 1] == mapping[j - 1];
  }

  /**
   * When the template holds no `{` and `printf` leaves the keyed text as it is, the result is
   * exactly the text between the references interleaved with the referenced arguments.
   */
  lemma InterpolateParts(printf: Printf, text: string, args: seq<Value>)
    requires '{' !in text
    requires printf(Scan(Lex(text), args).text, args) == Scan(Lex(text), args).text
    requires |References(Lex(text))| >= 1
    ensures var refs := References(Lex(text));
      var segs := Segments(Lex(text));
      && Interpolate(printf, text, args).Success?
      && Interpolate(printf, text, args).value.Mixed?
      && |Interpolate(printf, text, args).value.parts| == 2 * |refs| + 1
      && (forall j :: 0 <= j < |refs| ==>
            && Interpolate(printf, text, args).value.parts[2 * j] == Text(segs[j])
            && Interpolate(printf, text, args).value.parts[2 * j + 1] == Ref(Referenced(refs, j, args)))
      && Interpolate(printf, text, args).value.parts[2 * |refs|] == Text(segs[|refs|])
  {
    var chunks := Lex(text);
    var mapping := Scan(chunks, args).mapping;
    var segs := Segments(chunks);
    ScanRecords(chunks, args);
    InterpolateAssembled(printf, text, args);
    AlternateParts(segs, mapping, References(chunks), args);
  }

  /**
   * `printf` may rewrite the text between the keys, as it does for `%d` beside `%r`: as long as
   * it keeps the keys in order and writes no `{` of its own, the result is exactly the rewritten
   * pieces interleaved with the referenced arguments.
   */
  lemma InterpolateRewritten(printf: Printf, text: string, args: seq<Value>, out: seq<string>)
    requires |References(Lex(text))| >= 1
    requires |out| == |References(Lex(text))| + 1
    requires forall i :: 0 <= i < |out| ==> '{' !in out[i]
    requires printf(Scan(Lex(text), args).text, args) == Woven(out, 0)
    ensures var refs := References(Lex(text));
      && Interpolate(printf, text, args).Success?
      && Interpolate(printf, text, args).value.Mixed?
      && |Interpolate(printf, text, args).value.parts| == 2 * |refs| + 1
      && (forall j :: 0 <= j < |refs| ==>
            && Interpolate(printf, text, args).value.parts[2 * j] == Text(out[j])
            && Interpolate(printf, text, args).value.parts[2 * j + 1] == Ref(Referenced(refs, j, args)))
      && Interpolate(printf, text, args).value.parts[2 * |refs|] == Text(out[|refs|])
  {
    var chunks := Lex(text);
    var mapping := Scan(chunks, args).mapping;
    ScanRecords(chunks, args);
    SplitBackWoven(out, mapping, |mapping|);
    TakeAll(mapping);
    var parts := Alternate(out, mapping, |mapping|) + [Text(out[|mapping|])];
    assert Assemble(Woven(out, 0), mapping) == Success(parts);
    AlternateParts(out, mapping, References(chunks), args);
  }

  /** The result is the interleaving of the segments with the remembered arguments. */
  lemma InterpolateAssembled(printf: Printf, text: string, args: seq<Value>)
    requires '{' !in text
    requires printf(Scan(Lex(text), args).text, args) == Scan(Lex(text), args).text
    requires |References(Lex(text))| >= 1
    ensures var mapping := Scan(Lex(text), args).mapping;
      var segs := Segments(Lex(text));
      |segs| == |mapping| + 1 &&
      Interpolate(printf, text, args) == Success(Mixed(Alternate(segs, mapping, |mapping|) + [Text(segs[|mapping|])]))
  {
    var chunks := Lex(text);
    var st := Scan(chunks, args);
    var segs := Segments(chunks);
    ScanRecords(chunks, args);
    ScanText(chunks, args);
    LexLacks(text, '{');
    SegmentsLack(chunks, '{');
    var mapping := st.mapping;
    SplitBackWoven(segs, mapping, |mapping|);
    TakeAll(mapping);
    var parts := Alternate(segs, mapping, |mapping|) + [Text(segs[|mapping|])];
    assert Assemble(st.text, mapping) == Success(parts);
  }

  lemma TakeAll<T>(s: seq<T>)
    ensures s[..|s|] == s
  {
  }

  /** The interleaved parts, stated per position. */
  lemma AlternateParts(segs: seq<string>, mapping: seq<(string, Value)>, refs: seq<string>, args: seq<Value>)
    requires |segs| == |mapping| + 1 && |mapping| == |refs|
    requires forall j :: 0 <= j < |mapping| ==> mapping[j] == (Key(j), Referenced(refs, j, args))
    ensures var parts := Alternate(segs, mapping, |mapping|) + [Text(segs[|mapping|])];
      && |parts| == 2 * |refs| + 1
      && (forall j :: 0 <= j < |refs| ==> parts[2 * j] == Text(segs[j]) && parts[2 * j + 1] == Ref(Referenced(refs, j, args)))
      && parts[2 * |refs|] == Text(segs[|refs|])
  {
  }

  // ---------------------------------------------------------------------------------------------
  // The templates of the interpolation tests

  /** `"%r test"` with one argument: the argument between an empty piece and `" test"`. */
  lemma SequentialExample(printf: Printf, v: Value)
    requires printf(Key(0) + " test", [v]) == Key(0) + " test"
    ensures Interpolate(printf, "%r test", [v]) == Success(Mixed([Text(""), Ref(v), Text(" test")]))
  {
    SequentialTemplate(v);
    ExampleParts(printf, "%r test", [v], [Literal(""), Token("%r"), Literal(" test")], "%r", " test");
  }

  lemma SequentialTemplate(v: Value)
    ensures Lex("%r test") == [Literal(""), Token("%r"), Literal(" test")]
    ensures IsReference(Token("%r")) && !IsReference(Literal(" test")) && '{' !in "%r test"
    ensures Referenced(["%r"], 0, [v]) == v
  {
    LexSequentialExample();
    ExampleTexts();
    NotPositional("%r");
  }

  lemma LexSequentialExample()
    ensures Lex("%r test") == [Literal(""), Token("%r"), Literal(" test")]
  {
    ExampleTexts();
    LexSpecifierFirst("", "%r", " test");
    LexPlain(" test");
  }

  /** `"%2$r test"` with arguments `(3, v)`: the second argument. */
  lemma PositionalExample(printf: Printf, v: Value)
    requires printf(Key(0) + " test", [Num(3), v]) == Key(0) + " test"
    ensures Interpolate(printf, "%2$r test", [Num(3), v]) == Success(Mixed([Text(""), Ref(v), Text(" test")]))
  {
    PositionalTemplate(v);
    ExampleParts(printf, "%2$r test", [Num(3), v], [Literal(""), Token("%2$r"), Literal(" test")], "%2$r", " test");
  }

  lemma PositionalTemplate(v: Value)
    ensures Lex("%2$r test") == [Literal(""), Token("%2$r"), Literal(" test")]
    ensures IsReference(Token("%2$r")) && !IsReference(Literal(" test")) && '{' !in "%2$r test"
    ensures Referenced(["%2$r"], 0, [Num(3), v]) == v
  {
    LexPositionalExample();
    ExampleTexts();
    PositionTwo();
  }

  lemma LexPositionalExample()
    ensures Lex("%2$r test") == [Literal(""), Token("%2$r"), Literal(" test")]
  {
    ExampleTexts();
    LexSpecifierFirst("", "%2$r", " test");
    LexPlain(" test");
  }

  /** The example templates, cut at their specifiers. */
  lemma ExampleTexts()
    ensures "%r test" == "" + ("%r" + " test")
    ensures "%2$r test" == "" + ("%2$r" + " test")
    ensures "%2$r %r test" == "" + ("%2$r" + (" " + ("%r" + " test")))
    ensures IsSpecifier("%r") && IsSpecifier("%2$r")
    ensures forall j :: 0 <= j < |" test"| ==> " test"[j] != '%'
    ensures forall j :: 0 <= j < |" "| ==> " "[j] != '%'
    ensures '{' !in "%r test" && '{' !in "%2$r test" && '{' !in "%2$r %r test"
  {
  }

  /** Plain text, a specifier, then the rest: the scan cuts the specifier out first. */
  lemma LexSpecifierFirst(lit: string, tok: string, rest: string)
    requires forall j :: 0 <= j < |lit| ==> lit[j] != '%'
    requires IsSpecifier(tok)
    ensures Lex(lit + (tok + rest)) == [Literal(lit), Token(tok)] + Lex(rest)
  {
    var s := lit + (tok + rest);
    var p, q := |lit|, |lit| + |tok| - 1;
    assert s[p] == tok[0] && s[q] == tok[|tok| - 1];
    forall j | 0 <= j < p
      ensures s[j] != '%'
    {
      assert s[j] == lit[j];
    }
    forall j | p < j < q
      ensures !IsLowerLetter(s[j])
    {
      assert s[j] == tok[j - p];
    }
    LexAt(s, p, q);
    assert s[..p] == lit && s[p..q + 1] == tok && s[q + 1..] == rest;
  }

  /** The scan when the first `%` is at `p` and the first letter after it at `q`. */
  lemma LexAt(text: string, p: nat, q: nat)
    requires p < q < |text| && text[p] == '%' && IsLowerLetter(text[q])
    requires forall j :: 0 <= j < p ==> text[j] != '%'
    requires forall j :: p < j < q ==> !IsLowerLetter(text[j])
    ensures Lex(text) == [Literal(text[..p]), Token(text[p..q + 1])] + Lex(text[q + 1..])
  {
    assert FindChar(text, '%', 0) == Some(p);
    assert FindLower(text, p + 1) == Some(q);
    LexStep(text, p, q);
  }

  /** A template without `%` is one piece of text. */
  lemma LexPlain(text: string)
    requires forall j :: 0 <= j < |text| ==> text[j] != '%'
    ensures Lex(text) == [Literal(text)]
  {
    assert FindChar(text, '%', 0).None?;
  }

  /** The interleaving for one leading reference followed by plain text. */
  lemma ExampleParts(printf: Printf, text: string, args: seq<Value>, chunks: seq<Chunk>, ref: string, tail: string)
    requires Lex(text) == chunks && chunks == [Literal(""), Token(ref), Literal(tail)]
    requires IsReference(Token(ref)) && !IsReference(Literal(tail))
    requires '{' !in text
    requires printf(Key(0) + tail, args) == Key(0) + tail
    ensures Interpolate(printf, text, args) ==
      Success(Mixed([Text(""), Ref(Referenced([ref], 0, args)), Text(tail)]))
  {
    ThreeChunks(chunks, ref, tail, args);
    InterpolateParts(printf, text, args);
    var parts := Interpolate(printf, text, args).value.parts;
    assert parts == [Text(""), Ref(Referenced([ref], 0, args)), Text(tail)];
  }

  lemma ThreeChunks(chunks: seq<Chunk>, ref: string, tail: string, args: seq<Value>)
    requires chunks == [Literal(""), Token(ref), Literal(tail)]
    requires IsReference(Token(ref)) && !IsReference(Literal(tail))
    ensures References(chunks) == [ref] && Segments(chunks) == ["", tail]
    ensures Scan(chunks, args).text == Key(0) + tail
  {
    var c2 := chunks[..2];
    TwoChunks(c2, ref, args);
    assert chunks[..2] == c2;
    var init: seq<string> := ["", ""];
    assert init[1] + tail == tail && init[..1] == [""];
  }

  lemma TwoChunks(c2: seq<Chunk>, ref: string, args: seq<Value>)
    requires c2 == [Literal(""), Token(ref)] && IsReference(Token(ref))
    ensures References(c2) == [ref] && Segments(c2) == ["", ""]
    ensures Scan(c2, args).text == Key(0)
  {
    var c1 := c2[..1];
    assert c1 == [Literal("")] && c1[..0] == [];
    var init: seq<string> := [""];
    assert Segments(c1[..0]) == init;
    assert init[0] + "" == "" && init[..0] == [];
    assert Scan(c1, args).text == "" && Scan(c1, args).mapping == [];
  }

  lemma NotPositional(t: string)
    requires |t| == 2
    ensures Position(t).None?
  {
  }

  lemma PositionTwo()
    ensures Position("%2$r") == Some(2)
  {
    var t := "%2$r";
    assert Run(t, 2, Digit) == 0;
    assert Run(t, 1, Digit) == 1;
    assert PositionalAt(t, 0);
    assert t[1..2] == "2";
    assert DecimalValue("2") == DecimalValue("") * 10 + DigitValue('2');
  }

  /** `"%2$r %r test"` with `("one", "two")`: the positional reference takes the second argument, the sequential one the first. */
  lemma MixedExample(printf: Printf)
    requires printf(Key(0) + " " + Key(1) + " test", [Str("one"), Str("two")]) == Key(0) + " " + Key(1) + " test"
    ensures Interpolate(printf, "%2$r %r test", [Str("one"), Str("two")]) ==
      Success(Mixed([Text(""), Ref(Str("two")), Text(" "), Ref(Str("one")), Text(" test")]))
  {
    var args := [Str("one"), Str("two")];
    MixedTemplate();
    MixedReferenced(args);
    TwoReferenceParts(printf, "%2$r %r test", args, "", "%2$r", " ", "%r", " test");
  }

  lemma MixedTemplate()
    ensures Lex("%2$r %r test") == [Literal(""), Token("%2$r"), Literal(" "), Token("%r"), Literal(" test")]
    ensures IsReference(Token("%2$r")) && IsReference(Token("%r")) && '{' !in "%2$r %r test"
    ensures "" + Key(0) == Key(0)
  {
    LexMixedExample();
    ExampleTexts();
  }

  lemma MixedReferenced(args: seq<Value>)
    requires args == [Str("one"), Str("two")]
    ensures Referenced(["%2$r", "%r"], 0, args) == Str("two")
    ensures Referenced(["%2$r", "%r"], 1, args) == Str("one")
  {
    PositionTwo();
    NotPositional("%r");
    var refs := ["%2$r", "%r"];
    assert refs[..1] == ["%2$r"] && refs[..1][..0] == [];
    assert Sequential(refs[..1]) == 0;
  }

  /** The interleaving for text, a reference, text, a reference, text. */
  lemma TwoReferenceParts(printf: Printf, text: string, args: seq<Value>, a: string, t1: string, b: string, t2: string, c: string)
    requires Lex(text) == [Literal(a), Token(t1), Literal(b), Token(t2), Literal(c)]
    requires IsReference(Token(t1)) && IsReference(Token(t2)) && '{' !in text
    requires printf(a + Key(0) + b + Key(1) + c, args) == a + Key(0) + b + Key(1) + c
    ensures Interpolate(printf, text, args) == Success(Mixed([Text(a), Ref(Referenced([t1, t2], 0, args)),
      Text(b), Ref(Referenced([t1, t2], 1, args)), Text(c)]))
  {
    FiveChunks(a, t1, b, t2, c, args);
    InterpolateParts(printf, text, args);
    FiveParts(Interpolate(printf, text, args).value.parts, [a, b, c], [t1, t2], args);
  }

  lemma FiveParts(parts: seq<Part>, segs: seq<string>, refs: seq<string>, args: seq<Value>)
    requires |segs| == 3 && |refs| == 2 && |parts| == 5
    requires forall j :: 0 <= j < |refs| ==>
      parts[2 * j] == Text(segs[j]) && parts[2 * j + 1] == Ref(Referenced(refs, j, args))
    requires parts[2 * |refs|] == Text(segs[|refs|])
    ensures parts == [Text(segs[0]), Ref(Referenced(refs, 0, args)), Text(segs[1]), Ref(Referenced(refs, 1, args)), Text(segs[2])]
  {
    assert parts[0] == Text(segs[0]) && parts[1] == Ref(Referenced(refs, 0, args));
    assert parts[2] == Text(segs[1]) && parts[3] == Ref(Referenced(refs, 1, args));
  }

  lemma LexMixedExample()
    ensures Lex("%2$r %r test") == [Literal(""), Token("%2$r"), Literal(" "), Token("%r"), Literal(" test")]
  {
    ExampleTexts();
    LexTwoSpecifiers("", "%2$r", " ", "%r", " test");
  }

  lemma LexTwoSpecifiers(a: string, t1: string, b: string, t2: string, c: string)
    requires forall j :: 0 <= j < |a| ==> a[j] != '%'
    requires forall j :: 0 <= j < |b| ==> b[j] != '%'
    requires forall j :: 0 <= j < |c| ==> c[j] != '%'
    requires IsSpecifier(t1) && IsSpecifier(t2)
    ensures Lex(a + (t1 + (b + (t2 + c)))) == [Literal(a), Token(t1), Literal(b), Token(t2), Literal(c)]
  {
    LexSpecifierFirst(a, t1, b + (t2 + c));
    LexSpecifierFirst(b, t2, c);
    LexPlain(c);
  }

  /** Text, a reference, text, a reference, text: what the callback and the splitting see. */
  lemma FiveChunks(a: string, t1: string, b: string, t2: string, c: string, args: seq<Value>)
    requires IsReference(Token(t1)) && IsReference(Token(t2))
    ensures var chunks := [Literal(a), Token(t1), Literal(b), Token(t2), Literal(c)];
      && References(chunks) == [t1, t2]
      && Segments(chunks) == [a, b, c]
      && Scan(chunks, args).text == a + Key(0) + b + Key(1) + c
  {
    var chunks := [Literal(a), Token(t1), Literal(b), Token(t2), Literal(c)];
    var c1 := [Literal(a)];
    var c2 := c1 + [Token(t1)];
    var c3 := c2 + [Literal(b)];
    var c4 := c3 + [Token(t2)];
    assert c4 + [Literal(c)] == chunks;
    FiveReferences(a, t1, b, t2, c, c1, c2, c3, c4);
    FiveSegments(a, t1, b, t2, c, c1, c2, c3, c4);
    FiveText(a, t1, b, t2, c, c1, c2, c3, c4, args);
  }

  lemma FiveReferences(a: string, t1: string, b: string, t2: string, c: string,
                       c1: seq<Chunk>, c2: seq<Chunk>, c3: seq<Chunk>, c4: seq<Chunk>)
    requires IsReference(Token(t1)) && IsReference(Token(t2))
    requires c1 == [Literal(a)] && c2 == c1 + [Token(t1)] && c3 == c2 + [Literal(b)] && c4 == c3 + [Token(t2)]
    ensures References(c4 + [Literal(c)]) == [t1, t2]
  {
    SnocLiteral([], a, []);
    assert [] + [Literal(a)] == c1;
    SnocToken(c1, t1, []);
    SnocLiteral(c2, b, []);
    SnocToken(c3, t2, []);
    SnocLiteral(c4, c, []);
  }

  lemma FiveSegments(a: string, t1: string, b: string, t2: string, c: string,
                     c1: seq<Chunk>, c2: seq<Chunk>, c3: seq<Chunk>, c4: seq<Chunk>)
    requires IsReference(Token(t1)) && IsReference(Token(t2))
    requires c1 == [Literal(a)] && c2 == c1 + [Token(t1)] && c3 == c2 + [Literal(b)] && c4 == c3 + [Token(t2)]
    ensures Segments(c4 + [Literal(c)]) == [a, b, c]
  {
    SnocLiteral([], a, []);
    assert [] + [Literal(a)] == c1;
    assert Segments(c1) == [a] by {
      var s0: seq<string> := [""];
      assert s0[0] + a == a && s0[..0] == [];
    }
    SnocToken(c1, t1, []);
    SnocLiteral(c2, b, []);
    assert Segments(c3) == [a, b] by {
      var s2: seq<string> := [a, ""];
      assert s2[1] + b == b && s2[..1] == [a];
    }
    SnocToken(c3, t2, []);
    SnocLiteral(c4, c, []);
    var s4: seq<string> := [a, b, ""];
    assert s4[2] + c == c && s4[..2] == [a, b];
  }

  lemma FiveText(a: string, t1: string, b: string, t2: string, c: string,
                 c1: seq<Chunk>, c2: seq<Chunk>, c3: seq<Chunk>, c4: seq<Chunk>, args: seq<Value>)
    requires IsReference(Token(t1)) && IsReference(Token(t2))
    requires c1 == [Literal(a)] && c2 == c1 + [Token(t1)] && c3 == c2 + [Literal(b)] && c4 == c3 + [Token(t2)]
    ensures Scan(c4 + [Literal(c)], args).text == a + Key(0) + b + Key(1) + c
  {
    SnocLiteral([], a, args);
    assert [] + [Literal(a)] == c1;
    assert Scan(c1, args).text == a && Scan(c1, args).mapping == [] by {
      assert Scan([], args).text == "" && "" + a == a;
    }
    SnocToken(c1, t1, args);
    SnocLiteral(c2, b, args);
    assert Scan(c3, args).text == a + Key(0) + b && |Scan(c3, args).mapping| == 1;
    SnocToken(c3, t2, args);
    assert Scan(c4, args).text == a + Key(0) + b + Key(1);
    SnocLiteral(c4, c, args);
  }

  lemma SnocLiteral(chunks: seq<Chunk>, t: string, args: seq<Value>)
    ensures References(chunks + [Literal(t)]) == References(chunks)
    ensures var segs := Segments(chunks);
      Segments(chunks + [Literal(t)]) == segs[..|segs| - 1] + [segs[|segs| - 1] + t]
    ensures Scan(chunks + [Literal(t)], args).text == Scan(chunks, args).text + t
    ensures Scan(chunks + [Literal(t)], args).mapping == Scan(chunks, args).mapping
  {
    assert (chunks + [Literal(t)])[..|chunks|] == chunks;
  }

  lemma SnocToken(chunks: seq<Chunk>, t: string, args: seq<Value>)
    requires IsReference(Token(t))
    ensures References(chunks + [Token(t)]) == References(chunks) + [t]
    ensures Segments(chunks + [Token(t)]) == Segments(chunks) + [""]
    ensures Scan(chunks + [Token(t)], args).text == Scan(chunks, args).text + Key(|Scan(chunks, args).mapping|)
    ensures |Scan(chunks + [Token(t)], args).mapping| == |Scan(chunks, args).mapping| + 1
  {
    assert (chunks + [Token(t)])[..|chunks|] == chunks;
  }
}
