/**
 * Localizations in src/index.ts: the shorthand a caller registers (`CompressedLocalization`, after
 * the `JSON.parse(JSON.stringify(...))` copy), its expansion by `decompressLocalization` into
 * `{plurals, content: key -> context -> forms}`, and the check `verifyLocalization`.
 */
module Localizations {
  import opened Wrappers
  import opened Strings
  import opened PluralForms
  import opened Headers

  /**
   * A JSON value as the copy holds it. Arrays are declared `string[]`; a hole or an `undefined`
   * element comes back from the copy as `null`, here `None`.
   */
  datatype Json =
    | Null
    | Boolean(b: bool)
    | Number(n: int)
    | Text(s: string)
    | List(items: seq<Option<string>>)
    | Record(fields: map<string, Json>)

  /** The forms of one message in one context: `forms[i]` is the i-th plural form. */
  type Forms = seq<Option<string>>

  /** The forms of one message, by context name. */
  type Context = map<string, Forms>

  /** `Localization`: the parsed plurals and, per escaped message key, its contexts. */
  datatype Localization = Localization(plurals: Plurals, content: map<string, Context>)

  /** The errors the registration path raises; all of them are `TypeError`s in the source. */
  datatype Error =
    | HeaderNotText
    | InvalidFormatting
    | HeadersNotConfigured(locale: string)

  // ---------------------------------------------------------------------------------------------
  // getType

  datatype JsonType = ArrayType | ObjectType | StringType | InvalidType

  /** `getType`: arrays, then other objects, then strings; `null`, numbers and booleans are invalid. */
  function GetType(v: Json): (t: JsonType)
    ensures t == ArrayType <==> v.List?
    ensures t == ObjectType <==> v.Record?
    ensures t == StringType <==> v.Text?
    ensures t == InvalidType <==> (v.Null? || v.Boolean? || v.Number?)
  {
    match v
    case List(_) => ArrayType
    case Record(_) => ObjectType
    case Text(_) => StringType
    case _ => InvalidType
  }

  // ---------------------------------------------------------------------------------------------
  // decompressLocalization, as a specification

  /** The contexts of a top-level entry: a string or array stands for the default context `""`. */
  function ContextsOf(v: Json): Option<map<string, Json>> {
    match v
    case List(_) => Some(map["" := v])
    case Text(_) => Some(map["" := v])
    case Record(m) => Some(m)
    case _ => None
  }

  /** The forms of a context entry: an array is kept, a string becomes its only form. */
  function FormsOf(v: Json): Option<Forms> {
    match v
    case List(a) => Some(a)
    case Text(s) => Some([Some(s)])
    case _ => None
  }

  /** Whether the loop of `decompressLocalization` gets through an entry without throwing. */
  predicate ValidEntry(v: Json) {
    ContextsOf(v).Some? && forall c :: c in ContextsOf(v).value ==> FormsOf(ContextsOf(v).value[c]).Some?
  }

  /** The contexts a valid entry expands to. */
  function Entry(v: Json): Context
    requires ValidEntry(v)
  {
    var m := ContextsOf(v).value;
    map c | c in m :: FormsOf(m[c]).value
  }

  /**
   * The text `parseHeaders` receives: `copy[""]` when it is a string and the default `""` when
   * it is absent; anything else has no `split` method and throws.
   */
  function HeaderText(input: map<string, Json>): Result<string, Error> {
    if "" !in input then Success("")
    else if input[""].Text? then Success(input[""].s)
    else Failure(HeaderNotText)
  }

  /** Whether every entry but the header's gets through the loop. */
  predicate AllValid(input: map<string, Json>) {
    forall k :: k in input && k != "" ==> ValidEntry(input[k])
  }

  /** The expanded content: every entry but the header's, expanded. */
  function ExpandedContent(input: map<string, Json>): map<string, Context>
    requires AllValid(input)
  {
    map k | k in input && k != "" :: Entry(input[k])
  }

  /** What `decompressLocalization` returns or throws for `input`. */
  function Decompressed(input: map<string, Json>): Result<Localization, Error> {
    match HeaderText(input)
    case Failure(e) => Failure(e)
    case Success(text) =>
      if !AllValid(input) then Failure(InvalidFormatting)
      else Success(Localization(HeaderPlurals(text), ExpandedContent(input)))
  }

  // ---------------------------------------------------------------------------------------------
  // decompressLocalization, as the source computes it

  /** The inner loop: rewrite every context of one entry, or throw on the first invalid one. */
  method DecompressContexts(contexts: map<string, Json>) returns (r: Option<Context>)
    ensures r.Some? <==> forall c :: c in contexts ==> FormsOf(contexts[c]).Some?
    ensures r.Some? ==> r.value == map c | c in contexts :: FormsOf(contexts[c]).value
  {
    var forms: Context := map[];
    var pending := contexts.Keys;
    while pending != {}
      invariant pending <= contexts.Keys
      invariant forall c :: c in contexts ==> (c in forms <==> c !in pending)
      invariant forall c :: c in forms ==> c in contexts
      invariant forall c :: c in forms ==> FormsOf(contexts[c]) == Some(forms[c])
      decreases |pending|
    {
      var c :| c in pending;
      match GetType(contexts[c]) {
        case ArrayType =>
          forms := forms[c := contexts[c].items];
        case StringType =>
          forms := forms[c := [Some(contexts[c].s)]];
        case _ =>
          return None;
      }
      pending := pending - {c};
    }
    return Some(forms);
  }

  /** One pass of the outer loop: the entry's contexts, or a throw. */
  method DecompressEntry(v: Json) returns (r: Option<Context>)
    ensures r.Some? <==> ValidEntry(v)
    ensures r.Some? ==> r.value == Entry(v)
  {
    var contexts: map<string, Json>;
    match GetType(v) {
      case ArrayType =>
        contexts := map["" := v];
      case StringType =>
        contexts := map["" := v];
      case ObjectType =>
        contexts := v.fields;
      case InvalidType =>
        return None;
    }
    assert ContextsOf(v) == Some(contexts);
    r := DecompressContexts(contexts);
  }

  /** The outer loop over every key but the header's. */
  method DecompressEntries(input: map<string, Json>) returns (r: Option<map<string, Context>>)
    ensures r.Some? <==> AllValid(input)
    ensures r.Some? ==> r.value == ExpandedContent(input)
  {
    var content: map<string, Context> := map[];
    var pending := input.Keys - {""};
    while pending != {}
      invariant pending <= input.Keys - {""}
      invariant forall x :: x in input && x != "" ==> (x in content <==> x !in pending)
      invariant forall x :: x in content ==> x in input && x != ""
      invariant forall k :: k in content ==> ValidEntry(input[k]) && content[k] == Entry(input[k])
      decreases |pending|
    {
      var k :| k in pending;
      var forms := DecompressEntry(input[k]);
      if forms.None? {
        return None;
      }
      content := content[k := forms.value];
      pending := pending - {k};
    }
    EntriesExpanded(input, content);
    return Some(content);
  }

  /** Once every entry is expanded, the content is the expanded content. */
  lemma EntriesExpanded(input: map<string, Json>, content: map<string, Context>)
    requires forall k :: k in input && k != "" ==> k in content
    requires forall k :: k in content ==> k in input && k != "" && ValidEntry(input[k]) && content[k] == Entry(input[k])
    ensures AllValid(input) && content == ExpandedContent(input)
  {
  }

  /**
   * `decompressLocalization`: parse the header, expand every other entry, drop the header key.
   * The caller's value is never changed (the source works on a deep copy).
   */
  method Decompress(input: map<string, Json>) returns (r: Result<Localization, Error>)
    ensures r == Decompressed(input)
  {
    var text: string;
    if "" !in input {
      text := "";
    } else if input[""].Text? {
      text := input[""].s;
    } else {
      return Failure(HeaderNotText);
    }
    var plurals := ParseHeaders(text);
    var content := DecompressEntries(input);
    if content.None? {
      return Failure(InvalidFormatting);
    }
    return Success(Localization(plurals, content.value));
  }

  // ---------------------------------------------------------------------------------------------
  // Properties of decompressLocalization

  /** A successful expansion holds the expanded content. */
  lemma DecompressedContent(input: map<string, Json>)
    requires Decompressed(input).Success?
    ensures AllValid(input) && Decompressed(input).value.content == ExpandedContent(input)
  {
  }

  /** The expanded content keeps every key but the header's. */
  lemma ExpandedKeys(input: map<string, Json>)
    requires AllValid(input)
    ensures "" !in ExpandedContent(input)
    ensures ExpandedContent(input).Keys == input.Keys - {""}
  {
  }

  /**
   * How each entry is expanded: a top-level string `v` becomes `{"": [v]}`, an array `a`
   * becomes `{"": a}`, and an object keeps its context names with each string `s` in it turned
   * into `[s]` and each array kept.
   */
  lemma ExpandedEntry(input: map<string, Json>, k: string)
    requires AllValid(input) && k in input && k != ""
    ensures var context := ExpandedContent(input)[k];
      && (input[k].Text? ==> context == map["" := [Some(input[k].s)]])
      && (input[k].List? ==> context == map["" := input[k].items])
      && (input[k].Record? ==>
            && context.Keys == input[k].fields.Keys
            && forall c :: c in context ==> context[c] == FormsOf(input[k].fields[c]).value)
  {
    assert ValidEntry(input[k]);
    var context := ExpandedContent(input)[k];
    assert context == Entry(input[k]);
    if input[k].Text? {
      assert context == map["" := [Some(input[k].s)]];
    }
    if input[k].List? {
      assert context == map["" := input[k].items];
    }
  }

  /** An entry that is not a string, an array or an object of strings and arrays. */
  predicate Malformed(v: Json) {
    v.Null? || v.Boolean? || v.Number? ||
    (v.Record? && exists c :: c in v.fields && !(v.fields[c].Text? || v.fields[c].List?))
  }

  /**
   * Once the header is readable, the expansion throws exactly when some non-header entry is
   * `null`, a number or a boolean, or is an object with a context that is not a string or array.
   */
  lemma DecompressedFails(input: map<string, Json>)
    requires HeaderText(input).Success?
    ensures Decompressed(input).Failure? <==> exists k :: k in input && k != "" && Malformed(input[k])
    ensures Decompressed(input).Failure? ==> Decompressed(input).error == InvalidFormatting
  {
    forall k | k in input
      ensures ValidEntry(input[k]) <==> !Malformed(input[k])
    {
      EntryValidity(input[k]);
    }
  }

  lemma EntryValidity(v: Json)
    ensures ValidEntry(v) <==> !Malformed(v)
  {
    if v.Record? && !ValidEntry(v) {
      var c :| c in v.fields && FormsOf(v.fields[c]).None?;
      assert !(v.fields[c].Text? || v.fields[c].List?);
    }
  }

  /** A header that is present but not a string throws before any entry is looked at. */
  lemma HeaderMustBeText(input: map<string, Json>)
    requires "" in input && !input[""].Text?
    ensures Decompressed(input) == Failure(HeaderNotText)
  {
  }

  /** Without a header entry the plurals are empty. */
  lemma NoHeaderNoPlurals(input: map<string, Json>)
    requires "" !in input && Decompressed(input).Success?
    ensures Decompressed(input).value.plurals == Plurals(None, None)
  {
    EmptyHeaders();
  }

  /** A message's contexts written out in full: an object of arrays. */
  function Written(context: Context): Json {
    Record(map c | c in context :: List(context[c]))
  }

  /** The fully expanded form of a content map, with `header` as the header entry. */
  function Compressed(header: string, content: map<string, Context>): map<string, Json>
    requires "" !in content
  {
    map k | k in content.Keys + {""} :: if k == "" then Text(header) else Written(content[k])
  }

  /** A message written out in full expands back to its contexts. */
  lemma WrittenEntry(context: Context)
    ensures ValidEntry(Written(context)) && Entry(Written(context)) == context
  {
    var fields := map c | c in context :: List(context[c]);
    assert ContextsOf(Written(context)) == Some(fields);
    forall c | c in fields
      ensures FormsOf(fields[c]) == Some(context[c])
    {
    }
  }

  /** Expanding an already expanded localization gives back its content and its header's plurals. */
  lemma DecompressCompressed(header: string, content: map<string, Context>)
    requires "" !in content
    ensures Decompressed(Compressed(header, content)) ==
      Success(Localization(HeaderPlurals(header), content))
  {
    var input := Compressed(header, content);
    assert HeaderText(input) == Success(header);
    forall k | k in input && k != ""
      ensures ValidEntry(input[k]) && Entry(input[k]) == content[k]
    {
      WrittenEntry(content[k]);
    }
    assert ExpandedContent(input) == content;
  }

  // ---------------------------------------------------------------------------------------------
  // verifyLocalization

  /**
   * `verifyLocalization`: a localization is usable only when its form count is present and
   * non-zero and it has a plural expression.
   */
  function VerifyLocalization(locale: string, l: Localization): (o: Outcome<Error>)
    ensures o.Fail? <==>
      l.plurals.length.None? || l.plurals.length == Some(0) || l.plurals.countToIndex.None?
    ensures o.Fail? ==> o.error == HeadersNotConfigured(locale)
  {
    match l.plurals
    case Plurals(Some(n), Some(_)) => if n == 0 then Fail(HeadersNotConfigured(locale)) else Pass
    case _ => Fail(HeadersNotConfigured(locale))
  }

  /** A localization that passes the check has at least one form and an expression. */
  predicate Configured(l: Localization) {
    l.plurals.length.Some? && l.plurals.length.value >= 1 && l.plurals.countToIndex.Some?
  }

  lemma VerifiedIsConfigured(locale: string, l: Localization)
    ensures VerifyLocalization(locale, l).Pass? <==> Configured(l)
  {
  }
}
