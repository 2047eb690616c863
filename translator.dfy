/**
 * The `Translator` class of src/index.ts: a store of localizations by locale, the current
 * locale, and the gettext family of lookups. The plural expression evaluator and `printf` are
 * supplied by the caller as a `Runtime`.
 */
module Translators {
  import opened Wrappers
  import opened PluralForms
  import opened Escaping
  import opened Localizations
  import opened Merging
  import opened Interpolation

  /** `FALLBACK_LOCALE`: the locale a translator starts in when none is given. */
  const FallbackLocale: string := ""

  /** `DEFAULT_CONTEXT`: the context of `gettext` and `ngettext`. */
  const DefaultContext: string := ""

  /** The code the model does not see: the plural expression evaluator and `printf`. */
  datatype Runtime = Runtime(evaluate: Evaluator, printf: Printf)

  /** `forms?.[index]`: the form at `index`, absent outside the list or in a hole. */
  function Form(forms: Forms, index: int): (f: Option<string>)
    ensures f.Some? ==> 0 <= index < |forms| && forms[index] == f
    ensures 0 <= index < |forms| ==> f == forms[index]
  {
    if 0 <= index < |forms| then forms[index] else None
  }

  // ---------------------------------------------------------------------------------------------
  // Lookups in one localization

  /** `content?.[escape(key)]?.[context]?.[0] ?? key`. */
  function LocalTranslation(l: Localization, context: string, key: string): string {
    match Lookup(l.content, Escape(key), context)
    case None => key
    case Some(forms) => Form(forms, 0).GetOr(key)
  }

  /** `[singular, plural][fallbackCountToIndex(count)]`. */
  function FallbackForm(singular: string, plural: string, count: int): (t: string)
    ensures count == 1 ==> t == singular
    ensures count != 1 ==> t == plural
  {
    [singular, plural][FallbackCountToIndex(count)]
  }

  /**
   * The plural lookup once the localization is found: with a plural expression, the form its
   * index selects under the key `escape(singular):escape(plural)`; otherwise, or when that form
   * is missing, the two-form fallback.
   */
  function LocalPluralTranslation(evaluate: Evaluator, l: Localization, context: string,
                                  singular: string, plural: string, count: int): string {
    match l.plurals.countToIndex
    case None => FallbackForm(singular, plural, count)
    case Some(expression) =>
      var index := CountToIndex(evaluate, expression, count);
      match Lookup(l.content, PluralKey(singular, plural), context)
      case None => FallbackForm(singular, plural, count)
      case Some(forms) => Form(forms, index).GetOr(FallbackForm(singular, plural, count))
  }

  // ---------------------------------------------------------------------------------------------
  // Registering a localization

  /** What `setLocalization` stores, or the error it throws: decompress, then verify. */
  function Registered(locale: string, input: map<string, Json>): Result<Localization, Error> {
    match Decompressed(input)
    case Failure(e) => Failure(e)
    case Success(l) =>
      match VerifyLocalization(locale, l)
      case Fail(e) => Failure(e)
      case Pass => Success(l)
  }

  /**
   * What `mergeLocalization` stores, or the error it throws: merged into the stored
   * localization of `locale` and verified, or registered afresh when there is none.
   */
  function MergeRegistered(store: map<string, Localization>, locale: string, input: map<string, Json>): Result<Localization, Error> {
    if locale in store then
      match Decompressed(input)
      case Failure(e) => Failure(e)
      case Success(l) =>
        var merged := Merged(store[locale], l);
        match VerifyLocalization(locale, merged)
        case Fail(e) => Failure(e)
        case Pass => Success(merged)
    else Registered(locale, input)
  }

  /** Every stored localization has a form count and a plural expression. */
  predicate AllConfigured(store: map<string, Localization>) {
    forall locale :: locale in store ==> Configured(store[locale])
  }

  /** `decompressLocalization` followed by `verifyLocalization`. */
  method Register(locale: string, input: map<string, Json>) returns (r: Result<Localization, Error>)
    ensures r == Registered(locale, input)
    ensures r.Success? ==> Configured(r.value)
  {
    var decompressed := Decompress(input);
    RegisteredSteps(locale, input, decompressed);
    if decompressed.Failure? {
      return Failure(decompressed.error);
    }
    var verified := VerifyLocalization(locale, decompressed.value);
    if verified.Fail? {
      return Failure(verified.error);
    }
    VerifiedIsConfigured(locale, decompressed.value);
    return Success(decompressed.value);
  }

  /** The stored branch of `mergeLocalization`: decompress, merge into `current`, verify. */
  method MergeInto(current: Localization, locale: string, input: map<string, Json>) returns (r: Result<Localization, Error>)
    ensures r == MergeRegistered(map[locale := current], locale, input)
    ensures r.Success? ==> Configured(r.value)
  {
    var decompressed := Decompress(input);
    MergeRegisteredSteps(map[locale := current], locale, input, decompressed);
    if decompressed.Failure? {
      return Failure(decompressed.error);
    }
    var merged := MergeLocalizations(current, decompressed.value);
    var verified := VerifyLocalization(locale, merged);
    if verified.Fail? {
      return Failure(verified.error);
    }
    VerifiedIsConfigured(locale, merged);
    return Success(merged);
  }

  class Translator {
    /** The localization store, by locale. */
    var localizations: map<string, Localization>

    /** The current locale; `""` is the fallback locale. */
    var locale: string

    /** Only verified localizations are stored. */
    predicate Valid()
      reads this
    {
      AllConfigured(localizations)
    }

    /** `new Translator(locale)`; without an argument the locale is `FallbackLocale`. */
    constructor(locale: string)
      ensures this.locale == locale && localizations == map[]
      ensures Valid()
    {
      this.locale := locale;
      localizations := map[];
    }

    /** `getTranslation`: the first form stored for `key` in `context`, or `key` itself. */
    function GetTranslation(context: string, key: string): (t: string)
      reads this
      ensures locale !in localizations ==> t == key
      ensures locale in localizations ==> t == LocalTranslation(localizations[locale], context, key)
    {
      if locale in localizations then LocalTranslation(localizations[locale], context, key) else key
    }

    /** `getPluralTranslation`: the plural lookup in the current locale, or the fallback. */
    function GetPluralTranslation(evaluate: Evaluator, context: string, singular: string, plural: string, count: int): (t: string)
      reads this
      ensures locale !in localizations ==> t == FallbackForm(singular, plural, count)
      ensures locale in localizations ==>
        t == LocalPluralTranslation(evaluate, localizations[locale], context, singular, plural, count)
    {
      if locale in localizations then
        LocalPluralTranslation(evaluate, localizations[locale], context, singular, plural, count)
      else FallbackForm(singular, plural, count)
    }

    /** `setLocalization`: store the decompressed and verified localization, or throw. */
    method SetLocalization(locale: string, input: map<string, Json>) returns (r: Outcome<Error>)
      modifies this
      ensures r.Pass? <==> Registered(locale, input).Success?
      ensures r.Pass? ==> localizations == old(localizations)[locale := Registered(locale, input).value]
      ensures r.Fail? ==> r.error == Registered(locale, input).error && localizations == old(localizations)
      ensures this.locale == old(this.locale)
      ensures old(Valid()) ==> Valid()
    {
      var registered := Register(locale, input);
      r := Store(locale, registered);
    }

    /** `mergeLocalization`: merge into the stored localization and verify, or set afresh. */
    method MergeLocalization(locale: string, input: map<string, Json>) returns (r: Outcome<Error>)
      modifies this
      ensures r.Pass? <==> MergeRegistered(old(localizations), locale, input).Success?
      ensures r.Pass? ==>
        localizations == old(localizations)[locale := MergeRegistered(old(localizations), locale, input).value]
      ensures r.Fail? ==>
        r.error == MergeRegistered(old(localizations), locale, input).error && localizations == old(localizations)
      ensures this.locale == old(this.locale)
      ensures old(Valid()) ==> Valid()
    {
      if locale in localizations {
        var merged := MergeInto(localizations[locale], locale, input);
        MergeRegisteredStored(localizations, locale, input);
        r := Store(locale, merged);
      } else {
        MergeIntoEmptyLocale(localizations, locale, input);
        r := SetLocalization(locale, input);
      }
    }

    /** `this.localizations[locale] = ...` once the localization is verified; else the error. */
    method Store(locale: string, outcome: Result<Localization, Error>) returns (r: Outcome<Error>)
      requires outcome.Success? ==> Configured(outcome.value)
      modifies this
      ensures r.Pass? <==> outcome.Success?
      ensures r.Pass? ==> localizations == old(localizations)[locale := outcome.value]
      ensures r.Fail? ==> r.error == outcome.error && localizations == old(localizations)
      ensures this.locale == old(this.locale)
      ensures old(Valid()) ==> Valid()
    {
      if outcome.Failure? {
        return Fail(outcome.error);
      }
      StoreConfigured(localizations, locale, outcome.value);
      localizations := localizations[locale := outcome.value];
      return Pass;
    }

    /** `pgettext`: the translation of `key` in `context`, interpolated with `leftover`. */
    method Pgettext(rt: Runtime, context: string, key: string, leftover: seq<Value>)
      returns (r: Result<Interpolated, InterpolationError>)
      ensures r == Interpolate(rt.printf, GetTranslation(context, key), leftover)
    {
      var text := GetTranslation(context, key);
      r := InterpolateText(rt.printf, text, leftover);
    }

    /** `gettext`: `pgettext` in the default context. */
    method Gettext(rt: Runtime, key: string, leftover: seq<Value>)
      returns (r: Result<Interpolated, InterpolationError>)
      ensures r == Interpolate(rt.printf, GetTranslation(DefaultContext, key), leftover)
    {
      r := Pgettext(rt, DefaultContext, key, leftover);
    }

    /**
     * `npgettext`: the plural translation, interpolated with the count as the first argument
     * followed by `leftover`.
     */
    method Npgettext(rt: Runtime, context: string, singular: string, plural: string, count: int, leftover: seq<Value>)
      returns (r: Result<Interpolated, InterpolationError>)
      ensures r == Interpolate(rt.printf,
        GetPluralTranslation(rt.evaluate, context, singular, plural, count), [Num(count)] + leftover)
    {
      var translation := GetPluralTranslation(rt.evaluate, context, singular, plural, count);
      r := InterpolateText(rt.printf, translation, [Num(count)] + leftover);
    }

    /** `ngettext`: `npgettext` in the default context. */
    method Ngettext(rt: Runtime, singular: string, plural: string, count: int, leftover: seq<Value>)
      returns (r: Result<Interpolated, InterpolationError>)
      ensures r == Interpolate(rt.printf,
        GetPluralTranslation(rt.evaluate, DefaultContext, singular, plural, count), [Num(count)] + leftover)
    {
      r := Npgettext(rt, DefaultContext, singular, plural, count, leftover);
    }
  }

  // ---------------------------------------------------------------------------------------------
  // Properties of registration

  /**
   * A localization is stored exactly when it decompresses and has a form count and a plural
   * expression; the error is the decompression's, else the missing-headers one.
   */
  lemma RegisteredIsConfigured(locale: string, input: map<string, Json>)
    ensures Registered(locale, input).Success? <==>
      Decompressed(input).Success? && Configured(Decompressed(input).value)
    ensures Registered(locale, input).Success? ==> Registered(locale, input).value == Decompressed(input).value
    ensures Registered(locale, input).Failure? && Decompressed(input).Success? ==>
      Registered(locale, input).error == HeadersNotConfigured(locale)
  {
    if Decompressed(input).Success? {
      VerifiedIsConfigured(locale, Decompressed(input).value);
    }
  }

  /** Storing a configured localization keeps every stored one configured. */
  lemma StoreConfigured(store: map<string, Localization>, locale: string, l: Localization)
    requires Configured(l)
    ensures AllConfigured(store) ==> AllConfigured(store[locale := l])
  {
  }

  /** `Registered` in terms of the decompression's outcome. */
  lemma RegisteredSteps(locale: string, input: map<string, Json>, decompressed: Result<Localization, Error>)
    requires decompressed == Decompressed(input)
    ensures decompressed.Failure? ==> Registered(locale, input) == Failure(decompressed.error)
    ensures decompressed.Success? && VerifyLocalization(locale, decompressed.value).Fail? ==>
      Registered(locale, input) == Failure(VerifyLocalization(locale, decompressed.value).error)
    ensures decompressed.Success? && VerifyLocalization(locale, decompressed.value).Pass? ==>
      Registered(locale, input) == Success(decompressed.value)
  {
  }

  /** `MergeRegistered` on a stored locale in terms of the decompression's outcome. */
  lemma MergeRegisteredSteps(store: map<string, Localization>, locale: string, input: map<string, Json>,
                             decompressed: Result<Localization, Error>)
    requires locale in store && decompressed == Decompressed(input)
    ensures decompressed.Failure? ==> MergeRegistered(store, locale, input) == Failure(decompressed.error)
    ensures decompressed.Success? ==>
      var merged := Merged(store[locale], decompressed.value);
      && (VerifyLocalization(locale, merged).Fail? ==>
            MergeRegistered(store, locale, input) == Failure(VerifyLocalization(locale, merged).error))
      && (VerifyLocalization(locale, merged).Pass? ==> MergeRegistered(store, locale, input) == Success(merged))
  {
  }

  /** On a stored locale only the stored localization matters to `MergeRegistered`. */
  lemma MergeRegisteredStored(store: map<string, Localization>, locale: string, input: map<string, Json>)
    requires locale in store
    ensures MergeRegistered(store, locale, input) == MergeRegistered(map[locale := store[locale]], locale, input)
  {
  }

  /** Merging into a locale that has nothing stored is setting it. */
  lemma MergeIntoEmptyLocale(store: map<string, Localization>, locale: string, input: map<string, Json>)
    requires locale !in store
    ensures MergeRegistered(store, locale, input) == Registered(locale, input)
  {
  }

  /**
   * Merging a header-less batch of messages into a configured localization always passes the
   * check and keeps the stored plurals.
   */
  lemma MergeWithoutHeader(store: map<string, Localization>, locale: string, input: map<string, Json>)
    requires locale in store && Configured(store[locale])
    requires "" !in input && Decompressed(input).Success?
    ensures MergeRegistered(store, locale, input).Success?
    ensures MergeRegistered(store, locale, input).value.plurals == store[locale].plurals
    ensures MergeRegistered(store, locale, input).value ==
      Merged(store[locale], Decompressed(input).value)
  {
    NoHeaderNoPlurals(input);
    var merged := Merged(store[locale], Decompressed(input).value);
    VerifiedIsConfigured(locale, merged);
  }

  /** A merge that passes leaves a configured localization. */
  lemma MergeRegisteredIsConfigured(store: map<string, Localization>, locale: string, input: map<string, Json>)
    requires MergeRegistered(store, locale, input).Success?
    ensures Configured(MergeRegistered(store, locale, input).value)
  {
    if locale in store {
      VerifiedIsConfigured(locale, Merged(store[locale], Decompressed(input).value));
    } else {
      RegisteredIsConfigured(locale, input);
    }
  }

  // ---------------------------------------------------------------------------------------------
  // Properties of the lookups

  /**
   * `getTranslation` returns `key` itself or the first form stored for it in `context`; any
   * other result is a stored form.
   */
  lemma LocalTranslationSource(l: Localization, context: string, key: string)
    ensures var t := LocalTranslation(l, context, key);
      t == key ||
      (Lookup(l.content, Escape(key), context).Some? &&
       Form(Lookup(l.content, Escape(key), context).value, 0) == Some(t))
    ensures (Lookup(l.content, Escape(key), context).Some? &&
             Form(Lookup(l.content, Escape(key), context).value, 0).Some?) ==>
      Some(LocalTranslation(l, context, key)) == Form(Lookup(l.content, Escape(key), context).value, 0)
  {
  }

  /** A message that is absent in the current locale, or a locale without a store, passes through. */
  lemma UntranslatedPassesThrough(t: Translator, context: string, key: string)
    requires t.locale !in t.localizations ||
      Lookup(t.localizations[t.locale].content, Escape(key), context).None?
    ensures t.GetTranslation(context, key) == key
  {
  }

  /**
   * Plural entries never answer a singular lookup: storing a plural entry leaves every
   * `gettext` translation as it was.
   */
  lemma PluralEntryInvisible(l: Localization, singular: string, plural: string, entry: Context, context: string, key: string)
    ensures LocalTranslation(Localization(l.plurals, l.content[PluralKey(singular, plural) := entry]), context, key) ==
      LocalTranslation(l, context, key)
  {
    SingularKeyIsNotPluralKey(key, singular, plural);
  }

  /** Without a plural expression the two-form rule decides, whatever is stored. */
  lemma PluralWithoutExpression(evaluate: Evaluator, l: Localization, context: string, singular: string, plural: string, count: int)
    requires l.plurals.countToIndex.None?
    ensures LocalPluralTranslation(evaluate, l, context, singular, plural, count) ==
      if count == 1 then singular else plural
  {
  }

  /**
   * With a plural expression, the stored form the expression's index selects is returned when
   * it exists, and otherwise the two-form rule decides.
   */
  lemma PluralSelectsForm(evaluate: Evaluator, l: Localization, context: string, singular: string, plural: string, count: int)
    requires l.plurals.countToIndex.Some?
    ensures var index := CountToIndex(evaluate, l.plurals.countToIndex.value, count);
      var found := Lookup(l.content, PluralKey(singular, plural), context);
      var t := LocalPluralTranslation(evaluate, l, context, singular, plural, count);
      && (found.Some? && 0 <= index < |found.value| && found.value[index].Some? ==> t == found.value[index].value)
      && (found.None? || !(0 <= index < |found.value|) || found.value[index].None? ==>
            t == if count == 1 then singular else plural)
  {
  }

  /**
   * A valid translator only holds verified localizations, so `getPluralTranslation` in a stored
   * locale always goes through that locale's plural expression.
   */
  lemma ValidPluralUsesExpression(t: Translator, evaluate: Evaluator, context: string, singular: string, plural: string, count: int)
    requires t.Valid() && t.locale in t.localizations
    ensures var l := t.localizations[t.locale];
      && l.plurals.countToIndex.Some?
      && var index := CountToIndex(evaluate, l.plurals.countToIndex.value, count);
      var found := Lookup(l.content, PluralKey(singular, plural), context);
      var r := t.GetPluralTranslation(evaluate, context, singular, plural, count);
      && (found.Some? && 0 <= index < |found.value| && found.value[index].Some? ==> r == found.value[index].value)
      && (found.None? || !(0 <= index < |found.value|) || found.value[index].None? ==>
            r == if count == 1 then singular else plural)
  {
    var l := t.localizations[t.locale];
    assert Configured(l);
    PluralSelectsForm(evaluate, l, context, singular, plural, count);
  }

  /**
   * After a localization written out in full is registered, `getTranslation` finds exactly the
   * first form written for the message's escaped key.
   */
  lemma RegisteredTranslation(locale: string, header: string, content: map<string, Context>, context: string, key: string)
    requires "" !in content
    requires Registered(locale, Compressed(header, content)).Success?
    ensures LocalTranslation(Registered(locale, Compressed(header, content)).value, context, key) ==
      if Lookup(content, Escape(key), context).Some? then Form(Lookup(content, Escape(key), context).value, 0).GetOr(key)
      else key
  {
    DecompressCompressed(header, content);
    RegisteredIsConfigured(locale, Compressed(header, content));
  }

  /** After a merge, a message the merged-in batch holds is what it says; the rest is as before. */
  lemma MergedTranslation(a: Localization, b: Localization, context: string, key: string)
    ensures LocalTranslation(Merged(a, b), context, key) ==
      if Lookup(b.content, Escape(key), context).Some? then LocalTranslation(b, context, key)
      else LocalTranslation(a, context, key)
  {
    MergedLookup(a, b, Escape(key), context);
  }

  /** The same for plurals, as long as the merged-in batch does not bring its own expression. */
  lemma MergedPluralTranslation(evaluate: Evaluator, a: Localization, b: Localization, context: string,
                                singular: string, plural: string, count: int)
    requires b.plurals.countToIndex.None?
    ensures LocalPluralTranslation(evaluate, Merged(a, b), context, singular, plural, count) ==
        if Lookup(b.content, PluralKey(singular, plural), context).Some? && a.plurals.countToIndex.Some? then
          LocalPluralTranslation(evaluate, Localization(a.plurals, b.content), context, singular, plural, count)
        else LocalPluralTranslation(evaluate, a, context, singular, plural, count)
  {
    MergedLookup(a, b, PluralKey(singular, plural), context);
  }
}
