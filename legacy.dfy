/**
 * The earlier translator of src/index.js. Localizations are plain JavaScript objects: each
 * message key holds its contexts, each context a string or a plural object keyed by count.
 * Registration refuses the read-only `'default'` locale, and plural selection looks the count
 * up among the stored forms and otherwise takes the last index after the default sort.
 */
module Legacy {
  import opened Wrappers
  import opened Strings

  /** A JavaScript value as the translator meets it; objects are maps of their own properties. */
  datatype JsValue =
    | Undefined
    | Null
    | Bool(b: bool)
    | Num(n: int)
    | Str(s: string)
    | Arr(items: seq<JsValue>)
    | Obj(props: map<string, JsValue>)

  /** The contexts of one message, by context name. */
  type Contexts = map<string, JsValue>

  /** A localization: message key to contexts. */
  type LegacyLocalization = map<string, Contexts>

  /** `printf(format, ...args)` from the `printf` package. */
  type Printf = (JsValue, seq<JsValue>) -> string

  /** The errors the translator throws; all of them are `TypeError`s. */
  datatype LegacyError =
    | OverwriteDefault(locale: string)
    | MergeIntoDefault(locale: string)
    | NotAnObject

  /** The message of each error; the last one is the engine's for `Object.keys(null)`. */
  function Message(e: LegacyError): string {
    match e
    case OverwriteDefault(l) => "Cannot overwrite the read-only fallthrough locale, \"" + l + "\""
    case MergeIntoDefault(l) => "Cannot merge into the read-only fallthrough locale, \"" + l + "\""
    case NotAnObject => "Cannot convert undefined or null to object"
  }

  /** The read-only fallthrough locale, which is also the initial locale. */
  const DefaultLocale: string := "default"

  /** The context that singular and plural entries are stored under and `gettext` looks in. */
  const DefaultContext: string := "default"

  // ---------------------------------------------------------------------------------------------
  // parseInt and String

  /** The length of the leading run of decimal digits. */
  function DigitRun(s: string): (n: nat)
    ensures n <= |s| && AllDigits(s[..n])
    ensures n < |s| ==> !IsDigit(s[n])
  {
    if s == [] || !IsDigit(s[0]) then 0
    else
      var rest := DigitRun(s[1..]);
      assert s[..rest + 1] == [s[0]] + s[1..][..rest];
      rest + 1
  }

  /**
   * `parseInt(text)` with no radix: leading whitespace skipped, an optional sign, then either a
   * `0x` or `0X` prefix and the longest run of hexadecimal digits, or else the longest run of
   * decimal digits; `None` is `NaN`, which is also what an empty run gives.
   */
  function ParseInt(text: string): Option<int> {
    ParseSigned(TrimStart(text))
  }

  /** `parseInt` after the whitespace: an optional sign, then the digits in their base. */
  function ParseSigned(t: string): Option<int> {
    var negative := |t| >= 1 && t[0] == '-';
    var u := if |t| >= 1 && (t[0] == '-' || t[0] == '+') then t[1..] else t;
    var magnitude := if HasHexPrefix(u) then LeadingHexDigits(u[2..]) else LeadingDigits(u);
    match magnitude
    case None => None
    case Some(v) => if negative then Some(-(v as int)) else Some(v)
  }

  /** The value of the leading run of digits, `None` when there is none. */
  function LeadingDigits(u: string): Option<nat> {
    var n := DigitRun(u);
    if n == 0 then None else Some(DecimalValue(u[..n]))
  }

  /** `0x` or `0X`, which switches `parseInt` to base 16 when no radix is given. */
  predicate HasHexPrefix(u: string) {
    |u| >= 2 && u[0] == '0' && (u[1] == 'x' || u[1] == 'X')
  }

  predicate IsHexDigit(c: char) {
    IsDigit(c) || 'a' <= c <= 'f' || 'A' <= c <= 'F'
  }

  predicate AllHexDigits(s: string) {
    forall i :: 0 <= i < |s| ==> IsHexDigit(s[i])
  }

  function HexDigitValue(c: char): (v: nat)
    requires IsHexDigit(c)
    ensures v < 16
    ensures IsDigit(c) ==> v == DigitValue(c)
  {
    if IsDigit(c) then DigitValue(c)
    else if 'a' <= c <= 'f' then (c as int) - ('a' as int) + 10
    else (c as int) - ('A' as int) + 10
  }

  /** The length of the leading run of hexadecimal digits. */
  function HexRun(s: string): (n: nat)
    ensures n <= |s| && AllHexDigits(s[..n])
    ensures n < |s| ==> !IsHexDigit(s[n])
  {
    if s == [] || !IsHexDigit(s[0]) then 0
    else
      var rest := HexRun(s[1..]);
      assert s[..rest + 1] == [s[0]] + s[1..][..rest];
      rest + 1
  }

  /** The value of a string of hexadecimal digits, most significant first. */
  function HexValue(s: string): nat
    requires AllHexDigits(s)
  {
    if s == [] then 0 else HexValue(s[..|s| - 1]) * 16 + HexDigitValue(s[|s| - 1])
  }

  /** The value of the leading run of hexadecimal digits, `None` when there is none. */
  function LeadingHexDigits(u: string): Option<nat> {
    var n := HexRun(u);
    if n == 0 then None else Some(HexValue(u[..n]))
  }

  /** A whole run of digits is read as its value. */
  lemma AllLeadingDigits(u: string)
    requires IsCanonicalNat(u)
    ensures LeadingDigits(u) == Some(DecimalValue(u))
  {
    DigitRunAll(u);
    assert u[..|u|] == u;
  }

  /** `String(x)` for an integer or `NaN`. */
  function NumberToString(x: Option<int>): string {
    match x
    case None => "NaN"
    case Some(n) => if n < 0 then "-" + NatToString(-n) else NatToString(n)
  }

  /** `String(parseInt(k))`: how a key reads back as an index. */
  function PrintedIndex(k: string): string {
    NumberToString(ParseInt(k))
  }

  /** `isNumber`: the text is what its own integer parse prints. */
  predicate IsNumber(text: string) {
    text == PrintedIndex(text)
  }

  /** The way `String` prints an integer: canonical digits, with `-` before a non-zero value. */
  predicate IsIntegerText(s: string) {
    IsCanonicalNat(s) || (|s| >= 2 && s[0] == '-' && IsCanonicalNat(s[1..]) && s[1..] != "0")
  }

  lemma DigitRunAll(s: string)
    requires AllDigits(s)
    ensures DigitRun(s) == |s|
  {
  }

  /** The integer a canonical digit string stands for is read back by `parseInt`. */
  lemma ParseCanonical(s: string)
    requires IsCanonicalNat(s)
    ensures ParseInt(s) == Some(DecimalValue(s) as int)
  {
    assert IsDigit(s[0]);
    NoLeadingWhitespace(s);
    AllLeadingDigits(s);
  }

  /** `-` before a canonical digit string is read back as the negated value. */
  lemma ParseNegative(k: string)
    requires |k| >= 1 && k[0] == '-' && IsCanonicalNat(k[1..])
    ensures ParseInt(k) == Some(-(DecimalValue(k[1..]) as int))
  {
    NoLeadingWhitespace(k);
    AllLeadingDigits(k[1..]);
  }

  lemma NoLeadingWhitespace(k: string)
    requires k != [] && !IsWhitespace(k[0])
    ensures ParseInt(k) == ParseSigned(k)
  {
  }

  /** Text that starts with neither whitespace, a sign nor a digit has no integer parse. */
  lemma NoParse(k: string)
    requires k != [] && !IsWhitespace(k[0]) && !IsDigit(k[0]) && k[0] != '-' && k[0] != '+'
    ensures ParseInt(k).None?
  {
  }

  lemma HexRunAll(s: string)
    requires AllHexDigits(s)
    ensures HexRun(s) == |s|
  {
  }

  /** After a `0x` or `0X` prefix the digits are read in base 16. */
  lemma ParseHex(k: string)
    requires HasHexPrefix(k) && |k| >= 3 && AllHexDigits(k[2..])
    ensures ParseInt(k) == Some(HexValue(k[2..]) as int)
  {
    NoLeadingWhitespace(k);
    LeadingHexAll(k[2..]);
    UnsignedHex(k);
  }

  /** Without a sign, a `0x` prefix hands the rest to the base-16 reading. */
  lemma UnsignedHex(u: string)
    requires HasHexPrefix(u)
    ensures ParseSigned(u) == match LeadingHexDigits(u[2..]) case None => None case Some(v) => Some(v as int)
  {
    assert u[0] == '0';
  }

  lemma LeadingHexAll(d: string)
    requires d != [] && AllHexDigits(d)
    ensures LeadingHexDigits(d) == Some(HexValue(d))
  {
    HexRunAll(d);
    assert d[..|d|] == d;
  }

  /** A prefix with no hexadecimal digit after it is `NaN`; the `0` before the `x` is not read. */
  lemma HexPrefixWithoutDigits(k: string)
    requires HasHexPrefix(k) && (|k| == 2 || !IsHexDigit(k[2]))
    ensures ParseInt(k).None?
  {
    NoLeadingWhitespace(k);
  }

  lemma IntegerTextIsNumber(k: string)
    ensures IsIntegerText(k) ==> IsNumber(k)
  {
    if IsCanonicalNat(k) {
      ParseCanonical(k);
      CanonicalNatRoundTrip(k);
    } else if IsIntegerText(k) {
      NegativeIsNumber(k);
    }
  }

  lemma NegativeIsNumber(k: string)
    requires |k| >= 2 && k[0] == '-' && IsCanonicalNat(k[1..]) && k[1] != '0'
    ensures IsNumber(k)
  {
    var u := k[1..];
    ParseNegative(k);
    DecimalPositive(u);
    CanonicalNatRoundTrip(u);
    PrintNegative(DecimalValue(u));
    assert k == "-" + u;
  }

  lemma PrintNegative(n: nat)
    requires n >= 1
    ensures NumberToString(Some(-(n as int))) == "-" + NatToString(n)
  {
    var m: int := -(n as int);
    assert -m == n;
  }

  /** Whatever `String` prints for an integer or `NaN` is integer text or `NaN`. */
  lemma PrintedIsIntegerText(x: Option<int>)
    ensures NumberToString(x) == "NaN" || IsIntegerText(NumberToString(x))
  {
    if x.Some? && x.value < 0 {
      var u := NatToString(-x.value);
      var k := NumberToString(x);
      assert k == "-" + u;
      assert k[1..] == u;
      assert DecimalValue("0") == 0;
    }
  }

  lemma NumberIsIntegerText(k: string)
    ensures IsNumber(k) && k != "NaN" ==> IsIntegerText(k)
  {
    PrintedIsIntegerText(ParseInt(k));
  }

  /**
   * The keys `isNumber` accepts are exactly the integers as `String` prints them, and the text
   * `NaN`, which is what `String(parseInt("NaN"))` gives.
   */
  lemma IsNumberCanonical(k: string)
    ensures IsNumber(k) <==> k == "NaN" || IsIntegerText(k)
  {
    NoParse("NaN");
    IntegerTextIsNumber(k);
    NumberIsIntegerText(k);
  }

  // ---------------------------------------------------------------------------------------------
  // The entry predicates

  /** `String(i)` for the indices below `n`: the keys of a string or an array of length `n`. */
  function IndexKeys(n: nat): set<string> {
    set i | 0 <= i < n :: NatToString(i)
  }

  /** `Object.keys(v)` for a value other than `null` and `undefined`. */
  function OwnKeys(v: JsValue): set<string> {
    match v
    case Str(s) => IndexKeys(|s|)
    case Arr(items) => IndexKeys(|items|)
    case Obj(props) => props.Keys
    case _ => {}
  }

  /** `isContext`: an object or array with at least one non-numeric key. */
  predicate IsContext(v: JsValue) {
    (v.Arr? || v.Obj?) && exists k :: k in OwnKeys(v) && !IsNumber(k)
  }

  /** `isSingular`: a non-empty string. */
  predicate IsSingular(v: JsValue) {
    v.Str? && v.s != ""
  }

  /** `isPlural`: whether the value has keys; `Object.keys` throws on `null` and `undefined`. */
  function IsPlural(v: JsValue): (r: Result<bool, LegacyError>)
    ensures r.Failure? <==> v.Null? || v.Undefined?
    ensures r.Failure? ==> r.error == NotAnObject
    ensures r.Success? ==> (r.value <==> OwnKeys(v) != {})
  {
    if v.Null? || v.Undefined? then Failure(NotAnObject) else Success(OwnKeys(v) != {})
  }

  lemma IndexKeysEmpty(n: nat)
    ensures IndexKeys(n) == {} <==> n == 0
  {
    if n > 0 {
      assert NatToString(0) in IndexKeys(n);
    }
  }

  /** An array is never a context: its keys are its indices, all numeric. */
  lemma ContextIsRecord(v: JsValue)
    ensures IsContext(v) ==> v.Obj?
  {
    if v.Arr? {
      forall k | k in OwnKeys(v)
        ensures IsNumber(k)
      {
        var i :| 0 <= i < |v.items| && k == NatToString(i);
        IsNumberCanonical(k);
      }
    }
  }

  // ---------------------------------------------------------------------------------------------
  // decompressLocalization

  /**
   * One entry of the `reduce` in `decompressLocalization`, given the contexts already gathered
   * for its key: a context object is spread over them, a singular or a plural is stored under
   * `default`, anything else adds nothing.
   */
  function DecompressEntry(context: Contexts, v: JsValue): Result<Contexts, LegacyError> {
    if IsContext(v) then
      ContextIsRecord(v);
      Success(context + v.props)
    else if IsSingular(v) then Success(context[DefaultContext := v])
    else
      match IsPlural(v)
      case Failure(e) => Failure(e)
      case Success(plural) => if plural then Success(context[DefaultContext := v]) else Success(context)
  }

  /** `accumulator[k] || {}`. */
  function Get(l: LegacyLocalization, k: string): Contexts {
    if k in l then l[k] else map[]
  }

  /** `decompressLocalization`: the `reduce` over `Object.entries(localization)`. */
  function Decompress(entries: seq<(string, JsValue)>): Result<LegacyLocalization, LegacyError> {
    if entries == [] then Success(map[])
    else
      match Decompress(entries[..|entries| - 1])
      case Failure(e) => Failure(e)
      case Success(accumulator) =>
        var (k, v) := entries[|entries| - 1];
        match DecompressEntry(Get(accumulator, k), v)
        case Failure(e) => Failure(e)
        case Success(context) => Success(accumulator[k := context])
  }

  /** `null` and `undefined` entries throw. */
  lemma EntryOfNothing(v: JsValue)
    requires v.Null? || v.Undefined?
    ensures DecompressEntry(map[], v) == Failure(NotAnObject)
  {
  }

  /** An object with a non-numeric key keeps its contexts. */
  lemma EntryOfContext(v: JsValue, k: string)
    requires v.Obj? && k in v.props && !IsNumber(k)
    ensures DecompressEntry(map[], v) == Success(v.props)
  {
    assert k in OwnKeys(v);
    var empty: Contexts := map[];
    assert empty + v.props == v.props;
  }

  /** A non-empty string becomes `{default: v}`. */
  lemma EntryOfSingular(v: JsValue)
    requires v.Str? && v.s != ""
    ensures DecompressEntry(map[], v) == Success(map[DefaultContext := v])
  {
  }

  /** A non-empty array becomes `{default: v}`. */
  lemma EntryOfArray(v: JsValue)
    requires v.Arr? && v.items != []
    ensures DecompressEntry(map[], v) == Success(map[DefaultContext := v])
  {
    ContextIsRecord(v);
    IndexKeysEmpty(|v.items|);
  }

  /** A non-empty object keyed only by numbers, a plural, becomes `{default: v}`. */
  lemma EntryOfPlural(v: JsValue)
    requires v.Obj? && v.props != map[] && forall k :: k in v.props ==> IsNumber(k)
    ensures DecompressEntry(map[], v) == Success(map[DefaultContext := v])
  {
    var k :| k in v.props;
    NumericObject(v);
    assert k in OwnKeys(v);
  }

  /** An object keyed only by numbers is not a context. */
  lemma NumericObject(v: JsValue)
    requires v.Obj? && forall k :: k in v.props ==> IsNumber(k)
    ensures OwnKeys(v) == v.props.Keys && !IsContext(v)
  {
  }

  /** Booleans, numbers, the empty string, the empty array and the empty object add nothing. */
  lemma EntryOfEmpty(v: JsValue)
    requires v.Bool? || v.Num? || v == Str("") || v == Arr([]) || v == Obj(map[])
    ensures DecompressEntry(map[], v) == Success(map[])
  {
    ContextIsRecord(v);
    if v.Arr? {
      IndexKeysEmpty(0);
    }
    if v.Str? {
      IndexKeysEmpty(0);
    }
  }

  /** The expansion of one entry succeeds exactly when it is neither `null` nor `undefined`. */
  lemma EntryReadable(context: Contexts, v: JsValue)
    ensures DecompressEntry(context, v).Success? <==> Readable(v)
    ensures DecompressEntry(context, v).Failure? ==> DecompressEntry(context, v).error == NotAnObject
  {
  }

  /** Every key of the object has distinct entries, as `Object.entries` lists them. */
  predicate DistinctKeys(entries: seq<(string, JsValue)>) {
    forall i, j :: 0 <= i < j < |entries| ==> entries[i].0 != entries[j].0
  }

  /** Whether an entry value can be expanded. */
  predicate Readable(v: JsValue) {
    !(v.Null? || v.Undefined?)
  }

  /** The expansion throws exactly when some value is `null` or `undefined`. */
  lemma {:induction false} DecompressSucceeds(entries: seq<(string, JsValue)>)
    ensures Decompress(entries).Success? <==> forall i :: 0 <= i < |entries| ==> Readable(entries[i].1)
    ensures Decompress(entries).Failure? ==> Decompress(entries).error == NotAnObject
    decreases |entries|
  {
    if entries != [] {
      var init := entries[..|entries| - 1];
      DecompressSucceeds(init);
      DecompressLast(entries);
      ReadablePrefix(entries, init);
    }
  }

  /** Every entry is readable iff the earlier ones are and the last one is. */
  lemma ReadablePrefix(entries: seq<(string, JsValue)>, init: seq<(string, JsValue)>)
    requires entries != [] && init == entries[..|entries| - 1]
    ensures (forall i :: 0 <= i < |entries| ==> Readable(entries[i].1))
      <==> (forall i :: 0 <= i < |init| ==> Readable(init[i].1)) && Readable(entries[|entries| - 1].1)
  {
    assert forall i :: 0 <= i < |init| ==> entries[i] == init[i];
  }

  /** The reduce fails at its last entry exactly when the earlier ones pass and that one is unreadable. */
  lemma DecompressLast(entries: seq<(string, JsValue)>)
    requires entries != []
    ensures var init := entries[..|entries| - 1];
      && (Decompress(entries).Success? <==> Decompress(init).Success? && Readable(entries[|entries| - 1].1))
      && (Decompress(entries).Failure? && Decompress(init).Success? ==> Decompress(entries).error == NotAnObject)
      && (Decompress(init).Failure? ==> Decompress(entries) == Decompress(init))
  {
    var init := entries[..|entries| - 1];
    var (k, v) := entries[|entries| - 1];
    var before := Decompress(init);
    if before.Success? {
      EntryReadable(Get(before.value, k), v);
    }
  }

  /** The names of the entries. */
  function EntryKeys(entries: seq<(string, JsValue)>): set<string> {
    set i | 0 <= i < |entries| :: entries[i].0
  }

  /** The last entry of a successful expansion is stored over what the others gathered. */
  lemma DecompressStep(entries: seq<(string, JsValue)>)
    requires entries != [] && Decompress(entries).Success?
    ensures var init := entries[..|entries| - 1];
      var k := entries[|entries| - 1].0;
      && Decompress(init).Success?
      && DecompressEntry(Get(Decompress(init).value, k), entries[|entries| - 1].1) == Success(Decompress(entries).value[k])
      && Decompress(entries).value == Decompress(init).value[k := Decompress(entries).value[k]]
  {
  }

  lemma EntryKeysStep(entries: seq<(string, JsValue)>)
    requires entries != []
    ensures EntryKeys(entries) == EntryKeys(entries[..|entries| - 1]) + {entries[|entries| - 1].0}
  {
    var init := entries[..|entries| - 1];
    forall i | 0 <= i < |init|
      ensures entries[i] == init[i]
    {
    }
  }

  /** Once expanded, there is one key per entry, holding that entry's contexts. */
  lemma {:induction false} DecompressDistinct(entries: seq<(string, JsValue)>)
    requires DistinctKeys(entries) && Decompress(entries).Success?
    ensures Decompress(entries).value.Keys == EntryKeys(entries)
    ensures forall i :: 0 <= i < |entries| ==>
      DecompressEntry(map[], entries[i].1) == Success(Decompress(entries).value[entries[i].0])
    decreases |entries|
  {
    if entries != [] {
      var init := entries[..|entries| - 1];
      var k := entries[|entries| - 1].0;
      DecompressStep(entries);
      assert DistinctKeys(init);
      DecompressDistinct(init);
      EntryKeysStep(entries);
      var before := Decompress(init).value;
      var after := Decompress(entries).value;
      assert k !in before by {
        forall i | 0 <= i < |init|
          ensures init[i].0 != k
        {
          assert init[i] == entries[i];
        }
      }
      forall i | 0 <= i < |entries|
        ensures DecompressEntry(map[], entries[i].1) == Success(after[entries[i].0])
      {
        if i < |init| {
          assert entries[i] == init[i];
        }
      }
    }
  }

  // ---------------------------------------------------------------------------------------------
  // mergeLocalization

  /**
   * `mergeLocalization(a, b)`: every key of `b` gets `a`'s contexts with `b`'s spread over
   * them; keys only in `a` are kept. The `reduce` over `b`'s distinct keys builds fresh objects,
   * so neither input changes.
   */
  function Merge(a: LegacyLocalization, b: LegacyLocalization): LegacyLocalization {
    map key | key in a.Keys + b.Keys :: if key in b then Get(a, key) + b[key] else a[key]
  }

  /** Looking up a context after a merge finds `b`'s, else `a`'s. */
  lemma MergeLookup(a: LegacyLocalization, b: LegacyLocalization, key: string, c: string)
    ensures key in Merge(a, b) <==> key in a || key in b
    ensures key !in b && key in a ==> Merge(a, b)[key] == a[key]
    ensures c in Get(Merge(a, b), key) <==> c in Get(a, key) || c in Get(b, key)
    ensures c in Get(b, key) ==> Get(Merge(a, b), key)[c] == Get(b, key)[c]
    ensures c !in Get(b, key) && c in Get(a, key) ==> Get(Merge(a, b), key)[c] == Get(a, key)[c]
  {
  }

  /** Merging into a locale with nothing stored (`localization = {}`) stores `b` as it is. */
  lemma MergeIntoNothing(b: LegacyLocalization)
    ensures Merge(map[], b) == b
  {
    forall key | key in b
      ensures Merge(map[], b)[key] == b[key]
    {
      assert map[] + b[key] == b[key];
    }
  }

  // ---------------------------------------------------------------------------------------------
  // Lookups

  /** `localizations[locale] || {}`. */
  function LocaleGet(store: map<string, LegacyLocalization>, locale: string): LegacyLocalization {
    if locale in store then store[locale] else map[]
  }

  /** `getTranslation`: `(localization[key] || {})[context]`. */
  function Translation(l: LegacyLocalization, context: string, key: string): JsValue {
    var contexts := Get(l, key);
    if context in contexts then contexts[context] else Undefined
  }

  /** JavaScript truthiness. */
  predicate Truthy(v: JsValue) {
    match v
    case Undefined => false
    case Null => false
    case Bool(b) => b
    case Num(n) => n != 0
    case Str(s) => s != ""
    case _ => true
  }

  /** `a || b`. */
  function Or(a: JsValue, b: JsValue): (r: JsValue)
    ensures Truthy(a) ==> r == a
    ensures !Truthy(a) ==> r == b
  {
    if Truthy(a) then a else b
  }

  /** `v[key]` for the index and own-property keys: a character, an element or a property. */
  function Property(v: JsValue, key: string): JsValue {
    match v
    case Obj(props) => if key in props then props[key] else Undefined
    case Arr(items) => if IsCanonicalNat(key) && DecimalValue(key) < |items| then items[DecimalValue(key)] else Undefined
    case Str(s) => if IsCanonicalNat(key) && DecimalValue(key) < |s| then Str([s[DecimalValue(key)]]) else Undefined
    case _ => Undefined
  }

  // ---------------------------------------------------------------------------------------------
  // The default sort: numbers are compared as the strings they print

  /** Code-unit order on strings, as `Array.prototype.sort` compares without a comparator. */
  predicate LexLeq(a: string, b: string) {
    a == [] || (b != [] && (a[0] < b[0] || (a[0] == b[0] && LexLeq(a[1..], b[1..]))))
  }

  lemma {:induction false} LexReflexive(a: string)
    ensures LexLeq(a, a)
  {
    if a != [] {
      LexReflexive(a[1..]);
    }
  }

  lemma {:induction false} LexTotal(a: string, b: string)
    ensures LexLeq(a, b) || LexLeq(b, a)
  {
    if a != [] && b != [] && a[0] == b[0] {
      LexTotal(a[1..], b[1..]);
    }
  }

  lemma {:induction false} LexTransitive(a: string, b: string, c: string)
    requires LexLeq(a, b) && LexLeq(b, c)
    ensures LexLeq(a, c)
  {
    if a != [] && a[0] == b[0] && b[0] == c[0] {
      LexTransitive(a[1..], b[1..], c[1..]);
    }
  }

  lemma {:induction false} LexAntisymmetric(a: string, b: string)
    requires LexLeq(a, b) && LexLeq(b, a)
    ensures a == b
  {
    if a != [] && b != [] {
      LexAntisymmetric(a[1..], b[1..]);
      assert a == [a[0]] + a[1..] && b == [b[0]] + b[1..];
    }
  }

  lemma {:induction false} MaxExists(s: set<string>)
    requires s != {}
    ensures exists m :: m in s && forall y :: y in s ==> LexLeq(y, m)
    decreases |s|
  {
    var x :| x in s;
    if s == {x} {
      LexReflexive(x);
      assert forall y :: y in s ==> LexLeq(y, x);
    } else {
      MaxExists(s - {x});
      var m :| m in s - {x} && forall y :: y in s - {x} ==> LexLeq(y, m);
      var last := MaxInsert(s, x, m);
    }
  }

  /** Putting `x` back beside the last element `m` of the rest leaves one of the two last. */
  lemma MaxInsert(s: set<string>, x: string, m: string) returns (last: string)
    requires x in s && m in s - {x} && forall y :: y in s - {x} ==> LexLeq(y, m)
    ensures last in s && forall y :: y in s ==> LexLeq(y, last)
  {
    LexTotal(x, m);
    if LexLeq(x, m) {
      last := m;
    } else {
      last := x;
      forall y | y in s
        ensures LexLeq(y, x)
      {
        if y == x {
          LexReflexive(x);
        } else {
          LexTransitive(y, m, x);
        }
      }
    }
  }

  lemma LexAntisymmetry()
    ensures forall a, b :: LexLeq(a, b) && LexLeq(b, a) ==> a == b
  {
    forall a, b | LexLeq(a, b) && LexLeq(b, a)
      ensures a == b
    {
      LexAntisymmetric(a, b);
    }
  }

  /** The last element of a sorted non-empty set of strings: the one no other follows. */
  function LexMax(s: set<string>): (m: string)
    requires s != {}
    ensures m in s && forall y :: y in s ==> LexLeq(y, m)
  {
    MaxExists(s);
    LexAntisymmetry();
    var m :| m in s && forall y :: y in s ==> LexLeq(y, m);
    m
  }

  /** The indices `Object.keys(v).map(parseInt)` of the keys, as the default sort compares them. */
  function Indices(keys: set<string>): set<string> {
    set k | k in keys :: PrintedIndex(k)
  }

  /**
   * `String(Object.keys(v).map(parseInt).sort().slice(-1)[0])`: the key the last sorted index is
   * printed as, `"undefined"` when there are no keys.
   */
  function SortedLast(keys: set<string>): string {
    var printed := Indices(keys);
    if printed == {} then "undefined" else LexMax(printed)
  }

  /** `variations[quantity] || variations[last]`. */
  function PluralText(variations: JsValue, quantity: int): JsValue {
    Or(Property(variations, NumberToString(Some(quantity))), Property(variations, SortedLast(OwnKeys(variations))))
  }

  /** `{'1': singular, '2': plural}`. */
  function FallbackVariations(singular: string, plural: string): JsValue {
    Obj(map["1" := Str(singular), "2" := Str(plural)])
  }

  lemma SmallNumbers()
    ensures NatToString(1) == "1" && NatToString(2) == "2"
    ensures ParseInt("1") == Some(1) && ParseInt("2") == Some(2)
  {
    ParseCanonical("1");
    ParseCanonical("2");
  }

  /** Numeric keys print as themselves, so sorting them sorts the keys. */
  lemma PrintedNumbers(keys: set<string>)
    requires forall k :: k in keys ==> IsNumber(k)
    ensures Indices(keys) == keys
  {
  }

  lemma LastOfOneTwo()
    ensures LexMax({"1", "2"}) == "2"
  {
    var m := LexMax({"1", "2"});
    assert LexLeq("2", m);
    assert !LexLeq("2", "1");
  }

  /** The last sorted index of `{'1': singular, '2': plural}` is `2`. */
  lemma FallbackLast(singular: string, plural: string)
    ensures SortedLast(OwnKeys(FallbackVariations(singular, plural))) == "2"
  {
    var keys := OwnKeys(FallbackVariations(singular, plural));
    assert keys == {"1", "2"};
    assert IsNumber("1") && IsNumber("2") by {
      SmallNumbers();
    }
    SortedNumbers(keys);
    LastOfOneTwo();
  }

  /** `parseInt("0x9")` is 9, which prints as `9`: the key is an index but not a number key. */
  lemma HexKey()
    ensures ParseInt("0x9") == Some(9)
    ensures !IsNumber("0x9")
  {
    ParseHex("0x9");
    assert "0x9"[2..] == "9";
    assert HexValue("9") == 9 by {
      assert "9"[..0] == "";
    }
    assert NumberToString(Some(9)) == "9" by {
      CanonicalNatRoundTrip("9");
    }
  }

  lemma PrintedDigit(d: string)
    requires |d| == 1 && IsDigit(d[0])
    ensures NumberToString(Some(DecimalValue(d) as int)) == d
  {
    CanonicalNatRoundTrip(d);
  }

  lemma IndexOfFirst(x: string, y: string)
    ensures PrintedIndex(x) in Indices({x, y})
  {
    assert x in {x, y};
  }

  lemma OnlyIndicesOfPair(x: string, y: string, p: string)
    requires p in Indices({x, y})
    ensures p == PrintedIndex(x) || p == PrintedIndex(y)
  {
  }

  /** Of two keys, the one whose index prints after the other's is the last sorted index. */
  lemma SortedLastPair(x: string, y: string, px: string, py: string)
    requires PrintedIndex(x) == px && PrintedIndex(y) == py && !LexLeq(px, py)
    ensures SortedLast({x, y}) == px
  {
    var printed := Indices({x, y});
    IndexOfFirst(x, y);
    var m := LexMax(printed);
    OnlyIndicesOfPair(x, y, m);
  }

  lemma NineAfterFive()
    ensures !LexLeq("9", "5")
  {
  }

  lemma PrintedHexNine()
    ensures PrintedIndex("0x9") == "9"
  {
    HexKey();
    assert DecimalValue("9") == 9;
    PrintedDigit("9");
  }

  lemma PrintedFive()
    ensures PrintedIndex("5") == "5"
  {
    ParseCanonical("5");
    PrintedDigit("5");
  }

  /** The indices of `{"0x9": a, "5": b}` are 9 and 5, so the last sorted one is `9`. */
  lemma HexKeySortsLast()
    ensures SortedLast({"0x9", "5"}) == "9"
  {
    PrintedHexNine();
    PrintedFive();
    NineAfterFive();
    SortedLastPair("0x9", "5", "9", "5");
  }

  /**
   * With `{"0x9": a, "5": b}` and a count of 3, neither `variations[3]` nor `variations[9]` is
   * stored, so the text handed to `printf` is `undefined`.
   */
  lemma HexKeyPluralText(a: string, b: string)
    ensures PluralText(Obj(map["0x9" := Str(a), "5" := Str(b)]), 3) == Undefined
  {
    var props := map["0x9" := Str(a), "5" := Str(b)];
    HexObjectKeys(props, a, b);
    HexObjectSortsLast(props);
    PrintedThree();
    MissingPluralText(props, 3, "3", "9");
  }

  lemma HexObjectKeys(props: map<string, JsValue>, a: string, b: string)
    requires props == map["0x9" := Str(a), "5" := Str(b)]
    ensures props.Keys == {"0x9", "5"} && "3" !in props && "9" !in props
  {
  }

  lemma HexObjectSortsLast(props: map<string, JsValue>)
    requires props.Keys == {"0x9", "5"}
    ensures SortedLast(props.Keys) == "9"
  {
    HexKeySortsLast();
  }

  lemma PrintedThree()
    ensures NumberToString(Some(3)) == "3"
  {
    assert DecimalValue("3") == 3;
    PrintedDigit("3");
  }

  /** When neither the count nor the last index is a stored key, the text is `undefined`. */
  lemma MissingPluralText(props: map<string, JsValue>, quantity: int, q: string, last: string)
    requires NumberToString(Some(quantity)) == q && SortedLast(props.Keys) == last
    requires q !in props && last !in props
    ensures PluralText(Obj(props), quantity) == Undefined
  {
  }

  /** Keys that are all numbers sort as themselves. */
  lemma SortedNumbers(keys: set<string>)
    requires keys != {} && forall k :: k in keys ==> IsNumber(k)
    ensures SortedLast(keys) == LexMax(keys)
  {
    PrintedNumbers(keys);
  }

  /** The property key a count is looked up under is `"1"` or `"2"` only for 1 and 2. */
  lemma QuantityKey(quantity: int)
    ensures NumberToString(Some(quantity)) == "1" <==> quantity == 1
    ensures NumberToString(Some(quantity)) == "2" <==> quantity == 2
  {
    SmallNumbers();
    var key := NumberToString(Some(quantity));
    if quantity < 0 {
      assert key[0] == '-';
    } else {
      if key == "1" {
        NatToStringInjective(quantity, 1);
      }
      if key == "2" {
        NatToStringInjective(quantity, 2);
      }
    }
  }

  /**
   * Without a stored translation, a quantity of 1 gives the singular (when it is not empty) and
   * every other quantity gives the plural, the form under the last sorted index `2`.
   */
  lemma FallbackSelection(singular: string, plural: string, quantity: int)
    ensures PluralText(FallbackVariations(singular, plural), quantity) ==
      if quantity == 1 && singular != "" then Str(singular) else Str(plural)
  {
    var v := FallbackVariations(singular, plural);
    var key := NumberToString(Some(quantity));
    var last := Property(v, SortedLast(OwnKeys(v)));
    assert last == Str(plural) by {
      FallbackLast(singular, plural);
      FallbackProperty(singular, plural, "2");
    }
    var first := Property(v, key);
    assert first == if quantity == 1 then Str(singular) else if quantity == 2 then Str(plural) else Undefined by {
      FallbackProperty(singular, plural, key);
      QuantityKey(quantity);
    }
    assert PluralText(v, quantity) == Or(first, last);
  }

  lemma FallbackProperty(singular: string, plural: string, key: string)
    ensures Property(FallbackVariations(singular, plural), key) ==
      if key == "1" then Str(singular) else if key == "2" then Str(plural) else Undefined
  {
  }

  // ---------------------------------------------------------------------------------------------
  // The translator

  class Translator {
    /** The localization store, by locale. */
    var localizations: map<string, LegacyLocalization>

    /** The current locale. */
    var locale: string

    /** `new Translator()`: an empty store, in the `'default'` locale. */
    constructor()
      ensures localizations == map[] && locale == DefaultLocale
    {
      localizations := map[];
      locale := DefaultLocale;
    }

    /** `setLocalization`: refuse `'default'`, else store the expansion of `entries`. */
    method SetLocalization(locale: string, entries: seq<(string, JsValue)>) returns (r: Outcome<LegacyError>)
      modifies this
      ensures locale == DefaultLocale ==> r == Fail(OverwriteDefault(locale))
      ensures locale == DefaultLocale ==>
        Message(r.error) == "Cannot overwrite the read-only fallthrough locale, \"default\""
      ensures locale != DefaultLocale ==> (r.Pass? <==> Decompress(entries).Success?)
      ensures locale != DefaultLocale && r.Fail? ==> r.error == Decompress(entries).error
      ensures r.Pass? ==> localizations == old(localizations)[locale := Decompress(entries).value]
      ensures r.Fail? ==> localizations == old(localizations)
      ensures this.locale == old(this.locale)
    {
      if locale == DefaultLocale {
        return Fail(OverwriteDefault(locale));
      }
      var decompressed := Decompress(entries);
      if decompressed.Failure? {
        return Fail(decompressed.error);
      }
      localizations := localizations[locale := decompressed.value];
      return Pass;
    }

    /** `mergeLocalization`: refuse `'default'`, else merge the expansion into what is stored. */
    method MergeLocalization(locale: string, entries: seq<(string, JsValue)>) returns (r: Outcome<LegacyError>)
      modifies this
      ensures locale == DefaultLocale ==> r == Fail(MergeIntoDefault(locale))
      ensures locale == DefaultLocale ==>
        Message(r.error) == "Cannot merge into the read-only fallthrough locale, \"default\""
      ensures locale != DefaultLocale ==> (r.Pass? <==> Decompress(entries).Success?)
      ensures locale != DefaultLocale && r.Fail? ==> r.error == Decompress(entries).error
      ensures r.Pass? ==>
        localizations == old(localizations)[locale := Merge(LocaleGet(old(localizations), locale), Decompress(entries).value)]
      ensures r.Fail? ==> localizations == old(localizations)
      ensures this.locale == old(this.locale)
    {
      if locale == DefaultLocale {
        return Fail(MergeIntoDefault(locale));
      }
      var decompressed := Decompress(entries);
      if decompressed.Failure? {
        return Fail(decompressed.error);
      }
      localizations := localizations[locale := Merge(LocaleGet(localizations, locale), decompressed.value)];
      return Pass;
    }

    /** `setLocale`. */
    method SetLocale(locale: string)
      modifies this
      ensures this.locale == locale && localizations == old(localizations)
    {
      this.locale := locale;
    }

    /** `getLocale`: the locale last set, `'default'` before any. */
    function GetLocale(): (l: string)
      reads this
      ensures l == locale
    {
      locale
    }

    /** `getTranslation` in the current locale; `Undefined` when nothing is stored. */
    function GetTranslation(context: string, key: string): (v: JsValue)
      reads this
      ensures v == Translation(LocaleGet(localizations, locale), context, key)
    {
      Translation(LocaleGet(localizations, locale), context, key)
    }

    /** `pgettext`: the stored translation when it is truthy, else `key`, through `printf`. */
    method Pgettext(printf: Printf, context: string, key: string, leftover: seq<JsValue>) returns (s: string)
      ensures s == printf(Or(GetTranslation(context, key), Str(key)), leftover)
    {
      var text := Or(GetTranslation(context, key), Str(key));
      s := printf(text, leftover);
    }

    /** `gettext`: `pgettext` in the `'default'` context. */
    method Gettext(printf: Printf, key: string, leftover: seq<JsValue>) returns (s: string)
      ensures s == printf(Or(GetTranslation(DefaultContext, key), Str(key)), leftover)
    {
      s := Pgettext(printf, DefaultContext, key, leftover);
    }

    /**
     * `npgettext`: the stored forms under the singular, or the two-form fallback; the form for
     * the quantity, else the form at the last sorted index; through `printf` with the quantity
     * first.
     */
    method Npgettext(printf: Printf, context: string, singular: string, plural: string, quantity: int,
                     leftover: seq<JsValue>) returns (s: string)
      ensures s == printf(
        PluralText(Or(GetTranslation(context, singular), FallbackVariations(singular, plural)), quantity),
        [Num(quantity)] + leftover)
    {
      var variations := Or(GetTranslation(context, singular), FallbackVariations(singular, plural));
      var text := PluralText(variations, quantity);
      s := printf(text, [Num(quantity)] + leftover);
    }

    /** `ngettext`: `npgettext` in the `'default'` context. */
    method Ngettext(printf: Printf, singular: string, plural: string, quantity: int, leftover: seq<JsValue>)
      returns (s: string)
      ensures s == printf(
        PluralText(Or(GetTranslation(DefaultContext, singular), FallbackVariations(singular, plural)), quantity),
        [Num(quantity)] + leftover)
    {
      s := Npgettext(printf, DefaultContext, singular, plural, quantity, leftover);
    }
  }

  // ---------------------------------------------------------------------------------------------
  // Properties of the lookups

  /** A locale with nothing stored passes every key through. */
  lemma UnsetLocalePassesThrough(store: map<string, LegacyLocalization>, locale: string, context: string, key: string)
    requires locale !in store
    ensures Or(Translation(LocaleGet(store, locale), context, key), Str(key)) == Str(key)
  {
  }

  /**
   * A non-empty string registered under `key` is what the `'default'` context finds there, and
   * so what `gettext` formats.
   */
  lemma SingularFound(entries: seq<(string, JsValue)>, i: nat)
    requires DistinctKeys(entries) && i < |entries|
    requires entries[i].1.Str? && entries[i].1.s != ""
    requires Decompress(entries).Success?
    ensures Translation(Decompress(entries).value, DefaultContext, entries[i].0) == entries[i].1
  {
    DecompressDistinct(entries);
    EntryOfSingular(entries[i].1);
  }
}
