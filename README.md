# translator — a verified model

A Dafny model of the translation runtime of `@zakkudo/translator`, with proofs about it.
The model has three parts.

The TypeScript translator (`src/index.ts`) keeps gettext-style localizations by locale.
- A caller registers a compressed localization: a header entry under the key `""` and, for each
  message, a string, an array of plural forms, or an object of contexts.
- The translator expands it into `{plurals, content}`, and refuses one whose `Plural-Forms` header
  lacks a form count or a plural expression.
- `gettext`, `pgettext`, `ngettext` and `npgettext` look a message up under its escaped key, fall
  back to the text itself or to the two-form English rule, and interpolate the result.
- Interpolation swaps each `%…r` reference specifier for a placeholder key, formats the rest with
  `printf`, and splits the formatted text back into text pieces and the referenced objects.

The earlier JavaScript translator (`src/index.js`) keeps plain objects.
- It refuses to register the read-only `'default'` locale.
- It chooses a plural form by the count, else by the last index in the default sort order.

The composite-key builder (`src/toKey.js`) joins the non-empty tokens, escaped so that they hold
no colon, with colons.

Modules:

| module | file | models |
|---|---|---|
| `Wrappers` | wrappers.dfy | `Option`, `Result`, `Outcome` for absent values and thrown errors |
| `Strings` | strings.dfy | `replace`, `indexOf`, `split`, `join`, `trim`, and decimal digits as `String` prints them and `parseInt` reads them |
| `Escaping` | escaping.dfy | `escape` of src/index.ts and the plural entry key |
| `PluralForms` | plural_forms.dfy | `parsePluralForms`, the count-to-index coercion, `fallbackCountToIndex` |
| `Headers` | headers.dfy | `parseHeaders`, both as written (`split(":", 2)`) and as intended |
| `Localizations` | localization.dfy | the JSON input, `getType`, `decompressLocalization`, `verifyLocalization` |
| `Merging` | merge.dfy | `mergeLocalizations` |
| `Interpolation` | interpolation.dfy | `interpolate`: the specifier scan, the replace callback, `printf`, the split-back loop |
| `Translators` | translator.dfy | class `Translator` of src/index.ts |
| `Legacy` | legacy.dfy | src/index.js: `isNumber`, `isContext`, `isSingular`, `isPlural`, both reducers and class `Translator` |
| `CompositeKeys` | to_key.dfy | src/toKey.js |

Two pieces of behaviour come from outside the package, so the caller supplies them as a
`Runtime` value (`Translators.Runtime`) or as a parameter:
- the JavaScript engine's evaluation of a plural expression (`new Function("n", …)`),
  `PluralForms.Evaluator`;
- the `printf` of the formatting packages, `Interpolation.Printf` and `Legacy.Printf`.

State changes are modelled imperatively where the source changes state:
- the translators are classes whose `localizations` and `locale` fields the methods update;
- the loops of `parseHeaders`, `decompressLocalization`, `mergeLocalizations` and `interpolate` are
  `while` loops;
- each method is proved equal to a specification function, and the properties are lemmas about
  those functions.

The header pipeline follows the code. `parseHeaders` reads each line with `split(":", 2)`, and
the model does the same. So a `Plural-Forms` rule with a `?:` conditional loses everything after
its second colon (see Findings). The reading that splits at the first colon only is modelled
beside it (`Headers.Field`, `Headers.HeaderPluralsIntended`), and the properties are proved for
both.

## Model

| member | source | states |
|---|---|---|
| Escaping.Escape | src/index.ts:6-8 | the escaped text holds no colon, and text without backslash or colon is unchanged |
| Escaping.EscapeIsCharwise | src/index.ts:7 | replacing backslashes before colons escapes each character on its own: a colon's escape is never escaped again |
| Escaping.UnescapeCode | src/index.ts:7 | reading back one escaped character gives that character and leaves the rest to read |
| Escaping.UnescapeEncode | src/index.ts:7 | the character-wise encoding has a left inverse |
| Escaping.EscapeRoundTrip | src/index.ts:6-8 | `Unescape(Escape(s)) == s`: escaping loses nothing |
| Escaping.EscapeInjective | src/index.ts:6-8 | two texts with the same escape are equal |
| Escaping.PluralKeyHasOneColon | src/index.ts:291 | the plural key `escape(singular):escape(plural)` holds exactly one colon |
| Escaping.PluralKeyInjective | src/index.ts:291 | distinct singular/plural pairs get distinct plural keys |
| Escaping.SingularKeyIsNotPluralKey | src/index.ts:264-294 | no singular lookup key equals a plural entry key |
| PluralForms.Run | src/index.ts:48-49 | the longest run of class characters at a position, and nothing beyond it |
| PluralForms.FindMatch | src/index.ts:48-49 | the leftmost position where the literal followed by a class character starts, or none anywhere |
| PluralForms.Capture | src/index.ts:48-49 | a present capture `(s.match(re) \|\| [])[1]` is non-empty and made of class characters |
| PluralForms.CapturePresence | src/index.ts:48-49 | the capture is present exactly when the literal is followed by a class character somewhere |
| PluralForms.CaptureValue | src/index.ts:48-49 | the capture starts right after the leftmost match and takes the whole run there |
| PluralForms.CaptureChars | src/index.ts:48-49 | every captured character occurs in the searched text |
| PluralForms.SplitTerminated | src/index.ts:47 | `${text};`.split(";") always has the two pieces the destructuring reads |
| PluralForms.ExpressionValue | src/index.ts:49 | a present expression is non-empty, so truthy, and holds no `;` |
| PluralForms.ParsePluralFormsPresence | src/index.ts:46-77 | `length` is set iff the first segment has `nplurals=` followed by a digit; `countToIndex` is set iff the second has `plural=` followed by a non-`;` |
| PluralForms.ParsedLength | src/index.ts:48-55 | the form count is the decimal value of the digit run after the leftmost matching `nplurals=` |
| PluralForms.RunIsDigits | src/index.ts:48 | the run the count is read from is all digits |
| PluralForms.ParsedExpression | src/index.ts:49-74 | the expression is the rest of the second segment after the leftmost matching `plural=` |
| PluralForms.CaptureToEnd | src/index.ts:49 | in a text without `;` the `[^;]+` capture runs to the end |
| PluralForms.ExpressionSegmentHasNoSemicolon | src/index.ts:47 | the trimmed second piece of the split holds no `;` |
| PluralForms.ExpressionFromText | src/index.ts:46-77 | a character other than `;` that the text lacks never appears in the expression |
| PluralForms.RunToEnd | src/index.ts:48-49 | a run over class characters to the end of the text is that whole suffix |
| PluralForms.TrimIsInside | src/index.ts:47 | trimming a `;`-free piece introduces no `;` |
| PluralForms.CountToIndex | src/index.ts:63-71 | a boolean value becomes 1 or 0 (true iff 1), a number is returned as it is |
| PluralForms.FallbackCountToIndex | src/index.ts:248 | the index is 0 exactly when the count is 1, and 1 otherwise |
| Headers.FieldAsWritten | src/index.ts:100-104 | a field read with `split(":", 2)` and kept only when key and value are both non-empty |
| Headers.AsWrittenValueHasNoColon | src/index.ts:100 | the value the source keeps never holds a colon |
| Headers.AsWrittenTruncates | src/index.ts:100 | on `key:v1:v2` the source keeps `v1` and drops `:v2` |
| Headers.AsWrittenFromParts | src/index.ts:100 | the field as written is determined by the first two colon-separated pieces |
| Headers.Field | src/index.ts:100-104 | the intended field, split at the first colon: key and value both non-empty |
| Headers.NoColonNoField | src/index.ts:100-102 | a line without a colon declares nothing, as written and as intended |
| Headers.FieldAtFirstColon | src/index.ts:100 | the intended reading keeps every later colon in the value |
| Headers.FieldsAgreeOnOneColon | src/index.ts:100 | on a line with at most one colon the two readings agree |
| Headers.AsWrittenLosesConditional | src/index.ts:100 | whenever the value holds a colon the two readings differ: the source keeps `Trim(v1)`, the intended one `Trim(v1:v2)` |
| Headers.FieldKeepsConditional | src/index.ts:100 | the intended field of `key:v1:v2` keeps `v1:v2` whole |
| Headers.TrimDropsNoColon | src/index.ts:100 | the trimmed `v1:v2` still holds the colon that `v1` lacks |
| Headers.FieldsSnoc | src/index.ts:99-105 | one more line overwrites its key in the headers collected so far, or changes nothing |
| Headers.FieldsLastWins | src/index.ts:99-105 | a key declared on several lines holds the value of the last one |
| Headers.FieldsLast | src/index.ts:103 | a key declared on the final line holds that line's value |
| Headers.FieldsKeep | src/index.ts:99-105 | a final line that does not declare a key leaves its value |
| Headers.FieldsUndeclared | src/index.ts:99-105 | a key that no line declares is absent |
| Headers.FieldsOne | src/index.ts:99-105 | the headers of a single line |
| Headers.CollectFields | src/index.ts:97-105 | the loop leaves exactly the fields read with `split(":", 2)`, each declaring line overwriting its key |
| Headers.ParseHeaders | src/index.ts:95-111 | the plurals are those of `Plural-Forms` as the source reads the lines, `""` when no line declares it |
| Headers.EmptyPluralForms | src/index.ts:46-77 | the empty text gives no form count and no expression |
| Headers.NoPluralFormsLine | src/index.ts:107-108 | header text with no `Plural-Forms` line yields empty plurals |
| Headers.EmptyHeaders | src/index.ts:95-111 | the empty header text yields empty plurals, as written and as intended |
| Headers.EmptyLines | src/index.ts:96 | the empty text is one empty line |
| Headers.AsWrittenFieldsHaveNoColon | src/index.ts:99-105 | no header value collected by the source holds a colon |
| Headers.AsWrittenExpressionHasNoColon | src/index.ts:95-111 | the plural expression `parseHeaders` registers never holds a colon, so no `?:` rule survives |
| Headers.PluralFormsLineAsWritten | src/index.ts:95-111 | for the header `Plural-Forms:v1:v2` the source parses only `v1` |
| Headers.PluralFormsLineIntended | src/index.ts:95-111 | read as intended, the same header parses `v1:v2` |
| Headers.OneLineAsWritten | src/index.ts:96-105 | a one-line header `key:v1:v2` collects `{key: Trim(v1)}` |
| Headers.OneLineIntended | src/index.ts:96-105 | read as intended it collects `{key: Trim(v1:v2)}` |
| Headers.OneLine | src/index.ts:96 | text without a newline and with nothing to trim is a single line |
| Localizations.GetType | src/index.ts:117-127 | arrays give "array", other objects "object", strings "string", and `null`, numbers and booleans "invalid" |
| Localizations.DecompressContexts | src/index.ts:152-163 | the inner loop succeeds iff every context is a string or an array; then each string `s` becomes `[s]` and each array is kept |
| Localizations.DecompressEntry | src/index.ts:141-163 | one pass of the outer loop succeeds iff the entry is valid, and then gives its expanded contexts |
| Localizations.DecompressEntries | src/index.ts:138-164 | the outer loop succeeds iff every non-header entry is valid, and then gives the expanded content |
| Localizations.EntriesExpanded | src/index.ts:138-166 | once every non-header key holds its entry's expansion, the content is the expanded content |
| Localizations.Decompress | src/index.ts:132-169 | the result is the header's plurals with the expanded content, or the error thrown |
| Localizations.DecompressedContent | src/index.ts:132-169 | a successful expansion holds exactly the expanded content |
| Localizations.ExpandedKeys | src/index.ts:138-166 | the content keeps every key but the header's |
| Localizations.ExpandedEntry | src/index.ts:141-163 | a string `v` becomes `{"": [v]}`, an array `a` becomes `{"": a}`, an object keeps its context names with strings wrapped and arrays kept |
| Localizations.DecompressedFails | src/index.ts:140-164 | with a readable header the expansion throws iff some entry is `null`, a number or a boolean, or has a context that is neither a string nor an array; the error is the formatting one |
| Localizations.EntryValidity | src/index.ts:141-163 | an entry passes the loop iff it is not malformed |
| Localizations.HeaderMustBeText | src/index.ts:96 | a header entry that is not a string throws before any entry is looked at |
| Localizations.NoHeaderNoPlurals | src/index.ts:95 | without a header entry the plurals are empty |
| Localizations.WrittenEntry | src/index.ts:141-163 | a message whose contexts are written out as arrays expands back to those contexts |
| Localizations.DecompressCompressed | src/index.ts:132-169 | expanding a fully written-out localization gives back its content and the header's plurals |
| Localizations.VerifyLocalization | src/index.ts:82-90 | fails iff the form count is absent or 0 or the expression is absent, with the locale in the error |
| Localizations.VerifiedIsConfigured | src/index.ts:82-90 | the check passes exactly for configured localizations |
| Merging.MergePlurals | src/index.ts:176 | each field of `b.plurals` that is present replaces `a`'s |
| Merging.MergeContentLoop | src/index.ts:177-188 | the loop leaves the two-level merge: keys only in `a` kept, keys only in `b` copied, shared keys get both sets of contexts with `b` winning |
| Merging.MergeStep | src/index.ts:182-188 | one turn spreads `b[k]` over what is stored at `k`, or copies it |
| Merging.MergeDone | src/index.ts:182-188 | once every key of `b` is done the state is the merged content |
| Merging.MergeLocalizations | src/index.ts:174-191 | the result is the merged plurals with the merged content |
| Merging.MergeContentGet | src/index.ts:177-188 | a key is in the merge iff it is on either side, and holds the union of both sides' contexts |
| Merging.MergedLookup | src/index.ts:174-191 | a lookup in the merge finds `b`'s forms, and otherwise `a`'s |
| Merging.MergedKeys | src/index.ts:174-191 | no message key or context is ever lost |
| Merging.MergeEmpty | src/index.ts:174-191 | merging in an empty localization changes nothing |
| Merging.MergeIdempotent | src/index.ts:174-191 | merging a localization into itself changes nothing |
| Merging.MergeAssociative | src/index.ts:174-191 | merging in two batches one after the other is merging in their merge |
| Merging.MergeContentAssociative | src/index.ts:177-188 | the content merge is associative |
| Merging.GetAssociative | src/index.ts:177-188 | per key, the content merge is associative |
| Merging.GetMerge | src/index.ts:184-186 | the contexts at a key after the merge are `a`'s then `b`'s |
| Merging.MergeDisjointCommutes | src/index.ts:174-191 | on disjoint message keys the order of the sides does not matter for the content |
| Interpolation.ArgAt | src/index.ts:214-218 | `leftover[index]` is the argument inside the list and `undefined` outside it |
| Interpolation.FindChar | src/index.ts:207 | the first position of `%` from a start, or none |
| Interpolation.FindLower | src/index.ts:207 | the first letter of `[a-z]` from a start, or none |
| Interpolation.LexTokens | src/index.ts:207 | every stretch the scan of `/%[^a-z]*[a-z]/g` cuts out is a specifier |
| Interpolation.LexConcat | src/index.ts:207 | the text between the specifiers and the specifiers put back together are the template |
| Interpolation.LexStep | src/index.ts:207 | the scan cuts the text before the first `%`, then up to the first letter after it, then goes on |
| Interpolation.LexWhole | src/index.ts:207 | a template with no complete specifier is put back as it is |
| Interpolation.FindPositional | src/index.ts:209 | the leftmost `%`, digits, `$` in a specifier, or none |
| Interpolation.Key | src/index.ts:201-205 | the placeholder key `{__replacement-reference-N__}` starts with `{` |
| Interpolation.KeyLayout | src/index.ts:202 | a key is its prefix, the number, its suffix, and holds `{` only at its start |
| Interpolation.KeyNotPrefix | src/index.ts:202 | no key starts where another key starts |
| Interpolation.KeysDiffer | src/index.ts:202 | two different keys differ at a position inside both |
| Interpolation.KeyChar | src/index.ts:202 | what a key holds at each position |
| Interpolation.Replace | src/index.ts:208-226 | a reference becomes the next key and adds one remembered pair; anything else is replaced by itself and changes nothing |
| Interpolation.Callback | src/index.ts:201-226 | the callback with the variables it closes over returns `Replace`'s text, mapping and cursor and keeps `increment == mapping.length` |
| Interpolation.ReplaceReferences | src/index.ts:197-227 | the new text and the mapping are those of the callback run over every chunk in order |
| Interpolation.ScanNext | src/index.ts:207 | one more chunk through the callback extends the scan by one step |
| Interpolation.ScanSnoc | src/index.ts:207 | the scan of one more chunk is one step after the scan so far |
| Interpolation.ScanRecords | src/index.ts:208-224 | one pair per reference in template order: the j-th gets key j and argument N−1 for `%N$r`, else the next sequential one; positional references do not move the cursor |
| Interpolation.StepRecords | src/index.ts:208-224 | one step keeps the pair-per-reference invariant |
| Interpolation.NextMapping | src/index.ts:208-221 | a reference appends the pair for the next key |
| Interpolation.StepReference | src/index.ts:208-224 | a reference appends the next key, the pair of its argument, and moves the cursor iff it is not positional |
| Interpolation.ReferencedLast | src/index.ts:212-220 | the argument of the last reference: its position's, else the cursor's |
| Interpolation.SequentialLast | src/index.ts:217-220 | the cursor moves once per non-positional reference |
| Interpolation.ReferencedAppend | src/index.ts:208-224 | a later reference does not change the argument of an earlier one |
| Interpolation.ScanWithoutReferences | src/index.ts:207-227 | without a reference the text is kept and nothing is remembered |
| Interpolation.SplitLoop | src/index.ts:231-241 | the split-back loop gives each piece before a key and its value, then the leftover, or throws on splitting `undefined` |
| Interpolation.SplitBackStaysFailed | src/index.ts:234-239 | once the leftover is `undefined` every later split throws |
| Interpolation.InterpolateText | src/index.ts:193-246 | `interpolate` returns the formatted string without references, else the split-back parts, or throws |
| Interpolation.SplitBackShape | src/index.ts:234-239 | every split step adds a text piece and then the argument of that step's key |
| Interpolation.InterpolateShape | src/index.ts:229-243 | a successful result with m references has 2m+1 parts, the odd ones the referenced arguments in template order |
| Interpolation.InterpolateWithoutReferences | src/index.ts:229-245 | a template without `%…r` is handed to `printf` unchanged and returned as a string |
| Interpolation.ReferencesInclude | src/index.ts:208 | a reference chunk is counted among the references |
| Interpolation.Segments | src/index.ts:207-227 | there is one more text segment than there are references |
| Interpolation.ScanText | src/index.ts:207-227 | the callback's text is the segments woven together with keys 0, 1, … |
| Interpolation.SegmentsLack | src/index.ts:207 | a character none of the chunks holds is in no segment |
| Interpolation.LexLacks | src/index.ts:207 | a character the template lacks is in none of its chunks |
| Interpolation.KeyAbsent | src/index.ts:235 | an earlier key occurs nowhere in the woven text from a later segment on |
| Interpolation.SplitAtKey | src/index.ts:235 | splitting at a key right after text without `{` gives that text first |
| Interpolation.Alternate | src/index.ts:234-239 | text piece i followed by the value of key i, for the first j keys |
| Interpolation.SplitBackWoven | src/index.ts:232-239 | splitting the woven text at the keys in order gives back each segment and its argument, and the rest |
| Interpolation.SplitWovenAt | src/index.ts:235 | the leftover from segment j−1 splits at key j−1 into that segment and the rest |
| Interpolation.SplitBackSnoc | src/index.ts:234-239 | one more key split off the leftover adds its piece and value |
| Interpolation.InterpolateParts | src/index.ts:193-246 | when the template holds no `{` and `printf` leaves the keyed text alone, the result is exactly the segments interleaved with the referenced arguments |
| Interpolation.InterpolateRewritten | src/index.ts:193-246 | when `printf` rewrites the text between the keys but keeps the keys in order and adds no `{`, the result is exactly the rewritten pieces interleaved with the referenced arguments |
| Interpolation.InterpolateAssembled | src/index.ts:229-243 | under the same hypothesis the result is the interleaving followed by the last segment |
| Interpolation.AlternateParts | src/index.ts:234-240 | the interleaving stated per position |
| Interpolation.SequentialExample | src/test.ts:586-592 | `"%r test"` with `v` gives `["", v, " test"]` when `printf` keeps the keyed text |
| Interpolation.PositionalExample | src/test.ts:594-600 | `"%2$r test"` with `(3, v)` gives `["", v, " test"]` |
| Interpolation.MixedExample | src/test.ts:602-612 | `"%2$r %r test"` with `("one", "two")` gives `["", "two", " ", "one", " test"]` |
| Interpolation.ExampleParts | src/index.ts:193-246 | one leading reference then plain text gives `["", arg, text]` |
| Interpolation.TwoReferenceParts | src/index.ts:193-246 | text, reference, text, reference, text gives the five parts in order |
| Interpolation.LexSpecifierFirst | src/index.ts:207 | text without `%`, a specifier, then the rest: the specifier is cut out first |
| Interpolation.LexPlain | src/index.ts:207 | a template without `%` is one piece of text |
| Interpolation.LexTwoSpecifiers | src/index.ts:207 | text, specifier, text, specifier, text is cut into those five chunks |
| Interpolation.PositionTwo | src/index.ts:209-213 | `%2$r` names argument 2 |
| Interpolation.NotPositional | src/index.ts:209 | a two-character specifier has no position |
| Translators.Form | src/index.ts:267 | `forms?.[index]` is the form inside the list, absent outside it or in a hole |
| Translators.FallbackForm | src/index.ts:294-297 | the singular for a count of 1, the plural otherwise |
| Translators.Register | src/index.ts:306-307 | decompress then verify; a success is configured |
| Translators.MergeInto | src/index.ts:321-326 | merge the expansion into the stored localization then verify; a success is configured |
| Translators.Translator.GetTranslation | src/index.ts:264-270 | without a localization for the locale the key itself, else the first form stored for the escaped key in the context, else the key |
| Translators.Translator.GetPluralTranslation | src/index.ts:275-298 | without a localization or an expression the two-form rule; else the form the expression's index selects under the plural key, else the two-form rule |
| Translators.Translator.SetLocalization | src/index.ts:305-309 | stores the expansion iff it decompresses and passes the check; otherwise throws that error and changes nothing; keeps every stored localization configured |
| Translators.Translator.MergeLocalization | src/index.ts:316-332 | on a stored locale merges and checks, otherwise sets; a failure changes nothing; keeps every stored localization configured |
| Translators.Translator.Store | src/index.ts:326-328 | the assignment once the localization is verified, or the error with nothing changed |
| Translators.Translator.Pgettext | src/index.ts:381-389 | the translation in the context, interpolated with the leftover arguments |
| Translators.Translator.Gettext | src/index.ts:341-346 | `pgettext` in the default context `""` |
| Translators.Translator.Npgettext | src/index.ts:402-417 | the plural translation, interpolated with the count before the leftover arguments |
| Translators.Translator.Ngettext | src/index.ts:356-369 | `npgettext` in the default context `""` |
| Translators.RegisteredIsConfigured | src/index.ts:305-309 | a localization is stored iff it decompresses and is configured; the error is the decompression's, else the missing-headers one |
| Translators.StoreConfigured | src/index.ts:308 | storing a configured localization keeps every stored one configured |
| Translators.RegisteredSteps | src/index.ts:306-308 | the outcome of setting, by the outcome of each step |
| Translators.MergeRegisteredSteps | src/index.ts:320-328 | the outcome of merging into a stored locale, by the outcome of each step |
| Translators.MergeRegisteredStored | src/index.ts:320-322 | merging depends only on the localization stored for that locale |
| Translators.MergeIntoEmptyLocale | src/index.ts:329-331 | merging into a locale with nothing stored is setting it |
| Translators.MergeWithoutHeader | src/index.ts:316-332 | a header-less batch merged into a configured localization always passes and keeps its plurals |
| Translators.MergeRegisteredIsConfigured | src/index.ts:326 | a merge that passes leaves a configured localization |
| Translators.LocalTranslationSource | src/index.ts:267-269 | the translation is the key itself or the first stored form |
| Translators.UntranslatedPassesThrough | src/index.ts:264-270 | a message absent from the current locale, or a locale with no localization, passes through |
| Translators.PluralEntryInvisible | src/index.ts:264-291 | storing a plural entry leaves every singular translation as it was |
| Translators.PluralWithoutExpression | src/index.ts:284-297 | without a plural expression the two-form rule decides, whatever is stored |
| Translators.PluralSelectsForm | src/index.ts:289-294 | with an expression the form at its index is returned when present, else the two-form rule |
| Translators.ValidPluralUsesExpression | src/index.ts:282-294 | in a valid translator every stored locale has an expression, so `getPluralTranslation` always goes through it |
| Translators.RegisteredTranslation | src/index.ts:264-309 | after registering a written-out localization, `getTranslation` finds the first form written for the escaped key |
| Translators.MergedTranslation | src/index.ts:264-270 | after a merge a message of the merged-in batch is what it says, the rest as before |
| Translators.MergedPluralTranslation | src/index.ts:275-298 | the same for plural lookups when the batch brings no expression |
| Legacy.DigitRun | src/index.js:11 | the length of the leading digit run, and nothing beyond it is a digit |
| Legacy.AllLeadingDigits | src/index.js:11 | a canonical digit string is read whole |
| Legacy.ParseCanonical | src/index.js:11 | `parseInt` reads back the value of a canonical digit string |
| Legacy.ParseNegative | src/index.js:11 | `parseInt` reads `-` then canonical digits as the negated value |
| Legacy.NoParse | src/index.js:11 | text starting with neither whitespace, sign nor digit is `NaN` |
| Legacy.ParseHex | src/index.js:11 | with no radix, `parseInt` reads the digits after a `0x` or `0X` prefix in base 16 |
| Legacy.HexPrefixWithoutDigits | src/index.js:11 | a `0x` prefix with no hexadecimal digit after it is `NaN`, not the `0` before the `x` |
| Legacy.HexKey | src/index.js:10-12 | `parseInt("0x9")` is 9, so the key `0x9` is an index but not a number key |
| Legacy.IntegerTextIsNumber | src/index.js:10-12 | integer text as `String` prints it passes `isNumber` |
| Legacy.NumberIsIntegerText | src/index.js:10-12 | anything that passes `isNumber` other than `NaN` is integer text |
| Legacy.PrintedIsIntegerText | src/index.js:11 | `String` of an integer or `NaN` is integer text or `NaN` |
| Legacy.IsNumberCanonical | src/index.js:10-12 | `isNumber(k)` iff `k` is `"NaN"` or an integer as `String` prints it |
| Legacy.IsPlural | src/index.js:33-35 | throws exactly on `null` and `undefined`; otherwise true iff the value has keys |
| Legacy.IndexKeysEmpty | src/index.js:34 | a string or array has no keys iff it is empty |
| Legacy.ContextIsRecord | src/index.js:17-21 | an array is never a context: only objects are |
| Legacy.EntryOfNothing | src/index.js:60 | `null` and `undefined` entries throw |
| Legacy.EntryOfContext | src/index.js:56-57 | an object with a non-numeric key is spread as contexts |
| Legacy.EntryOfSingular | src/index.js:58-59 | a non-empty string is stored under `default` |
| Legacy.EntryOfArray | src/index.js:60-61 | a non-empty array is stored under `default` |
| Legacy.EntryOfPlural | src/index.js:60-61 | a non-empty object keyed only by numbers is stored under `default` |
| Legacy.NumericObject | src/index.js:17-21 | an object keyed only by numbers is not a context |
| Legacy.EntryOfEmpty | src/index.js:52-65 | booleans, numbers, the empty string, array and object add nothing |
| Legacy.EntryReadable | src/index.js:52-65 | an entry expands iff it is neither `null` nor `undefined`, and otherwise throws |
| Legacy.DecompressSucceeds | src/index.js:52-66 | the reduce throws exactly when some entry value is `null` or `undefined` |
| Legacy.DecompressStep | src/index.js:53-65 | the last entry is expanded over what the others gathered for its key |
| Legacy.DecompressDistinct | src/index.js:52-66 | with distinct keys there is one key per entry, holding that entry's expansion |
| Legacy.MergeLookup | src/index.js:71-81 | after a merge a key is present iff on either side; a context is `b`'s if it has it, else `a`'s |
| Legacy.MergeIntoNothing | src/index.js:71 | merging into nothing stored (`localization = {}`) stores `b` as it is |
| Legacy.Or | src/index.js:213-216 | `a \|\| b`: `a` when truthy, else `b` |
| Legacy.LexReflexive | src/index.js:214 | the default sort's string order is reflexive |
| Legacy.LexTotal | src/index.js:214 | the order is total |
| Legacy.LexTransitive | src/index.js:214 | the order is transitive |
| Legacy.LexAntisymmetric | src/index.js:214 | the order is antisymmetric |
| Legacy.MaxExists | src/index.js:214-215 | a non-empty set of keys has a last element in the sort |
| Legacy.LexMax | src/index.js:214-215 | the last element is in the set and follows every other |
| Legacy.PrintedNumbers | src/index.js:214 | numeric keys print as themselves after `parseInt` |
| Legacy.SortedNumbers | src/index.js:214-215 | for numeric keys the last sorted index is the string-greatest key |
| Legacy.FallbackLast | src/index.js:212-215 | the last sorted index of `{'1': singular, '2': plural}` is `2` |
| Legacy.SortedLastPair | src/index.js:214-215 | of two keys, the one whose index prints after the other's is the last sorted index |
| Legacy.HexKeySortsLast | src/index.js:214-215 | the keys `0x9` and `5` are the indices 9 and 5, so the last sorted index is `9` |
| Legacy.MissingPluralText | src/index.js:216 | when neither the count nor the last index is a stored key, the text is `undefined` |
| Legacy.HexKeyPluralText | src/index.js:214-216 | for `{"0x9": a, "5": b}` and a count of 3 neither `variations[3]` nor `variations[9]` exists, so the text is `undefined` |
| Legacy.QuantityKey | src/index.js:216 | a count is looked up under `"1"` or `"2"` only when it is 1 or 2 |
| Legacy.FallbackSelection | src/index.js:212-216 | without a stored translation a count of 1 gives a non-empty singular, everything else gives the plural |
| Legacy.FallbackProperty | src/index.js:212-216 | the fallback holds the singular under `1`, the plural under `2`, nothing else |
| Legacy.Translator.SetLocalization | src/index.js:120-126 | `'default'` is refused with its exact message; else the expansion is stored, or the reduce's error is thrown with nothing changed |
| Legacy.Translator.MergeLocalization | src/index.js:133-142 | `'default'` is refused with its exact message; else the expansion is merged into what is stored, or into `{}` |
| Legacy.Translator.SetLocale | src/index.js:148-150 | the locale becomes the one given, the store is unchanged |
| Legacy.Translator.GetLocale | src/index.js:155-157 | the locale last set |
| Legacy.Translator.GetTranslation | src/index.js:40-47 | `((localizations[locale] \|\| {})[key] \|\| {})[context]`: the stored value, `undefined` when nothing is stored |
| Legacy.Translator.Pgettext | src/index.js:192-197 | the stored translation when truthy, else the key, through `printf` |
| Legacy.Translator.Gettext | src/index.js:166-168 | `pgettext` in the `default` context |
| Legacy.Translator.Npgettext | src/index.js:210-219 | the stored forms or the two-form fallback; the form for the count, else the one at the last sorted index; through `printf` with the count first |
| Legacy.Translator.Ngettext | src/index.js:178-180 | `npgettext` in the `default` context |
| Legacy.UnsetLocalePassesThrough | src/index.js:40-47 | a locale with nothing stored passes every key through |
| Legacy.SingularFound | src/index.js:52-66 | a registered non-empty string is what the `default` context finds |
| CompositeKeys.Escape | src/toKey.js:1-3 | the escaped token holds no colon, and a token without `&` or `:` is unchanged |
| CompositeKeys.NonEmpty | src/toKey.js:6 | `filter(p => p)` keeps only non-empty tokens |
| CompositeKeys.EscapeAll | src/toKey.js:6 | `map(escape)` escapes each token in place |
| CompositeKeys.EscapeIsCharwise | src/toKey.js:2 | replacing `&` before `:` escapes each character on its own |
| CompositeKeys.UnescapeCode | src/toKey.js:2 | one escaped character reads back as itself |
| CompositeKeys.UnescapeEncode | src/toKey.js:2 | the character-wise encoding has a left inverse |
| CompositeKeys.EscapeRoundTrip | src/toKey.js:1-3 | `Unescape(Escape(s)) == s` |
| CompositeKeys.EscapeInjective | src/toKey.js:1-3 | two tokens with the same escape are equal |
| CompositeKeys.EscapeEmpty | src/toKey.js:1-3 | only the empty token escapes to the empty text |
| CompositeKeys.ToKeyNone | src/toKey.js:5-7 | `toKey()` is the empty key |
| CompositeKeys.NonEmptyAppend | src/toKey.js:6 | the filter distributes over concatenation |
| CompositeKeys.ToKeyIgnoresEmpty | src/toKey.js:5-7 | an empty token anywhere does not change the key |
| CompositeKeys.NonEmptyKeepsAll | src/toKey.js:6 | non-empty tokens are all kept |
| CompositeKeys.ToKeySingle | src/toKey.js:5-7 | one non-empty token is its own escape |
| CompositeKeys.JoinedColons | src/toKey.js:6 | k escaped tokens joined hold exactly k−1 colons |
| CompositeKeys.ToKeyColons | src/toKey.js:5-7 | the key of k non-empty tokens holds exactly k−1 colons |
| CompositeKeys.SplitJoined | src/toKey.js:6 | splitting the joined text at colons gives back the escaped tokens |
| CompositeKeys.ToKeySplit | src/toKey.js:5-7 | splitting a key at its colons gives back the escaped tokens |
| CompositeKeys.ToKeyEmpty | src/toKey.js:5-7 | for non-empty tokens only the empty list gives the empty key |
| CompositeKeys.ToKeyInjective | src/toKey.js:5-7 | different lists of non-empty tokens never share a key |

## Left out

- Plural expressions are not compiled. `new Function("n", "return " + pluralValue + ";")` (src/index.ts:58-61) throws a `SyntaxError` for a malformed expression, and that makes `setLocalization` and `mergeLocalization` throw. The model stores the expression text and evaluates it only through the total `Evaluator`, so registration never fails for a malformed expression.
- Evaluation cannot fail. An expression that throws when called, or that evaluates to something other than a boolean or a number (src/index.ts:64-70, :290), is outside `EvalResult`, which holds only booleans and integers. In the source `countToIndex` runs before the lookup, so `npgettext` can throw there; in the model it cannot.
- Non-integer numbers are left out. A fractional index or count, `NaN` and infinities are outside the model, whose numbers are `int`.
- JavaScript number precision is not modelled. `parseInt` and `String` work on doubles, so a long digit string is rounded and from 1e21 on is printed in exponent form. `isNumber("12345678901234567890")` is false in JavaScript but true in the model.
- Legacy.IsNumber: exact on unbounded integers, so it also accepts numerals beyond 2^53 that JavaScript rejects.
- Legacy.SortedLast: parses and prints keys exactly, while JavaScript rounds long numerals before sorting.
- PluralForms.ParsedLength: the `nplurals` digits are read as an exact natural number, while `parseInt` rounds one beyond 2^53.
- Legacy.IsPlural: arrays have no holes. A sparse array such as `[,]` has no own keys, so `isPlural` gives 0 and the entry adds nothing (src/index.js:34, :60). Its nearest model value, `Arr([Undefined])`, has the key `"0"` and is stored under `default`.
- Legacy.Translator.Npgettext: stored forms have no holes either. `Object.keys` skips the holes of a sparse array of forms, so its last sorted index can differ from the last position of the model's `Arr`.
- Lookups consult own keys only. Plain-object lookups in the source also reach `Object.prototype`: `content["constructor"]` is a function whose `name[0]` is `"O"` (src/index.ts:267), and `this.localizations["toString"]` is truthy (src/index.ts:320). The model sees only the keys a localization holds. The same holds for `src/index.js`.
- Default arguments are not modelled. The model passes every argument explicitly: the constructor's `locale = FALLBACK_LOCALE` is passing `FallbackLocale` (`""`), `parsePluralForms`'s and `parseHeaders`'s `text = ""` are the missing header read as `""`, and `mergeLocalization`'s `localization = {}` in src/index.js is `LocaleGet`.
- `printf` is a parameter. The `fast-printf` and `printf` packages are not part of this model. Every property that describes the final parts assumes what `printf` returns: `Interpolation.InterpolateRewritten` assumes the keys come back in order with no `{` added between them, and `Interpolation.InterpolateParts` and the three test examples assume the keyed text comes back unchanged.
- Interpolation.InterpolateShape: states the shape of any successful result, whatever `printf` does; the exact text pieces are stated by `InterpolateParts` under its `printf` hypothesis.
- Text is UTF-16 in the source. Strings here are sequences of Dafny characters, and `trim`, the regular expressions and `escape` are modelled character by character.
- Object key order is not modelled. Objects are maps, so `Object.keys` order is not represented: the contents of a merged or expanded localization are modelled, not the order of its keys. The src/index.js reducer is given its entries as a sequence in `Object.entries` order.
- Error messages are modelled only in part. Errors are datatypes. The locale-refusal messages of src/index.js are modelled exactly (`Legacy.Message`). The `JSON.stringify(locale)` message text of `verifyLocalization` is reduced to the locale it names.
- The JSON copy is taken as given. `JSON.parse(JSON.stringify(localization))` (src/index.ts:136) is represented by taking the already-copied value as input (`Localizations.Json`): functions and `undefined` properties are dropped and array holes are `null`. Cyclic input, which makes the copy throw, is not modelled.
- A header value that is not a string is modelled as the `TypeError` that `text.split` throws.
- The bound aliases `__`, `__n`, `__p` and `__np` of src/index.js (src/index.js:95-113) and the arrow-function binding of the TypeScript methods are not modelled: they only fix `this`.
- A `Mixed` interpolation result holds the arguments themselves (`Interpolation.Value`), not copies. JavaScript object identity is represented by `Other(id)`.

## Findings

| source | as written | input that shows it | evidently intended | confidence | as-written member | corrected member |
|---|---|---|---|---|---|---|
| src/index.ts:100 | `l.split(":", 2)` keeps only the text between the first and the second colon, so the value of a header line loses everything from its second colon on | header `Plural-Forms: nplurals=3; plural=n==1 ? 0 : 2`: the source registers the expression `n==1 ? 0`, which `new Function` then refuses | split at the first colon only, so that `Plural-Forms` keeps the whole rule `n==1 ? 0 : 2` | not executed | Headers.FieldAsWritten, Headers.AsWrittenLosesConditional, Headers.AsWrittenExpressionHasNoColon, Headers.PluralFormsLineAsWritten | Headers.Field, Headers.FieldKeepsConditional, Headers.HeaderPluralsIntended, Headers.PluralFormsLineIntended |

The rest of the model follows the code as written: `Localizations.Decompressed` and the translator use `Headers.HeaderPlurals`, which reads lines with `FieldAsWritten`.
