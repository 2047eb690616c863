/**
 * The header entry of a localization (src/index.ts `parseHeaders`): one `Key: value` field per
 * line, of which only `Plural-Forms` is used.
 *
 * The source reads a field with `line.split(":", 2)`, which keeps only the text between the
 * first and the second colon, so a plural expression with a `?:` conditional loses its tail.
 * `FieldAsWritten` models that, and `HeaderPlurals` and `ParseHeaders` are built on it as the
 * source is; `Field` splits at the first colon only, and `HeaderPluralsIntended` is the header
 * the source evidently means.
 */
module Headers {
  import opened Wrappers
  import opened Strings
  import opened PluralForms

  /** `text.split("\n").map((l) => l.trim())`. */
  function Lines(text: string): seq<string> {
    var parts := Split(text, "\n");
    seq(|parts|, k requires 0 <= k < |parts| => Trim(parts[k]))
  }

  // ---------------------------------------------------------------------------------------------
  // One header line

  /**
   * `const [key, value] = l.split(":", 2).map((p) => p.trim())` followed by `if (key && value)`:
   * the key is the text before the first colon and the value the text between the first and the
   * second colon, both trimmed; a line without a colon has no value.
   */
  function FieldAsWritten(line: string): (f: Option<(string, string)>)
    ensures f.Some? ==> f.value.0 != "" && f.value.1 != ""
  {
    var parts := Split(line, ":");
    var key := Trim(parts[0]);
    if |parts| >= 2 && key != "" && Trim(parts[1]) != "" then Some((key, Trim(parts[1])))
    else None
  }

  /** The value the source keeps never contains a colon, whatever the line holds. */
  lemma AsWrittenValueHasNoColon(line: string)
    ensures FieldAsWritten(line).Some? ==> ':' !in FieldAsWritten(line).value.1
  {
    var parts := Split(line, ":");
    if FieldAsWritten(line).Some? {
      SplitJoin(line, ":");
      AbsentChar(parts[1], ':');
      TrimChars(parts[1]);
    }
  }

  /** On `key:v1:v2` with colon-free `key` and `v1`, the source keeps `v1` and drops `:v2`. */
  lemma AsWrittenTruncates(key: string, v1: string, v2: string)
    requires ':' !in key && ':' !in v1
    ensures FieldAsWritten(key + ":" + v1 + ":" + v2) ==
      if Trim(key) != "" && Trim(v1) != "" then Some((Trim(key), Trim(v1))) else None
  {
    var rest := v1 + ":" + v2;
    assert key + ":" + v1 + ":" + v2 == key + [':'] + rest;
    assert rest == v1 + [':'] + v2;
    SplitAfterChar(key, rest, ':');
    SplitAfterChar(v1, v2, ':');
    AsWrittenFromParts(key + ":" + v1 + ":" + v2, key, v1, Split(v2, ":"));
  }

  lemma AsWrittenFromParts(line: string, key: string, v1: string, tail: seq<string>)
    requires Split(line, ":") == [key] + ([v1] + tail)
    ensures FieldAsWritten(line) ==
      if Trim(key) != "" && Trim(v1) != "" then Some((Trim(key), Trim(v1))) else None
  {
    var parts := Split(line, ":");
    assert parts[0] == key && parts[1] == v1;
  }

  /**
   * The field of a line, split at its first colon: the key is the trimmed text before it, the
   * value the trimmed text after it; both must be non-empty.
   */
  function Field(line: string): (f: Option<(string, string)>)
    ensures f.Some? ==> f.value.0 != "" && f.value.1 != ""
  {
    match IndexOf(line, ":")
    case None => None
    case Some(i) =>
      var key := Trim(line[..i]);
      var value := Trim(line[i + 1..]);
      if key != "" && value != "" then Some((key, value)) else None
  }

  /** A line with no colon declares nothing, in the source and in the corrected reading. */
  lemma NoColonNoField(line: string)
    requires ':' !in line
    ensures Field(line).None? && FieldAsWritten(line).None?
  {
    NoCharNoIndex(line, ':');
  }

  /**
   * `Field` splits at the first colon and keeps every later colon in the value; its key never
   * holds a colon.
   */
  lemma FieldAtFirstColon(key: string, value: string)
    requires ':' !in key
    ensures Field(key + ":" + value) ==
      if Trim(key) != "" && Trim(value) != "" then Some((Trim(key), Trim(value))) else None
  {
    var line := key + ":" + value;
    assert line == key + [':'] + value;
    IndexOfChar(key, value, ':');
    assert line[..|key|] == key && line[|key| + 1..] == value;
  }

  /** On a line with at most one colon the source and the corrected reading agree. */
  lemma FieldsAgreeOnOneColon(key: string, value: string)
    requires ':' !in key && ':' !in value
    ensures FieldAsWritten(key + ":" + value) == Field(key + ":" + value)
  {
    var line := key + ":" + value;
    assert line == key + [':'] + value;
    IndexOfChar(key, value, ':');
    FieldAtFirstColon(key, value);
    SplitFirst(line, ":", |key|);
    assert line[..|key|] == key && line[|key| + 1..] == value;
    NoCharNoIndex(value, ':');
  }

  /**
   * Whenever the value holds a colon, as a plural expression with a `?:` conditional does, the
   * source's field differs from the line's: it drops everything from the second colon on.
   */
  lemma AsWrittenLosesConditional(key: string, v1: string, v2: string)
    requires ':' !in key && ':' !in v1
    requires Trim(key) != "" && Trim(v1) != ""
    ensures FieldAsWritten(key + ":" + v1 + ":" + v2) == Some((Trim(key), Trim(v1)))
    ensures Field(key + ":" + v1 + ":" + v2) == Some((Trim(key), Trim(v1 + ":" + v2)))
    ensures Trim(v1) != Trim(v1 + ":" + v2)
  {
    AsWrittenTruncates(key, v1, v2);
    FieldKeepsConditional(key, v1, v2);
    TrimDropsNoColon(v1, v2);
  }

  lemma FieldKeepsConditional(key: string, v1: string, v2: string)
    requires ':' !in key
    ensures Field(key + ":" + v1 + ":" + v2) ==
      if Trim(key) != "" && Trim(v1 + ":" + v2) != "" then Some((Trim(key), Trim(v1 + ":" + v2))) else None
  {
    Regroup(key, v1, v2);
    FieldAtFirstColon(key, v1 + ":" + v2);
  }

  lemma Regroup(key: string, v1: string, v2: string)
    ensures key + ":" + v1 + ":" + v2 == key + ":" + (v1 + ":" + v2)
  {
  }

  lemma TrimDropsNoColon(v1: string, v2: string)
    requires ':' !in v1
    ensures ':' in Trim(v1 + ":" + v2) && ':' !in Trim(v1)
  {
    var value := v1 + ":" + v2;
    assert value[|v1|] == ':';
    TrimKeeps(value, |v1|);
    TrimChars(v1);
  }

  // ---------------------------------------------------------------------------------------------
  // All header lines

  /** How one header line is read: `FieldAsWritten` as the source does, `Field` as intended. */
  type FieldReader = string -> Option<(string, string)>

  /** Whether `line`, read by `read`, declares a field named `key`. */
  predicate Declares(read: FieldReader, line: string, key: string) {
    read(line).Some? && read(line).value.0 == key
  }

  /** The `headers` record after the loop over `lines`: each declaring line overwrites its key. */
  function Fields(read: FieldReader, lines: seq<string>): map<string, string>
    decreases |lines|
  {
    if lines == [] then map[]
    else
      var headers := Fields(read, lines[..|lines| - 1]);
      match read(lines[|lines| - 1])
      case Some((key, value)) => headers[key := value]
      case None => headers
  }

  /** One more line: its field, if any, overwrites the headers collected so far. */
  lemma FieldsSnoc(read: FieldReader, lines: seq<string>, i: nat)
    requires i < |lines|
    ensures Fields(read, lines[..i + 1]) ==
      if read(lines[i]).Some? then Fields(read, lines[..i])[read(lines[i]).value.0 := read(lines[i]).value.1]
      else Fields(read, lines[..i])
  {
    assert lines[..i + 1][..i] == lines[..i];
  }

  /** When a key is declared more than once, the last declaring line wins. */
  lemma {:induction false} FieldsLastWins(read: FieldReader, lines: seq<string>, key: string, j: nat)
    requires j < |lines| && Declares(read, lines[j], key)
    requires forall k :: j < k < |lines| ==> !Declares(read, lines[k], key)
    ensures key in Fields(read, lines) && Fields(read, lines)[key] == read(lines[j]).value.1
    decreases |lines|
  {
    var i := |lines| - 1;
    if j < i {
      var init := lines[..i];
      assert Declares(read, init[j], key) && forall k :: j < k < |init| ==> !Declares(read, init[k], key) by {
        forall k | j <= k < |init|
          ensures init[k] == lines[k]
        {
        }
      }
      FieldsLastWins(read, init, key, j);
      assert !Declares(read, lines[i], key);
      FieldsKeep(read, lines, key);
    } else {
      FieldsLast(read, lines, key, j);
    }
  }

  lemma FieldsLast(read: FieldReader, lines: seq<string>, key: string, j: nat)
    requires j == |lines| - 1 && Declares(read, lines[j], key)
    ensures key in Fields(read, lines) && Fields(read, lines)[key] == read(lines[j]).value.1
  {
  }

  lemma FieldsKeep(read: FieldReader, lines: seq<string>, key: string)
    requires lines != [] && !Declares(read, lines[|lines| - 1], key)
    requires key in Fields(read, lines[..|lines| - 1])
    ensures key in Fields(read, lines) && Fields(read, lines)[key] == Fields(read, lines[..|lines| - 1])[key]
  {
  }

  /** A key that no line declares is absent. */
  lemma {:induction false} FieldsUndeclared(read: FieldReader, lines: seq<string>, key: string)
    requires forall k :: 0 <= k < |lines| ==> !Declares(read, lines[k], key)
    ensures key !in Fields(read, lines)
    decreases |lines|
  {
    if lines != [] {
      var init := lines[..|lines| - 1];
      FieldsUndeclared(read, init, key);
      assert !Declares(read, lines[|lines| - 1], key);
    }
  }

  /** The headers of a single line. */
  lemma FieldsOne(read: FieldReader, line: string)
    ensures Fields(read, [line]) == if read(line).Some? then map[read(line).value.0 := read(line).value.1] else map[]
  {
    assert [line][..0] == [];
  }

  /** `headers["Plural-Forms"]`, with an absent header as the default `""`. */
  function PluralFormsText(headers: map<string, string>): string {
    if "Plural-Forms" in headers then headers["Plural-Forms"] else ""
  }

  /** The plurals `parseHeaders` returns for `text`, its fields read with `split(":", 2)`. */
  function HeaderPlurals(text: string): Plurals {
    ParsePluralForms(PluralFormsText(Fields(FieldAsWritten, Lines(text))))
  }

  /** The plurals the header evidently means, its fields split at their first colon only. */
  function HeaderPluralsIntended(text: string): Plurals {
    ParsePluralForms(PluralFormsText(Fields(Field, Lines(text))))
  }

  /** The loop of `parseHeaders`: each line's field overwrites the headers collected so far. */
  method CollectFields(lines: seq<string>) returns (headers: map<string, string>)
    ensures headers == Fields(FieldAsWritten, lines)
  {
    headers := map[];
    var i := 0;
    while i < |lines|
      invariant 0 <= i <= |lines|
      invariant headers == Fields(FieldAsWritten, lines[..i])
    {
      FieldsSnoc(FieldAsWritten, lines, i);
      var field := FieldAsWritten(lines[i]);
      if field.Some? {
        headers := headers[field.value.0 := field.value.1];
      }
      i := i + 1;
    }
    assert lines[..|lines|] == lines;
  }

  /** `parseHeaders`: collect the fields of the trimmed lines, then parse `Plural-Forms`. */
  method ParseHeaders(text: string) returns (plurals: Plurals)
    ensures plurals == HeaderPlurals(text)
  {
    var headers := CollectFields(Lines(text));
    plurals := ParsePluralForms(PluralFormsText(headers));
  }

  /** Plural forms of the empty text: no form count and no expression. */
  lemma EmptyPluralForms()
    ensures ParsePluralForms("") == Plurals(None, None)
  {
    var parts := Split("" + ";", ";");
    assert "" + ";" == [] + [';'] + [];
    IndexOfChar([], [], ';');
    assert parts == [""] + Split([], ";");
    assert CountSegment("") == "";
  }

  /** Header text with no `Plural-Forms` line, the empty text included, yields `plurals == {}`. */
  lemma NoPluralFormsLine(text: string)
    requires forall k :: 0 <= k < |Lines(text)| ==> !Declares(FieldAsWritten, Lines(text)[k], "Plural-Forms")
    ensures HeaderPlurals(text) == Plurals(None, None)
  {
    FieldsUndeclared(FieldAsWritten, Lines(text), "Plural-Forms");
    EmptyPluralForms();
  }

  /** The empty header text declares nothing. */
  lemma EmptyHeaders()
    ensures HeaderPlurals("") == Plurals(None, None)
    ensures HeaderPluralsIntended("") == Plurals(None, None)
  {
    EmptyLines();
    NoColonNoField("");
    FieldsOne(FieldAsWritten, "");
    FieldsOne(Field, "");
    EmptyPluralForms();
  }

  lemma EmptyLines()
    ensures Lines("") == [""]
  {
    assert IndexOf("", "\n").None?;
  }

  // ---------------------------------------------------------------------------------------------
  // What reading with split(":", 2) costs

  /** Read as the source reads them, the header values never contain a colon. */
  lemma {:induction false} AsWrittenFieldsHaveNoColon(lines: seq<string>)
    ensures forall key :: key in Fields(FieldAsWritten, lines) ==> ':' !in Fields(FieldAsWritten, lines)[key]
    decreases |lines|
  {
    if lines != [] {
      AsWrittenFieldsHaveNoColon(lines[..|lines| - 1]);
      AsWrittenValueHasNoColon(lines[|lines| - 1]);
    }
  }

  /**
   * So the expression `parseHeaders` registers never contains a colon: no plural rule with a
   * `?:` conditional survives, whatever the header text.
   */
  lemma AsWrittenExpressionHasNoColon(text: string)
    ensures HeaderPlurals(text).countToIndex.Some? ==> ':' !in HeaderPlurals(text).countToIndex.value
  {
    var headers := Fields(FieldAsWritten, Lines(text));
    AsWrittenFieldsHaveNoColon(Lines(text));
    ExpressionFromText(PluralFormsText(headers), ':');
  }

  /** A one-line header `Plural-Forms:v1:v2`: the source parses only `v1`. */
  lemma PluralFormsLineAsWritten(v1: string, v2: string)
    requires ':' !in v1 && '\n' !in v1 && '\n' !in v2 && Trim(v1) != ""
    requires v2 != [] && !IsWhitespace(v2[|v2| - 1])
    ensures HeaderPlurals("Plural-Forms" + ":" + v1 + ":" + v2) == ParsePluralForms(Trim(v1))
  {
    PluralFormsKey();
    OneLineAsWritten("Plural-Forms", v1, v2);
  }

  /** The same header read as intended: the whole rule after the first colon is parsed. */
  lemma PluralFormsLineIntended(v1: string, v2: string)
    requires ':' !in v1 && '\n' !in v1 && '\n' !in v2
    requires v2 != [] && !IsWhitespace(v2[|v2| - 1])
    ensures HeaderPluralsIntended("Plural-Forms" + ":" + v1 + ":" + v2) == ParsePluralForms(Trim(v1 + ":" + v2))
  {
    PluralFormsKey();
    OneLineIntended("Plural-Forms", v1, v2);
  }

  lemma PluralFormsKey()
    ensures ':' !in "Plural-Forms" && '\n' !in "Plural-Forms" && Trim("Plural-Forms") == "Plural-Forms"
  {
    PluralFormsTrimmed();
  }

  lemma PluralFormsTrimmed()
    ensures Trim("Plural-Forms") == "Plural-Forms"
  {
    TrimTrimmed("Plural-Forms");
  }

  lemma OneLineAsWritten(key: string, v1: string, v2: string)
    requires key != "" && Trim(key) == key && ':' !in key && '\n' !in key
    requires ':' !in v1 && '\n' !in v1 && '\n' !in v2 && Trim(v1) != ""
    requires v2 != [] && !IsWhitespace(v2[|v2| - 1])
    ensures Fields(FieldAsWritten, Lines(key + ":" + v1 + ":" + v2)) == map[key := Trim(v1)]
  {
    var line := key + ":" + v1 + ":" + v2;
    OneLine(key, v1, v2);
    AsWrittenTruncates(key, v1, v2);
    FieldsOne(FieldAsWritten, line);
  }

  lemma OneLineIntended(key: string, v1: string, v2: string)
    requires key != "" && Trim(key) == key && ':' !in key && '\n' !in key
    requires ':' !in v1 && '\n' !in v1 && '\n' !in v2
    requires v2 != [] && !IsWhitespace(v2[|v2| - 1])
    ensures Fields(Field, Lines(key + ":" + v1 + ":" + v2)) == map[key := Trim(v1 + ":" + v2)]
  {
    var line := key + ":" + v1 + ":" + v2;
    OneLine(key, v1, v2);
    FieldKeepsConditional(key, v1, v2);
    TrimDropsNoColon(v1, v2);
    FieldsOne(Field, line);
  }

  /** `key:v1:v2` on one line, with nothing to trim at either end, is a single header line. */
  lemma OneLine(key: string, v1: string, v2: string)
    requires key != "" && Trim(key) == key && '\n' !in key && '\n' !in v1 && '\n' !in v2
    requires v2 != [] && !IsWhitespace(v2[|v2| - 1])
    ensures Lines(key + ":" + v1 + ":" + v2) == [key + ":" + v1 + ":" + v2]
  {
    var line := key + ":" + v1 + ":" + v2;
    assert line[0] == key[0] && line[|line| - 1] == v2[|v2| - 1];
    assert '\n' !in line;
    NoCharNoIndex(line, '\n');
    TrimTrimmed(line);
  }
}
