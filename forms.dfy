/**
 * Model of `csvimporter/forms.py`: the upload check, the column-mapping form, the
 * validation pass over the rows, and the import loop that assembles, transforms,
 * coerces and stores one record per row.
 *
 * The target model is given by its fields (`_meta.fields`) and by its `csvimporter`
 * settings: the `csv_associate` lookup and the optional `csv_validate` and
 * `csv_transform` hooks, all uninterpreted. Storing a record is a parameter that
 * answers with a primary key or an integrity error.
 */
module Forms {
  import opened Wrappers
  import opened Strings
  import opened Utils
  import Models

  // ---------------------------------------------------------------------------
  // The target model
  // ---------------------------------------------------------------------------

  /**
   * The class of a model field as the coercion tells them apart: exactly
   * `IntegerField`, exactly `FloatField`, or any other class, subclasses of those two
   * included.
   */
  datatype FieldClass = IntegerField | FloatField | OtherField(className: string)

  datatype Field = Field(name: string, fieldClass: FieldClass)

  /** `_meta.fields` of the target model, in declaration order. */
  type Schema = seq<Field>

  /** `[f.name for f in _meta.fields]`. */
  function FieldNames(schema: Schema): (names: seq<string>)
    ensures |names| == |schema|
    ensures forall i :: 0 <= i < |schema| ==> names[i] == schema[i].name
  {
    seq(|schema|, i requires 0 <= i < |schema| => schema[i].name)
  }

  /** `_meta.get_field(name)`: the field of that name, `None` for `FieldDoesNotExist`. */
  function GetField(schema: Schema, name: string): (f: Option<Field>)
    ensures f.Some? <==> name in FieldNames(schema)
    ensures f.Some? ==> f.value.name == name && f.value in schema
    decreases |schema|
  {
    if schema == [] then None
    else if schema[0].name == name then Some(schema[0])
    else
      assert FieldNames(schema) == [schema[0].name] + FieldNames(schema[1..]);
      GetField(schema[1..], name)
  }

  /** `csvimporter['csv_associate']`: the proposed field for a column, `None` when the lookup raises `KeyError`. */
  type Associate = string -> Option<string>

  /** `csvimporter.get('csv_validate')`: the per-row check, given a row and its line number. */
  datatype ValidateHook = Validator(check: (Row, nat) -> seq<string>) | NoValidator

  /** `csvimporter.get('csv_transform')`: the per-row rewrite (the request is folded into it). */
  datatype TransformHook = Transformer(rewrite: Row -> Row) | NoTransformer

  /** The `csvimporter` settings of the target model. */
  datatype ImportConfig = ImportConfig(associate: Associate, validate: ValidateHook, transform: TransformHook)

  // ---------------------------------------------------------------------------
  // CSVUploadForm.clean_csv_file
  // ---------------------------------------------------------------------------

  /** An uploaded file: its name and its content. */
  datatype UploadedFile = UploadedFile(name: string, content: string)

  const NoFileMessage: string := "No File selected."
  const WrongExtensionMessage: string := "Wrong File extension."
  const ParseFailureMessage: string := "Can't process file. Are you sure this is a csv file?"

  function UnknownFieldMessage(name: string): string {
    "CSV is invalid. Fieldname \"" + name + "\" is unknown."
  }

  /** The position of the first name `csv_associate` rejects, or `|names|` when it accepts them all. */
  function FirstUnknown(names: seq<string>, associate: Associate): (k: nat)
    ensures k <= |names|
    ensures forall j :: 0 <= j < k ==> associate(names[j]).Some?
    ensures k < |names| ==> associate(names[k]).None?
    decreases |names|
  {
    if names == [] || associate(names[0]).None? then 0
    else 1 + FirstUnknown(names[1..], associate)
  }

  /** The loop over the field names: the message for the first one `csv_associate` rejects, if any. */
  method CheckFieldnames(names: seq<string>, associate: Associate) returns (unknown: Option<string>)
    ensures var k := FirstUnknown(names, associate);
      unknown == if k == |names| then None else Some(UnknownFieldMessage(names[k]))
  {
    var i := 0;
    while i < |names|
      invariant 0 <= i <= |names|
      invariant forall j :: 0 <= j < i ==> associate(names[j]).Some?
    {
      if associate(names[i]).None? {
        return Some(UnknownFieldMessage(names[i]));
      }
      i := i + 1;
    }
    unknown := None;
  }

  /**
   * `clean_csv_file`: no file, then a name not ending in `.csv` (decided without
   * parsing), then an upload whose header cannot be read, then the first field name,
   * in header order, that `csv_associate` rejects; otherwise the file is accepted
   * unchanged. Only the header is read, so a later record that cannot be parsed does
   * not stop the upload.
   */
  method CleanCsvFile(file: Option<UploadedFile>, associate: Associate, parse: CsvParser,
                      category: CategoryTable)
    returns (r: Result<UploadedFile, string>)
    ensures file.None? ==> r == Failure(NoFileMessage)
    ensures file.Some? && !EndsWith(file.value.name, ".csv") ==> r == Failure(WrongExtensionMessage)
    ensures file.Some? && EndsWith(file.value.name, ".csv") &&
            ReaderOf(file.value.content, parse, category).None?
            ==> r == Failure(ParseFailureMessage)
    ensures file.Some? && EndsWith(file.value.name, ".csv") &&
            ReaderOf(file.value.content, parse, category).Some?
            ==> var names := ReaderOf(file.value.content, parse, category).value.fieldnames;
                var k := FirstUnknown(names, associate);
                r == if k == |names| then Success(file.value) else Failure(UnknownFieldMessage(names[k]))
  {
    if file.None? {
      return Failure(NoFileMessage);
    }
    if !EndsWith(file.value.name, ".csv") {
      return Failure(WrongExtensionMessage);
    }
    var reader := CreateCsvReader(file.value.content, parse, category);
    if reader.None? {
      return Failure(ParseFailureMessage);
    }
    var unknown := CheckFieldnames(reader.value.fieldnames, associate);
    if unknown.Some? {
      return Failure(unknown.value);
    }
    r := Success(file.value);
  }

  // ---------------------------------------------------------------------------
  // CSVImportForm.__init__: one choice field per column
  // ---------------------------------------------------------------------------

  /** One option of a choice field: its value (`None` for the empty choice) and its displayed text. */
  datatype Choice = Choice(value: Option<string>, display: string)

  /** A non-required choice field with its options and its pre-selected value. */
  datatype ChoiceField = ChoiceField(choices: seq<Choice>, initial: string)

  const NoneChoice: Choice := Choice(None, "---- (None)")

  /** `[(None, '---- (None)')] + [(f.name, f.name) for f in _meta.fields]`. */
  function BaseChoices(schema: Schema): (cs: seq<Choice>)
    ensures |cs| == |schema| + 1 && cs[0] == NoneChoice
    ensures forall i :: 0 <= i < |schema| ==> cs[i + 1] == Choice(Some(schema[i].name), schema[i].name)
  {
    [NoneChoice] + seq(|schema|, i requires 0 <= i < |schema| => Choice(Some(schema[i].name), schema[i].name))
  }

  /** The value a choice field can submit for `name`, if it offers one. */
  predicate Offers(f: ChoiceField, name: string) {
    exists k :: 0 <= k < |f.choices| && f.choices[k].value == Some(name)
  }

  /**
   * The field for a column whose proposed target is `mapped`: `mapped` is pre-selected
   * and can always be chosen; the options are the base list, plus one extra
   * `(mapped, mapped)` entry exactly when `mapped` is not a model field.
   */
  function MappingField(schema: Schema, mapped: string): (f: ChoiceField)
    ensures f.initial == mapped
    ensures Offers(f, mapped)
    ensures |f.choices| == if mapped in FieldNames(schema) then |schema| + 1 else |schema| + 2
    ensures f.choices[..|schema| + 1] == BaseChoices(schema)
    ensures mapped !in FieldNames(schema) ==> f.choices[|schema| + 1] == Choice(Some(mapped), mapped)
  {
    var base := BaseChoices(schema);
    if mapped in FieldNames(schema) then
      var i :| 0 <= i < |schema| && FieldNames(schema)[i] == mapped;
      assert base[i + 1].value == Some(mapped);
      ChoiceField(base, mapped)
    else
      var extended := base + [Choice(Some(mapped), mapped)];
      assert extended[|base|].value == Some(mapped);
      assert extended[..|schema| + 1] == base;
      ChoiceField(extended, mapped)
  }

  /**
   * `CSVImportForm.__init__`: one field per header name, proposed by `csv_associate`.
   * The lookup is not guarded here, so a name it rejects makes the form's construction
   * raise (`None`).
   */
  method InitMappingFields(fieldnames: seq<string>, schema: Schema, associate: Associate)
    returns (r: Option<map<string, ChoiceField>>)
    ensures r.None? <==> exists i :: 0 <= i < |fieldnames| && associate(fieldnames[i]).None?
    ensures r.Some? ==> forall n :: n in r.value <==> n in fieldnames
    ensures r.Some? ==> forall n :: n in r.value ==>
              associate(n).Some? && r.value[n] == MappingField(schema, associate(n).value)
  {
    var fields: map<string, ChoiceField> := map[];
    var i := 0;
    while i < |fieldnames|
      invariant 0 <= i <= |fieldnames|
      invariant forall j :: 0 <= j < i ==> associate(fieldnames[j]).Some?
      invariant forall n :: n in fields <==> n in fieldnames[..i]
      invariant forall n :: n in fields ==>
                  associate(n).Some? && fields[n] == MappingField(schema, associate(n).value)
    {
      var name := fieldnames[i];
      var mapped := associate(name);
      if mapped.None? {
        return None;
      }
      fields := fields[name := MappingField(schema, mapped.value)];
      assert fieldnames[..i + 1] == fieldnames[..i] + [name];
      i := i + 1;
    }
    assert fieldnames[..i] == fieldnames;
    r := Some(fields);
  }

  // ---------------------------------------------------------------------------
  // Assembling one row's data
  // ---------------------------------------------------------------------------

  /** `cleaned_data` names a target for every column, and the row has a cell for every column. */
  predicate Covers(fieldnames: seq<string>, chosen: map<string, string>, row: Row) {
    forall n :: n in fieldnames ==> n in chosen && n in row
  }

  /**
   * `data[cleaned_data[name]] = row[name]` for each column in header order, starting
   * from an empty dictionary.
   */
  function RowData(fieldnames: seq<string>, chosen: map<string, string>, row: Row): Row
    requires Covers(fieldnames, chosen, row)
    decreases |fieldnames|
  {
    if fieldnames == [] then map[]
    else
      var n := |fieldnames| - 1;
      CoversPrefix(fieldnames, chosen, row, n);
      RowData(fieldnames[..n], chosen, row)[chosen[fieldnames[n]] := row[fieldnames[n]]]
  }

  lemma CoversPrefix(fieldnames: seq<string>, chosen: map<string, string>, row: Row, n: nat)
    requires Covers(fieldnames, chosen, row) && n <= |fieldnames|
    ensures Covers(fieldnames[..n], chosen, row)
  {
    forall x | x in fieldnames[..n] ensures x in chosen && x in row {
      var i :| 0 <= i < n && fieldnames[..n][i] == x;
      assert fieldnames[i] == x;
    }
  }

  /** The row's data has a key for exactly the targets some column chose. */
  lemma {:induction false} RowDataKeys(fieldnames: seq<string>, chosen: map<string, string>, row: Row)
    requires Covers(fieldnames, chosen, row)
    ensures forall t :: t in RowData(fieldnames, chosen, row) <==>
              exists i :: 0 <= i < |fieldnames| && chosen[fieldnames[i]] == t
    decreases |fieldnames|
  {
    if fieldnames != [] {
      var n := |fieldnames| - 1;
      var prefix := fieldnames[..n];
      CoversPrefix(fieldnames, chosen, row, n);
      RowDataKeys(prefix, chosen, row);
      var d := RowData(fieldnames, chosen, row);
      assert d == RowData(prefix, chosen, row)[chosen[fieldnames[n]] := row[fieldnames[n]]];
      forall t ensures t in d <==> exists i :: 0 <= i < |fieldnames| && chosen[fieldnames[i]] == t {
        if t != chosen[fieldnames[n]] {
          if t in d {
            var i :| 0 <= i < |prefix| && chosen[prefix[i]] == t;
            assert prefix[i] == fieldnames[i];
          }
          if exists i :: 0 <= i < |fieldnames| && chosen[fieldnames[i]] == t {
            var i :| 0 <= i < |fieldnames| && chosen[fieldnames[i]] == t;
            assert prefix[i] == fieldnames[i];
          }
        }
      }
    }
  }

  /**
   * A column's cell ends up under its chosen target unless a later column chose the
   * same target: of several columns mapped to one field, the last one wins.
   */
  lemma {:induction false} RowDataLastWins(fieldnames: seq<string>, chosen: map<string, string>,
                                           row: Row, i: nat)
    requires Covers(fieldnames, chosen, row)
    requires i < |fieldnames|
    requires forall j :: i < j < |fieldnames| ==> chosen[fieldnames[j]] != chosen[fieldnames[i]]
    ensures chosen[fieldnames[i]] in RowData(fieldnames, chosen, row)
    ensures RowData(fieldnames, chosen, row)[chosen[fieldnames[i]]] == row[fieldnames[i]]
    decreases |fieldnames|
  {
    var n := |fieldnames| - 1;
    if i < n {
      var prefix := fieldnames[..n];
      CoversPrefix(fieldnames, chosen, row, n);
      assert prefix[i] == fieldnames[i];
      forall j | i < j < n ensures chosen[prefix[j]] != chosen[prefix[i]] {
        assert prefix[j] == fieldnames[j];
      }
      RowDataLastWins(prefix, chosen, row, i);
    }
  }

  /** The loop over the header that builds one row's data dictionary. */
  method AssembleRow(fieldnames: seq<string>, chosen: map<string, string>, row: Row)
    returns (data: Row)
    requires Covers(fieldnames, chosen, row)
    ensures data == RowData(fieldnames, chosen, row)
  {
    data := map[];
    for i := 0 to |fieldnames|
      invariant data == RowData(fieldnames[..i], chosen, row)
    {
      data := data[chosen[fieldnames[i]] := row[fieldnames[i]]];
      assert fieldnames[..i + 1][..i] == fieldnames[..i];
    }
    assert fieldnames[..|fieldnames|] == fieldnames;
  }

  /** The `i`-th row's data; the reader's rows have a cell for every field name. */
  function DataAt(reader: Reader, chosen: map<string, string>, i: nat): Row
    requires i < |reader.records|
    requires forall n :: n in reader.fieldnames ==> n in chosen
  {
    RowData(reader.fieldnames, chosen, reader.Row(i))
  }

  // ---------------------------------------------------------------------------
  // CSVImportForm.clean: the validation pass
  // ---------------------------------------------------------------------------

  /** What the validation hook reports for one row; without a hook, nothing. */
  function HookErrors(hook: ValidateHook, data: Row, line: nat): seq<string> {
    match hook
    case Validator(check) => check(data, line)
    case NoValidator => []
  }

  /** The hook's report on each row, in row order; the hook sees line numbers 1, 2, 3, … */
  function HookReports(reader: Reader, chosen: map<string, string>, hook: ValidateHook)
    : (reports: seq<seq<string>>)
    requires forall n :: n in reader.fieldnames ==> n in chosen
    ensures |reports| == |reader.records|
  {
    seq(|reader.records|, i requires 0 <= i < |reader.records| =>
          HookErrors(hook, DataAt(reader, chosen, i), i + 1))
  }

  lemma HookReportAt(reader: Reader, chosen: map<string, string>, hook: ValidateHook, i: nat)
    requires forall n :: n in reader.fieldnames ==> n in chosen
    requires i < |reader.records|
    ensures HookReports(reader, chosen, hook)[i] == HookErrors(hook, DataAt(reader, chosen, i), i + 1)
  {
  }

  /** The reports of the first `k` rows, one after the other (`errors.extend` per row). */
  function Collected(reports: seq<seq<string>>, k: nat): seq<string>
    requires k <= |reports|
    decreases k
  {
    if k == 0 then [] else Collected(reports, k - 1) + reports[k - 1]
  }

  /** Every error of every row, in row order. */
  function ValidationErrors(reader: Reader, chosen: map<string, string>, hook: ValidateHook): seq<string>
    requires forall n :: n in reader.fieldnames ==> n in chosen
  {
    Collected(HookReports(reader, chosen, hook), |reader.records|)
  }

  /** The pass collects nothing exactly when no row's report holds anything. */
  lemma {:induction false} NoErrorsIffEveryRowPasses(reports: seq<seq<string>>, k: nat)
    requires k <= |reports|
    ensures Collected(reports, k) == [] <==> forall i :: 0 <= i < k ==> reports[i] == []
    decreases k
  {
    if k > 0 {
      NoErrorsIffEveryRowPasses(reports, k - 1);
    }
  }

  /** Each row's errors come after those of every earlier row. */
  lemma {:induction false} ErrorsInRowOrder(reports: seq<seq<string>>, k: nat, m: nat)
    requires k <= m <= |reports|
    ensures Collected(reports, k) <= Collected(reports, m)
    decreases m - k
  {
    if k < m {
      ErrorsInRowOrder(reports, k, m - 1);
    }
  }

  /** Without a declared hook the pass accepts every upload. */
  lemma NoValidatorAcceptsAll(reader: Reader, chosen: map<string, string>)
    requires forall n :: n in reader.fieldnames ==> n in chosen
    ensures ValidationErrors(reader, chosen, NoValidator) == []
  {
    var reports := HookReports(reader, chosen, NoValidator);
    NoErrorsIffEveryRowPasses(reports, |reader.records|);
  }

  /** The distinct chosen targets in the order the data dictionary first receives them. */
  function TargetsInOrder(fieldnames: seq<string>, chosen: map<string, string>): (ts: seq<string>)
    requires forall n :: n in fieldnames ==> n in chosen
    ensures forall t :: t in ts <==> exists i :: 0 <= i < |fieldnames| && chosen[fieldnames[i]] == t
    ensures fieldnames != [] ==> ts != []
    decreases |fieldnames|
  {
    if fieldnames == [] then []
    else
      var n := |fieldnames| - 1;
      var prefix := fieldnames[..n];
      assert forall i :: 0 <= i < n ==> prefix[i] == fieldnames[i];
      var ts := TargetsInOrder(prefix, chosen);
      if chosen[fieldnames[n]] in ts then ts else ts + [chosen[fieldnames[n]]]
  }

  /**
   * What the hook contributes as written: the fallback `lambda d, i: d` returns the
   * data dictionary itself, and `errors.extend` appends its keys (listed here in
   * first-insertion order; only how many there are matters for the verdict).
   */
  function HookErrorsAsWritten(hook: ValidateHook, fieldnames: seq<string>,
                               chosen: map<string, string>, data: Row, line: nat): seq<string>
    requires forall n :: n in fieldnames ==> n in chosen
  {
    match hook
    case Validator(check) => check(data, line)
    case NoValidator => TargetsInOrder(fieldnames, chosen)
  }

  /** The as-written report on each row. */
  function HookReportsAsWritten(reader: Reader, chosen: map<string, string>, hook: ValidateHook)
    : (reports: seq<seq<string>>)
    requires forall n :: n in reader.fieldnames ==> n in chosen
    ensures |reports| == |reader.records|
  {
    seq(|reader.records|, i requires 0 <= i < |reader.records| =>
          HookErrorsAsWritten(hook, reader.fieldnames, chosen, DataAt(reader, chosen, i), i + 1))
  }

  /** The errors `clean` collects as written. */
  function ValidationErrorsAsWritten(reader: Reader, chosen: map<string, string>, hook: ValidateHook)
    : seq<string>
    requires forall n :: n in reader.fieldnames ==> n in chosen
  {
    Collected(HookReportsAsWritten(reader, chosen, hook), |reader.records|)
  }

  /**
   * As written, a model without `csv_validate` fails validation for every upload that
   * has a column and a row: the first row reports exactly the keys of its data
   * dictionary, so errors are collected. With the fallback reporting nothing, the same
   * upload passes.
   */
  lemma NoValidatorRejectsAsWritten(reader: Reader, chosen: map<string, string>)
    requires |reader.fieldnames| > 0 && |reader.records| > 0
    requires forall n :: n in reader.fieldnames ==> n in chosen
    ensures forall t :: t in HookReportsAsWritten(reader, chosen, NoValidator)[0] <==> t in DataAt(reader, chosen, 0)
    ensures ValidationErrorsAsWritten(reader, chosen, NoValidator) != []
    ensures ValidationErrors(reader, chosen, NoValidator) == []
  {
    var reports := HookReportsAsWritten(reader, chosen, NoValidator);
    assert reports[0] == TargetsInOrder(reader.fieldnames, chosen);
    RowDataKeys(reader.fieldnames, chosen, reader.Row(0));
    NoErrorsIffEveryRowPasses(reports, |reader.records|);
    NoValidatorAcceptsAll(reader, chosen);
  }

  /**
   * The form's verdict: valid, the collected errors, or the reader's `csv.Error`
   * escaping `clean` when a record cannot be parsed.
   */
  datatype Verdict = Valid | Invalid(errors: seq<string>) | ReadError

  /**
   * `clean`: hands every row, with line numbers 1, 2, 3, …, to the validation hook and
   * collects all errors in row order. A record the reader cannot parse ends the pass
   * with its error before any verdict; otherwise the form is invalid exactly when some
   * error was collected.
   */
  method Clean(reader: Reader, chosen: map<string, string>, hook: ValidateHook) returns (v: Verdict)
    requires forall n :: n in reader.fieldnames ==> n in chosen
    ensures v == ReadError <==> reader.broken
    ensures !reader.broken ==> (v == Valid <==> ValidationErrors(reader, chosen, hook) == [])
    ensures v.Invalid? ==> v.errors == ValidationErrors(reader, chosen, hook)
  {
    var errors := CollectErrors(reader, chosen, hook);
    if reader.broken {
      // the reader's `csv.Error` propagates out of `clean`
      return ReadError;
    }
    if |errors| > 0 {
      return Invalid(errors);
    }
    v := Valid;
  }

  /** The loop of `clean` over the rows: each row's data to the hook, `errors.extend` its report. */
  method CollectErrors(reader: Reader, chosen: map<string, string>, hook: ValidateHook)
    returns (errors: seq<string>)
    requires forall n :: n in reader.fieldnames ==> n in chosen
    ensures errors == ValidationErrors(reader, chosen, hook)
  {
    ghost var reports := HookReports(reader, chosen, hook);
    var line := 1;
    errors := [];
    var i := 0;
    while i < |reader.records|
      invariant 0 <= i <= |reader.records|
      invariant line == i + 1
      invariant errors == Collected(reports, i)
    {
      var data := AssembleRow(reader.fieldnames, chosen, reader.Row(i));
      var result := HookErrors(hook, data, line);
      HookReportAt(reader, chosen, hook, i);
      errors := errors + result;
      line := line + 1;
      i := i + 1;
    }
  }

  // ---------------------------------------------------------------------------
  // Coercion of one value
  // ---------------------------------------------------------------------------

  /** A non-empty string of spaces (the regular expression's ` +`). */
  predicate AllSpaces(s: string) {
    s != [] && forall i :: 0 <= i < |s| ==> s[i] == ' '
  }

  /**
   * `re.sub(r"^ +$", "", s)`: a string of spaces becomes empty. Python's `$` also
   * matches before a final newline, so spaces followed by one `\n` become that `\n`.
   * Any other string is unchanged.
   */
  function BlankToEmpty(s: string): (r: string)
    ensures r != s ==> AllSpaces(s) || (|s| >= 2 && s[|s| - 1] == '\n' && AllSpaces(s[..|s| - 1]))
    ensures AllSpaces(s) ==> r == ""
    ensures |s| >= 2 && s[|s| - 1] == '\n' && AllSpaces(s[..|s| - 1]) ==> r == "\n"
    ensures !AllSpaces(r)
  {
    if AllSpaces(s) then ""
    else if |s| >= 2 && s[|s| - 1] == '\n' && AllSpaces(s[..|s| - 1]) then
      assert "\n"[0] != ' ';
      "\n"
    else s
  }

  predicate IsNumeric(c: FieldClass) {
    c.IntegerField? || c.FloatField?
  }

  /**
   * The value `setattr` gives one field. Strings first have a blank value emptied;
   * then, for a field that is exactly an `IntegerField` or a `FloatField`, every
   * comma goes and an empty result becomes `None`. A numeric field holding anything
   * but a string makes `.replace` raise `AttributeError` (`None`).
   */
  function CoerceValue(field: Field, v: Value): (r: Option<Value>)
    ensures r.None? <==> IsNumeric(field.fieldClass) && !v.Str?
    ensures r.Some? && !IsNumeric(field.fieldClass) ==>
              r.value == if v.Str? then Str(BlankToEmpty(v.s)) else v
    ensures r.Some? && IsNumeric(field.fieldClass) ==>
              var t := BlankToEmpty(v.s);
              (r.value == Null <==> forall i :: 0 <= i < |t| ==> t[i] == ',') &&
              (r.value != Null ==> r.value == Str(RemoveAll(t, ",")) && ',' !in r.value.s &&
                                  multiset(r.value.s) == multiset(t)[',' := 0])
  {
    var cleaned := if v.Str? then Str(BlankToEmpty(v.s)) else v;
    if IsNumeric(field.fieldClass) then
      if cleaned.Str? then
        var t := cleaned.s;
        RemoveAllChar(t, ',');
        var digits := RemoveAll(t, ",");
        OnlyCommasIffNoneLeft(t);
        if digits == "" then Some(Null) else Some(Str(digits))
      else None
    else Some(cleaned)
  }

  /** A thousands separator goes and the digits keep their order: `"12,345"` is stored as `"12345"`. */
  lemma CoerceThousands(name: string)
    ensures CoerceValue(Field(name, IntegerField), Str("12,345")) == Some(Str("12345"))
  {
    assert "12,345"[0] == '1' && "12,345"[5] == '5';
    assert "12,345" == "12" + ("," + "345") && "12" + "345" == "12345";
    DropSeparator("12", "345");
  }

  /** One separator between comma-free digits goes, and the digits keep their order. */
  lemma DropSeparator(head: string, tail: string)
    requires ',' !in head && ',' !in tail
    ensures RemoveAll(head + ("," + tail), ",") == head + tail
  {
    RemoveAllCharAppend(head, "," + tail, ',');
    RemoveAllPrefix(",", tail);
    RemoveAllCharAbsent(head, ',');
    RemoveAllCharAbsent(tail, ',');
  }

  /** Taking the commas out leaves nothing exactly when there was nothing but commas. */
  lemma {:induction false} OnlyCommasIffNoneLeft(t: string)
    ensures RemoveAll(t, ",") == "" <==> forall i :: 0 <= i < |t| ==> t[i] == ','
    decreases |t|
  {
    if t != [] {
      OnlyCommasIffNoneLeft(t[1..]);
      assert forall i :: 1 <= i < |t| ==> t[i] == t[1..][i - 1];
      if t[0] == ',' {
        assert t[..1] == ",";
      } else {
        assert t[..1] != ",";
      }
    }
  }

  /** The coercion of `key` raises: it names a numeric field and holds no string. */
  predicate CoercionRaises(schema: Schema, data: Row, key: string)
    requires key in data
  {
    GetField(schema, key).Some? && CoerceValue(GetField(schema, key).value, data[key]).None?
  }

  /**
   * The object `save` builds from a row's data: every key naming a model field, with
   * its coerced value; keys that name no field are skipped. `None` when some coercion
   * raises.
   */
  function StoredObject(schema: Schema, data: Row): (obj: Option<Row>)
    ensures obj.None? <==> exists k :: k in data && CoercionRaises(schema, data, k)
    ensures obj.Some? ==> forall k :: k in obj.value <==> k in data && k in FieldNames(schema)
    ensures obj.Some? ==> forall k :: k in obj.value ==>
              Some(obj.value[k]) == CoerceValue(GetField(schema, k).value, data[k])
  {
    if exists k :: k in data && CoercionRaises(schema, data, k) then None
    else Some(map k | k in data && GetField(schema, k).Some? :: CoerceValue(GetField(schema, k).value, data[k]).value)
  }

  /**
   * The loop `for key in data.keys()` of `save`: the keys come in the dictionary's
   * own order, chosen freely here. Fails with the key whose coercion raises.
   */
  method BuildObject(schema: Schema, data: Row) returns (r: Result<Row, string>)
    ensures r.Success? <==> StoredObject(schema, data).Some?
    ensures r.Success? ==> r.value == StoredObject(schema, data).value
    ensures r.Failure? ==> r.error in data && CoercionRaises(schema, data, r.error)
  {
    var keys := data.Keys;
    var obj: Row := map[];
    while keys != {}
      invariant keys <= data.Keys
      invariant forall k :: k in data && k !in keys ==> !CoercionRaises(schema, data, k)
      invariant forall k :: k in obj <==> k in data && k !in keys && GetField(schema, k).Some?
      invariant forall k :: k in obj ==> Some(obj[k]) == CoerceValue(GetField(schema, k).value, data[k])
      decreases keys
    {
      var key :| key in keys;
      keys := keys - {key};
      var field := GetField(schema, key);
      if field.None? {
        // FieldDoesNotExist: the key is skipped
        continue;
      }
      var value := CoerceValue(field.value, data[key]);
      if value.None? {
        return Failure(key);
      }
      obj := obj[key := value.value];
    }
    r := Success(obj);
  }

  // ---------------------------------------------------------------------------
  // CSVImportForm.save: the import loop
  // ---------------------------------------------------------------------------

  /** `csv_transform` applied to one row's data; without a hook, the data unchanged. */
  function Transformed(hook: TransformHook, data: Row): Row {
    match hook
    case Transformer(rewrite) => rewrite(data)
    case NoTransformer => data
  }

  /** The answer of `new_obj.save()`: the new primary key, or an integrity error's text. */
  datatype SaveOutcome = Saved(pk: nat) | IntegrityError(message: string)

  /** The database: its answer to storing an object, given the objects this import stored before. */
  type Persist = (seq<Row>, Row) -> SaveOutcome

  /**
   * Why the loop stopped early: an integrity error that is no duplicate, a coercion
   * that raised, or a record the reader could not parse.
   */
  datatype ImportError = IntegrityFailure(message: string) | CoercionFailure | ReadFailure

  /**
   * What the loop meets at one step: a row's object to store, a row whose coercion
   * raises, or the record the reader cannot parse.
   */
  datatype Step = Store(obj: Row) | Uncoercible | Unparsable

  /** The loop's counters: `ok`, `dups`, the saved primary keys and the saved objects, in row order. */
  datatype Progress = Progress(ok: nat, dups: nat, pks: seq<nat>, stored: seq<Row>)

  /** Where the loop ended: its counters, how many rows it took up, and the error that ended it, if any. */
  datatype ImportResult = ImportResult(progress: Progress, processed: nat, error: Option<ImportError>)

  /** An integrity error counts as a duplicate when its text contains `unique`. */
  predicate IsDuplicate(message: string) {
    Contains(message, "unique")
  }

  /**
   * The steps of the loop: the object each row becomes, its data assembled,
   * transformed and coerced, in row order; then, when the reader breaks after its last
   * record, the record it cannot parse.
   */
  function RowObjects(schema: Schema, transform: TransformHook, reader: Reader, chosen: map<string, string>)
    : (objs: seq<Step>)
    requires forall n :: n in reader.fieldnames ==> n in chosen
    ensures |objs| == |reader.records| + if reader.broken then 1 else 0
    ensures forall i :: 0 <= i < |reader.records| ==> objs[i] == RowStep(schema, transform, reader, chosen, i)
    ensures reader.broken ==> objs[|reader.records|] == Unparsable
  {
    var n := |reader.records| + if reader.broken then 1 else 0;
    seq(n, i requires 0 <= i < n =>
          if i < |reader.records| then RowStep(schema, transform, reader, chosen, i) else Unparsable)
  }

  /** The step the `i`-th row becomes: its data assembled, transformed and coerced. */
  function RowStep(schema: Schema, transform: TransformHook, reader: Reader, chosen: map<string, string>,
                   i: nat): (step: Step)
    requires forall n :: n in reader.fieldnames ==> n in chosen
    requires i < |reader.records|
    ensures !step.Unparsable?
  {
    var obj := StoredObject(schema, Transformed(transform, DataAt(reader, chosen, i)));
    if obj.Some? then Store(obj.value) else Uncoercible
  }

  /** The import loop from row `i` on, over the rows' objects, with the counters reached so far. */
  function ImportFrom(objs: seq<Step>, persist: Persist, i: nat, p: Progress): (r: ImportResult)
    requires i <= |objs|
    ensures i <= r.processed <= |objs|
    ensures r.error.None? ==> r.processed == |objs|
    ensures r.error.Some? ==> r.processed > i
    decreases |objs| - i
  {
    if i == |objs| then ImportResult(p, i, None)
    else
      match objs[i]
      case Unparsable => ImportResult(p, i + 1, Some(ReadFailure))
      case Uncoercible => ImportResult(p, i + 1, Some(CoercionFailure))
      case Store(obj) =>
        match persist(p.stored, obj)
        case Saved(pk) =>
          ImportFrom(objs, persist, i + 1, Progress(p.ok + 1, p.dups, p.pks + [pk], p.stored + [obj]))
        case IntegrityError(message) =>
          if IsDuplicate(message) then ImportFrom(objs, persist, i + 1, p.(dups := p.dups + 1))
          else ImportResult(p, i + 1, Some(IntegrityFailure(message)))
  }

  /** One step of the import loop: what the row at `i` does to the counters. */
  lemma ImportFromStep(objs: seq<Step>, persist: Persist, i: nat, p: Progress)
    requires i < |objs|
    ensures objs[i] == Unparsable ==> ImportFrom(objs, persist, i, p) == ImportResult(p, i + 1, Some(ReadFailure))
    ensures objs[i] == Uncoercible ==> ImportFrom(objs, persist, i, p) == ImportResult(p, i + 1, Some(CoercionFailure))
    ensures objs[i].Store? && persist(p.stored, objs[i].obj).Saved? ==>
              var obj := objs[i].obj;
              var pk := persist(p.stored, obj).pk;
              ImportFrom(objs, persist, i, p)
                == ImportFrom(objs, persist, i + 1, Progress(p.ok + 1, p.dups, p.pks + [pk], p.stored + [obj]))
    ensures objs[i].Store? && persist(p.stored, objs[i].obj).IntegrityError? ==>
              var message := persist(p.stored, objs[i].obj).message;
              ImportFrom(objs, persist, i, p)
                == if IsDuplicate(message) then ImportFrom(objs, persist, i + 1, p.(dups := p.dups + 1))
                   else ImportResult(p, i + 1, Some(IntegrityFailure(message)))
  {
  }

  const Start: Progress := Progress(0, 0, [], [])

  /** The whole import loop, from the first row with all counters at zero. */
  function Import(schema: Schema, config: ImportConfig, reader: Reader, chosen: map<string, string>,
                  persist: Persist): ImportResult
    requires forall n :: n in reader.fieldnames ==> n in chosen
  {
    ImportFrom(RowObjects(schema, config.transform, reader, chosen), persist, 0, Start)
  }

  /**
   * The counters from row `i` on: `ok` is the number of keys saved, every processed
   * row is counted once, as saved, as a duplicate or as the one that aborted, and the
   * keys saved so far stay a prefix.
   */
  lemma {:induction false} ImportFromCounts(objs: seq<Step>, persist: Persist, i: nat, p: Progress)
    requires i <= |objs|
    requires p.ok == |p.pks|
    ensures var r := ImportFrom(objs, persist, i, p);
      r.progress.ok == |r.progress.pks| &&
      r.progress.ok + r.progress.dups + (if r.error.Some? then 1 else 0)
        == p.ok + p.dups + (r.processed - i) &&
      p.pks <= r.progress.pks &&
      (r.error.None? ==> forall j :: i <= j < |objs| ==> objs[j].Store?) &&
      (r.error.Some? ==> (r.error == Some(ReadFailure) <==> objs[r.processed - 1] == Unparsable))
    decreases |objs| - i
  {
    if i < |objs| && objs[i].Store? {
      var obj := objs[i].obj;
      match persist(p.stored, obj)
      case Saved(pk) =>
        var q := Progress(p.ok + 1, p.dups, p.pks + [pk], p.stored + [obj]);
        ImportFromCounts(objs, persist, i + 1, q);
        assert p.pks <= q.pks;
      case IntegrityError(message) =>
        if IsDuplicate(message) {
          ImportFromCounts(objs, persist, i + 1, p.(dups := p.dups + 1));
        }
    }
  }

  /**
   * `ok + dups` never exceeds the number of rows: without an error it equals it, and
   * the reader did not break; after an abort the failing step is counted in neither.
   * The import ends with the reader's error exactly when it got past every row.
   */
  lemma ImportCounts(schema: Schema, config: ImportConfig, reader: Reader,
                     chosen: map<string, string>, persist: Persist)
    requires forall n :: n in reader.fieldnames ==> n in chosen
    ensures var r := Import(schema, config, reader, chosen, persist);
      r.progress.ok == |r.progress.pks| &&
      r.progress.ok + r.progress.dups <= |reader.records| &&
      (r.error.None? ==> !reader.broken && r.progress.ok + r.progress.dups == |reader.records|) &&
      (r.error.Some? ==> r.progress.ok + r.progress.dups == r.processed - 1) &&
      (r.error.Some? ==> (r.error == Some(ReadFailure) <==> r.processed == |reader.records| + 1)) &&
      (r.error == Some(ReadFailure) ==> reader.broken)
  {
    var objs := RowObjects(schema, config.transform, reader, chosen);
    ImportFromCounts(objs, persist, 0, Start);
  }

  /** From row `i` on: after an abort, whatever follows the aborting row does not matter. */
  lemma {:induction false} AbortIgnoresLaterObjects(objs: seq<Step>, later: seq<Step>,
                                                    persist: Persist, i: nat, p: Progress)
    requires i <= |objs|
    requires ImportFrom(objs, persist, i, p).error.Some?
    ensures var r := ImportFrom(objs, persist, i, p);
      ImportFrom(objs[..r.processed] + later, persist, i, p) == r
    decreases |objs| - i
  {
    var r := ImportFrom(objs, persist, i, p);
    var other := objs[..r.processed] + later;
    assert other[i] == objs[i];
    if objs[i].Store? {
      var obj := objs[i].obj;
      match persist(p.stored, obj)
      case Saved(pk) =>
        AbortIgnoresLaterObjects(objs, later, persist, i + 1,
                                 Progress(p.ok + 1, p.dups, p.pks + [pk], p.stored + [obj]));
      case IntegrityError(message) =>
        if IsDuplicate(message) {
          AbortIgnoresLaterObjects(objs, later, persist, i + 1, p.(dups := p.dups + 1));
        }
    }
  }

  /** An abort other than the reader's error happens at one of the rows. */
  lemma RowAbortWithinRows(schema: Schema, config: ImportConfig, reader: Reader,
                           chosen: map<string, string>, persist: Persist)
    requires forall n :: n in reader.fieldnames ==> n in chosen
    ensures var r := Import(schema, config, reader, chosen, persist);
      r.error.Some? && r.error != Some(ReadFailure) ==> r.processed <= |reader.records|
  {
    ImportCounts(schema, config, reader, chosen, persist);
  }

  /**
   * Once a row aborts the import, no later row is taken up: replacing every row after
   * it, and whether the reader breaks after them, changes nothing in the result.
   */
  lemma AbortIgnoresLaterRows(schema: Schema, config: ImportConfig, reader: Reader,
                              later: seq<seq<string>>, laterBroken: bool, chosen: map<string, string>,
                              persist: Persist)
    requires forall n :: n in reader.fieldnames ==> n in chosen
    requires Import(schema, config, reader, chosen, persist).error.Some?
    ensures var r := Import(schema, config, reader, chosen, persist);
      r.error != Some(ReadFailure) ==>
        r.processed <= |reader.records| &&
        Import(schema, config, Reader(reader.fieldnames, reader.records[..r.processed] + later, laterBroken),
               chosen, persist) == r
  {
    var r := Import(schema, config, reader, chosen, persist);
    RowAbortWithinRows(schema, config, reader, chosen, persist);
    if r.error == Some(ReadFailure) {
      return;
    }
    var other := Reader(reader.fieldnames, reader.records[..r.processed] + later, laterBroken);
    var objs := RowObjects(schema, config.transform, reader, chosen);
    var otherObjs := RowObjects(schema, config.transform, other, chosen);
    forall i | 0 <= i < r.processed ensures otherObjs[i] == objs[i] {
      assert other.records[i] == reader.records[i];
      assert DataAt(other, chosen, i) == DataAt(reader, chosen, i);
      assert RowStep(schema, config.transform, other, chosen, i) == RowStep(schema, config.transform, reader, chosen, i);
    }
    assert otherObjs == objs[..r.processed] + otherObjs[r.processed..];
    AbortIgnoresLaterObjects(objs, otherObjs[r.processed..], persist, 0, Start);
  }

  /** An abort caused by the database is an integrity error whose text does not contain `unique`. */
  lemma {:induction false} AbortIsNoDuplicate(objs: seq<Step>, persist: Persist, i: nat, p: Progress)
    requires i <= |objs|
    ensures var r := ImportFrom(objs, persist, i, p);
      r.error.Some? && r.error.value.IntegrityFailure? ==> !IsDuplicate(r.error.value.message)
    decreases |objs| - i
  {
    if i < |objs| && objs[i].Store? {
      var obj := objs[i].obj;
      match persist(p.stored, obj)
      case Saved(pk) =>
        AbortIsNoDuplicate(objs, persist, i + 1, Progress(p.ok + 1, p.dups, p.pks + [pk], p.stored + [obj]));
      case IntegrityError(message) =>
        if IsDuplicate(message) {
          AbortIsNoDuplicate(objs, persist, i + 1, p.(dups := p.dups + 1));
        }
    }
  }

  // ---------------------------------------------------------------------------
  // The id list
  // ---------------------------------------------------------------------------

  /** `str(pk)` of each saved key, in row order. */
  function PkStrings(pks: seq<nat>): (ss: seq<string>)
    ensures |ss| == |pks|
    ensures forall i :: 0 <= i < |pks| ==> ss[i] == DecimalString(pks[i])
  {
    seq(|pks|, i requires 0 <= i < |pks| => DecimalString(pks[i]))
  }

  /** `result_id_list`: `None` while nothing was saved, else the keys joined by `,`. */
  function IdList(pks: seq<nat>): (r: Option<string>)
    ensures r.None? <==> pks == []
  {
    if pks == [] then None else Some(JoinComma(PkStrings(pks)))
  }

  /** Saving one more record extends the list by `,` and its key, or starts it. */
  lemma IdListAppend(pks: seq<nat>, pk: nat)
    ensures IdList(pks + [pk]) == if pks == [] then Some(DecimalString(pk))
                                  else Some(IdList(pks).value + "," + DecimalString(pk))
  {
    var ss := PkStrings(pks + [pk]);
    assert ss[..|ss| - 1] == PkStrings(pks);
  }

  /**
   * `result_id_list.split(',')` (the result view) gives back one piece per saved
   * record, in row order, each the decimal text of its key, which reads back as that key.
   */
  lemma IdListRoundTrip(pks: seq<nat>)
    requires pks != []
    ensures var pieces := SplitComma(IdList(pks).value);
      |pieces| == |pks| &&
      (forall i :: 0 <= i < |pks| ==> pieces[i] == DecimalString(pks[i])) &&
      (forall i :: 0 <= i < |pks| ==> ParseDecimal(pieces[i]) == pks[i])
  {
    var ss := PkStrings(pks);
    forall i | 0 <= i < |ss| ensures ',' !in ss[i] {
      assert ss[i] == DecimalString(pks[i]);
    }
    SplitJoin(ss);
    forall i | 0 <= i < |pks| ensures ParseDecimal(ss[i]) == pks[i] {
      ParseDecimalString(pks[i]);
    }
  }

  /**
   * The import's id list has exactly `ok` pieces, the saved keys in row order; there
   * is none exactly when nothing was saved.
   */
  lemma ImportIdList(schema: Schema, config: ImportConfig, reader: Reader,
                     chosen: map<string, string>, persist: Persist)
    requires forall n :: n in reader.fieldnames ==> n in chosen
    ensures var r := Import(schema, config, reader, chosen, persist);
      |r.progress.pks| == r.progress.ok &&
      (IdList(r.progress.pks).None? <==> r.progress.ok == 0) &&
      (r.progress.ok > 0 ==>
         var pieces := SplitComma(IdList(r.progress.pks).value);
         |pieces| == r.progress.ok &&
         forall i :: 0 <= i < r.progress.ok ==>
           pieces[i] == DecimalString(r.progress.pks[i]) && ParseDecimal(pieces[i]) == r.progress.pks[i])
  {
    var r := Import(schema, config, reader, chosen, persist);
    ImportCounts(schema, config, reader, chosen, persist);
    if r.progress.ok > 0 {
      IdListRoundTrip(r.progress.pks);
    }
  }

  /** Recording one saved key: the list starts with it, or grows by `,` and its decimal text. */
  method AppendId(resultIdList: Option<string>, ghost pks: seq<nat>, pk: nat) returns (next: Option<string>)
    requires resultIdList == IdList(pks)
    ensures next == IdList(pks + [pk])
  {
    IdListAppend(pks, pk);
    if resultIdList == None {
      next := Some(DecimalString(pk));
    } else {
      next := Some(resultIdList.value + "," + DecimalString(pk));
    }
  }

  /** One row of the loop: its data assembled, transformed and turned into the object to store. */
  method RowObject(schema: Schema, transform: TransformHook, reader: Reader, chosen: map<string, string>,
                   i: nat)
    returns (obj: Result<Row, string>)
    requires forall n :: n in reader.fieldnames ==> n in chosen
    requires i < |reader.records|
    ensures var expected := RowStep(schema, transform, reader, chosen, i);
      (obj.Success? <==> expected.Store?) && (obj.Success? ==> obj.value == expected.obj)
  {
    var data := AssembleRow(reader.fieldnames, chosen, reader.Row(i));
    data := Transformed(transform, data);
    obj := BuildObject(schema, data);
  }

  /**
   * Storing one object: a saved object counts as `ok` and adds its key to the id
   * list; an integrity error whose text mentions `unique` counts as a duplicate;
   * any other integrity error is the error that ends the import.
   */
  method StoreObject(persist: Persist, p: Progress, obj: Row, resultIdList: Option<string>)
    returns (next: Progress, error: Option<ImportError>, nextIdList: Option<string>)
    requires resultIdList == IdList(p.pks)
    ensures nextIdList == IdList(next.pks)
    ensures persist(p.stored, obj).Saved? ==>
              var pk := persist(p.stored, obj).pk;
              error.None? && next == Progress(p.ok + 1, p.dups, p.pks + [pk], p.stored + [obj])
    ensures persist(p.stored, obj).IntegrityError? ==>
              var message := persist(p.stored, obj).message;
              if IsDuplicate(message) then error.None? && next == p.(dups := p.dups + 1)
              else error == Some(IntegrityFailure(message)) && next == p
  {
    next, error, nextIdList := p, None, resultIdList;
    match persist(p.stored, obj) {
      case Saved(pk) =>
        nextIdList := AppendId(resultIdList, p.pks, pk);
        next := Progress(p.ok + 1, p.dups, p.pks + [pk], p.stored + [obj]);
      case IntegrityError(message) =>
        if IsDuplicate(message) {
          next := p.(dups := p.dups + 1);
        } else {
          // any other IntegrityError is re-raised
          error := Some(IntegrityFailure(message));
        }
    }
  }

  /**
   * The body of `save` up to the write-back: for each row, assemble, transform,
   * coerce and store, counting saved rows and duplicates and extending the id list;
   * stops at the first error that is no duplicate.
   */
  method ImportRows(schema: Schema, config: ImportConfig, reader: Reader, chosen: map<string, string>,
                    persist: Persist)
    returns (r: ImportResult, resultIdList: Option<string>)
    requires forall n :: n in reader.fieldnames ==> n in chosen
    ensures r == Import(schema, config, reader, chosen, persist)
    ensures resultIdList == IdList(r.progress.pks)
  {
    var p := Start;
    resultIdList := None;
    ghost var objs := RowObjects(schema, config.transform, reader, chosen);
    ghost var final := Import(schema, config, reader, chosen, persist);
    var i := 0;
    while i < |reader.records|
      invariant 0 <= i <= |reader.records|
      invariant ImportFrom(objs, persist, i, p) == final
      invariant resultIdList == IdList(p.pks)
    {
      var obj := RowObject(schema, config.transform, reader, chosen, i);
      ImportFromStep(objs, persist, i, p);
      if obj.Failure? {
        // AttributeError from `.replace` propagates out of `save`
        r := ImportResult(p, i + 1, Some(CoercionFailure));
        return;
      }
      var error;
      p, error, resultIdList := StoreObject(persist, p, obj.value, resultIdList);
      if error.Some? {
        r := ImportResult(p, i + 1, error);
        return;
      }
      i := i + 1;
    }
    if reader.broken {
      // the reader's `csv.Error` propagates out of `save`
      ImportFromStep(objs, persist, i, p);
      r := ImportResult(p, i + 1, Some(ReadFailure));
      return;
    }
    r := ImportResult(p, i, None);
  }

  /**
   * `save`: runs the import and, when no error escaped, writes the id list back onto
   * the uploaded file's record; an escaping error leaves the record as it was.
   */
  method Save(instance: Models.Csv, schema: Schema, config: ImportConfig, reader: Reader,
              chosen: map<string, string>, persist: Persist)
    returns (r: ImportResult)
    requires forall n :: n in reader.fieldnames ==> n in chosen
    modifies instance
    ensures r == Import(schema, config, reader, chosen, persist)
    ensures r.error.None? ==> instance.resultIdList == IdList(r.progress.pks)
    ensures r.error.Some? ==> instance.resultIdList == old(instance.resultIdList)
    ensures instance.fileName == old(instance.fileName)
  {
    var resultIdList;
    r, resultIdList := ImportRows(schema, config, reader, chosen, persist);
    if r.error.None? {
      instance.resultIdList := resultIdList;
    }
  }
}
