# django-csv-importer, modelled in Dafny

This project models the core of django-csv-importer, a Django application that imports
rows of an uploaded CSV file as records of a chosen model. The core has these parts:

- The upload form checks the file: a file must be given, its name must end in `.csv`,
  its header must parse, and every header name must be known to the model's
  `csv_associate` lookup.
- `create_csv_reader` prepares the upload before parsing. It deletes whitespace in
  front of commas on the header line. It also strips Unicode control and format
  characters from the field names.
- The mapping form offers one choice field per column, with the field that
  `csv_associate` proposes pre-selected.
- The validation pass hands each row, with its line number, to the model's
  `csv_validate` hook and collects every error.
- The import loop runs once per row:
  - It assembles the row's data under the chosen targets and applies `csv_transform`.
  - It coerces the values: blank strings are emptied. For an exact `IntegerField` or
    `FloatField`, commas are removed and an empty value becomes `None`.
  - It stores the object. A duplicate is an integrity error mentioning `unique`; it is
    counted and skipped. Any other error aborts the import.
  - It records the primary keys as a comma-joined id list on the upload's `CSV` record.
- The `CSV` record shows its file name without the upload directory.

The modules, one per source file plus two shared ones:

- `Wrappers` (`wrappers.dfy`): `Option` and `Result`.
- `Strings` (`strings.dfy`): the Python string operations the code uses. These are
  `in`, `endswith`, `replace(pat, '')`, the join built by repeated `+= "," + piece`,
  `split(',')` and `str(n)`.
- `Utils` (`utils.dfy`): `csvimporter/utils.py`.
- `Models` (`models.dfy`): `csvimporter/models.py`. `CSV` becomes the class `Csv`,
  because `save` writes its `result_id_list` in place.
- `Forms` (`forms.dfy`): `csvimporter/forms.py`.

Strings are sequences of code points. Things outside the core appear as parameters:
- the Unicode category table (`CategoryTable`);
- the CSV parser (`CsvParser`). It fails when the header cannot be read. Otherwise it
  gives the header, the records read before any error, and whether the next record
  raises;
- the model's fields (`Schema`) and its `csvimporter` settings (`ImportConfig`);
- the database's answer to storing an object (`Persist`).

Loops in the source are methods with loop invariants. Each method is proved equal to a
specification function, and the properties are lemmas about those functions. The import
works on the steps the rows turn into (`RowObjects`): each row's object, or its failed
coercion, then the unreadable record if the reader breaks. The model takes
`csv_transform` to be a total, pure function of the row's data, and coercion is pure.
Under that assumption, building every row's object up front gives the same result as
interleaving it with storing.

## Model

| member | source | states |
|---|---|---|
| Strings.EndsWith | csvimporter/forms.py:39 | Defines Python's `s.endswith(suffix)`: the last `len(suffix)` characters of `s` are `suffix`. |
| Strings.Contains | csvimporter/forms.py:136 | Defines Python's `pat in s`: `pat` occurs in `s` as a contiguous piece, at the front or somewhere after it. |
| Strings.RemoveAll | csvimporter/models.py:28 | `replace(pat, '')` deletes occurrences left to right. The result is never longer, and a string without `pat` is unchanged. |
| Strings.RemoveAllLength | csvimporter/models.py:28 | The result is shorter than the input by exactly one copy of `pat` per deleted occurrence. |
| Strings.RemoveAllChar | csvimporter/forms.py:124 | `replace(",", "")` leaves no comma. Every other character keeps its number of occurrences. |
| Strings.RemoveAllCharAppend | csvimporter/forms.py:124 | Deleting one character from `a + b` deletes it from `a`, then from `b`, so the kept characters stay in order. |
| Strings.RemoveAllCharAbsent | csvimporter/forms.py:124 | A string without the character is left unchanged. |
| Strings.RemoveAllAfterPrefix | csvimporter/models.py:28 | A name made of `pat` followed by a rest without `pat` loses exactly the leading `pat`. |
| Strings.JoinComma | csvimporter/forms.py:131-134 | Defines the id list's text: the first piece alone, then `"," + piece` appended for each later one. |
| Strings.SplitComma | csvimporter/views.py:108 | Defines Python's `s.split(',')`: the pieces between commas, in order. It is never an empty list. |
| Strings.SplitJoin | csvimporter/views.py:108 | Splitting at commas undoes the comma-join of pieces that contain no comma. |
| Strings.DecimalString | csvimporter/forms.py:132 | `str(pk)` is a non-empty string of decimal digits. |
| Strings.ParseDecimalString | csvimporter/forms.py:132 | Reading the decimal digits of `n` back gives `n`. |
| Utils.ControlChars | csvimporter/utils.py:12-14 | `control_chars` holds exactly the `Cc` and `Cf` characters below U+10000. |
| Utils.RemoveControlChars | csvimporter/utils.py:18-23 | The result is no longer than the input, has no character of the removal set, and keeps every other character of the input. |
| Utils.RemoveControlCharsAppend | csvimporter/utils.py:20-23 | Removal works character by character: removing from `a + b` is removing from `a`, then from `b`. |
| Utils.RemoveControlCharsCounts | csvimporter/utils.py:12-23 | Every removal-set character is gone and every other character keeps its count. A character at or above U+10000 is never removed. |
| Utils.RemoveControlCharsUnchanged | csvimporter/utils.py:20-23 | A string is returned unchanged exactly when none of its characters is in the removal set. |
| Utils.RemoveControlCharsIdempotent | csvimporter/utils.py:20-23 | Removing twice is removing once. |
| Utils.IsSpace | csvimporter/utils.py:29 | Defines the regular expression's `\s` on `str`: space, tab, newline, carriage return, vertical tab and form feed. |
| Utils.StripSpaceBeforeComma | csvimporter/utils.py:29 | The header fix never lengthens the line. |
| Utils.StripSpaceBeforeCommaShape | csvimporter/utils.py:29 | After the fix, no whitespace directly precedes a comma and only characters of the original remain. A non-empty line stays non-empty. Its first character is kept unless the line starts with whitespace before a comma. |
| Utils.StripSpaceBeforeCommaDeletesOnlySpaces | csvimporter/utils.py:29 | Only whitespace is deleted: with all whitespace removed, input and output are equal. |
| Utils.StripSpaceBeforeCommaFixed | csvimporter/utils.py:29 | A line with no whitespace directly before a comma is unchanged. |
| Utils.StripSpaceBeforeCommaIdempotent | csvimporter/utils.py:29 | Fixing twice is fixing once. |
| Utils.StripSpaceBeforeCommaSnoc | csvimporter/utils.py:27-29 | A final character that is not a comma, such as the line's `\n`, stays last and is not deleted. |
| Utils.RegexSubAgrees | csvimporter/utils.py:29 | The per-character definition equals the regex engine's left-to-right substitution of maximal `\s+` runs followed by a comma. |
| Utils.LineLength | csvimporter/utils.py:27 | A first line is non-empty and holds no `\n` except a final one. It ends in `\n` when more text follows. |
| Utils.ReadLines | csvimporter/utils.py:27 | `readlines()` gives no lines exactly for empty content. |
| Utils.ConcatReadLines | csvimporter/utils.py:27-33 | Joining the lines read gives the content back unchanged. |
| Utils.Concat | csvimporter/utils.py:33 | Defines `"".join(lines)`: the lines one after the other. |
| Utils.Prepared | csvimporter/utils.py:25-36 | `prepare_csv` fails (indexing the first line raises) exactly on empty content. |
| Utils.FixedLineShape | csvimporter/utils.py:29 | The fixed header line is still a single line, and it ends in `\n` when the original did. |
| Utils.PreparedLines | csvimporter/utils.py:25-36 | Only the header line changes: the prepared text's lines are the fixed header, then every later line unchanged and in order. |
| Utils.PrepareCsv | csvimporter/utils.py:25-36 | The method that reads lines, rewrites the first and joins them computes `Prepared`. |
| Utils.Zip | csvimporter/utils.py:40 | `dict(zip(names, cells))` has a key for exactly the names that are paired with a cell, up to the shorter list. |
| Utils.RowDict | csvimporter/utils.py:40 | A `DictReader` row has a key for exactly the field names, whether the record has fewer cells or more. |
| Utils.RowDictCells | csvimporter/utils.py:40 | A name not repeated later in the header holds its cell, or `None` when the record ends before it. |
| Utils.ZipLastWins | csvimporter/utils.py:40 | In `dict(zip(names, cells))`, a name paired with a cell and not paired again later holds that cell. |
| Utils.Reader.Row | csvimporter/utils.py:40 | Each row of the reader is keyed by exactly the reader's field names. |
| Utils.RowCells | csvimporter/utils.py:40 | In each row of the reader, a field name not repeated later holds the record's cell at its position, or `None` past the record's end. |
| Utils.CleanFieldnames | csvimporter/utils.py:41 | Defines `map(remove_control_chars, fieldnames)`: each header name cleaned, in header order. |
| Utils.ReaderOf | csvimporter/utils.py:38-41 | Defines `create_csv_reader`: prepare the text, read the header, then clean the field names. Fails when preparing or reading the header raises. |
| Utils.ReaderOfShape | csvimporter/utils.py:38-41 | There is no reader exactly when the content is empty or the header cannot be read. A record that cannot be parsed does not stop the reader from being created; the reader keeps the records before it and raises when iteration reaches it. Otherwise there is one field name per header name, in order, each with its control characters removed. No field name keeps a removal-set character. |
| Utils.CreateCsvReader | csvimporter/utils.py:38-41 | The method that prepares the text, reads the header and overwrites the field names computes `ReaderOf`. |
| Models.Csv.constructor | csvimporter/models.py:17 | A new upload has no id list. |
| Models.Csv.DirectoryText | csvimporter/models.py:28 | Defines the text `'%s/' % upload_to` that `filename` deletes. |
| Models.Csv.Filename | csvimporter/models.py:22-28 | The name shrinks by one copy of `upload_to + "/"` per occurrence removed. A name without it is unchanged, and a name that starts with it, where it does not occur again, loses exactly that prefix. |
| Models.FilenameRemovesEveryOccurrence | csvimporter/models.py:28 | Every occurrence is removed, not only a leading one: `csvimporter/a/csvimporter/b.csv` shows as `a/b.csv`. |
| Forms.GetField | csvimporter/forms.py:117-119 | `get_field` finds a field exactly when the name is among the model's field names, and the field it returns has that name. |
| Forms.UnknownFieldMessage | csvimporter/forms.py:53 | Defines the message for an unknown header name, with the name inside double quotes. |
| Forms.FirstUnknown | csvimporter/forms.py:47-53 | Gives the position of the first header name that `csv_associate` rejects: every earlier name is accepted. |
| Forms.CheckFieldnames | csvimporter/forms.py:47-53 | The loop reports the first header name that `csv_associate` rejects, or nothing when it accepts them all. |
| Forms.CleanCsvFile | csvimporter/forms.py:35-54 | Checks in order: no file; a wrong extension, decided without parsing; a header that cannot be read; then the first rejected header name, reported in the message. Otherwise the file is returned unchanged, even when a later record cannot be parsed. |
| Forms.BaseChoices | csvimporter/forms.py:70-71 | The options are the empty choice first, then one `(name, name)` entry per model field, in order. |
| Forms.MappingField | csvimporter/forms.py:74-82 | The proposed target is pre-selected and can always be chosen. One extra option `(mapped, mapped)` is added, last, exactly when it is not a model field, and the base options stay first. |
| Forms.InitMappingFields | csvimporter/forms.py:65-82 | The form fails exactly when `csv_associate` rejects some header name. Otherwise it has one field per header name, each built from that name's proposal. |
| Forms.RowData | csvimporter/forms.py:91-93 | Defines one row's data: starting empty, `data[chosen[name]] = row[name]` for each column in header order. `save` builds it the same way (csvimporter/forms.py:110-112). |
| Forms.RowDataKeys | csvimporter/forms.py:91-93 | A row's data has a key for exactly the targets chosen for some column. |
| Forms.RowDataLastWins | csvimporter/forms.py:91-93 | A column's cell ends up under its target unless a later column chose the same target, so the last column wins. |
| Forms.AssembleRow | csvimporter/forms.py:91-93 | The header loop computes `RowData`. |
| Forms.HookErrors | csvimporter/forms.py:85-95 | Defines what `errors.extend` receives for one row: the `csv_validate` hook's report, or nothing when there is no hook (the corrected fallback). |
| Forms.HookReports | csvimporter/forms.py:88-96 | There is one report per row, in row order, each made with line number `i + 1`. |
| Forms.ValidationErrors | csvimporter/forms.py:88-96 | Defines the errors `clean` collects: every row's report, one after another, in row order. |
| Forms.NoErrorsIffEveryRowPasses | csvimporter/forms.py:95-98 | No error is collected exactly when every row's report is empty. |
| Forms.ErrorsInRowOrder | csvimporter/forms.py:95 | The errors collected from earlier rows are a prefix of those from later rows. |
| Forms.NoValidatorAcceptsAll | csvimporter/forms.py:85 | With the corrected fallback, a model without `csv_validate` accepts every upload. |
| Forms.TargetsInOrder | csvimporter/forms.py:93-95 | The list holds exactly the chosen targets, and it is non-empty when there is a column. |
| Forms.HookErrorsAsWritten | csvimporter/forms.py:85-95 | Defines what `errors.extend` receives as written: the hook's report, or, without a hook, the keys of the data dictionary that `lambda d, i: d` returns. |
| Forms.HookReportsAsWritten | csvimporter/forms.py:85-96 | There is one as-written report per row, in row order, with line numbers from 1. |
| Forms.ValidationErrorsAsWritten | csvimporter/forms.py:85-96 | Defines the errors `clean` collects as written: the as-written reports, one after another, in row order. |
| Forms.NoValidatorRejectsAsWritten | csvimporter/forms.py:85-98 | As written, without `csv_validate` the first row reports exactly its data's keys, so any upload with a column and a row collects errors. The corrected pass collects none. |
| Forms.CollectErrors | csvimporter/forms.py:88-96 | The loop over the rows, with line numbers from 1, collects `ValidationErrors`: every row's report, in row order. |
| Forms.Clean | csvimporter/forms.py:84-100 | A reader that breaks on a record makes `clean` raise, whatever the rows reported. Otherwise the form is invalid exactly when the collected errors are non-empty, and it then carries all of them in row order. |
| Forms.BlankToEmpty | csvimporter/forms.py:122 | A string of spaces becomes empty. Spaces followed by one final `\n` become that `\n`. No other string changes, and no result is a string of spaces. |
| Forms.CoerceValue | csvimporter/forms.py:120-127 | Coercion raises exactly for a numeric field holding a non-string. A non-numeric field gets the blank-stripped string, or a non-string value as it is. A numeric field gets `None` exactly when the stripped text is only commas. Otherwise it gets that text with its commas deleted in order, so no comma remains and every other character keeps its count. |
| Forms.CoerceThousands | csvimporter/forms.py:120-127 | An `IntegerField` given `"12,345"` stores `"12345"`. |
| Forms.OnlyCommasIffNoneLeft | csvimporter/forms.py:124-126 | Removing commas leaves nothing exactly when the text was only commas. |
| Forms.StoredObject | csvimporter/forms.py:114-127 | The object fails exactly when some key's coercion raises. Otherwise it sets exactly the data keys that are model fields, each to its coerced value. |
| Forms.BuildObject | csvimporter/forms.py:114-127 | The loop over the keys, in any order, computes `StoredObject`. On failure it names a key whose coercion raises. |
| Forms.Transformed | csvimporter/forms.py:105-113 | Defines `transforms(request, data)`: the `csv_transform` hook's rewrite of the data, or the data unchanged without a hook. |
| Forms.RowStep | csvimporter/forms.py:110-127 | A row's step is never the unreadable record: it is the row's object, or a failed coercion. |
| Forms.RowObjects | csvimporter/forms.py:109-127 | There is one step per row, in row order, each the row's `RowStep`. When the reader breaks, a final unreadable-record step follows. |
| Forms.ImportFrom | csvimporter/forms.py:109-139 | The steps taken run from the starting one up to at most the last. A run without error takes every step. An error means at least the starting step was taken: a failed coercion, an unreadable record, or an integrity error that is not a duplicate. |
| Forms.Import | csvimporter/forms.py:106-139 | Defines the whole import: `ImportFrom` over every row's step, from the first, with `ok`, `dups` and the keys empty. |
| Forms.ImportFromCounts | csvimporter/forms.py:106-139 | `ok` equals the number of saved keys. Each step taken is counted once: saved, duplicate, or the aborting one. Earlier keys stay a prefix. A run without error met only storable objects. It ends with the reader's error exactly when its last step is the unreadable record. |
| Forms.ImportCounts | csvimporter/forms.py:106-139 | `ok + dups` never exceeds the row count. It equals the row count without an error, in which case the reader did not break. After an abort the failing row is excluded. The import ends with the reader's error exactly when it got past every row. |
| Forms.AbortIgnoresLaterObjects | csvimporter/forms.py:128-139 | After an abort, the objects beyond the aborting row do not affect the result. |
| Forms.AbortIgnoresLaterRows | csvimporter/forms.py:109-139 | After a row aborts the import, replacing every later row, and whether the reader breaks after them, changes nothing in the result. |
| Forms.AbortIsNoDuplicate | csvimporter/forms.py:135-139 | An abort caused by the database is an integrity error whose message does not contain `unique`. |
| Forms.IsDuplicate | csvimporter/forms.py:136 | Defines a duplicate: an integrity error whose text contains `unique`. |
| Forms.IdList | csvimporter/forms.py:108-134 | The id list is absent exactly when no record was saved. |
| Forms.IdListAppend | csvimporter/forms.py:131-134 | Each save starts the list with `str(pk)` or extends it by `,` and `str(pk)`. |
| Forms.AppendId | csvimporter/forms.py:131-134 | Extending the list built so far by one saved key gives the list of all keys saved, in order. |
| Forms.IdListRoundTrip | csvimporter/views.py:107-109 | Splitting the id list at commas gives one piece per saved record, in row order, each reading back as its key. |
| Forms.ImportIdList | csvimporter/forms.py:106-146 | The import's id list is absent exactly when `ok` is 0. Otherwise it splits into `ok` pieces that read back as the saved keys in order. |
| Forms.RowObject | csvimporter/forms.py:110-127 | One loop step's object agrees with `RowObjects`. |
| Forms.StoreObject | csvimporter/forms.py:128-139 | A saved object adds one to `ok`, appends its key to the keys, the object to the stored ones and the key to the id list; an integrity error mentioning `unique` adds one to `dups` and changes nothing else; any other integrity error is returned as the error, with the counters untouched. |
| Forms.ImportRows | csvimporter/forms.py:102-139 | The loop, including the reader's error after the last record, computes `Import`, and its id list equals `IdList` of the saved keys. |
| Forms.Save | csvimporter/forms.py:102-147 | Runs the import. When no error escapes it writes the id list onto the upload's record; an escaping error leaves the record unchanged. The file name never changes. |

## Left out

- Bytes and encodings: `remove_control_chars` decodes and re-encodes UTF-8. The model
  works on code points throughout, so decoding errors are not modelled.
- `unicodedata.category` is a parameter, not the Unicode database.
- `csv.DictReader`'s parsing is the parameter `CsvParser`. `create_csv_reader` reads
  only the header, so the bare `except:` in `clean_csv_file` sees only a header that
  cannot be read. A record that cannot be parsed raises later, while `clean` or `save`
  iterates the rows. Cells beyond the header go under the reader's `restkey`, which
  names no column; they are not modelled.
- The source's `clean` and `save` iterate `self.reader.rows`. The standard
  `csv.DictReader` defines no such attribute. The model reads it as the reader's
  records, read afresh by each pass.
- `CSVUploadForm.__init__` (the content-type field and its hidden widget) and the
  `content_type` and `created` fields of `CSV` are form and ORM plumbing. They are not
  modelled.
- `CSVImportForm.__init__` reading the reader and `model_class()` is given as
  parameters: the field names, the `Schema` and the `ImportConfig`.
- `cleaned_data` is a map from column to chosen target. The `request` passed to
  `csv_transform` is folded into the `Transformer` hook.
- `csv_transform` is a user hook that receives the request. It could have side effects
  or raise. The model takes it to be a total, pure function of the row's data.
- Forms.IdListRoundTrip: assumes integer primary keys (`Saved(pk: nat)`), as the
  result view's `id__in` lookup also does. A string primary key containing `,` would
  not survive the split in `csvimporter/views.py`, and the model does not cover it.
- The ORM: `new_obj.save()` is the parameter `Persist`. `setattr` is the map of coerced
  values, and `self.instance.save()` is the field update in `Forms.Save`.
- `force_unicode` is the identity on strings here.
- `messages.info` and `messages.warning`, the views, the URLs and the templates.
- `CSVImportForm.__init__` fills `self.fields` in header order. `Forms.InitMappingFields`
  returns a map, so the model does not keep the order of the form's fields. Only the
  rendered form depends on that order.
- The order of `data.keys()` is Python's dict order. `Forms.BuildObject` takes the keys
  in any order. Its result does not depend on the order, except for which failing key
  it reports.
- Integrity errors other than duplicates are re-raised. Rows saved before them stay in
  the database, which the model does not represent.
- The default column-name transform (lowercase, spaces to underscores) appears only in
  the project's description, not in the code. The code always calls `csv_associate`,
  and the model follows the code.
- Forms.Clean: the model uses the corrected fallback for a missing `csv_validate`
  (see Findings). The as-written fallback is modelled separately by
  `Forms.HookReportsAsWritten` and `Forms.ValidationErrorsAsWritten`.

## Findings

| source | as written | input that shows it | evidently intended | confidence | as-written member | corrected member |
|---|---|---|---|---|---|---|
| csvimporter/forms.py:85 | The fallback validator `lambda d, i: d` returns the row's data dictionary. `errors.extend` then adds its keys as errors. | A model without `csv_validate` and an upload with header `name` and one row: the first row reports the error `name`, so the form is invalid. | With no validator, no row reports an error and the upload is valid. | not executed | Forms.NoValidatorRejectsAsWritten | Forms.NoValidatorAcceptsAll |
