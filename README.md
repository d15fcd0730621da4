# PyDataTool query engine and row codec, in Dafny

PyDataTool runs queries over a delimited text file whose first line is a header row.
A `DataTool` object is built over such a file. It indexes the header names by column position.
It offers two operations:

- `query` selects some fields of the rows that satisfy a list of where-clauses (combined by `all` or
  `any`) and writes them to an output file, one CSV line per matching row, after a header line.
- `statistics` tallies, for one field, the keys a search extracts from each row's value.

The row codec under it (`datatool/converter.py`) does three things:

- It indexes the header names.
- It decodes a line into a field-to-value map, with an arity check.
- It encodes a map back into a line with minimal quoting, and tags each value as `date`, `numeric` or
  `string`.

The Dafny project has these modules:

- `Errors` models the Python exceptions the core raises, the `Result`/`Option` wrappers, and an error
  variant per exception.
- `Text` covers the string built-ins the core uses: `strip`, `upper`, `rfind`, `<` on strings, `join`,
  and dict-key order.
- `CsvLine` is a quote-aware line reader and a minimal-quoting writer in the manner of the `csv`
  module. A round-trip lemma proves the reader inverts the writer.
- `Converter` is `get_data_format_rules`, `get_indexes`, `convert_to_dict`, `convert_to_string` and
  `convert_to_types`.
- `Conditions` is the `CONDITIONS` table. It has eight named predicates over a value that is a string
  or a date.
- `Engine` holds:
  - clause normalisation, `__validate_query`, and the per-row evaluation of `__process_query`;
  - the `DataTool` class;
  - the two functions that specify its methods: `Scan` is the loop of `query` over the data lines, and
    `Extracted` is the key sequence `statistics` counts.

The `DataTool` class works as follows:

- Its field `validated` models `__process_line` rebinding itself to `__process_query`.
- The first line an object processes has its clauses validated. Every later line, including the lines
  of later queries on the same object, skips validation (`Engine.UnknownConditionReported`).
- `Query` is proved against `Scan`. The lines it writes are the header line followed by the lines
  `Scan` yields, and `records` is their number.
- `Statistics` is proved to hold an exact tally of `Extracted`.

Some behaviours of the code are modelled as written:

- `query` normalises the caller's clauses in place before checking any field. The normalised clauses
  are an out-parameter of `Query`. Normalising twice is the same as normalising once
  (`Engine.NormalizeSpec`).
- The output header line is written before the first data line is read. Each matching row is then
  written as soon as it is found. There is no buffering and no header written at the end. If a later
  line raises, the lines already written stay in the output.
- GREATER and LESS compare the strings as decoded, even though validation demands a field typed
  numeric. So "9" is GREATER than "10" (`Conditions.GreaterIsLexicographic`).
- A value that is a date against a clause value that is a string (or the other way round) makes the
  ordering conditions raise TypeError. CONTAINS on a date raises AttributeError.
- Every BEFORE/AFTER clause converts the row's field with the date parser, in the row itself. A second
  such clause on the same field hands the parser a date, which it refuses with TypeError. The engine,
  the `DataTool` methods and the scan all use this conversion as written (`Engine.ParseFieldAsWritten`).
  The conversion as evidently intended (`Engine.ParseField`, `Engine.EvaluateIntended`) is modelled
  beside it, and the date-range query is proved to work there (see Findings).
- An unknown condition raises a ValueError whose message, as built, names no condition. The
  validator uses that message; the intended one is modelled beside it.
- `get_indexes` pairs the tokens with `range(0, len(data))`. An index therefore never has more
  entries than the header line has characters. A repeated header name keeps its last position.

Some things outside core Python are parameters:

- The date parser (`dateutil.parser.parse`, giving a date as an integer ordinal or a refusal).
- `float()` acceptance.
- `str()` of a date.
- The file system, as a map from existing paths to their lines.
- The regex search of `statistics`, as an `extract` function from a value to an optional key.

## Model

| member | source | states |
|---|---|---|
| Text.Strip | datatool/converter.py:48 | the result has no whitespace at either end, is what is left of the input once only whitespace is cut from its ends, and equals the input when that is already stripped |
| Text.StripKeepsInner | datatool/converter.py:108 | stripping a line keeps every piece of it that neither starts nor ends with whitespace |
| Text.Upper | datatool/datatool.py:222 | same length, no lower-case ASCII letter left, each character upper-cased in place |
| Text.RFind | datatool/datatool.py:11-13 | -1 exactly when the needle occurs nowhere; otherwise the last position where it occurs |
| Text.LexLessIrreflexive | datatool/datatool.py:20-22 | no string is below itself in Python's string order |
| Text.LexLessAsymmetric | datatool/datatool.py:17-22 | two strings are never each below the other |
| Text.LexLessTotal | datatool/datatool.py:17-22 | of two different strings one is below the other |
| Text.Join | datatool/datatool.py:243 | joining no names gives the empty string; a join starts with its first part |
| Text.JoinContains | datatool/datatool.py:243 | every field name occurs in the joined header line |
| Text.Dedup | datatool/datatool.py:254 | the keys of the projected dict: the same names as the requested fields, without repeats, never more of them |
| Text.DedupOrder | datatool/datatool.py:254 | the keys come in the order of their first mention among the requested fields |
| CsvLine.StripEol | datatool/converter.py:67-71 | a line ending in a line break is the result followed by that one break; any other line is the result itself |
| CsvLine.Tokenize | datatool/converter.py:67-71 | a line that is empty after its line break yields no tokens, any other at least one |
| CsvLine.EncodeField | datatool/converter.py:101-107 | a value holding the delimiter, the quote or a line break is enclosed in quotes; any other is written unchanged |
| CsvLine.ReadFields | datatool/converter.py:67-71 | reading written fields from a field boundary yields exactly those values, in order |
| CsvLine.RoundTrip | datatool/converter.py:100-107 | tokenizing a written row gives back its values, whatever delimiters, quotes or line breaks they hold |
| Converter.FormatRules | datatool/converter.py:7-36 | only AttributeError; text data passes exactly when it and the header index are non-empty, dict data exactly when it has an item |
| Converter.IndexPrefixSpec | datatool/converter.py:47-52 | a name is a key exactly when it is one of the names, mapped to a position holding it, with no later position holding it |
| Converter.GetIndexes | datatool/converter.py:39-53 | the empty header line gives the empty index |
| Converter.GetIndexesSpec | datatool/converter.py:39-53 | each stripped header token paired with a position is a key, mapped to the last such position; nothing else is a key |
| Converter.IndexOfDistinct | datatool/converter.py:47-52 | with distinct names each name maps to its own position and the index has one entry per name |
| Converter.PyIndex | datatool/converter.py:87 | a list index is valid exactly in -n..n-1; a non-negative valid one is itself; the element position is in range |
| Converter.Decode | datatool/converter.py:56-88 | AttributeError exactly for an empty line or index; on success the keys are the headers; the only errors are AttributeError, ValueError and IndexError |
| Converter.DecodeSpec | datatool/converter.py:56-88 | AttributeError exactly for an empty line or index; otherwise ValueError exactly when the token and header counts differ; on success the keys are the headers and each value is the stripped token at its header's index |
| Converter.DecodeWellFormed | datatool/converter.py:67-88 | a non-empty line with one token per header and all positions in range decodes to the picked row |
| Converter.ConvertToDict | datatool/converter.py:56-88 | the dictionary built header by header is the decoded row, or the error decoding raises |
| Converter.FillRow | datatool/converter.py:85-88 | the loop fills the picked row, or fails with IndexError exactly when some header position is outside the values |
| Converter.ConvertToString | datatool/converter.py:91-108 | AttributeError exactly for an empty dict; otherwise the values in dict order written as one minimally quoted row, stripped |
| Converter.WrittenRowIsStripped | datatool/converter.py:108 | for values without surrounding whitespace and a non-whitespace delimiter and quote, the final strip changes nothing |
| Converter.WriteFieldsContains | datatool/converter.py:107 | every value occurs on the written row as the writer encodes it |
| Converter.ConvertToStringEncloses | datatool/converter.py:91-108 | for any delimiter and a quote character that is not whitespace, a value with no whitespace at its ends occurs on the returned line, enclosed in quotes exactly when it holds the delimiter, the quote or a line break (the other values need not be stripped) |
| Converter.EncodeThenDecode | datatool/converter.py:56-108 | encoding a row and decoding it against the index of its own distinct field names gives the row back |
| Converter.TagOf | datatool/converter.py:119-128 | date exactly when the date parser accepts the value, numeric exactly when it refuses and float() accepts, string otherwise |
| Converter.ConvertToTypes | datatool/converter.py:111-129 | the type map has the row's keys and the tag of each value |
| Conditions.Lookup | datatool/datatool.py:10-35 | a name selects a condition exactly when it is one of the eight keys, and then the condition of that name |
| Conditions.LookupName | datatool/datatool.py:10-35 | every condition is found under its own name |
| Conditions.AsWrittenMessageNamesNoCondition | datatool/datatool.py:166-171 | the unknown-condition message as built names no condition |
| Conditions.MessageNamesEveryCondition | datatool/datatool.py:166-171 | the message with its key list filled in names every condition |
| Conditions.Below | datatool/datatool.py:17-28 | Python's `<` on values raises TypeError exactly when one is a string and the other a date |
| Conditions.Apply | datatool/datatool.py:10-35 | a predicate raises exactly for CONTAINS with a date on either side (AttributeError for a date row value, TypeError otherwise) or for an ordering condition on a string and a date (TypeError); CONTAINS holds exactly when the clause value occurs in the row value; BETWEEN always holds |
| Conditions.ContainsIffSubstring | datatool/datatool.py:11-13 | CONTAINS holds exactly when the clause value is a substring of the row value |
| Conditions.NotNegatesEquals | datatool/datatool.py:14-34 | EQUALS never raises and NOT is its negation |
| Conditions.BetweenAlwaysTrue | datatool/datatool.py:29-31 | BETWEEN holds of every pair |
| Conditions.DateOrderIsValueOrder | datatool/datatool.py:17-28 | BEFORE coincides with LESS, AFTER with GREATER, and GREATER is LESS with the operands swapped |
| Conditions.OrderAsymmetric | datatool/datatool.py:17-22 | GREATER and LESS never both hold of one pair |
| Conditions.OrderTotalOnStrings | datatool/datatool.py:17-22 | on two different strings exactly one of GREATER and LESS holds |
| Conditions.GreaterIsLexicographic | datatool/datatool.py:17-19 | GREATER compares strings lexicographically: "9" is GREATER than "10" |
| Engine.Combine | datatool/datatool.py:148 | `all` holds exactly when every result does, `any` exactly when some result does |
| Engine.NormalizeSpec | datatool/datatool.py:221-227 | normalising keeps the field, upper-cases the condition, turns a parseable string value into its date and keeps any other value; it is idempotent |
| Engine.Validate | datatool/datatool.py:150-183 | a clause passes exactly when it is admissible; an unknown condition is a ValueError carrying the message as built (with no condition names) before any type rule; GREATER/LESS off a numeric field and BEFORE/AFTER off a date field raise their ConditionTypeError |
| Engine.ValidateEach | datatool/datatool.py:198-200 | passes exactly when every clause is admissible; otherwise the error of the first clause that is not |
| Engine.ParseFieldAsWritten | datatool/datatool.py:143-144 | the conversion as written: KeyError for a missing field, TypeError for a field already holding a date, ValueError for an unparseable string; on success only that field changes, to its parsed date |
| Engine.DateRangeAsWrittenFails | datatool/datatool.py:143-144 | converting a field a second time, as written, raises TypeError |
| Engine.ParseField | datatool/datatool.py:143-144 | the conversion as evidently intended: KeyError for a missing field, ValueError for an unparseable string, a date kept as it is; otherwise only that field changes, becoming a date |
| Engine.EvalClause | datatool/datatool.py:140-147 | a clause keeps the row's fields; a clause other than BEFORE/AFTER leaves the row unchanged and yields the table predicate's result or error; BEFORE/AFTER raise KeyError for a missing field, TypeError for a field already converted, ValueError for an unparseable one, and otherwise compare the parsed date with a date value (TypeError against a string value), leaving the date in the row |
| Engine.BeforeComparesDates | datatool/datatool.py:141-147 | BEFORE on a parseable field compares the parsed date with a date value, and raises TypeError against a string value |
| Engine.Evaluate | datatool/datatool.py:137-147 | one result per clause, and the row keeps its fields |
| Engine.EvaluateAppend | datatool/datatool.py:140-147 | evaluating one more clause continues from the results and the row the earlier clauses leave, or stops at the first error |
| Engine.EvaluateEach | datatool/datatool.py:140-147 | on success, result i is clause i evaluated (as written) on the row as the clauses before it left it |
| Engine.EvaluateFirstError | datatool/datatool.py:140-147 | an evaluation error is that of the first clause that fails, on the row as the clauses before it left it |
| Engine.EvaluatePlain | datatool/datatool.py:137-147 | without date clauses evaluation succeeds exactly when every predicate does, leaves the row alone and yields each clause's own result |
| Engine.DateRangeQueryAsWritten | datatool/datatool.py:140-147 | as written, AFTER one date and BEFORE another on the same field raise TypeError, whatever the dates |
| Engine.EvalClauseIntended | datatool/datatool.py:140-147 | the intended clause step differs from the written one only on a BEFORE/AFTER clause over a field already converted, where it takes the table predicate on the date as it stands |
| Engine.EvaluateIntended | datatool/datatool.py:137-147 | with the intended conversion: one result per clause, and the row keeps its fields |
| Engine.EvaluateIntendedAppend | datatool/datatool.py:140-147 | with the intended conversion, evaluating one more clause continues from what the earlier clauses leave |
| Engine.EvaluateIntendedEach | datatool/datatool.py:140-147 | with the intended conversion, on success result i is clause i on the row as the clauses before it left it |
| Engine.EvaluateIntendedFirstError | datatool/datatool.py:140-147 | with the intended conversion, an error is that of the first clause that fails |
| Engine.Process | datatool/datatool.py:123-148 | the error evaluation raises, or the row as evaluation leaves it (same fields) and, under `all`, whether every result holds, under `any`, whether one does |
| Engine.DateRangeQuery | datatool/datatool.py:140-147 | with the conversion as evidently intended, AFTER one date and BEFORE another on the same field compare the field's date once parsed |
| Engine.ProcessPlain | datatool/datatool.py:123-148 | without date clauses a row matches under `all` exactly when every clause holds, under `any` exactly when one does |
| Engine.EmptyWhere | datatool/datatool.py:148 | an empty where matches under `all` and does not under `any` |
| Engine.DataLines | datatool/datatool.py:244-245 | the data lines are the file's lines after the header line |
| Engine.Project | datatool/datatool.py:253-254 | KeyError exactly when a requested field is missing; otherwise one item per distinct field in order of first mention, with its displayed value |
| Engine.Emit | datatool/datatool.py:253-262 | KeyError when a requested field is missing, AttributeError for no fields; otherwise the projected fields written by `convert_to_string` with a comma and a double quote, then a line break |
| Engine.EmitShowsField | datatool/datatool.py:253-262 | every requested field of a written row occurs on its output line as the writer encodes its displayed value, quoted exactly when it holds a comma, a double quote or a line break |
| Engine.ScanLine | datatool/datatool.py:245-262 | a decoding error is raised as is; on the validating line a refused clause raises its error; otherwise an evaluation error is raised, an unmatched row gives nothing, and a matched row gives its output line or the error writing it raises; no error exactly when the line is clean |
| Engine.Scan | datatool/datatool.py:245-262 | never more lines written than data lines; no error exactly when every line's step succeeds; an error is that of the first line whose step fails |
| Engine.ScanWritesMatches | datatool/datatool.py:245-262 | every line written is the contribution of some data line, at most one per data line |
| Engine.MatchIndices | datatool/datatool.py:245-262 | the positions of the data lines that yield an output line: in range, strictly increasing, and every yielding line among them |
| Engine.ScanWritesMatchesInOrder | datatool/datatool.py:245-262 | a scan without error writes, as its j-th line, the output of the j-th yielding data line: exactly the matching lines' output, in input order |
| Engine.ScanCountsMatches | datatool/datatool.py:252-262 | a scan without error writes as many lines (and `records` counts as many) as there are data lines that yield one |
| Engine.ScanRaisesNothing | datatool/datatool.py:245-262 | a scan raises nothing exactly when every data line decodes, the first one validates when it is validated, every row is evaluated without error and every matching row is written without error |
| Engine.ScanWritesEvery | datatool/datatool.py:245-262 | when every data line yields an output line, all of them are written, in order, without error |
| Engine.ScanWritesNothing | datatool/datatool.py:245-262 | when no data line yields anything or fails, nothing is written |
| Engine.ScanLineValidated | datatool/datatool.py:185-202 | validation of a line whose clauses are admissible changes nothing about that line's outcome |
| Engine.ValidationAdmitsSameScan | datatool/datatool.py:185-202 | once the first line's clauses are admissible, a validating scan is a non-validating one |
| Engine.UnknownConditionReported | datatool/datatool.py:166-202 | an unknown condition is a ValueError carrying the message as built on an object that has not validated yet, and a KeyError on one that has |
| Engine.ScanLineNoClauses | datatool/datatool.py:245-262 | without clauses validation changes nothing, and under `any` a decodable line is never written |
| Engine.EmptyAllWritesEveryRow | datatool/datatool.py:237-262 | with no clauses under `all` every data line is written, in order |
| Engine.EmptyAnyWritesNothing | datatool/datatool.py:237-262 | with no clauses under `any` no data line is written |
| Engine.CountAppend | datatool/datatool.py:86-112 | the tally over a file split in two is the sum of the tallies of its parts |
| Engine.CountZero | datatool/datatool.py:109-112 | a key has no count exactly when no line yields it |
| Engine.TalliesStep | datatool/datatool.py:110-112 | counting one more line keeps the tally exact |
| Engine.DataTool.constructor | datatool/datatool.py:53-61 | the object holds the file name, dialect and header index, and has not validated yet |
| Engine.DataTool.Open | datatool/datatool.py:37-61 | AttributeError exactly for a path that does not exist; otherwise a fresh object whose index is built from the stripped first line |
| Engine.DataTool.ProcessQuery | datatool/datatool.py:123-148 | the result and the converted row are those of evaluating every clause in order with the conversion as written and reducing the results |
| Engine.DataTool.ProcessLine | datatool/datatool.py:185-202 | the first call validates every clause and raises the first refusal (an unknown condition with the message as built); the object is switched to not validating exactly when validation passed; the result is then what evaluation as written gives |
| Engine.DataTool.Query | datatool/datatool.py:204-264 | the normalised clauses; FieldHeaderError for a select field, then for a where field, that is not a header; otherwise the header line then the scan's lines are written, `records` counts them, and a scan error is raised |
| Engine.DataTool.ScanLines | datatool/datatool.py:241-262 | the lines written and the error met are those of the scan; the object ends validated exactly when it was or the first line validated |
| Engine.DataTool.QueryLine | datatool/datatool.py:245-262 | a line's contribution is that of the scan step, and a line that does not raise leaves the object validated |
| Engine.DataTool.Statistics | datatool/datatool.py:79-112 | the error extraction meets, or a map in which each key extracted is counted exactly once per line yielding it, and no other key appears |

## Left out

- The `%` return type of `statistics` is not modelled, because it uses floating-point division. Only the `#` tally is.
- The `top` and `return_type` parameters of `statistics` are left out: `top` is never read, and only `#` is modelled.
- `compare` is not defined in the core files, so it is not modelled.
- The compilation of the search regex, its TypeError, and the regex search with its group selection are the parameter `extract`.
- File I/O is left out:
  - The input file is a sequence of lines, with newlines kept.
  - The output file is the sequence `written` of lines.
  - Existence is membership in a map of paths.
  - The output's path (`outfile`) is only echoed in the result.
- `dateutil.parser.parse`, `float()` and `str()` of a datetime are foreign. They become the fields of `Foreign`, and dates become integer ordinals.
- Text.Upper: upper-cases ASCII letters only. Python's full Unicode case mapping, which can lengthen a string, is not modelled.
- CsvLine.Tokenize: follows the csv reader for the excel dialect on a single line. It does not model the errors the reader raises, or its treatment of line breaks inside an unquoted field.
- Python's `csv` writer puts `\r\n` after each row. The model writes the row without it, since the final strip removes it.
- Exception message texts and timestamps are left out. The errors carry their data (fields, headers, counts) instead. The unknown-condition message is the exception: it is carried as the validator builds it.
- kwargs handling is left out: a missing `filename` kwarg and the defaults for `terminator` and `encloser`. The model takes all three as arguments.
- Clause dicts missing a key are left out. A clause always has a field, a condition and a value.
- Terminator and encloser are single characters.
- Values other than strings and dates in clauses (numbers, None) are left out.
- Concurrency and files changing between reads are out of scope.

## Findings

| source | as written | input that shows it | evidently intended | confidence | as-written member | corrected member |
|---|---|---|---|---|---|---|
| datatool/datatool.py:167-171 | the ValueError message template has no replacement field, so the joined list of condition names is formatted into nothing | a clause with condition `matches` on an object that has not validated yet | the message lists the eight condition names | high; not executed | Conditions.AsWrittenMessageNamesNoCondition | Conditions.MessageNamesEveryCondition |
| datatool/datatool.py:143-144 | every BEFORE/AFTER clause parses the row's field again, and the second parse is given a datetime, which the date parser refuses with TypeError | where = [{field: `dob`, condition: `after`, value: `2000-01-01`}, {field: `dob`, condition: `before`, value: `2010-01-01`}] | a date range on one field compares the field's date, parsed once | medium (depends on the date parser refusing a datetime); not executed | Engine.DateRangeQueryAsWritten | Engine.DateRangeQuery |
