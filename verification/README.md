# jsontoexcel, modelled in Dafny

`jsontoexcel.py` converts JSON files into Excel workbooks. Each file's payload
is split into records: an object is one record, an array is a list of records.
Each record is flattened into a dictionary from key path to scalar value. The
first record's keys become the header line, and every record becomes one row.

This project models four parts of that program:

- `flatten_json`, the recursive flattener;
- the extraction of records and their projection onto the header line;
- the naming of the output workbook;
- the batch loop of `convert_to_excel`. This covers its skip, failure and
  success paths, its `progress` and `success_count` counters, and the final
  status.

Modules:

- `Wrappers`: `Option`.
- `JsonValue`: the JSON values `json.load` produces. Numbers are integers
  here.
- `Decimal`: `str(i)` for list indices, with its inverse.
- `OrderedDict`: Python's insertion-ordered `dict` as a sequence of entries.
  - `Insert` is `d[k] = v`: an existing key keeps its place.
  - `Update` is `dict.update`.
  - `Dedup` and `LastValue` describe what such a dictionary holds without
    saying how it was built.
- `FlattenJson`: `Flatten` follows the recursion of `flatten_json`. `Leaves`
  is the reference definition: the depth-first list of every scalar leaf with
  its path, repeats included. The central result is that `Flatten` equals the
  dictionary built from `Leaves`. So its keys are the leaf paths in order of
  first occurrence, and each key holds the value of its last leaf.
- `Table`: record extraction, the header line, rows padded with `""`, and
  the worksheet lines.
- `Batch`: the per-file decision chain, the loop with its counters, and the
  status report.

The file system, the JSON parser, the clock and the workbook writer are
parameters. A `Batch.FileInput` carries five things:

- the path;
- what the size query returned, or that it raised;
- the parse result (a payload, a `ValueError`, or another exception while
  reading);
- the time stamp used at line 96;
- whether writing the workbook raised.

## Model

| member | source | states |
|---|---|---|
| `Decimal.NatToString` | jsontoexcel.py:43 | `str(i)` of an index is a non-empty digit string with no leading zero, and it is `"0"` exactly for index 0 |
| `Decimal.ParseNatToString` | jsontoexcel.py:43 | reading the digits of `str(i)` back gives `i` |
| `Decimal.NatToStringInjective` | jsontoexcel.py:43 | distinct indices give distinct key segments |
| `OrderedDict.Lookup` | jsontoexcel.py:106 | `record.get(header)` finds a value exactly when the header is a key, and the value found belongs to an entry with that key |
| `OrderedDict.Insert` | jsontoexcel.py:38 | `d[k] = v` on an insertion-ordered dictionary; no contract of its own: `OrderedDict.InsertShape` and `OrderedDict.InsertLookup` state its keys and lookups |
| `OrderedDict.Update` | jsontoexcel.py:38 | `d.update(other)` as successive assignments; no contract of its own: `OrderedDict.UpdateShape`, `OrderedDict.UpdateLookup` and `OrderedDict.UpdateKeys` state what it returns |
| `OrderedDict.InsertShape` | jsontoexcel.py:38 | assigning a key keeps the key order when the key is present and appends it otherwise; every entry afterwards is an old entry or the new one |
| `OrderedDict.InsertLookup` | jsontoexcel.py:38 | after `d[k] = v`, `k` finds `v` and every other key finds what it found before |
| `OrderedDict.UpdateShape` | jsontoexcel.py:38 | `dict.update` keeps every old key, adds only entries from the argument, and keeps keys distinct |
| `OrderedDict.UpdateLookup` | jsontoexcel.py:38 | after `d.update(o)`, a key of `o` finds its last value in `o`; any other key finds its old value |
| `OrderedDict.UpdateKeys` | jsontoexcel.py:38 | after `d.update(o)`, the keys are those of `d` followed by the new keys of `o`, in order of first occurrence |
| `OrderedDict.DictAppend` | jsontoexcel.py:36-39 | merging the dictionaries of two entry lists equals the dictionary of the concatenated list |
| `OrderedDict.DictOfPairs` | jsontoexcel.py:36-39 | a dictionary built from an entry list has the list's keys, deduplicated in first-occurrence order; each key holds its last value |
| `OrderedDict.DedupKeepsLengthOnlyIfDistinct` | jsontoexcel.py:36-39 | building a dictionary loses no entry exactly when the keys are already distinct |
| `FlattenJson.MemberKey` | jsontoexcel.py:37 | the key of an object member: `parent + sep + name`, or the bare name under an empty parent; no contract of its own: `FlattenJson.ObjectKeys` and `FlattenJson.FlattenKeysExtendPrefix` state its effect on the keys |
| `FlattenJson.ElemKey` | jsontoexcel.py:43 | the key of array element `i`: `parent + sep + str(i)`; no contract of its own: `FlattenJson.ArrayKeys` and `FlattenJson.TopLevelArrayKeysStartWithSep` state its effect on the keys |
| `FlattenJson.Flatten` | jsontoexcel.py:33-47 | `flatten_json`; no contract of its own: `FlattenJson.FlattenIsDictOfLeaves`, `FlattenJson.FlattenContents` and `FlattenJson.FlattenWithoutCollisions` state what it returns |
| `FlattenJson.FlattenMembers` | jsontoexcel.py:34-39 | the dictionary branch: the first `n` members merged in order with `dict.update`; no contract of its own: `FlattenJson.MembersAreDictOfLeaves` states what it returns |
| `FlattenJson.FlattenElems` | jsontoexcel.py:40-45 | the list branch: the first `n` elements merged in order with `dict.update`; no contract of its own: `FlattenJson.ElemsAreDictOfLeaves` states what it returns |
| `FlattenJson.FlattenIsDictOfLeaves` | jsontoexcel.py:33-47 | the flattened dictionary equals the dictionary built from the depth-first leaf list |
| `FlattenJson.FlattenContents` | jsontoexcel.py:33-47 | the flattened dictionary's keys are exactly the leaf paths, each once, in first-occurrence order; each holds its last leaf's value; every value is a scalar; it is no longer than the leaf list |
| `FlattenJson.FlattenWithoutCollisions` | jsontoexcel.py:33-47 | flattening keeps every leaf exactly when the leaf paths are distinct, and then the dictionary is the leaf list itself |
| `FlattenJson.LeavesShape` | jsontoexcel.py:33-47 | every leaf is a scalar and its path extends the prefix; below an array, or an object with a non-empty prefix, it extends `prefix + sep` |
| `FlattenJson.FlattenKeysExtendPrefix` | jsontoexcel.py:37 | every key starts with the parent key; below an array, or below an object under a non-empty parent, it starts with `parent + sep` |
| `FlattenJson.TopLevelArrayKeysStartWithSep` | jsontoexcel.py:43 | the keys of a top-level array all start with the separator, because the empty parent key is still prefixed there |
| `FlattenJson.ObjectKeys` | jsontoexcel.py:34-39 | an object's keys are exactly the keys of its members, each flattened under `parent + sep + name`, or the bare name under an empty parent |
| `FlattenJson.ArrayKeys` | jsontoexcel.py:40-45 | an array's keys are exactly the keys of its elements, element `i` flattened under `parent + sep + str(i)` |
| `FlattenJson.FlattenBaseCases` | jsontoexcel.py:46-47 | a scalar flattens to the single entry `{parent: value}`; an empty object or array flattens to nothing |
| `FlattenJson.NestedExample` | jsontoexcel.py:33-47 | `{"a":{"b":1,"c":[2,3]}}` flattens to `a_b=1, a_c_0=2, a_c_1=3` |
| `FlattenJson.CollisionExample` | jsontoexcel.py:33-47 | `{"a_b":1,"a":{"b":2}}` flattens to the single entry `a_b=2` |
| `Table.Tabulate` | jsontoexcel.py:79-107 | a parsed payload to a rejection or a table; no contract of its own: `Table.TabulateOutcome`, `Table.TabulateHeaders`, `Table.TabulateCells` and `Table.TabulateDropsLaterKeys` state what it returns |
| `Table.FlattenAll` | jsontoexcel.py:91 | every record flattened with no parent key and `_`; no contract of its own: `Table.TabulateCells` states each record's cells through it |
| `Table.Project` | jsontoexcel.py:94-107 | the headers of the first flattened record and one row per record; no contract of its own: `Table.TabulateHeaders`, `Table.TabulateCells` and `Table.FirstRowIsFirstRecord` state what it returns |
| `Table.Cell` | jsontoexcel.py:106 | `record.get(header, '')`; no contract of its own: `Table.Row` and `Table.TabulateCells` state its value, and `Table.SparseRecordsExample` fixes the filler as `""` |
| `Table.Worksheet` | jsontoexcel.py:100-107 | the lines appended to the sheet: the headers, then the rows; no contract of its own: `Table.TabulatedSheet` and `Batch.ConvertedWorkbook` state its shape |
| `Table.ExtractRecords` | jsontoexcel.py:79-85 | a payload is rejected exactly when it is neither an object nor an array; an object is one record, an array is its elements |
| `Table.Row` | jsontoexcel.py:103-106 | a row has one cell per header: the record's own entry under that header, or `""` when the record lacks it |
| `Table.TabulateOutcome` | jsontoexcel.py:79-91 | scalar payloads are rejected for their shape; only the empty array has no records; an object gives one row and a non-empty array one row per element |
| `Table.TabulateHeaders` | jsontoexcel.py:91-94 | the headers are the distinct leaf paths of the first record, in first-occurrence order |
| `Table.TabulateCells` | jsontoexcel.py:91-107 | row `j` holds under header `h` the value of record `j`'s last leaf at path `h`, or `""` when it has none |
| `Table.FirstRowIsFirstRecord` | jsontoexcel.py:94-107 | the first row is the first record's flattened values in order, with no filler |
| `Table.RowOfOwnKeys` | jsontoexcel.py:102-107 | a record without repeated keys, projected on its own keys, gives its values in order |
| `Table.RowIgnoresOtherKeys` | jsontoexcel.py:102-107 | two records whose lookups agree under every header give the same row, so a row depends on a record only through its values under the headers |
| `Table.TabulateDropsLaterKeys` | jsontoexcel.py:91-107 | the headers are exactly the leaf paths of the first record; a path that only later records have is no header, so its values reach no cell |
| `Table.TabulatedSheet` | jsontoexcel.py:100-107 | the worksheet has one line more than there are records, the header line first, and every line has one cell per header |
| `Table.EmptyObjectExample` | jsontoexcel.py:79-107 | `{}` converts to an empty header line and one empty row |
| `Table.ScalarRecordsExample` | jsontoexcel.py:82-107 | `[1, 2]` converts to the header `""` and the rows `1` and `2` |
| `Table.SparseRecordsExample` | jsontoexcel.py:94-107 | `[{"a":1,"b":2},{"b":3,"c":4}]` gives the headers `a, b`, the rows `1, 2` and `"", 3`, and drops `c` |
| `Batch.DropLastFive` | jsontoexcel.py:96 | `path[:-5]` followed by the last five characters is the path; a path shorter than five characters gives `""` |
| `Batch.EndsWith` | jsontoexcel.py:59 | `str.endswith`; no contract of its own: `Batch.ConvertsExactly`, `Batch.CountedExactly` and `Batch.SkippedFileExample` state the suffix test's effect on the outcome |
| `Batch.OutputName` | jsontoexcel.py:96 | the workbook name ends in `.xlsx`; for a `.json` input it is the stamp's length plus one longer than the input |
| `Batch.OutputNameRoundTrip` | jsontoexcel.py:96 | given the stamp's length, the workbook name reads back to its input path and, through the underscore that precedes it, to the stamp |
| `Batch.OutputNameInjective` | jsontoexcel.py:96 | with equal-length stamps, two `.json` inputs give the same workbook name only for the same path and the same stamp |
| `Batch.OutputNameIsNotInput` | jsontoexcel.py:96 | a conversion never writes over its own input |
| `Batch.ConvertFile` | jsontoexcel.py:59-117 | a file stops the batch exactly when it has the `.json` suffix and its size cannot be read; a converted file's workbook name gives back the input path |
| `Batch.ConvertsExactly` | jsontoexcel.py:59-112 | a file is converted exactly when it meets all of these: `.json` suffix, non-zero size, parses to an object or non-empty array, saves without error |
| `Batch.ConvertedWorkbook` | jsontoexcel.py:91-109 | a converted file's workbook is named from the path; its first line holds the headers as strings, the rest are the table rows, and every line has one cell per header |
| `Batch.CountedExactly` | jsontoexcel.py:59-118 | a file fails (progress without success) exactly when it passed the suffix and size checks and then could not be read, or parsed to an object or non-empty array whose workbook could not be written. It is skipped by `continue` exactly when it has the wrong suffix, or a readable size and is then empty, malformed, a scalar or `[]`. Otherwise it reaches the progress update unless its size query raised |
| `Batch.Outputs` | jsontoexcel.py:109 | the workbooks saved, in file order; no contract of its own: `Batch.CountersStep` states how each file extends it and `Batch.RunBatch` returns it |
| `Batch.ReportOf` | jsontoexcel.py:123-131 | the final status from progress, total and successes; no contract of its own: `Batch.AllConvertedIff`, `Batch.FailedCountIncludesSkipped` and `Batch.EmptyBatchSucceeds` state what it reports |
| `Batch.RunBatch` | jsontoexcel.py:58-131 | the batch finishes exactly when no size query raises. It then reports the progress, total and failed counts of the reference definitions and the workbooks saved, in order. Otherwise it stops at the first such file, with the counts of the files before it |
| `Batch.Progress` | jsontoexcel.py:118 | the progress counter never exceeds the number of files |
| `Batch.Successes` | jsontoexcel.py:112 | the success counter never exceeds the number of files |
| `Batch.CountsPartition` | jsontoexcel.py:58-118 | every file of a finished batch is either skipped or counted: progress plus skips is the total, and successes never exceed progress |
| `Batch.SkippedAdvancesNothing` | jsontoexcel.py:59-89 | a file skipped by `continue` changes neither counter nor the saved workbooks |
| `Batch.CountersStep` | jsontoexcel.py:58-118 | one more file moves the progress by one exactly when it converted or failed, the successes by one exactly when it converted, and appends its workbook only then |
| `Batch.AllConvertedIff` | jsontoexcel.py:123-131 | the batch reports success exactly when every file was converted, and then the progress equals the number of files |
| `Batch.SuccessesAll` | jsontoexcel.py:112 | the success count equals the number of files exactly when every file was converted |
| `Batch.FailedCountIncludesSkipped` | jsontoexcel.py:123-130 | the reported failure count is the skipped files plus the files whose conversion raised |
| `Batch.EmptyBatchSucceeds` | jsontoexcel.py:123-127 | `convert_to_excel` called with no paths reports `0/0` and success |
| `Batch.SkippedFileExample` | jsontoexcel.py:59-62 | a single `data.txt` reports `0/1` completed and one failure |
| `Batch.EmptyEntryExample` | jsontoexcel.py:59-62 | the single path `""` that an emptied entry yields is skipped for its suffix, and the batch reports `0/1` and one failure |

## Left out

- The Tk interface (`browse_files`, the main window, buttons, message boxes, lines 134-236, apart from line 163 below) and `logging`, including the `logs` directory (lines 10-19). They only display or record what the model computes.
- How `handle_conversion` builds the path list (line 163): it splits the entry text on `", "`. So an emptied entry becomes the single path `""`, which fails the suffix test and reports `0/1` with one failure; the program never passes an empty list. The model takes the path list as given.
- `is_json` (lines 23-29): nothing in the conversion path calls it.
- Reading files, and `json.load` itself. The parse result is a parameter. A `ValueError` becomes `Malformed`; any other exception while opening or reading becomes `ReadFault`.
- JSON numbers are integers. The flattener never inspects values, so floats would behave the same.
- JSON objects are member lists. The model assumes distinct member names, as `json.load` produces them, because `json.load` keeps only the last value of a repeated name.
- openpyxl and `wb.save`: a workbook is modelled as its list of appended lines. Save errors and every other exception inside the `try` are one boolean per file. This includes Python's recursion limit in `flatten_json` and openpyxl rejecting a value. How openpyxl renders `None` or booleans in a cell is not modelled.
- Batch.Outputs: lists only workbooks of conversions that completed. Suppose `wb.save` succeeds but the size query on the new workbook (line 111) raises. The file then exists, but the model counts the conversion as failed and lists no workbook for it.
- `datetime.now().strftime(...)`: the stamp is a parameter per file. `Batch.OutputNameInjective` assumes equal stamp lengths, which the format gives for four-digit years.
- The progress-bar percentage (lines 119-121): it is computed in floating point. `Batch.Report` keeps the progress, total and failed counts that the status text prints; the wording of the text is not modelled.
- `flatten_json`'s `sep` parameter: the conversion always uses `_`. The flattening lemmas hold for any separator.
