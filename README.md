# Chained Select Enhancer: the spreadsheet import and its presentation rules

This project models the core of the WordPress plugin *GF Chained Select
Enhancer*. The plugin extends the Gravity Forms Chained Selects add-on. The
model covers four parts of it:

- **The XLSX reader** (`XlsxParser`, class `XlsxReader`).
  - It decodes A1-style column letters into zero-based indexes.
  - It resolves each cell's text from its type tag.
  - It builds the shared string table, one entry per `si` item.
  - It assembles each worksheet row into a dense list of cell texts.
  - It reports the reader's error outcomes in the order the plugin checks them.
- **The import** (`ImportHandler`).
  - It creates one input per header cell. The input ids skip every multiple of ten.
  - A per-column distinct-value limiter runs before anything is built.
  - It folds the data rows into a tree of choices, one level per column. Siblings are unique by value.
  - It re-indexes the tree (`array_values_recursive`).
- **The presentation rules** (`Enhancer`).
  - The tree is flattened back into rows (`generate_combinations`).
  - A lone choice is preselected.
  - Selects are marked for auto-selection.
  - Hidden-column CSS is emitted, with its per-request dedupe set.
  - A script wrapper is placed before the form editor's script.
- **The hidden-column setting** (`HiddenColumns`).
  - The server reads three storage formats into one sorted list (`gfcse_get_hidden_columns`).
  - The form editor's helpers (`csvToArray`, `arrayToCsv`, `detectColumnCount`) are modelled.
  - So are the toggle-change handler and the field-settings loader (class `FieldEditor`).

`Pipeline` connects the import to the flattening. When the sanitiser is the
identity and the cells are already trimmed, every row that
`generate_combinations` produces from an imported tree is the list of
non-empty cells of some data row.

Where the plugin changes state in place, the model does too:

- The reader's shared string table is a field of `XlsxReader`.
- `static $css_added` is a field of `CssEnqueuer`.
- The editor's field properties and its `selected` set are fields of `FieldEditor`.

Each loop of the source is a method with invariants, proved against a function on values:

- the column-letter accumulator
- the padding `while`
- the row and `si` loops
- the moving `$parent` reference of the tree fold
- the input counter
- the limiter's nested loops with their early return
- `generate_combinations`
- the CSS loop

The files are `runtime.dfy` (PHP and JavaScript string and integer semantics), `choices.dfy`,
`xlsx_parser.dfy`, `import_handler.dfy`, `enhancer.dfy`, `hidden_columns.dfy`
and `pipeline.dfy`.

## Model

| member | source | states |
|---|---|---|
| Runtime.PhpIntvalExponent | includes/class-gf-chained-select-enhancer.php:328 | `intval` honours an exponent, with or without a fraction ("1e1" is 10, "1.5e3" is 1500), and an `e` without digits is no exponent ("1e" is 1) |
| Runtime.PhpIntvalTruncates | includes/class-gf-chained-select-enhancer.php:328 | `intval` skips leading white space, keeps the sign and truncates a fraction toward zero (" -2.9" is -2, ".5" is 0) |
| Runtime.PhpIntvalIgnoresRest | includes/class-xlsx-parser.php:199 | `intval` ignores what follows the numeric prefix ("12px" is 12) and reads a string without one as 0 |
| XlsxParser.ColumnNumberOfName | includes/class-xlsx-parser.php:240-247 | every column number from 1 has a letter name that decodes back to it under the base-26 accumulation |
| XlsxParser.ColumnNameOfNumber | includes/class-xlsx-parser.php:240-247 | every non-empty uppercase letter string decodes to a number of at least 1 whose name is that string, so letters and numbers are in bijection |
| XlsxParser.ColumnToIndex | includes/class-xlsx-parser.php:234-248 | the accumulator loop returns a non-negative index; the column named index+1 is the reference's leading capitals, or "A" when it has none |
| XlsxParser.ColumnIndexOneLetter | includes/class-xlsx-parser.php:237-247 | A1 is 0, Z1 is 25, and a reference without leading capitals ("7") is 0 |
| XlsxParser.ColumnIndexTwoLetters | includes/class-xlsx-parser.php:243-247 | AA is 26, AZ is 51, BA is 52 and AB is 27 |
| XlsxParser.SharedStringCell | includes/class-xlsx-parser.php:198-200 | a shared-string cell whose value is the index k reads entry k of the table, or '' when the table has no entry k |
| XlsxParser.CellValueSources | includes/class-xlsx-parser.php:196-224 | only a shared-string cell reads the shared-string table, and it yields one of its entries or ''; only an inline-string cell reads its `is/t` text; every other type depends on `v` alone; the cell's position plays no part; a boolean reads "TRUE" exactly when its value is "1" and "FALSE" exactly when it is not |
| XlsxParser.PlaceFacts | includes/class-xlsx-parser.php:155-159 | after padding and writing position k, the row is long enough for k, holds the value at k, and keeps every other old entry; new positions hold '' |
| XlsxParser.RowWidth | includes/class-xlsx-parser.php:149-160 | every cell's decoded index lies inside the assembled row, and the row's last position is the index of some cell, so its length is the largest index plus one |
| XlsxParser.RowContents | includes/class-xlsx-parser.php:149-160 | each position of the row holds the value of the last cell addressed to it, and '' when no cell was |
| XlsxParser.LastWriteBeyond | includes/class-xlsx-parser.php:149-160 | a position beyond every cell's index receives no write |
| XlsxParser.RowsOf | includes/class-xlsx-parser.php:145-163 | one output row per row element, in document order, each assembled from that element's cells |
| XlsxParser.XlsxReader.constructor | includes/class-xlsx-parser.php:24 | a new reader starts with an empty shared string table |
| XlsxParser.XlsxReader.LoadSharedStrings | includes/class-xlsx-parser.php:71-112 | a missing or unparsable part gives an empty table; otherwise exactly one entry per `si`, in order: its `t`, else its runs' texts concatenated, else '' |
| XlsxParser.XlsxReader.ParseSheet | includes/class-xlsx-parser.php:120-166 | unparsable XML gives `xml_parse_failed`; otherwise the rows of the sheet, with none for a sheet without `sheetData/row` |
| XlsxParser.XlsxReader.ParseRows | includes/class-xlsx-parser.php:145-163 | the row loop yields exactly the per-element rows |
| XlsxParser.XlsxReader.ParseRow | includes/class-xlsx-parser.php:146-160 | the cell loop yields the assembled row of that element |
| XlsxParser.XlsxReader.WriteCell | includes/class-xlsx-parser.php:155-159 | the padding `while` and the write give the padded row with position k set |
| XlsxParser.XlsxReader.ExtractAllRows | includes/class-xlsx-parser.php:34-63 | the errors in order: `no_zip_support`, `file_not_found`, `zip_open_failed`, `no_worksheet`, `xml_parse_failed`; the table is loaded, one entry per `si`, before the sheet is read; otherwise the sheet's rows |
| ImportHandler.KeyIndex | includes/class-import-handler.php:221 | the `isset` lookup finds the first slot of a level with the key, or none when no slot has it |
| ImportHandler.InsertStep | includes/class-import-handler.php:215-231 | taking one more cell of a row reuses the existing node under the cursor, or appends a node with text and value equal to the cell, unselected, without children |
| ImportHandler.InsertRow | includes/class-import-handler.php:208-233 | the walk with the moving `$parent` reference inserts exactly the row's path into the tree |
| ImportHandler.RowPathEmpty | includes/class-import-handler.php:203-213 | a row contributes no cell to the walk exactly when every cell is '', which is when the blank-row filter skips it |
| ImportHandler.BuildChoiceTree | includes/class-import-handler.php:199-234 | the loop over the data rows (header skipped) yields the fold of all their paths |
| ImportHandler.KeysInsert | includes/class-import-handler.php:221-230 | inserting a path adds its first cell to the top level only when absent, keeping first-appearance order |
| ImportHandler.ChildKeysInsert | includes/class-import-handler.php:215-231 | inserting a path changes only the levels along it, each gaining the next cell of the path if it lacks it |
| ImportHandler.ChildKeysBuild | includes/class-import-handler.php:199-234 | the children under any path are the distinct next cells of the rows through that path, in first-appearance order |
| ImportHandler.ChildOfBuild | includes/class-import-handler.php:199-234 | a value is a child under a path exactly when some row's path runs through that path and then that value |
| ImportHandler.PathsOfBuild | includes/class-import-handler.php:199-234 | a node exists at a path exactly when the path is a prefix of some row's path |
| ImportHandler.LeavesAreRows | includes/class-import-handler.php:199-234 | every node without children is the end of some row's path |
| ImportHandler.NothingBelowLeaf | includes/class-import-handler.php:199-234 | a row whose path passes through a node without children ends there |
| ImportHandler.InsertWellFormed | includes/class-import-handler.php:221-230 | inserting keeps each level unique by key with key, text and value equal and nothing selected |
| ImportHandler.BuildWellFormed | includes/class-import-handler.php:199-234 | the built tree has that shape at every level |
| ImportHandler.ArrayValuesRecursive | includes/class-import-handler.php:307-318 | re-indexing every level gives the value list of the keyed tree |
| ImportHandler.RekeyValues | includes/class-import-handler.php:307-318 | re-keying the re-indexed list by value gives the keyed tree back, so re-indexing loses and reorders nothing |
| ImportHandler.ValuesAt | includes/class-import-handler.php:309 | one choice per slot, in the same order |
| ImportHandler.ValuesWellFormed | includes/class-import-handler.php:307-318 | the re-indexed levels keep unique values, and each level's values are its keys in order |
| ImportHandler.CounterStep | includes/class-import-handler.php:185-195 | the counter, after passing over a multiple of ten, gives input k the suffix k + k/9 + 1 |
| ImportHandler.InputSuffixNotTen | includes/class-import-handler.php:187-189 | no input suffix is a multiple of ten |
| ImportHandler.InputSuffixMonotone | includes/class-import-handler.php:185-196 | suffixes strictly increase with the input's position |
| ImportHandler.InputSuffixOnto | includes/class-import-handler.php:185-196 | every positive number that is not a multiple of ten is some input's suffix |
| ImportHandler.HeaderInputsAt | includes/class-import-handler.php:186-194 | one input per header cell, the k-th made from cell k |
| ImportHandler.HeaderInputIds | includes/class-import-handler.php:185-196 | the inputs' suffixes strictly increase, none is a multiple of ten, and each label is the tag-stripped trimmed header cell |
| ImportHandler.HeaderInputIdsDense | includes/class-import-handler.php:185-196 | every suffix from 1 up to the last used that is not a multiple of ten is taken |
| ImportHandler.BuildInputs | includes/class-import-handler.php:185-196 | the counter loop yields exactly the header inputs |
| ImportHandler.LooseContainsMeaning | includes/class-import-handler.php:287 | `in_array` finds an item exactly when some stored value is loosely equal to it |
| ImportHandler.RowsGrow | includes/class-import-handler.php:269-295 | the per-column lists only grow from row to row |
| ImportHandler.ExceededStays | includes/class-import-handler.php:291-293 | a column over the limit at any point of the walk means the whole table exceeds it, so the early return is right |
| ImportHandler.RecordRow | includes/class-import-handler.php:282-294 | one row either absorbs its cells into the lists below the limit, or stops at the first column that goes over it |
| ImportHandler.IsChoiceLimitExceeded | includes/class-import-handler.php:263-298 | the loop returns true exactly when the table exceeds the limit |
| ImportHandler.SeenColumn | includes/class-import-handler.php:269-295 | each column's list holds loosely distinct values: exactly the values of that column in rows with a truthy cell |
| ImportHandler.ColumnCount | includes/class-import-handler.php:269-295 | each column's list is as long as the number of loosely distinct values in that column |
| ImportHandler.LimitMeaning | includes/class-import-handler.php:263-298 | the limit is exceeded exactly when some column below the header width holds more loosely distinct values than the limit ('' counts as one) |
| ImportHandler.LimitSkipsZeroRows | includes/class-import-handler.php:203-204 | the limiter skips a data row holding only "0" (no truthy cell), while the builder keeps it as a choice |
| ImportHandler.ImportRows | includes/class-import-handler.php:171-239 | fewer than two rows gives `insufficient_data`; then the limiter's `column_max_exceeded`; otherwise the inputs and the re-indexed tree |
| ImportHandler.ImportXlsxChoices | includes/class-import-handler.php:159-240 | every reader error is passed on unchanged, and the shared string table is untouched until the archive opens; once it opens, the table holds the text of each `si` of the shared-strings part (empty without a well-formed part), and a well-formed sheet gives the outcome of importing its rows read through that table |
| ImportHandler.ImportedShape | includes/class-import-handler.php:180-239 | a successful import has one input per header cell, and choices that are well formed, that re-key to the built tree, and whose top level holds the distinct first cells in first-appearance order |
| Enhancer.GenerateCombinations | includes/class-gf-chained-select-enhancer.php:503-520 | the recursion appends to the rows exactly the flattening of the choices below the current path |
| Enhancer.CombinationsCount | includes/class-gf-chained-select-enhancer.php:509-519 | exactly one row per leaf |
| Enhancer.CombinationsMembers | includes/class-gf-chained-select-enhancer.php:505-518 | a row is produced exactly when it extends the current path by the texts along a root-to-leaf walk, a missing text read as ''; an empty list produces nothing |
| Enhancer.ExpandMembers | includes/class-gf-chained-select-enhancer.php:510-518 | one choice produces its own path when it has no children, else the rows of its children |
| Enhancer.AutoSelectOnlyChoice | includes/class-gf-chained-select-enhancer.php:284-295 | the list keeps its length and every field but `isSelected`; a choice is selected exactly when it was, or when the field auto-selects and it is the only choice |
| Enhancer.AutoSelectIdempotent | includes/class-gf-chained-select-enhancer.php:284-295 | applying the rule twice is applying it once |
| Enhancer.AddAutoSelectProperty | includes/class-gf-chained-select-enhancer.php:265-274 | content is unchanged unless the field is a chained select with auto-select; then every `<select` of the result is followed by ` data-auto-select-only="true"`, and undoing the rewrite gives the original content back |
| Enhancer.EveryTagMarked | includes/class-gf-chained-select-enhancer.php:270 | after the rewrite, every `<select` in the text is the start of the marked tag |
| Enhancer.MarkRoundTrip | includes/class-gf-chained-select-enhancer.php:270 | replacing every `<select` with the marked tag and then every marked tag with `<select` restores the text |
| Enhancer.ReplaceAbsent | includes/class-gf-chained-select-enhancer.php:270 | text without `<select` is unchanged by the rewrite |
| Enhancer.FooterStyle | includes/class-gf-chained-select-enhancer.php:351-357 | a style block is printed exactly when there is at least one rule |
| Enhancer.FieldKeyInjective | includes/class-gf-chained-select-enhancer.php:319 | two fields share a dedupe key exactly when form id and field id both agree |
| Enhancer.HideRulesOfField | includes/class-gf-chained-select-enhancer.php:326-336 | every hide rule is for the field's own form and field |
| Enhancer.EditorSplit | assets/js/admin.js:128-139 | the editor's setting is '' exactly when nothing is hidden; otherwise it splits back into the indices' decimal renderings |
| Enhancer.HideRulesOfEditor | includes/class-gf-chained-select-enhancer.php:325-336 | under the corrected rule (the plugin as written differs for "0", see Findings), for the setting the editor writes, the k-th hidden index i gives the k-th rule, hiding container i+1 |
| Enhancer.HideIndexExponent | includes/class-gf-chained-select-enhancer.php:326-336 | a setting "1e1" is read by `intval` as 10 and hides container 11 |
| Enhancer.HideOnlyColumn | includes/class-gf-chained-select-enhancer.php:325-336 | under the corrected rule (the plugin as written differs for n = 0, see Findings), hiding the single column n hides exactly container n+1 |
| Enhancer.HideFirstColumnLost | includes/class-gf-chained-select-enhancer.php:325 | the editor stores "0" for the first column alone; the plugin's `!empty` test emits no rule for it, where container 1 should be hidden |
| Enhancer.HideRulesOfZero | includes/class-gf-chained-select-enhancer.php:325-336 | under the corrected rule, the setting "0" hides the first container |
| Enhancer.EditorStoresOnlyZero | assets/js/admin.js:128-145 | the editor writes "0" exactly when the first column alone is hidden |
| Enhancer.HideRulesAgree | includes/class-gf-chained-select-enhancer.php:325 | the rules as written agree with the intended rules exactly when the setting is not "0" |
| Enhancer.EditorRulesAsWritten | includes/class-gf-chained-select-enhancer.php:325 | of all the settings the editor writes, the plugin's rules differ from the corrected ones exactly for the one hiding only the first column |
| Enhancer.FieldRulesOfField | includes/class-gf-chained-select-enhancer.php:324-346 | a field's rules all name its form and field |
| Enhancer.FirstColumnPassLost | includes/class-gf-chained-select-enhancer.php:313-357 | a form whose one chained select hides only its first column gets no rule and no style block from the plugin, though the field is remembered as done |
| Enhancer.CssPassAdded | includes/class-gf-chained-select-enhancer.php:313-349 | after a pass the dedupe set is the old set plus the keys of all chained selects of the form |
| Enhancer.CssPassRemembered | includes/class-gf-chained-select-enhancer.php:320-322 | once every chained select's key is in the set, a pass emits nothing and leaves the set as it is |
| Enhancer.CssPassTwice | includes/class-gf-chained-select-enhancer.php:305-349 | the same form rendered twice in a request gets its rules once |
| Enhancer.CssPassFresh | includes/class-gf-chained-select-enhancer.php:313-349 | every emitted rule is for this form and for a chained select of it whose key was not yet in the set |
| Enhancer.CssEnqueuer.constructor | includes/class-gf-chained-select-enhancer.php:305 | the request starts with an empty dedupe set |
| Enhancer.CssEnqueuer.EnqueueFieldCss | includes/class-gf-chained-select-enhancer.php:303-360 | without a field list, nothing is emitted and the set is unchanged; otherwise the loop's rules and new set are those of a pass, with hide rules only for a setting that is not PHP-`empty` (so not for "0"), and the footer is printed exactly when a rule was emitted |
| Enhancer.AppendHideRules | includes/class-gf-chained-select-enhancer.php:325-337 | the inner loop appends nothing for a PHP-`empty` setting ('' or "0") and otherwise one hide rule per piece of the setting, in order |
| Enhancer.InjectXlsxPluploadScript | includes/class-gf-chained-select-enhancer.php:113-155 | every tag but the chained selects editor's is returned unchanged; that tag is preceded by the wrapper and a newline and is a suffix of the result |
| HiddenColumns.GetHiddenColumns | gf-chained-select-enhancer.php:225-239 | the result is strictly ascending and holds exactly the integers read from the storage the server picks: the array property whenever it is an array, even an empty one; else the CSV property if not PHP-`empty`; else the legacy CSV property |
| HiddenColumns.ArrayFirst | gf-chained-select-enhancer.php:228-229 | an array property wins, and its non-integer entries are dropped |
| HiddenColumns.CsvFallback | gf-chained-select-enhancer.php:230-236 | without the array, the CSV property and then the legacy one are read as `absint(trim(piece))`, so no column is negative; with neither, the list is empty |
| HiddenColumns.AbsintsMembers | gf-chained-select-enhancer.php:231 | the CSV yields exactly the `absint(trim(piece))` of its pieces, all non-negative integers |
| HiddenColumns.SortDistinct | gf-chained-select-enhancer.php:236-237 | the same integers, ascending |
| HiddenColumns.ParsedIntsMembers | gf-chained-select-enhancer.php:74 | the integers kept are exactly those some piece parses to |
| HiddenColumns.CsvToArrayMembers | gf-chained-select-enhancer.php:72-75 | a missing or empty text gives no columns; otherwise exactly the integers the comma-separated pieces parse to |
| HiddenColumns.CsvRoundTrip | gf-chained-select-enhancer.php:72-78 | reading back what `arrayToCsv` wrote gives the same list |
| HiddenColumns.CsvNormalises | gf-chained-select-enhancer.php:72-78 | one read-write pass normalises the CSV: a second changes nothing |
| HiddenColumns.DetectColumnCountSources | gf-chained-select-enhancer.php:86-100 | the count is the length of non-empty `inputs`; else, when the first value holds '|', the number of '|' plus one (at least 2); else an integer `gfcseColCount`; else 2 |
| HiddenColumns.Without | gf-chained-select-enhancer.php:129 | `delete` keeps every other member and no repetition |
| HiddenColumns.Toggled | gf-chained-select-enhancer.php:127-130 | the new selection is strictly ascending and holds the old members with the column added when checked, removed otherwise |
| HiddenColumns.ToggleOnOff | gf-chained-select-enhancer.php:126-141 | for any selection, sorted or not, switching a column on and off again gives the sorted selection without that column |
| HiddenColumns.ToggleOnHeld | gf-chained-select-enhancer.php:126-141 | switching on a column already selected changes nothing |
| HiddenColumns.FieldEditor.constructor | gf-chained-select-enhancer.php:145 | the editor opens a field with its stored properties and nothing selected |
| HiddenColumns.FieldEditor.LoadFieldSettings | gf-chained-select-enhancer.php:145-163 | the selection comes from a non-empty array, else from the CSV or legacy CSV; all three properties and the hidden input are rewritten from it |
| HiddenColumns.FieldEditor.ToggleColumn | gf-chained-select-enhancer.php:126-141 | the selection becomes the toggled set, and all three properties and the hidden input receive it |
| HiddenColumns.LoadIdempotent | gf-chained-select-enhancer.php:147-156 | loading a field that was already loaded settles on the same columns |
| HiddenColumns.SyncedStoragesAgree | gf-chained-select-enhancer.php:132-137 | in a field editor whose storages are synced, both CSV properties and the hidden input read back as the array property and the selection |
| HiddenColumns.ServerReadsArray | gf-chained-select-enhancer.php:228-238 | an ascending selection saved as an array reads back unchanged on the server |
| HiddenColumns.CsvSourceValues | gf-chained-select-enhancer.php:230-234 | the CSV the editor writes for columns numbered from 1 reads, on the server, as exactly those columns |
| HiddenColumns.ServerReadsToggles | gf-chained-select-enhancer.php:225-239 | what the toggles save reads back unchanged on the server, from the array and also from the CSV alone |
| Pipeline.StoredAt | includes/class-gf-chained-select-enhancer.php:510-512 | the stored form of each choice keeps its text and children |
| Pipeline.RowOfCombinations | includes/class-gf-chained-select-enhancer.php:509-519 | a flattened row from the top is non-empty and is a root-to-leaf walk |
| Pipeline.LeafPathInTree | includes/class-gf-chained-select-enhancer.php:509-519 | a root-to-leaf walk of the re-indexed tree ends at a node without children in the keyed tree |
| Pipeline.FlattenedTreeRows | includes/class-import-handler.php:199-237 | every row flattened from a built tree is the path of some data row |
| Pipeline.LeafOfBuild | includes/class-import-handler.php:199-237 | every flattened row names a leaf of the built tree |
| Pipeline.RowPathOfTrimmed | includes/class-import-handler.php:210-219 | with the identity sanitiser and trimmed cells, a row's path is its non-empty cells |
| Pipeline.ImportThenExport | includes/class-import-handler.php:159-240 | after a successful import with the identity sanitiser and trimmed cells, every flattened row is the non-empty cells of some data row |

## Left out

- ZIP and XML decoding (`ZipArchive`, `simplexml_load_string`, namespace lookups). Their results are given as values: a parsed worksheet, and the `si` items of the shared string part.
- The reader looks for `v` first directly, then in the default namespace. It looks for `is/t` the same two ways. Each becomes one optional text.
- `sanitize_choice_value` (`wp_kses_*`) and `wp_strip_all_tags` are not modelled. They are function parameters of the import, and `trim` is modelled.
- The two `apply_filters` calls that set the limit are not modelled; the limit is a parameter.
- Hook registration, nonces, capability checks, `wp_die`, JSON output, HTTP headers, the CSV export streaming and `fputcsv` are I/O.
- `includes/class-github-updater.php` is not part of this model. It is network, cache and filesystem glue.
- The DOM and jQuery handling of the editor scripts is not modelled, including the toggles' HTML and the front-end script.
- The footer action's `echo` is not modelled; the style block is returned instead.
- The wrapper script's text is a parameter of `InjectXlsxPluploadScript`.
- PHP values in the array property are integers, strings or "other". Floats and booleans fall under "other", since `is_int` drops them all.
- `detectColumnCount` reads three abstract facts of the field object, not the object itself. The count of a non-array `inputs` is not modelled.
- `RecordRow` and `AppendHideRules` are the inner loops of `is_choice_limit_exceeded` and `enqueue_field_css`, written as methods of their own.
- The limiter's `in_array` uses PHP's loose comparison. The model compares integer-numeric strings by value: optional white space, an optional sign, digits, optional trailing white space. Every other string compares as text. So float-numeric strings such as "1.0" and "1e0", which PHP compares as numbers, count as distinct from "1" here.
- Integers are unbounded. PHP's `intval` and `absint` saturate at 64 bits, and JavaScript's `parseInt` loses precision beyond 2^53; neither is modelled.
- `Runtime.PhpIntval` reads a numeric prefix with a fraction or an exponent exactly, then truncates. PHP first rounds it to a double, so a prefix that a double cannot hold exactly (for example "2.9999999999999999999", which PHP reads as 3) can differ. This reaches `XlsxParser.CellValue`, `Enhancer.HideRulesAsWritten` and `HiddenColumns.GetHiddenColumns` only through hand-written values.
- `ImportHandler.InputSuffix` is the closed form `k + k/9 + 1`. `BuildInputs` proves that the source's counter loop produces it.
- Concurrency between requests is not modelled; PHP's static `$css_added` lives for one request, and so does a `CssEnqueuer`.

Two behaviours of the code a reader might expect otherwise:

- An inline-string cell reads only its `is/t` text, not rich-text runs.
- The import tests a cell for emptiness before trimming. A whitespace-only cell is therefore kept, and it becomes whatever the sanitiser makes of ''.

## Findings

| source | as written | input that shows it | evidently intended | confidence | as-written member | corrected member |
|---|---|---|---|---|---|---|
| includes/class-gf-chained-select-enhancer.php:325 | the hide rules are emitted only when `!empty($field->hideColumns)`, and PHP's `empty` is true for "0" | the editor writes the zero-based indices joined by commas (assets/js/admin.js:128-145); hiding only the first column stores "0", and no rule is emitted | a rule hiding container 1, as for every other single column n, which hides container n+1 | not executed | Enhancer.HideRulesAsWritten, Enhancer.HideFirstColumnLost, Enhancer.FirstColumnPassLost (the plugin's `Enhancer.CssEnqueuer.EnqueueFieldCss` keeps the as-written test) | Enhancer.HideRules, Enhancer.HideRulesOfEditor, Enhancer.HideOnlyColumn, Enhancer.HideRulesOfZero, Enhancer.HideRulesAgree, Enhancer.EditorRulesAsWritten |
