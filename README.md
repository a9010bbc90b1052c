# File converter and cleaner — a Dafny model

`file-converter.py` is a Streamlit page. It takes CSV and Excel uploads and
loads each one into a pandas DataFrame. Each DataFrame can go through three
optional cleaning steps, in a fixed order: drop duplicate rows, fill missing
numbers with the column mean, strip surrounding whitespace. Then it can be
cut down to a chosen set of columns. The result is offered for download as
CSV or as an `.xlsx` workbook, under the original base name.

This project models that per-file pipeline and the loop over the uploaded
files:

- `Tables`: the DataFrame as data. It has typed columns (`number`, `object`
  or another dtype) and rows of cells that may be missing.
- `Text`: Python's `str.strip()` (the full `str.isspace()` set) and the
  lowercasing applied to extensions.
- `FileNames`:
  - `load_file`'s dispatch on `name.split('.')[-1].lower()`;
  - the `rsplit('.', 1)[0]` base name;
  - the output suffix and MIME type chosen by the radio button.
- `Dedupe`, `MeanFill`, `Whitespace`, `Selection`: each cleaning step as a
  function on tables, with the lemmas that say what the step promises.
- `Frames`: the `df` variable as a class `Frame` whose fields the step
  methods update. Whitespace cleaning keeps the source's loop over the object
  columns.
- `Pipeline`:
  - `Process`, the specification of one file;
  - `ProcessFile`, which runs a `Frame` through the enabled steps and is
    proved equal to `Process`;
  - `ProcessUploads`, the `for file in files` loop, proved to produce the
    list of results specified by `Processed`.
- `Scenario`: one upload run end to end. It has a duplicate row and a
  missing score, with both steps on and CSV chosen.

Behaviour that the model follows from the code:

- A name without a '.' is its own extension and its own base name, so
  `"csv"` loads as CSV and converts to `"csv.csv"`.
- In an object column that holds at least one string, `.str.strip()` turns
  every non-string cell into a missing value. An object column with no string
  at all makes pandas raise instead (see "Left out").
- A selection label expands to every column carrying that name. With
  distinct names, the result is exactly the selected columns in selection
  order.
- An empty selection keeps every column, because of the
  `if selected_columns:` guard at line 63. It does not produce a table with
  no columns.
- The fill means are taken from the table as it is after de-duplication.
  That is why the end-to-end scenario fills the gap with 2.5, not 2.

## Model

| member | source | states |
|---|---|---|
| Text.Strip | file-converter.py:50-53 | The result has no whitespace at either end. It is the infix of the input that follows the leading whitespace, and only whitespace lies before and after it in the input. |
| Text.StripExact | file-converter.py:50-53 | Any whitespace around a string with non-space ends is removed exactly: stripping `pre + mid + post` gives `mid`. |
| Text.StripIdempotent | file-converter.py:50-53 | Stripping a stripped string changes nothing. |
| Text.Lower | file-converter.py:12 | Same length; every character is lowercased on its own (ASCII letters map to lowercase, everything else is kept). |
| FileNames.LastDot | file-converter.py:12 | The position of the last '.', or -1 when there is none: that position holds a '.' and no later position does. |
| FileNames.Extension | file-converter.py:12 | The extension has no '.', is a suffix of the name, and is preceded by a '.' unless it is the whole name. |
| FileNames.BaseName | file-converter.py:78 | The base name is a prefix of the name. With a '.' the name is base + "." + extension; without one, base, name and extension coincide. |
| FileNames.Classify | file-converter.py:12-19 | CSV exactly when the lowercased extension is "csv", workbook exactly when it is "xlsx", unsupported otherwise. |
| FileNames.SplitAtLastDot | file-converter.py:12 | For a dot-free `ext`, `base + "." + ext` has extension `ext` and base name `base`. |
| FileNames.ClassifyBySuffix | file-converter.py:12-16 | Only the text after the last '.' decides the classification. |
| FileNames.ClassifyIgnoresCase | file-converter.py:12 | Two names that are equal once lowercased are classified alike. |
| FileNames.DotFreeIsExtension | file-converter.py:12 | A name with no '.' is its own extension. |
| FileNames.ClassifyExamples | file-converter.py:12-19 | "a.b.CSV" is CSV, "x.XLSX" is a workbook, "notes.txt" and "data.csv.bak" are unsupported. |
| FileNames.OutputFormat | file-converter.py:73-79 | Never unsupported; CSV exactly when the choice is "CSV". |
| FileNames.Mime | file-converter.py:75-81 | "text/csv" for CSV, the OpenXML spreadsheet type for a workbook. |
| FileNames.SuffixRoundTrip | file-converter.py:78-82 | The download suffix has no '.' and classifies back as the chosen format. |
| FileNames.OutputName | file-converter.py:78-82 | The new name keeps the uploaded base name, has the chosen format's suffix as its extension, and classifies as that format. |
| FileNames.ChoiceDecidesDownload | file-converter.py:73-82 | "CSV" gives text/csv and base + ".csv"; any other choice gives the spreadsheet type and base + ".xlsx". |
| Dedupe.Dedup | file-converter.py:37 | No longer than the input, holds exactly the input's values, and has no repeats. |
| Dedupe.DedupKeepsFirstOccurrences | file-converter.py:37 | The result is the input restricted to the positions of first occurrences, in increasing order: exactly the first occurrences are kept, in their original order. |
| Dedupe.DedupOfDistinct | file-converter.py:37 | A sequence without repeats is left unchanged. |
| Dedupe.DedupIdempotent | file-converter.py:37 | De-duplicating twice is de-duplicating once. |
| Dedupe.DedupExample | file-converter.py:37 | `[a, b, a]` becomes `[a, b]`. |
| Dedupe.DropDuplicates | file-converter.py:36-37 | Same columns; the rows are distinct, no more numerous than before, and are exactly the original distinct rows. |
| Dedupe.DropDuplicatesIdempotent | file-converter.py:37 | Dropping duplicates again changes nothing. |
| MeanFill.Mean | file-converter.py:43 | Undefined (NaN) exactly when the column has no present number. |
| MeanFill.Means | file-converter.py:43 | One fill value per column: a number column's mean, and nothing for any other column. A column has a fill value exactly when it is a number column with a present number. |
| MeanFill.FillMissing | file-converter.py:42-43 | Same columns and rows. A cell changes only when it is missing, its column is numeric and the column has a present value; it then becomes the column's mean taken before the fill. |
| MeanFill.FillCellsKeepsMean | file-converter.py:43 | Filling a column's gaps with its mean leaves its mean unchanged. |
| MeanFill.FillKeepsMeans | file-converter.py:43 | Every column has the same mean after the fill as before. |
| MeanFill.FillCoverage | file-converter.py:43 | A numeric column with a present value has no missing cell after the fill. Any other column is left exactly as it was. |
| MeanFill.FillIdempotent | file-converter.py:43 | Filling a filled table changes nothing. |
| MeanFill.FillExample | file-converter.py:43 | The numeric column [1, missing, 3] becomes [1, 2, 3]. |
| MeanFill.MissingTotalIsProduct | file-converter.py:43 | Adding `m` once per missing cell totals (missing count) × `m`. |
| MeanFill.FilledStatistics | file-converter.py:43 | After filling with `m`, the present count gains the missing count and the sum gains `m` for each gap. |
| Whitespace.StripCell | file-converter.py:53 | A string cell is stripped; any other cell of an object column becomes missing. |
| Whitespace.StripNames | file-converter.py:50 | Every column name is stripped; dtypes are unchanged. |
| Whitespace.StripColumn | file-converter.py:53 | Only the cell at the column's position in each row changes, and it is stripped. |
| Whitespace.CleanWhitespace | file-converter.py:48-53 | Same shape; names stripped; object cells stripped; all other cells unchanged. |
| Whitespace.CleanIdempotent | file-converter.py:48-53 | Cleaning twice is cleaning once. |
| Whitespace.CleanExample | file-converter.py:48-53 | A padded name and a padded text cell lose their padding; a number cell is kept. |
| Selection.Positions | file-converter.py:64 | Increasing positions, each holding a column with the label. |
| Selection.PositionsComplete | file-converter.py:64 | Every column carrying the label is among those positions. |
| Selection.SelectedPositions | file-converter.py:64 | Every position taken holds a column whose name is selected. |
| Selection.SelectedPositionsComplete | file-converter.py:64 | Every column whose name is selected is taken. |
| Selection.Project | file-converter.py:64 | Rows kept; column k and cell (i, k) of the result come from the projected position. |
| Selection.SelectColumns | file-converter.py:63-64 | An empty selection leaves the table unchanged. Otherwise the result has the same number of rows, and its columns are exactly the table's columns whose names are selected. |
| Selection.IndexOf | file-converter.py:64 | The first position carrying the label. |
| Selection.UniquePosition | file-converter.py:64 | With distinct names a label has exactly one position. |
| Selection.SelectedPositionsDistinct | file-converter.py:64 | With distinct names, one position per label, in selection order. |
| Selection.SelectExactly | file-converter.py:63-64 | With distinct names, the result's names are the selection. Each result column and each cell comes from its label's column. |
| Selection.SelectAllIsIdentity | file-converter.py:58-64 | With distinct column names, selecting every column (the widget's default) is valid and returns the table unchanged. |
| Selection.SelectExample | file-converter.py:63-64 | Selecting ["A", "C"] from A, B, C gives columns A and C, in that order, with the same row count. |
| Frames.Frame.constructor | file-converter.py:27 | The frame holds the loaded table. |
| Frames.Frame.DropDuplicates | file-converter.py:36-37 | The frame's new table is `DropDuplicates` of the old one. |
| Frames.Frame.FillMissing | file-converter.py:42-43 | The frame's new table is `FillMissing` of the old one: the means are computed once, before any cell is filled. |
| Frames.Frame.CleanWhitespace | file-converter.py:48-53 | After the names are stripped and each object column is stripped in turn, the frame's new table is `CleanWhitespace` of the old one. |
| Frames.Frame.SelectColumns | file-converter.py:63-64 | The frame's new table is `SelectColumns` of the old one. |
| Pipeline.Load | file-converter.py:10-19 | No table exactly when the name is unsupported; otherwise the uploaded contents. |
| Pipeline.Cleaned | file-converter.py:35-55 | The enabled steps, in the script's order, keep the table rectangular. |
| Pipeline.Process | file-converter.py:24-85 | Nothing is offered exactly for an unsupported name (lines 28-29). Otherwise the download has the chosen format and its MIME type, and its name is exactly `OutputName` of the upload's name. That name classifies as the format and keeps the base name. Its table is the cleaned table after the selection. |
| Pipeline.ProcessFile | file-converter.py:25-85 | Running one file through a Frame gives exactly `Process` of that job. |
| Pipeline.Processed | file-converter.py:24-29 | One result per job, in upload order. |
| Pipeline.ProcessedAt | file-converter.py:25-29 | The result at each position is that job's own `Process` result. One file's outcome does not depend on the others, and a skipped file does not shift the rest. |
| Pipeline.ProcessUploads | file-converter.py:24-29 | The loop over the files returns `Processed` of all the jobs. |
| Pipeline.Offered | file-converter.py:85 | As a set, the offered downloads are exactly the results that are not skipped, and there are no more of them than files. Order and count are pinned by `OfferedOne` and `OfferedAppend`. |
| Pipeline.OfferedOne | file-converter.py:28-29 | A supported file's result offers exactly its download; a skipped file offers nothing. |
| Pipeline.OfferedAppend | file-converter.py:25-85 | The downloads of a batch are those of its first part followed by those of the rest. With `OfferedOne` this gives one download per supported file, in upload order. |
| Scenario.CsvKeepsName | file-converter.py:73-78 | A ".csv" upload classifies as CSV and, converted to CSV, keeps its name. |
| Scenario.ScenarioCleaned | file-converter.py:35-45 | De-duplication, then fill, turns the four-row score table into three rows with the gap set to 2.5. |
| Scenario.EndToEnd | file-converter.py:24-86 | The scenario upload is accepted. It is offered as "<base>.csv", text/csv, with the duplicate removed and the gap filled with the mean of the distinct rows. |

## Left out

- The Streamlit page is not modelled: titles, file headers, previews, success and error messages, and the chart (lines 6-8, 18, 26, 31-33, 38-39, 44-45, 54-55, 65, 67-70, 86). These are display only and change no data.
- The uploader's own `type=["csv", "xlsx"]` filter (line 22) is not modelled. Every name goes through `load_file`'s own check, which is what lines 28-29 act on.
- `pd.read_csv` and `pd.read_excel` (lines 14, 16) are not modelled. The upload carries the table the reader would parse, with the dtype of each column already decided. Parse errors are not modelled.
- `to_csv`, `to_excel` and `BytesIO` (lines 74-76, 80, 84) are not modelled. A `Download` carries the table and its format instead of the serialised bytes.
- MeanFill.Mean: numbers are exact reals. The model does not capture float64 rounding in the mean.
- Text.Lower: lowercases ASCII letters only. No other character lowercases to one of the letters of "csv" or "xlsx", so classification is unaffected; the lowercased string in other cases is not modelled.
- Whitespace.CleanWhitespace: does not model the case where an object column's name, once stripped, is shared with another column (a CSV header `" name",name`, say). The loop at line 52 only visits object columns, and for such a name `df[col]` at line 53 is a DataFrame, so `df[col].str` raises `AttributeError` and the run stops for this file and every later one. The model instead strips each object column by its position and returns a cleaned table.
- Frames.Frame.CleanWhitespace: walks the object columns by position, not by label. The two agree whenever the names are distinct.
- Pipeline.Ready: requires that every selected label names a column of the cleaned table. The multiselect only offers those names; an unknown label would make pandas raise `KeyError`.
- Selection.SelectColumns: its contract states which columns the result holds, not their order, and says nothing about the cells. The order and the cells are stated only by `SelectExactly`, for distinct column names.
- Frames.Frame: `df` is a single frame per file, so pandas' copy and view distinctions, and aliasing, are not modelled.
- Whitespace.StripCell: an object column that holds no string at all (for example only booleans and gaps) makes pandas' `.str` accessor raise `AttributeError` at line 53. That stops the run for this file and every later one. The model strips such a column anyway, turning its cells into missing values.
- Pipeline.ProcessedAt: two uploads with the same name would create widgets with the same label or key (lines 36, 42, 48 and the `key=file.name` at line 73). Streamlit then raises a duplicate-widget error and the run stops. Widget-identity errors are not modelled, so in the model each file's outcome is independent of the others.
