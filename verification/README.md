# menu-genai in Dafny

A model of the pure logic inside menu-genai, a Streamlit app that turns
photographed or PDF restaurant menus into a 25-column Excel sheet and fills
in translations of the sheet's text fields.

- **Transcription** (`transcription.py`, `process_image_to_excel`). The vision
  model's reply for each page is an input string. The reply is split into lines.
  A line is a candidate when it starts with `|` and not with `|-`. Its cells are
  the `|`-separated pieces without the first and the last, each passed through
  `str.strip()`. A candidate holding a `CategoryTitleDefault` cell is a header
  echo and is always dropped. The `headers_added` flag only records that an
  echo was seen, and it is shared by all pages. A candidate with exactly five
  cells becomes a row of the five default columns. The table is then widened
  to the 25 required columns, and every added cell holds `""`. The parser
  follows the code, so a markdown delimiter line written with spaces or
  colons becomes a row of dashes. A corrected classification that drops
  every delimiter line is modelled beside it (see "## Findings").
- **Translation** (`translation.py`, `translate_text` and `fill_translations`).
  The module-level memo cache is a `map<(text, target language name), string>`
  threaded through every call. The translation model is a function parameter
  `llm`. A `Tally` counts the `translate_text` requests and the model calls.
  For every row, every translatable field family and every language code other
  than the source code, a target cell is selected when two things hold. The
  family's default cell must be truthy with a non-blank `str()`. The target
  cell must be NaN or blank. The value written is the cached translation of
  the default text. Each selected cell costs one `translate_text` request, and
  the model is asked only on a cache miss.
- **Languages** (`language_utils.py`, `language_map`, and the selector options
  of `app.py`). This is the fixed table from the five select-box labels to the
  codes `En`, `Pt`, `Fr`, `De`, `Es`.

A DataFrame is a `Table`: a column list plus rows, where each row maps a
`Column` to an `Option<string>` cell and `None` stands for pandas' NaN.
Columns are the structured datatype `Column = Default(family) | ItemPrice |
Translated(family, lang)`. `Schema.ColumnName` gives each column's pandas
name, and `Schema.ColumnNameInjective` shows nothing is lost by keying on the
datatype. A missing column read (`KeyError`) and an unknown selector label
are modelled as `Err` results.

`headers_added` is one flag for all pages (`transcription.py:25`). It never
changes which rows are kept, because both of its branches skip the line
(`Transcription.ParseLines`, `Transcription.ParseLinesFlag`).

Modelled as the code has it, with no change:

- `fill_translations` reads `row[default_col]` for truthiness. A NaN default
  is truthy and `str(NaN)` is `"nan"`, so a NaN default is translated as the
  text `"nan"` (`Translation.Eligible`, `Translation.Str`). This cannot arise
  after `process_image_to_excel`, which writes only strings.
- `target_langs` is computed and never read (`Translation.TargetLangs`).
- `translate_text` receives full language names, not codes. The cache key is
  therefore (text, full target name), and the source language is not part of it.

Files: `wrappers.dfy` (Option, Result), `text.dfy` (split, join, strip),
`schema.dfy` (columns, tables), `languages.dfy`, `normalisation.dfy`,
`transcription.dfy`, `translation.dfy`, and `pipeline.dfy` (the two steps as
`app.py` chains them).

## Model

| member | source | states |
|---|---|---|
| Text.IsSpace | transcription.py:45 | the characters `str.strip()` removes: the ASCII controls tab to carriage return and file to unit separator, the space, and the Unicode spaces and line and paragraph separators Python counts as whitespace |
| Text.Strip | transcription.py:45 | `str.strip()`: the result is no longer than the input, has no whitespace at either end, and holds only characters of the input |
| Text.StripIsSlice | transcription.py:45 | the stripped string is the slice of the input between a whitespace-only prefix and a whitespace-only suffix |
| Text.StripEmptyIff | translation.py:42 | `s.strip()` is empty exactly when `s` is whitespace only, which is the blank test of the translator |
| Text.Split | transcription.py:42 | `split(sep)` yields one more piece than there are separators, and no piece contains the separator |
| Text.JoinSplit | transcription.py:42 | joining the pieces of a split with the separator gives back the original reply |
| Text.SplitJoin | transcription.py:45 | splitting the join of separator-free pieces gives back the pieces |
| Schema.ColumnName | transcription.py:6-9 | each column's pandas name: the family name with `Default` or a language code appended, and `ItemPrice`; these are the names of transcription.py:56-64 and translation.py:31-36 |
| Schema.DefaultColumns | transcription.py:6-9 | the five columns of the initial DataFrame: the four default fields and the price, in that order |
| Schema.ColumnNameInjective | transcription.py:56-64 | distinct columns have distinct DataFrame names |
| Schema.RequiredColumns | transcription.py:56-64 | the 25 required columns: the four default fields, the price, then the four fields of each of En, Pt, Fr, De, Es |
| Schema.RequiredColumnsDistinct | transcription.py:56-64 | the required list has 25 entries, none repeated, and names every column of the schema |
| Languages.LanguageMap | language_utils.py:24-30 | the five select-box labels, each mapped to its language code |
| Languages.SelectorOptions | app.py:33-36 | the five select-box labels, in display order |
| Languages.MapCodes | translation.py:29 | `language_map.values()` in insertion order: En, Pt, Fr, De, Es |
| Languages.LanguageMapIsBijection | language_utils.py:24-30 | the map has 5 entries, is injective, its values are exactly the five codes, and its keys are exactly the select-box options |
| Normalisation.AddColumn | transcription.py:67 | `df[c] = ""` appends `c` to the columns and sets it to "" in every row, changing nothing else |
| Normalisation.Missing | transcription.py:65-66 | the columns the loop adds: those of the list not yet present, each once and in list order |
| Normalisation.AddMissing | transcription.py:65-67 | after the loop the columns are exactly the old ones followed by the missing ones in list order, each once; old cells are kept and every added cell is "" |
| Normalisation.Normalise | transcription.py:56-67 | all 25 required columns exist, the row count and every existing cell are unchanged, and each added column is "" in every row |
| Normalisation.AddMissingNoop | transcription.py:65-67 | a table that already has every listed column is left as it is |
| Normalisation.NormaliseIdempotent | transcription.py:65-67 | normalising twice is normalising once |
| Normalisation.MissingRest | transcription.py:65-66 | over a list without repeats whose first entries are present, the loop adds exactly the remaining entries, in order |
| Normalisation.NormaliseDefaultsOrder | transcription.py:56-67 | a table of the five default columns ends up with exactly the 25 required columns in the listed order |
| Transcription.HeaderLabel | transcription.py:46 | the cell text `CategoryTitleDefault` that marks an echoed header |
| Transcription.ExpectedWidth | transcription.py:53 | `len(df.columns)` while the loop runs, which is five: the default columns |
| Transcription.Initial | transcription.py:25 | the loop starts with `headers_added` false and no rows |
| Transcription.IsCandidate | transcription.py:44 | a line is a candidate when it starts with a bar and its second character, if any, is not a dash |
| Transcription.Cells | transcription.py:45 | a candidate's cells are the split pieces minus the first and the last, each stripped; there is one fewer than the number of bar characters |
| Transcription.CellsClean | transcription.py:45 | no cell holds a bar character or has whitespace at either end |
| Transcription.ClassifyAsWritten | transcription.py:44-53 | the test as the code has it: a non-candidate is skipped; a candidate is a header echo iff it has a header cell, and otherwise a row, of the line's own cells, iff it has exactly five cells; it never recognises a delimiter line by its cells |
| Transcription.DataRowIff | transcription.py:44-53 | as written, a line becomes a row if and only if it starts with a bar and not with a bar and a dash, holds exactly six bar characters, and has no `CategoryTitleDefault` cell |
| Transcription.Classify | transcription.py:44-53 | the corrected test: a data row is the line's five cells, none the header label and not all dash runs; the delimiter line is exactly a candidate whose cells are all dash runs; every other line is classified as the code has it |
| Transcription.CorrectedRowIff | transcription.py:44-53 | to the corrected test a line is a row iff it is one as written and its cells are not all dash runs, and then both give the same cells |
| Transcription.UniformAsWritten | transcription.py:44-53 | a candidate line of five equal cells that strip to a dash run is kept as a row as written and is the delimiter line to the corrected test |
| Transcription.SpacedDelimiterAsWritten | transcription.py:44 | for every dash run `q`, the line of five cells written with a space on each side of `q` is a menu row of five `q` cells as written, and the delimiter line to the corrected test |
| Transcription.AlignedDelimiterAsWritten | transcription.py:44 | for every dash run `q` starting with a colon, the line of five `q` cells does not start with a bar and a dash and is a menu row as written, and the delimiter line to the corrected test |
| Transcription.Step | transcription.py:44-54 | one line appends its cells exactly when the code's test keeps it as a row; the flag becomes set exactly on a header echo; a non-candidate changes nothing |
| Transcription.DataRows | transcription.py:43-54 | a reply yields at most one row per line, each of width five and without a header cell |
| Transcription.WithoutDelimiters | transcription.py:44 | the rows not made only of dash runs, and only those, kept in order |
| Transcription.CorrectedRows | transcription.py:43-54 | under the corrected test a reply yields at most one row per line, each of width five, without a header cell, and not made only of dash runs |
| Transcription.CorrectedRowsFilter | transcription.py:43-54 | the corrected rows of a reply are the rows the code keeps, less those made only of dash runs |
| Transcription.ParseLines | transcription.py:43-54 | the rows kept from a reply are its data rows in line order, whatever the flag; the flag never goes from set to unset |
| Transcription.EchoesHeaderAgrees | transcription.py:44-46 | the header-echo test used for the flag is exactly the code's classification of a line as a header echo |
| Transcription.ParseLinesFlag | transcription.py:46-51 | after a reply the flag is set exactly when it was set before or a line of the reply echoed the header |
| Transcription.Lines | transcription.py:42 | `split('\n')`: no line holds a newline |
| Transcription.LinesJoin | transcription.py:42 | the lines of a reply, joined back with newlines, are the reply |
| Transcription.PageRows | transcription.py:26-54 | the rows of all pages, in page order and then line order, are all five wide and free of header cells |
| Transcription.ParsePages | transcription.py:25-54 | the loop over pages, with one shared flag, appends exactly the rows of every page in order |
| Transcription.RowOf | transcription.py:54 | an accepted row's five cells land unchanged, left to right, in the four default columns and the price |
| Transcription.Accumulate | transcription.py:5-54 | before widening, the table has the five default columns and one row per accepted line holding its cells |
| Transcription.NormaliseDefaults | transcription.py:56-67 | widening the five-column table keeps the default cells and sets every other column to "" |
| Transcription.ProcessImageToExcel | transcription.py:5-69 | the returned table has the 25 columns in order and one row per accepted line; the default and price cells hold the line's cells and every other cell is "" |
| Translation.TranslationColumns | translation.py:31-36 | each of the four default columns, in dictionary order, with its five target columns |
| Translation.CodeToFull | translation.py:38 | the full language name of each of the five codes |
| Translation.TargetCodes | translation.py:43 | the code list `zip` pairs with each family's targets: En, Pt, Fr, De, Es |
| Translation.TargetsOf | translation.py:32-35 | a family's target list is its five translated columns in the order En, Pt, Fr, De, Es |
| Translation.CodesHaveNames | translation.py:38 | `code_to_full` has a name for every code of `language_map` and of the zip list, and its keys are exactly the map's values |
| Translation.TargetLangs | translation.py:29 | the list holds exactly the map's codes other than the source code, and four of them when the source is one of the codes |
| Translation.TranslateText | translation.py:7-25 | a hit returns the cached text and calls nothing; a miss calls the model once, stores its stripped reply under (text, tgt) and keeps every other entry |
| Translation.TranslateRepeatHits | translation.py:8-10 | a repeated call is a hit with the same text |
| Translation.TranslateIgnoresSource | translation.py:8 | once (text, tgt) is cached, a call naming any other source language returns the same text without a call |
| Translation.TranslateGrows | translation.py:23-24 | a request adds at most the one key (text, tgt), and only the model's stripped reply, counting one call per added entry |
| Translation.Str | translation.py:42 | `str(cell)`: a text cell's own text, and "nan" for a NaN |
| Translation.Truthy | translation.py:42 | truthiness of a cell: a NaN is truthy, and a text is truthy iff it is not "" |
| Translation.Eligible | translation.py:42 | a default cell is translated when it is truthy and its `str()` does not strip to "" |
| Translation.Blank | translation.py:44 | a target cell is open when it is NaN or its text strips to "" |
| Translation.EligibleBlank | translation.py:42-44 | a text cell is an eligible default iff it is not a blank target; a NaN cell is both |
| Translation.Fills | translation.py:42-44 | a cell is selected when it is a target column of another language than the source, present, its family's default is eligible, and the cell itself is blank |
| Translation.KeyOf | translation.py:8 | the cache key of the request that fills a cell: `str()` of its family's default and the full name of the cell's language, as passed at translation.py:45 |
| Translation.Zip | translation.py:43 | `zip` pairs the elements at each position and is as long as the shorter list |
| Translation.FillTargets | translation.py:43-46 | the inner loop succeeds iff every target column whose code is not the source exists; it fills exactly the pending columns with the cached translation of the text, leaves the rest, and makes one request per pending pair |
| Translation.PendingCountCard | translation.py:43-46 | over pairs with no repeated column, the requests of the inner loop are its pending columns, one each |
| Translation.FamilySelection | translation.py:42-44 | with a non-blank default, the pending columns of a family's pairs are exactly the cells the fill selects in that family, keyed by the default's text |
| Translation.FillFamily | translation.py:41-46 | one family fails iff its default column is missing, or it is non-blank and a non-source target column is missing; otherwise exactly its selected cells are filled, with one request per selected cell |
| Translation.FamilyCount | translation.py:42-46 | with a non-blank default, the requests of a family's inner loop are the cells selected in that family |
| Translation.EligibleFamily | translation.py:42-46 | a family with a non-blank default fills its selected cells, and succeeds iff its non-source target columns exist |
| Translation.FillRow | translation.py:41-46 | a row fails iff one of its families is not ready; otherwise every selected cell holds the cached translation of its family's text, no other cell changes, and each family's selected cells are requested once each |
| Translation.ItemsCountCard | translation.py:41 | over items with no repeated default column, the family-by-family request count is the number of cells selected for all those families together |
| Translation.RowCount | translation.py:41-46 | the loop over `translation_columns` makes one request per cell selected in the row |
| Translation.RowReadyIff | translation.py:31-36 | a row is ready for all four families iff it is ready for each item of `translation_columns` |
| Translation.FillRows | translation.py:40-46 | the row loop fails iff some row is not ready; otherwise each row is filled from its own unmodified reading, with a cache that only grows and only by selected keys, and one request per selected cell of each row |
| Translation.FillTranslations | translation.py:27-46 | an unknown label is the only source of `UnknownLanguage`; for a known label the run succeeds iff every row is ready, and then every row is filled from the source code, with one request per selected cell of each row |
| Translation.FillProtects | translation.py:43-46 | default, price and source-language cells are never written, and no row gains or loses a column |
| Translation.RefillRow | translation.py:42-44 | a filled row is still ready, and every cell a second pass would select already holds the cached translation of its key |
| Translation.FillIdempotent | translation.py:40-46 | run again on its own output with the cache it left, the fill succeeds, returns the same table and cache, and calls the model no more |
| Translation.FillNoGaps | translation.py:44 | when no cell is selected, the run returns the table and the tally unchanged, with no request and no call |
| Translation.FillRequestsPerCell | translation.py:40-46 | the `translate_text` requests of a run are exactly the selected (row, column) cells, one each, whether cached or not |
| Translation.RowsCountCard | translation.py:40-46 | counting the selected cells row by row gives the number of selected (row, column) cells |
| Translation.FillCallsPerKey | translation.py:8-24 | the cache ends with its old keys plus the selected keys; the model is called once per selected key that was not cached, so once per distinct (text, target) from an empty cache |
| Translation.FillFromModel | translation.py:45-46 | from an empty cache, each selected cell holds the model's stripped reply for its family's text, from the source name to the cell's language name |
| Pipeline.FamilyIndex | transcription.py:6-9 | each family's default column sits at its position among the five accepted cells |
| Pipeline.Transcribed | transcription.py:53-67 | each row of the transcribed table has all 25 columns, the accepted cells in the default and price columns, and "" elsewhere |
| Pipeline.TranscribedRow | transcription.py:53-67 | row `i` of the transcribed table has all 25 columns, the `i`-th accepted line's cells in the default and price columns, and "" elsewhere |
| Pipeline.TranscribedReady | transcription.py:56-67 | every column the translator reads exists in a transcribed table, for any source code |
| Pipeline.PipelineSucceeds | app.py:33-36 | for every select-box option, translating a transcribed table succeeds |
| Pipeline.PipelineCells | app.py:62-65 | end to end, every target cell of another language holds the cached translation of its non-blank field text; otherwise it holds "", and the default and price cells are unchanged |
| Pipeline.TargetCell | translation.py:42-46 | a blank target cell whose field text is `text` is translated iff its code is not the source and `text` is not blank |

## Findings

The delimiter line of a markdown table holds a dash run in each cell: dashes,
with an optional alignment colon at either end. The line may be spaced: `| --- | --- | --- | --- | --- |`
is as usual as `|---|---|---|---|---|`. The guard at transcription.py:44 skips
a candidate only when its second character is `-`. A spaced delimiter line, or
one whose cells start with a colon (`|:---|:---|:---|:---|:---|`), has five
cells and no header cell, so it lands in the sheet as a menu item of dashes,
and the translator then makes 16 `translate_text` requests for `---`. The parsing
members above keep such a line, as the code does. `Transcription.Classify`
and `Transcription.CorrectedRows` are the corrected test and parser, and
`Transcription.CorrectedRowsFilter` shows the corrected rows are the code's
rows less those made only of dash runs.

| source | as written | input that shows it | evidently intended | confidence | as-written member | corrected member |
|---|---|---|---|---|---|---|
| transcription.py:44 | a delimiter line is skipped only when it starts with a bar and a dash | the five-cell delimiter line written with a space around each `---` | every delimiter line is skipped, however it is spaced | not executed | Transcription.SpacedDelimiterAsWritten | Transcription.CorrectedRowsFilter |
| transcription.py:44 | a delimiter line is skipped only when it starts with a bar and a dash | the five-cell delimiter line whose cells are `:---` | every delimiter line is skipped, whatever its alignment colons | not executed | Transcription.AlignedDelimiterAsWritten | Transcription.Classify |

## Left out

- The vision-model request and image encoding of `process_image_to_excel` (transcription.py:11-40). Each page's reply is an input string, and the prompt wording is not behaviour.
- The translation request of `translate_text` (translation.py:12-22). It is the function parameter `llm`; temperature and determinism are not modellable.
- `categorize_menu_language` (language_utils.py:3-22). It is an LLM call whose answer app.py only displays.
- The Streamlit form, uploads, PDF rasterisation, Excel writing and the download button (app.py, file_utils.py). These are I/O. openai_client.py only sets up the client.
- menu_to_excel.py is not part of this model. It is an older standalone draft that app.py does not import.
- Translation.FillTranslations: when a `KeyError` stops the loop part way, the cells already written in place are not returned, and neither are the cache entries and request and call counts added before the error. In the code those entries stay in the module-level cache (translation.py:5), where a later run hits them. The model returns only the error.
- Cell types other than strings and NaN (numbers, other pandas dtypes). The rows are produced by the parser, which writes only strings.
- The `menu_language` argument of `process_image_to_excel`. It only enters the prompt text.
- Retries and per-page failure reporting for model calls. The code has neither, so neither is modelled.
- Failing model calls. Both model calls are total here: each always returns a reply. In the code, an exception from `client.chat.completions.create`, or a `None` reply content failing at `.split` (transcription.py:42) or at `.strip` (translation.py:23), ends the whole run. In `fill_translations` such a failure also leaves the cells already written in place and the entries already added to the module-level cache; the model returns neither.
