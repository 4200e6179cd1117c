# Text-Blast-Filter row cleaning, modelled in Dafny

This project models the cleaning run of `processing.py`. The run takes a
spreadsheet of employees exported from a scheduling system and returns the
rows worth texting:

- It drops the three report-banner rows and promotes the next row to
  column names.
- It finds the name, phone, distance and status columns by pattern.
- It reduces phones to digits and drops missing, empty, all-zero and
  leading-"1" phones.
- It keeps the first row of every name.
- Optionally, it keeps rows within a distance and rows whose status is
  whitelisted (or "resigned", when asked).
- It splits the name into "First Name" / "Last Name" and moves the key
  columns to the front.

The model has these modules:

- `Strings`: stripping, whitespace collapsing, splitting into words,
  ASCII lower-casing and digit extraction, as Python's `str` methods and
  the `\s+` / `\D+` substitutions do them.
- `Frames`: the cells, which are `Missing`, `Text` or `Number` (a
  `Missing` cell is the library's "not a number" marker). Also rows that
  keep their index label, and the boolean-mask selection `Keep`.
- `Columns`: the hand-coded column patterns and `find_col`.
- `Header`: header promotion.
- `Names`: the name splitter.
- `Phone`, `Dedup`, `Filters`: steps C to H.
- `Layout`: the two inserts and the final column order.
- `Pipeline`: `clean_and_filter` as a sequence of those stages.
  `CleanAndFilter` is the corrected run, with every error it raises, in
  its order. `CleanAndFilterAsWritten` is the run as written, which also
  fails on the name split when no row survives (see Findings).
- `Reference`: an independent, row-at-a-time description of the result.
  A row survives when its cleaned phone is valid, it is the first such
  row of its name, and its distance and status pass. Each output cell is
  the surviving row's cell under the same column name. The staged
  pipeline is proved equal to this description.
- `Findings`: a concrete spreadsheet for the defect described under
  Findings.

Some behaviour of `processing.py` worth knowing:

- `raw_df.empty` also holds for a spreadsheet with rows but no columns,
  so such input is rejected as empty (`EmptyInput`).
- `clean_and_filter` takes only `max_miles`, `status_whitelist` and
  `include_resigned`.
- Running the cleaner on its own output fails, because "First Name"
  already exists there. The model returns `ColumnExists` in that case.
- Blank cells of an Excel upload are the library's missing value. A CSV
  upload is read with `keep_default_na=False` (`app.py`), so its blank
  cells are `""`. The model keeps the two apart.

## Model

| member | source | states |
|---|---|---|
| Columns.FindCol | processing.py:7-16 | The result is None exactly when no column name matches any pattern. Otherwise it is the earliest matching column, and no column before it matches. |
| Columns.FindFrom | processing.py:12-16 | The outer loop from column i: None exactly when no column from i on matches. Otherwise it is the first matching column at or after i. |
| Columns.TryPatterns | processing.py:13-15 | The inner loop over patterns answers true exactly when some pattern of the list matches the name. |
| Columns.ColumnOrderBeatsPatternOrder | processing.py:12-15 | A column matched only by a low-priority pattern wins over a later column matched by the first pattern. |
| Columns.MatchWords | processing.py:95-98 | When the words of a pattern match from position i, the first word sits at i and the match ends inside the text. |
| Columns.MatchedNameNonEmpty | processing.py:150-152 | A column name any of the patterns matches is never empty, so every found column passes the `if col` test of the reordering loop. |
| Columns.PatternTablesWellFormed | processing.py:95-98 | Every pattern of the four tables is a non-empty list of non-empty lower-case words. |
| Header.NormalizeName | processing.py:37-40 | A header cell becomes the canonical spelling of its words: no leading, trailing or doubled whitespace, same words as the cell. A missing cell becomes "". |
| Header.NormalizeNameIdempotent | processing.py:37-40 | Normalising a normalised column name changes nothing. |
| Header.HeaderNames | processing.py:35-40 | The promoted header has one name per cell of row 4. A missing cell gives "". A text cell gives a name with no leading, trailing or doubled whitespace and the same words as the cell. |
| Header.PromoteHeader | processing.py:24-42 | Empty input (no rows or no columns) is EmptyInput. Input with no row after the three banner rows is NoDataAfterTrim. Otherwise the header is row 4 normalised, and the data are rows 5 onward in order, labelled 1, 2, ..., each as wide as the header. |
| Names.SplitName | processing.py:44-63 | A missing name gives two missing halves, and a present name gives two present halves. |
| Names.SplitNameExamplesBlank | processing.py:46-50 | A blank name gives ("", ""); a missing name gives (missing, missing). |
| Names.SplitNameCommaRule | processing.py:52-57 | For `last,rest` with no comma in `last`, whatever the surrounding whitespace: the first name is the first word of `rest` (or "") and the last name is `last` stripped. |
| Names.SplitLastCommaFirst | processing.py:52-57 | Round trip: writing "Last, First" with optional further words and splitting gives First and Last back. |
| Names.SplitNameSpaceRule | processing.py:59-63 | A non-blank name without a comma gives its first word, and its last word when it has several (otherwise ""). |
| Names.SplitFirstMiddleLast | processing.py:59-63 | Round trip: a first and a last token around any whitespace-delimited middle part split back into the two tokens. |
| Names.SplitOneToken | processing.py:60-62 | A single token is a first name alone with an empty last name. |
| Names.SplitNameShape | processing.py:44-63 | Every text name gives a first name without whitespace and a stripped last name without a comma. |
| Names.SplitNameExampleComma | processing.py:52-57 | "Smith, John Michael" gives John / Smith. |
| Names.SplitNameExampleSpaces | processing.py:59-63 | "John Michael Smith" gives John / Smith. |
| Strings.CollapseWhitespace | processing.py:40 | The collapsed text is single-spaced, empty exactly when the input is, and starts and ends with whitespace exactly when the input does. |
| Strings.CollapseKeepsWords | processing.py:40 | Collapsing whitespace runs keeps the words of the text. |
| Strings.StripBlank | processing.py:48-49 | A text strips to "" exactly when it is all whitespace. |
| Strings.WordsStrip | processing.py:48-60 | Stripping keeps the whitespace-separated words. |
| Strings.StripPadded | processing.py:135 | Whitespace around a text is removed by strip, whatever the text. |
| Strings.StripLower | processing.py:135 | Stripping and lower-casing commute. |
| Strings.DigitsIdempotent | processing.py:104 | Keeping only the digits of a digit string changes nothing. |
| Phone.CleanPhone | processing.py:104 | A cleaned phone is a text of digits only, no longer than the original. A missing phone (rendered "nan") cleans to "". |
| Phone.CleanPhoneIn | processing.py:104 | Cleaning rewrites the phone cell only. |
| Phone.PhoneFiltersAreOneMask | processing.py:106-112 | The four successive masks keep exactly the rows whose cleaned phone is non-empty, not all zeros and not starting with 1. |
| Phone.PhoneRule | processing.py:104-112 | A raw phone survives exactly when it has a digit other than 0 and its first digit is not 1. Punctuation, spaces and letters never matter. |
| Phone.DigitsMembers | processing.py:104 | Digit extraction keeps exactly the digits of the text. |
| Phone.DigitsHead | processing.py:104-112 | The cleaned phone starts with 1 exactly when the first digit of the raw text is 1. |
| Phone.CleanPhoneIdempotent | processing.py:104 | Cleaning a cleaned phone changes nothing. |
| Phone.MissingPhoneDropped | processing.py:104-108 | A missing phone never survives the masks. |
| Phone.PhoneExampleLocal | processing.py:104-112 | "(55) 12" survives as 5512. |
| Phone.PhoneExampleCountryCode | processing.py:112 | "1-800" is dropped. |
| Phone.PhoneExampleZeros | processing.py:109 | "00-00" is dropped. |
| Frames.Keep | processing.py:107 | Boolean-mask selection keeps exactly the rows the mask accepts, in their order. |
| Frames.KeepKeep | processing.py:107-112 | Two masks applied in turn are the single mask of their conjunction. |
| Dedup.DedupFromIsKeep | processing.py:117 | The scan with a set of seen names keeps exactly the rows whose name is new and which come first among the rows with that name. |
| Dedup.DropDuplicatesIsKeepFirst | processing.py:117 | drop_duplicates keeps exactly the first row of every name, in order. |
| Dedup.DropDuplicatesDistinct | processing.py:117 | After removal no two rows share a name. |
| Dedup.DropDuplicatesKeys | processing.py:117 | Every name of the input is still present, and every row kept is an input row. |
| Dedup.DropDuplicatesIdempotent | processing.py:117 | Removing duplicates twice is removing them once. |
| Dedup.DropDuplicatesMap | processing.py:104-117 | Removing duplicates after a rewrite of the rows is removing them on the rewritten key, then rewriting. |
| Filters.ToNumeric | processing.py:121 | Coercion never yields text, and a missing value stays missing. |
| Filters.CoerceIn | processing.py:121 | Coercion rewrites the distance cell only. |
| Filters.DistanceRule | processing.py:121-122 | A distance survives exactly when it parses to a number not above the limit (the limit is inclusive). A missing or unparsable distance never survives. |
| Filters.DistanceMonotone | processing.py:122 | Raising the limit never drops a row a lower limit kept. |
| Filters.StatusRule | processing.py:126-138 | A status passes exactly when one of three holds: the whitelist is empty; some entry equals the status ignoring case (surrounding blanks count); or the box is ticked and the status strips to "resigned" ignoring case. |
| Filters.StatusIgnoresCase | processing.py:128-135 | Two statuses equal up to case pass or fail together. |
| Filters.ResignedOnlyAdds | processing.py:134-138 | Ticking the box only adds rows, and only rows reading "resigned". |
| Filters.NoWhitelistKeepsAll | processing.py:130-131 | With no whitelist and the box unticked, the status filter keeps every row. |
| Filters.ResignedPadded | processing.py:135 | With the box ticked, "resigned" in any case and with any surrounding whitespace passes, whatever the whitelist. |
| Filters.StatusExampleCase | processing.py:128-129 | "ACTIVE" passes the whitelist ["Active"]. |
| Filters.StatusExampleBlank | processing.py:129 | " Active" does not pass the whitelist ["Active"]: the whitelist test does not strip. |
| Filters.StatusExampleMissing | processing.py:129 | A missing status is compared as the text "nan". |
| Layout.InsertNameColumns | processing.py:144-146 | The insert fails when "First Name" is taken. The second insert fails when only "Last Name" is taken. Otherwise the two names go right after the name column and every other column keeps its place. |
| Layout.InsertKeepsDistinct | processing.py:145-146 | The inserted header has no repeats and holds the old names plus the two new ones. |
| Layout.SplitInto | processing.py:143-146 | Each row gets its name's two halves right after the name cell, with every other cell kept. |
| Layout.AppendRoles | processing.py:150-152 | The loop keeps `ordered` as a prefix, appends only names of found roles, and never lists a name twice. |
| Layout.AppendRolesOrder | processing.py:150-152 | Every found role with a non-empty name ends up in `ordered`. Each appended name is such a role that was not listed before. The appended names follow the order phone, distance, status. |
| Layout.Remaining | processing.py:154 | `remaining` holds exactly the header's names not already ordered, without repeats. |
| Layout.RemainingOrder | processing.py:154 | `remaining` lists the columns in their order in the header. |
| Layout.ColumnOrderSections | processing.py:149-155 | The final order has three sections. First come the name column and the two new columns. Next come the found roles with non-empty names other than those three, once each, in role order. Last come all other columns, in header order. |
| Layout.ColumnOrderPermutes | processing.py:149-155 | The final order is a permutation of the inserted header, and it has those three sections. |
| Layout.Positions | processing.py:155 | Every output column is selected from the position holding its name. |
| Layout.CellsFollowNames | processing.py:155 | Reordering moves every cell with its column name. |
| Pipeline.Prepare | processing.py:91-116 | Steps A and B and the two column checks: each error exactly under its condition, the phone check first. On success, the promoted frame and the detected columns. |
| Pipeline.Finish | processing.py:142-159 | The insert errors exactly when the new names are taken. Otherwise one output row per surviving row, each as wide as the header. As written, an empty frame fails. |
| Pipeline.CleanAndFilter | processing.py:65-159 | The corrected run (without the name-split failure on an empty frame, which `Pipeline.CleanAndFilterAsWritten` and the Findings row cover). Every error of the corrected run and the exact condition raising it: empty input, no data after the banner, no phone column, no name column (only once a phone column was found), and "First Name" or "Last Name" taken. A successful run has at most as many rows as the data and rectangular rows. |
| Pipeline.CleanAndFilterAsWritten | processing.py:142-146 | As written, the run fails on the name split whenever the corrected run returns no rows, and only past the column checks. In every other case it agrees with the corrected run. |
| Reference.PhoneStage | processing.py:104-112 | Cleaning and the phone masks keep the rows whose phone passes, rewritten. |
| Reference.UniqueStage | processing.py:117 | Duplicate removal keeps the first row of every name among the rows with a valid phone. |
| Reference.NearStage | processing.py:120-122 | The optional distance step keeps the rows within range, coerced. Without a distance column it keeps every row. |
| Reference.StatusStage | processing.py:125-140 | The optional status step keeps the rows whose status passes. Without a status column it keeps every row. |
| Reference.FilteredIsReference | processing.py:100-140 | Steps C to H select exactly the surviving rows, in their order, with the phone and distance cells rewritten. |
| Reference.Survivors | processing.py:100-140 | A row is kept exactly when it is a data row that survives, and the kept rows keep their order. |
| Reference.FinishIsReference | processing.py:142-159 | The split and the reordering of the filtered frame give the reference table. |
| Reference.SucceedsIsReference | processing.py:65-159 | A run that gets past every check returns the reference table. |
| Reference.CleanAndFilterIsReference | processing.py:65-159 | The run succeeds exactly when it gets past every check, and then returns the reference table of the promoted frame. |
| Reference.OutputHeaderShape | processing.py:144-155 | The output header holds the old names plus the two new ones, without repeats. It starts with the name column and its two halves. Next come the found roles with non-empty names, once each, in role order. Then come the other original columns, in their order in the spreadsheet. |
| Reference.InsertedIndex | processing.py:144-146 | The inserts leave the columns up to the name column in place and move every later column two places right. |
| Reference.RowCell | processing.py:142-159 | The cell of output row i under an original column name is that column's cell of the i-th surviving row, rewritten. |
| Reference.OutputNamesDistinct | processing.py:117 | No two output rows have the same name. |
| Reference.OutputNamesSplit | processing.py:143-155 | Every output row carries, in columns 2 and 3, the split of its own name in column 1. |
| Reference.OutputPhonesValid | processing.py:104-112 | Every output phone is digits only, non-empty, not all zeros, and does not start with 1. |
| Reference.OutputDistancesWithin | processing.py:121-122 | Every output distance is a number within the limit. |
| Reference.OutputStatusesAllowed | processing.py:125-140 | Every output status passes the status rule. |
| Reference.OutputOtherCellsKept | processing.py:104-155 | Apart from the phone and the distance, an output row holds its source row's cells unchanged, each under its own column name. |
| Reference.CleanAndFilterNames | processing.py:117-155 | On any spreadsheet, a successful run returns names in column 1 with no repeats and their halves in columns 2 and 3. |
| Reference.AsWrittenFailsWhenNoneSurvive | processing.py:142-146 | As written, the run fails on the name split exactly when it gets past the column checks and no data row survives. |
| Reference.CorrectedReturnsEmptyTable | processing.py:142-159 | Corrected, the same spreadsheet gives the output header over no rows, never the split failure. |
| Findings.EmptySheetShowsFinding | processing.py:142-146 | The sheet with three banner rows, the header "name / phone" and no data: as written it fails, and corrected it returns the header name, First Name, Last Name, phone over no rows. |

## Left out

- Reading the file (CSV or Excel), the web routes, the upload checks and the download. They are I/O around the cleaner; `app.py` is not part of this model.
- General regular expressions. The eleven patterns of processing.py:95-98 are hand-coded as word sequences, with `\s*` between words and an optional word boundary at both ends.
- Unicode. Case folding, whitespace and digits are ASCII.
- `pd.to_numeric`. It is the parameter `parse`, where None stands for the library's "not a number".
- Floating-point comparison. Distances are exact reals.
- Missing raw data. An input of `None` is not modelled.
- The pandas index, `.copy()` and `reset_index`. Rows carry their label until the output, which drops it.
- Pipeline.CleanAndFilter: requires an admissible sheet, which has four parts:
  - it is rectangular;
  - it is read as text;
  - its header names are all different, because the library's behaviour with repeated column labels is not modelled;
  - its distance column is neither the name nor the status column, because rendering a coerced number back to text is not modelled.
- Reference.OutputPhonesValid: requires the distance column to differ from the phone column. When they coincide, the phone cell is made numeric after the phone filters.
- Pipeline.Filtered, Phone.PhoneFilters, Filters.DistanceFilter, Filters.StatusFilter: their own contracts state only the size bound. What they keep is stated by Reference.FilteredIsReference, Phone.PhoneFiltersAreOneMask and the Reference stage lemmas.

## Findings

| source | as written | input that shows it | evidently intended | confidence | as-written member | corrected member |
|---|---|---|---|---|---|---|
| processing.py:143-145 | When no row survives the filters, `apply` on the empty name column returns an empty Series rather than a frame, so `split_df["First Name"]` raises a KeyError | three banner rows, the header row "name", "phone", and no data rows (or any sheet whose rows are all filtered out) | an empty table with the output header | not executed | Findings.EmptySheetShowsFinding | Reference.CorrectedReturnsEmptyTable |
