# Cabinet scraper: a verified model of its table pipeline

`scrape_data.py` builds a table of a presidential cabinet from the
tables of a Wikipedia page, then merges several cabinet tables into one.
This project models its data pipeline in Dafny as pure functions over an
explicit table type and proves what each step guarantees. The steps are:

1. **Header flattening** (`Headers`): two-level headers become flat column
   names. A repeated name gets `_1`, `_2`, … suffixes, pass by pass, exactly
   as the in-place loop does.
2. **Per-table normalisation** (`Normalizer`, `NameCleaning`):
   - placeholder columns are dropped;
   - every row is stamped with `Position` and `Administration`;
   - rows whose `Name` is missing or the literal `Name` are filtered out;
   - names have their tags stripped and their whitespace collapsed and trimmed.
3. **Stacking** the processed tables (`Merger.Concat`), with the union of
   their columns.
4. **Field derivation** (`Deriver`, `Scanners`):
   - `""` and `"N/A"` become missing;
   - `Birth Date`, `Birth Year` and `Age` come from `Date of birth`;
   - `Start year`, `End year` and `Current` come from `Years`;
   - `State` comes from `Background`.

   Every regular expression is replaced by a small scanner that finds the
   same leftmost match, with `\d` restricted to ASCII digits (see "Left
   out").
5. **Pruning and ordering** (`Deriver.PruneAndOrder`): all-missing and
   redundant columns are dropped. The priority columns come first, in
   priority order, and the rest follow sorted.
6. **Merging cabinet files** (`Merger.CombineCabinets`): files that could
   not be read are skipped. The reader's missing-value markers become
   missing, and the files are stacked.

`Pipeline.CreateCabinet` composes steps 1–5 and `Merger.CombineCabinets`
is step 6.

The data model (`Tables`) follows pandas:
- A cell is `Absent`, `Text`, `Int`, `Bool` or `Date`.
- A row maps column names to cells.
- A table is its ordered column names plus its rows.
- `Valid` is the invariant the model's tables keep: unique column names,
  and every row has exactly the table's columns. pandas itself allows
  duplicate column labels, and the header handling can produce them (see
  `Normalizer.BuildTable` under "Left out").

Date parsing (`pd.to_datetime`) and date formatting (`strftime`) are opaque
parameters bundled in `Deriver.DateCodec`. A fetched table is a
`Normalizer.RawTable`: its header levels plus its body cells.

Supporting modules:
- `Seqs`: distinctness, occurrence counts, filtering, relative order.
- `Text`: Python's `str.isspace` and `\d` classes, trimming, and a generic
  leftmost-match search.
- `StringOrder`: code-point order and sorting, as `Index.difference` uses.
- `Optional`: the option type.

## Where the code departs from its evident intent

The model follows the code in each case.

- **Column order.** The remaining columns are taken with
  `Index.difference` (scrape_data.py:181), which returns them sorted rather
  than in the table's order. `Deriver.SortedRest` sorts them.
- **Merge null markers.** The reader is given `na_values=["", "N/A"]`
  (scrape_data.py:228), but `keep_default_na=True` (scrape_data.py:229)
  keeps pandas' default list as well. So `Merger.ReaderNullTokens` also
  holds `NA`, `NULL`, `nan`, `None` and the others.
- **Age case.** The age pattern lists three spellings, `age`, `Age` and
  `AGE` (scrape_data.py:130), where the state pattern uses `IGNORECASE`
  (scrape_data.py:157). So `aGe 74` yields no age.
- **Unique names.** The suffixing loop (scrape_data.py:63-68) is there to
  make the names unique, but it reuses a name that already looks like a
  suffixed one: `["A_1", "A", "A"]` becomes `["A_1", "A", "A_1"]`
  (`Headers.DedupeCanCollide`). Uniqueness is proved only when no such name
  exists (`Headers.DedupeDistinct`).
- **Empty names.** The row filter (scrape_data.py:82-83) is meant to drop
  rows without a name, but it runs before cleaning (scrape_data.py:88-90).
  A name made only of tags or whitespace survives the filter and cleans to
  `""`. Null normalisation then turns it into a missing name.
- **Date part.** The comment at scrape_data.py:111 takes the date part as
  the text before the parentheses. The pattern `(.*?)\s*\(` also drops the
  whitespace before the first `(`, and because `.` does not cross a
  newline, the match starts after the last newline before that whitespace
  (`Scanners.DatePart`).

## Model

| member | source | states |
|---|---|---|
| Headers.FlatName | scrape_data.py:57-59 | a column's flat name is its second-level label when that label has a non-whitespace character, and otherwise its top-level label |
| Headers.Flatten | scrape_data.py:52-61 | flattening keeps the number of columns and flattens each column on its own |
| Headers.Repeated | scrape_data.py:63-64 | the names to suffix are exactly those occurring at least twice, each listed once, in order of first appearance |
| Headers.DedupeKeepsSingletons | scrape_data.py:63-68 | a name that occurs once keeps its name and its position |
| Headers.DedupeIsExpected | scrape_data.py:63-68 | when no name already has the form `name_k`, the first occurrence of a repeated name keeps it and its k-th later occurrence becomes `name_k` |
| Headers.DedupeDistinct | scrape_data.py:63-68 | when no name already has the form `name_k`, the resolved names are pairwise distinct |
| Headers.DedupeCanCollide | scrape_data.py:63-68 | with a pre-existing `A_1`, suffixing produces a second `A_1`, so the names are not distinct |
| Headers.DedupeSeesEarlierPasses | scrape_data.py:63-68 | a later pass sees the names an earlier pass wrote: `A, A, A_1, A_1` becomes `A, A_1, A_1_1, A_1_2` |
| Headers.SuffixedInjective | scrape_data.py:68 | `name_k` determines both the name and the number |
| Headers.ExpectedDistinct | scrape_data.py:63-68 | the intended naming, first occurrence bare and later ones numbered, has no duplicates when no name has the form `name_k` |
| Normalizer.KeptColumns | scrape_data.py:73-74 | the kept columns are exactly the names that neither contain `Unnamed` nor match `^$` (the empty name or a lone newline), in their original order, each once |
| Normalizer.BuildTable | scrape_data.py:70-74 | the table has exactly the kept columns, one row per body row, and each cell is the body cell under that column's position |
| Normalizer.StampTable | scrape_data.py:76-79 | every row gets the position and the administration; every other cell and the row count stay the same |
| Normalizer.FilterNameRows | scrape_data.py:81-83 | with a `Name` column, the surviving rows are exactly the rows whose name is present and not the literal `Name`; without one, the table is untouched |
| Normalizer.FilterNameRowsInOrder | scrape_data.py:83 | filtering distributes over a split of the rows, and a single row survives exactly when it has a name, so the survivors keep their order |
| Normalizer.CleanedName | scrape_data.py:86-90 | a text name becomes the text with tags removed, whitespace collapsed and ends stripped; any other cell becomes missing; the result is clean |
| Normalizer.CleanNames | scrape_data.py:86-90 | when the `Name` column holds some text, every name becomes its cleaned form; otherwise the table is unchanged. No other column changes, and every textual name is clean |
| Normalizer.CleanNamesIdempotent | scrape_data.py:86-90 | cleaning the names of a table a second time changes no cell |
| Normalizer.ProcessTable | scrape_data.py:38-95 | a table with a single-level header is skipped, a table with no columns is skipped (the failing first-label read), and every other table is processed |
| Normalizer.ProcessedTable | scrape_data.py:38-92 | a two-level header with at least one label is processed, and the resulting table is valid and has at most the input's rows. Every row carries the first column's top label as `Position` and the given administration, and every name is clean. Every other column is a resolved, non-placeholder name |
| Normalizer.FilteredStamps | scrape_data.py:77-90 | filtering rows and cleaning names keep the position and administration stamps on every remaining row |
| NameCleaning.StripTagsNoTag | scrape_data.py:88 | after tag stripping, nothing matching the tag pattern `<[^>]+>` remains: a `<` with a later `>` is directly followed by it |
| NameCleaning.StripTagsUnchanged | scrape_data.py:88 | text without tags is left as it is |
| NameCleaning.StripTagsKeep | scrape_data.py:88 | a character other than `<` is kept ahead of the rest of the stripped text |
| NameCleaning.StripTagsTag | scrape_data.py:88 | a `<`, at least one character other than `>`, and the next `>` are removed together |
| NameCleaning.StripTagsOpenStays | scrape_data.py:88 | a `<` directly followed by `>`, or with no `>` after it, is kept |
| NameCleaning.Collapse | scrape_data.py:90 | collapsing whitespace empties only the empty text, starts with a space exactly where the text starts with whitespace, and introduces no character besides a space |
| NameCleaning.CollapseRun | scrape_data.py:90 | a whitespace run at the start, however long, becomes one space, and collapsing continues after the run |
| NameCleaning.CollapseSpaces | scrape_data.py:90 | a non-empty block of whitespace before text that does not start with whitespace becomes a single space in its place |
| NameCleaning.CollapseNonSpace | scrape_data.py:90 | a character other than whitespace is kept ahead of the rest of the collapsed text |
| NameCleaning.CollapseWords | scrape_data.py:90 | `"  b c"` collapses to `" b c"`: each run becomes one space and the words keep their separation |
| NameCleaning.CollapseShape | scrape_data.py:90 | after collapsing, no two whitespace characters are adjacent, and no tag is created |
| NameCleaning.CollapseUnchanged | scrape_data.py:90 | single-spaced text is left as it is |
| NameCleaning.CollapseKeepsVisible | scrape_data.py:90 | collapsing keeps every character other than whitespace, in order |
| NameCleaning.StripKeepsVisible | scrape_data.py:90 | `str.strip` removes whitespace only |
| NameCleaning.CleanNameIsClean | scrape_data.py:86-90 | a cleaned name has no tag, no leading or trailing whitespace and no two adjacent whitespace characters |
| NameCleaning.CleanUnchanged | scrape_data.py:86-90 | cleaning leaves a clean name as it is |
| NameCleaning.CleanNameIdempotent | scrape_data.py:86-90 | cleaning twice is cleaning once |
| NameCleaning.CleanNameKeepsVisible | scrape_data.py:86-90 | cleaning keeps every character outside tags and whitespace, in order |
| Deriver.NormalizeCell | scrape_data.py:105 | a cell becomes missing exactly when it is missing or is one of the null tokens, and is otherwise unchanged |
| Deriver.NormalizeNulls | scrape_data.py:105 | null normalisation acts cell by cell and keeps the columns and rows |
| Deriver.NormalizeNullsIdempotent | scrape_data.py:105 | normalising twice is normalising once, and no text cell left is a null token |
| Scanners.DatePart | scrape_data.py:112 | without `(` the date part is the whole text. With one, it is the part after the last newline of the text before the first `(` with its trailing whitespace removed. It holds no `(` and no newline and does not end in whitespace |
| Scanners.FirstFourDigits | scrape_data.py:124 | the value of the leftmost run of four digits, and none exactly when no four digits stand in a row |
| Scanners.FindAge | scrape_data.py:130 | the number at the leftmost position where `age`, `Age` or `AGE`, optional whitespace and a digit match, and none exactly when no position matches |
| Deriver.BirthDateOf | scrape_data.py:112-114 | `Birth Date` is the parsed date part when the parse succeeds, and missing otherwise |
| Deriver.BirthYearOf | scrape_data.py:117-127 | `Birth Year` is the parsed date's year, else the first four-digit run of the original text, and missing only when both fail |
| Deriver.AgeOf | scrape_data.py:130-133 | `Age` is present exactly when the age pattern matches textual input, and then it is the matched number |
| Deriver.DeriveBirth | scrape_data.py:108-133 | with a `Date of birth` column, each row gets its birth date, birth year and age from that row's date of birth. Nothing else changes, and without that column nothing changes at all |
| Scanners.TenureAt | scrape_data.py:138 | a tenure match starts exactly at four digits. It has an end year exactly when a dash, optional whitespace and four digits follow and the word `present` does not |
| Scanners.FindTenure | scrape_data.py:138-139 | the match at the leftmost position where the years pattern matches, and none exactly when it matches nowhere |
| Scanners.TenureStartIsFirstYear | scrape_data.py:138-142 | the years pattern matches exactly when some four digits occur, and its start year is the first four-digit run |
| Deriver.StartYearOf | scrape_data.py:142 | `Start year` is the first four-digit run of textual `Years`, and missing otherwise |
| Deriver.EndYearOf | scrape_data.py:143 | `End year` is present exactly when the leftmost years match has a second year, which it then holds |
| Deriver.CurrentOf | scrape_data.py:146-148 | `Current` is always a boolean, true exactly when the text mentions `present` in any letter case |
| Deriver.DeriveTenure | scrape_data.py:136-148 | with a `Years` column, each row gets its start year, end year and current flag from that row's years. Nothing else changes, and without that column nothing changes at all |
| Scanners.StateRun | scrape_data.py:154 | the longest prefix of letters and whitespace |
| Scanners.LetterRun | scrape_data.py:154 | a non-empty maximal run of letters and whitespace at the start of the text |
| Scanners.GroupAfterSpaces | scrape_data.py:154 | `\s+([A-Za-z\s]+)` matches exactly when a whitespace character is followed by a letter or more whitespace. Its capture is greedy: it ends where the leading run of letters and whitespace ends, and it leaves at least one whitespace character to `\s+` |
| Scanners.FindState | scrape_data.py:153-158 | the result is the capture at the leftmost position where the state pattern matches, and it is non-empty and made of letters and whitespace. There is none exactly when the pattern matches nowhere |
| Deriver.StateOf | scrape_data.py:156-158 | `State` is present exactly when the state pattern matches textual `Background`, and is then the non-empty capture |
| Deriver.DeriveState | scrape_data.py:151-158 | only a table with `Background` and without `State` gains a last column `State`, derived row by row; nothing else changes |
| Deriver.Surviving | scrape_data.py:160-167 | the surviving columns are exactly those that are not redundant and hold a value in some row, without duplicates |
| Deriver.PresentPriority | scrape_data.py:180-185 | the present priority columns, exactly once each and in priority order |
| Deriver.SortedRest | scrape_data.py:181 | the other columns, exactly once each and strictly sorted |
| StringOrder.SortDistinct | scrape_data.py:181 | sorting yields a strictly increasing list with the same members |
| StringOrder.LessTotal | scrape_data.py:181 | the code-point order relates any two different texts |
| Deriver.OrderColumns | scrape_data.py:170-186 | reordering keeps exactly the same columns, each once |
| Deriver.OrderColumnsShape | scrape_data.py:170-186 | the reordered columns are the priority ones in priority order, then the others sorted |
| Deriver.PriorityNotRedundant | scrape_data.py:164-179 | no priority column is a redundant one |
| Deriver.PruneAndOrder | scrape_data.py:160-186 | the output columns are exactly the non-redundant columns with a value, in priority-then-sorted order, and every kept cell is unchanged |
| Deriver.PruneKeepsValues | scrape_data.py:160-167 | no value of a non-redundant column is lost: a pruned column was missing in every row |
| Deriver.FormatBirthDate | scrape_data.py:189-190 | a birth date becomes its formatted text, a missing one stays missing, and nothing else changes |
| Tables.SetColumn | scrape_data.py:77-79 | assigning a column overwrites it in place or appends it last, and leaves every other cell unchanged |
| Tables.DeriveColumn | scrape_data.py:142-143 | a derived column holds the function of the source cell in every row, and every other cell is unchanged |
| Tables.Select | scrape_data.py:186 | selecting columns keeps every row and the cells of the chosen columns |
| Merger.Union | scrape_data.py:243 | the column union keeps the existing columns first, then appends the new ones in their order, each once |
| Merger.AllColumns | scrape_data.py:243 | the stacked columns are exactly those some table has, each once |
| Merger.FirstColumnsLead | scrape_data.py:243 | the first table's columns lead the stacked columns, in their own order |
| Merger.UnionOfDistinct | scrape_data.py:243 | the union with nothing before a duplicate-free column list is that list |
| Merger.RowsLength | scrape_data.py:243 | the stack has as many rows as the tables together |
| Merger.RowOrigin | scrape_data.py:243 | every stacked row is a row of one of the tables |
| Merger.RowsPlacement | scrape_data.py:243 | the i-th row of the k-th table is the stack's row at the k-th table's offset plus i |
| Merger.Concat | scrape_data.py:102 | the stacked table is valid, has the union of the columns and one row per input row, and each row reads as its source row |
| Merger.ConcatPlacement | scrape_data.py:243 | every input cell reappears at its row's offset, and a column the source table lacked reads as missing there |
| Merger.Loaded | scrape_data.py:222-237 | every readable file is kept and only readable files are |
| Merger.LoadedAppend | scrape_data.py:222-237 | one more attempt appends its table when the read succeeds and nothing otherwise, so the files keep the order given |
| Merger.CombinedPlacement | scrape_data.py:222-243 | row i of the k-th file read is the merge's row at that file's offset plus i, every cell with its null markers made missing. `CombineWith` is the merge with the marker set as a parameter, and `CombineCabinets` uses the reader's set |
| Merger.CabinetPlacement | scrape_data.py:222-243 | row i of the k-th file read is the merged cabinet's row at that file's offset plus i, with the reader's null markers made missing; the files read keep the order given (`Merger.LoadedAppend`) |
| Merger.CombineCabinets | scrape_data.py:208-243 | the merge is valid and empty when nothing was read. Its columns are those of some read file, it has one row per row read, and no text cell is a reader null marker |
| Pipeline.ProcessedTables | scrape_data.py:35-92 | the k-th result is the processed form of the k-th table that is not skipped, so every table that is not skipped contributes, in fetch order. Every result carries the stamps and clean names, and there is none exactly when every table is skipped |
| Pipeline.ProcessedTablesAppend | scrape_data.py:35-92 | one more fetched table appends its processed form, or nothing when it is skipped |
| Pipeline.SkipsIsSkipped | scrape_data.py:38-45 | a table is skipped exactly when it has a single-level header or no columns |
| Pipeline.ProcessedOf | scrape_data.py:38-92 | each processed table carries the administration on every row, and clean names |
| Pipeline.CreateCabinet | scrape_data.py:97-190 | the cabinet table is valid and is empty when no table was processed. It has one row per processed row and no redundant column |
| Pipeline.Derived | scrape_data.py:104-158 | the derivations keep every row and column and leave names and administration as null normalisation made them |
| Pipeline.Finish | scrape_data.py:160-190 | the final columns are the surviving ones in priority-then-sorted order, with their cells unchanged except the formatted birth date |
| Pipeline.ConcatStamp | scrape_data.py:102 | stacking keeps the administration stamp and the clean names on every row |
| Pipeline.CabinetNames | scrape_data.py:81-190 | every textual name in the cabinet table is clean |
| Pipeline.CabinetAdministration | scrape_data.py:79-186 | unless the administration is a null token, every row of a non-empty cabinet names it, and `Administration` is the first column |
| Pipeline.FinishKeeps | scrape_data.py:160-190 | a surviving column other than `Birth Date` keeps all its cells |
| Pipeline.AdministrationLeads | scrape_data.py:170-186 | when `Administration` is present, it is the first column after reordering |
| Examples.DobDerivation | scrape_data.py:108-133 | `January 1, 1950 (age 74)` gives the parsed date, the year 1950 and the age 74 |
| Examples.CircaDerivation | scrape_data.py:117-127 | an unparseable `c. 1950` has no birth date but gets the year 1950 from the fallback |
| Examples.OngoingDerivation | scrape_data.py:136-148 | `2021–present` gives start 2021, no end year, and current |
| Examples.FinishedDerivation | scrape_data.py:136-148 | `2017–2019` gives start 2017, end 2019, and not current |
| Examples.CapitalisedDerivation | scrape_data.py:136-148 | `2021–Present` has no end year yet is current, because only the `Current` test ignores case |
| Examples.BackgroundState | scrape_data.py:151-158 | `Senator from Ohio (2010)` gives the state `Ohio ` with its trailing space |
| Examples.MergeExample | scrape_data.py:243 | stacking `A, B` over `B, C` gives columns `A, B, C`, and the first row lacks `C` |

## Left out

- Fetching the page and parsing its HTML (`pd.read_html`,
  scrape_data.py:29): network I/O and a foreign parser. The fetched tables
  are the input, as `RawTable` values.
- Building the page name and the output file name (scrape_data.py:23-25):
  they only name files.
- Writing and reading CSV files, `os.makedirs` and every `print`
  (scrape_data.py:197-203, 226-231, 246-262): file I/O. A file read is an
  `Option<Table>`, with `None` for a failed read.
- Exceptions (scrape_data.py:94-95, 236-237): they are explicit skip values
  (`Normalizer.TableResult`) and failed reads. The model skips a table with
  a two-level header only when it has no columns (the first-label read).
- Normalizer.ProcessTable: a `Name` column of object type whose rows after
  the filter at scrape_data.py:83 hold no text (say the cells `"Name"` and
  `5`) makes `.str.replace` at scrape_data.py:88 raise, and the source skips
  the table. The model processes it and leaves those names as they are,
  because it does not track pandas' column types.
- Pipeline.CreateCabinet: a `.str` accessor on a column without any text
  (scrape_data.py:112, 139, 146, 156), or `.dt` on a fetched textual
  `Birth Date` column when there is no `Date of birth` (scrape_data.py:190),
  raises outside the `try`, and `create_cabinet_csv` produces no table. The
  model instead yields missing cells, and `Deriver.FormatBirthDate` turns
  such text into missing values.
- `pd.to_datetime` and `strftime` (scrape_data.py:114, 190): both are opaque
  parameters, and so is pandas' inference of one date format for a whole
  column. A date-of-birth cell that is not text is treated as unparseable.
- The float-to-`Int64` fixups (scrape_data.py:193-195): they only change
  pandas' storage type, and in the model integers are already integers.
  The `downcast` of `pd.to_numeric` is left out for the same reason.
- Headers with more than two levels, and `pd.read_csv` type inference:
  cells read back are kept as they are.
- Normalizer.BuildTable: when a suffix collision leaves two columns with one
  name, the model keeps only the first. pandas would keep both, which rows
  as maps cannot hold.
- Normalizer.CleanNames: pandas cleans only a column of object type. The
  model treats the column as object-typed when it holds some text.
- Deriver.AgeOf: the age is the exact number of the digit run, because the
  model's integers are unbounded. `pd.to_numeric` (scrape_data.py:131-133)
  parses a run above 2^64 - 1 into a float64, so the source rounds such an
  age. An `Age` column with a missing age is also stored as floats, since
  `Age` is not among the columns converted back at scrape_data.py:193-195;
  as with the float-to-`Int64` line, storage types and the CSV text are
  not modelled.
- Scanners.FindAge and Scanners.FirstFourDigits: only ASCII digits count as
  digits. Python's `\d` also accepts other Unicode decimal digits.
- Scanners.TenureAt: only ASCII digits count for `\d{4}`, so four
  non-ASCII decimal digits (say Arabic-Indic ones) start no tenure here,
  where Python's pattern matches them.
- Scanners.FindTenure: for the same reason the leftmost tenure can lie
  further right than Python's, or be missing, when the text holds non-ASCII
  decimal digits.
- The script entry point and its list of pages (scrape_data.py:265-312):
  it only wires the calls together.
