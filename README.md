# Palermo recovery dashboard — verified model of the data core

`app.py` is a Streamlit page for a law firm. It loads a table of court cases with recoverable judicial deposits. The sidebar narrows the table by court, by state and by three data-quality toggles. The page then shows headline metrics, a ranking of defendants by balance, and a table of the selected cases.

This project models the data logic of that page in Dafny and proves what it promises:

- **Loading** (`Normalize`, `Frames.LoadData`). The loader first looks for the columnar cache. If the cache exists, the loader returns it as it is. Otherwise it reads the spreadsheet, writes back cleaned text into the four categorical columns (`strip().upper()` of `astype(str)`), coerces `ano_base` to a number, writes the cache, and returns the table. When neither file exists it returns no table.
  - A missing categorical cell becomes the text "NAN", because `astype(str)` runs before the clean-up. The `dropna()` of the option lists and the grouping of the ranking therefore never see it as missing.
  - The model keeps this behaviour and proves it (`Normalize.MissingCleansToNAN`, `Facets.NormalizedOptions`).
- **Option lists** (`Facets`). The court and state pickers offer the sorted, de-duplicated, non-missing values of their column.
- **Filter chain** (`Filters`). The chain starts from a copy of the loaded frame and applies one boolean mask per active criterion:
  - `isin` on courts and states, applied only when the selection is non-empty;
  - `cnj_ok == True`;
  - `doc_ok == True`;
  - `ano_base > 2014`.

  Each of the last three applies only when its toggle is on and its column exists.
- **Metrics** (`Metrics`, `Currency`):
  - the row count, rendered with thousands commas;
  - the electronic count and percentage;
  - the deposit total, rendered as `R$ {x:,.2f}` and then rewritten with three `replace` calls into the Brazilian convention.
- **Defendant ranking** (`Ranking`). The view is grouped by defendant. Each group sums its balance and counts its case numbers. Groups are sorted by sum, largest first, and cut to 15. No order is promised among groups with equal sums, because pandas' default sort is not stable.
- **Presentation table** (`Table`). The presentation columns that are present are kept, in their fixed order. The "Tipo" label ("🌐 Eletrônico" or "📄 Físico/Antigo") is written into the view in place, and "Tipo" is inserted first in the list of shown columns.

Data model: a row is a `Records.Record` with one field per column. A field is an `Option` wherever pandas can hold a missing cell. A table is a `Records.Dataset`: its set of present columns together with its rows. The in-place dataframe operations work on the class `Frames.Frame`. Amounts are integer cents. The percentage is an exact `real`.

## Model

| member | source | states |
|---|---|---|
| Text.UpperChar | app.py:145 | upper-casing leaves no lower-case letter and keeps whitespace as whitespace |
| Text.UpperSpec | app.py:145 | `upper()` keeps the length and maps every character through the ASCII upper-case map |
| Text.TrimStartSpec | app.py:145 | the leading trim removes exactly the longest whitespace prefix and nothing else |
| Text.TrimEndSpec | app.py:145 | the trailing trim removes exactly the longest whitespace suffix and nothing else |
| Text.StripSpec | app.py:145 | `strip()` gives a trimmed infix of the input, and everything cut from either end is whitespace |
| Text.StripTrimmed | app.py:145 | a string with no whitespace at either end is its own strip |
| Text.UpperKeepsTrimmed | app.py:145 | upper-casing a trimmed string leaves it trimmed, with no lower-case letter |
| Text.UpperIdempotent | app.py:145 | a string with no lower-case letter is its own upper-case form |
| Text.CleanIdempotent | app.py:145 | `strip().upper()` gives a trimmed string with no lower-case letter, and applying it again changes nothing |
| Text.LessIrreflexive | app.py:168 | no string sorts before itself |
| Text.LessAsymmetric | app.py:168 | two strings never sort before each other |
| Text.LessTransitive | app.py:168 | the string order used by `sorted` is transitive |
| Text.LessTotal | app.py:168 | any two distinct strings are ordered one way or the other |
| Numerals.Digits | app.py:248 | the numeral of a number is non-empty, all digits, and has no leading zero |
| Numerals.DigitsRoundTrip | app.py:248 | reading back the numeral of `n` gives `n` |
| Numerals.ParseIntText | app.py:149 | `to_numeric` reads the text of any integer back as that integer |
| Numerals.ParseIntRejects | app.py:149 | text holding a character that is neither a digit nor a leading sign is not a number |
| Records.LabelRows | app.py:301 | labelling keeps the rows in order and gives each row the label of its own year |
| Normalize.Normalized | app.py:142-149 | normalising keeps the columns and the number of rows |
| Normalize.NormalizeRecordText | app.py:143-145 | a listed column that is present holds the cleaned text of its old cell |
| Normalize.NormalizedIsClean | app.py:142-149 | every present listed column holds clean text in every row; a missing cell becomes "NAN"; a present year is never left as text |
| Normalize.NormalizeLeavesOthers | app.py:142-149 | columns that are not listed, or are absent, keep their cells |
| Normalize.MissingCleansToNAN | app.py:145 | a missing cell is cleaned to "NAN" |
| Normalize.CleanCellFixed | app.py:145 | cleaning an already cleaned cell changes nothing |
| Normalize.ToNumeric | app.py:149 | with `errors='coerce'`: a missing year stays missing, a number is kept, text that parses as an integer (sign and leading zeros allowed, so "+2010" and "02010" give 2010) becomes exactly that number, and any other text becomes missing; no year is left as text |
| Normalize.ToNumericRejects | app.py:149 | text holding a character that is neither a digit nor a leading sign is coerced to a missing year rather than raising |
| Normalize.ToNumericIdempotent | app.py:149 | coercion yields a number or a missing cell, and coercing again changes nothing |
| Normalize.ToNumericReadsText | app.py:149 | a year stored as the text of an integer is read as that integer |
| Normalize.NormalizeRecordIdempotent | app.py:142-149 | normalising a normalised row changes nothing |
| Normalize.NormalizeIdempotent | app.py:142-149 | normalising twice equals normalising once |
| Seqs.Where | app.py:193 | a boolean mask keeps at most as many rows as there were |
| Seqs.WhereIndices | app.py:193 | a mask gives an order-preserving subsequence that keeps a row iff the mask holds for it |
| Seqs.WhereMembers | app.py:193 | a row is in the masked frame iff it was in the frame and satisfies the mask |
| Seqs.WhereIdentity | app.py:193 | a mask keeps every row iff it holds for every row |
| Seqs.WhereCommutes | app.py:192-209 | two masks can be applied in either order |
| Seqs.WhereIdempotent | app.py:192-209 | applying the same mask twice is applying it once |
| Seqs.WhereKeepsAll | app.py:193 | a mask keeps as many rows as there are iff it holds for every row |
| Seqs.SumPartition | app.py:246 | the sums over the kept and the dropped rows add up to the whole sum |
| Seqs.SumWhereBound | app.py:246 | with no negative weight, the sum over kept rows lies between 0 and the whole sum |
| Frames.Frame.Copy | app.py:190 | `copy()` is a new frame holding the same table |
| Frames.Frame.Select | app.py:193 | `df[mask]` is a new frame with the same columns and the masked rows |
| Frames.Frame.CleanCategorical | app.py:142-145 | the loop writes the cleaned text into each present listed column of every row, in place, and touches nothing else |
| Frames.Frame.CoerceYearColumn | app.py:148-149 | the year of every row is coerced when the column is present |
| Frames.Frame.AddTipo | app.py:300-301 | the frame gains the "Tipo" column and every row gets the label of its year |
| Frames.LoadData | app.py:133-153 | the cache is returned as it is when it exists; otherwise the spreadsheet is normalised, written to the cache and returned; otherwise there is no table |
| Frames.LoadTwice | app.py:133-152 | a second load returns the table the first one returned, from the cache it wrote |
| Facets.InsertSpec | app.py:168 | adding a value to a sorted option list keeps it strictly ascending and adds exactly that value |
| Facets.SortedDistinctSpec | app.py:168 | the option list is strictly ascending and holds a value iff some non-missing cell has it |
| Facets.AscendingDistinct | app.py:168 | a strictly ascending list has no repeated value |
| Facets.Options | app.py:168-171 | there is no option list iff the column is absent; otherwise the list is strictly ascending and holds exactly the non-missing values |
| Facets.NormalizedOptions | app.py:142-171 | after loading from the spreadsheet every option is clean text, and "NAN" is offered when some cell was missing |
| Filters.ChainSpec | app.py:192-209 | a chain of masks keeps exactly the rows that pass all of them, in order |
| Filters.ChainAnyOrder | app.py:192-209 | chains of the same masks in any order give the same view |
| Filters.ActiveStepsAdmit | app.py:192-209 | the active masks together admit a row iff it meets every active criterion |
| Filters.FilteredIsChain | app.py:190-209 | the filtered view is the chain of the active masks applied to the loaded rows |
| Filters.ApplyFilters | app.py:190-209 | the filter chain yields a new frame holding exactly the filtered view and leaves the loaded frame unchanged |
| Filters.FilterKeepsExactly | app.py:192-209 | the view `Filtered(d, crit)` is an order-preserving subsequence of the loaded rows, and a row is kept iff every active criterion holds for it |
| Filters.FilterIdentity | app.py:192-209 | with nothing selected and no toggle that applies, the view is the loaded table |
| Filters.FilterIdempotent | app.py:192-209 | filtering the view again with the same criteria changes nothing |
| Filters.FilterCommutes | app.py:192-209 | filtering by two sets of criteria in either order gives the same view |
| Metrics.ElectronicCount | app.py:232 | the electronic count is at most the row count, and 0 without an `ano_base` column |
| Metrics.ElectronicPercent | app.py:233 | the percentage lies in [0, 100] and is 0 on an empty view |
| Metrics.ElectronicCountAll | app.py:232 | with an `ano_base` column, the count equals the row count iff every row's year is after 2014 |
| Metrics.ElectronicOnlyShowsAll | app.py:208-233 | after the electronic-only filter a non-empty view is 100% electronic |
| Metrics.DepositTotal | app.py:246 | the deposit total is 0 without the deposit column |
| Metrics.DepositTotalNonNegative | app.py:246 | the deposit total is never negative when no deposit is |
| Metrics.FilteredRowCount | app.py:190-230 | the filtered row count (`RowCount` of `Filtered`) is at most the loaded row count, and equals it iff every loaded row meets every active criterion |
| Metrics.DepositSplit | app.py:246 | the deposit totals of the view and of the dropped rows add up to the loaded total; with no negative deposit the view's total lies between 0 and the loaded total |
| Metrics.CourtScenario | app.py:192-233 | selecting court "A" from a 2015 case in "A" and a 2010 case in "B" leaves one row, 100% electronic |
| Currency.ReplaceCharSpec | app.py:248 | one `replace` of a character keeps the length and rewrites exactly the occurrences of that character |
| Currency.SwapSeparatorsSpec | app.py:248 | on text without 'X', `SwapSeparators` (the three replacements) keep the length, turn "," into "." and "." into ",", and leave every other character |
| Currency.SwapSeparatorsInvolution | app.py:248 | on text without 'X', applying the three replacements twice gives back the text |
| Currency.AmountSwapped | app.py:248 | the Brazilian rendering of an amount is its `{:,.2f}` rendering with each mark swapped |
| Currency.AmountHasNoX | app.py:248 | the `{:,.2f}` rendering contains no 'X', so the temporary marker cannot clash |
| Currency.DepositTextIsBrazilian | app.py:247-248 | the deposit metric `DepositText` reads "R$ " followed by the amount with "." between thousands and "," before the cents |
| Currency.Group3Ungroup | app.py:248 | removing the thousands marks from a grouped numeral gives back its digits |
| Currency.RenderAmountDenotes | app.py:248 | without its thousands marks the rendering is the sign, the units, the decimal mark and two digits, and these denote the amount in cents |
| Currency.TwoDigitsValue | app.py:248 | the two decimal digits denote the cents |
| Currency.CountTextDenotes | app.py:230 | `CountText`, the comma-grouped row count, without its commas, is the numeral of the count |
| Ranking.GroupsFor | app.py:259-262 | there is one group per key, in key order, each holding its defendant's summed balance and count of case numbers |
| Ranking.GroupNames | app.py:259 | group names are strictly ascending and are exactly the non-missing defendants |
| Ranking.InsertDescPermutes | app.py:264 | inserting a group into the sorted list adds exactly that group |
| Ranking.InsertDescSorted | app.py:264 | inserting keeps the list sorted from the largest sum down |
| Ranking.SortDescPermutes | app.py:264 | sorting yields a permutation of the groups |
| Ranking.SortDescSorted | app.py:264 | sorting puts the sums in non-increasing order |
| Ranking.SortDescNames | app.py:264 | sorting keeps distinct names distinct |
| Ranking.TopSpec | app.py:264 | `head(n)` keeps min(n, number of groups) groups, taken from the groups, from the largest sum down |
| Ranking.TopNames | app.py:264 | the listed groups have distinct names |
| Ranking.TopOmitsSmaller | app.py:264 | a group is left out only when n groups are listed, each with a sum at least as large |
| Ranking.TopEntries | app.py:259-264 | each listed entry is the group of a defendant of the view |
| Ranking.GroupTotalsSum | app.py:259-262 | the group sums add up to the balance of the rows that have a defendant |
| Ranking.SortDescSum | app.py:264 | sorting keeps the total of the sums |
| Ranking.Rank | app.py:259-277 | the panel shows the "adjust the filters" notice iff the view has no rows; it shows a ranking iff the view is not empty and has the defendant, balance and case-number columns, which would otherwise raise `KeyError`; a ranking has at most 15 entries with non-increasing sums |
| Ranking.RankSpec | app.py:257-266 | at most 15 entries, distinct names, sums non-increasing; each entry has its defendant's summed balance and count of case numbers; no group left out has a larger sum than any listed one |
| Ranking.TopWithinTotal | app.py:264 | with no negative sum, the listed sums add up to at most the sum over all groups |
| Ranking.RankWithinTotal | app.py:259-264 | with no negative balance, the listed sums add up to at most the balance of the whole view |
| Table.PresentableMembers | app.py:293-297 | a presentation column is shown iff it is present |
| Table.PresentableOrder | app.py:293-297 | shown columns keep the fixed presentation order, so each appears once |
| Table.ShownColumnsSpec | app.py:293-303 | in `ShownColumns`, "Tipo" is shown, and shown first, iff there is an `ano_base` column; the shown columns are distinct and all exist in the labelled table |
| Table.LabelShown | app.py:301 | a labelled row always has a "Tipo" cell, and it reads "🌐 Eletrônico" exactly when the year is a number after 2014, "📄 Físico/Antigo" otherwise |
| Table.LabelMatchesMetric | app.py:232-301 | with an `ano_base` column, the rows of the labelled table marked "Eletrônico" are exactly as many as `ElectronicCount` counts |
| Table.ElectronicOnlyLabelled | app.py:208-301 | after the electronic-only filter every row is labelled "Eletrônico" |
| Table.PrepareTable | app.py:299-303 | the "Tipo" column is written in place when there is an `ano_base` column, and the list of shown columns gains "Tipo" first |
| Table.ShowTable | app.py:190-303 | one run of the page shows the labelled filtered view and leaves the loaded frame unchanged |

## Left out

- Login form and credential check (app.py:7-41): session state only, not data logic.
- Page configuration, CSS and HTML banners: presentation only.
- File I/O and caching: the existence checks, `read_parquet`, `read_excel`, `to_parquet`, `st.status` and the `@st.cache_data` memoisation. The cache and the spreadsheet are the two `Option` fields of `Frames.Disk`. A table written to the cache is read back unchanged.
- Charts, the `st.dataframe` configuration, the display-time sort by `Saldo int` and the later column drop (app.py:268-286, 305-319): rendering only.
- Text inside string literals and comments (app.py:174-180, 197-201, 237-243): not executed.
- Floating point:
  - amounts are integer cents;
  - pandas' float sums and the `{:,.2f}` rounding are not modelled;
  - the percentage is an exact `real`, without the `{:.1f}` rounding of its text.
- Unicode: `strip()` and `upper()` are modelled on ASCII whitespace and ASCII letters. String order is code-point order.
- Normalize.ToNumeric: reads only an optional sign followed by ASCII digits. Other forms that `to_numeric` accepts become missing in the model: decimal and exponent forms, text with surrounding whitespace (such as " 2015"), and "inf"/"infinity". Such a year is therefore never electronic in the model.
- Records.IsElectronic: a year left as text never counts as electronic. Pandas would raise on `> 2014` for such a cell, and only a cache not written by this loader can hold one.
- Filters.ApplyFilters: requires the court or state column when that selection is non-empty. A selection can only be non-empty when the option list was built from that column, and building it fails without the column.
- Facets.Options: an absent column gives no option list. The page raises `KeyError` there instead.
- Ranking.Rank: an absent defendant, balance or case-number column gives `MissingColumn` rather than modelling the `KeyError`.
- Ranking.RankSpec: promises no order among groups with equal sums, because the sort pandas uses is not stable.
