# COVID-19 vaccination analysis: a verified model of the cleaning and aggregation pipeline

The script `covid19/main.py` loads the `country_vaccinations.csv` table,
cleans it and derives the two tables that its charts draw. This project
models that data logic in Dafny and proves what each step guarantees:

1. **Drop incomplete rows** (`dropna` on `total_vaccinations`,
   `people_vaccinated`, `people_fully_vaccinated`): exactly the rows having
   all three values survive, in their original order.
2. **Zero-fill** (`fillna(0, inplace=True)`): a `DataFrame` class whose
   `FillNa` method overwrites its rows one by one. No missing cell is left.
   Present cells keep their value, missing ones become 0, and the row count
   and order do not change.
3. **Latest per country** (`groupby('country').last().reset_index()`): one row
   per distinct country. The groups are ordered by country name, since pandas
   sorts group keys by default and compares `str` values by code point. Each
   column holds the group's last present value. On the cleaned, null-free
   table this is the country's last row **by position in the file**, not its
   row with the latest date.
4. **Top ten** (`nlargest(10, 'total_vaccinations')`, `keep='first'`): the
   rows come largest first. Equal values keep row order, and rows without a
   value come after every row that has one. No row left out has a larger value
   than a row kept.
5. **Country slice** (`df_cleaned[df_cleaned['country'] == 'India']`): the
   cleaned rows of that country, in order. The slice is empty exactly when the
   country never occurs.

A table is a `seq<Record>`. A record has `country` and `date` strings, the
three required columns as `Option<int>`, and the other columns as
`seq<Option<Cell>>`, where a cell is a number or a text. `None` is a missing
value, and integers stand in for the floating-point values pandas infers.
`Analysis.Analyse` runs the steps in the script's order. It uses the
`DataFrame` class for the in-place fill and proves that the ranking has
`min(10, number of countries)` rows.

Files: `seqs.dfy` (generic filtering and subsequence facts), `records.dfy`
(data model, country mask), `cleaning.dfy`, `aggregation.dfy`,
`ranking.dfy`, `analysis.dfy` (the script's constants, the pipeline and three
worked examples).

Two behaviours of the script worth stating explicitly:

- `nlargest` with `n <= 0` returns an empty table; it does not fail.
- The aggregated rows are ordered by country name; that order decides ties in
  the ranking.

## Model

| member | source | states |
|---|---|---|
| `Records.CountryRows` | covid19/main.py:59-60 | A row is in the slice iff it is a row of the table whose country is `c`. Every row of the slice has country `c`. The slice is empty iff `c` is not among the table's countries. |
| `Records.CountryRowsOrder` | covid19/main.py:59-60 | The slice is a subsequence of the table, so order is kept. Each row of country `c` occurs as often as in the table, and no other row occurs. |
| `Cleaning.DropIncomplete` | covid19/main.py:36 | Every kept row has all three required values. A row is kept iff it is an input row with all three present, with its multiplicity. The result is a subsequence of the input, so relative order is kept. |
| `Cleaning.Clean` | covid19/main.py:36-39 | Drop then fill: the result has no missing value, and as many rows as the input has complete rows, never more than the input. |
| `Cleaning.FillRow` | covid19/main.py:39 | Filling one row keeps country, date and width. Each cell is kept if present and becomes 0 if missing. |
| `Cleaning.Filled` | covid19/main.py:39 | Same number of rows, same order, same country, date and width per row. No missing cell remains. A present cell keeps its value and a missing cell becomes `Num(0)`. |
| `Cleaning.DataFrame.FillNa` | covid19/main.py:39 | The in-place loop leaves the frame's rows equal to the filled version of its old rows. |
| `Cleaning.FilledOfNullFree` | covid19/main.py:39 | Filling a table that has no missing value returns it unchanged. |
| `Cleaning.CleanProperties` | covid19/main.py:36-43 | After drop-then-fill no column of any row is missing (the null counts the script prints are all zero). There are as many rows as complete input rows, and each is the fill of a complete input row. |
| `Cleaning.CleanIdempotent` | covid19/main.py:36-39 | Cleaning a cleaned table returns it unchanged. |
| `Cleaning.FillFirstDropsNothing` | covid19/main.py:36-39 | If the fill ran before the drop, the drop would keep every row. The order of lines 36 and 39 is what removes incomplete rows. |
| `Aggregation.LexLess` | covid19/main.py:47 | Python's `str` order, by which the group keys are sorted: a string never sorts before an equal one, and a proper prefix sorts before the longer string. |
| `Aggregation.LexIrreflexive` | covid19/main.py:47 | No string sorts before itself in the group-key order. |
| `Aggregation.LexTransitive` | covid19/main.py:47 | The group-key order is transitive. |
| `Aggregation.LexTotal` | covid19/main.py:47 | Of any two different strings, one sorts before the other. |
| `Aggregation.InsertKey` | covid19/main.py:47 | Adding a key to an ascending key list keeps it strictly ascending. Its elements become the old ones plus the new key. |
| `Aggregation.SortedCountries` | covid19/main.py:47 | The group keys are strictly ascending, and a string is a key iff it is some row's country. |
| `Aggregation.SortedCountriesCount` | covid19/main.py:47 | There are as many group keys as distinct countries. |
| `Aggregation.Overlay` | covid19/main.py:47 | One step of `last()`: the newer row's country, date and width. Each column takes the newer value if present, else the value seen so far. |
| `Aggregation.GroupLast` | covid19/main.py:47 | The aggregated row of a group has the country, date and width of the group's last row. |
| `Aggregation.LastPresent` | covid19/main.py:47 | Per-column `last()`. The result is missing iff every value of the column is missing. Otherwise it is a value of the column after which only missing values follow. |
| `Aggregation.GroupLastColumns` | covid19/main.py:47 | On a rectangular group, every column of the row-by-row fold equals the column's last present value. |
| `Aggregation.GroupLastOfNullFreeRow` | covid19/main.py:47 | When a group's last row has no missing value, `last()` returns exactly that row. |
| `Aggregation.LatestRow` | covid19/main.py:47 | The aggregated row of one country carries that country, and the date and width of the country's last row. |
| `Aggregation.SortedCountriesFacts` | covid19/main.py:47 | The group keys are exactly the table's countries, one key per country. |
| `Aggregation.GroupsFor` | covid19/main.py:47 | One aggregated row per key, in key order, each carrying its key as country. |
| `Aggregation.LatestByCountry` | covid19/main.py:47 | One row per distinct country: as many rows as countries, each row's country occurs in the table, and each country has a row. The rows are in strictly ascending country order, so no country appears twice. |
| `Aggregation.LatestByCountryAt` | covid19/main.py:47 | Row `i` of the aggregate is the `last()` of the group of the `i`-th key. |
| `Aggregation.LatestColumns` | covid19/main.py:47 | On a table whose rows share their columns, column `j` of the `i`-th aggregated row is the last value present in column `j` of the `i`-th country's rows. |
| `Aggregation.LastRowIndex` | covid19/main.py:47 | The position of a country's last row: that row has the country, and no later row does. |
| `Aggregation.CountryRowsLast` | covid19/main.py:47 | The last row of a country's group is the country's last row in the table. |
| `Aggregation.LatestRowIsLastRow` | covid19/main.py:47 | On a null-free table, a country's aggregated row equals its last row by position. |
| `Aggregation.LatestIsLastRow` | covid19/main.py:47 | On a null-free table, every aggregated row is the last row (by position) of its country, and the aggregate is null-free. |
| `Ranking.Outranks` | covid19/main.py:50 | The `keep='first'` order of `nlargest`: a position never outranks itself, and only positions of the table are ordered. |
| `Ranking.OutranksStrictOrder` | covid19/main.py:50 | That order is asymmetric, total on distinct positions and transitive, so it fixes one order of the rows. |
| `Ranking.InsertIndex` | covid19/main.py:50 | Inserting a row position into a ranked list keeps the ranking order. It adds exactly that position and grows the list by one. |
| `Ranking.SortedIndices` | covid19/main.py:50 | The first `k` positions arranged in ranking order: each appears exactly once. |
| `Ranking.TopIndices` | covid19/main.py:50 | There are `min(n, rows)` positions (none when `n <= 0`), all valid and in ranking order. The order is larger value first, ties by earlier row, missing values last. Every selected position outranks every position left out, so ties keep the earlier row. |
| `Ranking.NLargest` | covid19/main.py:50 | Returns `min(n, rows)` rows (none when `n <= 0`). Each is a row of the input, namely the row at the corresponding selected position. |
| `Ranking.NLargestOrder` | covid19/main.py:50 | The result is non-increasing in `total_vaccinations`, with missing values only at the end. No row left out that has a value exceeds any selected row. |
| `Analysis.Analyse` | covid19/main.py:36-60 | The script's tables. The cleaned table is drop-then-fill of the input and null-free. The latest table is its per-country aggregate. The top table is the ten largest, with `min(10, number of countries)` rows. The focus table is the `India` slice. |
| `Analysis.TopCountriesDistinct` | covid19/main.py:47-50 | The ranked rows belong to pairwise different countries. |
| `Analysis.TopRowsAreLastRows` | covid19/main.py:47-50 | On a cleaned table each ranked row is null-free and is the last cleaned row of its country. |
| `Analysis.DropScenario` | covid19/main.py:36-39 | Example: of `US` day 1, `US` day 2 without a total, and `FR` day 1, cleaning keeps `US` day 1 and `FR` day 1, in that order. |
| `Analysis.ExampleKeys` | covid19/main.py:47 | Example: the group keys of rows `US`, `US`, `FR` are `FR`, `US`. |
| `Analysis.ExampleGroups` | covid19/main.py:59-60 | Example: the `FR` slice is the third row, and the `US` slice is the first two rows in order. |
| `Analysis.ExampleFirstGroup` | covid19/main.py:47 | Example: the aggregate has two rows, and the first is the `FR` row. |
| `Analysis.ExampleSecondGroup` | covid19/main.py:47 | Example: the second aggregated row is `US` day 2, the later of the two `US` rows. |
| `Analysis.LatestScenario` | covid19/main.py:47 | Example: aggregating `US` d1 (100), `US` d2 (200), `FR` d1 (50) gives `FR` d1, then `US` d2. |
| `Analysis.TopScenario` | covid19/main.py:50 | Example: the two largest of `US` 200, `FR` 50, `DE` 150 are `US` then `DE`. |

## Left out

- Dataset download through the Kaggle API and creation of the `datasets` directory (covid19/main.py:8-20): network and filesystem I/O through a foreign API.
- CSV parsing and dtype inference by `pd.read_csv` (covid19/main.py:23-24): the loaded table is the input of `Analysis.Analyse`. A missing file or a parse error is therefore not modelled.
- The diagnostic prints `info`, `head` and `isnull().sum()` (covid19/main.py:27-28, 32-33, 42-43): console output only. That nothing is missing after cleaning is proved as `Cleaning.CleanProperties` instead.
- All plotting (covid19/main.py:51-56, 61-70): rendering only. The tables the two charts draw are results of `Analysis.Analyse`.
- Floating-point values: numbers are integers, and NaN is `None`.
- Missing `country` or `date` values: both are plain strings. pandas would fill a missing country with 0 and then group on it.
- Selecting columns by name: the three required columns and the ranking column are record fields. A missing or misspelt column, which pandas reports as a `KeyError`, cannot occur in the model.
- pandas' copy-versus-view aliasing between `df` and `df_cleaned`: the cleaned frame is a new `DataFrame` object holding its own rows.
- The two routes of `nlargest`: pandas reaches its result by a partial selection or a full sort when `n` is at least the row count. The model states the documented `keep='first'` order for both.
- The dtype check `nlargest` makes on the ranking column (a `TypeError` for a non-numeric column): the ranking column is numeric by construction.
