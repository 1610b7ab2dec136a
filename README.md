# Tennis value-bet decision logic

A model of the deterministic decisions inside `app.py` of a small Streamlit
page. The page loads a table of tennis Elo ratings, lets the user type two
player names, an odd for player A and a playing surface, and tells them
whether backing player A at that odd has value. The model covers four things:

- **Player lookup** (`encontrar_jogador`). The query is lower-cased and
  stripped. The table is filtered to the rows whose lower-cased `Player` cell
  contains the query. The first row left, in table order, is returned; when
  no row is left, nothing is returned.
- **Surface to rating column** (`elo_chave`). Each of the four surfaces offered
  (`Hard`, `Clay`, `Grass`, `Indoor`) maps to one column (`hElo`, `cElo`,
  `gElo`, `iElo`).
- **Value and verdict** (`value_bet` and the `if/elif/else` on its result).
  The value is `p * odd - 1`. The verdict is "value" when it is positive,
  "no value" when it is negative and "neutral" when it is zero. Numbers are
  Dafny `real` in place of Python floats; rounding is not modelled (see
  "Left out").
- **The page's decision flow**. Nothing is shown until both names are
  non-empty. An error is shown when either name finds no row. A `KeyError`
  message is shown when a found row lacks the surface's column. Otherwise the
  verdict is shown. The Elo-to-probability curve `elo_prob` is a parameter of
  this flow.

Modules: `Wrappers` (the `Option` type), `Text` (case folding, stripping,
substring search), `PlayerLookup`, `Betting` and `Analysis`. All of it is pure:
functions over values and lemmas about them. The source has no loop or
mutation in this part.

Fuzzy name matching, bookmaker-margin removal, rating blending and stake
tiers do not occur in `app.py` and are not modelled.

## Model

| member | source | states |
|---|---|---|
| Text.LowerChar | app.py:28-29 | the folded character is never an upper-case ASCII letter; `A`-`Z` move to `a`-`z`, every other character is kept |
| Text.Lower | app.py:28-29 | `lower()` keeps the length, folds each character in place and leaves no upper-case letter |
| Text.LowerIdempotent | app.py:28-29 | folding an already folded string changes nothing |
| Text.LowerConcat | app.py:28-29 | folding distributes over concatenation |
| Text.LowerKeepsSpace | app.py:28 | folding leaves a whitespace-only string unchanged |
| Text.IsSpace | app.py:28 | true exactly for the 29 code points Python's `str.isspace()` accepts, the set `strip()` removes |
| Text.SkipSpace | app.py:28 | the scan forward stops at the first non-whitespace character and passes only whitespace |
| Text.SkipSpaceBack | app.py:28 | the scan backward stops after the last non-whitespace character and passes only whitespace |
| Text.Strip | app.py:28 | `strip()` gives a contiguous slice of the input, with only whitespace around it and no whitespace at either end of it |
| Text.StripUnique | app.py:28 | any slice with only whitespace around it and none at its ends is exactly what `strip()` returns |
| Text.StripIgnoresPadding | app.py:28 | whitespace added on both sides does not change what a string strips to |
| Text.StripAllSpace | app.py:28 | a whitespace-only string strips to the empty string |
| Text.StripOfStripped | app.py:28 | a string with no whitespace at either end strips to itself |
| Text.StripKeepsLower | app.py:28 | stripping a string with no upper-case letter leaves none |
| Text.Contains | app.py:29 | the substring test is true exactly when the needle occurs at some position of the haystack |
| Text.ContainsEmpty | app.py:29 | the empty query occurs in every name |
| PlayerLookup.Normalize | app.py:28 | the search key has no whitespace at either end and is no longer than the query |
| PlayerLookup.NormalizeIsLower | app.py:28 | the search key holds no upper-case letter |
| PlayerLookup.Matches | app.py:29 | a row passes the filter exactly when the key occurs at some position of its lower-cased name |
| PlayerLookup.Mask | app.py:29 | one entry per row, true exactly when the row's lower-cased name contains the key |
| PlayerLookup.Select | app.py:29 | the selected rows are drawn from the table, and none are selected exactly when every mask entry is false |
| PlayerLookup.SelectHead | app.py:29-32 | the first selected row (`iloc[0]`) is the row at the first true mask entry |
| PlayerLookup.FirstContaining | app.py:29-32 | for a normalised key: `None` exactly when no row matches, otherwise the row at the first matching index |
| PlayerLookup.FindPlayer | app.py:27-32 | `None` exactly when no row's lower-cased name contains the key; otherwise the result's lower-cased name contains the key and it is the row at the first matching index |
| PlayerLookup.FirstMatchIsFound | app.py:32 | any row that matches with no earlier match is the row returned, so the result is fully determined |
| PlayerLookup.CaseInsensitive | app.py:28 | queries that differ only in letter case find the same row |
| PlayerLookup.PaddingIgnored | app.py:28 | leading and trailing whitespace on a query does not change the row found |
| PlayerLookup.NormalizeIdempotent | app.py:28 | normalising a normalised key changes nothing |
| PlayerLookup.SearchByKey | app.py:28 | searching with the normalised key finds the same row as searching with the raw query |
| PlayerLookup.BlankQueryFindsFirstRow | app.py:28-32 | a whitespace-only query finds the first row of any non-empty table |
| Betting.EloKey | app.py:57-71 | a column exists exactly for the four offered surfaces; it is one of `hElo`, `cElo`, `gElo`, `iElo`, namely the surface's lower-cased initial followed by `Elo` (Hard to `hElo`, Clay to `cElo`, Grass to `gElo`, Indoor to `iElo`) |
| Betting.EloKeyInjective | app.py:66-71 | two surfaces that select the same column are the same surface |
| Betting.EloKeysDistinct | app.py:57-71 | the four surfaces select four pairwise distinct columns, together exactly the four Elo columns |
| Betting.ValueBet | app.py:37-38 | the value is `p * odd - 1`; ValueSign, BreakEvenOdd and the two growth lemmas state its sign and monotonicity |
| Betting.ValueSign | app.py:37-38 | the value is positive, zero or negative exactly as `p * odd` is above, at or below one |
| Betting.EvenMoneyIsZero | app.py:37-38 | `value_bet(0.5, 2.0)` is zero |
| Betting.BreakEvenOdd | app.py:37-38 | for `p > 0` the value is positive, zero or negative exactly as the odd is above, at or below `1 / p` |
| Betting.ValueGrowsWithOdd | app.py:37-38 | for `p > 0` the value strictly increases with the odd |
| Betting.ValueGrowsWithProbability | app.py:37-38 | for a positive odd the value strictly increases with the probability |
| Betting.Classify | app.py:84-89 | the verdict is "value" iff the value is positive, "no value" iff it is negative, "neutral" iff it is zero |
| Betting.VerdictOfBet | app.py:37-89 | the verdict on a bet is "value" iff `p * odd > 1`, "no value" iff `p * odd < 1`, "neutral" iff `p * odd == 1` |
| Betting.VerdictMonotoneInOdd | app.py:78-89 | for `p > 0` a longer odd never turns "value" into anything else, and a shorter odd never turns "no value" into anything else |
| Analysis.Judge | app.py:73-91 | a missing column in either row gives the `KeyError` outcome naming the column; otherwise the probability is `elo_prob` of the two ratings, the value shown is `value_bet` of that probability and the odd, and the verdict matches `probability * odd` against one |
| Analysis.Analyse | app.py:59-91 | nothing is shown exactly when a name is empty; "player not found" exactly when both names are typed and one of them finds no row; otherwise the outcome is the judgement of the two found rows in the chosen surface's column |
| Analysis.BlankNamesAreAnalysed | app.py:59-91 | any two non-empty whitespace-only names pass the guard, both find the first row of a non-empty table, and the outcome is the judgement of that row against itself |

## Left out

- `obter_elo_tabela` (app.py:10-21): the HTTP request, the HTML parsing and the header stripping of the scraped table are network and foreign-library work. The model starts from the materialised table, a sequence of rows whose headers are already stripped.
- `carregar_elo` (app.py:23-25): a caching decorator with no logic of its own.
- `elo_prob` (app.py:34-35): it needs real exponentiation `10 ** x`, which Dafny lacks. The decision flow takes it as the parameter `eloProb`, and nothing is proved about the curve itself.
- The Streamlit widgets, layout and message texts (app.py:41-57, 80-82, 85-91): only the branch conditions are modelled. Which message appears is the `Outcome` value.
- FindPlayer: `str.contains` treats the query as a regular expression. The model tests for a plain substring, so queries holding regular-expression metacharacters (`.`, `(`, `*`, ...) can behave differently in the app.
- FindPlayer: Python's `lower()` folds all of Unicode; the model folds only `A`-`Z`. Names with accented capitals (`Á`) fold differently. `strip()` is modelled exactly: it removes every character Python's `str.isspace` accepts.
- FindPlayer: empty (NaN) `Player` cells are not modelled; every row has a name.
- Analysis.Analyse: the surface is required to be one of the four offered options, as the select box guarantees. The dictionary subscript at app.py:71 sits outside the `try`, so any other value would abort the page.
- Analysis.Judge: the rating cells are taken to be numbers. Non-numeric or missing (NaN) cells are not modelled.
- Betting.ValueSign: the value is computed in exact real arithmetic. Floating-point rounding of `p * odd - 1`, which can turn a mathematically zero value into a tiny non-zero one, is not modelled.
