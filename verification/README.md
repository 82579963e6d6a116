# GARCH volatility service: model store, forecast labels, training series

This project models in Dafny the bookkeeping of `GarchModel` in `model.py`.
The statistics are not modelled. What is modelled is the following.

- **Saving a model** (`dump`). The file name is the ISO-8601 text of the
  current time, with every `:` replaced by `-`, then `_<ticker>.pkl`. It is
  joined onto the model directory.
- **Finding a model** (`load`). The directory is listed with the glob
  pattern `*<ticker>.pkl`. The matching paths are sorted as strings and the
  last one is loaded. When nothing matches, the error is
  `No model trained for '<ticker>'`.
- **Labelling a forecast** (`__clean_prediction`). The labels start one
  calendar day after the last training day. They are `horizon` consecutive
  business days (Monday to Friday, as `pd.bdate_range` counts them), each
  written as the `isoformat()` of its midnight. Each label is paired with
  its forecast value.
- **Building the training series** (`wrangle_data`). At most
  `n_observations + 1` rows are read and sorted oldest first. The closes
  become percentage changes, and the undefined first change is dropped.

Modules, in dependency order:

| module | file | contents |
|---|---|---|
| `Wrappers` | `wrappers.dfy` | `Option`, and `Result`, whose failure carries the exception `GarchModel` raises: its message for `load`, its class name for dates out of range |
| `LexOrder` | `lex_order.dfy` | Python's string `<` (`Below`), `endswith` and one-character `replace` |
| `Digits` | `digits.dfy` | zero-padded numeric fields; rendered rows order like their numbers |
| `Calendar` | `calendar.dfy` | proleptic Gregorian dates; Python day ordinals (day 1 is Monday 0001-01-01) and `weekday()` |
| `Timestamps` | `timestamps.dfy` | date-times at microsecond resolution and `isoformat()` |
| `ModelStore` | `model_store.dfy` | `dump`, `load`, glob matching, and when "sorts last" means "most recent" |
| `Forecast` | `forecast.dfy` | `bdate_range`, the labels and the forecast dictionary |
| `Returns` | `returns.dfy` | the row limit, the date sort, `pct_change` and `dropna` |

The outside world is passed in as parameters:

- The model directory is a map from entry name to the saved model. The
  model stays an opaque value of a type parameter `B`, because the
  serializer is not modelled.
- The clock reading `pd.Timestamp.now()` is a parameter `now`.
- Glob's listing order is arbitrary. The `Load` method visits entries in any
  order, picked by `:|`.
- Forecast values and closing prices are opaque type parameters.
- Days are Python ordinals.

### What "most recent" means

The docstring of `load` promises the most recent model. The model proves
when that promise holds and exhibits two cases where it fails:

- **Times printed in one shape.** Suppose every candidate was written by
  `dump` for the same ticker, and either all of the times have a nonzero
  microsecond or none do. Then the string order of the names is their
  chronological order (`GreatestIsMostRecent`, `DumpThenLoadFindsIt`).
- **Whole seconds.** `isoformat()` omits the fraction when the microsecond
  is 0, and `.` sorts before `_`. So a model saved at exactly `hh-mm-ss`
  sorts after one saved later within the same second
  (`WholeSecondSortsLast`).
- **Tickers ending in another ticker.** `*IBM.pkl` also matches a file
  saved for `XIBM`, and that file sorts after the `IBM` file saved at the
  same instant. So `load` for `IBM` returns a model that was never saved for
  `IBM` (`SuffixTickerIsLoaded`).

### The forecast values are fourth roots

The values are not modelled. `predict_volatility` takes `variance ** 0.5`
(model.py line 156). `__clean_prediction` then takes `** 0.5` of that again
(line 132). So the dictionary holds the fourth root of the forecast
variance, although both docstrings call it volatility.

## Model

| member | source | states |
|---|---|---|
| ModelStore.Dump | model.py:173-183 | The saved name ends in `"_" + ticker + ".pkl"`, and its timestamp part contains no `:`. The returned path is the model directory joined with that name. The name is one of `load`'s candidates for the same ticker. The directory gains that entry holding the model, and every other entry is unchanged. |
| ModelStore.Load | model.py:191-199 | A candidate (`Candidate`) is an entry glob returns: not hidden (no leading `.`) and matching the pattern by `WildMatch`. Fails exactly when no entry is a candidate. The message is then `No model trained for '<ticker>'`. Otherwise it returns the path of a candidate that no other candidate's path sorts after, together with the model saved there. The result does not depend on the listing order. |
| ModelStore.LoadIsSortedLast | model.py:196 | For any sorted list of exactly the candidates' paths, the last element (`sorted(glob(pattern))[-1]`) is the greatest candidate's path. |
| ModelStore.SortedLastIsGreatest | model.py:196 | In a sorted list of strings, every element is at most the last one. |
| ModelStore.GreatestUnique | model.py:196 | Two greatest candidates in one directory are the same entry, so the file loaded is determined. |
| ModelStore.WildMatchIsEndsWith | model.py:192 | `WildMatch` is glob's matching with `*`. A name matches `*lit` (with `lit` free of `*`) exactly when it ends in `lit`. |
| ModelStore.DumpNameMatches | model.py:174-192 | Every name `dump` writes is visible to glob and matches `*<ticker>.pkl` for the same ticker. |
| ModelStore.JoinOrder | model.py:177 | `Join` is POSIX `os.path.join` (also used for the pattern at line 192). For relative names it prefixes the directory and at most one `/`, so paths under one directory compare as the names joined, and are equal only when the names are. |
| ModelStore.DumpNameOrder | model.py:174-177 | Take two valid times printed in the same shape. Their names for one ticker sort in chronological order, and the names are equal only when the times are. |
| ModelStore.GreatestIsMostRecent | model.py:187-196 | Suppose every candidate was saved by `dump` for the ticker, at valid times of one shape. Then no candidate holds a time later than the greatest candidate's. |
| ModelStore.DumpThenLoadFindsIt | model.py:173-199 | Suppose a model is saved later than every earlier save of the same shape for the ticker. Then it becomes the greatest candidate, so the next `load` returns exactly that model. |
| ModelStore.WholeSecondSortsLast | model.py:174-196 | A save on a whole second is earlier than a save within that second, yet its name sorts after. `load` picks the older model. |
| ModelStore.SuffixTickerIsLoaded | model.py:192-196 | The `XIBM` file saved at the same time as an `IBM` file is a candidate for `IBM` and the greatest one. No save for `IBM` ever produces that name. |
| LexOrder.Replace | model.py:174 | Same length. Characters other than the target are unchanged, and each target is replaced. When replacement differs from target, no target remains. |
| LexOrder.BelowTotal | model.py:196 | String order is total: of two different strings, one sorts before the other. |
| LexOrder.BelowTransitive | model.py:196 | String order is transitive. |
| LexOrder.BelowIrreflexive | model.py:196 | No string sorts before itself. |
| Digits.RenderOrder | model.py:174 | Rows of numbers that fit their zero-padded fields render to strings. Those strings compare as the rows compare lexicographically, and they are equal only for equal rows. |
| Digits.ReplaceRender | model.py:174 | Replacing a non-digit character in a rendered row is the same as replacing it in the field separators. |
| Timestamps.IsoFormatOrder | model.py:174 | `IsoFormat` is `isoformat()` (also used for the labels at line 129): zero-padded `YYYY-MM-DDTHH:MM:SS`, then `.ffffff` only when the microsecond is nonzero. Valid date-times of one shape have ISO texts in chronological order. The texts are equal only when the times are. |
| Calendar.CivilDateMonotone | model.py:123 | A larger day ordinal is a later calendar date. |
| Calendar.WeekdayNext | model.py:126 | The next day's weekday is the next weekday, with Sunday wrapping to Monday. |
| Forecast.RollForward | model.py:123-126 | Gives the first business day on or after the given day. The result is not before that day, is a weekday, and skips no business day. |
| Forecast.BusinessDays | model.py:126 | `bdate_range(start, periods=n)`: exactly `n` days, strictly increasing, each a business day on or after `start`. |
| Forecast.BusinessDaysNoneSkipped | model.py:126 | Every business day from `start` up to the last day of the range is in the range. |
| Forecast.FirstBusinessDaysUnique | model.py:126 | Take any strictly increasing sequence of business days from `start` that skips none. It is `BusinessDays(start, n)` for its length `n`. |
| Forecast.Labels | model.py:129 | One label per day. Each label is the ISO text of that day's midnight. The labels are in strictly ascending string order. |
| Forecast.DateKeyOrder | model.py:129 | A later representable day has a label that sorts later. |
| Forecast.CleanPrediction | model.py:123-138 | On success, there is one label per forecast value, the values are kept in order, and the labels strictly ascend. |
| Forecast.LastDayDecides | model.py:123-126 | Every day touched is representable exactly when the last one is. |
| Forecast.CleanPredictionFailure | model.py:123-126 | Labelling fails exactly when its last day is after 2262-04-11. That day is the last label, or the start day when there are no values. |
| Forecast.ToMap | model.py:135-138 | The dictionary's keys are exactly the labels. |
| Forecast.ToMapDistinct | model.py:135-138 | With distinct labels, the dictionary has one entry per label, and each label maps to its own value. |
| Forecast.ForecastDictionary | model.py:123-138 | The dictionary has exactly `horizon` entries. The i-th business day's label maps to the i-th value. The first day is the first business day strictly after the last training day. |
| Returns.ReadTable | model.py:76 | At most `limit` rows, a prefix of the table, and the whole table when it has fewer rows. |
| Returns.SortByDate | model.py:79 | The same rows (as a multiset), oldest first. |
| Returns.SortAscendingUnchanged | model.py:79 | Rows already oldest first come back unchanged, so sorting twice is sorting once. |
| Returns.SortStrict | model.py:79 | Rows with pairwise different dates sort into strictly increasing dates. |
| Returns.DropNa | model.py:82 | `dropna()`: never longer than its input, and as long exactly when no entry is missing. |
| Returns.DropNaAppend | model.py:82 | `dropna` of a concatenation is the concatenation of the `dropna`s. With `DropNaSingle` (a defined entry keeps its value, a missing one vanishes) this fixes the result as the defined entries' values, in order. |
| Returns.DropNaAfterFirst | model.py:80-82 | When only the first change is undefined, `dropna` keeps the other changes in place and drops exactly one entry. |
| Returns.ReturnsOfRows | model.py:80-82 | `PctChange` is `pct_change()`: undefined at the first row, else the change from the row before, indexed by the later date. After `dropna`, with at least one row there is one return fewer than rows, and the i-th return is computed from sorted rows i and i+1. |
| Returns.WrangleData | model.py:76-82 | At most `n_observations` returns, one fewer than the rows read, and exactly `n_observations` when the table has more rows than that. The i-th return comes from sorted rows i and i+1, so every row but the oldest gives its date and close to exactly one return. The returns are in date order, and each return's current close is the next return's previous close. |
| Returns.WrangleStrictlyAscending | model.py:76-82 | When the table holds each date once, the returns' dates strictly increase. |

## Left out

- Fitting and forecasting with `arch_model` (model.py lines 102 and 156) is an external numerical optimizer. The forecast is an opaque row of values, one per horizon step.
- The float values are not modelled: the percentage returns of line 80 and the square roots of lines 132 and 156. Prices and forecast values are opaque type parameters.
- `joblib.dump` and `joblib.load` are not modelled. A saved model is stored and returned as the same opaque value.
- The filesystem, glob and the clock are parameters: a map for the directory and `now` for the time. Writing can fail at run time, and that failure is not modelled.
- ModelStore.DumpThenLoadFindsIt: "saved later" means a later clock reading. `pd.Timestamp.now()` is naive local wall-clock time and can step backwards (a daylight-saving fall-back, a clock correction), so a model saved later in real time can carry an earlier stamp and sort first. The lemma says nothing about real-time order.
- Paths and glob are modelled for POSIX only. On Windows `fnmatch` case-folds names and the separator is `\`. Glob also re-joins each match onto `os.path.split(pattern)[0]`, which strips repeated trailing slashes, so for a directory such as `models//` the path opened is `models/<name>` rather than `Join(dir, name)` (the order is the same). Glob metacharacters inside the model directory itself are expanded by glob and are not modelled.
- The AlphaVantage download and the SQL table writes in `wrangle_data` (lines 62-72) are left out. `data.py` is not part of this model. Its `read_table` is modelled as returning the first `limit` stored rows.
- `config.settings` (the model directory) is the parameter `dir`.
- `predict_volatility` only composes the forecast with `__clean_prediction`. It is not modelled separately.
- Glob's `?` and `[...]` wildcards are not modelled. A ticker containing them, or containing `/`, falls outside the model.
- `pd.Timestamp.now()` comes from `datetime.now()`, so it has no nanoseconds. `isoformat()` therefore prints either no fraction or six digits, and times are modelled at microsecond resolution.
- pandas' lower date bound (1677) is not modelled, because training data from before then cannot reach the labelling. Only the upper bound, 2262-04-11, is checked.
- `n_observations` is a natural number. A negative limit depends on how `data.py` builds its query, and that file is not part of this model.
- Missing closes are not modelled. `pct_change` fills them forward. So are changes that come out undefined from two zero closes. The series is modelled as having no missing values, so only the first change is dropped.
- Returns.SortByDate: pandas' default sort is not stable. The model fixes one order for rows sharing a date, and its contract promises only that dates ascend and that the rows are kept.
- Returns.ReadTable: the SQL query may return rows in any stored order. The model takes the prefix, and its contract states only the length bound and the prefix.
