# Net liquidity viewer: data pipeline model

This project models the data side of a small browser page that shows a daily net-liquidity
time series. The series has the Fed balance sheet (WALCL), the Treasury General Account
(WDTGAL), reverse repos (RRPONTSYD), their difference NetLiquidity, moving averages
MA5/MA20/MA60, and week/month/year change ratios WoW/MoM/YoY. The page has three parts:

- **Loader.** It fetches `data.json` and reverses the array in place so that the newest record comes first. On failure it replaces the table body with a single "Failed to load data" row.
- **History table.** It has one eight-cell row per record. Amounts are rounded and comma-grouped. Ratios are written as percentages with one decimal. Each ratio cell gets a class from its sign.
- **Chart view.** It takes the 250 most recent records in chronological order and builds five parallel arrays: labels, daily, MA5, MA20 and MA60. It destroys the previous chart instance before it builds a new one.

Modules:

- `Wrappers` (wrappers.dfy) defines `Option`, which stands for an absent (`null`) field.
- `Sequences` (sequences.dfy) has `Reversed` and the in-place `ReverseInPlace` that stands for `Array.prototype.reverse`.
- `Records` (records.dfy) has the record datatype and date order.
- `NumberText` (number_text.dfy) has `Math.round`, decimal digits, en-US grouping and `formatNumber`.
- `PercentText` (percent_text.dfy) has `toFixed(1)`, `formatPercent` and `getPctClass`.
- `Table` (table.dfy) has cells, rows and the failure row.
- `ChartView` (chart.dfy) has the chart window, the projections and the `Chart` handle class.
- `Page` (session.dfy) has the `Session` class, which holds the data set, the table body and the chart handle. Its methods are the load handlers, `populateTable` and `renderChart`.

Numbers are modelled as mathematical reals, so `Math.round(x)` is `floor(x + 1/2)`.

Two behaviours of the code are modelled as written:

- A value in [-0.5, 0) is rounded by `Math.round` to -0, and en-US formatting prints that as `"-0"`. So `FormatNumber` puts a sign exactly when the value is negative.
- `toFixed(1)` writes the sign of the unrounded value. So a ratio in (-0.0005, 0) shows as `"-0.0%"` and is classed `cell-negative`.

## Model

| member | source | states |
|---|---|---|
| `Page.Session.constructor` | script.js:10-11 | a new session holds an empty data set and no chart instance |
| `Page.Session.Load` | script.js:13-23 | success: the data set is the fetched array reversed and the table is rendered from it. Failure: the data set is unchanged and the body is exactly the one failure row. The chart is untouched either way |
| `Sequences.ReverseInPlace` | script.js:17 | the array after the in-place reversal holds the reverse of its old contents |
| `Sequences.Reversed` | script.js:17 | reversal keeps the length |
| `Sequences.ReversedAt` | script.js:17 | element `i` of the reversal is element `n-1-i` of the original |
| `Sequences.ReversedTwice` | script.js:17 | reversing twice restores the original order (reversal is an involution) |
| `Records.ReversedFeedIsNewestFirst` | script.js:17 | a feed in strictly ascending date order becomes strictly descending (newest first) |
| `NumberText.Round` | script.js:48 | `Math.round` gives the nearest integer, and a tie goes up |
| `NumberText.Digits` | script.js:48 | the decimal form is all digits, with a leading zero only for zero |
| `NumberText.DigitsRoundTrip` | script.js:48 | reading the decimal form back gives the number |
| `NumberText.GroupShape` | script.js:48 | en-US grouping keeps the digits in order and adds `(len-1)/3` commas. The first group has 1-3 digits and every later group exactly 3 |
| `NumberText.FormatNumberPlaceholder` | script.js:46-49 | the text is `-` exactly when the value is absent |
| `NumberText.FormatNumberPresent` | script.js:46-49 | for a present value: a `-` sign exactly when it is negative, then well-grouped digits that read back as the rounded magnitude. Without commas it is the decimal form of the rounded value (`"-0"` for [-0.5, 0)) |
| `NumberText.FormatNumberExample` | script.js:48 | 1234567.4 shows as `1,234,567` |
| `NumberText.FormatNegativeNumberExample` | script.js:48 | -1500.5 shows as `-1,500`, because the tie goes up |
| `PercentText.ToFixed1Shape` | script.js:55 | `toFixed(1)` has a sign exactly for negatives, then digits with no leading zero, a point and one digit. The digits read back as the value in tenths, rounded |
| `PercentText.FormatPercentCases` | script.js:51-58 | the text is `-` exactly when the ratio is absent. `isNeg` holds exactly when the ratio is present and negative |
| `PercentText.FormatPercentText` | script.js:51-58 | a present ratio's text ends in `%` with one digit after the point, has no leading zero and has a sign exactly for negatives. Its digits are the percentage to the nearest tenth |
| `PercentText.FormatPercentExample` | script.js:51-58 | 0.0251 gives `2.5%` (not negative) and -0.033 gives `-3.3%` (negative) |
| `PercentText.PctClassCases` | script.js:73-76 | the class is empty exactly when the ratio is absent, `cell-negative` exactly when it is negative, and `cell-positive` exactly when it is zero or positive |
| `Table.DisplayRowLayout` | script.js:78-87 | a row has 8 cells in header order (Date, WALCL, WDTGAL, RRPONTSYD, NetLiquidity, WoW, MoM, YoY), and only NetLiquidity is emphasised |
| `Table.PercentCellCases` | script.js:84-86 | a ratio cell shows `-` with no class exactly when the ratio is absent, and is classed by the ratio's sign otherwise |
| `Table.DisplayRowCells` | script.js:65-87 | every record gives a full row: the date verbatim, and a placeholder in each other cell exactly when that field is absent |
| `Table.TableBodyRows` | script.js:63-89 | one data row per record, in data set order, each with 8 cells and the record's date first |
| `Table.FailureRowSpansTable` | script.js:22 | the failure row's colspan equals the cell count of every data row (8) |
| `Page.Session.PopulateTable` | script.js:61-90 | the body afterwards is exactly the rows of the data set, whatever was there before, so a second run changes nothing |
| `ChartView.Substring` | script.js:102 | `substring(start)` is the suffix after the first `start` characters, or empty when `start` is past the end |
| `ChartView.LabelDropsYear` | script.js:102 | a `YYYY-MM-DD` date's label is its 5-character `MM-DD` part |
| `ChartView.LabelExample` | script.js:102 | `"2024-03-07"` is labelled `"03-07"` |
| `ChartView.ChartWindow` | script.js:100 | the window has `k = min(L, 250)` records, and element `i` is data set element `k-1-i` |
| `ChartView.ChartWindowIsChronological` | script.js:98-100 | a strictly newest-first data set gives a strictly oldest-first window |
| `ChartView.ChartOfFeed` | script.js:100 | over a loaded data set, the chart's reversal undoes the loader's: the window is the last `min(L, 250)` records of the fetched feed in feed order, and the whole feed when it has at most 250 records |
| `Records.ReversedDataIsOldestFirst` | script.js:100 | reversing a strictly newest-first sequence gives a strictly oldest-first one |
| `ChartView.ChartOfData` | script.js:100-106 | all five arrays have length `k`. Entry `i` is data set element `k-1-i`'s label, NetLiquidity, MA5, MA20 and MA60, and absent values pass through |
| `ChartView.Chart.constructor` | script.js:113 | a new chart instance is live and holds the given series |
| `ChartView.Chart.Destroy` | script.js:95 | a destroyed instance is no longer live |
| `Page.Session.RenderChart` | script.js:93-113 | the previous instance is destroyed and a fresh one holds the chart of the data set. Afterwards it is the only live instance of all built in the session |

## Left out

- Browser I/O is not modelled: `fetch`, JSON parsing, DOM queries and element creation, navigation between views, event listeners and `console.error` (script.js:1-8, 14-15, 21, 25-43, 62, 108). The fetch result is an input: either the parsed array or a failure.
- Chart.js configuration is not modelled: colours, line tension, legend, tooltip, tick limits, `Chart.defaults` and the y-axis billions formatter (script.js:110-200). A chart instance is an abstract handle with its data and a live flag.
- Floating point is not modelled. Values are exact reals, so there is no NaN, no Infinity and no -0 input, and there is no binary rounding error in `percent * 100` or in `toFixed`. `toFixed` switches to exponent form for magnitudes of 1e21 and above, and that case is not modelled.
- Malformed data is not modelled: every record has a string `Date` and numeric-or-absent fields. In the code, a `null` element makes `populateTable` throw after the data set has been assigned. The catch handler then shows the failure row while the reversed data set is still held. This model covers only a failure of the fetch or parse itself.
- Generation of `data.json` is not modelled (update_data.py: downloading, resampling, moving averages, ratios). The model takes it as given input.

## Notes

- A failed fetch or parse leaves the data set as it was (script.js:20-22). The loader runs once, so the data set is still the initial empty array (script.js:10).
- A ratio in (-0.0005, 0) shows as `-0.0%` and is classed `cell-negative`, because `toFixed(1)` writes the sign of the unrounded value (script.js:55-56).
