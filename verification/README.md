# Impact-echo scan viewer: data pipeline model

This project models the data pipeline of the Impact-Echo-Testing mobile app in Dafny. The app follows a live database of impact-echo scans and shows the newest scan. It fetches that scan's spectrum file (a CSV of time/amplitude pairs), parses it into two series and stores them in the screen state. The chart component does not use the stored series: it downsamples its own built-in 100-value series to at most 100 chart points.

The model covers four parts of that pipeline:

- **Scan selection** (`screens/Home.js`): the keys of the database object are sorted in descending order of `parseInt(key.split("_")[1])` and the first key is taken. The selected record is copied with its own key added. Module `ScanKeys` models the key handling. The sort is modelled as a stable insertion sort, and its head is proved to be the first key of maximal ordinal.
- **Screen state** (`screens/Home.js`): the `currentScan`, `fftData` and `fetchingFftData` state, the effect that starts a fetch whenever `currentScan` is set to a record whose `fftDataURL` is truthy, and the reset button. Module `Home` models these as a pure transition `Step` from a state and one event to the next state and the fetch it starts, if any.
- **CSV rows** (`components/fetchCSV.js`): the `complete` callback of the CSV parse. It drops row 0 and reads the first two fields of every later row with `parseFloat`. A row is kept when neither value is NaN. Module `FetchCsv` models this.
- **Downsampling** (`components/Graph.js`): `downsample` averages `targetPoints` windows of `ceil(n / targetPoints)` elements. Its results are zipped into `{x, y}` points, and the chart width is derived from the number of points. Module `Graph` models this.

Two supporting modules:

- `JsNumber` gives the JavaScript numbers the app sees: `Finite(real)`, `Infinity(sign)` and `NaN`. It models ECMAScript `parseFloat` and `parseInt` on strings:
  - leading white space;
  - one sign;
  - `Infinity`;
  - the longest decimal literal prefix with fraction and exponent;
  - the `0x` prefix of `parseInt`.
- `Wrappers` holds `Option`.

Behaviour of the code that the model keeps as it is:

- `downsample` emits NaN for every window that starts at or past the end of the data. `Graph.TwoHundredFiftyToHundred` shows 16 such entries when 250 values are reduced to 100 points.
- The ordinal of a key is `parseInt` of the text between the first and the second `_`, not of the text after the last `_`.
- A key without an ordinal makes the comparator return NaN, which the sort reads as "equal". The order is then engine-defined when the other keys' ordinals differ, and the stable sort keeps key order when they do not: `["a", "x_5"]` and `["a", "b"]` both select `"a"`. The model ranks such a key as 0 instead, which differs from the code on inputs such as `["a", "x_5"]` (`ScanKeys.MissingOrdinalExample`). `Home.ValidSnapshot` therefore excludes every snapshot of two keys or more in which a key lacks an ordinal.
- Nothing discards a fetch result whose scan is no longer current: a resolved fetch stores its series whatever scan is current when it arrives (`Home.ResolvedStoresSeries`, `Home.ResultAfterResetIsShown`).

## Model

| member | source | states |
|---|---|---|
| JsNumber.TrimStartSpec | components/fetchCSV.js:28-29 | what `parseFloat` skips before the literal is a prefix of the text made only of white space, and what remains does not start with white space |
| JsNumber.LeadingDigitsSpec | components/fetchCSV.js:28-29 | the digit reader's prefix consists of digits only, and the character after it, if any, is not a digit |
| JsNumber.ReadDigitsSpec | components/fetchCSV.js:28-29 | the digit reader splits the text into a digit string and a rest, the two concatenate back to the text, and the rest does not start with a digit |
| JsNumber.StripSign | components/fetchCSV.js:28-29 | the one optional sign before the literal: no ensures of its own; `ParseFloatNaNIff` and `ParseIntNaNIff` state what follows the sign, and `ParseFloatMinus` and `ParseFloatPlus` what the sign does to the value |
| JsNumber.ShowNatValue | screens/Home.js:27-28 | a printed natural number's digits denote that number |
| JsNumber.ParseFloat | components/fetchCSV.js:28-29 | `parseFloat`: no ensures of its own; its results are stated by `ParseFloatNaNIff` (when it is NaN), `ParseFloatFixedPoint`, `ParseFloatInteger`, `ParseFloatScientific` and `ParseFloatIntegerExponent` (the value of a numeral prefix), `LeadingWhiteSpaceIgnored`, `ParseFloatMinus` and `ParseFloatPlus` (white space and sign), `ParseFloatShowNat` and `ParseFloatLetterStart` |
| JsNumber.ParseInt | screens/Home.js:27-28 | `parseInt` without a radix: no ensures of its own; its results are stated by `ParseIntNaNIff` (when it is NaN), `ParseIntDecimal` (the value of a decimal prefix) and `ParseIntShowNat` |
| JsNumber.ParseFloatFixedPoint | components/fetchCSV.js:28-29 | `parseFloat` of `d.f` followed by text that cannot continue the numeral is the value of the digits `df` divided by `10^|f|` (`"3.5kHz"` gives 3.5) |
| JsNumber.ParseFloatInteger | components/fetchCSV.js:28-29 | `parseFloat` of an integer numeral followed by text that cannot continue it is the numeral's value |
| JsNumber.ParseFloatShowNat | components/fetchCSV.js:28-29 | `parseFloat` reads back every printed natural number exactly |
| JsNumber.TrimStartAfterWhiteSpace | components/fetchCSV.js:28-29 | any run of white space in front of a text is removed entirely by the trim, leaving what the text alone trims to |
| JsNumber.LeadingWhiteSpaceIgnored | components/fetchCSV.js:28-29 | white space in front of a field changes neither what `parseFloat` nor what `parseInt` reads |
| JsNumber.ParseFloatMinus | components/fetchCSV.js:28-29 | a `-` in front of a text that starts with neither white space nor a sign negates what `parseFloat` reads: a finite value changes sign, an infinity changes direction, NaN stays NaN |
| JsNumber.ParseFloatPlus | components/fetchCSV.js:28-29 | a `+` in front of a text that starts with neither white space nor a sign leaves what `parseFloat` reads unchanged |
| JsNumber.ExponentOf | components/fetchCSV.js:28-29 | an exponent part `e`, an optional `-`, digits `k` and text that does not continue the digits denotes plus or minus the value of `k` |
| JsNumber.UnsignedScientific | components/fetchCSV.js:28-29 | the decimal reader on `d.f` followed by an exponent marker gives the digits `df` and the exponent that follows, lowered by the number of fraction digits |
| JsNumber.ParseFloatScientific | components/fetchCSV.js:28-29 | `parseFloat` of `d.f` followed by an exponent marker is the value of the digits `df` times ten to the power of the exponent that follows minus `|f|` |
| JsNumber.ParseFloatIntegerExponent | components/fetchCSV.js:28-29 | `parseFloat` of an integer numeral followed by an exponent marker is the numeral's value times ten to the power of the exponent that follows |
| JsNumber.ParseFloatExponentNumeral | components/fetchCSV.js:28-29 | `parseFloat` of `<d>e<k>` is the value of `d` times ten to the power of the value of `k` |
| JsNumber.ParseFloatNegativeExponent | components/fetchCSV.js:28-29 | `parseFloat` of `-<d>e<k>` is minus the value of `d` times ten to the power of the value of `k` |
| JsNumber.ParseFloatNegativeShowNatExponent | components/fetchCSV.js:28-29 | for all naturals `d` and `k`, `parseFloat` reads the printed text `-<d>e<k>` back as `-(d * 10^k)` |
| JsNumber.UnsignedDecimalNoneIff | components/fetchCSV.js:28-32 | the decimal reader finds no literal exactly when the text starts neither with a digit nor with a point followed by a digit |
| JsNumber.ParseFloatNaNIff | components/fetchCSV.js:28-32 | `parseFloat` is NaN if and only if, after white space and one sign, the text starts neither with `Infinity`, nor with a digit, nor with a point followed by a digit |
| JsNumber.ParseFloatNonNumeric | components/fetchCSV.js:28-32 | text whose first character cannot start white space, a sign, a numeral or `Infinity` reads as NaN |
| JsNumber.ParseFloatLetterStart | components/fetchCSV.js:28-32 | text starting with a Latin letter other than `I` reads as NaN |
| JsNumber.ParseIntDecimal | screens/Home.js:27-28 | `parseInt` reads a decimal numeral followed by non-digit text as the numeral's value, unless the numeral is `0` followed by `x` or `X` |
| JsNumber.ParseIntShowNat | screens/Home.js:27-28 | `parseInt` reads back every printed natural number exactly |
| JsNumber.ParseIntNaNIff | screens/Home.js:27-28 | `parseInt` is NaN if and only if no digit of the selected radix (16 after `0x`, else 10) follows the white space and the sign |
| ScanKeys.IndexOfSpec | screens/Home.js:27-28 | the search that `split("_")` performs finds the first `_`, and finds none only when there is no `_` |
| ScanKeys.SecondSegment | screens/Home.js:27-28 | `key.split("_")[1]`: no ensures of its own; `SecondSegmentNoneIff`, `SecondSegmentBetweenUnderscores` and `SecondSegmentToEnd` state what it is |
| ScanKeys.SecondSegmentNoneIff | screens/Home.js:27-28 | `split("_")[1]` is undefined if and only if the key has no `_` |
| ScanKeys.SecondSegmentBetweenUnderscores | screens/Home.js:27-28 | for a key `p_m_t` with no `_` in `p` or `m`, `split("_")[1]` is `m`, the text between the first and the second `_`, whatever follows |
| ScanKeys.SecondSegmentToEnd | screens/Home.js:27-28 | for a key `p_m` with no `_` in `p` or `m`, `split("_")[1]` is `m` |
| ScanKeys.SecondSegmentExample | screens/Home.js:27-28 | `"a_3_7".split("_")[1]` is `"3"` |
| ScanKeys.Ordinal | screens/Home.js:27-28 | `parseInt(key.split("_")[1])`: no ensures of its own; `OrdinalOfPrefixedNumeral` states that the ordinal of `prefix_n` is `n`, and `RankScan3`, `RankScan10`, `RankScan2` give the ordinals of the three example keys |
| ScanKeys.OrdinalOfPrefixedNumeral | screens/Home.js:27-28 | for a key `prefix_n` with no `_` in the prefix, `split("_")[1]` is the numeral and its ordinal is `n` |
| ScanKeys.Insert | screens/Home.js:26-30 | inserting one entry into a sorted list gives a list one longer, with the same entries plus the new one, whose head is the new entry exactly when its ordinal is at least the old head's |
| ScanKeys.InsertSorted | screens/Home.js:26-30 | insertion keeps a list in non-increasing ordinal order |
| ScanKeys.SortDesc | screens/Home.js:26-30 | the descending sort by ordinal is a permutation of its input, in non-increasing ordinal order |
| ScanKeys.FirstMaximum | screens/Home.js:26-30 | the reference selection returns a position of maximal ordinal whose ordinal is strictly greater than that of every earlier position |
| ScanKeys.LatestIsUnique | screens/Home.js:26-30 | at most one position is the first of maximal ordinal |
| ScanKeys.SortHeadIsLatest | screens/Home.js:26-30 | the head of the stable descending sort is the first entry of maximal ordinal |
| ScanKeys.Select | screens/Home.js:26-30 | `[0]` of the sorted keys is undefined exactly when there are no keys, and otherwise is the key of the first maximal ordinal |
| ScanKeys.LatestKey | screens/Home.js:26-30 | the selected key is undefined exactly when the object has no keys |
| ScanKeys.LatestKeyIsFirstMaximum | screens/Home.js:26-30 | for a non-empty object, the selected key is the first key of maximal ordinal, and is one of the object's keys |
| ScanKeys.SelectIsLatest | screens/Home.js:26-30 | whichever position is the first of maximal ordinal is the one whose key is selected |
| ScanKeys.MissingOrdinalRankedAsZero | screens/Home.js:26-30 | with a key without an ordinal before a key of positive ordinal, the keys are not comparable and the model selects the second key; the code selects the first, because its comparator reads NaN as "equal" |
| ScanKeys.MissingOrdinalExample | screens/Home.js:26-30 | for the keys `a`, `x_5` the model selects `x_5`, where the code selects `a` |
| ScanKeys.NumericNotLexicographic | screens/Home.js:26-30 | keys `scan_3`, `scan_10`, `scan_2` select `scan_10`, because ordinals compare as numbers and not as text |
| FetchCsv.ReadRowsSpec | components/fetchCSV.js:27-29 | pair `i` holds the two values `parseFloat` gives for the first two fields of data row `i` |
| FetchCsv.Field | components/fetchCSV.js:28-29 | `parseFloat(row[i])`: no ensures of its own; `ShortRowDropped` states that a missing field reads as NaN |
| FetchCsv.ReadRow | components/fetchCSV.js:28-29 | `[parseFloat(row[0]), parseFloat(row[1])]`: no ensures of its own; `ReadRowsSpec` states that pair `i` is this reading of data row `i`, and `ReadNumeralRow` its value on numerals |
| FetchCsv.Contributes | components/fetchCSV.js:32 | the guard `!isNaN(timeValue) && !isNaN(amplitudeValue)`: no ensures of its own; `KeptSpec` states that exactly the rows meeting it are kept, and `CollectAppend` that a row extends the series exactly when it meets it |
| FetchCsv.DataRows | components/fetchCSV.js:22 | `result.data.slice(1)`: no ensures of its own; `HeaderAlwaysDiscarded` states that row 0 never affects the result |
| FetchCsv.Kept | components/fetchCSV.js:27-36 | the positions of the rows the `forEach` keeps are at most as many as the rows and each is a row position; `KeptSpec` states which they are |
| FetchCsv.KeptSpec | components/fetchCSV.js:27-36 | the kept row positions increase, each kept row has two non-NaN values, and every row with two non-NaN values is kept |
| FetchCsv.Collect | components/fetchCSV.js:27-36 | the `forEach` with its two `push` calls grows `time` and `amplitude` to the same length, one entry per kept row; `CollectSpec` and `CollectAppend` state the entries |
| FetchCsv.CollectSpec | components/fetchCSV.js:27-36 | entry `k` of `time` and of `amplitude` is the first or second value of the `k`-th kept row |
| FetchCsv.ExtractSeries | components/fetchCSV.js:20-43 | the two arrays have equal length, no more than the number of rows after row 0, and no NaN, and entry `k` of each is the value of the `k`-th row after row 0 whose two values are both numbers |
| FetchCsv.HeaderAlwaysDiscarded | components/fetchCSV.js:22 | replacing row 0 by anything leaves the result unchanged |
| FetchCsv.ShortRowDropped | components/fetchCSV.js:28-32 | a row with fewer than two fields reads a missing field as NaN and is dropped |
| FetchCsv.CollectAppend | components/fetchCSV.js:27-36 | one more row appends its two values to both arrays if and only if neither is NaN, and leaves the earlier entries alone |
| FetchCsv.ReadNumeralRow | components/fetchCSV.js:28-29 | a row of two natural-number numerals reads as those two numbers |
| FetchCsv.ExampleDocument | components/fetchCSV.js:20-43 | the rows `t,a` / `1,2` / `x,3` / `4,y` / `5,6` give `time = [1, 5]` and `amplitude = [2, 6]` |
| Graph.Ratio | components/Graph.js:10 | the window size is the least size whose `targetPoints` windows cover the data: they reach `n`, and one element fewer per window would not |
| Graph.JsSlice | components/Graph.js:13-15 | `array.slice(start, end)`: the slice is never longer than the array; `SlicedWindow` states that with the loop's clamped bounds it is exactly window `i` |
| Graph.Window | components/Graph.js:13-15 | the slice for index `i`: no ensures of its own; `InWindowIff`, `EachIndexInExactlyOneWindow` and `WindowsContiguous` state which indices it holds, and `SlicedWindow` that it is the clamped `slice(start, end)` the loop takes |
| Graph.Mean | components/Graph.js:16 | the sum of a window divided by its length: no ensures of its own; `EmptyWindowIffPastEnd` states that it is NaN exactly for an empty window, and `ConstantInputGivesConstant` and `ShortInputIsCopied` give its value |
| Graph.Divide | components/Graph.js:16 | `/ window.length`: no ensures of its own; `Downsample` states that dividing each window's sum by its length gives the window's mean, and `EmptyWindowIffPastEnd` that the 0 / 0 of an empty window is NaN exactly for windows starting at or past the end |
| Graph.FoldSum | components/Graph.js:16 | the `reduce` from 0 computes the sum of the window |
| Graph.Downsample | components/Graph.js:9-20 | the result has exactly `targetPoints` entries (none for a non-positive target), and entry `i` is the mean of window `i`, which is NaN when the window is empty |
| Graph.SumConstant | components/Graph.js:16 | a window of equal values sums to its length times the value |
| Graph.EmptyWindowIffPastEnd | components/Graph.js:13-16 | entry `i` is NaN if and only if its window starts at or past the end of the data, and otherwise it is a finite mean |
| Graph.ConstantInputGivesConstant | components/Graph.js:9-20 | constant input `v` gives `v` in every entry whose window is not empty |
| Graph.ShortInputIsCopied | components/Graph.js:9-20 | data no longer than the target gets windows of one element: the first `n` entries copy the input and the rest are NaN |
| Graph.InWindowIff | components/Graph.js:13-14 | for an index `j` of the data, the clamp of the window end to `n` makes no difference: `j` is in window `i` exactly when `i * ratio <= j < i * ratio + ratio` |
| Graph.EachIndexInExactlyOneWindow | components/Graph.js:10-15 | every index of the data lies in window `j / ratio`, which is below `targetPoints`, and in no other window |
| Graph.WindowsContiguous | components/Graph.js:13-15 | window `i` ends where window `i + 1` starts, unless the data ends first |
| Graph.TwoHundredFiftyToHundred | components/Graph.js:9-20 | 250 values reduced to 100 points use windows of 3 and give NaN exactly in entries 84 to 99 |
| Graph.Zip | components/Graph.js:40-47 | the points are as many as the x-values |
| Graph.UnzipZip | components/Graph.js:40-47 | the points' x-values are the x-series, and each point's y is the y-value at its index, or undefined past the end of the y-series |
| Graph.DynamicWidth | components/Graph.js:50-51 | the width is 35 pixels per point up to 10 points and 350 pixels from then on, never more |
| Graph.DynamicWidthMonotone | components/Graph.js:50-51 | more points never give a narrower chart |
| Graph.ChartData | components/Graph.js:34-51 | both series are reduced to `min(n, 100)` points and zipped, so every point has a defined y, and series of equal length up to 100 values pass through unchanged |
| Home.LatestScan | screens/Home.js:24-33 | the current scan is the selected record with `key` set to the selected key and every other field copied, or `{ key: undefined }` for an empty object |
| Home.FetchEffect | screens/Home.js:47-61 | the fetch starts, with the loading flag raised and the scan's `fftDataURL` as its URL, if and only if the scan is non-null and its URL is truthy; otherwise nothing changes |
| Home.Truthy | screens/Home.js:48 | the truthiness test `currentScan && currentScan.fftDataURL`: no ensures of its own; `FetchEffect` and `Step` state that a fetch starts exactly when the URL is truthy, and `EmptySnapshot` that an undefined URL starts none |
| Home.Get | screens/Home.js:48 | the property read `currentScan.fftDataURL`, `undefined` for a missing field: no ensures of its own; `FetchEffect` states that the fetch starts with the value of this read as its URL exactly when it is truthy |
| Home.Step | screens/Home.js:24-67 | a fetch starts if and only if a non-null database value selects a scan with a truthy URL; the loading flag is up exactly when a fetch just started, or it was up and no fetch settled; only a resolved fetch or a reset changes the series; only a non-null value or a reset changes the scan |
| Home.Run | screens/Home.js:24-67 | a run of events produces one effect per event |
| Home.StepKeepsConsistent | screens/Home.js:47-61 | every event keeps the series aligned and NaN-free, and keeps the current scan carrying its key |
| Home.RunKeepsConsistent | screens/Home.js:24-67 | every state reachable from a consistent state is consistent |
| Home.ReachableStatesConsistent | screens/Home.js:18-20 | the freshly mounted screen (all three state slots null or false) is consistent, and so is every state the screen reaches from it |
| Home.SnapshotSelectsNewest | screens/Home.js:24-33 | a new database value makes current the record of the first key of maximal ordinal, with that key in its `key` field, and leaves the series alone |
| Home.EmptySnapshot | screens/Home.js:25-33 | an empty database object makes `{ key: undefined }` current and starts no fetch |
| Home.RepeatedSnapshotRefetches | screens/Home.js:24-61 | delivering the same database value twice starts the fetch twice |
| Home.NullDataIgnored | screens/Home.js:25 | a null database value changes nothing |
| Home.ResolvedStoresSeries | screens/Home.js:52-60 | a resolved fetch stores the series read from the file, whatever scan is current, and lowers the loading flag |
| Home.RejectedKeepsSeries | screens/Home.js:55-60 | a rejected fetch keeps the series shown and only lowers the loading flag |
| Home.ResetClears | screens/Home.js:64-67 | reset clears the scan and the series and leaves the loading flag as it was |
| Home.ResultAfterResetIsShown | screens/Home.js:47-67 | a fetch started before a reset still fills the series when it resolves after the reset, although no scan is current |

## Left out

- The Firebase subscription (`hooks/useFetchFirebase.js`) and the `loading` and `error` values it returns are not modelled. A database value is an event `DataChanged` carrying the keys in `Object.keys` order and the records.
- The `console.error("Error fetching FFT data:", error)` logging in the rejection handler of the fetch effect is not modelled: it is output only and changes no state.
- The network part of `fetchCSV` (the `fetch`, the status check and `response.text()`) is not modelled. It is an event `FetchResolved` carrying the tokenised rows, or `FetchRejected`. CSV tokenisation by the parsing library is not modelled either: the model starts from its rows of field strings.
- IEEE-754 arithmetic is not modelled. Numbers are exact reals, so the model has no rounding in `parseFloat`, in the sums and divisions of `downsample`, or in `Math.ceil`, no negative zero, and no overflow of long numerals to `Infinity`.
- The rendering is not modelled: the chart components, the tooltip and its `toFixed(8)`, the modal, the analysis panel and the hard-coded `result` state. `Graphs` draws its own built-in 100-point series and ignores its props; `Graph.ChartData` models the shaping of whatever two series it is given.
- Timing of overlapping fetches is left to the order of events. Each resolution or rejection is one event, applied to whatever state is current when it arrives.
- Record fields are kept only as precisely as truthiness needs: objects and arrays are a single `Compound` value. A database value whose records are not objects is not modelled.
- ScanKeys.LatestKey: a key without an ordinal is ranked as 0. In the code such a key compares equal to every key (the NaN comparator result reads as "equal"), so the code selects differently, for example `"a"` from `["a", "x_5"]` where the model selects `"x_5"`; where the other ordinals differ, the code's order is engine-defined. `Home.ValidSnapshot` excludes all snapshots with two keys or more in which a key lacks an ordinal, including ones such as `["a", "b"]` that the code handles deterministically.
- JsNumber.ParseInt: `parseInt` is modelled without its radix argument, which the code never passes, and its values are exact integers with no rounding to doubles.
