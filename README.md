# npm-epss-audit, modelled in Dafny

`npm-epss-audit` is a command-line tool. It looks up the EPSS score of every
CVE that npm's quick-audit endpoint reports for a project. EPSS is the
published probability that a vulnerability will be exploited. The tool prints
the advisories as a table sorted by that score, and its exit code says:

- 2: some CVE's score is above a threshold
- 1: something went wrong
- 0: otherwise

This project models the core of `bin/index.js`:

- `loadScores`: reading the EPSS score file into the process-wide table.
- The decision part of `audit`:
  - building the request body
  - the walk over the advisories, with its exceptions
  - the threshold test
  - the table's rows, their sort and reversal
  - the exit codes
- The top-level `try`/`catch`, which turns every exception into exit code 1.

The modules:

- `Text`: `String.prototype.split` with a one-character separator.
- `Numbers`: the JavaScript numbers the audit touches, in exact decimal arithmetic. `NaN`, or `digits / 10^scale`.
  - `Number(text)` on a score field.
  - `x * 100.0`.
  - `x.toFixed(f)`, followed by the unary `+` that reads the printed digits back.
  - `>`, which is false whenever `NaN` is involved.
- `Scores`: a score line's fields and the `ScoreStore` class.
  - The class's `scores` map is the module-level `epssScores` object.
  - Its `LoadScores` method is the `for … of` loop with its `idx` counter.
  - It is proved against the function `LoadLines`.
- `Npm`: the project files, the request body with its merged `requires` map, the advisories, and the registry as a function parameter.
- `Decision`: the decision as functions.
  - `Fault`: the exception a single advisory raises.
  - `FirstFault`, `Exceeds`, `Rows`, `Decide`.
  - `Verdict`: the whole of `audit`.
  - `RunVerdict`: the whole of a run.
- `Table`: the comparator, an in-place insertion sort on an array, and an in-place reverse.
- `Audit`: the imperative run.
  - `Audit` walks the advisories with the `aboveThreshold` flag and the `tabularData` list, then sorts and reverses the table.
  - `Run` creates the store, loads it, audits, and maps the outcome to an exit code.
  - Both are proved to realise `Verdict` and `RunVerdict`.
- `Scenarios`: worked runs (no advisories, a score above the default threshold, a score below an explicit threshold, an advisory only verbose mode trips over).

## Model

| member | source | states |
|---|---|---|
| `Text.Split` | bin/index.js:47 | The result of `split` is never empty, no piece contains the separator, and joining the pieces with the separator gives the text back. |
| `Text.SplitJoin` | bin/index.js:47 | The other round trip: splitting the join of separator-free pieces gives back those pieces. |
| `Text.SplitTrailingSeparator` | bin/index.js:47 | A trailing separator adds one final empty piece. |
| `Numbers.SameScaleGreater` | bin/index.js:178-181 | For two numbers with the same number of decimals, `>` is `>` on their digits. |
| `Numbers.RoundAtNearest` | bin/index.js:179 | For any sign, `toFixed` rounds the magnitude to the nearest multiple of `10^-f`, a tie goes to the larger magnitude (away from zero), and the sign is kept. |
| `Numbers.PointTextReadsBack` | bin/index.js:179 | Reading back the decimal text that `toFixed` prints gives the same digits and the same number of decimals. |
| `Numbers.FixedRounds` | bin/index.js:179-180 | `+Number(x).toFixed(f)` is `NaN` for `NaN`. Otherwise it is `x` rounded to `f` decimals, half away from zero. |
| `Numbers.PercentIsHundredfold` | bin/index.js:193-195 | The displayed score `+(epss * 100).toFixed(3)` is exactly 100 times the 5-decimal value that the threshold test uses. It is `NaN` exactly when that value is. |
| `Numbers.FixedMonotone` | bin/index.js:179-180 | Rounding with `toFixed` never reverses the order of two numbers. |
| `Numbers.RescaleKeepsRounding` | bin/index.js:179-180 | `toFixed` depends on a number's value only. Adding trailing zeros to its digits does not change the result. |
| `Scores.ParseLine` | bin/index.js:57 | The key is the longest comma-free prefix of the line. The line has an EPSS field exactly when it contains a comma. |
| `Scores.ExtraFieldsIgnored` | bin/index.js:57 | `cve,epss,percentile` gives the key `cve` and both fields. A fourth field changes nothing. |
| `Scores.ScoreStore.constructor` | bin/index.js:13 | The store starts empty. |
| `Scores.ScoreStore.LoadScores` | bin/index.js:45-66 | The loop stores the lines of the file in order, skipping the first two. The new table is `LoadLines` of the old table and the data lines. |
| `Scores.LoadKeys` | bin/index.js:56-62 | After loading, a key is present exactly when it was present before or some loaded line has it. |
| `Scores.LoadLastWins` | bin/index.js:58-61 | A key's entry comes from the last line with that key. |
| `Scores.LoadKeepsOthers` | bin/index.js:58-61 | Loading never removes a key. A key that no line has keeps its old entry. |
| `Scores.HeaderLinesSkipped` | bin/index.js:48-56 | Into an empty table, a key is loaded exactly when some line from the third one on has it. |
| `Scores.TrailingNewlineStoresEmptyKey` | bin/index.js:47-62 | A file ending in a newline also stores the key `""`, with neither an EPSS value nor a percentile. |
| `Npm.MergeRequires` | bin/index.js:103-108 | For every package, `requires` holds the version from the last of dev, peer, optional and regular dependencies that lists it. An absent map contributes nothing. |
| `Decision.FirstFault` | bin/index.js:154-207 | The walk raises nothing exactly when no advisory raises. |
| `Decision.FirstFaultAt` | bin/index.js:154-207 | The exception raised comes from an advisory all of whose predecessors raise nothing. |
| `Decision.FirstFaultAfter` | bin/index.js:154-207 | If the first `i` advisories raise nothing and advisory `i` raises, the walk raises exactly that advisory's exception, whatever follows. |
| `Decision.WithCve` | bin/index.js:187 | The `value.cves && value.cves.length > 0` filter: every advisory with a CVE is among the result, and nothing else is. The contract states membership both ways; order and count come from the definition and are used through `RowsFollowCves`. |
| `Decision.ExitCodes` | bin/index.js:128-240 | The exit code is 2 exactly when the reported advisories raise nothing and one of them exceeds the threshold, 0 exactly when they raise nothing and none exceeds it, and 1 otherwise. |
| `Decision.MissingScoreThrows` | bin/index.js:187-196 | Reaching an advisory whose first CVE has no score throws `MissingScore` for that CVE, and the run exits with 1 whatever the threshold. |
| `Decision.RowsFollowCves` | bin/index.js:187-197 | In tabular mode the rows are, in order, one row per advisory with a CVE: its module, severity, first CVE, CVSS score and percent. |
| `Decision.VerboseSameExit` | bin/index.js:155-205 | A verbose run that raises nothing exits like the tabular run and prints no table. |
| `Decision.ThresholdMonotone` | bin/index.js:198-203 | Any run that exceeds a threshold also exceeds every lower threshold. |
| `Decision.NaNThresholdNeverExceeds` | bin/index.js:178-183 | A `NaN` threshold is never exceeded, so the exit code is never 2. |
| `Decision.DefaultThreshold` | bin/index.js:198-203 | With the default threshold 0.0, an advisory exceeds exactly when its first CVE has a score whose 5-decimal rounding is positive. |
| `Decision.OnlyFirstCve` | bin/index.js:169-196 | CVEs after the first change neither an advisory's exception, nor its threshold test, nor its row. |
| `Table.CompareAntisymmetric` | bin/index.js:212-218 | Swapping the comparator's arguments negates its result, and the result is always -1, 0 or 1. |
| `Table.CompareNaN` | bin/index.js:212-218 | A `NaN` percent compares equal to everything. |
| `Table.CompareTransitive` | bin/index.js:212-218 | Between numeric percents, the comparator is transitive. |
| `Table.SortAscending` | bin/index.js:211-218 | The sort keeps the same rows (as a multiset) and leaves every pair of neighbours in comparator order. |
| `Table.SortedAscending` | bin/index.js:211-218 | When every percent is a number, neighbours in order means the whole table is ascending by value. |
| `Table.NaNBreaksOrder` | bin/index.js:212-218 | With a `NaN` in the middle, neighbours can be in order while the ends are not. |
| `Table.Reverse` | bin/index.js:219 | Element `k` of the reversal is element `n-1-k` of the input. |
| `Table.ReverseKeepsRows` | bin/index.js:219 | Reversing keeps the same rows. |
| `Table.ReverseTurnsOrder` | bin/index.js:219 | Reversing an ascending table gives a descending one. |
| `Table.ReverseInPlace` | bin/index.js:219 | The array afterwards holds the reversal of its old contents. |
| `Table.SortDescending` | bin/index.js:209-221 | The printed table has the same rows, each neighbour at least as large as the next. |
| `Table.PrintedDescending` | bin/index.js:209-221 | When every percent is a number, the printed table is descending by value. |
| `Audit.Audit` | bin/index.js:68-240 | Against the store's scores, the run throws exactly the exception `Verdict` names. Otherwise it exits with `Verdict`'s code and prints `Verdict`'s rows in descending order. |
| `Audit.RealizesExitCode` | bin/index.js:225-236 | A run realising a verdict exits with the verdict's code. Its table is empty exactly when the verdict has no rows. |
| `Audit.Run` | bin/index.js:243-268 | A fresh store, then `loadScores`, then `audit`, with every exception mapped to 1. The exit code is `RunVerdict`'s, and the table holds its rows in printed order. |
| `Scenarios.CleanProject` | bin/index.js:237-239 | With no advisories reported, the run exits with 0 and prints no table. |
| `Scenarios.LoadOneLine` | bin/index.js:45-66 | A file of two header lines and one data line stores exactly that line's entry. |
| `Scenarios.SingleAdvisory` | bin/index.js:198-236 | One advisory with a scored CVE and a CVSS score raises nothing, gives exactly its own row, and exits with 2 exactly when it exceeds the threshold, else 0. |
| `Scenarios.AboveDefaultThreshold` | bin/index.js:198-233 | EPSS 0.00234 under threshold 0.0 prints a 0.234 % row and exits with 2. |
| `Scenarios.BelowThreshold` | bin/index.js:198-236 | EPSS 0.00001 under threshold 0.001 prints a 0.001 % row and exits with 0. |
| `Scenarios.VerboseOnlyFault` | bin/index.js:155-159 | An advisory without findings stops a verbose run at `findings[0]` but not a tabular run. |

## Left out

- Downloading and unpacking the score file (`downloadFile`, `syncEpss`, bin/index.js:15-43) is network and file-system I/O. `Run` receives the unpacked text, or None when fetching, unpacking or reading it fails. None ends in the catch with exit code 1.
- Whether `package.json` and `package-lock.json` exist and parse are inputs (`FileState`): `Missing` for a failed `existsSync`, `Malformed` for a `JSON.parse` that throws. The lockfile's `dependencies` are carried as text. The package fields are taken as strings, and absent `name` or `version` values are not modelled.
- The registry request is the `server` parameter. It returns the parsed reply, or None when `fetch` or `response.json()` throws. A `null` body also counts as None: it throws at `json.metadata` in verbose mode and at `json.advisories` otherwise, with exit code 1 either way. `json.error` is modelled as a boolean truthiness flag. The advisories are the values of the `advisories` object in `Object.entries` order.
- Command-line parsing with yargs (bin/index.js:245-259) is left out. `verbose` and `threshold` are parameters, and a threshold that is not a number is `NaN`.
- All console output is left out: the refresh banner, the metadata summary, the verbose advisory text, `console.table`, and the "threshold exceeded" and "No vulnerabilities found" messages. The same goes for the `count` variable, which only numbers the printed advisories. Of the verbose branch, only the dereferences that can throw (`findings[0]`, `paths[0]`, `cvss.score`, the score lookup) are modelled.
- A `cvss` object without a `score` prints `undefined` and does not throw. The model always carries the score as a string.
- `Number(text)` is modelled for optional whitespace, an optional sign, and digits with at most one decimal point. Exponents, `Infinity`, and hexadecimal, octal and binary literals read as `NaN` in the model. The whitespace set is the ASCII set plus NBSP, LS, PS and BOM. Other Unicode space separators are not included.
- Numbers are exact decimals, not IEEE doubles. The binary rounding error of `epss * 100.0`, and of `toFixed` applied to a double (such as `1.005.toFixed(2)`), is not modelled. Neither is the exponent notation `toFixed` prints for magnitudes of 1e21 or more.
- Table.SortAscending: promises that neighbours are in comparator order and that the rows are kept. It does not prove the stability that `Array.prototype.sort` guarantees. When a `NaN` percent makes the comparator inconsistent, JavaScript leaves the order to the implementation, and the model gives one admissible order.
- Plain-object quirks of `epssScores`, such as a line whose key is `__proto__`, are not modelled. The table is a map.

