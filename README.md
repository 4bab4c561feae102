# The `json` test harness, modelled in Dafny

`test/test.js` is the end-to-end test suite of the `json` command-line tool.
It registers one nodeunit test case per sub-directory of `test/` that holds a
`cmd` script. The `TEST_ONLY` environment variable can narrow the run: a token
names a case to keep, and a token with a leading `-` names a case to skip.
Each case runs `bash cmd` in its directory. It then compares the exit code
with `expected.exitCode` and, when that fixture exists, the standard output
with `expected.stdout`.

This project models the deterministic part of that script:

- `text.dfy` (module `Text`): `trim()` and `split(/\s+/)` over a fixed set of
  whitespace characters, with their partners. Trimming is characterised by the
  padding it removes. Splitting is characterised by the whitespace runs it
  removes, and it is the inverse of joining words with spaces.
- `filter.dfy` (module `Filter`): the tokenising loop that fills `only` and
  `excludes`, `indexOf`, and the selection test. Lemmas cover routing,
  ordering, membership and the unset, blank and exclude-only cases.
- `discovery.dfy` (module `Discovery`): the loop that fills the `data` map.
  Directory entries are abstracted as `{name, isDir, hasCmd}` records.
- `case_runner.dfy` (module `CaseRunner`): the per-case runner. The fixtures
  and the `exec` outcome are `Option` values. The assertions made are recorded
  as a sequence of compared pairs.
- `wrappers.dfy` (module `Wrappers`): the `Option` type.

Two consequences of the code, proved here, are worth knowing.

- A clean exit gives `error === null`, so `error && error.code` is `null`. An
  `expected.exitCode` fixture holding `0` therefore gives the comparison
  `0 == null`, which is false: such a case can never pass
  (`CaseRunner.ZeroFixtureNeverPasses`). Only a case without that fixture can
  expect a clean exit. The model follows the code here.
- Without an exit-code fixture, the exit-code assertion also holds when a
  signal ends the process. In that case Node's error object has no exit
  status, so `error.code` is `null` (`CaseRunner.ExitCheckByTermination`).

## Model

| member | source | states |
|---|---|---|
| `Text.Trim` | test/test.js:33 | `trim()` leaves no whitespace at either end, and its result is empty exactly when the input is all whitespace |
| `Text.TrimPadding` | test/test.js:33 | trimming whitespace-only padding around a trimmed string gives back that string |
| `Text.TrimIsInfix` | test/test.js:33 | the trimmed string is a contiguous piece of the input with only whitespace before and after it |
| `Text.TrimIdempotent` | test/test.js:33 | trimming twice is the same as trimming once |
| `Text.Split` | test/test.js:33 | `split(/\s+/)` always yields at least one piece; `"".split(/\s+/)` is `[""]` |
| `Text.SplitRebuilds` | test/test.js:33 | between consecutive pieces lies a non-empty run of whitespace, and putting those runs back between the pieces rebuilds the input exactly |
| `Text.SplitNoSpace` | test/test.js:33 | no piece holds whitespace, and only the first and the last piece can be empty |
| `Text.SplitUnique` | test/test.js:33 | the pieces are determined by the input: any whitespace-free pieces, only the first and last possibly empty, joined by non-empty whitespace runs, are exactly what `split(/\s+/)` returns for the joined string |
| `Text.SplitCons` | test/test.js:33 | a whitespace-free word, a non-empty whitespace run, then a string that is empty or starts with a non-whitespace character: the word is the first piece and the rest splits as that string does |
| `Text.SplitNonEmpty` | test/test.js:33 | on trimmed non-empty input no piece is empty |
| `Text.Tokens` | test/test.js:33 | the token list of `TEST_ONLY` is never empty |
| `Text.SplitJoin` | test/test.js:33 | splitting words joined by single spaces gives back exactly those words, in order |
| `Text.TokensJoin` | test/test.js:33 | trim-then-split of words joined by spaces gives back the words |
| `Text.TokensShape` | test/test.js:30-33 | a non-blank value tokenises into non-empty whitespace-free words; a blank one into the single token `""` |
| `Filter.DashToken` | test/test.js:35-36 | a token is an exclude token iff it is a `-` followed by a name, and `slice(1)` gives that name back; the empty token is not one |
| `Filter.SpecOf` | test/test.js:29-41 | with `TEST_ONLY` unset or empty both lists are empty; otherwise the two lists hold one entry per token between them, so at least one |
| `Filter.ParseTestOnly` | test/test.js:29-41 | the loop builds exactly the two lists `SpecOf` describes; both are empty when `TEST_ONLY` is unset or empty |
| `Filter.EmptyTokens` | test/test.js:33 | the empty string tokenises to `[""]` |
| `Filter.EachTokenRoutedOnce` | test/test.js:34-40 | the two lists together have exactly as many entries as there are tokens |
| `Filter.ListsGrowByAppending` | test/test.js:34-40 | the lists built from a prefix of the tokens are prefixes of the final lists |
| `Filter.TokenPlacement` | test/test.js:34-40 | a dash token, less its dash, goes to `excludes` after all earlier dash tokens and adds nothing to `only`; any other token goes unchanged to `only` after all earlier non-dash tokens and adds nothing to `excludes` |
| `Filter.IncludesMembership` | test/test.js:35-38 | a name is in `only` iff it is a token without a leading dash |
| `Filter.ExcludesMembership` | test/test.js:35-36 | a name is in `excludes` iff `-name` is a token |
| `Filter.NoIncludeTokens` | test/test.js:34-40 | when every token has a leading dash, `only` stays empty |
| `Filter.IndexOf` | test/test.js:47-50 | `indexOf` returns -1 iff the name is absent, and otherwise the position of its first occurrence |
| `Filter.Selected` | test/test.js:47-52 | a name is kept iff (`only` is empty or holds it) and `excludes` does not hold it |
| `Filter.UnsetSelectsEverything` | test/test.js:29-52 | with `TEST_ONLY` unset or empty both lists are empty and every name is kept |
| `Filter.ExcludeTokenWins` | test/test.js:33-52 | a `-name` token drops `name`, even when `name` is also an include token |
| `Filter.OnlyRestricts` | test/test.js:47-49 | once `only` is non-empty, a name that is not a token is dropped |
| `Filter.BlankSelectsNothing` | test/test.js:30-49 | a non-empty all-whitespace `TEST_ONLY` gives `only == [""]`, `excludes == []`, and drops every non-empty name |
| `Filter.OnlyExcludeTokens` | test/test.js:33-52 | when every token has a dash, `only` is empty and a name is kept iff `-name` is not a token |
| `Discovery.DistinctCaseDirs` | test/test.js:53-60 | different case names get different directories, so each case's `cmd` runs in a directory of its own |
| `Discovery.Qualifies` | test/test.js:47-59 | an entry gets a case iff `only` is empty or holds its name, `excludes` does not hold its name, it is a directory, and it holds `cmd` |
| `Discovery.Discover` | test/test.js:44-92 | the keys of `data` are exactly the names of entries that pass the filter, are directories and hold `cmd`; each value captures that name and its directory |
| `Discovery.BuildSuite` | test/test.js:29-92 | parsing `TEST_ONLY` and then discovering registers exactly those cases, and only listed names |
| `Discovery.CaseNamesListed` | test/test.js:44-60 | every case name is a name from the directory listing |
| `Discovery.CaseIffQualifies` | test/test.js:47-60 | with unique names, a listed entry becomes a case iff it passes the filter, is a directory and holds `cmd` |
| `Discovery.UnsetFindsAllRunnable` | test/test.js:29-60 | with `TEST_ONLY` unset or empty, the cases are exactly the directories holding `cmd` |
| `CaseRunner.ExitComparison` | test/test.js:63-83 | `test.equal(expectedExitCode, error && error.code)` holds exactly when the exit-code check holds: no fixture and no exit status, or a fixture equal to the status the error carries |
| `CaseRunner.ActualExitCode` | test/test.js:83 | on a well-formed outcome `error && error.code` is never the number 0; its value for each way the process ends is stated by `CaseRunner.ActualExitCodeByTermination` |
| `CaseRunner.RunCase` | test/test.js:62-87 | the declared count is 1, plus 1 when the stdout fixture was read; it equals the number of assertions made; the case passes iff the exit-code check and (when there is a fixture) the exact stdout check hold |
| `CaseRunner.ExecOutcomeWellFormed` | test/test.js:81-83 | the error object handed to the callback never carries exit status 0 |
| `CaseRunner.ActualExitCodeByTermination` | test/test.js:81-83 | `error && error.code` is `null` on a clean exit and on a signal, and the status on any other exit |
| `CaseRunner.ExitCheckByTermination` | test/test.js:81-83 | without an exit-code fixture the check holds on exit status 0 or a signal; with fixture `c` it holds only on exit status `c`, and `c` must not be 0 |
| `CaseRunner.ZeroFixtureNeverPasses` | test/test.js:63-83 | an `expected.exitCode` of 0 never matches, because a clean exit yields `null` |

## Left out

- File-system access (`readdirSync`, `statSync`, `readFileSync`) is not modelled. Directory entries are records `{name, isDir, hasCmd}`, and fixtures are `Option` values that are `None` when the file is absent or unreadable.
- A failing `statSync` on a selected entry's directory throws and aborts discovery. The model assumes that stat succeeds. A failing stat of `cmd` is caught, and the model already treats it as an entry without `cmd`.
- `Number(...)` parsing of `expected.exitCode` is not modelled. The fixture is the parsed integer, so a non-numeric file (which gives `NaN`, never equal to anything) is not represented.
- `path.join` normalisation is not modelled. `PathJoin` concatenates the root, `/` and the name.
- `exec("bash cmd")` and its asynchronous callback are not modelled. The outcome is an input value. `ExecOutcome` states the assumed mapping from exit status or signal to the error object.
- nodeunit (`testCase`, `test.expect`, `test.equal`, `test.done`) is not modelled. `test.equal`'s loose `==` is modelled only for the pairs the runner compares (null or number against null or number, and string against string), where it is plain equality.
- The diagnostic message and `console.warn` are output only and are not modelled.
- `Text.IsSpace` recognises space, tab, line feed, vertical tab, form feed and carriage return. The other Unicode characters that JavaScript's `\s` and `trim` treat as whitespace are not included.
- `Text.Tokens`: only states that the list is non-empty; its shape is given by `Text.TokensShape` and `Text.TokensJoin`.
- `data` is modelled as a map, so the keys `"__proto__"`, `"setUp"` and `"tearDown"` are treated like any other name. In JavaScript, `data["__proto__"] = ...` on a plain object runs the prototype setter and adds no key, so a case directory named `__proto__` would not be registered. nodeunit's `testCase` takes `setUp` and `tearDown` as hooks run around the other tests, so case directories with those names would not run as tests, although `Discovery.BuildSuite` counts them among the registered names.
- `ExecError.code` is an optional integer. Node's `exec` can also report a string code, such as `'ENOENT'` when `bash` cannot be started or a code for exceeding the output buffer. Those outcomes are not represented, and in them `error && error.code` is that string.
- `Discovery.CaseIffQualifies` assumes the names in a listing are distinct, which directory listings guarantee. Without that, another entry with the same name could register the name.
