# qmk multibuild, modelled in Dafny

This project models the core of `qmk multibuild`, the QMK Firmware command that
builds many keyboards in one parallel `make` run. It lists every keyboard and
keeps the ones whose `rules.mk` attributes match each `--filter KEY=value`
expression. It sorts what is left. If nothing is left it returns. Otherwise
it writes `.build/parallel_kb_builds.mk`, one rule block per keyboard, and
runs `make -j N` on that file. Each rule block builds its keyboard into a
log. It then classifies the log as `[ERRORS]`, `[WARNINGS]` or `[OK]`, in
that order of precedence.

Modules, all under this directory:

- `wrappers.dfy`, module `Wrappers`: the `Option` datatype.
- `filter_expr.dfy`, module `FilterExpr`: a hand-coded recogniser for the
  filter pattern `^(?P<key>[A-Z0-9_]+)\s*=\s*(?P<value>[^#]+)$`. It is proved
  equal to a declarative description of every way the pattern can match,
  including the group values Python's backtracking returns.
- `rules_filter.dfy`, module `RulesFilter`: the per-keyboard predicates
  `_make_rules_mk_filter` and `_is_split`, and narrowing a list by them.
- `ordering.dfy`, module `Ordering`: Python's `str` order and `sorted`.
- `build_plan.dfy`, module `BuildPlan`: the safe name, the rule-block text,
  the loop that writes the makefile, and the ERRORS/WARNINGS/OK decision.
- `multibuild.dfy`, module `Multibuild`: the filter loop, the whole command
  and the properties of the keyboards it selects.

The two loops of `multibuild()` are methods with loops: `ApplyFilters` for
the loop over `--filter`, and `WritePlan` for the loop that writes one block
per keyboard. Each is proved against a specification function: `KeepAll`
for the first, `Plan` for the second. Everything else in the command is an
expression, and is modelled as a function.

Outside inputs are parameters:

- the result of `qmk.keyboard.list_keyboards()` is a `seq<string>`;
- `qmk.keyboard.rules_mk` is a total function `string -> map<string, string>`;
- `QMK_FIRMWARE` is an opaque path string.

The file written is the string `RunMultibuild` returns in `Built`.

The code has these consequences, and the model states them:

- Sorting does not remove duplicates: a keyboard listed twice gets two
  blocks (`SortKeepsDuplicates`, `SelectionContents`).
- `/`→`_` is not injective: `a/b` and `a_b` share `a_b`
  (`SafeNameNotInjective`, `SafeNameCollides`).
- The value is not trimmed: the regular expression keeps trailing
  whitespace, and when the value is only whitespace it is the last character
  (`ParseKeepsValueText`, `ParseSpaceOnlyValue`).

## Model

| member | source | states |
|---|---|---|
| `FilterExpr.ParseFilter` | lib/python/qmk/cli/multibuild.py:46-48 | a parsed key is a non-empty prefix of `[A-Z0-9_]` characters; the value is a non-empty `#`-free suffix, not overlapping the key |
| `FilterExpr.ParseSound` | lib/python/qmk/cli/multibuild.py:46-48 | whatever is returned is the key and value of some way the pattern matches the whole string |
| `FilterExpr.ParseComplete` | lib/python/qmk/cli/multibuild.py:46-48 | every way the pattern can match is found, with the same key, and the value is the shortest any match allows (greedy `\s*` after `=`) |
| `FilterExpr.ParseAcceptsExactly` | lib/python/qmk/cli/multibuild.py:46-49 | a string parses if and only if the pattern matches it |
| `FilterExpr.ParseFormatted` | lib/python/qmk/cli/multibuild.py:46-48 | writing `KEY=value` and parsing it gives `(KEY, value)` back, for a value that does not start with whitespace and has no `#` |
| `FilterExpr.ParseSpaceOnlyValue` | lib/python/qmk/cli/multibuild.py:46 | `K= ` parses, with the value a single space |
| `FilterExpr.ParseKeepsValueText` | lib/python/qmk/cli/multibuild.py:46 | trailing whitespace stays in the value, and the value may contain `=` |
| `FilterExpr.ParseSplitKeyboardFilter` | lib/python/qmk/cli/multibuild.py:31 | the help text's example `SPLIT_KEYBOARD=yes` parses to that key and value |
| `FilterExpr.ParseRejects` | lib/python/qmk/cli/multibuild.py:46-49 | `not-a-filter` and `=yes` do not parse |
| `RulesFilter.Lower` | lib/python/qmk/cli/multibuild.py:19 | lower-casing keeps the length and lower-cases each character on its own (ASCII letters only; see Left out) |
| `RulesFilter.Passes` | lib/python/qmk/cli/multibuild.py:16-21 | a keyboard passes `_make_rules_mk_filter(key, value)` if and only if its rules declare `key` with a value of the same length that agrees with `value` letter by letter, ignoring case |
| `RulesFilter.IsSplit` | lib/python/qmk/cli/multibuild.py:24-26 | `_is_split` holds if and only if the rules declare `SPLIT_KEYBOARD` with a three-letter value that reads `yes` in any case |
| `RulesFilter.Keep` | lib/python/qmk/cli/multibuild.py:50 | one `filter(...)` never lengthens the list, and every keyboard it keeps was listed and passes that filter |
| `RulesFilter.IsSplitIsSplitFilter` | lib/python/qmk/cli/multibuild.py:16-26 | `_is_split(k)` equals `_make_rules_mk_filter('SPLIT_KEYBOARD', 'yes')(k)` for every keyboard |
| `RulesFilter.MissingKeyExcluded` | lib/python/qmk/cli/multibuild.py:17-19 | a keyboard whose rules lack the key never passes, whatever the value |
| `RulesFilter.PassesIgnoresCase` | lib/python/qmk/cli/multibuild.py:19 | two filter values with the same lower-case form select the same keyboards |
| `RulesFilter.PassesCaseExamples` | lib/python/qmk/cli/multibuild.py:19 | `KEY=Yes` accepts a declared `yes`, `YES` or `yEs` |
| `RulesFilter.LowerOfLowerCase` | lib/python/qmk/cli/multibuild.py:26 | lower-casing leaves a string without upper-case letters unchanged, so `'yes'` needs no `.lower()` |
| `RulesFilter.KeepAllCount` | lib/python/qmk/cli/multibuild.py:47-50 | each keyboard survives the filters exactly as often as it is listed when it passes all of them, and not at all otherwise |
| `RulesFilter.KeepAllNoFilters` | lib/python/qmk/cli/multibuild.py:44-50 | with no filter every listed keyboard is kept, in order |
| `RulesFilter.KeepAfterKeepAll` | lib/python/qmk/cli/multibuild.py:50 | narrowing the survivors of some filters by one more filter equals applying all of them together (AND) |
| `RulesFilter.KeepAllIsSubsequence` | lib/python/qmk/cli/multibuild.py:50 | filtering yields a subsequence of the list: nothing added, nothing reordered |
| `RulesFilter.KeepAllMembership` | lib/python/qmk/cli/multibuild.py:47-50 | a keyboard survives if and only if it is listed and passes every filter |
| `Ordering.Below` | lib/python/qmk/cli/multibuild.py:52 | Python's `str` order as `sorted` uses it: a name is below every name it is a prefix of, as `kb` comes before `kb/a` |
| `Ordering.Sort` | lib/python/qmk/cli/multibuild.py:52 | `sorted` returns an ascending permutation of its input |
| `Ordering.SortedHeadIsLeast` | lib/python/qmk/cli/multibuild.py:52 | the first element of a sorted list is below every element |
| `Ordering.SortUnique` | lib/python/qmk/cli/multibuild.py:52 | two sorted lists with the same elements are equal |
| `Ordering.SortDeterministic` | lib/python/qmk/cli/multibuild.py:52 | the sorted list depends only on the multiset of its input |
| `Ordering.SortKeepsDuplicates` | lib/python/qmk/cli/multibuild.py:52 | sorting keeps a keyboard listed twice, twice |
| `BuildPlan.SafeName` | lib/python/qmk/cli/multibuild.py:60 | the safe name has the name's length, contains no `/`, has `_` where the name has `/`, and is otherwise unchanged |
| `BuildPlan.SafeNameCollides` | lib/python/qmk/cli/multibuild.py:60 | two names share a safe name if and only if they have the same length and differ only by `/` against `_` |
| `BuildPlan.SafeNameInjectiveWithoutUnderscore` | lib/python/qmk/cli/multibuild.py:60 | names without `_` never share a safe name |
| `BuildPlan.SafeNameNotInjective` | lib/python/qmk/cli/multibuild.py:60 | `a/b` and `a_b` share a safe name |
| `BuildPlan.FillHeader` | lib/python/qmk/cli/multibuild.py:64-65 | the header lines of a block read `all: {safe}_binary` and then `{safe}_binary:` |
| `BuildPlan.Block` | lib/python/qmk/cli/multibuild.py:62-76 | every block written for a keyboard begins with `all: {safe}_binary` and then `{safe}_binary:` |
| `BuildPlan.Plan` | lib/python/qmk/cli/multibuild.py:58-76 | the file written is empty if and only if no keyboard is left |
| `BuildPlan.PlanAppend` | lib/python/qmk/cli/multibuild.py:58-76 | the file written for two lists one after the other is their two files one after the other |
| `BuildPlan.PlanAt` | lib/python/qmk/cli/multibuild.py:58-76 | block `i` of the file is the block of keyboard `i`, after the blocks of the keyboards before it |
| `BuildPlan.WritePlan` | lib/python/qmk/cli/multibuild.py:58-76 | the loop writes exactly the blocks of the keyboards in list order |
| `BuildPlan.Contains` | lib/python/qmk/cli/multibuild.py:70-71 | `grep` of a fixed marker succeeds if and only if the marker occurs at some position of the log |
| `BuildPlan.Classify` | lib/python/qmk/cli/multibuild.py:70-72 | ERRORS if and only if `[ERRORS]` occurs; WARNINGS if and only if `[WARNINGS]` occurs and `[ERRORS]` does not; OK otherwise |
| `BuildPlan.ErrorsTakePrecedence` | lib/python/qmk/cli/multibuild.py:70-71 | a log with both markers is classified ERRORS |
| `BuildPlan.NoMarkerIsOk` | lib/python/qmk/cli/multibuild.py:72 | a log with neither marker is classified OK |
| `BuildPlan.ClassifyMonotone` | lib/python/qmk/cli/multibuild.py:68-72 | output appended to the log can only raise the classification, never lower it |
| `Multibuild.ParsedFilters` | lib/python/qmk/cli/multibuild.py:47-49 | at most one filter per string; when no string parses, no filter is in force |
| `Multibuild.ParsedFiltersAppend` | lib/python/qmk/cli/multibuild.py:47-49 | the filters in force for two lists of strings are those of each, in order |
| `Multibuild.MalformedFilterIgnored` | lib/python/qmk/cli/multibuild.py:48-49 | a string that does not parse is ignored wherever it stands; it does not empty the list |
| `Multibuild.ApplyFilters` | lib/python/qmk/cli/multibuild.py:47-50 | the filter loop leaves the listed keyboards, in order, that pass every parsed filter |
| `Multibuild.RunMultibuild` | lib/python/qmk/cli/multibuild.py:44-79 | the run returns early exactly when the selection is empty; otherwise it writes the plan of the sorted selection and reaches the final `make` |
| `Multibuild.Selection` | lib/python/qmk/cli/multibuild.py:44-52 | the selection is a sorted permutation of the listed keyboards that pass every parsed filter |
| `Multibuild.SelectionContents` | lib/python/qmk/cli/multibuild.py:44-52 | the selection is sorted and holds each keyboard as often as listed if it passes every filter, else not at all |
| `Multibuild.SelectionIsSubset` | lib/python/qmk/cli/multibuild.py:47-52 | every selected keyboard was listed and passes every parsed filter |
| `Multibuild.SelectionWithoutFilters` | lib/python/qmk/cli/multibuild.py:44-52 | with no parsed filter the selection is the whole list sorted, a permutation of it |
| `Multibuild.SelectionDeterministic` | lib/python/qmk/cli/multibuild.py:44-52 | listing the same keyboards in another order gives the same selection, hence the same file |
| `Multibuild.SplitFilterParsed` | lib/python/qmk/cli/multibuild.py:46-49 | `--filter SPLIT_KEYBOARD=yes` puts exactly that filter in force |
| `Multibuild.SplitKeyboardScenario` | lib/python/qmk/cli/multibuild.py:44-52 | of `kb/a`, `kb/b`, `kb/c` with only `kb/b` split, `SPLIT_KEYBOARD=yes` selects `kb/b` alone |

## Left out

- `_find_make`, `make clean` and the final `make -j N -f parallel_kb_builds.mk all` (lines 37-39 and 79) are subprocess calls. `RunMultibuild` returning `Built` stands for reaching line 79. What `make` then does, including its parallelism, is not modelled.
- `builddir.mkdir` and `open(makefile, "w")` (lines 57-58) are filesystem calls. Writing the file is appending to a string that starts empty, because mode `"w"` truncates.
- `qmk.keyboard.list_keyboards` and `qmk.keyboard.rules_mk` are parameters. `rules_mk` is assumed to return the same map each time it is asked about a keyboard. Python's lazy `filter` objects call it at `sorted`, not in the loop, and the model ignores that timing.
- The shell commands inside each block are not executed: `rm`, the sub-`make`, its exit status, the `cp` to `failed.log`, `grep` and `printf`. The block text holds them verbatim. `Classify` models only the decision that the two `grep`s and the fallback `printf` make. The ANSI colour codes and the `%-64s` padding are text in the block and nothing more.
- RulesFilter.Lower: lower-cases ASCII letters only. Python's `str.lower` also maps non-ASCII letters. Values that differ only in non-ASCII case are therefore not treated as equal.
- Python's `$` also matches before a final newline. The model accepts only matches that run to the end of the string. For this pattern that gives the same groups, because `[^#]+` can take the newline itself and the greedy matcher tries that first.
- The `@cli.argument` and `@cli.subcommand` decorators (lines 29-32) are command-line parsing. `--parallel` and `--clean` only reach the `make` calls left out above.
