# git-stats language statistics, modelled in Dafny

git-stats inventories the languages used across a GitHub user's repositories.
It clones each repository, runs the `cloc` line counter on it, and adds up the
per-language counts over all repositories: files, blank lines, comment lines,
code lines, and the number of repositories that use the language. Then it
computes each language's share of all code lines and plots a table of the
languages that are not excluded.

This project models that aggregation engine (`cloc/cloc.py`) and the
reporting filter around it (`main.py`):

- `wrappers.dfy` — `Option` and `Result`, for the exceptions the Python code
  raises (`KeyError`, `ZeroDivisionError`).
- `cloc.dfy`, module `Cloc`:
  - `LangStat` and `RepoStat` are the `Lang_Stat` / `Repo_Stat` records. Their
    constructors read from a counter record. `Add` is `Repo_Stat.__add__`.
  - `RepoStats` is a class whose `stats` map is the `Repo_Stats` dictionary.
    Its `AddAssign` method is `__iadd__`: a loop that updates the map in place.
  - `CountLangRepos` is the loop of `count_lang_repos`. `Fold` is the function
    that specifies it.
  - `Total` and `Holders` are reference definitions. They give the field-wise
    sum over the repositories and the set of repositories holding a language.
  - `ParseLines` is the metadata strip of `parse_lines`.
  - `LanguagePercentage` is `language_percentage`, a loop over the
    languages. Percentages are computed over the reals.
- `main.dfy`, module `Main`:
  - `Split` is `re.split('[, ]+', …)` for the exclusion options.
  - `Skipped`, `Selected` and `ReposToClone` give the repository skip rule of
    `download_repos`.
  - `LanguageReport` builds the language table or reports "No languages found.".
  - `LanguageSummary` runs aggregation, percentages and table in sequence.

Two behaviours of the code are worth stating outright:

- The code does not validate counts. It reads integer fields and raises only
  `KeyError`, naming the first missing field. Counts are `nat`, which is a
  modelling assumption about what `cloc` emits.
- A zero total of code lines raises `ZeroDivisionError` only when there is at
  least one language. An empty input never divides and returns an empty map.

## Model

| member | source | states |
|---|---|---|
| Cloc.LangStatFromRecord | cloc/cloc.py:13-17 | succeeds exactly when the record has all four fields `nFiles`, `blank`, `comment`, `code`, and copies each one; otherwise the `KeyError` names the first of them, in that order, that is missing |
| Cloc.RepoStatFromRecord | cloc/cloc.py:30-32 | succeeds exactly when the record also has `repos`, and copies all five fields; otherwise the `KeyError` names the first missing field, `repos` last |
| Cloc.LangRecordRoundTrip | cloc/cloc.py:13-17 | reading a `Lang_Stat` back from its own record gives the same value |
| Cloc.RepoRecordRoundTrip | cloc/cloc.py:30-32 | reading a `Repo_Stat` back from its own record gives the same value |
| Cloc.FromLangStat | cloc/cloc.py:24-29 | the four counts are copied unchanged and `repos` is 1 |
| Cloc.AddThroughRecord | cloc/cloc.py:34-41 | `__add__` goes through a dictionary and the dictionary constructor, and gets back the field-wise sum: code lines and repository counts add |
| Cloc.AddCommutative | cloc/cloc.py:34-41 | `a + b == b + a` |
| Cloc.AddAssociative | cloc/cloc.py:34-41 | `(a + b) + c == a + (b + c)` |
| Cloc.AddZero | cloc/cloc.py:34-41 | the all-zero record is neutral for `+` on both sides |
| Cloc.LangStatsFromRaw | cloc/cloc.py:44-46 | same keys as the input; each entry is that record converted; fails exactly when some record lacks a field |
| Cloc.Promote | cloc/cloc.py:49-51 | `Repo_Stats(init)` keeps the keys of `init`; each entry has the same counts and `repos == 1` |
| Cloc.PromoteIsMergeIntoEmpty | cloc/cloc.py:49-51 | building a `Repo_Stats` from a `Lang_Stats` equals `+=` into an empty one |
| Cloc.Merge | cloc/cloc.py:54-60 | after `+=`, the key set is the union of the old and incoming keys; languages not in the incoming map are unchanged |
| Cloc.RepoStats.constructor | cloc/cloc.py:49-51 | the new aggregate holds `Promote(init)` |
| Cloc.RepoStats.AddAssign | cloc/cloc.py:54-60 | the loop leaves the map equal to `Merge(old, other)`. A new language gets `Repo_Stat(other[k])` with `repos == 1`, a shared one gets old + new, and every other entry is unchanged |
| Cloc.CountLangRepos | cloc/cloc.py:80-86 | returns a fresh aggregate equal to the fold of every repository's counts in listing order; no repositories gives an empty map |
| Cloc.FoldKeys | cloc/cloc.py:80-86 | the aggregate's languages are exactly those that occur in at least one repository |
| Cloc.FoldEntry | cloc/cloc.py:80-86 | each aggregate entry equals the reference sum `Total` of the repositories' contributions |
| Cloc.FoldCounts | cloc/cloc.py:80-86 | a language's `repos` is the number of repositories containing it (at least 1), and each of its four counters is the sum over those repositories |
| Cloc.TotalRepos | cloc/cloc.py:54-60 | the summed occurrence counter is the number of repositories holding the language |
| Cloc.TotalPermutation | cloc/cloc.py:80-86 | reordering the repositories leaves every language's sum unchanged |
| Cloc.FoldPermutation | cloc/cloc.py:80-86 | the aggregate does not depend on the order in which the repository directories are listed |
| Cloc.TwoRepositoryExample | cloc/cloc.py:80-86 | Go in two repositories and Python in one aggregate to Go (4, 6, 2, 120, repos 2) and Python (2, 2, 1, 30, repos 1) |
| Cloc.ParseLines | cloc/cloc.py:66-68 | a missing `header` or `SUM` is a `KeyError` on that key. On success neither key is present, all other keys are kept, and each entry is its record converted |
| Cloc.LanguagePercentage | cloc/cloc.py:71-76 | fails with division by zero exactly when there is a language but the code total is 0. Otherwise it returns exactly the input's keys, each mapped to `100 * code / total`, which lies in [0, 100] |
| Cloc.ShareScales | cloc/cloc.py:75 | a percentage times the total gives back `100 * code` |
| Cloc.ShareBounds | cloc/cloc.py:75 | a share of at most the total lies between 0 and 100 |
| Cloc.PercentagesSumTo100 | cloc/cloc.py:71-76 | with a positive total, the percentages sum to 100 |
| Cloc.PercentageBasisAgrees | cloc/cloc.py:71-72 | a `Lang_Stats` and the `Repo_Stats` built from it have the same code total and per-language code lines, so they get the same percentages |
| Cloc.TwoRepositoryPercentages | cloc/cloc.py:72-75 | in the two-repository example the total is 150, Go is 80 percent and Python 20 percent |
| Main.SplitPiecesHaveNoSeparator | main.py:76-77 | no piece of the split contains a comma or a space |
| Main.SplitFirstEmpty | main.py:76-77 | the first piece is empty exactly when the text is empty or starts with a separator |
| Main.SplitLastEmpty | main.py:76-77 | the last piece is empty exactly when the text is empty or ends with a separator |
| Main.SplitInteriorNonEmpty | main.py:76-77 | every piece between the first and the last is non-empty |
| Main.SplitKeepsLetters | main.py:76-77 | the pieces, joined together, are the text with its commas and spaces removed |
| Main.SplitJoin | main.py:76-77 | a list of non-empty words without commas or spaces, written with a run of commas and spaces between each two, splits back into exactly those words |
| Main.DefaultExclusions | main.py:69-70 | the option defaults split to `["Text"]` and `[""]` |
| Main.CommaSpaceList | main.py:76 | `"C++, Text"` splits into `["C++", "Text"]` |
| Main.SelectedMembers | main.py:47-51 | a listed repository is cloned exactly when its clone URL is not in the exclude list and it is not a fork while forks are excluded |
| Main.ReposToClone | main.py:47-51 | the loop keeps exactly the repositories `Selected` keeps, in listing order |
| Main.LanguageReport | main.py:108-121 | the table holds exactly the languages of `percentages` that are not, by exact match, excluded. Each row is files = `nFiles`, lines = `code`, the percentage, `repos` and the name. An empty table is reported as "No languages found." |
| Main.LanguageSummary | main.py:102-121 | fails exactly when the aggregate has a language but no code lines. Otherwise the table has the languages occurring in some repository and not excluded, each row carrying summed files and code lines, the number of repositories holding that language, and its percentage `100 * code / total` of the aggregate's code lines |

## Left out

- Network access in `github/github.py`: checking that the user exists and fetching the repository list. The list of repositories is an input.
- `check_fork` is written inline as the `fork` flag of a repository descriptor (`github/github.py:23-26`).
- `git clone` through `os.system`, including the failure message when a clone fails.
- The `cloc --json` process call and `json.loads` in `parse_lines`. Its input is the decoded dictionary.
- `os.listdir` / `os.path.isdir` in `count_lang_repos`. Its input is the sequence of already-parsed `Lang_Stats`, one per directory. A `parse_lines` failure inside the loop is not propagated by the model.
- Dictionary iteration order. Maps are unordered, so the row order of the table and the order of the percentages dictionary are not modelled.
- ParseLines: when a language record lacks a field, the code raises `KeyError` naming that field, for the first such record in dictionary order. The model reports `MalformedRecord` and drops the field name, because which record comes first depends on that order. For a single record, `LangStatFromRecord` does report the first missing field.
- The `try`/`except` in `download_repos`, `max_repos` pagination, click option parsing, the temporary directory, timing and every `print`.
- The pandas, seaborn and matplotlib plotting after the table is built.
- Floating point: percentages are exact reals, so IEEE rounding of `100 * code / total` is not modelled.
- Integer width: Python integers are unbounded, and so are Dafny's `nat`s. Nothing wraps.
