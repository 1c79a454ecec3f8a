# git_extractor in Dafny

A model of `extractor.py`, a command-line tool. It collects a developer's own
commits from one or more local git repositories within a date window and
writes them as a CSV report with four columns: date, short identifier,
summary and link.

The model covers the logic between the library calls:

- parsing a repository specifier `path` or `path:branch` (module `Extractor`,
  with Python's `str.split` in module `Text`);
- deriving the web base URL from the first remote URL, using Python's
  `str.replace` and the `[:-4]` slice (`Extractor.BaseUrl`);
- the nested loops of `parse_commits`. This is a method, `Extractor.ParseCommits`,
  proved equal to the specification function `Extractor.AllRows`. It covers
  the inclusive author-date window, the 7-character identifier, the link
  `base/commit/id`, and the production order: repository by repository,
  then stream order within each;
- the window given by `--month`, computed as day 1 plus
  `relativedelta(months=1)` minus one day in Gregorian arithmetic
  (module `Calendar`). It overrides `--since`/`--until`;
- `sorted(..., key=date)`, modelled as a stable insertion sort
  (module `Ordering`). It is proved ordered, a permutation and stable, and
  shown to be the only sequence with those properties;
- the table handed to the CSV writer: the header in `FIELDNAMES` order,
  then one line per row, with the date as `YYYY-MM-DD` (`Commits.Table`,
  `Calendar.IsoFormat`).

The git repositories on disk are a `World` value. It maps a path to a
`Repository`, which holds three things: the configured `user.email`, the
URLs of the default remote, and, per branch, the commit stream that
`iter_commits` yields. That stream is taken after git has applied the
author filter and the no-merges filter. Each commit in it carries its
author date as a calendar date, its hexadecimal hash and its summary line.
The environment variables are a `Config` value; `DefaultConfig` holds their
defaults.

The date filter compares the author date, not the committer date, as the
comment in the source says it should.

The model follows the code in the places where it does something other
than its evident intent:

- A specifier with two or more `:` is not split at all. The whole string
  becomes the path and the default branch is used, exactly as when there is
  no colon.
- The base URL always loses its last four characters, whether or not it ends
  in `.git`.
- `--month 9999-12` fails: the month after it lies in year 10000, which
  Python's `datetime` cannot represent. The model returns `DateOutOfRange`.

## Model

| member | source | states |
|---|---|---|
| Text.Find | extractor.py:31 | the returned index is the leftmost occurrence of the separator; None means it occurs nowhere |
| Text.Split | extractor.py:31 | `str.split` with a non-empty separator: at least one part, and no part contains the separator |
| Text.JoinSplit | extractor.py:31 | joining the parts of a split with the separator gives back the original string |
| Text.SplitCharCount | extractor.py:31-33 | splitting on a character gives exactly one part more than the number of times the character occurs |
| Text.Replace | extractor.py:38 | `str.replace`; its contract is stated by `Text.ReplaceAbsent` and `Text.ReplaceIsJoinOfSplit` |
| Text.ReplaceAbsent | extractor.py:38 | `str.replace` leaves a string unchanged when the pattern does not occur in it |
| Text.ReplaceIsJoinOfSplit | extractor.py:38 | `s.replace(p, r) == r.join(s.split(p))`: every non-overlapping occurrence is replaced, left to right |
| Extractor.ParseSpecifier | extractor.py:30-33 | `path, branch = arg.split(':')` with the `ValueError` fallback; its contract is stated by `Extractor.SpecifierRejoins`, `Extractor.SpecifierWithBranch` and `Extractor.SpecifierWithoutBranch` |
| Extractor.SpecifierRejoins | extractor.py:30-33 | the specifier is either the whole argument on the default branch, or a colon-free path and a colon-free branch that rejoin with `:` to the argument |
| Extractor.SpecifierWithBranch | extractor.py:30-31 | an argument with exactly one `:` gives the path before it and the branch after it; either may be empty |
| Extractor.SpecifierWithoutBranch | extractor.py:30-33 | an argument with zero or two or more `:` is kept whole as the path, with the configured default branch |
| Extractor.BaseUrl | extractor.py:38 | the base URL is the rewritten remote URL minus its last four characters, and is empty when that URL is shorter than four characters |
| Extractor.BaseUrlOfGitHubSsh | extractor.py:12-14 | for a `<p>` that does not itself contain `git@github.com:`, `git@github.com:<p>.git` becomes `https://github.com/<p>` |
| Extractor.BaseUrlOfOtherRemote | extractor.py:38 | a remote without the GitHub SSH prefix only loses its last four characters, `.git` or not |
| Extractor.LinkExample | extractor.py:50-55 | remote `git@github.com:org/repo.git` and hash `abcdef1234567890` give link `https://github.com/org/repo/commit/abcdef1` |
| Commits.ShortId | extractor.py:50 | the identifier is the first 7 characters of the hash, or the whole hash if it is shorter |
| Commits.FormatRow | extractor.py:50-56 | a row keeps the commit's author date and summary; its identifier is a prefix of the hash of length min(7, len); its link is `base + "/commit/" + id` with that same identifier |
| Extractor.Rows | extractor.py:45-56 | the rows of one commit stream: no more rows than commits; their order and content are stated by `Extractor.RowsConcat`, `Extractor.RowsOfSplice`, `Extractor.RowsSound` and `Extractor.RowsComplete` |
| Extractor.RowsConcat | extractor.py:40-56 | the rows of a stream split in two are the rows of the first part followed by the rows of the second (stream order is kept) |
| Extractor.RowsOfSplice | extractor.py:45-56 | an in-window commit contributes exactly its own row, in its place; a commit outside the window contributes nothing and has no other effect |
| Extractor.RowsSound | extractor.py:45-55 | every row lies in the inclusive window, has link `base/commit/id`, and is the formatted row of an in-window commit of the stream |
| Extractor.RowsComplete | extractor.py:45-56 | every in-window commit of the stream has its row among the rows |
| Extractor.RepoRows | extractor.py:35-44 | one specifier's rows, or the error of the first lookup that fails, in the order repository, e-mail, remote URL, branch; the rows are `Extractor.Rows` of the named branch's stream with `Extractor.BaseUrl` of the first remote URL. Both are stated by its definition, which `Extractor.ParseCommits` is proved to follow |
| Extractor.AllRows | extractor.py:29-56 | the rows of all specifiers; stated by `Extractor.AllRowsConcat`, `Extractor.AllRowsOkIff`, `Extractor.AllRowsInWindow` and `Extractor.ParseCommits` |
| Extractor.AllRowsConcat | extractor.py:29-56 | the rows of a list of specifiers are repository by repository in argument order; the first error met is the result |
| Extractor.AllRowsOkIff | extractor.py:29-44 | the run produces rows exactly when every specifier resolves (repository, e-mail, remote URL, branch) |
| Extractor.AllRowsInWindow | extractor.py:48-49 | every row produced by all repositories has a date d with since <= d <= until |
| Extractor.ParseCommits | extractor.py:24-56 | the nested loops over specifiers and commits return exactly the rows (or the error) that `AllRows` specifies |
| Calendar.DaysInMonth | extractor.py:74 | a month has 28 to 31 days, and 29 exactly for February of a Gregorian leap year |
| Calendar.AddOneMonth | extractor.py:74 | `relativedelta(months=1)`: a valid date in the next month whose day is the old day, or the new month's last day when the old day is past it; fails exactly for December of year 9999 |
| Calendar.PreviousDay | extractor.py:74 | `- timedelta(days=1)`: the latest valid date strictly before the given one; fails only for 0001-01-01 |
| Calendar.MonthWindow | extractor.py:72-74 | the `--month` window, day 1 to one month later minus one day; stated by `Calendar.MonthWindowIsWholeMonth` and `Calendar.MonthWindowCovers` |
| Calendar.MonthWindowIsWholeMonth | extractor.py:72-74 | the month window runs from day 1 to day DaysInMonth(y, m) of that month; it fails only for 9999-12 |
| Calendar.MonthWindowCovers | extractor.py:72-74 | a valid date is in the month window exactly when it has that year and month |
| Calendar.MonthWindowMarch2024 | extractor.py:72-74 | `--month 2024-03` gives the window 2024-03-01 to 2024-03-31 |
| Calendar.MonthWindowFebruaries | extractor.py:72-74 | February ends on the 29th in 2024 and 2000 and on the 28th in 2023 and 1900 |
| Calendar.MonthWindowLastMonth | extractor.py:74 | `--month 9999-12` has no window, since its successor month is out of range |
| Calendar.IsoFormat | extractor.py:62 | `date.isoformat()` as the CSV writer prints the date cell; its contract is stated by `Calendar.IsoFormatRoundTrip` |
| Calendar.Digits | extractor.py:62 | the decimal digits of a number: one to four characters below 10000, every one a digit |
| Calendar.ZeroPad | extractor.py:62 | the digits of a number, zero-padded on the left to the field width, every character a digit |
| Calendar.IsoFormatRoundTrip | extractor.py:62 | a valid date is written as ten characters `YYYY-MM-DD`: decimal digits, zero-padded, with dashes at positions 4 and 7; and `Calendar.ParseIso`, which reads the three fields between the dashes, gives the same date back |
| Extractor.ResolveWindow | extractor.py:72-74 | with `--month` the window is that whole month, whatever `--since`/`--until` are; without it the window is `[since, until]` |
| Ordering.SortByDate | extractor.py:76-79 | `sorted(..., key=date)`; stated by `Ordering.SortIsOrderedPermutation`, `Ordering.SortIsStable` and `Ordering.SortIsTheStableSort` |
| Ordering.SortIsOrderedPermutation | extractor.py:76-79 | the sorted rows are non-decreasing by date and are a permutation of the produced rows |
| Ordering.SortIsStable | extractor.py:76-79 | for every date, the rows of that date appear in the same order as they were produced |
| Ordering.StableSortIsUnique | extractor.py:76-79 | two date-ordered sequences that agree on the rows of every date are equal |
| Ordering.SortIsTheStableSort | extractor.py:76-79 | any date-ordered sequence that keeps each date's rows in production order is the result of the sort, as Python's stable `sorted` promises |
| Calendar.NotAfter | extractor.py:48 | Python's `<=` on dates: year, then month, then day; `Calendar.NotAfterIsTotalOrder` states it is a total order |
| Calendar.NotAfterIsTotalOrder | extractor.py:76-79 | the date order used by the filter and the sort key is reflexive, antisymmetric, transitive and total |
| Calendar.InWindow | extractor.py:48 | `since.date() <= commit_date <= until.date()`, both ends inclusive; stated by `Calendar.MonthWindowCovers` and `Extractor.RowsSound` |
| Commits.DefaultConfig | extractor.py:10-19 | the defaults of the environment variables: branch `master`, labels `Data`, `Identyfikator`, `Opis`, `Odnośnik` |
| Commits.CommitLink | extractor.py:55 | the link `base/commit/id`; stated by `Commits.FormatRow` and `Extractor.LinkExample` |
| Commits.FieldNames | extractor.py:21 | `FIELDNAMES`: the labels in the order date, identifier, summary, link; stated by `Commits.Table` |
| Commits.Cells | extractor.py:51-62 | one row's cells in `FIELDNAMES` order; stated by `Commits.Table` |
| Commits.Table | extractor.py:59-62 | the table has the header first, in the order date, identifier, summary, link, then one line per row in order |
| Extractor.Extract | extractor.py:71-81 | `main` gives a table exactly when the window resolves and every repository resolves; the table is the header followed by the produced rows sorted by date; otherwise it gives the first error |
| Extractor.ReportIsSortedProduction | extractor.py:75-81 | the report's rows are the produced rows, in the window, ordered by date, a permutation of them, and stable for equal dates |

## Left out

- GitPython (`Repo`, `config_reader().get_value`, `remote().urls`, `iter_commits`) is foreign code. It is replaced by the `World` value, which hands over each branch's commit stream with git's author and no-merges filters already applied. Git's `--author` pattern matching and its merge detection are not modelled. The e-mail is only checked for presence.
- The exception types GitPython raises (repository not found, missing configuration, no remote URL, unknown revision) are collapsed into the `Error` datatype. They keep their order: repository, e-mail, remote URL, branch.
- Laziness: `parse_commits` is a generator. `sorted` consumes it completely, so any error aborts the run before anything is written. The model returns a `Result` for the whole run.
- `date.fromtimestamp` depends on the local time zone. Each commit's author date is given as a calendar date.
- The commit summary (the first line of the message, computed by GitPython) is part of the input.
- Command-line parsing by click and the opening of the output file are not modelled. `--since`, `--until` and `--month` arrive already parsed as dates, and the result is the table instead of a written file.
- CSV quoting, escaping and Unix line endings belong to Python's `csv` module. `Commits.Table` gives the cells before quoting.
- The environment variables are read into a `Config` value at start-up.
- Extract: requires `--since` and `--until` when `--month` is absent. Without `--since` the source raises `AttributeError` at the date comparison of the first commit the stream yields. With `--since` but without `--until`, the comparison stops early for a commit dated before `--since`, which is skipped; the first commit dated on or after it raises. A run whose streams yield no such commit succeeds. None of these cases is modelled.
- Commits.Table: the four labels are assumed distinct. When two environment labels are equal, the source's per-row `dict` merges the two keys. The sort key and the written cells then change, and the model does not follow that.
- General `relativedelta` arithmetic is not modelled. Only adding one month is (`Calendar.AddOneMonth`).
