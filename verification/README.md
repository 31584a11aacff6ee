# git-overlay: status parsing and refresh, in Dafny

git-overlay is a small desktop dashboard. For each repository listed in its
configuration, it shows the current branch and the number of pending changes.
Each row also has a button that opens `lazygit` in that repository. This
project models the part of `src/main.rs` that does real work and proves
properties of it:

- **`Status`** (`status.dfy`) models `refresh_status`, the parser for the text
  `git status` prints. The change count is the number of tab characters. It
  is converted from `usize` to `i32` with `try_into().unwrap_or_default()`.
  The branch is the capture group of the regex `branch (?<branch>\w+)`.
  - `ExtractBranch` is the recursive leftmost-match function.
  - `RegexCaptures` is a declarative reading of the regex: leftmost start,
    then greedy `\w+`. The two are proved equal in both directions.
  - `ScanBranch` is a one-pass scanner with loop invariants. It is proved to
    compute `ExtractBranch`.
  - `CountTabs` is proved equal to the multiplicity of `'\t'` in the text's
    multiset of characters. The loop `CountTabsLoop` is proved against the
    same reference.
- **`Overlay`** (`overlay.dfy`) models the window state `{theme, config,
  repos}` and its transitions:
  - `new` builds the initial rows and refreshes them.
  - `refresh_repos` rebuilds the rows as an order-preserving map over
    `config.repos`.
  - `update` dispatches `Refresh`, `Quit` and `Lazygit`.
- **`Wrappers`** (`wrappers.dfy`) holds the `Option` and `Result` types.

Running `git status` is a parameter of type
`GitStatus = (string, string) -> Option<string>`. It maps (root, repository)
to the text the command printed. `None` means the process could not be
started.

Panics are values in the model. A transition ends in one of three ways:
- `Running(app)`: the window keeps running with state `app`;
- `Exited(code)`: `process::exit` was called;
- `Panicked(fault)`: the program panicked. The faults are:
  - `NoConfig`: the `expect` on `read_config`;
  - `GitNotStarted`: the `expect` on starting `git`;
  - `NoBranch`: the `unwrap` on a missing regex match.

Three behaviours of the program that the model keeps as they are:

- A status text with no branch match panics (the `unwrap` at
  src/main.rs:186). That ends the whole refresh, and with it the program.
  The model keeps this as the fault `NoBranch`. `RefreshList` fails with the
  first failing repository in configuration order (`FirstFailure`), as the
  sequential `map(..).collect()` at src/main.rs:40-52 does.
- The change count is an `i32`. A count above 2^31−1 becomes 0
  (src/main.rs:190).
- A failed `lazygit` spawn is discarded (`let _ =`, src/main.rs:63 and 65).
  It is not reported.

## Model

| member | source | states |
|---|---|---|
| Status.TryIntoI32 | src/main.rs:190 | the `usize`→`i32` conversion succeeds exactly when the count is at most 2^31−1, and then keeps the value |
| Status.ToI32OrZero | src/main.rs:190 | `unwrap_or_default` gives the count when it fits and 0 otherwise, so the stored count is never negative |
| Status.CountTabs | src/main.rs:183 | the change count is at most the text length and equals the number of occurrences of `'\t'` in the text, as a multiset count |
| Status.CountTabsAppend | src/main.rs:183 | the count of a concatenation is the sum of the counts, so line structure does not matter |
| Status.CountTabsIgnoresOtherChars | src/main.rs:183 | replacing a non-tab character by another non-tab character leaves the count unchanged |
| Status.CountTabsLoop | src/main.rs:183 | a single pass that counts tabs computes the multiset count of `'\t'` |
| Status.CountTabsFileLines | src/main.rs:183 | a block of changed-file lines, each starting with a tab, contributes exactly one per line |
| Status.CountTabsStatusText | src/main.rs:183 | the simplified long-format status of a branch with n changed files has exactly n tabs |
| Status.WordRunEnd | src/main.rs:185 | the greedy `\w+` run starting at a position ends at the first non-word character or at the end of the text |
| Status.MaximalRunEnd | src/main.rs:185 | any run of word characters that cannot be extended ends where the greedy run ends |
| Status.FindMatch | src/main.rs:185-186 | the search returns the leftmost index where "branch " followed by a word character starts, and fails exactly when there is no such index |
| Status.ExtractBranch | src/main.rs:185-186 | the capture is absent exactly when no "branch " is followed by a word character, and otherwise is the leftmost, greedy capture |
| Status.CapturesUnique | src/main.rs:185-186 | the leftmost-greedy reading of the regex determines a single match start and a single capture |
| Status.ExtractBranchIsRegexCapture | src/main.rs:185-186 | `ExtractBranch` returns `b` if and only if `b` is the regex capture (both directions) |
| Status.ScanBranch | src/main.rs:185-186 | an imperative scanner that tries each start index and extends greedily computes exactly `ExtractBranch` |
| Status.ExtractBranchAfterPrefix | src/main.rs:185-186 | when no 'b' precedes the first "branch ", the word after it is captured, whatever follows a non-word character |
| Status.ExtractBranchExample | src/main.rs:185-186 | the long-format status "On branch main…" yields the branch "main" |
| Status.ExtractBranchStopsAtSlash | src/main.rs:185 | "branch feature/x" captures "feature": the capture stops at the first non-word character |
| Status.ExtractBranchNoWordBoundary | src/main.rs:185 | "subbranch x" captures "x": the pattern has no word boundary |
| Status.ExtractBranchSkipsNonWord | src/main.rs:185 | a "branch " followed by a non-word character is skipped, and a later occurrence is matched |
| Status.ExtractBranchDetachedHead | src/main.rs:185-186 | the detached-HEAD output has no match, which is the case where `unwrap` panics |
| Status.NoBranchWithoutB | src/main.rs:185-186 | a text without the letter 'b' has no match |
| Status.ParseStatus | src/main.rs:181-191 | the parse fails exactly when there is no match; on success the branch is a non-empty word and the count is the non-negative tab count |
| Status.ParseStatusSpec | src/main.rs:183-191 | the parse gives `(b, n)` if and only if `b` is the regex capture and `n` is the converted tab count |
| Status.ParseStatusText | src/main.rs:183-191 | the simplified long-format status of a branch `name` with n changed files parses to `(name, n)` |
| Status.ParseStatusTextExample | src/main.rs:183-191 | the simplified status text for branch "main" with two changed files parses to ("main", 2) |
| Status.ParseStatusExample | src/main.rs:183-191 | "On branch main\n\tmodified: a\n\tmodified: b\n" parses to ("main", 2) |
| Overlay.RefreshStatus | src/main.rs:172-191 | a `git` that cannot start panics with `GitNotStarted`; output with no match panics with `NoBranch`; it succeeds exactly when `git` starts and its output has a match, and then the result is the regex capture and the converted tab count of the output |
| Overlay.EmptyOutputIsNoBranch | src/main.rs:175-186 | a `git` that starts but prints nothing on standard output (as for a directory that is not a repository) panics at the branch `unwrap`, not at the spawn `expect` |
| Overlay.InitialRepos | src/main.rs:76-85 | before the first refresh, there is one row per configured name, in order, with an empty branch and 0 changes |
| Overlay.RefreshList | src/main.rs:40-52 | refresh succeeds exactly when every repository's status does; the rows then match the configured names one-to-one, in order, each holding its probe's result; otherwise the fault is the first failing repository's |
| Overlay.RefreshRepos | src/main.rs:39-53 | the rows are replaced by a list as long as `config.repos`, with matching names and probe results; theme and configuration are unchanged; it fails exactly when some repository's status fails |
| Overlay.New | src/main.rs:74-96 | a config-load error panics with its message; otherwise the window starts dark with the loaded configuration and refreshed rows, or panics with the first failing repository's fault |
| Overlay.Update | src/main.rs:106-118 | `Quit` exits with code 0; `Lazygit(repo)` leaves theme, configuration and rows unchanged, for any name; `Refresh` keeps theme and configuration, gives one row per configured name in order holding that repository's status, keeps running exactly when every status succeeds, and otherwise panics with the first failure |
| Overlay.RefreshIgnoresPreviousRows | src/main.rs:39-53 | two states with the same configuration refresh to the same rows: the previous rows are replaced entirely |
| Overlay.RefreshIdempotent | src/main.rs:39-53 | refreshing a refreshed state again, with the repositories unchanged, gives the same state |
| Overlay.RowsHaveNonNegativeCounts | src/main.rs:188-191 | every transition keeps every row's change count non-negative |
| Overlay.MissingBranchPanicsRefresh | src/main.rs:185-186 | one repository whose output has no "branch " followed by a word character makes `Refresh` panic, however the others fare |

## Left out

- Starting processes: `git status` and `lazygit`, or `cmd /C start lazygit`
  on Windows (src/main.rs:55-67, 172-179). These are external process I/O.
  `git status` is the `GitStatus` parameter. Launching `lazygit` is
  fire-and-forget: its result is discarded, so it has no effect on the state.
- `String::from_utf8_lossy` (src/main.rs:181). The model starts from the
  decoded text as a sequence of characters.
- IsWordChar: the model takes `\w` to be ASCII letters, digits and
  underscore. The Rust `regex` crate's `\w` is Unicode-aware. For text with
  non-ASCII word characters (letters, digits, combining marks, connector
  punctuation), the model and the program can therefore differ:
  - a non-ASCII word character inside a branch name ends the capture early in the
    model;
  - a "branch " followed directly by a non-ASCII word character is skipped in the
    model. The model then captures a later "branch " word, or reports
    `NoBranch`, where the program captures the non-ASCII name.
- `Path::join` and the `cfg!(windows)` branch. These are OS path and platform
  semantics. The directory `root/repo` is implicit in the `GitStatus`
  parameter.
- The iced `view`, `title` and `theme` methods, and padding and layout
  (src/main.rs:98-169). These are UI rendering. `Quit` is modelled only as the
  outcome `Exited(0)`.
- `read_config` in src/config.rs: reading the file, TOML deserialisation and
  the `Path::exists` check. It is I/O over libraries. Its result is the
  `loaded` parameter of `New`.
