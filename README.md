# semgrep-action core, modelled in Dafny

This project models the core of the semgrep GitHub Action agent (`semgrep_agent`).
The agent runs the semgrep scanner in CI, compares the current scan against a
baseline scan, and reports only the findings the change introduced.

The modelled parts are:

- **Findings** (`Findings.dfy`, from `src/semgrep_agent/findings.py`):
  - the normalised finding and its grouping key;
  - the severity mapping and the blocking rule;
  - normalisation of one raw scanner match;
  - the 128-bit syntactic identifier and its 32-digit hex form;
  - the set reconciliation `FindingSets.expensive_new`. This is the current
    set minus the baseline set, where the members of each list are numbered
    by their position.
- **Dependency scan** (`SemgrepDep.dfy`, from `src/semgrep_agent/semgrepdep.py`):
  - `fix_head_for_github` as a class with `Enter` (the code up to `yield`) and
    `Exit` (the `finally`), over an abstract git state. That state holds the
    branches, other refs, known commits and the current checkout position;
  - lockfile selection;
  - the changed/introduced split;
  - the accumulation of comparison comments;
  - what is written to the file named by `GITHUB_ENV`.
- **Ignore file** (`Semgrep.dfy`, from `src/semgrep_agent/semgrep.py`):
  `get_semgrepignore` as successive writes into a string buffer.
- **Command-line helpers** (`Cli.dfy`, from `src/semgrep_agent/main.py`):
  `url`, `get_event_type` and `get_aligned_command`.
- **Bento driver** (`Bento.dfy`, from `semgrep_agent/bento.py`):
  - the event-type gate of `scan`;
  - `Results.stats`;
  - `Results.from_sh_command`, including its in-place loop that adds the
    commit date to each decoded finding.

`Base.dfy` holds the shared values: `Option`, `Result`, JSON values, ASCII lower-casing and substring tests.

Collaborators the agent calls but does not define are parameters:

- the murmur3 `hash128` (`Findings.Hasher`: any function into [0, 2^128));
- `textwrap.dedent` (`Findings.Dedenter`: any string function);
- the lockfile comparison service (`SemgrepDep.Comparer`);
- the process environment (a map);
- the two ignore-file texts;
- the decoded JSON output of the scanner and the commit date.

A Python `set` of findings is a map from a finding's identity to the member the set keeps.
The identity is the tuple (check id, path, index, dedented text).
When two list elements share an identity, the first one inserted is kept. Insertion follows the dict's item order, then each list's order (`Findings.FlattenAt`).
A `Dict[FindingKey, List[Finding]]` is the sequence of its items in insertion order.

Two behaviours of the source are reproduced as written, not corrected:

- `from_semgrep_result` stores the match's end **column** as `end_line`.
  `Findings.FromSemgrepResult` does the same, and `Findings.EndLineIsEndColumn`
  shows that the stored end line does not depend on where the match ends.
- `Finding.__eq__` ignores the occurrence index, while `__hash__` hashes it.
  `Findings.EqualityIgnoresIndexHashDoesNot` states this.
  In a set the two meet only when their hashes collide. With a hash that does
  not collide, the set's members are therefore told apart by the full identity
  tuple, as the model does.

## Model

| member | source | states |
|---|---|---|
| `Findings.NewFinding` | src/semgrep_agent/findings.py:32-49 | Every field is stored as given, except the matched text, which is passed through `dedent`. |
| `Findings.Evolve` | src/semgrep_agent/findings.py:128 | `attr.evolve` with a new index changes only the index and re-dedents the text. Its identity is (check id, path, new index, dedent(text)). |
| `Findings.EvolveKeepsIdempotentContext` | src/semgrep_agent/findings.py:39 | When the text is already a fixed point of `dedent`, evolving only replaces the index. |
| `Findings.SemgrepSeverityToInt` | src/semgrep_agent/findings.py:73-80 | 2 exactly for "ERROR", 1 exactly for "WARNING", 0 for every other string. |
| `Findings.IsBlocking` | src/semgrep_agent/findings.py:51-55 | A missing "dev.semgrep.actions" entry blocks. A list blocks iff it holds "block". A string blocks iff it contains "block". An object blocks iff it has the key "block". Other values raise TypeError. |
| `Findings.FromSemgrepResult` | src/semgrep_agent/findings.py:82-107 | The key and the finding share check id and path. The key keeps the raw text and the finding the dedented text. The index is 0 and the severity is mapped. `end_line` and `end_column` both take the end column. |
| `Findings.FromSemgrepResultIdentity` | src/semgrep_agent/findings.py:86-107 | A normalised match's identity is its key with index 0 and the text dedented. |
| `Findings.EndLineIsEndColumn` | src/semgrep_agent/findings.py:99 | Moving the end of a match to another line, in the same column, leaves the stored `end_line` unchanged. |
| `Findings.ToBytesBE` | src/semgrep_agent/findings.py:63-65 | `int.to_bytes(big, unsigned)` gives exactly `len` bytes whose big-endian value is the number. |
| `Findings.Hexlify` | src/semgrep_agent/findings.py:66 | Two lower-case hex digits per byte. |
| `Findings.ParseHexlify` | src/semgrep_agent/findings.py:62-66 | Reading the hex text back gives the big-endian value of the bytes. |
| `Findings.SyntacticIdentifierStr` | src/semgrep_agent/findings.py:57-66 | 32 lower-case hex digits whose value is the 128-bit identifier. |
| `Findings.IdentifierIgnoresInformationalFields` | src/semgrep_agent/findings.py:57-60 | The identifier, and so the hash, depends only on check id, path, index and text. |
| `Findings.SyntacticIdentifierInt` | src/semgrep_agent/findings.py:57-71 | The identifier, which `__hash__` also returns, is the hash of (check id, path, index, text) and lies in [0, 2^128). |
| `Findings.AttrEq` | src/semgrep_agent/findings.py:26-49 | attrs-generated `==`: two findings are equal iff check id, path and (dedented) text agree. Every field declared `eq=False`, the index among them, is ignored. |
| `Findings.EqualityIgnoresIndexHashDoesNot` | src/semgrep_agent/findings.py:34-39 | Findings that differ only in index are attrs-equal, yet the identity tuples their hashes are computed from differ. |
| `Findings.Enumerated` | src/semgrep_agent/findings.py:128-130 | Element j of a list becomes the list's j-th finding evolved to index j. |
| `Findings.Flatten` | src/semgrep_agent/findings.py:127-131 | The generator yields one finding per list element: as many as the lists hold together. |
| `Findings.FlattenedAreProduced` | src/semgrep_agent/findings.py:127-131 | Every generated finding's identity is produced by some list element at its own position. |
| `Findings.ProducedAreFlattened` | src/semgrep_agent/findings.py:127-131 | Every list element, evolved to its own position, has its identity among the generated findings. |
| `Findings.FlattenMembers` | src/semgrep_agent/findings.py:127-131 | An identity is generated iff some list holds, at some position j, a finding whose evolved identity with index j is that identity. |
| `Findings.FlattenElements` | src/semgrep_agent/findings.py:127-131 | Each generated finding is some list's element evolved to its own position. |
| `Findings.FlattenAt` | src/semgrep_agent/findings.py:127-131 | The generator yields the dict's lists in order and each list in order: element j of the e-th list comes out at position (size of the earlier lists) + j. |
| `Findings.ToSet` | src/semgrep_agent/findings.py:127 | The set holds exactly the identities of the sequence. The member kept for each is the first element with that identity. |
| `Findings.MapToSet` | src/semgrep_agent/findings.py:125-131 | `_map_to_set` holds exactly the identities of the generated findings, each member under its own identity. |
| `Findings.MapToSetMembers` | src/semgrep_agent/findings.py:125-131 | Membership in `_map_to_set` is exactly being produced by some list, at an index below that list's length. |
| `Findings.MapToSetValues` | src/semgrep_agent/findings.py:125-131 | Each member is a list element with its index set to its position and its text re-dedented. |
| `Findings.CurrentSet` | src/semgrep_agent/findings.py:133-134 | `current_set` holds exactly the identities the current map produces. |
| `Findings.BaselineSet` | src/semgrep_agent/findings.py:136-137 | `baseline_set` holds exactly the identities the baseline map produces. |
| `Findings.Difference` | src/semgrep_agent/findings.py:123 | Set difference keeps the members of the left set whose identity is not in the right set, unchanged. |
| `Findings.ExpensiveNew` | src/semgrep_agent/findings.py:122-123 | An identity is new iff the current map produces it and the baseline map does not. The member is the one the current set keeps. |
| `Findings.SelfDifferenceIsEmpty` | src/semgrep_agent/findings.py:122-137 | A scan compared with itself has no new findings. |
| `Findings.EmptyBaselineKeepsCurrent` | src/semgrep_agent/findings.py:133-137 | With an empty baseline, the new findings are the whole current set. |
| `Findings.EmptyCurrentIsEmpty` | src/semgrep_agent/findings.py:133-137 | With an empty current scan, nothing is new. |
| `Findings.PositionalMatching` | src/semgrep_agent/findings.py:126-131 | nb baseline and nc current copies of one finding under one key leave exactly the copies at indices nb to nc-1 as new. |
| `Findings.ThreeBaselineFiveCurrent` | src/semgrep_agent/findings.py:122-131 | Baseline [A, A, A] against current [A, A, A, A, A] leaves A at indices 3 and 4. |
| `SemgrepDep.GitState.RevParse` | src/semgrep_agent/semgrepdep.py:56 | `git rev-parse` gives HEAD's commit for HEAD, a branch's tip for a branch name and a ref's target for another ref. A full 40-digit hash is printed back in lower case whether or not the clone holds that commit. Anything else is unknown. Every answer is a full lower-case hash. |
| `SemgrepDep.GitState.ShowCurrent` | src/semgrep_agent/semgrepdep.py:59 | On a branch it prints that branch's name. Detached, it prints nothing. |
| `SemgrepDep.GitState.CheckoutTarget` | src/semgrep_agent/semgrepdep.py:63 | A checkout succeeds iff the revision resolves to a commit the clone holds. HEAD stays where it is. A branch name attaches to that branch. Any other resolving revision detaches at the commit it resolves to. The new state stays well formed. |
| `SemgrepDep.GitState.StashName` | src/semgrep_agent/semgrepdep.py:59-61 | The stashed revision is the branch name, or the HEAD commit when detached. |
| `SemgrepDep.StashRestoresHead` | src/semgrep_agent/semgrepdep.py:59-79 | Checking the stashed revision out returns to exactly the original position, attached or detached. |
| `SemgrepDep.StashRestoresHeadLater` | src/semgrep_agent/semgrepdep.py:59-79 | Later, after other checkouts, the stashed revision still leads back to the original position, as long as its branch (or detached commit) still exists. |
| `SemgrepDep.Repo.Checkout` | src/semgrep_agent/semgrepdep.py:63 | An unknown revision raises and changes nothing. Otherwise only the head moves, to the revision's target. |
| `SemgrepDep.FixHeadForGithub.constructor` | src/semgrep_agent/semgrepdep.py:47-48 | Starts with `base_ref` set to the given base ref and nothing stashed. |
| `SemgrepDep.FixHeadForGithub.Enter` | src/semgrep_agent/semgrepdep.py:47-79 | The cases are: no repository yields the base ref untouched; a base ref that does not resolve raises before any checkout; a head ref that cannot be checked out raises; otherwise, with a truthy head ref, the position is stashed and the head ref checked out. The base yielded is the one resolved BEFORE the checkout. When it names a commit the clone lacks, `git log` inside the `try` raises instead. The `finally` has then already checked the stash out again, so the repository is back in its entry state. |
| `SemgrepDep.FixHeadForGithub.Exit` | src/semgrep_agent/semgrepdep.py:76-79 | Without a stashed revision, nothing changes. With one, whatever the body did to the repository, it is checked out. The checkout raises iff the name no longer resolves, and then nothing changes. Otherwise only the head moves. When the original branch (or detached commit) still exists, the head is back where it was on entry. |
| `SemgrepDep.FixHeadForGithub.Resolved` | src/semgrep_agent/semgrepdep.py:54-56 | A truthy base ref is replaced by the full hash it resolves to. That is a known commit unless the ref was itself a full hash, which is only lower-cased. A falsy one is kept as given. |
| `SemgrepDep.MatchesForCount` | src/semgrep_agent/semgrepdep.py:126-128 | The matches for one target keep every input occurrence of a matching path and no other path. |
| `SemgrepDep.GroupedCount` | src/semgrep_agent/semgrepdep.py:125-128 | The output lists a path once per input occurrence for each target its name matches. |
| `SemgrepDep.TargetMatchCount` | src/semgrep_agent/semgrepdep.py:119 | No name matches two of the three target names, ignoring case. |
| `SemgrepDep.TargetsAreLowerCase` | src/semgrep_agent/semgrepdep.py:119 | The target names are already lower case. |
| `SemgrepDep.MatchingLockfilesOccurrences` | src/semgrep_agent/semgrepdep.py:119-128 | Each lockfile occurrence of the input appears exactly once in the output, and nothing else appears. |
| `SemgrepDep.MatchingLockfilesNames` | src/semgrep_agent/semgrepdep.py:119-128 | Every output path is an input path whose lower-cased name is one of the three lockfile names. |
| `SemgrepDep.GetFilesMatchingNameInsensitiveCase` | src/semgrep_agent/semgrepdep.py:122-128 | The nested loops yield the matching lockfiles grouped by target, in input order within each group. |
| `SemgrepDep.ChangedTargets` | src/semgrep_agent/semgrepdep.py:164-168 | Exactly the current paths also in the baseline, each paired with its baseline text. |
| `SemgrepDep.ChangedTargetsInOrder` | src/semgrep_agent/semgrepdep.py:164-168 | Entry k is the k-th current lockfile whose path is in the baseline, with its current text: the dict's iteration order, one entry per kept item. |
| `SemgrepDep.IntroducedTargets` | src/semgrep_agent/semgrepdep.py:169-171 | Exactly the current paths absent from the baseline. |
| `SemgrepDep.IntroducedTargetsInOrder` | src/semgrep_agent/semgrepdep.py:169-171 | Entry k is the k-th current lockfile whose path is not in the baseline, unchanged: the dict's iteration order, one entry per kept item. |
| `SemgrepDep.PositionsSelect` | src/semgrep_agent/semgrepdep.py:164-171 | The positions a filtering comprehension keeps are exactly the selected ones, each once, in ascending order. |
| `SemgrepDep.SelectionsKeepPathsDistinct` | src/semgrep_agent/semgrepdep.py:164-171 | When the current lockfiles have distinct paths, as a dict's keys do, both selections have distinct paths too. |
| `SemgrepDep.TargetsPartition` | src/semgrep_agent/semgrepdep.py:164-171 | Changed and introduced are disjoint and together cover the current lockfiles. A lockfile only in the baseline is in neither. |
| `SemgrepDep.GatherComments` | src/semgrep_agent/semgrepdep.py:176-184 | `res` is each comment the comparisons return, followed by a newline. Changed lockfiles come first, then introduced ones. |
| `SemgrepDep.AppendedEmpty` | src/semgrep_agent/semgrepdep.py:176-186 | `res` is empty iff no comparison returned a comment. |
| `SemgrepDep.AppendedEndsWithNewline` | src/semgrep_agent/semgrepdep.py:176-184 | The gathered `res` is empty or ends with a newline. |
| `SemgrepDep.AppendedConcat` | src/semgrep_agent/semgrepdep.py:176-184 | Gathering the changed lockfiles' comments and then the introduced ones gives the two texts one after the other. |
| `SemgrepDep.GithubEnvOutput` | src/semgrep_agent/semgrepdep.py:186-194 | Output is written iff `res` is non-empty and GITHUB_ENV is set. The file is opened with "w", so it is left holding only a heredoc-style `MARKDOWN_COMMENT` block around `res`. |
| `Base.Lower` | src/semgrep_agent/semgrepdep.py:127 | Lower-casing keeps the length and maps each character to its lower-case form. |
| `Semgrep.StringBuffer.constructor` | src/semgrep_agent/semgrep.py:26 | A new `StringIO` is empty and positioned at 0. |
| `Semgrep.StringBuffer.Write` | src/semgrep_agent/semgrep.py:32 | A write overwrites the text from the stream position on, extends it where needed, keeps what lies before and after, and advances the position past what it wrote. At the end of the text it appends. |
| `Semgrep.GetSemgrepignore` | src/semgrep_agent/semgrep.py:25-48 | The returned stream is new and holds the ignore text for the given inputs. It is not rewound, so its position is at the end of that text. |
| `Semgrep.SemgrepignoreText` | src/semgrep_agent/semgrep.py:29-40 | The text starts with the chosen base rules. Without patterns it is exactly those rules. |
| `Semgrep.Join` | src/semgrep_agent/semgrep.py:45 | `"\n".join` of no parts is empty. Otherwise the text ends where the last part ends, so no separator trails it. |
| `Semgrep.OneSourceOnly` | src/semgrep_agent/semgrep.py:29-38 | A local file replaces the template entirely. Otherwise the text starts with the template, and what follows depends on the patterns alone. |
| `Semgrep.JoinPlacesParts` | src/semgrep_agent/semgrep.py:45 | In the joined text each part sits at its offset. Every part but the last is followed by a newline, and the next part starts right after it. |
| `Semgrep.JoinNewlineAfter` | src/semgrep_agent/semgrep.py:45 | The separator after each part but the last is "\n". |
| `Semgrep.PatternsAppendedInOrder` | src/semgrep_agent/semgrep.py:40-46 | With patterns, the text is base + "\n# Ignores from semgrep app\n" + joined patterns + "\n". Every pattern occurs there, in the given order, and is followed by a newline: one pattern per line. |
| `Cli.Url` | src/semgrep_agent/main.py:24-25 | The result is a prefix of the input, only '/' characters were removed, and it does not end in '/'. |
| `Cli.UrlIdempotent` | src/semgrep_agent/main.py:25 | Stripping twice is stripping once. |
| `Cli.GetEventType` | src/semgrep_agent/main.py:36-39 | Inside GitHub Actions it returns GITHUB_EVENT_NAME, raising KeyError when that is missing. Elsewhere it returns "push". |
| `Cli.EventTypeReadsOnlyTwoVariables` | src/semgrep_agent/main.py:36-39 | Environments that agree on the two variables give the same event type. |
| `Cli.LJust` | src/semgrep_agent/main.py:43 | Pads with spaces on the right to the width and never truncates. |
| `Cli.GetAlignedCommand` | src/semgrep_agent/main.py:42-43 | The line is "| ", the title padded to 17 with spaces, " - ", then the subtext. A longer title is kept whole. |
| `Cli.AlignedCommandsLineUp` | src/semgrep_agent/main.py:42-43 | For titles up to 17 characters, the separator and the subtext start in the same column on every line. |
| `Bento.ScanDispatch` | semgrep_agent/bento.py:121-135 | An event outside {push, pull_request} exits with code 2. pull_request scans the pull request, and push scans the push. |
| `Bento.Results.GetStats` | semgrep_agent/bento.py:54-59 | The count is absent iff findings is None or empty, and is the list length otherwise. The total time is carried over. |
| `Bento.ResultsOf` | semgrep_agent/bento.py:43-52 | Findings are present iff stdout is non-empty. The exit code and the elapsed time are carried over. |
| `Bento.StatsOfScan` | semgrep_agent/bento.py:43-59 | A scan reports no count iff the scanner printed nothing or reported no findings. Otherwise it reports the number of findings. |
| `Bento.WithCommitDate` | semgrep_agent/bento.py:48 | Sets "commit_date" to the ISO date and leaves every other key as it was. |
| `Bento.WithCommitDateIdempotent` | semgrep_agent/bento.py:47-48 | Setting the commit date twice equals setting it once. |
| `Bento.FromShCommand` | semgrep_agent/bento.py:37-52 | Returns the results of the run. With output, every decoded record gets the commit date and no other change. Without output, no record changes. |

## Left out

- The lockfile comparison service `compare_lockfiles` (src/semgrep_agent/semgrepdep.py:82-116) is a network call. It is the `Comparer` parameter.
- Running git, semgrep and bento is left out. So is all console output, including what `git log` prints (src/semgrep_agent/semgrepdep.py:66-73). Only the failure of that `git log` on a baseline commit missing from the clone is modelled.
- `git checkout`'s guessing of remote branch names, and its refusal on a dirty working tree, are not modelled. A checkout fails only on a revision that does not resolve, or on a full hash whose commit the clone lacks.
- `SemgrepDep.GitState.RevParse` resolves HEAD, branch names, other ref names and full 40-digit hashes. Abbreviated hashes and revision expressions (`HEAD^`, `main~2`, `@{u}`) are not modelled; they are unknown in the model.
- File reads and writes are not modelled:
  - reading target files (src/semgrep_agent/semgrepdep.py:155-161);
  - writing the GITHUB_ENV file (only its name and contents are modelled);
  - checking for and reading `.semgrepignore` and the template (both are inputs).
- `TargetFileManager` (`current_paths`, `baseline_paths`) comes from `semgrep_agent/targets.py`, which is not part of this model. The current and baseline lockfile texts are inputs.
- `pymmh3.hash128` and `textwrap.dedent` are parameters, not definitions.
- Hash collisions are not modelled. Python's set would merge two attrs-equal findings whose hashes collide; the model keeps them apart by their full identity tuple.
- A name that is both a branch and another ref (such as a tag) is not modelled: a well-formed `GitState` keeps the two name spaces apart, so git's preference between them (and its warning about the ambiguity) does not arise.
- Reading back from the `StringIO` that `get_semgrepignore` returns is not modelled. The stream is returned at the end of its text, and its caller is not part of this model.
- `Base.Lower`: maps only ASCII upper-case letters. Python's `str.lower` also folds non-ASCII letters, such as the Kelvin sign.
- `Findings.FromSemgrepResult` takes a typed record, so a scanner record with a missing key, which raises KeyError in the source, is not modelled.
- `Finding.to_dict` (src/semgrep_agent/findings.py:109-114) is not modelled. It depends on `attr.asdict` and would fail on a finding without a commit date.
- `semgrep.Results.stats` (src/semgrep_agent/semgrep.py:56-61) reads `findings.new`, which `FindingSets` does not define. It is not modelled.
- `semgrep.cai` and the `main()` command-line glue (src/semgrep_agent/main.py:46 onwards) are not modelled; `main()` calls `cai` with three arguments while it takes five.
- In bento, the scans themselves (`scan_pull_request`, `scan_push`, including the config download) are reduced to which of them runs. Their error handling and the clock are left out, and the elapsed time is an input.
- `Bento.FromShCommand` takes the decoded records as an input. It does not model `json.loads`, nor decoded output that is not a list of objects.
- The commit's ISO date is an input, so a missing commit (which raises in the source) is not modelled.
