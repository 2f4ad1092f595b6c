# Mono-repo change detector: a Dafny model

This project models the change detector a CI pipeline runs to decide which
modules (sub-directories) of a mono-repository changed between two commits.
The Python script exists in two near-identical copies. One reads its two
arguments positionally. The other reads them with `argparse` flags.

The detector works in five steps:

1. It resolves the base and head commits from the GitHub event. A pull
   request's payload supplies them; otherwise the environment does.
   An all-zero base means "no parent" and is replaced by the parent of head.
2. It extracts every module from both commits into scratch directories, using
   `git ls-tree`, then `git archive` piped into `tar`.
3. It fingerprints each extracted folder. The sorted files' contents are
   streamed in 8192-byte reads into one SHA-256.
4. It marks a module changed when the head extraction succeeded and the two
   fingerprints differ. A failed base extraction counts as the empty digest.
5. It writes one `<module>-changed` output per module, then the JSON summary,
   then the version. These go to the `GITHUB_OUTPUT` file, or are printed as
   `::set-output` commands when that variable is unset.

Modules, one per component:

| file | module | what it holds |
|---|---|---|
| `common.dfy` | `Common` | `Option` (Python's `None`), bytes |
| `text.dfy` | `PyText` | `str.strip`, `str.split()`, one-character `str.replace`, with CPython's whitespace set |
| `order.dfy` | `PathOrder` | Python's order on `str` and `list.sort()` as the unique ascending permutation |
| `commits.dfy` | `CommitResolver` | `_get_commit_shas` |
| `fingerprint.dfy` | `Fingerprint` | `_folder_hash`: the path listing loop, the chunked read loop, the hasher as a class |
| `extract.dfy` | `TreeExtractor` | `_extract_module_tree` as a decision over what each external step does |
| `detect.dfy` | `Detection` | `detect_changes`: the per-module loop and the insertion-ordered result dictionary |
| `output.dfy` | `Output` | `output_github_actions`: output names, the two channels, the line loops |
| `cli.dfy` | `Cli` | `parse_modules_string`, both `main` variants, and the whole run |

The outside world enters as values and function parameters:

- **Environment and event file.** An `Env` record holds `GITHUB_EVENT_NAME`,
  the loaded event file (none, unparsable, or a payload of nested objects),
  `GITHUB_EVENT_BEFORE` and `GITHUB_SHA`.
- **`git rev-parse`.** A function from its argument (`f'{head}^'`, so `None^`
  when head is absent) to "raised" or (exit code, stdout).
- **Extraction steps.** An `Oracle` record says what `os.makedirs`,
  `git ls-tree`, `git archive` and `tar` each do: raise, or exit with a code.
- **Per-module world.** For the module at position `i` of the list,
  `world(i)` gives both extractions' oracles and the trees the extraction
  directories then hold.
- **Folder contents.** What `os.walk` yields, plus what opening and reading
  each path gives: all its bytes, an open failure, or a read failure after
  some good reads.
- **Hash and JSON.** SHA-256 is a parameter `sha` from the byte stream to 64
  lower-case hex digits. `json.dumps` of the dictionary is a parameter too.

The imperative parts of the script keep their shape as methods with loops:

- `Fingerprint.ListFiles` is the nested `os.walk` loop.
- `Fingerprint.ReadInto` is the `while chunk := f.read(8192)` loop, feeding a
  `Sha256` object whose `Update` appends to its accumulated stream.
- `Fingerprint.FolderHash` reads the sorted files in turn.
- `Detection.DetectChanges` is the module loop filling the dictionary.
- `Output.OutputGithubActions` holds the two write loops.

Each method is proved equal to a specification function. The properties are
proved about those functions.

## Behaviour a reader may not expect

- **The fingerprint hashes contents only.** Hashing paths together with
  contents would make renames show up. The code feeds only file bytes to the
  hasher, as its docstring "content-only hash" says. `Fingerprint.StreamIsContentOnly`
  and `Fingerprint.RenameKeepsDigest` show that a rename keeping the sorted
  order of contents keeps the digest.
- **A present empty folder is not the empty sentinel.** A present but empty
  tree does not get the `""` of a missing one. The code returns the SHA-256
  of the empty stream. `Fingerprint.EmptyFolderIsNotMissing` shows this is
  never `""`.
- **Head can be absent.** The return annotation of `_get_commit_shas` says head
  is a `str`. In the code it is `None` when `GITHUB_SHA` is unset, or on a pull
  request without `pull_request.head.sha`. The model keeps head optional.

## Model

| member | source | states |
|---|---|---|
| `PyText.Strip` | detect-changes/detect_changes.py:200 | `str.strip(chars)` never grows its input, leaves kept characters at both ends of a non-empty result, and changes nothing when both ends are kept |
| `PyText.StripLeftSplits` | detect-changes/detect_changes.py:200 | what left-stripping removes is a leading run of stripped characters and the rest is a suffix of the input |
| `PyText.StripRightSplits` | detect-changes/detect_changes.py:200 | what right-stripping removes is a trailing run of stripped characters and the rest is a prefix of the input |
| `PyText.StripSplits` | detect-changes/detect_changes.py:200 | `strip` cuts the input into a leading run of stripped characters, the result, and a trailing run of stripped characters; with the contract on the result's ends this fixes the result |
| `PyText.Split` | detect-changes/detect_changes.py:201 | `str.split()` yields only non-empty tokens without whitespace |
| `PyText.SplitKeepsOrder` | detect-changes/detect_changes.py:201 | gluing the tokens of `split()` together gives the input with its whitespace removed, so every other character survives in order |
| `PyText.SplitJoinSpaced` | detect-changes/detect_changes.py:201 | `split()` undoes `' '.join` of non-empty tokens without whitespace |
| `PyText.ReplaceChar` | detect-changes/detect_changes.py:176 | one-character `str.replace` keeps the length and maps each character on its own |
| `PathOrder.LexLeIsTotalOrder` | detect-chanages/src/detect_changes.py:74 | Python's `<=` on `str` is reflexive, total, antisymmetric and transitive |
| `PathOrder.LexLe` | detect-chanages/src/detect_changes.py:74 | a prefix of a string comes before it, as in Python's comparison of `str` |
| `PathOrder.Sort` | detect-chanages/src/detect_changes.py:74 | `files.sort()` gives an ascending list with the same elements and multiplicities |
| `PathOrder.SortIgnoresOrder` | detect-chanages/src/detect_changes.py:74 | two lists with the same elements sort to the same list, whatever their order |
| `PathOrder.SortIsTheSortedPermutation` | detect-chanages/src/detect_changes.py:74 | any ascending rearrangement of the input is the sorted list |
| `CommitResolver.EventData` | detect-chanages/src/detect_changes.py:29-35 | a loaded event file gives its own payload; a missing or unparsable one gives the empty payload |
| `CommitResolver.PullRequestSha` | detect-chanages/src/detect_changes.py:39-40 | when every level of `pull_request.<side>.sha` exists the result is that leaf (JSON `null` as `None`), and otherwise `None` |
| `CommitResolver.Selected` | detect-chanages/src/detect_changes.py:37-44 | a `pull_request` event takes `pull_request.base.sha` and `pull_request.head.sha` from the payload, or `None` where a level is missing; any other event takes `GITHUB_EVENT_BEFORE` and `GITHUB_SHA` |
| `CommitResolver.IsSentinel` | detect-chanages/src/detect_changes.py:47 | the first-push condition holds exactly for a present, non-empty base made only of `'0'` characters |
| `CommitResolver.ParentOf` | detect-chanages/src/detect_changes.py:48-56 | the parent lookup yields a commit exactly when `git rev-parse <head>^` runs and exits 0, and that commit is its stdout with surrounding whitespace stripped |
| `CommitResolver.Resolve` | detect-chanages/src/detect_changes.py:24-58 | head is always the selected head; a non-sentinel base passes through; a sentinel base becomes the lookup's answer |
| `CommitResolver.PullRequestReadsPayload` | detect-chanages/src/detect_changes.py:37-40 | on `pull_request`, for any payload holding both `sha` members and a non-sentinel base, base and head are `pull_request.base.sha` and `pull_request.head.sha`, whatever else the payload holds |
| `CommitResolver.MissingPayloadLevelIsAbsent` | detect-chanages/src/detect_changes.py:37-40 | on `pull_request`, a missing level gives an absent commit, and no payload gives both absent whatever the environment holds |
| `CommitResolver.OtherEventsReadEnvironment` | detect-chanages/src/detect_changes.py:41-44 | any other event selects `GITHUB_EVENT_BEFORE` and `GITHUB_SHA`, which are the result for a non-sentinel base, and the event file never changes the result |
| `CommitResolver.FirstPushUsesParent` | detect-chanages/src/detect_changes.py:47-53 | a base of forty zeros with head `bbb` and a lookup printing `ccc` for `bbb^` resolves to (`ccc`, `bbb`) |
| `CommitResolver.FailedLookupGivesNoBase` | detect-chanages/src/detect_changes.py:53-56 | a lookup that raises or exits non-zero leaves the base absent and head unchanged |
| `CommitResolver.LookupOnlyForSentinel` | detect-chanages/src/detect_changes.py:47 | for any base that is not all zeros (empty and absent included) the result does not depend on `git rev-parse` |
| `CommitResolver.ParentIsTrimmed` | detect-chanages/src/detect_changes.py:47-56 | a sentinel base with a successful lookup becomes the lookup's stdout with surrounding whitespace stripped; without a head the lookup is asked about `None^` |
| `Fingerprint.Delivered` | detect-chanages/src/detect_changes.py:77-83 | an open failure feeds nothing, a readable file feeds all its bytes, and a read failure feeds the chunks read before it |
| `Fingerprint.JoinParts` | detect-chanages/src/detect_changes.py:71 | `os.path.join(root, name)` ends with the name, and starts with the directory unless the name is absolute, in which case it is the name |
| `Fingerprint.FolderDigest` | detect-chanages/src/detect_changes.py:60-85 | the digest is `""` exactly when the folder does not exist, and 64 lower-case hex digits otherwise |
| `Fingerprint.Sha256.constructor` | detect-chanages/src/detect_changes.py:65 | a new hasher has been fed nothing |
| `Fingerprint.Sha256.Update` | detect-chanages/src/detect_changes.py:80 | `update` appends the chunk to the stream fed so far |
| `Fingerprint.Sha256.HexDigest` | detect-chanages/src/detect_changes.py:85 | `hexdigest()` is the digest of everything fed so far |
| `Fingerprint.ListFiles` | detect-chanages/src/detect_changes.py:68-72 | the nested walk loop lists every joined path in walk order |
| `Fingerprint.ReadInto` | detect-changes/detect_changes.py:67-74 | the chunked read loop appends exactly the bytes the file delivers, so it is the same as feeding the whole file at once |
| `Fingerprint.FolderHash` | detect-chanages/src/detect_changes.py:60-85 | `_folder_hash` returns the folder digest |
| `Fingerprint.StreamOfAppend` | detect-chanages/src/detect_changes.py:76-80 | reading two path lists one after the other feeds their two streams one after the other |
| `Fingerprint.OpenFailureContributesNothing` | detect-chanages/src/detect_changes.py:76-83 | a file that cannot be opened is skipped and the other files are still hashed in order |
| `Fingerprint.StreamIsContentOnly` | detect-chanages/src/detect_changes.py:76-80 | only bytes reach the hasher: listings delivering the same bytes position by position give the same stream, whatever the paths |
| `Fingerprint.StreamInAscendingOrder` | detect-chanages/src/detect_changes.py:68-80 | the hashed stream is the files' contents in ascending full-path order |
| `Fingerprint.WalkOrderIrrelevant` | detect-chanages/src/detect_changes.py:74 | two walks listing the same paths in any order give the same digest |
| `Fingerprint.EmptyFolderIsNotMissing` | detect-chanages/src/detect_changes.py:62-85 | a present folder without files hashes the empty stream, which differs from the `""` of a missing folder |
| `Fingerprint.RenameKeepsDigest` | detect-chanages/src/detect_changes.py:60-85 | a folder holding one file has the digest of that file's bytes, whatever the file is named |
| `TreeExtractor.Extract` | detect-chanages/src/detect_changes.py:87-130 | success exactly when there is a commit, nothing raises, `ls-tree` exits 0 and `tar` exits 0; no step runs without a commit |
| `TreeExtractor.NoCommitNoEffects` | detect-chanages/src/detect_changes.py:89-90 | an absent or empty commit fails with no step run and no directory made |
| `TreeExtractor.ArchiveCodeIgnored` | detect-chanages/src/detect_changes.py:106-126 | the exit code of `git archive` never changes the outcome |
| `TreeExtractor.LsTreeFailureStopsEarly` | detect-chanages/src/detect_changes.py:96-103 | a failed `ls-tree` fails before the archive or `tar` starts |
| `TreeExtractor.SuccessCreatedDirectory` | detect-chanages/src/detect_changes.py:93-126 | a successful extraction has created its directory |
| `Detection.Put` | detect-chanages/src/detect_changes.py:157 | `changes[k] = v` keeps the dictionary well formed and sets `k`; every other entry keeps its value and no other key appears; an existing key keeps its place, and a new key goes to the end of the insertion order |
| `Detection.Verdict` | detect-chanages/src/detect_changes.py:151-166 | a failed head extraction gives "unchanged"; a head extraction without a base extraction gives "changed"; with both extracted, "changed" means the two folder digests differ |
| `Detection.DetectSpec` | detect-chanages/src/detect_changes.py:146-166 | the dictionary built by the loop is a well-formed insertion-ordered dictionary |
| `Detection.DetectChanges` | detect-chanages/src/detect_changes.py:132-174 | the loop builds the dictionary the per-module verdicts define |
| `Detection.HeadFailureIsUnchanged` | detect-changes/detect_changes.py:145-149 | a failed head extraction gives "unchanged" whatever the base outcome and base tree |
| `Detection.NoBaseMarksEverythingChanged` | detect-chanages/src/detect_changes.py:151-166 | without a base commit every module extracted at head is changed |
| `Detection.BothExtractedComparesDigests` | detect-chanages/src/detect_changes.py:161-166 | with both extracted, "changed" means the two digests differ, and identical hashed bytes mean "unchanged" |
| `Detection.FirstIndex` | detect-changes/detect_changes.py:137 | the position of the first occurrence of a name in the module list |
| `Detection.DedupIsFirstOccurrences` | detect-changes/detect_changes.py:137-157 | deduplication keeps each name once, loses none, and keeps first-occurrence order |
| `Detection.KeysAreDedup` | detect-changes/detect_changes.py:137-157 | the dictionary's keys are the module list deduplicated in first-occurrence order |
| `Detection.KeysAreFirstOccurrences` | detect-changes/detect_changes.py:137-157 | one key per distinct module, no other key, in first-occurrence order |
| `Detection.DetectSpecAssigns` | detect-changes/detect_changes.py:137-157 | the loop's dictionary is the one built by assigning each position's verdict in turn |
| `Detection.LastAssignmentWins` | detect-changes/detect_changes.py:137-157 | of several assignments to one key, the last one stays |
| `Detection.LastOccurrenceWins` | detect-changes/detect_changes.py:137-157 | a name listed more than once keeps the verdict of its last occurrence |
| `Output.OutputName` | detect-changes/detect_changes.py:176 | the output name has the module's length, no `_` or `/`, those replaced by `-` and every other character kept |
| `Output.BoolText` | detect-changes/detect_changes.py:177 | `str(changed).lower()` is `true` exactly for true and `false` exactly for false |
| `Output.Emissions` | detect-changes/detect_changes.py:171-191 | one `<name>-changed` output per key in dictionary order with `true` or `false`, then `changes`, then `semantic-version` |
| `Output.LinesAt` | detect-changes/detect_changes.py:175-191 | each output becomes one line of either channel, at the same position |
| `Output.FileLineParts` | detect-changes/detect_changes.py:177 | a file line `name=value` gives back the name and the value, read at their positions, and ends in a newline |
| `Output.SetOutputLineParts` | detect-changes/detect_changes.py:187 | a `::set-output name=<name>::<value>` line gives back the name and the value, read at their positions, and ends in a newline |
| `Output.RenderedChannel` | detect-changes/detect_changes.py:169-191 | the file channel is used exactly when `GITHUB_OUTPUT` is set and not empty, with that path; either channel carries one line per output |
| `Output.OutputGithubActions` | detect-changes/detect_changes.py:167-191 | the write loops produce the lines the outputs define, on the channel `GITHUB_OUTPUT` selects |
| `Output.ChannelsCarrySameOutputs` | detect-changes/detect_changes.py:171-191 | the file and `::set-output` channels carry the same (name, value) pairs in the same order |
| `Output.EmptyOutputPathPrints` | detect-changes/detect_changes.py:169-171 | an empty `GITHUB_OUTPUT` counts as unset and the outputs are printed |
| `Output.FileLineStatesVerdict` | detect-changes/detect_changes.py:175-177 | the file line for each module reads `<name>-changed=true` exactly when its verdict is true, and `=false` otherwise |
| `Output.SummaryLinesComeLast` | detect-changes/detect_changes.py:180-182 | the last two file lines are `changes=<json>` and then `semantic-version=<v>` |
| `Output.OutputNameExample` | detect-changes/detect_changes.py:176 | `shared/lib_core` gives `shared-lib-core-changed` |
| `Output.OutputNameAppend` | detect-changes/detect_changes.py:176 | output names are formed character by character over concatenation |
| `Output.OutputNameIdempotent` | detect-changes/detect_changes.py:176 | normalising an output name twice changes nothing more |
| `Output.OutputNamesCollide` | detect-changes/detect_changes.py:176 | `a_b`, `a/b` and `a-b` share the output name `a-b` |
| `Cli.CleanedKeepsTokens` | detect-changes/detect_changes.py:201 | the strip-and-filter comprehension keeps the tokens of `split()` as they are |
| `Cli.Unquoted` | detect-changes/detect_changes.py:200 | the stripped argument is no longer than the input and neither starts nor ends with `'` |
| `Cli.Cleaned` | detect-changes/detect_changes.py:201 | the comprehension keeps at most as many words as it is given, each non-empty and without whitespace at either end |
| `Cli.ParseModules` | detect-changes/detect_changes.py:194-203 | an empty argument gives no modules; otherwise the result is the split of the unquoted argument, every name non-empty and without whitespace |
| `Cli.ParseKeepsOrder` | detect-changes/detect_changes.py:200-201 | the names keep every non-whitespace character of the unquoted argument in order |
| `Cli.BlankArgumentNamesNothing` | detect-changes/detect_changes.py:196-201 | an argument of whitespace only names no module |
| `Cli.QuotedListParses` | detect-changes/detect_changes.py:200-201 | names joined by spaces, bare or in one pair of `"` or `'`, parse back to the same list, interior quotes kept |
| `Cli.MainPositional` | detect-chanages/src/detect_changes.py:215-240 | fewer than two arguments, an empty argument or no module stops with status 1; otherwise detection runs on the parsed modules and the second argument |
| `Cli.MainWithFlags` | detect-changes/detect_changes.py:206-220 | only a modules argument naming no module stops, with status 1; an empty version is accepted |
| `Cli.UsageLineIsReadPositionally` | detect-chanages/src/detect_changes.py:217-229 | a call written like the printed usage line checks a module called `--modules` with the module list as the version |
| `Cli.RunDetector` | detect-changes/detect_changes.py:216-232 | a stopping outcome runs no detection and writes nothing; a `GITHUB_OUTPUT` file that cannot be opened ends the run with status 1 and nothing written; otherwise the detector's dictionary is written with the version and the status is 0 |

## Left out

- Subprocesses: `git rev-parse`, `git ls-tree`, `git archive`, `tar` and the
  pipe between the last two are not run. Their results are inputs. `git ls-tree`
  and `git archive` get their commit and module name in the source, but the
  model's results are given per loop position, not derived from those arguments.
- Filesystem: the effects of `os.walk`, `os.makedirs`, `os.path.exists` and
  reading are inputs. Left out as well: creating `/tmp/base_modules` and
  `/tmp/head_modules`, and the `shutil.rmtree` cleanup. Files left behind in
  an extraction directory by an earlier module are left out too; the world
  gives each directory's final contents.
- SHA-256 internals: the hash is a parameter. No collision resistance is
  assumed, so "different contents give different digests" is not stated.
- JSON: `json.dumps` is a parameter. The payload is modelled as objects nested
  three deep, ending in a string or `null`. Other shapes are left out, and the
  source treats them differently. A top level or an intermediate level that is
  not an object makes `.get` raise `AttributeError`. A `sha` leaf that is a
  number or `true` makes the sentinel test raise `TypeError`. A falsy leaf such
  as `0`, `false`, `[]` or `{}` passes the sentinel test unchanged, and
  extraction then fails for it. A list such as `["0"]` counts as the sentinel.
  Errors opening the event file other than `JSONDecodeError` are left out as
  well; in the source they propagate.
- `print` logging, the closing summary print of `main`, and `sys.exit`: exit
  is the status an `Outcome` or `RunDetector` carries.
- `argparse`: a missing required flag (exit status 2 and a usage message) is
  left out. `MainWithFlags` starts from the two flag values.
- Text decoding: `text=True` output of `git rev-parse` is taken as already
  decoded. Python `str` values are Dafny strings of Unicode scalar values.
  Lone surrogates are not represented.
- `Fingerprint.RenameKeepsDigest`: a rename is stated for a folder with one
  file. The general rename statement is `Fingerprint.StreamIsContentOnly`,
  for listings whose contents line up position by position.
