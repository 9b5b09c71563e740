# A verified model of a minimal snapshot-based version-control tool

The tool (`vcs.py`) keeps full copies of a working directory under
`.vcs/commits/<id>/`, records each commit in the JSON log
`.vcs/log.json`, restores files from a commit after a yes/no prompt per file,
prints the log, and guards a line diff of one file against one commit.

The model is a state machine over an abstract file system:

- `Model` holds the values: a working file is `Text` (it decodes) or
  `NonText` (reading it in text mode raises `UnicodeDecodeError`); a
  snapshot maps relative paths to the text stored in the commit directory;
  the log file is `Missing`, `ZeroLength` or a `Document` with its list of
  entries.
- `Vcs.Repository` is a class with the fields `working`, `rootExists`
  (whether `.vcs/commits/` exists), `commits` (directory name to snapshot)
  and `log`. Its methods `Init`, `Commit`, `LogCommit` and `Checkout` update
  them as `init`, `commit`, `log_commit` and `checkout` do. `Commit`'s loop
  over the walk lives in `CopyFiles`, and the allocation of the new commit
  directory lives in `NewCommitDirectory`.
- Each method's loop is proved against a function of the inputs:
  - `Snapshots.CopyWalk` is the walk of `commit`, with the ignore test
    `Snapshots.IsIgnored` on the absolute path and the copy of each file;
  - `Checkouts.Restore` is the prompt loop of `checkout`.
  Lemmas about those functions carry the properties.
- `CommitIds` holds `f"{n:04d}"` (`FormatId`) with its parse-back, its width
  and the freshness of the next id.
- `CommitLog` holds the timestamp truncation, the log line and `ShowLog`.
- `Diffs.Diff` holds the two existence guards of `diff`, with the committed
  text as the "from" side and the working text as the "to" side.
- `Strings` holds the pieces of Python's `str` that the tool uses: `strip`,
  ASCII `lower`, `in`, `split(c)[0]` and `replace`.

The environment is a set of parameters:

- the order in which `os.walk` visits files is a sequence of paths;
- the absolute path of the committed directory is a string;
- the clock reading is the timestamp string;
- the answers typed at the prompts are a sequence of strings.

Two behaviours of the code differ from what one might expect of the tool;
the model follows the code:

- A non-text file that `commit` skips still leaves an empty file in the
  commit directory, because the destination is opened before the source
  fails to decode (vcs.py:44). One might expect such files to be left out
  of the snapshot entirely. The model keeps the placeholder:
  - `Snapshots.SkippedFilesLeavePlaceholder` proves it is there;
  - `Diffs.DiffOfSkippedFile` proves that `diff` then fails to decode the
    file instead of reporting it absent;
  - `Checkouts.CommitThenApproveAll` proves that a checkout approving every
    prompt turns such a working file into an empty text file. Text files
    are restored exactly.
- `show_log` prints "No commits yet." only when the log file does not exist
  (vcs.py:96-98). A log holding an empty list prints nothing. A zero-length
  log makes `json.load` raise, even though `log_commit` accepts a
  zero-length log as empty.

## Model

| member | source | states |
|---|---|---|
| Strings.Strip | vcs.py:85 | `str.strip()`: `StripRight` of `StripLeft` |
| Strings.Lower | vcs.py:85 | `str.lower()` on ASCII letters, character by character |
| Strings.IsSubstring | vcs.py:35 | Python's `sub in s`: `sub` is a prefix of some suffix of `s` |
| Strings.ReplaceChar | vcs.py:104 | `str.replace` for one character by another, position by position |
| Strings.StripLeft | vcs.py:85 | the result is the longest suffix not starting with Python whitespace; everything cut off is whitespace |
| Strings.StripRight | vcs.py:85 | the result is the longest prefix not ending with Python whitespace; everything cut off is whitespace |
| Strings.SubstringOfSuffix | vcs.py:35 | a substring of `b` is a substring of `a + b` |
| Strings.SubstringOfPrefix | vcs.py:35 | a substring of `a` is a substring of `a + b` |
| Strings.BeforeFirst | vcs.py:104 | `split(c)[0]` is a prefix without `c` that ends at the first `c` or at the end |
| Strings.BeforeFirstConcat | vcs.py:104 | splitting `a + b` at `c` gives `a` when `c` is not in `a` and `b` starts with `c` |
| Strings.BeforeFirstWhole | vcs.py:104 | splitting a string without the separator gives the whole string |
| Strings.ReplaceCharAbsent | vcs.py:104 | `replace` of a character that does not occur changes nothing |
| Strings.ReplaceCharConcat | vcs.py:104 | `replace` distributes over concatenation |
| CommitIds.FormatId | vcs.py:25 | `f"{n:04d}"`: `str(n)` left-padded with '0' to width 4 |
| CommitIds.DecimalString | vcs.py:25 | `str(n)` is a non-empty string of decimal digits |
| CommitIds.DecimalStringRoundTrip | vcs.py:25 | `str(n)` parses back to `n` |
| CommitIds.LeadingZeros | vcs.py:25 | padding with '0' keeps a digit string's value |
| CommitIds.FormatIdRoundTrip | vcs.py:25 | the padded id is all digits and parses back to the number it was made from |
| CommitIds.FormatIdInjective | vcs.py:25 | different numbers give different ids |
| CommitIds.DecimalStringLength | vcs.py:25 | `str(n)` has at most `k` digits exactly when `n < 10^k` |
| CommitIds.FormatIdWidth | vcs.py:25 | ids have at least 4 characters; exactly 4 iff `n <= 9999`; beyond that they are the unpadded decimal form |
| CommitIds.FirstIds | vcs.py:25 | 1, 2, 42, 9999, 10000 give "0001", "0002", "0042", "9999", "10000" |
| CommitIds.IdsUpToParse | vcs.py:24-25 | every id made for one of the first `n` commits parses to a number in 1..n |
| CommitIds.NextIdFresh | vcs.py:24-25 | the id made from the count `n` plus one is none of the first `n` ids |
| Snapshots.JoinPath | vcs.py:33 | `os.path.join(root, file)` for a relative path below an absolute directory |
| Snapshots.IsIgnored | vcs.py:35 | the path contains ".vcs", ".venv", ".idea" or "vcs.py" anywhere |
| Snapshots.Stored | vcs.py:44-48 | what a copied file holds in the snapshot: its text, or the empty file left when decoding fails |
| Snapshots.CopyStep | vcs.py:33-48 | one file of the walk: skipped if ignored; a text file written and recorded; a non-text file written empty and not recorded |
| Snapshots.CopyWalk | vcs.py:31-48 | the whole walk, one `CopyStep` per walked path in walk order, over the files already in the commit directory |
| Snapshots.IgnoredRelative | vcs.py:33-36 | a relative path containing an ignored substring is skipped under any source directory, in particular everything under `.vcs/` |
| Snapshots.IgnoredDirectory | vcs.py:23-36 | the test is on the absolute path, so a source directory whose own path contains an ignored substring has all files skipped |
| Snapshots.StorePathIgnored | vcs.py:35 | no file under `.vcs/` is ever copied |
| Snapshots.CopyWalkStep | vcs.py:31-48 | walking one more path applies one more copy step |
| Snapshots.CopyWalkSnapshotAt | vcs.py:41-48 | a snapshot path exists exactly for the paths already there and the walked, non-ignored ones; a copied file holds its text or the empty placeholder; other paths keep their old content |
| Snapshots.CopyWalkRecordedAt | vcs.py:43-47 | `committed_files` contains a path exactly when it was walked, not ignored and text |
| Snapshots.CopyWalkAt | vcs.py:31-48 | both of the above for one path |
| Snapshots.IgnoredPathsExcluded | vcs.py:31-36 | no ignored path is written into a fresh commit directory or listed in `committed_files` |
| Snapshots.RecordedFilesMatchSource | vcs.py:43-46 | every recorded path is a text file whose snapshot copy equals it, and every walked, non-ignored text file is recorded |
| Snapshots.SkippedFilesLeavePlaceholder | vcs.py:44-48 | a walked, non-ignored non-text file is not recorded but leaves an empty file in the snapshot |
| Checkouts.Approved | vcs.py:85-86 | the answer, stripped and lower-cased, is "y" |
| Checkouts.Restore | vcs.py:80-92 | the working directory after the prompts in walk order, each approved one writing its snapshot file |
| Checkouts.ApprovedIff | vcs.py:85-86 | an answer approves iff, stripped, it is exactly "y" or "Y" |
| Checkouts.PaddedYesApproves | vcs.py:85-86 | " Y\n" approves |
| Checkouts.WordYesDeclines | vcs.py:85-86 | "yes" does not approve |
| Checkouts.RestoreStep | vcs.py:85-89 | one more prompt writes its file exactly when its answer approves |
| Checkouts.RestoreAt | vcs.py:80-92 | a path gets the snapshot content iff some prompt for it was approved; otherwise it keeps its content or stays absent |
| Checkouts.OnlyApprovedFilesChange | vcs.py:80-92 | declined files and paths outside the snapshot are unchanged, and nothing outside the snapshot is created |
| Checkouts.ApproveAllAt | vcs.py:80-89 | approving every prompt writes every snapshot file and leaves every other path as it was |
| Checkouts.CommitThenApproveAll | vcs.py:80-89 | commit into a fresh directory, then approve every prompt: no file appears or disappears, walked text files come back unchanged, unwalked or ignored files are untouched, walked non-text files become the empty placeholder |
| CommitLog.TruncateTimestamp | vcs.py:104 | the printed timestamp is the part before the first '.', with each 'T' replaced by a space |
| CommitLog.IsoTimestampPrinted | vcs.py:63-104 | an `isoformat()` stamp `<date>T<time>.<fraction>` prints as `<date> <time>` |
| CommitLog.IsoTimestampWithoutFraction | vcs.py:63-104 | an `isoformat()` stamp without fraction, `<date>T<time>`, prints as `<date> <time>` |
| CommitLog.FormatLogLine | vcs.py:105 | the line `<id> - <timestamp> - " <message>"` with the truncated timestamp |
| CommitLog.LogLineFields | vcs.py:104-105 | a log line with a digit id starts with the id up to the first space, is 9 characters longer than its fields, and ends with the message and the closing quote |
| CommitLog.ShowLog | vcs.py:95-105 | no log file gives "No commits yet."; a zero-length log fails to parse; otherwise one formatted line per entry, in log order |
| CommitLog.IdsInOrderAt | vcs.py:24-25 | in a log whose ids are in order, entry `i` has id `FormatId(i + 1)` |
| CommitLog.IdsInOrderAppend | vcs.py:24-25 | appending the entry with the next id keeps the ids in order |
| CommitLog.IdsIncreasing | vcs.py:24-25 | such a log's ids parse to 1, 2, ... and are strictly increasing |
| Diffs.Diff | vcs.py:108-124 | "not in commit" iff the commit or the file in it is missing; "not in working directory" iff only the working file is missing; a non-text working file fails to decode; otherwise the committed text is compared as "committed" against the working text as "working" |
| Diffs.DiffAfterCommit | vcs.py:108-123 | right after a commit, every recorded file compares equal |
| Diffs.DiffOfSkippedFile | vcs.py:108-121 | a skipped non-text file passes the first guard because of its placeholder, then fails to decode |
| Diffs.DiffAfterCheckout | vcs.py:108-123 | a file restored by an approved prompt compares equal |
| Model.Entries | vcs.py:55-59 | the commit list `log_commit` starts from: a zero-length log counts as empty |
| Vcs.CommitKeepsStep | vcs.py:24-71 | on a store and log in step, the next id is fresh, and adding its directory with its log entry keeps them in step |
| Vcs.Repository.Init | vcs.py:10-19 | the commit root exists afterwards; the empty log is written iff there was none; the store and an existing log are unchanged; the invariant is established on a new repository and kept |
| Vcs.Repository.InitTwice | vcs.py:10-19 | a second `init` reports "already initialized" and changes nothing |
| Vcs.Repository.LogCommit | vcs.py:54-71 | a missing log fails before anything is written; otherwise exactly one entry is appended after the earlier ones, and a zero-length log counts as empty |
| Vcs.Repository.CopyFiles | vcs.py:29-48 | the commit directory becomes the walk's snapshot and the recorded list is the walk's `committed_files`; no other directory changes |
| Vcs.Repository.NewCommitDirectory | vcs.py:24-27 | the id is `FormatId(count + 1)`; its directory is created empty, or kept with its files if it exists |
| Vcs.Repository.Commit | vcs.py:22-51 | without a commit root nothing changes; otherwise the directory `FormatId(count + 1)` becomes the walk's snapshot over what it held, and the log gets that id's entry, or is left alone when the log file is missing |
| Vcs.Repository.CommitInStep | vcs.py:22-51 | on a repository whose store and log are in step, a commit always succeeds under the fresh id `FormatId(count + 1)`, adds exactly that directory holding the walk's snapshot, leaves every earlier commit unchanged, appends exactly its entry to the log, and keeps store and log in step |
| Vcs.TwoCommits | vcs.py:22-71 | two commits on a fresh repository get the ids "0001" and "0002", and the log lists both, in that order |
| Vcs.Repository.Checkout | vcs.py:74-92 | an unknown id changes nothing; otherwise the working directory is the snapshot restored for exactly the approved prompts, in walk order; the invariant is kept |

## Left out

- Real file-system calls (`os.walk`, `os.listdir`, `os.makedirs`, `open`, `os.stat`, `os.path`) are left out. The walk order is a parameter, and the committed directory's absolute path is a string parameter.
- Text decoding is left out. A working file is tagged `Text` or `NonText`, and encodings are not modelled.
- Newline translation in text mode is left out. A copied text file is stored exactly as its decoded content.
- `str.lower` applies only to ASCII letters: the only comparison is with "y".
- `difflib.unified_diff`, `splitlines` and the printed diff are left out: `Diffs.Diff` returns both texts and their labels.
- `datetime.now().isoformat()` is left out: the timestamp is a parameter.
- JSON serialisation is left out: the log is a list of records. A parse failure is modelled only for the zero-length file. A log that is malformed in any other way is not modelled.
- `print` output is left out, including the "Commit 000n created" message, except for the log line.
- The argparse command line is left out. It always commits '.', which is the working directory.
- Concurrency is left out: the tool is single-process.
- Vcs.Repository.Commit: requires every walked path to name a working file, standing in for `os.walk` listing the files of the committed directory.
- Vcs.Repository.Checkout: requires `order` to list each file of the commit once and one answer per prompt. End of input at a prompt is not modelled.
- Vcs.Repository.Checkout: commit ids that name a directory other than a commit are not modelled. For example, "" names `.vcs/commits/` itself.
- Diffs.Diff: a target that is a directory rather than a file is not modelled.
- Vcs.Repository.CopyFiles: writes the commit directory once, after the walk, instead of file by file. The model has no abort in the middle of the walk, so the partly written directory is never visible.
- Vcs.Repository.Commit: an error other than `UnicodeDecodeError` while copying is not modelled. Examples are a dangling symlink or an unreadable file, where `open` raises at vcs.py:44. In the source such an error aborts `commit` after the directory was created and earlier files were written. `log_commit` never runs, and the next `os.listdir` counts the partial directory.
- Diffs.Diff: commit ids that name a directory other than a commit are not modelled. For example, `diff("0001/a.txt", "")` finds `.vcs/commits/0001/a.txt` and compares it, where the model reports `NotInCommit`.
