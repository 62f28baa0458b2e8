# Bitbucket-to-GitHub importer with Git LFS: a Dafny model

This project models the core of `bb2gh_importer_lfs.py`, a script that moves
repositories from Bitbucket Cloud to GitHub. It covers three parts of the
script:

- **The large-file step** (`migrate_large_files_to_lfs`) walks the checked-out
  working tree. It selects every regular file strictly larger than 100 MiB
  (104857600 bytes) whose joined path does not contain ".git". When the
  selection is not empty, it issues one fixed git script:
  - `git lfs track <path>` and then `git add <path>` for each selected path, in
    walk order;
  - `git add .gitattributes`;
  - a single `git commit`.

  The first command that fails ends the step, and no error reaches the
  caller. A size query that raises during the walk also ends the step.
  (module `LargeFiles`, file `large_files.dfy`)
- **The repository list** is read as `[line.strip() for line in file if
  line.strip()]`: each line is stripped, and the non-blank results are kept in
  order. (module `RepoList`, file `repo_list.dfy`)
- **The GitHub issue record** built for each Bitbucket issue has:
  - the title, copied;
  - a body made of the raw content (or "") followed by
    `"\n\nImported from Bitbucket. Original ID: <id>"`;
  - the single label "imported".

  (module `Issues`, file `issues.dfy`)

`StringOps` (`string_ops.dfy`) gives the Python string built-ins these parts
rely on: substring containment (`in`), `str.strip()` with Python's whitespace
set, and the decimal rendering of integers. `Wrappers` (`wrappers.dfy`)
holds `Option` and `Result`.

The outside world appears as inputs:

- **The walk.** The file system is what `os.walk(".")` yields: a sequence of
  directories, each with its non-directory names. Each name carries what
  `os.path.isfile` and `os.path.getsize` report for it (not a file, a size,
  or a size query that raises).
- **Running git.** Running a command is a predicate `ok(k)`, which says
  whether the k-th command issued exits with status zero.
- **The list file.** It is given as its text after newline translation.
- **A Bitbucket issue.** Only its `title`, `content.raw` and `id` members are
  given.

`MigrateLargeFilesToLfs` has the source's nested loops: `FindLargeFiles` for
the scan and `TrackLargeFiles` for the script. It is proved equal to the
function `Migration`, and the promised properties are lemmas about
`Migration`.

How the step ends when something goes wrong:

- **A failing git command.** `check=True` turns a non-zero exit into
  `CalledProcessError`. The handler at lines 86-87 of
  `bb2gh_importer_lfs.py` catches it, so the step returns normally after
  issuing that command (report `CommandFailed`). No later command runs.
- **A size query that raises.** An exception from `os.path.getsize` reaches
  the catch-all handler at lines 88-89. The whole step ends before any git
  command is issued (report `ScanError`); the rest of the walk is not
  scanned.
- **Repeated paths.** Nothing is deduplicated. A walk lists each path once,
  so each selected path appears once in the script.

## Model

| member | source | states |
|---|---|---|
| StringOps.Contains | bb2gh_importer_lfs.py:61 | `sub in s` holds exactly when `sub` occurs at some index of `s` |
| StringOps.ContainsInConcat | bb2gh_importer_lfs.py:61 | a substring of either part of a concatenation is a substring of the whole |
| StringOps.MissingCharNotContained | bb2gh_importer_lfs.py:61 | a string lacking some character of `sub` does not contain `sub` |
| StringOps.TrimStartExact | bb2gh_importer_lfs.py:124 | `lstrip` removes a whitespace-only head and leaves a suffix that is empty or starts with a non-space |
| StringOps.TrimEndExact | bb2gh_importer_lfs.py:124 | `rstrip` removes a whitespace-only tail and leaves a prefix that is empty or ends with a non-space |
| StringOps.StripExact | bb2gh_importer_lfs.py:124 | `strip()` leaves the slice of the line between whitespace-only ends; it starts and ends with a non-space; it is empty exactly when the line is all whitespace |
| StringOps.StripOfTrimmed | bb2gh_importer_lfs.py:124 | a non-empty text with non-space ends, surrounded by any whitespace, strips to itself |
| StringOps.StripIdempotent | bb2gh_importer_lfs.py:124 | stripping twice is stripping once |
| StringOps.NatToDecimal | bb2gh_importer_lfs.py:30 | the rendering of a number is a non-empty run of digits with no leading zero: it starts with "0" exactly when the number is 0 |
| StringOps.DecimalRoundTrip | bb2gh_importer_lfs.py:30 | reading back the rendered numeral gives the number |
| LargeFiles.Join | bb2gh_importer_lfs.py:59 | `os.path.join(root, name)` ends with `name` |
| LargeFiles.JoinKeepsExcludedMarker | bb2gh_importer_lfs.py:59-62 | a ".git" in the name, or in the directory when the name is relative, is still in the joined path |
| LargeFiles.EntriesAppend | bb2gh_importer_lfs.py:58-59 | the inner loop lists a directory's files in order: listing two runs of files gives the first run's entries, then the second's |
| LargeFiles.ListingAppend | bb2gh_importer_lfs.py:57-58 | the listing of consecutive parts of a walk is the concatenation of their listings |
| LargeFiles.ListingStep | bb2gh_importer_lfs.py:57-58 | one more pass of the outer loop appends the next directory's files, in order, to the listing |
| LargeFiles.SelectionAppend | bb2gh_importer_lfs.py:57-67 | selection distributes over concatenation: it neither reorders, drops nor adds paths |
| LargeFiles.SelectionMembership | bb2gh_importer_lfs.py:61-67 | a path is selected exactly when some listed entry with that path is a regular file over the threshold with no ".git" in its path |
| LargeFiles.SelectedAreLarge | bb2gh_importer_lfs.py:61-67 | every selected path has no ".git" in it and belongs to a regular file over 104857600 bytes |
| LargeFiles.ThresholdIsStrict | bb2gh_importer_lfs.py:66-67 | a file of exactly 104857600 bytes is not selected; one of 104857601 bytes is |
| LargeFiles.NothingQualifies | bb2gh_importer_lfs.py:61-62 | entries whose paths all contain ".git" give no selection and no size query, so they cannot raise |
| LargeFiles.MetadataDirectoryIgnored | bb2gh_importer_lfs.py:57-62 | nothing listed under a directory whose path contains ".git" is selected or measured |
| LargeFiles.ExcludedNamesIgnored | bb2gh_importer_lfs.py:59-62 | a file whose own name contains ".git" (.gitignore, .gitattributes) is never selected |
| LargeFiles.ScanRaisesAppend | bb2gh_importer_lfs.py:63-64 | a listing of two parts raises exactly when one of the parts does |
| LargeFiles.ScanStep | bb2gh_importer_lfs.py:58-67 | visiting one more file appends its path to the selection exactly when it qualifies, and makes the scan raise exactly when its size query raises |
| LargeFiles.ScanMeetsRaise | bb2gh_importer_lfs.py:63-64 | a raising size query anywhere in the walk makes the whole scan raise |
| LargeFiles.FindLargeFiles | bb2gh_importer_lfs.py:54-68 | the nested loops return the selection of the whole walk in walk order, or nothing when a size query raised |
| LargeFiles.TrackAndAdd | bb2gh_importer_lfs.py:74-77 | for n paths, 2n commands: command 2j tracks path j and command 2j+1 stages it |
| LargeFiles.Plan | bb2gh_importer_lfs.py:74-83 | no commands for an empty selection; otherwise 2n+2 commands: track and stage each path in order, stage ".gitattributes", then commit |
| LargeFiles.PlanCommitsOnceAtEnd | bb2gh_importer_lfs.py:80-83 | a command of the script is a commit exactly when it is the last one |
| LargeFiles.PlanTouchesOnlySelected | bb2gh_importer_lfs.py:74-82 | every path the script tracks, and every path it stages apart from the manifest, is a selected path |
| LargeFiles.FirstFailure | bb2gh_importer_lfs.py:76-83 | the index of the first failing command, with every earlier command succeeding |
| LargeFiles.RunAllSucceed | bb2gh_importer_lfs.py:74-84 | when every command succeeds, the whole script is issued and the step commits |
| LargeFiles.IssueNext | bb2gh_importer_lfs.py:74-83 | issuing the next command of the script keeps what was issued a prefix of the script |
| LargeFiles.RunStopsAt | bb2gh_importer_lfs.py:76-87 | when the last command issued fails, running the script issues exactly those commands and reports that one as failing |
| LargeFiles.TrackLargeFiles | bb2gh_importer_lfs.py:70-87 | it returns at once for an empty selection; otherwise it issues the script command by command and stops right after the first failure |
| LargeFiles.MigrateLargeFilesToLfs | bb2gh_importer_lfs.py:51-89 | the whole step, with the scan and the script, matches `Migration` for every walk and every outcome of the git commands |
| LargeFiles.NoSelectionNoCommands | bb2gh_importer_lfs.py:70-72 | with nothing selected, no command is issued and the step returns early |
| LargeFiles.ScanErrorNoCommands | bb2gh_importer_lfs.py:63-89 | no command is issued exactly when the scan raised or selected nothing; the step reports a scan error exactly when some size query raised |
| LargeFiles.IssuedFollowsPlan | bb2gh_importer_lfs.py:74-87 | the issued commands are a prefix of the script and all but the last succeeded; the step commits exactly when the selection is not empty and the whole script succeeded; a failure names the last command issued, which failed |
| LargeFiles.CommitOnlyAtEnd | bb2gh_importer_lfs.py:80-87 | a commit is issued only as the last command, after the whole script before it succeeded; a failure earlier leaves no commit |
| LargeFiles.CommittedCount | bb2gh_importer_lfs.py:74-84 | a successful step issued exactly 2n+2 commands for n selected paths |
| LargeFiles.TrackedPathsQualify | bb2gh_importer_lfs.py:57-77 | every path tracked or staged, apart from the manifest, belongs to a listed regular file over the threshold with no ".git" in its path |
| LargeFiles.JoinToDot | bb2gh_importer_lfs.py:57-59 | a relative name found at the top of the walk gets the path "./name" |
| LargeFiles.ListingOfTwoFiles | bb2gh_importer_lfs.py:57-59 | a walk of one directory with two files lists them in order under their joined paths |
| LargeFiles.ScanOfTwo | bb2gh_importer_lfs.py:57-68 | the scan of two entries raises when either raises, and otherwise selects the qualifying ones in order |
| LargeFiles.SmallFileSkipped | bb2gh_importer_lfs.py:63-67 | a regular file at or under the threshold is neither selected nor a reason to raise |
| LargeFiles.LargeFileSelected | bb2gh_importer_lfs.py:61-67 | a regular file over the threshold whose path has no "g" in it is selected: a shortcut for literal paths used only by the scenario lemmas; the selection rule is SelectionMembership |
| LargeFiles.ScanSelectsSecond | bb2gh_importer_lfs.py:57-68 | of two entries where only the second qualifies, the scan selects just the second |
| LargeFiles.PlanOfOne | bb2gh_importer_lfs.py:74-83 | the script for one path is track, add, add ".gitattributes", commit |
| LargeFiles.MixedTreeScan | bb2gh_importer_lfs.py:57-68 | of a 10 MiB "a.txt" and a 150 MiB "b.bin", only "./b.bin" is selected |
| LargeFiles.OneLargeFileExample | bb2gh_importer_lfs.py:51-84 | for that tree, with every command succeeding, the step issues track, add, add ".gitattributes" and commit for "./b.bin" |
| LargeFiles.NoLargeFileExample | bb2gh_importer_lfs.py:70-72 | a tree of small files gives no command and no commit |
| RepoList.LineEnd | bb2gh_importer_lfs.py:124 | the first line of the text runs up to and including its first "\n", or to the end |
| RepoList.Lines | bb2gh_importer_lfs.py:124 | the file's lines, joined back, give the text; every line is non-empty; only the last may lack its "\n" |
| RepoList.KeptExact | bb2gh_importer_lfs.py:124 | a line contributes nothing exactly when it is whitespace only, and otherwise exactly its stripped text, which is non-empty with no whitespace at either end |
| RepoList.Names | bb2gh_importer_lfs.py:124 | a bound only: never more names than lines (which names, and in which order, is stated by NameSource, NameOfLine, NamesMembership and NamesAppend) |
| RepoList.NamesAreTrimmed | bb2gh_importer_lfs.py:124 | every name is non-empty and neither starts nor ends with whitespace |
| RepoList.NamesAppend | bb2gh_importer_lfs.py:124 | the names of two blocks of lines are the names of the first, then those of the second |
| RepoList.BlankLineDropped | bb2gh_importer_lfs.py:124 | a whitespace-only line contributes nothing, wherever it is |
| RepoList.NameSource | bb2gh_importer_lfs.py:124 | every name is the stripped text of some line |
| RepoList.NameOfLine | bb2gh_importer_lfs.py:124 | every line that does not strip to nothing gives a name |
| RepoList.NamesMembership | bb2gh_importer_lfs.py:124 | a name is listed exactly when some line strips to it and it is not empty |
| RepoList.BodyHasNoBreak | bb2gh_importer_lfs.py:124 | a line holds no "\n" before its last character |
| RepoList.StrippedLineHasNoBreak | bb2gh_importer_lfs.py:124 | a stripped line has no line break left |
| RepoList.NoNewlineInNames | bb2gh_importer_lfs.py:124 | no repository name contains a line break |
| RepoList.LineEndAfter | bb2gh_importer_lfs.py:124 | a text starting with a name and "\n" has a first line ending right after that "\n" |
| RepoList.LinesCons | bb2gh_importer_lfs.py:124 | such a text is read as that line followed by the lines of the rest |
| RepoList.KeptOfWrittenName | bb2gh_importer_lfs.py:124 | a trimmed name written as a line is read back as that name |
| RepoList.RepoNamesCons | bb2gh_importer_lfs.py:124 | a text that starts with a trimmed name on its own line lists that name first, then the names of the rest |
| RepoList.ListTextRoundTrip | bb2gh_importer_lfs.py:124 | writing trimmed names without line breaks one per line and reading the file back gives the same names in the same order |
| Issues.IdText | bb2gh_importer_lfs.py:30 | the rendered id ("None" or a numeral) contains no space |
| Issues.BuildIssueData | bb2gh_importer_lfs.py:28-32 | building fails exactly when `content` is not an object or its `raw` is not a string; otherwise the title is copied, the labels are exactly ["imported"], and the body ends with the footer naming the id |
| Issues.AfterLastSpace | bb2gh_importer_lfs.py:30 | the text after the last space is a space-free suffix, preceded by a space when shorter than the whole |
| Issues.AfterLastSpaceOf | bb2gh_importer_lfs.py:30 | space-free text placed after a space is exactly what follows the last space |
| Issues.IdTextRoundTrip | bb2gh_importer_lfs.py:30 | reading back the rendered id gives the id, "None" included |
| Issues.IssueDataRoundTrip | bb2gh_importer_lfs.py:28-32 | from a built record's body, the footer gives back the issue's id, and cutting the footer off gives back the raw content ("" when missing) |

## Left out

- File-system access (`os.walk`, `os.path.isfile`, `os.path.getsize`) is not performed. Its results are inputs: the walk, and each name's probe. The order `os.walk` lists directories and names in is taken as given.
- Running git (`subprocess.run`) is not performed. Each command's exit status is the input `ok`. The contents `git lfs track` writes into `.gitattributes`, and how git treats a path tracked twice, are outside the model.
- The progress and error messages (`print`) are left out, and so is the MiB figure computed with float division for them. Which handler caught an error appears only as the `Report` value.
- `migrate_issues` beyond the record: the HTTP GET of the issue list, `raise_for_status`, the POST to GitHub and the status-201 check are network I/O and are left out. The loop over issues is also left out. A `BuildError` stands for the exception that abandons the remaining issues of the repository.
- Issues.BuildIssueData: only string or missing titles and integer or missing ids are modelled. A title of another JSON type is copied unchanged by the code; an id of another type is rendered by Python's `str`, which the model does not cover. An issue that is not a JSON object is also not modelled.
- `main` beyond line 124 (opening and decoding the list file, the per-repository loop), `clone_and_migrate`, `configure_git_lfs` and the credential constants are not part of this model: they are sequences of external commands with no logic of their own.
- RepoList.Lines: the text is taken after universal-newline translation, so "\r\n" and "\r" endings are already "\n".
- File names are taken to be valid Unicode text. On POSIX, `os.walk` can yield a name with lone surrogates, standing for bytes that are not valid UTF-8. Printing such a name at line 65 can raise `UnicodeEncodeError` under a strict UTF-8 stdout, and the catch-all at lines 88-89 then ends the step with no command issued. A `print` that raises is not modelled: Dafny strings hold only Unicode scalar values, so the model has no input for such a name.
- RepoList.Names: its own contract is only the bound on the number of names. Which names it lists, and in which order, is stated by NameSource, NameOfLine, NamesMembership and NamesAppend.
- StringOps.Strip covers only `str.strip()` with no arguments, using the characters for which `str.isspace()` holds.
