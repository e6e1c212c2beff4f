# Job container tag checker — a Dafny model

This project models `checker.py` of the job container tag checker. The checker is a
CI gate for a Data Manager repository. It reads every `data-manager/manifest-*.yaml`
manifest and collects the job-definition files each one lists under
`job-definition-files`. It then opens each of those files. For every job in the file's
`jobs` mapping, it asks the decoder for the job's image tag and requires that tag to
be a production release tag: two or three dot-separated numbers such as `2024.3` or
`1.0.2`.

The model has four modules:

- `TagRule` (`tag_rule.dfy`) models `VALID_IMAGE_TAG_PATTERN`, the pattern
  `^[0-9]+\.[0-9]+(\.[0-9]+)?$` as `re.match` applies it. `IsVersionTag` splits the tag
  on `.` and asks for two or three non-empty groups of ASCII digits. `MatchesTagPattern`
  also accepts one final `"\n"`, because Python's `$` matches just before a newline that
  ends the string. `ReleaseTagChars` is an independent character-level definition. It
  requires digits and dots only, a digit at each end, no two dots in a row, and one or
  two dots. `VersionTagIffChars` proves the two definitions agree.
- `Manifests` (`manifests.dfy`) models the manifest loop. Each manifest is its path
  plus the value of `job-definition-files`, or `None` when that key is missing.
  `CollectJobDefinitionFiles` is the `+=` loop. `Resolve` is its specification. The
  lemmas show that the result is the in-order concatenation of all the lists, or a
  fatal error that names the first manifest missing the key.
- `JobScan` (`job_scan.dfy`) models the nested loops over job-definition files and
  their jobs. `ScanJobDefinitions` returns at the first invalid tag, where the source
  calls `sys.exit(1)`. `Scan` is its specification.
- `Checker` (`checker.dfy`) models `check()` as a whole. The outcome is `MissingKey`,
  `InvalidImageTag` or `Passed`, and `ExitStatus` maps it to the exit code.

Reading a job-definition file, parsing its YAML and calling `decoder.get_image` on each
job are replaced by one given function, `jobsOf`. For a file name as a manifest lists
it, `jobsOf` returns that file's jobs in mapping order, each as a `Job(name, tag)`.

This revision of `checker.py` stops at the first invalid tag, with `sys.exit(1)` at
line 52; it does not collect several errors. When the manifests list no job-definition
files, the run passes; an empty list is not an error here (lines 39-52). Other
revisions of the program differ on both points and also scan workflow scripts (`.nf`
files). The model follows this file's code.

## Model

| member | source | states |
|---|---|---|
| `TagRule.VersionTagIffChars` | checker.py:25 | Two or three non-empty ASCII-digit groups separated by single dots is exactly the character-level shape: only digits and dots, a digit at each end, no `..`, and one or two dots |
| `TagRule.MatchesTagPatternIffChars` | checker.py:23-25 | The anchored pattern under `re.match` accepts a string exactly when it is a release tag, or a release tag followed by exactly one final newline (Python's `$`) |
| `TagRule.Split` | checker.py:25 | Splitting on `.` gives at least one group, and no group contains a dot |
| `TagRule.JoinSplit` | checker.py:25 | Splitting on `.` loses nothing: joining the groups with `.` gives the original tag back |
| `TagRule.SplitJoin` | checker.py:25 | Splitting the `.`-join of dot-free groups gives those groups back |
| `TagRule.SplitCount` | checker.py:25 | A tag has one more group than it has dots |
| `TagRule.SplitDigits` | checker.py:25 | Every group is made of digits exactly when every character is a digit or a dot |
| `TagRule.SplitNonEmpty` | checker.py:25 | No group is empty exactly when the tag is non-empty, neither starts nor ends with a dot, and has no two dots in a row |
| `TagRule.TwoNumberExampleAccepted` | checker.py:23-25 | The documented two-number tag `2024.3` is accepted |
| `TagRule.ThreeNumberExampleAccepted` | checker.py:23-25 | The documented three-number tag `1.0.2` is accepted |
| `TagRule.FinalNewlineAccepted` | checker.py:25 | `1.2` followed by one newline is accepted, because Python's `$` matches before a final newline |
| `TagRule.NonDigitRejected` | checker.py:25 | Any character other than an ASCII digit or `.` rejects the tag, unless it is a single final newline; Unicode digits are rejected |
| `TagRule.EmptyGroupRejected` | checker.py:25 | A leading dot, a trailing dot (also just before a final newline), or two dots in a row rejects the tag |
| `TagRule.WrongDotCountRejected` | checker.py:25 | A tag with no dot (a single group) or with three or more dots (four or more groups) is rejected |
| `TagRule.ForeignCharacterExamplesRejected` | checker.py:25 | `latest`, `1.2-rc1`, ` 1.2 ` and `1.2` followed by two newlines are rejected |
| `TagRule.EmptyGroupExamplesRejected` | checker.py:25 | `1..2`, `.1.2`, `1.2.` and `1.2.` followed by a newline are rejected |
| `TagRule.GroupCountExamplesRejected` | checker.py:25 | The empty tag, `1` and `1.2.3.4` are rejected |
| `Manifests.CollectJobDefinitionFiles` | checker.py:29-37 | The manifest loop, with its early return on a missing key, computes exactly `Resolve` of the manifests |
| `Manifests.ResolveNamesFirstMissing` | checker.py:31-36 | If manifest `i` is the first without `job-definition-files`, the result is the fatal error naming manifest `i`'s path |
| `Manifests.ResolveAllPresent` | checker.py:29-37 | If every manifest has the key, the result is the concatenation of their lists in manifest order |
| `Manifests.ResolveFailsIffSomeMissing` | checker.py:34-36 | The manifest loop ends fatally exactly when some manifest lacks the key |
| `Manifests.ResolveIgnoresLater` | checker.py:31-36 | Once a manifest without the key is reached, appending any further manifests does not change the result |
| `Manifests.FirstMissing` | checker.py:31-36 | If some manifest lacks the key, there is a first such manifest |
| `Manifests.ConcatLength` | checker.py:37 | The concatenated list is as long as all the lists together, so no name is dropped or de-duplicated |
| `Manifests.ConcatPlaces` | checker.py:37 | Item `j` of list `i` appears in the concatenation at position (total length of lists `0..i-1`) + `j`, so order and duplicates are kept |
| `JobScan.ScanJobDefinitions` | checker.py:41-52 | The nested loops over files and jobs, returning at the first invalid tag, compute exactly `Scan` of the file list |
| `JobScan.ScanJobsPassesIffAllValid` | checker.py:47-52 | One file's scan passes exactly when every job's tag matches the pattern |
| `JobScan.ScanPassesIffAllValid` | checker.py:41-52 | The scan passes exactly when every job in every listed file has a matching tag; an empty file list passes |
| `JobScan.ScanJobsReportsFirstInvalid` | checker.py:47-52 | Within one file, the first job in mapping order whose tag fails is reported, with its name and tag |
| `JobScan.ScanReportsFirstInvalid` | checker.py:41-52 | Over all files, the first failing job in file-then-job order is reported, with its file, name and tag |
| `JobScan.FirstInvalid` | checker.py:41-52 | If some job of a listed file has a failing tag, there is a first such job in file-then-job order |
| `JobScan.ScanReportIsFirst` | checker.py:41-52 | Conversely, a reported invalid tag belongs to a job of a listed file, fails the pattern, and is the first failing job in file-then-job order |
| `JobScan.ScanJobsIgnoresLater` | checker.py:47-52 | After a failing job, adding more jobs to that file does not change the result |
| `JobScan.ScanIgnoresLater` | checker.py:41-52 | After a failing file, adding more files to the list does not change the result |
| `JobScan.ScanReadsOnlyListed` | checker.py:41-45 | Two readers that give the same jobs for every listed file give the same scan result |
| `Checker.Check` | checker.py:27-52 | `check()`, the manifest loop followed by the job scan, computes exactly `Run` |
| `Checker.ExitStatus` | checker.py:27-54 | The exit status is 0 exactly when the run passes, and 1 after a fatal manifest or an invalid tag |
| `Checker.RunPassesIff` | checker.py:27-52 | A run passes exactly when every manifest has the key and every job of every listed file has a matching tag |
| `Checker.RunFatalIff` | checker.py:34-36 | A run ends on a manifest exactly when some manifest lacks the key |
| `Checker.RunStopsAtFirstMissing` | checker.py:31-36 | The fatal error names the first manifest without the key, whatever the job files hold |
| `Checker.RunReportsFirstInvalidTag` | checker.py:41-52 | When all manifests have the key, the run reports the first invalid tag in file-then-job order, with its file and job |
| `Checker.RunReportIsFirst` | checker.py:29-52 | Conversely, a run that reports an invalid tag had every manifest with the key, and the tag is the first failing one of a listed file in file-then-job order |
| `Checker.NoJobDefinitionFilesPasses` | checker.py:39-52 | Manifests that all list no files lead to a passing run: an empty list is not an error |
| `Checker.FatalReadsNoJobFile` | checker.py:31-45 | When a manifest lacks the key, the job files cannot change the outcome, so none is examined |
| `Checker.RunReadsOnlyListedFiles` | checker.py:41-45 | Only the files the manifests list can change the outcome |

## Left out

- Filesystem and YAML input (`glob.glob`, `open`, `yaml.safe_load`, checker.py:30-33 and 44-45) are left out. Manifests are given as parsed values, in discovery order. Job-definition files come through the `jobsOf` function.
- `DefaultMunch` attribute access and `decoder.get_image` (checker.py:46-48) are left out. The decoder is not part of this model. `jobsOf` yields each job's name and the tag the decoder would return.
- `os.path.join(DM_DIR, jd_file)` and the workspace constants (checker.py:16-18 and 43) are host path configuration. A file is identified by its name as the manifest lists it.
- `print` output (checker.py:35, 39, 42 and 51) is not modelled. The process exits are modelled as `Outcome` values and `ExitStatus`.
- `jd_files += manifest["job-definition-files"]` (checker.py:37) extends the list with whatever the value yields when iterated. A `Manifest`'s `seq<string>` stands for those names: a list's items, in order. A scalar string value is split into one-character names, and a mapping contributes its keys; neither case is modelled.
- Python crash paths are not modelled; each would end the run with a traceback. They are: an empty manifest document (`None`) at line 34; a `job-definition-files` value that is null or not iterable (a number or a boolean) at line 37; a list entry that is not a string (YAML `- 1.0` loads as a float) at line 43, where `os.path.join` raises a TypeError; a listed file that does not exist at line 44; a job-definition file without `jobs` at line 47; and a decoder tag that is not a string at line 49.
- Job names are taken as given. The model does not require them to be unique, although a YAML mapping's keys are.
- Scanning workflow scripts (`.nf` files) and accumulating several errors are not part of this revision of `checker.py`, so they are not modelled.
