# Augmentry SDK release tooling, modelled in Dafny

This project models the version handling of the Augmentry Python SDK's
release scripts and proves properties of it.

- `release.py` reads the package version from `augmentry/__init__.py` and
  bumps its patch number. It then rewrites the version text in
  `augmentry/__init__.py`, `setup.py` and `pyproject.toml`, and goes on to
  build only if all three rewrites succeeded.
- `upload_to_pypi.py` checks that the files present all carry version
  `1.0.2`, and calls `upload_to_pypi()` only if they do. That function
  validates the built package and prints the `twine upload` commands; it
  does not upload anything itself.

Files:

- `strings.dfy`: module `Wrappers` (the `Option` type) and module `Strings`.
  `Strings` holds the Python `str`/`int` operations the scripts use: `in`,
  `str.replace`, `str.endswith`, `str.split`, `int()` on digit strings, and
  `str()` of a natural number.
- `release.dfy`: module `Release`. It holds `increment_version`,
  `update_version_in_file`, `get_current_version` and `main` as far as the
  build step.
- `upload.dfy`: module `Upload`. It holds `check_version_consistency` and the
  gate in `main`, plus lemmas that connect the release tool's output to the
  upload check.

The working directory is a `map<string, string>` from path to content. A path
that is not a key is a missing file. Reading a file is a lookup, and a write
is the updated map or the content returned. `update_version_in_file` returns
`Update(ok, file)`: the boolean the script returns, and the file's content
afterwards. A raised `ValueError` from `int()` or from unpacking the split
becomes `None` (in `IncrementVersion`) or the `MalformedVersion` outcome (in
`RunRelease`).

The regular expression `__version__ = "([^"]+)"` of `get_current_version` is
modelled as a leftmost scan. A match at `k` is the literal prefix, then a
non-empty greedy run of non-quote characters, then a quote. The capture is
that run. `[^"]` also matches newlines, so the run stops at a quote or at the end of the text; only the first is a match.

## Model

| member | source | states |
|---|---|---|
| `Strings.Contains` | release.py:50 | Python's `in`: the empty text occurs in every text, and a text longer than `s` never occurs in `s` |
| `Strings.EndsWith` | release.py:38-44 | `endswith` holds exactly when the text is some text followed by the suffix |
| `Strings.ReplaceAll` | release.py:51 | `str.replace` with a replacement as long as the pattern keeps the text's length; `ReplaceAbsent`, `ReplaceAtFirst`, `ReplacePresent` and `ReplaceIdentity` characterise it further |
| `Strings.ReplaceAbsent` | release.py:51 | `str.replace` with a pattern that does not occur returns the text unchanged |
| `Strings.ReplaceAtFirst` | release.py:51 | `str.replace` leaves everything before the first occurrence as it is, puts the replacement there, and handles the rest on its own (left-to-right, non-overlapping) |
| `Strings.ReplacePresent` | release.py:50-51 | if the pattern occurs, the replacement text occurs in the result |
| `Strings.ReplaceIdentity` | release.py:51 | replacing a pattern by itself is the identity |
| `Strings.Split` | release.py:62 | `str.split` always gives at least one field |
| `Strings.SplitWithoutSep` | release.py:62 | a text without the separator splits into one field, itself |
| `Strings.SplitAtSep` | release.py:62 | a separator-free first field is split off intact before the rest is split |
| `Strings.ParseNat` | release.py:62 | `int()` on a field succeeds exactly when the field is a non-empty run of decimal digits |
| `Strings.NatToString` | release.py:74 | a printed number is never empty and starts with `0` only when it is 0 (no leading zeros) |
| `Strings.NatToStringParses` | release.py:74 | printing a number gives a digit string that `int()` reads back as that number |
| `Strings.NatToStringHasNoDot` | release.py:74 | a printed number contains no `.`, so the three printed fields split apart again |
| `Release.ParseVersion` | release.py:62 | parsing succeeds exactly when the text splits on `.` into exactly three all-digit fields; the numbers are those fields' `int()` values |
| `Release.FormatVersion` | release.py:74 | splitting `f"{major}.{minor}.{patch}"` on `.` gives back exactly the three printed numbers |
| `Release.FormatThenParse` | release.py:74 | `f"{major}.{minor}.{patch}"` parses back to the same three numbers |
| `Release.FormatVersionQuoteFree` | release.py:74 | a formatted version is non-empty and contains no quote, so `get_current_version` can read it back |
| `Release.Bumped` | release.py:64-72 | `major`/`minor`/`patch` give a version of higher Semantic Versioning precedence; `major` raises MAJOR and `minor` changes MAJOR.MINOR; any other part string gives the same version |
| `Release.IncrementVersion` | release.py:60-74 | fails exactly when parsing fails; otherwise it returns the formatted bump (major resets minor and patch, minor resets patch, patch adds one, any other part changes nothing), and the result parses back to the bumped numbers |
| `Release.PatchBumpIsSuccessor` | release.py:71-72 | the patch bump is the immediate successor: no version lies strictly between |
| `Release.MinorBumpIsLeast` | release.py:68-70 | no version that changes MAJOR.MINOR lies below the minor bump, so patch is reset; with `Bumped`'s contract (the minor bump does change MAJOR.MINOR) it is the least such version |
| `Release.MajorBumpIsLeast` | release.py:64-67 | no version with a larger MAJOR lies below the major bump, so minor and patch are reset; with `Bumped`'s contract (the major bump raises MAJOR) it is the least such version |
| `Release.KindOf` | release.py:38-48 | the choice of pattern by file name; its contract is stated by `KindOfByName` |
| `Release.KindOfByName` | release.py:38-48 | a path is of a kind exactly when it ends with that kind's file name; no path ends with two of the names, so the order of the tests does not matter |
| `Release.VersionPattern` | release.py:38-46 | each kind's version text ends with the version and then a closing quote, so it is longer than the version and never empty |
| `Release.UpdateVersionInFile` | release.py:28-58 | a missing file gives False and no file. An unknown suffix gives False with the content untouched. On any failure nothing is written |
| `Release.UpdateSucceeds` | release.py:38-55 | success happens exactly when the file exists, has a known suffix and contains the old pattern. On success every occurrence is replaced and the new pattern is present |
| `Release.UpdateToSameVersion` | release.py:50-55 | rewriting a version to itself leaves any file as it was |
| `Release.RunEnd` | release.py:25 | the greedy `[^"]+` run: every character before its end is not a quote, and it ends at a quote or at the end of the text |
| `Release.MatchAt` | release.py:25 | a match needs room for the literal prefix, at least one character and the closing quote |
| `Release.Capture` | release.py:25-26 | the captured group is non-empty and contains no quote |
| `Release.FirstMatch` | release.py:25 | `re.search` gives the leftmost matching position, with no match before it; `None` means no position matches |
| `Release.MatchIsPattern` | release.py:25 | a match captures a non-empty quote-free text `v` and is an occurrence of `__version__ = "v"` |
| `Release.PatternIsMatch` | release.py:25 | every occurrence of `__version__ = "v"` with non-empty quote-free `v` is a match capturing `v` |
| `Release.MatchLocal` | release.py:25 | whether the expression matches at `k` depends only on the text up to the first quote after the literal prefix |
| `Release.GetCurrentVersion` | release.py:17-26 | a missing file gives `None`. A version found is non-empty, quote-free, and occurs as `__version__ = "<version>"` at a place before which no such text occurs for any well-formed version. If nothing is found, no such text occurs anywhere |
| `Release.FirstMatchLeftmost` | release.py:25 | no `__version__ = "v"` text with non-empty quote-free `v` starts before the first match |
| `Release.NoMatchNoPattern` | release.py:25-26 | no match means no `__version__ = "v"` text for any non-empty quote-free `v` |
| `Release.FirstMatchIsFirstOccurrence` | release.py:25 | the first match is the first occurrence of the version text it captures |
| `Release.RewrittenAgrees` | release.py:50-51 | writing the new `__init__.py` text at a match keeps the text up to its opening quote |
| `Release.RewrittenFirstMatch` | release.py:25-26 | after the new text replaces the first match, the first match is at the same place and captures the new version |
| `Release.UpdateThenGetVersion` | release.py:38-51 | if `get_current_version` reads `old` from an `__init__.py`, then rewriting it to a non-empty quote-free `new` succeeds, and `get_current_version` reads `new` afterwards |
| `Release.StandardPathKinds` | release.py:150-154 | the three paths of `files_to_update` get the `__init__.py`, `setup.py` and `pyproject.toml` patterns respectively |
| `Release.Lookup` | release.py:20-24 | reading a path: its content, or `None` for a path that is not in the directory (no contract of its own) |
| `Release.UpdateAll` | release.py:156-159 | the update loop as a function of the directory; its contract is stated by `UpdateAllPerFile` and `UpdateAllStep` |
| `Release.UpdateAllPerFile` | release.py:156-159 | the update loop attempts every path even after a failure. Each file ends as its own update leaves it, other files are untouched, and the accumulated flag is true exactly when every update succeeded |
| `Release.UpdateAllStep` | release.py:157-159 | one loop turn applies the next path's update to the directory so far and ands its result into the flag |
| `Release.UpdateFiles` | release.py:156-159 | the `for` loop over `files_to_update` ends with the directory and flag that `UpdateAll` describes |
| `Release.ReleaseLoopEffect` | release.py:145-159 | once the next version is the patch bump of the version read, the loop leaves each file as its own update does, its flag says whether all succeeded, and `__init__.py` then reads as the new version |
| `Release.RunRelease` | release.py:119-163 | stops without writing when no version is found or it does not parse. Otherwise the next version is exactly `f"{major}.{minor}.{patch + 1}"` of the current one, every file is attempted, and each ends as its own update leaves it. It is ready to build exactly when all three updates succeeded. `__init__.py` then reads as the new version, even on a failed run (there is no rollback) |
| `Upload.Passes` | upload_to_pypi.py:80-87 | an absent file passes; a present file shorter than the expected text never passes |
| `Upload.CheckVersionConsistency` | upload_to_pypi.py:74-112 | consistent exactly when every present file holds its `1.0.2` text. Otherwise it returns the first present file, in the order `__init__.py`, `setup.py`, `pyproject.toml`, that lacks its text, having passed every earlier file |
| `Upload.MismatchNeedsFile` | upload_to_pypi.py:80-102 | an absent file never stops the check; with all three files absent the check passes |
| `Upload.UploadMain` | upload_to_pypi.py:114-127 | `upload_to_pypi()` is called exactly when every present file holds its `1.0.2` text |
| `Upload.Expected` | upload_to_pypi.py:83-105 | kind by kind, the literal the check looks for is the text the release tool writes for version 1.0.2 |
| `Upload.UpdatedFilePasses` | upload_to_pypi.py:83-109 | a file that `update_version_in_file(path, old, "1.0.2")` rewrote successfully passes its consistency check |
| `Upload.ListedFilePasses` | upload_to_pypi.py:80-109 | after a release loop that rewrote all three files to 1.0.2, each of them passes its own check |
| `Upload.ReleaseThenUpload` | upload_to_pypi.py:111-112 | a release loop that rewrote all three files to 1.0.2 leaves a directory on which the check passes, so `upload_to_pypi()` is called |

## Left out

- The SDK client itself (`AugmentryClient` / `SyncAugmentryClient`) is not part of this model. The example scripts under `examples/` only call it over the network, use interactive input, and sort and aggregate floating-point figures.
- `run_command`, `build_package`, `validate_package` and most of `upload_to_pypi` are left out. They run external processes (`python -m build`, `twine`) and list or delete directories. `RunRelease` stops at `ReadyToBuild`, the point where `build_package` would be called. `UploadMain` stops at `UploadStepReached`, the point where `upload_to_pypi()` is called; what that function does (checking `dist/`, `twine check`, printing the upload commands) is not part of this model.
- Printing, `os.chdir` and real file I/O are left out. Files are map entries, and both scripts see the same directory.
- Python's text-mode newline translation on read and write is not modelled. The file content is taken as read.
- `ParseVersion`, `ParseNat`: accept only ASCII-digit fields. Python's `int()` also accepts a sign, surrounding whitespace, underscores between digits and non-ASCII decimal digits, so the model rejects some inputs that the script accepts.
- `ParseVersion`, `FormatVersion`: numbers are unbounded. Python limits the conversion between `int` and decimal text to 4300 digits by default, so `int()` in `increment_version` (release.py:62) raises `ValueError` on a longer field, and the f-string (release.py:74) fails on such a number; the model accepts both.
- `GetCurrentVersion`: models only the one fixed regular expression, not a general regex engine.
- `Strings.ReplaceAll`: models `str.replace` only for a non-empty pattern. Every pattern the scripts use is non-empty.
- The interactive menu in `main` (options 2–4) is printed but never read. The script always bumps the patch number, and so does the model.
