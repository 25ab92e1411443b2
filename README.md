# NFun NuGet release script, modelled in Dafny

`deploy_nuget.py` releases the NFun library to nuget.org. It reads the
current `<Version>` from `src/NFun/NFun.csproj`, asks for a new version,
release notes and a confirmation, shows a preview of the package metadata,
writes the new version and notes into the project file, then runs
`dotnet clean`, `restore`, `build` and `pack`, picks the produced package and
pushes it with the key from `NUGET_API_KEY`.

This project models that script in Dafny and proves what it promises:

- **Tag lookup** (`TagSearch`, `Manifest`). The lookup is `re.search(r'<T>(.*?)</T>')`:
  leftmost, non-greedy, and `.` stops at line breaks. It is modelled as
  structural recursion (`Search`). It is proved equal to a reference
  definition by positions (`PairAt`, `FirstPair`): the leftmost opening tag
  with a closing tag after it on its line, closed by the nearest one. A
  search over a text is the search over its first line that holds a pair.
- **Tag rewrite** (`TagReplace`). The rewrite is `re.sub(r'<T>.*</T>', ...)`:
  greedy, applied to every match, with `.` stopping at line breaks. It is
  modelled as `ReplaceAll`. It is proved equal to rewriting each line from
  its first opening tag to the end of its last closing tag (`RewriteLine`).
- **Round trip** (`RoundTrip`). After `update_csproj_file` writes version
  `v`, `get_current_version` reads back exactly `v`. Lines holding neither
  tag pair are left unchanged.
- **Artifact selection** (`Artifacts`). The main package is the first
  `.nupkg` (not `.snupkg`) entry that mentions `NFun`. The symbol package is
  optional. The `.snupkg` exclusion never removes anything, because no name
  ends in both suffixes.
- **Pipeline** (`Pipeline`). This is a method proved equal to a reference
  function `Outcome`:
  - the first failing stage ends the run with 1, and nothing after it runs;
  - a missing package ends the run with 1;
  - an empty API key ends the run with 1 and nothing is pushed;
  - otherwise the push's own exit code is the result.
- **Driver** (`Driver`). This is `main`:
  - an unreadable version, a blank version or blank notes give 1, and the
    file is not touched;
  - anything but `y`/`Y` at the confirmation gives 0, and the file is not
    touched;
  - otherwise the file is updated and the pipeline's result is returned.

  The preview's package id falls back to `Himmelt.NFun`.

The project file is a `Workspace` object whose `manifest` field holds the
text, or `None` when the file is missing or unreadable. The package record is
a `PackageInfo` object whose fields are set one by one. The shell is a
function `run` from commands to exit codes. The listing of the output
directory, the API key and the console answers are parameters.

## Notes on the code

- Both substitutions in `update_csproj_file` use the greedy `.*`, and
  `re.sub` replaces every match on every line.
- A failing clean, restore, build or pack stage returns 1, not the command's
  own exit code. Only the push's exit code is passed through.
- An empty `NUGET_API_KEY` is refused just like a missing one.

## Model

| member | source | states |
|---|---|---|
| `TagSearch.LazyGroupSpec` | deploy_nuget.py:41 | The group `(.*?)` followed by the closing tag: the shortest newline-free prefix that is followed by the closing tag. If there is none, no prefix up to the first line break is followed by the closing tag. |
| `TagSearch.MatchHereSpec` | deploy_nuget.py:41 | A match that starts at position 0 is the first pair there, closed by the nearest closing tag. If there is none, no pair starts at 0. |
| `TagSearch.SearchNone` | deploy_nuget.py:41-46 | The search finds nothing exactly when no opening tag has a closing tag after it on the same line. |
| `TagSearch.SearchWitness` | deploy_nuget.py:41-43 | When the search finds something, the result is the text between the leftmost pair's opening tag and the nearest closing tag after it. |
| `TagSearch.SearchSpec` | deploy_nuget.py:41-43 | A found value is the text of the first pair in the reference sense. |
| `TagSearch.SearchValueShape` | deploy_nuget.py:41-43 | A found value never contains a line break or the closing tag. |
| `TagSearch.SearchByLines` | deploy_nuget.py:41 | Searching a text gives the result of its first line that holds a pair, or nothing. |
| `TextLines.UnlinesLines` | deploy_nuget.py:118 | Splitting a text at its line breaks and joining the lines again gives the text back. |
| `TextLines.LinesUnlines` | deploy_nuget.py:118 | Joining newline-free lines and splitting the result again gives the lines back. |
| `TagReplace.GreedyMatchLine` | deploy_nuget.py:118 | On a line that starts with the opening tag, the greedy match runs to the end of the line's last closing tag, if that tag comes after the opening one. |
| `TagReplace.ReplaceLine` | deploy_nuget.py:118 | Substituting over a line followed by a line break rewrites that line from its first opening tag to its last closing tag, then continues after the break. |
| `TagReplace.ReplaceByLines` | deploy_nuget.py:118-122 | Substituting over a whole text equals rewriting every line on its own and joining the lines. |
| `TagReplace.LinesOfReplaceAll` | deploy_nuget.py:118-122 | With a replacement that has no line break, the lines of the result are the rewritten lines, one for one. |
| `Manifest.LookupSpec` | deploy_nuget.py:63-101 | Each metadata lookup finds something exactly when the file was read and holds a pair for that tag. The value found is that first pair's text, with no line break and no closing tag in it. |
| `Manifest.GetCurrentVersion` | deploy_nuget.py:28-50 | Success exactly when the file was read and holds a version pair. On success the result is the first pair's text. Otherwise the result is the sentinel "未知". |
| `Manifest.PackageInfo.constructor` | deploy_nuget.py:14-25 | A new record has every one of its ten fields set to the sentinel. |
| `Manifest.GetPackageInfo` | deploy_nuget.py:53-106 | Gives a fresh record. Each field holds its tag's first value, or the sentinel when the tag is missing. When the file cannot be read, every field is the sentinel. |
| `Manifest.Workspace.UpdateCsprojFile` | deploy_nuget.py:109-128 | Fails, leaving the file alone, exactly when there is no file. Otherwise the new content is the version substitution followed by the notes substitution. |
| `RoundTrip.NotesRewriteAddsNoVersion` | deploy_nuget.py:121-122 | When the notes hold no `<`, rewriting the release notes on a line never creates a version pair there. |
| `RoundTrip.VersionLine` | deploy_nuget.py:118 | When the new version has no line break and no `<`, the first version pair of a line that held one holds the new version after the substitution. |
| `RoundTrip.VersionRewriteAddsNoNotes` | deploy_nuget.py:118-122 | When the new version holds no `<` and a version line has no release-notes opening tag, the notes substitution leaves that line as the version substitution left it. |
| `RoundTrip.VersionRoundTrip` | deploy_nuget.py:109-122 | After the update writes version `v` into a file that had a version, `get_current_version` returns `(v, True)`. |
| `RoundTrip.UpdateKeepsOtherLines` | deploy_nuget.py:118-122 | When neither the version nor the notes has a line break, the update keeps the number of lines, and a line without a version pair or a notes pair keeps its text. |
| `Artifacts.SymbolExclusionRedundant` | deploy_nuget.py:206-207 | A name passes the package filter exactly when it ends in `.nupkg`. A `.snupkg` name never does. |
| `Artifacts.Filter` | deploy_nuget.py:206-207 | The comprehension keeps exactly the entries that pass the test, and never grows the list. |
| `Artifacts.FilterHead` | deploy_nuget.py:228 | The first entry a comprehension keeps is the first entry of the listing that passes the test. |
| `Artifacts.FilterTwiceHead` | deploy_nuget.py:214-220 | The first entry kept by two comprehensions in a row is the first entry that passes both tests. |
| `Artifacts.SelectionFailures` | deploy_nuget.py:200-218 | Three failures, each exactly when its condition holds: no directory, no package archive, and package archives none of which mentions NFun. |
| `Artifacts.SelectedMain` | deploy_nuget.py:213-221 | The main package is the first entry that is a package archive mentioning NFun. It ends in `.nupkg` and never in `.snupkg`. |
| `Artifacts.SelectedSymbol` | deploy_nuget.py:223-231 | A symbol package is found exactly when some entry is an NFun `.snupkg`, and it is the first such entry. |
| `Pipeline.StageLines` | deploy_nuget.py:172-194 | Each of the four lines names the project right after its `dotnet` command. Clean, build and pack use the Release configuration. Pack ends with the output directory and `--no-build`. |
| `Pipeline.PushLine` | deploy_nuget.py:244 | The push line holds the package path in double quotes, then `--api-key` and the API key, and ends with `--source` and nuget.org. |
| `Pipeline.FirstFailing` | deploy_nuget.py:170-196 | The index of the first stage with a non-zero exit code: every earlier stage returned 0. |
| `Pipeline.BuildTestPackAndPublish` | deploy_nuget.py:160-252 | Its exit code and the commands it issues are those of the reference `Outcome`. |
| `Pipeline.StageFailureStops` | deploy_nuget.py:170-196 | The first failing stage ends the pipeline with 1, right after that stage, and nothing is pushed. |
| `Pipeline.MissingPackageStops` | deploy_nuget.py:198-218 | When every stage passed, a missing directory or no usable package ends the pipeline with 1 after the four stages. |
| `Pipeline.NoKeyNoPush` | deploy_nuget.py:236-240 | With an empty API key the result is 1 and no push command is issued. |
| `Pipeline.PushResultPropagated` | deploy_nuget.py:242-252 | Every command before the last returned 0. A push, if any, is last, with the selected package, the key and nuget.org, and its exit code is the result. |
| `Pipeline.SuccessMeansPublished` | deploy_nuget.py:244-252 | A result of 0 means all four stages and the push of the selected package returned 0. |
| `Driver.TrimStart` | deploy_nuget.py:273 | Drops exactly the leading whitespace. |
| `Driver.TrimEnd` | deploy_nuget.py:279 | Drops exactly the trailing whitespace. |
| `Driver.StripSlice` | deploy_nuget.py:273 | `strip()` gives a slice of the input with only whitespace outside it and, unless empty, no whitespace at either end. |
| `Driver.BlankIffAllSpace` | deploy_nuget.py:273-281 | An answer is refused as blank exactly when every character in it is whitespace. |
| `Driver.Lower` | deploy_nuget.py:316 | Keeps the length and lower-cases ASCII capitals. |
| `Driver.ConfirmedIff` | deploy_nuget.py:314-318 | Only `y` and `Y` confirm the release. |
| `Driver.PreviewPackageId` | deploy_nuget.py:304 | The previewed id is never the sentinel. It equals the id found exactly when that id is not the sentinel, and it is `Himmelt.NFun` when it is. |
| `Driver.PreviewMatchesFilters` | deploy_nuget.py:305-306 | The previewed main file name is a package archive and the symbol file name ends in `.snupkg`. |
| `Driver.FallbackPreviewNames` | deploy_nuget.py:304-306 | With the fallback id, the previewed names are `Himmelt.NFun.{version}.nupkg` and `Himmelt.NFun.{version}.snupkg`. |
| `Driver.FallbackPreviewMentionsNFun` | deploy_nuget.py:304-306 | With the fallback id, both previewed names pass the NFun filters. |
| `Driver.ExitStatus` | deploy_nuget.py:339 | The status of `sys.exit(code)` is in 0..255, agrees with the code modulo 256, and equals it when the code is already in range. |
| `Driver.PipelineStatus` | deploy_nuget.py:325-339 | After a confirmed release, the process status is the push's exit code modulo 256 when the push ran, and 1 otherwise. |
| `Driver.Release` | deploy_nuget.py:255-335 | An unreadable version, or a blank version or notes answer, gives 1 with no commands and no preview, and leaves the file unchanged. Otherwise the preview shows the package id (or the fallback) and the entered version. A declined confirmation then gives 0 and leaves the file unchanged. A confirmed release writes the updated text, and the exit code and commands are the pipeline's. |

The functions the rows above are proved about stand for these source lines:

- `TagSearch.Search` stands for the lookups at deploy_nuget.py:41 and 63-99.
- `TagReplace.ReplaceAll` stands for the substitutions at lines 118 and 121-122.
- `Manifest.UpdatedManifest` stands for both substitutions in order (lines 118-122).
- `Artifacts.SelectArtifacts` stands for step 6 (lines 198-231).
- `Pipeline.CommandLine` stands for the command texts at lines 172, 178, 187, 194 and 244.
- `Pipeline.Outcome` stands for the whole of `build_test_pack_and_publish` (lines 160-252).

The process status of the script is `Driver.ExitStatus` applied to the `exit` value of `Driver.Release` (line 339).

## Left out

- Console output and the `print` messages are not modelled. The three `input()` answers are parameters.
- File access is modelled as the workspace's `manifest` value, `None` standing for a missing or unreadable file. UTF-8 decoding is not modelled. `os.path.exists` failing and `open` raising both give `None`.
- `run_command` is the `run` parameter. Subprocess creation, output capture and `asyncio` are not modelled. An exception while starting a command is one more way for `run` to return 1.
- Path construction (`os.path.join`, `abspath`, `dirname`) is not modelled. The project file and the output directory are parameters, and `CommandLine` joins the push path with `/`.
- Both `os.listdir` calls in step 6 see the same listing. A directory that changes between them is not modelled, and neither is an error raised by `os.listdir`.
- The `version` parameter of `build_test_pack_and_publish` is used only in a message and is not modelled.
- The exception handler of `main` (lines 333-335) is not modelled. In the model, `update_csproj_file` cannot fail after `get_current_version` has just read the file, and `run` already turns command errors into exit codes.
- Manifest.Workspace.UpdateCsprojFile: requires the version and the notes to be free of backslashes. `re.sub` expands backslash escapes and group references in its replacement template, and that expansion is not modelled.
- Driver.Release: requires the version and notes answers to be free of backslashes only for a release that passes the gate and is confirmed, because only that path reaches `re.sub`.
- Driver.Lower: lower-cases ASCII letters only. `ConfirmedIff` still describes Python's `lower()`, because only `y` and `Y` lower-case to `y`.
- Driver.ExitStatus: models the POSIX status of `sys.exit`. Other platforms are not modelled.
- RoundTrip.VersionRoundTrip: needs these hypotheses:
  - the new version and the notes have no line break, because a `.` in the patterns does not cross lines;
  - the new version and the notes have no `<`, because, for example, notes holding `<Version>x</Version>` on an earlier line would be read back instead;
  - the line of the first version pair has no `<PackageReleaseNotes>`, because the greedy notes substitution could swallow the new version.
- Manifest.GetPackageInfo: assigns every field unconditionally. A missing tag assigns the sentinel, the value the field already had, so the resulting record is the same as the source's.
- Line-ending translation is not modelled. `open(..., 'r')` turns `\r\n` and `\r` into `\n`, so `manifest` is the translated text. `open(..., 'w')` writes the platform's line separator, so a file with `\r\n` line endings may come back with different ones.
- Python's regular-expression engine is modelled only for the two pattern shapes the script uses.
