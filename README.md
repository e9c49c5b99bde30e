# CoveragePool core, modelled in Dafny

CoveragePool collects LCOV coverage data for packages (libvirt in particular) and publishes the
reports. This project models three parts of it and proves properties of the model:

- **The report engine** (`coveragepool/gen_report/report_helper.py`). It covers:
  - rewriting the source paths of a tracefile (`replace_tracefile`);
  - the `genhtml`/`lcov` command lines for generating, merging and converting tracefiles;
  - preparing a build environment: reinstalling packages with yum, unpacking one package
    archive, cloning or pulling a git mirror and copying a working tree from it, applying the
    patches a dist-git `.spec` file names;
  - the libvirt helper that chooses between these.
- **The results spreadsheet** (`coveragepool/upload/google_api.py`). It covers:
  - the bounded retry around every worksheet request;
  - reading the header;
  - appending a row by list or by dictionary;
  - the search-and-update over rows;
  - the diff-only rewrite of the sheet.
- **The upload records** (`coveragepool/upload/models.py`). It covers:
  - the random storage names of uploaded files;
  - the name of a merged tracefile;
  - the clean-up after a record is deleted.

The Dafny modules are:

- **Errors**: `Result`, `Option` and `Status`. These model Python's return-or-raise.
- **Text**: the string operations the code relies on:
  - `in` and `str.replace`;
  - `str.split()`, the splitting `run_cmd` does, and `' '.join`;
  - `os.path.join`;
  - `readlines`/`writelines`;
  - `s[:-1]`.
- **Numerals**: `%d`, `%x` and `%032x`, with their inverses.
- **Host**: the machine as a `Machine` class. Its state is:
  - text files;
  - directory trees (each with a record of where its contents came from);
  - the working directory;
  - the web application's file storage;
  - the log of external steps it has issued.

  The outcome of each external step comes from an oracle, indexed by the step's position in the
  log. So the exact command text the code issues can be observed, and both success and failure
  can be followed.
- **Tracefile**: `CCoverageHelper`.
- **CoverageEnv**: `RpmCoverageEnv`, `Rpm2cpioCoverageEnv`, `prepare_git_repo`, `GitCoverageEnv` and
  `DistGitCoverageEnv`.
- **Libvirt**: `LibvirtCoverageHelper`. It includes the `str.format` of the git tag format with
  positional fields.
- **Sheets**: `GoogleSheetMGR`, as a class. It holds:
  - the worksheet's table;
  - the header;
  - the number of requests made;
  - the log of cell writes carried out.

  The spreadsheet service's reply to each request comes from an oracle.
- **Models**: `content_file_name`, `CoverageReport.save_tracefile` and the two post-delete handlers.

Loops and in-place updates in the source become methods with loop invariants. Each such method is
specified against a function of the old state, and the properties are proved about that
function:
- a `while` with a retry counter;
- the write loops;
- the accumulation of a command;
- the loop over the lines of a `.spec` file.

Behaviour of the code worth noting:

- **Which lines `replace_tracefile` touches.** It changes every line that *contains* `SF:`, not
  only lines that begin with it.
- **What `replace_tracefile` leaves behind.** After it runs, an `SF:` line can still contain the
  old prefix. `str.replace` can create a new occurrence across a seam:
  `"aabb".replace("ab", "a")` is `"aab"`. `Text.ReplaceCanLeaveSource` proves this.
- **Merging.** It is not order-insensitive. `lcov` receives the tracefiles in the order given.

## Model

| member | source | states |
|---|---|---|
| Text.ReplaceAbsent | coveragepool/gen_report/report_helper.py:147-148 | `str.replace` leaves a string without an occurrence of the searched text unchanged |
| Text.ReplaceSelf | coveragepool/gen_report/report_helper.py:148 | replacing a text by itself changes nothing, including the empty search text |
| Text.ReplaceCanLeaveSource | coveragepool/gen_report/report_helper.py:148 | after `replace` the searched text can still occur: `"aabb".replace("ab", "a")` is `"aab"`, which contains `"ab"` |
| Text.SplitLines | coveragepool/gen_report/report_helper.py:141-142 | `readlines` cuts the text into non-empty lines: a line holds no newline before its last character, and every line but the last ends with a newline. `writelines` of them gives the text back |
| Text.SplitJoin | coveragepool/gen_report/utils.py:3-7 | words joined with single spaces are split by `run_cmd` into exactly those words, in order |
| Text.PathJoinShape | coveragepool/gen_report/report_helper.py:74 | `os.path.join(a, b)` ends with `b`; an absolute `b` replaces `a`; otherwise `a` starts the path, and a `/` is put between the two exactly when `a` is non-empty and does not end with `/` |
| Numerals.Numeral | coveragepool/upload/models.py:13 | `%x`/`%d` of a natural number is a non-empty run of digits that reads back as the number |
| Numerals.PaddedHexWidth | coveragepool/upload/models.py:12-13 | `%032x` of a number below 16^32 is exactly 32 digits |
| Numerals.DecimalRoundTrip | coveragepool/upload/models.py:50 | `%d` of any integer, negative ones included, parses back to that integer |
| Tracefile.RewriteLines | coveragepool/gen_report/report_helper.py:144-148 | a full pass keeps the number of lines; a line is changed only when it contains `SF:` and `src`, and then becomes `line.replace(src, tgt)` |
| Tracefile.NoSourceNoChange | coveragepool/gen_report/report_helper.py:139-154 | when no `SF:` line contains `src`, the file is written back byte for byte |
| Tracefile.BlockedLeavesFile | coveragepool/gen_report/report_helper.py:149-151 | with `check_all` off, an `SF:` line holding `tgt` and not `src` makes the call return with the file untouched, even after earlier lines were rewritten in memory |
| Tracefile.RewriteToSelf | coveragepool/gen_report/report_helper.py:144-148 | rewriting to the same prefix changes no line |
| Tracefile.ReplaceTracefile | coveragepool/gen_report/report_helper.py:139-154 | the loop over the lines: the file becomes `RewrittenText` of its old text; a missing file raises and nothing changes |
| Tracefile.GenReportArgs | coveragepool/gen_report/report_helper.py:156-160 | `genhtml` receives the tracefile, `--output-directory` and the directory, then `--ignore-errors source` only when asked |
| Tracefile.GenReport | coveragepool/gen_report/report_helper.py:156-161 | exactly that one command is issued; the call succeeds iff the command does |
| Tracefile.AddArgs | coveragepool/gen_report/report_helper.py:165-166 | two arguments per tracefile, `-a` then the tracefile, in the given order |
| Tracefile.AddOptionsArgs | coveragepool/gen_report/report_helper.py:164-166 | the command accumulated in the loop splits into `lcov` followed by `AddArgs` of the tracefiles |
| Tracefile.MergeCommandArgs | coveragepool/gen_report/report_helper.py:163-168 | `lcov` receives every tracefile once, in order, each after its own `-a`, then `-o` and the output |
| Tracefile.MergeTracefile | coveragepool/gen_report/report_helper.py:163-168 | the loop builds the command option by option; exactly that command is issued and decides the outcome |
| Tracefile.ConvertCommandArgs | coveragepool/gen_report/report_helper.py:170-171 | `lcov --diff` receives the source tracefile, the diff file, `-o` and the target tracefile, in that order |
| Tracefile.ConvertTracefile | coveragepool/gen_report/report_helper.py:170-172 | exactly that one command is issued; the call succeeds iff the command does |
| CoverageEnv.YumArgs | coveragepool/gen_report/report_helper.py:27-40 | yum receives `remove -y` and then one argument per package, in order: the name for a package that parses and the raw string for one that does not; likewise for `install -y`, with `name-version-release` for a package that parses |
| CoverageEnv.PrepareRpmEnv | coveragepool/gen_report/report_helper.py:27-42 | the loop builds both lists; `yum remove` is issued, then `yum install` only if the removal succeeded; the outcome is that of the last command issued |
| CoverageEnv.PrepareArchiveEnv | coveragepool/gen_report/report_helper.py:45-69 | more than one package is refused and an empty list fails on `packages[0]`, both before anything happens; for one package, the steps issued are `ArchiveSteps`; success iff all of them succeed, and then the fresh directory holds the unpacked download and is returned; on failure the directory is removed and no tree changes; the working directory is restored on every path |
| CoverageEnv.UnpackPackage | coveragepool/gen_report/report_helper.py:48-69 | the body for one package: a fresh directory, `yumdownloader`, then the fetch and unpack inside it, with the same outcome as above |
| CoverageEnv.FetchAndUnpack | coveragepool/gen_report/report_helper.py:54-68 | inside the directory, `wget` of the printed URL without its last character, then the unpacking; the working directory is restored, and a failure removes the directory |
| CoverageEnv.MirrorArgs | coveragepool/gen_report/report_helper.py:73-77 | when the mirror path exists, git receives a pull on the mirror's own `.git` and work tree; otherwise a clone of the repository into that path |
| CoverageEnv.CheckoutArgs | coveragepool/gen_report/report_helper.py:84-87 | the forced checkout acts on the working copy's own `.git` and work tree |
| CoverageEnv.GitRepoWorkingCopy | coveragepool/gen_report/report_helper.py:72-87 | a completed run leaves the mirror pulled, or freshly cloned when it was absent, and the working copy a copy of it, checked out at the commit when one is given; every other tree is unchanged |
| CoverageEnv.GitRepoMirrorFails | coveragepool/gen_report/report_helper.py:72-79 | a failed pull or clone changes no tree and is the only step issued |
| CoverageEnv.PrepareGitRepo | coveragepool/gen_report/report_helper.py:72-87 | the machine ends in the state `GitRepo` describes: its trees and the steps issued; success iff that run completes |
| CoverageEnv.MakeWorkingCopy | coveragepool/gen_report/report_helper.py:80-87 | after the mirror command: what exists at the working path is removed, the mirror is copied there, and the checkout runs when a commit is given |
| CoverageEnv.GitPrepareEnv | coveragepool/gen_report/report_helper.py:90-93 | `prepare_git_repo` with the mirror at `base_dir/name` |
| CoverageEnv.GetGitDiff | coveragepool/gen_report/report_helper.py:95-105 | one `git diff` of the two tags on the working copy; its output is saved in a new file whose path is returned; a failing diff creates no file |
| CoverageEnv.PatchNameOfLine | coveragepool/gen_report/report_helper.py:118-120 | a line `Patch<n>: <name>` gives back exactly `name` |
| CoverageEnv.PatchNameMatch | coveragepool/gen_report/report_helper.py:118-120 | conversely, a name the regex yields is non-empty, holds no newline, and follows `Patch<digits>: ` at the start of the line up to its end or its newline |
| CoverageEnv.PatchesOfLines | coveragepool/gen_report/report_helper.py:115-120 | a `.spec` made of patch lines names exactly their patches, in order |
| CoverageEnv.PatchArgs | coveragepool/gen_report/report_helper.py:121-122 | `git am -3` receives the patch file and acts on the working copy's own `.git` |
| CoverageEnv.AmOutcomeSteps | coveragepool/gen_report/report_helper.py:117-123 | the patches' commands are issued in order, from the first, and never more than there are patches |
| CoverageEnv.AmOutcomeSucceeds | coveragepool/gen_report/report_helper.py:117-123 | every command before the last succeeded; the run completes iff every patch was issued and every command succeeded |
| CoverageEnv.AmOutcomeFails | coveragepool/gen_report/report_helper.py:117-123 | a run that does not complete ends with the command that failed |
| CoverageEnv.AmOutcomeTrees | coveragepool/gen_report/report_helper.py:117-123 | the working copy records, in order, exactly the patches that applied; nothing else changes |
| CoverageEnv.ApplyPatch | coveragepool/gen_report/report_helper.py:109-123 | the machine ends in the state `PatchOutcome` describes; an unreadable `.spec` raises before any command |
| CoverageEnv.ApplyNamed | coveragepool/gen_report/report_helper.py:117-123 | the loop over the lines issues `AmOutcome` of the patch files named, in order, and stops at the first failure |
| CoverageEnv.DistGitPrepareEnv | coveragepool/gen_report/report_helper.py:125-133 | the source repository, then a fresh temporary directory for the packaging repository, then the patches: the machine ends in the state `DistGitOutcome` describes |
| CoverageEnv.PrepareDistAndPatch | coveragepool/gen_report/report_helper.py:130-133 | the packaging repository is checked out in the new directory, then the patches are applied to the working copy |
| Libvirt.FormatEscape | coveragepool/gen_report/report_helper.py:206 | a format string with every brace doubled formats back to the text, whatever the arguments |
| Libvirt.FormatOneField | coveragepool/gen_report/report_helper.py:206 | a tag format with one numbered field yields the text around it with that argument in its place, or raises when the index is out of range |
| Libvirt.FormatNoSwitch | coveragepool/gen_report/report_helper.py:206 | `{}` after `{0}` raises: the numbering cannot switch |
| Libvirt.FormatSwitchRaises | coveragepool/gen_report/report_helper.py:206 | a numbered field followed by `{}` raises whatever follows, and whether or not the index is in range |
| Libvirt.LibvirtPlanChain | coveragepool/gen_report/report_helper.py:179-206 | the choice as an ordered chain. A package that does not parse, or other than libvirt, is refused. A failing lookup of the installed build raises. An installed build equal to the one asked for wins. Otherwise a failing lookup of the distribution raises. Otherwise a release that carries the machine's distribution tag is reinstalled, with the `el6` or other package list. Only otherwise is the git tag built, from the tag format filled with name, version, release and architecture. The working directory always follows the version |
| Libvirt.LibvirtTagFromRelease | coveragepool/gen_report/report_helper.py:206 | the tag format `<p>{2}<q>` names the tag after the release |
| Libvirt.PlanOutcomeDone | coveragepool/gen_report/report_helper.py:179-208 | when each choice completes, it issues exactly this. The installed build: only `virtcov -s`, after removing the working directory. A reinstall: `yum remove`, `yum install`, then the same. A git build: ends with the source generation, and the working directory is the mirror's copy, checked out at the tag |
| Libvirt.PrepareVirtcovEnv | coveragepool/gen_report/report_helper.py:175-177 | the working directory is removed (a missing one raises), then `virtcov -s` |
| Libvirt.LibvirtPrepareEnv | coveragepool/gen_report/report_helper.py:179-208 | the machine ends in the state of `PlanOutcome` of the chosen plan; a refused choice changes nothing |
| Libvirt.ReinstallAndVirtcov | coveragepool/gen_report/report_helper.py:201-202 | the reinstall, then the virtcov environment only when the reinstall succeeded |
| Libvirt.BuildFromGit | coveragepool/gen_report/report_helper.py:206-208 | the tag checked out from the libvirt mirror, then the source generation only when that succeeded |
| Libvirt.LibvirtGenReport | coveragepool/gen_report/report_helper.py:213-215 | the tracefile's `SF:` paths move from `/usr/coverage/` to `/mnt/coverage/` with `check_all` on, then `genhtml` runs with `--ignore-errors source`; a missing tracefile raises before any command |
| Sheets.SheetMGR.constructor | coveragepool/upload/google_api.py:5-13 | the worksheet opened, with no header read and no request made yet |
| Sheets.RetryFromShape | coveragepool/upload/google_api.py:34-48 | at most six attempts; every attempt but the last met an HTTP error; the answer is the reply to the last attempt; an HTTP error is raised only after six in a row |
| Sheets.RetrySucceeds | coveragepool/upload/google_api.py:34-48 | a request is served iff one of the first six attempts is served after HTTP errors only |
| Sheets.SheetMGR.Retry | coveragepool/upload/google_api.py:34-48 | the `while True` loop with its counter makes exactly the attempts `RetryFrom` counts and returns its reply |
| Sheets.Padded | coveragepool/upload/google_api.py:50-54 | the fetched table is a rectangle: the worksheet's rows, every one as wide as the widest, each cell holding what the worksheet holds and `""` past the end of a stored row |
| Sheets.SheetMGR.GetAllValues | coveragepool/upload/google_api.py:50-54 | once the request is served, the whole table as that rectangle; an error otherwise |
| Sheets.SheetMGR.GetKeys | coveragepool/upload/google_api.py:62-66 | the first row of the fetched rectangle, as wide as the widest row; an empty worksheet raises IndexError |
| Sheets.SheetMGR.LoadKeys | coveragepool/upload/google_api.py:15 | the header is the first row of the fetched rectangle, read once |
| Sheets.GetSetCell | coveragepool/upload/google_api.py:56-60 | writing a cell changes that cell and no other, growing the table as needed |
| Sheets.ApplyUntouched | coveragepool/upload/google_api.py:56-60 | a cell no write addresses keeps its text |
| Sheets.ApplyLastWins | coveragepool/upload/google_api.py:56-60 | a cell holds the value of the last write that addresses it |
| Sheets.ApplyExtends | coveragepool/upload/google_api.py:56-60 | writes never shorten a row nor drop one |
| Sheets.SheetMGR.UpdateCell | coveragepool/upload/google_api.py:56-60 | the request is retried; the cell at the 1-based address is written iff the request is served, and the write is logged; an address below 1 is refused and changes nothing |
| Sheets.WriteOutcomeShape | coveragepool/upload/google_api.py:83-84 | the writes carried out are the first ones asked for; all of them iff no write raised; at most six requests per cell |
| Sheets.SheetMGR.WriteAll | coveragepool/upload/google_api.py:83-84 | the write loop ends in the state `WriteOutcome` describes: the table, the log and the requests made |
| Sheets.ColumnsSpec | coveragepool/upload/google_api.py:92-94 | a header column is written iff its key is in the dictionary, with that key's value, in header order |
| Sheets.Numbered | coveragepool/upload/google_api.py:83 | the list's values numbered from column 0, in order |
| Sheets.DataCellsHit | coveragepool/upload/google_api.py:83-84 | writing a row puts each value in its column of that row |
| Sheets.DataCellsMiss | coveragepool/upload/google_api.py:83-84 | writing a row changes no other cell |
| Sheets.RowOutcomeTable | coveragepool/upload/google_api.py:77-94 | a completed row append puts each value in its column of the target row and changes no other cell. The target row is the one given when it is truthy, else the one after the table |
| Sheets.SheetMGR.AddNewRow | coveragepool/upload/google_api.py:77-84 | the machine ends in the state `RowOutcome` describes for the numbered values |
| Sheets.SheetMGR.AddNewRowByDict | coveragepool/upload/google_api.py:86-94 | the machine ends in the state `RowOutcome` describes for the header columns found in the dictionary |
| Sheets.SheetMGR.WriteRow | coveragepool/upload/google_api.py:78-84 | the table is fetched only when no row is given; then the row's cells are written |
| Sheets.RowMatchAll | coveragepool/upload/google_api.py:107-112 | when the row is long enough, the inner loop answers whether every search column holds its value |
| Sheets.RowMatchSpec | coveragepool/upload/google_api.py:100-112 | for a row as wide as the header, the comparison is `Matches` of the search dictionary |
| Sheets.SearchRowsSpec | coveragepool/upload/google_api.py:106-118 | over rows at least as wide as the header, the cells written are exactly the search targets from the given row on |
| Sheets.SearchPlanSpec | coveragepool/upload/google_api.py:96-118 | with some header key searched on, the search raises nothing. A cell is written iff its row matches (the header row included) and its column's key has a value in the data, and it receives that value |
| Sheets.FetchedHeaderFits | coveragepool/upload/google_api.py:97-112 | a header read from one fetch is never wider than a later fetch, whatever this manager wrote in between, so the search never reads past the end of a row |
| Sheets.SearchFetchedSpec | coveragepool/upload/google_api.py:96-118 | on a fetch taken after any writes since the header was read, with some header key searched on, the search raises nothing and the cells written are exactly the search targets |
| Sheets.ShortRowSearched | coveragepool/upload/google_api.py:96-112 | a row appended with fewer cells than the header is fetched with `""` in its missing columns: searching the header's last column for another value plans no write and raises nothing |
| Sheets.SearchPlanUnbound | coveragepool/upload/google_api.py:106-115 | with no header key searched on, a non-empty table raises the unbound `found` before any write |
| Sheets.SheetMGR.SearchUpdateByDict | coveragepool/upload/google_api.py:96-118 | the table is fetched as a rectangle, then the planned cells are written; the machine ends in the state `FetchThenWrite` of `SearchPlan` over that rectangle describes |
| Sheets.ReworkRowsApplied | coveragepool/upload/google_api.py:71-75 | with 1-based addresses, each old row's writes leave every cell of it holding the new value and change nothing else |
| Sheets.ReworkFixedWritesData | coveragepool/upload/google_api.py:68-75 | the corrected rework leaves the table holding the new values over the old table's extent and changes no other cell |
| Sheets.ReworkRowWrites | coveragepool/upload/google_api.py:72-75 | one old row's planned writes are exactly its cells whose new value differs, each at its 1-based address with the new value; nothing is raised when the new row is at least as long |
| Sheets.ReworkRowsWrites | coveragepool/upload/google_api.py:71-75 | from a given row on, the planned writes are exactly the cells of the old table whose new value differs |
| Sheets.ReworkFixedWrites | coveragepool/upload/google_api.py:68-75 | once the new table covers the old one, the corrected rework raises nothing and writes a cell iff it lies inside the old table and its new value differs, with that value: no unchanged cell and no cell outside the old table |
| Sheets.ReworkFetchedWrites | coveragepool/upload/google_api.py:68-75 | over the fetched rectangle, a cell is written iff it lies inside the rectangle and its new value differs from the worksheet's, the padded `""` included |
| Sheets.ReworkFetchedWritesData | coveragepool/upload/google_api.py:68-75 | over the fetched rectangle, once the new data has a value for each of its cells, the corrected rework leaves the new values over the whole rectangle, padded cells included, and changes no other cell |
| Sheets.ReworkMisplaces | coveragepool/upload/google_api.py:75 | as written, a change at row 2, column 2 is written over cell A1, and the changed cell keeps its old value |
| Sheets.ReworkFirstRowFails | coveragepool/upload/google_api.py:75 | as written, a change in the first row produces address 0, and the write raises |
| Sheets.SheetMGR.ReworkSheet | coveragepool/upload/google_api.py:68-75 | the table is fetched, then each cell whose new value differs is written at its own address, with the address corrected as in the finding below; the machine ends in the state `FetchThenWrite` of `ReworkPlanFixed` over the fetched rectangle describes. Its write set is `ReworkFetchedWrites`, so it sends one request per differing cell and none for the others; its effect on the table is `ReworkFetchedWritesData` |
| Sheets.SheetMGR.FetchAndWrite | coveragepool/upload/google_api.py:97 | one fetch of the table as a rectangle, then the run of writes planned from it |
| Models.ContentFileName | coveragepool/upload/models.py:11-14 | the storage name starts with `coveragefile/` and ends with the original file name |
| Models.ContentNameRoundTrip | coveragepool/upload/models.py:12-13 | for every 128-bit hash, the name is `coveragefile/`, 32 lower-case hex digits that read back as the hash, `-`, then the file name unchanged |
| Models.ContentNameInjective | coveragepool/upload/models.py:11-14 | two uploads share a storage name only when they drew the same hash for the same file name |
| Models.MergedReportName | coveragepool/upload/models.py:50 | the name is `merged_report_` followed by the id in decimal, which parses back to the id |
| Models.CoverageReport.constructor | coveragepool/upload/models.py:38-47 | a report with the given columns and no tracefile attached |
| Models.CoverageReport.SaveTracefile | coveragepool/upload/models.py:49-53 | the file's text is stored under the content name of `merged_report_<id>`, and the report refers to it. A report without an id, or a missing file, raises and changes nothing |
| Models.CoverageFileDeleted | coveragepool/upload/models.py:55-57 | the stored file is deleted; an unset one is skipped |
| Models.CoverageReportDeleted | coveragepool/upload/models.py:59-64 | the report directory is removed only when `path` is non-empty, and a missing directory is ignored; the stored tracefile is deleted only when one is set; nothing else changes |

## Left out

- **External programs** are outcomes given by an oracle over the position in the log, for yum,
  git, genhtml, lcov, virtcov, wget, yumdownloader, rpm2cpio and cpio.
  - The `rpm2cpio | cpio` pipe, together with `listdir()[0]` and the removal of the archive, is
    one external step.
  - `_extra_prepare` (coveragepool/gen_report/report_helper.py:217-300) is a fixed run of code
    generators with no decisions, so it is one external step too.
- **`run_cmd`'s failure message** is not modelled; only success or failure is.
- **Commands whose arguments contain spaces**: the lemmas about how `run_cmd` splits a command
  assume the arguments are words without whitespace.
- **The package helpers** `parse_package_name`, `check_package_version` and `trans_distro_info` are
  not part of this model. They are function parameters, and each of them can fail; a failure
  is raised as it comes, in the order the code asks them.
- **Directory trees** carry a record of where their contents came from, not their files. File
  contents inside a tree (the `.spec` file) come from an oracle over that record.
- **Python 2/3 differences**: the model follows Python 2 in one place and Python 3.7 in another.
  - Text of files and command output is a string, with no byte/text distinction.
  - `readlines`, as `Text.SplitLines` models it, cuts only at `\n` and keeps every `\r`, as
    Python 2's `open()` does. Python 3's text mode turns `\r\n` and a lone `\r` into `\n`
    while reading, and that translation is not modelled.
  - The order of the dictionaries in `search_update_by_dict` is Python 3.7's insertion order
    (see "Dictionary order" below).
- **Temporary directories and files**: only their freshness is modelled, not their name
  prefixes.
- **The dist-git directory is never removed.** The source never removes the temporary dist-git
  directory, and the model leaves it as well.
- **`periodic_check`, `clean_up_env` and the `NotImplementedError` bases** have no behaviour to
  model.
- Libvirt.Format: covers `{}`, `{<n>}` and doubled braces. Format specs, conversions, attribute
  or item access in fields, and lone braces inside a field are not modelled.
- **gspread authorization and credentials** (coveragepool/upload/google_api.py:17-29) are not
  modelled. Re-authorizing after an HTTP error changes nothing in the model's state.
- **Which worksheet is opened** (coveragepool/upload/google_api.py:26-29) is not modelled either.
- **The spreadsheet service's replies** come from an oracle: served, an HTTP error, or another
  error.
- Sheets.SheetMGR.UpdateCell: the model refuses an address below 1 before any request. gspread
  releases of the time send such an address to the service unchecked, and the service's answer
  is not modelled; the refusal stands for that failure, so the number of requests made can
  differ from the source's.
- Sheets.SheetMGR.GetAllValues: gspread drops trailing rows and columns that hold only empty
  cells, while the model keeps every stored row and fills rows up to the longest one. A row or
  column that holds only `""` therefore stays in the model's fetch.
- Sheets.SheetMGR.constructor: `__init__` also reads the header (coveragepool/upload/google_api.py:15),
  and when that read raises, Python builds no object. The model splits the header read off into
  `Sheets.SheetMGR.LoadKeys`, so after a failed read the object exists with an empty header
  (`keys == []`). Callers that use the object only after a successful `LoadKeys` see the same
  behaviour as the source.
- **Cell values** are strings; the Python values written are taken as their text.
- **Dictionary order**: `index_dict` and `index_dict2` in `search_update_by_dict` are iterated in
  header order, the order they are filled in. That is Python 3.7's insertion order; Python 2's
  hash order is not modelled. The order matters:
  - a fetched table is a rectangle, so every row is as wide as the widest. The header comes
    from an earlier fetch, and this manager's writes only lengthen rows
    (`Sheets.FetchedHeaderFits`), so the comparison never reads past the end of a row. A row
    narrower than the header would need the worksheet to shrink under the manager, through
    edits by others or trailing empty columns being dropped. For such a row, the first
    mismatch before the missing column stops the comparison, and otherwise IndexError is
    raised; the header order decides which comes first;
  - when a write fails, the header order decides which cells were already written.
- **`search_update_by_dict` runs as two stages.** The model first computes the cells to write
  and the exception to raise, then runs one write loop.
  - The writes, their order and the stopping point are the source's, because the table is
    fetched once and never re-read.
  - A row narrower than the header, possible only as above, raises IndexError. The model
    records it as the plan's exception after the writes before it.
- **`rework_sheet`** is modelled the same way, as a plan followed by one write loop.
- **Django**: the ORM field declarations and persistence (`save()` on the record), `Project`, the
  date defaults and the many-to-many relation are not modelled.
  - The file storage is a map from storage names to text.
- Models.CoverageReport.SaveTracefile: the random 128-bit hash is a parameter. It is taken to
  give a name the storage does not hold yet; Django would rename a taken name.
- **The views, admin, URLs and Celery tasks** are not modelled. They only call into the core.

## Findings

| source | as written | input that shows it | evidently intended | confidence | as-written member | corrected member |
|---|---|---|---|---|---|---|
| coveragepool/upload/google_api.py:75 | `rework_sheet` passes the 0-based loop indices `i_row`, `i_cell` to `update_cell`, which counts rows and columns from 1 | old table `[["a","b"],["c","d"]]`, new data `[["a","b"],["c","x"]]`: the write goes to A1 (`"x"` over `"a"`) and B2 keeps `"d"`. A change in the first row or column gives address 0, which is refused | `update_cell(i_row + 1, i_cell + 1, new_val)`: each changed cell written in place | not executed | Sheets.ReworkMisplaces | Sheets.ReworkFixedWritesData |

`Sheets.ReworkPlan` is the plan as written, and `Sheets.ReworkFirstRowFails` shows that a change
in the first row fails. `Sheets.ReworkPlanFixed` is the corrected plan, and
`Sheets.ReworkFixedWritesData` proves that it leaves the table holding the new data, and
`Sheets.ReworkFetchedWritesData` proves the same over the rectangle a fetch returns.
`Sheets.SheetMGR.ReworkSheet` carries out the corrected plan.
