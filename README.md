# LogArchiving, modelled in Dafny

LogArchiving is a console program. It reads archive rules from
`archivedata.txt` and, for each rule due today, archives the rule's log files
into a timestamped zip archive. Each line of the file is a rule with eight
`|`-separated fields:

- source folder
- file pattern
- date range
- destination folder
- archive name
- final folder
- frequency in days
- start date

This project models the core of `LogArchiving/Program.cs`:

- **the configuration loader** (`ReadArchiveConfig`): keeps the lines that are not empty and not `*` comments, and splits each on `|`;
- **rule construction** inside `Main`: positional fields, the `Convert.ToInt32` and `Convert.ToDateTime` calls that may throw, and a frequency of 0 read as 1;
- **the cadence test** `datediff % frequency == 0`, with C#'s truncating remainder and the next-run date logged when a rule is off-cadence;
- **candidate selection**: last-write date at most today + date range, and last written more than five minutes ago;
- **strategy choice**: more than 20 candidates go through a folder, otherwise files are zipped one by one;
- **`ZipFiles`**: create an empty archive, add each file, delete each file, relocate;
- **`ZipFolder`**: create a temporary folder, move each file into it and skip those that fail, zip the folder, delete it, relocate.

## How the model is built

The filesystem is an abstract state `FsState`:

- files sit at a `Path(dir, name)`;
- each file is either a plain file, possibly locked by another process, or an archive with a set of entry names;
- folders are a set of path strings.

Each `System.IO` call the program makes is a pure step function. There are two kinds:

- A call that changes nothing when it throws (`WithDirectory`, `WithEmptyArchive`, `WithoutFile`, `WithMove`) returns the new state, or `None` when it throws.
- A call that can throw after changing something (`WithEntry`, `WithFolderArchive`, `WithoutDirectory`) returns a `Run`: the state it leaves and whether it returned. For example, `Directory.Delete(dir, true)` deletes the files it can before it throws on a file in use.

The class `FileSystems.FileSystem` holds the state in mutable fields, and its
methods apply those steps in place.

`ZipFiles`, `ZipFolder` and `Main`'s loop are imperative methods with loops.
Each is proved equal to a left-fold specification function (`AddEntries`,
`MoveInto`, `ZipFilesRun`, `ZipFolderRun`, `MainRun`). The lemmas in
`ArchiverProperties` and `Program` prove what those functions do to the
filesystem.

Parameters stand in for inputs that come from outside the model:

- **Clock**: each `DateTime.Now` reading is a parameter. A reading used to compute dates is a number of minutes; a reading formatted into a name is a `Timestamp` that `Format` turns into the 14 digits of `yyyyMMddHHmmss`.
- **Conversions**: `Convert.ToInt32` and `Convert.ToDateTime` are parser parameters that may fail.
- **Configuration file**: its contents come in as `Option<seq<string>>`, where `None` means `File.ReadAllLines` threw.
- **Folder listing**: `GetFiles(Filetype)` becomes a listing parameter of paths and last-write times. Getting the listing throws when the folder does not exist.

### Behaviour of the code worth knowing

- **Frequency**: only a frequency of exactly 0 becomes 1 (`Program.cs:29`); a negative frequency is used as given.
- **Day count**: the day difference is `TimeSpan.Days` of `now - startdate`, the whole days of the span truncated toward zero (`Program.cs:31`).
- **Add failure in `ZipFiles`**: the first file that cannot be added ends the add loop through the outer `catch` (`Program.cs:104-131`). The method returns false, and no file is deleted.
- **Relocation**: `zipfil.Name.Substring(-4)` always throws `ArgumentOutOfRangeException` (`Program.cs:124`, `Program.cs:179`). So when a final folder is given, the archive stays in the destination folder and the method returns false.
- **One failing rule stops the rest**: a malformed record, or a missing source folder, throws inside the `Parallel.ForEach` body. `Main` catches the exception once, after the loop, so in the model's sequential order no later rule runs.
- **Parent folders**: `Directory.CreateDirectory` creates every missing parent folder of the destination (`Program.cs:90-91`, `Program.cs:146-151`), so a later rule whose source folder is such a parent finds it.

## Model

| member | source | states |
|---|---|---|
| Config.IsRuleLine | LogArchiving/Program.cs:71 | the line test: a line is a rule when it is not empty and its first character is not '*' |
| Config.KeptLines | LogArchiving/Program.cs:69-72 | the rule lines of the file in file order; KeptLinesMembers and KeptLinesAppend state what it keeps and in which order |
| Config.Records | LogArchiving/Program.cs:62-80 | an unreadable file gives no records; otherwise one record per kept line, in order, each with at least one field, and its fields joined with '\|' give back that line |
| Config.ReadArchiveConfig | LogArchiving/Program.cs:62-80 | the loader's loop returns exactly Records of the file contents |
| Config.KeptLinesMembers | LogArchiving/Program.cs:69-72 | a line is kept exactly when it occurs in the file, is not empty and does not start with '*' |
| Config.KeptLinesAppend | LogArchiving/Program.cs:69-72 | filtering keeps file order: it distributes over concatenation of line sequences |
| Config.KeptLinesSingle | LogArchiving/Program.cs:71 | one line is kept or dropped by the comment/empty test alone |
| Config.Split | LogArchiving/Program.cs:71 | Split yields at least one field and no field contains the separator |
| Config.SplitJoin | LogArchiving/Program.cs:71 | joining the fields with '\|' gives back the line: no character is lost |
| Config.SplitCount | LogArchiving/Program.cs:71 | a line with n separators has n + 1 fields, empty fields kept |
| Config.SplitField | LogArchiving/Program.cs:71 | a separator-free prefix followed by '\|' becomes exactly the first field |
| Config.JoinSplit | LogArchiving/Program.cs:71 | fields without '\|' survive a join followed by a split unchanged (round trip) |
| Rules.NormalizeFrequency | LogArchiving/Program.cs:29 | the frequency is never 0; 0 becomes 1 and every other value, negatives included, is kept |
| Rules.BuildRule | LogArchiving/Program.cs:23-30 | a rule is built iff the record has at least eight fields (later fields are ignored) and the three conversions succeed, with fields taken by position; otherwise the first failing index access or conversion in source order is the error |
| Cadence.DaysBetween | LogArchiving/Program.cs:31 | TimeSpan.Days: the whole days in the span, rounded toward zero, so a span of under a day either way is day 0 |
| Cadence.RunsToday | LogArchiving/Program.cs:35 | the cadence test as written, with C#'s remainder; RunsTodayIffDivides states what it means |
| Cadence.NextRunOffset | LogArchiving/Program.cs:48 | the logged offset as written, `frequency - datediff % frequency` in wrapping `int` arithmetic; the NextRunOffset lemmas state what it is |
| Cadence.DaysUntilNextRun | LogArchiving/Program.cs:48 | the offset the log line evidently means; DaysUntilNextRunIsNext proves it is the next run day |
| Cadence.TruncRem | LogArchiving/Program.cs:35 | C#'s `%`: dividend = divisor * truncated quotient + remainder, the remainder smaller than the divisor and signed like the dividend |
| Cadence.TruncDiv | LogArchiving/Program.cs:31 | C#'s integer division as `TimeSpan.Days` applies it to the span; TruncDivTowardZero states that it rounds toward zero |
| Cadence.TruncDivTowardZero | LogArchiving/Program.cs:31 | the truncated quotient: its size is the floor of \|a\| / \|b\| and its sign that of a * b, so it rounds toward zero, never down |
| Cadence.Wrap32 | LogArchiving/Program.cs:48 | `int` subtraction wraps: the result agrees with the exact value modulo 2^32 and equals it when in range |
| Cadence.RunsTodayIffDivides | LogArchiving/Program.cs:35 | the rule runs today iff the day difference is a multiple of the frequency, whatever the signs |
| Cadence.FrequencyOneAlwaysRuns | LogArchiving/Program.cs:29-35 | a frequency of 0 or 1 runs every day |
| Cadence.RunsTodayPeriodic | LogArchiving/Program.cs:35 | the cadence test is periodic with the frequency |
| Cadence.NextRunOffsetIsNextRun | LogArchiving/Program.cs:48 | past start date, positive frequency: the logged offset is in 1..frequency-1, the rule runs on that day and on no day in between |
| Cadence.DaysUntilNextRunIsNext | LogArchiving/Program.cs:35-48 | the corrected offset is 0 iff the rule runs today, is below the frequency, names a run day and skips none, for any signs |
| Cadence.NextRunOffsetFutureStart | LogArchiving/Program.cs:48 | start date in the future, positive frequency, no `int` wrap-around: the logged offset overshoots the next run by a whole period |
| Cadence.NextRunOffsetNegativeFrequency | LogArchiving/Program.cs:48 | negative frequency, start date past or future, off-cadence: the logged next run date lies in the past, while the rule next runs on a later day |
| Cadence.NextRunOffsetCounterexample | LogArchiving/Program.cs:48 | weekly rule starting in two days: 9 days are logged, the rule runs in 2 |
| Cadence.WeeklyExample | LogArchiving/Program.cs:35-48 | a weekly rule runs on day 7; on day 8 it logs a next run 6 days later |
| Selection.Date | LogArchiving/Program.cs:37 | DateTime.Date as a day number: the day whose midnight is at or before the instant and less than a day before it |
| Selection.IsCandidate | LogArchiving/Program.cs:37 | the Where clause's two conditions: last-write date at most today plus the date range, and last written more than five minutes before now |
| Selection.SelectCandidates | LogArchiving/Program.cs:37 | the selection is no longer than the listing and holds only candidates |
| Selection.SelectedPaths | LogArchiving/Program.cs:37 | the paths handed to the archiver (Paths of SelectCandidates, which Program.Selected names) are exactly the paths of listed files that pass both conditions of the Where clause |
| Selection.SelectMembers | LogArchiving/Program.cs:37 | a listed file is selected iff it passes both conditions of the Where clause |
| Selection.SelectAppend | LogArchiving/Program.cs:37 | selection keeps the listing's order |
| Selection.DebounceImpliesDate | LogArchiving/Program.cs:37 | with a date range of zero or more the five-minute condition alone decides |
| Selection.DateMonotonic | LogArchiving/Program.cs:37 | DateTime.Date is monotonic |
| Timestamps.Format | LogArchiving/Program.cs:93 | ToString("yyyyMMddHHmmss") gives 14 digits; ParseFormat proves they read back to the timestamp |
| Timestamps.DigitsValue | LogArchiving/Program.cs:93 | each zero-padded number field reads back as its value |
| Timestamps.ArchiveBaseName | LogArchiving/Program.cs:149 | `zipname + DateTime.Now.ToString("yyyyMMddHHmmss")`; ArchiveBaseNameParts states its parts |
| Timestamps.ArchiveFileName | LogArchiving/Program.cs:93 | the base name followed by ".zip"; ArchiveFileNameParts states its parts |
| Timestamps.ParseFormat | LogArchiving/Program.cs:93 | a valid timestamp formatted as yyyyMMddHHmmss parses back to itself |
| Timestamps.ArchiveFileNameParts | LogArchiving/Program.cs:93 | the archive name is the zip name, 14 digits that parse back to the clock reading, and ".zip" |
| Timestamps.ArchiveBaseNameParts | LogArchiving/Program.cs:149 | the temporary folder's name is the zip name followed by 14 digits that parse back to the clock reading |
| Timestamps.TempFolderMatchesArchive | LogArchiving/Program.cs:149-153 | the temporary folder's name plus ".zip" is the archive's name iff the two clock readings agree |
| Timestamps.Substring | LogArchiving/Program.cs:124 | Substring(start) returns iff 0 <= start <= length, and then returns the suffix |
| FileSystems.WithDirectory | LogArchiving/Program.cs:90-91 | Directory.CreateDirectory: the folder and all its parent folders are added; throws, changing nothing, on an empty path (ArgumentException) or when a file has the path of one of those folders; CreateDirectoryMakesParents states the result |
| FileSystems.FolderChainMembers | LogArchiving/Program.cs:90-91 | the folders CreateDirectory makes sure of are exactly the path and its prefixes that end just before a separator |
| FileSystems.CreateDirectoryMakesParents | LogArchiving/Program.cs:90-91 | after CreateDirectory returns, the folder and each of its parent folders exist |
| FileSystems.IsDirectory | LogArchiving/Program.cs:90 | Directory.Exists: true only for a non-empty path that names a folder |
| FileSystems.FullName | LogArchiving/Program.cs:159 | Path.Combine(folder, name) for a name that is not rooted; FullNameDeterminesPath states that nothing is lost |
| FileSystems.FullNameDeterminesPath | LogArchiving/Program.cs:159 | for names without a separator, equal combined paths have the same folder and the same name, so the combined path identifies the file |
| FileSystems.WithEmptyArchive | LogArchiving/Program.cs:94-102 | FileMode.Create: an empty archive replaces any file at the path; throws, changing nothing, on a folder or a file in use |
| FileSystems.WithEntry | LogArchiving/Program.cs:106-110 | ZipFile.Open(Update) then CreateEntryFromFile: throws on a folder or a non-archive file at the archive path; otherwise the archive exists afterwards (created when missing) and gains the entry iff the source can be opened; a source that cannot be opened throws after that |
| FileSystems.WithoutFile | LogArchiving/Program.cs:117 | FileInfo.Delete: the file is gone; an absent file is no error; a file in use throws, changing nothing |
| FileSystems.WithMove | LogArchiving/Program.cs:159 | FileInfo.MoveTo: the file moves when it can be opened and the target is free; otherwise throws, changing nothing |
| FileSystems.WithFolderArchive | LogArchiving/Program.cs:168 | ZipFile.CreateFromDirectory: throws, changing nothing, when the archive path is taken; otherwise the archive is written, holding the folder's files, or only those before the first file in use and then throwing, or nothing when the folder is missing |
| FileSystems.WithoutDirectory | LogArchiving/Program.cs:173 | recursive Directory.Delete: removes the folder and its files; throws when it is missing; with a file in use, deletes the other files, keeps the folder and throws |
| FileSystems.EntryCreatesMissingArchive | LogArchiving/Program.cs:106-108 | adding to a missing archive creates it; the entry is added iff the source can be opened, and the archive stays even when it cannot |
| FileSystems.FolderArchivePartial | LogArchiving/Program.cs:168 | zipping a folder with a file in use throws but leaves an archive holding only some of the folder's names, never a file in use, and changes nothing else |
| FileSystems.DeleteDirectoryPartial | LogArchiving/Program.cs:173 | deleting a folder with a file in use throws after removing exactly its files not in use; the folder stays and nothing outside it changes |
| FileSystems.FileSystem.Apply | LogArchiving/Program.cs:106-108 | a call that may throw after changing something: the state it leaves is installed and its result returned |
| FileSystems.FileSystem.Commit | LogArchiving/Program.cs:127-131 | a call that throws leaves the state unchanged; one that returns installs its new state |
| FileSystems.FileSystem.CreateDirectory | LogArchiving/Program.cs:90-91 | creates the folder and its missing parents in place; throws and changes nothing when the path is empty or a file has the path of one of those folders |
| FileSystems.FileSystem.CreateEmptyArchive | LogArchiving/Program.cs:94-102 | FileMode.Create writes an empty archive over any file there; throws on a folder or a locked file |
| FileSystems.FileSystem.AddEntry | LogArchiving/Program.cs:106-108 | in place, does what WithEntry specifies: a missing archive is created, the entry added iff the source can be opened, and the archive kept when the add throws |
| FileSystems.FileSystem.DeleteFile | LogArchiving/Program.cs:117 | removes the file; an absent file is no error; a locked one throws |
| FileSystems.FileSystem.MoveFile | LogArchiving/Program.cs:159 | moves the file when it can be opened and the target is free; otherwise throws and changes nothing |
| FileSystems.FileSystem.CreateArchiveFromDirectory | LogArchiving/Program.cs:168 | in place, does what WithFolderArchive specifies, the partly written archive included when it throws |
| FileSystems.FileSystem.DeleteDirectory | LogArchiving/Program.cs:173 | in place, does what WithoutDirectory specifies, the files already deleted included when it throws |
| Archiver.EnsureDirectory | LogArchiving/Program.cs:90-91 | the folder, with its parents, is created only when Directory.Exists is false; an empty path is never a folder, so creating it throws |
| Archiver.DestinationInTempChain | LogArchiving/Program.cs:146-151 | the temporary folder lies inside the destination, so creating it also makes sure of the destination and its parents |
| Archiver.ArchivePath | LogArchiving/Program.cs:93 | the archive's path: ArchiveFileName inside the destination folder (ZipFiles line 93, ZipFolder line 153) |
| Archiver.TempFolder | LogArchiving/Program.cs:149 | ZipFolder's temporary folder: ArchiveBaseName combined with the destination folder |
| Archiver.TempFolderAndArchiveLengths | LogArchiving/Program.cs:149-153 | the archive lies in the destination folder; the temporary folder's path has the stamp's fixed length, and the archive's path is exactly ".zip" longer |
| Archiver.ArchiveBesideTempFolder | LogArchiving/Program.cs:149-153 | the archive's full path is the temporary folder's path plus ".zip" iff the two clock readings agree |
| Archiver.AddEntries | LogArchiving/Program.cs:104-111 | the add loop: one entry per file under its base name; the first add that throws ends the loop with what it left |
| Archiver.DeleteFiles | LogArchiving/Program.cs:115-118 | the delete loop: each file deleted in order; the first delete that throws ends the loop |
| Archiver.MoveInto | LogArchiving/Program.cs:155-166 | the move loop: each file moved into the folder under its name; a move that throws is skipped |
| Archiver.Relocate | LogArchiving/Program.cs:122-124 | the relocation: nothing without a final folder; otherwise Substring(-4) is evaluated first |
| Archiver.ZipFilesRun | LogArchiving/Program.cs:82-136 | ZipFiles step by step; the ArchiverProperties lemmas state its outcome |
| Archiver.ZipFolderRun | LogArchiving/Program.cs:138-189 | ZipFolder step by step; the ArchiverProperties lemmas state its outcome |
| Archiver.AddAll | LogArchiving/Program.cs:104-111 | the add loop, on the filesystem in place, does what AddEntries specifies |
| Archiver.DeleteAll | LogArchiving/Program.cs:115-118 | the delete loop, in place, does what DeleteFiles specifies |
| Archiver.MoveAll | LogArchiving/Program.cs:155-166 | the move loop, in place, does what MoveInto specifies, each IOException caught |
| Archiver.RelocateArchive | LogArchiving/Program.cs:122-124 | the relocation step, in place, does what Relocate specifies |
| Archiver.ZipFiles | LogArchiving/Program.cs:82-136 | final state and result are those of ZipFilesRun |
| Archiver.ZipFolder | LogArchiving/Program.cs:138-189 | final state and result are those of ZipFolderRun |
| Archiver.AddEntriesStopped | LogArchiving/Program.cs:104-131 | after the first failed add the remaining files change nothing |
| Archiver.DeleteFilesStopped | LogArchiving/Program.cs:115-131 | after the first failed delete the remaining files change nothing |
| ArchiverProperties.ArchiversRejectEmpty | LogArchiving/Program.cs:86-89 | an empty file list returns false and touches nothing (both methods) |
| ArchiverProperties.ArchiversRejectEmptyDestination | LogArchiving/Program.cs:90-91 | an empty destination path: CreateDirectory throws, the catch returns false, and the filesystem is unchanged (both methods) |
| ArchiverProperties.EnsureDestination | LogArchiving/Program.cs:90-91 | a non-empty destination that is a folder, or whose folders no file blocks, is present afterwards with its parents (FoldersAfter), and no file changes |
| ArchiverProperties.AddEntriesFrame | LogArchiving/Program.cs:104-111 | adding changes only the archive and no folder |
| ArchiverProperties.AddEntriesAllReadable | LogArchiving/Program.cs:104-111 | when every file is readable the archive gains exactly their base names |
| ArchiverProperties.AddEntriesUnreadable | LogArchiving/Program.cs:104-111 | one unreadable file makes the add loop fail |
| ArchiverProperties.DeleteFilesFrame | LogArchiving/Program.cs:115-118 | deleting changes only the listed files and no folder |
| ArchiverProperties.DeleteFilesUnlocked | LogArchiving/Program.cs:115-118 | with no locked file, exactly the listed files are removed |
| ArchiverProperties.ZipFilesArchivesAll | LogArchiving/Program.cs:86-124 | non-empty destination, all files readable: the archive holds exactly their names, every source is deleted, no other file changes, the destination and its missing parents are the only folders added, result true iff no final folder |
| ArchiverProperties.ZipFilesRunSteps | LogArchiving/Program.cs:90-124 | once the destination exists, ZipFiles is: create the archive, then add and delete, then relocate |
| ArchiverProperties.AddThenDeleteReadable | LogArchiving/Program.cs:94-118 | with every source readable, creating the archive returns, and adding then deleting leaves exactly the archive with their names in place of the sources |
| ArchiverProperties.ZipFilesKeepsSourcesOnFailedAdd | LogArchiving/Program.cs:104-131 | one unreadable file: result false and every file but the archive unchanged, so no source is deleted |
| ArchiverProperties.ZipFilesFrame | LogArchiving/Program.cs:82-136 | ZipFiles never touches a file that is neither a source nor the archive |
| ArchiverProperties.MoveIntoFrame | LogArchiving/Program.cs:155-166 | the move loop touches only the sources and the temporary folder |
| ArchiverProperties.MoveStepOpen | LogArchiving/Program.cs:159 | one move of an openable file keeps the loop invariant, the file now in the folder |
| ArchiverProperties.MoveStepStuck | LogArchiving/Program.cs:157-165 | one move of a locked or missing file throws, is caught, and keeps the loop invariant |
| ArchiverProperties.MoveIntoMovesOpenFiles | LogArchiving/Program.cs:155-166 | into a fresh folder, every openable source is moved under its name, the others stay, the folder holds exactly the moved names and nothing locked |
| ArchiverProperties.RelocateNeverMoves | LogArchiving/Program.cs:122-124 | relocation never moves the archive; it returns false whenever a final folder is given |
| ArchiverProperties.ArchiveAndDeleteFrame | LogArchiving/Program.cs:168-173 | zipping and deleting the folder change nothing outside it but the archive |
| ArchiverProperties.ZipFolderFrame | LogArchiving/Program.cs:138-189 | ZipFolder never touches a file outside the temporary folder that is neither a source nor the archive |
| ArchiverProperties.MoveIntoKeepsLocked | LogArchiving/Program.cs:155-166 | the move loop never touches a file in use, and adds files only to the temporary folder |
| ArchiverProperties.ZipFolderLeftoverLocked | LogArchiving/Program.cs:150-185 | temporary folder already holding a file in use: result false, an archive left in the destination, the folder and that file kept, no folder added |
| ArchiverProperties.ZipFolderArchivesMovable | LogArchiving/Program.cs:146-179 | non-empty destination, fresh folder: result true iff no final folder, the temporary folder is gone and the folders added are exactly its parents (the destination and the destination's missing parents among them), and the archive holds exactly the movable sources' names |
| ArchiverProperties.ZipFolderRemovesMovable | LogArchiving/Program.cs:146-179 | same setting: no file is left in the temporary folder, every movable source is gone, and every source that could not be moved is unchanged |
| ArchiverProperties.ZipFolderFreshRun | LogArchiving/Program.cs:146-179 | same setting: ZipFolder's outcome is that of moving, zipping and deleting the folder, with result true iff no final folder |
| ArchiverProperties.ZipFolderRunSteps | LogArchiving/Program.cs:146-179 | once both folders exist, ZipFolder is: move, zip the folder, delete it, then relocate |
| ArchiverProperties.FolderSetup | LogArchiving/Program.cs:146-151 | a non-empty destination and a new temporary folder are both created, the folders added being the temporary folder and its parents, and which sources are movable is unchanged |
| ArchiverProperties.MoveArchiveDeleteFresh | LogArchiving/Program.cs:155-173 | into a fresh folder: move, zip and delete all return; the archive holds the movable names, the folder and the moved files are gone, the rest unchanged |
| ArchiverProperties.MoveArchiveDeleteOutcome | LogArchiving/Program.cs:146-173 | the same, stated for the state right after both folders are created: afterwards only the temporary folder's parents remain added |
| ArchiverProperties.ArchiveThenDelete | LogArchiving/Program.cs:168-173 | a folder with no file in use is zipped into a new archive holding its names and then deleted with its files; nothing else changes |
| ArchiverProperties.MoveIntoKeepsAbsent | LogArchiving/Program.cs:155-166 | the move loop never creates a file outside the temporary folder |
| ArchiverProperties.MoveArchiveDeleteLocked | LogArchiving/Program.cs:155-173 | a file in use in the folder: the delete throws, the archive exists, the folder and that file stay |
| Program.RuleRun | LogArchiving/Program.cs:23-48 | one loop body: build the rule, test the cadence, list the folder, choose the strategy; the Program lemmas state its outcome |
| Program.MainRun | LogArchiving/Program.cs:21-56 | at most one outcome per record; only the last outcome can be an exception, and it is one when records were left unprocessed |
| Program.ProcessRule | LogArchiving/Program.cs:23-48 | one loop body, in place, does what RuleRun specifies |
| Program.ArchiveAll | LogArchiving/Program.cs:17-59 | Main, in place, does what MainRun specifies on the records ReadArchiveConfig returns |
| Program.ProcessRecords | LogArchiving/Program.cs:21-50 | the loop over the records, in place, does what MainRun specifies |
| Program.MainRunStaysStopped | LogArchiving/Program.cs:17-59 | after an exception no later record changes anything |
| Program.OnlyArchivingChangesState | LogArchiving/Program.cs:23-48 | a bad record, an off-cadence rule or a missing folder leaves the filesystem as it was |
| Program.ThrowsIff | LogArchiving/Program.cs:23-38 | a record throws iff rule construction fails, or the rule is due and its folder is missing or its path is empty |
| Program.StrategyChoice | LogArchiving/Program.cs:37-44 | the selected count is the number of candidates, and the folder strategy is used iff it exceeds 20 |
| Program.ZeroFrequencyRunsDaily | LogArchiving/Program.cs:29-35 | a frequency field of 0 is never off-cadence |
| Program.OffCadenceReportPastStart | LogArchiving/Program.cs:35-48 | past start, positive frequency: the logged offset is the true number of days to the next run |
| Program.RuleRunFrame | LogArchiving/Program.cs:37-44 | a rule never touches an unselected file outside its destination and temporary folders |
| Program.MainRunFrame | LogArchiving/Program.cs:21-56 | Main never touches a file that every rule leaves alone in this sense |

## Left out

- Logging (NLog): every `log.Info` and `log.Error` is dropped. Exceptions are modelled only by their effect on state and results.
- Parallel.ForEach: rules run one after another in file order. That is one schedule the parallel loop may choose. Interleavings of concurrently running rules are not modelled.
- Exception kind: Main's two catch blocks (IOException, other exceptions) differ only in the log message, so they are one outcome.
- Zip format and compression: an archive is the set of its entry names. Byte contents, compression level, and duplicate entry names (a set collapses them) are not modelled.
- Archive contents: the files' own contents are not tracked, only which path holds which entry.
- Calendar: `Convert.ToDateTime` is a parser parameter giving minutes. `DateTime` range limits, time zones and daylight saving are not modelled. `DateTime.Today`, `DateTime.Now` and the cadence clock are one reading per rule.
- Glob matching: the `GetFiles(Filetype)` listing is a parameter. The model does not tie it to the files present in the folder.
- Path.Combine: joining is `dir + '\' + name`. Rooted second arguments and separator normalisation are not modelled.
- FileSystems.WithDirectory: of the invalid paths only the empty one is rejected; invalid characters and over-long paths are not modelled. The parent folders are the prefixes before each separator, with no normalisation, so a doubled or trailing separator yields an extra folder name, and a drive root such as `C:` is counted as a folder. A file at a prefix above an existing folder blocks the call, which no real filesystem can hold.
- Zip names containing a separator: the archive and the temporary folder are taken as one name inside the destination folder. ZipFiles would need the subfolder to exist, and the model does not check that.
- UnauthorizedAccessException and other non-IO exceptions inside ZipFolder's move loop would escape the inner catch. The model treats every failed move as an IOException.
- Subfolders: a file already in the temporary folder's subfolders is not represented, because folders are flat.
- Config.IsRuleLine: the comment test is `line[0] == '*'`. `StartsWith("*")` compares with the current culture, where characters such as U+FEFF are ignorable and may come before the '*'; that is not modelled.
- Config.ReadArchiveConfig: keeps lines by Config.IsRuleLine, so a line whose '*' follows a culture-ignorable character is kept as a rule here but dropped by `StartsWith("*")`.
- FileSystems.WithFolderArchive: the folder's files are taken in ordinal name order. The real enumeration order is the filesystem's, so when a file is in use the model fixes which files were added before it.
- Archiver.Relocate: the move after `Substring(-4)` is kept, following the code, but that branch is unreachable because Substring with -4 always fails; nothing is stated about what the move would do.
- ArchiverProperties.ZipFolderArchivesMovable: requires a non-empty destination (the empty one is ArchiversRejectEmptyDestination), a fresh temporary folder, distinct base names and no existing archive. Colliding names are left to the general frame lemma ZipFolderFrame.
- ArchiverProperties.ZipFilesArchivesAll: covers a non-empty destination with every file readable; the empty destination is ArchiversRejectEmptyDestination. Partial failure is stated separately by ZipFilesKeepsSourcesOnFailedAdd.
- Program.RuleRunFrame: excludes the whole destination and temporary folders, not only the archive path.
- Program.OffCadenceReportPastStart: covers past start dates with positive frequencies only. The other cases are in the finding below.

## Findings

| source | as written | input that shows it | evidently intended | confidence | as-written member | corrected member |
|---|---|---|---|---|---|---|
| LogArchiving/Program.cs:48 | the next run date is logged as today + `frequency - datediff % frequency` | weekly rule whose start instant is two to three days ahead (datediff = -2, as TimeSpan.Days truncates): 9 days are logged, but the rule next runs in 2 | the number of days until `datediff % frequency == 0` next holds | not executed | Cadence.NextRunOffsetCounterexample | Cadence.DaysUntilNextRunIsNext |
