/**
 * The two archiving strategies, ZipFiles and ZipFolder. Each is a method
 * that changes the filesystem step by step, and a function that gives the
 * outcome of the same steps: the final state and the method's boolean
 * result. Every exception inside them is caught and turns into `false`.
 */
module Archiver {
  import opened Wrappers
  import opened FileSystems
  import opened Timestamps

  /** The argument of the relocation step's Substring call. */
  const RELOCATION_START: int := -4

  /** Path.Combine(destinationpath, zipname + stamp) + ".zip". */
  function ArchivePath(dest: string, zipName: string, t: Timestamp): Path {
    Path(dest, ArchiveFileName(zipName, t))
  }

  /** Path.Combine(destinationpath, zipname + stamp): ZipFolder's temporary folder. */
  function TempFolder(dest: string, zipName: string, t: Timestamp): string {
    FullName(Path(dest, ArchiveBaseName(zipName, t)))
  }

  /**
   * Both names sit in the destination folder and are longer than it; the
   * archive's full path is four characters (".zip") longer than the folder's.
   */
  lemma TempFolderAndArchiveLengths(dest: string, zipName: string, folderStamp: Timestamp, archiveStamp: Timestamp)
    ensures ArchivePath(dest, zipName, archiveStamp).dir == dest
    ensures |TempFolder(dest, zipName, folderStamp)| == |dest| + 1 + |zipName| + STAMP_LENGTH
    ensures |FullName(ArchivePath(dest, zipName, archiveStamp))| == |TempFolder(dest, zipName, folderStamp)| + |ARCHIVE_EXTENSION|
  {
  }

  /**
   * ZipFolder zips its temporary folder into that folder's own name plus
   * ".zip" exactly when the clock gives the same stamp both times it is read.
   */
  lemma ArchiveBesideTempFolder(dest: string, zipName: string, folderStamp: Timestamp, archiveStamp: Timestamp)
    requires Valid(folderStamp) && Valid(archiveStamp)
    ensures FullName(ArchivePath(dest, zipName, archiveStamp)) == TempFolder(dest, zipName, folderStamp) + ARCHIVE_EXTENSION
      <==> folderStamp == archiveStamp
  {
    var head := dest + [SEPARATOR];
    var folderName := ArchiveBaseName(zipName, folderStamp) + ARCHIVE_EXTENSION;
    var archiveName := ArchiveFileName(zipName, archiveStamp);
    assert FullName(ArchivePath(dest, zipName, archiveStamp)) == head + archiveName;
    assert TempFolder(dest, zipName, folderStamp) + ARCHIVE_EXTENSION == head + folderName;
    if head + archiveName == head + folderName {
      assert archiveName == (head + archiveName)[|head|..];
      assert folderName == (head + folderName)[|head|..];
    }
    TempFolderMatchesArchive(zipName, folderStamp, archiveStamp);
  }

  /** `if (!Directory.Exists(path)) Directory.CreateDirectory(path);` */
  function EnsureDirectory(s: FsState, path: string): Option<FsState> {
    if IsDirectory(s, path) then Some(s) else WithDirectory(s, path)
  }

  /** The folders after EnsureDirectory returns on a non-empty path: the path and its parents are added unless it exists. */
  function FoldersAfter(dirs: set<string>, path: string): set<string> {
    if path in dirs then dirs else dirs + FolderChain(path)
  }

  /**
   * The temporary folder lies inside the destination, so creating it makes
   * sure of the destination and of the destination's parents as well.
   */
  lemma DestinationInTempChain(dest: string, zipName: string, t: Timestamp)
    requires dest != ""
    ensures FolderChain(dest) <= FolderChain(TempFolder(dest, zipName, t))
    ensures |TempFolder(dest, zipName, t)| > |dest|
  {
    var folder := TempFolder(dest, zipName, t);
    assert folder[..|dest|] == dest && folder[|dest|] == SEPARATOR;
    forall f | f in FolderChain(dest)
      ensures f in FolderChain(folder)
    {
      FolderChainMembers(dest, f);
      assert folder[..|f|] == dest[..|f|];
      FolderChainMembers(folder, f);
    }
  }

  /** A source the add step can read: it exists, is not in use and is not the archive being written. */
  predicate Readable(s: FsState, zip: Path, p: Path) {
    p != zip && CanOpen(s, p)
  }

  function PathSet(srcs: seq<Path>): set<Path> {
    set p | p in srcs
  }

  function NameSet(srcs: seq<Path>): set<string> {
    set p | p in srcs :: p.name
  }

  /** The names of the sources that can be moved: they exist and are not in use. */
  function MovableNames(s: FsState, srcs: seq<Path>): set<string> {
    set p | p in srcs && CanOpen(s, p) :: p.name
  }

  /** ZipFiles' first loop: one entry per file under its name; the first add that throws ends the run. */
  function AddEntries(s: FsState, zip: Path, srcs: seq<Path>): Run
    decreases |srcs|
  {
    if srcs == [] then Run(s, true)
    else
      var prev := AddEntries(s, zip, srcs[..|srcs| - 1]);
      var src := srcs[|srcs| - 1];
      if !prev.ok then prev
      else WithEntry(prev.state, zip, src, src.name)
  }

  /** ZipFiles' second loop: delete each source; the first delete that throws ends the run. */
  function DeleteFiles(s: FsState, srcs: seq<Path>): Run
    decreases |srcs|
  {
    if srcs == [] then Run(s, true)
    else
      var prev := DeleteFiles(s, srcs[..|srcs| - 1]);
      if !prev.ok then prev
      else match WithoutFile(prev.state, srcs[|srcs| - 1])
        case None => Run(prev.state, false)
        case Some(next) => Run(next, true)
  }

  /** ZipFolder's loop: move each source into the folder under its name; a move that throws is skipped. */
  function MoveInto(s: FsState, folder: string, srcs: seq<Path>): FsState
    decreases |srcs|
  {
    if srcs == [] then s
    else
      var prev := MoveInto(s, folder, srcs[..|srcs| - 1]);
      var src := srcs[|srcs| - 1];
      WithMove(prev, src, Path(folder, src.name)).GetOr(prev)
  }

  /**
   * The relocation step. With a final path, `zipfil.Name.Substring(-4)` is
   * evaluated first; it throws, so nothing moves and the run returns false.
   */
  function Relocate(s: FsState, zip: Path, finalPath: string, t: Timestamp): Run {
    if finalPath == "" then Run(s, true)
    else match Substring(zip.name, RELOCATION_START)
      case None => Run(s, false)
      case Some(tail) =>
        match WithMove(s, zip, Path(finalPath, tail + Format(t) + ARCHIVE_EXTENSION))
        case None => Run(s, false)
        case Some(next) => Run(next, true)
  }

  /** ZipFiles: create the archive, add every file, delete every file, relocate. */
  function ZipFilesRun(s: FsState, srcs: seq<Path>, zipName: string, dest: string, finalPath: string,
                       stamp: Timestamp, relocationStamp: Timestamp): Run
  {
    if srcs == [] then Run(s, false)
    else match EnsureDirectory(s, dest)
      case None => Run(s, false)
      case Some(s1) =>
        var zip := ArchivePath(dest, zipName, stamp);
        match WithEmptyArchive(s1, zip)
        case None => Run(s1, false)
        case Some(s2) =>
          var added := AddEntries(s2, zip, srcs);
          if !added.ok then added
          else
            var deleted := DeleteFiles(added.state, srcs);
            if !deleted.ok then deleted
            else Relocate(deleted.state, zip, finalPath, relocationStamp)
  }

  /**
   * ZipFolder: create the temporary folder (first clock reading), move the
   * files into it, zip it under the second clock reading, delete it, relocate.
   */
  function ZipFolderRun(s: FsState, srcs: seq<Path>, zipName: string, dest: string, finalPath: string,
                        folderStamp: Timestamp, archiveStamp: Timestamp, relocationStamp: Timestamp): Run
  {
    if srcs == [] then Run(s, false)
    else match EnsureDirectory(s, dest)
      case None => Run(s, false)
      case Some(s1) =>
        var folder := TempFolder(dest, zipName, folderStamp);
        match EnsureDirectory(s1, folder)
        case None => Run(s1, false)
        case Some(s2) =>
          var zip := ArchivePath(dest, zipName, archiveStamp);
          var s3 := MoveInto(s2, folder, srcs);
          var archived := WithFolderArchive(s3, folder, zip);
          if !archived.ok then archived
          else
            var deleted := WithoutDirectory(archived.state, folder);
            if !deleted.ok then deleted
            else Relocate(deleted.state, zip, finalPath, relocationStamp)
  }

  /** ZipFiles' first loop: open the archive and add one file per iteration. */
  method AddAll(fs: FileSystem, zip: Path, files: seq<Path>) returns (ok: bool)
    modifies fs
    ensures Run(fs.State(), ok) == AddEntries(old(fs.State()), zip, files)
  {
    ghost var start := fs.State();
    var i := 0;
    while i < |files|
      invariant 0 <= i <= |files|
      invariant AddEntries(start, zip, files[..i]) == Run(fs.State(), true)
    {
      assert files[..i + 1][..i] == files[..i];
      ok := fs.AddEntry(zip, files[i], files[i].name);
      if !ok {
        AddEntriesStopped(start, zip, files, i + 1);
        return;
      }
      i := i + 1;
    }
    assert files[..|files|] == files;
    ok := true;
  }

  /** ZipFiles' second loop: delete the files one by one. */
  method DeleteAll(fs: FileSystem, files: seq<Path>) returns (ok: bool)
    modifies fs
    ensures Run(fs.State(), ok) == DeleteFiles(old(fs.State()), files)
  {
    ghost var start := fs.State();
    var i := 0;
    while i < |files|
      invariant 0 <= i <= |files|
      invariant DeleteFiles(start, files[..i]) == Run(fs.State(), true)
    {
      assert files[..i + 1][..i] == files[..i];
      ok := fs.DeleteFile(files[i]);
      if !ok {
        DeleteFilesStopped(start, files, i + 1);
        return;
      }
      i := i + 1;
    }
    assert files[..|files|] == files;
    ok := true;
  }

  /** ZipFolder's loop: move each file into the folder; an IOException is caught and logged and the loop goes on. */
  method MoveAll(fs: FileSystem, folder: string, files: seq<Path>)
    modifies fs
    ensures fs.State() == MoveInto(old(fs.State()), folder, files)
  {
    ghost var start := fs.State();
    for i := 0 to |files|
      invariant fs.State() == MoveInto(start, folder, files[..i])
    {
      assert files[..i + 1][..i] == files[..i];
      var moved := fs.MoveFile(files[i], Path(folder, files[i].name));
    }
    assert files[..|files|] == files;
  }

  /** The relocation step of both methods. */
  method RelocateArchive(fs: FileSystem, zip: Path, finalPath: string, relocationStamp: Timestamp) returns (ok: bool)
    modifies fs
    ensures Run(fs.State(), ok) == Relocate(old(fs.State()), zip, finalPath, relocationStamp)
  {
    if finalPath == "" {
      return true;
    }
    var tail := Substring(zip.name, RELOCATION_START);
    var current := fs.State();
    // FileInfo.MoveTo runs only if Substring returned.
    var moved := match tail
      case None => None
      case Some(t) => WithMove(current, zip, Path(finalPath, t + Format(relocationStamp) + ARCHIVE_EXTENSION));
    ok := fs.Commit(moved);
  }

  /** ZipFiles(files, zipname, destinationpath, finalpath). */
  method ZipFiles(fs: FileSystem, files: seq<Path>, zipName: string, dest: string, finalPath: string,
                  stamp: Timestamp, relocationStamp: Timestamp) returns (ok: bool)
    modifies fs
    ensures Run(fs.State(), ok) == ZipFilesRun(old(fs.State()), files, zipName, dest, finalPath, stamp, relocationStamp)
  {
    if |files| == 0 {
      return false;
    }
    if !fs.DirectoryExists(dest) {
      ok := fs.CreateDirectory(dest);
      if !ok {
        return;
      }
    }
    var zip := ArchivePath(dest, zipName, stamp);
    ok := fs.CreateEmptyArchive(zip);
    if !ok {
      return;
    }
    ok := AddAll(fs, zip, files);
    if !ok {
      return;
    }
    ok := DeleteAll(fs, files);
    if !ok {
      return;
    }
    ok := RelocateArchive(fs, zip, finalPath, relocationStamp);
  }

  /** ZipFolder(files, zipname, destinationpath, finalpath). */
  method ZipFolder(fs: FileSystem, files: seq<Path>, zipName: string, dest: string, finalPath: string,
                   folderStamp: Timestamp, archiveStamp: Timestamp, relocationStamp: Timestamp) returns (ok: bool)
    modifies fs
    ensures Run(fs.State(), ok) ==
      ZipFolderRun(old(fs.State()), files, zipName, dest, finalPath, folderStamp, archiveStamp, relocationStamp)
  {
    if |files| == 0 {
      return false;
    }
    if !fs.DirectoryExists(dest) {
      ok := fs.CreateDirectory(dest);
      if !ok {
        return;
      }
    }
    var folder := TempFolder(dest, zipName, folderStamp);
    if !fs.DirectoryExists(folder) {
      ok := fs.CreateDirectory(folder);
      if !ok {
        return;
      }
    }
    var zip := ArchivePath(dest, zipName, archiveStamp);
    MoveAll(fs, folder, files);
    ok := fs.CreateArchiveFromDirectory(folder, zip);
    if !ok {
      return;
    }
    ok := fs.DeleteDirectory(folder);
    if !ok {
      return;
    }
    ok := RelocateArchive(fs, zip, finalPath, relocationStamp);
  }

  /** Once an add has thrown, the remaining files change nothing. */
  lemma {:induction false} AddEntriesStopped(s: FsState, zip: Path, srcs: seq<Path>, n: nat)
    requires n <= |srcs|
    requires !AddEntries(s, zip, srcs[..n]).ok
    ensures AddEntries(s, zip, srcs) == AddEntries(s, zip, srcs[..n])
    decreases |srcs| - n
  {
    if n < |srcs| {
      var longer := srcs[..n + 1];
      assert longer[..n] == srcs[..n];
      AddEntriesStopped(s, zip, srcs, n + 1);
    } else {
      assert srcs[..n] == srcs;
    }
  }

  /** Once a delete has thrown, the remaining files change nothing. */
  lemma {:induction false} DeleteFilesStopped(s: FsState, srcs: seq<Path>, n: nat)
    requires n <= |srcs|
    requires !DeleteFiles(s, srcs[..n]).ok
    ensures DeleteFiles(s, srcs) == DeleteFiles(s, srcs[..n])
    decreases |srcs| - n
  {
    if n < |srcs| {
      var longer := srcs[..n + 1];
      assert longer[..n] == srcs[..n];
      DeleteFilesStopped(s, srcs, n + 1);
    } else {
      assert srcs[..n] == srcs;
    }
  }
}
