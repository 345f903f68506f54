/** What the two archiving strategies do to the filesystem, proved on their step functions. */
module ArchiverProperties {
  import opened Wrappers
  import opened FileSystems
  import opened Timestamps
  import opened Archiver

  /** Both strategies return false on an empty list and touch nothing. */
  lemma ArchiversRejectEmpty(s: FsState, zipName: string, dest: string, finalPath: string,
                             t1: Timestamp, t2: Timestamp, t3: Timestamp)
    ensures ZipFilesRun(s, [], zipName, dest, finalPath, t1, t2) == Run(s, false)
    ensures ZipFolderRun(s, [], zipName, dest, finalPath, t1, t2, t3) == Run(s, false)
  {
  }

  /**
   * An empty destination path: Directory.Exists("") is false and
   * Directory.CreateDirectory("") throws, so both strategies return false
   * before touching anything.
   */
  lemma ArchiversRejectEmptyDestination(s: FsState, srcs: seq<Path>, zipName: string, finalPath: string,
                                        t1: Timestamp, t2: Timestamp, t3: Timestamp)
    ensures ZipFilesRun(s, srcs, zipName, "", finalPath, t1, t2) == Run(s, false)
    ensures ZipFolderRun(s, srcs, zipName, "", finalPath, t1, t2, t3) == Run(s, false)
  {
    assert EnsureDirectory(s, "").None?;
  }

  /**
   * A destination that exists, or whose folders no file blocks, is there
   * after the folder step with its parents; no file changes.
   */
  lemma EnsureDestination(s: FsState, dest: string)
    requires dest != "" && (dest in s.dirs || !ChainBlocked(s, dest))
    ensures EnsureDirectory(s, dest) == Some(s.(dirs := FoldersAfter(s.dirs, dest)))
    ensures dest in FoldersAfter(s.dirs, dest)
  {
    FolderChainMembers(dest, dest);
  }

  // ---------------------------------------------------------------- ZipFiles

  /** Adds change only the archive and no folder. */
  lemma {:induction false} AddEntriesFrame(s: FsState, zip: Path, srcs: seq<Path>)
    ensures AddEntries(s, zip, srcs).state.dirs == s.dirs
    ensures forall p :: p != zip ==> SameAt(s, AddEntries(s, zip, srcs).state, p)
    decreases |srcs|
  {
    if srcs != [] {
      var init, last := srcs[..|srcs| - 1], srcs[|srcs| - 1];
      AddEntriesFrame(s, zip, init);
      var prev := AddEntries(s, zip, init);
      if prev.ok {
        var next := WithEntry(prev.state, zip, last, last.name).state;
        assert AddEntries(s, zip, srcs).state == next;
        forall p | p != zip
          ensures SameAt(s, next, p)
        {
          assert SameAt(s, prev.state, p);
        }
      }
    }
  }

  /** When every source is readable, the archive gains exactly the sources' names. */
  lemma {:induction false} AddEntriesAllReadable(s: FsState, zip: Path, srcs: seq<Path>)
    requires zip in s.files && s.files[zip].Archive? && FullName(zip) !in s.dirs
    requires forall p :: p in srcs ==> Readable(s, zip, p)
    ensures AddEntries(s, zip, srcs) ==
      Run(s.(files := s.files[zip := Archive(s.files[zip].members + NameSet(srcs))]), true)
    decreases |srcs|
  {
    if srcs == [] {
      assert NameSet(srcs) == {};
      assert s.files[zip].members + NameSet(srcs) == s.files[zip].members;
      assert Archive(s.files[zip].members) == s.files[zip];
      assert s.files[zip := s.files[zip]] == s.files;
    } else {
      var init, last := srcs[..|srcs| - 1], srcs[|srcs| - 1];
      assert srcs == init + [last];
      AddEntriesAllReadable(s, zip, init);
      var members := s.files[zip].members;
      var prev := s.(files := s.files[zip := Archive(members + NameSet(init))]);
      assert AddEntries(s, zip, init) == Run(prev, true);
      assert last in srcs && last != zip;
      assert prev.files[last] == s.files[last];
      var next := prev.(files := prev.files[zip := Archive(members + NameSet(init) + {last.name})]);
      assert WithEntry(prev, zip, last, last.name) == Run(next, true);
      assert NameSet(srcs) == NameSet(init) + {last.name};
      assert members + NameSet(init) + {last.name} == members + NameSet(srcs);
      assert next.files == s.files[zip := Archive(members + NameSet(srcs))];
    }
  }

  /** A source that cannot be read makes the add loop fail. */
  lemma {:induction false} AddEntriesUnreadable(s: FsState, zip: Path, srcs: seq<Path>, bad: Path)
    requires bad in srcs && !Readable(s, zip, bad)
    ensures !AddEntries(s, zip, srcs).ok
    decreases |srcs|
  {
    var init, last := srcs[..|srcs| - 1], srcs[|srcs| - 1];
    assert srcs == init + [last];
    if bad in init {
      AddEntriesUnreadable(s, zip, init, bad);
    } else {
      assert bad == last;
      AddEntriesFrame(s, zip, init);
      var prev := AddEntries(s, zip, init);
      if prev.ok && bad != zip {
        assert SameAt(s, prev.state, bad);
        assert !CanOpen(prev.state, bad);
      }
    }
  }

  /** Deletes change only the sources. */
  lemma {:induction false} DeleteFilesFrame(s: FsState, srcs: seq<Path>)
    ensures DeleteFiles(s, srcs).state.dirs == s.dirs
    ensures forall p :: p !in srcs ==> SameAt(s, DeleteFiles(s, srcs).state, p)
    decreases |srcs|
  {
    if srcs != [] {
      var init := srcs[..|srcs| - 1];
      assert srcs == init + [srcs[|srcs| - 1]];
      DeleteFilesFrame(s, init);
    }
  }

  /** When no source is in use, every source is deleted and nothing else. */
  lemma {:induction false} DeleteFilesUnlocked(s: FsState, srcs: seq<Path>)
    requires forall p :: p in srcs ==> !IsLocked(s, p)
    ensures DeleteFiles(s, srcs) == Run(s.(files := s.files - PathSet(srcs)), true)
    decreases |srcs|
  {
    if srcs != [] {
      var init, last := srcs[..|srcs| - 1], srcs[|srcs| - 1];
      assert srcs == init + [last];
      DeleteFilesUnlocked(s, init);
      assert PathSet(srcs) == PathSet(init) + {last};
      assert (s.files - PathSet(init)) - {last} == s.files - PathSet(srcs);
    }
  }

  /** ZipFiles' two loops: add every file, then, when every add returned, delete every file. */
  function AddThenDelete(s2: FsState, zip: Path, srcs: seq<Path>): Run {
    var added := AddEntries(s2, zip, srcs);
    if !added.ok then added else DeleteFiles(added.state, srcs)
  }

  /**
   * ZipFiles once the destination folder step has returned: the empty
   * archive is written, then the two loops run, then the relocation.
   */
  lemma ZipFilesRunSteps(s: FsState, srcs: seq<Path>, zipName: string, dest: string, finalPath: string,
                         stamp: Timestamp, relocationStamp: Timestamp, s1: FsState)
    requires srcs != []
    requires EnsureDirectory(s, dest) == Some(s1)
    ensures ZipFilesRun(s, srcs, zipName, dest, finalPath, stamp, relocationStamp) ==
      match WithEmptyArchive(s1, ArchivePath(dest, zipName, stamp))
      case None => Run(s1, false)
      case Some(s2) =>
        var r := AddThenDelete(s2, ArchivePath(dest, zipName, stamp), srcs);
        if r.ok then Relocate(r.state, ArchivePath(dest, zipName, stamp), finalPath, relocationStamp) else r
  {
  }

  /**
   * Writing an empty archive and running both loops when every file can be
   * read: all of it returns, the archive holds exactly the files' base names,
   * and the files are gone.
   */
  lemma AddThenDeleteReadable(s1: FsState, zip: Path, srcs: seq<Path>)
    requires FullName(zip) !in s1.dirs && !IsLocked(s1, zip)
    requires forall p :: p in srcs ==> Readable(s1, zip, p)
    ensures WithEmptyArchive(s1, zip).Some?
    ensures AddThenDelete(WithEmptyArchive(s1, zip).value, zip, srcs) ==
      Run(s1.(files := (s1.files - PathSet(srcs))[zip := Archive(NameSet(srcs))]), true)
  {
    var s2 := WithEmptyArchive(s1, zip).value;
    assert s2.files == s1.files[zip := Archive({})];
    AddEntriesAllReadable(s2, zip, srcs);
    var added := AddEntries(s2, zip, srcs).state;
    assert {} + NameSet(srcs) == NameSet(srcs);
    assert added.files == s1.files[zip := Archive(NameSet(srcs))];
    DeleteFilesUnlocked(added, srcs);
    assert zip !in PathSet(srcs);
    assert added.files - PathSet(srcs) == (s1.files - PathSet(srcs))[zip := Archive(NameSet(srcs))];
  }

  /**
   * ZipFiles when every file can be read: the archive holds every file under
   * its base name, every source is deleted, nothing else changes, and the
   * result is true exactly when there is no final path.
   */
  lemma ZipFilesArchivesAll(s: FsState, srcs: seq<Path>, zipName: string, dest: string, finalPath: string,
                            stamp: Timestamp, relocationStamp: Timestamp)
    requires srcs != []
    requires dest != ""
    requires dest in s.dirs || !ChainBlocked(s, dest)
    requires FullName(ArchivePath(dest, zipName, stamp)) !in s.dirs && !IsLocked(s, ArchivePath(dest, zipName, stamp))
    requires forall p :: p in srcs ==> Readable(s, ArchivePath(dest, zipName, stamp), p)
    ensures ZipFilesRun(s, srcs, zipName, dest, finalPath, stamp, relocationStamp).ok == (finalPath == "")
    ensures ZipFilesRun(s, srcs, zipName, dest, finalPath, stamp, relocationStamp).state ==
      FsState((s.files - PathSet(srcs))[ArchivePath(dest, zipName, stamp) := Archive(NameSet(srcs))], FoldersAfter(s.dirs, dest))
  {
    var zip := ArchivePath(dest, zipName, stamp);
    EnsureDestination(s, dest);
    var s1 := s.(dirs := FoldersAfter(s.dirs, dest));
    TempFolderAndArchiveLengths(dest, zipName, stamp, stamp);
    FolderChainMembers(dest, FullName(zip));
    ZipFilesRunSteps(s, srcs, zipName, dest, finalPath, stamp, relocationStamp, s1);
    AddThenDeleteReadable(s1, zip, srcs);
    RelocateNeverMoves(AddThenDelete(WithEmptyArchive(s1, zip).value, zip, srcs).state, zip, finalPath, relocationStamp);
  }

  /**
   * ZipFiles when some file cannot be read: the result is false and no file
   * but the archive itself has changed, so no source is deleted.
   */
  lemma ZipFilesKeepsSourcesOnFailedAdd(s: FsState, srcs: seq<Path>, zipName: string, dest: string, finalPath: string,
                                        stamp: Timestamp, relocationStamp: Timestamp, bad: Path)
    requires bad in srcs && !Readable(s, ArchivePath(dest, zipName, stamp), bad)
    ensures !ZipFilesRun(s, srcs, zipName, dest, finalPath, stamp, relocationStamp).ok
    ensures forall p :: p != ArchivePath(dest, zipName, stamp) ==>
      SameAt(s, ZipFilesRun(s, srcs, zipName, dest, finalPath, stamp, relocationStamp).state, p)
  {
    var zip := ArchivePath(dest, zipName, stamp);
    match EnsureDirectory(s, dest)
    case None =>
    case Some(s1) =>
      match WithEmptyArchive(s1, zip)
      case None =>
      case Some(s2) =>
        AddEntriesUnreadable(s2, zip, srcs, bad);
        AddEntriesFrame(s2, zip, srcs);
        var added := AddEntries(s2, zip, srcs);
        assert ZipFilesRun(s, srcs, zipName, dest, finalPath, stamp, relocationStamp) == added;
        forall p | p != zip
          ensures SameAt(s, added.state, p)
        {
          assert SameAt(s2, added.state, p);
        }
  }

  /** ZipFiles never touches a file that is neither a source nor the archive. */
  lemma ZipFilesFrame(s: FsState, srcs: seq<Path>, zipName: string, dest: string, finalPath: string,
                      stamp: Timestamp, relocationStamp: Timestamp)
    ensures forall p :: p != ArchivePath(dest, zipName, stamp) && p !in srcs ==>
      SameAt(s, ZipFilesRun(s, srcs, zipName, dest, finalPath, stamp, relocationStamp).state, p)
  {
    var zip := ArchivePath(dest, zipName, stamp);
    if srcs != [] {
      match EnsureDirectory(s, dest)
      case None =>
      case Some(s1) =>
        match WithEmptyArchive(s1, zip)
        case None =>
        case Some(s2) =>
          AddEntriesFrame(s2, zip, srcs);
          var added := AddEntries(s2, zip, srcs);
          DeleteFilesFrame(added.state, srcs);
          var deleted := DeleteFiles(added.state, srcs);
          var r := ZipFilesRun(s, srcs, zipName, dest, finalPath, stamp, relocationStamp);
          assert r.state == added.state || r.state == deleted.state;
          forall p | p != zip && p !in srcs
            ensures SameAt(s, r.state, p)
          {
            assert SameAt(s2, added.state, p);
            assert SameAt(added.state, deleted.state, p);
          }
    }
  }

  // --------------------------------------------------------------- ZipFolder

  /** Moves change only the sources and the files in the folder. */
  lemma {:induction false} MoveIntoFrame(s: FsState, folder: string, srcs: seq<Path>)
    ensures MoveInto(s, folder, srcs).dirs == s.dirs
    ensures forall p: Path :: p.dir != folder && p !in srcs ==> SameAt(s, MoveInto(s, folder, srcs), p)
    decreases |srcs|
  {
    if srcs != [] {
      var init := srcs[..|srcs| - 1];
      assert srcs == init + [srcs[|srcs| - 1]];
      MoveIntoFrame(s, folder, init);
    }
  }

  predicate DistinctNames(srcs: seq<Path>) {
    forall i, j :: 0 <= i < j < |srcs| ==> srcs[i].name != srcs[j].name
  }

  /** What the move loop has done after the sources `srcs`, when it started from `s`. */
  ghost predicate MovedSoFar(s: FsState, folder: string, srcs: seq<Path>, m: FsState) {
    && m.dirs == s.dirs
    && (forall p: Path :: p.dir != folder && p !in srcs ==> SameAt(s, m, p))
    && (forall p :: p in srcs && CanOpen(s, p) ==>
          p !in m.files && Path(folder, p.name) in m.files && m.files[Path(folder, p.name)] == s.files[p])
    && (forall p :: p in srcs && !CanOpen(s, p) ==> SameAt(s, m, p))
    && NamesIn(m, folder) == MovableNames(s, srcs)
    && !HasLockedFileIn(m, folder)
  }

  /** The preconditions under which the move loop is described by MovedSoFar. */
  ghost predicate FreshFolder(s: FsState, folder: string, srcs: seq<Path>) {
    && (forall p :: p in s.files ==> p.dir != folder)
    && (forall p :: p in srcs ==> p.dir != folder && FullName(Path(folder, p.name)) !in s.dirs)
    && DistinctNames(srcs)
  }

  /** One iteration of the move loop on a file that can be opened. */
  lemma MoveStepOpen(s: FsState, folder: string, init: seq<Path>, last: Path, prev: FsState)
    requires FreshFolder(s, folder, init + [last])
    requires MovedSoFar(s, folder, init, prev)
    requires CanOpen(s, last)
    ensures WithMove(prev, last, Path(folder, last.name)).Some?
    ensures MovedSoFar(s, folder, init + [last], WithMove(prev, last, Path(folder, last.name)).value)
  {
    var srcs := init + [last];
    var dst := Path(folder, last.name);
    assert last in srcs;
    forall q | q in init
      ensures q.name != last.name
    {
      var i :| 0 <= i < |init| && init[i] == q;
      assert srcs[i] == q && srcs[|init|] == last;
    }
    assert SameAt(s, prev, last);
    assert last.name !in MovableNames(s, init);
    assert dst !in prev.files;
    var m := WithMove(prev, last, dst).value;
    assert m.files == (prev.files - {last})[dst := s.files[last]];
    forall p: Path | p.dir != folder && p !in srcs
      ensures SameAt(s, m, p)
    {
      assert SameAt(s, prev, p);
    }
    forall p | p in srcs && CanOpen(s, p)
      ensures p !in m.files && Path(folder, p.name) in m.files && m.files[Path(folder, p.name)] == s.files[p]
    {
      if p != last {
        assert p in init;
      }
    }
    forall p | p in srcs && !CanOpen(s, p)
      ensures SameAt(s, m, p)
    {
      assert p in init;
    }
    assert MovableNames(s, srcs) == MovableNames(s, init) + {last.name};
    forall n
      ensures n in NamesIn(m, folder) <==> n in NamesIn(prev, folder) + {last.name}
    {
      if n in NamesIn(m, folder) {
        var p :| p in m.files && p.dir == folder && p.name == n;
        if p != dst {
          assert p in prev.files;
        }
      }
      if n in NamesIn(prev, folder) {
        var p :| p in prev.files && p.dir == folder && p.name == n;
        assert p in m.files;
      }
    }
    forall p | p in m.files && p.dir == folder
      ensures !IsLocked(m, p)
    {
      if p != dst {
        assert p in prev.files && !IsLocked(prev, p);
      }
    }
  }

  /** One iteration of the move loop on a file that cannot be opened: the move throws and nothing changes. */
  lemma MoveStepStuck(s: FsState, folder: string, init: seq<Path>, last: Path, prev: FsState)
    requires FreshFolder(s, folder, init + [last])
    requires MovedSoFar(s, folder, init, prev)
    requires !CanOpen(s, last)
    ensures WithMove(prev, last, Path(folder, last.name)).None?
    ensures MovedSoFar(s, folder, init + [last], prev)
  {
    var srcs := init + [last];
    assert last in srcs;
    forall q | q in init
      ensures q != last
    {
      var i :| 0 <= i < |init| && init[i] == q;
      assert srcs[i] == q && srcs[|init|] == last;
    }
    assert SameAt(s, prev, last);
    forall p | p in srcs && CanOpen(s, p)
      ensures p in init
    {
    }
    assert MovableNames(s, srcs) == MovableNames(s, init);
  }

  /**
   * Moving files with distinct names from outside into an empty folder: each
   * file that can be opened ends up in the folder under its name, each other
   * file stays where it was, and the folder holds exactly the moved names.
   */
  lemma {:induction false} MoveIntoMovesOpenFiles(s: FsState, folder: string, srcs: seq<Path>)
    requires FreshFolder(s, folder, srcs)
    ensures MovedSoFar(s, folder, srcs, MoveInto(s, folder, srcs))
    decreases |srcs|
  {
    if srcs == [] {
      assert NamesIn(s, folder) == {};
      assert MovableNames(s, srcs) == {};
    } else {
      var init, last := srcs[..|srcs| - 1], srcs[|srcs| - 1];
      assert srcs == init + [last];
      assert FreshFolder(s, folder, init) by {
        forall i, j | 0 <= i < j < |init|
          ensures init[i].name != init[j].name
        {
          assert init[i] == srcs[i] && init[j] == srcs[j];
        }
      }
      MoveIntoMovesOpenFiles(s, folder, init);
      var prev := MoveInto(s, folder, init);
      if CanOpen(s, last) {
        MoveStepOpen(s, folder, init, last, prev);
      } else {
        MoveStepStuck(s, folder, init, last, prev);
      }
    }
  }

  /** The relocation step never moves the archive: the Substring call throws first whenever there is a final path. */
  lemma RelocateNeverMoves(s: FsState, zip: Path, finalPath: string, t: Timestamp)
    ensures Relocate(s, zip, finalPath, t) == Run(s, finalPath == "")
  {
    assert Substring(zip.name, RELOCATION_START).None?;
  }

  /** Zipping the folder and deleting it change nothing outside the folder but the archive. */
  lemma ArchiveAndDeleteFrame(s3: FsState, folder: string, zip: Path, p: Path)
    requires p != zip && p.dir != folder
    ensures SameAt(s3, WithFolderArchive(s3, folder, zip).state, p)
    ensures SameAt(s3, WithoutDirectory(WithFolderArchive(s3, folder, zip).state, folder).state, p)
  {
  }

  /** ZipFolder never touches a file outside the temporary folder that is neither a source nor the archive. */
  lemma ZipFolderFrame(s: FsState, srcs: seq<Path>, zipName: string, dest: string, finalPath: string,
                       folderStamp: Timestamp, archiveStamp: Timestamp, relocationStamp: Timestamp)
    ensures forall p: Path :: p != ArchivePath(dest, zipName, archiveStamp) && p.dir != TempFolder(dest, zipName, folderStamp) && p !in srcs ==>
      SameAt(s, ZipFolderRun(s, srcs, zipName, dest, finalPath, folderStamp, archiveStamp, relocationStamp).state, p)
  {
    var folder := TempFolder(dest, zipName, folderStamp);
    var zip := ArchivePath(dest, zipName, archiveStamp);
    var r := ZipFolderRun(s, srcs, zipName, dest, finalPath, folderStamp, archiveStamp, relocationStamp);
    if srcs != [] {
      match EnsureDirectory(s, dest)
      case None =>
      case Some(s1) =>
        match EnsureDirectory(s1, folder)
        case None =>
        case Some(s2) =>
          var s3 := MoveInto(s2, folder, srcs);
          MoveIntoFrame(s2, folder, srcs);
          var archived := WithFolderArchive(s3, folder, zip);
          var deleted := WithoutDirectory(archived.state, folder);
          RelocateNeverMoves(deleted.state, zip, finalPath, relocationStamp);
          assert r.state == archived.state || r.state == deleted.state;
          forall p: Path | p != zip && p.dir != folder && p !in srcs
            ensures SameAt(s, r.state, p)
          {
            assert SameAt(s2, s3, p);
            ArchiveAndDeleteFrame(s3, folder, zip, p);
          }
    }
  }

  /**
   * ZipFolder's two folder steps for a new temporary folder inside a
   * destination that exists or can be created: both folders are there
   * afterwards, nothing else changes, and the temporary folder is still fresh.
   */
  lemma FolderSetup(s: FsState, dest: string, folder: string, srcs: seq<Path>)
    requires dest != "" && |folder| > |dest| && FolderChain(dest) <= FolderChain(folder)
    requires folder !in s.dirs && !ChainBlocked(s, folder)
    requires FreshFolder(s, folder, srcs)
    ensures EnsureDirectory(s, dest).Some?
    ensures EnsureDirectory(EnsureDirectory(s, dest).value, folder) == Some(s.(dirs := s.dirs + FolderChain(folder)))
    ensures FreshFolder(s.(dirs := s.dirs + FolderChain(folder)), folder, srcs)
    ensures MovableNames(s.(dirs := s.dirs + FolderChain(folder)), srcs) == MovableNames(s, srcs)
  {
    assert !ChainBlocked(s, dest);
    EnsureDestination(s, dest);
    var s1 := s.(dirs := FoldersAfter(s.dirs, dest));
    FolderChainMembers(dest, folder);
    assert !ChainBlocked(s1, folder) && folder !in s1.dirs;
    assert s1.dirs + FolderChain(folder) == s.dirs + FolderChain(folder);
    var s2 := s.(dirs := s.dirs + FolderChain(folder));
    forall p | p in srcs
      ensures FullName(Path(folder, p.name)) !in s2.dirs
    {
      assert |FullName(Path(folder, p.name))| > |folder|;
      FolderChainMembers(folder, FullName(Path(folder, p.name)));
    }
  }

  /** The move loop into a fresh folder does not bring a file to an absent path outside the folder. */
  lemma MoveIntoKeepsAbsent(s: FsState, folder: string, srcs: seq<Path>, zip: Path)
    requires MovedSoFar(s, folder, srcs, MoveInto(s, folder, srcs))
    requires zip !in s.files && zip.dir != folder
    ensures zip !in MoveInto(s, folder, srcs).files
  {
    var m := MoveInto(s, folder, srcs);
    if zip in srcs {
      assert !CanOpen(s, zip);
      assert SameAt(s, m, zip);
    } else {
      assert SameAt(s, m, zip);
    }
  }

  /**
   * Zipping a folder with no file in use into a new archive and then deleting
   * the folder: both calls return, the archive holds the folder's names, the
   * folder and its files are gone, and nothing else changes.
   */
  lemma ArchiveThenDelete(s3: FsState, folder: string, zip: Path)
    requires zip !in s3.files && FullName(zip) !in s3.dirs && zip.dir != folder
    requires folder in s3.dirs && !HasLockedFileIn(s3, folder)
    ensures WithFolderArchive(s3, folder, zip).ok
    ensures WithoutDirectory(WithFolderArchive(s3, folder, zip).state, folder).ok
    ensures WithoutDirectory(WithFolderArchive(s3, folder, zip).state, folder).state.dirs == s3.dirs - {folder}
    ensures zip in WithoutDirectory(WithFolderArchive(s3, folder, zip).state, folder).state.files
    ensures WithoutDirectory(WithFolderArchive(s3, folder, zip).state, folder).state.files[zip] ==
      Archive(NamesIn(s3, folder))
    ensures forall p :: p in WithoutDirectory(WithFolderArchive(s3, folder, zip).state, folder).state.files ==>
      p.dir != folder
    ensures forall p :: p != zip && p.dir != folder ==>
      SameAt(s3, WithoutDirectory(WithFolderArchive(s3, folder, zip).state, folder).state, p)
  {
    var s4 := WithFolderArchive(s3, folder, zip).state;
    assert s4.files == s3.files[zip := Archive(NamesIn(s3, folder))];
    assert !HasLockedFileIn(s4, folder);
  }

  /** ZipFolder's steps after the folders exist: the move loop, the folder archive and the folder delete. */
  function MoveArchiveDelete(s2: FsState, folder: string, srcs: seq<Path>, zip: Path): Run {
    var archived := WithFolderArchive(MoveInto(s2, folder, srcs), folder, zip);
    if !archived.ok then archived else WithoutDirectory(archived.state, folder)
  }

  /**
   * ZipFolder once both folders exist: the outcome is that of the move,
   * archive and delete steps, followed by the relocation when they all return.
   */
  lemma ZipFolderRunSteps(s: FsState, srcs: seq<Path>, zipName: string, dest: string, finalPath: string,
                          folderStamp: Timestamp, archiveStamp: Timestamp, relocationStamp: Timestamp, s2: FsState)
    requires srcs != []
    requires EnsureDirectory(s, dest).Some?
    requires EnsureDirectory(EnsureDirectory(s, dest).value, TempFolder(dest, zipName, folderStamp)) == Some(s2)
    ensures var r := MoveArchiveDelete(s2, TempFolder(dest, zipName, folderStamp), srcs, ArchivePath(dest, zipName, archiveStamp));
      ZipFolderRun(s, srcs, zipName, dest, finalPath, folderStamp, archiveStamp, relocationStamp) ==
      if r.ok then Relocate(r.state, ArchivePath(dest, zipName, archiveStamp), finalPath, relocationStamp) else r
  {
  }

  /**
   * Moving into a fresh, existing folder, zipping it into a new archive and
   * deleting it: all three return; the archive holds the movable names; the
   * movable sources, the folder and its files are gone; the other sources
   * stay; and the other folders are as they were.
   */
  lemma MoveArchiveDeleteFresh(s2: FsState, folder: string, srcs: seq<Path>, zip: Path)
    requires FreshFolder(s2, folder, srcs) && folder in s2.dirs
    requires zip !in s2.files && FullName(zip) !in s2.dirs && zip.dir != folder
    ensures MoveArchiveDelete(s2, folder, srcs, zip).ok
    ensures MoveArchiveDelete(s2, folder, srcs, zip).state.dirs == s2.dirs - {folder}
    ensures zip in MoveArchiveDelete(s2, folder, srcs, zip).state.files
    ensures MoveArchiveDelete(s2, folder, srcs, zip).state.files[zip] == Archive(MovableNames(s2, srcs))
    ensures forall p :: p in MoveArchiveDelete(s2, folder, srcs, zip).state.files ==> p.dir != folder
    ensures forall p :: p in srcs && CanOpen(s2, p) ==> p !in MoveArchiveDelete(s2, folder, srcs, zip).state.files
    ensures forall p :: p in srcs && !CanOpen(s2, p) && p != zip ==> SameAt(s2, MoveArchiveDelete(s2, folder, srcs, zip).state, p)
  {
    MoveIntoMovesOpenFiles(s2, folder, srcs);
    var s3 := MoveInto(s2, folder, srcs);
    MoveIntoKeepsAbsent(s2, folder, srcs, zip);
    ArchiveThenDelete(s3, folder, zip);
    forall p | p in srcs && !CanOpen(s2, p) && p != zip
      ensures SameAt(s2, MoveArchiveDelete(s2, folder, srcs, zip).state, p)
    {
      assert SameAt(s2, s3, p);
    }
  }

  /**
   * ZipFolder's steps after both folders are made, for a fresh temporary
   * folder inside the destination and no archive of that name yet, stated
   * against the state before the folders were made: all three return, the
   * archive holds the movable names, the movable sources and the temporary
   * folder are gone, the destination exists, and the other sources are as
   * they were.
   */
  lemma MoveArchiveDeleteOutcome(s: FsState, srcs: seq<Path>, dest: string, folder: string, zip: Path)
    requires dest != "" && |folder| > |dest| && FolderChain(dest) <= FolderChain(folder)
    requires folder !in s.dirs && !ChainBlocked(s, folder)
    requires FreshFolder(s, folder, srcs)
    requires zip.dir == dest && |FullName(zip)| == |folder| + |ARCHIVE_EXTENSION|
    requires zip !in s.files && FullName(zip) !in s.dirs
    ensures MoveArchiveDelete(s.(dirs := s.dirs + FolderChain(folder)), folder, srcs, zip).ok
    ensures MoveArchiveDelete(s.(dirs := s.dirs + FolderChain(folder)), folder, srcs, zip).state.dirs == s.dirs + (FolderChain(folder) - {folder})
    ensures zip in MoveArchiveDelete(s.(dirs := s.dirs + FolderChain(folder)), folder, srcs, zip).state.files
    ensures MoveArchiveDelete(s.(dirs := s.dirs + FolderChain(folder)), folder, srcs, zip).state.files[zip] == Archive(MovableNames(s, srcs))
    ensures forall p :: p in MoveArchiveDelete(s.(dirs := s.dirs + FolderChain(folder)), folder, srcs, zip).state.files ==> p.dir != folder
    ensures forall p :: p in srcs && CanOpen(s, p) ==> p !in MoveArchiveDelete(s.(dirs := s.dirs + FolderChain(folder)), folder, srcs, zip).state.files
    ensures forall p :: p in srcs && !CanOpen(s, p) && p != zip ==> SameAt(s, MoveArchiveDelete(s.(dirs := s.dirs + FolderChain(folder)), folder, srcs, zip).state, p)
  {
    FolderSetup(s, dest, folder, srcs);
    FolderChainMembers(folder, folder);
    FolderChainMembers(folder, FullName(zip));
    MoveArchiveDeleteFresh(s.(dirs := s.dirs + FolderChain(folder)), folder, srcs, zip);
    assert (s.dirs + FolderChain(folder)) - {folder} == s.dirs + (FolderChain(folder) - {folder});
  }

  /**
   * ZipFolder into a fresh folder, with no archive of that name yet: the
   * outcome is what the move, archive and delete steps leave, and the result
   * is true exactly when there is no final path.
   */
  lemma ZipFolderFreshRun(s: FsState, srcs: seq<Path>, zipName: string, dest: string, finalPath: string,
                          folderStamp: Timestamp, archiveStamp: Timestamp, relocationStamp: Timestamp)
    requires srcs != []
    requires dest != ""
    requires TempFolder(dest, zipName, folderStamp) !in s.dirs && !ChainBlocked(s, TempFolder(dest, zipName, folderStamp))
    requires FreshFolder(s, TempFolder(dest, zipName, folderStamp), srcs)
    requires ArchivePath(dest, zipName, archiveStamp) !in s.files
    requires FullName(ArchivePath(dest, zipName, archiveStamp)) !in s.dirs
    ensures ZipFolderRun(s, srcs, zipName, dest, finalPath, folderStamp, archiveStamp, relocationStamp) ==
      Run(MoveArchiveDelete(s.(dirs := s.dirs + FolderChain(TempFolder(dest, zipName, folderStamp))), TempFolder(dest, zipName, folderStamp), srcs, ArchivePath(dest, zipName, archiveStamp)).state, finalPath == "")
  {
    var folder := TempFolder(dest, zipName, folderStamp);
    var zip := ArchivePath(dest, zipName, archiveStamp);
    TempFolderAndArchiveLengths(dest, zipName, folderStamp, archiveStamp);
    DestinationInTempChain(dest, zipName, folderStamp);
    FolderSetup(s, dest, folder, srcs);
    var s2 := s.(dirs := s.dirs + FolderChain(folder));
    MoveArchiveDeleteOutcome(s, srcs, dest, folder, zip);
    ZipFolderRunSteps(s, srcs, zipName, dest, finalPath, folderStamp, archiveStamp, relocationStamp, s2);
    RelocateNeverMoves(MoveArchiveDelete(s2, folder, srcs, zip).state, zip, finalPath, relocationStamp);
  }

  /**
   * ZipFolder into a fresh folder, with no archive of that name yet: the
   * archive holds exactly the names of the sources that could be moved, the
   * temporary folder is gone and the destination exists, and the result is
   * true exactly when there is no final path.
   */
  lemma ZipFolderArchivesMovable(s: FsState, srcs: seq<Path>, zipName: string, dest: string, finalPath: string,
                                 folderStamp: Timestamp, archiveStamp: Timestamp, relocationStamp: Timestamp)
    requires srcs != []
    requires dest != ""
    requires TempFolder(dest, zipName, folderStamp) !in s.dirs && !ChainBlocked(s, TempFolder(dest, zipName, folderStamp))
    requires FreshFolder(s, TempFolder(dest, zipName, folderStamp), srcs)
    requires ArchivePath(dest, zipName, archiveStamp) !in s.files
    requires FullName(ArchivePath(dest, zipName, archiveStamp)) !in s.dirs
    ensures ZipFolderRun(s, srcs, zipName, dest, finalPath, folderStamp, archiveStamp, relocationStamp).ok == (finalPath == "")
    ensures ZipFolderRun(s, srcs, zipName, dest, finalPath, folderStamp, archiveStamp, relocationStamp).state.dirs ==
      s.dirs + (FolderChain(TempFolder(dest, zipName, folderStamp)) - {TempFolder(dest, zipName, folderStamp)})
    ensures ArchivePath(dest, zipName, archiveStamp) in ZipFolderRun(s, srcs, zipName, dest, finalPath, folderStamp, archiveStamp, relocationStamp).state.files
    ensures ZipFolderRun(s, srcs, zipName, dest, finalPath, folderStamp, archiveStamp, relocationStamp).state.files[ArchivePath(dest, zipName, archiveStamp)] == Archive(MovableNames(s, srcs))
  {
    ZipFolderFreshRun(s, srcs, zipName, dest, finalPath, folderStamp, archiveStamp, relocationStamp);
    TempFolderAndArchiveLengths(dest, zipName, folderStamp, archiveStamp);
    DestinationInTempChain(dest, zipName, folderStamp);
    MoveArchiveDeleteOutcome(s, srcs, dest, TempFolder(dest, zipName, folderStamp), ArchivePath(dest, zipName, archiveStamp));
  }

  /**
   * ZipFolder into a fresh folder, with no archive of that name yet: the
   * sources that could be moved are gone, the others are as they were, and
   * nothing is left in the temporary folder.
   */
  lemma ZipFolderRemovesMovable(s: FsState, srcs: seq<Path>, zipName: string, dest: string, finalPath: string,
                                 folderStamp: Timestamp, archiveStamp: Timestamp, relocationStamp: Timestamp)
    requires srcs != []
    requires dest != ""
    requires TempFolder(dest, zipName, folderStamp) !in s.dirs && !ChainBlocked(s, TempFolder(dest, zipName, folderStamp))
    requires FreshFolder(s, TempFolder(dest, zipName, folderStamp), srcs)
    requires ArchivePath(dest, zipName, archiveStamp) !in s.files
    requires FullName(ArchivePath(dest, zipName, archiveStamp)) !in s.dirs
    ensures forall p :: p in ZipFolderRun(s, srcs, zipName, dest, finalPath, folderStamp, archiveStamp, relocationStamp).state.files ==> p.dir != TempFolder(dest, zipName, folderStamp)
    ensures forall p :: p in srcs && CanOpen(s, p) ==> p !in ZipFolderRun(s, srcs, zipName, dest, finalPath, folderStamp, archiveStamp, relocationStamp).state.files
    ensures forall p :: p in srcs && !CanOpen(s, p) && p != ArchivePath(dest, zipName, archiveStamp) ==>
      SameAt(s, ZipFolderRun(s, srcs, zipName, dest, finalPath, folderStamp, archiveStamp, relocationStamp).state, p)
  {
    ZipFolderFreshRun(s, srcs, zipName, dest, finalPath, folderStamp, archiveStamp, relocationStamp);
    TempFolderAndArchiveLengths(dest, zipName, folderStamp, archiveStamp);
    DestinationInTempChain(dest, zipName, folderStamp);
    MoveArchiveDeleteOutcome(s, srcs, dest, TempFolder(dest, zipName, folderStamp), ArchivePath(dest, zipName, archiveStamp));
  }

  /** The move loop never touches a file in use, and adds files only to the folder. */
  lemma {:induction false} MoveIntoKeepsLocked(s: FsState, folder: string, srcs: seq<Path>)
    ensures forall q :: IsLocked(s, q) ==> SameAt(s, MoveInto(s, folder, srcs), q)
    ensures forall p :: p in MoveInto(s, folder, srcs).files && p.dir != folder ==> p in s.files
    decreases |srcs|
  {
    if srcs != [] {
      var init, last := srcs[..|srcs| - 1], srcs[|srcs| - 1];
      MoveIntoKeepsLocked(s, folder, init);
      var prev := MoveInto(s, folder, init);
      var moved := WithMove(prev, last, Path(folder, last.name));
      assert MoveInto(s, folder, srcs) == moved.GetOr(prev);
      forall q | IsLocked(s, q)
        ensures SameAt(s, moved.GetOr(prev), q)
      {
        assert SameAt(s, prev, q);
      }
    }
  }

  /**
   * ZipFolder when the temporary folder already exists and holds a file in
   * use: the result is false, an archive is left in the destination folder,
   * the folder stays with the file in use in it, and no folder is added.
   */
  lemma ZipFolderLeftoverLocked(s: FsState, srcs: seq<Path>, zipName: string, dest: string, finalPath: string,
                                folderStamp: Timestamp, archiveStamp: Timestamp, relocationStamp: Timestamp, q: Path)
    requires srcs != []
    requires IsDirectory(s, dest) && TempFolder(dest, zipName, folderStamp) in s.dirs
    requires q in s.files && q.dir == TempFolder(dest, zipName, folderStamp) && IsLocked(s, q)
    requires ArchivePath(dest, zipName, archiveStamp) !in s.files
    requires FullName(ArchivePath(dest, zipName, archiveStamp)) !in s.dirs
    ensures !ZipFolderRun(s, srcs, zipName, dest, finalPath, folderStamp, archiveStamp, relocationStamp).ok
    ensures ZipFolderRun(s, srcs, zipName, dest, finalPath, folderStamp, archiveStamp, relocationStamp).state.dirs == s.dirs
    ensures ArchivePath(dest, zipName, archiveStamp) in ZipFolderRun(s, srcs, zipName, dest, finalPath, folderStamp, archiveStamp, relocationStamp).state.files
    ensures IsLocked(ZipFolderRun(s, srcs, zipName, dest, finalPath, folderStamp, archiveStamp, relocationStamp).state, q)
  {
    var folder := TempFolder(dest, zipName, folderStamp);
    var zip := ArchivePath(dest, zipName, archiveStamp);
    TempFolderAndArchiveLengths(dest, zipName, folderStamp, archiveStamp);
    assert EnsureDirectory(s, folder) == Some(s);
    ZipFolderRunSteps(s, srcs, zipName, dest, finalPath, folderStamp, archiveStamp, relocationStamp, s);
    MoveArchiveDeleteLocked(s, folder, srcs, zip, q);
  }

  /**
   * Moving into a folder that holds a file in use and zipping it into a new
   * archive: the zip call throws, leaving the archive behind, the folders as
   * they were and the file in use in place.
   */
  lemma MoveArchiveDeleteLocked(s2: FsState, folder: string, srcs: seq<Path>, zip: Path, q: Path)
    requires folder in s2.dirs && q in s2.files && q.dir == folder && IsLocked(s2, q)
    requires zip !in s2.files && FullName(zip) !in s2.dirs && zip.dir != folder
    ensures !MoveArchiveDelete(s2, folder, srcs, zip).ok
    ensures MoveArchiveDelete(s2, folder, srcs, zip).state.dirs == s2.dirs
    ensures zip in MoveArchiveDelete(s2, folder, srcs, zip).state.files
    ensures IsLocked(MoveArchiveDelete(s2, folder, srcs, zip).state, q)
  {
    MoveIntoFrame(s2, folder, srcs);
    MoveIntoKeepsLocked(s2, folder, srcs);
    var s3 := MoveInto(s2, folder, srcs);
    assert SameAt(s2, s3, q);
    assert zip !in s3.files;
    assert HasLockedFileIn(s3, folder);
    assert WithFolderArchive(s3, folder, zip).state == s3.(files := s3.files[zip := Archive(NamesBeforeLocked(s3, folder))]);
  }
}
