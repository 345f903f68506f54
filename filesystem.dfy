/**
 * The filesystem the archiver works on, reduced to what it observes: files
 * by folder and name (a plain file, possibly in use by another process, or a
 * zip archive seen as the set of its entry names) and the set of folders.
 * Each System.IO call is a step function. A call that either completes or
 * throws before changing anything yields the new state, or None when it
 * throws. A call that can throw part-way through (the zip calls and the
 * recursive folder delete) yields a Run: the state it leaves behind and
 * whether it returned. The class FileSystem applies the steps in place.
 */
module FileSystems {
  import opened Wrappers

  const SEPARATOR: char := '\\'

  /** A file: the folder it is in and its name (FileInfo.DirectoryName and FileInfo.Name). */
  datatype Path = Path(dir: string, name: string)

  /** Path.Combine(dir, name), for names that are not rooted. */
  function FullName(p: Path): string {
    p.dir + [SEPARATOR] + p.name
  }

  /**
   * For names without a separator, Path.Combine loses nothing: the full name
   * gives back the folder and the name.
   */
  lemma FullNameDeterminesPath(p: Path, q: Path)
    requires SEPARATOR !in p.name && SEPARATOR !in q.name
    requires FullName(p) == FullName(q)
    ensures p == q
  {
    var f := FullName(p);
    assert f == FullName(q);
    assert f[|p.dir|] == SEPARATOR && f[|q.dir|] == SEPARATOR;
    assert forall i :: |p.dir| < i < |f| ==> f[i] == p.name[i - |p.dir| - 1];
    assert forall i :: |q.dir| < i < |f| ==> f[i] == q.name[i - |q.dir| - 1];
    assert |p.dir| == |q.dir|;
    assert p.dir == f[..|p.dir|] == q.dir;
    assert p.name == f[|p.dir| + 1..] == q.name;
  }

  /** A plain file (locked: in use by another process), or a zip archive with the names of its entries. */
  datatype Entry = Plain(locked: bool) | Archive(members: set<string>)

  datatype FsState = FsState(files: map<Path, Entry>, dirs: set<string>)

  predicate IsLocked(s: FsState, p: Path) {
    p in s.files && s.files[p] == Plain(true)
  }

  /** The file exists and can be opened. */
  predicate CanOpen(s: FsState, p: Path) {
    p in s.files && !IsLocked(s, p)
  }

  /** Directory.Exists: an empty path is never a folder. */
  predicate IsDirectory(s: FsState, path: string) {
    path != [] && path in s.dirs
  }

  /**
   * The folders Directory.CreateDirectory(path) makes sure of: the path itself
   * and each of its prefixes that ends just before a separator (its parents).
   */
  function FolderChain(path: string): set<string> {
    set i | 0 < i <= |path| && (i == |path| || path[i] == SEPARATOR) :: path[..i]
  }

  /** A folder is in the chain iff it is a non-empty prefix of the path that ends at the path's end or just before a separator. */
  lemma FolderChainMembers(path: string, f: string)
    ensures f in FolderChain(path) <==>
      0 < |f| <= |path| && f == path[..|f|] && (|f| == |path| || path[|f|] == SEPARATOR)
  {
    if 0 < |f| <= |path| && f == path[..|f|] && (|f| == |path| || path[|f|] == SEPARATOR) {
      var i := |f|;
      assert path[..i] in FolderChain(path);
    }
  }

  /** A file has the path of one of the folders that creating `path` needs. */
  predicate ChainBlocked(s: FsState, path: string) {
    exists p | p in s.files :: FullName(p) in FolderChain(path)
  }

  predicate HasLockedFileIn(s: FsState, dir: string) {
    exists p | p in s.files :: p.dir == dir && IsLocked(s, p)
  }

  /** The names of the files directly inside `dir`. */
  function NamesIn(s: FsState, dir: string): set<string> {
    set p | p in s.files && p.dir == dir :: p.name
  }

  /** The state after a call, or a sequence of calls, and whether it returned normally. */
  datatype Run = Run(state: FsState, ok: bool)

  /**
   * Ordinal string order: a proper prefix comes first, otherwise the first
   * differing character decides.
   */
  predicate OrdinalLess(a: string, b: string)
    decreases |a|
  {
    if a == [] then b != []
    else b != [] && (a[0] < b[0] || (a[0] == b[0] && OrdinalLess(a[1..], b[1..])))
  }

  /**
   * The files of `dir` that come before every file in use, in ordinal name
   * order: the ones a folder enumeration in that order reaches before it hits
   * a file it cannot open.
   */
  function NamesBeforeLocked(s: FsState, dir: string): set<string> {
    set p | p in s.files && p.dir == dir && !IsLocked(s, p) &&
            (forall q | q in s.files && q.dir == dir && IsLocked(s, q) :: OrdinalLess(p.name, q.name)) :: p.name
  }

  /** `s` and `t` hold the same file, or no file, at `p`. */
  predicate SameAt(s: FsState, t: FsState, p: Path) {
    (p in s.files <==> p in t.files) && (p in s.files ==> s.files[p] == t.files[p])
  }

  /**
   * Directory.CreateDirectory: creates the folder and every missing parent
   * folder; throws ArgumentException on an empty path and IOException when a
   * file has the path of one of those folders.
   */
  function WithDirectory(s: FsState, path: string): Option<FsState> {
    if path == [] || ChainBlocked(s, path) then None else Some(s.(dirs := s.dirs + FolderChain(path)))
  }

  /**
   * When CreateDirectory returns, the folder exists, and so does each parent
   * folder, the prefix before any of its separators.
   */
  lemma CreateDirectoryMakesParents(s: FsState, path: string, i: nat)
    requires WithDirectory(s, path).Some?
    requires 0 < i < |path| && path[i] == SEPARATOR
    ensures IsDirectory(WithDirectory(s, path).value, path)
    ensures IsDirectory(WithDirectory(s, path).value, path[..i])
  {
    FolderChainMembers(path, path);
    FolderChainMembers(path, path[..i]);
  }

  /**
   * new FileStream(zip, FileMode.Create, FileAccess.Write) with an empty
   * MemoryStream written to it: an empty archive replaces whatever file was
   * there; throws when a folder has that path or the file is in use.
   */
  function WithEmptyArchive(s: FsState, zip: Path): Option<FsState> {
    if FullName(zip) in s.dirs || IsLocked(s, zip) then None
    else Some(s.(files := s.files[zip := Archive({})]))
  }

  /**
   * ZipFile.Open(zip, Update), CreateEntryFromFile(src, name), then the
   * archive is disposed. Opening throws when a folder has the archive's path
   * or the file there is not a zip archive (or is in use); otherwise it opens
   * the archive, creating an empty one when there is none. The source is then
   * opened for reading, which throws when it is missing, in use, or the
   * archive itself; the opened archive is written back without the entry.
   */
  function WithEntry(s: FsState, zip: Path, src: Path, name: string): Run {
    if FullName(zip) in s.dirs || (zip in s.files && !s.files[zip].Archive?) then Run(s, false)
    else
      var members := if zip in s.files then s.files[zip].members else {};
      if src == zip || !CanOpen(s, src) then Run(s.(files := s.files[zip := Archive(members)]), false)
      else Run(s.(files := s.files[zip := Archive(members + {name})]), true)
  }

  /** FileInfo.Delete: nothing happens when the file is absent; throws when it is in use. */
  function WithoutFile(s: FsState, p: Path): Option<FsState> {
    if IsLocked(s, p) then None else Some(s.(files := s.files - {p}))
  }

  /** FileInfo.MoveTo: throws an IOException when the source is missing or in use, or the destination is taken. */
  function WithMove(s: FsState, src: Path, dst: Path): Option<FsState> {
    if !CanOpen(s, src) || dst in s.files || FullName(dst) in s.dirs then None
    else Some(s.(files := (s.files - {src})[dst := s.files[src]]))
  }

  /**
   * ZipFile.CreateFromDirectory(dir, zip) without the base folder. Creating
   * the archive throws when its path is taken (FileMode.CreateNew). Then the
   * folder is enumerated and each file added: a missing folder throws with
   * the archive still empty, and a file in use throws with the archive
   * holding the files added before it. Either way the archive is written.
   */
  function WithFolderArchive(s: FsState, dir: string, zip: Path): Run {
    if zip in s.files || FullName(zip) in s.dirs then Run(s, false)
    else if dir !in s.dirs then Run(s.(files := s.files[zip := Archive({})]), false)
    else if HasLockedFileIn(s, dir) then Run(s.(files := s.files[zip := Archive(NamesBeforeLocked(s, dir))]), false)
    else Run(s.(files := s.files[zip := Archive(NamesIn(s, dir))]), true)
  }

  /**
   * Directory.Delete(dir, true): throws when the folder is missing. It
   * deletes every file of the folder it can; when a file is in use it goes on
   * with the others, keeps the folder, and throws at the end.
   */
  function WithoutDirectory(s: FsState, dir: string): Run {
    if dir !in s.dirs then Run(s, false)
    else if HasLockedFileIn(s, dir) then
      Run(s.(files := map p | p in s.files && (p.dir != dir || IsLocked(s, p)) :: s.files[p]), false)
    else Run(FsState(map p | p in s.files && p.dir != dir :: s.files[p], s.dirs - {dir}), true)
  }

  lemma {:induction false} OrdinalLessIrreflexive(a: string)
    ensures !OrdinalLess(a, a)
    decreases |a|
  {
    if a != [] {
      OrdinalLessIrreflexive(a[1..]);
    }
  }

  /**
   * Adding to a missing archive creates it, and the archive is left behind
   * even when the source cannot be read; the entry is added iff the source
   * can be opened.
   */
  lemma EntryCreatesMissingArchive(s: FsState, zip: Path, src: Path, name: string)
    requires zip !in s.files && FullName(zip) !in s.dirs
    ensures WithEntry(s, zip, src, name).ok == CanOpen(s, src)
    ensures WithEntry(s, zip, src, name).state.files ==
      s.files[zip := Archive(if CanOpen(s, src) then {name} else {})]
    ensures WithEntry(s, zip, src, name).state.dirs == s.dirs
  {
    assert {} + {name} == {name};
  }

  /**
   * Zipping a folder that holds a file in use throws, but leaves an archive
   * behind. It holds only names of files of the folder that are not in use.
   */
  lemma FolderArchivePartial(s: FsState, dir: string, zip: Path)
    requires zip !in s.files && FullName(zip) !in s.dirs && dir in s.dirs
    requires HasLockedFileIn(s, dir)
    ensures !WithFolderArchive(s, dir, zip).ok
    ensures zip in WithFolderArchive(s, dir, zip).state.files
    ensures WithFolderArchive(s, dir, zip).state.files[zip].Archive?
    ensures WithFolderArchive(s, dir, zip).state.files[zip].members <= NamesIn(s, dir)
    ensures forall q :: q in s.files && q.dir == dir && IsLocked(s, q) ==>
      q.name !in WithFolderArchive(s, dir, zip).state.files[zip].members
    ensures forall p :: p != zip ==> SameAt(s, WithFolderArchive(s, dir, zip).state, p)
  {
    forall q | q in s.files && q.dir == dir && IsLocked(s, q)
      ensures q.name !in NamesBeforeLocked(s, dir)
    {
      OrdinalLessIrreflexive(q.name);
    }
  }

  /**
   * Deleting a folder that holds a file in use throws, but only after
   * deleting every other file of the folder; the folder and its files in use
   * stay, and nothing outside it changes.
   */
  lemma DeleteDirectoryPartial(s: FsState, dir: string)
    requires dir in s.dirs && HasLockedFileIn(s, dir)
    ensures !WithoutDirectory(s, dir).ok
    ensures WithoutDirectory(s, dir).state.dirs == s.dirs
    ensures forall p :: p in s.files && p.dir == dir ==>
      (p in WithoutDirectory(s, dir).state.files <==> IsLocked(s, p))
    ensures forall p: Path :: p.dir != dir ==> SameAt(s, WithoutDirectory(s, dir).state, p)
  {
  }

  /** The filesystem as the process sees it, updated in place by each call. */
  class FileSystem {
    var files: map<Path, Entry>
    var dirs: set<string>

    function State(): FsState
      reads this
    {
      FsState(files, dirs)
    }

    constructor (initial: FsState)
      ensures State() == initial
    {
      files := initial.files;
      dirs := initial.dirs;
    }

    /** Directory.Exists. */
    predicate DirectoryExists(path: string)
      reads this
    {
      IsDirectory(State(), path)
    }

    /** Commits the outcome of a call that changes nothing when it throws. */
    method Commit(r: Option<FsState>) returns (ok: bool)
      modifies this
      ensures ok == r.Some?
      ensures State() == r.GetOr(old(State()))
    {
      ok := r.Some?;
      if ok {
        files, dirs := r.value.files, r.value.dirs;
      }
    }

    /** Commits the outcome of a call that may leave changes behind when it throws. */
    method Apply(r: Run) returns (ok: bool)
      modifies this
      ensures ok == r.ok
      ensures State() == r.state
    {
      files, dirs := r.state.files, r.state.dirs;
      ok := r.ok;
    }

    method CreateDirectory(path: string) returns (ok: bool)
      modifies this
      ensures ok == WithDirectory(old(State()), path).Some?
      ensures State() == WithDirectory(old(State()), path).GetOr(old(State()))
    {
      ok := Commit(WithDirectory(State(), path));
    }

    method CreateEmptyArchive(zip: Path) returns (ok: bool)
      modifies this
      ensures ok == WithEmptyArchive(old(State()), zip).Some?
      ensures State() == WithEmptyArchive(old(State()), zip).GetOr(old(State()))
    {
      ok := Commit(WithEmptyArchive(State(), zip));
    }

    method AddEntry(zip: Path, src: Path, name: string) returns (ok: bool)
      modifies this
      ensures Run(State(), ok) == WithEntry(old(State()), zip, src, name)
    {
      ok := Apply(WithEntry(State(), zip, src, name));
    }

    method DeleteFile(p: Path) returns (ok: bool)
      modifies this
      ensures ok == WithoutFile(old(State()), p).Some?
      ensures State() == WithoutFile(old(State()), p).GetOr(old(State()))
    {
      ok := Commit(WithoutFile(State(), p));
    }

    method MoveFile(src: Path, dst: Path) returns (ok: bool)
      modifies this
      ensures ok == WithMove(old(State()), src, dst).Some?
      ensures State() == WithMove(old(State()), src, dst).GetOr(old(State()))
    {
      ok := Commit(WithMove(State(), src, dst));
    }

    method CreateArchiveFromDirectory(dir: string, zip: Path) returns (ok: bool)
      modifies this
      ensures Run(State(), ok) == WithFolderArchive(old(State()), dir, zip)
    {
      ok := Apply(WithFolderArchive(State(), dir, zip));
    }

    method DeleteDirectory(dir: string) returns (ok: bool)
      modifies this
      ensures Run(State(), ok) == WithoutDirectory(old(State()), dir)
    {
      ok := Apply(WithoutDirectory(State(), dir));
    }
  }
}
