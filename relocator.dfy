/** Where a dated file goes and how it gets there: the destination candidates, and the
    move that creates the destination directory and retries once when it is missing. */
module Relocator {
  import opened Results
  import opened Paths
  import opened Storage
  import opened Exif

  /** The destination directory and the destination file path of one file. */
  datatype Candidates = Candidates(directory: Path, file: Path)

  /** The candidates once the year and the month are known: DIR\YEAR\MONTH and
      DIR\YEAR\MONTH\NAME. */
  function CandidatesFor(file: Path, date: YearMonth): Candidates
  {
    var directory := DirectoryName(file) + [Sep] + date.year + [Sep] + date.month;
    Candidates(directory, directory + [Sep] + FileName(file))
  }

  /** GetNewDirectoryAndFilePathCandidates: read the year and the month from the item, which
      throws on a value shorter than 7 bytes, then build the candidates. */
  function GetNewDirectoryAndFilePathCandidates(file: Path, item: PropertyItem): (r: Result<Candidates>)
    ensures r.Ok? <==> |item.value| >= MonthStartIndex + MonthStringLength
    ensures r.Err? ==> r.error == ArgumentOutOfRange
    ensures r.Ok? ==> r.value == CandidatesFor(file, GetYearAndMonth(item.value).value)
  {
    var date :- GetYearAndMonth(item.value);
    Ok(CandidatesFor(file, date))
  }

  /** The destination directory is the source directory extended by the year and the month;
      the destination file is that directory, a separator and the original file name, so
      splitting it gives back the destination directory and the same name. */
  lemma {:induction false} CandidatesShape(file: Path, date: YearMonth)
    ensures var c := CandidatesFor(file, date);
      && c.directory == DirectoryName(file) + [Sep] + date.year + [Sep] + date.month
      && c.file[..|c.directory|] == c.directory
      && c.file[|c.directory|..] == [Sep] + FileName(file)
      && DirectoryName(c.file) == c.directory
      && FileName(c.file) == FileName(file)
  {
    var directory := DirectoryName(file) + [Sep] + date.year + [Sep] + date.month;
    var name := FileName(file);
    assert Sep !in name by {
      DirectoryAndFileNameSplit(file);
    }
    var c := CandidatesFor(file, date);
    assert c.directory == directory && c.file == directory + [Sep] + name;
    SplitJoin(directory, name);
    JoinParts(directory, name);
  }

  /** A path joined from a and b is a, then a separator and b. */
  lemma JoinParts(a: Path, b: Path)
    ensures (a + [Sep] + b)[..|a|] == a && (a + [Sep] + b)[|a|..] == [Sep] + b
  {
  }

  /** The destination differs from the source and lies in another directory, so a second scan
      of the source directory does not list the moved file again. */
  lemma {:induction false} CandidatesLeaveSource(file: Path, date: YearMonth)
    ensures var c := CandidatesFor(file, date);
      && c.directory != ""
      && DirectoryName(c.file) != DirectoryName(file)
      && c.file != file
  {
    var c := CandidatesFor(file, date);
    var name := FileName(file);
    CandidatesShape(file, date);
    DirectoryAndFileNameSplit(file);
    assert |c.directory| >= |DirectoryName(file)| + 2;
    assert |c.file| == |c.directory| + 1 + |name|;
    assert |file| <= |DirectoryName(file)| + 1 + |name|;
  }

  /** Creating the destination directory makes sure of both DIR\YEAR and DIR\YEAR\MONTH. */
  lemma CandidateChain(file: Path, date: YearMonth)
    ensures var c := CandidatesFor(file, date);
      && DirectoryName(file) + [Sep] + date.year in Chain(c.directory)
      && c.directory in Chain(c.directory)
  {
    var c := CandidatesFor(file, date);
    var i := |DirectoryName(file)| + 1 + |date.year|;
    assert c.directory[i] == Sep;
    assert c.directory[..i] == DirectoryName(file) + [Sep] + date.year;
    ChainHas(c.directory, i);
    ChainHas(c.directory, |c.directory|);
    assert c.directory[..|c.directory|] == c.directory;
  }

  /** The effect of MoveFile(file, directory, path) on the disk: move; on DirectoryNotFound
      create the directory and move once more; any other failure is the result. */
  function Relocate(d: Disk, file: Path, dir: Path, path: Path): (Status, Disk)
  {
    var (first, d1) := MoveOn(d, file, path);
    if first != Err(DirectoryNotFound) then (first, d1)
    else
      var (created, d2) := CreateDirectoryOn(d1, dir);
      if created.Err? then (created, d2) else MoveOn(d2, file, path)
  }

  /** What a relocation does, whatever the disk: on success the file is at the new path and no
      longer at the old one with the same contents and every other file as it was; on failure
      no file changed. Directories are only ever added, only those on the way to `dir`, and
      only after the first move reported DirectoryNotFound. */
  lemma RelocateEffect(d: Disk, file: Path, dir: Path, path: Path)
    ensures var r := Relocate(d, file, dir, path);
      && (r.0.Ok? ==>
            && path in r.1.files && file !in r.1.files && r.1.files[path] == d.files[file]
            && (forall f :: f != file && f != path ==> (f in r.1.files <==> f in d.files))
            && (forall f :: f in d.files && f != file && f != path ==> r.1.files[f] == d.files[f]))
      && (r.0.Err? ==> r.1.files == d.files)
      && d.dirs <= r.1.dirs && r.1.dirs - d.dirs <= Chain(dir)
      && (MoveOn(d, file, path).0 != Err(DirectoryNotFound) ==> r == MoveOn(d, file, path) && r.1.dirs == d.dirs)
      && r.1.denied == d.denied
  {
  }

  /** On a well-formed disk, when `dir` is the directory of `path`, the retry after creating
      the directory cannot fail: a relocation either succeeds or leaves the disk exactly as it
      was, and DirectoryNotFound never escapes. */
  lemma RelocateFailureChangesNothing(d: Disk, file: Path, dir: Path, path: Path)
    requires Valid(d) && dir == DirectoryName(path) && dir != ""
    ensures var r := Relocate(d, file, dir, path);
      && (r.0.Err? ==> r.1 == d)
      && r.0 != Err(DirectoryNotFound)
      && Valid(r.1)
  {
    var (first, d1) := MoveOn(d, file, path);
    MovePreservesValid(d, file, path);
    if first == Err(DirectoryNotFound) {
      var (created, d2) := CreateDirectoryOn(d1, dir);
      CreateDirectoryPreservesValid(d1, dir);
      MovePreservesValid(d2, file, path);
      if created.Ok? {
        assert path !in d.files;
        assert path !in d.dirs;
        if path in Chain(dir) {
          ChainPrefix(dir, path);
          DirectoryAndFileNameSplit(path);
          assert false;
        }
        assert MoveOn(d2, file, path).0.Ok?;
      }
    }
  }

  /** Under the same conditions, exactly when the relocation succeeds; when the directory had
      to be made, every directory on the way to it exists afterwards. */
  lemma RelocateSucceeds(d: Disk, file: Path, dir: Path, path: Path)
    requires Valid(d) && dir == DirectoryName(path) && dir != ""
    ensures var r := Relocate(d, file, dir, path);
      && (r.0.Ok? <==>
            && WellFormedPath(file) && WellFormedPath(path)
            && file in d.files && file !in d.denied && path !in d.denied
            && (dir in d.dirs ==> path !in d.files && path !in d.dirs)
            && (dir !in d.dirs ==> Chain(dir) !! d.denied && Chain(dir) !! d.files.Keys))
      && (r.0.Ok? ==> dir in r.1.dirs)
      && (r.0.Ok? && dir !in d.dirs ==> Chain(dir) <= r.1.dirs)
  {
    RelocateFailureChangesNothing(d, file, dir, path);
    if WellFormedPath(path) {
      DirectoryAndFileNameSplit(path);
      assert path[..|dir|] == dir;
      PrefixWellFormed(path, |dir|);
    }
    var (first, d1) := MoveOn(d, file, path);
    if first == Err(DirectoryNotFound) {
      var (created, d2) := CreateDirectoryOn(d1, dir);
      if created.Ok? {
        assert Chain(dir) <= d2.dirs;
      }
    }
  }

  /** MoveFile(file, directory, path) followed the protocol when the calls it made are: one
      move; and only if that move reported DirectoryNotFound, one creation of `dir`; and only
      if that succeeded, one more move. The last call's result is the method's result. */
  predicate FollowsMoveProtocol(made: seq<Call>, file: Path, dir: Path, path: Path, st: Status)
  {
    && 1 <= |made| <= 3
    && made[0].MoveCall? && made[0].src == file && made[0].dst == path
    && (made[0].status != Err(DirectoryNotFound) ==> |made| == 1 && st == made[0].status)
    && (made[0].status == Err(DirectoryNotFound) ==>
          && |made| >= 2
          && made[1].CreateCall? && made[1].dir == dir
          && (made[1].status.Err? ==> |made| == 2 && st == made[1].status)
          && (made[1].status.Ok? ==> |made| == 3 && made[2] == MoveCall(file, path, st)))
  }

  /** MoveFile(file, newDirectoryPathCandidate, newFilePathCandidate). */
  method MoveFileTo(fs: FileSystem, file: Path, dir: Path, path: Path) returns (st: Status)
    modifies fs
    ensures (st, fs.Snapshot()) == Relocate(old(fs.Snapshot()), file, dir, path)
    ensures |fs.calls| > |old(fs.calls)| && fs.calls[..|old(fs.calls)|] == old(fs.calls)
    ensures FollowsMoveProtocol(fs.calls[|old(fs.calls)|..], file, dir, path, st)
  {
    ghost var before := fs.calls;
    st := fs.Move(file, path);
    if st == Err(DirectoryNotFound) {
      st := fs.CreateDirectory(dir);
      if st.Ok? {
        st := fs.Move(file, path);
      }
    }
    assert fs.calls[..|before|] == before;
  }
}
