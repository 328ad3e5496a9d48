/** The program's driver: per file, find the capture date and relocate the file; over a
    directory, treat every file in turn behind a per-file failure boundary, reporting
    progress every hundred files. Console output is modelled as a log of lines. */
module Program {
  import opened Results
  import opened Paths
  import opened Storage
  import opened Exif
  import opened Relocator

  /** The image decoder behind Image.FromFile, as a function of the file's contents. */
  type Decoder = Bytes -> DecodeResult

  /** What treating one file came to: left where it was, moved, or an exception caught by
      the per-file boundary. */
  datatype Outcome = Untouched | Moved(destination: Path) | Failed(fault: Fault)

  /** A line the program writes to the console. */
  datatype Line =
    | Progress(treated: nat, total: nat)      // "Treated {0} of {1} files."
    | CouldNotTreat(file: Path, fault: Fault) // "Could not treat file {0}", with the exception
    | DirectoryInvalid                        // "The directory doesn't exist or is not valid."

  /** GetPropertyTagExifDTOrig: decode the file as an image and look up its capture-date item.
      Only the "not an image" signal is swallowed; a missing file or any other decoder failure
      throws. */
  function GetPropertyTagExifDTOrig(d: Disk, decode: Decoder, file: Path): (r: Result<Option<PropertyItem>>)
    ensures r.Ok? <==> file in d.files && !decode(d.files[file]).Unreadable?
    ensures r == Ok(None) <==>
      && file in d.files
      && (|| decode(d.files[file]).NotAnImage?
          || (decode(d.files[file]).Decoded? &&
              forall k :: 0 <= k < |decode(d.files[file]).items| ==>
                decode(d.files[file]).items[k].id != PropertyTagExifDTOrig))
    ensures r.Ok? && r.value.Some? ==>
      && decode(d.files[file]).Decoded?
      && r.value.value.id == PropertyTagExifDTOrig
      && r.value.value in decode(d.files[file]).items
  {
    if file !in d.files then Err(FileNotFound)
    else match decode(d.files[file])
      case NotAnImage => Ok(None)
      case Unreadable => Err(ImageError)
      case Decoded(items) => Ok(FirstWithId(items, PropertyTagExifDTOrig))
  }

  /** The effect of MoveFile(file, propertyItem): compute the candidates, then relocate.
      On success the result is the new path. */
  function RelocateTagged(d: Disk, file: Path, item: PropertyItem): (Result<Path>, Disk)
  {
    match GetNewDirectoryAndFilePathCandidates(file, item)
    case Err(e) => (Err(e), d)
    case Ok(c) =>
      var (st, d') := Relocate(d, file, c.directory, c.file);
      (if st.Ok? then Ok(c.file) else Err(st.error), d')
  }

  /** The effect of MoveFile(file): nothing happens to a file without a capture-date item. */
  function Treat(d: Disk, decode: Decoder, file: Path): (Outcome, Disk)
  {
    match GetPropertyTagExifDTOrig(d, decode, file)
    case Err(e) => (Failed(e), d)
    case Ok(None) => (Untouched, d)
    case Ok(Some(item)) =>
      var (r, d') := RelocateTagged(d, file, item);
      (if r.Ok? then Moved(r.value) else Failed(r.error), d')
  }

  /** A file that is not an image or has no capture-date item is left alone, the disk as it was. */
  lemma UntaggedFileUntouched(d: Disk, decode: Decoder, file: Path)
    ensures Treat(d, decode, file).0 == Untouched <==> GetPropertyTagExifDTOrig(d, decode, file) == Ok(None)
    ensures Treat(d, decode, file).0 == Untouched ==> Treat(d, decode, file).1 == d
  {
  }

  /** A capture-date value shorter than 7 bytes makes the substring throw: the file fails and
      the disk is as it was. */
  lemma ShortTagFails(d: Disk, decode: Decoder, file: Path)
    requires file in d.files && decode(d.files[file]).Decoded?
    requires var item := FirstWithId(decode(d.files[file]).items, PropertyTagExifDTOrig);
      item.Some? && |item.value.value| < 7
    ensures Treat(d, decode, file) == (Failed(ArgumentOutOfRange), d)
  {
  }

  /** A moved file went to DIR\YEAR\MONTH\NAME, with YEAR and MONTH cut from its capture-date
      item, so it keeps its name in the directory DIR\YEAR\MONTH; it is there with its
      contents and no longer at its old path, and no other file changed. */
  lemma MovedFileDestination(d: Disk, decode: Decoder, file: Path)
    ensures var (o, d') := Treat(d, decode, file);
      o.Moved? ==>
        && file in d.files && decode(d.files[file]).Decoded?
        && var item := FirstWithId(decode(d.files[file]).items, PropertyTagExifDTOrig);
        && item.Some? && GetYearAndMonth(item.value.value).Ok?
        && var date := GetYearAndMonth(item.value.value).value;
        && o.destination == DirectoryName(file) + [Sep] + date.year + [Sep] + date.month + [Sep] + FileName(file)
        && DirectoryName(o.destination) == DirectoryName(file) + [Sep] + date.year + [Sep] + date.month
        && FileName(o.destination) == FileName(file)
        && o.destination in d'.files && file !in d'.files && d'.files[o.destination] == d.files[file]
        && (forall f :: f != file && f != o.destination ==> (f in d'.files <==> f in d.files))
        && (forall f :: f in d.files && f != file && f != o.destination ==> d'.files[f] == d.files[f])
  {
    var (o, d') := Treat(d, decode, file);
    if o.Moved? {
      var item := FirstWithId(decode(d.files[file]).items, PropertyTagExifDTOrig).value;
      var c := GetNewDirectoryAndFilePathCandidates(file, item).value;
      CandidatesShape(file, GetYearAndMonth(item.value).value);
      RelocateEffect(d, file, c.directory, c.file);
    }
  }

  /** Only a move changes the files: a file left alone or a failed one leaves every file as
      it was, whatever the disk. */
  lemma {:induction false} OnlyMovesChangeFiles(d: Disk, decode: Decoder, file: Path)
    ensures !Treat(d, decode, file).0.Moved? ==> Treat(d, decode, file).1.files == d.files
  {
    match GetPropertyTagExifDTOrig(d, decode, file)
    case Err(_) =>
    case Ok(None) =>
    case Ok(Some(item)) =>
      match GetNewDirectoryAndFilePathCandidates(file, item)
      case Err(_) =>
      case Ok(c) =>
        RelocateEffect(d, file, c.directory, c.file);
  }

  /** Treating a file touches only paths with its name: any path with another file name is
      present afterwards exactly when it was before, with the same contents. */
  lemma {:induction false} TreatKeepsOtherNames(d: Disk, decode: Decoder, file: Path, f: Path)
    requires FileName(f) != FileName(file)
    ensures var d' := Treat(d, decode, file).1;
      && (f in d'.files <==> f in d.files)
      && (f in d.files ==> d'.files[f] == d.files[f])
  {
    MovedFileDestination(d, decode, file);
    OnlyMovesChangeFiles(d, decode, file);
  }

  /** On a well-formed disk a failed file leaves the disk exactly as it was, and treating a
      file keeps the disk well-formed. */
  lemma {:induction false} TreatFailureChangesNothing(d: Disk, decode: Decoder, file: Path)
    requires Valid(d)
    ensures Treat(d, decode, file).0.Failed? ==> Treat(d, decode, file).1 == d
    ensures Valid(Treat(d, decode, file).1)
  {
    match GetPropertyTagExifDTOrig(d, decode, file)
    case Err(_) =>
    case Ok(None) =>
    case Ok(Some(item)) =>
      match GetNewDirectoryAndFilePathCandidates(file, item)
      case Err(_) =>
      case Ok(c) =>
        var date := GetYearAndMonth(item.value).value;
        CandidatesShape(file, date);
        CandidatesLeaveSource(file, date);
        RelocateFailureChangesNothing(d, file, c.directory, c.file);
  }

  /** A capture date that makes an ill-formed destination, such as one holding a control
      character, makes File.Move throw ArgumentException: the file fails and the disk is as it
      was. */
  lemma {:induction false} UnusableDestinationFails(d: Disk, decode: Decoder, file: Path)
    requires file in d.files && decode(d.files[file]).Decoded?
    requires var item := FirstWithId(decode(d.files[file]).items, PropertyTagExifDTOrig);
      item.Some? && |item.value.value| >= 7
    requires var item := FirstWithId(decode(d.files[file]).items, PropertyTagExifDTOrig);
      !WellFormedPath(CandidatesFor(file, GetYearAndMonth(item.value.value).value).file)
    ensures Treat(d, decode, file) == (Failed(ArgumentInvalid), d)
  {
    var item := FirstWithId(decode(d.files[file]).items, PropertyTagExifDTOrig).value;
    var c := CandidatesFor(file, GetYearAndMonth(item.value).value);
    assert MoveOn(d, file, c.file).0 == Err(ArgumentInvalid);
  }

  /** An empty capture-date field, its bytes NUL, is not treated as unknown: the year read from
      it holds NUL characters, the move throws, and the file fails with the disk as it was. */
  lemma {:induction false} EmptyDateFieldFails(d: Disk, decode: Decoder, file: Path)
    requires file in d.files && decode(d.files[file]).Decoded?
    requires var item := FirstWithId(decode(d.files[file]).items, PropertyTagExifDTOrig);
      item.Some? && |item.value.value| >= 7 && item.value.value[YearStartIndex] == 0
    ensures Treat(d, decode, file) == (Failed(ArgumentInvalid), d)
  {
    var item := FirstWithId(decode(d.files[file]).items, PropertyTagExifDTOrig).value;
    var date := GetYearAndMonth(item.value).value;
    var c := CandidatesFor(file, date);
    CandidatesShape(file, date);
    var at := |DirectoryName(file)| + 1;
    assert c.file[at] == date.year[0] == AsciiChar(0);
    UnusableDestinationFails(d, decode, file);
  }

  /** A dated image whose way is clear ends up at DIR\YEAR\MONTH\NAME, and both DIR\YEAR and
      DIR\YEAR\MONTH exist afterwards, whether or not they existed before. (A month holding a
      separator would make DIR\YEAR\MONTH a deeper path; the capture-date layout has digits.) */
  lemma {:induction false} DatedFileIsRelocated(d: Disk, decode: Decoder, file: Path)
    requires Valid(d) && file in d.files && file !in d.denied && decode(d.files[file]).Decoded?
    requires var item := FirstWithId(decode(d.files[file]).items, PropertyTagExifDTOrig);
      item.Some? && |item.value.value| >= 7
    requires var item := FirstWithId(decode(d.files[file]).items, PropertyTagExifDTOrig);
      var date := GetYearAndMonth(item.value.value).value;
      var c := CandidatesFor(file, date);
      && Sep !in date.month
      && WellFormedPath(file) && WellFormedPath(c.file)
      && c.file !in d.denied && c.file !in d.files && c.file !in d.dirs
      && Chain(c.directory) !! d.denied && Chain(c.directory) !! d.files.Keys
    ensures var item := FirstWithId(decode(d.files[file]).items, PropertyTagExifDTOrig);
      var date := GetYearAndMonth(item.value.value).value;
      var c := CandidatesFor(file, date);
      && Treat(d, decode, file).0 == Moved(c.file)
      && DirectoryName(file) + [Sep] + date.year in Treat(d, decode, file).1.dirs
      && c.directory in Treat(d, decode, file).1.dirs
  {
    var item := FirstWithId(decode(d.files[file]).items, PropertyTagExifDTOrig).value;
    var date := GetYearAndMonth(item.value).value;
    var c := CandidatesFor(file, date);
    CandidatesShape(file, date);
    CandidatesLeaveSource(file, date);
    CandidateChain(file, date);
    RelocateSucceeds(d, file, c.directory, c.file);
    var r := Relocate(d, file, c.directory, c.file);
    if c.directory in d.dirs {
      var year := DirectoryName(file) + [Sep] + date.year;
      assert c.directory[..|year|] == year;
      assert DirectoryName(c.directory) == year by {
        SplitJoin(year, date.month);
      }
      RelocateEffect(d, file, c.directory, c.file);
    }
  }

  /** A run's report: the lines written and the disk afterwards. */
  datatype Report = Report(log: seq<Line>, disk: Disk)

  /** What one turn of the loop writes: the progress line when the index is a multiple of 100,
      then, when the file's treatment threw, the caught exception. */
  function TurnLog(file: Path, o: Outcome, index: nat, total: nat): seq<Line>
  {
    (if index % 100 == 0 then [Progress(index, total)] else []) +
    (if o.Failed? then [CouldNotTreat(file, o.fault)] else [])
  }

  /** One turn of the loop: treat the file behind the failure boundary. */
  function Step(d: Disk, decode: Decoder, file: Path, index: nat, total: nat): Report
  {
    var (o, d') := Treat(d, decode, file);
    Report(TurnLog(file, o, index, total), d')
  }

  /** The loop of MoveFiles(path) over the listed files, file after file. */
  function Run(d: Disk, decode: Decoder, files: seq<Path>, total: nat): Report
    decreases |files|
  {
    if files == [] then Report([], d)
    else
      var before := Run(d, decode, files[..|files| - 1], total);
      var step := Step(before.disk, decode, files[|files| - 1], |files| - 1, total);
      Report(before.log + step.log, step.disk)
  }

  /** The run over the first i + 1 files is the run over the first i, then the turn of file i. */
  lemma RunLast(d: Disk, decode: Decoder, files: seq<Path>, total: nat, i: nat)
    requires i < |files|
    ensures var before := Run(d, decode, files[..i], total);
      var (o, d') := Treat(before.disk, decode, files[i]);
      Run(d, decode, files[..i + 1], total) == Report(before.log + TurnLog(files[i], o, i, total), d')
  {
    assert files[..i + 1][..i] == files[..i];
  }

  /** Running over a + b ends on the disk reached by running over b from where a ended. */
  lemma {:induction false} RunConcatDisk(d: Disk, decode: Decoder, a: seq<Path>, b: seq<Path>, total: nat)
    ensures Run(d, decode, a + b, total).disk == Run(Run(d, decode, a, total).disk, decode, b, total).disk
    decreases |b|
  {
    if b == [] {
      assert a + b == a;
    } else {
      RunConcatDisk(d, decode, a, b[..|b| - 1], total);
      assert (a + b)[..|a + b| - 1] == a + b[..|b| - 1];
    }
  }

  lemma {:induction false} RunPreservesValid(d: Disk, decode: Decoder, files: seq<Path>, total: nat)
    requires Valid(d)
    ensures Valid(Run(d, decode, files, total).disk)
    decreases |files|
  {
    if files != [] {
      var n := |files| - 1;
      RunPreservesValid(d, decode, files[..n], total);
      TreatFailureChangesNothing(Run(d, decode, files[..n], total).disk, decode, files[n]);
    }
  }

  /** Per-file isolation: on a well-formed disk, a file whose treatment fails affects nothing;
      the run ends on the same disk as a run in which that file was never listed. */
  lemma {:induction false} FailedFileIsInvisible(d: Disk, decode: Decoder, files: seq<Path>, total: nat, k: nat)
    requires Valid(d) && k < |files|
    requires Treat(Run(d, decode, files[..k], total).disk, decode, files[k]).0.Failed?
    ensures Run(d, decode, files, total).disk == Run(d, decode, files[..k] + files[k + 1..], total).disk
  {
    var before := Run(d, decode, files[..k], total).disk;
    RunPreservesValid(d, decode, files[..k], total);
    TreatFailureChangesNothing(before, decode, files[k]);
    RunSplitAt(d, decode, files, total, k);
    RunConcatDisk(d, decode, files[..k], files[k + 1..], total);
  }

  /** The whole run's log begins with the log of its first k files. */
  lemma {:induction false} RunPrefix(d: Disk, decode: Decoder, files: seq<Path>, total: nat, k: nat)
    requires k <= |files|
    ensures Run(d, decode, files[..k], total).log <= Run(d, decode, files, total).log
    decreases |files|
  {
    if k < |files| {
      assert files[..k] == files[..|files| - 1][..k];
      RunPrefix(d, decode, files[..|files| - 1], total, k);
    } else {
      assert files[..k] == files;
    }
  }

  /** Every listed file is treated, whatever happened to the ones before it: when file k
      fails at its turn, its failure is in the run's log. */
  lemma {:induction false} FailureIsLogged(d: Disk, decode: Decoder, files: seq<Path>, total: nat, k: nat)
    requires k < |files|
    ensures var o := Treat(Run(d, decode, files[..k], total).disk, decode, files[k]).0;
      o.Failed? ==> CouldNotTreat(files[k], o.fault) in Run(d, decode, files, total).log
  {
    var upTo := files[..k + 1];
    assert upTo[..|upTo| - 1] == files[..k];
    RunPrefix(d, decode, files, total, k + 1);
    var log := Run(d, decode, upTo, total).log;
    var o := Treat(Run(d, decode, files[..k], total).disk, decode, files[k]).0;
    if o.Failed? {
      assert log[|log| - 1] == CouldNotTreat(files[k], o.fault);
      assert log[|log| - 1] == Run(d, decode, files, total).log[|log| - 1];
    }
  }

  /** No file of the sequence has the file name of f. */
  predicate NoneNamedAs(files: seq<Path>, f: Path)
  {
    forall i :: 0 <= i < |files| ==> FileName(files[i]) != FileName(f)
  }

  /** A run over files whose names all differ from f's leaves the path f as it was. */
  lemma {:induction false} RunKeepsOtherNames(d: Disk, decode: Decoder, files: seq<Path>, total: nat, f: Path)
    requires NoneNamedAs(files, f)
    ensures var d' := Run(d, decode, files, total).disk;
      && (f in d'.files <==> f in d.files)
      && (f in d.files ==> d'.files[f] == d.files[f])
    decreases |files|
  {
    if files != [] {
      var n := |files| - 1;
      RunKeepsOtherNames(d, decode, files[..n], total, f);
      TreatKeepsOtherNames(Run(d, decode, files[..n], total).disk, decode, files[n], f);
    }
  }

  /** A run is the run over the files before k, the turn of file k, then the run over the
      files after it. */
  lemma {:induction false} RunSplitAt(d: Disk, decode: Decoder, files: seq<Path>, total: nat, k: nat)
    requires k < |files|
    ensures var before := Run(d, decode, files[..k], total).disk;
      Run(d, decode, files, total).disk
        == Run(Treat(before, decode, files[k]).1, decode, files[k + 1..], total).disk
  {
    assert files[..k + 1][..k] == files[..k];
    assert files == files[..k + 1] + files[k + 1..];
    RunConcatDisk(d, decode, files[..k + 1], files[k + 1..], total);
  }

  /** In a listing of distinct files of one non-empty directory, no other file has the name
      of file k. */
  lemma {:induction false} ListedNamesDiffer(files: seq<Path>, dir: Path, k: nat)
    requires dir != "" && k < |files|
    requires forall i :: 0 <= i < |files| ==> DirectoryName(files[i]) == dir
    requires forall i, j :: 0 <= i < j < |files| ==> files[i] != files[j]
    ensures NoneNamedAs(files[..k], files[k]) && NoneNamedAs(files[k + 1..], files[k])
  {
    forall i | 0 <= i < |files| && i != k
      ensures FileName(files[i]) != FileName(files[k])
    {
      if FileName(files[i]) == FileName(files[k]) {
        SameDirectorySameName(files[i], files[k]);
        assert false;
      }
    }
    var rest := files[k + 1..];
    forall j | 0 <= j < |rest|
      ensures FileName(rest[j]) != FileName(files[k])
    {
      assert rest[j] == files[k + 1 + j];
    }
  }

  /** Where each listed file is once the whole run is over, for a listing of distinct files of
      one directory: a file moved at its turn is at its destination with its original contents
      and gone from the directory; a file left alone is still where it was, unchanged; a failed
      file is where it was, if it was anywhere. No later turn moves or replaces any of them. */
  lemma {:induction false} RunKeepsPlacement(d: Disk, decode: Decoder, files: seq<Path>, total: nat, dir: Path, k: nat)
    requires dir != "" && k < |files|
    requires forall i :: 0 <= i < |files| ==> DirectoryName(files[i]) == dir
    requires forall i, j :: 0 <= i < j < |files| ==> files[i] != files[j]
    ensures var o := Treat(Run(d, decode, files[..k], total).disk, decode, files[k]).0;
      var final := Run(d, decode, files, total).disk;
      && (o.Moved? ==>
            && files[k] in d.files && files[k] !in final.files
            && o.destination in final.files && final.files[o.destination] == d.files[files[k]])
      && (o.Untouched? ==>
            files[k] in d.files && files[k] in final.files && final.files[files[k]] == d.files[files[k]])
      && (o.Failed? ==>
            && (files[k] in final.files <==> files[k] in d.files)
            && (files[k] in d.files ==> final.files[files[k]] == d.files[files[k]]))
  {
    var file, rest := files[k], files[k + 1..];
    var before := Run(d, decode, files[..k], total).disk;
    var turn := Treat(before, decode, file);
    var after := turn.1;
    ListedNamesDiffer(files, dir, k);
    RunKeepsOtherNames(d, decode, files[..k], total, file);
    RunSplitAt(d, decode, files, total, k);
    RunKeepsOtherNames(after, decode, rest, total, file);
    if turn.0.Moved? {
      MovedFileDestination(before, decode, file);
      RunKeepsOtherNames(after, decode, rest, total, turn.0.destination);
    } else if turn.0.Untouched? {
      UntaggedFileUntouched(before, decode, file);
      assert GetPropertyTagExifDTOrig(before, decode, file).Ok?;
    } else {
      OnlyMovesChangeFiles(before, decode, file);
    }
  }

  /** The progress lines n files produce: one for each index below n that is a multiple of 100. */
  function ProgressLines(n: nat, total: nat): seq<Line>
  {
    if n == 0 then []
    else ProgressLines(n - 1, total) + (if (n - 1) % 100 == 0 then [Progress(n - 1, total)] else [])
  }

  /** The progress lines of a log, in order. */
  function ProgressOf(log: seq<Line>): seq<Line>
  {
    if log == [] then []
    else ProgressOf(log[..|log| - 1]) + (if log[|log| - 1].Progress? then [log[|log| - 1]] else [])
  }

  lemma {:induction false} ProgressOfConcat(a: seq<Line>, b: seq<Line>)
    ensures ProgressOf(a + b) == ProgressOf(a) + ProgressOf(b)
    decreases |b|
  {
    if b == [] {
      assert a + b == a;
    } else {
      ProgressOfConcat(a, b[..|b| - 1]);
      assert (a + b)[..|a + b| - 1] == a + b[..|b| - 1];
    }
  }

  /** One turn writes a progress line exactly when its index is a multiple of 100, whatever
      the file's outcome. */
  lemma TurnProgress(file: Path, o: Outcome, index: nat, total: nat)
    ensures ProgressOf(TurnLog(file, o, index, total))
            == if index % 100 == 0 then [Progress(index, total)] else []
  {
    var p := if index % 100 == 0 then [Progress(index, total)] else [];
    var q := if o.Failed? then [CouldNotTreat(file, o.fault)] else [];
    ProgressOfConcat(p, q);
    assert ProgressOf(q) == [] by {
      if q != [] { assert q[..0] == []; }
    }
    assert ProgressOf(p) == p by {
      if p != [] { assert p[..0] == []; }
    }
  }

  /** Progress is reported the same way whatever the files' outcomes: a run over n files
      writes exactly ProgressLines(n) among its lines. */
  lemma {:induction false} RunProgress(d: Disk, decode: Decoder, files: seq<Path>, total: nat)
    ensures ProgressOf(Run(d, decode, files, total).log) == ProgressLines(|files|, total)
    decreases |files|
  {
    if files != [] {
      var n := |files| - 1;
      var before := Run(d, decode, files[..n], total);
      var step := Step(before.disk, decode, files[n], n, total);
      assert step.log == TurnLog(files[n], Treat(before.disk, decode, files[n]).0, n, total);
      RunProgress(d, decode, files[..n], total);
      ProgressOfConcat(before.log, step.log);
      TurnProgress(files[n], Treat(before.disk, decode, files[n]).0, n, total);
    }
  }

  /** n files give (n + 99) / 100 progress lines. */
  lemma {:induction false} ProgressLinesCount(n: nat, total: nat)
    ensures |ProgressLines(n, total)| == (n + 99) / 100
  {
    if n > 0 {
      ProgressLinesCount(n - 1, total);
      var q, r := (n - 1) / 100, (n - 1) % 100;
      assert n - 1 == 100 * q + r;
      assert n + 98 == 100 * q + (r + 99);
      assert n + 99 == 100 * q + (r + 100);
      if r == 0 {
        assert (n + 98) / 100 == q;
        assert (n + 99) / 100 == q + 1;
      } else {
        assert (n + 98) / 100 == q + 1;
        assert (n + 99) / 100 == q + 1;
      }
    }
  }

  /** The progress line for index i is written exactly when i is below n and a multiple of 100,
      and every progress line carries the total. */
  lemma {:induction false} ProgressLineAt(n: nat, total: nat, i: nat)
    ensures Progress(i, total) in ProgressLines(n, total) <==> i < n && i % 100 == 0
    ensures forall l :: l in ProgressLines(n, total) ==> l.Progress? && l.total == total && l.treated < n
  {
    if n > 0 {
      ProgressLineAt(n - 1, total, i);
    }
  }

  /** MoveFile(file, propertyItem). */
  method MoveFileTagged(fs: FileSystem, file: Path, item: PropertyItem) returns (r: Result<Path>)
    modifies fs
    ensures (r, fs.Snapshot()) == RelocateTagged(old(fs.Snapshot()), file, item)
  {
    var candidates := GetNewDirectoryAndFilePathCandidates(file, item);
    if candidates.Err? {
      return Err(candidates.error);
    }
    var c := candidates.value;
    var st := MoveFileTo(fs, file, c.directory, c.file);
    r := if st.Ok? then Ok(c.file) else Err(st.error);
  }

  /** MoveFile(file), with the exception it may raise turned into a Failed outcome. */
  method MoveFile(fs: FileSystem, decode: Decoder, file: Path) returns (outcome: Outcome)
    modifies fs
    ensures (outcome, fs.Snapshot()) == Treat(old(fs.Snapshot()), decode, file)
  {
    var propertyItem := GetPropertyTagExifDTOrig(fs.Snapshot(), decode, file);
    if propertyItem.Err? {
      return Failed(propertyItem.error);
    }
    if propertyItem.value.None? {
      return Untouched;
    }
    var r := MoveFileTagged(fs, file, propertyItem.value.value);
    outcome := if r.Ok? then Moved(r.value) else Failed(r.error);
  }

  /** MoveFiles(path): list the directory once, then treat each listed file in order. The
      listing is outside the per-file boundary: when it throws, the exception escapes, no file
      is treated and nothing is written. */
  method MoveFilesIn(fs: FileSystem, decode: Decoder, path: Path)
    returns (listing: seq<Path>, log: seq<Line>, escaped: Option<Fault>)
    modifies fs
    ensures escaped.Some? <==> path in fs.denied
    ensures escaped.Some? ==> escaped.value == UnauthorizedAccess && listing == [] && log == [] && unchanged(fs)
    ensures escaped.None? ==>
      && (forall f :: f in listing <==> f in old(fs.files) && DirectoryName(f) == path)
      && (forall i, j :: 0 <= i < j < |listing| ==> listing[i] != listing[j])
      && Report(log, fs.Snapshot()) == Run(old(fs.Snapshot()), decode, listing, |listing|)
  {
    var files := fs.GetFiles(path);
    if files.Err? {
      return [], [], Some(files.error);
    }
    listing, escaped := files.value, None;
    var filesCount := |listing|;
    var fileNumber := 0;
    log := [];
    ghost var start := fs.Snapshot();
    for i := 0 to |listing|
      invariant fileNumber == i
      invariant Report(log, fs.Snapshot()) == Run(start, decode, listing[..i], filesCount)
    {
      var file := listing[i];
      ghost var logBefore := log;
      if fileNumber % 100 == 0 {
        log := log + [Progress(fileNumber, filesCount)];
      }
      fileNumber := fileNumber + 1;
      var outcome := MoveFile(fs, decode, file);
      if outcome.Failed? {
        log := log + [CouldNotTreat(file, outcome.fault)];
      }
      assert log == logBefore + TurnLog(file, outcome, i, filesCount);
      RunLast(start, decode, listing, filesCount, i);
    }
    assert listing[..|listing|] == listing;
  }

  /** char.IsWhiteSpace. */
  predicate IsWhiteSpace(c: char)
  {
    || c == ' ' || ('\t' <= c <= '\r') || c == '\U{0085}' || c == '\U{00A0}' || c == '\U{1680}'
    || ('\U{2000}' <= c <= '\U{200A}') || c == '\U{2028}' || c == '\U{2029}' || c == '\U{202F}'
    || c == '\U{205F}' || c == '\U{3000}'
  }

  /** string.IsNullOrWhiteSpace; None stands for the null Console.ReadLine returns at end of input. */
  predicate IsNullOrWhiteSpace(line: Option<string>)
  {
    line.None? || forall i :: 0 <= i < |line.value| ==> IsWhiteSpace(line.value[i])
  }

  /** ConsoleReadPathOrDefault, given the line read and the current directory: a blank line
      stands for the current directory, anything else is taken as it is. */
  function ConsoleReadPathOrDefault(line: Option<string>, currentDirectory: Path): (path: Path)
    ensures IsNullOrWhiteSpace(line) ==> path == currentDirectory
    ensures !IsNullOrWhiteSpace(line) ==> path == line.value
  {
    if IsNullOrWhiteSpace(line) then currentDirectory else line.value
  }

  /** MoveFiles(): resolve the directory; a directory that does not exist is reported and
      nothing is touched; otherwise the directory is treated. An exception from listing the
      directory escapes, ending the program. */
  method MoveFiles(fs: FileSystem, decode: Decoder, line: Option<string>, currentDirectory: Path)
    returns (listing: seq<Path>, log: seq<Line>, escaped: Option<Fault>)
    modifies fs
    ensures var path := ConsoleReadPathOrDefault(line, currentDirectory);
      && (path !in old(fs.dirs) ==>
            listing == [] && log == [DirectoryInvalid] && escaped.None? && unchanged(fs))
      && (path in old(fs.dirs) && path in fs.denied ==>
            listing == [] && log == [] && escaped == Some(UnauthorizedAccess) && unchanged(fs))
      && (path in old(fs.dirs) && path !in fs.denied ==>
            && escaped.None?
            && (forall f :: f in listing <==> f in old(fs.files) && DirectoryName(f) == path)
            && (forall i, j :: 0 <= i < j < |listing| ==> listing[i] != listing[j])
            && Report(log, fs.Snapshot()) == Run(old(fs.Snapshot()), decode, listing, |listing|))
  {
    var path := ConsoleReadPathOrDefault(line, currentDirectory);
    var found := fs.Exists(path);
    if !found {
      return [], [DirectoryInvalid], None;
    }
    listing, log, escaped := MoveFilesIn(fs, decode, path);
  }
}
