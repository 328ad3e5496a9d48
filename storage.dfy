/** An abstract file system standing in for System.IO's File and Directory: a set of
    directories, a map from file path to contents, and a fixed set of paths the operating
    system refuses to touch. Its two mutating primitives are specified as functions on a
    Disk value; the class FileSystem holds the live state and applies them in place. */
module Storage {
  import opened Results
  import opened Paths

  datatype Disk = Disk(dirs: set<Path>, files: map<Path, Bytes>, denied: set<Path>)

  /** A well-formed tree: each file sits in an existing directory, and each directory's
      (non-empty) parent exists. */
  ghost predicate Valid(d: Disk)
  {
    && (forall f :: f in d.files ==> DirectoryName(f) in d.dirs)
    && (forall x :: x in d.dirs && DirectoryName(x) != "" ==> DirectoryName(x) in d.dirs)
  }

  /** File.Move(src, dst). The model's order of checks: both paths must be well-formed, the
      source must exist, neither path may be refused, the destination's directory must exist,
      and nothing may already sit at the destination. A refused destination is refused whether
      or not its directory exists, so a refusal never comes after a directory was created for
      it. */
  function MoveOn(d: Disk, src: Path, dst: Path): (r: (Status, Disk))
    ensures r.0.Err? ==> r.1 == d
    ensures r.0 == Err(ArgumentInvalid) <==> !WellFormedPath(src) || !WellFormedPath(dst)
    ensures r.0.Ok? <==>
      && WellFormedPath(src) && WellFormedPath(dst)
      && src in d.files && src !in d.denied && dst !in d.denied
      && DirectoryName(dst) in d.dirs && dst !in d.files && dst !in d.dirs
    ensures r.0 == Err(DirectoryNotFound) <==>
      && WellFormedPath(src) && WellFormedPath(dst)
      && src in d.files && src !in d.denied && dst !in d.denied && DirectoryName(dst) !in d.dirs
    ensures r.0.Ok? ==>
      && r.1.dirs == d.dirs && r.1.denied == d.denied
      && dst in r.1.files && src !in r.1.files && r.1.files[dst] == d.files[src]
      && (forall f :: f != src && f != dst ==> (f in r.1.files <==> f in d.files))
      && (forall f :: f in d.files && f != src && f != dst ==> r.1.files[f] == d.files[f])
  {
    if !WellFormedPath(src) || !WellFormedPath(dst) then (Err(ArgumentInvalid), d)
    else if src !in d.files then (Err(FileNotFound), d)
    else if src in d.denied || dst in d.denied then (Err(UnauthorizedAccess), d)
    else if DirectoryName(dst) !in d.dirs then (Err(DirectoryNotFound), d)
    else if dst in d.files || dst in d.dirs then (Err(IOError), d)
    else (Ok(()), d.(files := d.files - {src} + map[dst := d.files[src]]))
  }

  /** Directory.CreateDirectory(p): makes p and every missing directory above it; a path that
      is empty or holds an invalid character, a refused path on the way or a file in the way
      makes it throw. */
  function CreateDirectoryOn(d: Disk, p: Path): (r: (Status, Disk))
    ensures r.0.Err? ==> r.1 == d
    ensures r.0 == Err(ArgumentInvalid) <==> !WellFormedPath(p)
    ensures r.0.Ok? <==> WellFormedPath(p) && Chain(p) !! d.denied && Chain(p) !! d.files.Keys
    ensures r.0.Ok? ==> p in r.1.dirs && r.1.files == d.files && r.1.denied == d.denied
    ensures r.0.Ok? ==> d.dirs <= r.1.dirs && r.1.dirs - d.dirs <= Chain(p)
  {
    if !WellFormedPath(p) then (Err(ArgumentInvalid), d)
    else if !(Chain(p) !! d.denied) then (Err(UnauthorizedAccess), d)
    else if !(Chain(p) !! d.files.Keys) then (Err(IOError), d)
    else
      ChainHas(p, |p|);
      assert p[..|p|] == p;
      (Ok(()), d.(dirs := d.dirs + Chain(p)))
  }

  lemma MovePreservesValid(d: Disk, src: Path, dst: Path)
    requires Valid(d)
    ensures Valid(MoveOn(d, src, dst).1)
  {
  }

  lemma {:induction false} CreateDirectoryPreservesValid(d: Disk, p: Path)
    requires Valid(d)
    ensures Valid(CreateDirectoryOn(d, p).1)
  {
    var r := CreateDirectoryOn(d, p);
    if r.0.Ok? {
      forall x | x in r.1.dirs && DirectoryName(x) != ""
        ensures DirectoryName(x) in r.1.dirs
      {
        if x !in d.dirs {
          ChainClosed(p, x);
        }
      }
    }
  }

  /** One call the program makes to the file system, with what it returned. */
  datatype Call = MoveCall(src: Path, dst: Path, status: Status) | CreateCall(dir: Path, status: Status)

  /** The live file system. `calls` records, for the proofs only, every primitive applied. */
  class FileSystem {
    var dirs: set<Path>
    var files: map<Path, Bytes>
    const denied: set<Path>
    ghost var calls: seq<Call>

    function Snapshot(): Disk
      reads this
    {
      Disk(dirs, files, denied)
    }

    constructor (dirs: set<Path>, files: map<Path, Bytes>, denied: set<Path>)
      ensures Snapshot() == Disk(dirs, files, denied) && calls == []
    {
      this.dirs := dirs;
      this.files := files;
      this.denied := denied;
      calls := [];
    }

    /** File.Move */
    method Move(src: Path, dst: Path) returns (st: Status)
      modifies this
      ensures (st, Snapshot()) == MoveOn(old(Snapshot()), src, dst)
      ensures calls == old(calls) + [MoveCall(src, dst, st)]
    {
      var r := MoveOn(Snapshot(), src, dst);
      st, files := r.0, r.1.files;
      calls := calls + [MoveCall(src, dst, st)];
    }

    /** Directory.CreateDirectory */
    method CreateDirectory(p: Path) returns (st: Status)
      modifies this
      ensures (st, Snapshot()) == CreateDirectoryOn(old(Snapshot()), p)
      ensures calls == old(calls) + [CreateCall(p, st)]
    {
      var r := CreateDirectoryOn(Snapshot(), p);
      st, dirs := r.0, r.1.dirs;
      calls := calls + [CreateCall(p, st)];
    }

    /** Directory.Exists */
    method Exists(p: Path) returns (b: bool)
      ensures b <==> p in dirs
    {
      b := p in dirs;
    }

    /** Directory.GetFiles(p): every file directly inside p, each once, in an order the
        model leaves open; a refused directory cannot be listed. */
    method GetFiles(p: Path) returns (r: Result<seq<Path>>)
      ensures r.Err? <==> p in denied
      ensures r.Err? ==> r.error == UnauthorizedAccess
      ensures r.Ok? ==> forall f :: f in r.value <==> f in files && DirectoryName(f) == p
      ensures r.Ok? ==> forall i, j :: 0 <= i < j < |r.value| ==> r.value[i] != r.value[j]
    {
      if p in denied {
        return Err(UnauthorizedAccess);
      }
      var remaining := set f | f in files && DirectoryName(f) == p;
      var listing := [];
      while remaining != {}
        invariant forall f :: f in listing || f in remaining <==> f in files && DirectoryName(f) == p
        invariant forall f :: f in listing ==> f !in remaining
        invariant forall i, j :: 0 <= i < j < |listing| ==> listing[i] != listing[j]
        decreases |remaining|
      {
        var f :| f in remaining;
        listing := listing + [f];
        remaining := remaining - {f};
      }
      r := Ok(listing);
    }
  }
}
