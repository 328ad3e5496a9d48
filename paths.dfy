/** Paths as strings, and the two System.IO.Path helpers the program uses, both read
    as a split of the path at its last directory separator. */
module Paths {
  import opened Results

  type Path = string

  /** Path.DirectorySeparatorChar on Windows, the platform System.Drawing runs on. */
  const Sep: char := '\\'

  /** The characters Path.GetInvalidPathChars lists: the double quote, the angle brackets, the
      vertical bar and the control characters below U+0020, NUL among them. */
  predicate InvalidPathChar(c: char)
  {
    c == '"' || c == '<' || c == '>' || c == '|' || c < ' '
  }

  /** A path System.IO accepts the syntax of: not empty, and free of invalid characters.
      File.Move and Directory.CreateDirectory throw ArgumentException on any other path before
      they look at the disk. */
  predicate WellFormedPath(p: Path)
  {
    p != "" && forall i :: 0 <= i < |p| ==> !InvalidPathChar(p[i])
  }

  /** A non-empty prefix of a well-formed path is well-formed. */
  lemma PrefixWellFormed(p: Path, n: nat)
    requires WellFormedPath(p) && 0 < n <= |p|
    ensures WellFormedPath(p[..n])
  {
  }

  /** Index of the last separator of p, if it has one. */
  function LastSeparator(p: Path): (r: Option<nat>)
    ensures r.Some? ==> r.value < |p| && p[r.value] == Sep
    ensures r.Some? ==> forall j :: r.value < j < |p| ==> p[j] != Sep
    ensures r.None? <==> Sep !in p
  {
    if p == [] then None
    else if p[|p| - 1] == Sep then Some(|p| - 1)
    else
      var r := LastSeparator(p[..|p| - 1]);
      assert p == p[..|p| - 1] + [p[|p| - 1]];
      r
  }

  /** Path.GetDirectoryName: everything before the last separator, "" when there is none. */
  function DirectoryName(p: Path): Path
  {
    match LastSeparator(p)
    case Some(i) => p[..i]
    case None => ""
  }

  /** Path.GetFileName: everything after the last separator, the whole path when there is none. */
  function FileName(p: Path): Path
  {
    match LastSeparator(p)
    case Some(i) => p[i + 1..]
    case None => p
  }

  /** A path is its directory name, a separator and its file name; the file name holds no
      separator and the directory name is strictly shorter than the path. */
  lemma DirectoryAndFileNameSplit(p: Path)
    ensures Sep !in FileName(p)
    ensures Sep in p ==> p == DirectoryName(p) + [Sep] + FileName(p)
    ensures Sep !in p ==> DirectoryName(p) == "" && FileName(p) == p
    ensures |DirectoryName(p)| < |p| || p == ""
  {
    match LastSeparator(p)
    case None =>
    case Some(i) =>
      assert p == p[..i] + [Sep] + p[i + 1..];
      var name := p[i + 1..];
      forall j | 0 <= j < |name| ensures name[j] != Sep {
        assert name[j] == p[i + 1 + j];
      }
  }

  /** Joining a directory and a separator-free name splits back into the same two parts. */
  lemma {:induction false} SplitJoin(dir: Path, name: Path)
    requires Sep !in name
    ensures DirectoryName(dir + [Sep] + name) == dir
    ensures FileName(dir + [Sep] + name) == name
  {
    var p := dir + [Sep] + name;
    assert p[|dir|] == Sep;
    match LastSeparator(p)
    case None =>
      assert false;
    case Some(i) =>
      assert i == |dir|;
      assert p[..i] == dir;
      assert p[i + 1..] == name;
  }

  /** Below a non-empty directory, a path is determined by its directory name and its file
      name: two files of one directory have different names. */
  lemma {:induction false} SameDirectorySameName(p: Path, q: Path)
    requires DirectoryName(p) != "" && DirectoryName(p) == DirectoryName(q)
    requires FileName(p) == FileName(q)
    ensures p == q
  {
    DirectoryAndFileNameSplit(p);
    DirectoryAndFileNameSplit(q);
  }

  /** The directories Directory.CreateDirectory(p) makes sure of: every non-empty prefix of p
      that ends just before a separator, and p itself. */
  function Chain(p: Path): set<Path>
  {
    set i | 0 < i <= |p| && (i == |p| || p[i] == Sep) :: p[..i]
  }

  /** A non-empty path is in its own chain, and so is each prefix that ends before a separator. */
  lemma ChainHas(p: Path, i: nat)
    requires 0 < i <= |p| && (i == |p| || p[i] == Sep)
    ensures p[..i] in Chain(p)
  {
  }

  /** The chain is closed under taking the (non-empty) directory name. */
  lemma ChainClosed(p: Path, x: Path)
    requires x in Chain(p) && DirectoryName(x) != ""
    ensures DirectoryName(x) in Chain(p)
  {
    var i :| 0 < i <= |p| && (i == |p| || p[i] == Sep) && x == p[..i];
    match LastSeparator(x)
    case None =>
    case Some(j) =>
      assert p[j] == x[j] == Sep;
      assert DirectoryName(x) == p[..j];
      ChainHas(p, j);
  }

  /** Every member of the chain is a non-empty prefix of p. */
  lemma ChainPrefix(p: Path, x: Path)
    requires x in Chain(p)
    ensures 0 < |x| <= |p| && x == p[..|x|]
  {
  }
}
