# GroupByYearThenMonth, modelled in Dafny

GroupByYearThenMonth is a console program that sorts the images of one directory `DIR` into
`DIR\YEAR\MONTH\` subdirectories. It works from each image's EXIF "DateTimeOriginal" property
item (id `0x9003`, text `YYYY:MM:DD HH:MM:SS`). It lists the files of the directory once. For
each file it decodes the image and looks up that item. It cuts the year (4 characters at
offset 0) and the month (2 characters at offset 5) out of the ASCII text and computes
`DIR\YEAR\MONTH` and `DIR\YEAR\MONTH\NAME`. Then it moves the file. If the move reports a
missing directory, it creates the directory and moves once more. A file that is not an image,
or has no such item, stays where it is. Any other exception is caught per file and logged,
and the loop goes on. Every hundredth file it writes a progress line.

The model:

- `results.dfy` (`Results`): `Option`, a failure-compatible `Result`, the kinds of exception
  (`Fault`) and bytes.
- `paths.dfy` (`Paths`): `Path.GetDirectoryName` and `Path.GetFileName` as a split at the last
  `\`. Also the path syntax System.IO accepts, and the chain of directories
  `Directory.CreateDirectory` makes sure of.
- `storage.dfy` (`Storage`): an abstract file system. A `Disk` value holds the directories, the
  files with their contents, and the paths the operating system refuses. `MoveOn` models
  `File.Move` and `CreateDirectoryOn` models `Directory.CreateDirectory`, as functions on a
  `Disk`. The class `FileSystem` holds the live state; its methods apply those functions in
  place and record each call in a ghost trace. It also has `Exists` and `GetFiles`.
- `exif.dfy` (`Exif`): the property-item lookup, the ASCII decoding, `Substring`,
  `GetYearAndMonth`, and the 20-byte layout a camera writes.
- `relocator.dfy` (`Relocator`): the destination candidates. `Relocate` is the effect of the
  move-with-fallback. The method `MoveFileTo` carries it out on a `FileSystem` step by step.
- `program.dfy` (`Program`): the per-file pipeline (`Treat`), the loop (`Run`), progress
  reporting, the methods `MoveFileTagged`, `MoveFile`, `MoveFilesIn` and `MoveFiles`, and the
  rule that a blank input line means the current directory.

Two things are parameters of the model. The image decoder behind `Image.FromFile` is a
function from file contents to `Decoded(items) | NotAnImage | Unreadable`. What
`Console.ReadLine` returned and the current directory are given to `MoveFiles`. Console
output is the log of `Line`s that the methods return.

The doc comment on the capture-date tag (Program.cs:27) says that an empty field is treated as
unknown. The code does not do this, and the model follows the code. An empty or short value
(fewer than 7 bytes) makes `string.Substring` throw `ArgumentOutOfRange` (`ShortTagFails`). A
field filled with NUL bytes yields a year of NUL characters, and `File.Move` then throws
`ArgumentException` on the destination (`EmptyDateFieldFails`). In both cases the per-file
boundary catches and logs the exception like any other failure. The file stays where it was.

## Model

| member | source | states |
|---|---|---|
| Paths.LastSeparator | GroupByYearThenMonth/Program.cs:117 | the index found holds a separator with none after it; there is none exactly when the path has no separator |
| Paths.DirectoryName | GroupByYearThenMonth/Program.cs:117 | Path.GetDirectoryName as the part before the last separator, "" when there is none; its properties are stated by DirectoryAndFileNameSplit and SplitJoin |
| Paths.FileName | GroupByYearThenMonth/Program.cs:125 | Path.GetFileName as the part after the last separator, the whole path when there is none; its properties are stated by DirectoryAndFileNameSplit and SplitJoin |
| Paths.InvalidPathChar | GroupByYearThenMonth/Program.cs:140 | the characters Path.GetInvalidPathChars lists: the double quote, the angle brackets, the vertical bar and the control characters; used by WellFormedPath |
| Paths.WellFormedPath | GroupByYearThenMonth/Program.cs:140 | a path whose syntax System.IO accepts: non-empty and without invalid characters; MoveOn and CreateDirectoryOn reject every other path with ArgumentInvalid |
| Paths.DirectoryAndFileNameSplit | GroupByYearThenMonth/Program.cs:114-125 | a path is its directory name, a separator and its file name; the file name holds no separator; without a separator the directory name is "" and the file name the whole path |
| Paths.SplitJoin | GroupByYearThenMonth/Program.cs:121-125 | joining a directory, a separator and a separator-free name splits back into that directory and that name |
| Paths.SameDirectorySameName | GroupByYearThenMonth/Program.cs:121-125 | below a non-empty directory, two paths with the same directory name and the same file name are the same path |
| Paths.ChainHas | GroupByYearThenMonth/Program.cs:144 | the path itself and every prefix ending before a separator are among the directories CreateDirectory makes |
| Paths.ChainClosed | GroupByYearThenMonth/Program.cs:144 | the non-empty parent of any directory CreateDirectory makes is made too |
| Paths.ChainPrefix | GroupByYearThenMonth/Program.cs:144 | every directory CreateDirectory makes is a non-empty prefix of the path |
| Storage.MoveOn | GroupByYearThenMonth/Program.cs:140 | File.Move throws ArgumentInvalid exactly when a path is empty or holds an invalid character; it succeeds exactly when both paths are well-formed, the source exists, neither path is refused, the target directory exists and the target is free; it reports DirectoryNotFound exactly when only the directory is missing; on success the file is at the target with the same contents and not at the source, and nothing else changes; on failure nothing changes |
| Storage.CreateDirectoryOn | GroupByYearThenMonth/Program.cs:144 | CreateDirectory throws ArgumentInvalid exactly when the path is empty or holds an invalid character; it succeeds exactly when the path is well-formed and nothing on its chain is a file or refused; it then adds only directories of that chain, including the path, and no file changes; on failure nothing changes |
| Storage.MovePreservesValid | GroupByYearThenMonth/Program.cs:140 | a move keeps every file inside an existing directory |
| Storage.CreateDirectoryPreservesValid | GroupByYearThenMonth/Program.cs:144 | creating a directory keeps every directory's parent existing |
| Storage.FileSystem.Move | GroupByYearThenMonth/Program.cs:140 | the live file system changes as MoveOn says and the call is recorded |
| Storage.FileSystem.CreateDirectory | GroupByYearThenMonth/Program.cs:144 | the live file system changes as CreateDirectoryOn says and the call is recorded |
| Storage.FileSystem.Exists | GroupByYearThenMonth/Program.cs:50 | true exactly for an existing directory |
| Storage.FileSystem.GetFiles | GroupByYearThenMonth/Program.cs:61 | throws UnauthorizedAccess exactly for a refused directory; otherwise lists exactly the files directly inside the directory, each once |
| Exif.FirstWithId | GroupByYearThenMonth/Program.cs:169 | returns an item with the id that no earlier item has, or nothing exactly when no item has the id |
| Exif.AsciiGetString | GroupByYearThenMonth/Program.cs:130 | one character per byte; ASCII bytes map to their character, others to '?' |
| Exif.AsciiRoundTrip | GroupByYearThenMonth/Program.cs:130 | decoding the ASCII bytes of an ASCII string gives the string back |
| Exif.Substring | GroupByYearThenMonth/Program.cs:132-133 | succeeds exactly when the range fits, with the characters of that range; otherwise ArgumentOutOfRange |
| Exif.GetYearAndMonth | GroupByYearThenMonth/Program.cs:128-134 | succeeds exactly on values of at least 7 bytes; the year is then the ASCII decoding of bytes 0 to 3 and the month that of bytes 5 and 6, whatever the bytes are; shorter values throw ArgumentOutOfRange |
| Exif.YearAndMonthOfLayout | GroupByYearThenMonth/Program.cs:31-34 | for any ASCII value made of y, any one character, m and anything after, with 4-character y and 2-character m, the result is exactly (y, m) |
| Exif.Digits | GroupByYearThenMonth/Program.cs:25 | a field of the capture-date text has its fixed width and is ASCII |
| Exif.DigitsValue | GroupByYearThenMonth/Program.cs:25 | the digits written for a number below 10^width denote that number |
| Exif.DateTimeOriginalYearAndMonth | GroupByYearThenMonth/Program.cs:20-34 | a capture-date value is 20 bytes, and the year and month cut from it are the digits of its year and month and denote them |
| Relocator.CandidatesFor | GroupByYearThenMonth/Program.cs:114-125 | the two candidate paths for a known year and month; their properties are stated by CandidatesShape, CandidatesLeaveSource and CandidateChain |
| Relocator.GetNewDirectoryAndFilePathCandidates | GroupByYearThenMonth/Program.cs:108-126 | succeeds exactly when the item's value has at least 7 bytes, giving the candidates for its year and month; otherwise ArgumentOutOfRange |
| Relocator.CandidatesShape | GroupByYearThenMonth/Program.cs:114-125 | the directory is DIR\YEAR\MONTH; the file path starts with it and ends with a separator and the original name; splitting the file path gives back that directory and that name |
| Relocator.CandidatesLeaveSource | GroupByYearThenMonth/Program.cs:114-125 | the destination directory is non-empty; the destination differs from the source and lies in another directory, so a second scan does not list it |
| Relocator.CandidateChain | GroupByYearThenMonth/Program.cs:144 | creating the destination directory makes sure of both DIR\YEAR and DIR\YEAR\MONTH |
| Relocator.Relocate | GroupByYearThenMonth/Program.cs:136-147 | the effect of the move-with-fallback on the disk; its properties are stated by RelocateEffect, RelocateFailureChangesNothing and RelocateSucceeds, and MoveFileTo is proved to carry it out |
| Relocator.RelocateEffect | GroupByYearThenMonth/Program.cs:136-147 | on success the file is at the new path with its contents, not at the old one, and no other file changed; on failure no file changed; only directories on the way to the target are added, and only after DirectoryNotFound |
| Relocator.RelocateFailureChangesNothing | GroupByYearThenMonth/Program.cs:136-147 | on a well-formed disk, with the directory being the target's directory, the single retry cannot fail: a failure leaves the disk untouched and DirectoryNotFound never escapes |
| Relocator.RelocateSucceeds | GroupByYearThenMonth/Program.cs:136-147 | exactly when a relocation succeeds (both paths well-formed, the source present, neither path refused, and either a free target in an existing directory or a clear chain to create); the directory to create is then well-formed too; afterwards the target directory exists, and if it had to be created so does every directory on the way to it |
| Relocator.MoveFileTo | GroupByYearThenMonth/Program.cs:136-147 | the disk changes as Relocate says; the calls made are one move, then a directory creation only after DirectoryNotFound, then exactly one retry only if the creation succeeded; the last call's result is the result |
| Program.GetPropertyTagExifDTOrig | GroupByYearThenMonth/Program.cs:163-177 | a missing file or an unreadable image throws; nothing is found exactly when the file is not an image or has no item with id 0x9003; what is found is such an item of the image |
| Program.RelocateTagged | GroupByYearThenMonth/Program.cs:99-106 | computing the candidates, then relocating; MoveFileTagged is proved to carry it out, and its properties are stated through Treat's lemmas |
| Program.Treat | GroupByYearThenMonth/Program.cs:87-97 | the effect of treating one file; its properties are stated by UntaggedFileUntouched, ShortTagFails, MovedFileDestination, TreatFailureChangesNothing and DatedFileIsRelocated |
| Program.UntaggedFileUntouched | GroupByYearThenMonth/Program.cs:87-94 | a file is left alone exactly when no capture-date item is found, and then the disk is unchanged |
| Program.ShortTagFails | GroupByYearThenMonth/Program.cs:128-134 | a capture-date value shorter than 7 bytes makes the file fail with ArgumentOutOfRange and leaves the disk unchanged |
| Program.MovedFileDestination | GroupByYearThenMonth/Program.cs:99-125 | a moved file went to DIR\YEAR\MONTH\NAME with YEAR and MONTH from its item, keeping its name in the directory DIR\YEAR\MONTH; it is there with its contents and gone from its old path, and no other file changed |
| Program.OnlyMovesChangeFiles | GroupByYearThenMonth/Program.cs:87-106 | a file left alone or a failed one leaves every file on the disk as it was |
| Program.TreatKeepsOtherNames | GroupByYearThenMonth/Program.cs:87-125 | treating a file changes no path whose file name differs from the file's |
| Program.TreatFailureChangesNothing | GroupByYearThenMonth/Program.cs:74-83 | on a well-formed disk a file that fails leaves the disk untouched, and treatment keeps the disk well-formed |
| Program.UnusableDestinationFails | GroupByYearThenMonth/Program.cs:99-147 | a capture date that makes an ill-formed destination makes the file fail with ArgumentInvalid, the disk as it was |
| Program.EmptyDateFieldFails | GroupByYearThenMonth/Program.cs:27 | an empty capture-date field, with NUL bytes, is not treated as unknown: the file fails with ArgumentInvalid and the disk is as it was |
| Program.DatedFileIsRelocated | GroupByYearThenMonth/Program.cs:87-147 | a dated image whose way is clear (well-formed paths, a free target and a clear chain) is moved to its candidate path, and DIR\YEAR and DIR\YEAR\MONTH exist afterwards |
| Program.TurnLog | GroupByYearThenMonth/Program.cs:67-83 | the lines one turn writes; stated by TurnProgress |
| Program.Step | GroupByYearThenMonth/Program.cs:65-84 | one turn of the loop, the file treated behind the failure boundary; stated through TurnProgress and TreatFailureChangesNothing |
| Program.Run | GroupByYearThenMonth/Program.cs:59-85 | the loop over the listed files; its properties are stated by RunConcatDisk, RunSplitAt, RunPreservesValid, RunKeepsOtherNames, RunKeepsPlacement, FailedFileIsInvisible, RunPrefix, FailureIsLogged and RunProgress, and MoveFilesIn is proved to carry it out |
| Program.RunConcatDisk | GroupByYearThenMonth/Program.cs:65-84 | the disk after the files a + b is the disk after b, started from the disk after a |
| Program.RunLast | GroupByYearThenMonth/Program.cs:63-84 | the run over the first i + 1 files is the run over the first i, then the lines and the disk of file i's turn |
| Program.RunSplitAt | GroupByYearThenMonth/Program.cs:63-84 | a run ends where the run over the files after k ends, started from the disk after file k's turn |
| Program.RunKeepsOtherNames | GroupByYearThenMonth/Program.cs:63-84 | a run over files whose names all differ from a path's leaves that path as it was |
| Program.RunKeepsPlacement | GroupByYearThenMonth/Program.cs:59-85 | for distinct files of one non-empty directory, after the whole run a file moved at its turn is at its destination with its original contents and gone from DIR, a file left alone is still there unchanged, and a failed file is where it was |
| Program.RunPreservesValid | GroupByYearThenMonth/Program.cs:65-84 | a run keeps a well-formed disk well-formed |
| Program.FailedFileIsInvisible | GroupByYearThenMonth/Program.cs:74-83 | a file that fails at its turn leaves the run's final disk the same as if it had never been listed |
| Program.RunPrefix | GroupByYearThenMonth/Program.cs:65-84 | the run's log begins with the log of its first k files |
| Program.FailureIsLogged | GroupByYearThenMonth/Program.cs:74-83 | whatever the earlier files did, file k is treated, and if it fails its failure is in the run's log |
| Program.TurnProgress | GroupByYearThenMonth/Program.cs:67-70 | one turn writes a progress line exactly when its index is a multiple of 100, whatever the file's outcome |
| Program.RunProgress | GroupByYearThenMonth/Program.cs:63-72 | the progress lines of a run over n files are exactly ProgressLines(n), whatever the outcomes |
| Program.ProgressLinesCount | GroupByYearThenMonth/Program.cs:63-72 | n files give (n + 99) / 100 progress lines |
| Program.ProgressLineAt | GroupByYearThenMonth/Program.cs:67-69 | the line for index i is written exactly when i < n and i is a multiple of 100, and every line carries the total |
| Program.MoveFileTagged | GroupByYearThenMonth/Program.cs:99-106 | the disk and result are as for computing the candidates and relocating |
| Program.MoveFile | GroupByYearThenMonth/Program.cs:87-97 | the disk and outcome are those of Treat: untouched without a tag, moved, or failed |
| Program.MoveFilesIn | GroupByYearThenMonth/Program.cs:59-85 | a refused directory cannot be listed: the exception escapes, no file is treated and nothing changes; otherwise it lists each file of the directory once and treats them in order, and the log and final disk are those of Run, with progress counted over the listing |
| Program.IsWhiteSpace | GroupByYearThenMonth/Program.cs:155 | the characters char.IsWhiteSpace accepts; used by ConsoleReadPathOrDefault |
| Program.IsNullOrWhiteSpace | GroupByYearThenMonth/Program.cs:155 | string.IsNullOrWhiteSpace: no line, or a line of white space only; used by ConsoleReadPathOrDefault |
| Program.ConsoleReadPathOrDefault | GroupByYearThenMonth/Program.cs:149-161 | a missing, empty or all-whitespace line stands for the current directory; any other line is the path |
| Program.MoveFiles | GroupByYearThenMonth/Program.cs:46-57 | a directory that does not exist is reported and nothing is touched or listed; a refused directory makes the listing throw, and the exception escapes with nothing changed; otherwise the directory is treated as by MoveFilesIn |

## Left out

- Console banner, prompts, `Console.ReadKey`, and the formatting of messages and stack traces
  (Program.cs:38-43, 69, 80-82, 151-152): output is the list of `Line`s, and the exception's
  message and trace are reduced to its kind.
- `Image.FromFile` (Program.cs:167): image decoding is a parameter of the model, a total
  function from file contents to a `DecodeResult`. Its `OutOfMemoryException` becomes the
  `NotAnImage` variant. Releasing the image (`using`) is not modelled.
- `PropertyItem.Len` and `PropertyItem.Type` are not modelled, because the program reads only
  `Id` and `Value`.
- Platform path rules: there is one separator `\` only, with no `/` alternate. Roots (where
  `GetDirectoryName` keeps a trailing separator), drive letters and UNC paths are not modelled.
  `Directory.GetFiles` is modelled as the files whose directory name equals the given path, so
  an input path with a trailing separator lists nothing here.
- Permissions, sharing violations and other operating-system refusals are one fixed set of
  refused paths. The model has no time-dependent or concurrent file-system changes.
- Storage.MoveOn: names are compared as exact, case-sensitive strings. Windows matches names
  without regard to case, so a target that differs from an existing file only in case counts
  as free here, where `File.Move` throws IOException. Relocator.RelocateSucceeds and
  Program.DatedFileIsRelocated inherit this exact comparison.
- Storage.CreateDirectoryOn: the same exact, case-sensitive comparison of names applies to the
  directories of the chain and to the files that block it.
- Storage.MoveOn and Storage.CreateDirectoryOn check path syntax only for emptiness and for
  the invalid characters of `Path.GetInvalidPathChars`. The wildcard characters, a misplaced
  `:`, and the path length limit (`PathTooLongException`) are not modelled.
- Storage.MoveOn: a refused destination is refused before the check for its directory. The
  model has no destination that is refused only once its directory exists (for example,
  through permissions the new directory inherits). In that case the first move reports
  DirectoryNotFound, the directories are created, the retry is refused, and the created
  directories stay behind.
- Relocator.RelocateFailureChangesNothing: rests on that order of checks. A retry refused after
  the directory was created, which leaves new directories behind, is not modelled.
- Program.TreatFailureChangesNothing: rests on the same order, so the same retry refusal is not
  modelled.
- Program.FailedFileIsInvisible: rests on the same order; a failed file that left created
  directories behind is not modelled.
- An exception from `Directory.GetFiles` ends the program (Program.cs:61 is outside the
  per-file `try`). The model reports it in the `escaped` result and writes no closing prompt,
  because the prompt is not modelled.
- `Directory.GetFiles` order is left open (any order, each file once). The loop counter
  `fileNumber` is local and shows only through the progress lines.
- Program.DatedFileIsRelocated: claims DIR\YEAR exists afterwards only when the month holds no
  separator. With a separator in the month, DIR\YEAR\MONTH is a deeper path.
