/**
  The post-copy check of a photo: the bucket date and the EXIF
  DateTimeOriginal date are formatted with the folder format and compared as
  strings; a mismatch asks whether to go on.
 */
module Validation {
  import opened Text
  import opened Optional
  import opened Faults
  import opened Prompt
  import opened Archive
  import opened Bucket

  /** What opening the copied file and reading its EXIF date gives. */
  datatype ExifRead = NoFile(path: string) | NoTag(path: string) | Taken(date: int)

  /**
    Lines 92-95: open `folder\name` and read its DateTimeOriginal tag, which
    `exif` supplies for files that exist.
   */
  function ReadExif(a: Archive, exif: string -> Option<int>, folder: string, name: string): (r: ExifRead)
    ensures r.NoFile? <==> !FileExists(a, folder, name)
    ensures r.NoTag? <==> FileExists(a, folder, name) && exif(folder + [Sep] + name).None?
    ensures r.Taken? ==> exif(folder + [Sep] + name) == Some(r.date)
  {
    var path := folder + [Sep] + name;
    if !FileExists(a, folder, name) then NoFile(path)
    else match exif(path)
      case None => NoTag(path)
      case Some(d) => Taken(d)
  }

  /** The three results of `validate_photo`; `FailedAbort` is its `False`. */
  datatype Verdict = Validated | FailedIgnored | FailedAbort

  /** A verdict and the script left after it, or the exception the check raised. */
  datatype Checked = Checked(verdict: Verdict, rest: seq<string>) | Faulted(fault: Fault)

  /**
    Lines 95-103: equal formatted dates validate without a prompt; unequal
    ones ask `continue_running`, "y" ignoring the mismatch and "n" failing.
    A missing file or tag raises, and is never a match.
   */
  function ValidatePhoto(format: int -> string, dateTaken: int, read: ExifRead, inputs: seq<string>): (r: Checked)
    ensures (r.Checked? && r.verdict == Validated) <==> (read.Taken? && format(dateTaken) == format(read.date))
    ensures read.NoFile? ==> r == Faulted(FileMissing(read.path))
    ensures read.NoTag? ==> r == Faulted(TagMissing(read.path))
    ensures r.Checked? && r.verdict == Validated ==> r.rest == inputs
    ensures r.Checked? && r.verdict != Validated ==>
              && read.Taken? && format(dateTaken) != format(read.date)
              && ContinueRunning(inputs) == Some(Reply(r.verdict == FailedIgnored, r.rest))
    ensures r.Faulted? && read.Taken? ==> ContinueRunning(inputs).None? && r.fault == EndOfInput
    ensures r.Checked? ==> IsSuffix(r.rest, inputs)
  {
    match read
    case NoFile(p) => Faulted(FileMissing(p))
    case NoTag(p) => Faulted(TagMissing(p))
    case Taken(d) =>
      if format(dateTaken) == format(d) then Checked(Validated, inputs)
      else match ContinueRunning(inputs)
        case None => Faulted(EndOfInput)
        case Some(reply) => Checked(if reply.proceed then FailedIgnored else FailedAbort, reply.rest)
  }

  /**
    Which folder line 193 opens the photo in. `AsWritten` is the code:
    `dest_path_date`, the destination the scan chose, even when `copy()` put
    the photo into a newly created, annotated folder. `Corrected` is the
    folder the photo actually landed in.
   */
  datatype Lookup = AsWritten | Corrected

  /** The folder validation looks for the photo in, under the chosen lookup. */
  function CheckFolder(lookup: Lookup, dest: string, landed: string): (r: string)
    ensures lookup == AsWritten ==> r == dest
    ensures lookup == Corrected ==> r == landed
  {
    match lookup
    case AsWritten => dest
    case Corrected => landed
  }

  /**
    The two lookups part ways exactly when `copy()` had to create the folder
    and was given a description: then the photo lands in the annotated
    folder, not in the destination the scan chose.
   */
  lemma LookupsDifferOnlyForAnnotatedFolder(a: Archive, dest: string, inputs: seq<string>)
    requires PrepareFolder(a, dest, inputs).Ready?
    ensures var p := PrepareFolder(a, dest, inputs);
            CheckFolder(AsWritten, dest, p.folder) != CheckFolder(Corrected, dest, p.folder)
            <==> !FolderExists(a, dest) && |inputs| > 0 && inputs[0] != ""
  {
    var p := PrepareFolder(a, dest, inputs);
    if !FolderExists(a, dest) {
      assert p.folder == AnnotatedPath(dest, inputs[0]);
    }
  }

  /**
    The as-written path misses the photo: with no folder for the bucket yet
    and the description "Birthday", the photo lands in "<canonical> Birthday"
    but is looked for under "<canonical>", so opening it raises.
   */
  lemma AsWrittenValidationMissesAnnotatedFolder(
    a: Archive, canonical: string, name: string, rest: seq<string>,
    exif: string -> Option<int>, format: int -> string, dateTaken: int)
    requires forall k :: 0 <= k < |a| ==> !Matches(canonical, a[k].path)
    ensures var p := PrepareFolder(a, canonical, ["Birthday"] + rest);
            && p.Ready? && p.folder == canonical + " Birthday"
            && var after := AddFile(p.archive, p.folder, name);
            && FileExists(after, p.folder, name)
            && var read := ReadExif(after, exif, CheckFolder(AsWritten, canonical, p.folder), name);
            && read.NoFile?
            && ValidatePhoto(format, dateTaken, read, p.inputs).Faulted?
  {
    var inputs := ["Birthday"] + rest;
    var created := AnnotatedPath(canonical, "Birthday");
    assert canonical[|canonical|..] == [];
    assert !FolderExists(a, canonical);
    AnnotatedPathMatches(canonical, "Birthday");
    assert !FolderExists(a, created);
    var p := PrepareFolder(a, canonical, inputs);
    assert p.folder == created;
    assert created != canonical by { assert |created| > |canonical|; }
    assert !FolderExists(p.archive, canonical);
  }

  /** With the folder the photo landed in, a successful copy is always found again. */
  lemma CopiedPhotoIsFound(a: Archive, dest: string, inputs: seq<string>, name: string, exif: string -> Option<int>)
    requires PrepareFolder(a, dest, inputs).Ready?
    ensures var p := PrepareFolder(a, dest, inputs);
            var after := AddFile(p.archive, p.folder, name);
            !ReadExif(after, exif, CheckFolder(Corrected, dest, p.folder), name).NoFile?
  {
  }
}
