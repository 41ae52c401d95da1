/**
  Date buckets: the date window, the canonical bucket path of a timestamp,
  the scan of the folders the bucket glob yields (deduplication and choice of
  destination), and the naming and creation of a new bucket folder.
 */
module Bucket {
  import opened Text
  import opened Optional
  import opened Faults
  import opened Prompt
  import opened Archive

  /** The date window: after the lower bound, up to and including the upper bound. */
  function InWindow(lo: int, hi: int, t: int): (r: bool)
    ensures r ==> lo < hi
    ensures t == lo ==> !r
    ensures t == hi ==> (r <==> lo < hi)
  {
    lo < t <= hi
  }

  /** The canonical bucket path: the archive root followed by the formatted date. */
  function Canonical(destPath: string, format: int -> string, t: int): (r: string)
    ensures destPath <= r && r[|destPath|..] == format(t)
  {
    destPath + format(t)
  }

  /** The `i`th listed folder is yielded by the bucket glob. */
  predicate MatchAt(a: Archive, canonical: string, i: int)
  {
    0 <= i < |a| && Matches(canonical, a[i].path)
  }

  /** The `i`th listed folder is yielded by the bucket glob and holds a file called `name`. */
  predicate HoldsAt(a: Archive, canonical: string, name: string, i: int)
  {
    MatchAt(a, canonical, i) && name in a[i].files
  }

  /** The `i`th listed folder is the last one the bucket glob yields. */
  predicate LastMatch(a: Archive, canonical: string, i: int)
  {
    MatchAt(a, canonical, i) && forall j :: i < j < |a| ==> !MatchAt(a, canonical, j)
  }

  /** Some folder of the bucket already holds a file called `name`. */
  predicate Archived(a: Archive, canonical: string, name: string)
  {
    exists i :: 0 <= i < |a| && HoldsAt(a, canonical, name, i)
  }

  /** Result of the scan: the file is already in a folder, or this is where it goes. */
  datatype Resolution = AlreadyIn(folder: string) | Target(folder: string)

  /**
    The `for path in glob ... else` scan from the `i`th listed folder on, with
    `dest` the path chosen so far: every yielded folder becomes the
    destination, and the scan stops at the first one that holds the file.
   */
  function ResolveFrom(a: Archive, canonical: string, name: string, i: nat, dest: string): (r: Resolution)
    requires i <= |a|
    decreases |a| - i
    ensures r.AlreadyIn? <==> exists k :: i <= k && HoldsAt(a, canonical, name, k)
    ensures r.AlreadyIn? ==>
              exists k :: i <= k && HoldsAt(a, canonical, name, k) && r.folder == a[k].path
                          && forall j :: i <= j < k ==> !HoldsAt(a, canonical, name, j)
    ensures r.Target? && (forall k :: i <= k ==> !MatchAt(a, canonical, k)) ==> r.folder == dest
    ensures r.Target? && (exists k :: i <= k && MatchAt(a, canonical, k)) ==>
              exists k :: i <= k && LastMatch(a, canonical, k) && r.folder == a[k].path
  {
    if i == |a| then
      Target(dest)
    else if Matches(canonical, a[i].path) then
      if name in a[i].files then
        assert HoldsAt(a, canonical, name, i);
        AlreadyIn(a[i].path)
      else
        var r := ResolveFrom(a, canonical, name, i + 1, a[i].path);
        assert !HoldsAt(a, canonical, name, i);
        assert r.Target? && (forall k :: i + 1 <= k ==> !MatchAt(a, canonical, k)) ==> LastMatch(a, canonical, i);
        r
    else
      assert !HoldsAt(a, canonical, name, i);
      ResolveFrom(a, canonical, name, i + 1, dest)
  }

  /**
    Lines 151-162: scan the whole listing; without a yielded folder the
    destination is the canonical path itself.
   */
  function Resolve(a: Archive, canonical: string, name: string): (r: Resolution)
    ensures r.AlreadyIn? <==> Archived(a, canonical, name)
    ensures r.AlreadyIn? ==>
              exists k :: HoldsAt(a, canonical, name, k) && r.folder == a[k].path
                          && forall j :: 0 <= j < k ==> !HoldsAt(a, canonical, name, j)
    ensures r.Target? ==> Matches(canonical, r.folder)
    ensures r.Target? && (forall k :: !MatchAt(a, canonical, k)) ==> r.folder == canonical
    ensures r.Target? && (exists k :: MatchAt(a, canonical, k)) ==>
              exists k :: LastMatch(a, canonical, k) && r.folder == a[k].path
  {
    assert canonical[|canonical|..] == [];
    ResolveFrom(a, canonical, name, 0, canonical)
  }

  /** The folder `copy()` creates for a bucket: the canonical path, annotated when a description is given. */
  function AnnotatedPath(canonical: string, description: string): (r: string)
    ensures canonical <= r
    ensures r == canonical <==> description == ""
    ensures description != "" ==> r[|canonical|..] == " " + description
  {
    if description == "" then canonical else canonical + " " + description
  }

  /** The destination string `copy()` builds for a new folder (lines 119-122), separator included. */
  function NewFolderName(canonical: string, description: string): (r: string)
    ensures canonical <= r && |r| > |canonical| && r[|r| - 1] == Sep
    ensures r[..|r| - 1] == AnnotatedPath(canonical, description)
    ensures DescriptionOf(canonical, r) == description
  {
    var r := AnnotatedPath(canonical, description) + [Sep];
    assert r[..|r| - 1] == AnnotatedPath(canonical, description);
    assert description != "" ==> r[|canonical|..|r| - 1] == " " + description;
    r
  }

  /** Reads the description back out of a folder name built by `NewFolderName`. */
  function DescriptionOf(canonical: string, name: string): string
    requires canonical <= name && |name| > |canonical|
  {
    var middle := name[|canonical|..|name| - 1];
    if middle == "" then "" else middle[1..]
  }

  /** The new folder is yielded by the bucket glob exactly when its description holds no separator. */
  lemma {:induction false} AnnotatedPathMatches(canonical: string, description: string)
    ensures Matches(canonical, AnnotatedPath(canonical, description)) <==> NoSep(description)
  {
    var p := AnnotatedPath(canonical, description);
    if description == "" {
      assert p[|canonical|..] == [];
    } else {
      var tail := p[|canonical|..];
      assert tail == [' '] + description;
      if !NoSep(description) {
        var i :| 0 <= i < |description| && IsSep(description[i]);
        assert tail[i + 1] == description[i];
      }
    }
  }

  /** What `copy()` did to the archive before the transfer, or the exception it raised. */
  datatype Prepared =
    | Ready(folder: string, target: string, archive: Archive, inputs: seq<string>)
    | PrepFault(fault: Fault)

  /**
    Lines 116-123: an existing destination is used as it is; otherwise the
    user is asked for a description and the annotated folder is created
    (`makedirs` raises when that path already exists). `folder` is where the
    file will land, `target` the string handed to the file operation.
   */
  function PrepareFolder(a: Archive, dest: string, inputs: seq<string>): (r: Prepared)
    ensures FolderExists(a, dest) ==> r == Ready(dest, dest, a, inputs)
    ensures r.Ready? ==> FolderExists(r.archive, r.folder) && dest <= r.folder
                         && Extends(a, r.archive) && IsSuffix(r.inputs, inputs)
    ensures r.Ready? && !FolderExists(a, dest) ==>
              && !FolderExists(a, r.folder)
              && r.archive == AddFolder(a, r.folder)
              && |inputs| > 0 && r.inputs == inputs[1..]
              && r.folder == AnnotatedPath(dest, inputs[0])
              && r.target == NewFolderName(dest, inputs[0])
    ensures r.PrepFault? <==>
              (!FolderExists(a, dest) && (|inputs| == 0 || FolderExists(a, AnnotatedPath(dest, inputs[0]))))
  {
    if FolderExists(a, dest) then
      Ready(dest, dest, a, inputs)
    else
      match ReadLine(inputs)
      case None => PrepFault(EndOfInput)
      case Some(line) =>
        var created := AnnotatedPath(dest, line.text);
        if FolderExists(a, created) then PrepFault(DirectoryExists(created))
        else Ready(created, NewFolderName(dest, line.text), AddFolder(a, created), line.rest)
  }

  /**
    With two annotated folders for one bucket, the scan settles on the one
    listed last: "<canonical> B", not "<canonical> A".
   */
  lemma LastAnnotatedFolderWins(canonical: string, name: string)
    ensures Resolve([Folder(canonical + " A", {}), Folder(canonical + " B", {})], canonical, name)
            == Target(canonical + " B")
  {
    var a := [Folder(canonical + " A", {}), Folder(canonical + " B", {})];
    assert (canonical + " A")[|canonical|..] == " A";
    assert (canonical + " B")[|canonical|..] == " B";
    assert Matches(canonical, a[0].path) && Matches(canonical, a[1].path);
    assert ResolveFrom(a, canonical, name, 2, a[1].path) == Target(a[1].path);
    assert ResolveFrom(a, canonical, name, 1, a[0].path) == Target(a[1].path);
  }
}
