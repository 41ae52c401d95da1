/**
  The destination archive as the ingestion loop sees it: the folders that
  exist under the archive root, in the order the directory listing yields
  them, each with the names of the files it holds. Folder paths carry no
  trailing separator.
 */
module Archive {
  import opened Text

  datatype Folder = Folder(path: string, files: set<string>)

  type Archive = seq<Folder>

  /**
    `path` is yielded by the glob pattern `canonical + "*"`: it starts with
    `canonical`, and the part the `*` stands for stays inside one path
    component (holds no separator).
   */
  function Matches(canonical: string, path: string): (r: bool)
    ensures r <==> canonical <= path && forall k :: |canonical| <= k < |path| ==> !IsSep(path[k])
  {
    canonical <= path && NoSep(path[|canonical|..])
  }

  /** `os.path.exists` on a folder path. */
  function FolderExists(a: Archive, path: string): (r: bool)
    ensures r <==> exists f :: f in a && f.path == path
  {
    exists i :: 0 <= i < |a| && a[i].path == path
  }

  /** `os.path.exists(path + "\\" + name)`. */
  function FileExists(a: Archive, path: string, name: string): (r: bool)
    ensures r <==> exists f :: f in a && f.path == path && name in f.files
    ensures r ==> FolderExists(a, path)
  {
    exists i :: 0 <= i < |a| && a[i].path == path && name in a[i].files
  }

  /** `b` is `a` after folders were appended and files added: nothing was removed or renamed. */
  predicate Extends(a: Archive, b: Archive)
  {
    && |a| <= |b|
    && forall i :: 0 <= i < |a| ==> b[i].path == a[i].path && a[i].files <= b[i].files
  }

  /** `makedirs(path)`: a new, empty folder at the end of the listing. */
  function AddFolder(a: Archive, path: string): (r: Archive)
    ensures Extends(a, r) && |r| == |a| + 1
    ensures FolderExists(r, path)
    ensures forall p :: FolderExists(r, p) <==> FolderExists(a, p) || p == path
    ensures forall p, n :: FileExists(r, p, n) <==> FileExists(a, p, n)
  {
    var r := a + [Folder(path, {})];
    assert r[|a|].path == path;
    assert forall p :: FolderExists(a, p) ==> FolderExists(r, p) by {
      forall p | FolderExists(a, p) ensures FolderExists(r, p) {
        var i :| 0 <= i < |a| && a[i].path == p;
        assert r[i] == a[i];
      }
    }
    assert forall p, n :: FileExists(a, p, n) ==> FileExists(r, p, n) by {
      forall p, n | FileExists(a, p, n) ensures FileExists(r, p, n) {
        var i :| 0 <= i < |a| && a[i].path == p && n in a[i].files;
        assert r[i] == a[i];
      }
    }
    r
  }

  /** A successful copy of file `name` into the folder at `path`. */
  function AddFile(a: Archive, path: string, name: string): (r: Archive)
    ensures Extends(a, r) && |r| == |a|
    ensures forall p :: FolderExists(r, p) <==> FolderExists(a, p)
    ensures FolderExists(a, path) ==> FileExists(r, path, name)
    ensures forall p, n :: FileExists(r, p, n) <==>
                           FileExists(a, p, n) || (p == path && n == name && FolderExists(a, path))
  {
    seq(|a|, i requires 0 <= i < |a| =>
      if a[i].path == path then Folder(path, a[i].files + {name}) else a[i])
  }

  /** Files already archived stay archived as the archive grows. */
  lemma FileExistsPersists(a: Archive, b: Archive, path: string, name: string)
    requires Extends(a, b) && FileExists(a, path, name)
    ensures FileExists(b, path, name)
  {
    var i :| 0 <= i < |a| && a[i].path == path && name in a[i].files;
    assert b[i].path == path && name in b[i].files;
  }

  lemma ExtendsTransitive(a: Archive, b: Archive, c: Archive)
    requires Extends(a, b) && Extends(b, c)
    ensures Extends(a, c)
  {
  }
}
