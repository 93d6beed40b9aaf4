/**
 * The `fs` calls made by create-deployment-zip.js, as operations on one
 * mutable file tree rooted at the working directory.  Each method states
 * the whole new tree; the preconditions exclude the I/O errors that would
 * make Node.js throw (the script would then stop with exit status 1).
 */
module Disk {
  import opened Wrappers
  import opened FileTree

  class FileSystem {
    /** The working directory and everything below it. */
    var root: Node

    constructor (initial: Node)
      requires initial.Dir?
      ensures root == initial
    {
      root := initial;
    }

    /** `fs.existsSync`: the working directory exists, and so does the directory holding anything that exists. */
    function Exists(p: Path): (r: bool)
      reads this
      ensures p == [] ==> r
      ensures r && p != [] ==> ParentIsDir(root, p)
    {
      if p != [] then
        assert p == p[..|p| - 1] + [p[|p| - 1]];
        LookupAppend(root, p[..|p| - 1], p[|p| - 1]);
        Lookup(root, p).Some?
      else
        Lookup(root, p).Some?
    }

    /** `stats.isDirectory()` and `entry.isDirectory()`: only an existing entry is a directory. */
    function IsDirectory(p: Path): (r: bool)
      reads this
      ensures r ==> Exists(p)
    {
      Lookup(root, p).Some? && Lookup(root, p).value.Dir?
    }

    /** `stats.size` of a file: its number of bytes, which is all it adds to a directory's size. */
    function FileSize(p: Path): (r: nat)
      reads this
      requires Exists(p) && !IsDirectory(p)
      ensures r == TotalSize(Lookup(root, p).value)
    {
      |Lookup(root, p).value.data|
    }

    /** `fs.readdirSync`: every entry name once, in an order the filesystem chooses. */
    method ReadDir(p: Path) returns (names: seq<Name>)
      requires IsDirectory(p)
      ensures forall i, j :: 0 <= i < j < |names| ==> names[i] != names[j]
      ensures forall k :: k in names <==> k in Lookup(root, p).value.children
    {
      var entries := Lookup(root, p).value.children;
      var rest := entries.Keys;
      names := [];
      while rest != {}
        invariant rest <= entries.Keys
        invariant forall i, j :: 0 <= i < j < |names| ==> names[i] != names[j]
        invariant forall k :: k in names <==> k in entries && k !in rest
        decreases |rest|
      {
        var k :| k in rest;
        names := names + [k];
        rest := rest - {k};
      }
    }

    /** `fs.mkdirSync(p, { recursive: true })`: missing directories are created, an existing one is kept. */
    method Mkdir(p: Path)
      requires CanPlace(root, p) && (Exists(p) ==> IsDirectory(p))
      modifies this
      ensures root == if old(Exists(p)) then old(root) else Place(old(root), p, Dir(map[]))
    {
      if !Exists(p) {
        root := Place(root, p, Dir(map[]));
      }
    }

    /** `fs.copyFileSync(src, dst)`: the parent of `dst` must exist; an existing file is replaced. */
    method CopyFile(src: Path, dst: Path)
      requires Exists(src) && !IsDirectory(src)
      requires ParentIsDir(root, dst) && CanPlace(root, dst) && !IsDirectory(dst)
      modifies this
      ensures root == Place(old(root), dst, old(Lookup(root, src)).value)
    {
      root := Place(root, dst, Lookup(root, src).value);
    }

    /** `fs.writeFileSync(p, data)` */
    method WriteFile(p: Path, data: seq<bv8>)
      requires ParentIsDir(root, p) && CanPlace(root, p) && !IsDirectory(p)
      modifies this
      ensures root == Place(old(root), p, File(data))
    {
      root := Place(root, p, File(data));
    }

    /** `fs.rmSync(p, { recursive: true, force: true })` */
    method Remove(p: Path)
      requires p != []
      modifies this
      ensures root == Delete(old(root), p)
    {
      root := Delete(root, p);
    }
  }
}
