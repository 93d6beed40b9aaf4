/**
 * The two helper functions at the end of create-deployment-zip.js,
 * `copyDirectorySync` (lines 250-280) and `getDirectorySize` (lines
 * 283-301), as methods over the mutable FileSystem, each proved against
 * the pure function of module FileTree that says what it computes.
 */
module DirectoryHelpers {
  import opened Wrappers
  import opened Exclusion
  import opened FileTree
  import opened Disk

  // ---------------------------------------------------------------------
  // copyDirectorySync
  // ---------------------------------------------------------------------

  /** The copy of directory `m` restricted to the entries named in `done`. */
  function CopiedSoFar(m: map<Name, Node>, done: set<Name>, patterns: seq<string>): Node {
    Dir(map k | k in done && k in m && !ShouldExclude(patterns, k) :: Filter(m[k], patterns))
  }

  lemma CompatiblePart(d0: Node, m: map<Name, Node>, done: set<Name>, patterns: seq<string>)
    requires d0.Dir? && Compatible(Some(d0), Filter(Dir(m), patterns))
    ensures Compatible(Some(d0), CopiedSoFar(m, done, patterns))
  {
  }

  /** One more entry written below the destination extends the partial copy by that entry. */
  lemma CopyStep(d0: Node, m: map<Name, Node>, done: set<Name>, k: Name, patterns: seq<string>)
    requires d0.Dir? && k in m && k !in done && !ShouldExclude(patterns, k)
    requires Compatible(Some(d0), Filter(Dir(m), patterns))
    ensures Compatible(Some(d0), CopiedSoFar(m, done, patterns))
    ensures Compatible(Some(d0), CopiedSoFar(m, done + {k}, patterns))
    ensures Compatible(Get(d0.children, k), Filter(m[k], patterns))
    ensures CanPlace(Overlay(Some(d0), CopiedSoFar(m, done, patterns)), [k])
    ensures Lookup(Overlay(Some(d0), CopiedSoFar(m, done, patterns)), [k]) == Get(d0.children, k)
    ensures Place(Overlay(Some(d0), CopiedSoFar(m, done, patterns)), [k], Overlay(Get(d0.children, k), Filter(m[k], patterns)))
            == Overlay(Some(d0), CopiedSoFar(m, done + {k}, patterns))
  {
    CompatiblePart(d0, m, done, patterns);
    CompatiblePart(d0, m, done + {k}, patterns);
    assert Filter(Dir(m), patterns).children[k] == Filter(m[k], patterns);
    var c := CopiedSoFar(m, done, patterns);
    var c' := CopiedSoFar(m, done + {k}, patterns);
    assert k !in c.children;
    assert c'.children == c.children[k := Filter(m[k], patterns)];
    OverlayAdd(d0, c.children, k, Filter(m[k], patterns));
  }

  /** Overlaying a directory with one more entry is overlaying without it and then placing it. */
  lemma OverlayAdd(d0: Node, cm: map<Name, Node>, k: Name, t: Node)
    requires d0.Dir? && k !in cm
    requires Compatible(Some(d0), Dir(cm)) && Compatible(Get(d0.children, k), t)
    ensures Compatible(Some(d0), Dir(cm[k := t]))
    ensures CanPlace(Overlay(Some(d0), Dir(cm)), [k])
    ensures Lookup(Overlay(Some(d0), Dir(cm)), [k]) == Get(d0.children, k)
    ensures Place(Overlay(Some(d0), Dir(cm)), [k], Overlay(Get(d0.children, k), t))
            == Overlay(Some(d0), Dir(cm[k := t]))
  {
    var before := Overlay(Some(d0), Dir(cm));
    assert Compatible(Some(d0), Dir(cm[k := t]));
    var after := Overlay(Some(d0), Dir(cm[k := t]));
    var y := Overlay(Get(d0.children, k), t);
    assert before.children.Keys == d0.children.Keys + cm.Keys;
    assert after.children.Keys == d0.children.Keys + cm.Keys + {k};
    forall j | j in after.children.Keys
      ensures before.children[k := y][j] == after.children[j]
    {
      if j != k {
        assert j in before.children;
      }
    }
    assert before.children[k := y] == after.children;
  }

  /** An excluded entry leaves the partial copy as it was. */
  lemma SkipStep(m: map<Name, Node>, done: set<Name>, k: Name, patterns: seq<string>)
    requires ShouldExclude(patterns, k)
    ensures CopiedSoFar(m, done + {k}, patterns) == CopiedSoFar(m, done, patterns)
  {
    assert CopiedSoFar(m, done + {k}, patterns).children == CopiedSoFar(m, done, patterns).children;
  }

  /**
   * `copyDirectorySync(src, dest, excludePatterns)`: afterwards the tree
   * holds, at `dest`, the filtered copy of the source directory written
   * over what `dest` held before, and nothing outside `dest` and its
   * ancestors has changed (FileTree.LookupPlaceDisjoint).
   */
  method CopyDirectory(fs: FileSystem, src: Path, dest: Path, patterns: seq<string>, ghost tree: Node)
    requires Lookup(fs.root, src) == Some(tree) && tree.Dir?
    requires Disjoint(src, dest)
    requires CanPlace(fs.root, dest)
    requires Compatible(Lookup(fs.root, dest), Filter(tree, patterns))
    modifies fs
    decreases tree
    ensures fs.root == Place(old(fs.root), dest, Overlay(old(Lookup(fs.root, dest)), Filter(tree, patterns)))
  {
    ghost var r0 := fs.root;
    ghost var before := Lookup(fs.root, dest);
    ghost var m := tree.children;
    if !fs.Exists(dest) {
      fs.Mkdir(dest);
    } else {
      PlaceLookup(r0, dest);
    }
    ghost var d0 := if before.None? then Dir(map[]) else before.value;
    assert fs.root == Place(r0, dest, d0);
    LookupPlaceDisjoint(r0, dest, src, d0);
    var entries := fs.ReadDir(src);
    ghost var done: set<Name> := {};
    assert Overlay(Some(d0), CopiedSoFar(m, done, patterns)).children == d0.children;
    for i := 0 to |entries|
      invariant forall k :: k in done <==> k in entries[..i]
      invariant Compatible(Some(d0), CopiedSoFar(m, done, patterns))
      invariant fs.root == Place(r0, dest, Overlay(Some(d0), CopiedSoFar(m, done, patterns)))
    {
      var name := entries[i];
      var srcPath := src + [name];
      var destPath := dest + [name];
      assert name !in done;
      assert entries[..i + 1] == entries[..i] + [name];
      var shouldExclude := ShouldExclude(patterns, name);
      if shouldExclude {
        SkipStep(m, done, name, patterns);
        done := done + {name};
        continue;
      }
      ghost var x := Overlay(Some(d0), CopiedSoFar(m, done, patterns));
      CopyStep(d0, m, done, name, patterns);
      LookupPlaceDisjoint(r0, dest, src, x);
      LookupAppend(fs.root, src, name);
      LookupPlaceBelow(r0, dest, [name], x);
      ghost var y := Overlay(Get(d0.children, name), Filter(m[name], patterns));
      PlacePlace(r0, dest, x, [name], y);
      if fs.IsDirectory(srcPath) {
        DisjointChildren(src, dest, name, name);
        CopyDirectory(fs, srcPath, destPath, patterns, m[name]);
      } else {
        assert destPath[..|destPath| - 1] == dest;
        fs.CopyFile(srcPath, destPath);
      }
      done := done + {name};
    }
    assert done == m.Keys;
    assert CopiedSoFar(m, done, patterns) == Filter(tree, patterns);
    if before.None? {
      OverlayEmpty(Filter(tree, patterns));
    }
  }

  // ---------------------------------------------------------------------
  // getDirectorySize
  // ---------------------------------------------------------------------

  /**
   * The inner `calculateSize(currentPath)`; the closure variable
   * `totalSize` it adds to is passed in and handed back.
   */
  method CalculateSize(fs: FileSystem, currentPath: Path, totalSize: nat, ghost node: Node)
    returns (newTotal: nat)
    requires Lookup(fs.root, currentPath) == Some(node)
    ensures newTotal == totalSize + TotalSize(node)
    decreases node
  {
    if fs.IsDirectory(currentPath) {
      var files := fs.ReadDir(currentPath);
      newTotal := totalSize;
      ghost var seen: set<Name> := {};
      for i := 0 to |files|
        invariant forall k :: k in seen <==> k in files[..i]
        invariant seen <= node.children.Keys
        invariant newTotal == totalSize + SumSizes(node, seen)
      {
        var file := files[i];
        assert file !in seen;
        assert files[..i + 1] == files[..i] + [file];
        LookupAppend(fs.root, currentPath, file);
        newTotal := CalculateSize(fs, currentPath + [file], newTotal, node.children[file]);
        SumSizesRemove(node, seen + {file}, file);
        assert seen + {file} - {file} == seen;
        seen := seen + {file};
      }
      assert seen == node.children.Keys;
    } else {
      newTotal := totalSize + fs.FileSize(currentPath);
    }
  }

  /** `getDirectorySize(dirPath)`: the sum of the sizes of all files below `dirPath`. */
  method GetDirectorySize(fs: FileSystem, dirPath: Path) returns (totalSize: nat)
    requires fs.Exists(dirPath)
    ensures totalSize == TotalSize(Lookup(fs.root, dirPath).value)
  {
    totalSize := CalculateSize(fs, dirPath, 0, Lookup(fs.root, dirPath).value);
  }

}
