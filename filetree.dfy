/**
 * An in-memory file tree standing for what `fs` sees, and the pure
 * meaning of the copy and size helpers of create-deployment-zip.js:
 * `Filter` is what `copyDirectorySync` (lines 250-280) produces from a
 * source directory, `TotalSize` is what `getDirectorySize` (lines 283-301)
 * adds up.  The imperative versions of both live in module
 * DirectoryHelpers and are proved against these functions.
 */
module FileTree {
  import opened Wrappers
  import opened Exclusion

  type Name = string

  /** A path as its list of components below some directory. */
  type Path = seq<Name>

  /** A file holds its bytes; a directory maps entry names to entries. */
  datatype Node = File(data: seq<bv8>) | Dir(children: map<Name, Node>)

  function Get(m: map<Name, Node>, k: Name): Option<Node> {
    if k in m then Some(m[k]) else None
  }

  /** The entry reached from `n` by following `p`, if there is one. */
  function Lookup(n: Node, p: Path): Option<Node>
    decreases p
  {
    if p == [] then Some(n)
    else if n.File? || p[0] !in n.children then None
    else Lookup(n.children[p[0]], p[1..])
  }

  /** `p` is a proper prefix of, or equal to, `q`. */
  predicate IsPrefix(p: Path, q: Path) {
    |p| <= |q| && q[..|p|] == p
  }

  /** Neither path lies inside the other. */
  predicate Disjoint(p: Path, q: Path) {
    !IsPrefix(p, q) && !IsPrefix(q, p)
  }

  /** Every entry that already exists strictly above the end of `p` is a directory. */
  predicate CanPlace(n: Node, p: Path)
    decreases p
  {
    p == [] || (n.Dir? && (p[0] in n.children ==> CanPlace(n.children[p[0]], p[1..])))
  }

  /**
   * `n` with `x` stored at `p`; directories missing along the way are
   * created empty, as `mkdirSync` with `recursive: true` does.
   */
  function Place(n: Node, p: Path, x: Node): (r: Node)
    requires CanPlace(n, p)
    ensures Lookup(r, p) == Some(x)
    decreases p
  {
    if p == [] then x
    else
      var child := if p[0] in n.children then n.children[p[0]] else Dir(map[]);
      Dir(n.children[p[0] := Place(child, p[1..], x)])
  }

  /** `n` without the entry at `p`; nothing happens when there is none (`force: true`). */
  function Delete(n: Node, p: Path): (r: Node)
    requires p != []
    ensures Lookup(n, p).None? ==> r == n
    decreases p
  {
    if n.File? || p[0] !in n.children then n
    else if |p| == 1 then
      assert p[1..] == [] && Lookup(n, p) == Lookup(n.children[p[0]], []);
      Dir(n.children - {p[0]})
    else Dir(n.children[p[0] := Delete(n.children[p[0]], p[1..])])
  }

  /** After the removal nothing is left at `p`, nor below it. */
  lemma {:induction false} LookupDeleteGone(n: Node, p: Path, q: Path)
    requires p != []
    ensures Lookup(Delete(n, p), p + q) == None
    decreases p
  {
    if n.Dir? && p[0] in n.children {
      assert (p + q)[0] == p[0] && (p + q)[1..] == p[1..] + q;
      if |p| > 1 {
        LookupDeleteGone(n.children[p[0]], p[1..], q);
      }
    }
  }

  /** The removal leaves every path neither above nor below `p` as it was. */
  lemma {:induction false} LookupDeleteOther(n: Node, p: Path, q: Path)
    requires p != [] && Disjoint(p, q)
    ensures Lookup(Delete(n, p), q) == Lookup(n, q)
    decreases p
  {
    assert q != [] by {
      assert p[..0] == [];
    }
    if n.Dir? && p[0] in n.children && q[0] == p[0] {
      PrefixCons(p, q);
      PrefixCons(q, p);
      assert |p| > 1;
      LookupDeleteOther(n.children[p[0]], p[1..], q[1..]);
    }
  }

  /** The entry just above the end of `p` exists and is a directory. */
  predicate ParentIsDir(n: Node, p: Path) {
    p != [] && Lookup(n, p[..|p| - 1]).Some? && Lookup(n, p[..|p| - 1]).value.Dir?
  }

  // ---------------------------------------------------------------------
  // Lookup after Place
  // ---------------------------------------------------------------------

  /** Below the placed entry, the tree is the placed entry. */
  lemma {:induction false} LookupPlaceBelow(n: Node, p: Path, q: Path, x: Node)
    requires CanPlace(n, p)
    ensures Lookup(Place(n, p, x), p + q) == Lookup(x, q)
    decreases p
  {
    if p == [] {
      assert p + q == q;
    } else {
      var child := if p[0] in n.children then n.children[p[0]] else Dir(map[]);
      assert (p + q)[0] == p[0] && (p + q)[1..] == p[1..] + q;
      LookupPlaceBelow(child, p[1..], q, x);
    }
  }

  /** Writing at `p` leaves every path outside `p` and its ancestors as it was. */
  lemma {:induction false} LookupPlaceDisjoint(n: Node, p: Path, q: Path, x: Node)
    requires CanPlace(n, p) && Disjoint(p, q)
    ensures Lookup(Place(n, p, x), q) == Lookup(n, q)
    decreases p
  {
    assert p != [] && q != [];
    if p[0] == q[0] {
      var child := if p[0] in n.children then n.children[p[0]] else Dir(map[]);
      PrefixCons(p, q);
      PrefixCons(q, p);
      LookupPlaceDisjoint(child, p[1..], q[1..], x);
      if p[0] !in n.children {
        assert Lookup(child, q[1..]) == None by {
          assert q[1..] != [];
        }
      }
    }
  }

  /** Storing what is already there changes nothing. */
  lemma {:induction false} PlaceLookup(n: Node, p: Path)
    requires Lookup(n, p).Some?
    ensures CanPlace(n, p) && Place(n, p, Lookup(n, p).value) == n
    decreases p
  {
    if p != [] {
      PlaceLookup(n.children[p[0]], p[1..]);
      assert n.children[p[0] := n.children[p[0]]] == n.children;
    }
  }

  /** A node placed at `p` can itself receive a node below it. */
  lemma {:induction false} PlaceCanPlace(n: Node, p: Path, x: Node, q: Path)
    requires CanPlace(n, p) && CanPlace(x, q)
    ensures CanPlace(Place(n, p, x), p + q)
    decreases p
  {
    if p == [] {
      assert p + q == q;
    } else {
      var child := if p[0] in n.children then n.children[p[0]] else Dir(map[]);
      assert (p + q)[0] == p[0] && (p + q)[1..] == p[1..] + q;
      PlaceCanPlace(child, p[1..], x, q);
      assert Place(n, p, x) == Dir(n.children[p[0] := Place(child, p[1..], x)]);
    }
  }

  /** Two writes, the second inside the first, are one write of the combined entry. */
  lemma {:induction false} PlacePlace(n: Node, p: Path, x: Node, q: Path, y: Node)
    requires CanPlace(n, p) && CanPlace(x, q)
    ensures CanPlace(Place(n, p, x), p + q)
    ensures Place(Place(n, p, x), p + q, y) == Place(n, p, Place(x, q, y))
    decreases p
  {
    PlaceCanPlace(n, p, x, q);
    if p == [] {
      assert p + q == q;
    } else {
      var child := if p[0] in n.children then n.children[p[0]] else Dir(map[]);
      var placed := Place(child, p[1..], x);
      assert (p + q)[0] == p[0] && (p + q)[1..] == p[1..] + q;
      PlacePlace(child, p[1..], x, q, y);
      assert Place(n, p, x) == Dir(n.children[p[0] := placed]);
      assert Place(Place(n, p, x), p + q, y) == Dir(n.children[p[0] := Place(placed, p[1..] + q, y)]);
    }
  }

  lemma {:induction false} LookupAppend(n: Node, p: Path, k: Name)
    ensures Lookup(n, p + [k]) ==
              match Lookup(n, p)
              case Some(Dir(m)) => Get(m, k)
              case _ => None
    decreases p
  {
    if p == [] {
      assert p + [k] == [k];
    } else {
      assert (p + [k])[0] == p[0] && (p + [k])[1..] == p[1..] + [k];
      if n.Dir? && p[0] in n.children {
        LookupAppend(n.children[p[0]], p[1..], k);
      }
    }
  }

  lemma PrefixCons(p: Path, q: Path)
    requires p != [] && q != [] && p[0] == q[0]
    ensures IsPrefix(p, q) <==> IsPrefix(p[1..], q[1..])
  {
    if |p| <= |q| {
      assert q[..|p|] == [q[0]] + q[1..][..|p| - 1];
      assert p == [p[0]] + p[1..];
    }
  }

  lemma DisjointChildren(p: Path, q: Path, k: Name, l: Name)
    requires Disjoint(p, q)
    ensures Disjoint(p + [k], q + [l])
  {
    assert (p + [k])[..|p|] == p && (q + [l])[..|q|] == q;
  }

  // ---------------------------------------------------------------------
  // Writing a copy over what the destination already holds
  // ---------------------------------------------------------------------

  /**
   * The copy `t` can be written over `o` (what the destination holds)
   * without an I/O error: a file lands on nothing or on a file, a
   * directory on nothing or on a directory, recursively.
   */
  predicate Compatible(o: Option<Node>, t: Node)
    decreases t
  {
    match o
    case None => true
    case Some(e) =>
      match t
      case File(_) => e.File?
      case Dir(tm) => e.Dir? && forall k :: k in tm ==> Compatible(Get(e.children, k), tm[k])
  }

  /**
   * The destination after the copy `t` is written over `o`: `copyFileSync`
   * replaces a file, an existing directory is kept (line 251) and entries
   * of it that the copy does not name survive.
   */
  function Overlay(o: Option<Node>, t: Node): (r: Node)
    requires Compatible(o, t)
    ensures o.None? ==> r == t
    ensures r.Dir? <==> t.Dir?
    decreases t
  {
    match o
    case None => t
    case Some(e) =>
      match t
      case File(_) => t
      case Dir(tm) =>
        Dir(map k | k in e.children.Keys + tm.Keys ::
              if k in tm then Overlay(Get(e.children, k), tm[k]) else e.children[k])
  }

  /**
   * Copying a directory over an existing one merges them entry by entry:
   * an entry the copy names is the copy written over what was there, an
   * entry the copy does not name survives as it was, and nothing else
   * appears.
   */
  lemma OverlayMerge(e: map<Name, Node>, tm: map<Name, Node>, k: Name)
    requires Compatible(Some(Dir(e)), Dir(tm))
    ensures k in tm ==> Lookup(Overlay(Some(Dir(e)), Dir(tm)), [k]) == Some(Overlay(Get(e, k), tm[k]))
    ensures k !in tm ==> Lookup(Overlay(Some(Dir(e)), Dir(tm)), [k]) == Get(e, k)
  {
    assert [k][1..] == [];
  }

  /** Copying a tree over an identical copy is harmless and changes nothing. */
  lemma {:induction false} OverlaySelf(t: Node)
    ensures Compatible(Some(t), t) && Overlay(Some(t), t) == t
    decreases t
  {
    if t.Dir? {
      forall k | k in t.children
        ensures Compatible(Some(t.children[k]), t.children[k])
        ensures Overlay(Some(t.children[k]), t.children[k]) == t.children[k]
      {
        OverlaySelf(t.children[k]);
      }
      assert Overlay(Some(t), t).children == t.children;
    }
  }

  /** Copying into an empty directory yields the copy. */
  lemma OverlayEmpty(t: Node)
    requires t.Dir?
    ensures Compatible(Some(Dir(map[])), t) && Overlay(Some(Dir(map[])), t) == t
  {
    assert Overlay(Some(Dir(map[])), t).children == t.children;
  }

  // ---------------------------------------------------------------------
  // The filtered copy (lines 250-280)
  // ---------------------------------------------------------------------

  /**
   * What `copyDirectorySync` makes of a source entry: files are copied as
   * they are; in a directory, every entry whose name is excluded is left
   * out together with everything below it, and the rest is copied the
   * same way.
   */
  function Filter(n: Node, patterns: seq<string>): (r: Node)
    ensures n.File? ==> r == n
    ensures n.Dir? ==> r.Dir? && r.children.Keys == set k | k in n.children && !ShouldExclude(patterns, k)
    decreases n
  {
    match n
    case File(_) => n
    case Dir(m) => Dir(map k | k in m && !ShouldExclude(patterns, k) :: Filter(m[k], patterns))
  }

  /** No name along `p` is excluded. */
  predicate Passes(patterns: seq<string>, p: Path) {
    forall i :: 0 <= i < |p| ==> !ShouldExclude(patterns, p[i])
  }

  function FilterOption(o: Option<Node>, patterns: seq<string>): Option<Node> {
    match o
    case None => None
    case Some(n) => Some(Filter(n, patterns))
  }

  /**
   * Looking up a path in the copy: if a name along the path is excluded
   * there is nothing; otherwise it is the copy of what the source has there.
   */
  lemma {:induction false} LookupFilter(n: Node, p: Path, patterns: seq<string>)
    ensures Lookup(Filter(n, patterns), p) ==
              if Passes(patterns, p) then FilterOption(Lookup(n, p), patterns) else None
    decreases p
  {
    if p != [] {
      assert Passes(patterns, p) <==> !ShouldExclude(patterns, p[0]) && Passes(patterns, p[1..]) by {
        if !ShouldExclude(patterns, p[0]) && Passes(patterns, p[1..]) {
          forall i | 0 <= i < |p| ensures !ShouldExclude(patterns, p[i]) {
            if i > 0 {
              assert p[i] == p[1..][i - 1];
            }
          }
        }
        if Passes(patterns, p) {
          forall i | 0 <= i < |p| - 1 ensures !ShouldExclude(patterns, p[1..][i]) {
            assert p[1..][i] == p[i + 1];
          }
        }
      }
      if n.Dir? && p[0] in n.children {
        LookupFilter(n.children[p[0]], p[1..], patterns);
      }
    }
  }

  /**
   * Soundness: every entry of the copy exists at the same path in the
   * source, every name along that path passes the predicate, files have
   * the same contents and directories stay directories.
   */
  lemma CopyIsSound(n: Node, p: Path, patterns: seq<string>)
    requires Lookup(Filter(n, patterns), p).Some?
    ensures Lookup(n, p).Some? && Passes(patterns, p)
    ensures Lookup(n, p).value.File? ==> Lookup(Filter(n, patterns), p) == Lookup(n, p)
    ensures Lookup(n, p).value.Dir? <==> Lookup(Filter(n, patterns), p).value.Dir?
  {
    LookupFilter(n, p, patterns);
  }

  /** Completeness: a source file reached only through non-excluded names is in the copy. */
  lemma CopyIsComplete(n: Node, p: Path, patterns: seq<string>)
    requires Lookup(n, p).Some? && Lookup(n, p).value.File?
    requires Passes(patterns, p)
    ensures Lookup(Filter(n, patterns), p) == Lookup(n, p)
  {
    LookupFilter(n, p, patterns);
  }

  /** An excluded entry is skipped with its whole subtree: nothing below it is in the copy. */
  lemma CopyPrunesSubtree(n: Node, p: Path, q: Path, patterns: seq<string>)
    requires p != [] && ShouldExclude(patterns, p[|p| - 1])
    ensures Lookup(Filter(n, patterns), p + q) == None
  {
    LookupFilter(n, p + q, patterns);
    assert (p + q)[|p| - 1] == p[|p| - 1];
  }

  /** Copying a copy with the same patterns changes nothing more. */
  lemma {:induction false} FilterIdempotent(n: Node, patterns: seq<string>)
    ensures Filter(Filter(n, patterns), patterns) == Filter(n, patterns)
    decreases n
  {
    if n.Dir? {
      forall k | k in n.children && !ShouldExclude(patterns, k)
        ensures Filter(Filter(n.children[k], patterns), patterns) == Filter(n.children[k], patterns)
      {
        FilterIdempotent(n.children[k], patterns);
      }
      assert Filter(Filter(n, patterns), patterns).children == Filter(n, patterns).children;
    }
  }

  /** With no patterns the copy is the source itself. */
  lemma {:induction false} FilterNoPatterns(n: Node)
    ensures Filter(n, []) == n
    decreases n
  {
    if n.Dir? {
      forall k | k in n.children ensures Filter(n.children[k], []) == n.children[k] {
        FilterNoPatterns(n.children[k]);
      }
      assert Filter(n, []).children == n.children;
    }
  }

  // ---------------------------------------------------------------------
  // Size (lines 283-301)
  // ---------------------------------------------------------------------

  /** The sum of the sizes of all files in the tree; directories add nothing of their own. */
  ghost function TotalSize(n: Node): (r: nat)
    ensures n.File? ==> r == |n.data|
    ensures n == Dir(map[]) ==> r == 0
    decreases n, if n.Dir? then |n.children| + 1 else 0
  {
    match n
    case File(d) => |d|
    case Dir(m) => SumSizes(n, m.Keys)
  }

  /** The total size of the entries of directory `n` named in `ks`. */
  ghost function SumSizes(n: Node, ks: set<Name>): nat
    requires n.Dir? && ks <= n.children.Keys
    decreases n, |ks|
  {
    if ks == {} then 0
    else
      var k :| k in ks;
      TotalSize(n.children[k]) + SumSizes(n, ks - {k})
  }

  /** The sum does not depend on the order in which the entries are visited. */
  lemma {:induction false} SumSizesRemove(n: Node, ks: set<Name>, k: Name)
    requires n.Dir? && ks <= n.children.Keys && k in ks
    ensures SumSizes(n, ks) == TotalSize(n.children[k]) + SumSizes(n, ks - {k})
    decreases |ks|
  {
    var j :| j in ks && SumSizes(n, ks) == TotalSize(n.children[j]) + SumSizes(n, ks - {j});
    if j != k {
      SumSizesRemove(n, ks - {j}, k);
      SumSizesRemove(n, ks - {k}, j);
      assert ks - {j} - {k} == ks - {k} - {j};
    }
  }

  /** A directory's size is one entry's size plus the size of the others. */
  lemma DirSizeSplit(m: map<Name, Node>, k: Name)
    requires k in m
    ensures TotalSize(Dir(m)) == TotalSize(m[k]) + TotalSize(Dir(m - {k}))
  {
    var n := Dir(m);
    SumSizesRemove(n, m.Keys, k);
    SumSizesAgree(n, Dir(m - {k}), m.Keys - {k});
  }

  /** The partial sum only looks at the entries it names. */
  lemma {:induction false} SumSizesAgree(n: Node, n': Node, ks: set<Name>)
    requires n.Dir? && n'.Dir? && ks <= n.children.Keys && ks <= n'.children.Keys
    requires forall k :: k in ks ==> n.children[k] == n'.children[k]
    ensures SumSizes(n, ks) == SumSizes(n', ks)
    decreases |ks|
  {
    if ks != {} {
      var k :| k in ks && SumSizes(n, ks) == TotalSize(n.children[k]) + SumSizes(n, ks - {k});
      SumSizesRemove(n', ks, k);
      SumSizesAgree(n, n', ks - {k});
    }
  }

  /** Files of 100, 250 and 4096 bytes, the last two in a subdirectory, add up to 4446. */
  lemma SizeExample()
    ensures TotalSize(Dir(map[
              "a.txt" := File(seq(100, _ => 0)),
              "sub" := Dir(map["b.bin" := File(seq(250, _ => 0)), "c.bin" := File(seq(4096, _ => 0))]),
              "empty" := Dir(map[])])) == 4446
  {
    var fb := File(seq(250, _ => 0));
    var fc := File(seq(4096, _ => 0));
    var sub := map["b.bin" := fb, "c.bin" := fc];
    var top := map["a.txt" := File(seq(100, _ => 0)), "sub" := Dir(sub), "empty" := Dir(map[])];
    DirSizeSplit(sub, "b.bin");
    assert sub - {"b.bin"} == map["c.bin" := fc];
    DirSizeSplit(map["c.bin" := fc], "c.bin");
    assert map["c.bin" := fc] - {"c.bin"} == map[];
    DirSizeSplit(top, "a.txt");
    var rest := top - {"a.txt"};
    assert rest == map["sub" := Dir(sub), "empty" := Dir(map[])];
    DirSizeSplit(rest, "sub");
    assert rest - {"sub"} == map["empty" := Dir(map[])];
    DirSizeSplit(map["empty" := Dir(map[])], "empty");
    assert map["empty" := Dir(map[])] - {"empty"} == map[];
  }

}
