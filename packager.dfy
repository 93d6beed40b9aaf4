/**
 * The main body of create-deployment-zip.js (lines 9-247): recreate the
 * staging directory, copy every listed entry that exists into it (files
 * as they are, directories through the filtered copy), write the three
 * generated files at its root, choose the archive the run reports, and
 * measure the staged size.
 */
module Packager {
  import opened Wrappers
  import opened Exclusion
  import opened FileTree
  import opened Disk
  import opened DirectoryHelpers

  // ---------------------------------------------------------------------
  // Configuration compiled into the script (lines 10-59)
  // ---------------------------------------------------------------------

  const EssentialFiles: seq<string> := [
    "package.json", "tsconfig.json", "tsconfig.app.json", "tsconfig.node.json",
    "vite.config.ts", "tailwind.config.js", "postcss.config.js", "eslint.config.js",
    "capacitor.config.ts", "index.html", "README.md", "DEPLOYMENT.md",
    "src/", "android/", "docs/", "scripts/"
  ]

  const ExcludePatterns: seq<string> := [
    "node_modules", "dist", ".git", ".env", ".env.local", ".env.production", "build",
    "*.log", ".DS_Store", "Thumbs.db", "*.tmp", "*.temp", ".cache", "coverage", ".nyc_output"
  ]

  const DeploymentDir: Name := "sahm-delivery-deployment"

  const ZipFileName: string := "sahm-delivery-essential-files.zip"

  /** The three files written at the staging root (lines 128, 159 and 214). */
  const GeneratedNames: set<Name> := {"setup.sh", "setup.bat", "README.md"}

  /** The text of the generated setup scripts and README. */
  datatype Templates = Templates(setupSh: seq<bv8>, setupBat: seq<bv8>, readme: seq<bv8>)

  /** Every configured entry is a single top-level name, as `Package` requires. */
  lemma ConfiguredItemsValid()
    ensures forall item :: item in EssentialFiles ==> ValidItem(item)
  {
    ProjectFilesValid();
    ConfigFilesValid();
    DocumentFilesValid();
    DirectoriesValid();
  }

  lemma ProjectFilesValid()
    ensures ValidItem("package.json") && ValidItem("tsconfig.json")
    ensures ValidItem("tsconfig.app.json") && ValidItem("tsconfig.node.json")
  {
    PlainItemValid("package.json");
    PlainItemValid("tsconfig.json");
    PlainItemValid("tsconfig.app.json");
    PlainItemValid("tsconfig.node.json");
  }

  lemma ConfigFilesValid()
    ensures ValidItem("vite.config.ts") && ValidItem("tailwind.config.js")
    ensures ValidItem("postcss.config.js") && ValidItem("eslint.config.js")
  {
    PlainItemValid("vite.config.ts");
    PlainItemValid("tailwind.config.js");
    PlainItemValid("postcss.config.js");
    PlainItemValid("eslint.config.js");
  }

  lemma DocumentFilesValid()
    ensures ValidItem("capacitor.config.ts") && ValidItem("index.html")
    ensures ValidItem("README.md") && ValidItem("DEPLOYMENT.md")
  {
    PlainItemValid("capacitor.config.ts");
    PlainItemValid("index.html");
    PlainItemValid("README.md");
    PlainItemValid("DEPLOYMENT.md");
  }

  lemma DirectoriesValid()
    ensures ValidItem("src/") && ValidItem("android/") && ValidItem("docs/") && ValidItem("scripts/")
  {
    DirItemValid("src");
    DirItemValid("android");
    DirItemValid("docs");
    DirItemValid("scripts");
  }

  lemma PlainItemValid(name: string)
    requires 2 < |name| < |DeploymentDir| && '/' !in name
    ensures ValidItem(name)
  {
    assert name[|name| - 1] in name;
  }

  lemma DirItemValid(name: string)
    requires 2 < |name| < |DeploymentDir| && '/' !in name
    ensures ValidItem(name + "/")
  {
    assert (name + "/")[..|name|] == name;
  }

  /** A pattern of the list that excludes a name makes the list exclude it. */
  lemma ExcludedByMember(patterns: seq<string>, i: nat, name: string)
    requires i < |patterns| && Excludes(patterns[i], name)
    ensures ShouldExclude(patterns, name)
  {
    assert patterns[i] in patterns;
  }

  /** The configured `*.log` pattern excludes `catalog.ts`. */
  lemma ConfiguredPatternsExcludeCatalog()
    ensures ShouldExclude(ExcludePatterns, "catalog.ts")
  {
    LogPatternExcludesCatalog();
    LogPatternConfigured("catalog.ts");
  }

  lemma LogPatternConfigured(name: string)
    requires Excludes("*.log", name)
    ensures ShouldExclude(ExcludePatterns, name)
  {
    assert ExcludePatterns[7] == "*.log";
  }

  /** Any name with `build` inside it is excluded by the configured literal `build`. */
  lemma BuildPatternConfigured(name: string, i: nat)
    requires OccursAt(name, "build", i)
    ensures ShouldExclude(ExcludePatterns, name)
  {
    LiteralPatternIsSubstring("build", name);
    assert ExcludePatterns[6] == "build";
    ExcludedByMember(ExcludePatterns, 6, name);
  }

  /** The configured `build` pattern excludes `my-build-script.js`: it is a substring test. */
  lemma ConfiguredPatternsExcludeBuildScript()
    ensures ShouldExclude(ExcludePatterns, "my-build-script.js")
  {
    var name := "my-build-script.js";
    assert name[3..8] == "build";
    BuildPatternConfigured(name, 3);
  }

  // ---------------------------------------------------------------------
  // Inclusion entries
  // ---------------------------------------------------------------------

  /** An entry written with a trailing `/` names a directory. */
  predicate DirOnly(item: string) {
    |item| > 0 && item[|item| - 1] == '/'
  }

  /** The entry's name in the working directory, without the trailing `/`. */
  function ItemName(item: string): Name {
    if DirOnly(item) then item[..|item| - 1] else item
  }

  /**
   * `fs.existsSync(path.join(process.cwd(), item))`: with a trailing `/`
   * the path only resolves to a directory.
   */
  predicate ItemPresent(cwd: map<Name, Node>, item: string): (r: bool)
    ensures !DirOnly(item) ==> (r <==> item in cwd)
    ensures DirOnly(item) ==> (r <==> item[..|item| - 1] in cwd && cwd[item[..|item| - 1]].Dir?)
  {
    ItemName(item) in cwd && (DirOnly(item) ==> cwd[ItemName(item)].Dir?)
  }

  /**
   * A single top-level entry other than the staging directory; `.`, `..`
   * or the staging directory itself would make the copy read what it writes.
   */
  predicate ValidItem(item: string) {
    var name := ItemName(item);
    name != "" && '/' !in name && name != "." && name != ".." && name != DeploymentDir
  }

  /** The staging root after the copy loop of lines 73-96 has handled `items`, in order. */
  function Staged(cwd: map<Name, Node>, items: seq<string>, patterns: seq<string>): (r: map<Name, Node>)
    ensures r.Keys <= cwd.Keys
    decreases |items|
  {
    if items == [] then map[]
    else
      var before := Staged(cwd, items[..|items| - 1], patterns);
      var item := items[|items| - 1];
      if ItemPresent(cwd, item) then before[ItemName(item) := Filter(cwd[ItemName(item)], patterns)]
      else before
  }

  /**
   * The staging root once the generated files are written over it: the
   * generated files replace any copied file of the same name (a copied
   * `README.md` in particular), every other staged entry stays, and
   * nothing else is added.
   */
  function Deployment(cwd: map<Name, Node>, items: seq<string>, patterns: seq<string>, templates: Templates): (r: map<Name, Node>)
    ensures r.Keys == Staged(cwd, items, patterns).Keys + GeneratedNames
    ensures r["setup.sh"] == File(templates.setupSh) && r["setup.bat"] == File(templates.setupBat)
    ensures r["README.md"] == File(templates.readme)
    ensures forall k :: k in r && k !in GeneratedNames ==> r[k] == Staged(cwd, items, patterns)[k]
  {
    Staged(cwd, items, patterns)
      ["setup.sh" := File(templates.setupSh)]
      ["setup.bat" := File(templates.setupBat)]
      ["README.md" := File(templates.readme)]
  }

  /**
   * The staging root holds exactly the names of the listed entries that
   * exist (a missing entry is skipped), each the filtered copy of the
   * source entry; the top-level name itself is never tested against the
   * patterns.
   */
  lemma {:induction false} StagedEntries(cwd: map<Name, Node>, items: seq<string>, patterns: seq<string>, k: Name)
    ensures k in Staged(cwd, items, patterns) <==>
              exists i :: 0 <= i < |items| && ItemName(items[i]) == k && ItemPresent(cwd, items[i])
    ensures k in Staged(cwd, items, patterns) ==> k in cwd && Staged(cwd, items, patterns)[k] == Filter(cwd[k], patterns)
    decreases |items|
  {
    if items != [] {
      var front := items[..|items| - 1];
      StagedEntries(cwd, front, patterns, k);
      if i :| 0 <= i < |front| && ItemName(front[i]) == k && ItemPresent(cwd, front[i]) {
        assert items[i] == front[i];
      }
      if i :| 0 <= i < |items| && ItemName(items[i]) == k && ItemPresent(cwd, items[i]) {
        if i < |items| - 1 {
          assert front[i] == items[i];
        }
      }
    }
  }

  /** A listed entry that exists is staged even when its own name matches a pattern. */
  lemma TopLevelNotFiltered(cwd: map<Name, Node>, items: seq<string>, patterns: seq<string>, i: nat)
    requires i < |items| && ItemPresent(cwd, items[i])
    ensures ItemName(items[i]) in Staged(cwd, items, patterns)
    ensures Staged(cwd, items, patterns)[ItemName(items[i])] == Filter(cwd[ItemName(items[i])], patterns)
  {
    StagedEntries(cwd, items, patterns, ItemName(items[i]));
  }

  /** A listed entry that does not exist is skipped, not fatal: nothing of that name is staged. */
  lemma MissingItemSkipped(cwd: map<Name, Node>, items: seq<string>, patterns: seq<string>, k: Name)
    requires k !in cwd
    ensures k !in Staged(cwd, items, patterns)
  {
    StagedEntries(cwd, items, patterns, k);
  }

  /**
   * Below each staged top-level entry, the staging tree is the filtered
   * source: every staged path exists in the working directory, no name
   * under the top level matches a pattern, and files are identical.
   */
  lemma StagedTreeIsFilteredSource(cwd: map<Name, Node>, items: seq<string>, patterns: seq<string>, p: Path)
    requires p != [] && Lookup(Dir(Staged(cwd, items, patterns)), p).Some?
    ensures Passes(patterns, p[1..])
    ensures Lookup(Dir(Staged(cwd, items, patterns)), p) == FilterOption(Lookup(Dir(cwd), p), patterns)
  {
    StagedEntries(cwd, items, patterns, p[0]);
    LookupFilter(cwd[p[0]], p[1..], patterns);
  }

  /** Every file of a staged directory reached through names that pass the patterns is staged. */
  lemma StagedTreeIsComplete(cwd: map<Name, Node>, items: seq<string>, patterns: seq<string>, i: nat, q: Path)
    requires i < |items| && ItemPresent(cwd, items[i])
    requires Lookup(Dir(cwd), [ItemName(items[i])] + q).Some?
    requires Lookup(Dir(cwd), [ItemName(items[i])] + q).value.File?
    requires Passes(patterns, q)
    ensures Lookup(Dir(Staged(cwd, items, patterns)), [ItemName(items[i])] + q) ==
              Lookup(Dir(cwd), [ItemName(items[i])] + q)
  {
    var p := [ItemName(items[i])] + q;
    assert p[0] == ItemName(items[i]) && p[1..] == q;
    StagedEntries(cwd, items, patterns, p[0]);
    LookupFilter(cwd[p[0]], q, patterns);
  }

  /**
   * The staged content does not depend on what the staging directory held
   * before the run: whatever was there, the result is the same, so a
   * second run from the same sources stages the same tree.
   */
  lemma StagingIsFresh(cwd: map<Name, Node>, old1: Node, old2: Node, items: seq<string>, patterns: seq<string>, templates: Templates)
    ensures Deployment(cwd[DeploymentDir := old1] - {DeploymentDir}, items, patterns, templates)
         == Deployment(cwd[DeploymentDir := old2] - {DeploymentDir}, items, patterns, templates)
  {
    assert cwd[DeploymentDir := old1] - {DeploymentDir} == cwd[DeploymentDir := old2] - {DeploymentDir};
  }

  /** A name shorter than a literal pattern never contains it. */
  lemma ShortNameNotContaining(name: string, pattern: string)
    requires |name| < |pattern|
    ensures !Contains(name, pattern)
  {
    ContainsIff(name, pattern);
  }

  lemma NodeModulesNames()
    ensures !ShouldExclude(["node_modules"], "index.js")
    ensures ShouldExclude(["node_modules"], "node_modules")
  {
    ShortNameNotContaining("index.js", "node_modules");
    assert '*' !in "node_modules";
    assert ["node_modules"][1..] == [];
  }

  /** Filtering a directory of a kept file and an excluded entry keeps the file alone. */
  lemma FilterPair(k1: Name, x: Node, k2: Name, y: Node, patterns: seq<string>)
    requires x.File? && k1 != k2
    requires !ShouldExclude(patterns, k1) && ShouldExclude(patterns, k2)
    ensures Filter(Dir(map[k1 := x, k2 := y]), patterns) == Dir(map[k1 := x])
  {
    assert Filter(Dir(map[k1 := x, k2 := y]), patterns).children == map[k1 := x];
  }

  lemma StagedTwoItems(cwd: map<Name, Node>, first: string, second: string, patterns: seq<string>)
    requires ItemPresent(cwd, first) && ItemPresent(cwd, second)
    ensures Staged(cwd, [first, second], patterns) ==
              map[ItemName(first) := Filter(cwd[ItemName(first)], patterns)]
                 [ItemName(second) := Filter(cwd[ItemName(second)], patterns)]
  {
    assert [first, second][..1] == [first] && [first][..0] == [];
    assert Staged(cwd, [], patterns) == map[];
    assert Staged(cwd, [first], patterns) == map[ItemName(first) := Filter(cwd[ItemName(first)], patterns)];
  }

  /**
   * Listing `a.txt` and `src/` with the pattern `node_modules` over a
   * working directory holding `a.txt`, `src/index.js` and
   * `src/node_modules/pkg/file.js` stages `a.txt` and `src/index.js`
   * only: the whole `node_modules` subtree is absent.
   */
  lemma NodeModulesScenario(a: seq<bv8>, index: seq<bv8>, pkg: seq<bv8>)
    ensures var cwd := map["a.txt" := File(a),
                           "src" := Dir(map["index.js" := File(index),
                                            "node_modules" := Dir(map["pkg" := Dir(map["file.js" := File(pkg)])])])];
            Staged(cwd, ["a.txt", "src/"], ["node_modules"]) ==
              map["a.txt" := File(a), "src" := Dir(map["index.js" := File(index)])]
  {
    var nm := Dir(map["pkg" := Dir(map["file.js" := File(pkg)])]);
    var cwd := map["a.txt" := File(a), "src" := Dir(map["index.js" := File(index), "node_modules" := nm])];
    var items: seq<string> := ["a.txt", "src" + "/"];
    assert items == ["a.txt", "src/"] by {
      assert "src" + "/" == "src/";
    }
    assert !DirOnly("a.txt");
    NodeModulesNames();
    FileAndFilteredDir("a.txt", "src", "index.js", "node_modules", a, index, nm, ["node_modules"]);
    assert Staged(cwd, items, ["node_modules"]) == map["a.txt" := File(a), "src" := Dir(map["index.js" := File(index)])];
  }

  /**
   * Listing a file and a directory holding a kept file and an excluded
   * entry stages the file and the directory with the kept file alone.
   */
  lemma FileAndFilteredDir(file: Name, dir: Name, kept: Name, pruned: Name,
                           a: seq<bv8>, index: seq<bv8>, y: Node, patterns: seq<string>)
    requires file != dir && kept != pruned && !DirOnly(file)
    requires !ShouldExclude(patterns, kept) && ShouldExclude(patterns, pruned)
    ensures Staged(map[file := File(a), dir := Dir(map[kept := File(index), pruned := y])], [file, dir + "/"], patterns) ==
              map[file := File(a), dir := Dir(map[kept := File(index)])]
  {
    var src := Dir(map[kept := File(index), pruned := y]);
    var cwd := map[file := File(a), dir := src];
    FilterPair(kept, File(index), pruned, y, patterns);
    assert ItemName(dir + "/") == dir by {
      assert (dir + "/")[..|dir|] == dir;
    }
    assert ItemName(file) == file;
    StagedTwoItems(cwd, file, dir + "/", patterns);
  }


  /**
   * A literal pattern that contains another literal pattern excludes
   * nothing more than it; with the configured list, `.env.local` and
   * `.env.production` are subsumed by `.env`.
   */
  lemma LiteralSubsumed(p: string, q: string, name: string)
    requires '*' !in p && '*' !in q && Contains(q, p)
    ensures Excludes(q, name) ==> Excludes(p, name)
  {
    LiteralPatternIsSubstring(p, name);
    LiteralPatternIsSubstring(q, name);
    ContainsIff(q, p);
    if Excludes(q, name) {
      var i :| OccursAt(name, q, i);
      var j :| OccursAt(q, p, j);
      forall k | 0 <= k < |p| ensures name[i + j + k] == p[k] {
        assert name[i + j + k] == name[i..i + |q|][j + k] == q[j..j + |p|][k];
      }
      assert OccursAt(name, p, i + j);
    }
  }

  lemma EnvVariantsRedundant(name: string)
    ensures Excludes(".env.local", name) ==> Excludes(".env", name)
    ensures Excludes(".env.production", name) ==> Excludes(".env", name)
  {
    assert ".env" <= ".env.local" && ".env" <= ".env.production";
    LiteralSubsumed(".env", ".env.local", name);
    LiteralSubsumed(".env", ".env.production", name);
  }

  // ---------------------------------------------------------------------
  // The archive step (lines 216-233)
  // ---------------------------------------------------------------------

  /** The archive the run reports: the zip, else the tarball, else the staging directory itself. */
  datatype Archive = Zip(fileName: string) | TarGz(fileName: string) | Unarchived(directory: string)

  /** `p` occurs at `i` and nowhere before. */
  predicate FirstOccurrence(s: string, p: string, i: int) {
    OccursAt(s, p, i) && forall j :: 0 <= j < i ==> !OccursAt(s, p, j)
  }

  /**
   * The replacement text with its `$` patterns expanded, as the
   * GetSubstitution operation of ECMA-262 does for `String.prototype.replace`:
   * `$$` is `$`, `$&` the matched text, `` $` `` the text before the match
   * and `$'` the text after it. A string pattern has no capture groups, so
   * every other `$` (`$1`, `$<`, a final `$`) stays as it is.
   */
  function Substitute(rep: string, matched: string, before: string, after: string): (r: string)
    ensures '$' !in rep ==> r == rep
    decreases |rep|
  {
    if rep == [] then []
    else if rep[0] == '$' && |rep| >= 2 && rep[1] in "$&`'" then
      var expanded :=
        if rep[1] == '$' then "$"
        else if rep[1] == '&' then matched
        else if rep[1] == '`' then before
        else after;
      expanded + Substitute(rep[2..], matched, before, after)
    else
      [rep[0]] + Substitute(rep[1..], matched, before, after)
  }

  /** The search of `replace` from index `i` on: the first occurrence found is replaced. */
  function ReplaceFirstFrom(s: string, pat: string, rep: string, i: nat): (r: string)
    requires i <= |s|
    ensures (forall j :: i <= j ==> !OccursAt(s, pat, j)) ==> r == s
    decreases |s| - i
  {
    if OccursAt(s, pat, i) then
      s[..i] + Substitute(rep, pat, s[..i], s[i + |pat|..]) + s[i + |pat|..]
    else if i == |s| then s
    else ReplaceFirstFrom(s, pat, rep, i + 1)
  }

  /** `s.replace(pat, rep)` with a string pattern. */
  function ReplaceFirst(s: string, pat: string, rep: string): (r: string)
    ensures !Contains(s, pat) ==> r == s
  {
    ContainsIff(s, pat);
    ReplaceFirstFrom(s, pat, rep, 0)
  }

  lemma {:induction false} ReplaceFirstFromAt(s: string, pat: string, rep: string, k: nat, i: int)
    requires k <= i && FirstOccurrence(s, pat, i)
    ensures ReplaceFirstFrom(s, pat, rep, k) ==
              s[..i] + Substitute(rep, pat, s[..i], s[i + |pat|..]) + s[i + |pat|..]
    decreases i - k
  {
    if k < i {
      assert !OccursAt(s, pat, k);
      ReplaceFirstFromAt(s, pat, rep, k + 1, i);
    }
  }

  /**
   * Only the first occurrence of the pattern is replaced, by the
   * replacement text with its `$` patterns expanded.
   */
  lemma ReplaceFirstAt(s: string, pat: string, rep: string, i: int)
    requires FirstOccurrence(s, pat, i)
    ensures ReplaceFirst(s, pat, rep) == s[..i] + Substitute(rep, pat, s[..i], s[i + |pat|..]) + s[i + |pat|..]
  {
    ReplaceFirstFromAt(s, pat, rep, 0, i);
  }

  /** `"a.zip".replace(".zip", "$&!")` is `"a.zip!"`: `$&` stands for the matched text. */
  lemma MatchedTextExpanded()
    ensures ReplaceFirst("a.zip", ".zip", "$&!") == "a.zip!"
  {
    var s := "a.zip";
    assert FirstOccurrence(s, ".zip", 1) by {
      assert s[1..5] == ".zip";
      assert !OccursAt(s, ".zip", 0) by {
        assert s[0..4][0] == 'a';
      }
    }
    ReplaceFirstAt(s, ".zip", "$&!", 1);
    assert s[..1] == "a" && s[5..] == [];
    assert "$&!"[2..] == "!" && "!"[1..] == [];
    assert Substitute("$&!", ".zip", "a", []) == ".zip" + Substitute("!", ".zip", "a", []);
  }

  /**
   * The archive the run reports: the zip when `zip` succeeds; otherwise
   * the tarball, named by replacing `.zip` with `.tar.gz`, when `tar`
   * succeeds; otherwise the staging directory, left for a manual upload.
   */
  function ChooseArchive(zipSucceeds: bool, tarSucceeds: bool): (r: Archive)
    ensures r.Zip? <==> zipSucceeds
    ensures r.TarGz? <==> !zipSucceeds && tarSucceeds
    ensures r.Zip? ==> r.fileName == "sahm-delivery-essential-files.zip"
    ensures r.TarGz? ==> r.fileName == "sahm-delivery-essential-files.tar.gz"
    ensures r.Unarchived? ==> r.directory == "sahm-delivery-deployment"
  {
    if zipSucceeds then Zip(ZipFileName)
    else if tarSucceeds then
      TarballNameReplaced();
      TarGz(ReplaceFirst(ZipFileName, ".zip", ".tar.gz"))
    else Unarchived(DeploymentDir)
  }

  /** Replacing a first occurrence that ends the string swaps that suffix for a `$`-free replacement. */
  lemma ReplaceSuffix(stem: string, ext: string, rep: string)
    requires '$' !in rep && FirstOccurrence(stem + ext, ext, |stem|)
    ensures ReplaceFirst(stem + ext, ext, rep) == stem + rep
  {
    var s := stem + ext;
    ReplaceFirstAt(s, ext, rep, |stem|);
    assert s[..|stem|] == stem && s[|stem| + |ext|..] == [];
  }

  /** Replacing `.zip` in the archive name gives the tarball's name; `.tar.gz` holds no `$`. */
  lemma TarballNameReplaced()
    ensures ReplaceFirst(ZipFileName, ".zip", ".tar.gz") == "sahm-delivery-essential-files.tar.gz"
  {
    var stem := "sahm-delivery-essential-files";
    assert ZipFileName == stem + ".zip";
    ZipNameFirstDot();
    assert '$' !in ".tar.gz";
    ReplaceSuffix(stem, ".zip", ".tar.gz");
    assert ReplaceFirst(ZipFileName, ".zip", ".tar.gz") == stem + ".tar.gz";
    TarballNameSpelled();
  }

  lemma TarballNameSpelled()
    ensures "sahm-delivery-essential-files" + ".tar.gz" == "sahm-delivery-essential-files.tar.gz"
  {
  }

  /** The only `.` of the archive name is the one before `zip`. */
  lemma ZipNameFirstDot()
    ensures FirstOccurrence(ZipFileName, ".zip", 29)
  {
    var s := ZipFileName;
    assert s[29..33] == ".zip";
    assert s[..29] == "sahm-delivery-essential-files";
    forall j | 0 <= j < 29 ensures !OccursAt(s, ".zip", j) {
      assert s[j] == s[..29][j];
      assert s[j..j + 4][0] == s[j];
    }
  }

  // ---------------------------------------------------------------------
  // The run (lines 61-237)
  // ---------------------------------------------------------------------

  /**
   * One pass of the copy loop (lines 74-95) for `item`: a missing entry
   * is skipped, a directory goes through the filtered copy and a file is
   * copied as it is, to the same name under the staging directory.
   */
  method StageItem(fs: FileSystem, item: string, patterns: seq<string>,
                   ghost cwd: map<Name, Node>, ghost staged: map<Name, Node>)
    requires ValidItem(item) && DeploymentDir !in cwd
    requires forall k :: k in staged ==> k in cwd && staged[k] == Filter(cwd[k], patterns)
    requires fs.root == Dir(cwd[DeploymentDir := Dir(staged)])
    modifies fs
    ensures fs.root == Dir(cwd[DeploymentDir := Dir(
              if ItemPresent(cwd, item) then staged[ItemName(item) := Filter(cwd[ItemName(item)], patterns)]
              else staged)])
  {
    var name := ItemName(item);
    var sourcePath := [name];
    var destPath := [DeploymentDir, name];
    LookupOne(fs.root.children, name);
    var found := fs.Exists(sourcePath) && (DirOnly(item) ==> fs.IsDirectory(sourcePath));
    if found {
      ghost var copy := Filter(cwd[name], patterns);
      PlaceTwo(fs.root.children, DeploymentDir, name, copy);
      if name in staged {
        OverlaySelf(copy);
      }
      if fs.IsDirectory(sourcePath) {
        CopyDirectory(fs, sourcePath, destPath, patterns, cwd[name]);
      } else {
        fs.CopyFile(sourcePath, destPath);
      }
    }
  }

  /** Lines 128, 159 and 214: the generated files are written at the staging root. */
  method WriteGenerated(fs: FileSystem, templates: Templates, ghost cwd: map<Name, Node>, ghost staged: map<Name, Node>)
    requires forall g :: g in GeneratedNames && g in staged ==> staged[g].File?
    requires fs.root == Dir(cwd[DeploymentDir := Dir(staged)])
    modifies fs
    ensures fs.root == Dir(cwd[DeploymentDir := Dir(staged
              ["setup.sh" := File(templates.setupSh)]
              ["setup.bat" := File(templates.setupBat)]
              ["README.md" := File(templates.readme)])])
  {
    ghost var s1 := staged["setup.sh" := File(templates.setupSh)];
    ghost var s2 := s1["setup.bat" := File(templates.setupBat)];
    PlaceTwo(cwd[DeploymentDir := Dir(staged)], DeploymentDir, "setup.sh", File(templates.setupSh));
    fs.WriteFile([DeploymentDir, "setup.sh"], templates.setupSh);
    assert cwd[DeploymentDir := Dir(staged)][DeploymentDir := Dir(s1)] == cwd[DeploymentDir := Dir(s1)];
    PlaceTwo(cwd[DeploymentDir := Dir(s1)], DeploymentDir, "setup.bat", File(templates.setupBat));
    fs.WriteFile([DeploymentDir, "setup.bat"], templates.setupBat);
    assert cwd[DeploymentDir := Dir(s1)][DeploymentDir := Dir(s2)] == cwd[DeploymentDir := Dir(s2)];
    PlaceTwo(cwd[DeploymentDir := Dir(s2)], DeploymentDir, "README.md", File(templates.readme));
    fs.WriteFile([DeploymentDir, "README.md"], templates.readme);
    assert cwd[DeploymentDir := Dir(s2)][DeploymentDir := Dir(s2["README.md" := File(templates.readme)])]
        == cwd[DeploymentDir := Dir(s2["README.md" := File(templates.readme)])];
  }

  /**
   * Recreate the staging directory, copy the listed entries into it,
   * write the generated files, report the archive and the staged size.
   * The external zip and tar commands are represented by whether each
   * one succeeds.
   */
  method Package(fs: FileSystem, items: seq<string>, patterns: seq<string>, templates: Templates,
                 zipSucceeds: bool, tarSucceeds: bool)
    returns (archive: Archive, totalSize: nat)
    requires fs.root.Dir?
    requires forall item :: item in items ==> ValidItem(item)
    requires forall item :: item in items && ItemPresent(fs.root.children, item) && ItemName(item) in GeneratedNames
               ==> fs.root.children[ItemName(item)].File?
    modifies fs
    ensures fs.root == Dir(old(fs.root.children)[DeploymentDir :=
              Dir(Deployment(old(fs.root.children) - {DeploymentDir}, items, patterns, templates))])
    ensures archive == ChooseArchive(zipSucceeds, tarSucceeds)
    ensures totalSize == TotalSize(Dir(Deployment(old(fs.root.children) - {DeploymentDir}, items, patterns, templates)))
  {
    ghost var cwd := fs.root.children - {DeploymentDir};
    var staging := [DeploymentDir];
    LookupOne(fs.root.children, DeploymentDir);
    if fs.Exists(staging) {
      fs.Remove(staging);
    } else {
      assert fs.root.children == cwd;
    }
    assert fs.root == Dir(cwd);
    fs.Mkdir(staging);
    assert fs.root == Dir(cwd[DeploymentDir := Dir(Staged(cwd, items[..0], patterns))]);
    for i := 0 to |items|
      invariant fs.root == Dir(cwd[DeploymentDir := Dir(Staged(cwd, items[..i], patterns))])
    {
      assert items[..i + 1][..i] == items[..i] && items[..i + 1][i] == items[i];
      assert ValidItem(items[i]);
      forall k | k in Staged(cwd, items[..i], patterns)
        ensures k in cwd && Staged(cwd, items[..i], patterns)[k] == Filter(cwd[k], patterns)
      {
        StagedEntries(cwd, items[..i], patterns, k);
      }
      StageItem(fs, items[i], patterns, cwd, Staged(cwd, items[..i], patterns));
    }
    assert items[..|items|] == items;
    StagedGeneratedAreFiles(cwd, items, patterns);
    WriteGenerated(fs, templates, cwd, Staged(cwd, items, patterns));
    assert cwd[DeploymentDir := Dir(Deployment(cwd, items, patterns, templates))]
        == old(fs.root.children)[DeploymentDir := Dir(Deployment(cwd, items, patterns, templates))];
    archive := ChooseArchive(zipSucceeds, tarSucceeds);
    LookupOne(fs.root.children, DeploymentDir);
    totalSize := GetDirectorySize(fs, staging);
  }

  lemma LookupOne(m: map<Name, Node>, a: Name)
    ensures Lookup(Dir(m), [a]) == Get(m, a)
  {
    assert [a][1..] == [];
  }

  /** Writing `x` at `[a, b]` below the directory `a`: the parent exists and the entry `b` of `a` becomes `x`. */
  lemma PlaceTwo(m: map<Name, Node>, a: Name, b: Name, x: Node)
    requires a in m && m[a].Dir?
    ensures Lookup(Dir(m), [a, b]) == Get(m[a].children, b)
    ensures ParentIsDir(Dir(m), [a, b])
    ensures CanPlace(Dir(m), [a, b])
    ensures Place(Dir(m), [a, b], x) == Dir(m[a := Dir(m[a].children[b := x])])
  {
    assert [a, b][1..] == [b] && [a, b][..1] == [a] && [b][1..] == [];
    LookupOne(m, a);
    LookupOne(m[a].children, b);
    assert Place(m[a], [b], x) == Dir(m[a].children[b := x]);
  }

  lemma StagedGeneratedAreFiles(cwd: map<Name, Node>, items: seq<string>, patterns: seq<string>)
    requires forall item :: item in items && ItemPresent(cwd, item) && ItemName(item) in GeneratedNames
               ==> cwd[ItemName(item)].File?
    ensures forall g :: g in GeneratedNames && g in Staged(cwd, items, patterns) ==> Staged(cwd, items, patterns)[g].File?
  {
    forall g | g in GeneratedNames && g in Staged(cwd, items, patterns)
      ensures Staged(cwd, items, patterns)[g].File?
    {
      StagedEntries(cwd, items, patterns, g);
      var i :| 0 <= i < |items| && ItemName(items[i]) == g && ItemPresent(cwd, items[i]);
      assert items[i] in items;
    }
  }

}
