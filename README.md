# Deployment packager, modelled in Dafny

`create-deployment-zip.js` builds a deployment package for the Sahm
Delivery application. It recreates a staging directory
`sahm-delivery-deployment`, copies a fixed list of files and directories
of the working directory into it (directories through a recursive copy
that skips every entry whose name matches one of fifteen exclusion
patterns), writes three generated files (`setup.sh`, `setup.bat`,
`README.md`) at the staging root, archives the staging directory with
`zip` or, failing that, `tar`, and reports the staged size.

This project models that core:

- `wrappers.dfy` — module `Wrappers`: the `Option` type.
- `exclusion.dfy` — module `Exclusion`: the exclusion predicate. A
  pattern without `*` excludes by substring containment; a pattern with
  `*` is rewritten (`*` becomes `.*`) into a JavaScript regular
  expression and tested unanchored. The module carries a backtracking
  matcher for the regular expressions that rewrite can produce (literal
  characters, `.`, `.*`), a declarative language semantics, and proofs
  connecting them.
- `filetree.dfy` — module `FileTree`: a file tree (`File(data)` or
  `Dir(children)`), path lookup and placement, the pure specification of
  the filtered copy (`Filter`) and of the size (`TotalSize`), with their
  properties.
- `disk.dfy` — module `Disk`: class `FileSystem`, one mutable tree rooted
  at the working directory, with the state-changing `fs` calls the
  script makes as methods that state the new tree, and the queries as
  functions.
- `helpers.dfy` — module `DirectoryHelpers`: `copyDirectorySync` and
  `getDirectorySize` as imperative methods over `FileSystem`, proved
  against `Filter` and `TotalSize`.
- `packager.dfy` — module `Packager`: the configured lists, the staging
  run (`Package`) proved against the pure description `Deployment`, the
  archive choice, and the properties of the staged result.

A shell-glob reading would anchor `*.log` over the whole entry name, but
the code calls `RegExp.prototype.test` on an unanchored expression, so
`*.log` excludes `catalog.ts` and `*.tmp` excludes `utmp` (see
`Exclusion.StarDotSuffix`). The `.` in those patterns is the
regular-expression metacharacter, not a literal dot.

## Model

| member | source | states |
|---|---|---|
| `Exclusion.ReplaceStars` | create-deployment-zip.js:264 | after `pattern.replace(/\*/g, '.*')` every `*` directly follows a `.` |
| `Exclusion.ParseReplaceStars` | create-deployment-zip.js:264 | the regular expression built from a pattern is the pattern read character by character, `*` as "any run of characters other than line terminators" and `.` as "any character other than a line terminator" |
| `Exclusion.MatchHereIff` | create-deployment-zip.js:265 | the backtracking matcher accepts a prefix exactly when some prefix is in the language of the expression |
| `Exclusion.SearchIff` | create-deployment-zip.js:265 | `regex.test(name)` is true exactly when some substring of the name is in the language (no anchoring) |
| `Exclusion.ContainsIff` | create-deployment-zip.js:267 | `name.includes(pattern)` holds exactly when the pattern occurs at some index of the name |
| `Exclusion.LiteralPatternIsSubstring` | create-deployment-zip.js:267 | a pattern without `*` excludes a name if and only if the name contains it; the equality test adds nothing |
| `Exclusion.WildcardPatternIsUnanchored` | create-deployment-zip.js:263-266 | a pattern with `*` excludes a name if and only if some substring of the name matches the pattern |
| `Exclusion.Excludes` | create-deployment-zip.js:263-267 | a pattern with `*` excludes a name exactly when the compiled expression matches somewhere in it; a pattern without `*` exactly when the name contains it |
| `Exclusion.ShouldExclude` | create-deployment-zip.js:262-268 | an entry is excluded if and only if at least one pattern of the list excludes it |
| `Exclusion.ShouldExcludeOrderFree` | create-deployment-zip.js:262 | two pattern lists with the same members exclude the same names, whatever their order or repetitions |
| `Exclusion.LiteralRegex` | create-deployment-zip.js:264-265 | a pattern with neither `*` nor `.` matches only its own text |
| `Exclusion.StarDotSuffix` | create-deployment-zip.js:47-51 | `*.x` excludes a name exactly when some non-line-terminator character is followed by `x` anywhere in the name |
| `Exclusion.LogPatternExcludesCatalog` | create-deployment-zip.js:47 | `*.log` excludes `catalog.ts` |
| `Exclusion.TmpPatternExcludesUtmp` | create-deployment-zip.js:50 | `*.tmp` excludes `utmp` |
| `Exclusion.LogPatternNeedsAPrecedingCharacter` | create-deployment-zip.js:47 | `*.log` does not exclude `log` nor a name where only a newline precedes `log` |
| `Exclusion.BuildExcludesBuildGradle` | create-deployment-zip.js:46 | the literal pattern `build` excludes `build.gradle` |
| `FileTree.Place` | create-deployment-zip.js:90 | after writing an entry at a path, that path holds it |
| `FileTree.Delete` | create-deployment-zip.js:64 | removing a path that holds nothing leaves the tree as it was (`force: true`) |
| `FileTree.LookupDeleteGone` | create-deployment-zip.js:64 | after a recursive removal nothing is left at the path nor below it |
| `FileTree.LookupDeleteOther` | create-deployment-zip.js:64 | a removal leaves every path neither above nor below it unchanged |
| `FileTree.LookupPlaceBelow` | create-deployment-zip.js:275 | after writing a tree at a path, the paths below it read from that tree |
| `FileTree.LookupPlaceDisjoint` | create-deployment-zip.js:255-278 | writing at one path leaves every path neither above nor below it unchanged |
| `FileTree.PlaceLookup` | create-deployment-zip.js:251-253 | writing back what a path already holds changes nothing |
| `FileTree.PlaceCanPlace` | create-deployment-zip.js:274-278 | once a directory is written at a path, the paths below it can be written |
| `FileTree.PlacePlace` | create-deployment-zip.js:274-278 | writing below a path inside a tree just written there is writing the updated tree |
| `FileTree.LookupAppend` | create-deployment-zip.js:258 | looking up `src` joined with an entry name is looking the name up in the directory at `src` |
| `FileTree.Overlay` | create-deployment-zip.js:251-253 | copying over nothing yields the copy; the result is a directory exactly when the copy is |
| `FileTree.OverlayMerge` | create-deployment-zip.js:251-278 | copying a directory over an existing one: an entry the copy names is the copy written over what was there, an entry it does not name survives unchanged, nothing else appears |
| `FileTree.OverlaySelf` | create-deployment-zip.js:82 | copying a tree over an identical tree is allowed and changes nothing |
| `FileTree.OverlayEmpty` | create-deployment-zip.js:251-253 | copying a directory into a freshly created empty directory yields the copy |
| `FileTree.Filter` | create-deployment-zip.js:250-280 | a file is copied as it is; a directory's copy keeps exactly the entry names no pattern excludes |
| `FileTree.LookupFilter` | create-deployment-zip.js:257-278 | a path of the copy holds nothing if some name along it is excluded, and otherwise the copy of what the source holds there |
| `FileTree.CopyIsSound` | create-deployment-zip.js:255-278 | every entry of the copy exists in the source, every name along its path passes the predicate, files are identical and directories stay directories |
| `FileTree.CopyIsComplete` | create-deployment-zip.js:257-278 | every source file reached only through names that pass the predicate is in the copy, unchanged |
| `FileTree.CopyPrunesSubtree` | create-deployment-zip.js:270-272 | nothing at or below an excluded entry is in the copy |
| `FileTree.FilterIdempotent` | create-deployment-zip.js:250-280 | filtering a copy again with the same patterns changes nothing |
| `FileTree.FilterNoPatterns` | create-deployment-zip.js:250 | with the default empty pattern list the copy is the source itself |
| `FileTree.TotalSize` | create-deployment-zip.js:283-300 | a file counts its number of bytes; an empty directory counts nothing |
| `FileTree.SumSizesRemove` | create-deployment-zip.js:290-293 | the size of a directory does not depend on the order its entries are visited in |
| `FileTree.DirSizeSplit` | create-deployment-zip.js:289-293 | a directory's size is one entry's size plus the size of the others |
| `FileTree.SumSizesAgree` | create-deployment-zip.js:290-293 | the partial sum only depends on the entries it counts |
| `FileTree.SizeExample` | create-deployment-zip.js:283-300 | files of 100, 250 and 4096 bytes, the last two in a subdirectory, next to an empty directory, add up to 4446 |
| `Disk.FileSystem.Exists` | create-deployment-zip.js:63 | the working directory exists; whatever exists has an existing directory above it |
| `Disk.FileSystem.IsDirectory` | create-deployment-zip.js:80 | only an existing entry is a directory |
| `Disk.FileSystem.FileSize` | create-deployment-zip.js:287-295 | the size of a file is what it adds to the total size of a tree |
| `Disk.FileSystem.ReadDir` | create-deployment-zip.js:255 | `readdirSync` lists every entry of the directory exactly once |
| `Disk.FileSystem.Mkdir` | create-deployment-zip.js:68 | a missing directory is created (with its missing parents), an existing one kept |
| `Disk.FileSystem.CopyFile` | create-deployment-zip.js:90 | the destination holds the source file's contents, nothing else changes |
| `Disk.FileSystem.WriteFile` | create-deployment-zip.js:128 | the path holds the written contents, nothing else changes |
| `Disk.FileSystem.Remove` | create-deployment-zip.js:64 | the tree becomes `Delete` of the path, so the entry and its subtree are gone, the rest stays (`FileTree.LookupDeleteGone`, `FileTree.LookupDeleteOther`) and a missing entry is no error |
| `DirectoryHelpers.CopyDirectory` | create-deployment-zip.js:250-280 | the destination becomes the filtered copy of the source written over what it held, and nothing outside it changes |
| `DirectoryHelpers.CalculateSize` | create-deployment-zip.js:286-297 | the running total grows by exactly the sum of the file sizes below the path |
| `DirectoryHelpers.GetDirectorySize` | create-deployment-zip.js:283-300 | the result is the sum of the sizes of all files below the path |
| `Packager.ConfiguredItemsValid` | create-deployment-zip.js:10-36 | every configured entry is a single top-level name, optionally with a trailing `/`, other than `.`, `..` and the staging directory |
| `Packager.ConfiguredPatternsExcludeCatalog` | create-deployment-zip.js:39-55 | the configured list excludes `catalog.ts`, through `*.log` |
| `Packager.ConfiguredPatternsExcludeBuildScript` | create-deployment-zip.js:39-55 | the configured list excludes `my-build-script.js`, through the literal `build` |
| `Packager.ItemPresent` | create-deployment-zip.js:74-77 | a plain entry exists exactly when its name is in the working directory; an entry written with a trailing `/` exists only as a directory, since a path ending in `/` does not resolve to a file |
| `Packager.Staged` | create-deployment-zip.js:73-96 | only names of the working directory are staged |
| `Packager.StagedEntries` | create-deployment-zip.js:73-96 | a name is staged if and only if a listed entry of that name exists, and then it holds the filtered copy of it |
| `Packager.TopLevelNotFiltered` | create-deployment-zip.js:73-82 | an existing listed entry is staged even if its own name matches a pattern |
| `Packager.MissingItemSkipped` | create-deployment-zip.js:93-95 | an entry that does not exist is skipped and nothing of its name is staged |
| `Packager.StagedTreeIsFilteredSource` | create-deployment-zip.js:73-96 | every staged path exists in the working directory, no name below the top level is excluded, and it holds the filtered copy of the source entry |
| `Packager.StagedTreeIsComplete` | create-deployment-zip.js:73-96 | every file of a listed directory reached through names that pass the predicate is staged, unchanged |
| `Packager.Deployment` | create-deployment-zip.js:128-214 | the staging root holds the staged names plus the three generated ones; the generated files hold their templates, so the generated `README.md` replaces a copied one; every other staged entry is kept as staged |
| `Packager.StagingIsFresh` | create-deployment-zip.js:63-68 | the staged result does not depend on what the staging directory held before the run |
| `Packager.NodeModulesScenario` | create-deployment-zip.js:73-96 | `a.txt` and `src/` over `a.txt`, `src/index.js`, `src/node_modules/pkg/file.js` with `node_modules` stage `a.txt` and `src/index.js` only |
| `Packager.LiteralSubsumed` | create-deployment-zip.js:267 | a literal pattern containing another literal pattern excludes nothing more than it |
| `Packager.EnvVariantsRedundant` | create-deployment-zip.js:43-45 | `.env.local` and `.env.production` exclude only names that `.env` already excludes |
| `Packager.Substitute` | create-deployment-zip.js:226 | a replacement text without `$` is inserted as written; `$$`, `$&`, `` $` `` and `$'` expand as in JavaScript's `replace` |
| `Packager.ReplaceFirstAt` | create-deployment-zip.js:226 | `replace` with a string pattern replaces the first occurrence only, by the replacement with its `$` patterns expanded |
| `Packager.MatchedTextExpanded` | create-deployment-zip.js:226 | `"a.zip".replace(".zip", "$&!")` is `"a.zip!"` |
| `Packager.ReplaceSuffix` | create-deployment-zip.js:226 | replacing a first occurrence that ends the string by a text without `$` swaps that suffix |
| `Packager.TarballNameReplaced` | create-deployment-zip.js:226-227 | replacing `.zip` in `sahm-delivery-essential-files.zip` gives `sahm-delivery-essential-files.tar.gz` |
| `Packager.ReplaceFirst` | create-deployment-zip.js:226 | a string without the pattern is returned unchanged |
| `Packager.ChooseArchive` | create-deployment-zip.js:219-233 | the archive is the zip exactly when `zip` succeeds, the tarball exactly when `zip` fails and `tar` succeeds, named `sahm-delivery-essential-files.zip` and `sahm-delivery-essential-files.tar.gz`; otherwise the staging directory is left as it is |
| `Packager.StageItem` | create-deployment-zip.js:74-95 | one pass of the copy loop adds the filtered copy of an existing entry under its own name and skips a missing one |
| `Packager.WriteGenerated` | create-deployment-zip.js:128-214 | the three generated files are written at the staging root over whatever was staged there |
| `Packager.Package` | create-deployment-zip.js:61-237 | the working directory afterwards is the old one with the staging directory replaced by the staged entries plus the generated files; the reported archive and size match |

## Left out

- The real filesystem: paths are sequences of names, `process.cwd()` is
  the root of the tree and `path.join` appends names to a path, and symbolic links, file
  modes and timestamps are not modelled.
- `readdirSync` order: `Disk.FileSystem.ReadDir` may return the names in
  any order; every proved result holds for all orders.
- I/O errors and `process.exit(1)`: the method preconditions exclude the
  cases where a Node.js call would throw (a file where a directory is
  needed and back, a generated name that is a listed directory), so the
  error path of lines 244-247 is not modelled.
- `DirectoryHelpers.CopyDirectory`: requires the copy to be compatible
  with what the destination holds; this is stricter than Node.js in one
  corner, an empty filtered directory copied over an existing file: at
  line 251 `mkdirSync` is skipped because the destination exists, even as
  a file, and when the source is empty or every entry is excluded no
  further call is made, so Node.js raises nothing and the file stays.
- `DirectoryHelpers.CopyDirectory`: requires source and destination to be
  disjoint; the script only copies from the working directory into the
  staging directory, which is never listed.
- `Packager.Package`: requires each listed entry to be a single top-level
  name (optionally with a trailing `/`) other than `.`, `..` and the
  staging directory, as all configured entries are; the `mkdirSync` of
  `path.dirname(destPath)` at lines 86-89 then never runs and is not
  modelled.
- `chmodSync` of `setup.sh` (line 129): file modes are not modelled.
- The text of the generated files is a parameter (`Templates`), not the
  template literals of lines 99-212.
- `execSync` of `zip` and `tar`: whether each command succeeds is a
  parameter; the archive file they write in the working directory is
  not added to the tree, only the reported archive name is modelled.
- Console output, the emoji progress messages and the megabyte
  formatting of the size at line 237.
- Exclusion.Excludes: names are sequences of whole characters, while a
  JavaScript regular expression without the `u` flag works on UTF-16 code
  units, so `.` matches half of a surrogate pair; the pattern `*a.b`
  excludes `a😀b` here but not in Node.js. No configured `*.x` pattern is
  affected, since each needs only some character before its suffix.
- Regular-expression metacharacters other than `.` and `*` are read as
  literal characters; none occurs in the configured pattern list, and a
  pattern that would be an invalid regular expression is not modelled.
