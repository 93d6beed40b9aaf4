/**
 * The exclusion predicate of create-deployment-zip.js (lines 262-268).
 *
 * An entry name is excluded when some pattern of the list excludes it.
 * A pattern without `*` excludes by `String.prototype.includes` (substring
 * containment); a pattern with `*` is turned into a JavaScript regular
 * expression by replacing every `*` with `.*` and is tested UNANCHORED
 * with `RegExp.prototype.test`.  The regular expressions built this way
 * use only literal characters, `.` and `.*`, so this module carries a
 * matcher for exactly that subset, and a declarative reading of it.
 */
module Exclusion {

  /** A regular-expression atom: a literal character, or `.`. */
  datatype Atom = Lit(c: char) | AnyChar

  /** A regular-expression term: an atom on its own, or an atom under `*`. */
  datatype Term = One(atom: Atom) | Star(atom: Atom)

  type Regex = seq<Term>

  /**
   * Without the `s` flag, JavaScript's `.` matches every UTF-16 code unit
   * but these four; here a name is a sequence of whole characters.
   */
  predicate IsLineTerminator(c: char) {
    c == '\n' || c == '\r' || c == '\U{2028}' || c == '\U{2029}'
  }

  predicate AtomMatches(a: Atom, c: char) {
    match a
    case Lit(x) => c == x
    case AnyChar => !IsLineTerminator(c)
  }

  predicate AllMatch(a: Atom, u: string) {
    forall j :: 0 <= j < |u| ==> AtomMatches(a, u[j])
  }

  // ---------------------------------------------------------------------
  // Building the regular expression (line 264)
  // ---------------------------------------------------------------------

  /**
   * `pattern.replace` of every `*` by `.*`.  In the source it produces, every `*`
   * directly follows a `.`, so each `*` quantifies "any character other
   * than a line terminator".
   */
  function ReplaceStars(p: string): (r: string)
    ensures forall i :: 0 <= i < |r| && r[i] == '*' ==> 0 < i && r[i - 1] == '.'
  {
    if p == [] then []
    else (if p[0] == '*' then ".*" else [p[0]]) + ReplaceStars(p[1..])
  }

  function AtomOf(c: char): Atom {
    if c == '.' then AnyChar else Lit(c)
  }

  /**
   * `new RegExp(source)` restricted to literal characters, `.` and a
   * postfix `*`.  Other metacharacters are read as literals (none occurs
   * in the pattern list at lines 39-55).
   */
  function Parse(s: string): Regex {
    if s == [] then []
    else if |s| >= 2 && s[1] == '*' then [Star(AtomOf(s[0]))] + Parse(s[2..])
    else [One(AtomOf(s[0]))] + Parse(s[1..])
  }

  /**
   * The pattern read character by character: `*` is `.*`, `.` is any
   * character other than a line terminator.
   */
  function Compile(p: string): Regex {
    if p == [] then []
    else [if p[0] == '*' then Star(AnyChar) else One(AtomOf(p[0]))] + Compile(p[1..])
  }

  /** The regular expression built at line 264 is the pattern read character by character. */
  lemma {:induction false} ParseReplaceStars(p: string)
    ensures Parse(ReplaceStars(p)) == Compile(p)
  {
    if p != [] {
      var r := ReplaceStars(p[1..]);
      ParseReplaceStars(p[1..]);
      if p[0] == '*' {
        assert ReplaceStars(p) == ".*" + r;
        assert (".*" + r)[2..] == r;
      } else {
        assert ReplaceStars(p) == [p[0]] + r;
        assert ([p[0]] + r)[1..] == r;
        assert |r| > 0 ==> r[0] != '*';
      }
    }
  }

  // ---------------------------------------------------------------------
  // What a regular expression means, and how it is searched
  // ---------------------------------------------------------------------

  /** The whole of `w` is in the language of `re`. */
  ghost predicate FullMatch(re: Regex, w: string)
    decreases |re|
  {
    if re == [] then w == []
    else
      match re[0]
      case One(a) => w != [] && AtomMatches(a, w[0]) && FullMatch(re[1..], w[1..])
      case Star(a) => exists k :: 0 <= k <= |w| && AllMatch(a, w[..k]) && FullMatch(re[1..], w[k..])
  }

  /** Backtracking match of `re` against a prefix of `s`. */
  predicate MatchHere(re: Regex, s: string)
    decreases |re|, |s|
  {
    if re == [] then true
    else
      match re[0]
      case One(a) => s != [] && AtomMatches(a, s[0]) && MatchHere(re[1..], s[1..])
      case Star(a) => MatchHere(re[1..], s) || (s != [] && AtomMatches(a, s[0]) && MatchHere(re, s[1..]))
  }

  /** `RegExp.prototype.test` without anchors: try a match at every start position. */
  predicate Search(re: Regex, s: string)
    decreases |s|
  {
    MatchHere(re, s) || (s != [] && Search(re, s[1..]))
  }

  lemma {:induction false} MatchHereIff(re: Regex, s: string)
    ensures MatchHere(re, s) <==> exists j :: 0 <= j <= |s| && FullMatch(re, s[..j])
    decreases |re|, |s|
  {
    if re == [] {
      assert FullMatch(re, s[..0]);
    } else {
      match re[0]
      case One(a) =>
        if s == [] {
          forall j | 0 <= j <= |s| ensures !FullMatch(re, s[..j]) {
            assert s[..j] == [];
          }
        } else {
          MatchHereIff(re[1..], s[1..]);
          if MatchHere(re, s) {
            var j :| 0 <= j <= |s[1..]| && FullMatch(re[1..], s[1..][..j]);
            assert s[..j + 1][1..] == s[1..][..j];
            assert FullMatch(re, s[..j + 1]);
          }
          if j :| 0 <= j <= |s| && FullMatch(re, s[..j]) {
            assert s[..j][1..] == s[1..][..j - 1];
          }
        }
      case Star(a) =>
        MatchHereIff(re[1..], s);
        if s != [] {
          MatchHereIff(re, s[1..]);
        }
        if MatchHere(re[1..], s) {
          var j :| 0 <= j <= |s| && FullMatch(re[1..], s[..j]);
          assert s[..j][..0] == [] && s[..j][0..] == s[..j];
          assert FullMatch(re, s[..j]);
        } else if s != [] && AtomMatches(a, s[0]) && MatchHere(re, s[1..]) {
          var j :| 0 <= j <= |s| - 1 && FullMatch(re, s[1..][..j]);
          var w := s[1..][..j];
          var k :| 0 <= k <= |w| && AllMatch(a, w[..k]) && FullMatch(re[1..], w[k..]);
          var w' := s[..j + 1];
          assert w' == [s[0]] + w;
          assert w'[..k + 1] == [s[0]] + w[..k];
          assert w'[k + 1..] == w[k..];
          assert AllMatch(a, w'[..k + 1]);
          assert FullMatch(re, w');
        }
        if j :| 0 <= j <= |s| && FullMatch(re, s[..j]) {
          var w := s[..j];
          var k :| 0 <= k <= |w| && AllMatch(a, w[..k]) && FullMatch(re[1..], w[k..]);
          if k == 0 {
            assert w[0..] == w;
          } else {
            var w2 := s[1..][..j - 1];
            assert w2 == w[1..];
            assert w2[..k - 1] == w[1..k];
            assert w2[k - 1..] == w[k..];
            assert AtomMatches(a, w[..k][0]);
            assert FullMatch(re, w2);
          }
        }
    }
  }

  /** The unanchored test succeeds exactly when some substring of `s` is in the language. */
  lemma {:induction false} SearchIff(re: Regex, s: string)
    ensures Search(re, s) <==> exists i, j :: 0 <= i <= j <= |s| && FullMatch(re, s[i..j])
    decreases |s|
  {
    MatchHereIff(re, s);
    if s != [] {
      SearchIff(re, s[1..]);
    }
    if MatchHere(re, s) {
      var j :| 0 <= j <= |s| && FullMatch(re, s[..j]);
      assert s[0..j] == s[..j];
    } else if s != [] && Search(re, s[1..]) {
      var i, j :| 0 <= i <= j <= |s| - 1 && FullMatch(re, s[1..][i..j]);
      assert s[i + 1..j + 1] == s[1..][i..j];
    }
    if i, j :| 0 <= i <= j <= |s| && FullMatch(re, s[i..j]) {
      if i == 0 {
        assert s[..j] == s[i..j];
      } else {
        assert s[1..][i - 1..j - 1] == s[i..j];
      }
    }
  }

  // ---------------------------------------------------------------------
  // Substring containment (`String.prototype.includes`)
  // ---------------------------------------------------------------------

  predicate Contains(s: string, p: string)
    decreases |s|
  {
    p <= s || (s != [] && Contains(s[1..], p))
  }

  /** `p` occurs in `s` starting at index `i`. */
  predicate OccursAt(s: string, p: string, i: int) {
    0 <= i <= |s| - |p| && s[i..i + |p|] == p
  }

  lemma {:induction false} ContainsIff(s: string, p: string)
    ensures Contains(s, p) <==> exists i :: OccursAt(s, p, i)
    decreases |s|
  {
    if s != [] {
      ContainsIff(s[1..], p);
    }
    if p <= s {
      assert s[0..|p|] == p;
      assert OccursAt(s, p, 0);
    } else if s != [] && Contains(s[1..], p) {
      var i :| OccursAt(s[1..], p, i);
      assert s[i + 1..i + 1 + |p|] == s[1..][i..i + |p|];
      assert OccursAt(s, p, i + 1);
    }
    if i :| OccursAt(s, p, i) {
      if i == 0 {
        assert p <= s;
      } else {
        assert s[1..][i - 1..i - 1 + |p|] == s[i..i + |p|];
        assert OccursAt(s[1..], p, i - 1);
      }
    }
  }

  // ---------------------------------------------------------------------
  // The exclusion predicate (lines 262-268)
  // ---------------------------------------------------------------------

  /**
   * One pattern's test inside the `some` callback, lines 263-267: a
   * literal pattern excludes the names containing it (the equality test
   * adds nothing), a `*` pattern the names in which the pattern, read
   * character by character, is found by the unanchored search.
   */
  predicate Excludes(pattern: string, name: string): (r: bool)
    ensures '*' !in pattern ==> (r <==> Contains(name, pattern))
    ensures '*' in pattern ==> (r <==> Search(Compile(pattern), name))
  {
    if '*' in pattern then
      ParseReplaceStars(pattern);
      Search(Parse(ReplaceStars(pattern)), name)
    else
      assert name == pattern ==> pattern <= name;
      name == pattern || Contains(name, pattern)
  }

  /**
   * `excludePatterns.some(...)`, line 262: an entry is excluded if and
   * only if at least one pattern of the list excludes it.
   */
  predicate ShouldExclude(patterns: seq<string>, name: string): (r: bool)
    ensures r <==> exists p :: p in patterns && Excludes(p, name)
  {
    assert forall p :: p in patterns <==> patterns != [] && (p == patterns[0] || p in patterns[1..]);
    patterns != [] && (Excludes(patterns[0], name) || ShouldExclude(patterns[1..], name))
  }

  /**
   * A pattern without `*` excludes exactly the names that contain it as a
   * substring; the equality test of line 267 adds nothing.
   */
  lemma LiteralPatternIsSubstring(pattern: string, name: string)
    requires '*' !in pattern
    ensures Excludes(pattern, name) <==> exists i :: OccursAt(name, pattern, i)
  {
    ContainsIff(name, pattern);
    if name == pattern {
      assert name[0..|pattern|] == pattern;
      assert OccursAt(name, pattern, 0);
    }
  }

  /**
   * A pattern with `*` excludes exactly the names with some substring in
   * the language of the pattern read with `*` as `.*` and `.` as any
   * character other than a line terminator: the match is not anchored
   * at either end.
   */
  lemma WildcardPatternIsUnanchored(pattern: string, name: string)
    requires '*' in pattern
    ensures Excludes(pattern, name) <==>
              exists i, j :: 0 <= i <= j <= |name| && FullMatch(Compile(pattern), name[i..j])
  {
    ParseReplaceStars(pattern);
    SearchIff(Compile(pattern), name);
  }

  /** The order (and repetition) of the patterns does not matter, only which patterns occur. */
  lemma ShouldExcludeOrderFree(ps: seq<string>, qs: seq<string>, name: string)
    requires forall p :: p in ps <==> p in qs
    ensures ShouldExclude(ps, name) == ShouldExclude(qs, name)
  {
  }

  // ---------------------------------------------------------------------
  // What `*.suffix` patterns (`*.log`, `*.tmp`, `*.temp`) really exclude
  // ---------------------------------------------------------------------

  /** A pattern with neither `*` nor `.` is matched literally. */
  lemma {:induction false} LiteralRegex(x: string, w: string)
    requires '*' !in x && '.' !in x
    ensures FullMatch(Compile(x), w) <==> w == x
    decreases |x|
  {
    if x != [] {
      assert x[0] in x;
      assert forall c :: c in x[1..] ==> c in x;
      LiteralRegex(x[1..], if w == [] then w else w[1..]);
      if w != [] && w[0] == x[0] && w[1..] == x[1..] {
        assert w == [x[0]] + x[1..] == x;
      }
    }
  }

  /**
   * `*.x` is not a shell glob: it excludes every name in which some
   * character other than a line terminator is directly followed by `x`,
   * anywhere in the name (so `*.log` excludes `catalog.ts`).
   */
  lemma StarDotSuffix(x: string, name: string)
    requires '*' !in x && '.' !in x
    ensures Excludes("*." + x, name) <==>
              exists q :: 0 <= q && q + 1 + |x| <= |name| && !IsLineTerminator(name[q]) && name[q + 1..q + 1 + |x|] == x
  {
    var p := "*." + x;
    assert p[0] == '*' && p[1..][0] == '.' && p[1..][1..] == x;
    var re := Compile(p);
    var tail := [One(AnyChar)] + Compile(x);
    assert Compile(p[1..]) == [One(AtomOf('.'))] + Compile(x);
    assert re == [Star(AnyChar)] + tail;
    assert re[1..] == tail && tail[1..] == Compile(x);
    WildcardPatternIsUnanchored(p, name);
    if i, j :| 0 <= i <= j <= |name| && FullMatch(re, name[i..j]) {
      var w := name[i..j];
      var k :| 0 <= k <= |w| && AllMatch(AnyChar, w[..k]) && FullMatch(tail, w[k..]);
      LiteralRegex(x, w[k..][1..]);
      assert w[k..][1..] == x;
      var q := i + k;
      assert name[q] == w[k..][0];
      assert name[q + 1..q + 1 + |x|] == w[k..][1..];
    }
    if q :| 0 <= q && q + 1 + |x| <= |name| && !IsLineTerminator(name[q]) && name[q + 1..q + 1 + |x|] == x {
      var w := name[q..q + 1 + |x|];
      LiteralRegex(x, w[1..]);
      assert w[1..] == x;
      assert FullMatch(tail, w);
      assert w[..0] == [] && w[0..] == w;
      assert FullMatch(re, w);
    }
  }

  lemma LogPatternExcludesCatalog()
    ensures Excludes("*.log", "catalog.ts")
  {
    StarDotSuffix("log", "catalog.ts");
    assert "*." + "log" == "*.log";
    var name := "catalog.ts";
    assert name[4..7] == "log";
    assert !IsLineTerminator(name[3]);
  }

  lemma TmpPatternExcludesUtmp()
    ensures Excludes("*.tmp", "utmp")
  {
    StarDotSuffix("tmp", "utmp");
    assert "*." + "tmp" == "*.tmp";
    assert "utmp"[1..4] == "tmp";
  }

  /** `*.log` needs one character before `log`, and that character may not be a line terminator. */
  lemma LogPatternNeedsAPrecedingCharacter()
    ensures !Excludes("*.log", "log")
    ensures !Excludes("*.log", "\nlog")
  {
    StarDotSuffix("log", "log");
    StarDotSuffix("log", "\nlog");
    assert "*." + "log" == "*.log";
  }

  /** Substring matching: the literal pattern `build` excludes `build.gradle`. */
  lemma BuildExcludesBuildGradle()
    ensures Excludes("build", "build.gradle")
  {
    assert "build" <= "build.gradle";
  }

}
