/** `cleanup-repo`: the walk over the working directory that deletes the files named by the
    clean-up patterns. A pattern without `*` names one file exactly; a pattern with `*` is
    turned into an anchored regular expression in which `*` stands for any run of characters.
    The file system is the in-memory tree of `Project`, and whether a deletion succeeds is a
    parameter. */
module Cleanup {
  import opened Text
  import opened Project

  const CleanupPatterns: seq<string> := [".DS_Store", "Thumbs.db", "*.log", "*.tmp", "*.bak", "~*", "*.swp"]

  /** No character of `s` ends a line, so a regular-expression `.` accepts each of them. */
  predicate OneLine(s: string) {
    forall i :: 0 <= i < |s| ==> !IsLineTerminator(s[i])
  }

  /** The regular expression `'^' + pattern.replace(/\*\/g, '.*') + '$'` against a name: `*`
      is any run of characters on one line, every other character stands for itself, except
      that a `.` stands for any character on one line when `dotAny` holds (the pattern as
      written, where the dot is left unescaped). */
  predicate WildcardMatch(pat: string, name: string, dotAny: bool)
    decreases |pat| + |name|
  {
    if pat == [] then name == []
    else if pat[0] == '*' then
      WildcardMatch(pat[1..], name, dotAny)
      || (name != [] && !IsLineTerminator(name[0]) && WildcardMatch(pat, name[1..], dotAny))
    else if pat[0] == '.' && dotAny then
      name != [] && !IsLineTerminator(name[0]) && WildcardMatch(pat[1..], name[1..], dotAny)
    else
      name != [] && name[0] == pat[0] && WildcardMatch(pat[1..], name[1..], dotAny)
  }

  /** One pattern of the list: a wildcard pattern is matched as a regular expression, any
      other pattern is compared with the name. */
  predicate PatternMatches(pat: string, name: string, dotAny: bool) {
    if '*' in pat then WildcardMatch(pat, name, dotAny) else name == pat
  }

  predicate AnyMatches(pats: seq<string>, name: string, dotAny: bool) {
    exists i :: 0 <= i < |pats| && PatternMatches(pats[i], name, dotAny)
  }

  /** Whether the patterns take a name, with `dotAny` choosing how the dots of the patterns
      are read: `true` as written, `false` literally. The walk below is stated for both. */
  predicate Cleans(name: string, dotAny: bool) {
    AnyMatches(CleanupPatterns, name, dotAny)
  }

  /** `shouldClean` as written. */
  predicate ShouldCleanAsWritten(name: string) {
    AnyMatches(CleanupPatterns, name, true)
  }

  /** `shouldClean` with the dots of the patterns taken literally. */
  predicate ShouldClean(name: string) {
    AnyMatches(CleanupPatterns, name, false)
  }

  // ---------------------------------------------------------------- the matcher

  /** A pattern without wildcards (and, as written, without dots) matches only itself. */
  lemma {:induction false} LiteralExact(s: string, name: string, dotAny: bool)
    requires '*' !in s && (dotAny ==> '.' !in s)
    ensures WildcardMatch(s, name, dotAny) <==> name == s
    decreases |s|
  {
    if s != [] {
      assert s[0] != '*' && (dotAny ==> s[0] != '.');
      assert forall c :: c in s[1..] ==> c in s;
      LiteralExact(s[1..], if name == [] then [] else name[1..], dotAny);
      if name != [] && name[0] == s[0] && name[1..] == s[1..] {
        assert name == [name[0]] + name[1..];
      }
    }
  }

  /** A leading `*` consumes some prefix on one line, and the rest of the pattern matches what
      is left. */
  lemma {:induction false} StarSplit(s: string, name: string, dotAny: bool)
    ensures WildcardMatch(['*'] + s, name, dotAny) <==>
      exists k :: 0 <= k <= |name| && OneLine(name[..k]) && WildcardMatch(s, name[k..], dotAny)
    decreases |name|
  {
    var p := ['*'] + s;
    assert p[1..] == s;
    if WildcardMatch(p, name, dotAny) {
      if !WildcardMatch(s, name, dotAny) {
        StarSplit(s, name[1..], dotAny);
        var k :| 0 <= k <= |name| - 1 && OneLine(name[1..][..k]) && WildcardMatch(s, name[1..][k..], dotAny);
        assert name[k + 1..] == name[1..][k..];
        assert name[..k + 1] == [name[0]] + name[1..][..k];
        OneLineCons(name[0], name[1..][..k]);
      } else {
        assert name[0..] == name;
      }
    }
    if exists k :: 0 <= k <= |name| && OneLine(name[..k]) && WildcardMatch(s, name[k..], dotAny) {
      var k :| 0 <= k <= |name| && OneLine(name[..k]) && WildcardMatch(s, name[k..], dotAny);
      if k == 0 {
        assert name[0..] == name;
      } else {
        assert name[..k][0] == name[0];
        assert name[1..][k - 1..] == name[k..];
        assert name[1..][..k - 1] == name[..k][1..];
        StarSplit(s, name[1..], dotAny);
      }
    }
  }

  /** `*` followed by a literal text: the name ends with the text and the part before it is on
      one line. */
  lemma StarLiteral(s: string, name: string, dotAny: bool)
    requires '*' !in s && (dotAny ==> '.' !in s)
    ensures WildcardMatch(['*'] + s, name, dotAny) <==> EndsWith(name, s) && OneLine(name[..|name| - |s|])
  {
    StarSplit(s, name, dotAny);
    forall k | 0 <= k <= |name|
      ensures WildcardMatch(s, name[k..], dotAny) <==> name[k..] == s
    {
      LiteralExact(s, name[k..], dotAny);
    }
    if EndsWith(name, s) && OneLine(name[..|name| - |s|]) {
      assert name[|name| - |s|..] == s;
    }
  }

  /** With the dot taken literally, `*.ext` matches exactly the names on one line ending in
      `.ext`. */
  lemma ExtensionPattern(ext: string, name: string)
    requires '*' !in ext
    ensures WildcardMatch("*." + ext, name, false) <==> EndsWith(name, "." + ext) && OneLine(name[..|name| - |ext| - 1])
  {
    assert "*." + ext == ['*'] + ("." + ext);
    StarLiteral("." + ext, name, false);
  }

  lemma OneLineCons(c: char, s: string)
    requires !IsLineTerminator(c) && OneLine(s)
    ensures OneLine([c] + s)
  {
    assert forall i :: 1 <= i < |s| + 1 ==> ([c] + s)[i] == s[i - 1];
  }

  lemma OneLinePrefix(s: string, k: nat)
    requires OneLine(s) && k <= |s|
    ensures OneLine(s[..k])
  {
    assert forall i :: 0 <= i < k ==> s[..k][i] == s[i];
  }

  /** As written, `.ext` is one character on one line followed by `ext`. */
  lemma AnyThenLiteral(ext: string, x: string)
    requires '*' !in ext && '.' !in ext
    ensures WildcardMatch("." + ext, x, true) <==> |x| == |ext| + 1 && !IsLineTerminator(x[0]) && x[1..] == ext
  {
    var s := "." + ext;
    assert s[0] == '.' && s[1..] == ext;
    if x != [] {
      LiteralExact(ext, x[1..], true);
    }
  }

  /** As written, `*.ext` matches every name on one line that ends in `ext` after at least one
      more character. */
  lemma ExtensionPatternAsWritten(ext: string, name: string)
    requires '*' !in ext && '.' !in ext
    ensures WildcardMatch("*." + ext, name, true) <==>
      |name| > |ext| && EndsWith(name, ext) && OneLine(name[..|name| - |ext|])
  {
    assert "*." + ext == ['*'] + ("." + ext);
    StarSplit("." + ext, name, true);
    if |name| > |ext| && EndsWith(name, ext) && OneLine(name[..|name| - |ext|]) {
      SuffixSplit(ext, name);
    }
    if WildcardMatch("*." + ext, name, true) {
      var k :| 0 <= k <= |name| && OneLine(name[..k]) && WildcardMatch("." + ext, name[k..], true);
      SplitSuffix(ext, name, k);
    }
  }

  lemma SuffixSplit(ext: string, name: string)
    requires '*' !in ext && '.' !in ext
    requires |name| > |ext| && EndsWith(name, ext) && OneLine(name[..|name| - |ext|])
    ensures var k := |name| - |ext| - 1; OneLine(name[..k]) && WildcardMatch("." + ext, name[k..], true)
  {
    var k := |name| - |ext| - 1;
    assert name[k..][1..] == name[k + 1..];
    assert name[..|name| - |ext|][k] == name[k];
    AnyThenLiteral(ext, name[k..]);
    assert name[..|name| - |ext|][..k] == name[..k];
    OneLinePrefix(name[..|name| - |ext|], k);
  }

  lemma SplitSuffix(ext: string, name: string, k: nat)
    requires '*' !in ext && '.' !in ext
    requires k <= |name| && OneLine(name[..k]) && WildcardMatch("." + ext, name[k..], true)
    ensures |name| > |ext| && EndsWith(name, ext) && OneLine(name[..|name| - |ext|])
  {
    AnyThenLiteral(ext, name[k..]);
    assert name[k..][1..] == name[k + 1..];
    assert name[..|name| - |ext|] == name[..k] + [name[k]];
    OneLineSnoc(name[..k], name[k]);
  }

  lemma OneLineSnoc(s: string, c: char)
    requires !IsLineTerminator(c) && OneLine(s)
    ensures OneLine(s + [c])
  {
    assert forall i :: 0 <= i < |s| ==> (s + [c])[i] == s[i];
  }

  /** `~*` matches the names on one line that start with `~`. */
  lemma TildePattern(name: string, dotAny: bool)
    ensures WildcardMatch("~*", name, dotAny) <==> |name| >= 1 && name[0] == '~' && OneLine(name[1..])
  {
    assert "~*"[1..] == ['*'] + [];
    if name != [] {
      StarLiteral([], name[1..], dotAny);
      assert name[1..][..|name[1..]|] == name[1..];
    }
  }

  /** A name ending in `.ext` with nothing before it but characters on one line. */
  predicate HasExtension(name: string, ext: string) {
    EndsWith(name, "." + ext) && OneLine(name[..|name| - |ext| - 1])
  }

  lemma ExtensionEntry(ext: string, name: string)
    requires '*' !in ext
    ensures PatternMatches("*." + ext, name, false) <==> HasExtension(name, ext)
  {
    assert ("*." + ext)[0] == '*';
    ExtensionPattern(ext, name);
  }

  lemma PatternsListed()
    ensures '*' !in CleanupPatterns[0] && CleanupPatterns[0] == ".DS_Store"
    ensures '*' !in CleanupPatterns[1] && CleanupPatterns[1] == "Thumbs.db"
    ensures CleanupPatterns[2] == "*." + "log" && CleanupPatterns[3] == "*." + "tmp"
    ensures CleanupPatterns[4] == "*." + "bak" && CleanupPatterns[6] == "*." + "swp"
    ensures CleanupPatterns[5] == "~*" && '*' in CleanupPatterns[5]
  {
  }

  lemma AnyOfSeven(pats: seq<string>, name: string, dotAny: bool)
    requires |pats| == 7
    ensures AnyMatches(pats, name, dotAny) <==>
      PatternMatches(pats[0], name, dotAny) || PatternMatches(pats[1], name, dotAny) || PatternMatches(pats[2], name, dotAny)
      || PatternMatches(pats[3], name, dotAny) || PatternMatches(pats[4], name, dotAny) || PatternMatches(pats[5], name, dotAny)
      || PatternMatches(pats[6], name, dotAny)
  {
    if AnyMatches(pats, name, dotAny) {
      var i :| 0 <= i < |pats| && PatternMatches(pats[i], name, dotAny);
      assert i in {0, 1, 2, 3, 4, 5, 6};
    }
  }

  /** Which pattern applies: the two system files by name, the four extensions, and the names
      starting with `~`. */
  lemma ShouldCleanCases(name: string)
    ensures ShouldClean(name) <==>
      name == ".DS_Store" || name == "Thumbs.db"
      || HasExtension(name, "log") || HasExtension(name, "tmp") || HasExtension(name, "bak") || HasExtension(name, "swp")
      || (|name| >= 1 && name[0] == '~' && OneLine(name[1..]))
  {
    var pats := CleanupPatterns;
    AnyOfSeven(pats, name, false);
    PatternsListed();
    ExtensionEntry("log", name);
    ExtensionEntry("tmp", name);
    ExtensionEntry("bak", name);
    ExtensionEntry("swp", name);
    TildePattern(name, false);
  }

  // ---------------------------------------------------------------- the walk

  /** What the walk logs for a matching file: removed, or the error of the failed deletion. */
  datatype Removal = Removed(path: string) | RemoveFailed(path: string)

  /** The log of `cleanupDir` on one entry of the directory at `rel`; `unlink` says whether
      deleting the file at a path succeeds, and `dotAny` picks the matcher (`true` is the walk
      as written, `false` the one with the dots taken literally). */
  function Visit(rel: string, e: Entry, unlink: string -> bool, dotAny: bool): seq<Removal>
    decreases e, 1
  {
    match e
    case Dir(name, es) => VisitAll(JoinPath(rel, name), es, unlink, dotAny)
    case File(name, _, _, _) =>
      var path := JoinPath(rel, name);
      if !Cleans(name, dotAny) then []
      else if unlink(path) then [Removed(path)]
      else [RemoveFailed(path)]
  }

  function VisitAll(rel: string, es: seq<Entry>, unlink: string -> bool, dotAny: bool): seq<Removal>
    decreases es, 0
  {
    if es == [] then [] else Visit(rel, es[0], unlink, dotAny) + VisitAll(rel, es[1..], unlink, dotAny)
  }

  /** The listing after the walk: a matching file goes when its deletion succeeds, every
      directory stays and is cleaned in turn. */
  function Kept(rel: string, e: Entry, unlink: string -> bool, dotAny: bool): seq<Entry>
    decreases e, 1
  {
    match e
    case Dir(name, es) => [Dir(name, KeptAll(JoinPath(rel, name), es, unlink, dotAny))]
    case File(name, _, _, _) => if Cleans(name, dotAny) && unlink(JoinPath(rel, name)) then [] else [e]
  }

  function KeptAll(rel: string, es: seq<Entry>, unlink: string -> bool, dotAny: bool): seq<Entry>
    decreases es, 0
  {
    if es == [] then [] else Kept(rel, es[0], unlink, dotAny) + KeptAll(rel, es[1..], unlink, dotAny)
  }

  lemma {:induction false} VisitAllSnoc(rel: string, es: seq<Entry>, k: nat, unlink: string -> bool, dotAny: bool)
    requires k < |es|
    ensures VisitAll(rel, es[..k + 1], unlink, dotAny) == VisitAll(rel, es[..k], unlink, dotAny) + Visit(rel, es[k], unlink, dotAny)
  {
    if k == 0 {
      assert es[..1][1..] == [];
    } else {
      assert es[..k + 1][1..] == es[1..][..k];
      assert es[..k][1..] == es[1..][..k - 1];
      VisitAllSnoc(rel, es[1..], k - 1, unlink, dotAny);
    }
  }

  lemma {:induction false} KeptAllSnoc(rel: string, es: seq<Entry>, k: nat, unlink: string -> bool, dotAny: bool)
    requires k < |es|
    ensures KeptAll(rel, es[..k + 1], unlink, dotAny) == KeptAll(rel, es[..k], unlink, dotAny) + Kept(rel, es[k], unlink, dotAny)
  {
    if k == 0 {
      assert es[..1][1..] == [];
    } else {
      assert es[..k + 1][1..] == es[1..][..k];
      assert es[..k][1..] == es[1..][..k - 1];
      KeptAllSnoc(rel, es[1..], k - 1, unlink, dotAny);
    }
  }

  /** `cleanupDir` on the directory at `rel` with listing `items`: returns what the directory
      holds afterwards and the log, one line per matching file in walk order. */
  method CleanupDir(rel: string, items: seq<Entry>, unlink: string -> bool) returns (kept: seq<Entry>, log: seq<Removal>)
    ensures kept == KeptAll(rel, items, unlink, true)
    ensures log == VisitAll(rel, items, unlink, true)
    decreases items
  {
    kept, log := [], [];
    for k := 0 to |items|
      invariant kept == KeptAll(rel, items[..k], unlink, true)
      invariant log == VisitAll(rel, items[..k], unlink, true)
    {
      var item := items[k];
      VisitAllSnoc(rel, items, k, unlink, true);
      KeptAllSnoc(rel, items, k, unlink, true);
      var fullPath := JoinPath(rel, item.name);
      if item.Dir? {
        var inner, innerLog := CleanupDir(fullPath, item.entries, unlink);
        kept := kept + [Dir(item.name, inner)];
        log := log + innerLog;
      } else if ShouldCleanAsWritten(item.name) {
        if unlink(fullPath) {
          log := log + [Removed(fullPath)];
        } else {
          log := log + [RemoveFailed(fullPath)];
          kept := kept + [item];
        }
      } else {
        kept := kept + [item];
      }
    }
    assert items[..|items|] == items;
  }

  // ---------------------------------------------------------------- what the walk promises

  /** No file anywhere in the tree matches. */
  predicate Clean(e: Entry, dotAny: bool)
    decreases e, 1
  {
    match e
    case Dir(_, es) => AllClean(es, dotAny)
    case File(name, _, _, _) => !Cleans(name, dotAny)
  }

  predicate AllClean(es: seq<Entry>, dotAny: bool)
    decreases es, 0
  {
    forall i :: 0 <= i < |es| ==> Clean(es[i], dotAny)
  }

  /** The number of matching files in the tree. */
  function Matching(e: Entry, dotAny: bool): nat
    decreases e, 1
  {
    match e
    case Dir(_, es) => MatchingAll(es, dotAny)
    case File(name, _, _, _) => if Cleans(name, dotAny) then 1 else 0
  }

  function MatchingAll(es: seq<Entry>, dotAny: bool): nat
    decreases es, 0
  {
    if es == [] then 0 else Matching(es[0], dotAny) + MatchingAll(es[1..], dotAny)
  }

  /** One log line per matching file, whether its deletion succeeds or not: a failure does not
      stop the walk. */
  lemma {:induction false} LogCountsMatches(rel: string, es: seq<Entry>, unlink: string -> bool, dotAny: bool)
    ensures |VisitAll(rel, es, unlink, dotAny)| == MatchingAll(es, dotAny)
    decreases es, 0
  {
    if es != [] {
      LogCountsMatch(rel, es[0], unlink, dotAny);
      LogCountsMatches(rel, es[1..], unlink, dotAny);
    }
  }

  lemma {:induction false} LogCountsMatch(rel: string, e: Entry, unlink: string -> bool, dotAny: bool)
    ensures |Visit(rel, e, unlink, dotAny)| == Matching(e, dotAny)
    decreases e, 1
  {
    if e.Dir? {
      LogCountsMatches(JoinPath(rel, e.name), e.entries, unlink, dotAny);
    }
  }

  /** When every deletion succeeds no matching file is left anywhere. */
  lemma {:induction false} AllRemovedClean(rel: string, es: seq<Entry>, unlink: string -> bool, dotAny: bool)
    requires forall p :: unlink(p)
    ensures AllClean(KeptAll(rel, es, unlink, dotAny), dotAny)
    decreases es, 0
  {
    if es != [] {
      OneRemovedClean(rel, es[0], unlink, dotAny);
      AllRemovedClean(rel, es[1..], unlink, dotAny);
      var a, b := Kept(rel, es[0], unlink, dotAny), KeptAll(rel, es[1..], unlink, dotAny);
      assert forall i :: 0 <= i < |a + b| ==> (a + b)[i] == if i < |a| then a[i] else b[i - |a|];
    }
  }

  lemma {:induction false} OneRemovedClean(rel: string, e: Entry, unlink: string -> bool, dotAny: bool)
    requires forall p :: unlink(p)
    ensures AllClean(Kept(rel, e, unlink, dotAny), dotAny)
    decreases e, 1
  {
    if e.Dir? {
      AllRemovedClean(JoinPath(rel, e.name), e.entries, unlink, dotAny);
      assert Clean(Kept(rel, e, unlink, dotAny)[0], dotAny);
    }
  }

  /** When every deletion fails the tree is left exactly as it was. */
  lemma {:induction false} AllFailedKept(rel: string, es: seq<Entry>, unlink: string -> bool, dotAny: bool)
    requires forall p :: !unlink(p)
    ensures KeptAll(rel, es, unlink, dotAny) == es
    decreases es, 0
  {
    if es != [] {
      OneFailedKept(rel, es[0], unlink, dotAny);
      AllFailedKept(rel, es[1..], unlink, dotAny);
      assert es == [es[0]] + es[1..];
    }
  }

  lemma {:induction false} OneFailedKept(rel: string, e: Entry, unlink: string -> bool, dotAny: bool)
    requires forall p :: !unlink(p)
    ensures Kept(rel, e, unlink, dotAny) == [e]
    decreases e, 1
  {
    if e.Dir? {
      AllFailedKept(JoinPath(rel, e.name), e.entries, unlink, dotAny);
    }
  }

  /** Directories are never removed: each one of the listing is still there, under its name,
      holding its own cleaned listing. */
  lemma {:induction false} DirsKept(rel: string, es: seq<Entry>, unlink: string -> bool, dotAny: bool, i: nat)
    requires i < |es| && es[i].Dir?
    ensures Dir(es[i].name, KeptAll(JoinPath(rel, es[i].name), es[i].entries, unlink, dotAny)) in KeptAll(rel, es, unlink, dotAny)
    decreases i
  {
    if i > 0 {
      DirsKept(rel, es[1..], unlink, dotAny, i - 1);
    }
  }

  // ---------------------------------------------------------------- the unescaped dot

  /** As written, the `*.log` pattern also takes a file named `changelog`, which has no `.log`
      extension; with the dot taken literally it does not. */
  lemma ChangelogRemovedAsWritten()
    ensures ShouldCleanAsWritten("changelog")
    ensures !ShouldClean("changelog")
  {
    ChangelogMatchedAsWritten();
    ChangelogKept();
  }

  /** Reading the dots as any character only widens the match: every name the literal
      reading takes, the pattern as written takes too. */
  lemma {:induction false} LiteralDotWithin(pat: string, name: string)
    requires WildcardMatch(pat, name, false)
    ensures WildcardMatch(pat, name, true)
    decreases |pat| + |name|
  {
    if pat != [] {
      if pat[0] == '*' {
        if WildcardMatch(pat[1..], name, false) {
          LiteralDotWithin(pat[1..], name);
        } else {
          LiteralDotWithin(pat, name[1..]);
        }
      } else {
        LiteralDotWithin(pat[1..], name[1..]);
      }
    }
  }

  /** So the walk as written deletes every file the intended walk deletes. */
  lemma ShouldCleanWithinAsWritten(name: string)
    requires ShouldClean(name)
    ensures ShouldCleanAsWritten(name)
  {
    var i :| 0 <= i < |CleanupPatterns| && PatternMatches(CleanupPatterns[i], name, false);
    if '*' in CleanupPatterns[i] {
      LiteralDotWithin(CleanupPatterns[i], name);
    }
    assert PatternMatches(CleanupPatterns[i], name, true);
  }

  lemma ChangelogMatchedAsWritten()
    ensures ShouldCleanAsWritten("changelog")
  {
    var name := "changelog";
    assert CleanupPatterns[2] == "*." + "log";
    ExtensionPatternAsWritten("log", name);
    assert name[6..] == "log";
    assert OneLine(name[..6]);
    assert PatternMatches(CleanupPatterns[2], name, true);
  }

  lemma ChangelogKept()
    ensures !ShouldClean("changelog")
  {
    var name := "changelog";
    ShouldCleanCases(name);
    assert name[5] != '.';
    assert !HasExtension(name, "log") && !HasExtension(name, "tmp") && !HasExtension(name, "bak") && !HasExtension(name, "swp");
  }

}
