/** `validateStructure`: the project layout checks. Required top-level directories and the index
    page, per-file naming rules over the whole tree (skipping `node_modules` and `.git`), the
    contents of the styles directory and the file types under the images directory. Every
    finding is keyed `structure` and carries neither a line nor a context. */
module Structure {
  import opened Wrappers
  import opened Text
  import opened Findings
  import opened Project

  /** A finding of this checker. */
  function At(m: Message): Finding {
    Finding("structure", 0, m, "")
  }

  // ---------------------------------------------------------------- required entries

  const RequiredDirs: seq<string> := [StylesDir, ImagesDir, AssetsDir]
  const IndexPage: string := "index.html"

  /** `fs.access` of a top-level path succeeds for a file as well as for a directory. */
  function RequiredPart(root: seq<Entry>): string -> seq<Finding> {
    (dir: string) => if Find(root, dir).None? then [At(RequiredDirMissing(dir))] else []
  }

  function RequiredFindings(root: seq<Entry>): seq<Finding> {
    FlatMap(RequiredDirs, RequiredPart(root))
    + (if Find(root, IndexPage).None? then [At(IndexPageMissing)] else [])
  }

  // ---------------------------------------------------------------- per-file rules

  predicate IsSkipped(name: string) {
    name == "node_modules" || name == ".git"
  }

  predicate IsSystemFile(name: string) {
    name == ".DS_Store" || name == "Thumbs.db"
  }

  const UnnecessarySuffixes: seq<string> := [".zip", ".rar", ".7z", ".bak", ".tmp", "~"]

  predicate IsUnnecessary(name: string) {
    exists i :: 0 <= i < |UnnecessarySuffixes| && EndsWith(name, UnnecessarySuffixes[i])
  }

  function SystemRule(rel: string, name: string): seq<Finding> {
    if IsSystemFile(name) then [At(SystemFile(rel))] else []
  }

  function LowercaseRule(rel: string, name: string): seq<Finding> {
    if name != Lower(name) && name != "README.md" then [At(NameNotLowercase(rel))] else []
  }

  function SpaceRule(rel: string, name: string): seq<Finding> {
    if Contains(name, " ") then [At(NameHasSpace(rel))] else []
  }

  function EmptyHtmlRule(rel: string, name: string, content: string): seq<Finding> {
    if EndsWith(name, ".html") && Trim(content) == "" then [At(EmptyHtmlFile(rel))] else []
  }

  /** The unnecessary-file finding names the full path. */
  function UnnecessaryRule(workDir: string, rel: string, name: string): seq<Finding> {
    if IsUnnecessary(name) then [At(UnnecessaryFile(JoinPath(workDir, rel)))] else []
  }

  /** The five independent checks of one file at `rel`, relative to the working directory
      `workDir`. */
  function FileFindings(workDir: string, rel: string, name: string, content: string): seq<Finding> {
    SystemRule(rel, name) + LowercaseRule(rel, name) + SpaceRule(rel, name)
    + EmptyHtmlRule(rel, name, content) + UnnecessaryRule(workDir, rel, name)
  }

  /** `validateDir` on one entry of the directory at `rel`. */
  function Walk(workDir: string, rel: string, e: Entry): seq<Finding>
    decreases e, 1
  {
    if IsSkipped(e.name) then []
    else
      match e
      case Dir(name, es) => WalkAll(workDir, JoinPath(rel, name), es)
      case File(name, content, _, _) => FileFindings(workDir, JoinPath(rel, name), name, content)
  }

  /** `validateDir` on the listing `es` of the directory at `rel`. */
  function WalkAll(workDir: string, rel: string, es: seq<Entry>): seq<Finding>
    decreases es, 0
  {
    if es == [] then [] else Walk(workDir, rel, es[0]) + WalkAll(workDir, rel, es[1..])
  }

  lemma {:induction false} WalkAllSnoc(workDir: string, rel: string, es: seq<Entry>, k: nat)
    requires k < |es|
    ensures WalkAll(workDir, rel, es[..k + 1]) == WalkAll(workDir, rel, es[..k]) + Walk(workDir, rel, es[k])
  {
    if k == 0 {
      assert es[..1][1..] == [];
    } else {
      assert es[..k + 1][1..] == es[1..][..k];
      assert es[..k][1..] == es[1..][..k - 1];
      WalkAllSnoc(workDir, rel, es[1..], k - 1);
    }
  }

  // ---------------------------------------------------------------- the styles directory

  predicate IsNormalizeFile(name: string) {
    Contains(Lower(name), "normalize") && EndsWith(name, ".css")
  }

  predicate HasNormalize(es: seq<Entry>) {
    exists i :: 0 <= i < |es| && IsNormalizeFile(es[i].name)
  }

  function NonStylePart(e: Entry): seq<Finding> {
    if !EndsWith(e.name, ".css") && !EndsWith(e.name, ".scss") then [At(NonStyleFile(e.name))] else []
  }

  /** The checks of the styles directory's listing; nothing when it cannot be read. */
  function StylesDirFindings(root: seq<Entry>): seq<Finding> {
    match ListDir(root, StylesDir)
    case None => []
    case Some(es) =>
      (if !HasNormalize(es) then [At(NormalizeMissing)] else []) + FlatMap(es, NonStylePart)
  }

  // ---------------------------------------------------------------- the images directory

  /** The last `.` of a name. */
  function LastDot(name: string): (r: Option<nat>)
    ensures r.Some? ==> r.value < |name| && name[r.value] == '.'
    ensures r.Some? ==> forall i :: r.value < i < |name| ==> name[i] != '.'
    ensures r.None? ==> forall i :: 0 <= i < |name| ==> name[i] != '.'
  {
    if name == [] then None
    else if name[|name| - 1] == '.' then Some(|name| - 1)
    else LastDot(name[..|name| - 1])
  }

  /** `path.extname` of an entry name: from its last `.` on, except when that `.` starts the
      name (`.DS_Store`) or the name is `..`. */
  function Extname(name: string): (r: string)
    ensures r == "" <==> name == ".." || forall i :: 0 < i < |name| ==> name[i] != '.'
    ensures r != "" ==> |r| < |name| && name[|name| - |r|..] == r && r[0] == '.'
    ensures r != "" ==> forall i :: 0 < i < |r| ==> r[i] != '.'
  {
    match LastDot(name)
    case None => ""
    case Some(k) => if k == 0 || name == ".." then "" else name[k..]
  }

  const ImageExtensions: seq<string> := [".jpg", ".jpeg", ".png", ".gif", ".svg", ".webp"]

  /** A file that does not belong in the images directory. */
  predicate IsNonImage(name: string) {
    Lower(Extname(name)) !in ImageExtensions && !IsSystemFile(name)
  }

  /** `validateImagesDir` on one entry; no name is skipped here. */
  function ImageWalk(rel: string, e: Entry): seq<Finding>
    decreases e, 1
  {
    match e
    case Dir(name, es) => ImageWalkAll(JoinPath(rel, name), es)
    case File(name, _, _, _) => if IsNonImage(name) then [At(NonImageFile(JoinPath(rel, name)))] else []
  }

  function ImageWalkAll(rel: string, es: seq<Entry>): seq<Finding>
    decreases es, 0
  {
    if es == [] then [] else ImageWalk(rel, es[0]) + ImageWalkAll(rel, es[1..])
  }

  lemma {:induction false} ImageWalkAllSnoc(rel: string, es: seq<Entry>, k: nat)
    requires k < |es|
    ensures ImageWalkAll(rel, es[..k + 1]) == ImageWalkAll(rel, es[..k]) + ImageWalk(rel, es[k])
  {
    if k == 0 {
      assert es[..1][1..] == [];
    } else {
      assert es[..k + 1][1..] == es[1..][..k];
      assert es[..k][1..] == es[1..][..k - 1];
      ImageWalkAllSnoc(rel, es[1..], k - 1);
    }
  }

  /** The images directory, walked from its own root; nothing when it cannot be read. */
  function ImagesDirFindings(root: seq<Entry>): seq<Finding> {
    match ListDir(root, ImagesDir)
    case None => []
    case Some(es) => ImageWalkAll("", es)
  }

  // ---------------------------------------------------------------- the whole check

  function StructureLog(workDir: string, root: seq<Entry>): seq<Finding> {
    RequiredFindings(root) + WalkAll(workDir, "", root) + StylesDirFindings(root) + ImagesDirFindings(root)
  }

  function StructureOutput(workDir: string, root: seq<Entry>): seq<OutLine> {
    Report(StructureLog(workDir, root))
  }

  // ---------------------------------------------------------------- the files of a tree

  /** A file reached by a walk: its path relative to where the walk started, its name and its
      content. */
  datatype Located = Located(path: string, name: string, content: string)

  /** Every file under an entry, in walk order, with no name skipped. */
  function FilesOf(rel: string, e: Entry): seq<Located>
    decreases e, 1
  {
    match e
    case Dir(name, es) => FilesUnder(JoinPath(rel, name), es)
    case File(name, content, _, _) => [Located(JoinPath(rel, name), name, content)]
  }

  function FilesUnder(rel: string, es: seq<Entry>): seq<Located>
    decreases es, 0
  {
    if es == [] then [] else FilesOf(rel, es[0]) + FilesUnder(rel, es[1..])
  }

  /** The tree without the `node_modules` and `.git` entries, at every depth. */
  function PruneEntry(e: Entry): (r: Entry)
    decreases e, 1
    ensures r.name == e.name && r.Dir? == e.Dir?
  {
    match e
    case Dir(name, es) => Dir(name, Prune(es))
    case File(_, _, _, _) => e
  }

  function Prune(es: seq<Entry>): seq<Entry>
    decreases es, 0
  {
    if es == [] then []
    else (if IsSkipped(es[0].name) then [] else [PruneEntry(es[0])]) + Prune(es[1..])
  }

  /** No entry of the tree, at any depth, is named `node_modules` or `.git`. */
  predicate CleanEntry(e: Entry)
    decreases e, 1
  {
    !IsSkipped(e.name) && (e.Dir? ==> Clean(e.entries))
  }

  predicate Clean(es: seq<Entry>)
    decreases es, 0
  {
    forall i :: 0 <= i < |es| ==> CleanEntry(es[i])
  }

  lemma {:induction false} CleanCons(e: Entry, es: seq<Entry>)
    ensures Clean([e] + es) <==> CleanEntry(e) && Clean(es)
  {
    assert forall i :: 0 < i < |[e] + es| ==> ([e] + es)[i] == es[i - 1];
    if CleanEntry(e) && Clean(es) {
      forall i | 0 <= i < |[e] + es|
        ensures CleanEntry(([e] + es)[i])
      {
        if i > 0 {
          assert CleanEntry(es[i - 1]);
        }
      }
    }
    if Clean([e] + es) {
      forall i | 0 <= i < |es|
        ensures CleanEntry(es[i])
      {
        assert ([e] + es)[i + 1] == es[i];
      }
      assert ([e] + es)[0] == e;
    }
  }

  /** Pruning leaves no skipped name anywhere. */
  lemma {:induction false} PruneIsClean(es: seq<Entry>)
    ensures Clean(Prune(es))
    decreases es, 0
  {
    if es != [] {
      PruneIsClean(es[1..]);
      if !IsSkipped(es[0].name) {
        PruneEntryIsClean(es[0]);
        CleanCons(PruneEntry(es[0]), Prune(es[1..]));
      } else {
        assert Prune(es) == Prune(es[1..]);
      }
    }
  }

  lemma {:induction false} PruneEntryIsClean(e: Entry)
    requires !IsSkipped(e.name)
    ensures CleanEntry(PruneEntry(e))
    decreases e, 1
  {
    if e.Dir? {
      PruneIsClean(e.entries);
    }
  }

  /** Pruning removes nothing else: a tree with no skipped name is its own pruning. */
  lemma {:induction false} PruneKeepsClean(es: seq<Entry>)
    requires Clean(es)
    ensures Prune(es) == es
    decreases es, 0
  {
    if es != [] {
      CleanCons(es[0], es[1..]);
      assert [es[0]] + es[1..] == es;
      PruneKeepsClean(es[1..]);
      PruneEntryKeepsClean(es[0]);
    }
  }

  lemma {:induction false} PruneEntryKeepsClean(e: Entry)
    requires CleanEntry(e)
    ensures PruneEntry(e) == e
    decreases e, 1
  {
    if e.Dir? {
      PruneKeepsClean(e.entries);
    }
  }

  function FilePart(workDir: string): Located -> seq<Finding> {
    (x: Located) => FileFindings(workDir, x.path, x.name, x.content)
  }

  lemma FilesUnderCons(rel: string, e: Entry, es: seq<Entry>)
    ensures FilesUnder(rel, [e] + es) == FilesOf(rel, e) + FilesUnder(rel, es)
  {
    assert ([e] + es)[1..] == es;
  }

  /** `validateDir` is the file rules applied to every file of the pruned tree, in walk order. */
  lemma {:induction false} WalkIsPruned(workDir: string, rel: string, es: seq<Entry>)
    ensures WalkAll(workDir, rel, es) == FlatMap(FilesUnder(rel, Prune(es)), FilePart(workDir))
    decreases es, 0
  {
    if es != [] {
      WalkIsPruned(workDir, rel, es[1..]);
      var rest := FilesUnder(rel, Prune(es[1..]));
      if IsSkipped(es[0].name) {
        assert Prune(es) == Prune(es[1..]);
      } else {
        WalkEntryIsPruned(workDir, rel, es[0]);
        FilesUnderCons(rel, PruneEntry(es[0]), Prune(es[1..]));
        FlatMapAppend(FilesOf(rel, PruneEntry(es[0])), rest, FilePart(workDir));
      }
    }
  }

  lemma {:induction false} WalkEntryIsPruned(workDir: string, rel: string, e: Entry)
    requires !IsSkipped(e.name)
    ensures Walk(workDir, rel, e) == FlatMap(FilesOf(rel, PruneEntry(e)), FilePart(workDir))
    decreases e, 1
  {
    match e
    case Dir(name, es) =>
      WalkIsPruned(workDir, JoinPath(rel, name), es);
    case File(name, content, _, _) =>
      FlatMapOne(Located(JoinPath(rel, name), name, content), FilePart(workDir));
  }

  /** Removing every `node_modules` and `.git` subtree beforehand changes nothing. */
  lemma WalkIgnoresSkipped(workDir: string, rel: string, es: seq<Entry>)
    ensures WalkAll(workDir, rel, Prune(es)) == WalkAll(workDir, rel, es)
  {
    WalkIsPruned(workDir, rel, es);
    WalkIsPruned(workDir, rel, Prune(es));
    PruneIsClean(es);
    PruneKeepsClean(Prune(es));
  }

  /** A walk finding comes from the rules of one file of the pruned tree. */
  lemma WalkFound(workDir: string, root: seq<Entry>, f: Finding)
    ensures f in WalkAll(workDir, "", root)
            <==> exists x :: x in FilesUnder("", Prune(root)) && f in FileFindings(workDir, x.path, x.name, x.content)
  {
    WalkIsPruned(workDir, "", root);
    FlatMapMember(FilesUnder("", Prune(root)), FilePart(workDir), f);
  }

  // ---------------------------------------------------------------- file rule properties

  /** A finding of one file comes from one of its five rules. */
  lemma FileFindingsIn(workDir: string, rel: string, name: string, content: string, f: Finding)
    ensures f in FileFindings(workDir, rel, name, content)
            <==> f in SystemRule(rel, name) || f in LowercaseRule(rel, name) || f in SpaceRule(rel, name)
                 || f in EmptyHtmlRule(rel, name, content) || f in UnnecessaryRule(workDir, rel, name)
  {
    var a, b, c := SystemRule(rel, name), LowercaseRule(rel, name), SpaceRule(rel, name);
    var d, e := EmptyHtmlRule(rel, name, content), UnnecessaryRule(workDir, rel, name);
    assert FileFindings(workDir, rel, name, content) == a + b + c + d + e;
    assert f in a + b + c + d + e <==> f in a + b + c + d || f in e;
    assert f in a + b + c + d <==> f in a + b + c || f in d;
    assert f in a + b + c <==> f in a + b || f in c;
  }

  /** A name is flagged as not lower-case exactly when it has an upper-case ASCII letter and
      is not `README.md`. */
  lemma LowercaseFound(workDir: string, rel: string, name: string, content: string)
    ensures At(NameNotLowercase(rel)) in FileFindings(workDir, rel, name, content)
            <==> (exists i :: 0 <= i < |name| && 'A' <= name[i] <= 'Z') && name != "README.md"
  {
    FileFindingsIn(workDir, rel, name, content, At(NameNotLowercase(rel)));
    if exists i :: 0 <= i < |name| && 'A' <= name[i] <= 'Z' {
      var i :| 0 <= i < |name| && 'A' <= name[i] <= 'Z';
      assert Lower(name)[i] != name[i];
    } else {
      assert Lower(name) == name;
    }
  }

  /** `.DS_Store` and `Thumbs.db` get the system-file finding and, having upper-case letters,
      the lower-case finding as well. */
  lemma SystemFileFlaggedTwice(workDir: string, rel: string, name: string, content: string)
    requires IsSystemFile(name)
    ensures At(SystemFile(rel)) in FileFindings(workDir, rel, name, content)
    ensures At(NameNotLowercase(rel)) in FileFindings(workDir, rel, name, content)
  {
    FileFindingsIn(workDir, rel, name, content, At(SystemFile(rel)));
    LowercaseFound(workDir, rel, name, content);
    if name == ".DS_Store" {
      assert 'A' <= name[1] <= 'Z';
    } else {
      assert 'A' <= name[0] <= 'Z';
    }
  }

  /** A rule of the tree walk. */
  predicate IsFileRule(m: Message) {
    m.SystemFile? || m.NameNotLowercase? || m.NameHasSpace? || m.EmptyHtmlFile? || m.UnnecessaryFile?
  }

  lemma FileFindingsAreRules(workDir: string, rel: string, name: string, content: string, f: Finding)
    requires f in FileFindings(workDir, rel, name, content)
    ensures IsFileRule(f.message) && f.file == "structure"
  {
    FileFindingsIn(workDir, rel, name, content, f);
  }

  // ---------------------------------------------------------------- the styles directory (properties)

  /** One "Normalize.css not found" exactly when the styles directory is readable and holds
      no entry whose lower-cased name contains `normalize` and whose name ends in `.css`. */
  /** Rejecting a non-style file never reports the missing normalize.css. */
  lemma NonStyleNoNormalize(es: seq<Entry>)
    ensures Count(FlatMap(es, NonStylePart), NormalizeMissing) == 0
  {
    var rest := FlatMap(es, NonStylePart);
    forall i | 0 <= i < |rest|
      ensures rest[i].message != NormalizeMissing
    {
      FlatMapMember(es, NonStylePart, rest[i]);
    }
    CountAbsent(rest, NormalizeMissing);
  }

  lemma NormalizeCount(root: seq<Entry>)
    ensures Count(StylesDirFindings(root), NormalizeMissing)
            == if ListDir(root, StylesDir).Some? && !HasNormalize(ListDir(root, StylesDir).value) then 1 else 0
  {
    var d := ListDir(root, StylesDir);
    if d.Some? {
      var head: seq<Finding> := if !HasNormalize(d.value) then [At(NormalizeMissing)] else [];
      assert StylesDirFindings(root) == head + FlatMap(d.value, NonStylePart);
      CountAppend(head, FlatMap(d.value, NonStylePart), NormalizeMissing);
      CountPart(head, NormalizeMissing);
      NonStyleNoNormalize(d.value);
    }
  }

  /** A non-style finding names exactly the entries of the styles directory ending in neither
      `.css` nor `.scss`. */
  lemma NonStyleFound(root: seq<Entry>, n: string)
    ensures At(NonStyleFile(n)) in StylesDirFindings(root)
            <==> ListDir(root, StylesDir).Some?
                 && exists i :: 0 <= i < |ListDir(root, StylesDir).value|
                                && ListDir(root, StylesDir).value[i].name == n
                                && !EndsWith(n, ".css") && !EndsWith(n, ".scss")
  {
    match ListDir(root, StylesDir)
    case None =>
    case Some(es) =>
      FlatMapFound(es, NonStylePart, At(NonStyleFile(n)));
  }

  // ---------------------------------------------------------------- the images directory (properties)

  function ImagePart(x: Located): seq<Finding> {
    if IsNonImage(x.name) then [At(NonImageFile(x.path))] else []
  }

  /** `validateImagesDir` is the type check applied to every file under the directory, with
      no name skipped. */
  lemma {:induction false} ImageWalkIsFiles(rel: string, es: seq<Entry>)
    ensures ImageWalkAll(rel, es) == FlatMap(FilesUnder(rel, es), ImagePart)
    decreases es, 0
  {
    if es != [] {
      ImageWalkIsFiles(rel, es[1..]);
      ImageEntryIsFiles(rel, es[0]);
      FlatMapAppend(FilesOf(rel, es[0]), FilesUnder(rel, es[1..]), ImagePart);
    }
  }

  lemma {:induction false} ImageEntryIsFiles(rel: string, e: Entry)
    ensures ImageWalk(rel, e) == FlatMap(FilesOf(rel, e), ImagePart)
    decreases e, 1
  {
    match e
    case Dir(name, es) =>
      ImageWalkIsFiles(JoinPath(rel, name), es);
    case File(name, content, _, _) =>
      FlatMapOne(Located(JoinPath(rel, name), name, content), ImagePart);
  }

  /** A non-image finding names exactly the files under the images directory whose
      lower-cased extension is not an image type and which are not system files. */
  lemma NonImageFound(root: seq<Entry>, p: string)
    ensures At(NonImageFile(p)) in ImagesDirFindings(root)
            <==> ListDir(root, ImagesDir).Some?
                 && exists x :: x in FilesUnder("", ListDir(root, ImagesDir).value) && x.path == p && IsNonImage(x.name)
  {
    match ListDir(root, ImagesDir)
    case None =>
    case Some(es) =>
      ImageWalkIsFiles("", es);
      FlatMapMember(FilesUnder("", es), ImagePart, At(NonImageFile(p)));
  }

  // ---------------------------------------------------------------- required entries (properties)

  lemma WalkMessages(workDir: string, root: seq<Entry>, f: Finding)
    requires f in WalkAll(workDir, "", root)
    ensures IsFileRule(f.message)
  {
    WalkFound(workDir, root, f);
    var x :| x in FilesUnder("", Prune(root)) && f in FileFindings(workDir, x.path, x.name, x.content);
    FileFindingsAreRules(workDir, x.path, x.name, x.content, f);
  }

  lemma StylesDirMessages(root: seq<Entry>, f: Finding)
    requires f in StylesDirFindings(root)
    ensures f.message.NormalizeMissing? || f.message.NonStyleFile?
  {
    var es := ListDir(root, StylesDir).value;
    FlatMapMember(es, NonStylePart, f);
  }

  lemma ImagesDirMessages(root: seq<Entry>, f: Finding)
    requires f in ImagesDirFindings(root)
    ensures f.message.NonImageFile?
  {
    var es := ListDir(root, ImagesDir).value;
    ImageWalkIsFiles("", es);
    FlatMapMember(FilesUnder("", es), ImagePart, f);
  }

  /** Only the required-entry checks produce their two kinds of finding. */
  lemma OthersAbsent(workDir: string, root: seq<Entry>, m: Message)
    requires m.RequiredDirMissing? || m.IndexPageMissing?
    ensures Count(WalkAll(workDir, "", root) + StylesDirFindings(root) + ImagesDirFindings(root), m) == 0
  {
    var walk, styles, images := WalkAll(workDir, "", root), StylesDirFindings(root), ImagesDirFindings(root);
    forall i | 0 <= i < |walk|
      ensures walk[i].message != m
    {
      WalkMessages(workDir, root, walk[i]);
    }
    forall i | 0 <= i < |styles|
      ensures styles[i].message != m
    {
      StylesDirMessages(root, styles[i]);
    }
    forall i | 0 <= i < |images|
      ensures images[i].message != m
    {
      ImagesDirMessages(root, images[i]);
    }
    CountAbsent(walk, m);
    CountAbsent(styles, m);
    CountAbsent(images, m);
    CountAppend(walk, styles, m);
    CountAppend(walk + styles, images, m);
  }

  lemma RequiredIs(root: seq<Entry>)
    ensures RequiredFindings(root)
            == RequiredPart(root)(StylesDir) + RequiredPart(root)(ImagesDir) + RequiredPart(root)(AssetsDir)
               + (if Find(root, IndexPage).None? then [At(IndexPageMissing)] else [])
  {
    FlatMapThree(RequiredDirs, RequiredPart(root));
  }

  lemma CountPart(part: seq<Finding>, m: Message)
    requires part == [] || |part| == 1
    ensures Count(part, m) == if part != [] && part[0].message == m then 1 else 0
  {
    if part != [] {
      assert part == [part[0]];
      CountOne(part[0], m);
    }
  }

  lemma RequiredDirCount(root: seq<Entry>, d: string, m: Message)
    ensures Count(RequiredPart(root)(d), m) == if Find(root, d).None? && m == RequiredDirMissing(d) then 1 else 0
  {
    CountPart(RequiredPart(root)(d), m);
  }

  lemma RequiredPartCount(root: seq<Entry>, m: Message)
    requires m.RequiredDirMissing? || m.IndexPageMissing?
    ensures Count(RequiredFindings(root), m)
            == if m.RequiredDirMissing? then (if m.dir in RequiredDirs && Find(root, m.dir).None? then 1 else 0)
               else (if Find(root, IndexPage).None? then 1 else 0)
  {
    var g := RequiredPart(root);
    var index: seq<Finding> := if Find(root, IndexPage).None? then [At(IndexPageMissing)] else [];
    RequiredIs(root);
    RequiredDirCount(root, StylesDir, m);
    RequiredDirCount(root, ImagesDir, m);
    RequiredDirCount(root, AssetsDir, m);
    CountPart(index, m);
    CountOfFour(g(StylesDir), g(ImagesDir), g(AssetsDir), index, m);
    if m.RequiredDirMissing? {
      assert m.dir in RequiredDirs <==> m.dir == StylesDir || m.dir == ImagesDir || m.dir == AssetsDir;
    }
  }

  /** Each missing required directory gives exactly one "Required directory not found" and a
      missing index page exactly one finding; nothing else gives either. */
  lemma RequiredCount(workDir: string, root: seq<Entry>, m: Message)
    requires m.RequiredDirMissing? || m.IndexPageMissing?
    ensures Count(StructureLog(workDir, root), m)
            == if m.RequiredDirMissing? then (if m.dir in RequiredDirs && Find(root, m.dir).None? then 1 else 0)
               else (if Find(root, IndexPage).None? then 1 else 0)
  {
    RequiredPartCount(root, m);
    OthersAbsent(workDir, root, m);
    CountFirstOfFour(RequiredFindings(root), WalkAll(workDir, "", root), StylesDirFindings(root),
                     ImagesDirFindings(root), m);
  }

  /** Only the first part counts when the other three hold no finding with `m`. */
  lemma CountFirstOfFour(a: seq<Finding>, b: seq<Finding>, c: seq<Finding>, d: seq<Finding>, m: Message)
    requires Count(b + c + d, m) == 0
    ensures Count(a + b + c + d, m) == Count(a, m)
  {
    assert a + b + c + d == a + (b + c + d);
    CountAppend(a, b + c + d, m);
  }

  // ---------------------------------------------------------------- the checker

  /** `if (cond) addError('structure', message)`. */
  method AddWhen(table: ErrorTable, cond: bool, m: Message)
    modifies table
    ensures table.State() == AddAll(old(table.State()), if cond then [At(m)] else [])
  {
    if cond {
      ghost var t := table.State();
      table.Add("structure", m, 0, "");
      AddOne(t, At(m));
    }
  }

  /** The required directories, then the index page. */
  method CheckRequired(table: ErrorTable, root: seq<Entry>)
    modifies table
    ensures table.State() == AddAll(old(table.State()), RequiredFindings(root))
  {
    ghost var t0 := table.State();
    for k := 0 to |RequiredDirs|
      invariant table.State() == AddAll(t0, FlatMap(RequiredDirs[..k], RequiredPart(root)))
    {
      var dir := RequiredDirs[k];
      FlatMapSnoc(RequiredDirs, RequiredPart(root), k);
      AddWhen(table, Find(root, dir).None?, RequiredDirMissing(dir));
      AddAllAppend(t0, FlatMap(RequiredDirs[..k], RequiredPart(root)), RequiredPart(root)(dir));
    }
    assert RequiredDirs[..|RequiredDirs|] == RequiredDirs;
    ghost var dirs := FlatMap(RequiredDirs, RequiredPart(root));
    AddWhen(table, Find(root, IndexPage).None?, IndexPageMissing);
    AddAllAppend(t0, dirs, if Find(root, IndexPage).None? then [At(IndexPageMissing)] else []);
  }

  /** The checks of one file. */
  method CheckFile(table: ErrorTable, workDir: string, rel: string, name: string, content: string)
    modifies table
    ensures table.State() == AddAll(old(table.State()), FileFindings(workDir, rel, name, content))
  {
    ghost var t0 := table.State();
    ghost var a := SystemRule(rel, name);
    ghost var b := LowercaseRule(rel, name);
    ghost var c := SpaceRule(rel, name);
    ghost var d := EmptyHtmlRule(rel, name, content);
    CheckSystemName(table, rel, name);
    CheckLowercase(table, rel, name);
    AddAllAppend(t0, a, b);
    CheckSpaces(table, rel, name);
    AddAllAppend(t0, a + b, c);
    CheckEmptyHtml(table, rel, name, content);
    AddAllAppend(t0, a + b + c, d);
    CheckUnnecessary(table, workDir, rel, name);
    AddAllAppend(t0, a + b + c + d, UnnecessaryRule(workDir, rel, name));
  }

  method CheckSystemName(table: ErrorTable, rel: string, name: string)
    modifies table
    ensures table.State() == AddAll(old(table.State()), SystemRule(rel, name))
  {
    AddWhen(table, name == ".DS_Store" || name == "Thumbs.db", SystemFile(rel));
  }

  method CheckLowercase(table: ErrorTable, rel: string, name: string)
    modifies table
    ensures table.State() == AddAll(old(table.State()), LowercaseRule(rel, name))
  {
    AddWhen(table, name != Lower(name) && name != "README.md", NameNotLowercase(rel));
  }

  method CheckSpaces(table: ErrorTable, rel: string, name: string)
    modifies table
    ensures table.State() == AddAll(old(table.State()), SpaceRule(rel, name))
  {
    AddWhen(table, Contains(name, " "), NameHasSpace(rel));
  }

  /** Only an `.html` file is read, and it is reported when nothing but white space is in it. */
  method CheckEmptyHtml(table: ErrorTable, rel: string, name: string, content: string)
    modifies table
    ensures table.State() == AddAll(old(table.State()), EmptyHtmlRule(rel, name, content))
  {
    var empty := false;
    if EndsWith(name, ".html") {
      empty := Trim(content) == "";
    }
    AddWhen(table, empty, EmptyHtmlFile(rel));
  }

  method CheckUnnecessary(table: ErrorTable, workDir: string, rel: string, name: string)
    modifies table
    ensures table.State() == AddAll(old(table.State()), UnnecessaryRule(workDir, rel, name))
  {
    AddWhen(table, IsUnnecessary(name), UnnecessaryFile(JoinPath(workDir, rel)));
  }

  /** `validateDir(dirPath, relativePath)` on the listing `items` of the directory at `rel`. */
  method ValidateDir(table: ErrorTable, workDir: string, rel: string, items: seq<Entry>)
    modifies table
    ensures table.State() == AddAll(old(table.State()), WalkAll(workDir, rel, items))
    decreases items
  {
    ghost var t0 := table.State();
    for k := 0 to |items|
      invariant table.State() == AddAll(t0, WalkAll(workDir, rel, items[..k]))
    {
      var item := items[k];
      WalkAllSnoc(workDir, rel, items, k);
      ghost var before := WalkAll(workDir, rel, items[..k]);
      if item.name == "node_modules" || item.name == ".git" {
        assert Walk(workDir, rel, item) == [];
        assert before + [] == before;
        continue;
      }
      var itemRelativePath := JoinPath(rel, item.name);
      if item.Dir? {
        ValidateDir(table, workDir, itemRelativePath, item.entries);
      } else {
        CheckFile(table, workDir, itemRelativePath, item.name, item.content);
      }
      AddAllAppend(t0, before, Walk(workDir, rel, item));
    }
    assert items[..|items|] == items;
  }

  /** The styles directory: one finding without a normalize stylesheet, one per non-style
      entry. */
  method CheckStylesDir(table: ErrorTable, root: seq<Entry>)
    modifies table
    ensures table.State() == AddAll(old(table.State()), StylesDirFindings(root))
  {
    ghost var t0 := table.State();
    var listing := ListDir(root, StylesDir);
    if listing.None? {
      return;
    }
    var cssFiles := listing.value;
    var hasNormalize := HasNormalize(cssFiles);
    AddWhen(table, !hasNormalize, NormalizeMissing);
    ghost var t1 := table.State();
    for k := 0 to |cssFiles|
      invariant table.State() == AddAll(t1, FlatMap(cssFiles[..k], NonStylePart))
    {
      var file := cssFiles[k];
      FlatMapSnoc(cssFiles, NonStylePart, k);
      AddWhen(table, !EndsWith(file.name, ".css") && !EndsWith(file.name, ".scss"), NonStyleFile(file.name));
      AddAllAppend(t1, FlatMap(cssFiles[..k], NonStylePart), NonStylePart(file));
    }
    assert cssFiles[..|cssFiles|] == cssFiles;
    AddAllAppend(t0, if !hasNormalize then [At(NormalizeMissing)] else [], FlatMap(cssFiles, NonStylePart));
  }

  /** `validateImagesDir(dirPath, relativePath)` on the listing `items`. */
  method ValidateImagesDir(table: ErrorTable, rel: string, items: seq<Entry>)
    modifies table
    ensures table.State() == AddAll(old(table.State()), ImageWalkAll(rel, items))
    decreases items
  {
    ghost var t0 := table.State();
    for k := 0 to |items|
      invariant table.State() == AddAll(t0, ImageWalkAll(rel, items[..k]))
    {
      var item := items[k];
      ImageWalkAllSnoc(rel, items, k);
      ghost var before := ImageWalkAll(rel, items[..k]);
      var itemRelativePath := JoinPath(rel, item.name);
      if item.Dir? {
        ValidateImagesDir(table, itemRelativePath, item.entries);
      } else {
        var ext := Lower(Extname(item.name));
        AddWhen(table, ext !in ImageExtensions && item.name != ".DS_Store" && item.name != "Thumbs.db",
                NonImageFile(itemRelativePath));
      }
      AddAllAppend(t0, before, ImageWalk(rel, item));
    }
    assert items[..|items|] == items;
  }

  /** `validateStructure` on the working directory `workDir` whose listing is `root`. */
  method ValidateStructure(workDir: string, root: seq<Entry>) returns (out: seq<OutLine>)
    ensures out == StructureOutput(workDir, root)
  {
    var table := new ErrorTable();
    CheckRequired(table, root);
    ValidateDir(table, workDir, "", root);
    AddAllAppend(EmptyTable, RequiredFindings(root), WalkAll(workDir, "", root));
    CheckStylesDir(table, root);
    AddAllAppend(EmptyTable, RequiredFindings(root) + WalkAll(workDir, "", root), StylesDirFindings(root));
    var images := ListDir(root, ImagesDir);
    if images.Some? {
      ValidateImagesDir(table, "", images.value);
    }
    AddAllAppend(EmptyTable, RequiredFindings(root) + WalkAll(workDir, "", root) + StylesDirFindings(root),
                 ImagesDirFindings(root));
    out := table.Format();
    FormattedIsReport(StructureLog(workDir, root));
  }
}
