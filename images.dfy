/** `validateImages`: the `img` elements of every HTML page of the working directory (a truthy
    `alt`, `width` and `height`, and a `src` that names an existing file under the images
    directory), then the files under `images` and under `assets/images` (system files, file
    types, and, for raster images under `assets/images` only, pixel dimensions and byte size). */
module Images {
  import opened Wrappers
  import opened Text
  import opened Dom
  import opened Findings
  import opened Project
  import Structure

  // ---------------------------------------------------------------- the img elements

  /** `src.replace(/^images\//, '')`. */
  function StripImagesPrefix(src: string): (r: string)
    ensures StartsWith(src, "images/") ==> src == "images/" + r
    ensures !StartsWith(src, "images/") ==> r == src
  {
    if StartsWith(src, "images/") then src[7..] else src
  }

  /** The path segments `path.join` keeps: empty segments (doubled or leading slashes) vanish. */
  function Segments(p: string): seq<string> {
    NonEmpty(Split(p, '/'))
  }

  /** `fs.access(resolveImagesPath(...))`: the entry the reference names under the images
      directory, a file or a directory alike. */
  function Resolve(root: seq<Entry>, src: string): Option<Entry> {
    Lookup(root, [ImagesDir] + Segments(StripImagesPrefix(src)))
  }

  function AltCheck(file: string, at: nat, html: string, attrs: seq<Attr>): seq<Finding> {
    if !HasValue(attrs, "alt") then [Finding(file, at, AltMissing, html)] else []
  }

  function SizeCheck(file: string, at: nat, html: string, attrs: seq<Attr>): seq<Finding> {
    if !HasValue(attrs, "width") || !HasValue(attrs, "height") then [Finding(file, at, SizeMissing, html)] else []
  }

  function SrcCheck(file: string, at: nat, html: string, attrs: seq<Attr>, root: seq<Entry>): seq<Finding> {
    if HasValue(attrs, "src") then
      var src := GetAttr(attrs, "src").value;
      if Resolve(root, src).None? then [Finding(file, at, ImageNotFound(src), html)] else []
    else [Finding(file, at, MissingSrc, html)]
  }

  /** The findings of an `img` found on line `at` with markup `html` and attributes `attrs`,
      in the order the checks run: `alt`, then the size pair, then `src`. Attribute tests are
      truthiness tests, so an empty value counts as missing. */
  function ImgChecks(file: string, at: nat, html: string, attrs: seq<Attr>, root: seq<Entry>): seq<Finding> {
    AltCheck(file, at, html, attrs) + SizeCheck(file, at, html, attrs) + SrcCheck(file, at, html, attrs, root)
  }

  /** The findings of one `img`, on the first line containing the element's markup. */
  function ImgFindings(file: string, lines: seq<string>, root: seq<Entry>, img: Node): seq<Finding> {
    ImgChecks(file, LineOf(lines, OuterHtml(img)), OuterHtml(img), AttrsOf(img), root)
  }

  function ImgPart(file: string, lines: seq<string>, root: seq<Entry>): Node -> seq<Finding> {
    (img: Node) => ImgFindings(file, lines, root, img)
  }

  /** The `img` elements of a page, in document order. */
  function Imgs(parse: string -> Node, page: Page): seq<Node> {
    QueryAll(parse(page.content), "img")
  }

  function PageFindings(root: seq<Entry>, parse: string -> Node, page: Page): seq<Finding> {
    FlatMap(Imgs(parse, page), ImgPart(page.name, Lines(page.content), root))
  }

  function PagePart(root: seq<Entry>, parse: string -> Node): Page -> seq<Finding> {
    (page: Page) => PageFindings(root, parse, page)
  }

  function HtmlFindings(root: seq<Entry>, parse: string -> Node, pages: seq<Page>): seq<Finding> {
    FlatMap(pages, PagePart(root, parse))
  }

  // ---------------------------------------------------------------- the image directories

  /** Which directory a walk runs over: `images` (the sources) or `assets/images`. */
  datatype Area = Sources | AssetsImages

  /** The key of the walk's findings (`IMAGES_DIR` or `path.join(ASSETS_DIR, 'images')`). */
  function AreaDir(area: Area): string {
    if area == Sources then ImagesDir else AssetsDir + "/images"
  }

  const MaxPixels: nat := 2000
  const MaxBytes: nat := 1024 * 1024

  /** A file whose dimensions and size are checked: a non-svg raster image under `assets/images`. */
  predicate SizeChecked(area: Area, name: string) {
    area == AssetsImages && !Structure.IsSystemFile(name)
    && Lower(Structure.Extname(name)) in Structure.ImageExtensions && Lower(Structure.Extname(name)) != ".svg"
  }

  /** The checks of one file at `path` (relative to the area), in the order they run: a system
      file and a foreign type each end the checks; `meta` is what the image reader answers for
      the file, None when it fails to read it. */
  function FileCheck(area: Area, path: string, name: string, size: nat, meta: Option<Dimensions>): seq<Finding> {
    var key := JoinPath(AreaDir(area), path);
    var ext := Lower(Structure.Extname(name));
    if Structure.IsSystemFile(name) then [Finding(key, 0, SystemFileInImages, "")]
    else if ext !in Structure.ImageExtensions then [Finding(key, 0, InvalidImageExtension, "")]
    else if ext == ".svg" || area == Sources then []
    else
      match meta
      case None => [Finding(key, 0, ImageUnreadable, "")]
      case Some(d) => SizeFindings(key, size, d)
  }

  /** The dimension and byte-size checks of a raster image the reader could read. */
  function SizeFindings(key: string, size: nat, d: Dimensions): seq<Finding> {
    (if d.width > MaxPixels || d.height > MaxPixels then [Finding(key, 0, DimensionsTooLarge(d.width, d.height), "")] else [])
    + (if size > MaxBytes then [Finding(key, 0, FileSizeTooLarge(size), "")] else [])
  }

  /** `validateImagesInDir` on one entry: directories are recursed into, none is skipped. */
  function Walk(area: Area, rel: string, e: Entry): seq<Finding>
    decreases e, 1
  {
    match e
    case Dir(name, es) => WalkAll(area, JoinPath(rel, name), es)
    case File(name, _, size, meta) => FileCheck(area, JoinPath(rel, name), name, size, meta)
  }

  function WalkAll(area: Area, rel: string, es: seq<Entry>): seq<Finding>
    decreases es, 0
  {
    if es == [] then [] else Walk(area, rel, es[0]) + WalkAll(area, rel, es[1..])
  }

  lemma {:induction false} WalkAllSnoc(area: Area, rel: string, es: seq<Entry>, k: nat)
    requires k < |es|
    ensures WalkAll(area, rel, es[..k + 1]) == WalkAll(area, rel, es[..k]) + Walk(area, rel, es[k])
  {
    if k == 0 {
      assert es[..1][1..] == [];
    } else {
      assert es[..k + 1][1..] == es[1..][..k];
      assert es[..k][1..] == es[1..][..k - 1];
      WalkAllSnoc(area, rel, es[1..], k - 1);
    }
  }

  /** The listing of `assets/images`, None when it cannot be read. */
  function AssetsImagesListing(root: seq<Entry>): Option<seq<Entry>> {
    match ListDir(root, AssetsDir)
    case None => None
    case Some(es) => ListDir(es, "images")
  }

  function Listing(root: seq<Entry>, area: Area): Option<seq<Entry>> {
    if area == Sources then ListDir(root, ImagesDir) else AssetsImagesListing(root)
  }

  function UnreadableMessage(area: Area): Message {
    if area == Sources then ImagesDirUnreadable else AssetsImagesDirUnreadable
  }

  /** A walk of an area, or the single finding keyed by the area when it cannot be read. */
  function AreaFindings(root: seq<Entry>, area: Area): seq<Finding> {
    match Listing(root, area)
    case None => [Finding(AreaDir(area), 0, UnreadableMessage(area), "")]
    case Some(es) => WalkAll(area, "", es)
  }

  // ---------------------------------------------------------------- the whole check

  function ImagesLog(root: seq<Entry>, parse: string -> Node, pages: seq<Page>): seq<Finding> {
    HtmlFindings(root, parse, pages) + AreaFindings(root, Sources) + AreaFindings(root, AssetsImages)
  }

  /** `validateImages`, with the HTML parser as a parameter: the formatted findings, or a single
      failure line when an HTML page cannot be read. */
  function ImagesOutput(root: seq<Entry>, parse: string -> Node): seq<OutLine> {
    match HtmlPages(root)
    case None => [Failed("images")]
    case Some(pages) => Report(ImagesLog(root, parse, pages))
  }

  // ---------------------------------------------------------------- img properties

  /** What the checks of an `img` with attributes `attrs` report. */
  predicate ImgVerdict(root: seq<Entry>, attrs: seq<Attr>, m: Message) {
    || (m == AltMissing && !HasValue(attrs, "alt"))
    || (m == SizeMissing && (!HasValue(attrs, "width") || !HasValue(attrs, "height")))
    || (m == MissingSrc && !HasValue(attrs, "src"))
    || (m.ImageNotFound? && HasValue(attrs, "src") && m.src == GetAttr(attrs, "src").value
        && Resolve(root, m.src).None?)
  }

  /** Every finding of an `img` is on its file, on the first line holding its markup, with the
      markup as context. */
  lemma ImgChecksAt(file: string, at: nat, html: string, attrs: seq<Attr>, root: seq<Entry>, f: Finding)
    requires f in ImgChecks(file, at, html, attrs, root)
    ensures f.file == file && f.line == at && f.context == html
    ensures ImgVerdict(root, attrs, f.message)
  {
    var a, b, c := AltCheck(file, at, html, attrs), SizeCheck(file, at, html, attrs), SrcCheck(file, at, html, attrs, root);
    assert f in a || f in b || f in c;
  }

  /** An `img` finding is reported exactly when its verdict holds: a missing or empty `alt`,
      a missing or empty `width` or `height`, a missing or empty `src`, or a `src` naming
      nothing under the images directory. */
  lemma ImgChecksFound(file: string, at: nat, html: string, attrs: seq<Attr>, root: seq<Entry>, m: Message)
    ensures Finding(file, at, m, html) in ImgChecks(file, at, html, attrs, root) <==> ImgVerdict(root, attrs, m)
  {
    var f := Finding(file, at, m, html);
    var a, b, c := AltCheck(file, at, html, attrs), SizeCheck(file, at, html, attrs), SrcCheck(file, at, html, attrs, root);
    assert f in a + b + c <==> f in a || f in b || f in c;
  }

  /** The width/height pair gives one finding, never two. */
  lemma SizeMissingOnce(file: string, at: nat, html: string, attrs: seq<Attr>, root: seq<Entry>)
    ensures Count(ImgChecks(file, at, html, attrs, root), SizeMissing)
            == if !HasValue(attrs, "width") || !HasValue(attrs, "height") then 1 else 0
  {
    var a, b, c := AltCheck(file, at, html, attrs), SizeCheck(file, at, html, attrs), SrcCheck(file, at, html, attrs, root);
    CountAppend(a + b, c, SizeMissing);
    CountAppend(a, b, SizeMissing);
    PartCounts(file, at, html, attrs, root);
  }

  lemma PartCounts(file: string, at: nat, html: string, attrs: seq<Attr>, root: seq<Entry>)
    ensures Count(AltCheck(file, at, html, attrs), SizeMissing) == 0
    ensures Count(SizeCheck(file, at, html, attrs), SizeMissing)
            == if !HasValue(attrs, "width") || !HasValue(attrs, "height") then 1 else 0
    ensures Count(SrcCheck(file, at, html, attrs, root), SizeMissing) == 0
  {
    OneOrNone(AltCheck(file, at, html, attrs), SizeMissing);
    OneOrNone(SizeCheck(file, at, html, attrs), SizeMissing);
    OneOrNone(SrcCheck(file, at, html, attrs, root), SizeMissing);
  }

  lemma OneOrNone(part: seq<Finding>, m: Message)
    requires |part| <= 1
    ensures Count(part, m) == if part != [] && part[0].message == m then 1 else 0
  {
    if part != [] {
      assert part == [part[0]];
      CountOne(part[0], m);
    }
  }

  /** A `src` written with or without the leading `images/` names the same entry. */
  lemma PrefixOptional(root: seq<Entry>, p: string)
    requires !StartsWith(p, "images/")
    ensures Resolve(root, "images/" + p) == Resolve(root, p)
  {
    assert StartsWith("images/" + p, "images/");
    assert ("images/" + p)[7..] == p;
  }

  /** An `img` of some page whose verdict holds, on the element's first line and with its
      markup. */
  ghost predicate ReportedImg(root: seq<Entry>, parse: string -> Node, pages: seq<Page>, f: Finding) {
    exists page, img :: page in pages && img in Imgs(parse, page) && page.name == f.file
      && f.line == LineOf(Lines(page.content), OuterHtml(img)) && f.context == OuterHtml(img)
      && ImgVerdict(root, AttrsOf(img), f.message)
  }

  /** A finding of the HTML pass is exactly an `img` of some page whose verdict holds, reported
      on that page, on the element's first line and with its markup. */
  lemma HtmlFindingFound(root: seq<Entry>, parse: string -> Node, pages: seq<Page>, f: Finding)
    ensures f in HtmlFindings(root, parse, pages) <==> ReportedImg(root, parse, pages, f)
  {
    if f in HtmlFindings(root, parse, pages) {
      HtmlFindingSound(root, parse, pages, f);
    }
    if ReportedImg(root, parse, pages, f) {
      HtmlFindingComplete(root, parse, pages, f);
    }
  }

  lemma HtmlFindingSound(root: seq<Entry>, parse: string -> Node, pages: seq<Page>, f: Finding)
    requires f in HtmlFindings(root, parse, pages)
    ensures ReportedImg(root, parse, pages, f)
  {
    FlatMapMember(pages, PagePart(root, parse), f);
    var page :| page in pages && f in PageFindings(root, parse, page);
    var lines := Lines(page.content);
    FlatMapMember(Imgs(parse, page), ImgPart(page.name, lines, root), f);
    var img :| img in Imgs(parse, page) && f in ImgFindings(page.name, lines, root, img);
    ImgChecksAt(page.name, LineOf(lines, OuterHtml(img)), OuterHtml(img), AttrsOf(img), root, f);
  }

  lemma HtmlFindingComplete(root: seq<Entry>, parse: string -> Node, pages: seq<Page>, f: Finding)
    requires ReportedImg(root, parse, pages, f)
    ensures f in HtmlFindings(root, parse, pages)
  {
    var page, img :| page in pages && img in Imgs(parse, page) && page.name == f.file
      && f.line == LineOf(Lines(page.content), OuterHtml(img)) && f.context == OuterHtml(img)
      && ImgVerdict(root, AttrsOf(img), f.message);
    var lines := Lines(page.content);
    ImgChecksFound(f.file, f.line, f.context, AttrsOf(img), root, f.message);
    assert f in ImgPart(page.name, lines, root)(img);
    FlatMapMember(Imgs(parse, page), ImgPart(page.name, lines, root), f);
    assert f in PagePart(root, parse)(page);
    FlatMapMember(pages, PagePart(root, parse), f);
  }

  // ---------------------------------------------------------------- directory properties

  /** What the checks of one file report: a system file only that; otherwise a foreign type
      only that; otherwise, for a checked raster image, an unreadable image, or dimensions over
      2000 pixels on either side, and independently a size over one mebibyte. */
  predicate FileVerdict(area: Area, name: string, size: nat, meta: Option<Dimensions>, m: Message) {
    || (m == SystemFileInImages && Structure.IsSystemFile(name))
    || (m == InvalidImageExtension && !Structure.IsSystemFile(name)
        && Lower(Structure.Extname(name)) !in Structure.ImageExtensions)
    || (SizeChecked(area, name)
        && (|| (m == ImageUnreadable && meta.None?)
            || (m.DimensionsTooLarge? && meta == Some(Dimensions(m.width, m.height))
                && (m.width > MaxPixels || m.height > MaxPixels))
            || (m == FileSizeTooLarge(size) && meta.Some? && size > MaxBytes)))
  }

  lemma FileCheckAt(area: Area, path: string, name: string, size: nat, meta: Option<Dimensions>, f: Finding)
    requires f in FileCheck(area, path, name, size, meta)
    ensures f.file == JoinPath(AreaDir(area), path) && f.line == 0 && f.context == ""
    ensures FileVerdict(area, name, size, meta, f.message)
  {
    var key := JoinPath(AreaDir(area), path);
    var ext := Lower(Structure.Extname(name));
    if Structure.IsSystemFile(name) {
      assert FileCheck(area, path, name, size, meta) == [Finding(key, 0, SystemFileInImages, "")];
    } else if ext !in Structure.ImageExtensions {
      assert FileCheck(area, path, name, size, meta) == [Finding(key, 0, InvalidImageExtension, "")];
    } else if ext == ".svg" || area == Sources {
      assert false;
    } else if meta.None? {
      assert FileCheck(area, path, name, size, meta) == [Finding(key, 0, ImageUnreadable, "")];
    } else {
      assert FileCheck(area, path, name, size, meta) == SizeFindings(key, size, meta.value);
      assert SizeChecked(area, name);
      SizeAt(key, size, meta.value, f);
    }
  }

  lemma SizeAt(key: string, size: nat, d: Dimensions, f: Finding)
    requires f in SizeFindings(key, size, d)
    ensures f.file == key && f.line == 0 && f.context == ""
    ensures || (f.message == DimensionsTooLarge(d.width, d.height) && (d.width > MaxPixels || d.height > MaxPixels))
            || (f.message == FileSizeTooLarge(size) && size > MaxBytes)
  {
  }

  /** A file finding is reported exactly when its verdict holds. */
  lemma FileCheckFound(area: Area, path: string, name: string, size: nat, meta: Option<Dimensions>, m: Message)
    ensures Finding(JoinPath(AreaDir(area), path), 0, m, "") in FileCheck(area, path, name, size, meta)
            <==> FileVerdict(area, name, size, meta, m)
  {
    var key := JoinPath(AreaDir(area), path);
    var ext := Lower(Structure.Extname(name));
    if Structure.IsSystemFile(name) {
      assert FileCheck(area, path, name, size, meta) == [Finding(key, 0, SystemFileInImages, "")];
    } else if ext !in Structure.ImageExtensions {
      assert FileCheck(area, path, name, size, meta) == [Finding(key, 0, InvalidImageExtension, "")];
    } else if ext == ".svg" || area == Sources {
      assert FileCheck(area, path, name, size, meta) == [];
      assert !SizeChecked(area, name);
    } else if meta.None? {
      assert FileCheck(area, path, name, size, meta) == [Finding(key, 0, ImageUnreadable, "")];
    } else {
      assert FileCheck(area, path, name, size, meta) == SizeFindings(key, size, meta.value);
      SizeFound(key, size, meta.value, m);
    }
  }

  lemma SizeFound(key: string, size: nat, d: Dimensions, m: Message)
    ensures Finding(key, 0, m, "") in SizeFindings(key, size, d)
            <==> || (m.DimensionsTooLarge? && d == Dimensions(m.width, m.height)
                     && (m.width > MaxPixels || m.height > MaxPixels))
                 || (m == FileSizeTooLarge(size) && size > MaxBytes)
  {
    var f := Finding(key, 0, m, "");
    var a := if d.width > MaxPixels || d.height > MaxPixels then [Finding(key, 0, DimensionsTooLarge(d.width, d.height), "")] else [];
    var b := if size > MaxBytes then [Finding(key, 0, FileSizeTooLarge(size), "")] else [];
    assert f in a + b <==> f in a || f in b;
  }

  /** A file the walk reaches: its path relative to the walked directory, its name, size and
      what the image reader answers for it. */
  datatype ImageFile = ImageFile(path: string, name: string, size: nat, meta: Option<Dimensions>)

  function FilesOf(rel: string, e: Entry): seq<ImageFile>
    decreases e, 1
  {
    match e
    case Dir(name, es) => FilesUnder(JoinPath(rel, name), es)
    case File(name, _, size, meta) => [ImageFile(JoinPath(rel, name), name, size, meta)]
  }

  function FilesUnder(rel: string, es: seq<Entry>): seq<ImageFile>
    decreases es, 0
  {
    if es == [] then [] else FilesOf(rel, es[0]) + FilesUnder(rel, es[1..])
  }

  function FilePart(area: Area): ImageFile -> seq<Finding> {
    (x: ImageFile) => FileCheck(area, x.path, x.name, x.size, x.meta)
  }

  /** The walk is the file checks applied to every file of the tree, at every depth, in walk
      order. */
  lemma {:induction false} WalkIsFiles(area: Area, rel: string, es: seq<Entry>)
    ensures WalkAll(area, rel, es) == FlatMap(FilesUnder(rel, es), FilePart(area))
    decreases es, 0
  {
    if es != [] {
      WalkIsFiles(area, rel, es[1..]);
      EntryIsFiles(area, rel, es[0]);
      FlatMapAppend(FilesOf(rel, es[0]), FilesUnder(rel, es[1..]), FilePart(area));
    }
  }

  lemma {:induction false} EntryIsFiles(area: Area, rel: string, e: Entry)
    ensures Walk(area, rel, e) == FlatMap(FilesOf(rel, e), FilePart(area))
    decreases e, 1
  {
    match e
    case Dir(name, es) =>
      WalkIsFiles(area, JoinPath(rel, name), es);
    case File(name, _, size, meta) =>
      FlatMapOne(ImageFile(JoinPath(rel, name), name, size, meta), FilePart(area));
  }

  /** A finding of a readable area belongs to one of its files and that file's verdict holds. */
  lemma WalkFound(area: Area, es: seq<Entry>, f: Finding)
    ensures f in WalkAll(area, "", es)
            <==> exists x :: x in FilesUnder("", es) && f.file == JoinPath(AreaDir(area), x.path)
                   && f.line == 0 && f.context == "" && FileVerdict(area, x.name, x.size, x.meta, f.message)
  {
    WalkIsFiles(area, "", es);
    FlatMapMember(FilesUnder("", es), FilePart(area), f);
    if f in WalkAll(area, "", es) {
      var x :| x in FilesUnder("", es) && f in FilePart(area)(x);
      FileCheckAt(area, x.path, x.name, x.size, x.meta, f);
    }
    if exists x :: x in FilesUnder("", es) && f.file == JoinPath(AreaDir(area), x.path)
         && f.line == 0 && f.context == "" && FileVerdict(area, x.name, x.size, x.meta, f.message) {
      var x :| x in FilesUnder("", es) && f.file == JoinPath(AreaDir(area), x.path)
         && f.line == 0 && f.context == "" && FileVerdict(area, x.name, x.size, x.meta, f.message);
      FileCheckFound(area, x.path, x.name, x.size, x.meta, f.message);
    }
  }

  /** Nothing under `images` is ever size-checked: its findings are system files, foreign
      types, or the unreadable directory. */
  lemma SourcesNeverSizeChecked(root: seq<Entry>, f: Finding)
    requires f in AreaFindings(root, Sources)
    ensures f.message in {SystemFileInImages, InvalidImageExtension, ImagesDirUnreadable}
  {
    match Listing(root, Sources)
    case None =>
    case Some(es) =>
      WalkFound(Sources, es, f);
  }

  /** The messages of the pass over the pages and of a walk. */
  predicate IsImgMessage(m: Message) {
    m.AltMissing? || m.SizeMissing? || m.MissingSrc? || m.ImageNotFound?
  }

  predicate IsFileMessage(m: Message) {
    m.SystemFileInImages? || m.InvalidImageExtension? || m.ImageUnreadable?
    || m.DimensionsTooLarge? || m.FileSizeTooLarge?
  }

  lemma HtmlMessages(root: seq<Entry>, parse: string -> Node, pages: seq<Page>, f: Finding)
    requires f in HtmlFindings(root, parse, pages)
    ensures IsImgMessage(f.message)
  {
    HtmlFindingSound(root, parse, pages, f);
  }

  lemma WalkMessages(area: Area, es: seq<Entry>, f: Finding)
    requires f in WalkAll(area, "", es)
    ensures IsFileMessage(f.message)
  {
    WalkFound(area, es, f);
  }

  /** The count of an area's unreadable finding in the part of the log produced by `other`. */
  lemma AreaUnreadableCount(root: seq<Entry>, area: Area, other: Area)
    ensures Count(AreaFindings(root, other), UnreadableMessage(area))
            == if other == area && Listing(root, area).None? then 1 else 0
  {
    var part := AreaFindings(root, other);
    match Listing(root, other)
    case None =>
      OneOrNone(part, UnreadableMessage(area));
    case Some(es) =>
      forall i | 0 <= i < |part|
        ensures part[i].message != UnreadableMessage(area)
      {
        WalkMessages(other, es, part[i]);
      }
      CountAbsent(part, UnreadableMessage(area));
  }

  /** An unreadable `images` or `assets/images` directory gives exactly one finding, and a
      readable one none. */
  lemma UnreadableOnce(root: seq<Entry>, parse: string -> Node, pages: seq<Page>, area: Area)
    ensures Count(ImagesLog(root, parse, pages), UnreadableMessage(area))
            == if Listing(root, area).None? then 1 else 0
  {
    var m := UnreadableMessage(area);
    var html := HtmlFindings(root, parse, pages);
    forall i | 0 <= i < |html|
      ensures html[i].message != m
    {
      HtmlMessages(root, parse, pages, html[i]);
    }
    CountAbsent(html, m);
    CountAppend(html + AreaFindings(root, Sources), AreaFindings(root, AssetsImages), m);
    CountAppend(html, AreaFindings(root, Sources), m);
    AreaUnreadableCount(root, area, Sources);
    AreaUnreadableCount(root, area, AssetsImages);
  }

  // ---------------------------------------------------------------- the checker

  method CheckAlt(table: ErrorTable, file: string, at: nat, html: string, attrs: seq<Attr>)
    modifies table
    ensures table.State() == AddAll(old(table.State()), AltCheck(file, at, html, attrs))
  {
    var alt := GetAttr(attrs, "alt");
    if alt.None? || alt.value == "" {
      table.Add(file, AltMissing, at, html);
      AddOne(old(table.State()), Finding(file, at, AltMissing, html));
    }
  }

  method CheckSize(table: ErrorTable, file: string, at: nat, html: string, attrs: seq<Attr>)
    modifies table
    ensures table.State() == AddAll(old(table.State()), SizeCheck(file, at, html, attrs))
  {
    var width, height := GetAttr(attrs, "width"), GetAttr(attrs, "height");
    if width.None? || width.value == "" || height.None? || height.value == "" {
      table.Add(file, SizeMissing, at, html);
      AddOne(old(table.State()), Finding(file, at, SizeMissing, html));
    }
  }

  method CheckSrc(table: ErrorTable, file: string, at: nat, html: string, attrs: seq<Attr>, root: seq<Entry>)
    modifies table
    ensures table.State() == AddAll(old(table.State()), SrcCheck(file, at, html, attrs, root))
  {
    var src := GetAttr(attrs, "src");
    if src.Some? && src.value != "" {
      var imgPath := [ImagesDir] + Segments(StripImagesPrefix(src.value));
      if Lookup(root, imgPath).None? {
        table.Add(file, ImageNotFound(src.value), at, html);
        AddOne(old(table.State()), Finding(file, at, ImageNotFound(src.value), html));
      }
    } else {
      table.Add(file, MissingSrc, at, html);
      AddOne(old(table.State()), Finding(file, at, MissingSrc, html));
    }
  }

  /** The checks of one `img` element. */
  method CheckImg(table: ErrorTable, file: string, lines: seq<string>, root: seq<Entry>, img: Node)
    modifies table
    ensures table.State() == AddAll(old(table.State()), ImgFindings(file, lines, root, img))
  {
    ghost var t0 := table.State();
    var lineNumber, html, attrs := LineOf(lines, OuterHtml(img)), OuterHtml(img), AttrsOf(img);
    CheckAlt(table, file, lineNumber, html, attrs);
    CheckSize(table, file, lineNumber, html, attrs);
    AddAllAppend(t0, AltCheck(file, lineNumber, html, attrs), SizeCheck(file, lineNumber, html, attrs));
    CheckSrc(table, file, lineNumber, html, attrs, root);
    AddAllAppend(t0, AltCheck(file, lineNumber, html, attrs) + SizeCheck(file, lineNumber, html, attrs),
                 SrcCheck(file, lineNumber, html, attrs, root));
  }

  /** The loop over the `img` elements of one page. */
  method CheckPage(table: ErrorTable, root: seq<Entry>, parse: string -> Node, page: Page)
    modifies table
    ensures table.State() == AddAll(old(table.State()), PageFindings(root, parse, page))
  {
    ghost var t0 := table.State();
    var images := QueryAll(parse(page.content), "img");
    var lines := Lines(page.content);
    ghost var g := ImgPart(page.name, lines, root);
    for k := 0 to |images|
      invariant table.State() == AddAll(t0, FlatMap(images[..k], g))
    {
      FlatMapSnoc(images, g, k);
      ghost var before := FlatMap(images[..k], g);
      CheckImg(table, page.name, lines, root, images[k]);
      AddAllAppend(t0, before, g(images[k]));
    }
    assert images[..|images|] == images;
  }

  /** One file of a walk, with the early exits of the loop body. */
  method CheckImageFile(table: ErrorTable, area: Area, path: string, name: string, size: nat,
                        meta: Option<Dimensions>)
    modifies table
    ensures table.State() == AddAll(old(table.State()), FileCheck(area, path, name, size, meta))
  {
    ghost var t0 := table.State();
    var key := JoinPath(AreaDir(area), path);
    var ext := Lower(Structure.Extname(name));
    if name == ".DS_Store" || name == "Thumbs.db" {
      table.Add(key, SystemFileInImages, 0, "");
      AddOne(t0, Finding(key, 0, SystemFileInImages, ""));
      return;
    }
    if ext !in [".jpg", ".jpeg", ".png", ".gif", ".svg", ".webp"] {
      table.Add(key, InvalidImageExtension, 0, "");
      AddOne(t0, Finding(key, 0, InvalidImageExtension, ""));
      return;
    }
    if ext == ".svg" {
      return;
    }
    if area == AssetsImages {
      if meta.None? {
        table.Add(key, ImageUnreadable, 0, "");
        AddOne(t0, Finding(key, 0, ImageUnreadable, ""));
        return;
      }
      CheckSizes(table, key, size, meta.value);
    }
  }

  /** The dimension and byte-size checks of a readable raster image under `assets/images`. */
  method CheckSizes(table: ErrorTable, key: string, size: nat, metadata: Dimensions)
    modifies table
    ensures table.State() == AddAll(old(table.State()), SizeFindings(key, size, metadata))
  {
    ghost var t0 := table.State();
    var tooWide := metadata.width > MaxPixels || metadata.height > MaxPixels;
    AddIf(table, tooWide, Finding(key, 0, DimensionsTooLarge(metadata.width, metadata.height), ""));
    AddIf(table, size > MaxBytes, Finding(key, 0, FileSizeTooLarge(size), ""));
    AddAllAppend(t0, if tooWide then [Finding(key, 0, DimensionsTooLarge(metadata.width, metadata.height), "")] else [],
                 if size > MaxBytes then [Finding(key, 0, FileSizeTooLarge(size), "")] else []);
  }

  /** `validateImagesInDir(dirPath, relativePath, isAssetsDir)` over the listing `items`. */
  method ValidateImagesInDir(table: ErrorTable, area: Area, rel: string, items: seq<Entry>)
    modifies table
    ensures table.State() == AddAll(old(table.State()), WalkAll(area, rel, items))
    decreases items
  {
    ghost var t0 := table.State();
    for k := 0 to |items|
      invariant table.State() == AddAll(t0, WalkAll(area, rel, items[..k]))
    {
      var item := items[k];
      WalkAllSnoc(area, rel, items, k);
      ghost var before := WalkAll(area, rel, items[..k]);
      var itemRelativePath := JoinPath(rel, item.name);
      if item.Dir? {
        ValidateImagesInDir(table, area, itemRelativePath, item.entries);
      } else {
        CheckImageFile(table, area, itemRelativePath, item.name, item.size, item.meta);
      }
      AddAllAppend(t0, before, Walk(area, rel, item));
    }
    assert items[..|items|] == items;
  }

  /** One area: the walk, or the single finding when its directory cannot be read. */
  method CheckArea(table: ErrorTable, root: seq<Entry>, area: Area)
    modifies table
    ensures table.State() == AddAll(old(table.State()), AreaFindings(root, area))
  {
    var listing := if area == Sources then ListDir(root, ImagesDir) else AssetsImagesListing(root);
    assert listing == Listing(root, area);
    if listing.None? {
      var key := if area == Sources then "images" else "assets/images";
      var m := if area == Sources then ImagesDirUnreadable else AssetsImagesDirUnreadable;
      assert key == AreaDir(area) && m == UnreadableMessage(area);
      table.Add(key, m, 0, "");
      AddOne(old(table.State()), Finding(key, 0, m, ""));
      assert AreaFindings(root, area) == [Finding(key, 0, m, "")];
    } else {
      ValidateImagesInDir(table, area, "", listing.value);
    }
  }

  /** `validateImages` on the working directory whose listing is `root`, with the HTML parser
      as a parameter. */
  method ValidateImages(root: seq<Entry>, parse: string -> Node) returns (out: seq<OutLine>)
    ensures out == ImagesOutput(root, parse)
  {
    var htmlFiles := HtmlPages(root);
    if htmlFiles.None? {
      return [Failed("images")];
    }
    var pages := htmlFiles.value;
    var table := new ErrorTable();
    ghost var g := PagePart(root, parse);
    for i := 0 to |pages|
      invariant table.State() == AddAll(EmptyTable, FlatMap(pages[..i], g))
    {
      FlatMapSnoc(pages, g, i);
      ghost var before := FlatMap(pages[..i], g);
      CheckPage(table, root, parse, pages[i]);
      AddAllAppend(EmptyTable, before, g(pages[i]));
    }
    assert pages[..|pages|] == pages;
    ghost var html := HtmlFindings(root, parse, pages);
    CheckArea(table, root, Sources);
    AddAllAppend(EmptyTable, html, AreaFindings(root, Sources));
    CheckArea(table, root, AssetsImages);
    AddAllAppend(EmptyTable, html + AreaFindings(root, Sources), AreaFindings(root, AssetsImages));
    out := table.Format();
    FormattedIsReport(ImagesLog(root, parse, pages));
  }
}
