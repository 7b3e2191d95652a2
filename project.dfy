/** The working directory as the checkers see it: a tree of entries in directory-listing
    order, each file with its text content, its size in bytes and, when an image reader can
    read it, its pixel dimensions. */
module Project {
  import opened Wrappers
  import opened Text

  datatype Dimensions = Dimensions(width: nat, height: nat)

  datatype Entry =
    | File(name: string, content: string, size: nat, meta: Option<Dimensions>)
    | Dir(name: string, entries: seq<Entry>)

  /** A text file read from the working directory (an HTML page, a stylesheet): its file name
      and content. */
  datatype Page = Page(name: string, content: string)

  /** The default directory names (`STYLES_DIR`, `IMAGES_DIR`, `ASSETS_DIR`). */
  const StylesDir: string := "styles"
  const ImagesDir: string := "images"
  const AssetsDir: string := "assets"

  /** `path.join(relative, name)` for a relative directory path and one entry name. */
  function JoinPath(relative: string, name: string): string {
    if relative == "" then name else relative + "/" + name
  }

  /** The first entry of a listing with the given name. */
  function Find(entries: seq<Entry>, name: string): (r: Option<Entry>)
    ensures r.Some? ==> r.value in entries && r.value.name == name
    ensures r.None? ==> forall i :: 0 <= i < |entries| ==> entries[i].name != name
  {
    if entries == [] then None
    else if entries[0].name == name then Some(entries[0])
    else Find(entries[1..], name)
  }

  /** The listing of the directory `name` of `entries` (`fs.readdir`), or None when there is no
      such entry or it is not a directory. */
  function ListDir(entries: seq<Entry>, name: string): (r: Option<seq<Entry>>)
    ensures r.Some? <==> Find(entries, name).Some? && Find(entries, name).value.Dir?
    ensures r.Some? ==> r.value == Find(entries, name).value.entries
  {
    match Find(entries, name)
    case Some(Dir(_, children)) => Some(children)
    case _ => None
  }

  /** The entry reached from the listing `entries` through the path segments `segs`. */
  function Lookup(entries: seq<Entry>, segs: seq<string>): Option<Entry>
    decreases segs
  {
    if segs == [] then None
    else
      match Find(entries, segs[0])
      case None => None
      case Some(e) =>
        if |segs| == 1 then Some(e)
        else if e.Dir? then Lookup(e.entries, segs[1..])
        else None
  }

  /** The HTML pages of the working directory: every entry whose name ends in `.html`, read as
      text, in listing order; None exactly when one of them is a directory, which makes reading
      it fail. */
  function HtmlPages(root: seq<Entry>): (r: Option<seq<Page>>)
    ensures r.None? <==> exists i :: 0 <= i < |root| && IsHtmlEntry(root[i]) && root[i].Dir?
    ensures r.Some? ==> r.value == PagesOf(HtmlNamed(root))
  {
    if root == [] then Some([])
    else
      var rest := HtmlPages(root[1..]);
      assert forall i :: 0 < i < |root| ==> root[i] == root[1..][i - 1];
      if !EndsWith(root[0].name, ".html") then rest
      else if root[0].Dir? || rest.None? then None
      else Some([Page(root[0].name, root[0].content)] + rest.value)
  }

  predicate IsHtmlEntry(e: Entry) {
    EndsWith(e.name, ".html")
  }

  /** The entries named `*.html`, in listing order (`files.filter(f => f.endsWith('.html'))`). */
  function HtmlNamed(root: seq<Entry>): (r: seq<Entry>)
    ensures forall i :: 0 <= i < |r| ==> r[i] in root && IsHtmlEntry(r[i])
    ensures forall i :: 0 <= i < |root| && IsHtmlEntry(root[i]) ==> root[i] in r
  {
    if root == [] then []
    else
      assert forall i :: 0 < i < |root| ==> root[i] == root[1..][i - 1];
      (if IsHtmlEntry(root[0]) then [root[0]] else []) + HtmlNamed(root[1..])
  }

  /** The kept entries read as pages, in order. */
  function PagesOf(es: seq<Entry>): (r: seq<Page>)
    requires forall i :: 0 <= i < |es| ==> es[i].File?
    ensures |r| == |es|
    ensures forall i :: 0 <= i < |es| ==> r[i] == Page(es[i].name, es[i].content)
  {
    if es == [] then [] else [Page(es[0].name, es[0].content)] + PagesOf(es[1..])
  }

  /** Keeping the `.html` entries of two listings in turn keeps them in listing order. */
  lemma {:induction false} HtmlNamedAppend(a: seq<Entry>, b: seq<Entry>)
    ensures HtmlNamed(a + b) == HtmlNamed(a) + HtmlNamed(b)
  {
    if a != [] {
      assert (a + b)[1..] == a[1..] + b;
      HtmlNamedAppend(a[1..], b);
    } else {
      assert a + b == b;
    }
  }
}
