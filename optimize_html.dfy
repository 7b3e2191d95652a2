/** The DOM half of `optimizeHtml`: the three loops over `querySelectorAll` results that rewrite
    sprite `use` hrefs, move content images to their WebP copies and replace `.svg` images by
    references into the icon sprite. Elements are objects whose attribute list the loops update
    in place; the list of selected elements is what `querySelectorAll` returns. */
module OptimizeHtml {
  import opened Wrappers
  import opened Text
  import opened Dom

  // ---------------------------------------------------------------- attributes

  /** `setAttribute(name, value)`: the attribute of that name takes the value, or is appended. */
  function SetAttr(attrs: seq<Attr>, name: string, value: string): (r: seq<Attr>)
    ensures |r| == |attrs| || |r| == |attrs| + 1
  {
    if attrs == [] then [Attr(name, value)]
    else if attrs[0].name == name then [Attr(name, value)] + attrs[1..]
    else [attrs[0]] + SetAttr(attrs[1..], name, value)
  }

  /** After `setAttribute`, `getAttribute` reads the new value and every other attribute is as before. */
  lemma {:induction false} SetAttrGet(attrs: seq<Attr>, name: string, value: string, other: string)
    ensures GetAttr(SetAttr(attrs, name, value), name) == Some(value)
    ensures other != name ==> GetAttr(SetAttr(attrs, name, value), other) == GetAttr(attrs, other)
  {
    if attrs != [] && attrs[0].name != name {
      SetAttrGet(attrs[1..], name, value, other);
      assert SetAttr(attrs, name, value)[1..] == SetAttr(attrs[1..], name, value);
    }
  }

  /** The attribute names of a parsed element are distinct. */
  predicate UniqueNames(attrs: seq<Attr>) {
    forall i, j :: 0 <= i < j < |attrs| ==> attrs[i].name != attrs[j].name
  }

  /** `getAttribute` on a list extended at the end finds an earlier attribute first. */
  lemma {:induction false} GetAttrSnoc(attrs: seq<Attr>, a: Attr, name: string)
    ensures GetAttr(attrs + [a], name)
      == if GetAttr(attrs, name).Some? then GetAttr(attrs, name)
         else if a.name == name then Some(a.value) else None
  {
    if attrs != [] {
      assert (attrs + [a])[1..] == attrs[1..] + [a];
      GetAttrSnoc(attrs[1..], a, name);
    }
  }

  // ---------------------------------------------------------------- elements

  /** An element of the document, whose attributes and children the optimiser changes in place. */
  class Element {
    var tag: string
    var attrs: seq<Attr>
    var children: seq<Node>

    /** `document.createElement(tag)`. */
    constructor (tag: string)
      ensures this.tag == tag && attrs == [] && children == []
    {
      this.tag := tag;
      attrs := [];
      children := [];
    }

    function GetAttribute(name: string): Option<string>
      reads this
    {
      GetAttr(attrs, name)
    }

    method SetAttribute(name: string, value: string)
      modifies this
      ensures attrs == SetAttr(old(attrs), name, value)
      ensures tag == old(tag) && children == old(children)
    {
      attrs := SetAttr(attrs, name, value);
    }

    method AppendChild(child: Node)
      modifies this
      ensures children == old(children) + [child]
      ensures tag == old(tag) && attrs == old(attrs)
    {
      children := children + [child];
    }

    /** The element as a value of the document tree. */
    function AsNode(): Node
      reads this
    {
      Node.Element(tag, attrs, children)
    }
  }

  /** The members of a `NodeList` are distinct elements. */
  predicate Distinct(es: seq<Element>) {
    forall i, j :: 0 <= i < j < |es| ==> es[i] != es[j]
  }

  // ---------------------------------------------------------------- sprite `use` hrefs

  /** `href.replace(/^\/assets\//, 'assets/')`. */
  function UseHref(href: string): string {
    if StartsWith(href, "/assets/") then href[1..] else href
  }

  /** A `/assets/` href becomes relative, without its leading slash, and rewriting twice changes
      nothing more. */
  lemma UseHrefRelative(href: string)
    ensures StartsWith(href, "/assets/") ==> "/" + UseHref(href) == href && StartsWith(UseHref(href), "assets/")
    ensures !StartsWith(href, "/assets/") ==> UseHref(href) == href
    ensures UseHref(UseHref(href)) == UseHref(href)
  {
    if StartsWith(href, "/assets/") {
      assert href == "/" + href[1..];
      assert href[1..][..7] == href[1..8];
      assert UseHref(href)[0] == 'a';
    }
  }

  /** `use[href^="/assets/"]`. */
  predicate SelectedUse(tag: string, attrs: seq<Attr>) {
    tag == "use" && GetAttr(attrs, "href").Some? && StartsWith(GetAttr(attrs, "href").value, "/assets/")
  }

  /** The attributes of a selected `use` after the loop body. */
  function UseRewritten(attrs: seq<Attr>): seq<Attr> {
    match GetAttr(attrs, "href")
    case None => attrs
    case Some(href) => SetAttr(attrs, "href", UseHref(href))
  }

  /** The loop at the top of `optimizeHtml` over `use[href^="/assets/"]`. */
  method RewriteUseHrefs(uses: seq<Element>)
    requires Distinct(uses)
    requires forall i :: 0 <= i < |uses| ==> SelectedUse(uses[i].tag, uses[i].attrs)
    modifies uses
    ensures forall i :: 0 <= i < |uses| ==>
      uses[i].attrs == UseRewritten(old(uses[i].attrs)) && uses[i].tag == old(uses[i].tag)
  {
    for k := 0 to |uses|
      invariant forall i :: 0 <= i < k ==>
        uses[i].attrs == UseRewritten(old(uses[i].attrs)) && uses[i].tag == old(uses[i].tag)
      invariant forall i :: k <= i < |uses| ==>
        uses[i].attrs == old(uses[i].attrs) && uses[i].tag == old(uses[i].tag)
    {
      var href := uses[k].GetAttribute("href");
      uses[k].SetAttribute("href", UseHref(href.value));
    }
  }

  /** After the loop the `use` points at its sprite without a leading slash; nothing else changes. */
  lemma UseRewrittenGet(attrs: seq<Attr>, name: string)
    requires SelectedUse("use", attrs)
    ensures var href := GetAttr(attrs, "href").value;
      && GetAttr(UseRewritten(attrs), "href") == Some(href[1..])
      && StartsWith(href[1..], "assets/")
    ensures name != "href" ==> GetAttr(UseRewritten(attrs), name) == GetAttr(attrs, name)
  {
    var href := GetAttr(attrs, "href").value;
    SetAttrGet(attrs, "href", UseHref(href), name);
    UseHrefRelative(href);
  }

  // ---------------------------------------------------------------- WebP content images

  /** `src.replace(/^\//, '')`. */
  function DropSlash(src: string): string {
    if StartsWith(src, "/") then src[1..] else src
  }

  predicate NoLineBreak(s: string) {
    forall i :: 0 <= i < |s| ==> !IsLineTerminator(s[i])
  }

  /** `s` starts with `x` when compared in lower case (`x` is lower case). */
  predicate StartsWithCI(s: string, x: string) {
    |x| <= |s| && forall i :: 0 <= i < |x| ==> LowerChar(s[i]) == x[i]
  }

  /** `s` ends in `x` when compared in lower case (`x` is lower case). */
  predicate EndsWithCI(s: string, x: string) {
    |x| <= |s| && StartsWithCI(s[|s| - |x|..], x)
  }

  /** A file name ending in `.jpg`, `.jpeg` or `.png`, in any letter case. */
  predicate RasterExtension(s: string) {
    EndsWithCI(s, ".jpg") || EndsWithCI(s, ".jpeg") || EndsWithCI(s, ".png")
  }

  /** `/^(?:\/)?images\/content\/.*\.(jpg|jpeg|png)$/i`: an optional slash, the content folder in any
      letter case, then a line without breaks ending in a raster extension. */
  predicate ContentImage(src: string) {
    var b := DropSlash(src);
    StartsWithCI(b, "images/content/") && NoLineBreak(b[15..]) && RasterExtension(b[15..])
  }

  /** `.replace(/\.(jpg|jpeg|png)$/i, '.webp')`. */
  function WebpExtension(s: string): string {
    if EndsWithCI(s, ".jpeg") then s[..|s| - 5] + ".webp"
    else if EndsWithCI(s, ".jpg") || EndsWithCI(s, ".png") then s[..|s| - 4] + ".webp"
    else s
  }

  /** The new path of a content image: no leading slash, `images/content/` (in lower case only)
      moved under `assets/`, and the `.webp` extension. */
  function WebpPath(src: string): string {
    var a := DropSlash(src);
    var b := if StartsWith(a, "images/content/") then "assets/" + a else a;
    WebpExtension(b)
  }

  /** Whether `p + t` ends in `x` depends on `t` alone when `t` is at least as long as `x`. */
  lemma EndsWithCIAppend(p: string, t: string, x: string)
    requires |x| <= |t|
    ensures EndsWithCI(p + t, x) <==> EndsWithCI(t, x)
  {
    assert (p + t)[|p + t| - |x|..] == t[|t| - |x|..];
  }

  /** A suffix of `b` is a suffix of `a + b`. */
  lemma EndsWithAppend(a: string, b: string, x: string)
    requires |x| <= |b|
    ensures EndsWith(a + b, x) <==> EndsWith(b, x)
  {
    assert (a + b)[|a + b| - |x|..] == b[|b| - |x|..];
  }

  /** A raster extension ends in `g`, in either case. */
  lemma RasterLast(x: string)
    requires RasterExtension(x)
    ensures |x| >= 4 && LowerChar(x[|x| - 1]) == 'g'
  {
    var n := if EndsWithCI(x, ".jpeg") then 5 else 4;
    assert x[|x| - n..][n - 1] == x[|x| - 1];
  }

  /** A four-character raster extension is not the end of `.jpeg`. */
  lemma ShortNotJpeg(p: string, t: string)
    requires |t| == 4 && RasterExtension(t)
    ensures !EndsWithCI(p + t, ".jpeg")
  {
    FourDot(t);
    assert (p + t)[|p + t| - 4] == t[0];
    DotNotJpeg(p + t);
  }

  /** A four-character raster extension starts with a dot. */
  lemma FourDot(t: string)
    requires |t| == 4 && RasterExtension(t)
    ensures LowerChar(t[0]) == '.'
  {
    assert t[|t| - 4..] == t;
  }

  /** A name whose fourth-last character is a dot does not end in `.jpeg`. */
  lemma DotNotJpeg(s: string)
    requires |s| >= 4 && LowerChar(s[|s| - 4]) == '.'
    ensures !EndsWithCI(s, ".jpeg")
  {
    if |s| >= 5 {
      assert s[|s| - 5..][1] == s[|s| - 4];
    }
  }

  /** The extension of a content image's name is replaced and whatever precedes it is kept. */
  lemma WebpExtensionAppend(p: string, t: string)
    requires RasterExtension(t)
    ensures WebpExtension(p + t) == p + WebpExtension(t)
    ensures EndsWith(WebpExtension(t), ".webp")
  {
    RasterAppend(p, t);
    CutAppend(p, t, ExtensionLength(t));
    WebpExtensionCut(p + t);
    WebpExtensionCut(t);
  }

  /** A raster name keeps its extension behind any prefix. */
  lemma RasterAppend(p: string, t: string)
    requires RasterExtension(t)
    ensures RasterExtension(p + t) && ExtensionLength(p + t) == ExtensionLength(t)
  {
    RasterLast(t);
    JpegAppend(p, t);
    EndsWithCIAppend(p, t, ".jpg");
    EndsWithCIAppend(p, t, ".png");
  }

  /** Cutting the last `n` characters off `p + t` cuts them off `t`. */
  lemma CutAppend(p: string, t: string, n: nat)
    requires n <= |t|
    ensures (p + t)[..|p + t| - n] == p + t[..|t| - n]
  {
  }

  /** The length of a raster extension: five for `.jpeg`, four otherwise. */
  function ExtensionLength(t: string): (n: nat)
    requires RasterExtension(t)
    ensures 4 <= n <= 5 && n <= |t|
  {
    RasterLast(t);
    if EndsWithCI(t, ".jpeg") then 5 else 4
  }

  /** `.jpeg` ends `p + t` exactly when it ends the raster name `t`. */
  lemma JpegAppend(p: string, t: string)
    requires RasterExtension(t)
    ensures EndsWithCI(p + t, ".jpeg") <==> EndsWithCI(t, ".jpeg")
  {
    RasterLast(t);
    if |t| >= 5 {
      EndsWithCIAppend(p, t, ".jpeg");
    } else {
      ShortNotJpeg(p, t);
    }
  }

  /** A raster extension is cut off and `.webp` put in its place. */
  lemma WebpExtensionCut(t: string)
    requires RasterExtension(t)
    ensures WebpExtension(t) == t[..|t| - ExtensionLength(t)] + ".webp"
    ensures EndsWith(WebpExtension(t), ".webp")
  {
    var w := WebpExtension(t);
    assert w[|w| - 5..] == ".webp";
  }

  /** A `.webp` name has no raster extension. */
  lemma WebpNotRaster(x: string)
    requires EndsWith(x, ".webp")
    ensures !RasterExtension(x)
  {
    if RasterExtension(x) {
      RasterLast(x);
      assert false;
    }
  }

  /** The new path is the folder, moved under `assets/` when spelled in lower case, followed by the
      name with its new extension. */
  lemma WebpPathSplit(src: string)
    requires ContentImage(src)
    ensures var a := DropSlash(src);
      && EndsWith(WebpExtension(a[15..]), ".webp")
      && WebpPath(src)
         == (if StartsWith(a, "images/content/") then "assets/" + a[..15] else a[..15]) + WebpExtension(a[15..])
  {
    var a := DropSlash(src);
    var pre := if StartsWith(a, "images/content/") then "assets/" + a[..15] else a[..15];
    assert a == a[..15] + a[15..];
    assert (if StartsWith(a, "images/content/") then "assets/" + a else a) == pre + a[15..];
    WebpExtensionAppend(pre, a[15..]);
  }

  lemma AssetsContent()
    ensures "assets/" + "images/content/" == "assets/images/content/"
  {
  }

  /** A content image is renamed to a `.webp` path that is no longer a content image, so the
      loop rewrites each image at most once. */
  lemma WebpPathConverts(src: string)
    requires ContentImage(src)
    ensures var r := WebpPath(src);
      && EndsWith(r, ".webp") && !StartsWith(r, "/")
      && (StartsWith(DropSlash(src), "images/content/") <==> StartsWith(r, "assets/images/content/"))
      && !ContentImage(r)
  {
    var a := DropSlash(src);
    var lower := StartsWith(a, "images/content/");
    var pre := if lower then "assets/" + a[..15] else a[..15];
    var w := WebpExtension(a[15..]);
    WebpPathSplit(src);
    var r := pre + w;
    EndsWithAppend(pre, w, ".webp");
    if lower {
      assert a[..15] == "images/content/";
      assert r[..22] == "assets/" + a[..15];
      AssetsContent();
      assert r[0] == 'a';
    } else {
      assert LowerChar(a[0]) == 'i';
      assert r[0] == a[0] && r[0] != 'a';
      if |r| >= 22 {
        assert r[..22][0] == r[0];
      }
    }
    assert r[..1][0] == r[0];
    assert WebpPath(src) == r;
    WebpNotContent(r);
  }

  /** A `.webp` path is never a content image. */
  lemma WebpNotContent(r: string)
    requires EndsWith(r, ".webp")
    ensures !ContentImage(r)
  {
    var b := DropSlash(r);
    assert r[|r| - 5..][4] == r[|r| - 1] == 'p';
    assert |b| > 0 && b[|b| - 1] == 'p';
    if |b| >= 15 && RasterExtension(b[15..]) {
      var x := b[15..];
      assert |x| > 0 ==> x[|x| - 1] == b[|b| - 1];
      RasterLast(x);
      assert false;
    }
  }

  /** `img[src]`. */
  predicate SelectedImg(tag: string, attrs: seq<Attr>) {
    tag == "img" && GetAttr(attrs, "src").Some?
  }

  /** The attributes of a selected image after the WebP loop body. */
  function WebpRewritten(attrs: seq<Attr>): seq<Attr> {
    match GetAttr(attrs, "src")
    case None => attrs
    case Some(src) => if ContentImage(src) then SetAttr(attrs, "src", WebpPath(src)) else attrs
  }

  /** How many of the images have a content-image path (`imagesOptimized`). */
  function ContentImages(srcs: seq<string>): (n: nat)
    ensures n <= |srcs|
  {
    if srcs == [] then 0
    else ContentImages(srcs[..|srcs| - 1]) + (if ContentImage(srcs[|srcs| - 1]) then 1 else 0)
  }

  /** The `src` value, or the empty text for an element without one. */
  function SrcOf(attrs: seq<Attr>): string {
    match GetAttr(attrs, "src")
    case None => ""
    case Some(src) => src
  }

  /** The attribute lists of the elements, in order. */
  function AttrLists(es: seq<Element>): (r: seq<seq<Attr>>)
    reads es
    ensures |r| == |es|
    decreases |es|
  {
    if es == [] then [] else AttrLists(es[..|es| - 1]) + [es[|es| - 1].attrs]
  }

  lemma {:induction false} AttrListsAt(es: seq<Element>, k: nat)
    requires k < |es|
    ensures AttrLists(es)[k] == es[k].attrs
    decreases |es|
  {
    if k < |es| - 1 {
      AttrListsAt(es[..|es| - 1], k);
    }
  }

  /** The `src` values of the selected images. */
  function Sources(lists: seq<seq<Attr>>): (r: seq<string>)
    ensures |r| == |lists|
    decreases |lists|
  {
    if lists == [] then [] else Sources(lists[..|lists| - 1]) + [SrcOf(lists[|lists| - 1])]
  }

  lemma {:induction false} SourcesAt(lists: seq<seq<Attr>>, k: nat)
    requires k < |lists|
    ensures Sources(lists)[k] == SrcOf(lists[k])
    decreases |lists|
  {
    if k < |lists| - 1 {
      SourcesAt(lists[..|lists| - 1], k);
    }
  }

  /** The loop body for one image: a content image gets its WebP path. */
  method ConvertImage(img: Element, ghost lists: seq<seq<Attr>>, ghost k: nat) returns (converted: bool)
    requires k < |lists| && img.attrs == lists[k] && GetAttr(lists[k], "src").Some?
    modifies img
    ensures img.attrs == RewrittenLists(lists)[k] && img.tag == old(img.tag)
    ensures ContentImages(Sources(lists)[..k + 1]) == ContentImages(Sources(lists)[..k]) + (if converted then 1 else 0)
  {
    RewrittenListsAt(lists, k);
    SourcesAt(lists, k);
    assert Sources(lists)[..k + 1][..k] == Sources(lists)[..k];
    var src := img.GetAttribute("src").value;
    converted := false;
    if ContentImage(src) {
      var newPath := WebpPath(src);
      img.SetAttribute("src", newPath);
      converted := true;
    }
  }

  /** The attribute lists after the WebP loop, in order. */
  function RewrittenLists(lists: seq<seq<Attr>>): (r: seq<seq<Attr>>)
    ensures |r| == |lists|
    decreases |lists|
  {
    if lists == [] then [] else RewrittenLists(lists[..|lists| - 1]) + [WebpRewritten(lists[|lists| - 1])]
  }

  /** The `k`-th image is rewritten on its own. */
  lemma {:induction false} RewrittenListsAt(lists: seq<seq<Attr>>, k: nat)
    requires k < |lists|
    ensures RewrittenLists(lists)[k] == WebpRewritten(lists[k])
    decreases |lists|
  {
    if k < |lists| - 1 {
      RewrittenListsAt(lists[..|lists| - 1], k);
    }
  }

  /** The loop over `img[src]`: content images get their WebP path; the count is returned. */
  method ConvertImages(imgs: seq<Element>) returns (imagesOptimized: nat)
    requires Distinct(imgs)
    requires forall i :: 0 <= i < |imgs| ==> SelectedImg(imgs[i].tag, imgs[i].attrs)
    modifies imgs
    ensures AttrLists(imgs) == RewrittenLists(old(AttrLists(imgs)))
    ensures forall i :: 0 <= i < |imgs| ==> imgs[i].tag == old(imgs[i].tag)
    ensures imagesOptimized == ContentImages(Sources(old(AttrLists(imgs))))
  {
    ghost var before := AttrLists(imgs);
    forall i | 0 <= i < |imgs|
      ensures before[i] == imgs[i].attrs && GetAttr(before[i], "src").Some?
    {
      AttrListsAt(imgs, i);
    }
    imagesOptimized := ConvertEach(imgs, before);
    ghost var after := RewrittenLists(before);
    forall i | 0 <= i < |imgs|
      ensures AttrLists(imgs)[i] == after[i]
    {
      AttrListsAt(imgs, i);
    }
  }

  /** The `for` loop itself, over the images whose attribute lists are `before`. */
  method ConvertEach(imgs: seq<Element>, ghost before: seq<seq<Attr>>) returns (imagesOptimized: nat)
    requires Distinct(imgs) && |before| == |imgs|
    requires forall i :: 0 <= i < |imgs| ==> imgs[i].attrs == before[i] && GetAttr(before[i], "src").Some?
    modifies imgs
    ensures forall i :: 0 <= i < |imgs| ==>
      imgs[i].attrs == RewrittenLists(before)[i] && imgs[i].tag == old(imgs[i].tag)
    ensures imagesOptimized == ContentImages(Sources(before))
  {
    ghost var after := RewrittenLists(before);
    ghost var srcs := Sources(before);
    imagesOptimized := 0;
    for k := 0 to |imgs|
      invariant forall i :: 0 <= i < k ==> imgs[i].attrs == after[i]
      invariant forall i :: k <= i < |imgs| ==> imgs[i].attrs == before[i]
      invariant forall i :: 0 <= i < |imgs| ==> imgs[i].tag == old(imgs[i].tag)
      invariant imagesOptimized == ContentImages(srcs[..k])
    {
      var converted := ConvertImage(imgs[k], before, k);
      if converted {
        imagesOptimized := imagesOptimized + 1;
      }
    }
    assert srcs[..|imgs|] == srcs;
  }

  // ---------------------------------------------------------------- icon sprite

  const ExcludedAttributes: seq<string> := ["src", "alt"]

  const SpriteHref := "assets/images/icons/sprite.svg#icon-"

  /** The part of a path after its last `/`. */
  function AfterLastSlash(s: string): (r: string)
    ensures '/' !in r && EndsWith(s, r)
    decreases |s|
  {
    if s == [] then []
    else if s[|s| - 1] == '/' then []
    else
      var r := AfterLastSlash(s[..|s| - 1]) + [s[|s| - 1]];
      assert s[|s| - |r|..] == s[..|s| - 1][|s| - |r|..] + [s[|s| - 1]];
      r
  }

  /** `path.basename(src, '.svg')` for a path ending in `.svg`: the last segment without the
      extension, except that a segment that is exactly `.svg` keeps it and the bare path `.svg`
      gives the empty name. */
  function IconName(src: string): string
    requires EndsWith(src, ".svg")
  {
    if src == ".svg" then ""
    else
      var base := AfterLastSlash(src);
      AfterLastSlashKeeps(src, ".svg");
      if base == ".svg" then base else base[..|base| - 4]
  }

  /** The last segment holds any slash-free ending of the path. */
  lemma {:induction false} AfterLastSlashKeeps(s: string, t: string)
    requires EndsWith(s, t) && '/' !in t
    ensures |AfterLastSlash(s)| >= |t|
    decreases |s|
  {
    if t != [] {
      var init := s[..|s| - 1];
      assert s[|s| - 1] == t[|t| - 1];
      var u := t[..|t| - 1];
      assert init[|init| - |u|..] == u;
      assert '/' !in u by {
        assert forall c :: c in u ==> c in t;
      }
      AfterLastSlashKeeps(init, u);
    }
  }

  /** The name of `<dir>/<name>.svg` is `name`. */
  lemma IconNameOf(dir: string, name: string)
    requires '/' !in name && name != ""
    ensures EndsWith(dir + "/" + name + ".svg", ".svg")
    ensures IconName(dir + "/" + name + ".svg") == name
  {
    var tail := name + ".svg";
    var src := (dir + "/") + tail;
    assert dir + "/" + name + ".svg" == src;
    assert src[|src| - 4..] == ".svg";
    AfterLastSlashOf(dir + "/", tail);
    assert tail[..|tail| - 4] == name;
    assert tail != ".svg";
  }

  /** A text ending in `/` followed by a segment without `/` has that segment last. */
  lemma {:induction false} AfterLastSlashOf(dir: string, tail: string)
    requires '/' !in tail && |dir| > 0 && dir[|dir| - 1] == '/'
    ensures AfterLastSlash(dir + tail) == tail
    decreases |tail|
  {
    if tail == [] {
      assert dir + tail == dir;
    } else {
      var init, c := tail[..|tail| - 1], tail[|tail| - 1];
      ConcatInit(dir, tail);
      AfterLastSlashOf(dir, init);
      AfterLastSlashSnoc(dir + tail);
      assert init + [c] == tail;
    }
  }

  /** The last segment of a text not ending in `/` is that of the text without its last
      character, extended by it. */
  lemma AfterLastSlashSnoc(s: string)
    requires s != [] && s[|s| - 1] != '/'
    ensures AfterLastSlash(s) == AfterLastSlash(s[..|s| - 1]) + [s[|s| - 1]]
  {
  }

  lemma ConcatInit(dir: string, tail: string)
    requires tail != [] && '/' !in tail
    ensures (dir + tail)[..|dir + tail| - 1] == dir + tail[..|tail| - 1]
    ensures (dir + tail)[|dir + tail| - 1] == tail[|tail| - 1] != '/'
    ensures '/' !in tail[..|tail| - 1]
  {
    assert forall x :: x in tail[..|tail| - 1] ==> x in tail;
  }

  /** The `<use>` child of the new `<svg>`. */
  function UseElement(icon: string): Node {
    Node.Element("use", [Attr("href", SpriteHref + icon)], [])
  }

  /** The copying loop: every attribute but `src` and `alt`, set in order on a fresh element. */
  function Copied(attrs: seq<Attr>): seq<Attr>
    decreases |attrs|
  {
    if attrs == [] then []
    else
      var init, a := attrs[..|attrs| - 1], attrs[|attrs| - 1];
      if a.name in ExcludedAttributes then Copied(init) else SetAttr(Copied(init), a.name, a.value)
  }

  /** `width` and `height` set to `24` where absent. */
  function WithSize(attrs: seq<Attr>): seq<Attr> {
    var w := if GetAttr(attrs, "width").Some? then attrs else SetAttr(attrs, "width", "24");
    if GetAttr(w, "height").Some? then w else SetAttr(w, "height", "24")
  }

  /** A truthy `alt` labels the icon; otherwise it is hidden from assistive technology. */
  function WithAria(attrs: seq<Attr>, alt: Option<string>): seq<Attr> {
    if alt.Some? && alt.value != "" then SetAttr(SetAttr(attrs, "aria-label", alt.value), "role", "img")
    else SetAttr(attrs, "aria-hidden", "true")
  }

  /** The attributes of the `<svg>` that replaces an image with attributes `img`. */
  function SpriteAttrs(img: seq<Attr>): seq<Attr> {
    WithAria(WithSize(Copied(img)), GetAttr(img, "alt"))
  }

  /** The copy holds every attribute of the image except `src` and `alt`, with its value. */
  lemma {:induction false} CopiedGet(attrs: seq<Attr>, name: string)
    requires UniqueNames(attrs)
    ensures GetAttr(Copied(attrs), name) == if name in ExcludedAttributes then None else GetAttr(attrs, name)
    decreases |attrs|
  {
    if attrs != [] {
      var init, a := attrs[..|attrs| - 1], attrs[|attrs| - 1];
      assert init + [a] == attrs;
      assert UniqueNames(init);
      CopiedGet(init, name);
      GetAttrSnoc(init, a, name);
      if a.name !in ExcludedAttributes {
        SetAttrGet(Copied(init), a.name, a.value, name);
      }
      if a.name == name {
        GetAttrFound(init, name);
      }
    }
  }

  /** What the replacing `<svg>` carries: no `src` or `alt`; the image's width and height or `24`;
      `aria-label` and `role="img"` for a non-empty alt, `aria-hidden="true"` otherwise; and every
      other attribute of the image with its value. */
  lemma SpriteAttrsGet(img: seq<Attr>, name: string)
    requires UniqueNames(img)
    ensures var r := SpriteAttrs(img);
      && GetAttr(r, "src").None? && GetAttr(r, "alt").None?
      && GetAttr(r, "width") == (if GetAttr(img, "width").Some? then GetAttr(img, "width") else Some("24"))
      && GetAttr(r, "height") == (if GetAttr(img, "height").Some? then GetAttr(img, "height") else Some("24"))
      && (HasValue(img, "alt") ==> GetAttr(r, "aria-label") == GetAttr(img, "alt") && GetAttr(r, "role") == Some("img"))
      && (!HasValue(img, "alt") ==> GetAttr(r, "aria-hidden") == Some("true"))
      && (name !in ["src", "alt", "width", "height", "aria-label", "role", "aria-hidden"] ==>
            GetAttr(r, name) == GetAttr(img, name))
  {
    var c := Copied(img);
    CopiedGet(img, "src");
    CopiedGet(img, "alt");
    CopiedGet(img, "width");
    CopiedGet(img, "height");
    CopiedGet(img, name);
    var s := WithSize(c);
    SizeGet(c, name);
    SizeGet(c, "src");
    SizeGet(c, "alt");
    AriaGet(s, GetAttr(img, "alt"), name);
    AriaGet(s, GetAttr(img, "alt"), "src");
    AriaGet(s, GetAttr(img, "alt"), "alt");
    AriaGet(s, GetAttr(img, "alt"), "width");
    AriaGet(s, GetAttr(img, "alt"), "height");
  }

  lemma SizeGet(attrs: seq<Attr>, name: string)
    ensures var r := WithSize(attrs);
      && GetAttr(r, "width") == (if GetAttr(attrs, "width").Some? then GetAttr(attrs, "width") else Some("24"))
      && GetAttr(r, "height") == (if GetAttr(attrs, "height").Some? then GetAttr(attrs, "height") else Some("24"))
      && (name != "width" && name != "height" ==> GetAttr(r, name) == GetAttr(attrs, name))
  {
    var w := if GetAttr(attrs, "width").Some? then attrs else SetAttr(attrs, "width", "24");
    SetAttrGet(attrs, "width", "24", name);
    SetAttrGet(attrs, "width", "24", "height");
    SetAttrGet(w, "height", "24", name);
    SetAttrGet(w, "height", "24", "width");
  }

  lemma AriaGet(attrs: seq<Attr>, alt: Option<string>, name: string)
    ensures var r := WithAria(attrs, alt);
      && (alt.Some? && alt.value != "" ==> GetAttr(r, "aria-label") == alt && GetAttr(r, "role") == Some("img"))
      && (!(alt.Some? && alt.value != "") ==> GetAttr(r, "aria-hidden") == Some("true"))
      && (name != "aria-label" && name != "role" && name != "aria-hidden" ==> GetAttr(r, name) == GetAttr(attrs, name))
  {
    if alt.Some? && alt.value != "" {
      var l := SetAttr(attrs, "aria-label", alt.value);
      SetAttrGet(attrs, "aria-label", alt.value, name);
      SetAttrGet(l, "role", "img", name);
      SetAttrGet(l, "role", "img", "aria-label");
    } else {
      SetAttrGet(attrs, "aria-hidden", "true", name);
    }
  }

  /** `img[src$=".svg"]`. */
  predicate SelectedIcon(tag: string, attrs: seq<Attr>) {
    tag == "img" && IconSource(attrs)
  }

  /** A `src` attribute ending in `.svg`. */
  predicate IconSource(attrs: seq<Attr>) {
    GetAttr(attrs, "src").Some? && EndsWith(GetAttr(attrs, "src").value, ".svg")
  }

  /** The loop body for one `.svg` image: the new `<svg>` with its `<use>` child and attributes. */
  method SpriteFor(img: seq<Attr>) returns (newSvg: Element)
    requires IconSource(img)
    ensures fresh(newSvg)
    ensures newSvg.AsNode() == SpriteNode(img)
  {
    var src := GetAttr(img, "src").value;
    var alt := GetAttr(img, "alt");
    var iconName := IconName(src);
    newSvg := new Element("svg");
    var useElement := new Element("use");
    useElement.SetAttribute("href", SpriteHref + iconName);
    newSvg.AppendChild(useElement.AsNode());
    var attrs := img;
    var i := 0;
    while i < |attrs|
      invariant 0 <= i <= |attrs|
      invariant newSvg.attrs == Copied(attrs[..i])
      invariant newSvg.tag == "svg" && newSvg.children == [UseElement(iconName)]
    {
      var attr := attrs[i];
      assert attrs[..i + 1][..i] == attrs[..i];
      if !(attr.name in ExcludedAttributes) {
        newSvg.SetAttribute(attr.name, attr.value);
      }
      i := i + 1;
    }
    assert attrs[..i] == attrs;
    if newSvg.GetAttribute("width").None? {
      newSvg.SetAttribute("width", "24");
    }
    if newSvg.GetAttribute("height").None? {
      newSvg.SetAttribute("height", "24");
    }
    if alt.Some? && alt.value != "" {
      newSvg.SetAttribute("aria-label", alt.value);
      newSvg.SetAttribute("role", "img");
    } else {
      newSvg.SetAttribute("aria-hidden", "true");
    }
  }

  /** The `<svg>` that replaces an image with attributes `img`, as a tree value. */
  function SpriteNode(img: seq<Attr>): Node {
    var src := SrcOf(img);
    var icon := if EndsWith(src, ".svg") then IconName(src) else src;
    Node.Element("svg", SpriteAttrs(img), [UseElement(icon)])
  }

  /** The sprites for a list of images, in order. */
  function SpriteNodes(lists: seq<seq<Attr>>): (r: seq<Node>)
    ensures |r| == |lists|
    decreases |lists|
  {
    if lists == [] then [] else SpriteNodes(lists[..|lists| - 1]) + [SpriteNode(lists[|lists| - 1])]
  }

  /** The `k`-th sprite is the one for the `k`-th image. */
  lemma {:induction false} SpriteNodesAt(lists: seq<seq<Attr>>, k: nat)
    requires k < |lists|
    ensures SpriteNodes(lists)[k] == SpriteNode(lists[k])
    decreases |lists|
  {
    if k < |lists| - 1 {
      SpriteNodesAt(lists[..|lists| - 1], k);
    }
  }

  lemma SpriteNodesSnoc(lists: seq<seq<Attr>>, k: nat)
    requires k < |lists|
    ensures SpriteNodes(lists[..k + 1]) == SpriteNodes(lists[..k]) + [SpriteNode(lists[k])]
  {
    assert lists[..k + 1][..k] == lists[..k];
  }

  /** The elements as values of the document tree, in order. */
  function AsNodes(es: seq<Element>): (r: seq<Node>)
    reads es
    ensures |r| == |es|
    decreases |es|
  {
    if es == [] then [] else AsNodes(es[..|es| - 1]) + [es[|es| - 1].AsNode()]
  }

  lemma AsNodesSnoc(es: seq<Element>, e: Element)
    ensures AsNodes(es + [e]) == AsNodes(es) + [e.AsNode()]
  {
    assert (es + [e])[..|es|] == es;
  }

  /** The `k`-th element's value is the `k`-th node. */
  lemma {:induction false} AsNodesAt(es: seq<Element>, k: nat)
    requires k < |es|
    ensures AsNodes(es)[k] == es[k].AsNode()
    decreases |es|
  {
    if k < |es| - 1 {
      AsNodesAt(es[..|es| - 1], k);
    }
  }

  lemma TakeOneMore<T>(xs: seq<T>, k: nat)
    requires k < |xs|
    ensures xs[..k + 1] == xs[..k] + [xs[k]]
  {
  }

  /** Every image the selector picks has a `.svg` source. */
  lemma IconSources(imgs: seq<Element>)
    requires forall i :: 0 <= i < |imgs| ==> SelectedIcon(imgs[i].tag, imgs[i].attrs)
    ensures forall i :: 0 <= i < |imgs| ==> IconSource(AttrLists(imgs)[i])
  {
    forall i | 0 <= i < |imgs|
      ensures IconSource(AttrLists(imgs)[i])
    {
      AttrListsAt(imgs, i);
    }
  }

  /** The loop over `img[src$=".svg"]`: each image is replaced by its sprite `<svg>`, returned in
      order, and `svgOptimized` counts them. The images themselves are not changed. */
  method ReplaceIcons(imgs: seq<Element>) returns (sprites: seq<Element>, svgOptimized: nat)
    requires forall i :: 0 <= i < |imgs| ==> SelectedIcon(imgs[i].tag, imgs[i].attrs)
    ensures |sprites| == |imgs| && svgOptimized == |imgs|
    ensures forall i :: 0 <= i < |imgs| ==> fresh(sprites[i])
    ensures AsNodes(sprites) == SpriteNodes(AttrLists(imgs))
  {
    sprites := [];
    svgOptimized := 0;
    var lists := AttrLists(imgs);
    IconSources(imgs);
    ghost var targets := SpriteNodes(lists);
    for k := 0 to |lists|
      invariant |sprites| == k && svgOptimized == k
      invariant forall i :: 0 <= i < k ==> fresh(sprites[i])
      invariant AsNodes(sprites) == targets[..k]
    {
      var newSvg := SpriteFor(lists[k]);
      SpriteNodesAt(lists, k);
      TakeOneMore(targets, k);
      AsNodesSnoc(sprites, newSvg);
      sprites := sprites + [newSvg];
      svgOptimized := svgOptimized + 1;
    }
    assert targets[..|imgs|] == targets;
  }
}
