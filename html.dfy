/** The HTML checker (utils/validate/html.js): per page, in directory order, the doctype, the
    `lang` of `<html>`, the charset, the title and the meta description (each unique across
    pages on a first-owner basis), the number of `h1`, the semantic sectioning tags, every
    `img`, `a` and `form`, the validator's report and the favicon. */
module Html {
  import opened Wrappers
  import opened Text
  import opened Dom
  import opened Findings
  import opened Project

  // ---------------------------------------------------------------- head of the page

  /** `content.trim().toLowerCase().startsWith('<!doctype html>')`. */
  predicate HasDoctype(content: string) {
    StartsWith(Lower(Trim(content)), "<!doctype html>")
  }

  function DoctypeFindings(file: string, content: string): seq<Finding> {
    if HasDoctype(content) then [] else [Finding(file, 1, MissingDoctype, FirstLine(content))]
  }

  function LangFindings(file: string, lines: seq<string>, html: Node): seq<Finding> {
    if HasAttr(AttrsOf(html), "lang") then []
    else [Finding(file, LineOf(lines, "<html"), MissingLang, OuterHtml(html))]
  }

  /** `document.querySelector('meta[charset]')` finds something. */
  predicate HasCharset(doc: Node) {
    WithAttr(QueryAll(doc, "meta"), "charset") != []
  }

  function CharsetFindings(file: string, lines: seq<string>, doc: Node): seq<Finding> {
    if HasCharset(doc) then [] else [Finding(file, LineOf(lines, "<head"), MissingCharset, "")]
  }

  /** The trimmed text of the first `title`, unless there is none or it is blank. */
  function TitleText(doc: Node): (r: Option<string>)
    ensures r.Some? ==> r.value != "" && Query(doc, "title").Some?
  {
    match Query(doc, "title")
    case None => None
    case Some(t) => if Trim(TextContent(t)) == "" then None else Some(Trim(TextContent(t)))
  }

  /** The title check against the titles claimed by earlier pages. */
  function TitleFindings(file: string, lines: seq<string>, doc: Node, titles: map<string, string>): (r: seq<Finding>)
    ensures |r| <= 1
    ensures forall i :: 0 <= i < |r| ==> r[i].file == file
    ensures r != [] ==> r[0].message == MissingTitle || r[0].message.DuplicateTitle?
    ensures (r != [] && r[0].message == MissingTitle) <==> TitleText(doc).None?
    ensures (r != [] && r[0].message.DuplicateTitle?) <==> TitleText(doc).Some? && TitleText(doc).value in titles
    ensures r != [] && r[0].message.DuplicateTitle? ==>
      r[0].message == DuplicateTitle(TitleText(doc).value, titles[TitleText(doc).value])
  {
    match TitleText(doc)
    case None => [Finding(file, LineOf(lines, "<head"), MissingTitle, "")]
    case Some(text) =>
      if text in titles then
        [Finding(file, LineOf(lines, text), DuplicateTitle(text, titles[text]), OuterHtml(Query(doc, "title").value))]
      else []
  }

  /** The first `meta` whose `name` is `description`. */
  function DescriptionMeta(doc: Node): Option<Node> {
    First(WithAttrValue(QueryAll(doc, "meta"), "name", "description"))
  }

  /** The description's `content`, unless the tag is missing or its content is absent or empty. */
  function DescriptionText(doc: Node): (r: Option<string>)
    ensures r.Some? ==> r.value != "" && DescriptionMeta(doc).Some?
  {
    match DescriptionMeta(doc)
    case None => None
    case Some(m) => if HasValue(AttrsOf(m), "content") then GetAttr(AttrsOf(m), "content") else None
  }

  /** The description check against the descriptions claimed by earlier pages. */
  function DescriptionFindings(file: string, lines: seq<string>, doc: Node, descriptions: map<string, string>): (r: seq<Finding>)
    ensures |r| <= 1
    ensures forall i :: 0 <= i < |r| ==> r[i].file == file
    ensures r != [] ==> r[0].message == MissingDescription || r[0].message.DuplicateDescription?
    ensures (r != [] && r[0].message == MissingDescription) <==> DescriptionText(doc).None?
    ensures (r != [] && r[0].message.DuplicateDescription?) <==>
      DescriptionText(doc).Some? && DescriptionText(doc).value in descriptions
    ensures r != [] && r[0].message.DuplicateDescription? ==>
      r[0].message == DuplicateDescription(descriptions[DescriptionText(doc).value])
  {
    match DescriptionText(doc)
    case None => [Finding(file, LineOf(lines, "<head"), MissingDescription, "")]
    case Some(text) =>
      if text in descriptions then
        [Finding(file, LineOf(lines, text), DuplicateDescription(descriptions[text]), OuterHtml(DescriptionMeta(doc).value))]
      else []
  }

  /** The uniqueness table after a page whose key is `key`: an unclaimed key is claimed by the
      page, a claimed key keeps its owner, and a page without a key changes nothing. */
  function Claim(owners: map<string, string>, key: Option<string>, file: string): map<string, string> {
    if key.Some? && key.value !in owners then owners[key.value := file] else owners
  }

  // ---------------------------------------------------------------- body of the page

  function OuterHtmls(ns: seq<Node>): (r: seq<string>)
    ensures |r| == |ns| && forall i :: 0 <= i < |ns| ==> r[i] == OuterHtml(ns[i])
  {
    seq(|ns|, i requires 0 <= i < |ns| => OuterHtml(ns[i]))
  }

  /** No `h1` and more than one `h1` are the two failures; exactly one passes. */
  function H1Findings(file: string, lines: seq<string>, doc: Node): (r: seq<Finding>)
    ensures |r| <= 1
    ensures r == [] <==> |QueryAll(doc, "h1")| == 1
    ensures r != [] ==> r[0].file == file
    ensures r != [] && r[0].message == MissingH1 <==> QueryAll(doc, "h1") == []
    ensures r != [] && r[0].message == MultipleH1 <==> |QueryAll(doc, "h1")| > 1
  {
    var h1s := QueryAll(doc, "h1");
    if |h1s| == 0 then [Finding(file, LineOf(lines, "<body"), MissingH1, "")]
    else if |h1s| > 1 then [Finding(file, LineOf(lines, "<h1"), MultipleH1, Join(OuterHtmls(h1s), "\n"))]
    else []
  }

  const SemanticTags: seq<string> := ["header", "main", "footer", "nav", "article", "section", "aside"]

  /** The tags of `tags` the document uses, in the order of `tags`. */
  function UsedTags(doc: Node, tags: seq<string>): seq<string> {
    if tags == [] then []
    else UsedTags(doc, tags[..|tags| - 1]) + (if Query(doc, tags[|tags| - 1]).Some? then [tags[|tags| - 1]] else [])
  }

  function SemanticFindings(file: string, lines: seq<string>, doc: Node): seq<Finding> {
    var used := UsedTags(doc, SemanticTags);
    if |used| < 3 then [Finding(file, LineOf(lines, "<body"), FewSemanticTags, "Found: " + Join(used, ", "))]
    else []
  }

  /** An `img`: a missing `alt` and a missing width or height are separate findings. */
  function ImageFindings(file: string, lines: seq<string>, img: Node): (r: seq<Finding>)
    ensures forall i :: 0 <= i < |r| ==> r[i].file == file
    ensures Finding(file, LineOf(lines, OuterHtml(img)), ImageMissingAlt, OuterHtml(img)) in r
            <==> !HasAttr(AttrsOf(img), "alt")
    ensures Finding(file, LineOf(lines, OuterHtml(img)), ImageMissingSize, OuterHtml(img)) in r
            <==> !HasAttr(AttrsOf(img), "width") || !HasAttr(AttrsOf(img), "height")
    ensures forall i :: 0 <= i < |r| ==> r[i].message in {ImageMissingAlt, ImageMissingSize}
  {
    var at := LineOf(lines, OuterHtml(img));
    (if !HasAttr(AttrsOf(img), "alt") then [Finding(file, at, ImageMissingAlt, OuterHtml(img))] else [])
    + (if !HasAttr(AttrsOf(img), "width") || !HasAttr(AttrsOf(img), "height")
       then [Finding(file, at, ImageMissingSize, OuterHtml(img))] else [])
  }

  function ImagesFindings(file: string, lines: seq<string>, imgs: seq<Node>): seq<Finding>
  {
    if imgs == [] then []
    else ImagesFindings(file, lines, imgs[..|imgs| - 1]) + ImageFindings(file, lines, imgs[|imgs| - 1])
  }

  /** An `a`: a missing or empty `href`, an `href` of exactly `#`, and an `http` link without a
      `target`, the last one independently of the first two. */
  function LinkFindings(file: string, lines: seq<string>, a: Node): (r: seq<Finding>)
    ensures forall i :: 0 <= i < |r| ==> r[i].file == file
    ensures forall i :: 0 <= i < |r| ==> r[i].message in {LinkMissingHref, LinkHashHref, ExternalLinkMissingTarget}
    ensures Finding(file, LineOf(lines, OuterHtml(a)), LinkMissingHref, OuterHtml(a)) in r
            <==> !HasValue(AttrsOf(a), "href")
    ensures Finding(file, LineOf(lines, OuterHtml(a)), LinkHashHref, OuterHtml(a)) in r
            <==> GetAttr(AttrsOf(a), "href") == Some("#")
    ensures Finding(file, LineOf(lines, OuterHtml(a)), ExternalLinkMissingTarget, OuterHtml(a)) in r
            <==> (var href := GetAttr(AttrsOf(a), "href");
                  href.Some? && StartsWith(href.value, "http") && !HasAttr(AttrsOf(a), "target"))
  {
    var href := GetAttr(AttrsOf(a), "href");
    var at := LineOf(lines, OuterHtml(a));
    (if href.None? || href.value == "" then [Finding(file, at, LinkMissingHref, OuterHtml(a))]
     else if href.value == "#" then [Finding(file, at, LinkHashHref, OuterHtml(a))]
     else [])
    + (if href.Some? && StartsWith(href.value, "http") && !HasAttr(AttrsOf(a), "target")
       then [Finding(file, at, ExternalLinkMissingTarget, OuterHtml(a))] else [])
  }

  function LinksFindings(file: string, lines: seq<string>, links: seq<Node>): seq<Finding>
  {
    if links == [] then []
    else LinksFindings(file, lines, links[..|links| - 1]) + LinkFindings(file, lines, links[|links| - 1])
  }

  /** A form control: what `querySelectorAll('input, textarea, select')` selects. */
  predicate IsControl(n: Node) {
    n.Element? && (n.tag == "input" || n.tag == "textarea" || n.tag == "select")
  }

  /** The form controls among `ns`, in order. */
  function Controls(ns: seq<Node>): (r: seq<Node>)
    ensures forall i :: 0 <= i < |r| ==> IsControl(r[i]) && r[i] in ns
    ensures forall i :: 0 <= i < |ns| && IsControl(ns[i]) ==> ns[i] in r
  {
    if ns == [] then []
    else Controls(ns[..|ns| - 1]) + (if IsControl(ns[|ns| - 1]) then [ns[|ns| - 1]] else [])
  }

  /** A control without `name`, and an `input` without `type`. */
  function ControlFindings(file: string, lines: seq<string>, c: Node): (r: seq<Finding>)
    ensures forall i :: 0 <= i < |r| ==> r[i].file == file && r[i].message in {ControlMissingName, InputMissingType}
    ensures Finding(file, LineOf(lines, OuterHtml(c)), ControlMissingName, OuterHtml(c)) in r
            <==> !HasAttr(AttrsOf(c), "name")
    ensures Finding(file, LineOf(lines, OuterHtml(c)), InputMissingType, OuterHtml(c)) in r
            <==> c.Element? && c.tag == "input" && !HasAttr(AttrsOf(c), "type")
  {
    var at := LineOf(lines, OuterHtml(c));
    (if !HasAttr(AttrsOf(c), "name") then [Finding(file, at, ControlMissingName, OuterHtml(c))] else [])
    + (if c.Element? && c.tag == "input" && !HasAttr(AttrsOf(c), "type")
       then [Finding(file, at, InputMissingType, OuterHtml(c))] else [])
  }

  function ControlsFindings(file: string, lines: seq<string>, cs: seq<Node>): seq<Finding>
  {
    if cs == [] then []
    else ControlsFindings(file, lines, cs[..|cs| - 1]) + ControlFindings(file, lines, cs[|cs| - 1])
  }

  /** A form without `action`, then the findings of its controls in document order. */
  function FormFindings(file: string, lines: seq<string>, form: Node): seq<Finding>
  {
    (if !HasAttr(AttrsOf(form), "action")
     then [Finding(file, LineOf(lines, OuterHtml(form)), FormMissingAction, OuterHtml(form))] else [])
    + ControlsFindings(file, lines, Controls(Descendants(form)))
  }

  function FormsFindings(file: string, lines: seq<string>, forms: seq<Node>): seq<Finding>
  {
    if forms == [] then []
    else FormsFindings(file, lines, forms[..|forms| - 1]) + FormFindings(file, lines, forms[|forms| - 1])
  }

  // ---------------------------------------------------------------- the validator's report

  /** The number written by the run of digits from position `i` of `s` on. */
  function NumberAt(s: string, i: nat): nat
    requires i <= |s|
  {
    DigitsAt(s, i);
    DecimalValue(s[i..i + DigitRun(s[i..])])
  }

  lemma DigitsAt(s: string, i: nat)
    requires i <= |s|
    ensures var ds := s[i..i + DigitRun(s[i..])]; forall j :: 0 <= j < |ds| ==> IsDigit(ds[j])
  {
    var ds := s[i..i + DigitRun(s[i..])];
    forall j | 0 <= j < |ds|
      ensures IsDigit(ds[j])
    {
      assert ds[j] == s[i..][j];
    }
  }

  /** The number captured by the first match of `/line (\d+)/`, if any. */
  function LineNumberIn(s: string): (r: Option<nat>)
    decreases |s|
  {
    if |s| < 6 then None
    else if StartsWith(s, "line ") && IsDigit(s[5]) then Some(NumberAt(s, 5))
    else LineNumberIn(s[1..])
  }

  /** `error.replace(/^Error:\s*\/, '')`. */
  function StripErrorPrefix(e: string): string
  {
    if StartsWith(e, "Error:") then TrimStart(e[6..]) else e
  }

  /** Stripping removes `Error:` and the white space after it, and nothing else. */
  lemma StripErrorPrefixMeaning(e: string)
    ensures var r := StripErrorPrefix(e);
      StartsWith(e, "Error:") ==>
        && |r| <= |e| - 6 && r == e[|e| - |r|..]
        && (forall i :: 6 <= i < |e| - |r| ==> IsSpace(e[i]))
        && (r == [] || !IsSpace(r[0]))
    ensures !StartsWith(e, "Error:") ==> StripErrorPrefix(e) == e
  {
  }

  /** The report lines that mention `Error:`. */
  function ErrorLines(report: seq<string>): (r: seq<string>)
    ensures forall i :: 0 <= i < |r| ==> Contains(r[i], "Error:") && r[i] in report
    ensures forall i :: 0 <= i < |report| && Contains(report[i], "Error:") ==> report[i] in r
  {
    if report == [] then []
    else ErrorLines(report[..|report| - 1])
         + (if Contains(report[|report| - 1], "Error:") then [report[|report| - 1]] else [])
  }

  /** One error line of the report: its text without the `Error:` prefix, its line number when
      it names a non-zero one, and that source line as context when the page has it. */
  function ErrorFinding(file: string, lines: seq<string>, e: string): Finding
  {
    var n := LineNumberIn(e);
    var at := if n.Some? then n.value else 0;
    Finding(file, at, ValidatorError(StripErrorPrefix(e)), if at != 0 && at <= |lines| then lines[at - 1] else "")
  }

  /** An error line's finding carries the line the report names, when it names a non-zero one,
      and that source line as context only when the page has such a line. */
  lemma ErrorFindingMeaning(file: string, lines: seq<string>, e: string)
    ensures var f := ErrorFinding(file, lines, e);
      && f.file == file && f.message == ValidatorError(StripErrorPrefix(e))
      && (f.line != 0 <==> LineNumberIn(e).Some? && LineNumberIn(e).value != 0)
      && (f.line != 0 ==> LineNumberIn(e) == Some(f.line))
      && (f.context != "" ==> 1 <= f.line <= |lines| && f.context == lines[f.line - 1])
      && (1 <= f.line <= |lines| && lines[f.line - 1] != "" ==> f.context == lines[f.line - 1])
  {
    var n := LineNumberIn(e);
    if n.Some? && n.value != 0 {
      ErrorFindingWithLine(file, lines, e, n.value);
    } else {
      ErrorFindingWithoutLine(file, lines, e);
    }
  }

  lemma ErrorFindingWithLine(file: string, lines: seq<string>, e: string, k: nat)
    requires LineNumberIn(e) == Some(k) && k != 0
    ensures ErrorFinding(file, lines, e)
      == Finding(file, k, ValidatorError(StripErrorPrefix(e)), if k <= |lines| then lines[k - 1] else "")
  {
  }

  lemma ErrorFindingWithoutLine(file: string, lines: seq<string>, e: string)
    requires !(LineNumberIn(e).Some? && LineNumberIn(e).value != 0)
    ensures ErrorFinding(file, lines, e) == Finding(file, 0, ValidatorError(StripErrorPrefix(e)), "")
  {
  }

  function ErrorsFindings(file: string, lines: seq<string>, es: seq<string>): (r: seq<Finding>)
    ensures |r| == |es|
  {
    if es == [] then []
    else ErrorsFindings(file, lines, es[..|es| - 1]) + [ErrorFinding(file, lines, es[|es| - 1])]
  }

  /** The validator's answer for the page: None when the call fails, which is one finding without
      a line; otherwise one finding per report line that mentions `Error:`. */
  function ReportFindings(file: string, lines: seq<string>, result: Option<string>): seq<Finding> {
    match result
    case None => [Finding(file, 0, ValidatorFailed, "")]
    case Some(report) =>
      if Contains(report, "Error:") then ErrorsFindings(file, lines, ErrorLines(Split(report, '\n'))) else []
  }

  /** `document.querySelector('link[rel="icon"]')` finds something. HTML compares `rel` in a
      selector ASCII case-insensitively, so `rel="ICON"` counts. */
  predicate HasFavicon(doc: Node) {
    WithAttrFolded(QueryAll(doc, "link"), "rel", "icon") != []
  }

  /** A page has a favicon exactly when one of its `link` elements has a `rel` that is `icon`
      up to ASCII case. */
  lemma FaviconIsIconLink(doc: Node)
    ensures HasFavicon(doc) <==> exists i :: 0 <= i < |QueryAll(doc, "link")| && AttrFolds(QueryAll(doc, "link")[i], "rel", "icon")
  {
    var links := QueryAll(doc, "link");
    if HasFavicon(doc) {
      var r := WithAttrFolded(links, "rel", "icon");
      assert r[0] in links && AttrFolds(r[0], "rel", "icon");
      var i :| 0 <= i < |links| && links[i] == r[0];
      assert AttrFolds(links[i], "rel", "icon");
    }
  }

  function FaviconFindings(file: string, lines: seq<string>, doc: Node): seq<Finding> {
    if HasFavicon(doc) then [] else [Finding(file, LineOf(lines, "<head"), MissingFavicon, "")]
  }

  // ---------------------------------------------------------------- a page, all pages

  function HeadFindings(page: Page, doc: Node, html: Node, titles: map<string, string>,
                        descriptions: map<string, string>): seq<Finding>
  {
    var lines := Lines(page.content);
    DoctypeFindings(page.name, page.content) + LangFindings(page.name, lines, html)
    + CharsetFindings(page.name, lines, doc) + TitleFindings(page.name, lines, doc, titles)
    + DescriptionFindings(page.name, lines, doc, descriptions)
  }

  function BodyFindings(page: Page, doc: Node): seq<Finding> {
    var lines := Lines(page.content);
    H1Findings(page.name, lines, doc) + SemanticFindings(page.name, lines, doc)
    + ImagesFindings(page.name, lines, QueryAll(doc, "img"))
    + LinksFindings(page.name, lines, QueryAll(doc, "a"))
    + FormsFindings(page.name, lines, QueryAll(doc, "form"))
  }

  /** The findings of one page, in the order the checks run. */
  function PageFindings(page: Page, doc: Node, html: Node, titles: map<string, string>,
                        descriptions: map<string, string>, result: Option<string>): seq<Finding>
  {
    HeadFindings(page, doc, html, titles, descriptions) + BodyFindings(page, doc)
    + ReportFindings(page.name, Lines(page.content), result)
    + FaviconFindings(page.name, Lines(page.content), doc)
  }

  /** The two uniqueness tables. */
  datatype Unique = ByTitle | ByDescription

  function KeyOf(u: Unique, doc: Node): Option<string> {
    if u == ByTitle then TitleText(doc) else DescriptionText(doc)
  }

  /** A uniqueness table after the pages `pages`. */
  function Owners(u: Unique, pages: seq<Page>, parse: string -> Node): map<string, string> {
    if pages == [] then map[]
    else
      var p := pages[|pages| - 1];
      Claim(Owners(u, pages[..|pages| - 1], parse), KeyOf(u, parse(p.content)), p.name)
  }

  /** Every page's document has an `html` element (the checker fails on the first that has not). */
  predicate Parses(pages: seq<Page>, parse: string -> Node) {
    forall i :: 0 <= i < |pages| ==> Query(parse(pages[i].content), "html").Some?
  }

  /** The findings of page `p` checked after the pages `init`. */
  function PageStep(init: seq<Page>, p: Page, parse: string -> Node, validate: string -> Option<string>): seq<Finding>
    requires Query(parse(p.content), "html").Some?
  {
    var doc := parse(p.content);
    PageFindings(p, doc, Query(doc, "html").value, Owners(ByTitle, init, parse),
                 Owners(ByDescription, init, parse), validate(p.content))
  }

  /** The findings of the pages in order, each page checked against the tables of the pages
      before it. */
  function HtmlLog(pages: seq<Page>, parse: string -> Node, validate: string -> Option<string>): seq<Finding>
    requires Parses(pages, parse)
  {
    if pages == [] then []
    else
      var init := pages[..|pages| - 1];
      HtmlLog(init, parse, validate) + PageStep(init, pages[|pages| - 1], parse, validate)
  }

  lemma HtmlLogSnoc(pages: seq<Page>, i: nat, parse: string -> Node, validate: string -> Option<string>)
    requires i < |pages| && Parses(pages[..i + 1], parse)
    ensures Parses(pages[..i], parse)
    ensures HtmlLog(pages[..i + 1], parse, validate)
            == HtmlLog(pages[..i], parse, validate) + PageStep(pages[..i], pages[i], parse, validate)
  {
    assert pages[..i + 1][..i] == pages[..i];
  }

  lemma ParsesSnoc(pages: seq<Page>, i: nat, parse: string -> Node)
    requires i < |pages| && Parses(pages[..i], parse) && Query(parse(pages[i].content), "html").Some?
    ensures Parses(pages[..i + 1], parse)
  {
    var q := pages[..i + 1];
    forall j | 0 <= j < |q|
      ensures Query(parse(q[j].content), "html").Some?
    {
      if j < i {
        assert q[j] == pages[..i][j];
      }
    }
  }

  lemma OwnersSnoc(u: Unique, pages: seq<Page>, i: nat, parse: string -> Node)
    requires i < |pages|
    ensures Owners(u, pages[..i + 1], parse)
            == Claim(Owners(u, pages[..i], parse), KeyOf(u, parse(pages[i].content)), pages[i].name)
  {
    assert pages[..i + 1][..i] == pages[..i];
  }

  /** `validateHTML`: the formatted findings, or a single failure line when a page cannot be read
      or has no `html` element. */
  function HtmlOutput(root: seq<Entry>, parse: string -> Node, validate: string -> Option<string>): seq<OutLine> {
    match HtmlPages(root)
    case None => [Failed("HTML")]
    case Some(pages) =>
      if Parses(pages, parse) then Report(HtmlLog(pages, parse, validate)) else [Failed("HTML")]
  }

  // ---------------------------------------------------------------- the checker

  method CheckDoctype(table: ErrorTable, file: string, content: string)
    modifies table
    ensures table.State() == AddAll(old(table.State()), DoctypeFindings(file, content))
  {
    if !StartsWith(Lower(Trim(content)), "<!doctype html>") {
      table.Add(file, MissingDoctype, 1, Lines(content)[0]);
    }
  }

  method CheckLang(table: ErrorTable, file: string, lines: seq<string>, html: Node)
    modifies table
    ensures table.State() == AddAll(old(table.State()), LangFindings(file, lines, html))
  {
    if !HasAttr(AttrsOf(html), "lang") {
      table.Add(file, MissingLang, LineOf(lines, "<html"), OuterHtml(html));
    }
  }

  method CheckCharset(table: ErrorTable, file: string, lines: seq<string>, doc: Node)
    modifies table
    ensures table.State() == AddAll(old(table.State()), CharsetFindings(file, lines, doc))
  {
    var charsetMeta := First(WithAttr(QueryAll(doc, "meta"), "charset"));
    if charsetMeta.None? {
      table.Add(file, MissingCharset, LineOf(lines, "<head"), "");
    }
  }

  method CheckTitle(table: ErrorTable, file: string, lines: seq<string>, doc: Node, titles: map<string, string>)
    returns (titles': map<string, string>)
    modifies table
    ensures table.State() == AddAll(old(table.State()), TitleFindings(file, lines, doc, titles))
    ensures titles' == Claim(titles, TitleText(doc), file)
  {
    titles' := titles;
    var title := Query(doc, "title");
    var titleText := if title.None? then "" else Trim(TextContent(title.value));
    TitleTextIs(doc, title, titleText);
    if titleText == "" {
      ClaimNone(titles, TitleText(doc), file);
      AddMissingTitle(table, file, lines, doc, titles);
    } else {
      if titleText in titles {
        ClaimTaken(titles, TitleText(doc), file);
        AddDuplicateTitle(table, file, lines, doc, titles, title.value, titleText);
      } else {
        TitleFindingsNew(file, lines, doc, titles, titleText);
        titles' := titles[titleText := file];
      }
    }
  }

  lemma ClaimNone(owners: map<string, string>, key: Option<string>, file: string)
    requires key.None?
    ensures Claim(owners, key, file) == owners
  {
  }

  lemma ClaimTaken(owners: map<string, string>, key: Option<string>, file: string)
    requires key.Some? && key.value in owners
    ensures Claim(owners, key, file) == owners
  {
  }

  lemma TitleTextIs(doc: Node, title: Option<Node>, text: string)
    requires title == Query(doc, "title") && text == (if title.None? then "" else Trim(TextContent(title.value)))
    ensures TitleText(doc) == if text == "" then None else Some(text)
  {
  }

  /** A page without a title is reported at its `<head` line. */
  method AddMissingTitle(table: ErrorTable, file: string, lines: seq<string>, doc: Node, titles: map<string, string>)
    requires TitleText(doc).None?
    modifies table
    ensures table.State() == AddAll(old(table.State()), TitleFindings(file, lines, doc, titles))
  {
    AddIf(table, true, Finding(file, LineOf(lines, "<head"), MissingTitle, ""));
  }

  /** A title already claimed is reported with its owner, at the first line holding it. */
  method AddDuplicateTitle(table: ErrorTable, file: string, lines: seq<string>, doc: Node, titles: map<string, string>,
                           title: Node, text: string)
    requires Query(doc, "title") == Some(title) && TitleText(doc) == Some(text) && text in titles
    modifies table
    ensures table.State() == AddAll(old(table.State()), TitleFindings(file, lines, doc, titles))
  {
    AddIf(table, true, Finding(file, LineOf(lines, text), DuplicateTitle(text, titles[text]), OuterHtml(title)));
  }

  lemma TitleFindingsNew(file: string, lines: seq<string>, doc: Node, titles: map<string, string>, text: string)
    requires TitleText(doc) == Some(text) && text !in titles
    ensures TitleFindings(file, lines, doc, titles) == []
  {
  }

  method CheckDescription(table: ErrorTable, file: string, lines: seq<string>, doc: Node,
                          descriptions: map<string, string>)
    returns (descriptions': map<string, string>)
    modifies table
    ensures table.State() == AddAll(old(table.State()), DescriptionFindings(file, lines, doc, descriptions))
    ensures descriptions' == Claim(descriptions, DescriptionText(doc), file)
  {
    descriptions' := descriptions;
    var metaDesc := DescriptionMeta(doc);
    if metaDesc.None? || !HasValue(AttrsOf(metaDesc.value), "content") {
      assert DescriptionText(doc).None?;
      ClaimNone(descriptions, DescriptionText(doc), file);
      AddMissingDescription(table, file, lines, doc, descriptions);
    } else {
      var descText := GetAttr(AttrsOf(metaDesc.value), "content").value;
      assert DescriptionText(doc) == Some(descText);
      if descText in descriptions {
        ClaimTaken(descriptions, DescriptionText(doc), file);
        AddDuplicateDescription(table, file, lines, doc, descriptions, metaDesc.value, descText);
      } else {
        DescriptionFindingsNew(file, lines, doc, descriptions, descText);
        descriptions' := descriptions[descText := file];
      }
    }
  }

  /** A page without a description is reported at its `<head` line. */
  method AddMissingDescription(table: ErrorTable, file: string, lines: seq<string>, doc: Node,
                               descriptions: map<string, string>)
    requires DescriptionText(doc).None?
    modifies table
    ensures table.State() == AddAll(old(table.State()), DescriptionFindings(file, lines, doc, descriptions))
  {
    AddIf(table, true, Finding(file, LineOf(lines, "<head"), MissingDescription, ""));
  }

  /** A description already claimed is reported with its owner, at the first line holding it. */
  method AddDuplicateDescription(table: ErrorTable, file: string, lines: seq<string>, doc: Node,
                                 descriptions: map<string, string>, meta: Node, text: string)
    requires DescriptionMeta(doc) == Some(meta) && DescriptionText(doc) == Some(text) && text in descriptions
    modifies table
    ensures table.State() == AddAll(old(table.State()), DescriptionFindings(file, lines, doc, descriptions))
  {
    AddIf(table, true, Finding(file, LineOf(lines, text), DuplicateDescription(descriptions[text]), OuterHtml(meta)));
  }

  lemma DescriptionFindingsNew(file: string, lines: seq<string>, doc: Node, descriptions: map<string, string>,
                               text: string)
    requires DescriptionText(doc) == Some(text) && text !in descriptions
    ensures DescriptionFindings(file, lines, doc, descriptions) == []
  {
  }

  method CheckH1(table: ErrorTable, file: string, lines: seq<string>, doc: Node)
    modifies table
    ensures table.State() == AddAll(old(table.State()), H1Findings(file, lines, doc))
  {
    var h1s := QueryAll(doc, "h1");
    if |h1s| == 0 {
      table.Add(file, MissingH1, LineOf(lines, "<body"), "");
    } else if |h1s| > 1 {
      table.Add(file, MultipleH1, LineOf(lines, "<h1"), Join(OuterHtmls(h1s), "\n"));
    }
  }

  method CheckSemantic(table: ErrorTable, file: string, lines: seq<string>, doc: Node)
    modifies table
    ensures table.State() == AddAll(old(table.State()), SemanticFindings(file, lines, doc))
  {
    var used := UsedOf(doc, SemanticTags);
    AddIf(table, |used| < 3, Finding(file, LineOf(lines, "<body"), FewSemanticTags, "Found: " + Join(used, ", ")));
  }

  /** The tags of `tags` the document uses, collected in list order (for distinct tags, the
      insertion order of a set). */
  method UsedOf(doc: Node, tags: seq<string>) returns (used: seq<string>)
    ensures used == UsedTags(doc, tags)
  {
    used := [];
    for k := 0 to |tags|
      invariant used == UsedTags(doc, tags[..k])
    {
      if Query(doc, tags[k]).Some? {
        used := used + [tags[k]];
      }
      UsedTagsSnoc(doc, tags, k);
    }
    assert tags[..|tags|] == tags;
  }

  lemma UsedTagsSnoc(doc: Node, tags: seq<string>, k: int)
    requires 0 <= k < |tags|
    ensures UsedTags(doc, tags[..k + 1])
         == UsedTags(doc, tags[..k]) + (if Query(doc, tags[k]).Some? then [tags[k]] else [])
  {
    assert tags[..k + 1][..k] == tags[..k];
  }

  method CheckImage(table: ErrorTable, file: string, lines: seq<string>, img: Node)
    modifies table
    ensures table.State() == AddAll(old(table.State()), ImageFindings(file, lines, img))
  {
    ghost var t0 := table.State();
    ghost var added: seq<Finding> := [];
    var lineNumber := LineOf(lines, OuterHtml(img));
    if !HasAttr(AttrsOf(img), "alt") {
      table.Add(file, ImageMissingAlt, lineNumber, OuterHtml(img));
      added := [Finding(file, lineNumber, ImageMissingAlt, OuterHtml(img))];
    }
    if !HasAttr(AttrsOf(img), "width") || !HasAttr(AttrsOf(img), "height") {
      table.Add(file, ImageMissingSize, lineNumber, OuterHtml(img));
      AddAllSnoc(t0, added, Finding(file, lineNumber, ImageMissingSize, OuterHtml(img)));
      added := added + [Finding(file, lineNumber, ImageMissingSize, OuterHtml(img))];
    }
    assert added == ImageFindings(file, lines, img);
  }

  lemma ImagesFindingsSnoc(file: string, lines: seq<string>, imgs: seq<Node>, k: int)
    requires 0 <= k < |imgs|
    ensures ImagesFindings(file, lines, imgs[..k + 1]) == ImagesFindings(file, lines, imgs[..k]) + ImageFindings(file, lines, imgs[k])
  {
    assert imgs[..k + 1][..k] == imgs[..k];
  }

  method CheckImages(table: ErrorTable, file: string, lines: seq<string>, imgs: seq<Node>)
    modifies table
    ensures table.State() == AddAll(old(table.State()), ImagesFindings(file, lines, imgs))
  {
    ghost var t0 := table.State();
    for k := 0 to |imgs|
      invariant table.State() == AddAll(t0, ImagesFindings(file, lines, imgs[..k]))
    {
      CheckImage(table, file, lines, imgs[k]);
      ImagesFindingsSnoc(file, lines, imgs, k);
      AddAllAppend(t0, ImagesFindings(file, lines, imgs[..k]), ImageFindings(file, lines, imgs[k]));
    }
    assert imgs[..|imgs|] == imgs;
  }

  method CheckLink(table: ErrorTable, file: string, lines: seq<string>, link: Node)
    modifies table
    ensures table.State() == AddAll(old(table.State()), LinkFindings(file, lines, link))
  {
    ghost var t0 := table.State();
    ghost var added: seq<Finding> := [];
    var href := GetAttr(AttrsOf(link), "href");
    var lineNumber := LineOf(lines, OuterHtml(link));
    if href.None? || href.value == "" {
      table.Add(file, LinkMissingHref, lineNumber, OuterHtml(link));
      added := [Finding(file, lineNumber, LinkMissingHref, OuterHtml(link))];
    } else if href.value == "#" {
      table.Add(file, LinkHashHref, lineNumber, OuterHtml(link));
      added := [Finding(file, lineNumber, LinkHashHref, OuterHtml(link))];
    }
    if href.Some? && StartsWith(href.value, "http") && !HasAttr(AttrsOf(link), "target") {
      table.Add(file, ExternalLinkMissingTarget, lineNumber, OuterHtml(link));
      AddAllSnoc(t0, added, Finding(file, lineNumber, ExternalLinkMissingTarget, OuterHtml(link)));
      added := added + [Finding(file, lineNumber, ExternalLinkMissingTarget, OuterHtml(link))];
    }
    assert added == LinkFindings(file, lines, link);
  }

  lemma LinksFindingsSnoc(file: string, lines: seq<string>, links: seq<Node>, k: int)
    requires 0 <= k < |links|
    ensures LinksFindings(file, lines, links[..k + 1]) == LinksFindings(file, lines, links[..k]) + LinkFindings(file, lines, links[k])
  {
    assert links[..k + 1][..k] == links[..k];
  }

  method CheckLinks(table: ErrorTable, file: string, lines: seq<string>, links: seq<Node>)
    modifies table
    ensures table.State() == AddAll(old(table.State()), LinksFindings(file, lines, links))
  {
    ghost var t0 := table.State();
    for k := 0 to |links|
      invariant table.State() == AddAll(t0, LinksFindings(file, lines, links[..k]))
    {
      CheckLink(table, file, lines, links[k]);
      LinksFindingsSnoc(file, lines, links, k);
      AddAllAppend(t0, LinksFindings(file, lines, links[..k]), LinkFindings(file, lines, links[k]));
    }
    assert links[..|links|] == links;
  }

  method CheckControl(table: ErrorTable, file: string, lines: seq<string>, input: Node)
    modifies table
    ensures table.State() == AddAll(old(table.State()), ControlFindings(file, lines, input))
  {
    ghost var t0 := table.State();
    ghost var added: seq<Finding> := [];
    var inputLineNumber := LineOf(lines, OuterHtml(input));
    if !HasAttr(AttrsOf(input), "name") {
      table.Add(file, ControlMissingName, inputLineNumber, OuterHtml(input));
      added := [Finding(file, inputLineNumber, ControlMissingName, OuterHtml(input))];
    }
    if input.Element? && input.tag == "input" && !HasAttr(AttrsOf(input), "type") {
      table.Add(file, InputMissingType, inputLineNumber, OuterHtml(input));
      AddAllSnoc(t0, added, Finding(file, inputLineNumber, InputMissingType, OuterHtml(input)));
      added := added + [Finding(file, inputLineNumber, InputMissingType, OuterHtml(input))];
    }
    assert added == ControlFindings(file, lines, input);
  }

  lemma ControlsFindingsSnoc(file: string, lines: seq<string>, inputs: seq<Node>, k: int)
    requires 0 <= k < |inputs|
    ensures ControlsFindings(file, lines, inputs[..k + 1]) == ControlsFindings(file, lines, inputs[..k]) + ControlFindings(file, lines, inputs[k])
  {
    assert inputs[..k + 1][..k] == inputs[..k];
  }

  method CheckControls(table: ErrorTable, file: string, lines: seq<string>, inputs: seq<Node>)
    modifies table
    ensures table.State() == AddAll(old(table.State()), ControlsFindings(file, lines, inputs))
  {
    ghost var t0 := table.State();
    for k := 0 to |inputs|
      invariant table.State() == AddAll(t0, ControlsFindings(file, lines, inputs[..k]))
    {
      CheckControl(table, file, lines, inputs[k]);
      ControlsFindingsSnoc(file, lines, inputs, k);
      AddAllAppend(t0, ControlsFindings(file, lines, inputs[..k]), ControlFindings(file, lines, inputs[k]));
    }
    assert inputs[..|inputs|] == inputs;
  }

  method CheckForm(table: ErrorTable, file: string, lines: seq<string>, form: Node)
    modifies table
    ensures table.State() == AddAll(old(table.State()), FormFindings(file, lines, form))
  {
    ghost var t0 := table.State();
    ghost var added: seq<Finding> := [];
    var lineNumber := LineOf(lines, OuterHtml(form));
    if !HasAttr(AttrsOf(form), "action") {
      table.Add(file, FormMissingAction, lineNumber, OuterHtml(form));
      added := [Finding(file, lineNumber, FormMissingAction, OuterHtml(form))];
    }
    var inputs := Controls(Descendants(form));
    CheckControls(table, file, lines, inputs);
    AddAllAppend(t0, added, ControlsFindings(file, lines, inputs));
  }

  lemma FormsFindingsSnoc(file: string, lines: seq<string>, forms: seq<Node>, k: int)
    requires 0 <= k < |forms|
    ensures FormsFindings(file, lines, forms[..k + 1]) == FormsFindings(file, lines, forms[..k]) + FormFindings(file, lines, forms[k])
  {
    assert forms[..k + 1][..k] == forms[..k];
  }

  method CheckForms(table: ErrorTable, file: string, lines: seq<string>, forms: seq<Node>)
    modifies table
    ensures table.State() == AddAll(old(table.State()), FormsFindings(file, lines, forms))
  {
    ghost var t0 := table.State();
    for k := 0 to |forms|
      invariant table.State() == AddAll(t0, FormsFindings(file, lines, forms[..k]))
    {
      CheckForm(table, file, lines, forms[k]);
      FormsFindingsSnoc(file, lines, forms, k);
      AddAllAppend(t0, FormsFindings(file, lines, forms[..k]), FormFindings(file, lines, forms[k]));
    }
    assert forms[..|forms|] == forms;
  }

  method CheckError(table: ErrorTable, file: string, lines: seq<string>, error: string)
    modifies table
    ensures table.State() == AddError(old(table.State()), ErrorFinding(file, lines, error))
  {
    var lineNumber := LineNumberIn(error);
    var at := if lineNumber.Some? then lineNumber.value else 0;
    table.Add(file, ValidatorError(StripErrorPrefix(error)), at,
              if at != 0 && at <= |lines| then lines[at - 1] else "");
  }

  lemma ErrorsFindingsSnoc(file: string, lines: seq<string>, errors: seq<string>, k: nat)
    requires k < |errors|
    ensures ErrorsFindings(file, lines, errors[..k + 1])
            == ErrorsFindings(file, lines, errors[..k]) + [ErrorFinding(file, lines, errors[k])]
  {
    assert errors[..k + 1][..k] == errors[..k];
  }

  method CheckErrors(table: ErrorTable, file: string, lines: seq<string>, errors: seq<string>)
    modifies table
    ensures table.State() == AddAll(old(table.State()), ErrorsFindings(file, lines, errors))
  {
    ghost var t0 := table.State();
    for k := 0 to |errors|
      invariant table.State() == AddAll(t0, ErrorsFindings(file, lines, errors[..k]))
    {
      CheckError(table, file, lines, errors[k]);
      ErrorsFindingsSnoc(file, lines, errors, k);
      AddAllSnoc(t0, ErrorsFindings(file, lines, errors[..k]), ErrorFinding(file, lines, errors[k]));
    }
    assert errors[..|errors|] == errors;
  }

  method CheckReport(table: ErrorTable, file: string, lines: seq<string>, result: Option<string>)
    modifies table
    ensures table.State() == AddAll(old(table.State()), ReportFindings(file, lines, result))
  {
    if result.None? {
      table.Add(file, ValidatorFailed, 0, "");
    } else if Contains(result.value, "Error:") {
      CheckErrors(table, file, lines, ErrorLines(Split(result.value, '\n')));
    }
  }

  method CheckFavicon(table: ErrorTable, file: string, lines: seq<string>, doc: Node)
    modifies table
    ensures table.State() == AddAll(old(table.State()), FaviconFindings(file, lines, doc))
  {
    var favicon := First(WithAttrFolded(QueryAll(doc, "link"), "rel", "icon"));
    if favicon.None? {
      table.Add(file, MissingFavicon, LineOf(lines, "<head"), "");
    }
  }

  method CheckHead(table: ErrorTable, page: Page, doc: Node, html: Node,
                   titles: map<string, string>, descriptions: map<string, string>)
    returns (titles': map<string, string>, descriptions': map<string, string>)
    modifies table
    ensures table.State() == AddAll(old(table.State()), HeadFindings(page, doc, html, titles, descriptions))
    ensures titles' == Claim(titles, TitleText(doc), page.name)
    ensures descriptions' == Claim(descriptions, DescriptionText(doc), page.name)
  {
    ghost var t0 := table.State();
    var lines := Lines(page.content);
    CheckDoctype(table, page.name, page.content);
    ghost var acc := DoctypeFindings(page.name, page.content);
    CheckLang(table, page.name, lines, html);
    AddAllAppend(t0, acc, LangFindings(page.name, lines, html));
    acc := acc + LangFindings(page.name, lines, html);
    CheckCharset(table, page.name, lines, doc);
    AddAllAppend(t0, acc, CharsetFindings(page.name, lines, doc));
    acc := acc + CharsetFindings(page.name, lines, doc);
    titles' := CheckTitle(table, page.name, lines, doc, titles);
    AddAllAppend(t0, acc, TitleFindings(page.name, lines, doc, titles));
    acc := acc + TitleFindings(page.name, lines, doc, titles);
    descriptions' := CheckDescription(table, page.name, lines, doc, descriptions);
    AddAllAppend(t0, acc, DescriptionFindings(page.name, lines, doc, descriptions));
  }

  method CheckBody(table: ErrorTable, page: Page, doc: Node)
    modifies table
    ensures table.State() == AddAll(old(table.State()), BodyFindings(page, doc))
  {
    ghost var t0 := table.State();
    var lines := Lines(page.content);
    CheckH1(table, page.name, lines, doc);
    ghost var acc := H1Findings(page.name, lines, doc);
    CheckSemantic(table, page.name, lines, doc);
    AddAllAppend(t0, acc, SemanticFindings(page.name, lines, doc));
    acc := acc + SemanticFindings(page.name, lines, doc);
    CheckImages(table, page.name, lines, QueryAll(doc, "img"));
    AddAllAppend(t0, acc, ImagesFindings(page.name, lines, QueryAll(doc, "img")));
    acc := acc + ImagesFindings(page.name, lines, QueryAll(doc, "img"));
    CheckLinks(table, page.name, lines, QueryAll(doc, "a"));
    AddAllAppend(t0, acc, LinksFindings(page.name, lines, QueryAll(doc, "a")));
    acc := acc + LinksFindings(page.name, lines, QueryAll(doc, "a"));
    CheckForms(table, page.name, lines, QueryAll(doc, "form"));
    AddAllAppend(t0, acc, FormsFindings(page.name, lines, QueryAll(doc, "form")));
  }

  method CheckPage(table: ErrorTable, page: Page, doc: Node, html: Node,
                   titles: map<string, string>, descriptions: map<string, string>, result: Option<string>)
    returns (titles': map<string, string>, descriptions': map<string, string>)
    modifies table
    ensures table.State() == AddAll(old(table.State()), PageFindings(page, doc, html, titles, descriptions, result))
    ensures titles' == Claim(titles, TitleText(doc), page.name)
    ensures descriptions' == Claim(descriptions, DescriptionText(doc), page.name)
  {
    ghost var t0 := table.State();
    var lines := Lines(page.content);
    titles', descriptions' := CheckHead(table, page, doc, html, titles, descriptions);
    ghost var acc := HeadFindings(page, doc, html, titles, descriptions);
    CheckBody(table, page, doc);
    AddAllAppend(t0, acc, BodyFindings(page, doc));
    acc := acc + BodyFindings(page, doc);
    CheckReport(table, page.name, lines, result);
    AddAllAppend(t0, acc, ReportFindings(page.name, lines, result));
    acc := acc + ReportFindings(page.name, lines, result);
    CheckFavicon(table, page.name, lines, doc);
    AddAllAppend(t0, acc, FaviconFindings(page.name, lines, doc));
  }

  /** The `i`-th page, checked against the tables of the pages before it. */
  method CheckPageAt(table: ErrorTable, pages: seq<Page>, i: nat, parse: string -> Node,
                     validate: string -> Option<string>, titles: map<string, string>,
                     descriptions: map<string, string>)
    returns (titles': map<string, string>, descriptions': map<string, string>)
    requires i < |pages| && Query(parse(pages[i].content), "html").Some?
    requires titles == Owners(ByTitle, pages[..i], parse)
    requires descriptions == Owners(ByDescription, pages[..i], parse)
    modifies table
    ensures table.State() == AddAll(old(table.State()), PageStep(pages[..i], pages[i], parse, validate))
    ensures titles' == Owners(ByTitle, pages[..i + 1], parse)
    ensures descriptions' == Owners(ByDescription, pages[..i + 1], parse)
  {
    var page := pages[i];
    var document := parse(page.content);
    OwnersSnoc(ByTitle, pages, i, parse);
    OwnersSnoc(ByDescription, pages, i, parse);
    titles', descriptions' :=
      CheckPage(table, page, document, Query(document, "html").value, titles, descriptions, validate(page.content));
  }

  /** `validateHTML`, with the parser and the validator service as parameters: `validate`
      answers the report text for a page's content, or None when the service call fails. */
  method ValidateHtml(root: seq<Entry>, parse: string -> Node, validate: string -> Option<string>)
    returns (out: seq<OutLine>)
    ensures out == HtmlOutput(root, parse, validate)
  {
    var htmlFiles := HtmlPages(root);
    if htmlFiles.None? {
      return [Failed("HTML")];
    }
    var pages := htmlFiles.value;
    var table := new ErrorTable();
    var parsed := CheckPages(table, pages, parse, validate);
    if !parsed {
      return [Failed("HTML")];
    }
    out := table.Format();
    FormattedIsReport(HtmlLog(pages, parse, validate));
  }

  /** The loop over the pages, with the titles and descriptions claimed so far; it stops at the
      first page without an `html` element. */
  method CheckPages(table: ErrorTable, pages: seq<Page>, parse: string -> Node, validate: string -> Option<string>)
    returns (parsed: bool)
    modifies table
    ensures parsed == Parses(pages, parse)
    ensures parsed ==> table.State() == AddAll(old(table.State()), HtmlLog(pages, parse, validate))
  {
    ghost var t0 := table.State();
    var titles: map<string, string> := map[];
    var descriptions: map<string, string> := map[];
    for i := 0 to |pages|
      invariant Parses(pages[..i], parse)
      invariant table.State() == AddAll(t0, HtmlLog(pages[..i], parse, validate))
      invariant titles == Owners(ByTitle, pages[..i], parse)
      invariant descriptions == Owners(ByDescription, pages[..i], parse)
    {
      var html := Query(parse(pages[i].content), "html");
      if html.None? {
        NotParses(pages, i, parse);
        return false;
      }
      ParsesSnoc(pages, i, parse);
      HtmlLogSnoc(pages, i, parse, validate);
      ghost var before := HtmlLog(pages[..i], parse, validate);
      titles, descriptions := CheckPageAt(table, pages, i, parse, validate, titles, descriptions);
      AddAllAppend(t0, before, PageStep(pages[..i], pages[i], parse, validate));
    }
    assert pages[..|pages|] == pages;
    parsed := true;
  }

  lemma NotParses(pages: seq<Page>, i: nat, parse: string -> Node)
    requires i < |pages| && Query(parse(pages[i].content), "html").None?
    ensures !Parses(pages, parse)
  {
  }

  // ---------------------------------------------------------------- properties

  /** The result of claiming `keys` in order, the `i`-th on behalf of `names[i]`. */
  function ClaimAll(keys: seq<Option<string>>, names: seq<string>): map<string, string>
    requires |keys| == |names|
  {
    if keys == [] then map[]
    else Claim(ClaimAll(keys[..|keys| - 1], names[..|names| - 1]), keys[|keys| - 1], names[|names| - 1])
  }

  /** Position `i` holds the first occurrence of the key `t`. */
  predicate FirstKey(keys: seq<Option<string>>, t: string, i: int) {
    0 <= i < |keys| && keys[i] == Some(t) && forall j :: 0 <= j < i ==> keys[j] != Some(t)
  }

  /** Claiming in order keeps exactly the keys that occur, each owned by its first claimant. */
  lemma {:induction false} ClaimAllFirst(keys: seq<Option<string>>, names: seq<string>, t: string)
    requires |keys| == |names|
    ensures t in ClaimAll(keys, names) <==> Some(t) in keys
    ensures t in ClaimAll(keys, names) ==>
            exists i :: FirstKey(keys, t, i) && ClaimAll(keys, names)[t] == names[i]
  {
    if keys != [] {
      var n := |keys| - 1;
      var prev := ClaimAll(keys[..n], names[..n]);
      ClaimAllFirst(keys[..n], names[..n], t);
      assert keys == keys[..n] + [keys[n]];
      if t in prev {
        var i :| FirstKey(keys[..n], t, i) && prev[t] == names[..n][i];
        assert FirstKey(keys, t, i);
      } else if keys[n] == Some(t) {
        assert FirstKey(keys, t, n);
      }
    }
  }

  /** The keys of the pages for table `u`, and their names. */
  function PageKeys(u: Unique, pages: seq<Page>, parse: string -> Node): (r: seq<Option<string>>)
    ensures |r| == |pages| && forall i :: 0 <= i < |pages| ==> r[i] == KeyOf(u, parse(pages[i].content))
  {
    seq(|pages|, i requires 0 <= i < |pages| => KeyOf(u, parse(pages[i].content)))
  }

  function Names(pages: seq<Page>): (r: seq<string>)
    ensures |r| == |pages| && forall i :: 0 <= i < |pages| ==> r[i] == pages[i].name
  {
    seq(|pages|, i requires 0 <= i < |pages| => pages[i].name)
  }

  lemma {:induction false} OwnersAreClaims(u: Unique, pages: seq<Page>, parse: string -> Node)
    ensures Owners(u, pages, parse) == ClaimAll(PageKeys(u, pages, parse), Names(pages))
  {
    if pages != [] {
      var n := |pages| - 1;
      OwnersAreClaims(u, pages[..n], parse);
      PrefixKeys(u, pages, n, parse);
    }
  }

  lemma PrefixKeys(u: Unique, pages: seq<Page>, n: nat, parse: string -> Node)
    requires n <= |pages|
    ensures PageKeys(u, pages, parse)[..n] == PageKeys(u, pages[..n], parse)
    ensures Names(pages)[..n] == Names(pages[..n])
  {
    assert PageKeys(u, pages, parse)[..n] == PageKeys(u, pages[..n], parse);
    assert Names(pages)[..n] == Names(pages[..n]);
  }

  /** Page `i` is the first of `pages` whose key for table `u` is `t`. */
  predicate FirstWithKey(u: Unique, pages: seq<Page>, parse: string -> Node, t: string, i: int) {
    FirstKey(PageKeys(u, pages, parse), t, i)
  }

  /** A uniqueness table holds exactly the keys some page has, each owned by the first page in
      directory order that has it. */
  lemma OwnerIsFirst(u: Unique, pages: seq<Page>, parse: string -> Node, t: string)
    ensures t in Owners(u, pages, parse) <==>
            exists i :: 0 <= i < |pages| && KeyOf(u, parse(pages[i].content)) == Some(t)
    ensures t in Owners(u, pages, parse) ==>
            exists i :: FirstWithKey(u, pages, parse, t, i) && Owners(u, pages, parse)[t] == pages[i].name
  {
    var keys := PageKeys(u, pages, parse);
    OwnersAreClaims(u, pages, parse);
    ClaimAllFirst(keys, Names(pages), t);
    if Some(t) in keys {
      var i :| 0 <= i < |keys| && keys[i] == Some(t);
      assert KeyOf(u, parse(pages[i].content)) == Some(t);
    }
  }

  /** Only one page can be the first with a key. */
  lemma FirstWithKeyUnique(u: Unique, pages: seq<Page>, parse: string -> Node, t: string, i: int, j: int)
    requires FirstWithKey(u, pages, parse, t, i) && FirstWithKey(u, pages, parse, t, j)
    ensures i == j
  {
  }

  /** Page `k` is reported as a duplicate of title `t` owned by `o` exactly when its own title
      is `t`, an earlier page has title `t`, and `o` is the first such page; the same holds for
      the meta description. */
  lemma DuplicateIff(pages: seq<Page>, parse: string -> Node, k: nat, t: string, o: string)
    requires k < |pages|
    ensures var doc := parse(pages[k].content);
            var r := TitleFindings(pages[k].name, Lines(pages[k].content), doc, Owners(ByTitle, pages[..k], parse));
            (r != [] && r[0].message == DuplicateTitle(t, o)) <==>
            TitleText(doc) == Some(t) && exists i :: 0 <= i < k && FirstWithKey(ByTitle, pages, parse, t, i) && pages[i].name == o
    ensures var doc := parse(pages[k].content);
            var r := DescriptionFindings(pages[k].name, Lines(pages[k].content), doc, Owners(ByDescription, pages[..k], parse));
            (r != [] && r[0].message == DuplicateDescription(o)) <==>
            DescriptionText(doc).Some? && exists i :: 0 <= i < k && FirstWithKey(ByDescription, pages, parse, DescriptionText(doc).value, i) && pages[i].name == o
  {
    var doc := parse(pages[k].content);
    OwnedByFirst(ByTitle, pages, parse, k, t, o);
    if DescriptionText(doc).Some? {
      OwnedByFirst(ByDescription, pages, parse, k, DescriptionText(doc).value, o);
    }
  }

  /** The table before page `k` gives `t` to `o` exactly when `o` is the first page before `k`
      with key `t`. */
  lemma OwnedByFirst(u: Unique, pages: seq<Page>, parse: string -> Node, k: nat, t: string, o: string)
    requires k <= |pages|
    ensures (t in Owners(u, pages[..k], parse) && Owners(u, pages[..k], parse)[t] == o) <==>
            exists i :: 0 <= i < k && FirstWithKey(u, pages, parse, t, i) && pages[i].name == o
  {
    var init := pages[..k];
    OwnerIsFirst(u, init, parse, t);
    PrefixKeys(u, pages, k, parse);
    forall i | 0 <= i < k
      ensures FirstWithKey(u, pages, parse, t, i) <==> FirstWithKey(u, init, parse, t, i)
      ensures pages[i].name == init[i].name
    {
      FirstKeyPrefix(PageKeys(u, pages, parse), k, t, i);
    }
    if t in Owners(u, init, parse) {
      var i :| FirstWithKey(u, init, parse, t, i) && Owners(u, init, parse)[t] == init[i].name;
      forall i' | 0 <= i' < k && FirstWithKey(u, pages, parse, t, i')
        ensures i' == i
      {
        FirstWithKeyUnique(u, init, parse, t, i, i');
      }
    }
  }

  /** Whether position `i` holds the first occurrence of a key depends only on the positions
      up to it. */
  lemma FirstKeyPrefix(keys: seq<Option<string>>, n: nat, t: string, i: nat)
    requires i < n <= |keys|
    ensures FirstKey(keys, t, i) <==> FirstKey(keys[..n], t, i)
  {
    assert forall j :: 0 <= j <= i ==> keys[..n][j] == keys[j];
  }

  /** A page without a usable title or description never enters that table. */
  lemma MissingKeyNotClaimed(u: Unique, owners: map<string, string>, doc: Node, file: string)
    requires KeyOf(u, doc).None?
    ensures Claim(owners, KeyOf(u, doc), file) == owners
  {
  }

  /** The semantic tags found are the listed tags the document uses, each once. */
  lemma {:induction false} UsedTagsAre(doc: Node, tags: seq<string>)
    ensures forall t :: t in UsedTags(doc, tags) <==> t in tags && Query(doc, t).Some?
    ensures (forall i, j :: 0 <= i < j < |tags| ==> tags[i] != tags[j]) ==>
            forall i, j :: 0 <= i < j < |UsedTags(doc, tags)| ==> UsedTags(doc, tags)[i] != UsedTags(doc, tags)[j]
  {
    if tags != [] {
      var init := tags[..|tags| - 1];
      UsedTagsAre(doc, init);
      assert forall t :: t in tags <==> t in init || t == tags[|tags| - 1];
    }
  }

  /** The findings of the `img`, `a` and `form` checks and of the validator's report. */
  predicate ElementLevel(m: Message) {
    || m.ImageMissingAlt? || m.ImageMissingSize? || m.LinkMissingHref? || m.LinkHashHref?
    || m.ExternalLinkMissingTarget? || m.FormMissingAction? || m.ControlMissingName?
    || m.InputMissingType? || m.ValidatorError? || m.ValidatorFailed?
  }

  predicate AllElementLevel(fs: seq<Finding>) {
    forall i :: 0 <= i < |fs| ==> ElementLevel(fs[i].message)
  }

  lemma {:induction false} ImagesElementLevel(file: string, lines: seq<string>, imgs: seq<Node>)
    ensures AllElementLevel(ImagesFindings(file, lines, imgs))
  {
    if imgs != [] {
      ImagesElementLevel(file, lines, imgs[..|imgs| - 1]);
    }
  }

  lemma {:induction false} LinksElementLevel(file: string, lines: seq<string>, links: seq<Node>)
    ensures AllElementLevel(LinksFindings(file, lines, links))
  {
    if links != [] {
      LinksElementLevel(file, lines, links[..|links| - 1]);
    }
  }

  lemma {:induction false} ControlsElementLevel(file: string, lines: seq<string>, cs: seq<Node>)
    ensures AllElementLevel(ControlsFindings(file, lines, cs))
  {
    if cs != [] {
      ControlsElementLevel(file, lines, cs[..|cs| - 1]);
    }
  }

  lemma {:induction false} FormsElementLevel(file: string, lines: seq<string>, forms: seq<Node>)
    ensures AllElementLevel(FormsFindings(file, lines, forms))
  {
    if forms != [] {
      FormsElementLevel(file, lines, forms[..|forms| - 1]);
      ControlsElementLevel(file, lines, Controls(Descendants(forms[|forms| - 1])));
    }
  }

  lemma {:induction false} ErrorsElementLevel(file: string, lines: seq<string>, es: seq<string>)
    ensures AllElementLevel(ErrorsFindings(file, lines, es))
  {
    if es != [] {
      ErrorsElementLevel(file, lines, es[..|es| - 1]);
    }
  }

  lemma CountAtMostOne(fs: seq<Finding>, m: Message)
    requires |fs| <= 1
    ensures Count(fs, m) == if fs != [] && fs[0].message == m then 1 else 0
  {
    if fs != [] {
      assert fs[..0] == [];
    }
  }

  lemma CountOfFive(a: seq<Finding>, b: seq<Finding>, c: seq<Finding>, d: seq<Finding>,
                    e: seq<Finding>, m: Message)
    ensures Count(a + b + c + d + e, m) == Count(a, m) + Count(b, m) + Count(c, m) + Count(d, m) + Count(e, m)
  {
    CountAppend(a, b, m);
    CountAppend(a + b, c, m);
    CountAppend(a + b + c, d, m);
    CountAppend(a + b + c + d, e, m);
  }

  /** The title and description checks report only their own messages. */
  lemma TitleCount(file: string, lines: seq<string>, doc: Node, titles: map<string, string>, m: Message)
    requires !m.DuplicateTitle?
    ensures Count(TitleFindings(file, lines, doc, titles), m)
            == if m == MissingTitle && TitleText(doc).None? then 1 else 0
  {
    CountAtMostOne(TitleFindings(file, lines, doc, titles), m);
  }

  lemma DescriptionCount(file: string, lines: seq<string>, doc: Node,
                         descriptions: map<string, string>, m: Message)
    requires !m.DuplicateDescription?
    ensures Count(DescriptionFindings(file, lines, doc, descriptions), m)
            == if m == MissingDescription && DescriptionText(doc).None? then 1 else 0
  {
    CountAtMostOne(DescriptionFindings(file, lines, doc, descriptions), m);
  }

  lemma H1Count(file: string, lines: seq<string>, doc: Node, m: Message)
    ensures Count(H1Findings(file, lines, doc), m)
            == (if m == MissingH1 && QueryAll(doc, "h1") == [] then 1 else 0)
             + (if m == MultipleH1 && |QueryAll(doc, "h1")| > 1 then 1 else 0)
  {
    CountAtMostOne(H1Findings(file, lines, doc), m);
  }

  lemma DoctypeCount(file: string, content: string, m: Message)
    ensures Count(DoctypeFindings(file, content), m) == if m == MissingDoctype && !HasDoctype(content) then 1 else 0
  {
    CountAtMostOne(DoctypeFindings(file, content), m);
  }

  lemma LangCount(file: string, lines: seq<string>, html: Node, m: Message)
    ensures Count(LangFindings(file, lines, html), m) == if m == MissingLang && !HasAttr(AttrsOf(html), "lang") then 1 else 0
  {
    CountAtMostOne(LangFindings(file, lines, html), m);
  }

  lemma CharsetCount(file: string, lines: seq<string>, doc: Node, m: Message)
    ensures Count(CharsetFindings(file, lines, doc), m) == if m == MissingCharset && !HasCharset(doc) then 1 else 0
  {
    CountAtMostOne(CharsetFindings(file, lines, doc), m);
  }

  /** How often a page-level message occurs among the findings of the head of a page: once for
      each of its checks that fails. */
  lemma HeadCount(page: Page, doc: Node, html: Node, titles: map<string, string>,
                  descriptions: map<string, string>, m: Message)
    requires !m.DuplicateTitle? && !m.DuplicateDescription?
    ensures Count(HeadFindings(page, doc, html, titles, descriptions), m)
            == (if m == MissingDoctype && !HasDoctype(page.content) then 1 else 0)
             + (if m == MissingLang && !HasAttr(AttrsOf(html), "lang") then 1 else 0)
             + (if m == MissingCharset && !HasCharset(doc) then 1 else 0)
             + (if m == MissingTitle && TitleText(doc).None? then 1 else 0)
             + (if m == MissingDescription && DescriptionText(doc).None? then 1 else 0)
  {
    var lines := Lines(page.content);
    CountOfFive(DoctypeFindings(page.name, page.content), LangFindings(page.name, lines, html),
                CharsetFindings(page.name, lines, doc), TitleFindings(page.name, lines, doc, titles),
                DescriptionFindings(page.name, lines, doc, descriptions), m);
    DoctypeCount(page.name, page.content, m);
    LangCount(page.name, lines, html, m);
    CharsetCount(page.name, lines, doc, m);
    TitleCount(page.name, lines, doc, titles, m);
    DescriptionCount(page.name, lines, doc, descriptions, m);
  }

  lemma SemanticCount(file: string, lines: seq<string>, doc: Node, m: Message)
    ensures Count(SemanticFindings(file, lines, doc), m)
            == if m == FewSemanticTags && |UsedTags(doc, SemanticTags)| < 3 then 1 else 0
  {
    CountAtMostOne(SemanticFindings(file, lines, doc), m);
  }

  lemma FaviconCount(file: string, lines: seq<string>, doc: Node, m: Message)
    ensures Count(FaviconFindings(file, lines, doc), m) == if m == MissingFavicon && !HasFavicon(doc) then 1 else 0
  {
    CountAtMostOne(FaviconFindings(file, lines, doc), m);
  }

  /** Findings about single elements never carry a page-level message. */
  lemma ElementLevelCount(fs: seq<Finding>, m: Message)
    requires AllElementLevel(fs) && !ElementLevel(m)
    ensures Count(fs, m) == 0
  {
    CountAbsent(fs, m);
  }

  lemma ReportCount(file: string, lines: seq<string>, result: Option<string>, m: Message)
    requires !ElementLevel(m)
    ensures Count(ReportFindings(file, lines, result), m) == 0
  {
    if result.Some? && Contains(result.value, "Error:") {
      ErrorsElementLevel(file, lines, ErrorLines(Split(result.value, '\n')));
      ElementLevelCount(ReportFindings(file, lines, result), m);
    } else {
      CountAbsent(ReportFindings(file, lines, result), m);
    }
  }

  /** How often the `h1` and semantic messages occur among the findings of the body of a page:
      once for each of those checks that fails; the `img`, `a` and `form` checks add none. */
  lemma BodyCount(page: Page, doc: Node, m: Message)
    requires !ElementLevel(m)
    ensures Count(BodyFindings(page, doc), m)
            == (if m == MissingH1 && QueryAll(doc, "h1") == [] then 1 else 0)
             + (if m == MultipleH1 && |QueryAll(doc, "h1")| > 1 then 1 else 0)
             + (if m == FewSemanticTags && |UsedTags(doc, SemanticTags)| < 3 then 1 else 0)
  {
    var lines := Lines(page.content);
    CountOfFive(H1Findings(page.name, lines, doc), SemanticFindings(page.name, lines, doc),
                ImagesFindings(page.name, lines, QueryAll(doc, "img")),
                LinksFindings(page.name, lines, QueryAll(doc, "a")),
                FormsFindings(page.name, lines, QueryAll(doc, "form")), m);
    H1Count(page.name, lines, doc, m);
    SemanticCount(page.name, lines, doc, m);
    ImagesElementLevel(page.name, lines, QueryAll(doc, "img"));
    LinksElementLevel(page.name, lines, QueryAll(doc, "a"));
    FormsElementLevel(page.name, lines, QueryAll(doc, "form"));
    ElementLevelCount(ImagesFindings(page.name, lines, QueryAll(doc, "img")), m);
    ElementLevelCount(LinksFindings(page.name, lines, QueryAll(doc, "a")), m);
    ElementLevelCount(FormsFindings(page.name, lines, QueryAll(doc, "form")), m);
  }

  /** How often a page-level message occurs among all the findings of a page. */
  lemma PageCount(page: Page, doc: Node, html: Node, titles: map<string, string>,
                  descriptions: map<string, string>, result: Option<string>, m: Message)
    requires !ElementLevel(m) && !m.DuplicateTitle? && !m.DuplicateDescription?
    ensures Count(PageFindings(page, doc, html, titles, descriptions, result), m)
            == Count(HeadFindings(page, doc, html, titles, descriptions), m)
             + Count(BodyFindings(page, doc), m)
             + (if m == MissingFavicon && !HasFavicon(doc) then 1 else 0)
  {
    var lines := Lines(page.content);
    CountOfFour(HeadFindings(page, doc, html, titles, descriptions), BodyFindings(page, doc),
                ReportFindings(page.name, lines, result), FaviconFindings(page.name, lines, doc), m);
    ReportCount(page.name, lines, result, m);
    FaviconCount(page.name, lines, doc, m);
  }

  /** A page gets exactly one finding for each failed page-level check (doctype, `lang`,
      charset, title, description, no `h1`, several `h1`, semantic tags, favicon) and none for
      a passed one: the count of any other than an element-level or duplicate message is the
      number of those checks it failed. */
  lemma PageCountIs(page: Page, doc: Node, html: Node, titles: map<string, string>,
                    descriptions: map<string, string>, result: Option<string>, m: Message)
    requires !ElementLevel(m) && !m.DuplicateTitle? && !m.DuplicateDescription?
    ensures Count(PageFindings(page, doc, html, titles, descriptions, result), m)
            == (if m == MissingDoctype && !HasDoctype(page.content) then 1 else 0)
             + (if m == MissingLang && !HasAttr(AttrsOf(html), "lang") then 1 else 0)
             + (if m == MissingCharset && !HasCharset(doc) then 1 else 0)
             + (if m == MissingTitle && TitleText(doc).None? then 1 else 0)
             + (if m == MissingDescription && DescriptionText(doc).None? then 1 else 0)
             + (if m == MissingH1 && QueryAll(doc, "h1") == [] then 1 else 0)
             + (if m == MultipleH1 && |QueryAll(doc, "h1")| > 1 then 1 else 0)
             + (if m == FewSemanticTags && |UsedTags(doc, SemanticTags)| < 3 then 1 else 0)
             + (if m == MissingFavicon && !HasFavicon(doc) then 1 else 0)
  {
    PageCount(page, doc, html, titles, descriptions, result, m);
    HeadCount(page, doc, html, titles, descriptions, m);
    BodyCount(page, doc, m);
  }

  /** Position `j` of `s` starts `line ` followed by a digit. */
  predicate LineAt(s: string, j: nat) {
    j + 5 < |s| && StartsWith(s[j..], "line ") && IsDigit(s[j + 5])
  }

  /** `/line (\d+)/` takes the first `line ` followed by a digit, and all the digits after it. */
  lemma {:induction false} LineNumberAt(s: string, k: nat)
    requires LineAt(s, k) && forall j :: 0 <= j < k ==> !LineAt(s, j)
    ensures LineNumberIn(s) == Some(NumberAt(s, k + 5))
    decreases k
  {
    if k > 0 {
      NoLineBeforeShift(s, k);
      calc {
        LineNumberIn(s);
        { LineNumberSkip(s); }
        LineNumberIn(s[1..]);
        { LineNumberAt(s[1..], k - 1); }
        Some(NumberAt(s[1..], k + 4));
        { ShiftedValue(s, k); }
        Some(NumberAt(s, k + 5));
      }
    } else {
      LineNumberFirst(s);
    }
  }

  /** A match at the start is taken. */
  lemma LineNumberFirst(s: string)
    requires LineAt(s, 0)
    ensures LineNumberIn(s) == Some(NumberAt(s, 5))
  {
    assert s[0..] == s;
  }

  /** Without a match at its start, the first match is looked for from the next character. */
  lemma LineNumberSkip(s: string)
    requires |s| >= 6 && !LineAt(s, 0)
    ensures LineNumberIn(s) == LineNumberIn(s[1..])
  {
    assert s[0..] == s;
  }

  /** No match before `k` in `s` is no match before `k - 1` in `s[1..]`. */
  lemma NoLineBeforeShift(s: string, k: nat)
    requires 0 < k && LineAt(s, k) && forall j :: 0 <= j < k ==> !LineAt(s, j)
    ensures LineAt(s[1..], k - 1) && forall j :: 0 <= j < k - 1 ==> !LineAt(s[1..], j)
    ensures |s| >= 6 && !LineAt(s, 0)
  {
    var t := s[1..];
    assert t[k - 1..] == s[k..];
    forall j | 0 <= j < k - 1
      ensures !LineAt(t, j)
    {
      assert t[j..] == s[j + 1..];
      assert !LineAt(s, j + 1);
    }
  }

  /** The number read from `s[1..]` after position `k + 4` is the one read from `s` after `k + 5`. */
  lemma ShiftedValue(s: string, k: nat)
    requires 0 < k && k + 5 < |s|
    ensures NumberAt(s[1..], k + 4) == NumberAt(s, k + 5)
  {
    TailShift(s, k + 5);
  }

  /** The digits after position `i` of `s` are those after `i - 1` of `s[1..]`. */
  lemma TailShift(s: string, i: nat)
    requires 0 < i < |s|
    ensures s[1..][i - 1..] == s[i..]
    ensures s[1..][i - 1..i - 1 + DigitRun(s[i..])] == s[i..i + DigitRun(s[i..])]
  {
    assert s[1..][i - 1..] == s[i..];
  }

  /** A report line naming `line <n>` gives back `n`. */
  lemma LineNumberOfText(n: nat, rest: string)
    requires rest == [] || !IsDigit(rest[0])
    ensures LineNumberIn("line " + DecimalText(n) + rest) == Some(n)
  {
    var s := "line " + DecimalText(n) + rest;
    var d := DecimalText(n);
    assert s[0..] == s;
    assert s[5..] == d + rest;
    DigitRunOf(d, rest);
    assert s[5..5 + |d|] == d;
    assert LineAt(s, 0);
    LineNumberAt(s, 0);
    DecimalRoundTrip(n);
  }

  lemma {:induction false} DigitRunOf(d: string, rest: string)
    requires forall j :: 0 <= j < |d| ==> IsDigit(d[j])
    requires rest == [] || !IsDigit(rest[0])
    ensures DigitRun(d + rest) == |d|
  {
    if d != [] {
      assert (d + rest)[1..] == d[1..] + rest;
      DigitRunOf(d[1..], rest);
    } else {
      assert d + rest == rest;
    }
  }
}
