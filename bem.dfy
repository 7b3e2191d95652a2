/** The BEM checker (utils/validate/bem.js): every class token of every element that has a
    class attribute is tested against the BEM naming grammar and against the list of
    presentational prefixes and suffixes, and every such element is tested for being a
    wrapper with nothing of its own. */
module Bem {
  import opened Wrappers
  import opened Text
  import opened Dom
  import opened Findings
  import opened Project

  /** The position of the first `c` in `s`, or `|s|` when there is none. */
  function FirstOf(s: string, c: char): (r: nat)
    ensures r <= |s|
    ensures forall j :: 0 <= j < r ==> s[j] != c
    ensures r < |s| ==> s[r] == c
  {
    if s == [] || s[0] == c then 0 else 1 + FirstOf(s[1..], c)
  }

  /** The position of the first `--` in `s`, or `|s|` when there is none. */
  function DashDash(s: string): (r: nat)
    ensures r <= |s|
    ensures r < |s| ==> r + 1 < |s| && s[r] == '-' && s[r + 1] == '-'
  {
    if |s| < 2 then |s|
    else if s[0] == '-' && s[1] == '-' then 0
    else 1 + DashDash(s[1..])
  }

  /** A hyphenated lower-case name, `[a-z]+(-[a-z]+)*`: lower-case letters and dashes, with no
      dash first or last and no two dashes in a row. */
  predicate IsName(s: string) {
    && |s| > 0 && s[0] != '-' && s[|s| - 1] != '-'
    && (forall i :: 0 <= i < |s| ==> IsLowerLetter(s[i]) || s[i] == '-')
    && DashDash(s) == |s|
  }

  /** A class name taken apart: block, optional `__element`, optional `--modifier`. */
  datatype BemName = BemName(block: string, element: Option<string>, modifier: Option<string>)

  predicate WellFormed(n: BemName) {
    && IsName(n.block)
    && (n.element.Some? ==> IsName(n.element.value))
    && (n.modifier.Some? ==> IsName(n.modifier.value))
  }

  function Compose(n: BemName): string {
    n.block
    + (if n.element.Some? then "__" + n.element.value else "")
    + (if n.modifier.Some? then "--" + n.modifier.value else "")
  }

  /** Recognises `name(--name)?`: the part after the block and element. */
  function ParseModified(s: string): Option<(string, Option<string>)> {
    var d := DashDash(s);
    if d == |s| then
      if IsName(s) then Some((s, None)) else None
    else if IsName(s[..d]) && IsName(s[d + 2..]) then Some((s[..d], Some(s[d + 2..])))
    else None
  }

  /** Recognises `BEM_CLASS_PATTERN`,
      `^[a-z]+(-[a-z]+)*(__[a-z]+(-[a-z]+)*)?(--[a-z]+(-[a-z]+)*)?$`, and takes the name apart.
      A name has no `_`, so the first `_` must open the `__element` part. */
  function ParseBem(s: string): Option<BemName> {
    var u := FirstOf(s, '_');
    if u == |s| then
      match ParseModified(s)
      case None => None
      case Some((b, m)) => Some(BemName(b, None, m))
    else if u + 1 < |s| && s[u + 1] == '_' && IsName(s[..u]) then
      match ParseModified(s[u + 2..])
      case None => None
      case Some((e, m)) => Some(BemName(s[..u], Some(e), m))
    else None
  }

  /** `BEM_CLASS_PATTERN.test(className)`. */
  predicate IsBemClass(s: string) {
    ParseBem(s).Some?
  }

  lemma ParseModifiedSound(s: string)
    requires ParseModified(s).Some?
    ensures var (b, m) := ParseModified(s).value;
      IsName(b) && (m.Some? ==> IsName(m.value)) && b + (if m.Some? then "--" + m.value else "") == s
  {
    var d := DashDash(s);
    if d < |s| {
      assert s[..d] + "--" + s[d + 2..] == s;
    }
  }

  /** Whatever the recogniser accepts is a well-formed block, element and modifier put together. */
  lemma ParseBemSound(s: string, n: BemName)
    requires ParseBem(s) == Some(n)
    ensures WellFormed(n) && Compose(n) == s
  {
    var u := FirstOf(s, '_');
    if u == |s| {
      var (b, m) := ParseModified(s).value;
      assert n == BemName(b, None, m);
      ParseModifiedSound(s);
    } else {
      var t := s[u + 2..];
      var (e, m) := ParseModified(t).value;
      assert n == BemName(s[..u], Some(e), m);
      ParseModifiedSound(t);
      ElementSound(s, u, e, m);
    }
  }

  lemma ElementSound(s: string, u: nat, e: string, m: Option<string>)
    requires u + 1 < |s| && s[u] == '_' && s[u + 1] == '_'
    requires e + ModifierText(m) == s[u + 2..]
    ensures Compose(BemName(s[..u], Some(e), m)) == s
  {
    calc {
      Compose(BemName(s[..u], Some(e), m));
      s[..u] + ("__" + e) + ModifierText(m);
      s[..u] + "__" + (e + ModifierText(m));
      { assert s[..u + 2] == s[..u] + "__"; }
      s[..u + 2] + s[u + 2..];
      s;
    }
  }


  lemma {:induction false} FirstOfAppend(b: string, t: string, c: char)
    requires forall j :: 0 <= j < |b| ==> b[j] != c
    ensures FirstOf(b + t, c) == |b| + FirstOf(t, c)
  {
    if b != [] {
      var s := b + t;
      assert s[0] == b[0] != c;
      assert s[1..] == b[1..] + t;
      assert forall j :: 0 <= j < |b[1..]| ==> b[1..][j] == b[j + 1];
      FirstOfAppend(b[1..], t, c);
    } else {
      assert b + t == t;
    }
  }

  lemma {:induction false} DashDashAppend(b: string, t: string)
    requires DashDash(b) == |b|
    requires b == [] || b[|b| - 1] != '-'
    ensures DashDash(b + t) == |b| + DashDash(t)
  {
    var s := b + t;
    if b == [] {
      assert s == t;
    } else if |b| == 1 {
      assert s[0] == b[0] != '-';
      assert s[1..] == t;
    } else {
      assert s[0] == b[0] && s[1] == b[1];
      assert !(b[0] == '-' && b[1] == '-');
      assert s[1..] == b[1..] + t;
      assert b[1..][|b[1..]| - 1] == b[|b| - 1];
      DashDashAppend(b[1..], t);
    }
  }

  lemma NameHasNoUnderscore(s: string)
    requires IsName(s)
    ensures forall j :: 0 <= j < |s| ==> s[j] != '_'
  {
    forall j | 0 <= j < |s|
      ensures s[j] != '_'
    {
      assert IsLowerLetter(s[j]) || s[j] == '-';
    }
  }

  lemma ParseModifiedComplete(b: string, m: Option<string>)
    requires IsName(b) && (m.Some? ==> IsName(m.value))
    ensures ParseModified(b + ModifierText(m)) == Some((b, m))
  {
    if m.Some? {
      var s := b + ("--" + m.value);
      DashDashAppend(b, "--" + m.value);
      assert s[..|b|] == b && s[|b| + 2..] == m.value;
    } else {
      assert b + "" == b;
    }
  }

  function ModifierText(m: Option<string>): string {
    if m.Some? then "--" + m.value else ""
  }

  lemma ModifierHasNoUnderscore(m: Option<string>)
    requires m.Some? ==> IsName(m.value)
    ensures forall j :: 0 <= j < |ModifierText(m)| ==> ModifierText(m)[j] != '_'
  {
    if m.Some? {
      NameHasNoUnderscore(m.value);
      assert forall j :: 2 <= j < |ModifierText(m)| ==> ModifierText(m)[j] == m.value[j - 2];
    }
  }

  lemma ParseBlockOnly(b: string, m: Option<string>)
    requires IsName(b) && (m.Some? ==> IsName(m.value))
    ensures ParseBem(b + ModifierText(m)) == Some(BemName(b, None, m))
  {
    var s := b + ModifierText(m);
    NameHasNoUnderscore(b);
    ModifierHasNoUnderscore(m);
    FirstOfAppend(b, ModifierText(m), '_');
    FirstOfAppend(ModifierText(m), [], '_');
    assert ModifierText(m) + [] == ModifierText(m);
    assert FirstOf(s, '_') == |s|;
    ParseModifiedComplete(b, m);
  }

  lemma ParseWithElement(b: string, e: string, m: Option<string>)
    requires IsName(b) && IsName(e) && (m.Some? ==> IsName(m.value))
    ensures ParseBem(b + ("__" + (e + ModifierText(m)))) == Some(BemName(b, Some(e), m))
  {
    var tail := e + ModifierText(m);
    var s := b + ("__" + tail);
    NameHasNoUnderscore(b);
    FirstOfAppend(b, "__" + tail, '_');
    var u := FirstOf(s, '_');
    assert u == |b| && u + 1 < |s| && s[u + 1] == '_';
    assert s[..u] == b;
    assert s[u + 2..] == tail;
    ParseModifiedComplete(e, m);
    ParseAtUnderscores(s, u, e, m);
  }

  lemma ParseAtUnderscores(s: string, u: nat, e: string, m: Option<string>)
    requires u == FirstOf(s, '_') && u + 1 < |s| && s[u + 1] == '_' && IsName(s[..u])
    requires ParseModified(s[u + 2..]) == Some((e, m))
    ensures ParseBem(s) == Some(BemName(s[..u], Some(e), m))
  {
  }

  /** Every well-formed block, element and modifier put together is accepted, and taken apart
      again into the same three parts. With `ParseBemSound`: a class is valid exactly when it
      is one or more lower-case words joined by single dashes, then at most one `__element` and
      at most one `--modifier` of the same shape. */
  lemma ParseBemComplete(n: BemName)
    requires WellFormed(n)
    ensures ParseBem(Compose(n)) == Some(n)
  {
    if n.element.Some? {
      assert Compose(n) == n.block + ("__" + (n.element.value + ModifierText(n.modifier)));
      ParseWithElement(n.block, n.element.value, n.modifier);
    } else {
      assert Compose(n) == n.block + ModifierText(n.modifier);
      ParseBlockOnly(n.block, n.modifier);
    }
  }

  const PresentationalPrefixes: seq<string> :=
    ["fz", "fs", "color", "bg", "margin", "padding", "left", "right", "top", "bottom", "block"]
  const PresentationalSuffixes: seq<string> := ["left", "right", "center", "bold", "italic"]

  /** A class that names how something looks: it starts with one of the presentational
      prefixes or ends with one of the presentational suffixes. Independent of `IsBemClass`. */
  predicate IsPresentational(c: string) {
    || (exists p :: p in PresentationalPrefixes && StartsWith(c, p))
    || (exists q :: q in PresentationalSuffixes && EndsWith(c, q))
  }

  function ClassValue(attrs: seq<Attr>): string {
    match GetAttr(attrs, "class")
    case Some(v) => v
    case None => ""
  }

  /** An element with exactly one element child, no text of its own beyond whitespace, no
      image anywhere inside and without the `visually-hidden` class. */
  predicate IsUnnecessaryWrapper(e: Node)
    requires e.Element?
  {
    && ElementChildCount(e.children) == 1
    && Trim(TextContent(e)) == ""
    && WithTag(Descendants(e), "img") == []
    && "visually-hidden" !in ClassList(e.attrs)
  }

  /** The findings for one class token (an empty token is skipped). */
  function TokenFindings(file: string, line: nat, context: string, token: string): seq<Finding> {
    if token == "" then []
    else
      (if IsBemClass(token) then [] else [Finding(file, line, InvalidBemClass(token), context)])
      + (if IsPresentational(token) then [Finding(file, line, PresentationalClass(token), context)] else [])
  }

  function TokenPart(file: string, line: nat, context: string): string -> seq<Finding> {
    (t: string) => TokenFindings(file, line, context, t)
  }

  function TokensFindings(file: string, line: nat, context: string, tokens: seq<string>): seq<Finding> {
    FlatMap(tokens, TokenPart(file, line, context))
  }

  /** The first line of the element's markup, which is the finding's context and what its line
      number is looked up by. */
  function Snippet(e: Node): string {
    FirstLine(OuterHtml(e))
  }

  function ElementFindings(file: string, lines: seq<string>, e: Node): seq<Finding> {
    if e.TextNode? then []
    else
      var line := LineOf(lines, Snippet(e));
      TokensFindings(file, line, Snippet(e), SplitSpaces(ClassValue(e.attrs)))
      + (if IsUnnecessaryWrapper(e) then [Finding(file, line, UnnecessaryWrapper, Snippet(e))] else [])
  }

  function ElementsFindings(file: string, lines: seq<string>, es: seq<Node>): seq<Finding> {
    if es == [] then []
    else ElementsFindings(file, lines, es[..|es| - 1]) + ElementFindings(file, lines, es[|es| - 1])
  }

  /** `document.querySelectorAll('[class]')`. */
  function Classed(doc: Node): seq<Node> {
    WithAttr(Elements(doc), "class")
  }

  function PageFindings(page: Page, doc: Node): seq<Finding> {
    ElementsFindings(page.name, Lines(page.content), Classed(doc))
  }

  /** Every finding of the BEM checker, in the order it adds them. */
  function BemLog(pages: seq<Page>, parse: string -> Node): seq<Finding> {
    if pages == [] then []
    else BemLog(pages[..|pages| - 1], parse) + PageFindings(pages[|pages| - 1], parse(pages[|pages| - 1].content))
  }

  /** What `validateBEM` returns: the formatted report, or the one-line error when reading a page fails. */
  function BemOutput(root: seq<Entry>, parse: string -> Node): seq<OutLine> {
    match HtmlPages(root)
    case None => [Failed("BEM")]
    case Some(pages) => Report(BemLog(pages, parse))
  }

  /** The two checks of one class token. */
  method CheckToken(table: ErrorTable, file: string, line: nat, context: string, className: string)
    modifies table
    ensures table.State() == AddAll(old(table.State()), TokenFindings(file, line, context, className))
  {
    if className != "" {
      ghost var t0 := table.State();
      ghost var invalid := if IsBemClass(className) then [] else [Finding(file, line, InvalidBemClass(className), context)];
      AddIf(table, !IsBemClass(className), Finding(file, line, InvalidBemClass(className), context));
      AddIf(table, IsPresentational(className), Finding(file, line, PresentationalClass(className), context));
      AddAllAppend(t0, invalid, if IsPresentational(className) then [Finding(file, line, PresentationalClass(className), context)] else []);
    }
  }

  /** The `classes.forEach` loop. */
  method CheckTokens(table: ErrorTable, file: string, line: nat, context: string, tokens: seq<string>)
    modifies table
    ensures table.State() == AddAll(old(table.State()), TokensFindings(file, line, context, tokens))
  {
    ghost var t0 := table.State();
    for k := 0 to |tokens|
      invariant table.State() == AddAll(t0, TokensFindings(file, line, context, tokens[..k]))
    {
      CheckToken(table, file, line, context, tokens[k]);
      FlatMapSnoc(tokens, TokenPart(file, line, context), k);
      AddAllAppend(t0, TokensFindings(file, line, context, tokens[..k]), TokenFindings(file, line, context, tokens[k]));
    }
    assert tokens[..|tokens|] == tokens;
  }

  /** The checks of one element with a class attribute. */
  method CheckElement(table: ErrorTable, file: string, lines: seq<string>, e: Node)
    modifies table
    ensures table.State() == AddAll(old(table.State()), ElementFindings(file, lines, e))
  {
    if e.Element? {
      ghost var t0 := table.State();
      var html := Snippet(e);
      var line := LineOf(lines, html);
      var tokens := SplitSpaces(ClassValue(e.attrs));
      CheckTokens(table, file, line, html, tokens);
      ghost var added := TokensFindings(file, line, html, tokens);
      if IsUnnecessaryWrapper(e) {
        table.Add(file, UnnecessaryWrapper, line, html);
        AddAllSnoc(t0, added, Finding(file, line, UnnecessaryWrapper, html));
        added := added + [Finding(file, line, UnnecessaryWrapper, html)];
      }
      assert added == ElementFindings(file, lines, e);
    }
  }

  /** The loop over `document.querySelectorAll('[class]')` of one page. */
  method CheckElements(table: ErrorTable, file: string, lines: seq<string>, elements: seq<Node>)
    modifies table
    ensures table.State() == AddAll(old(table.State()), ElementsFindings(file, lines, elements))
  {
    ghost var t0 := table.State();
    for j := 0 to |elements|
      invariant table.State() == AddAll(t0, ElementsFindings(file, lines, elements[..j]))
    {
      CheckElement(table, file, lines, elements[j]);
      assert elements[..j + 1][..j] == elements[..j];
      AddAllAppend(t0, ElementsFindings(file, lines, elements[..j]), ElementFindings(file, lines, elements[j]));
    }
    assert elements[..|elements|] == elements;
  }

  /** `validateBEM`. */
  method ValidateBem(root: seq<Entry>, parse: string -> Node) returns (out: seq<OutLine>)
    ensures out == BemOutput(root, parse)
  {
    var pages := HtmlPages(root);
    if pages.None? {
      return [Failed("BEM")];
    }
    out := CheckPages(pages.value, parse);
  }

  /** The loop over the pages: every page's findings go into one table, which is then
      reported. */
  method CheckPages(pages: seq<Page>, parse: string -> Node) returns (out: seq<OutLine>)
    ensures out == Report(BemLog(pages, parse))
  {
    var table := new ErrorTable();
    for i := 0 to |pages|
      invariant table.State() == AddAll(EmptyTable, BemLog(pages[..i], parse))
    {
      var page := pages[i];
      CheckElements(table, page.name, Lines(page.content), Classed(parse(page.content)));
      assert pages[..i + 1][..i] == pages[..i];
      AddAllAppend(EmptyTable, BemLog(pages[..i], parse), PageFindings(page, parse(page.content)));
    }
    assert pages[..|pages|] == pages;
    out := table.Format();
    FormattedIsReport(BemLog(pages, parse));
  }


  lemma TokenFound(file: string, line: nat, context: string, t: string, c: string)
    ensures Finding(file, line, InvalidBemClass(c), context) in TokenFindings(file, line, context, t)
        <==> t == c && c != "" && !IsBemClass(c)
    ensures Finding(file, line, PresentationalClass(c), context) in TokenFindings(file, line, context, t)
        <==> t == c && c != "" && IsPresentational(c)
  {
  }

  /** Each non-empty class token that fails the pattern gives an "Invalid BEM class name"
      finding naming it, and no other token does. */
  lemma InvalidTokenFound(file: string, line: nat, context: string, tokens: seq<string>, c: string)
    ensures Finding(file, line, InvalidBemClass(c), context) in TokensFindings(file, line, context, tokens)
        <==> c in tokens && c != "" && !IsBemClass(c)
  {
    FlatMapFound(tokens, TokenPart(file, line, context), Finding(file, line, InvalidBemClass(c), context));
    forall t | t in tokens {
      TokenFound(file, line, context, t, c);
    }
  }

  /** A non-empty token is reported as presentational exactly when it has a presentational
      prefix or suffix, whether or not it is valid BEM. */
  lemma PresentationalTokenFound(file: string, line: nat, context: string, tokens: seq<string>, c: string)
    ensures Finding(file, line, PresentationalClass(c), context) in TokensFindings(file, line, context, tokens)
        <==> c in tokens && c != "" && IsPresentational(c)
  {
    FlatMapFound(tokens, TokenPart(file, line, context), Finding(file, line, PresentationalClass(c), context));
    forall t | t in tokens {
      TokenFound(file, line, context, t, c);
    }
  }

  lemma TokensFindingsShape(file: string, line: nat, context: string, tokens: seq<string>)
    ensures forall f :: f in TokensFindings(file, line, context, tokens) ==>
      f.file == file && f.line == line && f.context == context && !f.message.UnnecessaryWrapper?
  {
    forall f | f in TokensFindings(file, line, context, tokens)
      ensures f.file == file && f.line == line && f.context == context && !f.message.UnnecessaryWrapper?
    {
      FlatMapFound(tokens, TokenPart(file, line, context), f);
    }
  }

  /** An element gets the wrapper finding exactly when it is an unnecessary wrapper. */
  lemma WrapperFound(file: string, lines: seq<string>, e: Node)
    requires e.Element?
    ensures Finding(file, LineOf(lines, Snippet(e)), UnnecessaryWrapper, Snippet(e)) in ElementFindings(file, lines, e)
        <==> IsUnnecessaryWrapper(e)
  {
    TokensFindingsShape(file, LineOf(lines, Snippet(e)), Snippet(e), SplitSpaces(ClassValue(e.attrs)));
  }

  /** All of an element's findings carry the number of the first source line that contains the
      first line of its markup (0, shown without a `:line`, when none does) and that markup
      line as context. */
  lemma ElementFindingsPlace(file: string, lines: seq<string>, e: Node)
    ensures forall f :: f in ElementFindings(file, lines, e) ==>
      f.file == file && f.line == LineOf(lines, Snippet(e)) && f.context == Snippet(e)
  {
    if e.Element? {
      TokensFindingsShape(file, LineOf(lines, Snippet(e)), Snippet(e), SplitSpaces(ClassValue(e.attrs)));
    }
  }
}
