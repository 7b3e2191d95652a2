/** The semantic-styles checker (utils/validate/semantic-styles.js): per stylesheet, `display`
    declarations that repeat an element's default and declarations that repeat or overlap an
    earlier one of the same rule; per page, font styling put directly on the classes of its
    paragraphs. Every file with findings is logged as one block. The stylesheet parser
    (postcss) is outside the model: a stylesheet is the list of its rules. */
module SemanticStyles {
  import opened Wrappers
  import opened Text
  import opened Dom
  import opened Findings
  import opened Project
  import opened ValidationLogger

  /** A declaration: property, value, the line it starts on and the file name the parser
      records for its input (`None` when the stylesheet is parsed from a string without a
      file name, as all three checks here do). */
  datatype Decl = Decl(prop: string, value: string, line: nat, source: Option<string>)

  /** A rule: its selector and the declarations `rule.walkDecls` visits, in source order. These
      include the declarations of rules nested inside it, which also appear again as rules of
      their own. A stylesheet is the list of every rule `root.walkRules` visits, nested rules
      included, in source order. */
  datatype Rule = Rule(selector: string, decls: seq<Decl>)

  function DeclText(d: Decl): string {
    d.prop + ": " + d.value
  }

  /** A JavaScript template renders a missing file name as `undefined`. */
  function SourceName(source: Option<string>): string {
    match source
    case Some(f) => f
    case None => "undefined"
  }

  /** `file:line`. */
  function Location(file: string, line: nat): string {
    file + ":" + DecimalText(line)
  }

  /** A location gives back both its parts: the file before the colon, the line after it. */
  lemma LocationReadsBack(file: string, line: nat)
    ensures Location(file, line)[..|file|] == file
    ensures Location(file, line)[|file|] == ':'
    ensures DecimalValue(Location(file, line)[|file| + 1..]) == line
  {
    assert Location(file, line)[|file| + 1..] == DecimalText(line);
    DecimalRoundTrip(line);
  }

  /** Where the parser says a declaration is written. */
  function DeclLocation(d: Decl): string {
    Location(SourceName(d.source), d.line)
  }

  // ---------------------------------------------------------------- display overrides

  const DefaultBlockElements: seq<string> :=
    ["div", "p", "h1", "h2", "h3", "h4", "h5", "h6",
     "article", "aside", "footer", "header", "section",
     "nav", "main", "form", "ul", "ol", "li"]

  /** The lower-cased selector names the element: it is the element, starts with `element.` or
      contains `element[`. */
  predicate Targets(selector: string, element: string) {
    var s := Lower(selector);
    Contains(s, element + "[") || s == element || StartsWith(s, element + ".")
  }

  /** A `display` declaration that repeats the element's default: `block` (every listed element
      is a block by default) or `list-item` on `li`. */
  predicate IsDefaultDisplay(element: string, d: Decl) {
    d.prop == "display" && (d.value == "block" || (d.value == "list-item" && element == "li"))
  }

  /** The context names the declaration and where it is: the stylesheet's path and its line. */
  function DisplayFinding(file: string, element: string, d: Decl): Finding {
    Finding(file, d.line, DisplayOverride(element), DeclText(d) + " (" + Location(file, d.line) + ")")
  }

  /** One declaration of a rule that targets `element`: flagged when it repeats the default. */
  function DisplayPart(file: string, element: string): Decl -> seq<Finding> {
    (d: Decl) => if IsDefaultDisplay(element, d) then [DisplayFinding(file, element, d)] else []
  }

  /** The declarations of a rule that targets `element`, walked for default `display` values. */
  function DisplayFindings(file: string, element: string, decls: seq<Decl>): seq<Finding> {
    FlatMap(decls, DisplayPart(file, element))
  }

  /** One default-block element checked against a rule. */
  function ElementPart(file: string, rule: Rule): string -> seq<Finding> {
    (e: string) => if Targets(rule.selector, e) then DisplayFindings(file, e, rule.decls) else []
  }

  /** One rule checked against each default-block element in turn. */
  function RuleOverrideFindings(file: string, rule: Rule): seq<Finding> {
    FlatMap(DefaultBlockElements, ElementPart(file, rule))
  }

  function OverridePart(file: string): Rule -> seq<Finding> {
    (r: Rule) => RuleOverrideFindings(file, r)
  }

  /** Every finding `checkDefaultPropertyOverrides` pushes for a stylesheet, in order. */
  function OverrideFindings(file: string, rules: seq<Rule>): seq<Finding> {
    FlatMap(rules, OverridePart(file))
  }

  /** The `rule.walkDecls` of a rule that targets `element`. */
  method CheckDisplay(file: string, element: string, decls: seq<Decl>) returns (found: seq<Finding>)
    ensures found == DisplayFindings(file, element, decls)
  {
    found := [];
    for k := 0 to |decls|
      invariant found == DisplayFindings(file, element, decls[..k])
    {
      var d := decls[k];
      FlatMapSnoc(decls, DisplayPart(file, element), k);
      if d.prop == "display" && (d.value == "block" || (d.value == "list-item" && element == "li")) {
        found := found + [DisplayFinding(file, element, d)];
      }
    }
    assert decls[..|decls|] == decls;
  }

  /** One rule checked against each default-block element it targets. */
  method CheckRuleOverrides(file: string, rule: Rule) returns (found: seq<Finding>)
    ensures found == RuleOverrideFindings(file, rule)
  {
    found := [];
    for k := 0 to |DefaultBlockElements|
      invariant found == FlatMap(DefaultBlockElements[..k], ElementPart(file, rule))
    {
      var e := DefaultBlockElements[k];
      FlatMapSnoc(DefaultBlockElements, ElementPart(file, rule), k);
      if Targets(rule.selector, e) {
        var ds := CheckDisplay(file, e, rule.decls);
        found := found + ds;
      }
    }
    assert DefaultBlockElements[..|DefaultBlockElements|] == DefaultBlockElements;
  }

  /** `checkDefaultPropertyOverrides`: for each rule, each default-block element it targets. */
  method CheckDefaultPropertyOverrides(file: string, rules: seq<Rule>) returns (found: seq<Finding>)
    ensures found == OverrideFindings(file, rules)
  {
    found := [];
    for i := 0 to |rules|
      invariant found == OverrideFindings(file, rules[..i])
    {
      FlatMapSnoc(rules, OverridePart(file), i);
      var more := CheckRuleOverrides(file, rules[i]);
      found := found + more;
    }
    assert rules[..|rules|] == rules;
  }

  // ---------------------------------------------------------------- duplicate properties

  const ShorthandProperties: seq<string> :=
    ["padding", "margin", "border", "background", "font", "border-radius",
     "transition", "animation", "flex", "grid", "outline"]

  /** `isShorthandProperty`. */
  predicate IsShorthandProperty(prop: string) {
    prop in ShorthandProperties
  }

  predicate IsProperPrefix(a: seq<string>, b: seq<string>) {
    |a| < |b| && b[..|a|] == a
  }

  /** `shorter.every((part, index) => part === longer[index])`. */
  predicate AgreeOnPrefix(shorter: seq<string>, longer: seq<string>)
    requires |shorter| <= |longer|
  {
    forall i :: 0 <= i < |shorter| ==> shorter[i] == longer[i]
  }

  /** The overlap test on the parts of two values: two one-part values never overlap; otherwise
      the shorter list must agree with the start of the longer and be shorter. */
  predicate PartsOverlap(p1: seq<string>, p2: seq<string>) {
    if |p1| == 1 && |p2| == 1 then false
    else if |p1| <= |p2| then AgreeOnPrefix(p1, p2) && |p1| != |p2|
    else AgreeOnPrefix(p2, p1) && |p2| != |p1|
  }

  /** `hasPartialOverlap`: the values split at runs of white space (`parseCombinedValue`). */
  function HasPartialOverlap(v1: string, v2: string): (r: bool)
    ensures |SplitSpaces(v1)| == 1 && |SplitSpaces(v2)| == 1 ==> !r
  {
    PartsOverlap(SplitSpaces(v1), SplitSpaces(v2))
  }

  lemma PrefixAgrees(a: seq<string>, b: seq<string>)
    requires |a| <= |b|
    ensures AgreeOnPrefix(a, b) <==> b[..|a|] == a
  {
    if b[..|a|] == a {
      forall i | 0 <= i < |a|
        ensures a[i] == b[i]
      {
        assert b[..|a|][i] == b[i];
      }
    }
  }

  lemma PartsOverlapIsProperPrefix(p1: seq<string>, p2: seq<string>)
    ensures PartsOverlap(p1, p2) <==> IsProperPrefix(p1, p2) || IsProperPrefix(p2, p1)
  {
    if |p1| <= |p2| {
      PrefixAgrees(p1, p2);
    } else {
      PrefixAgrees(p2, p1);
    }
  }

  /** Two values overlap exactly when the parts of one are a proper prefix of the parts of the
      other; so the relation is symmetric, and the one-part guard changes nothing. */
  lemma OverlapIsProperPrefix(v1: string, v2: string)
    ensures HasPartialOverlap(v1, v2)
            <==> IsProperPrefix(SplitSpaces(v1), SplitSpaces(v2)) || IsProperPrefix(SplitSpaces(v2), SplitSpaces(v1))
    ensures HasPartialOverlap(v1, v2) == HasPartialOverlap(v2, v1)
  {
    PartsOverlapIsProperPrefix(SplitSpaces(v1), SplitSpaces(v2));
    PartsOverlapIsProperPrefix(SplitSpaces(v2), SplitSpaces(v1));
  }

  /** The `properties` map of a rule after the declarations `decls`: each property mapped to its
      latest declaration. */
  function Latest(decls: seq<Decl>): map<string, Decl> {
    if decls == [] then map[]
    else Latest(decls[..|decls| - 1])[decls[|decls| - 1].prop := decls[|decls| - 1]]
  }

  /** Both declarations, each followed by the file and line the parser gives for it; the
      property shown for the previous one is the current one's (the map key). */
  function DuplicateContext(prev: Decl, d: Decl): string {
    "Previous: " + d.prop + ": " + prev.value + " (" + DeclLocation(prev) + ")"
    + "\nCurrent: " + DeclText(d) + " (" + DeclLocation(d) + ")"
  }

  /** The verdict on `d` against the previous declaration of its property: identical values, or
      partly overlapping values of a shorthand property. */
  function DuplicateFindings(file: string, prev: Decl, d: Decl): seq<Finding> {
    if prev.value == d.value then [Finding(file, d.line, DuplicateProperty(d.prop), DuplicateContext(prev, d))]
    else if IsShorthandProperty(d.prop) && HasPartialOverlap(prev.value, d.value) then
      [Finding(file, d.line, OverlappingValues(d.prop), DuplicateContext(prev, d))]
    else []
  }

  /** The `rule.walkDecls` of `checkPropertyDuplications` for one rule. */
  function RuleDuplicateFindings(file: string, decls: seq<Decl>): seq<Finding> {
    if decls == [] then []
    else
      var init := decls[..|decls| - 1];
      var d := decls[|decls| - 1];
      RuleDuplicateFindings(file, init)
      + (if d.prop in Latest(init) then DuplicateFindings(file, Latest(init)[d.prop], d) else [])
  }

  /** One rule of `checkPropertyDuplications`: skipped when its selector has a `:`. */
  function DuplicationPart(file: string): Rule -> seq<Finding> {
    (r: Rule) => if Contains(r.selector, ":") then [] else RuleDuplicateFindings(file, r.decls)
  }

  /** Every finding `checkPropertyDuplications` pushes for a stylesheet. */
  function DuplicationFindings(file: string, rules: seq<Rule>): seq<Finding> {
    FlatMap(rules, DuplicationPart(file))
  }

  /** One rule: the `properties` map is updated to every declaration, flagged or not. */
  method CheckRuleDuplications(file: string, decls: seq<Decl>) returns (found: seq<Finding>)
    ensures found == RuleDuplicateFindings(file, decls)
  {
    var properties: map<string, Decl> := map[];
    found := [];
    for k := 0 to |decls|
      invariant properties == Latest(decls[..k])
      invariant found == RuleDuplicateFindings(file, decls[..k])
    {
      var d := decls[k];
      assert decls[..k + 1][..k] == decls[..k];
      if d.prop in properties {
        var prev := properties[d.prop];
        if prev.value == d.value || (IsShorthandProperty(d.prop) && HasPartialOverlap(prev.value, d.value)) {
          var m := if prev.value == d.value then DuplicateProperty(d.prop) else OverlappingValues(d.prop);
          found := found + [Finding(file, d.line, m, DuplicateContext(prev, d))];
        }
      }
      properties := properties[d.prop := d];
    }
    assert decls[..|decls|] == decls;
  }

  /** `checkPropertyDuplications`. */
  method CheckPropertyDuplications(file: string, rules: seq<Rule>) returns (found: seq<Finding>)
    ensures found == DuplicationFindings(file, rules)
  {
    found := [];
    for i := 0 to |rules|
      invariant found == DuplicationFindings(file, rules[..i])
    {
      var r := rules[i];
      FlatMapSnoc(rules, DuplicationPart(file), i);
      if !Contains(r.selector, ":") {
        var more := CheckRuleDuplications(file, r.decls);
        found := found + more;
      }
    }
    assert rules[..|rules|] == rules;
  }

  // ---------------------------------------------------------------- paragraphs

  /** `node.nodeName` of the parsed tree: the tag of an element, `#text` for text. */
  function NodeName(n: Node): string {
    if n.Element? then n.tag else "#text"
  }

  /** `getClassNames`: the value of the first `class` attribute split at single spaces, or no
      names when there is no such attribute. */
  function ClassNames(n: Node): (r: seq<string>)
    ensures r == [] <==> !HasAttr(AttrsOf(n), "class")
  {
    match GetAttr(AttrsOf(n), "class")
    case None => []
    case Some(v) => Split(v, ' ')
  }

  /** The `p` elements of the tree, in document order. */
  function Paragraphs(n: Node): seq<Node> {
    WithTag(Elements(n), "p")
  }

  function ParagraphsIn(ns: seq<Node>): seq<Node> {
    WithTag(ElementsIn(ns), "p")
  }

  lemma ParagraphsInSnoc(ns: seq<Node>, k: nat)
    requires k < |ns|
    ensures ParagraphsIn(ns[..k + 1]) == ParagraphsIn(ns[..k]) + Paragraphs(ns[k])
  {
    ElementsInSnoc(ns, k);
    WithTagAppend(ElementsIn(ns[..k]), Elements(ns[k]), "p");
  }

  lemma ParagraphsOfElement(n: Node)
    requires n.Element?
    ensures Paragraphs(n) == (if n.tag == "p" then [n] else []) + ParagraphsIn(n.children)
  {
    WithTagAppend([n], ElementsIn(n.children), "p");
  }

  /** `findParagraphs`: pushes the `p` elements of the subtree onto `acc`, the node before its
      children. */
  method FindParagraphs(n: Node, acc: seq<Node>) returns (r: seq<Node>)
    ensures r == acc + Paragraphs(n)
    decreases n, 1
  {
    r := acc;
    if n.Element? {
      if n.tag == "p" {
        r := r + [n];
      }
      r := FindParagraphsIn(n.children, r);
      ParagraphsOfElement(n);
    }
  }

  /** The `node.childNodes.forEach` of `findParagraphs`. */
  method FindParagraphsIn(children: seq<Node>, acc: seq<Node>) returns (r: seq<Node>)
    ensures r == acc + ParagraphsIn(children)
    decreases children, 0
  {
    r := acc;
    for k := 0 to |children|
      invariant r == acc + ParagraphsIn(children[..k])
    {
      ParagraphsInSnoc(children, k);
      r := FindParagraphs(children[k], r);
    }
    assert children[..|children|] == children;
  }

  /** The paragraphs found are exactly the `p` elements of the tree. */
  lemma ParagraphsAre(n: Node, x: Node)
    ensures x in Paragraphs(n) <==> x in Elements(n) && x.Element? && x.tag == "p"
  {
    WithTagMembers(Elements(n), "p", x);
  }

  /** `getLineNumber`: the first line of the page containing the paragraph's rebuilt start tag,
      counted from 1, or 1 when none does. */
  method GetLineNumber(content: string, p: Node) returns (line: nat)
    ensures var k := LineOf(Lines(content), OpenTag(NodeName(p), AttrsOf(p)));
      line == if k == 0 then 1 else k
  {
    var html := OpenTag(NodeName(p), AttrsOf(p));
    var lines := Lines(content);
    var i := 0;
    while i < |lines|
      invariant 0 <= i <= |lines|
      invariant forall j :: 0 <= j < i ==> !Contains(lines[j], html)
    {
      if Contains(lines[i], html) {
        LineOfFirst(lines, html, i);
        return i + 1;
      }
      NoneUpTo(lines, html, i);
      i := i + 1;
    }
    return 1;
  }

  lemma NoneUpTo(lines: seq<string>, needle: string, i: nat)
    requires i < |lines| && !Contains(lines[i], needle)
    requires forall j :: 0 <= j < i ==> !Contains(lines[j], needle)
    ensures forall j :: 0 <= j < i + 1 ==> !Contains(lines[j], needle)
  {
  }

  /** The first line holding the needle is the one `LineOf` numbers. */
  lemma LineOfFirst(lines: seq<string>, needle: string, i: nat)
    requires i < |lines| && Contains(lines[i], needle)
    requires forall j :: 0 <= j < i ==> !Contains(lines[j], needle)
    ensures LineOf(lines, needle) == i + 1
  {
  }

  /** The line number `getLineNumber` gives a paragraph. */
  function LineNumber(content: string, p: Node): nat {
    var k := LineOf(Lines(content), OpenTag(NodeName(p), AttrsOf(p)));
    if k == 0 then 1 else k
  }

  // ---------------------------------------------------------------- paragraph font styles

  /** A property that styles text: one containing `font`, or `line-height`, `letter-spacing`,
      `text-align`. */
  predicate IsFontProperty(prop: string) {
    Contains(prop, "font") || prop == "line-height" || prop == "letter-spacing" || prop == "text-align"
  }

  /** The pattern `\.className(?![\w-])` matches the selector at position `k`: a dot, the class
      name, and then the end of the selector or a character that is neither a word character
      nor `-`. */
  predicate ClassAt(selector: string, className: string, k: nat) {
    var end := k + 1 + |className|;
    && end <= |selector|
    && selector[k] == '.'
    && selector[k + 1..end] == className
    && (end == |selector| || !(IsWordChar(selector[end]) || selector[end] == '-'))
  }

  /** `root.walkRules(pattern, …)` visits the rule. */
  predicate SelectsClass(selector: string, className: string) {
    exists k: nat :: k < |selector| && ClassAt(selector, className, k)
  }

  /** The context names the declaration, the paragraph's page and line, and where the
      declaration is defined. */
  function FontFinding(file: string, line: nat, className: string, d: Decl): Finding {
    Finding(file, line, ParagraphFontStyling(className),
      DeclText(d) + " (" + Location(file, line) + ") - defined in " + DeclLocation(d))
  }

  function FontPart(file: string, line: nat, className: string): Decl -> seq<Finding> {
    (d: Decl) => if IsFontProperty(d.prop) then [FontFinding(file, line, className, d)] else []
  }

  /** The `rule.walkDecls` of a rule the class selects. */
  function FontDeclFindings(file: string, line: nat, className: string, decls: seq<Decl>): seq<Finding> {
    FlatMap(decls, FontPart(file, line, className))
  }

  function ClassRulePart(file: string, line: nat, className: string): Rule -> seq<Finding> {
    (r: Rule) => if SelectsClass(r.selector, className) then FontDeclFindings(file, line, className, r.decls) else []
  }

  /** The rules the class selects, walked for text styling. */
  function ClassFontFindings(file: string, line: nat, className: string, rules: seq<Rule>): seq<Finding> {
    FlatMap(rules, ClassRulePart(file, line, className))
  }

  function ClassPart(file: string, line: nat, rules: seq<Rule>): string -> seq<Finding> {
    (c: string) => if c == "" then [] else ClassFontFindings(file, line, c, rules)
  }

  /** The `classes.forEach` of one paragraph; empty names are skipped. */
  function ClassesFontFindings(file: string, line: nat, classes: seq<string>, rules: seq<Rule>): seq<Finding> {
    FlatMap(classes, ClassPart(file, line, rules))
  }

  function ParagraphPart(file: string, content: string, rules: seq<Rule>): Node -> seq<Finding> {
    (p: Node) => ClassesFontFindings(file, LineNumber(content, p), ClassNames(p), rules)
  }

  /** Every finding `checkParagraphFontStyles` pushes for a page: its paragraphs in document
      order. */
  function PageFontFindings(file: string, content: string, doc: Node, rules: seq<Rule>): seq<Finding> {
    FlatMap(Paragraphs(doc), ParagraphPart(file, content, rules))
  }

  /** The `rule.walkDecls` of a rule one class name selects. */
  method CheckFontDecls(file: string, line: nat, className: string, decls: seq<Decl>) returns (found: seq<Finding>)
    ensures found == FontDeclFindings(file, line, className, decls)
  {
    found := [];
    for k := 0 to |decls|
      invariant found == FontDeclFindings(file, line, className, decls[..k])
    {
      var d := decls[k];
      FlatMapSnoc(decls, FontPart(file, line, className), k);
      if IsFontProperty(d.prop) {
        found := found + [FontFinding(file, line, className, d)];
      }
    }
    assert decls[..|decls|] == decls;
  }

  /** The rules one class name selects, each walked for text styling. */
  method CheckClassFont(file: string, line: nat, className: string, rules: seq<Rule>) returns (found: seq<Finding>)
    ensures found == ClassFontFindings(file, line, className, rules)
  {
    found := [];
    for i := 0 to |rules|
      invariant found == ClassFontFindings(file, line, className, rules[..i])
    {
      var r := rules[i];
      FlatMapSnoc(rules, ClassRulePart(file, line, className), i);
      if SelectsClass(r.selector, className) {
        var more := CheckFontDecls(file, line, className, r.decls);
        found := found + more;
      }
    }
    assert rules[..|rules|] == rules;
  }

  /** One paragraph: its line, then each of its non-empty class names. */
  method CheckParagraph(file: string, content: string, p: Node, rules: seq<Rule>) returns (found: seq<Finding>)
    ensures found == ClassesFontFindings(file, LineNumber(content, p), ClassNames(p), rules)
  {
    var classes := ClassNames(p);
    var line := GetLineNumber(content, p);
    found := [];
    for k := 0 to |classes|
      invariant found == ClassesFontFindings(file, line, classes[..k], rules)
    {
      FlatMapSnoc(classes, ClassPart(file, line, rules), k);
      if classes[k] != "" {
        var more := CheckClassFont(file, line, classes[k], rules);
        found := found + more;
      }
    }
    assert classes[..|classes|] == classes;
  }

  /** `checkParagraphFontStyles` on a parsed page against the combined stylesheet. */
  method CheckParagraphFontStyles(file: string, content: string, doc: Node, rules: seq<Rule>) returns (found: seq<Finding>)
    ensures found == PageFontFindings(file, content, doc, rules)
  {
    var ps := FindParagraphs(doc, []);
    assert ps == Paragraphs(doc);
    found := [];
    for i := 0 to |ps|
      invariant found == FlatMap(ps[..i], ParagraphPart(file, content, rules))
    {
      FlatMapSnoc(ps, ParagraphPart(file, content, rules), i);
      var more := CheckParagraph(file, content, ps[i], rules);
      found := found + more;
    }
    assert ps[..|ps|] == ps;
  }

  // ---------------------------------------------------------------- the checker

  /** What `validateSemanticStyles` returns (`allErrors`) and the blocks it logs. */
  datatype Outcome = Outcome(errors: seq<Finding>, lines: seq<OutLine>)

  predicate IsStyleName(name: string) {
    EndsWith(name, ".scss") || EndsWith(name, ".css")
  }

  function StyleEntries(entries: seq<Entry>): (r: seq<Entry>)
    ensures forall i :: 0 <= i < |r| ==> IsStyleName(r[i].name)
  {
    if entries == [] then []
    else StyleEntries(entries[..|entries| - 1])
         + (if IsStyleName(entries[|entries| - 1].name) then [entries[|entries| - 1]] else [])
  }

  function HtmlEntries(entries: seq<Entry>): (r: seq<Entry>)
    ensures forall i :: 0 <= i < |r| ==> EndsWith(r[i].name, ".html")
  {
    if entries == [] then []
    else HtmlEntries(entries[..|entries| - 1])
         + (if EndsWith(entries[|entries| - 1].name, ".html") then [entries[|entries| - 1]] else [])
  }

  predicate AllFiles(entries: seq<Entry>) {
    forall i :: 0 <= i < |entries| ==> entries[i].File?
  }

  function Contents(files: seq<Entry>): (r: seq<string>)
    requires AllFiles(files)
    ensures |r| == |files|
  {
    seq(|files|, i requires 0 <= i < |files| => files[i].content)
  }

  /** A stylesheet's findings: the display overrides, then the duplicate declarations. */
  function StyleFileErrors(path: string, rules: seq<Rule>): seq<Finding> {
    OverrideFindings(path, rules) + DuplicationFindings(path, rules)
  }

  /** The `fileErrorsMap` entry of a style file: its path under the styles directory and the
      findings about its rules. */
  function StyleFileEntry(file: Entry, rules: seq<Rule>): (string, seq<Finding>) {
    var path := JoinPath(StylesDir, file.name);
    (path, StyleFileErrors(path, rules))
  }

  /** Every style file parses. */
  predicate AllParse(files: seq<Entry>, parseCss: string -> Option<seq<Rule>>)
    requires AllFiles(files)
  {
    forall i :: 0 <= i < |files| ==> parseCss(files[i].content).Some?
  }

  /** The `fileErrorsMap` entry of a page: its name and its font findings. */
  function PageEntry(page: Entry, rules: seq<Rule>, parseHtml: string -> Node): (string, seq<Finding>)
    requires page.File?
  {
    (page.name, PageFontFindings(page.name, page.content, parseHtml(page.content), rules))
  }

  lemma AllFilesPrefix(files: seq<Entry>, i: nat)
    requires AllFiles(files) && i <= |files|
    ensures AllFiles(files[..i])
  {
    assert forall k :: 0 <= k < i ==> files[..i][k] == files[k];
  }

  /** `fileErrorsMap` in insertion order: the style files, then the pages. The style files'
      entries, or None when the parser throws on one of them (`postcss.parse` raises a syntax
      error on malformed input such as `a {`). */
  function StyleFilesErrors(files: seq<Entry>, parseCss: string -> Option<seq<Rule>>): (r: Option<seq<(string, seq<Finding>)>>)
    requires AllFiles(files)
    ensures r.Some? <==> AllParse(files, parseCss)
    ensures r.Some? ==> |r.value| == |files|
  {
    if files == [] then Some([])
    else
      var n := |files| - 1;
      AllFilesPrefix(files, n);
      var prev := StyleFilesErrors(files[..n], parseCss);
      assert AllParse(files, parseCss) <==> AllParse(files[..n], parseCss) && parseCss(files[n].content).Some? by {
        assert forall i :: 0 <= i < n ==> files[..n][i] == files[i];
      }
      match parseCss(files[n].content)
      case None => None
      case Some(rules) =>
        if prev.None? then None else Some(prev.value + [StyleFileEntry(files[n], rules)])
  }

  /** When every style file parses, the `i`-th entry is the `i`-th file's path and findings. */
  lemma {:induction false} StyleFilesErrorsAt(files: seq<Entry>, parseCss: string -> Option<seq<Rule>>, i: nat)
    requires AllFiles(files) && AllParse(files, parseCss) && i < |files|
    ensures StyleFilesErrors(files, parseCss).value[i] == StyleFileEntry(files[i], parseCss(files[i].content).value)
    decreases |files|
  {
    var n := |files| - 1;
    AllFilesPrefix(files, n);
    assert forall k :: 0 <= k < n ==> files[..n][k] == files[k];
    if i < n {
      StyleFilesErrorsAt(files[..n], parseCss, i);
    }
  }

  function PagesErrors(pages: seq<Entry>, rules: seq<Rule>, parseHtml: string -> Node): (r: seq<(string, seq<Finding>)>)
    requires AllFiles(pages)
    ensures |r| == |pages|
  {
    if pages == [] then []
    else
      AllFilesPrefix(pages, |pages| - 1);
      PagesErrors(pages[..|pages| - 1], rules, parseHtml) + [PageEntry(pages[|pages| - 1], rules, parseHtml)]
  }

  lemma StyleFilesErrorsSnoc(files: seq<Entry>, parseCss: string -> Option<seq<Rule>>, i: nat)
    requires AllFiles(files) && i < |files|
    ensures AllFiles(files[..i]) && AllFiles(files[..i + 1])
    ensures StyleFilesErrors(files[..i + 1], parseCss)
            == match parseCss(files[i].content)
               case None => None
               case Some(rules) =>
                 if StyleFilesErrors(files[..i], parseCss).None? then None
                 else Some(StyleFilesErrors(files[..i], parseCss).value + [StyleFileEntry(files[i], rules)])
  {
    AllFilesPrefix(files, i);
    AllFilesPrefix(files, i + 1);
    assert files[..i + 1][..i] == files[..i];
  }

  lemma PagesErrorsSnoc(pages: seq<Entry>, rules: seq<Rule>, parseHtml: string -> Node, i: nat)
    requires AllFiles(pages) && i < |pages|
    ensures AllFiles(pages[..i]) && AllFiles(pages[..i + 1])
    ensures PagesErrors(pages[..i + 1], rules, parseHtml) == PagesErrors(pages[..i], rules, parseHtml) + [PageEntry(pages[i], rules, parseHtml)]
  {
    AllFilesPrefix(pages, i);
    AllFilesPrefix(pages, i + 1);
    assert pages[..i + 1][..i] == pages[..i];
  }

  /** The closing loop: every file with findings is logged and its findings are appended. */
  function Logged(fileErrors: seq<(string, seq<Finding>)>): Outcome {
    if fileErrors == [] then Outcome([], [])
    else
      var prev := Logged(fileErrors[..|fileErrors| - 1]);
      var (path, errs) := fileErrors[|fileErrors| - 1];
      if |errs| > 0 then
        Outcome(prev.errors + errs, prev.lines + LogValidationErrors(path, "Semantic Styles", Some(errs)).lines)
      else prev
  }

  /** The result when a listing or a file cannot be read. */
  const FailedOutcome: Outcome := Outcome([Finding(StylesDir, 1, SemanticStylesFailed, "")], [])

  /** The pages' entries, each page checked against the joined stylesheets, which are parsed
      again for every page: None when there are pages and that parse throws. */
  function PagesFound(pages: seq<Entry>, styleContent: string, parseCss: string -> Option<seq<Rule>>,
                      parseHtml: string -> Node): (r: Option<seq<(string, seq<Finding>)>>)
    requires AllFiles(pages)
    ensures r.None? <==> pages != [] && parseCss(styleContent).None?
  {
    if pages == [] then Some([])
    else
      match parseCss(styleContent)
      case None => None
      case Some(rules) => Some(PagesErrors(pages, rules, parseHtml))
  }

  /** `validateSemanticStyles` on the listings of the styles and HTML directories (None when
      a listing cannot be read), with the stylesheet parser (None when it throws) and the HTML
      parser as parameters. Reading an entry that is a directory fails, and any failure gives
      the one failure finding, whatever was collected before it. */
  function SemanticStylesOutcome(styleListing: Option<seq<Entry>>, htmlListing: Option<seq<Entry>>,
                                 parseCss: string -> Option<seq<Rule>>, parseHtml: string -> Node): Outcome
  {
    if styleListing.None? || htmlListing.None? then FailedOutcome
    else
      var styles := StyleEntries(styleListing.value);
      var pages := HtmlEntries(htmlListing.value);
      if !AllFiles(styles) || !AllFiles(pages) then FailedOutcome
      else
        var styleErrors := StyleFilesErrors(styles, parseCss);
        var pageErrors := PagesFound(pages, Join(Contents(styles), "\n"), parseCss, parseHtml);
        if styleErrors.None? || pageErrors.None? then FailedOutcome
        else Logged(styleErrors.value + pageErrors.value)
  }

  /** The checker cannot finish: a listing cannot be read, a listed entry is a directory, a
      style file does not parse, or there are pages and the joined stylesheets do not parse. */
  predicate CannotFinish(styleListing: Option<seq<Entry>>, htmlListing: Option<seq<Entry>>,
                         parseCss: string -> Option<seq<Rule>>)
  {
    || styleListing.None? || htmlListing.None?
    || !AllFiles(StyleEntries(styleListing.value)) || !AllFiles(HtmlEntries(htmlListing.value))
    || !AllParse(StyleEntries(styleListing.value), parseCss)
    || (HtmlEntries(htmlListing.value) != []
        && parseCss(Join(Contents(StyleEntries(styleListing.value)), "\n")).None?)
  }

  /** The checker answers with the single failure finding exactly when it cannot finish: the
      findings gathered before a parser error are dropped, and a finished run never looks like
      a failed one. */
  lemma FailsExactlyWhenCannotFinish(styleListing: Option<seq<Entry>>, htmlListing: Option<seq<Entry>>,
                                     parseCss: string -> Option<seq<Rule>>, parseHtml: string -> Node)
    ensures SemanticStylesOutcome(styleListing, htmlListing, parseCss, parseHtml) == FailedOutcome
            <==> CannotFinish(styleListing, htmlListing, parseCss)
  {
    if !CannotFinish(styleListing, htmlListing, parseCss) {
      var styles := StyleEntries(styleListing.value);
      var pages := HtmlEntries(htmlListing.value);
      var styleErrors := StyleFilesErrors(styles, parseCss);
      var pageErrors := PagesFound(pages, Join(Contents(styles), "\n"), parseCss, parseHtml);
      LoggedIsAll(styleErrors.value + pageErrors.value);
    }
  }

  /** The loop over the style files: each parsed on its own and checked for overrides and
      duplicates. The first file the parser throws on ends the loop with None. */
  method CollectStyleErrors(styles: seq<Entry>, parseCss: string -> Option<seq<Rule>>)
    returns (fileErrors: Option<seq<(string, seq<Finding>)>>)
    requires AllFiles(styles)
    ensures fileErrors == StyleFilesErrors(styles, parseCss)
  {
    var collected := [];
    for i := 0 to |styles|
      invariant StyleFilesErrors(styles[..i], parseCss) == Some(collected)
    {
      StyleFilesErrorsSnoc(styles, parseCss, i);
      var path := JoinPath(StylesDir, styles[i].name);
      var parsed := parseCss(styles[i].content);
      if parsed.None? {
        StyleFilesErrorsStop(styles, parseCss, i);
        return None;
      }
      var overrides := CheckDefaultPropertyOverrides(path, parsed.value);
      var duplicates := CheckPropertyDuplications(path, parsed.value);
      collected := collected + [(path, overrides + duplicates)];
    }
    assert styles[..|styles|] == styles;
    return Some(collected);
  }

  /** A style file the parser throws on leaves the whole loop without entries. */
  lemma StyleFilesErrorsStop(files: seq<Entry>, parseCss: string -> Option<seq<Rule>>, i: nat)
    requires AllFiles(files) && i < |files| && parseCss(files[i].content).None?
    ensures StyleFilesErrors(files, parseCss).None?
  {
  }

  /** The loop over the pages, each checked against the joined stylesheets, parsed again for
      each page. The parser throwing on them ends the loop with None. */
  method CollectPageErrors(pages: seq<Entry>, styleContent: string, parseCss: string -> Option<seq<Rule>>,
                           parseHtml: string -> Node)
    returns (fileErrors: Option<seq<(string, seq<Finding>)>>)
    requires AllFiles(pages)
    ensures fileErrors == PagesFound(pages, styleContent, parseCss, parseHtml)
  {
    var collected := [];
    for i := 0 to |pages|
      invariant i > 0 ==> parseCss(styleContent).Some?
      invariant collected == if i == 0 then [] else PagesErrors(pages[..i], parseCss(styleContent).value, parseHtml)
    {
      var parsed := parseCss(styleContent);
      if parsed.None? {
        return None;
      }
      PagesErrorsSnoc(pages, parsed.value, parseHtml, i);
      var found := CheckParagraphFontStyles(pages[i].name, pages[i].content, parseHtml(pages[i].content), parsed.value);
      collected := collected + [(pages[i].name, found)];
    }
    assert pages[..|pages|] == pages;
    return Some(collected);
  }

  /** The closing loop over `fileErrors`. */
  method LogFiles(fileErrors: seq<(string, seq<Finding>)>) returns (out: Outcome)
    ensures out == Logged(fileErrors)
  {
    out := Outcome([], []);
    for i := 0 to |fileErrors|
      invariant out == Logged(fileErrors[..i])
    {
      var (path, errs) := fileErrors[i];
      if |errs| > 0 {
        var logged := LogValidationErrors(path, "Semantic Styles", Some(errs));
        out := Outcome(out.errors + errs, out.lines + logged.lines);
      }
      assert fileErrors[..i + 1][..i] == fileErrors[..i];
    }
    assert fileErrors[..|fileErrors|] == fileErrors;
  }

  /** `validateSemanticStyles`. */
  method ValidateSemanticStyles(styleListing: Option<seq<Entry>>, htmlListing: Option<seq<Entry>>,
                                parseCss: string -> Option<seq<Rule>>, parseHtml: string -> Node)
    returns (out: Outcome)
    ensures out == SemanticStylesOutcome(styleListing, htmlListing, parseCss, parseHtml)
    ensures out == FailedOutcome <==> CannotFinish(styleListing, htmlListing, parseCss)
  {
    FailsExactlyWhenCannotFinish(styleListing, htmlListing, parseCss, parseHtml);
    if styleListing.None? || htmlListing.None? {
      return FailedOutcome;
    }
    var styles := StyleEntries(styleListing.value);
    var pages := HtmlEntries(htmlListing.value);
    if exists i :: 0 <= i < |styles| && styles[i].Dir? {
      return FailedOutcome;
    }
    if exists i :: 0 <= i < |pages| && pages[i].Dir? {
      return FailedOutcome;
    }
    var styleErrors := CollectStyleErrors(styles, parseCss);
    if styleErrors.None? {
      return FailedOutcome;
    }
    var pageErrors := CollectPageErrors(pages, Join(Contents(styles), "\n"), parseCss, parseHtml);
    if pageErrors.None? {
      return FailedOutcome;
    }
    out := LogFiles(styleErrors.value + pageErrors.value);
  }

  // ---------------------------------------------------------------- properties

  /** The findings of one file, concatenated in the order of the files. */
  function Flatten(fileErrors: seq<(string, seq<Finding>)>): seq<Finding> {
    if fileErrors == [] then [] else Flatten(fileErrors[..|fileErrors| - 1]) + fileErrors[|fileErrors| - 1].1
  }

  /** The checker returns every finding of every file, in file order (files without findings
      are only left out of the log), and logs nothing exactly when it returns nothing. */
  lemma {:induction false} LoggedIsAll(fileErrors: seq<(string, seq<Finding>)>)
    ensures Logged(fileErrors).errors == Flatten(fileErrors)
    ensures Logged(fileErrors).lines == [] <==> Logged(fileErrors).errors == []
  {
    if fileErrors != [] {
      LoggedIsAll(fileErrors[..|fileErrors| - 1]);
      var (path, errs) := fileErrors[|fileErrors| - 1];
      if |errs| > 0 {
        assert |LogValidationErrors(path, "Semantic Styles", Some(errs)).lines| == |errs| + 4;
      }
    }
  }

  /** A `display` finding for an element and a declaration exists exactly when the declaration
      repeats that element's default. */
  lemma DisplayFound(file: string, element: string, decls: seq<Decl>, f: Finding)
    ensures f in DisplayFindings(file, element, decls)
            <==> exists d :: d in decls && IsDefaultDisplay(element, d) && f == DisplayFinding(file, element, d)
  {
    FlatMapFound(decls, DisplayPart(file, element), f);
  }

  lemma RuleOverrideFound(file: string, rule: Rule, f: Finding)
    ensures f in RuleOverrideFindings(file, rule)
            <==> exists e, d :: e in DefaultBlockElements && Targets(rule.selector, e) && d in rule.decls
                                && IsDefaultDisplay(e, d) && f == DisplayFinding(file, e, d)
  {
    FlatMapFound(DefaultBlockElements, ElementPart(file, rule), f);
    forall e | e in DefaultBlockElements {
      DisplayFound(file, e, rule.decls, f);
    }
  }

  /** A stylesheet gets a `display` finding for element `e` at a declaration exactly when a rule
      whose selector names `e` (one of the default-block elements) holds that declaration with
      `e`'s default value: one finding per matching element name. */
  lemma OverrideFound(file: string, rules: seq<Rule>, f: Finding)
    ensures f in OverrideFindings(file, rules)
            <==> exists r, e, d :: r in rules && e in DefaultBlockElements && Targets(r.selector, e)
                                   && d in r.decls && IsDefaultDisplay(e, d) && f == DisplayFinding(file, e, d)
  {
    FlatMapFound(rules, OverridePart(file), f);
    forall r | r in rules {
      RuleOverrideFound(file, r, f);
    }
  }

  /** Position `k`, before `j`, holds the last declaration of `p` before `j`. */
  predicate LastBefore(decls: seq<Decl>, p: string, k: int, j: int) {
    && 0 <= k < j <= |decls|
    && decls[k].prop == p
    && forall m :: k < m < j ==> decls[m].prop != p
  }

  /** Position `j` holds the most recent declaration before position `i` of the property
      declared at `i`. */
  predicate MostRecentBefore(decls: seq<Decl>, j: int, i: int) {
    0 <= i < |decls| && LastBefore(decls, decls[i].prop, j, i)
  }

  /** The declaration of the property declared at `i` nearest before position `j`, searching
      backwards. */
  function PreviousFrom(decls: seq<Decl>, i: nat, j: nat): Option<Decl>
    requires j <= i < |decls|
  {
    if j == 0 then None
    else if decls[j - 1].prop == decls[i].prop then Some(decls[j - 1])
    else PreviousFrom(decls, i, j - 1)
  }

  /** The previous declaration, in the same rule, of the property declared at `i`. */
  function Previous(decls: seq<Decl>, i: nat): Option<Decl>
    requires i < |decls|
  {
    PreviousFrom(decls, i, i)
  }

  lemma PreviousFromIs(decls: seq<Decl>, i: nat, j: nat)
    requires j <= i < |decls|
    ensures PreviousFrom(decls, i, j).None? <==> forall k :: 0 <= k < j ==> decls[k].prop != decls[i].prop
    ensures forall k :: LastBefore(decls, decls[i].prop, k, j) ==> PreviousFrom(decls, i, j) == Some(decls[k])
    ensures PreviousFrom(decls, i, j).Some? ==>
      exists k :: LastBefore(decls, decls[i].prop, k, j) && PreviousFrom(decls, i, j) == Some(decls[k])
  {
    PreviousFromNone(decls, i, j);
    PreviousFromLast(decls, i, j);
  }

  lemma {:induction false} PreviousFromNone(decls: seq<Decl>, i: nat, j: nat)
    requires j <= i < |decls|
    ensures PreviousFrom(decls, i, j).None? <==> forall k :: 0 <= k < j ==> decls[k].prop != decls[i].prop
  {
    if j > 0 {
      PreviousFromNone(decls, i, j - 1);
    }
  }

  lemma {:induction false} PreviousFromLast(decls: seq<Decl>, i: nat, j: nat)
    requires j <= i < |decls|
    ensures forall k :: LastBefore(decls, decls[i].prop, k, j) ==> PreviousFrom(decls, i, j) == Some(decls[k])
    ensures PreviousFrom(decls, i, j).Some? ==>
      exists k :: LastBefore(decls, decls[i].prop, k, j) && PreviousFrom(decls, i, j) == Some(decls[k])
  {
    var p := decls[i].prop;
    if j > 0 {
      PreviousFromLast(decls, i, j - 1);
      if decls[j - 1].prop == p {
        assert LastBefore(decls, p, j - 1, j);
        forall k | LastBefore(decls, p, k, j)
          ensures k == j - 1
        {
        }
      } else {
        LastBeforeSkip(decls, p, j);
      }
    }
  }

  /** A position not holding `p` is skipped over when looking back for `p`. */
  lemma LastBeforeSkip(decls: seq<Decl>, p: string, j: nat)
    requires 0 < j <= |decls| && decls[j - 1].prop != p
    ensures forall k :: LastBefore(decls, p, k, j) <==> LastBefore(decls, p, k, j - 1)
  {
    forall k | LastBefore(decls, p, k, j)
      ensures LastBefore(decls, p, k, j - 1)
    {
    }
    forall k | LastBefore(decls, p, k, j - 1)
      ensures LastBefore(decls, p, k, j)
    {
    }
  }

  /** The previous declaration is the most recent earlier declaration of the same property, and
      there is none exactly when the property was not declared earlier in the rule. */
  lemma PreviousIsMostRecent(decls: seq<Decl>, i: nat)
    requires i < |decls|
    ensures Previous(decls, i).None? <==> forall k :: 0 <= k < i ==> decls[k].prop != decls[i].prop
    ensures forall j :: MostRecentBefore(decls, j, i) ==> Previous(decls, i) == Some(decls[j])
    ensures Previous(decls, i).Some? ==>
      exists j :: MostRecentBefore(decls, j, i) && Previous(decls, i) == Some(decls[j])
  {
    PreviousFromIs(decls, i, i);
  }

  /** The `properties` map holds, for each property declared so far, its latest declaration. */
  lemma {:induction false} LatestIsLast(decls: seq<Decl>, p: string)
    ensures p in Latest(decls) <==> exists i :: 0 <= i < |decls| && decls[i].prop == p
    ensures p in Latest(decls) ==>
      exists i :: LastBefore(decls, p, i, |decls|) && Latest(decls)[p] == decls[i]
  {
    if decls != [] {
      var init := decls[..|decls| - 1];
      var n := |decls| - 1;
      LatestIsLast(init, p);
      if decls[n].prop != p && p in Latest(decls) {
        var i :| LastBefore(init, p, i, |init|) && Latest(init)[p] == init[i];
        assert decls[i] == init[i];
        assert forall k :: i < k < |decls| ==> decls[k].prop != p by {
          forall k | i < k < |decls|
            ensures decls[k].prop != p
          {
            if k < n {
              assert decls[k] == init[k];
            }
          }
        }
        assert LastBefore(decls, p, i, |decls|);
      }
      if decls[n].prop == p {
        assert LastBefore(decls, p, n, |decls|);
      }
      if exists i :: 0 <= i < |decls| && decls[i].prop == p {
        var i :| 0 <= i < |decls| && decls[i].prop == p;
        if i < n {
          assert init[i] == decls[i];
        }
      }
    }
  }

  /** What the `properties` map holds for the property declared at `n`, just before it, is the
      previous declaration of that property. */
  lemma LatestIsPrevious(decls: seq<Decl>, n: nat)
    requires n < |decls|
    ensures decls[n].prop in Latest(decls[..n]) <==> Previous(decls, n).Some?
    ensures decls[n].prop in Latest(decls[..n]) ==> Latest(decls[..n])[decls[n].prop] == Previous(decls, n).value
  {
    var init := decls[..n];
    var p := decls[n].prop;
    LatestIsLast(init, p);
    PreviousIsMostRecent(decls, n);
    if p in Latest(init) {
      var i :| LastBefore(init, p, i, |init|) && Latest(init)[p] == init[i];
      assert init[i] == decls[i];
      assert forall m :: i < m < n ==> init[m] == decls[m];
      assert MostRecentBefore(decls, i, n);
    }
    if Previous(decls, n).Some? {
      var j :| MostRecentBefore(decls, j, n) && Previous(decls, n) == Some(decls[j]);
      assert init[j] == decls[j];
    }
  }

  /** The verdict on the declaration at `i` against its previous declaration. */
  function Verdict(file: string, decls: seq<Decl>): nat -> seq<Finding> {
    (i: nat) => if i < |decls| && Previous(decls, i).Some? then DuplicateFindings(file, Previous(decls, i).value, decls[i]) else []
  }

  lemma {:induction false} RuleDuplicatesAreVerdicts(file: string, decls: seq<Decl>, k: nat)
    requires k <= |decls|
    ensures RuleDuplicateFindings(file, decls[..k]) == FlatMapUpTo(k, Verdict(file, decls))
  {
    if k > 0 {
      RuleDuplicatesAreVerdicts(file, decls, k - 1);
      assert decls[..k][..k - 1] == decls[..k - 1];
      LatestIsPrevious(decls, k - 1);
    }
  }

  /** A declaration is flagged exactly when the property was declared before in the rule and
      the most recent such declaration has the identical value (a "duplicate" finding) or, for
      a shorthand property, a partly overlapping one (an "overlapping" finding). */
  lemma RuleDuplicatesFound(file: string, decls: seq<Decl>, f: Finding)
    ensures f in RuleDuplicateFindings(file, decls)
            <==> exists i :: 0 <= i < |decls| && Previous(decls, i).Some?
                             && f in DuplicateFindings(file, Previous(decls, i).value, decls[i])
  {
    RuleDuplicatesAreVerdicts(file, decls, |decls|);
    assert decls[..|decls|] == decls;
    FlatMapUpToFound(|decls|, Verdict(file, decls), f);
    forall i | 0 <= i < |decls|
      ensures f in Verdict(file, decls)(i)
              <==> Previous(decls, i).Some? && f in DuplicateFindings(file, Previous(decls, i).value, decls[i])
    {
    }
  }

  /** Rules whose selector has a `:` give no duplicate findings; every other rule is checked on
      its own. */
  lemma DuplicationFound(file: string, rules: seq<Rule>, f: Finding)
    ensures f in DuplicationFindings(file, rules)
            <==> exists r :: r in rules && !Contains(r.selector, ":") && f in RuleDuplicateFindings(file, r.decls)
  {
    FlatMapFound(rules, DuplicationPart(file), f);
  }

  lemma FontDeclFound(file: string, line: nat, className: string, decls: seq<Decl>, f: Finding)
    ensures f in FontDeclFindings(file, line, className, decls)
            <==> exists d :: d in decls && IsFontProperty(d.prop) && f == FontFinding(file, line, className, d)
  {
    FlatMapFound(decls, FontPart(file, line, className), f);
  }

  /** For a paragraph's class name, each text-styling declaration of each rule the class
      selects gives a finding, and nothing else does. */
  lemma ClassFontFound(file: string, line: nat, className: string, rules: seq<Rule>, f: Finding)
    ensures f in ClassFontFindings(file, line, className, rules)
            <==> exists r, d :: r in rules && SelectsClass(r.selector, className) && d in r.decls
                                && IsFontProperty(d.prop) && f == FontFinding(file, line, className, d)
  {
    FlatMapFound(rules, ClassRulePart(file, line, className), f);
    forall r | r in rules {
      FontDeclFound(file, line, className, r.decls, f);
    }
  }

  lemma ClassesFontFound(file: string, line: nat, classes: seq<string>, rules: seq<Rule>, f: Finding)
    ensures f in ClassesFontFindings(file, line, classes, rules)
            <==> exists c, r, d :: c in classes && c != "" && r in rules && SelectsClass(r.selector, c)
                                   && d in r.decls && IsFontProperty(d.prop) && f == FontFinding(file, line, c, d)
  {
    FlatMapFound(classes, ClassPart(file, line, rules), f);
    forall c | c in classes {
      ClassFontFound(file, line, c, rules, f);
    }
  }

  /** A page gets a font finding exactly for each paragraph, each non-empty class name of it,
      each rule whose selector selects that class and each text-styling declaration of that
      rule, reported at the paragraph's line. */
  lemma PageFontFound(file: string, content: string, doc: Node, rules: seq<Rule>, f: Finding)
    ensures f in PageFontFindings(file, content, doc, rules)
            <==> exists p, c, r, d :: p in Paragraphs(doc) && c in ClassNames(p) && c != "" && r in rules
                                      && SelectsClass(r.selector, c) && d in r.decls && IsFontProperty(d.prop)
                                      && f == FontFinding(file, LineNumber(content, p), c, d)
  {
    if f in PageFontFindings(file, content, doc, rules) {
      PageFontSound(file, content, doc, rules, f);
    }
    if exists p, c, r, d :: p in Paragraphs(doc) && c in ClassNames(p) && c != "" && r in rules
                            && SelectsClass(r.selector, c) && d in r.decls && IsFontProperty(d.prop)
                            && f == FontFinding(file, LineNumber(content, p), c, d) {
      var p, c, r, d :| p in Paragraphs(doc) && c in ClassNames(p) && c != "" && r in rules
                        && SelectsClass(r.selector, c) && d in r.decls && IsFontProperty(d.prop)
                        && f == FontFinding(file, LineNumber(content, p), c, d);
      PageFontComplete(file, content, doc, rules, p, c, r, d);
    }
  }

  lemma PageFontSound(file: string, content: string, doc: Node, rules: seq<Rule>, f: Finding)
    requires f in PageFontFindings(file, content, doc, rules)
    ensures exists p, c, r, d :: p in Paragraphs(doc) && c in ClassNames(p) && c != "" && r in rules
                                 && SelectsClass(r.selector, c) && d in r.decls && IsFontProperty(d.prop)
                                 && f == FontFinding(file, LineNumber(content, p), c, d)
  {
    FlatMapMember(Paragraphs(doc), ParagraphPart(file, content, rules), f);
    var p :| p in Paragraphs(doc) && f in ParagraphPart(file, content, rules)(p);
    ClassesFontFound(file, LineNumber(content, p), ClassNames(p), rules, f);
    var c, r, d :| c in ClassNames(p) && c != "" && r in rules && SelectsClass(r.selector, c)
                   && d in r.decls && IsFontProperty(d.prop) && f == FontFinding(file, LineNumber(content, p), c, d);
  }

  lemma PageFontComplete(file: string, content: string, doc: Node, rules: seq<Rule>, p: Node, c: string, r: Rule, d: Decl)
    requires p in Paragraphs(doc) && c in ClassNames(p) && c != "" && r in rules
    requires SelectsClass(r.selector, c) && d in r.decls && IsFontProperty(d.prop)
    ensures FontFinding(file, LineNumber(content, p), c, d) in PageFontFindings(file, content, doc, rules)
  {
    var f := FontFinding(file, LineNumber(content, p), c, d);
    ClassesFontFound(file, LineNumber(content, p), ClassNames(p), rules, f);
    assert f in ParagraphPart(file, content, rules)(p);
    FlatMapMember(Paragraphs(doc), ParagraphPart(file, content, rules), f);
  }
}
