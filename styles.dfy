/** The stylesheet checker (utils/validate/styles.js): every `.css`/`.scss` file of the styles
    directory except normalize sheets gets the stylelint and autoprefixer warnings, a per-line
    check that `font-size`, `margin` and `padding` use the unit the first `font-size` of the
    file established, and contributes its colour literals to a table shared by all files;
    every colour used more than once is then reported once, at its first use. The linters are
    parameters of the model. */
module Styles {
  import opened Wrappers
  import opened Text
  import opened Findings
  import opened Project

  // ---------------------------------------------------------------- the files checked

  /** A style file that is checked: `.css` or `.scss`, and not a normalize sheet. */
  predicate IsCheckedStyle(name: string) {
    (EndsWith(name, ".css") || EndsWith(name, ".scss")) && !Contains(name, "normalize")
  }

  /** The checked style files of the styles-directory listing, read as text, in listing order;
      None when one of them is a directory, which makes reading it fail. */
  function StylePages(listing: seq<Entry>): (r: Option<seq<Page>>)
    ensures r.Some? ==> |r.value| <= |listing|
  {
    if listing == [] then Some([])
    else
      var rest := StylePages(listing[..|listing| - 1]);
      var e := listing[|listing| - 1];
      if !IsCheckedStyle(e.name) then rest
      else if e.Dir? || rest.None? then None
      else Some(rest.value + [Page(e.name, e.content)])
  }

  /** The files are read exactly when every entry the filter keeps is a file, and then they are
      exactly the kept entries. */
  lemma StylePagesAre(listing: seq<Entry>, p: Page)
    ensures StylePages(listing).Some?
            <==> forall i :: 0 <= i < |listing| && IsCheckedStyle(listing[i].name) ==> listing[i].File?
    ensures StylePages(listing).Some? ==>
      (p in StylePages(listing).value
       <==> exists i :: 0 <= i < |listing| && IsCheckedStyle(listing[i].name)
                        && p == Page(listing[i].name, listing[i].content))
  {
    StylePagesRead(listing);
    if StylePages(listing).Some? {
      StylePagesMember(listing, p);
    }
  }

  lemma {:induction false} StylePagesRead(listing: seq<Entry>)
    ensures StylePages(listing).Some?
            <==> forall i :: 0 <= i < |listing| && IsCheckedStyle(listing[i].name) ==> listing[i].File?
  {
    if listing != [] {
      var n := |listing| - 1;
      var init := listing[..n];
      StylePagesRead(init);
      assert forall i :: 0 <= i < n ==> init[i] == listing[i];
    }
  }

  lemma {:induction false} StylePagesMember(listing: seq<Entry>, p: Page)
    requires StylePages(listing).Some?
    requires forall i :: 0 <= i < |listing| && IsCheckedStyle(listing[i].name) ==> listing[i].File?
    ensures p in StylePages(listing).value
            <==> exists i :: 0 <= i < |listing| && IsCheckedStyle(listing[i].name)
                             && p == Page(listing[i].name, listing[i].content)
  {
    if listing != [] {
      var n := |listing| - 1;
      var init := listing[..n];
      assert forall i :: 0 <= i < n ==> init[i] == listing[i];
      StylePagesMember(init, p);
    }
  }

  // ---------------------------------------------------------------- the patterns

  predicate IsHexDigit(c: char) {
    IsDigit(c) || ('a' <= c <= 'f') || ('A' <= c <= 'F')
  }

  /** `[0-9.]`. */
  predicate IsNumberChar(c: char) {
    IsDigit(c) || c == '.'
  }

  predicate IsNotCloseParen(c: char) { c != ')' }

  predicate IsNotColon(c: char) { c != ':' }

  predicate IsNotSemicolon(c: char) { c != ';' }

  predicate StartsAt(line: string, i: nat, p: string) {
    i + |p| <= |line| && line[i..i + |p|] == p
  }

  /** The end of the longest run of characters satisfying `p` from position `i`: what a greedy
      `[…]*` takes there. */
  function RunEnd(line: string, i: nat, p: char -> bool): (j: nat)
    requires i <= |line|
    ensures i <= j <= |line|
    ensures forall k :: i <= k < j ==> p(line[k])
    ensures j == |line| || !p(line[j])
    decreases |line| - i
  {
    if i < |line| && p(line[i]) then RunEnd(line, i + 1, p) else i
  }

  /** `\s*` from `i`. */
  function SkipSpaces(line: string, i: nat): (j: nat)
    requires i <= |line|
    ensures i <= j <= |line|
  {
    RunEnd(line, i, IsSpace)
  }

  /** A `#` and three to eight hex digits. */
  predicate IsHexColor(c: string) {
    4 <= |c| <= 9 && c[0] == '#' && forall k :: 1 <= k < |c| ==> IsHexDigit(c[k])
  }

  /** `rgb`, `rgba`, `hsl` or `hsla`, then `(`, at least one character other than `)`, and `)`. */
  predicate IsFunctionColor(c: string) {
    var open := if |c| > 3 && c[3] == 'a' then 4 else 3;
    && (StartsWith(c, "rgb") || StartsWith(c, "hsl"))
    && open + 2 < |c|
    && c[open] == '('
    && c[|c| - 1] == ')'
    && forall k :: open < k < |c| - 1 ==> c[k] != ')'
  }

  predicate IsColorLiteral(c: string) {
    IsHexColor(c) || IsFunctionColor(c)
  }

  /** `[^)]+\)` after the `(` at `open`: the end of the match. */
  function ParenEnd(line: string, open: nat): (r: Option<nat>)
    requires open < |line|
    ensures r.Some? ==> open + 2 < r.value <= |line| && line[r.value - 1] == ')'
    ensures r.Some? ==> forall k :: open < k < r.value - 1 ==> line[k] != ')'
  {
    var close := RunEnd(line, open + 1, IsNotCloseParen);
    if close == open + 1 || close == |line| then None else Some(close + 1)
  }

  /** Where the colour alternatives `#[0-9a-fA-F]{3,8}`, `rgba?\([^)]+\)` and `hsla?\([^)]+\)`
      take a literal that starts at `j` to end, when one of them matches there. */
  function ColorEnd(line: string, j: nat): (r: Option<nat>)
    requires j <= |line|
    ensures r.Some? ==> j < r.value <= |line| && IsColorLiteral(line[j..r.value])
  {
    if j == |line| then None
    else if line[j] == '#' then
      var h := RunEnd(line, j + 1, IsHexDigit) - (j + 1);
      if h < 3 then None
      else
        var e := j + 1 + (if h < 8 then h else 8);
        assert forall k :: 1 <= k < e - j ==> line[j..e][k] == line[j + k];
        Some(e)
    else if StartsAt(line, j, "rgb") || StartsAt(line, j, "hsl") then
      var open := if j + 3 < |line| && line[j + 3] == 'a' then j + 4 else j + 3;
      if open < |line| && line[open] == '(' then
        var r := ParenEnd(line, open);
        if r.Some? then
          FunctionColorIs(line, j, open, r.value);
          r
        else None
      else None
    else None
  }

  lemma FunctionColorIs(line: string, j: nat, open: nat, e: nat)
    requires StartsAt(line, j, "rgb") || StartsAt(line, j, "hsl")
    requires open == if j + 3 < |line| && line[j + 3] == 'a' then j + 4 else j + 3
    requires open < |line| && line[open] == '('
    requires open + 2 < e <= |line| && line[e - 1] == ')'
    requires forall k :: open < k < e - 1 ==> line[k] != ')'
    ensures IsFunctionColor(line[j..e])
  {
    var c := line[j..e];
    assert forall k :: 0 <= k < |c| ==> c[k] == line[j + k];
    assert c[..3] == line[j..j + 3] by {
      assert forall k :: 0 <= k < 3 ==> c[..3][k] == line[j..j + 3][k];
    }
  }

  /** The colours of `line.match(/:\s*(…)/g)` with the `:` and the spaces removed: the scan
      from position `i`, which resumes after each match. */
  function ColorsFrom(line: string, i: nat): (r: seq<string>)
    requires i <= |line|
    ensures forall k :: 0 <= k < |r| ==> IsColorLiteral(r[k])
    decreases |line| - i
  {
    if i == |line| then []
    else if line[i] == ':' then
      var j := SkipSpaces(line, i + 1);
      match ColorEnd(line, j)
      case Some(e) => [line[j..e]] + ColorsFrom(line, e)
      case None => ColorsFrom(line, i + 1)
    else ColorsFrom(line, i + 1)
  }

  /** The colour literals of a line, in order. */
  function ColorMatches(line: string): seq<string> {
    ColorsFrom(line, 0)
  }

  const FontUnits: seq<string> := ["px", "em", "rem"]

  /** `font-size:\s*([0-9.]+)(px|em|rem)` at position `i`: its unit. */
  function FontSizeAt(line: string, i: nat): (r: Option<string>)
    requires i <= |line|
    ensures r.Some? ==> StartsAt(line, i, "font-size:") && r.value in FontUnits
  {
    if !StartsAt(line, i, "font-size:") then None
    else
      var j := SkipSpaces(line, i + 10);
      var u := RunEnd(line, j, IsNumberChar);
      if u == j then None
      else if StartsAt(line, u, "px") then Some("px")
      else if StartsAt(line, u, "em") then Some("em")
      else if StartsAt(line, u, "rem") then Some("rem")
      else None
  }

  /** The leftmost position from `i` where the `font-size` pattern matches. */
  function FontSizeMatchFrom(line: string, i: nat): (r: Option<nat>)
    requires i <= |line|
    ensures r.Some? ==> i <= r.value <= |line| && FontSizeAt(line, r.value).Some?
    ensures r.Some? ==> forall m :: i <= m < r.value ==> FontSizeAt(line, m).None?
    ensures r.None? ==> forall m :: i <= m <= |line| ==> FontSizeAt(line, m).None?
    decreases |line| - i
  {
    if FontSizeAt(line, i).Some? then Some(i)
    else if i == |line| then None
    else FontSizeMatchFrom(line, i + 1)
  }

  /** `line.match(/font-size:\s*([0-9.]+)(px|em|rem)/)`: the unit of the leftmost match, when
      the line sets a size in one of the three units. */
  function FontSizeUnit(line: string): (r: Option<string>)
    ensures r.Some? ==> r.value in FontUnits
  {
    match FontSizeMatchFrom(line, 0)
    case None => None
    case Some(k) => FontSizeAt(line, k)
  }

  /** A `[0-9.]` character at `p` followed by a letter `[a-z]`. */
  predicate UnitBoundary(line: string, p: nat) {
    p + 1 < |line| && IsNumberChar(line[p]) && IsLowerLetter(line[p + 1])
  }

  /** The last unit boundary `p` with `lo <= p` and `p + 1 < hi`: where `[^;]*[0-9.]+([a-z]+)`
      leaves its digits once `[^;]*` has given back as little as it can. */
  function LastBoundary(line: string, lo: nat, hi: nat): (r: Option<nat>)
    requires lo <= hi <= |line|
    ensures r.Some? ==> lo <= r.value && r.value + 1 < hi && UnitBoundary(line, r.value)
    ensures r.Some? ==> forall p :: r.value < p && p + 1 < hi ==> !UnitBoundary(line, p)
    ensures r.None? ==> forall p :: lo <= p && p + 1 < hi ==> !UnitBoundary(line, p)
    decreases hi
  {
    if hi < lo + 2 then None
    else if UnitBoundary(line, hi - 2) then Some(hi - 2)
    else LastBoundary(line, lo, hi - 1)
  }

  /** A run of lower-case letters, as `[a-z]+` captures. */
  predicate LowerLetters(s: string) {
    forall k :: 0 <= k < |s| ==> IsLowerLetter(s[k])
  }

  /** `kw[^:]*:\s*[^;]*[0-9.]+([a-z]+)` at position `i`: the letters after the last number of
      the value that runs from the first `:` after `kw` to the first `;` after it. */
  function BoxUnitAt(line: string, kw: string, i: nat): (r: Option<string>)
    requires i <= |line|
    ensures r.Some? ==> StartsAt(line, i, kw) && r.value != []
    ensures r.Some? ==> LowerLetters(r.value)
  {
    if !StartsAt(line, i, kw) then None
    else
      var colon := RunEnd(line, i + |kw|, IsNotColon);
      if colon == |line| then None
      else
        var end := RunEnd(line, colon + 1, IsNotSemicolon);
        match LastBoundary(line, colon + 1, end)
        case None => None
        case Some(p) =>
          var stop := RunEnd(line, p + 1, IsLowerLetter);
          var unit := line[p + 1..stop];
          assert forall k :: 0 <= k < |unit| ==> unit[k] == line[p + 1 + k];
          Some(unit)
  }

  /** The leftmost position from `i` where the `kw` pattern matches. */
  function BoxMatchFrom(line: string, kw: string, i: nat): (r: Option<nat>)
    requires i <= |line|
    ensures r.Some? ==> i <= r.value <= |line| && BoxUnitAt(line, kw, r.value).Some?
    ensures r.Some? ==> forall m :: i <= m < r.value ==> BoxUnitAt(line, kw, m).None?
    ensures r.None? ==> forall m :: i <= m <= |line| ==> BoxUnitAt(line, kw, m).None?
    decreases |line| - i
  {
    if BoxUnitAt(line, kw, i).Some? then Some(i)
    else if i == |line| then None
    else BoxMatchFrom(line, kw, i + 1)
  }

  /** `line.match(/margin[^:]*:\s*[^;]*[0-9.]+([a-z]+)/)` (and the same with `padding`): the
      unit group, a non-empty run of letters. */
  function BoxUnit(line: string, kw: string): (r: Option<string>)
    ensures r.Some? ==> r.value != [] && LowerLetters(r.value)
  {
    match BoxMatchFrom(line, kw, 0)
    case None => None
    case Some(k) => BoxUnitAt(line, kw, k)
  }

  // ---------------------------------------------------------------- units, per file

  /** `currentUnitType` after one more line: set by the first `font-size` match, then kept. */
  function Step(current: Option<string>, line: string): Option<string> {
    if current.None? then FontSizeUnit(line) else current
  }

  /** `currentUnitType` after `lines` (None is the source's `null`). */
  function Established(lines: seq<string>): Option<string> {
    if lines == [] then None
    else Step(Established(lines[..|lines| - 1]), lines[|lines| - 1])
  }

  /** A `font-size` whose unit differs from the established one. */
  function FontLineFindings(path: string, n: nat, before: Option<string>, line: string): seq<Finding> {
    var u := FontSizeUnit(line);
    if u.Some? && before.Some? && u.value != before.value
    then [Finding(path, n, InconsistentFontUnits(before.value, u.value), Trim(line))]
    else []
  }

  /** A margin unit that differs from the established one, also when none is established. */
  function MarginFindings(path: string, n: nat, current: Option<string>, line: string): seq<Finding> {
    var u := BoxUnit(line, "margin");
    if u.Some? && u != current then [Finding(path, n, MarginUnit(u.value, current), Trim(line))] else []
  }

  function PaddingFindings(path: string, n: nat, current: Option<string>, line: string): seq<Finding> {
    var u := BoxUnit(line, "padding");
    if u.Some? && u != current then [Finding(path, n, PaddingUnit(u.value, current), Trim(line))] else []
  }

  /** The unit findings of line `n` (counted from 1), given the unit established before it;
      margin and padding are compared with the unit as this line's `font-size` leaves it. */
  function LineFindings(path: string, n: nat, before: Option<string>, line: string): seq<Finding> {
    FontLineFindings(path, n, before, line)
    + MarginFindings(path, n, Step(before, line), line)
    + PaddingFindings(path, n, Step(before, line), line)
  }

  /** The unit findings of a file, line by line. */
  function FileUnitFindings(path: string, lines: seq<string>): seq<Finding> {
    if lines == [] then []
    else
      var init := lines[..|lines| - 1];
      FileUnitFindings(path, init) + LineFindings(path, |lines|, Established(init), lines[|lines| - 1])
  }

  // ---------------------------------------------------------------- colours

  /** A line that mentions `var(` or `$` records none of its colours. */
  predicate UsesVariables(line: string) {
    Contains(line, "var(") || Contains(line, "$")
  }

  function UsePart(use: ColorUse): string -> seq<(string, ColorUse)> {
    (c: string) => [(Lower(c), use)]
  }

  /** The colours line `n` records, lower-cased, each with the use. */
  function LineColorUses(path: string, n: nat, line: string): seq<(string, ColorUse)> {
    if UsesVariables(line) then [] else FlatMap(ColorMatches(line), UsePart(ColorUse(path, n, Trim(line))))
  }

  function FileColorUses(path: string, lines: seq<string>): seq<(string, ColorUse)> {
    if lines == [] then []
    else FileColorUses(path, lines[..|lines| - 1]) + LineColorUses(path, |lines|, lines[|lines| - 1])
  }

  /** `colorUsage`: the colours in insertion order and the uses of each, in order. */
  datatype ColorTable = ColorTable(order: seq<string>, uses: map<string, seq<ColorUse>>)

  const NoColors: ColorTable := ColorTable([], map[])

  /** One use recorded: a new colour starts its list and joins the order. */
  function Record(t: ColorTable, color: string, use: ColorUse): ColorTable {
    if color in t.uses then ColorTable(t.order, t.uses[color := t.uses[color] + [use]])
    else ColorTable(t.order + [color], t.uses[color := [use]])
  }

  function RecordAll(t: ColorTable, us: seq<(string, ColorUse)>): ColorTable {
    if us == [] then t else Record(RecordAll(t, us[..|us| - 1]), us[|us| - 1].0, us[|us| - 1].1)
  }

  lemma {:induction false} RecordAllAppend(t: ColorTable, a: seq<(string, ColorUse)>, b: seq<(string, ColorUse)>)
    ensures RecordAll(t, a + b) == RecordAll(RecordAll(t, a), b)
  {
    if b == [] {
      assert a + b == a;
    } else {
      assert (a + b)[..|a + b| - 1] == a + b[..|b| - 1];
      RecordAllAppend(t, a, b[..|b| - 1]);
    }
  }

  /** The uses of `color` among `us`, in order. */
  function UsesOf(us: seq<(string, ColorUse)>, color: string): seq<ColorUse> {
    if us == [] then []
    else UsesOf(us[..|us| - 1], color) + (if us[|us| - 1].0 == color then [us[|us| - 1].1] else [])
  }

  /** The file name of a path: what follows its last `/`. */
  function Basename(path: string): string {
    var parts := Split(path, '/');
    parts[|parts| - 1]
  }

  /** One line of the "Other usages" list. */
  function OtherUsage(u: ColorUse): string {
    "  • " + Basename(u.file) + ":" + DecimalText(u.line) + ": " + u.context
  }

  function OtherUsages(others: seq<ColorUse>): (r: seq<string>)
    ensures |r| == |others|
  {
    seq(|others|, i requires 0 <= i < |others| => OtherUsage(others[i]))
  }

  /** The finding for a colour used more than once: at its first use, naming the others. */
  function DuplicateFinding(color: string, usages: seq<ColorUse>): Finding
    requires |usages| > 1
  {
    var first := usages[0];
    Finding(first.file, first.line, DuplicateColor(color, usages[1..]),
            "First usage: " + first.context + "\nOther usages:\n" + Join(OtherUsages(usages[1..]), "\n"))
  }

  function ColorPart(t: ColorTable): string -> seq<Finding> {
    (c: string) => if c in t.uses && |t.uses[c]| > 1 then [DuplicateFinding(c, t.uses[c])] else []
  }

  /** The loop over `colorUsage`: one finding per colour used more than once. */
  function ColorFindings(t: ColorTable): seq<Finding> {
    FlatMap(t.order, ColorPart(t))
  }

  // ---------------------------------------------------------------- files

  /** A stylelint or autoprefixer warning: its line (0 when it has none) and its text. */
  datatype Warning = Warning(line: nat, text: string)

  /** A stylelint warning, with the source line it names as context when there is one. */
  function LintFinding(path: string, lines: seq<string>, w: Warning): Finding {
    Finding(path, w.line, LintWarning(w.text), if 1 <= w.line <= |lines| then lines[w.line - 1] else "")
  }

  function LintPart(path: string, lines: seq<string>): Warning -> seq<Finding> {
    (w: Warning) => [LintFinding(path, lines, w)]
  }

  /** An autoprefixer warning, at line 1 when it has none. */
  function PrefixPart(path: string): Warning -> seq<Finding> {
    (w: Warning) => [Finding(path, if w.line == 0 then 1 else w.line, PrefixWarning(w.text), "")]
  }

  /** Autoprefixer's warnings, or the one finding for a run that throws (None). */
  function PrefixFindings(path: string, result: Option<seq<Warning>>): seq<Finding> {
    match result
    case None => [Finding(path, 1, VendorPrefixError, "")]
    case Some(ws) => FlatMap(ws, PrefixPart(path))
  }

  /** `path.join(STYLES_DIR, file)`. */
  function StylePath(p: Page): string {
    JoinPath(StylesDir, p.name)
  }

  /** The findings of one style file in the order they are added: stylelint, autoprefixer,
      then the unit checks line by line. */
  function FileFindings(p: Page, lint: string -> seq<Warning>, prefix: string -> Option<seq<Warning>>): seq<Finding> {
    var path := StylePath(p);
    var lines := Lines(p.content);
    FlatMap(lint(p.content), LintPart(path, lines)) + PrefixFindings(path, prefix(p.content)) + FileUnitFindings(path, lines)
  }

  function FilePart(lint: string -> seq<Warning>, prefix: string -> Option<seq<Warning>>): Page -> seq<Finding> {
    (p: Page) => FileFindings(p, lint, prefix)
  }

  function PageColorUses(p: Page): seq<(string, ColorUse)> {
    FileColorUses(StylePath(p), Lines(p.content))
  }

  /** Everything `validateStyles` adds, in order: each file's findings, then the colours. */
  function StylesLog(files: seq<Page>, lint: string -> seq<Warning>, prefix: string -> Option<seq<Warning>>): seq<Finding> {
    FlatMap(files, FilePart(lint, prefix)) + ColorFindings(RecordAll(NoColors, FlatMap(files, PageColorUses)))
  }

  /** The output of `validateStyles` on the working directory, with stylelint and autoprefixer
      as parameters: the report of its findings, or the failure line when the styles directory
      or one of its style files cannot be read. */
  function StylesOutput(root: seq<Entry>, lint: string -> seq<Warning>, prefix: string -> Option<seq<Warning>>): seq<OutLine> {
    match ListDir(root, StylesDir)
    case None => [Failed("styles")]
    case Some(listing) =>
      match StylePages(listing)
      case None => [Failed("styles")]
      case Some(files) => Report(StylesLog(files, lint, prefix))
  }

  // ---------------------------------------------------------------- properties

  /** Line `i` is the first line with a `font-size` in px, em or rem. */
  predicate FirstFontLine(lines: seq<string>, i: nat) {
    i < |lines| && FontSizeUnit(lines[i]).Some?
    && forall j :: 0 <= j < i ==> FontSizeUnit(lines[j]).None?
  }

  /** The unit is unset until the first `font-size` line and is that line's unit afterwards. */
  lemma {:induction false} EstablishedIsFirst(lines: seq<string>)
    ensures Established(lines).None? <==> forall i :: 0 <= i < |lines| ==> FontSizeUnit(lines[i]).None?
    ensures forall i: nat :: FirstFontLine(lines, i) ==> Established(lines) == FontSizeUnit(lines[i])
  {
    if lines != [] {
      var init := lines[..|lines| - 1];
      var last := lines[|lines| - 1];
      EstablishedIsFirst(init);
      assert Established(lines) == Step(Established(init), last);
      assert forall j :: 0 <= j < |init| ==> init[j] == lines[j];
      forall i: nat | FirstFontLine(lines, i)
        ensures Established(lines) == FontSizeUnit(lines[i])
      {
        if i < |init| {
          assert FirstFontLine(init, i);
        }
      }
    }
  }

  /** Once established, the unit never changes. */
  lemma {:induction false} EstablishedStable(a: seq<string>, b: seq<string>)
    requires Established(a).Some?
    ensures Established(a + b) == Established(a)
  {
    if b == [] {
      assert a + b == a;
    } else {
      assert (a + b)[..|a + b| - 1] == a + b[..|b| - 1];
      EstablishedStable(a, b[..|b| - 1]);
    }
  }

  lemma EstablishedSnoc(lines: seq<string>, k: nat)
    requires k < |lines|
    ensures Established(lines[..k + 1]) == Step(Established(lines[..k]), lines[k])
  {
    assert lines[..k + 1][..k] == lines[..k];
  }

  /** The findings of line `i + 1` (nothing past the end). */
  function UnitVerdict(path: string, lines: seq<string>): nat -> seq<Finding> {
    (i: nat) => if i < |lines| then LineFindings(path, i + 1, Established(lines[..i]), lines[i]) else []
  }

  lemma {:induction false} FileUnitsAreVerdicts(path: string, lines: seq<string>, k: nat)
    requires k <= |lines|
    ensures FileUnitFindings(path, lines[..k]) == FlatMapUpTo(k, UnitVerdict(path, lines))
  {
    if k > 0 {
      FileUnitsAreVerdicts(path, lines, k - 1);
      assert lines[..k][..k - 1] == lines[..k - 1];
    }
  }

  lemma InconsistentInLine(path: string, n: nat, before: Option<string>, line: string,
                            file: string, m: nat, a: string, b: string, context: string)
    ensures Finding(file, m, InconsistentFontUnits(a, b), context) in LineFindings(path, n, before, line)
            <==> file == path && m == n && before == Some(a) && FontSizeUnit(line) == Some(b) && a != b
                 && context == Trim(line)
  {
    var f := Finding(file, m, InconsistentFontUnits(a, b), context);
    assert f !in MarginFindings(path, n, Step(before, line), line);
    assert f !in PaddingFindings(path, n, Step(before, line), line);
  }

  lemma MarginInLine(path: string, n: nat, before: Option<string>, line: string,
                     file: string, m: nat, u: string, c: Option<string>, context: string)
    ensures Finding(file, m, MarginUnit(u, c), context) in LineFindings(path, n, before, line)
            <==> file == path && m == n && BoxUnit(line, "margin") == Some(u) && c == Step(before, line)
                 && Some(u) != c && context == Trim(line)
  {
    var f := Finding(file, m, MarginUnit(u, c), context);
    assert f !in FontLineFindings(path, n, before, line);
    assert f !in PaddingFindings(path, n, Step(before, line), line);
  }

  lemma PaddingInLine(path: string, n: nat, before: Option<string>, line: string,
                      file: string, m: nat, u: string, c: Option<string>, context: string)
    ensures Finding(file, m, PaddingUnit(u, c), context) in LineFindings(path, n, before, line)
            <==> file == path && m == n && BoxUnit(line, "padding") == Some(u) && c == Step(before, line)
                 && Some(u) != c && context == Trim(line)
  {
    var f := Finding(file, m, PaddingUnit(u, c), context);
    assert f !in FontLineFindings(path, n, before, line);
    assert f !in MarginFindings(path, n, Step(before, line), line);
  }

  /** `f` is in the file's unit findings exactly when it is among those of one of its lines. */
  lemma UnitFindingsAt(path: string, lines: seq<string>, f: Finding)
    ensures f in FileUnitFindings(path, lines)
            <==> exists i :: 0 <= i < |lines| && f in LineFindings(path, i + 1, Established(lines[..i]), lines[i])
  {
    FileUnitsAreVerdicts(path, lines, |lines|);
    assert lines[..|lines|] == lines;
    FlatMapUpToFound(|lines|, UnitVerdict(path, lines), f);
    forall i | 0 <= i < |lines|
      ensures f in UnitVerdict(path, lines)(i) <==> f in LineFindings(path, i + 1, Established(lines[..i]), lines[i])
    {
    }
  }

  /** An "Inconsistent units" finding names line `n` exactly when that line's `font-size` unit
      differs from the unit established by the lines before it. */
  lemma InconsistentFound(path: string, lines: seq<string>, file: string, n: nat, a: string, b: string, context: string)
    ensures Finding(file, n, InconsistentFontUnits(a, b), context) in FileUnitFindings(path, lines)
            <==> file == path && 1 <= n <= |lines| && Established(lines[..n - 1]) == Some(a)
                 && FontSizeUnit(lines[n - 1]) == Some(b) && a != b && context == Trim(lines[n - 1])
  {
    var f := Finding(file, n, InconsistentFontUnits(a, b), context);
    UnitFindingsAt(path, lines, f);
    if f in FileUnitFindings(path, lines) {
      var i :| 0 <= i < |lines| && f in LineFindings(path, i + 1, Established(lines[..i]), lines[i]);
      InconsistentInLine(path, i + 1, Established(lines[..i]), lines[i], file, n, a, b, context);
    }
    if 1 <= n <= |lines| {
      InconsistentInLine(path, n, Established(lines[..n - 1]), lines[n - 1], file, n, a, b, context);
    }
  }

  /** A margin finding names line `n` exactly when that line's margin unit differs from the
      unit established up to and including it; `c` is None when no unit is established. */
  lemma MarginFound(path: string, lines: seq<string>, file: string, n: nat, u: string, c: Option<string>, context: string)
    ensures Finding(file, n, MarginUnit(u, c), context) in FileUnitFindings(path, lines)
            <==> file == path && 1 <= n <= |lines| && BoxUnit(lines[n - 1], "margin") == Some(u)
                 && c == Established(lines[..n]) && Some(u) != c && context == Trim(lines[n - 1])
  {
    var f := Finding(file, n, MarginUnit(u, c), context);
    UnitFindingsAt(path, lines, f);
    if f in FileUnitFindings(path, lines) {
      var i :| 0 <= i < |lines| && f in LineFindings(path, i + 1, Established(lines[..i]), lines[i]);
      MarginInLine(path, i + 1, Established(lines[..i]), lines[i], file, n, u, c, context);
      EstablishedSnoc(lines, i);
    }
    if 1 <= n <= |lines| {
      MarginInLine(path, n, Established(lines[..n - 1]), lines[n - 1], file, n, u, c, context);
      EstablishedSnoc(lines, n - 1);
    }
  }

  /** The same for padding. */
  lemma PaddingFound(path: string, lines: seq<string>, file: string, n: nat, u: string, c: Option<string>, context: string)
    ensures Finding(file, n, PaddingUnit(u, c), context) in FileUnitFindings(path, lines)
            <==> file == path && 1 <= n <= |lines| && BoxUnit(lines[n - 1], "padding") == Some(u)
                 && c == Established(lines[..n]) && Some(u) != c && context == Trim(lines[n - 1])
  {
    var f := Finding(file, n, PaddingUnit(u, c), context);
    UnitFindingsAt(path, lines, f);
    if f in FileUnitFindings(path, lines) {
      var i :| 0 <= i < |lines| && f in LineFindings(path, i + 1, Established(lines[..i]), lines[i]);
      PaddingInLine(path, i + 1, Established(lines[..i]), lines[i], file, n, u, c, context);
      EstablishedSnoc(lines, i);
    }
    if 1 <= n <= |lines| {
      PaddingInLine(path, n, Established(lines[..n - 1]), lines[n - 1], file, n, u, c, context);
      EstablishedSnoc(lines, n - 1);
    }
  }

  /** A line records each colour literal it matches, lower-cased, with itself as the use,
      unless it mentions `var(` or `$`. */
  lemma LineColorUsesAre(path: string, n: nat, line: string, c: string, u: ColorUse)
    ensures (c, u) in LineColorUses(path, n, line)
            <==> !UsesVariables(line) && u == ColorUse(path, n, Trim(line))
                 && exists m :: m in ColorMatches(line) && c == Lower(m)
  {
    var matches := ColorMatches(line);
    var use := ColorUse(path, n, Trim(line));
    FlatMapFound(matches, UsePart(use), (c, u));
    forall i | 0 <= i < |matches|
      ensures (c, u) in UsePart(use)(matches[i]) <==> u == use && c == Lower(matches[i])
    {
    }
    if !UsesVariables(line) && u == use && exists m :: m in matches && c == Lower(m) {
      var m :| m in matches && c == Lower(m);
      var i :| 0 <= i < |matches| && matches[i] == m;
      assert (c, u) in UsePart(use)(matches[i]);
    }
  }

  /** `t` groups `us`: one key per colour used, holding all its uses in order, and the order
      lists each key exactly once. */
  ghost predicate Groups(t: ColorTable, us: seq<(string, ColorUse)>) {
    (forall c :: c in t.uses <==> UsesOf(us, c) != [])
    && (forall c :: c in t.uses ==> t.uses[c] == UsesOf(us, c))
    && (forall c :: c in t.order <==> c in t.uses)
    && (forall i, j :: 0 <= i < j < |t.order| ==> t.order[i] != t.order[j])
  }

  lemma {:induction false} ColorTableIs(us: seq<(string, ColorUse)>)
    ensures Groups(RecordAll(NoColors, us), us)
  {
    if us != [] {
      var init := us[..|us| - 1];
      ColorTableIs(init);
      GroupsRecord(RecordAll(NoColors, init), init, us[|us| - 1].0, us[|us| - 1].1);
      assert init + [(us[|us| - 1].0, us[|us| - 1].1)] == us;
    }
  }

  /** Recording one more use keeps the grouping. */
  lemma GroupsRecord(t: ColorTable, init: seq<(string, ColorUse)>, color: string, use: ColorUse)
    requires Groups(t, init)
    ensures Groups(Record(t, color, use), init + [(color, use)])
  {
    var us := init + [(color, use)];
    UsesOfSnoc(init, color, use);
    var r := Record(t, color, use);
    if color in t.uses {
      assert r.order == t.order;
    } else {
      assert color !in t.order;
      forall i, j | 0 <= i < j < |r.order|
        ensures r.order[i] != r.order[j]
      {
        if j < |t.order| {
          assert r.order[i] == t.order[i] && r.order[j] == t.order[j];
        } else {
          assert r.order[i] == t.order[i];
        }
      }
    }
  }

  lemma UsesOfSnoc(init: seq<(string, ColorUse)>, color: string, use: ColorUse)
    ensures forall c :: UsesOf(init + [(color, use)], c) == UsesOf(init, c) + (if color == c then [use] else [])
  {
    var us := init + [(color, use)];
    assert us[..|us| - 1] == init;
  }

  /** The colour findings of a table: one per listed colour with more than one use. */
  lemma ColorFindingsAre(t: ColorTable, f: Finding)
    requires forall c :: c in t.order <==> c in t.uses
    ensures f in ColorFindings(t)
            <==> exists c :: c in t.uses && |t.uses[c]| > 1 && f == DuplicateFinding(c, t.uses[c])
  {
    FlatMapFound(t.order, ColorPart(t), f);
    if f in ColorFindings(t) {
      var i :| 0 <= i < |t.order| && f in ColorPart(t)(t.order[i]);
      var c := t.order[i];
      assert c in t.uses && |t.uses[c]| > 1 && f == DuplicateFinding(c, t.uses[c]);
    }
    if c :| c in t.uses && |t.uses[c]| > 1 && f == DuplicateFinding(c, t.uses[c]) {
      var i :| 0 <= i < |t.order| && t.order[i] == c;
      assert f in ColorPart(t)(t.order[i]);
    }
  }

  /** A colour finding is exactly the one for a colour used more than once. */
  lemma DuplicateColorFound(us: seq<(string, ColorUse)>, f: Finding)
    ensures f in ColorFindings(RecordAll(NoColors, us))
            <==> exists c :: |UsesOf(us, c)| > 1 && f == DuplicateFinding(c, UsesOf(us, c))
  {
    if f in ColorFindings(RecordAll(NoColors, us)) {
      DuplicateColorSound(us, f);
    }
    if c :| |UsesOf(us, c)| > 1 && f == DuplicateFinding(c, UsesOf(us, c)) {
      DuplicateColorComplete(us, c);
    }
  }

  lemma DuplicateColorSound(us: seq<(string, ColorUse)>, f: Finding)
    requires f in ColorFindings(RecordAll(NoColors, us))
    ensures exists c :: |UsesOf(us, c)| > 1 && f == DuplicateFinding(c, UsesOf(us, c))
  {
    var t := RecordAll(NoColors, us);
    ColorTableIs(us);
    ColorFindingsAre(t, f);
    var c :| c in t.uses && |t.uses[c]| > 1 && f == DuplicateFinding(c, t.uses[c]);
    assert |UsesOf(us, c)| > 1 && f == DuplicateFinding(c, UsesOf(us, c));
  }

  lemma DuplicateColorComplete(us: seq<(string, ColorUse)>, c: string)
    requires |UsesOf(us, c)| > 1
    ensures DuplicateFinding(c, UsesOf(us, c)) in ColorFindings(RecordAll(NoColors, us))
  {
    var t := RecordAll(NoColors, us);
    var f := DuplicateFinding(c, UsesOf(us, c));
    ColorTableIs(us);
    ColorFindingsAre(t, f);
    assert c in t.uses && |t.uses[c]| > 1 && f == DuplicateFinding(c, t.uses[c]);
  }

  /** The part of colour `d` counts once towards colour `c`'s message when `d` is `c`. */
  lemma ColorPartCount(t: ColorTable, c: string, d: string)
    requires c in t.uses && |t.uses[c]| > 1
    ensures Count(ColorPart(t)(d), DuplicateColor(c, t.uses[c][1..])) == if d == c then 1 else 0
  {
    if d in t.uses && |t.uses[d]| > 1 {
      CountOne(DuplicateFinding(d, t.uses[d]), DuplicateColor(c, t.uses[c][1..]));
    }
  }

  lemma {:induction false} ColorCountPrefix(t: ColorTable, c: string, k: nat)
    requires forall i, j :: 0 <= i < j < |t.order| ==> t.order[i] != t.order[j]
    requires c in t.uses && |t.uses[c]| > 1 && k <= |t.order|
    ensures Count(FlatMap(t.order[..k], ColorPart(t)), DuplicateColor(c, t.uses[c][1..]))
            == if c in t.order[..k] then 1 else 0
  {
    if k > 0 {
      var m := DuplicateColor(c, t.uses[c][1..]);
      var d := t.order[k - 1];
      ColorCountPrefix(t, c, k - 1);
      FlatMapSnoc(t.order, ColorPart(t), k - 1);
      CountAppend(FlatMap(t.order[..k - 1], ColorPart(t)), ColorPart(t)(d), m);
      ColorPartCount(t, c, d);
      DistinctPrefixSnoc(t.order, k, c);
    }
  }

  /** In a list without repeats, `c` is among the first `k` exactly when it is among the first
      `k - 1` or is the `k`-th, and never both. */
  lemma DistinctPrefixSnoc(xs: seq<string>, k: nat, c: string)
    requires forall i, j :: 0 <= i < j < |xs| ==> xs[i] != xs[j]
    requires 0 < k <= |xs|
    ensures c in xs[..k] <==> c in xs[..k - 1] || c == xs[k - 1]
    ensures c == xs[k - 1] ==> c !in xs[..k - 1]
  {
    var init := xs[..k - 1];
    assert xs[..k] == init + [xs[k - 1]];
    assert forall i :: 0 <= i < |init| ==> init[i] == xs[i];
  }

  /** A colour used more than once gives exactly one finding. */
  lemma DuplicateColorOnce(us: seq<(string, ColorUse)>, c: string)
    requires |UsesOf(us, c)| > 1
    ensures Count(ColorFindings(RecordAll(NoColors, us)), DuplicateColor(c, UsesOf(us, c)[1..])) == 1
  {
    var t := RecordAll(NoColors, us);
    ColorTableIs(us);
    assert c in t.uses && t.uses[c] == UsesOf(us, c);
    DuplicateOnceIn(t, c);
  }

  /** In a table listing each colour once, a colour used more than once gives one finding. */
  lemma DuplicateOnceIn(t: ColorTable, c: string)
    requires forall i, j :: 0 <= i < j < |t.order| ==> t.order[i] != t.order[j]
    requires c in t.uses && |t.uses[c]| > 1 && c in t.order
    ensures Count(ColorFindings(t), DuplicateColor(c, t.uses[c][1..])) == 1
  {
    ColorCountPrefix(t, c, |t.order|);
    assert t.order[..|t.order|] == t.order;
  }

  // ---------------------------------------------------------------- the checker

  lemma RecordAllSnoc(t: ColorTable, us: seq<(string, ColorUse)>, color: string, use: ColorUse)
    ensures RecordAll(t, us + [(color, use)]) == Record(RecordAll(t, us), color, use)
  {
    assert (us + [(color, use)])[..|us|] == us;
  }


  /** The colours of one line. */
  method RecordLineColors(path: string, n: nat, line: string, colors: ColorTable) returns (next: ColorTable)
    ensures next == RecordAll(colors, LineColorUses(path, n, line))
  {
    var matches := ColorMatches(line);
    var use := ColorUse(path, n, Trim(line));
    next := colors;
    for k := 0 to |matches|
      invariant next == RecordAll(colors, if UsesVariables(line) then [] else FlatMap(matches[..k], UsePart(use)))
    {
      var color := Lower(matches[k]);
      FlatMapSnoc(matches, UsePart(use), k);
      if !Contains(line, "var(") && !Contains(line, "$") {
        RecordAllSnoc(colors, FlatMap(matches[..k], UsePart(use)), color, use);
        next := Record(next, color, use);
      }
    }
    assert matches[..|matches|] == matches;
  }

  /** The unit checks of one line: `font-size`, then margin, then padding. */
  method CheckLineUnits(table: ErrorTable, path: string, n: nat, line: string, current: Option<string>)
    returns (next: Option<string>)
    modifies table
    ensures next == Step(current, line)
    ensures table.State() == AddAll(old(table.State()), LineFindings(path, n, current, line))
  {
    ghost var t0 := table.State();
    var fontSizeMatch := FontSizeUnit(line);
    var marginMatch := BoxUnit(line, "margin");
    var paddingMatch := BoxUnit(line, "padding");
    next := current;
    if fontSizeMatch.Some? {
      if next.None? {
        next := fontSizeMatch;
      } else if fontSizeMatch.value != next.value {
        table.Add(path, InconsistentFontUnits(next.value, fontSizeMatch.value), n, Trim(line));
        AddOne(t0, Finding(path, n, InconsistentFontUnits(current.value, fontSizeMatch.value), Trim(line)));
      }
    }
    ghost var font := FontLineFindings(path, n, current, line);
    assert table.State() == AddAll(t0, font);
    ghost var t1 := table.State();
    if marginMatch.Some? && marginMatch != next {
      table.Add(path, MarginUnit(marginMatch.value, next), n, Trim(line));
      AddOne(t1, Finding(path, n, MarginUnit(marginMatch.value, next), Trim(line)));
    }
    ghost var margin := MarginFindings(path, n, next, line);
    assert table.State() == AddAll(t1, margin);
    AddAllAppend(t0, font, margin);
    ghost var t2 := table.State();
    if paddingMatch.Some? && paddingMatch != next {
      table.Add(path, PaddingUnit(paddingMatch.value, next), n, Trim(line));
      AddOne(t2, Finding(path, n, PaddingUnit(paddingMatch.value, next), Trim(line)));
    }
    assert table.State() == AddAll(t2, PaddingFindings(path, n, next, line));
    AddAllAppend(t0, font + margin, PaddingFindings(path, n, next, line));
  }

  /** The `lines.forEach` of one file, with `currentUnitType` starting unset. */
  method CheckLines(table: ErrorTable, path: string, lines: seq<string>, colors: ColorTable)
    returns (next: ColorTable)
    modifies table
    ensures table.State() == AddAll(old(table.State()), FileUnitFindings(path, lines))
    ensures next == RecordAll(colors, FileColorUses(path, lines))
  {
    ghost var t0 := table.State();
    var currentUnitType: Option<string> := None;
    next := colors;
    for k := 0 to |lines|
      invariant currentUnitType == Established(lines[..k])
      invariant table.State() == AddAll(t0, FileUnitFindings(path, lines[..k]))
      invariant next == RecordAll(colors, FileColorUses(path, lines[..k]))
    {
      assert lines[..k + 1][..k] == lines[..k];
      ghost var before := FileUnitFindings(path, lines[..k]);
      ghost var usesBefore := FileColorUses(path, lines[..k]);
      next := RecordLineColors(path, k + 1, lines[k], next);
      RecordAllAppend(colors, usesBefore, LineColorUses(path, k + 1, lines[k]));
      currentUnitType := CheckLineUnits(table, path, k + 1, lines[k], currentUnitType);
      AddAllAppend(t0, before, LineFindings(path, k + 1, Established(lines[..k]), lines[k]));
    }
    assert lines[..|lines|] == lines;
  }

  /** stylelint's warnings for one file, each with its source line as context. */
  method ReportLint(table: ErrorTable, path: string, lines: seq<string>, warnings: seq<Warning>)
    modifies table
    ensures table.State() == AddAll(old(table.State()), FlatMap(warnings, LintPart(path, lines)))
  {
    ghost var t0 := table.State();
    for k := 0 to |warnings|
      invariant table.State() == AddAll(t0, FlatMap(warnings[..k], LintPart(path, lines)))
    {
      var f := LintFinding(path, lines, warnings[k]);
      ghost var before := table.State();
      table.Add(f.file, f.message, f.line, f.context);
      FlatMapSnoc(warnings, LintPart(path, lines), k);
      AddOne(before, f);
      AddAllAppend(t0, FlatMap(warnings[..k], LintPart(path, lines)), [f]);
    }
    assert warnings[..|warnings|] == warnings;
  }

  /** autoprefixer's outcome for one file: its warnings, or one error when it failed. */
  method ReportPrefix(table: ErrorTable, path: string, result: Option<seq<Warning>>)
    modifies table
    ensures table.State() == AddAll(old(table.State()), PrefixFindings(path, result))
  {
    ghost var t1 := table.State();
    if result.None? {
      table.Add(path, VendorPrefixError, 1, "");
      AddOne(t1, Finding(path, 1, VendorPrefixError, ""));
    } else {
      var ws := result.value;
      for k := 0 to |ws|
        invariant table.State() == AddAll(t1, FlatMap(ws[..k], PrefixPart(path)))
      {
        var w := ws[k];
        ghost var before := table.State();
        var line := if w.line == 0 then 1 else w.line;
        table.Add(path, PrefixWarning(w.text), line, "");
        FlatMapSnoc(ws, PrefixPart(path), k);
        AddOne(before, Finding(path, line, PrefixWarning(w.text), ""));
        AddAllAppend(t1, FlatMap(ws[..k], PrefixPart(path)), PrefixPart(path)(w));
      }
      assert ws[..|ws|] == ws;
    }
  }

  /** One style file: stylelint's warnings, autoprefixer's, then its lines. */
  method CheckStyleFile(table: ErrorTable, p: Page, lint: string -> seq<Warning>,
                        prefix: string -> Option<seq<Warning>>, colors: ColorTable)
    returns (next: ColorTable)
    modifies table
    ensures table.State() == AddAll(old(table.State()), FileFindings(p, lint, prefix))
    ensures next == RecordAll(colors, PageColorUses(p))
  {
    ghost var t0 := table.State();
    var path := StylePath(p);
    var lines := Lines(p.content);
    var warnings := lint(p.content);
    ReportLint(table, path, lines, warnings);
    ghost var lintFound := FlatMap(warnings, LintPart(path, lines));
    var result := prefix(p.content);
    ReportPrefix(table, path, result);
    AddAllAppend(t0, lintFound, PrefixFindings(path, result));
    next := CheckLines(table, path, lines, colors);
    AddAllAppend(t0, lintFound + PrefixFindings(path, result), FileUnitFindings(path, lines));
  }

  /** The loop over `colorUsage`. */
  method ReportColors(table: ErrorTable, colors: ColorTable)
    modifies table
    ensures table.State() == AddAll(old(table.State()), ColorFindings(colors))
  {
    ghost var t0 := table.State();
    for i := 0 to |colors.order|
      invariant table.State() == AddAll(t0, FlatMap(colors.order[..i], ColorPart(colors)))
    {
      var color := colors.order[i];
      FlatMapSnoc(colors.order, ColorPart(colors), i);
      ghost var before := FlatMap(colors.order[..i], ColorPart(colors));
      if color in colors.uses && |colors.uses[color]| > 1 {
        var f := DuplicateFinding(color, colors.uses[color]);
        ghost var t := table.State();
        table.Add(f.file, f.message, f.line, f.context);
        AddOne(t, f);
      }
      AddAllAppend(t0, before, ColorPart(colors)(color));
    }
    assert colors.order[..|colors.order|] == colors.order;
  }

  /** `validateStyles`. */
  method ValidateStyles(root: seq<Entry>, lint: string -> seq<Warning>, prefix: string -> Option<seq<Warning>>)
    returns (out: seq<OutLine>)
    ensures out == StylesOutput(root, lint, prefix)
  {
    var listing := ListDir(root, StylesDir);
    if listing.None? {
      return [Failed("styles")];
    }
    var styleFiles := StylePages(listing.value);
    if styleFiles.None? {
      return [Failed("styles")];
    }
    var files := styleFiles.value;
    var table := new ErrorTable();
    var colorUsage := NoColors;
    for i := 0 to |files|
      invariant table.State() == AddAll(EmptyTable, FlatMap(files[..i], FilePart(lint, prefix)))
      invariant colorUsage == RecordAll(NoColors, FlatMap(files[..i], PageColorUses))
    {
      FlatMapSnoc(files, FilePart(lint, prefix), i);
      FlatMapSnoc(files, PageColorUses, i);
      ghost var before := FlatMap(files[..i], FilePart(lint, prefix));
      ghost var usesBefore := FlatMap(files[..i], PageColorUses);
      colorUsage := CheckStyleFile(table, files[i], lint, prefix, colorUsage);
      AddAllAppend(EmptyTable, before, FileFindings(files[i], lint, prefix));
      RecordAllAppend(NoColors, usesBefore, PageColorUses(files[i]));
    }
    assert files[..|files|] == files;
    ghost var fileFound := FlatMap(files, FilePart(lint, prefix));
    ReportColors(table, colorUsage);
    AddAllAppend(EmptyTable, fileFound, ColorFindings(colorUsage));
    out := table.Format();
    FormattedIsReport(StylesLog(files, lint, prefix));
  }
}
