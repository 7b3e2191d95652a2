/** What every checker produces: findings (file, optional line, message, optional context),
    the per-file error table the checkers append to (`addError`), and the report that
    table is formatted into: one block per file, in the order of each file's first
    finding, each block a header, a separator, the file's findings numbered from 1 in
    the order they were produced, and a closing separator. */
module Findings {
  import opened Wrappers
  import opened Text

  /** One earlier use of a colour literal: the style file, the line and its trimmed text. */
  datatype ColorUse = ColorUse(file: string, line: nat, context: string)

  /** The catalogue of findings. The console wording and emoji are not modelled, only which
      finding it is and the data it names. */
  datatype Message =
    // bem.js
    | InvalidBemClass(className: string)
    | PresentationalClass(className: string)
    | UnnecessaryWrapper
    // html.js
    | MissingDoctype
    | MissingLang
    | MissingCharset
    | MissingTitle
    | DuplicateTitle(title: string, owner: string)
    | MissingDescription
    | DuplicateDescription(owner: string)
    | MissingH1
    | MultipleH1
    | FewSemanticTags
    | ImageMissingAlt
    | ImageMissingSize
    | LinkMissingHref
    | LinkHashHref
    | ExternalLinkMissingTarget
    | FormMissingAction
    | ControlMissingName
    | InputMissingType
    | MissingFavicon
    // styles.js
    | LintWarning(text: string)
    | PrefixWarning(text: string)
    | VendorPrefixError
    | InconsistentFontUnits(established: string, unit: string)
    | MarginUnit(unit: string, fontUnit: Option<string>)
    | PaddingUnit(unit: string, fontUnit: Option<string>)
    | DuplicateColor(color: string, others: seq<ColorUse>)
    // images.js
    | AltMissing
    | SizeMissing
    | ImageNotFound(src: string)
    | MissingSrc
    | SystemFileInImages
    | InvalidImageExtension
    | DimensionsTooLarge(width: nat, height: nat)
    | FileSizeTooLarge(bytes: nat)
    | ImageUnreadable
    | ImagesDirUnreadable
    | AssetsImagesDirUnreadable
    // structure.js
    | RequiredDirMissing(dir: string)
    | IndexPageMissing
    | SystemFile(path: string)
    | NameNotLowercase(path: string)
    | NameHasSpace(path: string)
    | EmptyHtmlFile(path: string)
    | UnnecessaryFile(path: string)
    | NormalizeMissing
    | NonStyleFile(name: string)
    | NonImageFile(path: string)
    // semantic-styles.js
    | DisplayOverride(element: string)
    | DuplicateProperty(property: string)
    | OverlappingValues(property: string)
    | ParagraphFontStyling(className: string)
    | SemanticStylesFailed
    // the W3C validator, called from html.js and from w3c.js
    | ValidatorError(text: string)
    | ValidatorFailed
    | W3cFailed(reason: string)

  /** A finding. `line == 0` stands for "no line" and `context == ""` for "no context",
      exactly the values the source treats as falsy. */
  datatype Finding = Finding(file: string, line: nat, message: Message, context: string)

  /** One line of a checker's output. */
  datatype OutLine =
    | Header(file: string)
    | Separator
    | Item(number: nat, path: string, line: Option<nat>, message: Message, context: Option<string>)
    | Passed(file: string, kind: string)
    | Failed(validator: string)

  /** The rendering of one finding as the `number`-th of its block: the `:line` suffix only for a
      non-zero line, the context only when non-empty, and then trimmed. */
  function Render(number: nat, path: string, f: Finding): (r: OutLine)
    ensures r.Item? && r.number == number && r.path == path && r.message == f.message
    ensures r.line.Some? <==> f.line != 0
    ensures r.line.Some? ==> r.line.value == f.line
    ensures r.context.Some? <==> f.context != ""
    ensures r.context.Some? ==> r.context.value == Trim(f.context)
  {
    Item(number, path,
         if f.line != 0 then Some(f.line) else None,
         f.message,
         if f.context != "" then Some(Trim(f.context)) else None)
  }

  /** The findings of one file, in production order: exactly the findings naming it (the order
      is `OfFileAppend`). */
  function OfFile(log: seq<Finding>, file: string): (r: seq<Finding>)
    ensures |r| <= |log|
    ensures forall i :: 0 <= i < |r| ==> r[i].file == file && r[i] in log
    ensures forall i :: 0 <= i < |log| && log[i].file == file ==> log[i] in r
  {
    if log == [] then []
    else
      var init := log[..|log| - 1];
      assert forall i :: 0 <= i < |init| ==> init[i] == log[i];
      OfFile(init, file) + (if log[|log| - 1].file == file then [log[|log| - 1]] else [])
  }

  /** A file's findings over two runs of the log are those of the first run, then those of the
      second: the entry keeps the order in which the findings were added. */
  lemma {:induction false} OfFileAppend(a: seq<Finding>, b: seq<Finding>, file: string)
    ensures OfFile(a + b, file) == OfFile(a, file) + OfFile(b, file)
    decreases |b|
  {
    if b == [] {
      assert a + b == a;
    } else {
      var init := b[..|b| - 1];
      assert (a + b)[..|a + b| - 1] == a + init;
      OfFileAppend(a, init, file);
    }
  }

  /** A file's findings numbered from 1. */
  function Numbered(fs: seq<Finding>): (r: seq<OutLine>)
    ensures |r| == |fs|
    ensures forall i :: 0 <= i < |fs| ==> r[i] == Render(i + 1, fs[i].file, fs[i])
  {
    seq(|fs|, i requires 0 <= i < |fs| => Render(i + 1, fs[i].file, fs[i]))
  }

  /** The files of the log, each once, in the order of their first finding. */
  function FilesInOrder(log: seq<Finding>): seq<string> {
    if log == [] then []
    else
      var files := FilesInOrder(log[..|log| - 1]);
      var f := log[|log| - 1].file;
      if f in files then files else files + [f]
  }

  function Block(log: seq<Finding>, file: string): seq<OutLine> {
    var fs := OfFile(log, file);
    if |fs| > 0 then [Header(file), Separator] + Numbered(fs) + [Separator] else []
  }

  function Blocks(log: seq<Finding>, files: seq<string>): seq<OutLine> {
    if files == [] then [] else Blocks(log, files[..|files| - 1]) + Block(log, files[|files| - 1])
  }

  /** The formatted output of a checker whose findings, in production order, are `log`. */
  function Report(log: seq<Finding>): seq<OutLine> {
    Blocks(log, FilesInOrder(log))
  }

  /** The results of each of `xs` in turn: the shape of every "for each … add its findings"
      loop of the checkers. */
  function FlatMap<T, U>(xs: seq<T>, g: T -> seq<U>): seq<U> {
    if xs == [] then [] else FlatMap(xs[..|xs| - 1], g) + g(xs[|xs| - 1])
  }

  /** A map over three elements is the three results in turn. */
  lemma FlatMapThree<T, U>(xs: seq<T>, g: T -> seq<U>)
    requires |xs| == 3
    ensures FlatMap(xs, g) == g(xs[0]) + g(xs[1]) + g(xs[2])
  {
    FlatMapSnoc(xs, g, 0);
    FlatMapSnoc(xs, g, 1);
    FlatMapSnoc(xs, g, 2);
    assert xs[..0] == [] && xs[..3] == xs;
  }

  lemma FlatMapSnoc<T, U>(xs: seq<T>, g: T -> seq<U>, k: nat)
    requires k < |xs|
    ensures FlatMap(xs[..k + 1], g) == FlatMap(xs[..k], g) + g(xs[k])
  {
    assert xs[..k + 1][..k] == xs[..k];
  }

  /** A value is among the results of the items exactly when it is among those of one of them. */
  lemma {:induction false} FlatMapFound<T, U>(xs: seq<T>, g: T -> seq<U>, f: U)
    ensures f in FlatMap(xs, g) <==> exists i :: 0 <= i < |xs| && f in g(xs[i])
  {
    if xs != [] {
      var n := |xs| - 1;
      var init := xs[..n];
      FlatMapFound(init, g, f);
      assert FlatMap(xs, g) == FlatMap(init, g) + g(xs[n]);
      if f in FlatMap(init, g) {
        var i :| 0 <= i < n && f in g(init[i]);
        assert init[i] == xs[i];
      }
      if exists i :: 0 <= i < |xs| && f in g(xs[i]) {
        var i :| 0 <= i < |xs| && f in g(xs[i]);
        if i < n {
          assert init[i] == xs[i];
        }
      }
    }
  }

  /** The findings of positions `0 .. n - 1` in turn. */
  function FlatMapUpTo(n: nat, g: nat -> seq<Finding>): seq<Finding> {
    if n == 0 then [] else FlatMapUpTo(n - 1, g) + g(n - 1)
  }

  lemma {:induction false} FlatMapUpToFound(n: nat, g: nat -> seq<Finding>, f: Finding)
    ensures f in FlatMapUpTo(n, g) <==> exists i :: 0 <= i < n && f in g(i)
  {
    if n > 0 {
      FlatMapUpToFound(n - 1, g, f);
    }
  }

  /** The same, by element. */
  lemma FlatMapMember<T, U>(xs: seq<T>, g: T -> seq<U>, f: U)
    ensures f in FlatMap(xs, g) <==> exists x :: x in xs && f in g(x)
  {
    FlatMapFound(xs, g, f);
    if exists x :: x in xs && f in g(x) {
      var x :| x in xs && f in g(x);
      var i :| 0 <= i < |xs| && xs[i] == x;
    }
  }

  lemma {:induction false} FlatMapAppend<T, U>(a: seq<T>, b: seq<T>, g: T -> seq<U>)
    ensures FlatMap(a + b, g) == FlatMap(a, g) + FlatMap(b, g)
  {
    if b == [] {
      assert a + b == a;
    } else {
      assert (a + b)[..|a + b| - 1] == a + b[..|b| - 1];
      FlatMapAppend(a, b[..|b| - 1], g);
    }
  }

  lemma FlatMapOne<T, U>(x: T, g: T -> seq<U>)
    ensures FlatMap([x], g) == g(x)
  {
    assert [x][..0] == [];
  }

  /** The number of findings of `log` with message `m`. */
  function Count(log: seq<Finding>, m: Message): nat {
    if log == [] then 0 else Count(log[..|log| - 1], m) + (if log[|log| - 1].message == m then 1 else 0)
  }

  lemma {:induction false} CountAppend(a: seq<Finding>, b: seq<Finding>, m: Message)
    ensures Count(a + b, m) == Count(a, m) + Count(b, m)
  {
    if b == [] {
      assert a + b == a;
    } else {
      assert (a + b)[..|a + b| - 1] == a + b[..|b| - 1];
      CountAppend(a, b[..|b| - 1], m);
    }
  }

  lemma CountOfFour(a: seq<Finding>, b: seq<Finding>, c: seq<Finding>, d: seq<Finding>, m: Message)
    ensures Count(a + b + c + d, m) == Count(a, m) + Count(b, m) + Count(c, m) + Count(d, m)
  {
    CountAppend(a, b, m);
    CountAppend(a + b, c, m);
    CountAppend(a + b + c, d, m);
  }

  lemma CountOne(f: Finding, m: Message)
    ensures Count([f], m) == if f.message == m then 1 else 0
  {
    assert [f][..0] == [];
  }

  lemma {:induction false} CountAbsent(log: seq<Finding>, m: Message)
    requires forall i :: 0 <= i < |log| ==> log[i].message != m
    ensures Count(log, m) == 0
  {
    if log != [] {
      CountAbsent(log[..|log| - 1], m);
    }
  }

  /** A checker's `fileErrors` map: its files in insertion order and, per file, the rendered
      findings. */
  datatype Table = Table(files: seq<string>, errors: map<string, seq<OutLine>>)

  const EmptyTable: Table := Table([], map[])

  /** `addError`: a file's first finding adds the file to the table, and each finding is
      rendered as the next number of its file's list. */
  function AddError(t: Table, f: Finding): Table {
    var prior := if f.file in t.errors then t.errors[f.file] else [];
    Table(if f.file in t.errors then t.files else t.files + [f.file],
          t.errors[f.file := prior + [Render(|prior| + 1, f.file, f)]])
  }

  /** The table after adding `fs` in order. */
  function AddAll(t: Table, fs: seq<Finding>): Table {
    if fs == [] then t else AddError(AddAll(t, fs[..|fs| - 1]), fs[|fs| - 1])
  }

  lemma AddAllSnoc(t: Table, fs: seq<Finding>, f: Finding)
    ensures AddAll(t, fs + [f]) == AddError(AddAll(t, fs), f)
  {
    assert (fs + [f])[..|fs|] == fs;
  }

  lemma AddOne(t: Table, f: Finding)
    ensures AddAll(t, [f]) == AddError(t, f)
  {
    assert [f][..0] == [];
  }

  /** Adding two runs of findings one after the other is adding their concatenation. */
  lemma {:induction false} AddAllAppend(t: Table, a: seq<Finding>, b: seq<Finding>)
    ensures AddAll(t, a + b) == AddAll(AddAll(t, a), b)
  {
    if b == [] {
      assert a + b == a;
    } else {
      assert (a + b)[..|a + b| - 1] == a + b[..|b| - 1];
      AddAllAppend(t, a, b[..|b| - 1]);
    }
  }

  function FormatFiles(t: Table, files: seq<string>): seq<OutLine> {
    if files == [] then []
    else
      var f := files[|files| - 1];
      FormatFiles(t, files[..|files| - 1])
      + (if f in t.errors && |t.errors[f]| > 0 then [Header(f), Separator] + t.errors[f] + [Separator] else [])
  }

  /** The closing loop over the table: per file with findings, a header, a separator, its
      findings and a separator. */
  function Formatted(t: Table): seq<OutLine> {
    FormatFiles(t, t.files)
  }

  /** The table built from a log lists the files in the order of their first finding, has an
      entry exactly for those files, and that entry is the file's findings in production order,
      numbered from 1. */
  lemma {:induction false} TableOfLog(log: seq<Finding>)
    ensures AddAll(EmptyTable, log).files == FilesInOrder(log)
    ensures forall file :: file in AddAll(EmptyTable, log).errors <==> file in FilesInOrder(log)
    ensures forall file :: file in AddAll(EmptyTable, log).errors ==>
      AddAll(EmptyTable, log).errors[file] == Numbered(OfFile(log, file))
  {
    if log != [] {
      var init := log[..|log| - 1];
      var f := log[|log| - 1];
      TableOfLog(init);
      var t0 := AddAll(EmptyTable, init);
      assert AddAll(EmptyTable, log) == AddError(t0, f);
      assert log == init + [f];
      forall file | file in AddError(t0, f).errors
        ensures AddError(t0, f).errors[file] == Numbered(OfFile(init + [f], file))
      {
        FilesInOrderMembers(init, file);
        TableEntryStep(t0, init, f, file);
      }
    }
  }

  /** One finding added to a table that is right for `init` leaves each file's entry right. */
  lemma TableEntryStep(t0: Table, init: seq<Finding>, f: Finding, file: string)
    requires file in t0.errors ==> t0.errors[file] == Numbered(OfFile(init, file))
    requires file !in t0.errors ==> OfFile(init, file) == []
    requires file in AddError(t0, f).errors
    ensures AddError(t0, f).errors[file] == Numbered(OfFile(init + [f], file))
  {
    OfFileSnoc(init, f, file);
    if file == f.file {
      NumberedSnoc(OfFile(init, file), f);
    }
  }

  lemma OfFileSnoc(init: seq<Finding>, f: Finding, file: string)
    ensures OfFile(init + [f], file) == OfFile(init, file) + (if f.file == file then [f] else [])
  {
    assert (init + [f])[..|init|] == init;
  }

  lemma NumberedSnoc(fs: seq<Finding>, f: Finding)
    ensures Numbered(fs + [f]) == Numbered(fs) + [Render(|fs| + 1, f.file, f)]
  {
    var a := Numbered(fs + [f]);
    var b := Numbered(fs) + [Render(|fs| + 1, f.file, f)];
    assert |a| == |b|;
    forall i | 0 <= i < |a|
      ensures a[i] == b[i]
    {
      if i < |fs| {
        assert (fs + [f])[i] == fs[i];
      }
    }
  }

  lemma {:induction false} FormatFilesIsBlocks(log: seq<Finding>, files: seq<string>)
    requires forall file :: file in files ==> file in AddAll(EmptyTable, log).errors
    requires forall file :: file in AddAll(EmptyTable, log).errors ==>
      AddAll(EmptyTable, log).errors[file] == Numbered(OfFile(log, file))
    ensures FormatFiles(AddAll(EmptyTable, log), files) == Blocks(log, files)
  {
    if files != [] {
      var f := files[|files| - 1];
      assert f in files;
      FormatFilesIsBlocks(log, files[..|files| - 1]);
    }
  }

  /** Formatting the table a checker built from its findings gives `Report` of them. */
  lemma FormattedIsReport(log: seq<Finding>)
    ensures Formatted(AddAll(EmptyTable, log)) == Report(log)
  {
    TableOfLog(log);
    FormatFilesIsBlocks(log, FilesInOrder(log));
  }

  /** The position of the first finding of `file` in `log`. */
  function FirstAt(log: seq<Finding>, file: string): (r: nat)
    requires exists i :: 0 <= i < |log| && log[i].file == file
    ensures r < |log| && log[r].file == file
    ensures forall i :: 0 <= i < r ==> log[i].file != file
  {
    if log[0].file == file then 0
    else
      assert exists i :: 0 <= i < |log[1..]| && log[1..][i].file == file by {
        var i :| 0 <= i < |log| && log[i].file == file;
        assert log[1..][i - 1].file == file;
      }
      1 + FirstAt(log[1..], file)
  }

  lemma {:induction false} OfFileEmpty(log: seq<Finding>, file: string)
    ensures OfFile(log, file) == [] <==> forall i :: 0 <= i < |log| ==> log[i].file != file
  {
    if log != [] {
      var init := log[..|log| - 1];
      OfFileEmpty(init, file);
      assert forall i :: 0 <= i < |init| ==> init[i] == log[i];
    }
  }

  /** A file heads a block exactly when it has at least one finding. */
  lemma {:induction false} FilesInOrderMembers(log: seq<Finding>, file: string)
    ensures file in FilesInOrder(log) <==> OfFile(log, file) != []
  {
    if log != [] {
      FilesInOrderMembers(log[..|log| - 1], file);
    }
  }

  /** Every file with a finding heads exactly one block. */
  lemma {:induction false} FilesInOrderDistinct(log: seq<Finding>)
    ensures forall i, j :: 0 <= i < j < |FilesInOrder(log)| ==> FilesInOrder(log)[i] != FilesInOrder(log)[j]
  {
    if log != [] {
      var files0 := FilesInOrder(log[..|log| - 1]);
      var f := log[|log| - 1].file;
      FilesInOrderDistinct(log[..|log| - 1]);
      if f !in files0 {
        var files := files0 + [f];
        forall i, j | 0 <= i < j < |files|
          ensures files[i] != files[j]
        {
          assert files[i] == files0[i] && files0[i] in files0;
          if j < |files0| {
            assert files[j] == files0[j];
            assert files0[i] != files0[j];
          } else {
            assert files[j] == f;
          }
        }
        assert FilesInOrder(log) == files;
      }
    }
  }

  lemma {:induction false} FilesInOrderCovers(log: seq<Finding>, k: nat)
    requires k < |log|
    ensures log[k].file in FilesInOrder(log)
  {
    var init := log[..|log| - 1];
    if k < |init| {
      assert init[k] == log[k];
      FilesInOrderCovers(init, k);
    }
  }

  /** The blocks come in the order of each file's first finding. */
  lemma {:induction false} FilesInOrderIsFirstSeenOrder(log: seq<Finding>, i: nat, j: nat)
    requires i < j < |FilesInOrder(log)|
    ensures OfFile(log, FilesInOrder(log)[i]) != [] && OfFile(log, FilesInOrder(log)[j]) != []
    ensures exists k :: 0 <= k < |log| && log[k].file == FilesInOrder(log)[i]
    ensures exists k :: 0 <= k < |log| && log[k].file == FilesInOrder(log)[j]
    ensures FirstAt(log, FilesInOrder(log)[i]) < FirstAt(log, FilesInOrder(log)[j])
  {
    var init := log[..|log| - 1];
    var files0 := FilesInOrder(init);
    var files := FilesInOrder(log);
    assert forall k :: 0 <= k < |init| ==> init[k] == log[k];
    FilesInOrderMembers(log, files[i]);
    FilesInOrderMembers(log, files[j]);
    OfFileEmpty(log, files[i]);
    OfFileEmpty(log, files[j]);
    FilesInOrderMembers(init, files[i]);
    OfFileEmpty(init, files[i]);
    FirstAtPrefix(init, log, files[i]);
    if j < |files0| {
      FilesInOrderIsFirstSeenOrder(init, i, j);
      FirstAtPrefix(init, log, files[j]);
    } else {
      FilesInOrderDistinct(init);
      assert files[j] == log[|log| - 1].file && files[j] !in files0;
      FilesInOrderMembers(init, files[j]);
      OfFileEmpty(init, files[j]);
    }
  }

  lemma {:induction false} FirstAtPrefix(init: seq<Finding>, log: seq<Finding>, file: string)
    requires init <= log
    requires exists i :: 0 <= i < |init| && init[i].file == file
    ensures exists i :: 0 <= i < |log| && log[i].file == file
    ensures FirstAt(log, file) == FirstAt(init, file)
  {
    var i :| 0 <= i < |init| && init[i].file == file;
    assert log[i].file == file;
    assert forall k :: 0 <= k < |init| ==> log[k] == init[k];
  }

  /** A checker's output is empty exactly when it produced no finding. */
  lemma {:induction false} ReportEmptyIff(log: seq<Finding>)
    ensures Report(log) == [] <==> log == []
  {
    var files := FilesInOrder(log);
    if log != [] {
      FilesInOrderCovers(log, 0);
      var f := files[|files| - 1];
      FilesInOrderMembers(log, f);
      BlockNonEmpty(log, f);
      LastBlock(log, files);
    }
  }

  lemma BlockNonEmpty(log: seq<Finding>, file: string)
    requires OfFile(log, file) != []
    ensures Block(log, file) != []
  {
  }

  lemma LastBlock(log: seq<Finding>, files: seq<string>)
    requires files != [] && Block(log, files[|files| - 1]) != []
    ensures Blocks(log, files) != []
  {
  }

  /** The `fileErrors` map a checker fills through `addError` and formats at the end. */
  class ErrorTable {
    var files: seq<string>
    var errors: map<string, seq<OutLine>>

    function State(): Table
      reads this
    {
      Table(files, errors)
    }

    constructor ()
      ensures State() == EmptyTable
    {
      files, errors := [], map[];
    }

    /** `addError(file, message, lineNumber, context)`. */
    method Add(file: string, message: Message, line: nat, context: string)
      modifies this
      ensures State() == AddError(old(State()), Finding(file, line, message, context))
    {
      var f := Finding(file, line, message, context);
      if file !in errors {
        errors := errors[file := []];
        files := files + [file];
      }
      var prior := errors[file];
      errors := errors[file := prior + [Render(|prior| + 1, file, f)]];
    }

    /** The closing `for (const [file, errors] of fileErrors)` loop. */
    method Format() returns (out: seq<OutLine>)
      ensures out == Formatted(State())
    {
      out := [];
      for i := 0 to |files|
        invariant out == FormatFiles(State(), files[..i])
      {
        var f := files[i];
        assert files[..i + 1][..i] == files[..i];
        if f in errors && |errors[f]| > 0 {
          out := out + [Header(f), Separator] + errors[f] + [Separator];
        }
      }
      assert files[..|files|] == files;
    }
  }

  /** `if (cond) addError(...)` for the finding `f`. */
  method AddIf(table: ErrorTable, cond: bool, f: Finding)
    modifies table
    ensures table.State() == AddAll(old(table.State()), if cond then [f] else [])
  {
    if cond {
      ghost var t := table.State();
      table.Add(f.file, f.message, f.line, f.context);
      AddOne(t, f);
    }
  }
}
