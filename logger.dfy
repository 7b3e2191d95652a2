/** `logValidationErrors`: the block the semantic-styles and W3C checkers print for one file,
    returned as lines together with the pass flag instead of being printed. */
module ValidationLogger {
  import opened Wrappers
  import opened Text
  import opened Findings

  datatype LogResult = LogResult(lines: seq<OutLine>, passed: bool)

  /** The path shown for a finding: its own `filePath`, or the file being logged when that is empty. */
  function ShownPath(fileName: string, f: Finding): string {
    if f.file != "" then f.file else fileName
  }

  function LogValidationErrors(fileName: string, validationType: string, errors: Option<seq<Finding>>): (r: LogResult)
    ensures r.passed <==> errors.None? || errors.value == []
    ensures r.passed ==> r.lines == [Passed(fileName, validationType)]
    ensures !r.passed ==>
      && |r.lines| == |errors.value| + 4
      && r.lines[..3] == [Separator, Header(fileName), Separator]
      && r.lines[|r.lines| - 1] == Separator
      && forall i :: 0 <= i < |errors.value| ==>
           r.lines[i + 3] == Render(i + 1, ShownPath(fileName, errors.value[i]), errors.value[i])
  {
    if errors.None? || errors.value == [] then
      LogResult([Passed(fileName, validationType)], true)
    else
      var es := errors.value;
      var items := seq(|es|, i requires 0 <= i < |es| => Render(i + 1, ShownPath(fileName, es[i]), es[i]));
      LogResult([Separator, Header(fileName), Separator] + items + [Separator], false)
  }
}
