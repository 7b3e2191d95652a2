/** `runValidation`: the five checkers run over the same working directory, their outputs
    joined in the order HTML, BEM, styles, images, structure, and the process exit status: 1
    when anything was reported, 0 otherwise. The parsers and tools the checkers call are
    parameters. */
module Validation {
  import opened Wrappers
  import opened Dom
  import opened Findings
  import opened Project
  import Html
  import Bem
  import Styles
  import Images
  import Structure

  /** What the checkers are given besides the working directory: the HTML parser, the W3C
      validator, stylelint, autoprefixer and the working directory's path. */
  datatype Tools = Tools(parse: string -> Node, validate: string -> Option<string>,
                         lint: string -> seq<Styles.Warning>, prefix: string -> Option<seq<Styles.Warning>>,
                         workDir: string)

  /** The lines printed after the heading and the exit status. */
  datatype Verdict = Verdict(lines: seq<OutLine>, exitCode: nat)

  /** What the five checkers return, in the order `Promise.all` lists them. */
  datatype Results = Results(html: seq<OutLine>, bem: seq<OutLine>, styles: seq<OutLine>,
                             images: seq<OutLine>, structure: seq<OutLine>)

  /** The five checkers run on the working directory. */
  function Checkers(root: seq<Entry>, tools: Tools): Results {
    Results(Html.HtmlOutput(root, tools.parse, tools.validate),
            Bem.BemOutput(root, tools.parse),
            Styles.StylesOutput(root, tools.lint, tools.prefix),
            Images.ImagesOutput(root, tools.parse),
            Structure.StructureOutput(tools.workDir, root))
  }

  /** The combined errors and the exit status: each checker's lines whole and in its place,
      status 1 exactly when there is any line. */
  function Combine(results: Results): (r: Verdict)
    ensures r.exitCode == 0 || r.exitCode == 1
    ensures r.exitCode == 0 <==> && results.html == [] && results.bem == [] && results.styles == []
                                 && results.images == [] && results.structure == []
    ensures |r.lines| == |results.html| + |results.bem| + |results.styles| + |results.images| + |results.structure|
    ensures r.lines[..|results.html|] == results.html
    ensures r.lines[|r.lines| - |results.structure|..] == results.structure
  {
    var all := results.html + results.bem + results.styles + results.images + results.structure;
    Verdict(all, if |all| > 0 then 1 else 0)
  }

  /** `runValidation` on the working directory. */
  function RunValidation(root: seq<Entry>, tools: Tools): Verdict {
    Combine(Checkers(root, tools))
  }

  // ---------------------------------------------------------------- properties

  /** The HTML checker prints nothing exactly when every page can be read and parsed and none
      has a finding. */
  lemma HtmlQuiet(root: seq<Entry>, tools: Tools)
    ensures Html.HtmlOutput(root, tools.parse, tools.validate) == []
            <==> HtmlPages(root).Some? && Html.Parses(HtmlPages(root).value, tools.parse)
                 && Html.HtmlLog(HtmlPages(root).value, tools.parse, tools.validate) == []
  {
    if HtmlPages(root).Some? && Html.Parses(HtmlPages(root).value, tools.parse) {
      ReportEmptyIff(Html.HtmlLog(HtmlPages(root).value, tools.parse, tools.validate));
    }
  }

  lemma BemQuiet(root: seq<Entry>, tools: Tools)
    ensures Bem.BemOutput(root, tools.parse) == []
            <==> HtmlPages(root).Some? && Bem.BemLog(HtmlPages(root).value, tools.parse) == []
  {
    if HtmlPages(root).Some? {
      ReportEmptyIff(Bem.BemLog(HtmlPages(root).value, tools.parse));
    }
  }

  lemma StylesQuiet(root: seq<Entry>, tools: Tools)
    ensures Styles.StylesOutput(root, tools.lint, tools.prefix) == []
            <==> ListDir(root, StylesDir).Some? && Styles.StylePages(ListDir(root, StylesDir).value).Some?
                 && Styles.StylesLog(Styles.StylePages(ListDir(root, StylesDir).value).value, tools.lint, tools.prefix) == []
  {
    if ListDir(root, StylesDir).Some? && Styles.StylePages(ListDir(root, StylesDir).value).Some? {
      ReportEmptyIff(Styles.StylesLog(Styles.StylePages(ListDir(root, StylesDir).value).value, tools.lint, tools.prefix));
    }
  }

  lemma ImagesQuiet(root: seq<Entry>, tools: Tools)
    ensures Images.ImagesOutput(root, tools.parse) == []
            <==> HtmlPages(root).Some? && Images.ImagesLog(root, tools.parse, HtmlPages(root).value) == []
  {
    if HtmlPages(root).Some? {
      ReportEmptyIff(Images.ImagesLog(root, tools.parse, HtmlPages(root).value));
    }
  }

  lemma StructureQuiet(root: seq<Entry>, tools: Tools)
    ensures Structure.StructureOutput(tools.workDir, root) == [] <==> Structure.StructureLog(tools.workDir, root) == []
  {
    ReportEmptyIff(Structure.StructureLog(tools.workDir, root));
  }

  /** The run succeeds (exit status 0) exactly when every page and the styles directory can be
      read, every page parses, and none of the five checkers finds anything. */
  lemma RunPassesIffNoFindings(root: seq<Entry>, tools: Tools)
    ensures RunValidation(root, tools).exitCode == 0
            <==> && HtmlPages(root).Some? && Html.Parses(HtmlPages(root).value, tools.parse)
                 && ListDir(root, StylesDir).Some? && Styles.StylePages(ListDir(root, StylesDir).value).Some?
                 && Html.HtmlLog(HtmlPages(root).value, tools.parse, tools.validate) == []
                 && Bem.BemLog(HtmlPages(root).value, tools.parse) == []
                 && Styles.StylesLog(Styles.StylePages(ListDir(root, StylesDir).value).value, tools.lint, tools.prefix) == []
                 && Images.ImagesLog(root, tools.parse, HtmlPages(root).value) == []
                 && Structure.StructureLog(tools.workDir, root) == []
  {
    HtmlQuiet(root, tools);
    BemQuiet(root, tools);
    StylesQuiet(root, tools);
    ImagesQuiet(root, tools);
    StructureQuiet(root, tools);
  }
}
