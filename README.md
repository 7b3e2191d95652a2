# A verified model of the validation and optimisation rule engine

This project models, in Dafny, the rule engine of a static-site toolkit: the checkers that
inspect a working directory of HTML pages, stylesheets and images and report what breaks the
project's conventions, the optimisers that rewrite colours in stylesheets and paths and
attributes in pages, the repository clean-up walk, and the helpers that number, format and
combine the findings.

- **Findings and their report** (`findings.dfy`). Every checker keeps a per-file error table
  (`addError`). A finding is a file, an optional line, a message and an optional context. The
  report has one block per file, in the order of each file's first finding: a header, a
  separator, the file's findings numbered from 1, and a closing separator. The table is the
  class `Findings.ErrorTable`. Its methods are proved against the pure `Findings.AddAll` and
  `Findings.Report`.
- **Inputs** (`dom.dfy`, `project.dfy`, `text.dfy`). A page is a parsed tree of elements and text
  nodes. A stylesheet is the list of every rule `root.walkRules` visits, nested rules included,
  each with the declarations `rule.walkDecls` visits (its nested rules' ones too). The working directory is a
  tree of entries in listing order, each with its content, byte size and image dimensions. The
  text helpers are JavaScript's `\s`, `trim`, `split`, `indexOf`, `replace` and the "first line
  containing" lookup.
- **Checkers**: BEM class names (`bem.dfy`), page structure and uniqueness of titles and
  descriptions (`html.dfy`), semantic styling (`semantic_styles.dfy`), stylesheet units and
  duplicate colours (`styles.dfy`), project layout (`structure.dfy`), images (`images.dfy`),
  W3C validator messages (`w3c.dfy`), the per-file logger (`logger.dfy`) and the run that joins
  five checkers and sets the exit status (`validation.dfy`).
- **Optimisers**: the named-colour rewrite of stylesheets (`optimize_styles.dfy`), the DOM
  loops of the page optimiser (`optimize_html.dfy`), and its text rewrites of whole tags
  (`optimize_markup.dfy`).
- **Clean-up**: the wildcard matcher and the deleting walk (`cleanup.dfy`).

Code that changes state step by step is imperative here too:
- loops that append to the error table are methods over the `ErrorTable` class;
- the DOM loops are methods over `Element` objects;
- the colour rewrite collects into a sequence, sorts an array in place and splices a string.

Each such method is proved equal to a specification function. The properties the rules
promise are lemmas about those functions: which inputs give which finding, how many times,
in which order, and what a rewrite keeps.

## Model

| member | source | states |
|---|---|---|
| ValidationLogger.LogValidationErrors | utils/validation-logger.js:8-33 | passes exactly when the errors are absent or empty, and then yields only the pass line; otherwise the header framed by separators, one item per finding numbered from 1 in input order, the shown path being the finding's own file or else the logged file name, the `:line` suffix only for a non-zero line, the context only when non-empty and then trimmed, and a closing separator |
| Findings.Render | utils/validate/bem.js:22-25 | an item carries its number, path and message; the line suffix is present exactly when the line is non-zero; the context is present exactly when non-empty, and is then trimmed |
| Findings.OfFile | utils/validate/bem.js:16-19 | a file's findings are a sub-list of the log, all naming that file, and every finding of the log that names it is among them |
| Findings.OfFileAppend | utils/validate/bem.js:15-19 | over two runs of findings a file's entry is its entry from the first run followed by its entry from the second: the entry keeps the order in which findings were added |
| Findings.Numbered | utils/validate/bem.js:22 | the k-th finding of a file is rendered with number k (from 1) |
| Findings.ErrorTable.constructor | utils/validate/bem.js:13 | the table starts empty |
| Findings.ErrorTable.Add | utils/validate/bem.js:15-27 | `addError`: the new state is the old one with the finding appended to its file's entry (created on first use) |
| Findings.ErrorTable.Format | utils/validate/bem.js:88-98 | the output is the formatting of the current table |
| Findings.AddAllAppend | utils/validate/bem.js:15-27 | adding two runs of findings one after the other is adding their concatenation |
| Findings.TableOfLog | utils/validate/bem.js:15-27 | the table built from a log has the log's files in order of first finding as its keys, and each file's entry is its findings numbered from 1 |
| Findings.FormattedIsReport | utils/validate/bem.js:88-98 | formatting the table built from a log is the report of that log: one block per file (header, separator, numbered findings, separator) |
| Findings.FilesInOrderMembers | utils/validate/bem.js:90-97 | a file heads a block exactly when it has a finding |
| Findings.FilesInOrderDistinct | utils/validate/bem.js:90-97 | no file heads two blocks |
| Findings.FilesInOrderCovers | utils/validate/bem.js:90-97 | every finding's file heads a block |
| Findings.FilesInOrderIsFirstSeenOrder | utils/validate/bem.js:16-90 | blocks come in the order of each file's first finding |
| Findings.ReportEmptyIff | utils/validate/bem.js:89-100 | a checker's output is empty exactly when it produced no finding |
| Findings.OfFileEmpty | utils/validate/bem.js:16-19 | a file has no entry exactly when no finding names it |
| Findings.FlatMapFound | utils/validate/bem.js:38-85 | a finding is produced by a `forEach` over items exactly when one of the items produces it |
| Findings.CountAppend | utils/validate/html.js:32-278 | the number of findings of a kind in consecutive runs is the sum of the runs' numbers |
| Project.Find | utils/validate/structure.js:30-36 | an entry found is in the listing and has the name asked for; nothing is found exactly when no entry has it |
| Project.ListDir | utils/validate/images.js:166-178 | a listing is read exactly when an entry of that name exists and is a directory, and it is then that directory's own entries |
| Project.HtmlPages | utils/validate/bem.js:11-12 | reading fails exactly when some entry named `*.html` is a directory; otherwise the pages are the `*.html` entries in listing order, each with its own name and text |
| Project.HtmlNamed | utils/validate/bem.js:11 | `files.filter(f => f.endsWith('.html'))`: every entry kept is in the listing and named `*.html`, and every such entry is kept |
| Project.HtmlNamedAppend | utils/validate/bem.js:11 | filtering two listings in turn gives the filtered first followed by the filtered second, so the filter keeps listing order |
| Project.PagesOf | utils/validate/bem.js:12-13 | one page per file, in order, each with that file's name and text |
| Text.Lower | utils/validate/styles.js:100 | `toLowerCase` on ASCII letters: same length, `A` to `Z` become `a` to `z`, every other character is kept |
| Text.IndexOf | utils/optimize/styles.js:37 | `indexOf`: -1 exactly when the pattern does not occur, else the first position where it occurs |
| Text.IndexOfIs | utils/optimize/styles.js:37 | `indexOf` returns the first occurrence |
| Text.Split | utils/validate/w3c.js:16 | `split('\n')`: at least one piece, no piece holds the separator, and joining the pieces with the separator gives the text back |
| Text.SplitSpaces | utils/validate/bem.js:39 | `split(/\s+/)`: at least one piece; no piece holds whitespace; joined with single spaces the pieces are the text with every run of whitespace collapsed to one space; inner pieces are non-empty; the first piece is empty exactly when the text is empty or starts with whitespace, the last exactly when it is empty or ends with whitespace |
| Text.AsciiTokens | utils/validate/bem.js:76 | the tokens of a `classList`: no token is empty, none holds ASCII white space (tab, line feed, form feed, carriage return, space), and one after the other they are the text with its ASCII white space removed |
| Text.AsciiTokensWord | utils/validate/bem.js:76 | a text without ASCII white space is one token (none when empty), so other white space such as a no-break space stays inside it |
| Text.LineOf | utils/validate/bem.js:41 | `findIndex(line => line.includes(s)) + 1`: 0 when no line contains `s`, else the first line that does (from 1) |
| Text.TrimStart | utils/validation-logger.js:27 | leading whitespace removed, the rest kept |
| Text.TrimEnd | utils/validation-logger.js:27 | trailing whitespace removed, the rest kept |
| Text.ReplaceAllNone | utils/optimize/html.js:202-204 | a text without the pattern is returned unchanged by a global replace |
| Text.ReplaceAllChars | utils/optimize/html.js:202-204 | every character of a global replace's result comes from the text or from the replacement |
| Dom.Elements | utils/validate/semantic-styles.js:46-56 | the subtree's elements in document order: only elements, the root first, none below a text node |
| Dom.ElementsMembers | utils/validate/semantic-styles.js:46-56 | a node is among an element's elements exactly when it is that element or among the elements of one of its children; a text node has none |
| Dom.ElementsInAppend | utils/validate/semantic-styles.js:51-53 | the elements of two runs of children are those of the first run followed by those of the second: document order |
| Dom.WithTagMembers | utils/validate/html.js:114 | a node is kept exactly when it is an element with the tag |
| Dom.WithAttr | utils/validate/bem.js:36 | `[name]`: members of the list that are elements carrying the attribute, and every such member is kept |
| Dom.WithAttrAppend | utils/validate/bem.js:36 | filtering two runs in turn keeps their order: the kept members of the first run come first |
| Dom.WithAttrValue | utils/validate/html.js:92-93 | `[name="value"]`: members of the list that are elements whose attribute is that value, and every such member is kept |
| Dom.WithAttrFolded | utils/validate/html.js:270 | `[rel="icon"]` on an attribute compared up to ASCII case: members of the list that are elements whose attribute lower-cases to the value, and every such member is kept |
| Dom.ClassList | utils/validate/bem.js:76 | `classList`: nothing without a class attribute; otherwise tokens without ASCII white space, none empty, that together are the value with its ASCII white space removed |
| Dom.NoBreakSpaceJoins | utils/validate/bem.js:76 | `class="box\u00A0visually-hidden"` is one token, so the element does not carry `visually-hidden` |
| Dom.WithAttrValueAppend | utils/validate/html.js:92-93 | filtering two runs in turn keeps their order: the kept members of the first run come first |
| Dom.GetAttrFound | utils/validate/html.js:52 | `getAttribute` finds nothing exactly when no attribute has the name |
| Dom.First | utils/validate/html.js:70 | the first member, or nothing for none |
| Dom.Query | utils/validate/html.js:70 | `querySelector(tag)`: nothing exactly when no element of the tree has the tag; otherwise the first element with the tag in document order |
| Dom.WithTagFirst | utils/validate/html.js:70 | the first member the tag filter keeps is the first member of the list with the tag |
| Dom.OpenTag | utils/validate/semantic-styles.js:17-23 | the rebuilt start tag `<tag a="v" …>` begins with `<` and the tag and ends with `>` |
| Dom.EscapeAttr | utils/validate/html.js:126 | an attribute value in `outerHTML` holds no `"`, so it cannot end its quotes early; a value without `&`, no-break space or `"` is written as it is |
| Dom.EscapeText | utils/validate/html.js:126 | text in `outerHTML` holds no `<` or `>`; text without `&`, no-break space, `<` or `>` is written as it is |
| Dom.OuterHtmlStart | utils/validate/bem.js:40 | an element's `outerHTML` starts with its start tag, attribute values escaped |
| Bem.FirstOf | utils/validate/bem.js:7 | the position of the first occurrence of a character, or the length when there is none |
| Bem.DashDash | utils/validate/bem.js:7 | the position of the first `--`, or the length when there is none |
| Bem.ParseBemSound | utils/validate/bem.js:7 | every class the recogniser of `BEM_CLASS_PATTERN` accepts is a well-formed block, optional `__element` and optional `--modifier` (each a hyphenated lower-case name) put together |
| Bem.ParseBemComplete | utils/validate/bem.js:7 | every well-formed block, element and modifier put together is accepted and taken apart into exactly those parts |
| Bem.ParseModifiedSound | utils/validate/bem.js:7 | what `name(--name)?` accepts is a name and an optional name joined by `--` |
| Bem.ParseModifiedComplete | utils/validate/bem.js:7 | a name with an optional `--modifier` is accepted and taken apart into those parts |
| Bem.NameHasNoUnderscore | utils/validate/bem.js:7 | a hyphenated lower-case name holds no `_` |
| Bem.CheckToken | utils/validate/bem.js:43-68 | the table gains exactly the token's findings: none for an empty token, an invalid-name finding when the pattern fails, a presentational finding when a presentational prefix or suffix matches |
| Bem.CheckTokens | utils/validate/bem.js:43-69 | the table gains the findings of every token in order |
| Bem.CheckElement | utils/validate/bem.js:38-85 | the table gains the element's token findings and then its wrapper finding |
| Bem.CheckElements | utils/validate/bem.js:36-85 | the table gains the findings of every classed element in document order |
| Bem.ValidateBem | utils/validate/bem.js:9-105 | the output is the report of the BEM findings of every `.html` page in listing order, or the single error line when the pages cannot be read |
| Bem.CheckPages | utils/validate/bem.js:13-100 | the pages' findings go into one table, page after page in listing order, and the output is the report of them all |
| Bem.TokenFound | utils/validate/bem.js:45-68 | one token gets an invalid-name finding exactly when it is non-empty and fails the pattern, and a presentational finding exactly when it is non-empty and presentational |
| Bem.InvalidTokenFound | utils/validate/bem.js:39-55 | an invalid-name finding for a class is produced exactly when it is a non-empty token of the attribute failing the pattern |
| Bem.PresentationalTokenFound | utils/validate/bem.js:57-68 | a presentational finding is produced exactly when a non-empty token has one of the eleven prefixes or five suffixes, whatever its BEM validity |
| Bem.TokensFindingsShape | utils/validate/bem.js:49-67 | every token finding carries the element's line and first markup line and is never a wrapper finding |
| Bem.WrapperFound | utils/validate/bem.js:72-84 | an element gets the wrapper finding exactly when it has one element child, no non-whitespace text, no descendant img and no `visually-hidden` token among its class tokens split at ASCII white space |
| Bem.ElementFindingsPlace | utils/validate/bem.js:40-41 | all findings of an element carry the number of the first source line containing its first markup line (0 when none) and that markup line as context |
| Validation.Combine | utils/validate/index.js:21-36 | the combined list is the HTML, BEM, styles, images and structure results concatenated in that order; the exit code is 1 when the list is non-empty and 0 exactly when it is empty |
| Validation.HtmlQuiet | utils/validate/index.js:12-18 | the HTML checker's output is empty exactly when it produced no finding and could read its pages |
| Validation.BemQuiet | utils/validate/index.js:12-18 | the BEM checker's output is empty exactly when it produced no finding and could read its pages |
| Validation.StylesQuiet | utils/validate/index.js:12-18 | the styles checker's output is empty exactly when it produced no finding |
| Validation.ImagesQuiet | utils/validate/index.js:12-18 | the images checker's output is empty exactly when it produced no finding |
| Validation.StructureQuiet | utils/validate/index.js:12-18 | the structure checker's output is empty exactly when it produced no finding |
| Validation.RunPassesIffNoFindings | utils/validate/index.js:12-36 | the run exits with 0 exactly when all five checkers read their input and found nothing |
| W3c.Contexts | utils/validate/w3c.js:16-33 | one trimmed line per source line |
| W3c.ErrorFinding | utils/validate/w3c.js:27-40 | the finding names the page and the validator's text; its line is `lastLine`, else `firstLine`, else 1 |
| W3c.ErrorFindingContext | utils/validate/w3c.js:28-33 | the context is the trimmed source line when the line named is non-zero and within the page, and empty otherwise |
| W3c.CheckMessage | utils/validate/w3c.js:25-42 | one message yields its finding exactly when it is of type `error` |
| W3c.CheckMessages | utils/validate/w3c.js:24-43 | the findings of the messages, in order |
| W3c.CheckPage | utils/validate/w3c.js:15-50 | a page's findings: those of the validator's messages, or the single failure finding at line 1 when the validator throws |
| W3c.HtmlFiles | utils/validate/w3c.js:8-9 | exactly the listing's entries whose name ends in `.html`, in listing order |
| W3c.FirstUnreadable | utils/validate/w3c.js:12-15 | the position of the first `.html` entry that is a directory, which no earlier one is |
| W3c.ValidateW3C | utils/validate/w3c.js:6-65 | the errors and logged lines are those of the pages in listing order, each page logged with `logValidationErrors`; an unreadable directory or page gives the single `unknown` failure finding, after the lines already logged |
| W3c.MessageFindingsAreErrors | utils/validate/w3c.js:24-42 | the findings are exactly those of the `error` messages, in order |
| W3c.ErrorMessagesMembers | utils/validate/w3c.js:26 | the messages kept are exactly the `error` ones |
| W3c.MessageFindingsFound | utils/validate/w3c.js:24-43 | a finding is produced exactly when some `error` message maps to it |
| W3c.PageClean | utils/validate/w3c.js:14-50 | a page has no finding exactly when the validator answered and none of its messages is an error |
| W3c.PageFindingsPlace | utils/validate/w3c.js:35-49 | every finding of a page names that page and a line from 1 on |
| W3c.RunClean | utils/validate/w3c.js:12-54 | the run returns nothing exactly when every page is clean |
| W3c.RunNamesPages | utils/validate/w3c.js:35-53 | every finding returned names one of the pages |
| W3c.RunLogsEveryPage | utils/validate/w3c.js:52 | every page is logged, as passed or under its own header |
| W3c.W3cPasses | utils/validate/w3c.js:6-65 | no error is returned exactly when the directory is readable, every `.html` entry is a file and every page is clean |
| W3c.FailureIffUnreadable | utils/validate/w3c.js:8-64 | the `unknown` failure finding is returned exactly when the directory or one of its pages cannot be read |
| Cleanup.LiteralExact | utils/cleanup-repo.js:6-38 | a pattern without `*` matches only the identical name |
| Cleanup.StarSplit | utils/cleanup-repo.js:34-36 | `*` followed by a literal matches a name exactly when some split leaves a one-line prefix and a suffix the literal matches |
| Cleanup.ExtensionPatternAsWritten | utils/cleanup-repo.js:9-36 | as written, `*.ext` matches exactly the names longer than `ext` that end in `ext` with a one-line rest: the dot matches any character |
| Cleanup.ExtensionPattern | utils/cleanup-repo.js:9-13 | corrected, `*.ext` matches exactly the one-line names ending in `.ext` |
| Cleanup.TildePattern | utils/cleanup-repo.js:12 | `~*` matches exactly the one-line names starting with `~` |
| Cleanup.ShouldCleanCases | utils/cleanup-repo.js:6-39 | a name is cleaned exactly when it is `.DS_Store` or `Thumbs.db`, ends in `.log`, `.tmp`, `.bak` or `.swp`, or starts with `~` |
| Cleanup.CleanupDir | utils/cleanup-repo.js:21-51 | the entries kept and the log lines are those of the recursive walk with the patterns as written (the dots unescaped): directories are kept and entered, matching files are removed unless their deletion fails, which is logged |
| Cleanup.LogCountsMatches | utils/cleanup-repo.js:41-47 | for the walk as written and for the corrected one alike, there is one log line per matching file anywhere in the tree |
| Cleanup.AllRemovedClean | utils/cleanup-repo.js:41-44 | for either walk, when every deletion succeeds no file that walk matches is left anywhere |
| Cleanup.AllFailedKept | utils/cleanup-repo.js:45-47 | for either walk, when every deletion fails the tree is left exactly as it was |
| Cleanup.DirsKept | utils/cleanup-repo.js:28-30 | for either walk, directories are never removed: each stays under its name holding its own cleaned listing |
| Cleanup.ChangelogRemovedAsWritten | utils/cleanup-repo.js:35 | as written `changelog` is cleaned (`*.log` matches it), while the corrected matcher keeps it |
| Cleanup.LiteralDotWithin | utils/cleanup-repo.js:35 | a name the pattern matches with its dots taken literally is matched by the pattern as written too |
| Cleanup.ShouldCleanWithinAsWritten | utils/cleanup-repo.js:6-39 | every name the corrected matcher cleans, the matcher as written cleans too: the bug only adds deletions |
| Html.TitleText | utils/validate/html.js:70-78 | a title is taken only when there is a `title` element and its trimmed text is non-empty |
| Html.TitleFindings | utils/validate/html.js:69-89 | at most one finding, naming the page: "missing title" exactly when there is no usable title, "duplicate title" exactly when the title is already owned, and then it names that title and its owner |
| Html.DescriptionText | utils/validate/html.js:92-100 | a description is taken only from a `meta[name="description"]` with non-empty `content` |
| Html.DescriptionFindings | utils/validate/html.js:91-111 | at most one finding: "missing description" exactly when there is no usable description, "duplicate description" exactly when it is already owned, naming the owner |
| Html.OuterHtmls | utils/validate/html.js:126 | the `outerHTML` of each node, in order, with text and attribute values escaped as the HTML serialiser escapes them |
| Html.H1Findings | utils/validate/html.js:113-128 | no finding exactly when there is one `h1`; "missing h1" exactly when there is none; "multiple h1" exactly when there are several |
| Html.UsedTagsAre | utils/validate/html.js:130-137 | the semantic tags found are exactly the listed tags the document uses, each once |
| Html.ImageFindings | utils/validate/html.js:150-170 | a missing-alt finding exactly when `alt` is absent (an empty `alt` passes) and, independently, a missing-size finding exactly when `width` or `height` is absent; nothing else |
| Html.LinkFindings | utils/validate/html.js:174-202 | a missing-href finding exactly when `href` is absent or empty; a `#` finding exactly when it is `#`; independently, an external-link finding exactly when it starts with `http` and there is no `target`; nothing else |
| Html.Controls | utils/validate/html.js:218 | exactly the `input`, `textarea` and `select` elements of the form |
| Html.ControlFindings | utils/validate/html.js:219-239 | a missing-name finding exactly when `name` is absent; an input-type finding exactly when the control is an `input` without `type`; nothing else |
| Html.StripErrorPrefixMeaning | utils/validate/html.js:256 | a leading `Error:` and the white space after it are removed, and nothing else |
| Html.ErrorLines | utils/validate/html.js:250 | exactly the report lines containing `Error:` |
| Html.ErrorFindingMeaning | utils/validate/html.js:251-260 | an error line's finding carries the stripped text, the line the report names when it is non-zero, and that source line as context only when the page has it |
| Html.LineNumberAt | utils/validate/html.js:252-253 | `/line (\d+)/` takes the first `line ` followed by a digit, and all the digits after it |
| Html.LineNumberOfText | utils/validate/html.js:252-253 | a report line naming `line <n>` gives back `n` |
| Html.ErrorsFindings | utils/validate/html.js:251-260 | one finding per error line |
| Html.CheckDoctype | utils/validate/html.js:38-46 | the table gains the doctype finding (line 1, first source line as context) exactly when the trimmed, lower-cased content does not start with `<!doctype html>` |
| Html.CheckLang | utils/validate/html.js:48-57 | the table gains the `lang` finding exactly when the `html` element lacks it |
| Html.CheckCharset | utils/validate/html.js:59-67 | the table gains the charset finding exactly when there is no `meta[charset]` |
| Html.CheckTitle | utils/validate/html.js:69-89 | the table gains the title findings, and the title table is claimed for this page only when the title is new |
| Html.CheckDescription | utils/validate/html.js:91-111 | the table gains the description findings, and the description table is claimed for this page only when the description is new |
| Html.CheckH1 | utils/validate/html.js:113-128 | the table gains the `h1` findings |
| Html.UsedOf | utils/validate/html.js:130-137 | the tags collected are exactly the listed tags the document uses, in list order |
| Html.CheckSemantic | utils/validate/html.js:130-146 | the table gains the semantic-tags finding, listing the tags found, exactly when fewer than three are used |
| Html.CheckImage | utils/validate/html.js:150-170 | the table gains the image's findings |
| Html.CheckImages | utils/validate/html.js:148-170 | the table gains the findings of every `img` in document order |
| Html.CheckLink | utils/validate/html.js:174-202 | the table gains the link's findings |
| Html.CheckLinks | utils/validate/html.js:172-202 | the table gains the findings of every `a` in document order |
| Html.CheckControl | utils/validate/html.js:219-239 | the table gains the control's findings |
| Html.CheckControls | utils/validate/html.js:218-239 | the table gains the findings of every control in order |
| Html.CheckForm | utils/validate/html.js:206-240 | the table gains the missing-action finding and then the controls' findings |
| Html.CheckForms | utils/validate/html.js:204-240 | the table gains the findings of every `form` in document order |
| Html.CheckError | utils/validate/html.js:251-260 | the table gains the finding of one error line of the validator's report |
| Html.CheckErrors | utils/validate/html.js:250-260 | the table gains the findings of the error lines in order |
| Html.CheckReport | utils/validate/html.js:242-267 | the table gains nothing for a report without `Error:`, one finding per error line otherwise, and the failure finding without a line when the validator throws |
| Html.CheckFavicon | utils/validate/html.js:269-277 | the table gains the favicon finding exactly when no `link` has a `rel` that is `icon` up to ASCII case |
| Html.CheckHead | utils/validate/html.js:38-111 | the table gains the doctype, `lang`, charset, title and description findings, in that order, and both tables are claimed as above |
| Html.CheckBody | utils/validate/html.js:113-240 | the table gains the `h1`, semantic-tag, image, link and form findings, in that order |
| Html.CheckPage | utils/validate/html.js:33-277 | the table gains every finding of the page in source order, and the title and description tables are updated |
| Html.CheckPageAt | utils/validate/html.js:32-278 | for the i-th page, the tables before it are the first-owner tables of the earlier pages and after it those of the pages up to it |
| Html.CheckPages | utils/validate/html.js:28-279 | the pages are all checked exactly when every page parses with an `html` element, and the table then gains every page's findings in listing order |
| Html.ValidateHtml | utils/validate/html.js:7-297 | the output is the report of every page's findings in listing order, or the single failure line when a page cannot be read or has no `html` element |
| Html.HtmlLogSnoc | utils/validate/html.js:32-278 | the findings of the first i+1 pages are those of the first i followed by the i-th page's |
| Html.OwnersSnoc | utils/validate/html.js:87-109 | the owner table after a page is the one before it with the page's key claimed |
| Html.ClaimAllFirst | utils/validate/html.js:79-88 | a key is owned exactly when some page has it, and its owner is the first page that has it |
| Html.OwnersAreClaims | utils/validate/html.js:79-110 | the owner table is the first-claim table of the pages' keys |
| Html.OwnerIsFirst | utils/validate/html.js:79-110 | a title or description is owned exactly when some page has it, and its owner is the first such page in listing order |
| Html.FirstWithKeyUnique | utils/validate/html.js:79-88 | the first page with a key is unique, so the owner never changes |
| Html.DuplicateIff | utils/validate/html.js:79-107 | page k gets "duplicate title t, owned by o" exactly when its title is t and an earlier page o is the first with t; likewise for descriptions |
| Html.OwnedByFirst | utils/validate/html.js:79-88 | among the first k pages, a key's owner is o exactly when o is the first page with that key |
| Html.MissingKeyNotClaimed | utils/validate/html.js:71-98 | a page without a usable title or description never enters that table |
| Html.DoctypeCount | utils/validate/html.js:39-46 | the doctype check reports its finding once when it fails and never otherwise |
| Html.LangCount | utils/validate/html.js:50-57 | the `lang` check reports its finding once when it fails and never otherwise |
| Html.CharsetCount | utils/validate/html.js:60-67 | the charset check reports its finding once when it fails and never otherwise |
| Html.FaviconIsIconLink | utils/validate/html.js:270 | a page has a favicon exactly when one of its `link` elements has a `rel` equal to `icon` up to ASCII case (`rel="Icon"` counts) |
| Html.FaviconCount | utils/validate/html.js:270-277 | the favicon check reports its finding once when it fails and never otherwise |
| Html.H1Count | utils/validate/html.js:114-128 | the `h1` check reports only its own messages, at most once |
| Html.ElementLevelCount | utils/validate/html.js:149-240 | findings about single elements never carry a page-level message |
| Html.ReportCount | utils/validate/html.js:243-267 | the validator's findings never carry a page-level message |
| Html.PageCountIs | utils/validate/html.js:38-277 | a page gets exactly one finding for each failed page-level check (doctype, `lang`, charset, title, description, no `h1`, several `h1`, semantic tags, favicon) and none for a passed one |
| SemanticStyles.HasPartialOverlap | utils/validate/semantic-styles.js:134-142 | two one-token values never overlap |
| SemanticStyles.OverlapIsProperPrefix | utils/validate/semantic-styles.js:134-149 | two values overlap exactly when the tokens of one are a proper prefix of the tokens of the other; hence the test is symmetric |
| SemanticStyles.PartsOverlapIsProperPrefix | utils/validate/semantic-styles.js:140-148 | on token lists, the one-token guard and the shorter/longer comparison together are the proper-prefix relation in either direction |
| SemanticStyles.PrefixAgrees | utils/validate/semantic-styles.js:148 | `shorter.every((part, i) => part === longer[i])` holds exactly when the shorter list is the longer one's prefix |
| SemanticStyles.CheckDisplay | utils/validate/semantic-styles.js:109-122 | the findings of a rule's declarations for one targeted element, each with the context `prop: value (file:line)` |
| SemanticStyles.CheckRuleOverrides | utils/validate/semantic-styles.js:104-124 | the findings of one rule for each default-block element its lower-cased selector targets |
| SemanticStyles.CheckDefaultPropertyOverrides | utils/validate/semantic-styles.js:100-126 | the findings of every rule in order |
| SemanticStyles.DisplayFound | utils/validate/semantic-styles.js:110-120 | a `display` finding exists for an element exactly when a declaration repeats that element's default (`block`, or `list-item` for `li`) |
| SemanticStyles.RuleOverrideFound | utils/validate/semantic-styles.js:104-124 | a rule's findings are exactly, per default-block element its selector equals, starts with `element.` or contains `element[`, the declarations repeating that element's default |
| SemanticStyles.OverrideFound | utils/validate/semantic-styles.js:100-126 | a stylesheet gets a `display` finding for an element at a declaration exactly when some rule targets the element and holds the declaration with its default value, once per matching element name |
| SemanticStyles.CheckRuleDuplications | utils/validate/semantic-styles.js:161-187 | the findings of one rule's declarations, the `properties` map being updated at every declaration; the context shows the previous and the current declaration, each with the file and line the parser gives for it |
| SemanticStyles.CheckPropertyDuplications | utils/validate/semantic-styles.js:152-189 | the findings of every rule in order, rules with `:` in their selector skipped |
| SemanticStyles.PreviousIsMostRecent | utils/validate/semantic-styles.js:166-167 | the previous declaration is absent exactly when the property was not declared earlier in the rule, and is otherwise the most recent such declaration |
| SemanticStyles.LatestIsLast | utils/validate/semantic-styles.js:161-186 | the `properties` map holds a property exactly when it was declared so far, mapped to its latest declaration |
| SemanticStyles.LatestIsPrevious | utils/validate/semantic-styles.js:166-186 | what the map holds for a property just before a declaration is that declaration's previous one |
| SemanticStyles.RuleDuplicatesAreVerdicts | utils/validate/semantic-styles.js:163-187 | the loop's findings are the verdicts on each declaration against its previous one, in order |
| SemanticStyles.RuleDuplicatesFound | utils/validate/semantic-styles.js:163-187 | a declaration is flagged exactly when the property was declared before in the rule and the most recent such declaration has the identical value ("duplicate") or, for a shorthand property, a partly overlapping one ("overlapping") |
| SemanticStyles.DuplicationFound | utils/validate/semantic-styles.js:155-159 | rules whose selector has a `:` give no duplicate findings; every other rule is checked on its own |
| SemanticStyles.ClassNames | utils/validate/semantic-styles.js:39-43 | a paragraph has class names exactly when it has a `class` attribute |
| SemanticStyles.FindParagraphs | utils/validate/semantic-styles.js:46-56 | the accumulator is extended with the `p` elements of the subtree, in document order |
| SemanticStyles.FindParagraphsIn | utils/validate/semantic-styles.js:51-53 | the accumulator is extended with the `p` elements of each child in turn |
| SemanticStyles.ParagraphsAre | utils/validate/semantic-styles.js:46-56 | the paragraphs found are exactly the `p` elements of the tree |
| SemanticStyles.GetLineNumber | utils/validate/semantic-styles.js:27-36 | the first line (from 1) containing the rebuilt start tag, or 1 when none does |
| SemanticStyles.CheckFontDecls | utils/validate/semantic-styles.js:80-93 | the findings of a selected rule's text-styling declarations, each with the context `prop: value (page:line) - defined in file:line` |
| SemanticStyles.LocationReadsBack | utils/validate/semantic-styles.js:89 | a `file:line` location gives back the file before the colon and the line read from the digits after it |
| SemanticStyles.CheckClassFont | utils/validate/semantic-styles.js:79-94 | the findings of every rule the class selects |
| SemanticStyles.CheckParagraph | utils/validate/semantic-styles.js:72-95 | the findings of each non-empty class name of the paragraph, at its line |
| SemanticStyles.CheckParagraphFontStyles | utils/validate/semantic-styles.js:59-97 | the findings of every paragraph in document order |
| SemanticStyles.FontDeclFound | utils/validate/semantic-styles.js:81-91 | a declaration gives a finding exactly when its property contains `font` or is `line-height`, `letter-spacing` or `text-align` |
| SemanticStyles.ClassFontFound | utils/validate/semantic-styles.js:79-94 | for a class name, each text-styling declaration of each rule whose selector holds `.name` not followed by a word character or `-` gives a finding, and nothing else does |
| SemanticStyles.ClassesFontFound | utils/validate/semantic-styles.js:76-95 | empty class names give nothing; each other one gives its findings |
| SemanticStyles.PageFontFound | utils/validate/semantic-styles.js:69-96 | a page gets a font finding exactly for each paragraph, each non-empty class name of it, each rule selecting that class and each text-styling declaration of that rule, at the paragraph's line |
| SemanticStyles.StyleEntries | utils/validate/semantic-styles.js:216 | only `.scss` and `.css` entries are kept |
| SemanticStyles.HtmlEntries | utils/validate/semantic-styles.js:231 | only `.html` entries are kept |
| SemanticStyles.StyleFilesErrors | utils/validate/semantic-styles.js:216-228 | the style files' entries exist exactly when every style file parses, one per file |
| SemanticStyles.StyleFilesErrorsAt | utils/validate/semantic-styles.js:216-228 | when every style file parses, the i-th entry is the i-th file's path under the styles directory with its display-override and then its duplicate findings |
| SemanticStyles.StyleFilesErrorsStop | utils/validate/semantic-styles.js:225-226 | a style file the parser throws on leaves the loop without entries |
| SemanticStyles.PagesFound | utils/validate/semantic-styles.js:231-249 | the pages' entries are missing exactly when there are pages and the joined stylesheets do not parse |
| SemanticStyles.CollectStyleErrors | utils/validate/semantic-styles.js:216-228 | one `fileErrorsMap` entry per style file: its display-override findings, then its duplicate findings; nothing when a style file does not parse |
| SemanticStyles.CollectPageErrors | utils/validate/semantic-styles.js:231-249 | one entry per page: its font findings against the joined stylesheets, parsed again for each page; nothing when there are pages and that parse fails |
| SemanticStyles.FailsExactlyWhenCannotFinish | utils/validate/semantic-styles.js:208-268 | the result is the single failure finding exactly when a listing cannot be read, a listed entry is a directory, a style file does not parse, or there are pages and the joined stylesheets do not parse; the findings gathered before are then dropped |
| SemanticStyles.LogFiles | utils/validate/semantic-styles.js:252-257 | every file with findings is logged with `logValidationErrors` and its findings are appended |
| SemanticStyles.ValidateSemanticStyles | utils/validate/semantic-styles.js:208-268 | the returned findings and logged lines are those of the style files and then the pages; the result is the single failure finding exactly when a listing or file cannot be read or a stylesheet does not parse |
| SemanticStyles.LoggedIsAll | utils/validate/semantic-styles.js:252-259 | every finding of every file is returned in file order, and nothing is logged exactly when nothing is returned |
| Styles.StylePages | utils/validate/styles.js:10-14 | no more pages than listing entries |
| Styles.StylePagesAre | utils/validate/styles.js:10-36 | the files can be read exactly when every kept entry is a file, and the pages are then exactly the `.css`/`.scss` entries whose name does not contain `normalize` |
| Styles.RunEnd | utils/validate/styles.js:87-112 | a greedy character-class run: every character up to the end satisfies the class and the next does not |
| Styles.ParenEnd | utils/validate/styles.js:87 | `[^)]+\)` ends at a `)` with at least one other character before it and no `)` in between |
| Styles.ColorEnd | utils/validate/styles.js:87 | a colour alternative matched at a position spans a colour literal: `#` and 3-8 hex digits, or `rgb(a)`/`hsl(a)` with a parenthesised argument |
| Styles.FunctionColorIs | utils/validate/styles.js:87 | `rgba?\(` or `hsla?\(` up to the first `)` is a colour literal |
| Styles.ColorsFrom | utils/validate/styles.js:87-90 | every colour a line yields is a colour literal |
| Styles.FontSizeAt | utils/validate/styles.js:110 | a `font-size` match at a position starts with `font-size:` and its unit is px, em or rem |
| Styles.FontSizeMatchFrom | utils/validate/styles.js:110 | the leftmost position at which the `font-size` pattern matches, and none before it |
| Styles.FontSizeUnit | utils/validate/styles.js:110-115 | the unit of a line's `font-size` match is px, em or rem |
| Styles.LastBoundary | utils/validate/styles.js:111-112 | `[^;]*[0-9.]+([a-z]+)` backtracks to the last digit-then-letter boundary before the limit |
| Styles.BoxUnitAt | utils/validate/styles.js:111-112 | a margin/padding match at a position starts with the keyword and captures a non-empty run of lower-case letters |
| Styles.BoxMatchFrom | utils/validate/styles.js:111-112 | the leftmost position at which the margin/padding pattern matches, and none before it |
| Styles.BoxUnit | utils/validate/styles.js:111-137 | the unit captured for margin or padding is a non-empty run of lower-case letters |
| Styles.EstablishedIsFirst | utils/validate/styles.js:81-117 | the unit is unset exactly when no line has a px/em/rem `font-size`, and is otherwise the unit of the first such line |
| Styles.EstablishedStable | utils/validate/styles.js:116-118 | once established, the unit never changes |
| Styles.EstablishedSnoc | utils/validate/styles.js:83-126 | the unit after one more line is the unit before it stepped by that line |
| Styles.FileUnitsAreVerdicts | utils/validate/styles.js:83-145 | a file's unit findings are each line's findings given the unit established before it, in line order |
| Styles.UnitFindingsAt | utils/validate/styles.js:83-145 | a finding is among a file's unit findings exactly when it is among one line's |
| Styles.InconsistentFound | utils/validate/styles.js:114-126 | an "inconsistent units" finding names line n exactly when that line's `font-size` unit differs from the one established by the lines before it, with the trimmed line as context |
| Styles.MarginFound | utils/validate/styles.js:128-135 | a margin finding names line n exactly when that line's margin unit differs from the unit established up to and including it, also when none is established |
| Styles.PaddingFound | utils/validate/styles.js:137-144 | the same for padding |
| Styles.LineColorUsesAre | utils/validate/styles.js:87-107 | a line records each colour literal it matches, lower-cased, with its file, line and trimmed text, and nothing when it contains `var(` or `$` |
| Styles.RecordAllAppend | utils/validate/styles.js:93-105 | recording two runs of uses one after the other is recording their concatenation |
| Styles.ColorTableIs | utils/validate/styles.js:93-105 | `colorUsage` groups the uses: one key per colour used, in order of first use, holding all its uses in file and line order |
| Styles.OtherUsages | utils/validate/styles.js:156-159 | one listed line per other usage |
| Styles.ColorFindingsAre | utils/validate/styles.js:149-162 | the colour findings of a table are one per colour with more than one use |
| Styles.DuplicateColorFound | utils/validate/styles.js:149-162 | a colour finding is exactly the one for a colour used more than once, at its first use, listing the others |
| Styles.DuplicateColorSound | utils/validate/styles.js:149-162 | every colour finding is that of a colour used more than once |
| Styles.DuplicateColorComplete | utils/validate/styles.js:149-162 | every colour used more than once gets its finding |
| Styles.DuplicateColorOnce | utils/validate/styles.js:149-162 | a colour used more than once gives exactly one finding; single-use colours give none |
| Styles.RecordLineColors | utils/validate/styles.js:87-108 | the table after a line is the one before it with the line's colour uses recorded |
| Styles.CheckLineUnits | utils/validate/styles.js:110-144 | the table gains the line's `font-size`, margin and padding findings, and the established unit is stepped by the line |
| Styles.CheckLines | utils/validate/styles.js:80-145 | the table gains the file's unit findings, with the unit starting unset, and the colour table gains the file's colour uses |
| Styles.ReportLint | utils/validate/styles.js:45-54 | the table gains one finding per stylelint warning, with its source line as context |
| Styles.ReportPrefix | utils/validate/styles.js:57-77 | the table gains one finding per autoprefixer warning at its line (1 when it has none), or one error finding at line 1 when autoprefixer throws |
| Styles.CheckStyleFile | utils/validate/styles.js:34-145 | the table gains the stylelint, autoprefixer and unit findings of one file, in that order, and the colour table its colour uses |
| Styles.ReportColors | utils/validate/styles.js:149-162 | the table gains the colour findings |
| Styles.ValidateStyles | utils/validate/styles.js:8-181 | the output is the report of every checked file's findings and then the colour findings, or the single failure line when the styles directory or a file cannot be read |
| Structure.LastDot | utils/validate/structure.js:147 | the position of the last `.` of a name, or none when it has no `.` |
| Structure.Extname | utils/validate/structure.js:147 | `path.extname`: empty exactly when the name is `..` or has no `.` after its first character; otherwise the name's suffix from its last `.` |
| Structure.PruneEntry | utils/validate/structure.js:51-54 | pruning keeps an entry's name and kind |
| Structure.PruneIsClean | utils/validate/structure.js:51-54 | after pruning no entry at any depth is named `node_modules` or `.git` |
| Structure.PruneKeepsClean | utils/validate/structure.js:51-54 | pruning removes nothing else: a tree without such names is its own pruning |
| Structure.WalkIsPruned | utils/validate/structure.js:47-109 | `validateDir` is the file rules applied to every file of the pruned tree, in walk order |
| Structure.WalkIgnoresSkipped | utils/validate/structure.js:51-54 | removing every `node_modules` and `.git` subtree beforehand changes nothing |
| Structure.WalkFound | utils/validate/structure.js:47-109 | a walk finding comes from the rules of exactly one file of the pruned tree |
| Structure.FileFindingsIn | utils/validate/structure.js:70-106 | a file's findings are exactly those of its five independent rules: system file, lower-case name, space in name, empty page, unnecessary file |
| Structure.LowercaseFound | utils/validate/structure.js:76-78 | a name is flagged as not lower-case exactly when it has an ASCII upper-case letter (`A` to `Z`) and is not `README.md` |
| Structure.SystemFileFlaggedTwice | utils/validate/structure.js:71-78 | `.DS_Store` and `Thumbs.db` get the system-file finding and also the lower-case finding |
| Structure.FileFindingsAreRules | utils/validate/structure.js:70-106 | every file finding is keyed `structure` and is one of the file rules' messages |
| Structure.NonStyleNoNormalize | utils/validate/structure.js:125-129 | rejecting non-style files never reports the missing normalize sheet |
| Structure.NormalizeCount | utils/validate/structure.js:115-123 | one "normalize not found" finding exactly when the styles directory is readable and no entry's lower-cased name contains `normalize` and ends in `.css` |
| Structure.NonStyleFound | utils/validate/structure.js:125-129 | a non-style finding names exactly the styles-directory entries ending in neither `.css` nor `.scss` |
| Structure.ImageWalkIsFiles | utils/validate/structure.js:135-155 | `validateImagesDir` is the type check applied to every file under the directory, no name skipped |
| Structure.NonImageFound | utils/validate/structure.js:135-155 | a non-image finding names exactly the files under the images directory whose lower-cased extension is not one of the six and which are not system files |
| Structure.WalkMessages | utils/validate/structure.js:70-106 | the tree walk gives only file-rule messages |
| Structure.StylesDirMessages | utils/validate/structure.js:115-129 | the styles-directory check gives only its two messages |
| Structure.ImagesDirMessages | utils/validate/structure.js:150-152 | the images-directory check gives only non-image findings |
| Structure.OthersAbsent | utils/validate/structure.js:29-44 | only the required-entry checks produce the missing-directory and missing-index findings |
| Structure.RequiredIs | utils/validate/structure.js:29-44 | the required checks are those of `styles`, `images` and `assets`, in that order, then the index page |
| Structure.RequiredDirCount | utils/validate/structure.js:31-37 | a required directory's check reports it once when it is missing and never otherwise |
| Structure.RequiredCount | utils/validate/structure.js:29-161 | in the whole log, each missing required directory gives exactly one finding and a missing `index.html` exactly one; present ones give none |
| Structure.AddWhen | utils/validate/structure.js:35-43 | the table gains the finding keyed `structure` exactly when the condition holds |
| Structure.CheckRequired | utils/validate/structure.js:29-44 | the table gains the required-entry findings |
| Structure.CheckFile | utils/validate/structure.js:70-106 | the table gains the findings of one file's rules, in source order |
| Structure.ValidateDir | utils/validate/structure.js:47-109 | the table gains the walk's findings over the listing, skipped names left out at every depth |
| Structure.CheckStylesDir | utils/validate/structure.js:114-132 | the table gains the styles-directory findings, nothing when it cannot be read |
| Structure.ValidateImagesDir | utils/validate/structure.js:135-155 | the table gains the images-directory walk's findings |
| Structure.ValidateStructure | utils/validate/structure.js:11-180 | the output is the report of the required-entry, walk, styles-directory and images-directory findings, in that order |
| Images.StripImagesPrefix | utils/validate/images.js:73 | a leading `images/` is removed and nothing else; a `src` without it is unchanged |
| Images.PrefixOptional | utils/validate/images.js:73 | a `src` written with or without the leading `images/` names the same entry |
| Images.ImgChecksAt | utils/validate/images.js:49-91 | every finding of an `img` is on its page, on the first line holding its markup, with the markup as context, and its verdict holds |
| Images.ImgChecksFound | utils/validate/images.js:51-91 | an `img` finding is reported exactly when its verdict holds: a missing or empty `alt`; a missing or empty `width` or `height`; a missing `src`; a `src` that resolves to no entry under the images directory |
| Images.SizeMissingOnce | utils/validate/images.js:62-69 | the width/height pair gives one finding, never two |
| Images.HtmlFindingFound | utils/validate/images.js:32-93 | a finding of the pass over the pages is exactly one for an `img` of some page whose verdict holds |
| Images.HtmlFindingSound | utils/validate/images.js:32-93 | every finding of the pass over the pages is for an `img` whose verdict holds |
| Images.HtmlFindingComplete | utils/validate/images.js:32-93 | every `img` whose verdict holds gets its finding |
| Images.FileCheckAt | utils/validate/images.js:112-159 | every finding of a file is keyed by its area and path, without line or context, and its verdict holds |
| Images.FileCheckFound | utils/validate/images.js:111-160 | a file finding is reported exactly when its verdict holds: a system file gives only that finding; otherwise an extension outside the six gives only that; otherwise, for a non-SVG under `assets/images`, unreadable metadata, dimensions over 2000 and a size over 1024·1024 bytes |
| Images.SizeFound | utils/validate/images.js:137-153 | the dimensions finding exactly when width or height exceeds 2000, and the size finding exactly when the size exceeds 1024·1024 bytes |
| Images.WalkIsFiles | utils/validate/images.js:96-163 | the walk is the file checks applied to every file of the tree, at every depth, in walk order |
| Images.WalkFound | utils/validate/images.js:96-163 | a finding of a readable area belongs to exactly one of its files and that file's verdict holds |
| Images.SourcesNeverSizeChecked | utils/validate/images.js:129-170 | nothing under `images` is ever size-checked: its findings are system files, foreign extensions or the unreadable directory |
| Images.HtmlMessages | utils/validate/images.js:51-91 | the pass over the pages gives only `img` messages |
| Images.WalkMessages | utils/validate/images.js:111-159 | a walk gives only file messages |
| Images.UnreadableOnce | utils/validate/images.js:166-178 | an unreadable `images` or `assets/images` directory gives exactly one finding, and a readable one none |
| Images.CheckAlt | utils/validate/images.js:51-59 | the table gains the `alt` finding exactly when `alt` is missing or empty |
| Images.CheckSize | utils/validate/images.js:61-69 | the table gains the size finding exactly when `width` or `height` is missing or empty |
| Images.CheckSrc | utils/validate/images.js:71-91 | the table gains the missing-`src` finding, or the not-found finding when the `src` resolves to nothing |
| Images.CheckImg | utils/validate/images.js:44-92 | the table gains the `alt`, size and `src` findings of one `img`, in that order |
| Images.CheckPage | utils/validate/images.js:36-93 | the table gains the findings of every `img` of the page in document order |
| Images.CheckImageFile | utils/validate/images.js:107-160 | the table gains the file's findings, with the loop body's early exits |
| Images.CheckSizes | utils/validate/images.js:137-153 | the table gains the dimension and byte-size findings of a readable raster image |
| Images.ValidateImagesInDir | utils/validate/images.js:96-163 | the table gains the walk's findings over the listing |
| Images.CheckArea | utils/validate/images.js:165-178 | the table gains the area's walk findings, or the single unreadable finding keyed `images` or `assets/images` |
| Images.ValidateImages | utils/validate/images.js:14-197 | the output is the report of the page findings, then those of `images`, then those of `assets/images`, or the single failure line when the pages cannot be read |
| OptimizeStyles.PalettePlain | utils/optimize/styles.js:7-24 | every name of the colour table is at least three lower-case letters and every value is seven characters |
| OptimizeStyles.SkipSpaces | utils/optimize/styles.js:31 | the greedy `\s*` stops at the first non-space character or at the end of the text, and everything it skips is white space |
| OptimizeStyles.NameFrom | utils/optimize/styles.js:31 | the alternation takes a table name that matches here, in any letter case and followed by a word boundary, and finds none only when no name matches |
| OptimizeStyles.MatchAtValid | utils/optimize/styles.js:31 | a match is a `:`, a run of white space, then a table name in any letter case ending at a word boundary, so `blueviolet` is not matched |
| OptimizeStyles.NextMatch | utils/optimize/styles.js:34 | `exec` with the global flag returns the leftmost match at or after `lastIndex`, and no match when there is none |
| OptimizeStyles.Matches | utils/optimize/styles.js:34-44 | the loop's matches are real matches, lie after the start, and do not overlap |
| OptimizeStyles.AllOccurrencesFound | utils/optimize/styles.js:31-44 | every place in the text where the pattern matches is one of the loop's matches |
| OptimizeStyles.SortSorts | utils/optimize/styles.js:47 | the sort permutes the replacements into highest-position-first order |
| OptimizeStyles.SliceIndex | utils/optimize/styles.js:51-52 | `slice` clamps an index into the string and leaves an index already inside it alone |
| OptimizeStyles.TargetsOrdered | utils/optimize/styles.js:31-44 | the names to be replaced lie in the text and do not overlap one another |
| OptimizeStyles.TargetsSpliced | utils/optimize/styles.js:46-54 | splicing from the highest position down, at positions taken on the original text, gives the left-to-right rewrite that keeps every other character |
| OptimizeStyles.PositionIsStart | utils/optimize/styles.js:37 | for a name written in lower case, the computed position is where the name starts |
| OptimizeStyles.LowerCaseAsWritten | utils/optimize/styles.js:26-56 | when every match is written in lower case, each name is replaced by its hex value in place and nothing else changes |
| OptimizeStyles.NoMatchUnchanged | utils/optimize/styles.js:27-56 | a text with no match comes back unchanged |
| OptimizeStyles.LowerCaseLength | utils/optimize/styles.js:37-53 | for lower-case matches, the output length is the input length plus 7 minus the name length for each replacement |
| OptimizeStyles.OneMatchAsWritten | utils/optimize/styles.js:34-54 | a text with one match is spliced once, at the computed position |
| OptimizeStyles.OneMatchReference | utils/optimize/styles.js:34-54 | with one match, the intended rewrite exchanges the name where it is written for its hex value |
| OptimizeStyles.UpperCaseMisplaced | utils/optimize/styles.js:35-37 | on `a:RED` the position is missed: the output is `#ff0000ED` where `a:#ff0000` is intended |
| OptimizeStyles.CorrectedPositionIsStart | utils/optimize/styles.js:37 | a position taken on the lower-cased match is where the name starts, in any letter case |
| OptimizeStyles.CorrectedIsReference | utils/optimize/styles.js:35-37 | with the position taken on the lower-cased match, every text gets the intended rewrite |
| OptimizeStyles.CollectReplacements | utils/optimize/styles.js:30-44 | the `while` loop pushes one replacement per match, left to right, holding the lower-case name, its hex value and the computed position |
| OptimizeStyles.MoveDown | utils/optimize/styles.js:47 | one insertion step of the in-place sort: the entry moves below every entry whose position is not lower |
| OptimizeStyles.SortInPlace | utils/optimize/styles.js:47 | the array is sorted in place, stably, highest position first |
| OptimizeStyles.SpliceOne | utils/optimize/styles.js:51-53 | the text before the position, the hex value, then the text after the replaced name |
| OptimizeStyles.SpliceAll | utils/optimize/styles.js:50-54 | each replacement of the sorted array is spliced into the text in turn |
| OptimizeStyles.ReplaceNamedColors | utils/optimize/styles.js:26-57 | collect, sort and splice: the output is the rewrite as written |
| OptimizeHtml.SetAttrGet | utils/optimize/html.js:35-85 | after `setAttribute`, `getAttribute` of that name reads the new value and every other attribute reads as before |
| OptimizeHtml.GetAttrSnoc | utils/optimize/html.js:85 | an attribute appended at the end is found only when no earlier attribute has its name |
| OptimizeHtml.Element.SetAttribute | utils/optimize/html.js:35-85 | the element's attributes become the `setAttribute` update of the old list; tag and children are unchanged |
| OptimizeHtml.Element.AppendChild | utils/optimize/html.js:78 | the child is added after the existing children; tag and attributes are unchanged |
| OptimizeHtml.UseHrefRelative | utils/optimize/html.js:35 | a `/assets/` href loses only its leading slash, any other href is unchanged, and rewriting twice changes nothing more |
| OptimizeHtml.RewriteUseHrefs | utils/optimize/html.js:32-36 | every selected `use` gets the rewritten href and nothing else of it changes |
| OptimizeHtml.UseRewrittenGet | utils/optimize/html.js:32-36 | after the loop the `use` href is the old one without its leading slash and starts with `assets/`; every other attribute is as before |
| OptimizeHtml.WebpExtensionCut | utils/optimize/html.js:51 | a `.jpg`, `.jpeg` or `.png` extension, in any letter case, is cut off and `.webp` put in its place |
| OptimizeHtml.WebpPathSplit | utils/optimize/html.js:46-51 | the new path is the content folder, moved under `assets/` only when spelled in lower case, followed by the file name with its new extension |
| OptimizeHtml.WebpPathConverts | utils/optimize/html.js:46-51 | a content image's new path ends in `.webp`, has no leading slash, starts with `assets/images/content/` exactly when the folder was spelled in lower case, and is no longer a content image |
| OptimizeHtml.WebpNotContent | utils/optimize/html.js:46 | a `.webp` path never matches the content-image pattern, so a second pass changes nothing |
| OptimizeHtml.ContentImages | utils/optimize/html.js:40-54 | the count of converted images is at most the number of selected images |
| OptimizeHtml.ConvertImage | utils/optimize/html.js:43-55 | one image gets its WebP path exactly when its `src` is a content image, and the count grows by one exactly then |
| OptimizeHtml.ConvertImages | utils/optimize/html.js:39-56 | every selected image gets its new attribute list, others keep theirs, and the returned count is the number of content images |
| OptimizeHtml.AfterLastSlash | utils/optimize/html.js:71 | the last path segment holds no `/` and ends the path |
| OptimizeHtml.IconNameOf | utils/optimize/html.js:71 | the icon name of `<dir>/<name>.svg` is `name` |
| OptimizeHtml.CopiedGet | utils/optimize/html.js:81-87 | the copy has every attribute of the image except `src` and `alt`, each with its value |
| OptimizeHtml.SizeGet | utils/optimize/html.js:90-95 | `width` and `height` are set to `24` only when absent; other attributes are unchanged |
| OptimizeHtml.AriaGet | utils/optimize/html.js:98-103 | a non-empty alt gives `aria-label` equal to it and `role="img"`; otherwise `aria-hidden="true"` is set |
| OptimizeHtml.SpriteAttrsGet | utils/optimize/html.js:81-103 | the new `<svg>` has no `src` or `alt`; it has the image's width and height or `24`; it has the aria attributes chosen by the alt; every other attribute keeps its value |
| OptimizeHtml.SpriteFor | utils/optimize/html.js:67-103 | the loop body builds a fresh `<svg>` with those attributes and one `use` child pointing at `assets/images/icons/sprite.svg#icon-<name>` |
| OptimizeHtml.ReplaceIcons | utils/optimize/html.js:63-108 | each selected image gets its own fresh sprite, in order, and the count is the number of images |
| OptimizeMarkup.MapTags | utils/optimize/html.js:165-208 | a replace whose pattern matches only whole tags passes each tag through the callback and keeps every text run |
| OptimizeMarkup.MapPieces | utils/optimize/html.js:202-204 | a global replace of a bracket-free pattern acts on each text run and each tag separately |
| OptimizeMarkup.HrefValueAt | utils/optimize/html.js:153-207 | a value read after `href=` lies between two quotes and holds no quote |
| OptimizeMarkup.StylesPrefixReplaced | utils/optimize/html.js:169-172 | a `styles/` path becomes `assets/styles/` followed by the rest of the path with its first `.css` turned into `.min.css` |
| OptimizeMarkup.StyleHrefCases | utils/optimize/html.js:165-175 | `normalize.css` becomes `assets/styles/normalize.min.css`, a `styles/` path moves under `assets/styles/`, and every other href is unchanged, and only those |
| OptimizeMarkup.StyleHrefMinified | utils/optimize/html.js:169-172 | `styles/<name>.css` becomes `assets/styles/<name>.min.css` |
| OptimizeMarkup.StyleHrefIdempotent | utils/optimize/html.js:165-175 | rewriting a stylesheet href a second time changes nothing |
| OptimizeMarkup.FirstRel | utils/optimize/html.js:153 | finds the first `rel="stylesheet"` of the tag, and none only when there is none |
| OptimizeMarkup.LastHref | utils/optimize/html.js:153 | the greedy `[^>]*` captures a non-empty `href` value that lies after the `rel` |
| OptimizeMarkup.FirstHit | utils/optimize/html.js:181-209 | a non-global `replace` acts on the leftmost occurrence of `href="v"` and on no other |
| OptimizeMarkup.ToVoidAt | utils/optimize/html.js:179-182 | corrected half: in an `<a>` tag, the first `href` of its own reading `#` becomes `href="javascript:void(0)"` and the rest of the tag is kept |
| OptimizeMarkup.FromVoidAt | utils/optimize/html.js:207-210 | corrected half: the first `href` of its own reading `javascript:void(0)` becomes `href="#"` again |
| OptimizeMarkup.HashRoundTrip | utils/optimize/html.js:179-210 | in an `<a>` tag whose first `href` of its own reads `#` and none reads `javascript:void(0)`, setting it aside and giving it back writes that `href` as `href="#"` and keeps the rest, so a tag that already spelled it so comes back unchanged; the tag stays a tag in between |
| OptimizeMarkup.SwapBack | utils/optimize/html.js:181-209 | swapping an `href` to `javascript:void(0)` and back restores `href="#"` and keeps the rest |
| OptimizeMarkup.DataHrefVoidedAsWritten | utils/optimize/html.js:181 | on `<a data-href="#" href="#">` the inner replace, having no word boundary, rewrites the data attribute and not the link |
| OptimizeMarkup.DataHrefNotRestored | utils/optimize/html.js:179-210 | that tag does not come back: the final step finds no `href` of its own reading `javascript:void(0)`, so `data-href="javascript:void(0)"` stays |
| OptimizeMarkup.AddTargetCases | utils/optimize/html.js:185-191 | the tag changes exactly when it is an external link without `target="_blank"`; an external link has the target afterwards; the tag stays a tag |
| OptimizeMarkup.AddTargetIdempotent | utils/optimize/html.js:185-191 | running the step twice adds the target once |
| OptimizeMarkup.SlashFree | utils/optimize/html.js:196-198 | a void-element tag accepted by the pattern is rebuilt as `<name…>`, shorter than before |
| OptimizeMarkup.VoidElementsAscending | utils/optimize/html.js:13-16 | the fourteen void-element names differ in their first two letters |
| OptimizeMarkup.DropSlashesOne | utils/optimize/html.js:194-199 | across the loop over the names, at most one pass changes a tag: the pass for the name it opens with |
| OptimizeMarkup.VoidSlashDropped | utils/optimize/html.js:194-199 | a void-element tag ending in `/>` loses the slash and the whitespace before it; all else is kept |
| OptimizeMarkup.VoidSlashKept | utils/optimize/html.js:194-199 | every other tag is left as it is |
| OptimizeMarkup.ReplaceFirstKeepsTag | utils/optimize/html.js:168-172 | replacing bracket-free text inside a tag by other bracket-free text leaves a tag |
| OptimizeMarkup.StyleLinkKeepsTag | utils/optimize/html.js:165-175 | the stylesheet rewrite leaves a tag |
| OptimizeMarkup.ToVoidKeepsTag | utils/optimize/html.js:179-182 | the corrected `href="#"` step leaves a tag |
| OptimizeMarkup.FromVoidKeepsTag | utils/optimize/html.js:207-210 | the corrected final step leaves a tag |
| OptimizeMarkup.ToVoidAsWrittenKeepsTag | utils/optimize/html.js:179-182 | the `href="#"` step as written leaves a tag |
| OptimizeMarkup.FromVoidAsWrittenKeepsTag | utils/optimize/html.js:207-210 | the final step as written leaves a tag |
| OptimizeMarkup.DropSlashesKeepsTag | utils/optimize/html.js:194-199 | the void-element loop leaves a tag |
| OptimizeMarkup.ReplaceAllKeepsTag | utils/optimize/html.js:202-204 | removing `=""` and unescaping `&amp;` leaves a tag |
| OptimizeMarkup.ReplaceAllKeepsText | utils/optimize/html.js:202-204 | the clean-up adds no `<` to a text run |
| OptimizeMarkup.CleanupKeepsShape | utils/optimize/html.js:202-204 | the clean-up maps tags to tags and text runs to text runs |
| OptimizeMarkup.OptimizeTagsKeepsShape | utils/optimize/html.js:152-212 | the tail as written (`OptimizeTags`, with the `href` steps that also match inside `data-href`) keeps the page's shape: as many pieces, tags where there were tags, and text runs changed by the clean-up alone |
| OptimizeMarkup.OptimizeTagsIntendedKeepsShape | utils/optimize/html.js:152-212 | the corrected tail (`OptimizeTagsIntended`) keeps the page's shape too |
| OptimizeMarkup.TailKeepsShape | utils/optimize/html.js:152-212 | the steps in the optimiser's order keep the page's shape whatever `href` steps are used, as long as those keep tags |

## Left out

- Parsing: JSDOM, parse5, postcss and postcss-scss are not part of this model. A page is given as a tree. A stylesheet is given as a list of rules. Where a checker parses, the parser is a parameter. The stylesheet parser answers nothing where postcss throws a syntax error; the page parsers always answer, as parse5 and JSDOM do.
- Selector semantics: only tag, attribute and descendant search are modelled.
- External tools: the html-validator service, stylelint, autoprefixer, sharp and prettier are parameters or are left out.
  - The validator's messages and the linters' warnings are inputs.
  - Image dimensions are read from the directory tree.
  - The prettier formatting in utils/optimize/styles.js and utils/optimize/html.js is not modelled, and neither is the head re-formatting at utils/optimize/html.js:139-150.
- File system: `readdir`, `stat`, `access`, `readFile`, `writeFile` and `unlink` act on the in-memory `Project` tree.
  - An unreadable listing or file is an absent value.
  - The text of the error (`error.message`, from the file system or from the stylesheet parser) is not modelled; a failure is only a failure.
- Absolute paths: `resolveWorkingPath`, `path.join` and the paths module are not part of this model. A finding names the file by the relative name the source passes to `addError`.
- Images.Resolve does not normalise `.` and `..` segments the way `path.join` does. It looks the path up segment by segment under `images`.
- Console output: emoji, wording, the `toFixed(2)` size text and the per-file progress lines are not modelled.
  - Messages are a datatype.
  - The report's lines are a datatype holding the header, the separators and the numbered findings.
- Concurrency: `Promise.all` in utils/validate/index.js is run as the five checkers one after the other. Each checker already turns its own failures into a one-line result, so the surrounding `catch` cannot be reached in the model.
- `process.exit`: the exit status is returned.
- Drivers: the drivers that only read, format, write and lint files are not modelled beyond the rewrites they call.
  - `optimizeStyles` (utils/optimize/styles.js:59-109) is not modelled beyond `replaceNamedColors`.
  - `processHtmlFiles` (utils/optimize/html.js:215-242) is not modelled beyond `optimizeHtml`.
- The `&#10;` placeholder swap (utils/optimize/html.js:25, 137) and the clean-up before formatting (utils/optimize/html.js:118-122) are not modelled, because they only bracket the prettier step, which is outside the model.
- `dom.serialize()` and the `replaceChild` of each `.svg` image (utils/optimize/html.js:106, 115):
  - OptimizeHtml.ReplaceIcons returns the new `<svg>` elements in order, and does not splice them into the parent.
  - The serialised page is the input of `OptimizeMarkup` as a sequence of text runs and tags.
- OptimizeMarkup.OptimizeTagsKeepsShape: the text rewrites are modelled on a page already split into text runs and tags, where every `<` opens a tag that ends at the next `>`. Pages outside that shape are outside the model: a `>` or `<` inside a quoted attribute value, a `<` in inline script text such as `a < b`, and comments. No lemma ties `MapTags` and `MapPieces` to the regular-expression replace over the serialised page; that pattern and tag agree is the modelling assumption.
- Text.Lower: only ASCII letters are lowered, while `toLowerCase` maps every Unicode upper-case letter. A name such as `Фото.jpg` is flagged by utils/validate/structure.js:76-78 but not by Structure.LowercaseFound, and a selector with non-ASCII capitals is compared differently by the styles and semantic-styles checks.
- SemanticStyles.ClassFontFound: the class name is matched literally, while utils/validate/semantic-styles.js:79 builds `new RegExp` from it without escaping. A class with regular-expression characters behaves otherwise in the source: `w-[10px]` becomes a character class and selects `.w-1`, and `a(b` throws, which ends in the failure finding.
- OptimizeMarkup.StyleLink: `match.replace(path, newPath)` expands `$&`, `` $` ``, `$'` and `$$` in the new path, and the model inserts the new path as it is. A stylesheet path holding `$` is outside the model; with `` $` `` the source would copy the text before the match, `<` included, into the tag, so the tag guarantee is limited as the next line says.
- OptimizeMarkup.StyleLinkKeepsTag: proved for the model, in which the new path is inserted without `$` expansion; for a source path holding `` $` `` or `$'` the rewritten text need not be a tag.
- SemanticStyles.CheckClassFont: selects rules by the literal class name, not by the unescaped regular expression of utils/validate/semantic-styles.js:79, for the reason given for SemanticStyles.ClassFontFound above.
- Structure.LowercaseFound: states the check for ASCII capitals only, for the reason given for Text.Lower above.
- Cleanup: a failed `stat` and the outer `catch` of the clean-up walk are not modelled. A failed `unlink` is a parameter, and it is logged.

## Findings

| source | as written | input that shows it | evidently intended | confidence | as-written member | corrected member |
|---|---|---|---|---|---|---|
| utils/optimize/html.js:179-182, 207-210 | the inner `replace(/href=["']#["']/, …)` has no word boundary, so it rewrites the first `href="#"` anywhere in the tag, even inside `data-href`; `OptimizeTags` is built from these steps as written, `OptimizeTagsIntended` from the corrected ones | `<a data-href="#" href="#">` comes out as `<a data-href="javascript:void(0)" href="#">`, and the final step does not restore it | only the link's own `href` is set aside and then given back | not executed | OptimizeMarkup.DataHrefNotRestored | OptimizeMarkup.HashRoundTrip |
| utils/optimize/styles.js:35-37 | the splice position is `indexOf` of the lower-cased name in the match as written, which is -1 for an upper-case spelling | `a:RED` becomes `#ff0000ED` | `a:#ff0000`: the position is taken on the lower-cased match | not executed | OptimizeStyles.UpperCaseMisplaced | OptimizeStyles.CorrectedIsReference |
| utils/cleanup-repo.js:35 | `pattern.replace(/\*/g, '.*')` leaves the `.` of `*.log` unescaped, so it matches any character | `changelog` is deleted as if it were a log file by `CleanupDir`, which walks with the patterns as written | `*.log` matches only names ending in `.log`; the walk's lemmas hold for that reading too | not executed | Cleanup.ChangelogRemovedAsWritten | Cleanup.ShouldCleanCases |
