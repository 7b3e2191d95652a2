/** `validateW3C`: every HTML page of the working directory is sent to the W3C validator; each
    message of type `error` becomes a finding at the line the validator names, with that line of
    the page as context; a page whose validation throws gets one finding at line 1. Each page is
    logged with `logValidationErrors`, and a listing or a page that cannot be read ends the run
    with one finding for the file `unknown`. The validator is a parameter. */
module W3c {
  import opened Wrappers
  import opened Text
  import opened Findings
  import opened Project
  import opened ValidationLogger

  /** One message of the validator's JSON answer: its `type`, its `lastLine` and `firstLine`
      (0 when absent, the value the source treats as falsy) and its text. */
  datatype ValidatorMessage = ValidatorMessage(kind: string, lastLine: nat, firstLine: nat, text: string)

  /** What the validator call gives for one page: its messages, or the message of the exception
      it threw. An answer without a `messages` list is `Answered([])`. */
  datatype Answer = Answered(messages: seq<ValidatorMessage>) | Threw(reason: string)

  /** The findings returned and the lines logged. */
  datatype Outcome = Outcome(errors: seq<Finding>, lines: seq<OutLine>)

  // ---------------------------------------------------------------- one page

  /** The trimmed lines of a page, the context a finding can show. */
  function Contexts(lines: seq<string>): (r: seq<string>)
    ensures |r| == |lines|
  {
    Each(lines, Trim)
  }

  /** `g` applied to each of `lines`. */
  function Each(lines: seq<string>, g: string -> string): (r: seq<string>)
    ensures |r| == |lines|
  {
    seq(|lines|, i requires 0 <= i < |lines| => g(lines[i]))
  }

  lemma EachAt(lines: seq<string>, g: string -> string, k: nat)
    requires k < |lines|
    ensures Each(lines, g)[k] == g(lines[k])
  {
  }

  lemma ContextAt(lines: seq<string>, k: nat)
    requires k < |lines|
    ensures Contexts(lines)[k] == Trim(lines[k])
  {
    EachAt(lines, Trim, k);
  }

  lemma ContextIs(lines: seq<string>, k: nat, c: string)
    requires k < |lines| && c == Trim(lines[k])
    ensures Contexts(lines)[k] == c
  {
    ContextAt(lines, k);
  }

  /** The finding for one `error` message: at its last line, else its first line, else line 1;
      with the trimmed text of that line of the page (from `contexts`) as context when the
      validator named a line the page has. */
  function ErrorFinding(file: string, contexts: seq<string>, m: ValidatorMessage): (r: Finding)
    ensures r.file == file && r.message == ValidatorError(m.text) && r.line >= 1
    ensures m.lastLine != 0 ==> r.line == m.lastLine
    ensures m.lastLine == 0 && m.firstLine != 0 ==> r.line == m.firstLine
  {
    var n := if m.lastLine != 0 then m.lastLine else m.firstLine;
    Finding(file, if n != 0 then n else 1, ValidatorError(m.text),
            if n != 0 && n <= |contexts| then contexts[n - 1] else "")
  }

  /** The context of `f` is the trimmed line it points at, and it is there whenever the
      validator named a line the page has. */
  predicate ShowsLine(f: Finding, lines: seq<string>, m: ValidatorMessage) {
    && (f.context != "" ==> 1 <= f.line <= |lines| && f.context == Trim(lines[f.line - 1]))
    && ((m.lastLine != 0 || m.firstLine != 0) && 1 <= f.line <= |lines| ==> f.context == Trim(lines[f.line - 1]))
  }

  /** The context is the trimmed line the finding points at, and it is there whenever the
      validator named a line the page has. */
  lemma ErrorFindingContext(file: string, lines: seq<string>, m: ValidatorMessage)
    ensures ShowsLine(ErrorFinding(file, Contexts(lines), m), lines, m)
  {
    var n := if m.lastLine != 0 then m.lastLine else m.firstLine;
    if 0 < n <= |lines| {
      ContextAt(lines, n - 1);
      ContextPickedAt(file, Contexts(lines), lines, m, n);
    } else {
      ContextPickedNone(file, Contexts(lines), lines, m, n);
    }
  }

  lemma ContextPickedAt(file: string, cs: seq<string>, lines: seq<string>, m: ValidatorMessage, n: nat)
    requires n == (if m.lastLine != 0 then m.lastLine else m.firstLine)
    requires |cs| == |lines| && 0 < n <= |lines| && cs[n - 1] == Trim(lines[n - 1])
    ensures ShowsLine(ErrorFinding(file, cs, m), lines, m)
  {
    ErrorFindingAt(file, cs, m, n);
  }

  lemma ContextPickedNone(file: string, cs: seq<string>, lines: seq<string>, m: ValidatorMessage, n: nat)
    requires n == (if m.lastLine != 0 then m.lastLine else m.firstLine)
    requires |cs| == |lines| && !(0 < n <= |lines|)
    ensures ShowsLine(ErrorFinding(file, cs, m), lines, m)
  {
    ErrorFindingNoContext(file, cs, m, n);
  }

  lemma ErrorFindingAt(file: string, cs: seq<string>, m: ValidatorMessage, n: nat)
    requires n == (if m.lastLine != 0 then m.lastLine else m.firstLine) && 0 < n <= |cs|
    ensures ErrorFinding(file, cs, m).line == n && ErrorFinding(file, cs, m).context == cs[n - 1]
  {
  }

  lemma ErrorFindingNoContext(file: string, cs: seq<string>, m: ValidatorMessage, n: nat)
    requires n == (if m.lastLine != 0 then m.lastLine else m.firstLine) && !(0 < n <= |cs|)
    ensures ErrorFinding(file, cs, m).context == ""
  {
  }

  /** The findings of one message: one for an `error`, none for any other type. */
  function MessageFinding(file: string, contexts: seq<string>, m: ValidatorMessage): seq<Finding> {
    if m.kind == "error" then [ErrorFinding(file, contexts, m)] else []
  }

  /** The findings of the validator's messages, in order. */
  function MessageFindings(file: string, contexts: seq<string>, messages: seq<ValidatorMessage>): seq<Finding> {
    if messages == [] then []
    else
      MessageFindings(file, contexts, messages[..|messages| - 1])
        + MessageFinding(file, contexts, messages[|messages| - 1])
  }

  lemma MessageFindingsSnoc(file: string, contexts: seq<string>, messages: seq<ValidatorMessage>, k: nat)
    requires k < |messages|
    ensures MessageFindings(file, contexts, messages[..k + 1])
            == MessageFindings(file, contexts, messages[..k]) + MessageFinding(file, contexts, messages[k])
  {
    assert messages[..k + 1][..k] == messages[..k];
  }

  /** The findings of one page for the validator's answer on its content. */
  function PageFindings(file: string, content: string, answer: Answer): seq<Finding> {
    match answer
    case Threw(reason) => [Finding(file, 1, W3cFailed(reason), "")]
    case Answered(messages) => MessageFindings(file, Contexts(Split(content, '\n')), messages)
  }

  /** The `forEach` callback for one message. */
  method CheckMessage(file: string, lines: seq<string>, m: ValidatorMessage) returns (found: seq<Finding>)
    ensures found == MessageFinding(file, Contexts(lines), m)
  {
    found := [];
    if m.kind == "error" {
      MessageFindingError(file, Contexts(lines), m);
      var lineNumber := if m.lastLine != 0 then m.lastLine else m.firstLine;
      if lineNumber != 0 && lineNumber <= |lines| {
        var context := Trim(lines[lineNumber - 1]);
        ErrorFindingOnLine(file, lines, m, lineNumber, context);
        found := [Finding(file, lineNumber, ValidatorError(m.text), context)];
      } else {
        ErrorFindingNoLine(file, Contexts(lines), m, lineNumber);
        found := [Finding(file, if lineNumber != 0 then lineNumber else 1, ValidatorError(m.text), "")];
      }
    } else {
      MessageFindingOther(file, Contexts(lines), m);
    }
  }

  lemma MessageFindingError(file: string, cs: seq<string>, m: ValidatorMessage)
    requires m.kind == "error"
    ensures MessageFinding(file, cs, m) == [ErrorFinding(file, cs, m)]
  {
  }

  lemma ErrorFindingOnLine(file: string, lines: seq<string>, m: ValidatorMessage, n: nat, context: string)
    requires n == (if m.lastLine != 0 then m.lastLine else m.firstLine)
    requires 0 < n <= |lines| && context == Trim(lines[n - 1])
    ensures ErrorFinding(file, Contexts(lines), m) == Finding(file, n, ValidatorError(m.text), context)
  {
    ContextIs(lines, n - 1, context);
    ErrorFindingAt(file, Contexts(lines), m, n);
  }

  lemma ErrorFindingNoLine(file: string, cs: seq<string>, m: ValidatorMessage, n: nat)
    requires n == (if m.lastLine != 0 then m.lastLine else m.firstLine) && !(0 < n <= |cs|)
    ensures ErrorFinding(file, cs, m) == Finding(file, if n != 0 then n else 1, ValidatorError(m.text), "")
  {
  }

  lemma MessageFindingOther(file: string, cs: seq<string>, m: ValidatorMessage)
    requires m.kind != "error"
    ensures MessageFinding(file, cs, m) == []
  {
  }

  /** The `forEach` over the messages. */
  method CheckMessages(file: string, lines: seq<string>, messages: seq<ValidatorMessage>)
    returns (found: seq<Finding>)
    ensures found == MessageFindings(file, Contexts(lines), messages)
  {
    found := [];
    for k := 0 to |messages|
      invariant found == MessageFindings(file, Contexts(lines), messages[..k])
    {
      var more := CheckMessage(file, lines, messages[k]);
      found := found + more;
      MessageFindingsSnoc(file, Contexts(lines), messages, k);
    }
    assert messages[..|messages|] == messages;
  }

  /** One page: split into lines, sent to the validator, its answer turned into findings. */
  method CheckPage(file: string, content: string, validate: string -> Answer) returns (found: seq<Finding>)
    ensures found == PageFindings(file, content, validate(content))
  {
    var lines := Split(content, '\n');
    var answer := validate(content);
    if answer.Threw? {
      found := [Finding(file, 1, W3cFailed(answer.reason), "")];
    } else {
      found := CheckMessages(file, lines, answer.messages);
    }
  }

  // ---------------------------------------------------------------- the directory

  /** The entries of the listing whose name ends in `.html`, in listing order. */
  function HtmlFiles(listing: seq<Entry>): (r: seq<Entry>)
    ensures forall e :: e in r <==> e in listing && EndsWith(e.name, ".html")
  {
    if listing == [] then []
    else (if EndsWith(listing[0].name, ".html") then [listing[0]] else []) + HtmlFiles(listing[1..])
  }

  /** The position of the first entry that cannot be read as a file, or the length when every
      entry can. */
  function FirstUnreadable(es: seq<Entry>): (r: nat)
    ensures r <= |es|
    ensures forall e :: e in es[..r] ==> e.File?
    ensures r < |es| ==> es[r].Dir?
  {
    if es == [] || es[0].Dir? then 0
    else
      var r := 1 + FirstUnreadable(es[1..]);
      assert es[..r] == [es[0]] + es[1..][..r - 1];
      r
  }

  lemma {:induction false} FirstUnreadableIs(es: seq<Entry>, i: nat)
    requires i <= |es| && (forall e :: e in es[..i] ==> e.File?) && (i < |es| ==> es[i].Dir?)
    ensures FirstUnreadable(es) == i
  {
    if i > 0 {
      assert es[0] in es[..i];
      assert es[1..][..i - 1] == es[..i][1..];
      FirstUnreadableIs(es[1..], i - 1);
    }
  }

  /** The loop over readable pages: each page's findings are appended and the page is logged,
      with or without findings. */
  function Run(es: seq<Entry>, validate: string -> Answer): Outcome
    requires forall e :: e in es ==> e.File?
  {
    if es == [] then Outcome([], [])
    else
      var prev := Run(es[..|es| - 1], validate);
      var e := es[|es| - 1];
      var errs := PageFindings(e.name, e.content, validate(e.content));
      Outcome(prev.errors + errs, prev.lines + LogValidationErrors(e.name, "W3C", Some(errs)).lines)
  }

  lemma RunSnoc(es: seq<Entry>, i: nat, validate: string -> Answer)
    requires i < |es| && es[i].File? && forall e :: e in es[..i] ==> e.File?
    ensures forall e :: e in es[..i + 1] ==> e.File?
    ensures Run(es[..i + 1], validate)
            == var errs := PageFindings(es[i].name, es[i].content, validate(es[i].content));
               Outcome(Run(es[..i], validate).errors + errs,
                       Run(es[..i], validate).lines + LogValidationErrors(es[i].name, "W3C", Some(errs)).lines)
  {
    assert es[..i + 1] == es[..i] + [es[i]];
    assert es[..i + 1][..i] == es[..i];
  }

  /** The finding that ends the run when the listing or a page cannot be read; `fsError` is the
      file system's message. */
  function Failure(fsError: string): Finding {
    Finding("unknown", 1, W3cFailed(fsError), "")
  }

  /** `validateW3C` on the working directory's listing (None when it cannot be read). The pages
      before the first unreadable one are still validated and logged. */
  function W3cOutcome(listing: Option<seq<Entry>>, validate: string -> Answer, fsError: string): Outcome {
    if listing.None? then Outcome([Failure(fsError)], [])
    else
      var files := HtmlFiles(listing.value);
      var k := FirstUnreadable(files);
      var run := Run(files[..k], validate);
      if k < |files| then Outcome([Failure(fsError)], run.lines) else run
  }

  /** `validateW3C`. */
  method ValidateW3C(listing: Option<seq<Entry>>, validate: string -> Answer, fsError: string)
    returns (out: Outcome)
    ensures out == W3cOutcome(listing, validate, fsError)
  {
    if listing.None? {
      return Outcome([Failure(fsError)], []);
    }
    var files := HtmlFiles(listing.value);
    var allErrors: seq<Finding> := [];
    var logged: seq<OutLine> := [];
    for i := 0 to |files|
      invariant forall e :: e in files[..i] ==> e.File?
      invariant Outcome(allErrors, logged) == Run(files[..i], validate)
    {
      if files[i].Dir? {
        FirstUnreadableIs(files, i);
        return Outcome([Failure(fsError)], logged);
      }
      var fileErrors := CheckPage(files[i].name, files[i].content, validate);
      var log := LogValidationErrors(files[i].name, "W3C", Some(fileErrors));
      RunSnoc(files, i, validate);
      allErrors := allErrors + fileErrors;
      logged := logged + log.lines;
    }
    assert files[..|files|] == files;
    FirstUnreadableIs(files, |files|);
    out := Outcome(allErrors, logged);
  }

  // ---------------------------------------------------------------- properties

  /** The messages of type `error`, in order: the filter of the source's `forEach`. */
  function ErrorMessages(messages: seq<ValidatorMessage>): seq<ValidatorMessage> {
    if messages == [] then []
    else (if messages[0].kind == "error" then [messages[0]] else []) + ErrorMessages(messages[1..])
  }

  lemma {:induction false} ErrorMessagesSnoc(messages: seq<ValidatorMessage>, m: ValidatorMessage)
    ensures ErrorMessages(messages + [m]) == ErrorMessages(messages) + (if m.kind == "error" then [m] else [])
  {
    if messages != [] {
      assert (messages + [m])[1..] == messages[1..] + [m];
      ErrorMessagesSnoc(messages[1..], m);
    }
  }

  /** Each error message turned into its finding. */
  function ErrorFindings(file: string, contexts: seq<string>, errors: seq<ValidatorMessage>): (r: seq<Finding>)
    ensures |r| == |errors|
  {
    seq(|errors|, i requires 0 <= i < |errors| => ErrorFinding(file, contexts, errors[i]))
  }

  lemma ErrorFindingsSnoc(file: string, contexts: seq<string>, errors: seq<ValidatorMessage>, m: ValidatorMessage)
    ensures ErrorFindings(file, contexts, errors + [m]) == ErrorFindings(file, contexts, errors) + [ErrorFinding(file, contexts, m)]
  {
    var a := ErrorFindings(file, contexts, errors + [m]);
    var b := ErrorFindings(file, contexts, errors) + [ErrorFinding(file, contexts, m)];
    forall i | 0 <= i < |a|
      ensures a[i] == b[i]
    {
      if i < |errors| {
        assert (errors + [m])[i] == errors[i];
      }
    }
  }

  /** The page's findings are the `error` messages, in the validator's order, each turned into
      its finding: one finding per error and none for warnings or information. */
  lemma {:induction false} MessageFindingsAreErrors(file: string, contexts: seq<string>, messages: seq<ValidatorMessage>)
    ensures MessageFindings(file, contexts, messages) == ErrorFindings(file, contexts, ErrorMessages(messages))
  {
    if messages != [] {
      var n := |messages| - 1;
      MessageFindingsAreErrors(file, contexts, messages[..n]);
      assert messages == messages[..n] + [messages[n]];
      ErrorMessagesSnoc(messages[..n], messages[n]);
      if messages[n].kind == "error" {
        ErrorFindingsSnoc(file, contexts, ErrorMessages(messages[..n]), messages[n]);
      } else {
        assert ErrorMessages(messages) == ErrorMessages(messages[..n]);
      }
    }
  }

  /** The messages kept are exactly the `error` ones. */
  lemma {:induction false} ErrorMessagesMembers(messages: seq<ValidatorMessage>, m: ValidatorMessage)
    ensures m in ErrorMessages(messages) <==> m in messages && m.kind == "error"
  {
    if messages != [] {
      ErrorMessagesMembers(messages[1..], m);
      assert messages == [messages[0]] + messages[1..];
    }
  }

  /** A finding is among the page's findings exactly when it is the finding of one of its
      `error` messages. */
  lemma MessageFindingsFound(file: string, contexts: seq<string>, messages: seq<ValidatorMessage>, f: Finding)
    ensures f in MessageFindings(file, contexts, messages)
            <==> exists m :: m in messages && m.kind == "error" && f == ErrorFinding(file, contexts, m)
  {
    MessageFindingsAreErrors(file, contexts, messages);
    var errors := ErrorMessages(messages);
    ErrorFindingsFound(file, contexts, errors, f);
    forall m | true
      ensures m in errors <==> m in messages && m.kind == "error"
    {
      ErrorMessagesMembers(messages, m);
    }
  }

  lemma ErrorFindingsFound(file: string, contexts: seq<string>, errors: seq<ValidatorMessage>, f: Finding)
    ensures f in ErrorFindings(file, contexts, errors)
            <==> exists m :: m in errors && f == ErrorFinding(file, contexts, m)
  {
    if f in ErrorFindings(file, contexts, errors) {
      ErrorFindingFrom(file, contexts, errors, f);
    }
    if exists m :: m in errors && f == ErrorFinding(file, contexts, m) {
      var m :| m in errors && f == ErrorFinding(file, contexts, m);
      ErrorFindingOf(file, contexts, errors, m);
    }
  }

  lemma ErrorFindingFrom(file: string, contexts: seq<string>, errors: seq<ValidatorMessage>, f: Finding)
    requires f in ErrorFindings(file, contexts, errors)
    ensures exists m :: m in errors && f == ErrorFinding(file, contexts, m)
  {
    var found := ErrorFindings(file, contexts, errors);
    var i :| 0 <= i < |found| && found[i] == f;
    assert errors[i] in errors;
  }

  lemma ErrorFindingOf(file: string, contexts: seq<string>, errors: seq<ValidatorMessage>, m: ValidatorMessage)
    requires m in errors
    ensures ErrorFinding(file, contexts, m) in ErrorFindings(file, contexts, errors)
  {
    var i :| 0 <= i < |errors| && errors[i] == m;
    assert ErrorFindings(file, contexts, errors)[i] == ErrorFinding(file, contexts, m);
  }

  /** A page is clean exactly when the validator answered and none of its messages is an
      `error`. */
  lemma PageClean(file: string, content: string, answer: Answer)
    ensures PageFindings(file, content, answer) == []
            <==> answer.Answered? && forall m :: m in answer.messages ==> m.kind != "error"
  {
    if answer.Answered? {
      var contexts := Contexts(Split(content, '\n'));
      var found := PageFindings(file, content, answer);
      if found != [] {
        MessageFindingsFound(file, contexts, answer.messages, found[0]);
      }
      if exists m :: m in answer.messages && m.kind == "error" {
        var m :| m in answer.messages && m.kind == "error";
        MessageFindingsFound(file, contexts, answer.messages, ErrorFinding(file, contexts, m));
      }
    }
  }

  /** Every finding of a page names that page and a line from 1 on. */
  lemma PageFindingsPlace(file: string, content: string, answer: Answer, f: Finding)
    requires f in PageFindings(file, content, answer)
    ensures f.file == file && f.line >= 1
  {
    if answer.Answered? {
      MessageFindingsFound(file, Contexts(Split(content, '\n')), answer.messages, f);
    }
  }

  /** Whether the page's answer gives no finding. */
  predicate Clean(e: Entry, validate: string -> Answer)
    requires e.File?
  {
    PageFindings(e.name, e.content, validate(e.content)) == []
  }

  /** The run returns nothing exactly when every page is clean. */
  lemma {:induction false} RunClean(es: seq<Entry>, validate: string -> Answer)
    requires forall e :: e in es ==> e.File?
    ensures Run(es, validate).errors == [] <==> forall e :: e in es ==> Clean(e, validate)
  {
    if es != [] {
      var n := |es| - 1;
      assert es == es[..n] + [es[n]];
      RunClean(es[..n], validate);
      assert (forall e :: e in es ==> Clean(e, validate))
             <==> (forall e :: e in es[..n] ==> Clean(e, validate)) && Clean(es[n], validate);
    }
  }

  /** Every finding the run returns names one of the pages. */
  lemma {:induction false} RunNamesPages(es: seq<Entry>, validate: string -> Answer, f: Finding)
    requires forall e :: e in es ==> e.File?
    requires f in Run(es, validate).errors
    ensures exists e :: e in es && f.file == e.name
  {
    var n := |es| - 1;
    var e := es[n];
    assert es == es[..n] + [e];
    if f in Run(es[..n], validate).errors {
      RunNamesPages(es[..n], validate, f);
    } else {
      PageFindingsPlace(e.name, e.content, validate(e.content), f);
    }
  }

  /** Every page is logged: as passed, or under its own header. */
  lemma {:induction false} RunLogsEveryPage(es: seq<Entry>, validate: string -> Answer)
    requires forall e :: e in es ==> e.File?
    ensures forall e :: e in es ==> Passed(e.name, "W3C") in Run(es, validate).lines
                                     || Header(e.name) in Run(es, validate).lines
  {
    if es != [] {
      var n := |es| - 1;
      var e := es[n];
      assert es == es[..n] + [e];
      RunLogsEveryPage(es[..n], validate);
      var errs := PageFindings(e.name, e.content, validate(e.content));
      var log := LogValidationErrors(e.name, "W3C", Some(errs));
      assert Passed(e.name, "W3C") in log.lines || Header(e.name) in log.lines by {
        if errs != [] {
          assert log.lines[1] == Header(e.name);
        }
      }
    }
  }

  /** `validateW3C` returns nothing exactly when the listing can be read, every HTML entry of it
      is a file, and the validator answers every one of them without an `error` message. */
  lemma W3cPasses(listing: Option<seq<Entry>>, validate: string -> Answer, fsError: string)
    ensures W3cOutcome(listing, validate, fsError).errors == []
            <==> listing.Some? && forall e :: e in HtmlFiles(listing.value) ==> e.File? && Clean(e, validate)
  {
    if listing.Some? {
      var files := HtmlFiles(listing.value);
      var k := FirstUnreadable(files);
      RunClean(files[..k], validate);
      if k < |files| {
        assert files[k] in files;
      } else {
        assert files[..k] == files;
      }
    }
  }

  /** The failure finding is returned exactly when the listing or one of its HTML entries
      cannot be read: no page's finding can be taken for it, since page names end in `.html`. */
  lemma FailureIffUnreadable(listing: Option<seq<Entry>>, validate: string -> Answer, fsError: string)
    ensures Failure(fsError) in W3cOutcome(listing, validate, fsError).errors
            <==> listing.None? || exists e :: e in HtmlFiles(listing.value) && e.Dir?
  {
    if listing.Some? {
      var files := HtmlFiles(listing.value);
      var k := FirstUnreadable(files);
      if k < |files| {
        assert files[k] in files;
      } else {
        assert files[..k] == files;
        if Failure(fsError) in Run(files, validate).errors {
          RunNamesPages(files, validate, Failure(fsError));
        }
      }
    }
  }
}
