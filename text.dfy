/** String helpers with the meaning the checkers rely on: JavaScript's `\s` class and
    `trim`, `split`, `includes`, `startsWith`/`endsWith`, `indexOf`, and the
    "first line containing" lookup that turns a snippet into a line number. */
module Text {

  /** The characters of JavaScript's `\s` class, which are also those `String.prototype.trim` removes. */
  predicate IsSpace(c: char) {
    c == ' ' || c == '\t' || c == '\n' || c == '\r' || c == '\U{B}' || c == '\U{C}' ||
    c == '\U{A0}' || c == '\U{1680}' || ('\U{2000}' <= c <= '\U{200A}') ||
    c == '\U{2028}' || c == '\U{2029}' || c == '\U{202F}' || c == '\U{205F}' ||
    c == '\U{3000}' || c == '\U{FEFF}'
  }

  /** The characters a regular expression's `.` does not match. */
  predicate IsLineTerminator(c: char) {
    c == '\n' || c == '\r' || c == '\U{2028}' || c == '\U{2029}'
  }

  /** The characters of `\w`. */
  predicate IsWordChar(c: char) {
    ('a' <= c <= 'z') || ('A' <= c <= 'Z') || ('0' <= c <= '9') || c == '_'
  }

  predicate IsLowerLetter(c: char) { 'a' <= c <= 'z' }

  function LowerChar(c: char): (r: char)
    ensures 'A' <= c <= 'Z' ==> IsLowerLetter(r)
    ensures !('A' <= c <= 'Z') ==> r == c
  {
    if 'A' <= c <= 'Z' then (c as int + 32) as char else c
  }

  /** `toLowerCase`, on the ASCII letters. */
  function Lower(s: string): (r: string)
    ensures |r| == |s|
    ensures forall i :: 0 <= i < |s| ==> r[i] == LowerChar(s[i])
  {
    if s == [] then [] else [LowerChar(s[0])] + Lower(s[1..])
  }

  predicate StartsWith(s: string, p: string) {
    |p| <= |s| && s[..|p|] == p
  }

  predicate EndsWith(s: string, p: string) {
    |p| <= |s| && s[|s| - |p|..] == p
  }

  /** `s.includes(p)`. */
  predicate Contains(s: string, p: string)
    decreases |s|
  {
    StartsWith(s, p) || (|s| > 0 && Contains(s[1..], p))
  }

  /** `s.indexOf(p)`: the first position at which `p` occurs, or -1. */
  function IndexOf(s: string, p: string): (r: int)
    decreases |s|
    ensures r == -1 || 0 <= r <= |s| - |p|
    ensures r == -1 <==> !Contains(s, p)
    ensures r >= 0 ==> StartsWith(s[r..], p)
    ensures r >= 0 ==> forall k :: 0 <= k < r ==> !StartsWith(s[k..], p)
  {
    if StartsWith(s, p) then 0
    else if |s| == 0 then -1
    else
      var k := IndexOf(s[1..], p);
      if k == -1 then -1
      else
        assert forall j :: 1 <= j <= k ==> s[j..] == s[1..][j - 1..];
        k + 1
  }

  function TrimStart(s: string): (r: string)
    ensures |r| <= |s| && r == s[|s| - |r|..]
    ensures r == [] || !IsSpace(r[0])
    ensures forall i :: 0 <= i < |s| - |r| ==> IsSpace(s[i])
  {
    if s != [] && IsSpace(s[0]) then TrimStart(s[1..]) else s
  }

  function TrimEnd(s: string): (r: string)
    ensures |r| <= |s| && r == s[..|r|]
    ensures r == [] || !IsSpace(r[|r| - 1])
    ensures forall i :: |r| <= i < |s| ==> IsSpace(s[i])
  {
    if s != [] && IsSpace(s[|s| - 1]) then TrimEnd(s[..|s| - 1]) else s
  }

  /** `s.trim()`. */
  function Trim(s: string): string {
    TrimEnd(TrimStart(s))
  }

  /** `s.split(c)` for a one-character separator: joining the pieces with `c` gives `s` back. */
  function Split(s: string, c: char): (r: seq<string>)
    ensures |r| >= 1
    ensures forall i :: 0 <= i < |r| ==> c !in r[i]
    ensures Join(r, [c]) == s
  {
    if s == [] then [""]
    else
      var rest := Split(s[1..], c);
      if s[0] == c then
        assert s == [c] + s[1..];
        [""] + rest
      else
        JoinConsHead(s[0], rest, [c]);
        assert s == [s[0]] + s[1..];
        [[s[0]] + rest[0]] + rest[1..]
  }

  /** `s.split(/\s+/)`: maximal runs of `\s` separate the pieces; a leading or trailing run gives
      an empty piece. Joining the pieces with one space gives `s` with each run collapsed to one
      space, and only the first and the last piece can be empty. */
  function SplitSpaces(s: string): (r: seq<string>)
    ensures SpacePieces(s, r)
  {
    if s == [] then [""]
    else if IsSpace(s[0]) then
      var rest := SplitSpaces(TrimStart(s));
      SpacesLead(s, rest);
      [""] + rest
    else
      var rest := SplitSpaces(s[1..]);
      WordLead(s, rest);
      [[s[0]] + rest[0]] + rest[1..]
  }

  /** `r` splits `s` at its runs of white space: at least one piece, no piece holds white space,
      joining them with one space gives `s` with each run collapsed to one space, only the first
      and the last piece can be empty, and they are empty exactly when `s` starts or ends with
      white space (or is empty). */
  predicate SpacePieces(s: string, r: seq<string>) {
    && |r| >= 1
    && (forall i, j :: 0 <= i < |r| && 0 <= j < |r[i]| ==> !IsSpace(r[i][j]))
    && Join(r, " ") == CollapseSpaces(s)
    && (forall i :: 0 < i < |r| - 1 ==> r[i] != "")
    && (r[0] == "" <==> s == [] || IsSpace(s[0]))
    && (r[|r| - 1] == "" <==> s == [] || IsSpace(s[|s| - 1]))
    && (s != [] && IsSpace(s[0]) ==> |r| >= 2)
  }

  /** A leading run of white space gives an empty first piece. */
  lemma SpacesLead(s: string, rest: seq<string>)
    requires s != [] && IsSpace(s[0]) && SpacePieces(TrimStart(s), rest)
    ensures SpacePieces(s, [""] + rest)
  {
    var t := TrimStart(s);
    var r := [""] + rest;
    assert r[1..] == rest;
    assert Join(r, " ") == " " + Join(rest, " ");
    if t == [] {
      assert forall i :: 0 <= i < |s| ==> IsSpace(s[i]);
    } else {
      assert t[|t| - 1] == s[|s| - 1];
      assert !IsSpace(t[0]);
    }
    forall i | 0 <= i < |r| && i != 0
      ensures r[i] == rest[i - 1]
    {
    }
  }

  /** A leading non-space character joins the first piece of the rest. */
  lemma WordLead(s: string, rest: seq<string>)
    requires s != [] && !IsSpace(s[0]) && SpacePieces(s[1..], rest)
    ensures SpacePieces(s, [[s[0]] + rest[0]] + rest[1..])
  {
    var r := [[s[0]] + rest[0]] + rest[1..];
    JoinConsHead(s[0], rest, " ");
    if s[1..] != [] {
      assert s[1..][|s[1..]| - 1] == s[|s| - 1];
    }
    forall i, j | 0 <= i < |r| && 0 <= j < |r[i]|
      ensures !IsSpace(r[i][j])
    {
      if i == 0 {
        if j > 0 {
          assert r[0][j] == rest[0][j - 1];
        }
      } else {
        assert r[i] == rest[i];
      }
    }
    forall i | 0 < i < |r|
      ensures r[i] == rest[i]
    {
    }
  }

  /** The ASCII white space of the DOM standard: tab, line feed, form feed, carriage return and
      space. `classList` splits the class attribute at these characters only. */
  predicate IsAsciiSpace(c: char) {
    c == ' ' || c == '\t' || c == '\n' || c == '\U{C}' || c == '\r'
  }

  /** The length of the leading run of characters that are not ASCII white space. */
  function WordLength(s: string): (k: nat)
    ensures k <= |s|
    ensures forall i :: 0 <= i < k ==> !IsAsciiSpace(s[i])
    ensures k < |s| ==> IsAsciiSpace(s[k])
  {
    if s == [] || IsAsciiSpace(s[0]) then 0 else 1 + WordLength(s[1..])
  }

  /** The text with its ASCII white space removed. */
  function DropAsciiSpaces(s: string): string {
    if s == [] then []
    else if IsAsciiSpace(s[0]) then DropAsciiSpaces(s[1..])
    else [s[0]] + DropAsciiSpaces(s[1..])
  }

  /** The pieces one after the other. */
  function Concat(parts: seq<string>): string {
    if parts == [] then "" else parts[0] + Concat(parts[1..])
  }

  /** The tokens of an ordered set of tokens (DOM standard, section 2.3): the maximal runs of
      characters that are not ASCII white space. No token is empty, none holds ASCII white space,
      and one after the other they give the text with its ASCII white space removed. */
  function AsciiTokens(s: string): (r: seq<string>)
    ensures forall i :: 0 <= i < |r| ==> r[i] != []
    ensures forall i, j :: 0 <= i < |r| && 0 <= j < |r[i]| ==> !IsAsciiSpace(r[i][j])
    ensures Concat(r) == DropAsciiSpaces(s)
    decreases |s|
  {
    if s == [] then []
    else if IsAsciiSpace(s[0]) then AsciiTokens(s[1..])
    else
      var k := WordLength(s);
      var rest := AsciiTokens(s[k..]);
      WordDropped(s, k);
      [s[..k]] + rest
  }

  /** Removing ASCII white space keeps a leading word whole. */
  lemma {:induction false} WordDropped(s: string, k: nat)
    requires k <= |s|
    requires forall i :: 0 <= i < k ==> !IsAsciiSpace(s[i])
    ensures DropAsciiSpaces(s) == s[..k] + DropAsciiSpaces(s[k..])
  {
    if k > 0 {
      WordDropped(s[1..], k - 1);
      assert s[1..][..k - 1] == s[1..k];
      assert s[1..][k - 1..] == s[k..];
      assert s[..k] == [s[0]] + s[1..k];
    }
  }

  /** A text without ASCII white space is its own single token, or gives none when empty. */
  lemma {:induction false} AsciiTokensWord(s: string)
    requires forall i :: 0 <= i < |s| ==> !IsAsciiSpace(s[i])
    ensures AsciiTokens(s) == (if s == [] then [] else [s])
  {
    if s != [] {
      var k := WordLength(s);
      assert k == |s|;
      assert s[..k] == s;
      assert s[k..] == [];
    }
  }

  /** The text with every maximal run of `\s` replaced by one space. */
  function CollapseSpaces(s: string): string
    decreases |s|
  {
    if s == [] then []
    else if IsSpace(s[0]) then " " + CollapseSpaces(TrimStart(s))
    else [s[0]] + CollapseSpaces(s[1..])
  }

  /** `parts.join(sep)`. */
  function Join(parts: seq<string>, sep: string): string {
    if parts == [] then ""
    else if |parts| == 1 then parts[0]
    else parts[0] + sep + Join(parts[1..], sep)
  }

  /** A character put in front of the first piece comes first in the join. */
  lemma JoinConsHead(x: char, parts: seq<string>, sep: string)
    requires parts != []
    ensures Join([[x] + parts[0]] + parts[1..], sep) == [x] + Join(parts, sep)
  {
    var q := [[x] + parts[0]] + parts[1..];
    assert q[1..] == parts[1..];
  }

  /** `content.split('\n')`. */
  function Lines(content: string): seq<string> {
    Split(content, '\n')
  }

  /** The text before the first line break: `s.split('\n')[0]`. */
  function FirstLine(s: string): string {
    Lines(s)[0]
  }

  /** `lines.findIndex(line => line.includes(needle)) + 1`: the 1-based number of the first line
      containing `needle`, or 0 when none does. */
  function LineOf(lines: seq<string>, needle: string): (r: nat)
    ensures r <= |lines|
    ensures r == 0 <==> forall i :: 0 <= i < |lines| ==> !Contains(lines[i], needle)
    ensures r > 0 ==> Contains(lines[r - 1], needle)
    ensures r > 0 ==> forall i :: 0 <= i < r - 1 ==> !Contains(lines[i], needle)
  {
    if lines == [] then 0
    else if Contains(lines[0], needle) then 1
    else
      var k := LineOf(lines[1..], needle);
      if k == 0 then 0 else k + 1
  }

  predicate IsDigit(c: char) { '0' <= c <= '9' }

  /** The length of the run of decimal digits at the start of `s` (what `\d+` takes there). */
  function DigitRun(s: string): (r: nat)
    ensures r <= |s|
    ensures forall j :: 0 <= j < r ==> IsDigit(s[j])
    ensures r < |s| ==> !IsDigit(s[r])
  {
    if s != [] && IsDigit(s[0]) then 1 + DigitRun(s[1..]) else 0
  }

  /** `parseInt` of a string of decimal digits. */
  function DecimalValue(ds: string): nat
    requires forall j :: 0 <= j < |ds| ==> IsDigit(ds[j])
  {
    if ds == [] then 0
    else
      assert IsDigit(ds[|ds| - 1]);
      10 * DecimalValue(ds[..|ds| - 1]) + (ds[|ds| - 1] as int - '0' as int)
  }

  /** The decimal text of a number, without leading zeros (`String(n)`). */
  function DecimalText(n: nat): (r: string)
    ensures |r| > 0 && forall j :: 0 <= j < |r| ==> IsDigit(r[j])
  {
    if n < 10 then [('0' as int + n) as char] else DecimalText(n / 10) + [('0' as int + n % 10) as char]
  }

  /** Reading back the decimal text of a number gives the number. */
  lemma {:induction false} DecimalRoundTrip(n: nat)
    ensures DecimalValue(DecimalText(n)) == n
  {
    if n >= 10 {
      var t := DecimalText(n);
      assert t[..|t| - 1] == DecimalText(n / 10);
      DecimalRoundTrip(n / 10);
    }
  }

  /** `s.replace(p, rep)` for a literal pattern: only the first occurrence is replaced. */
  function ReplaceFirst(s: string, p: string, rep: string): string {
    var k := IndexOf(s, p);
    if k < 0 then s else s[..k] + rep + s[k + |p|..]
  }

  /** Where `replace` splices, if anywhere. */
  lemma ReplaceFirstAt(s: string, p: string, rep: string) returns (k: int)
    ensures k >= -1 && (k == -1 ==> ReplaceFirst(s, p, rep) == s)
    ensures k >= 0 ==> k + |p| <= |s| && StartsWith(s[k..], p) && ReplaceFirst(s, p, rep) == s[..k] + rep + s[k + |p|..]
  {
    k := IndexOf(s, p);
  }

  lemma {:induction false} ContainsAt(s: string, p: string, k: nat)
    requires k <= |s| && StartsWith(s[k..], p)
    ensures Contains(s, p)
    decreases k
  {
    if k > 0 {
      assert s[1..][k - 1..] == s[k..];
      ContainsAt(s[1..], p, k - 1);
    }
  }

  /** `indexOf` is the position of the first occurrence. */
  lemma IndexOfIs(s: string, p: string, k: nat)
    requires k <= |s| && StartsWith(s[k..], p)
    requires forall j :: 0 <= j < k ==> !StartsWith(s[j..], p)
    ensures IndexOf(s, p) == k
  {
    ContainsAt(s, p, k);
  }

  lemma IndexOfNone(s: string, p: string)
    requires forall j :: 0 <= j <= |s| ==> !StartsWith(s[j..], p)
    ensures IndexOf(s, p) == -1
  {
  }

  /** When no occurrence of `p` starts inside `a`, `indexOf` in `a + b` finds it in `b`. */
  lemma {:induction false} IndexOfAfter(a: string, b: string, p: string)
    requires forall j :: 0 <= j < |a| ==> !StartsWith((a + b)[j..], p)
    ensures IndexOf(a + b, p) == if IndexOf(b, p) < 0 then -1 else |a| + IndexOf(b, p)
  {
    if a != [] {
      assert (a + b)[1..] == a[1..] + b;
      forall j | 0 <= j < |a| - 1
        ensures !StartsWith((a[1..] + b)[j..], p)
      {
        assert (a[1..] + b)[j..] == (a + b)[j + 1..];
      }
      IndexOfAfter(a[1..], b, p);
      assert (a + b)[0..] == a + b;
    }
  }

  /** ... and `replace` leaves `a` alone. */
  lemma ReplaceFirstAfter(a: string, b: string, p: string, rep: string)
    requires forall j :: 0 <= j < |a| ==> !StartsWith((a + b)[j..], p)
    ensures ReplaceFirst(a + b, p, rep) == a + ReplaceFirst(b, p, rep)
  {
    IndexOfAfter(a, b, p);
    ReplaceFirstShift(a, b, p, rep);
  }

  lemma ReplaceFirstShift(a: string, b: string, p: string, rep: string)
    requires IndexOf(a + b, p) == if IndexOf(b, p) < 0 then -1 else |a| + IndexOf(b, p)
    ensures ReplaceFirst(a + b, p, rep) == a + ReplaceFirst(b, p, rep)
  {
    var k := IndexOf(b, p);
    if k >= 0 {
      SpliceAfter(a, b, k, |p|, rep);
    }
  }

  lemma SpliceAfter(a: string, b: string, k: nat, n: nat, rep: string)
    requires k + n <= |b|
    ensures (a + b)[..|a| + k] + rep + (a + b)[|a| + k + n..] == a + (b[..k] + rep + b[k + n..])
  {
    assert (a + b)[..|a| + k] == a + b[..k];
    assert (a + b)[|a| + k + n..] == b[k + n..];
  }

  /** A text none of whose characters is the first of `p` holds no occurrence of `p`. */
  lemma NoStartIn(a: string, b: string, p: string)
    requires p != [] && p[0] !in a
    ensures forall j :: 0 <= j < |a| ==> !StartsWith((a + b)[j..], p)
  {
    forall j | 0 <= j < |a|
      ensures !StartsWith((a + b)[j..], p)
    {
      assert (a + b)[j..][0] == a[j];
    }
  }

  /** `s.replace(/p/g, rep)` for a literal pattern: the occurrences found from left to right,
      without overlapping, are replaced. */
  function ReplaceAll(s: string, p: string, rep: string): string
    requires p != []
    decreases |s|
  {
    if s == [] then []
    else if StartsWith(s, p) then rep + ReplaceAll(s[|p|..], p, rep)
    else [s[0]] + ReplaceAll(s[1..], p, rep)
  }

  /** A text without the pattern is returned unchanged. */
  lemma {:induction false} ReplaceAllNone(s: string, p: string, rep: string)
    requires p != [] && !Contains(s, p)
    ensures ReplaceAll(s, p, rep) == s
    decreases |s|
  {
    if s != [] {
      ReplaceAllNone(s[1..], p, rep);
    }
  }

  /** Every character of the result comes from the text or from the replacement. */
  lemma {:induction false} ReplaceAllChars(s: string, p: string, rep: string, c: char)
    requires p != [] && c in ReplaceAll(s, p, rep)
    ensures c in s || c in rep
    decreases |s|
  {
    if s != [] {
      if StartsWith(s, p) {
        if c !in rep {
          ReplaceAllChars(s[|p|..], p, rep, c);
        }
      } else if c != s[0] {
        ReplaceAllChars(s[1..], p, rep, c);
      }
    }
  }

  /** A last character that is not part of the pattern is kept. */
  lemma {:induction false} ReplaceAllSnoc(s: string, c: char, p: string, rep: string)
    requires p != [] && c !in p
    ensures ReplaceAll(s + [c], p, rep) == ReplaceAll(s, p, rep) + [c]
    decreases |s|
  {
    if s == [] {
    } else if StartsWith(s + [c], p) {
      if |p| == |s| + 1 {
        LastOfPattern(s, c, p);
      }
      assert (s + [c])[|p|..] == s[|p|..] + [c];
      ReplaceAllSnoc(s[|p|..], c, p, rep);
    } else {
      assert (s + [c])[1..] == s[1..] + [c];
      ReplaceAllSnoc(s[1..], c, p, rep);
    }
  }

  lemma LastOfPattern(s: string, c: char, p: string)
    requires |p| == |s| + 1 && StartsWith(s + [c], p)
    ensures c in p
  {
    assert p[|s|] == c;
  }

  /** A text without upper-case letters is its own lower-case form. */
  lemma LowerUnchanged(s: string)
    requires forall i :: 0 <= i < |s| ==> !('A' <= s[i] <= 'Z')
    ensures Lower(s) == s
  {
  }
}
