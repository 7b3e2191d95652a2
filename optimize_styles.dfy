/** `COLOR_NAMES`: the sixteen named colours the optimiser rewrites and their hex values. */
module ColorNames {
  datatype NamedColor = NamedColor(name: string, hex: string)

  /** `COLOR_NAMES`, in declaration order, which is also the order of the pattern's alternation. */
  function Palette(): seq<NamedColor> {
    [NamedColor("black", "#000000"), NamedColor("white", "#ffffff"), NamedColor("red", "#ff0000"),
     NamedColor("green", "#008000"), NamedColor("blue", "#0000ff"), NamedColor("yellow", "#ffff00"),
     NamedColor("purple", "#800080"), NamedColor("gray", "#808080"), NamedColor("silver", "#c0c0c0"),
     NamedColor("maroon", "#800000"), NamedColor("olive", "#808000"), NamedColor("lime", "#00ff00"),
     NamedColor("aqua", "#00ffff"), NamedColor("teal", "#008080"), NamedColor("navy", "#000080"),
     NamedColor("fuchsia", "#ff00ff")]
  }
}

/** `replaceNamedColors` of the style optimiser: a named colour written after a `:` and optional
    white space (any letter case, whole word only) is replaced by its hex value. The matches
    are collected left to right, sorted highest position first, and spliced into the text one
    after another at the positions computed on the original text. */
module OptimizeStyles {
  import opened Wrappers
  import opened Text
  import opened ColorNames

  /** A name of at least three lower-case letters and a seven-character value. */
  predicate Plain(c: NamedColor) {
    |c.name| >= 3 && |c.hex| == 7 && forall k :: 0 <= k < |c.name| ==> IsLowerLetter(c.name[k])
  }

  predicate AllPlain(names: seq<NamedColor>) {
    forall c :: c in names ==> Plain(c)
  }

  lemma PalettePlain()
    ensures AllPlain(Palette())
  {
    forall i | 0 <= i < |Palette()|
      ensures Plain(Palette()[i])
    {
    }
  }

  // ---------------------------------------------------------------- the pattern

  /** The end of the run of `\s` starting at `i` (the greedy `\s*`). */
  function SkipSpaces(s: string, i: nat): (r: nat)
    requires i <= |s|
    ensures i <= r <= |s|
    ensures forall k :: i <= k < r ==> IsSpace(s[k])
    ensures r == |s| || !IsSpace(s[r])
    decreases |s| - i
  {
    if i == |s| || !IsSpace(s[i]) then i else SkipSpaces(s, i + 1)
  }

  /** The alternative `name` matches at `q` without regard to case and ends at a word boundary. */
  predicate NameAt(s: string, q: nat, name: string) {
    q + |name| <= |s| && Lower(s[q..q + |name|]) == name
    && (q + |name| == |s| || !IsWordChar(s[q + |name|]))
  }

  /** The first alternative, in pattern order, that matches at `q`. */
  function NameFrom(s: string, q: nat, cs: seq<NamedColor>): (r: Option<NamedColor>)
    ensures r.Some? ==> r.value in cs && NameAt(s, q, r.value.name)
    ensures r.None? ==> forall c :: c in cs ==> !NameAt(s, q, c.name)
  {
    if cs == [] then None
    else if NameAt(s, q, cs[0].name) then Some(cs[0])
    else NameFrom(s, q, cs[1..])
  }

  /** One match of `:\s*(black|white|...)\b`: `match.index`, where the colour name starts, and
      the alternative that matched. */
  datatype Match = Match(index: nat, start: nat, color: NamedColor)

  function End(m: Match): nat {
    m.start + |m.color.name|
  }

  /** `m` is a match: a `:`, a run of white space, a name in any letter case, and a word
      boundary after it. */
  predicate ValidMatch(s: string, m: Match) {
    && m.index < m.start <= |s|
    && s[m.index] == ':'
    && (forall k :: m.index < k < m.start ==> IsSpace(s[k]))
    && NameAt(s, m.start, m.color.name)
  }

  /** The match of the pattern built from `names` starting at `p`, if any. A shorter `\s*`
      cannot help, since no name starts with white space, so the greedy run is the only
      candidate. */
  function MatchAt(s: string, p: nat, names: seq<NamedColor>): (r: Option<Match>)
    ensures r.Some? ==> r.value.index == p
    ensures |s| <= p ==> r.None?
  {
    if p < |s| && s[p] == ':' then
      var q := SkipSpaces(s, p + 1);
      match NameFrom(s, q, names)
      case None => None
      case Some(c) => Some(Match(p, q, c))
    else None
  }

  /** What `MatchAt` finds is a match of one of `names`. */
  lemma MatchAtValid(s: string, p: nat, names: seq<NamedColor>)
    ensures MatchAt(s, p, names).Some? ==>
      ValidMatch(s, MatchAt(s, p, names).value) && MatchAt(s, p, names).value.color in names
  {
  }

  /** `colorPattern.exec(content)` with `lastIndex == from`: the leftmost match at or after `from`. */
  function NextMatch(s: string, from: nat, names: seq<NamedColor>): (r: Option<Match>)
    decreases |s| - from
    ensures r.Some? ==> from <= r.value.index && MatchAt(s, r.value.index, names) == r
    ensures r.Some? ==> forall p :: from <= p < r.value.index ==> MatchAt(s, p, names).None?
    ensures r.None? ==> forall p :: from <= p ==> MatchAt(s, p, names).None?
  {
    if from >= |s| then None
    else
      var m := MatchAt(s, from, names);
      if m.Some? then m else NextMatch(s, from + 1, names)
  }

  /** The matches the `while` loop visits from `from` on, each scan resuming at the end of the
      previous match. */
  function Matches(s: string, from: nat, names: seq<NamedColor>): (r: seq<Match>)
    decreases |s| - from
    ensures forall i :: 0 <= i < |r| ==> from <= r[i].index && ValidMatch(s, r[i]) && r[i].color in names
    ensures forall i, j :: 0 <= i < j < |r| ==> End(r[i]) <= r[j].index
  {
    match NextMatch(s, from, names)
    case None => []
    case Some(m) =>
      MatchAtValid(s, m.index, names);
      var rest := Matches(s, End(m), names);
      assert forall j :: 0 < j < |[m] + rest| ==> ([m] + rest)[j] == rest[j - 1];
      [m] + rest
  }

  predicate AreMatches(s: string, ms: seq<Match>) {
    forall i :: 0 <= i < |ms| ==> ValidMatch(s, ms[i])
  }

  // ---------------------------------------------------------------- the replacements

  datatype Replacement = Replacement(original: string, replacement: string, position: int)

  /** `match.index + match[0].indexOf(namedColor)`, with `namedColor` the lower-cased name. */
  function Position(s: string, m: Match): int
    requires ValidMatch(s, m)
  {
    m.index + IndexOf(s[m.index..End(m)], m.color.name)
  }

  function ReplacementOf(s: string, m: Match): Replacement
    requires ValidMatch(s, m)
  {
    Replacement(m.color.name, m.color.hex, Position(s, m))
  }

  function ReplacementsOf(s: string, ms: seq<Match>): seq<Replacement>
    requires AreMatches(s, ms)
  {
    if ms == [] then [] else [ReplacementOf(s, ms[0])] + ReplacementsOf(s, ms[1..])
  }

  /** The replacements the `while` loop pushes from `lastIndex == from` on. */
  function Pending(s: string, from: nat): seq<Replacement> {
    ReplacementsOf(s, Matches(s, from, Palette()))
  }

  /** The `replacements` array after the `while` loop. */
  function Collected(s: string): seq<Replacement> {
    Pending(s, 0)
  }

  predicate Descending(rs: seq<Replacement>) {
    forall i, j :: 0 <= i < j < |rs| ==> rs[i].position >= rs[j].position
  }

  /** `r` placed into a list sorted highest position first, after every entry whose position is
      not lower, so that entries of equal position keep their order. */
  function Insert(r: Replacement, rs: seq<Replacement>): (out: seq<Replacement>)
    ensures |out| == |rs| + 1
  {
    if rs == [] then [r]
    else if rs[0].position >= r.position then [rs[0]] + Insert(r, rs[1..])
    else [r] + rs
  }

  lemma {:induction false} InsertPermutes(r: Replacement, rs: seq<Replacement>)
    ensures multiset(Insert(r, rs)) == multiset(rs) + multiset{r}
  {
    if rs != [] {
      assert rs == [rs[0]] + rs[1..];
      if rs[0].position >= r.position {
        InsertPermutes(r, rs[1..]);
      }
    }
  }

  lemma {:induction false} InsertDescending(r: Replacement, rs: seq<Replacement>)
    requires Descending(rs)
    ensures Descending(Insert(r, rs))
  {
    if rs != [] && rs[0].position >= r.position {
      InsertDescending(r, rs[1..]);
      InsertBelow(r, rs[1..], rs[0].position);
      ConsDescending(rs[0], Insert(r, rs[1..]));
    }
  }

  /** Inserting keeps every position under a bound the list and the new entry are under. */
  lemma {:induction false} InsertBelow(r: Replacement, rs: seq<Replacement>, b: int)
    requires r.position <= b && forall j :: 0 <= j < |rs| ==> rs[j].position <= b
    ensures forall j :: 0 <= j < |Insert(r, rs)| ==> Insert(r, rs)[j].position <= b
  {
    if rs != [] && rs[0].position >= r.position {
      InsertBelow(r, rs[1..], b);
      var out := Insert(r, rs);
      forall j | 0 < j < |out|
        ensures out[j].position <= b
      {
        assert out[j] == Insert(r, rs[1..])[j - 1];
      }
    }
  }

  lemma ConsDescending(x: Replacement, rest: seq<Replacement>)
    requires Descending(rest) && forall j :: 0 <= j < |rest| ==> rest[j].position <= x.position
    ensures Descending([x] + rest)
  {
    var out := [x] + rest;
    forall i, j | 0 <= i < j < |out|
      ensures out[i].position >= out[j].position
    {
      assert out[j] == rest[j - 1];
      if i > 0 {
        assert out[i] == rest[i - 1];
      }
    }
  }

  /** `replacements.sort((a, b) => b.position - a.position)`: a stable sort, highest position
      first. */
  function SortByPosition(rs: seq<Replacement>): (out: seq<Replacement>)
    ensures |out| == |rs|
  {
    if rs == [] then [] else Insert(rs[|rs| - 1], SortByPosition(rs[..|rs| - 1]))
  }

  /** The sort permutes its input into highest-position-first order. */
  lemma {:induction false} SortSorts(rs: seq<Replacement>)
    ensures multiset(SortByPosition(rs)) == multiset(rs)
    ensures Descending(SortByPosition(rs))
  {
    if rs != [] {
      var init := rs[..|rs| - 1];
      assert rs == init + [rs[|rs| - 1]];
      SortSorts(init);
      InsertPermutes(rs[|rs| - 1], SortByPosition(init));
      InsertDescending(rs[|rs| - 1], SortByPosition(init));
    }
  }

  // ---------------------------------------------------------------- the splices

  /** The index `slice` uses for `i` on a string of length `len`: a negative index counts from
      the end, and both ends are clamped to the string. */
  function SliceIndex(i: int, len: nat): (r: nat)
    ensures r <= len
    ensures 0 <= i <= len ==> r == i
  {
    if i < 0 then (if len + i < 0 then 0 else len + i) else if i > len then len else i
  }

  /** `s.slice(from, to)`. */
  function Slice(s: string, from: int, to: int): string {
    var a, b := SliceIndex(from, |s|), SliceIndex(to, |s|);
    if a < b then s[a..b] else ""
  }

  /** One turn of the `for` loop: the text before the position, the replacement, and the text
      after the replaced name. */
  function Splice(s: string, r: Replacement): string {
    Slice(s, 0, r.position) + r.replacement + Slice(s, r.position + |r.original|, |s|)
  }

  function Applied(s: string, rs: seq<Replacement>): string
    decreases |rs|
  {
    if rs == [] then s else Applied(Splice(s, rs[0]), rs[1..])
  }

  /** `replaceNamedColors(content)` as written. */
  function NamedColorsReplaced(s: string): string {
    Applied(s, SortByPosition(Collected(s)))
  }

  // ---------------------------------------------------------------- the intended rewrite

  /** Replacements inside `s`, each ending before the next begins. */
  predicate Ordered(s: string, rs: seq<Replacement>) {
    && (forall i :: 0 <= i < |rs| ==> 0 <= rs[i].position && rs[i].position + |rs[i].original| <= |s|)
    && (forall i, j :: 0 <= i < j < |rs| ==> rs[i].position + |rs[i].original| <= rs[j].position)
  }

  /** The text with every replaced span exchanged for its replacement and everything between the
      spans copied: the rewrite read from left to right. */
  function Rebuilt(s: string, rs: seq<Replacement>): string
    requires Ordered(s, rs)
    decreases |rs|
  {
    if rs == [] then s
    else
      var r := rs[|rs| - 1];
      Rebuilt(s[..r.position], rs[..|rs| - 1]) + r.replacement + s[r.position + |r.original|..]
  }

  /** Each match's name, where it is written, with its hex value. */
  function Target(m: Match): Replacement {
    Replacement(m.color.name, m.color.hex, m.start)
  }

  function Targets(s: string): (r: seq<Replacement>)
    ensures |r| == |Matches(s, 0, Palette())|
    ensures forall i :: 0 <= i < |r| ==> r[i] == Target(Matches(s, 0, Palette())[i])
  {
    var ms := Matches(s, 0, Palette());
    seq(|ms|, i requires 0 <= i < |ms| => Target(ms[i]))
  }

  lemma TargetsOrdered(s: string)
    ensures Ordered(s, Targets(s))
  {
    var ms, ts := Matches(s, 0, Palette()), Targets(s);
    forall i, j | 0 <= i < j < |ts|
      ensures ts[i].position + |ts[i].original| <= ts[j].position
    {
      assert End(ms[i]) <= ms[j].index < ms[j].start;
    }
  }

  /** Every named colour in the text replaced by its hex value, in place, and nothing else
      changed. */
  function Reference(s: string): string {
    TargetsOrdered(s);
    Rebuilt(s, Targets(s))
  }

  /** The splice position computed on the lower-cased match, which always finds the name. */
  function CorrectedPosition(s: string, m: Match): int
    requires ValidMatch(s, m)
  {
    m.index + IndexOf(Lower(s[m.index..End(m)]), m.color.name)
  }

  function CorrectedReplacements(s: string, ms: seq<Match>): seq<Replacement>
    requires AreMatches(s, ms)
  {
    if ms == [] then []
    else [Replacement(ms[0].color.name, ms[0].color.hex, CorrectedPosition(s, ms[0]))]
         + CorrectedReplacements(s, ms[1..])
  }

  /** `replaceNamedColors` with the splice position taken on the lower-cased match. */
  function CorrectedColorsReplaced(s: string): string {
    Applied(s, SortByPosition(CorrectedReplacements(s, Matches(s, 0, Palette()))))
  }

  // ---------------------------------------------------------------- the matches are all found

  /** A name of the table written after `:` and white space is where the pattern matches. */
  lemma {:induction false} OccurrenceMatches(s: string, m: Match, names: seq<NamedColor>)
    requires ValidMatch(s, m) && m.color in names && Plain(m.color)
    ensures MatchAt(s, m.index, names).Some?
  {
    NameChar(s, m, m.start);
    LetterNotSpace(s[m.start]);
    SpacesEndAt(s, m.index + 1, m.start);
    NameFromFinds(s, m.start, names, m.color);
    MatchAtIs(s, m.index, m.start, names);
  }

  lemma MatchAtIs(s: string, p: nat, q: nat, names: seq<NamedColor>)
    requires p < |s| && s[p] == ':' && p + 1 <= |s| && SkipSpaces(s, p + 1) == q
    requires NameFrom(s, q, names).Some?
    ensures MatchAt(s, p, names) == Some(Match(p, q, NameFrom(s, q, names).value))
  {
  }

  /** A character that lower-cases to a letter is neither white space nor `:`. */
  lemma LetterNotSpace(c: char)
    requires IsLowerLetter(LowerChar(c))
    ensures !IsSpace(c) && c != ':'
  {
  }

  lemma SpacesEndAt(s: string, i: nat, j: nat)
    requires i <= j < |s| && !IsSpace(s[j])
    requires forall k :: i <= k < j ==> IsSpace(s[k])
    ensures SkipSpaces(s, i) == j
  {
  }

  lemma {:induction false} NameFromFinds(s: string, q: nat, cs: seq<NamedColor>, c: NamedColor)
    requires c in cs && NameAt(s, q, c.name)
    ensures NameFrom(s, q, cs).Some?
  {
    if cs[0] != c {
      NameFromFinds(s, q, cs[1..], c);
    }
  }

  /** Inside a match there is no `:` after the first character. */
  lemma NoColonInside(s: string, m: Match, k: nat)
    requires ValidMatch(s, m) && Plain(m.color) && m.index < k < End(m)
    ensures s[k] != ':'
  {
    if k < m.start {
      BeforeName(s, m, k);
    } else {
      NameChar(s, m, k);
      LetterNotSpace(s[k]);
    }
  }

  /** Each character of the matched name lower-cases to the name's character. */
  lemma NameChar(s: string, m: Match, k: nat)
    requires ValidMatch(s, m) && m.start <= k < End(m)
    ensures LowerChar(s[k]) == m.color.name[k - m.start]
  {
    var x := s[m.start..End(m)];
    assert x[k - m.start] == s[k];
    assert Lower(x)[k - m.start] == LowerChar(x[k - m.start]);
  }

  lemma SpaceNotLetter(c: char)
    requires IsSpace(c)
    ensures LowerChar(c) == c && !IsLowerLetter(c) && c != ':'
  {
  }

  /** The `:` and the white space before the name are no letters and lower-case to themselves. */
  lemma BeforeName(s: string, m: Match, j: nat)
    requires ValidMatch(s, m) && m.index <= j < m.start
    ensures LowerChar(s[j]) == s[j] && !IsLowerLetter(s[j])
    ensures m.index < j ==> s[j] != ':'
  {
    if m.index < j {
      SpaceNotLetter(s[j]);
    }
  }

  /** The `while` loop visits every position from `from` on where the pattern matches. */
  lemma {:induction false} MatchesFindAll(s: string, from: nat, p: nat, names: seq<NamedColor>)
    requires AllPlain(names)
    requires from <= p && MatchAt(s, p, names).Some?
    ensures exists i :: 0 <= i < |Matches(s, from, names)| && Matches(s, from, names)[i].index == p
    decreases |s| - from
  {
    var ms := Matches(s, from, names);
    var m := NextMatch(s, from, names).value;
    assert ms[0] == m;
    if m.index != p {
      MatchAtValid(s, m.index, names);
      MatchAtValid(s, p, names);
      if p < End(m) {
        NoColonInside(s, m, p);
      }
      MatchesFindAll(s, End(m), p, names);
      var rest := Matches(s, End(m), names);
      var i :| 0 <= i < |rest| && rest[i].index == p;
      assert ms[i + 1] == rest[i];
    }
  }

  /** Every occurrence of a name of the table in the pattern's form is collected. */
  lemma AllOccurrencesFound(s: string, m: Match)
    requires ValidMatch(s, m) && m.color in Palette()
    ensures exists i :: 0 <= i < |Matches(s, 0, Palette())| && Matches(s, 0, Palette())[i].index == m.index
  {
    PalettePlain();
    OccurrenceMatches(s, m, Palette());
    MatchesFindAll(s, 0, m.index, Palette());
  }

  // ---------------------------------------------------------------- the splices work backwards

  /** Positions strictly increasing from the first entry to the last. */
  predicate Increasing(rs: seq<Replacement>) {
    forall i, j :: 0 <= i < j < |rs| ==> rs[i].position < rs[j].position
  }

  /** `rs` from the last entry to the first. */
  function Reverse(rs: seq<Replacement>): (out: seq<Replacement>)
    ensures |out| == |rs|
  {
    if rs == [] then [] else [rs[|rs| - 1]] + Reverse(rs[..|rs| - 1])
  }

  lemma {:induction false} ReverseAt(rs: seq<Replacement>)
    ensures forall i :: 0 <= i < |rs| ==> Reverse(rs)[i] == rs[|rs| - 1 - i]
  {
    if rs != [] {
      var init := rs[..|rs| - 1];
      ReverseAt(init);
      assert Reverse(rs) == [rs[|rs| - 1]] + Reverse(init);
    }
  }

  /** Sorting entries collected left to right, highest position first, reverses them. */
  lemma {:induction false} SortIncreasing(rs: seq<Replacement>)
    requires Increasing(rs)
    ensures SortByPosition(rs) == Reverse(rs)
  {
    if rs != [] {
      var init, last := rs[..|rs| - 1], rs[|rs| - 1];
      SortIncreasing(init);
      var rev := Reverse(init);
      if init != [] {
        assert rev == [init[|init| - 1]] + Reverse(init[..|init| - 1]);
      }
      assert Insert(last, rev) == [last] + rev;
    }
  }

  /** Text appended after every replaced span is carried through unchanged. */
  lemma {:induction false} RebuiltPrefix(u: string, w: string, rs: seq<Replacement>)
    requires Ordered(u, rs)
    ensures Ordered(u + w, rs)
    ensures Rebuilt(u + w, rs) == Rebuilt(u, rs) + w
  {
    if rs != [] {
      var init, r := rs[..|rs| - 1], rs[|rs| - 1];
      var p, q := r.position, r.position + |r.original|;
      OrderedInit(u, rs);
      var front := Rebuilt(u[..p], init);
      calc {
        Rebuilt(u + w, rs);
        { assert (u + w)[..p] == u[..p]; }
        front + r.replacement + (u + w)[q..];
        { assert (u + w)[q..] == u[q..] + w; }
        front + r.replacement + (u[q..] + w);
        { AppendAssoc(front + r.replacement, u[q..], w); }
        Rebuilt(u, rs) + w;
      }
    }
  }

  /** Splicing from the last span to the first uses positions of the original text, so the result
      is the left-to-right rewrite. */
  lemma {:induction false} SpliceBackwards(s: string, rs: seq<Replacement>)
    requires Ordered(s, rs)
    ensures Applied(s, Reverse(rs)) == Rebuilt(s, rs)
    decreases |rs|
  {
    if rs != [] {
      var init, r := rs[..|rs| - 1], rs[|rs| - 1];
      var u, w := s[..r.position], r.replacement + s[r.position + |r.original|..];
      OrderedInit(s, rs);
      calc {
        Applied(s, Reverse(rs));
        { assert rs == init + [r]; LastSpliced(s, init, r); }
        Applied(u + w, Reverse(init));
        { RebuiltPrefix(u, w, init);
          SpliceBackwards(u + w, init); }
        Rebuilt(u, init) + w;
        { RebuiltLast(s, rs); }
        Rebuilt(s, rs);
      }
    }
  }

  /** The spans before the last one lie in the text up to the last one's position. */
  lemma OrderedInit(s: string, rs: seq<Replacement>)
    requires Ordered(s, rs) && rs != []
    ensures Ordered(s[..rs[|rs| - 1].position], rs[..|rs| - 1])
  {
    var init, p := rs[..|rs| - 1], rs[|rs| - 1].position;
    forall i | 0 <= i < |init|
      ensures init[i].position + |init[i].original| <= p
    {
      assert init[i] == rs[i];
    }
  }

  /** Splicing the reversed entries starts with the last one. */
  lemma LastSpliced(s: string, init: seq<Replacement>, r: Replacement)
    requires 0 <= r.position && r.position + |r.original| <= |s|
    ensures Applied(s, Reverse(init + [r]))
      == Applied(s[..r.position] + (r.replacement + s[r.position + |r.original|..]), Reverse(init))
  {
    var rest := Reverse(init);
    assert (init + [r])[..|init|] == init;
    assert Reverse(init + [r]) == [r] + rest;
    AppliedCons(s, r, rest);
    SpliceIs(s, r);
  }

  /** The left-to-right rewrite ends with the last span's replacement and the text after it. */
  lemma RebuiltLast(s: string, rs: seq<Replacement>)
    requires Ordered(s, rs) && rs != []
    ensures var init, r := rs[..|rs| - 1], rs[|rs| - 1];
      Ordered(s[..r.position], init)
      && Rebuilt(s, rs)
         == Rebuilt(s[..r.position], init) + (r.replacement + s[r.position + |r.original|..])
  {
    var init, r := rs[..|rs| - 1], rs[|rs| - 1];
    OrderedInit(s, rs);
    AppendAssoc(Rebuilt(s[..r.position], init), r.replacement, s[r.position + |r.original|..]);
  }

  lemma AppliedCons(s: string, r: Replacement, rest: seq<Replacement>)
    ensures Applied(s, [r] + rest) == Applied(Splice(s, r), rest)
  {
    assert ([r] + rest)[1..] == rest;
  }

  /** A splice inside the text keeps what is before and after the replaced span. */
  lemma SpliceIs(s: string, r: Replacement)
    requires 0 <= r.position && r.position + |r.original| <= |s|
    ensures Splice(s, r) == s[..r.position] + (r.replacement + s[r.position + |r.original|..])
  {
    assert Slice(s, 0, r.position) == s[..r.position];
    assert Slice(s, r.position + |r.original|, |s|) == s[r.position + |r.original|..];
  }

  lemma TargetsIncreasing(s: string)
    ensures Increasing(Targets(s))
  {
    var ms, ts := Matches(s, 0, Palette()), Targets(s);
    forall i, j | 0 <= i < j < |ts|
      ensures ts[i].position < ts[j].position
    {
      assert ms[i].start <= End(ms[i]) <= ms[j].index < ms[j].start;
    }
  }

  /** Splicing the targets, sorted as the optimiser sorts, gives the intended rewrite. */
  lemma TargetsSpliced(s: string)
    ensures Applied(s, SortByPosition(Targets(s))) == Reference(s)
  {
    TargetsIncreasing(s);
    SortIncreasing(Targets(s));
    TargetsOrdered(s);
    SpliceBackwards(s, Targets(s));
  }

  // ---------------------------------------------------------------- where the splice happens

  /** `indexOf` of a name not starting in the first `k` characters, which sits at `k`. */
  lemma IndexOfAfter(t: string, name: string, k: nat)
    requires 0 < |name| && k + |name| == |t| && t[k..] == name
    requires forall j :: 0 <= j < k ==> t[j] != name[0]
    ensures IndexOf(t, name) == k
  {
    forall j | 0 <= j < k
      ensures !StartsWith(t[j..], name)
    {
      assert t[j..][0] == t[j];
    }
    IndexOfIs(t, name, k);
  }

  /** The name is spelled in lower case where the match has it. */
  predicate LowerCaseAt(s: string, m: Match) {
    End(m) <= |s| && s[m.start..End(m)] == m.color.name
  }

  /** A lower-case spelling is found where it is written. */
  lemma PositionIsStart(s: string, m: Match)
    requires ValidMatch(s, m) && Plain(m.color) && LowerCaseAt(s, m)
    ensures Position(s, m) == m.start
  {
    var t := s[m.index..End(m)];
    var k := m.start - m.index;
    forall j | 0 <= j < k
      ensures t[j] != m.color.name[0]
    {
      assert t[j] == s[m.index + j];
      BeforeName(s, m, m.index + j);
    }
    assert t[k..] == s[m.start..End(m)];
    IndexOfAfter(t, m.color.name, k);
  }

  /** On the lower-cased match the name is always found where it is written. */
  lemma CorrectedPositionIsStart(s: string, m: Match)
    requires ValidMatch(s, m) && Plain(m.color)
    ensures CorrectedPosition(s, m) == m.start
  {
    var t := Lower(s[m.index..End(m)]);
    LoweredName(s, m, t);
    LoweredPrefix(s, m, t);
    IndexOfAfter(t, m.color.name, m.start - m.index);
    CorrectedFrom(s, m, t);
  }

  lemma CorrectedFrom(s: string, m: Match, t: string)
    requires ValidMatch(s, m) && t == Lower(s[m.index..End(m)])
    requires IndexOf(t, m.color.name) == m.start - m.index
    ensures CorrectedPosition(s, m) == m.start
  {
  }

  /** The lower-cased match ends with the name. */
  lemma LoweredName(s: string, m: Match, t: string)
    requires ValidMatch(s, m) && t == Lower(s[m.index..End(m)])
    ensures t[m.start - m.index..] == m.color.name
  {
    var k, u := m.start - m.index, s[m.index..End(m)];
    assert u[k..] == s[m.start..End(m)];
    forall j | 0 <= j < |m.color.name|
      ensures t[k..][j] == Lower(u[k..])[j]
    {
      LoweredNameAt(u, t, k, j);
    }
  }

  lemma LoweredNameAt(u: string, t: string, k: nat, j: nat)
    requires t == Lower(u) && k + j < |u|
    ensures t[k..][j] == Lower(u[k..])[j]
  {
    assert t[k..][j] == t[k + j] == LowerChar(u[k + j]);
    assert u[k..][j] == u[k + j];
  }

  /** Before the name the lower-cased match holds a colon and spaces, no letter. */
  lemma LoweredPrefix(s: string, m: Match, t: string)
    requires ValidMatch(s, m) && Plain(m.color) && t == Lower(s[m.index..End(m)])
    ensures forall j :: 0 <= j < m.start - m.index ==> t[j] != m.color.name[0]
  {
    forall j | 0 <= j < m.start - m.index
      ensures t[j] != m.color.name[0]
    {
      LoweredPrefixAt(s, m, t, j);
    }
  }

  lemma LoweredPrefixAt(s: string, m: Match, t: string, j: nat)
    requires ValidMatch(s, m) && Plain(m.color) && t == Lower(s[m.index..End(m)])
    requires j < m.start - m.index
    ensures t[j] != m.color.name[0]
  {
    assert t[j] == LowerChar(s[m.index + j]);
    BeforeName(s, m, m.index + j);
  }

  // ---------------------------------------------------------------- the rewrite, as written and corrected

  /** A match of the table's names. */
  predicate PlainMatches(s: string, ms: seq<Match>) {
    forall i :: 0 <= i < |ms| ==> ValidMatch(s, ms[i]) && Plain(ms[i].color)
  }

  lemma PaletteMatches(s: string)
    ensures PlainMatches(s, Matches(s, 0, Palette()))
  {
    PalettePlain();
  }

  /** The intended replacement of each match, in order. */
  function TargetsOf(ms: seq<Match>): (r: seq<Replacement>)
    ensures |r| == |ms|
  {
    if ms == [] then [] else [Target(ms[0])] + TargetsOf(ms[1..])
  }

  lemma {:induction false} TargetsOfAt(ms: seq<Match>)
    ensures forall i :: 0 <= i < |ms| ==> TargetsOf(ms)[i] == Target(ms[i])
  {
    if ms != [] {
      TargetsOfAt(ms[1..]);
    }
  }

  /** The intended replacements of the pattern's matches are the targets. */
  lemma TargetsAreTargetsOf(s: string)
    ensures Targets(s) == TargetsOf(Matches(s, 0, Palette()))
  {
    TargetsOfAt(Matches(s, 0, Palette()));
  }

  lemma {:induction false} LowerCaseAreTargets(s: string, ms: seq<Match>)
    requires PlainMatches(s, ms)
    requires forall i :: 0 <= i < |ms| ==> LowerCaseAt(s, ms[i])
    ensures ReplacementsOf(s, ms) == TargetsOf(ms)
  {
    if ms != [] {
      PositionIsStart(s, ms[0]);
      var tail := ms[1..];
      assert forall i :: 0 <= i < |tail| ==> tail[i] == ms[i + 1];
      LowerCaseAreTargets(s, tail);
    }
  }

  lemma {:induction false} CorrectedAreTargets(s: string, ms: seq<Match>)
    requires PlainMatches(s, ms)
    ensures CorrectedReplacements(s, ms) == TargetsOf(ms)
  {
    if ms != [] {
      CorrectedPositionIsStart(s, ms[0]);
      var tail := ms[1..];
      assert forall i :: 0 <= i < |tail| ==> tail[i] == ms[i + 1];
      CorrectedAreTargets(s, tail);
    }
  }

  /** When every match is spelled in lower case, the optimiser as written performs the intended
      rewrite. */
  lemma LowerCaseAsWritten(s: string)
    requires forall i :: 0 <= i < |Matches(s, 0, Palette())| ==> LowerCaseAt(s, Matches(s, 0, Palette())[i])
    ensures NamedColorsReplaced(s) == Reference(s)
  {
    PaletteMatches(s);
    LowerCaseAreTargets(s, Matches(s, 0, Palette()));
    TargetsAreTargetsOf(s);
    TargetsSpliced(s);
  }

  /** Computing the position on the lower-cased match performs the intended rewrite on every text. */
  lemma CorrectedIsReference(s: string)
    ensures CorrectedColorsReplaced(s) == Reference(s)
  {
    PaletteMatches(s);
    CorrectedAreTargets(s, Matches(s, 0, Palette()));
    TargetsAreTargetsOf(s);
    TargetsSpliced(s);
  }

  /** A text with no match comes back unchanged. */
  lemma NoMatchUnchanged(s: string)
    requires Matches(s, 0, Palette()) == []
    ensures NamedColorsReplaced(s) == s
  {
  }

  // ---------------------------------------------------------------- the length of the result

  /** How much longer the text gets when every entry of `rs` is spliced in. */
  function Growth(rs: seq<Replacement>): int {
    if rs == [] then 0
    else Growth(rs[..|rs| - 1]) + |rs[|rs| - 1].replacement| - |rs[|rs| - 1].original|
  }

  /** Seven characters of hex value in place of each matched name. */
  function HexGrowth(ms: seq<Match>): int {
    if ms == [] then 0 else HexGrowth(ms[..|ms| - 1]) + 7 - |ms[|ms| - 1].color.name|
  }

  lemma {:induction false} RebuiltLength(s: string, rs: seq<Replacement>)
    requires Ordered(s, rs)
    ensures |Rebuilt(s, rs)| == |s| + Growth(rs)
    decreases |rs|
  {
    if rs != [] {
      RebuiltLength(s[..rs[|rs| - 1].position], rs[..|rs| - 1]);
    }
  }

  lemma {:induction false} TargetsGrowth(rs: seq<Replacement>, ms: seq<Match>)
    requires |rs| == |ms|
    requires forall i :: 0 <= i < |ms| ==> rs[i] == Target(ms[i]) && Plain(ms[i].color)
    ensures Growth(rs) == HexGrowth(ms)
  {
    if ms != [] {
      TargetsGrowth(rs[..|rs| - 1], ms[..|ms| - 1]);
    }
  }

  /** With every match spelled in lower case, the result is longer by seven minus the name's
      length for each match. */
  lemma LowerCaseLength(s: string)
    requires forall i :: 0 <= i < |Matches(s, 0, Palette())| ==> LowerCaseAt(s, Matches(s, 0, Palette())[i])
    ensures |NamedColorsReplaced(s)| == |s| + HexGrowth(Matches(s, 0, Palette()))
  {
    LowerCaseAsWritten(s);
    TargetsOrdered(s);
    RebuiltLength(s, Targets(s));
    PaletteMatches(s);
    TargetsGrowth(Targets(s), Matches(s, 0, Palette()));
  }

  // ---------------------------------------------------------------- an upper-case spelling

  /** In `a:RED` the pattern matches `:RED`, but `indexOf("red")` on that text is -1, so the
      hex value is spliced in at position 0 over the first three characters. */
  lemma UpperCaseMisplaced()
    ensures NamedColorsReplaced("a:RED") == "#ff0000" + "ED"
    ensures Reference("a:RED") == "a:" + "#ff0000"
  {
    UpperCaseAsWritten();
    UpperCaseReference();
  }

  lemma UpperCaseAsWritten()
    ensures NamedColorsReplaced("a:RED") == "#ff0000" + "ED"
  {
    var m := UpperCaseMatches();
    OneMatchAsWritten("a:RED", m);
    UpperCasePosition(m);
    assert ReplacementOf("a:RED", m) == Replacement("red", "#ff0000", 0);
    UpperCaseSplice();
  }

  /** `":RED".indexOf("red")` is -1. */
  lemma UpperCasePosition(m: Match)
    requires m == Match(1, 2, NamedColor("red", "#ff0000")) && ValidMatch("a:RED", m)
    ensures Position("a:RED", m) == 0
  {
    var s := "a:RED";
    var t := s[1..5];
    forall j | 0 <= j < |t|
      ensures t[j] != 'r'
    {
      assert t[j] == s[j + 1];
    }
    IndexOfAbsent(t, "red");
  }

  lemma UpperCaseSplice()
    ensures Splice("a:RED", Replacement("red", "#ff0000", 0)) == "#ff0000" + "ED"
  {
    var s := "a:RED";
    assert Slice(s, 0, 0) == "";
    assert Slice(s, 3, 5) == s[3..5] == "ED";
  }

  lemma UpperCaseReference()
    ensures Reference("a:RED") == "a:" + "#ff0000"
  {
    var s := "a:RED";
    var m := UpperCaseMatches();
    OneMatchReference(s, m);
    UpperCaseRebuilt();
  }

  lemma UpperCaseRebuilt()
    ensures "a:RED"[..2] + "#ff0000" + "a:RED"[5..] == "a:" + "#ff0000"
  {
    assert "a:RED"[5..] == [];
    assert "a:RED"[..2] == "a:";
  }

  /** A text with one match: the optimiser splices once, at the computed position. */
  lemma OneMatchAsWritten(s: string, m: Match)
    requires Matches(s, 0, Palette()) == [m]
    ensures ValidMatch(s, m)
    ensures NamedColorsReplaced(s) == Splice(s, ReplacementOf(s, m))
  {
    var ms := Matches(s, 0, Palette());
    assert ms[0] == m;
    var x := ReplacementOf(s, m);
    assert ReplacementsOf(s, ms) == [x] + ReplacementsOf(s, ms[1..]);
    assert Collected(s) == [x];
    assert SortByPosition([x]) == [x];
    assert [x][1..] == [];
    assert Applied(s, [x]) == Splice(s, x);
  }

  /** A text with one match: the intended rewrite exchanges the name where it is written. */
  lemma OneMatchReference(s: string, m: Match)
    requires Matches(s, 0, Palette()) == [m] && ValidMatch(s, m)
    ensures Reference(s) == s[..m.start] + m.color.hex + s[End(m)..]
  {
    assert Matches(s, 0, Palette())[0] == m;
    assert Targets(s) == [Target(m)];
    TargetsOrdered(s);
    RebuiltOne(s, Target(m));
  }

  /** One replacement exchanges its span and copies the rest. */
  lemma RebuiltOne(s: string, r: Replacement)
    requires 0 <= r.position && r.position + |r.original| <= |s| && Ordered(s, [r])
    ensures Rebuilt(s, [r]) == s[..r.position] + r.replacement + s[r.position + |r.original|..]
  {
    assert [r][..0] == [];
  }

  /** A text without the first character of `name` does not contain it. */
  lemma IndexOfAbsent(t: string, name: string)
    requires 0 < |name| && forall j :: 0 <= j < |t| ==> t[j] != name[0]
    ensures IndexOf(t, name) == -1
  {
    forall j | 0 <= j <= |t|
      ensures !StartsWith(t[j..], name)
    {
      if j < |t| {
        assert t[j..][0] == t[j];
      }
    }
    IndexOfNone(t, name);
  }

  /** The one match in `a:RED`, whatever table puts `red` first at position 2. */
  lemma UpperCaseMatchesIn(names: seq<NamedColor>) returns (m: Match)
    requires NameFrom("a:RED", 2, names) == Some(NamedColor("red", "#ff0000"))
    ensures m == Match(1, 2, NamedColor("red", "#ff0000"))
    ensures Matches("a:RED", 0, names) == [m]
    ensures ValidMatch("a:RED", m)
  {
    var s := "a:RED";
    m := Match(1, 2, NamedColor("red", "#ff0000"));
    SpacesEndAt(s, 2, 2);
    MatchAtIs(s, 1, 2, names);
    MatchAtValid(s, 1, names);
    assert MatchAt(s, 0, names) == None;
    assert NextMatch(s, 0, names) == Some(m);
    assert Matches(s, 5, names) == [];
  }

  /** The one match in `a:RED`. */
  lemma UpperCaseMatches() returns (m: Match)
    ensures m == Match(1, 2, NamedColor("red", "#ff0000"))
    ensures Matches("a:RED", 0, Palette()) == [m]
    ensures ValidMatch("a:RED", m)
  {
    RedFirst();
    m := UpperCaseMatchesIn(Palette());
  }

  /** `red` is the first alternative of the pattern that matches `RED` at the end of `a:RED`. */
  lemma RedFirst()
    ensures NameFrom("a:RED", 2, Palette()) == Some(NamedColor("red", "#ff0000"))
  {
    var s := "a:RED";
    assert Palette()[2] == NamedColor("red", "#ff0000");
    assert Lower(s[2..5]) == "red";
  }

  // ---------------------------------------------------------------- replaceNamedColors

  /** The `while` loop: `colorPattern.exec(content)` from `lastIndex` until it finds nothing,
      pushing one replacement per match. */
  method CollectReplacements(content: string) returns (replacements: seq<Replacement>)
    ensures replacements == Collected(content)
  {
    replacements := [];
    var lastIndex := 0;
    while true
      invariant lastIndex <= |content|
      invariant replacements + Pending(content, lastIndex) == Collected(content)
      decreases |content| - lastIndex
    {
      var found := NextMatch(content, lastIndex, Palette());
      if found.None? {
        break;
      }
      var m := found.value;
      CollectStep(content, lastIndex, replacements);
      var namedColor := m.color.name;
      var hexColor := m.color.hex;
      var position := m.index + IndexOf(content[m.index..End(m)], namedColor);
      var replacement := Replacement(namedColor, hexColor, position);
      assert replacement == ReplacementOf(content, m);
      replacements := replacements + [replacement];
      lastIndex := End(m);
    }
  }

  /** One turn of the `while` loop: the first match's replacement, then those from its end on. */
  lemma CollectStep(s: string, from: nat, done: seq<Replacement>)
    requires NextMatch(s, from, Palette()).Some?
    ensures var m := NextMatch(s, from, Palette()).value;
      && from < End(m) <= |s| && ValidMatch(s, m)
      && done + Pending(s, from) == (done + [ReplacementOf(s, m)]) + Pending(s, End(m))
  {
    var m := NextMatch(s, from, Palette()).value;
    var rest := Matches(s, End(m), Palette());
    MatchesStep(s, from, Palette());
    ReplacementsCons(s, m, rest);
    AppendAssoc(done, [ReplacementOf(s, m)], ReplacementsOf(s, rest));
  }

  lemma AppendAssoc<T>(a: seq<T>, b: seq<T>, c: seq<T>)
    ensures a + (b + c) == (a + b) + c
  {
  }

  /** The matches from `from` on: the leftmost one, then those from its end on. */
  lemma MatchesStep(s: string, from: nat, names: seq<NamedColor>)
    requires NextMatch(s, from, names).Some?
    ensures var m := NextMatch(s, from, names).value;
      && from < End(m) <= |s| && ValidMatch(s, m)
      && Matches(s, from, names) == [m] + Matches(s, End(m), names)
  {
    var m := NextMatch(s, from, names).value;
    MatchAtValid(s, m.index, names);
  }

  lemma ReplacementsCons(s: string, m: Match, rest: seq<Match>)
    requires AreMatches(s, [m] + rest)
    ensures ValidMatch(s, m) && AreMatches(s, rest)
    ensures ReplacementsOf(s, [m] + rest) == [ReplacementOf(s, m)] + ReplacementsOf(s, rest)
  {
    assert ([m] + rest)[0] == m;
    assert ([m] + rest)[1..] == rest;
    assert forall i :: 0 <= i < |rest| ==> rest[i] == ([m] + rest)[i + 1];
  }

  /** `rs[..j]` not lower than `r`, `rs[j..]` lower: `Insert` puts `r` at `j`. */
  lemma {:induction false} InsertAt(r: Replacement, rs: seq<Replacement>, j: nat)
    requires j <= |rs|
    requires forall k :: 0 <= k < j ==> rs[k].position >= r.position
    requires j < |rs| ==> rs[j].position < r.position
    ensures Insert(r, rs) == rs[..j] + [r] + rs[j..]
  {
    if j == 0 {
      assert Insert(r, rs) == [r] + rs;
      assert rs[..0] + [r] + rs[0..] == [r] + rs;
    } else {
      InsertAt(r, rs[1..], j - 1);
      assert Insert(r, rs) == [rs[0]] + Insert(r, rs[1..]);
      assert rs[..j] == [rs[0]] + rs[1..][..j - 1];
      assert rs[1..][j - 1..] == rs[j..];
      assert [rs[0]] + (rs[1..][..j - 1] + [r] + rs[j..]) == rs[..j] + [r] + rs[j..];
    }
  }

  /** One step of the in-place sort: `a[i]` moved down past the entries of `a[..i]` with a lower
      position, which shift up by one. */
  method MoveDown(a: array<Replacement>, i: nat)
    requires i < a.Length && Descending(a[..i])
    modifies a
    ensures a[..i + 1] == Insert(old(a[i]), old(a[..i]))
    ensures a[i + 1..] == old(a[i + 1..])
  {
    ghost var sorted := a[..i];
    ghost var later := a[i + 1..];
    var r := a[i];
    var j := i;
    while j > 0 && a[j - 1].position < r.position
      invariant 0 <= j <= i
      invariant forall k :: 0 <= k < j ==> a[k] == sorted[k]
      invariant forall k :: j < k <= i ==> a[k] == sorted[k - 1]
      invariant a[i + 1..] == later
      invariant forall k :: j <= k < i ==> sorted[k].position < r.position
    {
      a[j] := a[j - 1];
      j := j - 1;
    }
    a[j] := r;
    assert a[..i + 1] == sorted[..j] + [r] + sorted[j..];
    InsertAt(r, sorted, j);
  }

  /** `replacements.sort((a, b) => b.position - a.position)`, in place: an insertion sort, which
      is stable as the engine's sort is. */
  method SortInPlace(a: array<Replacement>)
    modifies a
    ensures a[..] == SortByPosition(old(a[..]))
  {
    ghost var input := a[..];
    for i := 0 to a.Length
      invariant a[..i] == SortByPosition(input[..i])
      invariant a[i..] == input[i..]
    {
      assert input[..i + 1] == input[..i] + [input[i]];
      SortSorts(input[..i]);
      MoveDown(a, i);
    }
    assert input[..a.Length] == input;
  }

  /** The body of the `for` loop. */
  method SpliceOne(updatedContent: string, replacement: Replacement) returns (out: string)
    ensures out == Splice(updatedContent, replacement)
  {
    var before := Slice(updatedContent, 0, replacement.position);
    var after := Slice(updatedContent, replacement.position + |replacement.original|, |updatedContent|);
    out := before + replacement.replacement + after;
  }

  /** The `for` loop: each replacement of the sorted array spliced into the text in turn. */
  method SpliceAll(content: string, replacements: array<Replacement>) returns (updatedContent: string)
    ensures updatedContent == Applied(content, replacements[..])
  {
    updatedContent := content;
    for i := 0 to replacements.Length
      invariant Applied(updatedContent, replacements[i..]) == Applied(content, replacements[..])
    {
      assert replacements[i..][1..] == replacements[i + 1..];
      updatedContent := SpliceOne(updatedContent, replacements[i]);
    }
  }

  /** `replaceNamedColors(content)`: collect, sort, and splice each replacement into the text. */
  method ReplaceNamedColors(content: string) returns (updatedContent: string)
    ensures updatedContent == NamedColorsReplaced(content)
  {
    var collected := CollectReplacements(content);
    var replacements := new Replacement[|collected|](i requires 0 <= i < |collected| => collected[i]);
    assert replacements[..] == collected;
    SortInPlace(replacements);
    updatedContent := SpliceAll(content, replacements);
  }
}
