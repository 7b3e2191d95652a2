/** The text half of `optimizeHtml`: the regular-expression rewrites applied to the serialised
    page after formatting. The page is a sequence of text runs and tags, a tag running from a
    `<` to the next `>`; every pattern the optimiser uses starts at `<` and ends at the first
    `>` after it, so each rewrite acts on whole tags, one at a time. */
module OptimizeMarkup {
  import opened Wrappers
  import opened Text
  import OptimizeHtml

  // ---------------------------------------------------------------- the serialised page

  /** A tag: from `<` to `>`, with neither bracket inside. */
  predicate IsTag(t: string) {
    |t| >= 2 && t[0] == '<' && t[|t| - 1] == '>' && NoBrackets(t[1..|t| - 1])
  }

  predicate NoBrackets(s: string) {
    forall i :: 0 <= i < |s| ==> s[i] != '<' && s[i] != '>'
  }

  datatype Piece = Text(text: string) | Tag(tag: string)

  /** Text runs hold no `<`, so every `<` opens one of the tags. */
  predicate WellFormed(page: seq<Piece>) {
    forall i :: 0 <= i < |page| ==>
      match page[i]
      case Text(s) => '<' !in s
      case Tag(t) => IsTag(t)
  }

  function Serialize(page: seq<Piece>): string {
    if page == [] then ""
    else Serialize(page[..|page| - 1]) + (match page[|page| - 1] case Text(s) => s case Tag(t) => t)
  }

  /** `content.replace(pattern, callback)` for a pattern that only matches tags: each tag is
      passed through `f`, the text runs are kept. */
  function MapTags(page: seq<Piece>, f: string -> string): (r: seq<Piece>)
    ensures |r| == |page|
    ensures forall i :: 0 <= i < |page| ==>
      r[i] == match page[i] case Text(s) => Text(s) case Tag(t) => Tag(f(t))
  {
    if page == [] then []
    else MapTags(page[..|page| - 1], f) + [match page[|page| - 1] case Text(s) => Text(s) case Tag(t) => Tag(f(t))]
  }

  /** A replacement over the whole page of a pattern with no bracket in it: no match can cross
      the edge of a tag, so it is applied to every piece. */
  function MapPieces(page: seq<Piece>, f: string -> string): (r: seq<Piece>)
    ensures |r| == |page|
    ensures forall i :: 0 <= i < |page| ==>
      r[i] == match page[i] case Text(s) => Text(f(s)) case Tag(t) => Tag(f(t))
  {
    if page == [] then []
    else MapPieces(page[..|page| - 1], f) + [match page[|page| - 1] case Text(s) => Text(f(s)) case Tag(t) => Tag(f(t))]
  }

  /** Replacing `n` characters at `k` inside a tag by bracket-free text leaves a tag. */
  lemma SpliceKeepsTag(t: string, k: nat, n: nat, q: string)
    requires IsTag(t) && 1 <= k && k + n <= |t| - 1 && NoBrackets(q)
    ensures IsTag(t[..k] + q + t[k + n..])
  {
    var r := t[..k] + q + t[k + n..];
    var inner := r[1..|r| - 1];
    assert inner == t[1..k] + q + t[k + n..|t| - 1];
    forall i | 0 <= i < |inner|
      ensures inner[i] != '<' && inner[i] != '>'
    {
      if i < k - 1 {
        assert inner[i] == t[1..|t| - 1][i];
      } else if i >= k - 1 + |q| {
        assert inner[i] == t[1..|t| - 1][i - |q| + n];
      }
    }
  }

  // ---------------------------------------------------------------- attribute values

  predicate IsQuote(c: char) {
    c == '"' || c == '\''
  }

  /** The first quote at or after `k`, or the end of the text. */
  function QuoteFrom(t: string, k: nat): (e: nat)
    requires k <= |t|
    ensures k <= e <= |t|
    ensures forall j :: k <= j < e ==> !IsQuote(t[j])
    ensures e < |t| ==> IsQuote(t[e])
    decreases |t| - k
  {
    if k == |t| || IsQuote(t[k]) then k else QuoteFrom(t, k + 1)
  }

  /** `href=["']([^"']*)["']` read at position `i`, the name in any letter case: the text
      between the quotes. */
  function HrefValueAt(t: string, i: nat): (r: Option<string>)
    ensures r.Some? ==> i + 7 + |r.value| <= |t| && t[i + 6..i + 6 + |r.value|] == r.value
    ensures r.Some? ==> IsQuote(t[i + 5]) && IsQuote(t[i + 6 + |r.value|])
    ensures r.Some? ==> forall c :: c in r.value ==> !IsQuote(c)
  {
    if i + 6 <= |t| && OptimizeHtml.StartsWithCI(t[i..], "href=") && IsQuote(t[i + 5]) then
      var e := QuoteFrom(t, i + 6);
      if e < |t| then Some(t[i + 6..e]) else None
    else None
  }

  /** The value an `<a>` pattern looks for after `\shref=` and an opening quote. */
  datatype Wanted = Hash | VoidCall | External

  predicate Wants(w: Wanted, v: string) {
    match w
    case Hash => v == "#"
    case VoidCall => |v| == |VoidCallText| && OptimizeHtml.StartsWithCI(v, VoidCallText)
    case External =>
      (OptimizeHtml.StartsWithCI(v, "http://") && |v| > 7) || (OptimizeHtml.StartsWithCI(v, "https://") && |v| > 8)
  }

  /** `/<a[^>]*\shref=["']…["'][^>]*>/i` on one tag: it opens with `<a` in any letter case and
      has, after a whitespace character, an `href` whose quoted value is the one wanted. */
  predicate AnchorWith(t: string, w: Wanted) {
    OptimizeHtml.StartsWithCI(t, "<a") &&
    exists i :: 3 <= i <= |t| && IsSpace(t[i - 1]) && HrefValueAt(t, i).Some? && Wants(w, HrefValueAt(t, i).value)
  }

  // ---------------------------------------------------------------- stylesheet links

  /** The `href` of a stylesheet after the rewrite: `normalize.css` comes from the assets
      folder, a `styles/` sheet from `assets/styles/` in its minified form. */
  function StyleHref(path: string): string {
    if path == "normalize.css" then "assets/styles/normalize.min.css"
    else if StartsWith(path, "styles/") then
      ReplaceFirst(ReplaceFirst(path, "styles/", "assets/styles/"), ".css", ".min.css")
    else path
  }

  /** A `styles/` path keeps its name after `assets/styles/`, with its first `.css` extended. */
  lemma StylesPrefixReplaced(path: string)
    requires StartsWith(path, "styles/")
    ensures ReplaceFirst(path, "styles/", "assets/styles/") == "assets/styles/" + path[7..]
    ensures StyleHref(path) == "assets/styles/" + ReplaceFirst(path[7..], ".css", ".min.css")
  {
    assert IndexOf(path, "styles/") == 0;
    assert path[..0] == [];
    assert ReplaceFirst(path, "styles/", "assets/styles/") == "assets/styles/" + path[7..];
    assert path != "normalize.css" by {
      assert path[0] == 's';
    }
    assert '.' !in "assets/styles/";
    NoStartIn("assets/styles/", path[7..], ".css");
    ReplaceFirstAfter("assets/styles/", path[7..], ".css", ".min.css");
  }

  /** `name + ".css"`, for a name without a dot, has its first `.css` at the end. */
  lemma ExtensionFirst(name: string)
    requires '.' !in name
    ensures ReplaceFirst(name + ".css", ".css", ".min.css") == name + ".min.css"
  {
    NoStartIn(name, ".css", ".css");
    ReplaceFirstAfter(name, ".css", ".css", ".min.css");
    assert IndexOf(".css", ".css") == 0;
    assert ReplaceFirst(".css", ".css", ".min.css") == ".min.css";
  }

  /** The three cases of the href rewrite: `normalize.css` is replaced, a `styles/` sheet moves
      under `assets/styles/`, and every other href is left as it is. */
  lemma StyleHrefCases(path: string)
    ensures path == "normalize.css" ==> StyleHref(path) == "assets/styles/normalize.min.css"
    ensures StartsWith(path, "styles/") ==> StartsWith(StyleHref(path), "assets/styles/")
    ensures StyleHref(path) == path <==> path != "normalize.css" && !StartsWith(path, "styles/")
  {
    if StartsWith(path, "styles/") {
      StylesPrefixReplaced(path);
      AssetsPath(ReplaceFirst(path[7..], ".css", ".min.css"));
      assert path[0] == 's';
    } else if path == "normalize.css" {
      assert StyleHref(path) != path;
    }
  }

  /** A path under `assets/styles/` is neither `normalize.css` nor a `styles/` path. */
  lemma AssetsPath(rest: string)
    ensures var r := "assets/styles/" + rest;
      StartsWith(r, "assets/styles/") && r[0] == 'a' && r != "normalize.css" && !StartsWith(r, "styles/")
  {
    var r := "assets/styles/" + rest;
    assert r[..14] == "assets/styles/";
    assert r[0] == 'a';
  }

  /** Any other href is left as it is. */
  lemma OtherHrefKept(path: string)
    requires path != "normalize.css" && !StartsWith(path, "styles/")
    ensures StyleHref(path) == path
  {
  }

  /** A `styles/` sheet whose name has no dot before its `.css` gets `.min.css`. */
  lemma StyleHrefMinified(name: string)
    requires '.' !in name
    ensures StyleHref("styles/" + name + ".css") == "assets/styles/" + name + ".min.css"
  {
    var path := "styles/" + name + ".css";
    StylesPath(name + ".css");
    assert path == "styles/" + (name + ".css");
    StylesPrefixReplaced(path);
    ExtensionFirst(name);
  }

  /** A path written `styles/` + `rest` starts with `styles/` and has `rest` after it. */
  lemma StylesPath(rest: string)
    ensures var p := "styles/" + rest; StartsWith(p, "styles/") && p[7..] == rest
  {
    var p := "styles/" + rest;
    assert p[..7] == "styles/";
  }

  /** Rewriting an href a second time changes nothing. */
  lemma StyleHrefIdempotent(path: string)
    ensures StyleHref(StyleHref(path)) == StyleHref(path)
  {
    if StartsWith(path, "styles/") {
      StylesHrefTwice(path);
    } else if path == "normalize.css" {
      NormalizeHrefTwice(path);
    } else {
      OtherHrefKept(path);
      RewrittenKept(path, path);
    }
  }

  lemma StylesHrefTwice(path: string)
    requires StartsWith(path, "styles/")
    ensures StyleHref(StyleHref(path)) == StyleHref(path)
  {
    StylesPrefixReplaced(path);
    var rest := ReplaceFirst(path[7..], ".css", ".min.css");
    AssetsPath(rest);
    RewrittenKept(path, "assets/styles/" + rest);
  }

  lemma NormalizeHrefTwice(path: string)
    requires path == "normalize.css"
    ensures StyleHref(StyleHref(path)) == StyleHref(path)
  {
    AssetsPath("normalize.min.css");
    assert "assets/styles/normalize.min.css" == "assets/styles/" + "normalize.min.css";
    RewrittenKept(path, "assets/styles/normalize.min.css");
  }

  /** An href rewritten to one the rewrite leaves alone stays put the second time. */
  lemma RewrittenKept(path: string, r: string)
    requires StyleHref(path) == r && r != "normalize.css" && !StartsWith(r, "styles/")
    ensures StyleHref(StyleHref(path)) == StyleHref(path)
  {
    OtherHrefKept(r);
  }

  /** Position `i` holds `rel=` and `stylesheet` between quotes, in any letter case. */
  predicate RelAt(t: string, i: nat) {
    i + 16 <= |t| && OptimizeHtml.StartsWithCI(t[i..], "rel=") && IsQuote(t[i + 4])
    && OptimizeHtml.StartsWithCI(t[i + 5..], "stylesheet") && IsQuote(t[i + 15])
  }

  function FirstRel(t: string, k: nat): (r: Option<nat>)
    ensures r.Some? ==> k <= r.value && RelAt(t, r.value)
    ensures r.None? ==> forall j :: k <= j ==> !RelAt(t, j)
    decreases |t| - k
  {
    if k >= |t| then None else if RelAt(t, k) then Some(k) else FirstRel(t, k + 1)
  }

  /** The value of the last non-empty `href` at or after `k` and before `end`. */
  function LastHref(t: string, k: nat, end: nat): (r: Option<string>)
    ensures r.Some? ==> exists j :: k <= j < end && HrefValueAt(t, j) == r && r.value != ""
    decreases end
  {
    if end <= k then None
    else
      var v := HrefValueAt(t, end - 1);
      if v.Some? && v.value != "" then v else LastHref(t, k, end - 1)
  }

  /** The path the stylesheet pattern captures in a `<link>` tag. Both `[^>]*` runs are greedy,
      so the captured `href` is the last one that follows the end of some `rel="stylesheet"`,
      which is the last one after the first of them. */
  function StylesheetPath(t: string): Option<string> {
    if !OptimizeHtml.StartsWithCI(t, "<link") then None
    else
      match FirstRel(t, 5)
      case None => None
      case Some(i) => LastHref(t, i + 16, |t|)
  }

  /** The callback for one stylesheet `<link>`: the first occurrence of the captured path in
      the tag is replaced by the rewritten path. */
  function StyleLink(t: string): string {
    match StylesheetPath(t)
    case None => t
    case Some(path) =>
      if path == "normalize.css" || StartsWith(path, "styles/") then ReplaceFirst(t, path, StyleHref(path)) else t
  }

  // ---------------------------------------------------------------- `href="#"` and back

  const HashHref: string := "href=\"#\""
  const VoidCallText: string := "javascript:void(0)"
  const VoidHref: string := "href=\"" + VoidCallText + "\""

  /** `href=["']v["']` written exactly at `i`; when `spaced`, also right after whitespace. */
  predicate Hit(t: string, i: nat, v: string, spaced: bool) {
    i + 5 <= |t| && t[i..i + 5] == "href=" && HrefValueAt(t, i) == Some(v) && (spaced ==> 1 <= i && IsSpace(t[i - 1]))
  }

  /** The leftmost hit at or after `k` (`String.prototype.replace` with a non-global pattern). */
  function FirstHit(t: string, k: nat, v: string, spaced: bool): (r: Option<nat>)
    ensures r.Some? ==> k <= r.value && Hit(t, r.value, v, spaced)
    ensures r.Some? ==> forall j :: k <= j < r.value ==> !Hit(t, j, v, spaced)
    ensures r.None? ==> forall j :: k <= j ==> !Hit(t, j, v, spaced)
    decreases |t| - k
  {
    if k >= |t| then None else if Hit(t, k, v, spaced) then Some(k) else FirstHit(t, k + 1, v, spaced)
  }

  /** The tag with the `href` written at `i` replaced by `rep`. */
  function SwapHref(t: string, i: nat, v: string, rep: string): string
    requires i + 7 + |v| <= |t|
  {
    t[..i] + rep + t[i + 7 + |v|..]
  }

  /** The callback at the `href="#"` step as written: in a tag the anchor pattern accepts, the
      first `href="#"` anywhere in the tag, even inside a longer attribute name such as
      `data-href`, becomes `href="javascript:void(0)"`. */
  function ToVoidAsWritten(t: string): string {
    if !AnchorWith(t, Hash) then t
    else
      match FirstHit(t, 0, "#", false)
      case None => t
      case Some(i) => SwapHref(t, i, "#", VoidHref)
  }

  /** The final step as written: the first `href="javascript:void(0)"` anywhere in the tag
      becomes `href="#"` again. */
  function FromVoidAsWritten(t: string): string {
    if !AnchorWith(t, VoidCall) then t
    else
      match FirstHit(t, 0, VoidCallText, false)
      case None => t
      case Some(i) => SwapHref(t, i, VoidCallText, HashHref)
  }

  /** The `href="#"` step as intended: only an `href` attribute of its own, one that follows
      whitespace, is replaced. */
  function ToVoid(t: string): string {
    if !AnchorWith(t, Hash) then t
    else
      match FirstHit(t, 0, "#", true)
      case None => t
      case Some(i) => SwapHref(t, i, "#", VoidHref)
  }

  /** The final step as intended. */
  function FromVoid(t: string): string {
    if !AnchorWith(t, VoidCall) then t
    else
      match FirstHit(t, 0, VoidCallText, true)
      case None => t
      case Some(i) => SwapHref(t, i, VoidCallText, HashHref)
  }

  /** Reading a value back: `href=` (in any case), a quote, a value without quotes, a quote. */
  lemma ValueAtIntro(t: string, i: nat, v: string)
    requires i + 7 + |v| <= |t|
    requires OptimizeHtml.StartsWithCI(t[i..], "href=") && IsQuote(t[i + 5])
    requires t[i + 6..i + 6 + |v|] == v && (forall c :: c in v ==> !IsQuote(c)) && IsQuote(t[i + 6 + |v|])
    ensures HrefValueAt(t, i) == Some(v)
  {
    forall j | i + 6 <= j < i + 6 + |v|
      ensures !IsQuote(t[j])
    {
      assert t[j] == v[j - i - 6];
    }
    QuoteRun(t, i + 6, i + 6 + |v|);
  }

  /** The first quote after `k` is at `e` when none lies between. */
  lemma {:induction false} QuoteRun(t: string, k: nat, e: nat)
    requires k <= e < |t| && IsQuote(t[e]) && forall j :: k <= j < e ==> !IsQuote(t[j])
    ensures QuoteFrom(t, k) == e
    decreases e - k
  {
    if k < e {
      QuoteRun(t, k + 1, e);
    }
  }

  /** The leftmost hit is at `i` when there is one at `i` and none before it. */
  lemma FirstHitIs(t: string, k: nat, v: string, spaced: bool, i: nat)
    requires k <= i && Hit(t, i, v, spaced) && forall j :: k <= j < i ==> !Hit(t, j, v, spaced)
    ensures FirstHit(t, k, v, spaced) == Some(i)
  {
  }

  /** Both quotes around a value written at `i` come before the closing `>` of a tag. */
  lemma HitInside(t: string, i: nat, v: string, spaced: bool)
    requires IsTag(t) && Hit(t, i, v, spaced)
    ensures i + 7 + |v| <= |t| - 1
  {
  }

  /** In a tag opening with `<a`, whitespace comes after the name at the earliest. */
  lemma SpacedAfterOpen(t: string, i: nat)
    requires OptimizeHtml.StartsWithCI(t, "<a") && 1 <= i <= |t| && IsSpace(t[i - 1])
    ensures i >= 3
  {
    assert LowerChar(t[0]) == '<' && LowerChar(t[1]) == 'a';
  }

  /** A hit is decided by the characters from the one before `href` to the closing quote. */
  lemma HitLocal(t: string, u: string, j: nat, v: string)
    requires Hit(t, j, v, true) && j + 7 + |v| <= |u|
    requires t[j - 1..j + 7 + |v|] == u[j - 1..j + 7 + |v|]
    ensures Hit(u, j, v, true)
  {
    var n := j + 7 + |v|;
    assert forall k :: j - 1 <= k < n ==> t[k] == u[k] by {
      forall k | j - 1 <= k < n
        ensures t[k] == u[k]
      {
        assert t[j - 1..n][k - j + 1] == u[j - 1..n][k - j + 1];
      }
    }
    assert u[j..j + 5] == t[j..j + 5];
    assert u[j + 6..j + 6 + |v|] == t[j + 6..j + 6 + |v|];
    ValueAtIntro(u, j, v);
  }

  /** The spelling of the replacement value: it is the value the final step looks for, and it
      holds no quote, no bracket and no `h`. */
  lemma VoidCallFacts()
    ensures |VoidCallText| == 18 && |VoidHref| == 25
    ensures Wants(VoidCall, VoidCallText)
    ensures forall d :: 0 <= d < 18 ==> !IsQuote(VoidCallText[d]) && VoidCallText[d] != 'h'
    ensures NoBrackets(VoidHref)
  {
    assert forall d :: 0 <= d < 18 ==> LowerChar(VoidCallText[d]) == VoidCallText[d];
  }

  /** The tag after the `href="#"` step: the `href` at `i` now reads `javascript:void(0)`. */
  lemma VoidHrefAt(t: string, i: nat)
    requires i + 8 <= |t| && 1 <= i && IsSpace(t[i - 1])
    ensures Hit(SwapHref(t, i, "#", VoidHref), i, VoidCallText, true)
  {
    VoidCallFacts();
    var u := SwapHref(t, i, "#", VoidHref);
    assert u == t[..i] + "href=" + "\"" + VoidCallText + "\"" + t[i + 8..];
    assert u[i - 1] == t[i - 1];
    assert u[i..i + 5] == "href=";
    assert u[i + 6..i + 24] == VoidCallText;
    assert u[i + 5] == '"' && u[i + 24] == '"';
    assert forall c :: c in VoidCallText ==> !IsQuote(c);
    ValueAtIntro(u, i, VoidCallText);
  }

  /** A hit for `javascript:void(0)` has no `h` after its first character. */
  lemma HitShape(u: string, j: nat, d: nat)
    requires Hit(u, j, VoidCallText, true) && 1 <= d < 25
    ensures u[j + d] != 'h'
  {
    if d < 5 {
      assert u[j..j + 5][d] == "href="[d];
    } else if 6 <= d < 24 {
      assert u[j + 6..j + 24] == VoidCallText;
      assert u[j + d] == VoidCallText[d - 6];
    }
  }

  /** No `href="javascript:void(0)"` of its own starts in the swapped tag before `i`: one
      ending before `i` would already be in `t`, and one reaching over `i` would need an `h`
      where `javascript:void(0)` and its quotes have none. */
  lemma NoEarlierVoid(t: string, i: nat)
    requires i + 8 <= |t| && 1 <= i
    requires FirstHit(t, 0, VoidCallText, true).None?
    ensures var u := SwapHref(t, i, "#", VoidHref);
      forall j :: 0 <= j < i ==> !Hit(u, j, VoidCallText, true)
  {
    var u := SwapHref(t, i, "#", VoidHref);
    SwapFront(t, i);
    forall j | 0 <= j < i && Hit(u, j, VoidCallText, true)
      ensures false
    {
      if j + 25 <= i {
        EarlyHitKept(u, t, i, j);
      } else {
        HitShape(u, j, i - j);
      }
    }
  }

  /** The swapped tag agrees with the tag before `i` and has the `h` of `href` at `i`. */
  lemma SwapFront(t: string, i: nat)
    requires i + 8 <= |t|
    ensures var u := SwapHref(t, i, "#", VoidHref);
      |u| == |t| + 17 && u[..i] == t[..i] && u[i] == 'h'
  {
  }

  /** A `javascript:void(0)` hit that ends before `i` lies in the common prefix. */
  lemma EarlyHitKept(u: string, t: string, i: nat, j: nat)
    requires i <= |u| && i <= |t| && u[..i] == t[..i]
    requires Hit(u, j, VoidCallText, true) && j + 25 <= i
    ensures Hit(t, j, VoidCallText, true)
  {
    VoidCallFacts();
    KeptSlice(u, t, i, j - 1, j + 25);
    HitLocal(u, t, j, VoidCallText);
  }

  /** Slices inside a common prefix agree. */
  lemma KeptSlice(u: string, t: string, n: nat, a: nat, b: nat)
    requires n <= |u| && n <= |t| && u[..n] == t[..n] && a <= b <= n
    ensures u[a..b] == t[a..b]
  {
    forall k | a <= k < b
      ensures u[k] == t[k]
    {
      assert u[..n][k] == t[..n][k];
    }
  }

  /** The `href="#"` step on a tag whose first `href` of its own reading `#` is at `i`. */
  lemma ToVoidAt(t: string, i: nat)
    requires IsTag(t) && OptimizeHtml.StartsWithCI(t, "<a")
    requires FirstHit(t, 0, "#", true) == Some(i)
    ensures i >= 3 && i + 8 <= |t| - 1
    ensures ToVoid(t) == SwapHref(t, i, "#", VoidHref)
  {
    SpacedAfterOpen(t, i);
    HitInside(t, i, "#", true);
    assert AnchorWith(t, Hash) by {
      assert IsSpace(t[i - 1]) && HrefValueAt(t, i) == Some("#");
    }
  }

  /** The final step on a tag whose first `href` of its own reading `javascript:void(0)` is at `i`. */
  lemma FromVoidAt(u: string, i: nat)
    requires OptimizeHtml.StartsWithCI(u, "<a") && i >= 3
    requires Hit(u, i, VoidCallText, true) && forall j :: 0 <= j < i ==> !Hit(u, j, VoidCallText, true)
    ensures FromVoid(u) == SwapHref(u, i, VoidCallText, HashHref)
  {
    FirstHitIs(u, 0, VoidCallText, true, i);
    VoidCallFacts();
    assert AnchorWith(u, VoidCall) by {
      assert IsSpace(u[i - 1]) && HrefValueAt(u, i) == Some(VoidCallText);
    }
  }

  /** An `<a>` tag with an `href` of its own that is exactly `#` (and no `href` of its own that
      is already `javascript:void(0)`) comes back from the two intended steps with that `href`
      written `href="#"`, and unchanged when it was written so. */
  lemma HashRoundTrip(t: string, i: nat)
    requires IsTag(t) && OptimizeHtml.StartsWithCI(t, "<a")
    requires FirstHit(t, 0, "#", true) == Some(i)
    requires FirstHit(t, 0, VoidCallText, true).None?
    ensures IsTag(ToVoid(t))
    ensures FromVoid(ToVoid(t)) == t[..i] + HashHref + t[i + 8..]
    ensures t[i..i + 8] == HashHref ==> FromVoid(ToVoid(t)) == t
  {
    ToVoidAt(t, i);
    SwappedAnchor(t, i);
    FromVoidAt(SwapHref(t, i, "#", VoidHref), i);
    SwapBack(t, i);
  }

  /** After the `href="#"` step the tag is still an `<a>` tag, and its first `href` of its own
      reading `javascript:void(0)` is the one just written. */
  lemma SwappedAnchor(t: string, i: nat)
    requires IsTag(t) && OptimizeHtml.StartsWithCI(t, "<a")
    requires i >= 3 && i + 8 <= |t| - 1 && Hit(t, i, "#", true)
    requires FirstHit(t, 0, VoidCallText, true).None?
    ensures var u := SwapHref(t, i, "#", VoidHref);
      && IsTag(u) && OptimizeHtml.StartsWithCI(u, "<a")
      && Hit(u, i, VoidCallText, true) && forall j :: 0 <= j < i ==> !Hit(u, j, VoidCallText, true)
  {
    var u := SwapHref(t, i, "#", VoidHref);
    VoidCallFacts();
    SpliceKeepsTag(t, i, 8, VoidHref);
    VoidHrefAt(t, i);
    NoEarlierVoid(t, i);
    SwapFront(t, i);
    KeptSlice(u, t, i, 0, 2);
    OpenKept(t, u);
  }

  /** Swapping the `href` there and back rewrites it as `href="#"` and keeps the rest. */
  lemma SwapBack(t: string, i: nat)
    requires i + 8 <= |t|
    ensures |SwapHref(t, i, "#", VoidHref)| == |t| + 17
    ensures SwapHref(SwapHref(t, i, "#", VoidHref), i, VoidCallText, HashHref) == t[..i] + HashHref + t[i + 8..]
    ensures t[i..i + 8] == HashHref ==> t[..i] + HashHref + t[i + 8..] == t
  {
    var u := SwapHref(t, i, "#", VoidHref);
    assert |VoidHref| == 25;
    assert u[..i] == t[..i];
    assert u[i + 25..] == t[i + 8..];
    if t[i..i + 8] == HashHref {
      assert t == t[..i] + t[i..i + 8] + t[i + 8..];
    }
  }

  /** A tag keeps opening with `<a` when its first two characters are kept. */
  lemma OpenKept(t: string, u: string)
    requires OptimizeHtml.StartsWithCI(t, "<a") && |u| >= 2 && u[..2] == t[..2]
    ensures OptimizeHtml.StartsWithCI(u, "<a")
  {
    assert u[0] == t[0] && u[1] == t[1];
  }

  /** The tag of the counterexample: a data attribute named `data-href` holding `#`, then the
      link's own `href="#"`, that is `<a data-href="#" href="#">`. */
  const DataOpen: string := "<a data-"
  const DataTail: string := " " + HashHref + ">"
  const DataHrefTag: string := DataOpen + HashHref + DataTail
  /** `<a data-href="javascript:void(0)" href="#">` */
  const DataHrefVoided: string := DataOpen + VoidHref + DataTail

  lemma DataPieces()
    ensures |DataOpen| == 8 && |HashHref| == 8 && |DataTail| == 10 && |DataHrefTag| == 26
    ensures forall k :: 0 <= k < 8 ==> LowerChar(DataOpen[k]) != 'h'
    ensures forall k :: 1 <= k < 8 ==> DataOpen[k] != '<' && DataOpen[k] != '>'
    ensures DataOpen[0] == '<' && DataOpen[7] == '-' && OptimizeHtml.StartsWithCI(DataOpen, "<a")
    ensures forall k :: 0 <= k < 10 ==> LowerChar(DataTail[k]) == 'h' ==> k == 1
    ensures forall k :: 0 <= k < 9 ==> DataTail[k] != '<' && DataTail[k] != '>'
    ensures DataTail[0] == ' ' && DataTail[1..] == HashHref + ">"
    ensures NoBrackets(HashHref) && HashHref[..5] == "href=" && HashHref[5] == '"' && HashHref[6..7] == "#"
    ensures HashHref[7] == '"'
  {
  }

  /** The counterexample is a tag with a spaced `href="#"` of its own at 17, and the first
      exact `href="#"` in it, the one inside `data-href`, is at 8. */
  lemma DataHrefTagFacts()
    ensures IsTag(DataHrefTag) && AnchorWith(DataHrefTag, Hash)
    ensures FirstHit(DataHrefTag, 0, "#", false) == Some(8)
  {
    DataHrefIsTag();
    DataHrefAnchor();
    DataHrefFirstHit();
  }

  lemma DataHrefAnchor()
    ensures AnchorWith(DataHrefTag, Hash)
  {
    DataPieces();
    var t := DataHrefTag;
    assert t[16..] == DataTail;
    assert t[17..] == HashHref + ">";
    ValueAtIntro(t, 17, "#");
    assert IsSpace(t[16]);
  }

  lemma DataHrefFirstHit()
    ensures FirstHit(DataHrefTag, 0, "#", false) == Some(8)
  {
    DataPieces();
    var t := DataHrefTag;
    assert t[..8] == DataOpen;
    assert t[8..16] == HashHref;
    ValueAtIntro(t, 8, "#");
    forall j | 0 <= j < 8
      ensures !Hit(t, j, "#", false)
    {
      assert LowerChar(t[j]) == LowerChar(DataOpen[j]);
    }
    FirstHitIs(t, 0, "#", false, 8);
  }

  lemma DataHrefIsTag()
    ensures IsTag(DataHrefTag)
  {
    DataPieces();
    var t := DataHrefTag;
    assert t[..8] == DataOpen && t[8..16] == HashHref && t[16..] == DataTail;
    forall k | 1 <= k < 25
      ensures t[k] != '<' && t[k] != '>'
    {
      if k < 8 {
        assert t[k] == DataOpen[k];
      } else if k < 16 {
        assert t[k] == HashHref[k - 8];
      } else {
        assert t[k] == DataTail[k - 16];
      }
    }
  }

  /** The `href="#"` step as written rewrites the data attribute, not the link's `href`. */
  lemma DataHrefVoidedAsWritten()
    ensures ToVoidAsWritten(DataHrefTag) == DataHrefVoided
  {
    DataHrefTagFacts();
    ToVoidAsWrittenAt(DataHrefTag, 8);
    assert |DataOpen| == 8 && |HashHref| == 8;
    OuterPieces(DataOpen, HashHref, DataTail);
  }

  lemma OuterPieces(a: string, b: string, c: string)
    requires |a| == 8 && |b| == 8
    ensures (a + b + c)[..8] == a && (a + b + c)[16..] == c
  {
  }

  /** The `href="#"` step as written on a tag whose first exact `href="#"` is at `i`. */
  lemma ToVoidAsWrittenAt(t: string, i: nat)
    requires AnchorWith(t, Hash) && FirstHit(t, 0, "#", false) == Some(i)
    ensures i + 8 <= |t| && ToVoidAsWritten(t) == t[..i] + VoidHref + t[i + 8..]
  {
  }

  /** After its first character the replacement `href` holds no `h` in either case. */
  lemma VoidHrefAitches()
    ensures |VoidHref| == 25
    ensures forall d :: 1 <= d < 25 ==> LowerChar(VoidHref[d]) != 'h'
  {
    VoidCallFacts();
    forall d | 1 <= d < 25
      ensures LowerChar(VoidHref[d]) != 'h'
    {
      if 6 <= d < 24 {
        assert VoidHref[d] == VoidCallText[d - 6];
      }
    }
  }

  /** In the rewritten tag an `href` can only start at the two `h`s, at 8 and 34. */
  lemma VoidedAitches(k: nat)
    requires k < |DataHrefVoided| && LowerChar(DataHrefVoided[k]) == 'h'
    ensures k == 8 || k == 34
  {
    DataPieces();
    VoidHrefAitches();
    var u := DataHrefVoided;
    if 8 <= k < 33 {
      assert u[k] == VoidHref[k - 8];
    } else if 33 <= k {
      assert u[k] == DataTail[k - 33];
    }
  }

  /** A spaced `href` in the rewritten tag reads `#`, never `javascript:void(0)`. */
  lemma VoidedSpacedHref(i: nat)
    requires 3 <= i <= |DataHrefVoided| && IsSpace(DataHrefVoided[i - 1])
    requires HrefValueAt(DataHrefVoided, i).Some?
    ensures HrefValueAt(DataHrefVoided, i) == Some("#")
  {
    var u := DataHrefVoided;
    assert LowerChar(u[i..][0]) == 'h';
    VoidedAitches(i);
    DataPieces();
    if i != 8 {
      assert u[33..] == DataTail;
      assert u[34..] == DataTail[1..];
      ValueAtIntro(u, 34, "#");
    }
  }

  /** ... so the final step as written finds no spaced `href` reading `javascript:void(0)`
      and leaves the tag as it is: the round trip does not give back the original tag. */
  lemma DataHrefNotRestored()
    ensures FromVoidAsWritten(ToVoidAsWritten(DataHrefTag)) == DataHrefVoided
    ensures FromVoidAsWritten(ToVoidAsWritten(DataHrefTag)) != DataHrefTag
  {
    DataHrefVoidedAsWritten();
    var u := DataHrefVoided;
    forall i | 3 <= i <= |u| && IsSpace(u[i - 1]) && HrefValueAt(u, i).Some?
      ensures !Wants(VoidCall, HrefValueAt(u, i).value)
    {
      VoidedSpacedHref(i);
    }
    DataPieces();
    VoidHrefAitches();
  }

  // ---------------------------------------------------------------- external links

  const TargetBlank: string := "target=\"_blank\""

  /** The callback for an external `<a>` tag: ` target="_blank"` goes in before the closing
      `>` unless the tag already says `target="_blank"` somewhere. */
  function AddTarget(t: string): string {
    if AnchorWith(t, External) && !Contains(t, TargetBlank) && EndsWith(t, ">") then
      t[..|t| - 1] + " " + TargetBlank + ">"
    else t
  }

  /** The tag changes exactly when it is an external link without the target, and afterwards
      it holds the target and is still a tag. */
  lemma AddTargetCases(t: string)
    requires IsTag(t)
    ensures AddTarget(t) != t <==> AnchorWith(t, External) && !Contains(t, TargetBlank)
    ensures AnchorWith(t, External) ==> Contains(AddTarget(t), TargetBlank)
    ensures IsTag(AddTarget(t))
  {
    TargetAppended(t);
    assert EndsWith(t, ">");
  }

  /** The tag with ` target="_blank"` put in before its closing `>`. */
  lemma TargetAppended(t: string)
    requires IsTag(t)
    ensures var r := t[..|t| - 1] + " " + TargetBlank + ">";
      IsTag(r) && Contains(r, TargetBlank) && r != t
  {
    var x := " " + TargetBlank;
    var r := t[..|t| - 1] + x + ">";
    assert t[..|t| - 1] + " " + TargetBlank + ">" == r;
    TargetBlankFacts();
    InsertBeforeClose(t, x);
    assert r[|t|..|t| + 15] == TargetBlank;
    ContainsAt(r, TargetBlank, |t|);
  }

  lemma TargetBlankFacts()
    ensures |TargetBlank| == 15 && NoBrackets(" " + TargetBlank)
  {
  }

  /** Bracket-free text put in before the closing `>` of a tag leaves a tag. */
  lemma InsertBeforeClose(t: string, x: string)
    requires IsTag(t) && NoBrackets(x)
    ensures IsTag(t[..|t| - 1] + x + ">")
  {
    var r := t[..|t| - 1] + x + ">";
    var inner := r[1..|r| - 1];
    assert inner == t[1..|t| - 1] + x;
    forall i | 0 <= i < |inner|
      ensures inner[i] != '<' && inner[i] != '>'
    {
      if i < |t| - 2 {
        assert inner[i] == t[1..|t| - 1][i];
      } else {
        assert inner[i] == x[i - |t| + 2];
      }
    }
  }

  /** Running the step twice adds the target once. */
  lemma AddTargetIdempotent(t: string)
    requires IsTag(t)
    ensures AddTarget(AddTarget(t)) == AddTarget(t)
  {
    AddTargetCases(t);
  }

  // ---------------------------------------------------------------- void elements

  const VoidElements: seq<string> :=
    ["area", "base", "br", "col", "embed", "hr", "img", "input", "link", "meta", "param", "source", "track", "wbr"]

  predicate LowerWord(n: string) {
    |n| >= 2 && forall i :: 0 <= i < |n| ==> IsLowerLetter(n[i])
  }

  /** The first two letters of a name as one number. */
  function Head(n: string): int
    requires |n| >= 2
  {
    n[0] as int * 128 + n[1] as int
  }

  /** The names are lower-case words listed in strictly ascending order of their first two
      letters, so no two share them and no name is a prefix of another. */
  predicate HeadsAscending(names: seq<string>) {
    (forall i :: 0 <= i < |names| ==> LowerWord(names[i])) &&
    forall i :: 0 <= i < |names| - 1 ==> Head(names[i]) < Head(names[i + 1])
  }

  /** `<name([^>]*?)\s*?\/>` (any letter case) on one tag: the tag opens with the name and
      ends with `/>`. */
  predicate SlashMatch(name: string, t: string) {
    |t| >= |name| + 3 && t[0] == '<' && OptimizeHtml.StartsWithCI(t[1..], name) && t[|t| - 2..] == "/>"
  }

  /** The callback: the name as listed, the attributes with the whitespace before `/>` taken
      off (the lazy `[^>]*?` leaves it to `\s*?`), and `>`. */
  function SlashFree(name: string, t: string): (r: string)
    ensures SlashMatch(name, t) ==> |name| + 2 <= |r| < |t| && r[..|name| + 1] == "<" + name
  {
    if SlashMatch(name, t) then "<" + name + TrimEnd(t[|name| + 1..|t| - 2]) + ">" else t
  }

  /** The loop over the names, each pass a global replace. */
  function DropSlashes(names: seq<string>, t: string): string {
    if names == [] then t else DropSlashes(names[1..], SlashFree(names[0], t))
  }

  function VoidSlashes(t: string): string {
    DropSlashes(VoidElements, t)
  }

  lemma VoidElementsAscending()
    ensures HeadsAscending(VoidElements)
  {
    VoidElementsLower();
    forall i | 0 <= i < |VoidElements| - 1
      ensures Head(VoidElements[i]) < Head(VoidElements[i + 1])
    {
    }
  }

  lemma VoidElementsLower()
    ensures forall i :: 0 <= i < |VoidElements| ==> LowerWord(VoidElements[i])
  {
    forall i | 0 <= i < |VoidElements|
      ensures LowerWord(VoidElements[i])
    {
    }
  }

  lemma {:induction false} AscendingApart(names: seq<string>, i: nat, j: nat)
    requires HeadsAscending(names) && i < j < |names|
    ensures Head(names[i]) < Head(names[j])
    decreases j - i
  {
    if j > i + 1 {
      AscendingApart(names, i + 1, j);
    }
  }

  /** A tag the pattern for `n` accepts shows the first two letters of `n` after its `<`. */
  lemma HeadOfMatch(n: string, t: string)
    requires LowerWord(n) && SlashMatch(n, t)
    ensures LowerChar(t[1]) == n[0] && LowerChar(t[2]) == n[1]
  {
    assert t[1..][0] == t[1] && t[1..][1] == t[2];
  }

  /** Names with different first letters never accept the same tag, nor the tag the other
      one's callback returns. */
  lemma Apart(a: string, b: string, t: string)
    requires LowerWord(a) && LowerWord(b) && Head(a) != Head(b) && SlashMatch(a, t)
    ensures !SlashMatch(b, t) && !SlashMatch(b, SlashFree(a, t))
  {
    HeadOfMatch(a, t);
    var r := SlashFree(a, t);
    assert r[1] == a[0] && r[2] == a[1];
    assert LowerChar(r[1]) == a[0] && LowerChar(r[2]) == a[1];
    if SlashMatch(b, t) {
      HeadOfMatch(b, t);
    }
    if SlashMatch(b, r) {
      HeadOfMatch(b, r);
    }
  }

  lemma {:induction false} DropSlashesNone(names: seq<string>, t: string)
    requires forall i :: 0 <= i < |names| ==> !SlashMatch(names[i], t)
    ensures DropSlashes(names, t) == t
    decreases |names|
  {
    if names != [] {
      DropSlashesNone(names[1..], t);
    }
  }

  /** With ascending heads at most one pass changes a tag: the one whose name it opens with. */
  lemma {:induction false} DropSlashesOne(names: seq<string>, t: string, i: nat)
    requires HeadsAscending(names) && i < |names| && SlashMatch(names[i], t)
    ensures DropSlashes(names, t) == SlashFree(names[i], t)
    decreases |names|
  {
    if i == 0 {
      DropSlashesFirst(names, t);
    } else {
      DropSlashesSkip(names, t, i);
      AscendingRest(names);
      DropSlashesOne(names[1..], t, i - 1);
    }
  }

  lemma AscendingRest(names: seq<string>)
    requires HeadsAscending(names) && names != []
    ensures HeadsAscending(names[1..])
  {
    var rest := names[1..];
    forall j | 0 <= j < |rest| - 1
      ensures Head(rest[j]) < Head(rest[j + 1])
    {
      assert rest[j] == names[j + 1] && rest[j + 1] == names[j + 2];
    }
  }

  /** The first name's pass changes the tag and no later pass touches the result. */
  lemma DropSlashesFirst(names: seq<string>, t: string)
    requires HeadsAscending(names) && names != [] && SlashMatch(names[0], t)
    ensures DropSlashes(names, t) == SlashFree(names[0], t)
  {
    var rest := names[1..];
    var r := SlashFree(names[0], t);
    forall j | 0 <= j < |rest|
      ensures !SlashMatch(rest[j], r)
    {
      AscendingApart(names, 0, j + 1);
      Apart(names[0], names[j + 1], t);
    }
    DropSlashesNone(rest, r);
  }

  /** A tag a later name accepts goes through the first name's pass unchanged. */
  lemma DropSlashesSkip(names: seq<string>, t: string, i: nat)
    requires HeadsAscending(names) && 0 < i < |names| && SlashMatch(names[i], t)
    ensures DropSlashes(names, t) == DropSlashes(names[1..], t)
  {
    AscendingApart(names, 0, i);
    Apart(names[i], names[0], t);
  }

  /** A void-element tag ending in `/>` loses the slash and the whitespace before it, and
      its name is written in lower case; ... */
  lemma VoidSlashDropped(t: string, i: nat)
    requires i < |VoidElements| && SlashMatch(VoidElements[i], t)
    ensures VoidSlashes(t) == "<" + VoidElements[i] + TrimEnd(t[|VoidElements[i]| + 1..|t| - 2]) + ">"
    ensures |VoidSlashes(t)| < |t|
  {
    VoidElementsAscending();
    DropSlashesOne(VoidElements, t, i);
  }

  /** ... every other tag is left as it is. */
  lemma VoidSlashKept(t: string)
    requires forall i :: 0 <= i < |VoidElements| ==> !SlashMatch(VoidElements[i], t)
    ensures VoidSlashes(t) == t
  {
    DropSlashesNone(VoidElements, t);
  }

  // ---------------------------------------------------------------- every step keeps the tags

  /** `s.replace(p, q)` inside bracket-free text leaves bracket-free text. */
  lemma ReplaceFirstNoBrackets(s: string, p: string, q: string)
    requires NoBrackets(s) && NoBrackets(q)
    ensures NoBrackets(ReplaceFirst(s, p, q))
  {
    var k := IndexOf(s, p);
    if k >= 0 {
      var r := s[..k] + q + s[k + |p|..];
      forall i | 0 <= i < |r|
        ensures r[i] != '<' && r[i] != '>'
      {
        if i < k {
          assert r[i] == s[i];
        } else if i >= k + |q| {
          assert r[i] == s[i - |q| + |p|];
        }
      }
    }
  }

  /** Replacing a bracket-free text inside a tag by another leaves a tag: the occurrence can
      reach neither the opening `<` nor the closing `>`. */
  lemma ReplaceFirstKeepsTag(t: string, p: string, q: string)
    requires IsTag(t) && p != [] && NoBrackets(p) && NoBrackets(q)
    ensures IsTag(ReplaceFirst(t, p, q))
  {
    var k := ReplaceFirstAt(t, p, q);
    if k >= 0 {
      ReplaceAtKeepsTag(t, p, q, k);
    }
  }

  lemma ReplaceAtKeepsTag(t: string, p: string, q: string, k: nat)
    requires IsTag(t) && p != [] && NoBrackets(p) && NoBrackets(q) && k <= |t| && StartsWith(t[k..], p)
    ensures k + |p| <= |t| && IsTag(t[..k] + q + t[k + |p|..])
  {
    OccurrenceInside(t, p, k);
    SpliceKeepsTag(t, k, |p|, q);
  }

  /** A bracket-free text found in a tag lies strictly between its brackets. */
  lemma OccurrenceInside(t: string, p: string, k: nat)
    requires IsTag(t) && p != [] && NoBrackets(p) && k <= |t| && StartsWith(t[k..], p)
    ensures 1 <= k && k + |p| <= |t| - 1
  {
    assert t[k] == t[k..][..|p|][0] == p[0];
    var e := k + |p| - 1;
    assert t[e] == t[k..][..|p|][|p| - 1] == p[|p| - 1];
  }

  lemma StyleHrefNoBrackets(path: string)
    requires NoBrackets(path)
    ensures NoBrackets(StyleHref(path))
  {
    if path != "normalize.css" && StartsWith(path, "styles/") {
      ReplaceFirstNoBrackets(path, "styles/", "assets/styles/");
      ReplaceFirstNoBrackets(ReplaceFirst(path, "styles/", "assets/styles/"), ".css", ".min.css");
    }
  }

  /** A value read inside a tag holds no bracket. */
  lemma ValueNoBrackets(t: string, j: nat)
    requires IsTag(t) && HrefValueAt(t, j).Some?
    ensures NoBrackets(HrefValueAt(t, j).value)
  {
    var v := HrefValueAt(t, j).value;
    forall k | 0 <= k < |v|
      ensures v[k] != '<' && v[k] != '>'
    {
      assert v[k] == t[j + 6 + k] == t[1..|t| - 1][j + 5 + k];
    }
  }

  /** The captured stylesheet path is a non-empty value read inside the tag. */
  lemma StylesheetPathInside(t: string)
    requires IsTag(t) && StylesheetPath(t).Some?
    ensures StylesheetPath(t).value != "" && NoBrackets(StylesheetPath(t).value)
  {
    var i := FirstRel(t, 5).value;
    var j :| i + 16 <= j < |t| && HrefValueAt(t, j) == LastHref(t, i + 16, |t|) && StylesheetPath(t).value != "";
    ValueNoBrackets(t, j);
  }

  lemma StyleLinkKeepsTag(t: string)
    requires IsTag(t)
    ensures IsTag(StyleLink(t))
  {
    var path := StylesheetPath(t);
    if path.Some? {
      StyleRewriteKeepsTag(t, path.value);
    }
  }

  lemma StyleRewriteKeepsTag(t: string, path: string)
    requires IsTag(t) && StylesheetPath(t) == Some(path)
    ensures IsTag(ReplaceFirst(t, path, StyleHref(path)))
  {
    StylesheetPathInside(t);
    StyleHrefNoBrackets(path);
    ReplaceFirstKeepsTag(t, path, StyleHref(path));
  }

  /** Swapping one `href` of a tag for a bracket-free attribute leaves a tag. */
  lemma SwapKeepsTag(t: string, i: nat, v: string, spaced: bool, rep: string)
    requires IsTag(t) && Hit(t, i, v, spaced) && NoBrackets(rep)
    ensures IsTag(SwapHref(t, i, v, rep))
  {
    HitInside(t, i, v, spaced);
    assert t[i] == t[i..i + 5][0];
    SpliceKeepsTag(t, i, 7 + |v|, rep);
  }

  lemma ToVoidKeepsTag(t: string)
    requires IsTag(t)
    ensures IsTag(ToVoid(t))
  {
    var h := FirstHit(t, 0, "#", true);
    if AnchorWith(t, Hash) && h.Some? {
      VoidCallFacts();
      SwapKeepsTag(t, h.value, "#", true, VoidHref);
    }
  }

  lemma ToVoidAsWrittenKeepsTag(t: string)
    requires IsTag(t)
    ensures IsTag(ToVoidAsWritten(t))
  {
    var h := FirstHit(t, 0, "#", false);
    if AnchorWith(t, Hash) && h.Some? {
      VoidCallFacts();
      SwapKeepsTag(t, h.value, "#", false, VoidHref);
    }
  }

  lemma FromVoidAsWrittenKeepsTag(t: string)
    requires IsTag(t)
    ensures IsTag(FromVoidAsWritten(t))
  {
    var h := FirstHit(t, 0, VoidCallText, false);
    if AnchorWith(t, VoidCall) && h.Some? {
      HashHrefNoBrackets();
      SwapKeepsTag(t, h.value, VoidCallText, false, HashHref);
    }
  }

  lemma HashHrefNoBrackets()
    ensures NoBrackets(HashHref)
  {
  }

  lemma FromVoidKeepsTag(t: string)
    requires IsTag(t)
    ensures IsTag(FromVoid(t))
  {
    var h := FirstHit(t, 0, VoidCallText, true);
    if AnchorWith(t, VoidCall) && h.Some? {
      HashHrefNoBrackets();
      SwapKeepsTag(t, h.value, VoidCallText, true, HashHref);
    }
  }

  lemma SlashFreeKeepsTag(n: string, t: string)
    requires LowerWord(n) && IsTag(t)
    ensures IsTag(SlashFree(n, t))
  {
    if SlashMatch(n, t) {
      var w := t[|n| + 1..|t| - 2];
      var m := TrimEnd(w);
      var r := "<" + n + m + ">";
      var inner := r[1..|r| - 1];
      assert inner == n + m;
      assert m == w[..|m|];
      forall i | 0 <= i < |inner|
        ensures inner[i] != '<' && inner[i] != '>'
      {
        if i < |n| {
          assert inner[i] == n[i];
        } else {
          assert inner[i] == m[i - |n|] == w[i - |n|];
          assert w[i - |n|] == t[i + 1] == t[1..|t| - 1][i];
        }
      }
    }
  }

  lemma {:induction false} DropSlashesKeepsTag(names: seq<string>, t: string)
    requires (forall i :: 0 <= i < |names| ==> LowerWord(names[i])) && IsTag(t)
    ensures IsTag(DropSlashes(names, t))
    decreases |names|
  {
    if names != [] {
      SlashFreeKeepsTag(names[0], t);
      DropSlashesKeepsTag(names[1..], SlashFree(names[0], t));
    }
  }

  /** A global replacement whose pattern and replacement hold no bracket keeps a tag a
      tag ... */
  lemma ReplaceAllKeepsTag(s: string, p: string, rep: string)
    requires p != [] && NoBrackets(p) && NoBrackets(rep) && IsTag(s)
    ensures IsTag(ReplaceAll(s, p, rep))
  {
    var mid := s[1..|s| - 1];
    ReplaceAllFrame(s, p, rep);
    var r := ReplaceAll(mid, p, rep);
    forall i | 0 <= i < |r|
      ensures r[i] != '<' && r[i] != '>'
    {
      ReplaceAllChars(mid, p, rep, r[i]);
    }
    assert ([s[0]] + r + ['>'])[1..|r| + 1] == r;
  }

  /** The replacement leaves the brackets of a tag where they are. */
  lemma ReplaceAllFrame(s: string, p: string, rep: string)
    requires p != [] && NoBrackets(p) && IsTag(s)
    ensures ReplaceAll(s, p, rep) == [s[0]] + ReplaceAll(s[1..|s| - 1], p, rep) + ['>']
  {
    var mid := s[1..|s| - 1];
    assert p[0] != '<';
    if |p| <= |s| {
      assert s[..|p|][0] == s[0];
    }
    assert !StartsWith(s, p);
    assert ReplaceAll(s, p, rep) == [s[0]] + ReplaceAll(s[1..], p, rep);
    assert s[1..] == mid + ['>'];
    ReplaceAllSnoc(mid, '>', p, rep);
  }

  /** ... and a text run free of `<`. */
  lemma ReplaceAllKeepsText(s: string, p: string, rep: string)
    requires p != [] && '<' !in s && '<' !in rep
    ensures '<' !in ReplaceAll(s, p, rep)
  {
    if '<' in ReplaceAll(s, p, rep) {
      ReplaceAllChars(s, p, rep, '<');
    }
  }

  // ---------------------------------------------------------------- the whole tail

  const EmptyValue: string := "=\"\""

  /** `.replace(/=""/g, '').replace(/&amp;/g, '&')`: empty attribute values and the escaped
      ampersand go. */
  function Cleanup(s: string): string {
    ReplaceAll(ReplaceAll(s, EmptyValue, ""), "&amp;", "&")
  }

  /** The rewrites after formatting, in the order the optimiser applies them: stylesheet
      links, `href="#"` set aside by `toVoid`, external targets, void-element slashes, the
      clean-up of empty values and `&amp;`, and `href="#"` given back by `fromVoid`. */
  function OptimizeTagsWith(page: seq<Piece>, toVoid: string -> string, fromVoid: string -> string): seq<Piece> {
    var links := MapTags(page, StyleLink);
    var voided := MapTags(links, toVoid);
    var targeted := MapTags(voided, AddTarget);
    var unslashed := MapTags(targeted, VoidSlashes);
    var cleaned := MapPieces(unslashed, Cleanup);
    MapTags(cleaned, fromVoid)
  }

  /** The tail as written, with the `href` steps that also match inside a longer attribute
      name. */
  function OptimizeTags(page: seq<Piece>): seq<Piece> {
    OptimizeTagsWith(page, ToVoidAsWritten, FromVoidAsWritten)
  }

  /** The tail as intended, with the `href` steps that only touch an attribute of its own. */
  function OptimizeTagsIntended(page: seq<Piece>): seq<Piece> {
    OptimizeTagsWith(page, ToVoid, FromVoid)
  }

  lemma MapTagsWellFormed(page: seq<Piece>, f: string -> string)
    requires WellFormed(page) && forall t :: IsTag(t) ==> IsTag(f(t))
    ensures WellFormed(MapTags(page, f))
  {
  }

  lemma MapPiecesWellFormed(page: seq<Piece>, f: string -> string)
    requires WellFormed(page)
    requires forall t :: IsTag(t) ==> IsTag(f(t))
    requires forall s :: '<' !in s ==> '<' !in f(s)
    ensures WellFormed(MapPieces(page, f))
  {
  }

  lemma CleanupKeepsShape(s: string)
    ensures IsTag(s) ==> IsTag(Cleanup(s))
    ensures '<' !in s ==> '<' !in Cleanup(s)
  {
    var once := ReplaceAll(s, EmptyValue, "");
    assert NoBrackets(EmptyValue) && NoBrackets("") && NoBrackets("&amp;") && NoBrackets("&");
    if IsTag(s) {
      ReplaceAllKeepsTag(s, EmptyValue, "");
      ReplaceAllKeepsTag(once, "&amp;", "&");
    }
    if '<' !in s {
      ReplaceAllKeepsText(s, EmptyValue, "");
      ReplaceAllKeepsText(once, "&amp;", "&");
    }
  }

  /** The page keeps its shape: the same number of pieces, tags where there were tags, and
      text runs changed by the clean-up alone. */
  predicate SameShape(page: seq<Piece>, r: seq<Piece>) {
    WellFormed(r) && |r| == |page| &&
    forall i :: 0 <= i < |page| ==>
      match page[i]
      case Text(s) => r[i] == Text(Cleanup(s))
      case Tag(_) => r[i].Tag?
  }

  /** Every step acts on whole tags and keeps them tags, so the page stays a page, whichever
      `href` steps are used as long as they keep tags too. */
  lemma TailKeepsShape(page: seq<Piece>, toVoid: string -> string, fromVoid: string -> string)
    requires WellFormed(page)
    requires forall t :: IsTag(t) ==> IsTag(toVoid(t)) && IsTag(fromVoid(t))
    ensures SameShape(page, OptimizeTagsWith(page, toVoid, fromVoid))
  {
    forall t | IsTag(t)
      ensures IsTag(StyleLink(t)) && IsTag(AddTarget(t)) && IsTag(VoidSlashes(t))
    {
      StyleLinkKeepsTag(t);
      AddTargetCases(t);
      VoidElementsLower();
      DropSlashesKeepsTag(VoidElements, t);
    }
    forall s
      ensures (IsTag(s) ==> IsTag(Cleanup(s))) && ('<' !in s ==> '<' !in Cleanup(s))
    {
      CleanupKeepsShape(s);
    }
    var links := MapTags(page, StyleLink);
    MapTagsWellFormed(page, StyleLink);
    var voided := MapTags(links, toVoid);
    MapTagsWellFormed(links, toVoid);
    var targeted := MapTags(voided, AddTarget);
    MapTagsWellFormed(voided, AddTarget);
    var unslashed := MapTags(targeted, VoidSlashes);
    MapTagsWellFormed(targeted, VoidSlashes);
    var cleaned := MapPieces(unslashed, Cleanup);
    MapPiecesWellFormed(unslashed, Cleanup);
    MapTagsWellFormed(cleaned, fromVoid);
  }

  /** The tail as written keeps the page's shape. */
  lemma OptimizeTagsKeepsShape(page: seq<Piece>)
    requires WellFormed(page)
    ensures SameShape(page, OptimizeTags(page))
  {
    forall t | IsTag(t)
      ensures IsTag(ToVoidAsWritten(t)) && IsTag(FromVoidAsWritten(t))
    {
      ToVoidAsWrittenKeepsTag(t);
      FromVoidAsWrittenKeepsTag(t);
    }
    TailKeepsShape(page, ToVoidAsWritten, FromVoidAsWritten);
  }

  /** And so does the tail as intended. */
  lemma OptimizeTagsIntendedKeepsShape(page: seq<Piece>)
    requires WellFormed(page)
    ensures SameShape(page, OptimizeTagsIntended(page))
  {
    forall t | IsTag(t)
      ensures IsTag(ToVoid(t)) && IsTag(FromVoid(t))
    {
      ToVoidKeepsTag(t);
      FromVoidKeepsTag(t);
    }
    TailKeepsShape(page, ToVoid, FromVoid);
  }
}
