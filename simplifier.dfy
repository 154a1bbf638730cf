/**
 * The semantic simplifier: the navigation extracted from the first `<header>`/`<nav>` of
 * a page, the body that holds only that navigation, and the mimetype gate in front of it.
 *
 * The DOM is abstracted away: a page is its title and, for each `<header>` or `<nav>`
 * element in document order, the anchors below it in document order, each reduced to
 * the attributes the extraction reads (`Anchor`). Parsing, serialisation and the
 * byte/text conversions of a resource are opaque functions (`HtmlCodec`).
 */
module Simplifier {
  import opened Wrappers
  import opened JsText
  import Resources

  /** Keywords that exclude an anchor when its lowercased href contains one of them. */
  const DenyHeaderKeywords: seq<string> := ["signin", "sign-in", "login", "log-in", "signout",
    "sign-out", "logout", "log-out", "account", "continue", "search", "join", "signup",
    "sign-up", "register", "session"]

  /** The media type the gate lets through: `"text/html".split(";")[0]`. */
  const HtmlMediaType: string := "text/html"

  /** The namespace attribute inserted into inline SVG that lacks one. */
  const SvgNamespaceAttribute: string := "xmlns=\"http://www.w3.org/2000/svg\""

  /** The first `<img>` below an anchor, as its resolved `src` and its `alt`. */
  datatype ImgElement = ImgElement(src: string, alt: string)

  /** One anchor of the scanned region: its resolved `href`, its `textContent`, its inline
      `style.width`, `style.background` and `style.backgroundImage`, its first descendant
      `<img>` and the `outerHTML` of its first descendant `<svg>`. */
  datatype Anchor = Anchor(
    href: string,
    text: string,
    styleWidth: string,
    background: string,
    backgroundImage: string,
    firstImg: Option<ImgElement>,
    firstSvg: Option<string>)

  /** A page: its `document.title` and the anchors of each `header, nav` match. */
  datatype Document = Document(title: string, regions: seq<seq<Anchor>>)

  /** Where a link image comes from: an address, or inline SVG markup that becomes
      `"data:image/svg+xml," + encodeURIComponent(markup)` (the encoding stays symbolic). */
  datatype ImageSource = Address(url: string) | SvgDataUri(markup: string)

  datatype LinkImage = LinkImage(src: ImageSource, alt: string)

  /** A new link holds either its normalised text or, for the logo, only an image. */
  datatype LinkContent = Label(text: string) | Logo(image: LinkImage)

  datatype Link = Link(href: string, content: LinkContent)

  /** The only child of the new body. */
  datatype BodyElement = NavElement(links: seq<Link>)

  /** Reading group 1 of a `url(...)` match that came back `null` throws a TypeError. */
  datatype NavError = StyleUrlUnmatched(declaration: string)

  /** The code as written, or with its two slips corrected: the duplicate test normalises
      the candidate's text with `s+(?=\s)` (`AsWritten`) or, like link text, with
      `\s+(?=\s)` (`Intended`); the mimetype gate compares the whole mimetype
      (`AsWritten`) or its media type before any `;` (`Intended`) with `text/html`. */
  datatype Revision = AsWritten | Intended

  /** The scan's state: the children of the new `<nav>` and the one-shot logo flag. */
  datatype NavState = NavState(links: seq<Link>, logoAvailable: bool)

  /** Parsing and serialisation, outside the model: `Buffer.toString()`, the jsdom parse of
      a page (with its URL as base) and the DOM queries, `body.innerHTML`, `Buffer.from`. */
  datatype HtmlCodec = HtmlCodec(
    decode: seq<Resources.byte> -> string,
    parse: (string, string) -> Document,
    serialize: seq<BodyElement> -> string,
    encode: string -> seq<Resources.byte>)

  // ---------------------------------------------------------------------------
  // Text normalisation

  /** The characters of `s` that are not white space, in order. */
  function NonSpace(s: string): string {
    if s == [] then [] else (if IsJsSpace(s[0]) then [] else [s[0]]) + NonSpace(s[1..])
  }

  /** The characters of `s` other than the letter `s`, in order. */
  function WithoutLetterS(s: string): string {
    if s == [] then [] else (if s[0] == 's' then [] else [s[0]]) + WithoutLetterS(s[1..])
  }

  /** No two white-space characters in a row. */
  predicate RunFree(r: string) {
    forall i :: 0 <= i < |r| - 1 ==> !(IsJsSpace(r[i]) && IsJsSpace(r[i + 1]))
  }

  /** `s.replace(/\s+(?=\s)/g, "")`: a white-space character followed by another one is
      deleted, so every run of white space shrinks to its last character. */
  function CollapseSpaceRuns(s: string): (r: string)
    ensures |r| <= |s|
    ensures s != [] ==> r != [] && (IsJsSpace(r[0]) <==> IsJsSpace(s[0]))
    ensures s != [] ==> r[|r| - 1] == s[|s| - 1]
    ensures RunFree(r)
    ensures NonSpace(r) == NonSpace(s)
    decreases |s|
  {
    if |s| <= 1 then s
    else if IsJsSpace(s[0]) && IsJsSpace(s[1]) then
      NonSpaceCons(s[0], s[1..]);
      CollapseSpaceRuns(s[1..])
    else
      var rest := CollapseSpaceRuns(s[1..]);
      NonSpaceCons(s[0], s[1..]);
      NonSpaceCons(s[0], rest);
      RunFreeCons(s[0], rest);
      [s[0]] + rest
  }

  lemma NonSpaceCons(c: char, t: string)
    ensures NonSpace([c] + t) == (if IsJsSpace(c) then [] else [c]) + NonSpace(t)
  {
    assert ([c] + t)[1..] == t;
  }

  lemma RunFreeCons(c: char, rest: string)
    requires RunFree(rest) && (rest == [] || !(IsJsSpace(c) && IsJsSpace(rest[0])))
    ensures RunFree([c] + rest)
  {
    var r := [c] + rest;
    forall i | 0 <= i < |r| - 1 ensures !(IsJsSpace(r[i]) && IsJsSpace(r[i + 1])) {
      if i > 0 {
        assert r[i] == rest[i - 1] && r[i + 1] == rest[i];
      }
    }
  }

  /** Whether `s` starts with a run of letters `s` that is followed by white space: the
      characters `/s+(?=\s)/` matches, seen from the first of them. */
  predicate SRunMeetsSpace(s: string)
    decreases |s|
  {
    |s| >= 2 && s[0] == 's' && (IsJsSpace(s[1]) || SRunMeetsSpace(s[1..]))
  }

  /** No letter `s` right before white space. */
  predicate SBeforeSpaceFree(r: string) {
    forall i :: 0 <= i < |r| - 1 ==> !(r[i] == 's' && IsJsSpace(r[i + 1]))
  }

  /** `s.replace(/s+(?=\s)/g, "")`: every run of the letter `s` that ends right before
      white space is deleted; nothing else changes. */
  function DropSRunsBeforeSpace(s: string): (r: string)
    ensures |r| <= |s|
    ensures s != [] ==> r != [] && (IsJsSpace(r[0]) <==> (IsJsSpace(s[0]) || SRunMeetsSpace(s)))
    ensures SBeforeSpaceFree(r)
    ensures WithoutLetterS(r) == WithoutLetterS(s)
    decreases |s|
  {
    if s == [] then []
    else if SRunMeetsSpace(s) then DropSRunsBeforeSpace(s[1..])
    else
      var rest := DropSRunsBeforeSpace(s[1..]);
      assert ([s[0]] + rest)[1..] == rest;
      [s[0]] + rest
  }

  /** The text of an accepted link: `textContent.trim().replace(/\s+(?=\s)/g, "")`. It
      neither starts nor ends with white space, has no two white-space characters in a
      row, and keeps every other character of the raw text in order. */
  function LinkText(raw: string): (r: string)
    ensures r == [] || (!IsJsSpace(r[0]) && !IsJsSpace(r[|r| - 1]))
    ensures RunFree(r)
    ensures NonSpace(r) == NonSpace(raw)
  {
    TrimKeepsNonSpace(raw);
    CollapseSpaceRuns(Trim(raw))
  }

  lemma {:induction false} NonSpaceAppend(a: string, b: string)
    ensures NonSpace(a + b) == NonSpace(a) + NonSpace(b)
  {
    if a != [] {
      assert (a + b)[1..] == a[1..] + b;
      NonSpaceAppend(a[1..], b);
    } else {
      assert a + b == b;
    }
  }

  lemma {:induction false} NonSpaceOfSpaces(s: string)
    requires forall k :: 0 <= k < |s| ==> IsJsSpace(s[k])
    ensures NonSpace(s) == []
  {
    if s != [] {
      NonSpaceOfSpaces(s[1..]);
    }
  }

  /** Trimming removes only white space. */
  lemma TrimKeepsNonSpace(s: string)
    ensures NonSpace(Trim(s)) == NonSpace(s)
  {
    var l := LeadingSpace(s);
    var t := Trim(s);
    ThreeParts(s, l, |t|);
    NonSpaceAppend(s[..l] + t, s[l + |t|..]);
    NonSpaceAppend(s[..l], t);
    NonSpaceOfSpaces(s[..l]);
    NonSpaceOfSpaces(s[l + |t|..]);
  }

  /** Without runs of white space there is nothing to collapse. */
  lemma {:induction false} CollapseWithoutRuns(s: string)
    requires RunFree(s)
    ensures CollapseSpaceRuns(s) == s
    decreases |s|
  {
    if |s| > 1 {
      CollapseWithoutRuns(s[1..]);
      assert s == [s[0]] + s[1..];
    }
  }

  /** Collapsing works part by part across a non-space character: what is deleted
      before it depends only on the text before it. */
  lemma {:induction false} CollapseSplit(u: string, x: string)
    requires u == [] || !IsJsSpace(u[|u| - 1])
    ensures CollapseSpaceRuns(u + x) == CollapseSpaceRuns(u) + CollapseSpaceRuns(x)
    decreases |u|
  {
    Uncons(u, x);
    if |u| == 1 {
      CollapseSplitLast(u[0], x);
    } else if |u| > 1 {
      CollapseSplit(u[1..], x);
      CollapseSplitStep(u[0], u[1..], x);
    }
  }

  lemma CollapseSplitLast(c: char, x: string)
    requires !IsJsSpace(c)
    ensures CollapseSpaceRuns([c] + x) == CollapseSpaceRuns([c]) + CollapseSpaceRuns(x)
  {
    CollapseCons(c, x);
    assert CollapseSpaceRuns([c]) == [c];
  }

  lemma CollapseSplitStep(c: char, t: string, x: string)
    requires t != []
    requires CollapseSpaceRuns(t + x) == CollapseSpaceRuns(t) + CollapseSpaceRuns(x)
    ensures CollapseSpaceRuns([c] + t + x) == CollapseSpaceRuns([c] + t) + CollapseSpaceRuns(x)
  {
    Associate([c], t, x);
    HeadOfAppend(t, x);
    CollapseCons(c, t + x);
    CollapseCons(c, t);
    Associate([c], CollapseSpaceRuns(t), CollapseSpaceRuns(x));
  }

  lemma Uncons<T>(u: seq<T>, x: seq<T>)
    ensures u == [] ==> u + x == x
    ensures u != [] ==> u == [u[0]] + u[1..]
    ensures |u| == 1 ==> u == [u[0]]
  {
  }

  lemma ThreeParts<T>(s: seq<T>, l: nat, n: nat)
    requires l + n <= |s|
    ensures s == s[..l] + s[l..l + n] + s[l + n..]
  {
  }

  lemma Associate<T>(a: seq<T>, b: seq<T>, c: seq<T>)
    ensures a + b + c == a + (b + c)
  {
  }

  lemma HeadOfAppend<T>(t: seq<T>, x: seq<T>)
    ensures t != [] ==> (t + x)[0] == t[0]
  {
  }

  /** One step of collapsing: a leading white-space character is deleted when white
      space follows it. */
  lemma CollapseCons(c: char, t: string)
    ensures CollapseSpaceRuns([c] + t)
         == if t != [] && IsJsSpace(c) && IsJsSpace(t[0]) then CollapseSpaceRuns(t) else [c] + CollapseSpaceRuns(t)
  {
    var s := [c] + t;
    assert s[0] == c && s[1..] == t;
    if t == [] {
      assert s == [c];
    } else {
      assert s[1] == t[0];
    }
  }

  /** A run of white space at the start shrinks to its last character. */
  lemma {:induction false} CollapseRunHead(w: string, v: string)
    requires w != [] && forall k :: 0 <= k < |w| ==> IsJsSpace(w[k])
    requires v == [] || !IsJsSpace(v[0])
    ensures CollapseSpaceRuns(w + v) == [w[|w| - 1]] + CollapseSpaceRuns(v)
    decreases |w|
  {
    Uncons(w, v);
    if |w| == 1 {
      CollapseCons(w[0], v);
    } else {
      Associate([w[0]], w[1..], v);
      HeadOfAppend(w[1..], v);
      CollapseCons(w[0], w[1..] + v);
      CollapseRunHead(w[1..], v);
    }
  }

  /** Every maximal run of white space survives as its last character, and the text on
      either side of it is collapsed on its own. */
  lemma CollapseRun(u: string, w: string, v: string)
    requires u == [] || !IsJsSpace(u[|u| - 1])
    requires w != [] && forall k :: 0 <= k < |w| ==> IsJsSpace(w[k])
    requires v == [] || !IsJsSpace(v[0])
    ensures CollapseSpaceRuns(u + w + v) == CollapseSpaceRuns(u) + [w[|w| - 1]] + CollapseSpaceRuns(v)
  {
    Associate(u, w, v);
    CollapseSplit(u, w + v);
    CollapseRunHead(w, v);
    Associate(CollapseSpaceRuns(u), [w[|w| - 1]], CollapseSpaceRuns(v));
  }

  /** Dropping works part by part after a character other than `s`: whether a run of `s`
      before it meets white space is decided before it. */
  lemma {:induction false} DropSplit(u: string, x: string)
    requires u == [] || u[|u| - 1] != 's'
    ensures DropSRunsBeforeSpace(u + x) == DropSRunsBeforeSpace(u) + DropSRunsBeforeSpace(x)
    decreases |u|
  {
    Uncons(u, x);
    if u != [] {
      DropSplit(u[1..], x);
      SRunLocal(u, x);
      DropSplitStep(u[0], u[1..], x);
    }
  }

  lemma DropSplitStep(c: char, t: string, x: string)
    requires DropSRunsBeforeSpace(t + x) == DropSRunsBeforeSpace(t) + DropSRunsBeforeSpace(x)
    requires SRunMeetsSpace([c] + t + x) == SRunMeetsSpace([c] + t)
    ensures DropSRunsBeforeSpace([c] + t + x) == DropSRunsBeforeSpace([c] + t) + DropSRunsBeforeSpace(x)
  {
    Associate([c], t, x);
    DropCons(c, t + x);
    DropCons(c, t);
    Associate([c], DropSRunsBeforeSpace(t), DropSRunsBeforeSpace(x));
  }

  /** Whether a run of `s` at the start meets white space is decided before the first
      character other than `s`. */
  lemma {:induction false} SRunLocal(u: string, x: string)
    requires u != [] && u[|u| - 1] != 's'
    ensures SRunMeetsSpace(u + x) == SRunMeetsSpace(u)
    decreases |u|
  {
    Uncons(u, x);
    Associate([u[0]], u[1..], x);
    SRunCons(u[0], u[1..] + x);
    SRunCons(u[0], u[1..]);
    if u[0] == 's' {
      HeadOfAppend(u[1..], x);
      SRunLocal(u[1..], x);
    }
  }

  /** A run of `s` at the start meets white space exactly when what follows it starts with
      white space. */
  lemma {:induction false} SRunOfRun(ss: string, v: string)
    requires ss != [] && forall k :: 0 <= k < |ss| ==> ss[k] == 's'
    requires v == [] || v[0] != 's'
    ensures SRunMeetsSpace(ss + v) <==> v != [] && IsJsSpace(v[0])
    decreases |ss|
  {
    Uncons(ss, v);
    Associate([ss[0]], ss[1..], v);
    SRunCons(ss[0], ss[1..] + v);
    Uncons(ss[1..], v);
    if |ss| == 1 {
      if v != [] {
        SRunCons(v[0], v[1..]);
        Uncons(v, []);
      }
    } else {
      HeadOfAppend(ss[1..], v);
      SRunOfRun(ss[1..], v);
    }
  }

  /** A run of the letter `s` is deleted when white space follows it, and kept whole when
      anything else, or nothing, follows it. */
  lemma {:induction false} DropSRun(ss: string, v: string)
    requires ss != [] && forall k :: 0 <= k < |ss| ==> ss[k] == 's'
    requires v == [] || v[0] != 's'
    ensures v != [] && IsJsSpace(v[0]) ==> DropSRunsBeforeSpace(ss + v) == DropSRunsBeforeSpace(v)
    ensures !(v != [] && IsJsSpace(v[0])) ==> DropSRunsBeforeSpace(ss + v) == ss + DropSRunsBeforeSpace(v)
    decreases |ss|
  {
    SRunOfRun(ss, v);
    Uncons(ss, v);
    Associate([ss[0]], ss[1..], v);
    DropCons(ss[0], ss[1..] + v);
    Uncons(ss[1..], v);
    if |ss| > 1 {
      DropSRun(ss[1..], v);
      Associate([ss[0]], ss[1..], DropSRunsBeforeSpace(v));
    }
  }

  /** One step of dropping: the first character goes when it starts a run of `s` that
      meets white space. */
  lemma DropCons(c: char, t: string)
    ensures DropSRunsBeforeSpace([c] + t)
         == if SRunMeetsSpace([c] + t) then DropSRunsBeforeSpace(t) else [c] + DropSRunsBeforeSpace(t)
  {
    Uncons([c] + t, []);
  }

  /** One step of the run test: a run of `s` meets white space when the next character is
      white space or starts such a run itself. */
  lemma SRunCons(c: char, t: string)
    ensures SRunMeetsSpace([c] + t) <==> c == 's' && t != [] && (IsJsSpace(t[0]) || SRunMeetsSpace(t))
  {
    Uncons([c] + t, []);
  }

  /** Text with no `s` right before white space is left alone by the literal-`s` pattern. */
  lemma {:induction false} DropWithoutSBeforeSpace(s: string)
    requires SBeforeSpaceFree(s)
    ensures DropSRunsBeforeSpace(s) == s
    decreases |s|
  {
    if s != [] {
      SBeforeSpaceFreeTail(s);
      NoSRunWithoutSBeforeSpace(s);
      DropWithoutSBeforeSpace(s[1..]);
      DropCons(s[0], s[1..]);
      Uncons(s, []);
    }
  }

  lemma SBeforeSpaceFreeTail(s: string)
    requires s != [] && SBeforeSpaceFree(s)
    ensures SBeforeSpaceFree(s[1..])
  {
    forall i | 0 <= i < |s[1..]| - 1 ensures !(s[1..][i] == 's' && IsJsSpace(s[1..][i + 1])) {
      assert s[1..][i] == s[i + 1] && s[1..][i + 1] == s[i + 2];
    }
  }

  /** A run of `s` that meets white space has an `s` right before white space. */
  lemma {:induction false} NoSRunWithoutSBeforeSpace(s: string)
    requires SBeforeSpaceFree(s)
    ensures !SRunMeetsSpace(s)
    decreases |s|
  {
    if |s| >= 2 && s[0] == 's' {
      SBeforeSpaceFreeTail(s);
      NoSRunWithoutSBeforeSpace(s[1..]);
    }
  }

  /** On trimmed text with no white-space run and no `s` before white space, the duplicate
      key is the lowercased link text under both revisions. */
  lemma KeysAgreeWithoutRuns(raw: string)
    requires RunFree(Trim(raw)) && SBeforeSpaceFree(Trim(raw))
    ensures LinkText(raw) == Trim(raw)
    ensures DuplicateKey(AsWritten, raw) == Lower(LinkText(raw))
    ensures DuplicateKey(Intended, raw) == Lower(LinkText(raw))
  {
    CollapseWithoutRuns(Trim(raw));
    DropWithoutSBeforeSpace(Trim(raw));
  }

  /** Two pieces of link text joined by white space are normalised on their own and joined
      by the last character of that white space. */
  lemma LinkTextJoin(u: string, w: string, v: string)
    requires u != [] && !IsJsSpace(u[|u| - 1])
    requires w != [] && forall k :: 0 <= k < |w| ==> IsJsSpace(w[k])
    requires v != [] && !IsJsSpace(v[0])
    ensures LinkText(u + w + v) == LinkText(u) + [w[|w| - 1]] + LinkText(v)
  {
    TrimJoin(u, w, v);
    CollapseRun(Trim(u), w, Trim(v));
  }

  /** Normalising link text a second time changes nothing. */
  lemma LinkTextIdempotent(raw: string)
    ensures LinkText(LinkText(raw)) == LinkText(raw)
  {
    var r := LinkText(raw);
    assert LeadingSpace(r) == 0;
    assert TrailingSpace(r[LeadingSpace(r)..]) == 0;
    assert Trim(r) == r;
    CollapseWithoutRuns(r);
  }

  /** The candidate's side of the duplicate test, lowercased. */
  function DuplicateKey(rule: Revision, raw: string): string {
    match rule
    case AsWritten => Lower(DropSRunsBeforeSpace(Trim(raw)))
    case Intended => Lower(LinkText(raw))
  }

  /** The `textContent` of a new link: its text, or nothing once it holds only an image. */
  function TextContent(l: Link): string {
    match l.content
    case Label(t) => t
    case Logo(_) => ""
  }

  // ---------------------------------------------------------------------------
  // The `url(...)` pattern of inline styles

  predicate IsQuote(c: char) {
    c == '"' || c == '\''
  }

  /** A match of `url\(["']([^)]+)["']\)` at position `p` whose group is `arg`:
      `url(`, a quote, `arg` (not empty, no `)`), a quote, `)`. */
  predicate UrlPatternAt(s: string, p: nat, arg: string) {
    && p + |arg| + 7 <= |s|
    && OpensUrlAt(s, p)
    && arg != []
    && s[p + 5..p + 5 + |arg|] == arg
    && (forall k :: 0 <= k < |arg| ==> arg[k] != ')')
    && IsQuote(s[p + 5 + |arg|])
    && s[p + 6 + |arg|] == ')'
  }

  /** `url(` and a quote at position `p`. */
  predicate OpensUrlAt(s: string, p: nat) {
    p + 5 <= |s| && s[p..p + 4] == "url(" && IsQuote(s[p + 4])
  }

  /** The first `)` at or after `from`. */
  function FirstParen(s: string, from: nat): (r: Option<nat>)
    requires from <= |s|
    ensures r.Some? ==> from <= r.value < |s| && s[r.value] == ')'
                        && forall k :: from <= k < r.value ==> s[k] != ')'
    ensures r.None? ==> forall k :: from <= k < |s| ==> s[k] != ')'
    decreases |s| - from
  {
    if from == |s| then None else if s[from] == ')' then Some(from) else FirstParen(s, from + 1)
  }

  /** A match at `p` ends at the first `)` after the opening quote. */
  lemma UrlPatternParen(s: string, p: nat, arg: string)
    requires UrlPatternAt(s, p, arg)
    ensures FirstParen(s, p + 5) == Some(p + 6 + |arg|)
    ensures QuoteBeforeFirstParen(s, p)
  {
    var e := p + 6 + |arg|;
    forall k | p + 5 <= k < e ensures s[k] != ')' {
      if k < p + 5 + |arg| { assert s[k] == arg[k - p - 5]; }
    }
  }

  /** `url(` and a quote at `p`, and a quote just before the first `)` after them, with at
      least one character in between. */
  predicate QuoteBeforeFirstParen(s: string, p: nat) {
    && OpensUrlAt(s, p)
    && FirstParen(s, p + 5).Some? && FirstParen(s, p + 5).value >= p + 7
    && IsQuote(s[FirstParen(s, p + 5).value - 1])
  }

  /** The match attempt at `p`: the group `[^)]+` runs to the first `)` and gives back one
      character, which must be the closing quote. */
  function UrlArgAt(s: string, p: nat): (r: Option<string>)
    ensures r.Some? ==> UrlPatternAt(s, p, r.value)
    ensures r.None? ==> forall arg :: !UrlPatternAt(s, p, arg)
  {
    if QuoteBeforeFirstParen(s, p) then
      var close := FirstParen(s, p + 5).value;
      UrlArgFound(s, p, close);
      Some(s[p + 5..close - 1])
    else
      UrlMatchNeedsQuote(s, p);
      None
  }

  /** The text between the opening quote and a quote just before the first `)` matches. */
  lemma UrlArgFound(s: string, p: nat, close: nat)
    requires OpensUrlAt(s, p) && FirstParen(s, p + 5) == Some(close)
    requires close >= p + 7 && IsQuote(s[close - 1])
    ensures UrlPatternAt(s, p, s[p + 5..close - 1])
  {
    var arg := s[p + 5..close - 1];
    assert forall k :: 0 <= k < |arg| ==> arg[k] == s[p + 5 + k];
  }

  /** A match at `p` needs a quote just before the first `)`. */
  lemma UrlMatchNeedsQuote(s: string, p: nat)
    ensures forall arg :: UrlPatternAt(s, p, arg) ==> QuoteBeforeFirstParen(s, p)
  {
    forall arg | UrlPatternAt(s, p, arg) ensures QuoteBeforeFirstParen(s, p) {
      UrlPatternParen(s, p, arg);
    }
  }

  datatype UrlMatch = UrlMatch(at: nat, arg: string)

  /** The leftmost match at or after `from`. */
  function FindUrl(s: string, from: nat): (r: Option<UrlMatch>)
    ensures r.Some? ==> from <= r.value.at && UrlPatternAt(s, r.value.at, r.value.arg)
    ensures r.Some? ==> forall q, arg :: from <= q < r.value.at ==> !UrlPatternAt(s, q, arg)
    ensures r.None? ==> forall q, arg :: from <= q ==> !UrlPatternAt(s, q, arg)
    decreases |s| - from
  {
    if from + 7 > |s| then None
    else match UrlArgAt(s, from)
      case Some(arg) => Some(UrlMatch(from, arg))
      case None => FindUrl(s, from + 1)
  }

  /** One `if (decl.match(/url/g)) src = decl.match(/url\(["']([^)]+)["']\)/)[1]` step:
      nothing when the declaration never mentions `url`, the group of the leftmost match
      otherwise, and a thrown TypeError when it mentions `url` but does not match. */
  function StyleUrl(decl: string): (r: Result<Option<string>, NavError>)
    ensures r.Err? <==> Contains(decl, "url") && forall p, arg :: !UrlPatternAt(decl, p, arg)
    ensures r.Ok? && r.value.Some? ==> exists p :: UrlPatternAt(decl, p, r.value.value)
    ensures r.Ok? && r.value.Some? ==> FindUrl(decl, 0).Some? && r.value.value == FindUrl(decl, 0).value.arg
    ensures r.Ok? && r.value.None? ==> !Contains(decl, "url")
  {
    if !Contains(decl, "url") then Ok(None)
    else match FindUrl(decl, 0)
      case None => Err(StyleUrlUnmatched(decl))
      case Some(m) => Ok(Some(m.arg))
  }

  /** A match at a position has one group: it ends before the first `)`. */
  lemma UrlArgUnique(s: string, p: nat, arg1: string, arg2: string)
    requires UrlPatternAt(s, p, arg1) && UrlPatternAt(s, p, arg2)
    ensures arg1 == arg2
  {
    UrlPatternParen(s, p, arg1);
    UrlPatternParen(s, p, arg2);
  }

  /** The value read from a declaration is the group of its leftmost match, so
      `url('a') url('b')` reads `a`. */
  lemma StyleUrlLeftmost(decl: string, p: nat, arg: string)
    requires UrlPatternAt(decl, p, arg)
    requires forall q: nat, other :: q < p ==> !UrlPatternAt(decl, q, other)
    ensures StyleUrl(decl) == Ok(Some(arg))
  {
    assert decl[p..p + 3] == decl[p..p + 4][..3] == "url";
    ContainsAt(decl, "url", p);
    var m := FindUrl(decl, 0);
    assert m.Some? && m.value.at == p;
    UrlArgUnique(decl, p, m.value.arg, arg);
  }

  /** A declaration that starts with a quoted `url(...)` yields the text between the quotes. */
  lemma QuotedUrlRead(q1: char, arg: string, q2: char, rest: string)
    requires IsQuote(q1) && IsQuote(q2) && arg != []
    requires forall k :: 0 <= k < |arg| ==> arg[k] != ')'
    ensures StyleUrl("url(" + [q1] + arg + [q2] + ")" + rest) == Ok(Some(arg))
  {
    var s := "url(" + [q1] + arg + [q2] + ")" + rest;
    QuotedUrlMatches(q1, arg, q2, rest);
    UrlPatternParen(s, 0, arg);
    assert UrlArgAt(s, 0) == Some(arg);
    assert Contains(s, "url");
  }

  /** Such a declaration matches at its start, where it also mentions `url`. */
  lemma QuotedUrlMatches(q1: char, arg: string, q2: char, rest: string)
    requires IsQuote(q1) && IsQuote(q2) && arg != []
    requires forall k :: 0 <= k < |arg| ==> arg[k] != ')'
    ensures UrlPatternAt("url(" + [q1] + arg + [q2] + ")" + rest, 0, arg)
    ensures StartsWith("url(" + [q1] + arg + [q2] + ")" + rest, "url")
  {
    var s := "url(" + [q1] + arg + [q2] + ")" + rest;
    assert s[..4] == "url(" && s[4] == q1;
    assert s[5..5 + |arg|] == arg;
    assert s[5 + |arg|] == q2 && s[6 + |arg|] == ')';
    assert s[..3] == "url";
  }

  /** A declaration that mentions `url` but has no quote character throws, as
      `url(logo.png)` does. */
  lemma UnquotedUrlThrows(decl: string)
    requires Contains(decl, "url")
    requires forall k :: 0 <= k < |decl| ==> !IsQuote(decl[k])
    ensures StyleUrl(decl).Err?
  {
    forall p: nat, arg | p + 5 <= |decl| ensures !UrlPatternAt(decl, p, arg) {
      assert !IsQuote(decl[p + 4]);
    }
  }

  // ---------------------------------------------------------------------------
  // Inline SVG

  /** The markup of an inline SVG logo: unchanged when it mentions `xmlns` anywhere,
      otherwise with the namespace attribute inserted after the first `<svg `. */
  function SvgWithNamespace(markup: string): (r: string)
    ensures Contains(markup, "xmlns") ==> r == markup
    ensures !Contains(markup, "xmlns") && !Contains(markup, "<svg ") ==> r == markup
    ensures !Contains(markup, "xmlns") && Contains(markup, "<svg ") ==>
              var i := IndexOf(markup, "<svg ").value;
              r == markup[..i] + "<svg " + SvgNamespaceAttribute + " " + markup[i + 5..]
    ensures !Contains(markup, "xmlns") && Contains(markup, "<svg ") ==> Contains(r, SvgNamespaceAttribute)
  {
    if Contains(markup, "xmlns") then markup
    else
      var rep := "<svg " + SvgNamespaceAttribute + " ";
      if Contains(markup, "<svg ") then
        SvgTagReplaced(markup, rep);
        ReplaceFirst(markup, "<svg ", rep)
      else ReplaceFirst(markup, "<svg ", rep)
  }

  lemma SvgTagReplaced(markup: string, rep: string)
    requires Contains(markup, "<svg ") && rep == "<svg " + SvgNamespaceAttribute + " "
    ensures var i := IndexOf(markup, "<svg ").value;
            ReplaceFirst(markup, "<svg ", rep) == markup[..i] + rep + markup[i + 5..]
    ensures Contains(ReplaceFirst(markup, "<svg ", rep), SvgNamespaceAttribute)
  {
    var i := IndexOf(markup, "<svg ").value;
    var r := ReplaceFirst(markup, "<svg ", rep);
    assert rep[5..5 + |SvgNamespaceAttribute|] == SvgNamespaceAttribute;
    ContainsPart(r, rep, i, SvgNamespaceAttribute, 5);
    Splice(r, markup, i, rep, 5);
  }

  // ---------------------------------------------------------------------------
  // The navigation scan

  /** Same-page jump links (`#` in the href) and visually hidden links (a `px` width
      that `parseInt` reads as less than 10) are skipped. */
  predicate IsJumpOrHidden(a: Anchor) {
    || Contains(a.href, "#")
    || (EndsWith(a.styleWidth, "px") && match ParseInt(a.styleWidth)
                                       case Some(w) => w < 10
                                       case None => false)
  }

  /** A jump link is skipped, whatever the `<nav>` holds. */
  lemma JumpLinkSkipped(st: NavState, a: Anchor, rule: Revision)
    requires Contains(a.href, "#")
    ensures Skipped(st, a, rule) && Step(st, a, rule) == Ok(st)
  {
  }

  /** A width of `n` pixels written as CSS (`"7px"`) hides the link exactly when `n` is
      below 10. */
  lemma PixelWidthHides(a: Anchor, n: nat)
    requires !Contains(a.href, "#") && a.styleWidth == Decimal(n) + "px"
    ensures IsJumpOrHidden(a) <==> n < 10
  {
    assert EndsWith(a.styleWidth, "px") by { assert a.styleWidth[|a.styleWidth| - 2..] == "px"; }
    ParseIntPixels(n);
  }

  /** Some accepted link's lowercased `textContent` equals `key`. */
  predicate IsDuplicate(links: seq<Link>, key: string)
    decreases |links|
  {
    links != [] && (IsDuplicate(links[..|links| - 1], key) || Lower(TextContent(links[|links| - 1])) == key)
  }

  lemma {:induction false} IsDuplicateIff(links: seq<Link>, key: string)
    ensures IsDuplicate(links, key) <==> exists m :: 0 <= m < |links| && Lower(TextContent(links[m])) == key
    decreases |links|
  {
    if links != [] {
      var init := links[..|links| - 1];
      IsDuplicateIff(init, key);
      assert forall m :: 0 <= m < |init| ==> init[m] == links[m];
    }
  }

  /** `s` contains one of `words`. */
  predicate MentionsAny(s: string, words: seq<string>)
    decreases |words|
  {
    words != [] && (MentionsAny(s, words[..|words| - 1]) || Contains(s, words[|words| - 1]))
  }

  lemma {:induction false} MentionsAnyIff(s: string, words: seq<string>)
    ensures MentionsAny(s, words) <==> exists k :: 0 <= k < |words| && Contains(s, words[k])
    decreases |words|
  {
    if words != [] {
      var init := words[..|words| - 1];
      MentionsAnyIff(s, init);
      assert forall k :: 0 <= k < |init| ==> init[k] == words[k];
    }
  }

  /** The lowercased href contains a deny-listed keyword. */
  predicate IsDenied(href: string) {
    MentionsAny(Lower(href), DenyHeaderKeywords)
  }

  /** An href is denied exactly when its lowercased form contains one of the sixteen
      keywords. */
  lemma IsDeniedIff(href: string)
    ensures IsDenied(href) <==> exists k :: 0 <= k < |DenyHeaderKeywords| && Contains(Lower(href), DenyHeaderKeywords[k])
  {
    MentionsAnyIff(Lower(href), DenyHeaderKeywords);
  }

  /** The image an accepted anchor would carry, if it has an image signal: later signals
      overwrite earlier ones in the order background, backgroundImage, first `<img>`
      (source and alternative text), first `<svg>`; the alternative text is otherwise the
      link text. */
  function LinkImageFor(a: Anchor, text: string): Result<Option<LinkImage>, NavError> {
    match StyleUrl(a.background)
    case Err(e) => Err(e)
    case Ok(bg) =>
      match StyleUrl(a.backgroundImage)
      case Err(e) => Err(e)
      case Ok(bgImage) =>
        var src0: Option<ImageSource> := if bg.Some? then Some(Address(bg.value)) else None;
        var src1 := if bgImage.Some? then Some(Address(bgImage.value)) else src0;
        var src2 := if a.firstImg.Some? then Some(Address(a.firstImg.value.src)) else src1;
        var alt := if a.firstImg.Some? then a.firstImg.value.alt else text;
        var src3 := if a.firstSvg.Some? then Some(SvgDataUri(SvgWithNamespace(a.firstSvg.value))) else src2;
        Ok(if src3.Some? then Some(LinkImage(src3.value, alt)) else None)
  }

  /** The anchor is dropped: a jump or hidden link, a repeated text, or a denied href. */
  predicate Skipped(st: NavState, a: Anchor, rule: Revision) {
    || IsJumpOrHidden(a)
    || IsDuplicate(st.links, DuplicateKey(rule, a.text))
    || IsDenied(a.href)
  }

  /** The `<nav>` after accepting a link: while the logo is still available, a link with an
      image replaces everything and holds only the image; otherwise the link is appended
      with its text. */
  function Accept(st: NavState, href: string, text: string, image: Option<LinkImage>): NavState {
    if image.Some? && st.logoAvailable then NavState([Link(href, Logo(image.value))], false)
    else NavState(st.links + [Link(href, Label(text))], st.logoAvailable)
  }

  /** One anchor of the scan (the body of the `forEach` callback). */
  function Step(st: NavState, a: Anchor, rule: Revision): Result<NavState, NavError> {
    if Skipped(st, a, rule) then Ok(st)
    else match LinkImageFor(a, LinkText(a.text))
      case Err(e) => Err(e)
      case Ok(image) => Ok(Accept(st, a.href, LinkText(a.text), image))
  }

  /** The scan of `anchors` from left to right, from an empty `<nav>` with the logo still
      available; an error aborts it. */
  function Scan(anchors: seq<Anchor>, rule: Revision): Result<NavState, NavError>
    decreases |anchors|
  {
    if anchors == [] then Ok(NavState([], true))
    else match Scan(anchors[..|anchors| - 1], rule)
      case Err(e) => Err(e)
      case Ok(st) => Step(st, anchors[|anchors| - 1], rule)
  }

  /** The children of the navigation built for `doc`: a home link when the page has no
      `<header>` or `<nav>`, otherwise the scan of the first one's anchors. */
  function Navigation(doc: Document, rule: Revision): Result<seq<Link>, NavError> {
    if doc.regions == [] then Ok([Link("/", Label(doc.title))])
    else match Scan(doc.regions[0], rule)
      case Err(e) => Err(e)
      case Ok(st) => Ok(st.links)
  }

  lemma {:induction false} ScanErrorSticks(anchors: seq<Anchor>, i: nat, rule: Revision)
    requires i <= |anchors| && Scan(anchors[..i], rule).Err?
    ensures Scan(anchors, rule) == Scan(anchors[..i], rule)
    decreases |anchors| - i
  {
    if i < |anchors| {
      assert anchors[..i + 1][..i] == anchors[..i];
      ScanErrorSticks(anchors, i + 1, rule);
    } else {
      assert anchors[..i] == anchors;
    }
  }

  /** An anchor that throws aborts the whole navigation, whatever follows it. */
  lemma ErrorAbortsNavigation(doc: Document, i: nat, rule: Revision)
    requires doc.regions != [] && i <= |doc.regions[0]| && Scan(doc.regions[0][..i], rule).Err?
    ensures Navigation(doc, rule) == Err(Scan(doc.regions[0][..i], rule).error)
  {
    ScanErrorSticks(doc.regions[0], i, rule);
  }

  /** Only the first `<header>`/`<nav>` matters, and the title only when there is none. */
  lemma OnlyFirstRegionScanned(doc1: Document, doc2: Document, rule: Revision)
    requires doc1.regions != [] && doc2.regions != [] && doc1.regions[0] == doc2.regions[0]
    ensures Navigation(doc1, rule) == Navigation(doc2, rule)
  {
  }

  /** What every state of the scan satisfies: no kept link is a jump link or has a denied
      href, only the first link can be the logo, and while the logo is still available
      there is none. */
  predicate WellFormed(st: NavState) {
    && (forall i :: 0 <= i < |st.links| ==> !Contains(st.links[i].href, "#") && !IsDenied(st.links[i].href))
    && (forall i :: 0 < i < |st.links| ==> st.links[i].content.Label?)
    && (st.logoAvailable ==> forall i :: 0 <= i < |st.links| ==> st.links[i].content.Label?)
  }

  /** The kept links were made, in source order, from scanned anchors that are neither
      jumps, hidden nor deny-listed: the last link from some anchor, and the links before it
      from anchors before that one. */
  predicate FromAnchors(links: seq<Link>, anchors: seq<Anchor>)
    decreases |links|
  {
    links == [] || exists j :: 0 <= j < |anchors| && LinkFrom(links[|links| - 1], anchors[j]) && FromAnchors(links[..|links| - 1], anchors[..j])
  }

  /** `l` was made from `a`. */
  predicate LinkFrom(l: Link, a: Anchor) {
    && !IsJumpOrHidden(a) && !IsDenied(a.href)
    && l.href == a.href && (l.content.Label? ==> l.content.text == LinkText(a.text))
  }

  /** No two kept links have the same lowercased `textContent`. */
  predicate DistinctTexts(links: seq<Link>) {
    forall i, j :: 0 <= i < j < |links| ==> Lower(TextContent(links[i])) != Lower(TextContent(links[j]))
  }

  /** The outcomes of one step: the anchor is skipped, it becomes the logo and replaces
      everything before it, or it is appended with its normalised text. */
  predicate StepOutcome(st: NavState, a: Anchor, rule: Revision, next: NavState) {
    || (Skipped(st, a, rule) && next == st)
    || (&& !Skipped(st, a, rule) && st.logoAvailable && !next.logoAvailable
        && |next.links| == 1 && next.links[0].href == a.href && next.links[0].content.Logo?)
    || (&& !Skipped(st, a, rule)
        && next == NavState(st.links + [Link(a.href, Label(LinkText(a.text)))], st.logoAvailable))
  }

  lemma StepCases(st: NavState, a: Anchor, rule: Revision)
    requires Step(st, a, rule).Ok?
    ensures StepOutcome(st, a, rule, Step(st, a, rule).value)
  {
  }

  /** One anchor exactly: a skipped anchor leaves the `<nav>` as it is; otherwise an error
      from its inline styles aborts, an image makes it the logo while the logo is
      available, and in every other case it is appended with its normalised text. */
  lemma StepExact(st: NavState, a: Anchor, rule: Revision)
    ensures Skipped(st, a, rule) ==> Step(st, a, rule) == Ok(st)
    ensures !Skipped(st, a, rule) && LinkImageFor(a, LinkText(a.text)).Err? ==>
              Step(st, a, rule) == Err(LinkImageFor(a, LinkText(a.text)).error)
    ensures !Skipped(st, a, rule) && LinkImageFor(a, LinkText(a.text)).Ok? && LinkImageFor(a, LinkText(a.text)).value.Some? && st.logoAvailable ==>
              Step(st, a, rule) == Ok(NavState([Link(a.href, Logo(LinkImageFor(a, LinkText(a.text)).value.value))], false))
    ensures !Skipped(st, a, rule) && LinkImageFor(a, LinkText(a.text)).Ok? && !(LinkImageFor(a, LinkText(a.text)).value.Some? && st.logoAvailable) ==>
              Step(st, a, rule) == Ok(NavState(st.links + [Link(a.href, Label(LinkText(a.text)))], st.logoAvailable))
  {
  }

  /** The image of an anchor by precedence: an error from `background` comes first, then
      one from `backgroundImage`; otherwise the first `<svg>` wins over the first `<img>`,
      which wins over `backgroundImage`, which wins over `background`; the alternative
      text is the `<img>`'s when there is one and the link text otherwise; and there is no
      image exactly when the anchor has neither element and neither style mentions
      `url`. */
  lemma LinkImagePrecedence(a: Anchor, text: string)
    ensures LinkImageFor(a, text).Err? <==> StyleUrl(a.background).Err? || StyleUrl(a.backgroundImage).Err?
    ensures StyleUrl(a.background).Err? ==> LinkImageFor(a, text) == Err(StyleUrl(a.background).error)
    ensures StyleUrl(a.background).Ok? && StyleUrl(a.backgroundImage).Err? ==>
              LinkImageFor(a, text) == Err(StyleUrl(a.backgroundImage).error)
    ensures LinkImageFor(a, text).Ok? && a.firstSvg.Some? ==>
              LinkImageFor(a, text).value
              == Some(LinkImage(SvgDataUri(SvgWithNamespace(a.firstSvg.value)), if a.firstImg.Some? then a.firstImg.value.alt else text))
    ensures LinkImageFor(a, text).Ok? && a.firstSvg.None? && a.firstImg.Some? ==>
              LinkImageFor(a, text).value == Some(LinkImage(Address(a.firstImg.value.src), a.firstImg.value.alt))
    ensures LinkImageFor(a, text).Ok? && a.firstSvg.None? && a.firstImg.None? && StyleUrl(a.backgroundImage).value.Some? ==>
              LinkImageFor(a, text).value == Some(LinkImage(Address(StyleUrl(a.backgroundImage).value.value), text))
    ensures LinkImageFor(a, text).Ok? && a.firstSvg.None? && a.firstImg.None? && StyleUrl(a.backgroundImage).value.None?
              && StyleUrl(a.background).value.Some? ==>
              LinkImageFor(a, text).value == Some(LinkImage(Address(StyleUrl(a.background).value.value), text))
    ensures LinkImageFor(a, text).Ok? ==>
              (LinkImageFor(a, text).value.None? <==>
               a.firstSvg.None? && a.firstImg.None? && !Contains(a.background, "url") && !Contains(a.backgroundImage, "url"))
  {
  }

  /** The last step of a scan that succeeds. */
  lemma {:induction false} ScanLast(anchors: seq<Anchor>, rule: Revision)
    requires anchors != [] && Scan(anchors, rule).Ok?
    ensures Scan(anchors[..|anchors| - 1], rule).Ok?
    ensures StepOutcome(Scan(anchors[..|anchors| - 1], rule).value, anchors[|anchors| - 1], rule, Scan(anchors, rule).value)
  {
    StepCases(Scan(anchors[..|anchors| - 1], rule).value, anchors[|anchors| - 1], rule);
  }

  lemma OutcomeWellFormed(st: NavState, a: Anchor, rule: Revision, next: NavState)
    requires WellFormed(st) && StepOutcome(st, a, rule, next)
    ensures WellFormed(next)
  {
    var added := Link(a.href, Label(LinkText(a.text)));
    if next == st {
    } else if next == NavState(st.links + [added], st.logoAvailable) {
      AdmittedHref(st, a, rule);
      WellFormedAppend(st, added);
    } else {
      AdmittedHref(st, a, rule);
      assert next.links == [next.links[0]];
    }
  }

  lemma AdmittedHref(st: NavState, a: Anchor, rule: Revision)
    requires !Skipped(st, a, rule)
    ensures !Contains(a.href, "#") && !IsDenied(a.href)
  {
  }

  /** A label with an admissible href keeps a well-formed state well-formed when appended. */
  lemma WellFormedAppend(st: NavState, l: Link)
    requires WellFormed(st) && l.content.Label? && !Contains(l.href, "#") && !IsDenied(l.href)
    ensures WellFormed(NavState(st.links + [l], st.logoAvailable))
  {
    var links := st.links + [l];
    assert forall i :: 0 <= i < |st.links| ==> links[i] == st.links[i];
    assert links[|st.links|] == l;
  }

  lemma {:induction false} ScanWellFormed(anchors: seq<Anchor>, rule: Revision)
    requires Scan(anchors, rule).Ok?
    ensures WellFormed(Scan(anchors, rule).value)
    decreases |anchors|
  {
    if anchors != [] {
      var init := anchors[..|anchors| - 1];
      ScanLast(anchors, rule);
      ScanWellFormed(init, rule);
      OutcomeWellFormed(Scan(init, rule).value, anchors[|anchors| - 1], rule, Scan(anchors, rule).value);
    }
  }

  /** Links made from some anchors are made from those anchors and one more. */
  lemma FromMoreAnchors(links: seq<Link>, seen: seq<Anchor>, a: Anchor)
    requires FromAnchors(links, seen)
    ensures FromAnchors(links, seen + [a])
  {
    if links != [] {
      var j :| 0 <= j < |seen| && LinkFrom(links[|links| - 1], seen[j]) && FromAnchors(links[..|links| - 1], seen[..j]);
      assert (seen + [a])[j] == seen[j] && (seen + [a])[..j] == seen[..j];
    }
  }

  /** A link made from the next anchor can be appended. */
  lemma FromAnchorsAppend(links: seq<Link>, l: Link, seen: seq<Anchor>, a: Anchor)
    requires FromAnchors(links, seen) && LinkFrom(l, a)
    ensures FromAnchors(links + [l], seen + [a])
  {
    var j := |seen|;
    assert (links + [l])[..|links|] == links && (links + [l])[|links|] == l;
    assert (seen + [a])[..j] == seen && (seen + [a])[j] == a;
  }

  /** An anchor the step does not skip makes a link that carries its href and text. */
  lemma AdmittedLink(st: NavState, a: Anchor, rule: Revision, l: Link)
    requires !Skipped(st, a, rule)
    requires l.href == a.href && (l.content.Label? ==> l.content.text == LinkText(a.text))
    ensures LinkFrom(l, a)
  {
  }

  lemma StepFromAnchors(st: NavState, a: Anchor, rule: Revision, next: NavState, seen: seq<Anchor>)
    requires FromAnchors(st.links, seen) && StepOutcome(st, a, rule, next)
    ensures FromAnchors(next.links, seen + [a])
  {
    if next == st {
      FromMoreAnchors(st.links, seen, a);
    } else if next.links == st.links + [Link(a.href, Label(LinkText(a.text)))] {
      AppendedFromAnchors(st, a, rule, seen);
    } else {
      LogoFromAnchors(st, a, rule, next.links, seen);
    }
  }

  lemma AppendedFromAnchors(st: NavState, a: Anchor, rule: Revision, seen: seq<Anchor>)
    requires FromAnchors(st.links, seen) && !Skipped(st, a, rule)
    ensures FromAnchors(st.links + [Link(a.href, Label(LinkText(a.text)))], seen + [a])
  {
    var added := Link(a.href, Label(LinkText(a.text)));
    AdmittedLink(st, a, rule, added);
    FromAnchorsAppend(st.links, added, seen, a);
  }

  lemma LogoFromAnchors(st: NavState, a: Anchor, rule: Revision, links: seq<Link>, seen: seq<Anchor>)
    requires !Skipped(st, a, rule) && |links| == 1 && links[0].href == a.href && links[0].content.Logo?
    ensures FromAnchors(links, seen + [a])
  {
    AdmittedLink(st, a, rule, links[0]);
    assert links == [] + [links[0]];
    FromAnchorsAppend([], links[0], seen, a);
  }

  lemma SplitLast<T>(s: seq<T>)
    requires s != []
    ensures s[..|s| - 1] + [s[|s| - 1]] == s
  {
  }

  lemma {:induction false} ScanFromAnchors(anchors: seq<Anchor>, rule: Revision)
    requires Scan(anchors, rule).Ok?
    ensures FromAnchors(Scan(anchors, rule).value.links, anchors)
    decreases |anchors|
  {
    if anchors != [] {
      var init := anchors[..|anchors| - 1];
      ScanLast(anchors, rule);
      ScanFromAnchors(init, rule);
      StepFromAnchors(Scan(init, rule).value, anchors[|anchors| - 1], rule, Scan(anchors, rule).value, init);
      SplitLast(anchors);
    }
  }

  /** With the duplicate test applied to normalised text, the kept texts are pairwise
      different. */
  lemma {:induction false} IntendedTextsDistinct(anchors: seq<Anchor>)
    requires Scan(anchors, Intended).Ok?
    ensures DistinctTexts(Scan(anchors, Intended).value.links)
    decreases |anchors|
  {
    if anchors != [] {
      var init := anchors[..|anchors| - 1];
      var a := anchors[|anchors| - 1];
      ScanLast(anchors, Intended);
      IntendedTextsDistinct(init);
      OutcomeDistinct(Scan(init, Intended).value, a, Scan(anchors, Intended).value);
    }
  }

  lemma OutcomeDistinct(st: NavState, a: Anchor, next: NavState)
    requires DistinctTexts(st.links) && StepOutcome(st, a, Intended, next)
    ensures DistinctTexts(next.links)
  {
    if next == NavState(st.links + [Link(a.href, Label(LinkText(a.text)))], st.logoAvailable) {
      var key := DuplicateKey(Intended, a.text);
      IsDuplicateIff(st.links, key);
      assert Lower(TextContent(next.links[|st.links|])) == key;
      assert forall i :: 0 <= i < |st.links| ==> next.links[i] == st.links[i];
    }
  }

  /** What the navigation of a page is: the home link to `/` titled with the page title
      when there is no `<header>` or `<nav>`; otherwise links made from the first one's
      anchors, none a jump link or deny-listed, with at most the first being the logo, and
      (with the intended duplicate test) no two with the same lowercased text. */
  lemma NavigationShape(doc: Document, rule: Revision)
    requires Navigation(doc, rule).Ok?
    ensures doc.regions == [] ==> Navigation(doc, rule).value == [Link("/", Label(doc.title))]
    ensures doc.regions != [] ==>
      var links := Navigation(doc, rule).value;
      && WellFormed(NavState(links, false))
      && FromAnchors(links, doc.regions[0])
      && (rule == Intended ==> DistinctTexts(links))
  {
    if doc.regions != [] {
      ScanWellFormed(doc.regions[0], rule);
      ScanFromAnchors(doc.regions[0], rule);
      if rule == Intended {
        IntendedTextsDistinct(doc.regions[0]);
      }
    }
  }

  /** Once the logo is taken, the links kept so far stay, and later anchors can only be
      appended after them. */
  lemma {:induction false} LinksKeptAfterLogo(anchors: seq<Anchor>, i: nat, rule: Revision)
    requires i <= |anchors| && Scan(anchors[..i], rule).Ok? && !Scan(anchors[..i], rule).value.logoAvailable
    requires Scan(anchors, rule).Ok?
    ensures !Scan(anchors, rule).value.logoAvailable
    ensures Scan(anchors[..i], rule).value.links <= Scan(anchors, rule).value.links
    decreases |anchors|
  {
    if i == |anchors| {
      assert anchors[..i] == anchors;
    } else {
      var init := anchors[..|anchors| - 1];
      assert init[..i] == anchors[..i];
      LinksKeptAfterLogo(init, i, rule);
    }
  }

  /** While the logo flag is unchanged, the links kept so far stay, and later anchors can
      only be appended after them. */
  lemma {:induction false} LinksGrowWhileLogoUnchanged(anchors: seq<Anchor>, i: nat, rule: Revision)
    requires i <= |anchors| && Scan(anchors[..i], rule).Ok? && Scan(anchors, rule).Ok?
    requires Scan(anchors[..i], rule).value.logoAvailable == Scan(anchors, rule).value.logoAvailable
    ensures Scan(anchors[..i], rule).value.links <= Scan(anchors, rule).value.links
    decreases |anchors|
  {
    if !Scan(anchors, rule).value.logoAvailable {
      LinksKeptAfterLogo(anchors, i, rule);
    } else if i == |anchors| {
      assert anchors[..i] == anchors;
    } else {
      var init := anchors[..|anchors| - 1];
      assert init[..i] == anchors[..i];
      ScanLast(anchors, rule);
      OutcomeKeepsLogo(Scan(init, rule).value, anchors[|anchors| - 1], rule, Scan(anchors, rule).value);
      LinksGrowWhileLogoUnchanged(init, i, rule);
    }
  }

  /** A step after which the logo is still available had it available before, and only
      appended to the links or left them alone. */
  lemma OutcomeKeepsLogo(st: NavState, a: Anchor, rule: Revision, next: NavState)
    requires StepOutcome(st, a, rule, next) && next.logoAvailable
    ensures st.logoAvailable && st.links <= next.links
  {
  }

  /** A plain anchor whose text has a double space. */
  const RepeatedAnchor: Anchor := Anchor("/a", "a  b", "", "", "", None, None)
  /** The link made from it. */
  const RepeatedLink: Link := Link("/a", Label("a b"))

  lemma RepeatedAnchorTexts()
    ensures LinkText(RepeatedAnchor.text) == "a b"
    ensures DuplicateKey(AsWritten, RepeatedAnchor.text) == Lower("a  b")
    ensures DuplicateKey(Intended, RepeatedAnchor.text) == Lower("a b")
  {
    TrimUnchanged("a  b");
    CollapseDoubleSpace('a', 'b');
    assert SBeforeSpaceFree("a  b");
    DropWithoutSBeforeSpace("a  b");
  }

  /** A double space between two other characters collapses to one. */
  lemma CollapseDoubleSpace(x: char, y: char)
    requires !IsJsSpace(x) && !IsJsSpace(y)
    ensures CollapseSpaceRuns([x, ' ', ' ', y]) == [x, ' ', y]
  {
    assert [x, ' ', ' ', y][1..] == [' ', ' ', y];
    assert [' ', ' ', y][1..] == [' ', y];
    assert [' ', y][1..] == [y];
    assert CollapseSpaceRuns([' ', y]) == [' ', y];
  }

  /** The repeated anchor is neither a jump, hidden nor deny-listed, and carries no image. */
  lemma RepeatedAnchorIsPlain()
    ensures Plain(RepeatedAnchor)
  {
    RepeatedAnchorTexts();
    RepeatedAnchorPlain();
  }

  lemma RepeatedAnchorPlain()
    ensures !IsJumpOrHidden(RepeatedAnchor) && !IsDenied(RepeatedAnchor.href)
    ensures LinkImageFor(RepeatedAnchor, "a b") == Ok(None)
  {
    var a := RepeatedAnchor;
    AbsentCharNotContained(a.href, '#');
    forall k | 0 <= k < |DenyHeaderKeywords| ensures !Contains(Lower(a.href), DenyHeaderKeywords[k]) {
      ShorterNeverContains(Lower(a.href), DenyHeaderKeywords[k]);
    }
    IsDeniedIff(a.href);
    ShorterNeverContains("", "url");
  }

  /** An anchor that is not a jump, not hidden, not deny-listed and carries no image. */
  predicate Plain(a: Anchor) {
    !IsJumpOrHidden(a) && !IsDenied(a.href) && LinkImageFor(a, LinkText(a.text)) == Ok(None)
  }

  /** A plain anchor (kept, no image) scanned twice is kept once when its normalised,
      lowercased text equals its duplicate key, and twice otherwise. */
  lemma ScanRepeated(a: Anchor, rule: Revision)
    requires Plain(a)
    ensures var l := Link(a.href, Label(LinkText(a.text)));
            Scan([a, a], rule) == Ok(if Lower(LinkText(a.text)) == DuplicateKey(rule, a.text) then NavState([l], true)
                                     else NavState([l, l], true))
  {
    PlainFirstStep(a, rule);
    PlainSecondStep(a, rule);
    ScanTwice(a, rule);
  }

  /** From the empty `<nav>` a plain anchor is appended. */
  lemma PlainFirstStep(a: Anchor, rule: Revision)
    requires Plain(a)
    ensures Step(NavState([], true), a, rule) == Ok(NavState([Link(a.href, Label(LinkText(a.text)))], true))
  {
    PlainAppended(NavState([], true), a, rule);
    AppendToEmpty(Link(a.href, Label(LinkText(a.text))));
  }

  /** After its own link, a plain anchor is skipped exactly when it is a duplicate of it. */
  lemma PlainSecondStep(a: Anchor, rule: Revision)
    requires Plain(a)
    ensures var l := Link(a.href, Label(LinkText(a.text)));
            Step(NavState([l], true), a, rule)
            == Ok(if Lower(LinkText(a.text)) == DuplicateKey(rule, a.text) then NavState([l], true) else NavState([l, l], true))
  {
    if Lower(LinkText(a.text)) == DuplicateKey(rule, a.text) {
      PlainRepeatSkipped(a, rule);
    } else {
      PlainRepeatAppended(a, rule);
    }
  }

  lemma PlainRepeatSkipped(a: Anchor, rule: Revision)
    requires Lower(LinkText(a.text)) == DuplicateKey(rule, a.text)
    ensures var l := Link(a.href, Label(LinkText(a.text)));
            Step(NavState([l], true), a, rule) == Ok(NavState([l], true))
  {
    DuplicateOfOne(Link(a.href, Label(LinkText(a.text))), DuplicateKey(rule, a.text));
  }

  lemma PlainRepeatAppended(a: Anchor, rule: Revision)
    requires Plain(a) && Lower(LinkText(a.text)) != DuplicateKey(rule, a.text)
    ensures var l := Link(a.href, Label(LinkText(a.text)));
            Step(NavState([l], true), a, rule) == Ok(NavState([l, l], true))
  {
    PlainAppendedAfterOne(Link(a.href, Label(LinkText(a.text))), a, rule);
  }

  /** After one link whose text is not the key, a plain anchor is appended. */
  lemma PlainAppendedAfterOne(l: Link, a: Anchor, rule: Revision)
    requires Plain(a) && Lower(TextContent(l)) != DuplicateKey(rule, a.text)
    ensures Step(NavState([l], true), a, rule) == Ok(NavState([l, Link(a.href, Label(LinkText(a.text)))], true))
  {
    DuplicateOfOne(l, DuplicateKey(rule, a.text));
    PlainAppended(NavState([l], true), a, rule);
    AppendToOne(l, Link(a.href, Label(LinkText(a.text))));
  }

  lemma AppendToEmpty<T>(x: T)
    ensures [] + [x] == [x]
  {
  }

  lemma AppendToOne<T>(x: T, y: T)
    ensures [x] + [y] == [x, y]
  {
  }

  lemma PlainAppended(st: NavState, a: Anchor, rule: Revision)
    requires Plain(a) && !IsDuplicate(st.links, DuplicateKey(rule, a.text))
    ensures Step(st, a, rule) == Ok(NavState(st.links + [Link(a.href, Label(LinkText(a.text)))], st.logoAvailable))
  {
    NotSkipped(st, a, rule);
    StepExact(st, a, rule);
  }

  lemma NotSkipped(st: NavState, a: Anchor, rule: Revision)
    requires !IsJumpOrHidden(a) && !IsDenied(a.href) && !IsDuplicate(st.links, DuplicateKey(rule, a.text))
    ensures !Skipped(st, a, rule)
  {
  }

  /** A `<nav>` with one link holds a duplicate exactly when that link's text is the key. */
  lemma DuplicateOfOne(l: Link, key: string)
    ensures IsDuplicate([], key) == false
    ensures IsDuplicate([l], key) <==> Lower(TextContent(l)) == key
  {
    assert [l][..0] == [];
  }

  /** As written, the duplicate test compares text whose white-space runs are intact with
      link text whose runs were collapsed, so an anchor repeated verbatim is kept twice. */
  lemma AsWrittenKeepsRepeatedText()
    ensures Scan([RepeatedAnchor, RepeatedAnchor], AsWritten) == Ok(NavState([RepeatedLink, RepeatedLink], true))
  {
    RepeatedAnchorTexts();
    RepeatedAnchorIsPlain();
    assert |Lower("a  b")| == 4 && |Lower("a b")| == 3;
    ScanRepeated(RepeatedAnchor, AsWritten);
  }

  /** With the intended normalisation the repeated anchor is kept once. */
  lemma IntendedSkipsRepeatedText()
    ensures Scan([RepeatedAnchor, RepeatedAnchor], Intended) == Ok(NavState([RepeatedLink], true))
  {
    RepeatedAnchorTexts();
    RepeatedAnchorIsPlain();
    ScanRepeated(RepeatedAnchor, Intended);
  }

  /** An anchor that is not skipped at its turn is kept: its link ends the `<nav>` after
      that step, behind every earlier link when it is appended with its normalised text,
      and alone when it becomes the logo, which only happens while the logo is available. */
  lemma AcceptedAnchorKept(init: seq<Anchor>, a: Anchor, rule: Revision)
    requires Scan(init, rule).Ok? && !Skipped(Scan(init, rule).value, a, rule)
    requires Scan(init + [a], rule).Ok?
    ensures var links := Scan(init + [a], rule).value.links;
            && links != [] && links[|links| - 1].href == a.href
            && (links[|links| - 1].content.Label? ==>
                  links[|links| - 1].content.text == LinkText(a.text) && links[..|links| - 1] == Scan(init, rule).value.links)
            && (links[|links| - 1].content.Logo? ==> |links| == 1 && Scan(init, rule).value.logoAvailable)
  {
    ScanSnoc(init, a, rule);
    var st := Scan(init, rule).value;
    var added := Link(a.href, Label(LinkText(a.text)));
    assert (st.links + [added])[..|st.links|] == st.links;
  }

  /** Scanning an anchor twice is two steps from the empty `<nav>`. */
  lemma ScanTwice(a: Anchor, rule: Revision)
    requires Step(NavState([], true), a, rule).Ok?
    ensures Scan([a, a], rule) == Step(Step(NavState([], true), a, rule).value, a, rule)
  {
    ScanSnoc([], a, rule);
    assert [] + [a] == [a];
    ScanSnoc([a], a, rule);
    assert [a] + [a] == [a, a];
  }

  /** One more anchor of a scan that has not failed is one more step. */
  lemma ScanExtend(anchors: seq<Anchor>, i: nat, rule: Revision)
    requires i < |anchors| && Scan(anchors[..i], rule).Ok?
    ensures Scan(anchors[..i + 1], rule) == Step(Scan(anchors[..i], rule).value, anchors[i], rule)
  {
    assert anchors[..i + 1][..i] == anchors[..i];
  }

  /** The scan of `init` followed by `a`. */
  lemma ScanSnoc(init: seq<Anchor>, a: Anchor, rule: Revision)
    ensures Scan(init + [a], rule) == if Scan(init, rule).Err? then Scan(init, rule) else Step(Scan(init, rule).value, a, rule)
  {
    assert (init + [a])[..|init|] == init;
  }

  /** The first `forEach` of an anchor: `shouldCancel ||= ...` over the new `<nav>`'s
      children, comparing each lowercased `textContent` with `key`. */
  method MatchesAcceptedText(navigation: seq<Link>, key: string) returns (shouldCancel: bool)
    ensures shouldCancel == IsDuplicate(navigation, key)
  {
    shouldCancel := false;
    var j := 0;
    while j < |navigation|
      invariant 0 <= j <= |navigation|
      invariant shouldCancel == IsDuplicate(navigation[..j], key)
    {
      assert navigation[..j + 1][..j] == navigation[..j];
      shouldCancel := shouldCancel || Lower(TextContent(navigation[j])) == key;
      j := j + 1;
    }
    assert navigation[..j] == navigation;
  }

  /** The second `forEach`: `shouldCancel ||= ...` over the deny list, matching each
      keyword against the lowercased href. */
  method MatchesDenyKeyword(cancelled: bool, href: string) returns (shouldCancel: bool)
    ensures shouldCancel == (cancelled || IsDenied(href))
  {
    shouldCancel := cancelled;
    var lowered := Lower(href);
    var k := 0;
    while k < |DenyHeaderKeywords|
      invariant 0 <= k <= |DenyHeaderKeywords|
      invariant shouldCancel == (cancelled || MentionsAny(lowered, DenyHeaderKeywords[..k]))
    {
      assert DenyHeaderKeywords[..k + 1][..k] == DenyHeaderKeywords[..k];
      shouldCancel := shouldCancel || Contains(lowered, DenyHeaderKeywords[k]);
      k := k + 1;
    }
    assert DenyHeaderKeywords[..k] == DenyHeaderKeywords;
  }

  /** The `forEach` callback for one anchor: skip it, or append a new link to the `<nav>`,
      first clearing the `<nav>` when the link becomes the logo. */
  method VisitAnchor(navigation: seq<Link>, logoImageAvailable: bool, element: Anchor, rule: Revision)
    returns (r: Result<NavState, NavError>)
    ensures r == Step(NavState(navigation, logoImageAvailable), element, rule)
  {
    if IsJumpOrHidden(element) {
      return Ok(NavState(navigation, logoImageAvailable));
    }
    var shouldCancel := MatchesAcceptedText(navigation, DuplicateKey(rule, element.text));
    shouldCancel := MatchesDenyKeyword(shouldCancel, element.href);
    if shouldCancel {
      return Ok(NavState(navigation, logoImageAvailable));
    }
    var text := LinkText(element.text);
    var newLink := Link(element.href, Label(text));
    var image := LinkImageFor(element, text);
    if image.Err? {
      return Err(image.error);
    }
    var links, available := navigation, logoImageAvailable;
    if image.value.Some? && available {
      links := [];
      newLink := newLink.(content := Logo(image.value.value));
      available := false;
    }
    links := links + [newLink];
    assert NavState(links, available) == Accept(NavState(navigation, logoImageAvailable), element.href, text, image.value);
    return Ok(NavState(links, available));
  }

  /** `createNavigation`: the new `<nav>`'s children and the logo flag are updated anchor by
      anchor; a thrown error ends the scan. `rule` selects the duplicate test. */
  method CreateNavigation(doc: Document, rule: Revision) returns (r: Result<seq<Link>, NavError>)
    ensures r == Navigation(doc, rule)
  {
    var navigation: seq<Link> := [];
    var logoImageAvailable := true;
    if |doc.regions| == 0 {
      navigation := navigation + [Link("/", Label(doc.title))];
      assert navigation == [Link("/", Label(doc.title))];
      return Ok(navigation);
    }
    var anchors := doc.regions[0];
    var i := 0;
    while i < |anchors|
      invariant 0 <= i <= |anchors|
      invariant Scan(anchors[..i], rule) == Ok(NavState(navigation, logoImageAvailable))
    {
      ScanExtend(anchors, i, rule);
      var visited := VisitAnchor(navigation, logoImageAvailable, anchors[i], rule);
      if visited.Err? {
        ScanErrorSticks(anchors, i + 1, rule);
        return Err(visited.error);
      }
      navigation, logoImageAvailable := visited.value.links, visited.value.logoAvailable;
      i := i + 1;
    }
    assert anchors[..i] == anchors;
    return Ok(navigation);
  }

  // ---------------------------------------------------------------------------
  // Assembly and the mimetype gate

  /** `simplifyHtml`: the new body holds the navigation and nothing else. */
  method SimplifyHtml(html: string, url: string, codec: HtmlCodec, rev: Revision) returns (r: Result<string, NavError>)
    ensures Navigation(codec.parse(html, url), rev).Err? ==>
              r == Err(Navigation(codec.parse(html, url), rev).error)
    ensures Navigation(codec.parse(html, url), rev).Ok? ==>
              r == Ok(codec.serialize([NavElement(Navigation(codec.parse(html, url), rev).value)]))
  {
    var currentDocument := codec.parse(html, url);
    var navigation := CreateNavigation(currentDocument, rev);
    match navigation
    case Err(e) => r := Err(e);
    case Ok(links) => r := Ok(codec.serialize([NavElement(links)]));
  }

  /** The gate as written: `resource.mimetype != "text/html".split(";")[0]` skips the
      resource, so only a mimetype of exactly `text/html` would be simplified. */
  predicate IsHtmlMimetype(mimetype: Option<string>) {
    mimetype == Some(HtmlMediaType)
  }

  /** `s.split(";")[0]`: the text before the first `;`. */
  function MediaType(s: string): (r: string)
    ensures r <= s
    ensures forall k :: 0 <= k < |r| ==> r[k] != ';'
    ensures |r| < |s| ==> s[|r|] == ';'
  {
    if s == [] || s[0] == ';' then [] else [s[0]] + MediaType(s[1..])
  }

  /** The gate as intended: the media type before any parameters is `text/html`. */
  predicate IsHtmlMediaType(mimetype: Option<string>) {
    mimetype.Some? && MediaType(mimetype.value) == HtmlMediaType
  }

  /** The intended gate accepts `text/html` alone or followed by parameters, and nothing
      else. */
  lemma HtmlMediaTypeIff(s: string)
    ensures IsHtmlMediaType(Some(s)) <==> s == HtmlMediaType || StartsWith(s, HtmlMediaType + ";")
  {
    if IsHtmlMediaType(Some(s)) {
      HtmlMediaTypeForms(s);
    }
    if s == HtmlMediaType || StartsWith(s, HtmlMediaType + ";") {
      HtmlMediaTypeAccepted(s);
    }
  }

  lemma HtmlMediaTypeForms(s: string)
    requires MediaType(s) == HtmlMediaType
    ensures s == HtmlMediaType || StartsWith(s, HtmlMediaType + ";")
  {
    if s != HtmlMediaType {
      assert s[..|HtmlMediaType|] == HtmlMediaType && s[|HtmlMediaType|] == ';';
      assert s[..|HtmlMediaType| + 1] == HtmlMediaType + ";";
    }
  }

  lemma HtmlMediaTypeAccepted(s: string)
    requires s == HtmlMediaType || StartsWith(s, HtmlMediaType + ";")
    ensures MediaType(s) == HtmlMediaType
  {
    if s != HtmlMediaType {
      assert s[|HtmlMediaType|] == (HtmlMediaType + ";")[|HtmlMediaType|] == ';';
      assert s[..|HtmlMediaType|] == (HtmlMediaType + ";")[..|HtmlMediaType|] == HtmlMediaType;
    }
    MediaTypeOfPrefix(s, HtmlMediaType);
  }

  /** Text before a `;` (or the whole text) that has no `;` is the media type. */
  lemma {:induction false} MediaTypeOfPrefix(s: string, t: string)
    requires t <= s && (|t| == |s| || s[|t|] == ';')
    requires forall k :: 0 <= k < |t| ==> t[k] != ';'
    ensures MediaType(s) == t
    decreases |t|
  {
    if t != [] {
      assert s[0] == t[0];
      MediaTypeOfPrefix(s[1..], t[1..]);
      assert t == [s[0]] + t[1..];
    }
  }

  /** A page served as `text/html; charset=utf-8` is passed over by the gate as written but
      let through by the intended one. */
  lemma CharsetMimetypeMissed()
    ensures !IsHtmlMimetype(Some("text/html; charset=utf-8"))
    ensures IsHtmlMediaType(Some("text/html; charset=utf-8"))
  {
    HtmlWithParameters(" charset=utf-8");
    assert HtmlMediaType + ";" + " charset=utf-8" == "text/html; charset=utf-8";
  }

  /** `text/html` followed by any parameters is missed as written and accepted as intended. */
  lemma HtmlWithParameters(params: string)
    ensures !IsHtmlMimetype(Some(HtmlMediaType + ";" + params))
    ensures IsHtmlMediaType(Some(HtmlMediaType + ";" + params))
  {
    var s := HtmlMediaType + ";" + params;
    assert s[..|HtmlMediaType|] == HtmlMediaType && s[|HtmlMediaType|] == ';';
    MediaTypeOfPrefix(s, HtmlMediaType);
  }

  /** The mimetype gate of a revision. */
  predicate IsHtml(rev: Revision, mimetype: Option<string>) {
    if rev == AsWritten then IsHtmlMimetype(mimetype) else IsHtmlMediaType(mimetype)
  }

  /** `simplifyResource`: a resource that is not HTML is returned untouched; otherwise its
      buffer is replaced in place by the simplified page. */
  method SimplifyResource(resource: Resources.Resource, url: string, codec: HtmlCodec, rev: Revision)
    returns (r: Result<Resources.Resource, NavError>)
    modifies resource
    ensures resource.status == old(resource.status) && resource.mimetype == old(resource.mimetype)
    ensures resource.compressedBuffer == old(resource.compressedBuffer)
    ensures !IsHtml(rev, resource.mimetype) ==> r == Ok(resource) && resource.buffer == old(resource.buffer)
    ensures IsHtml(rev, resource.mimetype) ==>
      var nav := Navigation(codec.parse(codec.decode(old(resource.buffer)), url), rev);
      if nav.Err? then r == Err(nav.error) && resource.buffer == old(resource.buffer)
      else r == Ok(resource) && resource.buffer == codec.encode(codec.serialize([NavElement(nav.value)]))
  {
    if rev == AsWritten && resource.mimetype != Some(HtmlMediaType) {
      return Ok(resource);
    }
    if rev == Intended && (resource.mimetype.None? || MediaType(resource.mimetype.value) != HtmlMediaType) {
      return Ok(resource);
    }
    var html := SimplifyHtml(codec.decode(resource.buffer), url, codec, rev);
    match html
    case Err(e) =>
      r := Err(e);
    case Ok(page) =>
      resource.buffer := codec.encode(page);
      r := Ok(resource);
  }
}
