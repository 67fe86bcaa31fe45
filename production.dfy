/** The regex-based worker (platforms/akamai/src/main-production.js): a literal-substring gate,
    then page, section and block protection tried in that order on the original document, the
    first stage that reports a modification giving the response.  Each regular expression is one
    of the hand-written patterns of `Patterns`; a global `replace` with a callback is
    `ReplaceMatches`, which also counts the callback's calls (the `modified = true` inside it). */
module Production {
  import opened JsString
  import opened Patterns
  import opened PatternFacts

  const AemOrigin := "https://main--www--cmegroup.aem.live"
  const DefaultSectionTeaser := "/fragments/teasers/content-teaser"
  const DefaultBlockTeaser := "/fragments/teasers/block-teaser"
  const BypassPaths: seq<string> := ["/fragments/", "/nav.plain.html", "/footer.plain.html", "/eds-config/"]
  const HtmlContentTypes: seq<string> := ["text/html"]

  // ---------------------------------------------------------------------------------------------
  // The gate and the teaser markup.

  /** Lines 45-48: both literal attribute texts occur somewhere in the document. */
  predicate NeedsProtection(html: string) {
    Includes(html, "name=\"protected\"") && Includes(html, "content=\"true\"")
  }

  lemma NeedsProtectionIff(html: string)
    ensures NeedsProtection(html) <==>
              (exists p :: At(html, "name=\"protected\"", p, false))
              && (exists q :: At(html, "content=\"true\"", q, false))
  {
    IncludesSpec(html, "name=\"protected\"");
    IncludesSpec(html, "content=\"true\"");
  }

  /** `<a href="T">X</a>`. */
  function Anchor(target: string, text: string): string {
    "<a href=\"" + target + "\">" + text + "</a>"
  }

  /** The link to a teaser fragment: its path as the target, the origin and the path as text. */
  function Link(teaserPath: string): string {
    Anchor(teaserPath, AemOrigin + teaserPath)
  }

  /** Lines 55-57. */
  function TeaserHtml(teaserPath: string): string {
    "<div><p>" + Link(teaserPath) + "</p></div>"
  }

  /** Line 129: the paragraph a protected teaser block is replaced with. */
  function BlockLinkHtml(teaserPath: string): string {
    "<p>" + Link(teaserPath) + "</p>"
  }

  /** Reading a link back: `<a href="T">X</a>` at `i`, with T up to the first `"` and X up to
      the first `<`. */
  function ParseLink(s: string, i: nat): Option<(string, string)> {
    if !At(s, "<a href=\"", i, false) then None
    else match Find(s, "\"", i + 9, false)
      case None => None
      case Some(q) =>
        if !At(s, "\">", q, false) then None
        else match Find(s, "<", q + 2, false)
          case None => None
          case Some(c) => if At(s, "</a>", c, false) then Some((s[i + 9..q], s[q + 2..c])) else None
  }

  /** `ParseLink` reads the target up to the closing quote and the text up to the `</a>`. */
  lemma ParseLinkAt(s: string, i: nat, target: string, text: string)
    requires '"' !in target && '<' !in text
    requires At(s, "<a href=\"", i, false)
    requires i + 9 + |target| <= |s| && s[i + 9..i + 9 + |target|] == target
    requires At(s, "\">", i + 9 + |target|, false)
    requires i + 11 + |target| + |text| <= |s| && s[i + 11 + |target|..i + 11 + |target| + |text|] == text
    requires At(s, "</a>", i + 11 + |target| + |text|, false)
    ensures ParseLink(s, i) == Some((target, text))
  {
    var q := i + 9 + |target|;
    var c := q + 2 + |text|;
    AtChars(s, "\"", q, false);
    AtChars(s, "\">", q, false);
    forall x | i + 9 <= x < q ensures !At(s, "\"", x, false) {
      AtChars(s, "\"", x, false);
      assert s[x] == target[x - i - 9];
    }
    FindAt(s, "\"", i + 9, q);
    AtChars(s, "<", c, false);
    AtChars(s, "</a>", c, false);
    forall x | q + 2 <= x < c ensures !At(s, "<", x, false) {
      AtChars(s, "<", x, false);
      assert s[x] == text[x - q - 2];
    }
    FindAt(s, "<", q + 2, c);
  }

  /** A text written between two others is the slice where it was written. */
  lemma SliceOfConcat(a: string, m: string, b: string)
    ensures (a + m + b)[|a|..|a| + |m|] == m
  {
  }

  /** Where the pieces of an anchor written between `pre` and `post` sit. */
  lemma AnchorOpens(pre: string, target: string, text: string, post: string)
    ensures At(pre + Anchor(target, text) + post, "<a href=\"", |pre|, false)
  {
    assert pre + Anchor(target, text) + post == pre + "<a href=\"" + (target + "\">" + text + "</a>" + post);
    AtConcat(pre, "<a href=\"", target + "\">" + text + "</a>" + post);
  }

  lemma AnchorTarget(pre: string, target: string, text: string, post: string)
    ensures var s := pre + Anchor(target, text) + post;
            |pre| + 9 + |target| <= |s| && s[|pre| + 9..|pre| + 9 + |target|] == target
  {
    var a := pre + "<a href=\"";
    assert pre + Anchor(target, text) + post == a + target + ("\">" + text + "</a>" + post);
    SliceOfConcat(a, target, "\">" + text + "</a>" + post);
  }

  lemma AnchorQuote(pre: string, target: string, text: string, post: string)
    ensures At(pre + Anchor(target, text) + post, "\">", |pre| + 9 + |target|, false)
  {
    var a := pre + "<a href=\"" + target;
    assert pre + Anchor(target, text) + post == a + "\">" + (text + "</a>" + post);
    AtConcat(a, "\">", text + "</a>" + post);
  }

  lemma AnchorText(pre: string, target: string, text: string, post: string)
    ensures var s := pre + Anchor(target, text) + post;
            var k := |pre| + 11 + |target|;
            k + |text| <= |s| && s[k..k + |text|] == text
  {
    var a := pre + "<a href=\"" + target + "\">";
    assert pre + Anchor(target, text) + post == a + text + ("</a>" + post);
    SliceOfConcat(a, text, "</a>" + post);
  }

  lemma AnchorCloses(pre: string, target: string, text: string, post: string)
    ensures At(pre + Anchor(target, text) + post, "</a>", |pre| + 11 + |target| + |text|, false)
  {
    var a := pre + "<a href=\"" + target + "\">" + text;
    assert pre + Anchor(target, text) + post == a + "</a>" + post;
    AtConcat(a, "</a>", post);
  }

  /** An anchor reads back as its target and text, when the target holds no `"` and the text
      no `<`. */
  lemma AnchorRoundTrip(pre: string, target: string, text: string, post: string)
    requires '"' !in target && '<' !in text
    ensures ParseLink(pre + Anchor(target, text) + post, |pre|) == Some((target, text))
  {
    AnchorOpens(pre, target, text, post);
    AnchorTarget(pre, target, text, post);
    AnchorQuote(pre, target, text, post);
    AnchorText(pre, target, text, post);
    AnchorCloses(pre, target, text, post);
    ParseLinkAt(pre + Anchor(target, text) + post, |pre|, target, text);
  }

  /** A teaser link, wherever it is written, reads back as its path and the origin followed by
      that path, when the path holds no `"` and no `<`. */
  lemma LinkRoundTrip(pre: string, teaserPath: string, post: string)
    requires '"' !in teaserPath && '<' !in teaserPath
    ensures ParseLink(pre + Link(teaserPath) + post, |pre|) == Some((teaserPath, AemOrigin + teaserPath))
  {
    assert '<' !in AemOrigin;
    AnchorRoundTrip(pre, teaserPath, AemOrigin + teaserPath, post);
  }

  /** The teaser markup carries its link right after `<div><p>`. */
  lemma TeaserHtmlLink(teaserPath: string)
    requires '"' !in teaserPath && '<' !in teaserPath
    ensures ParseLink(TeaserHtml(teaserPath), 8) == Some((teaserPath, AemOrigin + teaserPath))
  {
    LinkRoundTrip("<div><p>", teaserPath, "</p></div>");
    assert TeaserHtml(teaserPath) == "<div><p>" + Link(teaserPath) + "</p></div>";
  }

  // ---------------------------------------------------------------------------------------------
  // Page protection.

  /** What a protection stage returns. */
  datatype Outcome = Outcome(modified: bool, html: string)

  /** `s.replace(re, repl)` with a non-global pattern and a replacement string: the leftmost
      match replaced by the expansion of `repl` (the pattern has no capture group). */
  function ReplacePrimFirst(s: string, pr: Prim, repl: string): string {
    match SearchPrim(pr, s, 0)
    case None => s
    case Some(f) => s[..f.start] + Expand(repl, s[f.start..f.hit.end], s, f.start) + s[f.hit.end..]
  }

  /** Line 75: the replacement for the page's `<main>` element. */
  function MainTeaser(teaserPath: string): string {
    "<main>" + TeaserHtml(teaserPath) + "</main>"
  }

  /** Lines 64-82. */
  function PageProtection(html: string): Outcome {
    match SearchPrim(TeaserMeta, html, 0)
    case None => Outcome(false, html)
    case Some(t) =>
      var teaserPath := html[t.hit.capStart..t.hit.capEnd];
      Outcome(true, ReplacePrimFirst(html, MainElement, MainTeaser(teaserPath)))
  }

  /** Without a teaser meta tag anywhere the page stage reports nothing and keeps the document. */
  lemma PageUnprotected(html: string)
    requires forall i: nat :: TeaserMetaAt(html, i).None?
    ensures PageProtection(html) == Outcome(false, html)
  {
    match SearchPrim(TeaserMeta, html, 0)
    case None =>
    case Some(t) =>
      assert false;
  }

  /** The teaser path of the first teaser meta tag is its `content` value: not empty, and free of
      quotes. */
  lemma TeaserMetaPath(html: string, t: Found)
    requires SearchPrim(TeaserMeta, html, 0) == Some(t)
    ensures t.hit.capStart < t.hit.capEnd
    ensures forall x :: t.hit.capStart <= x < t.hit.capEnd ==> html[x] != '"' && html[x] != '\''
  {
    PrimAtTeaserMeta(html, t.start);
  }

  /** With a teaser meta tag the page stage always reports a modification, even when there is
      no `<main>` to replace and the document comes back as it is. */
  lemma PageProtected(html: string, t: Found)
    requires SearchPrim(TeaserMeta, html, 0) == Some(t)
    ensures PageProtection(html).modified
    ensures SearchPrim(MainElement, html, 0).None? ==> PageProtection(html).html == html
  {
  }

  /** The teaser markup of a path without `$` holds no `$`, so `replace` inserts it as written. */
  lemma MainTeaserDollarFree(teaserPath: string)
    requires '$' !in teaserPath
    ensures DollarFree(MainTeaser(teaserPath))
  {
    assert '$' !in AemOrigin;
  }

  /** A replacement string without `$` is inserted as written in place of the leftmost match. */
  lemma ReplacePrimFirstAt(s: string, pr: Prim, repl: string, f: Found)
    requires SearchPrim(pr, s, 0) == Some(f) && DollarFree(repl)
    ensures ReplacePrimFirst(s, pr, repl) == s[..f.start] + repl + s[f.hit.end..]
  {
  }

  /** The page stage replaces the first `<main…>…</main>` by `<main>` and the teaser, and keeps
      everything before and after it. */
  lemma PageReplacesMain(html: string, t: Found, f: Found)
    requires SearchPrim(TeaserMeta, html, 0) == Some(t) && SearchPrim(MainElement, html, 0) == Some(f)
    requires '$' !in html[t.hit.capStart..t.hit.capEnd]
    ensures PageProtection(html).html
            == html[..f.start] + MainTeaser(html[t.hit.capStart..t.hit.capEnd]) + html[f.hit.end..]
  {
    MainTeaserDollarFree(html[t.hit.capStart..t.hit.capEnd]);
    ReplacePrimFirstAt(html, MainElement, MainTeaser(html[t.hit.capStart..t.hit.capEnd]), f);
  }

  // ---------------------------------------------------------------------------------------------
  // Global replacement with a callback.

  /** The three callbacks: a protected section becomes its teaser, a protected teaser block
      becomes its link paragraph, and an ID-protected block is erased. */
  datatype Render = SectionTeaser | BlockTeaser | Erase

  /** Lines 101-102: the value of the section's `teaser` row, else the default. */
  function SectionTeaserPath(section: string): string {
    match SearchPrim(TeaserRow, section, 0)
    case None => DefaultSectionTeaser
    case Some(f) => Trim(section[f.hit.capStart..f.hit.capEnd])
  }

  /** Lines 126-127: the first cell text naming a fragment or teaser path, trimmed, else the
      default. */
  function BlockTeaserPath(block: string): string {
    match SearchPrim(FragmentCell, block, 0)
    case None => DefaultBlockTeaser
    case Some(f) => Trim(block[f.hit.capStart..f.hit.capEnd])
  }

  function Replacement(rd: Render, matched: string): string {
    match rd
    case SectionTeaser => TeaserHtml(SectionTeaserPath(matched))
    case BlockTeaser => BlockLinkHtml(BlockTeaserPath(matched))
    case Erase => ""
  }

  /** The text a global replacement produces, and how often its callback ran. */
  datatype Replaced = Replaced(text: string, calls: nat)

  /** `s.replace(re, callback)` with a global pattern, from `lastIndex == from`: every match,
      found left to right in the original text with each search resuming at the end of the
      previous match, replaced by what the callback returns; and how often it was called. */
  function ReplaceMatches(p: Pattern, s: string, from: nat, rd: Render): Replaced
    requires from <= |s|
    decreases |s| - from
  {
    var m := Search(p, s, from);
    if m.None? then Replaced(s[from..], 0)
    else
      var i := m.value.0;
      var e := m.value.1;
      var rest := ReplaceMatches(p, s, e, rd);
      Replaced(s[from..i] + Replacement(rd, s[i..e]) + rest.text, rest.calls + 1)
  }

  /** The callback runs exactly when the pattern matches somewhere from `from` on, and when it
      never runs the text is the original. */
  lemma ReplaceMatchesNone(p: Pattern, s: string, from: nat, rd: Render)
    requires from <= |s|
    ensures var r := ReplaceMatches(p, s, from, rd);
            (r.calls == 0 <==> forall i :: from <= i ==> MatchAt(p, s, i).None?)
            && (r.calls == 0 ==> r.text == s[from..])
  {
    SearchLeftmost(p, s, from);
  }

  /** Erasing the matches shortens the text exactly when there is one. */
  lemma {:induction false} EraseShrinks(p: Pattern, s: string, from: nat)
    requires from <= |s|
    ensures var r := ReplaceMatches(p, s, from, Erase);
            |r.text| <= |s| - from && (r.calls > 0 ==> |r.text| < |s| - from)
    decreases |s| - from
  {
    match Search(p, s, from)
    case None =>
    case Some((i, e)) =>
      EraseShrinks(p, s, e);
  }

  /** The text changes under erasure exactly when the pattern matches. */
  lemma EraseChanges(p: Pattern, s: string)
    ensures ReplaceMatches(p, s, 0, Erase).text != s <==> exists i :: MatchAt(p, s, i).Some?
  {
    EraseShrinks(p, s, 0);
    ReplaceMatchesNone(p, s, 0, Erase);
    assert s[0..] == s;
  }

  // ---------------------------------------------------------------------------------------------
  // Section and block protection.

  /** Lines 89-108. */
  function SectionProtection(html: string): Outcome {
    var r := ReplaceMatches(ProtectedSection, html, 0, SectionTeaser);
    Outcome(r.calls > 0, r.text)
  }

  /** The section stage reports a modification exactly when a protected section matches, and
      otherwise returns the document as it is. */
  lemma SectionModified(html: string)
    ensures var r := SectionProtection(html);
            (r.modified <==> exists i :: MatchAt(ProtectedSection, html, i).Some?)
            && (!r.modified ==> r.html == html)
  {
    ReplaceMatchesNone(ProtectedSection, html, 0, SectionTeaser);
    assert html[0..] == html;
  }

  /** A section's teaser path is the default, or exactly the word in its `teaser` row: not empty,
      and holding neither `<` nor white space. */
  lemma SectionTeaserPathShape(section: string)
    ensures match SearchPrim(TeaserRow, section, 0)
            case None => SectionTeaserPath(section) == DefaultSectionTeaser
            case Some(f) =>
              SectionTeaserPath(section) == section[f.hit.capStart..f.hit.capEnd]
              && f.hit.capStart < f.hit.capEnd
              && forall x :: f.hit.capStart <= x < f.hit.capEnd ==> section[x] != '<' && !IsSpace(section[x])
  {
    match SearchPrim(TeaserRow, section, 0)
    case None =>
    case Some(f) =>
      PrimAtTeaserRow(section, f.start);
      TrimNoSpace(section, f.hit.capStart, f.hit.capEnd);
  }

  /** A block's teaser path is the default, or the trimmed text of its first cell that names a
      `/fragments/` or `/teasers/` path; that text holds no `<`. */
  lemma BlockTeaserPathShape(block: string)
    ensures match SearchPrim(FragmentCell, block, 0)
            case None => BlockTeaserPath(block) == DefaultBlockTeaser
            case Some(f) =>
              BlockTeaserPath(block) == Trim(block[f.hit.capStart..f.hit.capEnd])
              && HasFragmentPath(block, f.hit.capStart, f.hit.capEnd)
              && forall x :: f.hit.capStart <= x < f.hit.capEnd ==> block[x] != '<'
  {
    match SearchPrim(FragmentCell, block, 0)
    case None =>
    case Some(f) =>
      FragmentCellCapture(block, f);
  }

  /** Lines 115-144: teaser blocks replaced by their links, then ID-protected blocks erased from
      the result. */
  function BlockProtection(html: string): Outcome {
    var teasers := ReplaceMatches(TeaserBlock, html, 0, BlockTeaser);
    var afterIds := ReplaceMatches(ProtectedIdBlock, teasers.text, 0, Erase).text;
    Outcome(teasers.calls > 0 || afterIds != teasers.text, afterIds)
  }

  /** The block stage reports a modification exactly when a protected teaser block matches in the
      document or an ID-protected block matches in what the first pass left; otherwise the
      document comes back as it is. */
  lemma BlockModified(html: string)
    ensures var r := BlockProtection(html);
            var afterTeasers := ReplaceMatches(TeaserBlock, html, 0, BlockTeaser).text;
            (r.modified <==> (exists i :: MatchAt(TeaserBlock, html, i).Some?)
                             || (exists i :: MatchAt(ProtectedIdBlock, afterTeasers, i).Some?))
            && (!r.modified ==> r.html == html)
  {
    ReplaceMatchesNone(TeaserBlock, html, 0, BlockTeaser);
    var afterTeasers := ReplaceMatches(TeaserBlock, html, 0, BlockTeaser).text;
    EraseChanges(ProtectedIdBlock, afterTeasers);
    assert html[0..] == html;
  }

  // ---------------------------------------------------------------------------------------------
  // The response.

  /** Lines 183-255: the body sent to the viewer once the origin returned an HTML document. */
  function Protect(html: string, isAuthenticated: bool): string {
    if !NeedsProtection(html) then html
    else if isAuthenticated then html
    else
      var page := PageProtection(html);
      if page.modified then page.html
      else
        var section := SectionProtection(html);
        if section.modified then section.html
        else
          var block := BlockProtection(html);
          if block.modified then block.html else html
  }

  /** A page with a teaser meta tag gets the page stage's document and nothing else. */
  lemma PageFirst(html: string, i: nat)
    requires NeedsProtection(html) && TeaserMetaAt(html, i).Some?
    ensures Protect(html, false) == PageProtection(html).html
  {
    SearchPrimLeftmost(TeaserMeta, html, 0);
    assert PrimAt(TeaserMeta, html, i) == TeaserMetaAt(html, i);
    PageProtected(html, SearchPrim(TeaserMeta, html, 0).value);
  }

  /** Without a teaser meta tag, a matching protected section decides the response, and the
      section stage runs on the original document. */
  lemma SectionSecond(html: string, i: nat)
    requires NeedsProtection(html) && forall k: nat :: TeaserMetaAt(html, k).None?
    requires MatchAt(ProtectedSection, html, i).Some?
    ensures Protect(html, false) == SectionProtection(html).html
  {
    PageUnprotected(html);
    SectionModified(html);
  }

  /** Without a teaser meta tag or a protected section, the block stage decides, again on the
      original document. */
  lemma BlockThird(html: string)
    requires NeedsProtection(html) && forall k: nat :: TeaserMetaAt(html, k).None?
    requires forall k :: MatchAt(ProtectedSection, html, k).None?
    ensures Protect(html, false) == BlockProtection(html).html
  {
    PageUnprotected(html);
    SectionModified(html);
    BlockModified(html);
  }

  /** Authenticated viewers, and documents without both gate texts, get the document unchanged;
      so does a document none of the four patterns matches. */
  lemma ProtectKeeps(html: string, isAuthenticated: bool)
    requires isAuthenticated || !NeedsProtection(html)
             || ((forall k: nat :: TeaserMetaAt(html, k).None?)
                 && (forall k :: MatchAt(ProtectedSection, html, k).None?)
                 && (forall k :: MatchAt(TeaserBlock, html, k).None?)
                 && (forall k :: MatchAt(ProtectedIdBlock, html, k).None?))
    ensures Protect(html, isAuthenticated) == html
  {
    if !isAuthenticated && NeedsProtection(html) {
      PageUnprotected(html);
      SectionModified(html);
      ReplaceMatchesNone(TeaserBlock, html, 0, BlockTeaser);
      assert html[0..] == html;
      ReplaceMatchesNone(ProtectedIdBlock, html, 0, Erase);
    }
  }

  /** What the worker answers with. */
  datatype Response = Origin(url: string) | Rendered(url: string, body: string)

  /** Lines 156-255, with the URL already parsed into its path and query and with the origin's
      content type and body as parameters. */
  function Respond(pathname: string, search: string, contentType: Option<string>, body: string,
                   isAuthenticated: bool): Response
  {
    var target := AemOrigin + pathname + search;
    if StartsWithAny(pathname, BypassPaths) then Origin(target)
    else if !IncludesAny(OrEmpty(contentType), HtmlContentTypes) then Origin(target)
    else Rendered(target, Protect(body, isAuthenticated))
  }

  /** A bypassed path, or a response that is not HTML, is the origin's own; an HTML response
      from a protected page is rewritten, and in every case the origin sees the same path and
      query. */
  lemma RespondCases(pathname: string, search: string, contentType: Option<string>, body: string,
                     isAuthenticated: bool)
    ensures var r := Respond(pathname, search, contentType, body, isAuthenticated);
            r.url == AemOrigin + pathname + search
            && (r.Origin? <==> StartsWithAny(pathname, BypassPaths)
                               || !IncludesAny(OrEmpty(contentType), HtmlContentTypes))
            && (r.Rendered? && (isAuthenticated || !NeedsProtection(body)) ==> r.body == body)
  {
    if !isAuthenticated && !NeedsProtection(body) {
      ProtectKeeps(body, isAuthenticated);
    }
  }
}
