/** The string-scanning worker (platforms/akamai/src/main-standalone.js).

    `ProcessContent` follows `processContent` statement by statement: the gate test, the
    extraction of the first `<main>` element, the exec loop over every `<div…>` opening tag in
    the main content with the balanced scanner behind each, the removal of the sections whose
    `view` row excludes the viewer, the rebuilt `<main>`, then the same exec loop over the div
    opening tags whose class names the excluded audience and the removal of their text in
    reverse order.  The functions below state the result the loops compute; the lemmas after
    them state what that result is. */
module Standalone {
  import opened JsString
  import opened DivScanner
  import opened Patterns

  const AemOrigin := "https://main--www--example.aem.live"
  const BypassPaths: seq<string> := ["/fragments/", "/nav.plain.html", "/footer.plain.html", "/eds-config/"]
  const HtmlContentTypes: seq<string> := ["text/html"]

  // ---------------------------------------------------------------------------------------------
  // The gate.

  /** `/<meta\s+name=["']gated["']\s+content=["']true["']/i.test(html)`. */
  predicate Gated(html: string) {
    SearchPrim(GatedMeta, html, 0).Some?
  }

  // ---------------------------------------------------------------------------------------------
  // The exec loops and the balanced scanner behind each match.

  /** The two global patterns whose matches start a balanced scan: every `<div…>` opening tag
      (case-sensitive) or the div opening tags whose class value contains `target` (any case). */
  datatype Opener = AnyDiv | ClassNamed(target: string)

  /** The end of the opener's opening tag at offset `i`, if one starts there. */
  function OpenerAt(op: Opener, t: string, i: nat): (r: Option<nat>)
    ensures r.Some? ==> i + |Open| < r.value <= |t|
  {
    match op
    case AnyDiv => DivOpenTagAt(t, i)
    case ClassNamed(w) => MatchAt(ClassDiv(w), t, i)
  }

  function OpenerMatcher(op: Opener, t: string): nat -> Option<nat> {
    (i: nat) => OpenerAt(op, t, i)
  }

  /** `m` gives, for an offset of `t`, the end of an opening tag starting there. */
  ghost predicate TagMatcher(m: nat -> Option<nat>, t: string) {
    forall i: nat :: m(i).Some? ==> i + |Open| < m(i).value <= |t|
  }

  lemma OpenerMatcherTags(op: Opener, t: string)
    ensures TagMatcher(OpenerMatcher(op, t), t)
  {
    var m := OpenerMatcher(op, t);
    forall i: nat | m(i).Some? ensures i + |Open| < m(i).value <= |t| {
      assert m(i) == OpenerAt(op, t, i);
    }
  }

  /** A recorded element: where its opening tag starts and ends, and the end of its `</div>`. */
  datatype Span = Span(start: nat, tagEnd: nat, end: nat)

  predicate InText(t: string, sp: seq<Span>) {
    forall k :: 0 <= k < |sp| ==> sp[k].start < sp[k].tagEnd < sp[k].end <= |t|
  }

  /** The exec loop with `lastIndex == from` over the opening tags `m` finds: every opener it
      visits whose element the scanner closes, in the order visited.  The next search resumes at
      the end of the opening tag, so openers nested inside a recorded element are visited too. */
  function Spans(m: nat -> Option<nat>, t: string, from: nat): (r: seq<Span>)
    requires TagMatcher(m, t)
    ensures InText(t, r)
    ensures forall k :: 0 <= k < |r| ==> from <= r[k].start
    decreases |t| - from
  {
    match First(m, from, |t|)
    case None => []
    case Some(o) =>
      ScanCloseSound(t, o.1, 1);
      (match ScanClose(t, o.1, 1) case Some(e) => [Span(o.0, o.1, e)] case None => [])
      + Spans(m, t, o.1)
  }

  /** The recorded texts, `t.substring(divStart, pos)` for each span. */
  function Texts(t: string, sp: seq<Span>): (r: seq<string>)
    requires InText(t, sp)
    ensures |r| == |sp| && forall k :: 0 <= k < |sp| ==> r[k] == t[sp[k].start..sp[k].end]
  {
    seq(|sp|, k requires 0 <= k < |sp| => t[sp[k].start..sp[k].end])
  }

  /** One exec match: the text of its element, when the scanner closes it, comes before the
      texts recorded from the end of its opening tag on. */
  lemma TextsStep(m: nat -> Option<nat>, t: string, from: nat, o: (nat, nat))
    requires TagMatcher(m, t) && First(m, from, |t|) == Some(o)
    ensures ScanClose(t, o.1, 1).None? ==> Texts(t, Spans(m, t, from)) == Texts(t, Spans(m, t, o.1))
    ensures ScanClose(t, o.1, 1).Some? ==>
              o.0 <= ScanClose(t, o.1, 1).value <= |t|
              && Texts(t, Spans(m, t, from)) == [t[o.0..ScanClose(t, o.1, 1).value]] + Texts(t, Spans(m, t, o.1))
  {
    ScanCloseSound(t, o.1, 1);
    var rest := Spans(m, t, o.1);
    match ScanClose(t, o.1, 1)
    case None =>
    case Some(e) =>
      assert Spans(m, t, from) == [Span(o.0, o.1, e)] + rest;
      TextsCons(t, Span(o.0, o.1, e), rest);
  }

  lemma TextsCons(t: string, s: Span, rest: seq<Span>)
    requires InText(t, [s] + rest)
    ensures InText(t, rest) && s.start <= s.end <= |t|
    ensures Texts(t, [s] + rest) == [t[s.start..s.end]] + Texts(t, rest)
  {
    var sp := [s] + rest;
    assert sp[0] == s;
    assert forall k :: 0 <= k < |rest| ==> rest[k] == sp[k + 1];
  }

  /** The spans the exec loop of the opener `op` records in `t`. */
  function OpenerSpans(op: Opener, t: string): (r: seq<Span>)
    ensures InText(t, r)
  {
    OpenerMatcherTags(op, t);
    Spans(OpenerMatcher(op, t), t, 0)
  }

  /** Lines 36-66 and 89-119: the exec loop, the scanner behind each match, and the texts the
      closed elements span. */
  method CollectSpans(m: nat -> Option<nat>, t: string) returns (texts: seq<string>)
    requires TagMatcher(m, t)
    ensures texts == Texts(t, Spans(m, t, 0))
  {
    texts := [];
    var lastIndex := 0;
    var found := First(m, lastIndex, |t|);
    while found.Some?
      invariant lastIndex <= |t|
      invariant found == First(m, lastIndex, |t|)
      invariant texts + Texts(t, Spans(m, t, lastIndex)) == Texts(t, Spans(m, t, 0))
      decreases |t| - lastIndex
    {
      var divStart := found.value.0;
      var tagEnd := found.value.1;
      var e := FindClosingEnd(t, tagEnd);
      TextsStep(m, t, lastIndex, found.value);
      if e.Some? {
        texts := texts + [t[divStart..e.value]];
      }
      lastIndex := tagEnd;
      found := First(m, lastIndex, |t|);
    }
  }

  // ---------------------------------------------------------------------------------------------
  // The section stage.

  /** The text captured by `(logged-in|logged-out)` in the first `view` row of a section. */
  function ViewValue(section: string): Option<string> {
    match SearchPrim(ViewRow, section, 0)
    case None => None
    case Some(f) => Some(section[f.hit.capStart..f.hit.capEnd])
  }

  /** Lines 69-77: the section carries metadata and its view value (compared exactly) names the
      audience the viewer is not in. */
  predicate ShouldRemoveSection(section: string, isAuthenticated: bool) {
    Includes(section, "section-metadata")
    && match ViewValue(section)
       case None => false
       case Some(v) => (isAuthenticated && v == "logged-out") || (!isAuthenticated && v == "logged-in")
  }

  /** Lines 68-82: the main content after each recorded section, in order, has had its first
      occurrence removed when the section excludes the viewer. */
  function RemoveSections(content: string, sections: seq<string>, isAuthenticated: bool): string
    decreases |sections|
  {
    if sections == [] then content
    else
      var before := RemoveSections(content, sections[..|sections| - 1], isAuthenticated);
      var section := sections[|sections| - 1];
      if ShouldRemoveSection(section, isAuthenticated) then ReplaceFirst(before, section, "") else before
  }

  /** The replacement text of line 84 for the matched element `m0`. */
  function MainReplacement(m0: string, newMainContent: string): string {
    "<main" + Substring(m0, 5, IndexOfOrMinus(m0, ">")) + ">" + newMainContent + "</main>"
  }

  /** Lines 36-82: the main content with every excluded section removed. */
  function NewMainContent(content: string, isAuthenticated: bool): string {
    RemoveSections(content, Texts(content, OpenerSpans(AnyDiv, content)), isAuthenticated)
  }

  /** Line 84: the first occurrence of the matched element's text replaced by the rebuilt one. */
  function RebuildMain(html: string, f: Found, newMainContent: string): string
    requires f.start <= f.hit.end <= |html|
  {
    var m0 := html[f.start..f.hit.end];
    ReplaceFirst(html, m0, MainReplacement(m0, newMainContent))
  }

  /** Lines 29-85: the document after the section stage. */
  function SectionStage(html: string, isAuthenticated: bool): string {
    match SearchPrim(MainElement, html, 0)
    case None => html
    case Some(f) => RebuildMain(html, f, NewMainContent(html[f.hit.capStart..f.hit.capEnd], isAuthenticated))
  }

  // ---------------------------------------------------------------------------------------------
  // The block stage.

  /** Line 88: the class of the blocks the viewer may not see. */
  function TargetClass(isAuthenticated: bool): string {
    if isAuthenticated then "logged-out" else "logged-in"
  }

  /** Lines 122-124: the first occurrence of each block's text removed, the last block first. */
  function RemoveReversed(s: string, blocks: seq<string>): string
    decreases |blocks|
  {
    if blocks == [] then s
    else RemoveReversed(ReplaceFirst(s, blocks[|blocks| - 1], ""), blocks[..|blocks| - 1])
  }

  /** Lines 87-124: the document after the block stage. */
  function BlockStage(html: string, isAuthenticated: bool): string {
    RemoveReversed(html, Texts(html, OpenerSpans(ClassNamed(TargetClass(isAuthenticated)), html)))
  }

  /** What `processContent` returns. */
  function Process(html: string, isAuthenticated: bool): string {
    if !Gated(html) then html
    else BlockStage(SectionStage(html, isAuthenticated), isAuthenticated)
  }

  /** Lines 68-82: the loop over the recorded sections. */
  method RemoveExcludedSections(mainContent: string, sections: seq<string>, isAuthenticated: bool)
    returns (newMainContent: string)
    ensures newMainContent == RemoveSections(mainContent, sections, isAuthenticated)
  {
    newMainContent := mainContent;
    for k := 0 to |sections|
      invariant newMainContent == RemoveSections(mainContent, sections[..k], isAuthenticated)
    {
      var section := sections[k];
      assert sections[..k + 1][..k] == sections[..k];
      if Includes(section, "section-metadata") {
        var viewMatch := SearchPrim(ViewRow, section, 0);
        if viewMatch.Some? {
          var viewValue := section[viewMatch.value.hit.capStart..viewMatch.value.hit.capEnd];
          var shouldRemove := (isAuthenticated && viewValue == "logged-out")
                              || (!isAuthenticated && viewValue == "logged-in");
          if shouldRemove {
            newMainContent := ReplaceFirst(newMainContent, section, "");
          }
        }
      }
    }
    assert sections[..|sections|] == sections;
  }

  /** Lines 29-85: the section stage. */
  method ApplySectionStage(html: string, isAuthenticated: bool) returns (processedHtml: string)
    ensures processedHtml == SectionStage(html, isAuthenticated)
  {
    processedHtml := html;
    var mainMatch := SearchPrim(MainElement, processedHtml, 0);
    if mainMatch.Some? {
      var f := mainMatch.value;
      var mainContent := processedHtml[f.hit.capStart..f.hit.capEnd];
      OpenerMatcherTags(AnyDiv, mainContent);
      var sections := CollectSpans(OpenerMatcher(AnyDiv, mainContent), mainContent);
      var newMainContent := RemoveExcludedSections(mainContent, sections, isAuthenticated);
      var m0 := processedHtml[f.start..f.hit.end];
      processedHtml := ReplaceFirst(processedHtml, m0, MainReplacement(m0, newMainContent));
    }
  }

  /** Lines 121-124: the texts removed in reverse order. */
  method RemoveInReverse(html: string, blocksToRemove: seq<string>) returns (processedHtml: string)
    ensures processedHtml == RemoveReversed(html, blocksToRemove)
  {
    processedHtml := html;
    var k := |blocksToRemove|;
    assert blocksToRemove[..k] == blocksToRemove;
    while k > 0
      invariant 0 <= k <= |blocksToRemove|
      invariant RemoveReversed(processedHtml, blocksToRemove[..k]) == RemoveReversed(html, blocksToRemove)
    {
      assert blocksToRemove[..k][..k - 1] == blocksToRemove[..k - 1];
      processedHtml := ReplaceFirst(processedHtml, blocksToRemove[k - 1], "");
      k := k - 1;
    }
    assert blocksToRemove[..0] == [];
  }

  /** Lines 87-124: the block stage. */
  method ApplyBlockStage(html: string, isAuthenticated: bool) returns (processedHtml: string)
    ensures processedHtml == BlockStage(html, isAuthenticated)
  {
    var targetClass := TargetClass(isAuthenticated);
    OpenerMatcherTags(ClassNamed(targetClass), html);
    var blocksToRemove := CollectSpans(OpenerMatcher(ClassNamed(targetClass), html), html);
    processedHtml := RemoveInReverse(html, blocksToRemove);
  }

  /** `processContent`, lines 23-127. */
  method ProcessContent(html: string, isAuthenticated: bool) returns (out: string)
    ensures out == Process(html, isAuthenticated)
    ensures !Gated(html) ==> out == html
  {
    if SearchPrim(GatedMeta, html, 0).None? {
      return html;
    }
    var processedHtml := ApplySectionStage(html, isAuthenticated);
    out := ApplyBlockStage(processedHtml, isAuthenticated);
  }
}
