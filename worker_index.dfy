/** src/index.js: the original single-file worker.  After the bypass and content-type checks it
    tries page, section and block protection in that order, each on the document parsed once;
    the page and block stages rewrite the document through the streaming rewriter, the section
    stage edits the markup as received. */
module WorkerIndex {
  import opened JsString
  import opened HtmlTree
  import BlockProtection
  import SectionProtection
  import Production

  // Lines 4-8: the worker's own configuration.
  const AemOrigin := "https://issue-20--www--cmegroup.aem.page"
  const DefaultPageTeaser := "/fragments/teasers/video-teaser"
  const DefaultSectionTeaser := "/fragments/teasers/section-teaser"
  const DefaultBlockTeaser := "/fragments/teasers/block-teaser"

  // ---------------------------------------------------------------------------------------------
  // Page-level protection (lines 79-112).

  datatype PageCheck = PageCheck(isProtected: bool, teaserPath: string)

  const VisibilityMeta := AttrIs("meta", "name", "visibility")
  const TeaserMeta := AttrIs("meta", "name", "teaser")

  /** Lines 79-88: the page is protected when its first visibility meta tag reads `protected`;
      the teaser path is the content of the first teaser meta tag, or the default when that is
      missing or empty. */
  function CheckPageLevelProtection(doc: seq<Node>): (r: PageCheck)
    ensures r.isProtected <==> FirstAttr(doc, VisibilityMeta, "content") == Some("protected")
    ensures r.teaserPath != ""
    ensures var c := FirstAttr(doc, TeaserMeta, "content");
            r.teaserPath == (if c == None || c == Some("") then DefaultPageTeaser else c.value)
  {
    var teaser := OrEmpty(FirstAttr(doc, TeaserMeta, "content"));
    PageCheck(FirstAttr(doc, VisibilityMeta, "content") == Some("protected"),
              if teaser == "" then DefaultPageTeaser else teaser)
  }

  /** A page whose first visibility meta tag is at `k` is protected exactly when that tag reads
      `protected`. */
  lemma PageVisibilityFirst(doc: seq<Node>, k: nat)
    requires k < |Elements(doc)| && Matches(VisibilityMeta, Elements(doc)[k])
    requires forall j :: 0 <= j < k ==> !Matches(VisibilityMeta, Elements(doc)[j])
    ensures CheckPageLevelProtection(doc).isProtected <==> Attr(Elements(doc)[k], "content") == Some("protected")
  {
    FirstAttrAt(doc, VisibilityMeta, "content", k);
  }

  /** A page without a teaser meta tag falls back to the default teaser. */
  lemma PageTeaserDefault(doc: seq<Node>)
    requires forall e <- Elements(doc) :: !Matches(TeaserMeta, e)
    ensures CheckPageLevelProtection(doc).teaserPath == DefaultPageTeaser
  {
    FirstAttrNone(doc, TeaserMeta, "content");
  }

  /** A page whose first teaser meta tag is at `k` with a non-empty content takes that content
      as its teaser path. */
  lemma PageTeaserFirst(doc: seq<Node>, k: nat, x: string)
    requires k < |Elements(doc)| && Matches(TeaserMeta, Elements(doc)[k])
    requires forall j :: 0 <= j < k ==> !Matches(TeaserMeta, Elements(doc)[j])
    requires Attr(Elements(doc)[k], "content") == Some(x) && x != ""
    ensures CheckPageLevelProtection(doc).teaserPath == x
  {
    FirstAttrAt(doc, TeaserMeta, "content", k);
  }

  const PageTeaserOpen := "\n            <div class=\"section\">\n              <div class=\"fragment\">\n                <div>\n                  "
  const PageTeaserClose := "\n                </div>\n              </div>\n            </div>\n          "

  /** Lines 94-102: a section holding a fragment that links to the teaser. */
  function PageTeaserHtml(teaserPath: string): string {
    PageTeaserOpen + Production.Anchor(teaserPath, "teaser") + PageTeaserClose
  }

  /** The page teaser's one link points at the teaser path. */
  lemma PageTeaserLink(teaserPath: string)
    requires '"' !in teaserPath
    ensures Production.ParseLink(PageTeaserHtml(teaserPath), |PageTeaserOpen|) == Some((teaserPath, "teaser"))
  {
    Production.AnchorRoundTrip(PageTeaserOpen, teaserPath, "teaser", PageTeaserClose);
  }

  /** Lines 90-112: every outermost main's content becomes the page teaser. */
  function ApplyPageLevelProtection(doc: seq<Node>, teaserPath: string): seq<Node> {
    SetMainContent(doc, PageTeaserHtml(teaserPath))
  }

  /** A protected page keeps every one of its outermost mains, now holding only the teaser, and
      keeps no other content inside a main. */
  lemma ProtectedPageMains(doc: seq<Node>, teaserPath: string)
    ensures var out := ApplyPageLevelProtection(doc, teaserPath);
            (forall d <- OuterMains(doc) :: Element(d.id, d.tag, d.attrs, [Markup(PageTeaserHtml(teaserPath))]) in Elements(out))
            && (forall e <- Elements(out) :: e.tag == "main" ==> e.children == [Markup(PageTeaserHtml(teaserPath))])
  {
    MainsKept(doc, PageTeaserHtml(teaserPath));
    MainsHoldMarkup(doc, PageTeaserHtml(teaserPath));
  }

  // ---------------------------------------------------------------------------------------------
  // Section-level protection (lines 114-199).

  type ProtectedSection = SectionProtection.ProtectedSection

  /** Lines 124-137: the section's `visibility` row reads `protected`. */
  predicate IsProtectedSection(el: Node) {
    MetaValue(el, "visibility") == Some("protected")
  }

  /** Lines 140-150: the value of the section's `teaser` row when it is not blank, otherwise the
      default. */
  function SectionTeaserPath(el: Node): (p: string)
    ensures p != ""
  {
    match MetaValue(el, "teaser")
    case Some(teaserText) => if teaserText != "" && Trim(teaserText) != "" then Trim(teaserText) else DefaultSectionTeaser
    case None => DefaultSectionTeaser
  }

  /** What the loop of lines 121-161 records for the divs it visits, in order. */
  function ProtectedSections(divs: seq<Node>): seq<ProtectedSection> {
    if divs == [] then []
    else
      ProtectedSections(divs[..|divs| - 1]) + SectionRecord(divs[|divs| - 1])
  }

  /** What one visited div adds: its record when it is protected. */
  function SectionRecord(el: Node): seq<ProtectedSection> {
    if IsProtectedSection(el) then [SectionProtection.ProtectedSection(OuterHtml(el), SectionTeaserPath(el))] else []
  }

  /** A record is kept for exactly the protected divs, with the markup and teaser path of each. */
  lemma {:induction false} ProtectedSectionsSpec(divs: seq<Node>)
    ensures forall r :: r in ProtectedSections(divs) <==>
              exists d <- divs :: IsProtectedSection(d) && r == SectionProtection.ProtectedSection(OuterHtml(d), SectionTeaserPath(d))
    ensures |ProtectedSections(divs)| <= |divs|
  {
    if divs != [] {
      var init, el := divs[..|divs| - 1], divs[|divs| - 1];
      assert divs == init + [el];
      var own := SectionRecord(el);
      assert ProtectedSections(divs) == ProtectedSections(init) + own;
      ProtectedSectionsSpec(init);
      forall r ensures r in ProtectedSections(divs) <==>
                 exists d <- divs :: IsProtectedSection(d) && r == SectionProtection.ProtectedSection(OuterHtml(d), SectionTeaserPath(d))
      {
        if r in ProtectedSections(divs) && r !in ProtectedSections(init) {
          assert r in own && el in divs;
        }
        if exists d <- divs :: IsProtectedSection(d) && r == SectionProtection.ProtectedSection(OuterHtml(d), SectionTeaserPath(d)) {
          var d :| d in divs && IsProtectedSection(d) && r == SectionProtection.ProtectedSection(OuterHtml(d), SectionTeaserPath(d));
          if d !in init {
            assert d == el && r in own;
          }
        }
      }
    }
  }

  /** Lines 114-167 on the divs below main elements (`$('main div')`); the counters of lines
      116-119 are never read. */
  method CheckSectionLevelProtection(doc: seq<Node>) returns (isProtected: bool, sections: seq<ProtectedSection>)
    ensures sections == ProtectedSections(MainDescendantDivs(doc, false)) && isProtected == (sections != [])
  {
    var protectedSections: seq<ProtectedSection> := [];
    var divs := MainDescendantDivs(doc, false);
    for i := 0 to |divs|
      invariant protectedSections == ProtectedSections(divs[..i])
    {
      assert divs[..i + 1][..i] == divs[..i];
      var section := divs[i];
      var visibilityValue := MetaValue(section, "visibility");
      if visibilityValue == Some("protected") {
        var teaserPath := DefaultSectionTeaser;
        var teaserText := MetaValue(section, "teaser");
        if teaserText.Some? && teaserText.value != "" && Trim(teaserText.value) != "" {
          teaserPath := Trim(teaserText.value);
        }
        protectedSections := protectedSections + [SectionProtection.ProtectedSection(OuterHtml(section), teaserPath)];
      }
    }
    assert divs[..|divs|] == divs;
    return protectedSections != [], protectedSections;
  }

  /** A section whose metadata, written in the authoring format, has a first `visibility` row
      reading `protected` is protected, with the value of its first `teaser` row as teaser path
      when that is not blank, or the default when no row carries `teaser`. */
  lemma AuthoredSection(id: nat, metaId: nat, rows: seq<(string, string)>, j: nat, t: Option<nat>)
    requires j < |rows| && rows[j] == ("visibility", "protected")
    requires forall k :: 0 <= k < j ==> RowMisses(rows[k], "visibility")
    requires t.Some? ==> t.value < |rows| && rows[t.value].0 == "teaser" && Trim("teaser" + rows[t.value].1) != "teaser"
                         && Trim(rows[t.value].1) != "" && forall k :: 0 <= k < t.value ==> RowMisses(rows[k], "teaser")
    requires t.None? ==> forall k :: 0 <= k < |rows| ==> RowMisses(rows[k], "teaser")
    ensures var s := SectionProtection.MetadataSection(id, metaId, rows);
            IsProtectedSection(s) && SectionTeaserPath(s) == if t.Some? then Trim(rows[t.value].1) else DefaultSectionTeaser
  {
    AuthoredVisibility(id, metaId, rows, j);
    AuthoredTeaserPath(id, metaId, rows, t);
  }

  lemma AuthoredTeaserPath(id: nat, metaId: nat, rows: seq<(string, string)>, t: Option<nat>)
    requires t.Some? ==> t.value < |rows| && rows[t.value].0 == "teaser" && Trim("teaser" + rows[t.value].1) != "teaser"
                         && Trim(rows[t.value].1) != "" && forall k :: 0 <= k < t.value ==> RowMisses(rows[k], "teaser")
    requires t.None? ==> forall k :: 0 <= k < |rows| ==> RowMisses(rows[k], "teaser")
    ensures SectionTeaserPath(SectionProtection.MetadataSection(id, metaId, rows))
            == if t.Some? then Trim(rows[t.value].1) else DefaultSectionTeaser
  {
    if t.Some? {
      SectionProtection.AuthoredTeaser(id, metaId, rows, t.value);
      var v := Trim(rows[t.value].1);
      assert [] + v + [] == v;
      TrimPadded([], v, []);
    } else {
      SectionProtection.RowsNoKey(rows, "teaser");
      SectionProtection.MetadataSectionValue(id, metaId, rows, "teaser");
    }
  }

  lemma AuthoredVisibility(id: nat, metaId: nat, rows: seq<(string, string)>, j: nat)
    requires j < |rows| && rows[j] == ("visibility", "protected")
    requires forall k :: 0 <= k < j ==> RowMisses(rows[k], "visibility")
    ensures MetaValue(SectionProtection.MetadataSection(id, metaId, rows), "visibility") == Some("protected")
  {
    VisibilityFixed("visibility");
    VisibilityFixed("protected");
    VisibilityFixed("visibilityprotected");
    assert "visibility" + "protected" == "visibilityprotected";
    RowsRoundTrip(rows, "visibility", j);
    SectionProtection.MetadataSectionValue(id, metaId, rows, "visibility");
  }

  lemma VisibilityFixed(s: string)
    requires s == "visibility" || s == "protected" || s == "visibilityprotected"
    ensures Trim(s) == s
  {
    TrimNoSpace(s, 0, |s|);
    assert s[0..|s|] == s;
  }

  /** Line 183: `s.match(/<div[^>]*>/)`: from the first `<div` to the first `>` after it.  When no
      `>` follows the first `<div`, none follows any later one either, so there is no match. */
  function DivStartTag(s: string): Option<string> {
    match IndexOf(s, "<div", 0)
    case None => None
    case Some(p) =>
      match IndexOf(s, ">", p + 4)
      case None => None
      case Some(q) => Some(s[p..q + 1])
  }

  /** The markup of a div whose attributes hold no `>` yields its own start tag. */
  lemma DivStartTagOf(n: Node)
    requires n.Element? && n.tag == "div" && '>' !in AttrsHtml(n.attrs)
    ensures DivStartTag(OuterHtml(n)) == Some(StartTag("div", n.attrs))
  {
    OuterHtmlStarts(n);
    assert StartTag("div", n.attrs) == "<div" + AttrsHtml(n.attrs) + ">";
    StartTagFound(OuterHtml(n), AttrsHtml(n.attrs));
  }

  /** Markup that opens with a div start tag whose attributes hold no `>` yields that tag. */
  lemma StartTagFound(s: string, a: string)
    requires '>' !in a && StartsWith(s, "<div" + a + ">")
    ensures DivStartTag(s) == Some("<div" + a + ">")
  {
    var st := "<div" + a + ">";
    var q := 4 + |a|;
    assert s[..|st|] == st;
    assert s[0..4] == st[0..4] == "<div";
    AtSlice(s, "<div", 0);
    FindAt(s, "<div", 0, 0);
    assert s[q..q + 1] == st[q..q + 1] == ">";
    AtSlice(s, ">", q);
    forall x | 4 <= x < q ensures !At(s, ">", x, false) {
      AtSlice(s, ">", x);
      assert s[x] == st[x] == a[x - 4];
      assert s[x..x + 1] == [s[x]];
    }
    FindAt(s, ">", 4, q);
    assert s[0..q + 1] == st;
  }

  const SectionTeaserOpen := "\n        <div class=\"fragment\">" + "\n          <div>\n            "
  const SectionTeaserClose := "\n          </div>" + "\n        </div>\n      "

  /** Lines 174-180. */
  function SectionTeaserHtml(teaserPath: string): string {
    SectionTeaserOpen + Production.Anchor(teaserPath, "teaser") + SectionTeaserClose
  }

  lemma SectionTeaserLink(teaserPath: string)
    requires '"' !in teaserPath
    ensures Production.ParseLink(SectionTeaserHtml(teaserPath), |SectionTeaserOpen|) == Some((teaserPath, "teaser"))
  {
    Production.AnchorRoundTrip(SectionTeaserOpen, teaserPath, "teaser", SectionTeaserClose);
  }

  /** Lines 186-188: the section's own start tag around a wrapper holding the teaser. */
  function SectionWithFragment(startTag: string, teaserPath: string): string {
    startTag + "<div class=\"section-wrapper\">" + SectionTeaserHtml(teaserPath) + "</div>" + "</div>"
  }

  /** The edits of lines 173-191 on the markup as received, as a value. */
  function ReplaceProtectedSections(html: string, sections: seq<ProtectedSection>): string {
    if sections == [] then html
    else
      var last := sections[|sections| - 1];
      var modifiedHtml := ReplaceProtectedSections(html, sections[..|sections| - 1]);
      match DivStartTag(last.elementHtml)
      case None => modifiedHtml
      case Some(startTag) => ReplaceFirst(modifiedHtml, last.elementHtml, SectionWithFragment(startTag, last.teaserPath))
  }

  /** Lines 169-199; the response keeps the origin's status and headers. */
  method ApplySectionLevelProtection(html: string, sections: seq<ProtectedSection>) returns (modifiedHtml: string)
    ensures modifiedHtml == ReplaceProtectedSections(html, sections)
  {
    modifiedHtml := html;
    for i := 0 to |sections|
      invariant modifiedHtml == ReplaceProtectedSections(html, sections[..i])
    {
      assert sections[..i + 1][..i] == sections[..i];
      var section := sections[i];
      var sectionStartMatch := DivStartTag(section.elementHtml);
      if sectionStartMatch.Some? {
        var sectionStartTag := sectionStartMatch.value;
        var sectionWithFragment := SectionWithFragment(sectionStartTag, section.teaserPath);
        modifiedHtml := ReplaceFirst(modifiedHtml, section.elementHtml, sectionWithFragment);
      }
    }
    assert sections[..|sections|] == sections;
  }

  /** A protected section found in the markup as received keeps its start tag, and its content
      becomes the wrapper holding the teaser; the text around it is kept. */
  lemma SectionKeepsStartTag(html: string, n: Node, teaserPath: string, p: nat)
    requires n.Element? && n.tag == "div" && '>' !in AttrsHtml(n.attrs)
    requires DollarFree(AttrsHtml(n.attrs)) && DollarFree(teaserPath)
    requires At(html, OuterHtml(n), p, false) && forall q :: 0 <= q < p ==> !At(html, OuterHtml(n), q, false)
    ensures ReplaceProtectedSections(html, [SectionProtection.ProtectedSection(OuterHtml(n), teaserPath)])
            == html[..p] + SectionWithFragment(StartTag("div", n.attrs), teaserPath) + html[p + |OuterHtml(n)|..]
  {
    var sec := SectionProtection.ProtectedSection(OuterHtml(n), teaserPath);
    assert [sec][..0] == [];
    DivStartTagOf(n);
    WrapperDollarFree(n.attrs, teaserPath);
    ReplaceFirstAt(html, OuterHtml(n), SectionWithFragment(StartTag("div", n.attrs), teaserPath), p);
  }

  lemma WrapperDollarFree(attrs: seq<Attribute>, teaserPath: string)
    requires DollarFree(AttrsHtml(attrs)) && DollarFree(teaserPath)
    ensures DollarFree(SectionWithFragment(StartTag("div", attrs), teaserPath))
  {
    TemplatesDollarFree();
    var anchor := Production.Anchor(teaserPath, "teaser");
    assert anchor == "<a href=\"" + teaserPath + "\">" + "teaser" + "</a>";
    assert DollarFree(anchor);
    assert DollarFree(SectionTeaserHtml(teaserPath));
    assert DollarFree(StartTag("div", attrs));
  }

  lemma TemplatesDollarFree()
    ensures DollarFree(SectionTeaserOpen) && DollarFree(SectionTeaserClose)
    ensures DollarFree("<div class=\"section-wrapper\">") && DollarFree("</div>")
  {
  }

  // ---------------------------------------------------------------------------------------------
  // Block-level protection (lines 201-241).

  datatype BlockCheck = BlockCheck(isProtected: bool, teaserPaths: seq<string>)

  /** The teaser paths of the protected blocks, one per block and in the same order. */
  function TeaserPaths(blocks: seq<Node>): seq<string> {
    MapNodes(blocks, BlockProtection.LastDivText)
  }

  /** Lines 202-214: one teaser path for every `div[class*='protected']` of the document. */
  method CheckBlockLevelProtection(doc: seq<Node>) returns (r: BlockCheck)
    ensures r.teaserPaths == TeaserPaths(Select(doc, BlockProtection.ProtectedDivs))
    ensures r.isProtected == (r.teaserPaths != [])
  {
    var teaserPaths: seq<string> := [];
    var blocks := Select(doc, BlockProtection.ProtectedDivs);
    for i := 0 to |blocks|
      invariant teaserPaths == TeaserPaths(blocks[..i])
    {
      MapNodesPrefix(blocks, BlockProtection.LastDivText, i);
      teaserPaths := teaserPaths + [BlockProtection.LastDivText(blocks[i])];
    }
    assert blocks[..|blocks|] == blocks;
    return BlockCheck(teaserPaths != [], teaserPaths);
  }

  /** The check records one path per protected div, the `k`-th being the trimmed text of that
      div's last descendant div, and finds protection exactly when some div is protected. */
  lemma BlockCheckSpec(doc: seq<Node>)
    ensures var blocks := Select(doc, BlockProtection.ProtectedDivs);
            var paths := TeaserPaths(blocks);
            |paths| == |blocks| && (paths != [] <==> exists e <- Elements(doc) :: Matches(BlockProtection.ProtectedDivs, e))
            && forall k :: 0 <= k < |blocks| ==> paths[k] == BlockProtection.LastDivText(blocks[k])
  {
    var blocks := Select(doc, BlockProtection.ProtectedDivs);
    forall k | 0 <= k < |blocks| ensures TeaserPaths(blocks)[k] == BlockProtection.LastDivText(blocks[k]) {
      MapNodesAt(blocks, BlockProtection.LastDivText, k);
    }
    if exists e <- Elements(doc) :: Matches(BlockProtection.ProtectedDivs, e) {
      var e :| e in Elements(doc) && Matches(BlockProtection.ProtectedDivs, e);
      assert e in blocks;
    }
  }

  /** A block that ends with a div holding only text has that text, trimmed, as its teaser path. */
  lemma LastDivTextOf(id: nat, tag: string, attrs: seq<Attribute>, pre: seq<Node>, lastId: nat, lastAttrs: seq<Attribute>, t: string)
    ensures BlockProtection.LastDivText(Element(id, tag, attrs, pre + [Element(lastId, "div", lastAttrs, [Text(t)])])) == Trim(t)
  {
    var last := Element(lastId, "div", lastAttrs, [Text(t)]);
    ElementsConcat(pre, [last]);
    assert [last][1..] == [] && [Text(t)][1..] == [];
    assert Elements([last]) == [last];
    FilterConcat(Elements(pre), [last], TagIs("div"));
    assert Filter([last], TagIs("div")) == [last];
    CellText(t);
  }

  const BlockTeaserOpen := "\n            <div class=\"fragment\">" + "\n              <div>\n                "
  const BlockTeaserClose := "\n              </div>" + "\n            </div>\n          "

  /** Lines 225-231. */
  function BlockTeaserHtml(path: string): string {
    BlockTeaserOpen + Production.Anchor(path, "teaser") + BlockTeaserClose
  }

  lemma BlockTeaserLink(path: string)
    requires '"' !in path
    ensures Production.ParseLink(BlockTeaserHtml(path), |BlockTeaserOpen|) == Some((path, "teaser"))
  {
    Production.AnchorRoundTrip(BlockTeaserOpen, path, "teaser", BlockTeaserClose);
  }

  /** Line 223: `protectionMetadata.teaserPaths[blockIndex] || fallback`: the recorded path when
      there is one and it is not empty, otherwise the fallback. */
  function PathAt(paths: seq<string>, blockIndex: nat, fallback: string): string {
    if blockIndex < |paths| && paths[blockIndex] != "" then paths[blockIndex] else fallback
  }

  /** The rewriter as it stands after a stretch of the document: what it wrote, and its counter. */
  datatype Rewrite = Rewrite(nodes: seq<Node>, blockIndex: nat)

  /** Lines 220-237: the rewriter visits the elements in document order and replaces each
      protected div, with its content, by a teaser on the next path; the content it replaces is
      not visited. */
  function RewriteBlocks(ns: seq<Node>, paths: seq<string>, blockIndex: nat, fallback: string): Rewrite
    decreases ns
  {
    if ns == [] then Rewrite([], blockIndex)
    else
      var head := RewriteNode(ns[0], paths, blockIndex, fallback);
      var rest := RewriteBlocks(ns[1..], paths, head.blockIndex, fallback);
      Rewrite(head.nodes + rest.nodes, rest.blockIndex)
  }

  /** What the rewriter writes for one node. */
  function RewriteNode(n: Node, paths: seq<string>, blockIndex: nat, fallback: string): Rewrite
    decreases n
  {
    match n
    case Element(id, tag, attrs, kids) =>
      if Matches(BlockProtection.ProtectedDivs, n) then
        Rewrite([Markup(BlockTeaserHtml(PathAt(paths, blockIndex, fallback)))], blockIndex + 1)
      else
        var inner := RewriteBlocks(kids, paths, blockIndex, fallback);
        Rewrite([Element(id, tag, attrs, inner.nodes)], inner.blockIndex)
    case _ => Rewrite([n], blockIndex)
  }

  /** The protected divs that are not inside another one, in document order: the ones the
      rewriter replaces. */
  function OuterProtected(ns: seq<Node>): seq<Node> {
    if ns == [] then []
    else
      (match ns[0]
       case Element(_, _, _, kids) => if Matches(BlockProtection.ProtectedDivs, ns[0]) then [ns[0]] else OuterProtected(kids)
       case _ => []) + OuterProtected(ns[1..])
  }

  /** The teasers the rewriter writes from counter `lo` up to `hi`, in order. */
  function Teasers(paths: seq<string>, lo: nat, hi: nat, fallback: string): (r: seq<string>)
    requires lo <= hi
    ensures |r| == hi - lo && forall j :: 0 <= j < hi - lo ==> r[j] == BlockTeaserHtml(PathAt(paths, lo + j, fallback))
    decreases hi - lo
  {
    if lo == hi then [] else [BlockTeaserHtml(PathAt(paths, lo, fallback))] + Teasers(paths, lo + 1, hi, fallback)
  }

  lemma {:induction false} TeasersSplit(paths: seq<string>, a: nat, b: nat, c: nat, fallback: string)
    requires a <= b <= c
    ensures Teasers(paths, a, c, fallback) == Teasers(paths, a, b, fallback) + Teasers(paths, b, c, fallback)
  {
    var l := Teasers(paths, a, c, fallback);
    var r := Teasers(paths, a, b, fallback) + Teasers(paths, b, c, fallback);
    assert |l| == |r|;
    forall j | 0 <= j < |l| ensures l[j] == r[j] {
      if j >= b - a {
        assert r[j] == Teasers(paths, b, c, fallback)[j - (b - a)];
      }
    }
  }

  /** The rewriter replaces exactly the outermost protected divs: its counter advances once for
      each, no protected div is left, and the teasers it writes are those of consecutive paths. */
  lemma {:induction false} RewriteBlocksSpec(ns: seq<Node>, paths: seq<string>, k: nat, fallback: string)
    requires Markups(ns) == []
    ensures var r := RewriteBlocks(ns, paths, k, fallback);
            r.blockIndex == k + |OuterProtected(ns)|
            && (forall e <- Elements(r.nodes) :: !Matches(BlockProtection.ProtectedDivs, e))
            && Markups(r.nodes) == Teasers(paths, k, r.blockIndex, fallback)
    decreases ns
  {
    if ns != [] {
      var n, tail := ns[0], ns[1..];
      assert ns == [n] + tail;
      MarkupsConcat([n], tail);
      RewriteNodeSpec(n, paths, k, fallback);
      var head := RewriteNode(n, paths, k, fallback);
      RewriteBlocksSpec(tail, paths, head.blockIndex, fallback);
      var rest := RewriteBlocks(tail, paths, head.blockIndex, fallback);
      RewriteJoin(head.nodes, rest.nodes, paths, k, head.blockIndex, rest.blockIndex, fallback);
      OuterProtectedCons(n, tail);
    }
  }

  /** `RewriteBlocksSpec` for one node. */
  lemma {:induction false} RewriteNodeSpec(n: Node, paths: seq<string>, k: nat, fallback: string)
    requires Markups([n]) == []
    ensures var h := RewriteNode(n, paths, k, fallback);
            h.blockIndex == k + |OuterProtected([n])|
            && (forall e <- Elements(h.nodes) :: !Matches(BlockProtection.ProtectedDivs, e))
            && Markups(h.nodes) == Teasers(paths, k, h.blockIndex, fallback)
    decreases n
  {
    assert [n][1..] == [];
    match n
    case Element(id, tag, attrs, kids) =>
      assert Markups([n]) == Markups(kids) + Markups([]);
      if !Matches(BlockProtection.ProtectedDivs, n) {
        RewriteBlocksSpec(kids, paths, k, fallback);
        var inner := RewriteBlocks(kids, paths, k, fallback);
        var e := Element(id, tag, attrs, inner.nodes);
        assert [e][1..] == [];
        assert Elements([e]) == [e] + Elements(inner.nodes) + Elements([]);
        assert Markups([e]) == Markups(inner.nodes) + Markups([]);
      }
    case Text(_) =>
    case Markup(_) =>
      assert false;
  }

  /** The step of `RewriteBlocksSpec`: what the first node's part and the rest's part write,
      put together. */
  lemma RewriteJoin(head: seq<Node>, rest: seq<Node>, paths: seq<string>, k: nat, m: nat, n: nat, fallback: string)
    requires k <= m <= n
    requires forall e <- Elements(head) :: !Matches(BlockProtection.ProtectedDivs, e)
    requires forall e <- Elements(rest) :: !Matches(BlockProtection.ProtectedDivs, e)
    requires Markups(head) == Teasers(paths, k, m, fallback)
    requires Markups(rest) == Teasers(paths, m, n, fallback)
    ensures forall e <- Elements(head + rest) :: !Matches(BlockProtection.ProtectedDivs, e)
    ensures Markups(head + rest) == Teasers(paths, k, n, fallback)
  {
    ElementsConcat(head, rest);
    MarkupsConcat(head, rest);
    TeasersSplit(paths, k, m, n, fallback);
  }

  /** No protected div lies inside another one. */
  predicate Unnested(ns: seq<Node>) {
    forall e <- Elements(ns) :: Matches(BlockProtection.ProtectedDivs, e) ==> Select(e.children, BlockProtection.ProtectedDivs) == []
  }

  /** When protected divs are not nested, the divs the rewriter replaces are exactly the ones the
      check found, in the same order, so the two counters stay aligned. */
  lemma {:induction false} OuterProtectedAll(ns: seq<Node>)
    requires Unnested(ns)
    ensures OuterProtected(ns) == Select(ns, BlockProtection.ProtectedDivs)
    decreases ns
  {
    var sel := BlockProtection.ProtectedDivs;
    if ns != [] {
      var n, rest := ns[0], ns[1..];
      assert ns == [n] + rest;
      ElementsConcat([n], rest);
      FilterConcat(Elements([n]), Elements(rest), sel);
      assert forall e <- Elements(rest) :: e in Elements(ns);
      OuterProtectedAll(rest);
      assert forall e <- Elements([n]) :: e in Elements(ns);
      if n.Element? && !Matches(sel, n) {
        assert Elements([n]) == [n] + Elements(n.children) + Elements([n][1..]);
        assert forall e <- Elements(n.children) :: e in Elements(ns);
        OuterProtectedAll(n.children);
      }
      OuterHead(n);
      OuterProtectedCons(n, rest);
    }
  }

  lemma OuterProtectedCons(n: Node, rest: seq<Node>)
    ensures OuterProtected([n] + rest) == OuterProtected([n]) + OuterProtected(rest)
  {
    assert ([n] + rest)[1..] == rest;
    assert [n][1..] == [];
  }

  /** The step of `OuterProtectedAll` for one node. */
  lemma OuterHead(n: Node)
    requires Unnested([n])
    requires n.Element? && !Matches(BlockProtection.ProtectedDivs, n) ==>
               OuterProtected(n.children) == Select(n.children, BlockProtection.ProtectedDivs)
    ensures OuterProtected([n]) == Filter(Elements([n]), BlockProtection.ProtectedDivs)
  {
    var sel := BlockProtection.ProtectedDivs;
    assert [n][1..] == [];
    if n.Element? {
      var kids := n.children;
      assert Elements([n]) == [n] + Elements(kids) + Elements([]);
      assert Elements([n]) == [n] + Elements(kids);
      FilterConcat([n], Elements(kids), sel);
      assert Select(kids, sel) == Filter(Elements(kids), sel);
      assert OuterProtected([n]) == (if Matches(sel, n) then [n] else OuterProtected(kids)) + OuterProtected([]);
      if Matches(sel, n) {
        assert n in Elements([n]);
        assert Filter([n], sel) == [n];
      } else {
        assert Filter([n], sel) == [];
      }
    }
  }

  /** Lines 217-241 with the fallback the code evidently means, the worker's default block
      teaser: every protected div, with its content, becomes a teaser. */
  function ApplyBlockLevelProtection(doc: seq<Node>, teaserPaths: seq<string>): seq<Node> {
    RewriteBlocks(doc, teaserPaths, 0, DefaultBlockTeaser).nodes
  }

  /** Lines 217-241 as written: line 223 reads the fallback from `this`, which inside the element
      handler is the handler object, so a block without a path links to `undefined`. */
  function ApplyBlockLevelProtectionAsWritten(doc: seq<Node>, teaserPaths: seq<string>): seq<Node> {
    RewriteBlocks(doc, teaserPaths, 0, "undefined").nodes
  }

  /** With the check's paths, and protected divs not nested, the `j`-th protected div becomes a
      teaser on its own last div's text, or on the default teaser when that text is empty; no
      protected div is left.  The document is assumed to hold no markup of its own yet. */
  lemma EachBlockGetsItsTeaser(doc: seq<Node>)
    requires Markups(doc) == [] && Unnested(doc)
    ensures var blocks := Select(doc, BlockProtection.ProtectedDivs);
            var out := ApplyBlockLevelProtection(doc, TeaserPaths(blocks));
            (forall e <- Elements(out) :: !Matches(BlockProtection.ProtectedDivs, e))
            && |Markups(out)| == |blocks|
            && forall j :: 0 <= j < |blocks| ==>
                 Markups(out)[j] == BlockTeaserHtml(if BlockProtection.LastDivText(blocks[j]) != ""
                                                    then BlockProtection.LastDivText(blocks[j]) else DefaultBlockTeaser)
  {
    var blocks := Select(doc, BlockProtection.ProtectedDivs);
    var paths := TeaserPaths(blocks);
    var r := RewriteBlocks(doc, paths, 0, DefaultBlockTeaser);
    RewriteBlocksSpec(doc, paths, 0, DefaultBlockTeaser);
    OuterProtectedAll(doc);
    assert r.blockIndex == |blocks|;
    var ms := Teasers(paths, 0, r.blockIndex, DefaultBlockTeaser);
    assert Markups(r.nodes) == ms;
    forall j | 0 <= j < |blocks|
      ensures ms[j] == BlockTeaserHtml(if BlockProtection.LastDivText(blocks[j]) != ""
                                       then BlockProtection.LastDivText(blocks[j]) else DefaultBlockTeaser)
    {
      MapNodesAt(blocks, BlockProtection.LastDivText, j);
      assert PathAt(paths, j, DefaultBlockTeaser)
             == (if BlockProtection.LastDivText(blocks[j]) != "" then BlockProtection.LastDivText(blocks[j]) else DefaultBlockTeaser);
    }
  }

  /** Every teaser the corrected rewriter writes links to a non-empty path: the one recorded for
      its block, or the default block teaser. */
  lemma BlockTeasersNonEmpty(doc: seq<Node>, teaserPaths: seq<string>)
    requires Markups(doc) == []
    ensures var ms := Markups(ApplyBlockLevelProtection(doc, teaserPaths));
            forall j :: 0 <= j < |ms| ==>
              (j < |teaserPaths| && teaserPaths[j] != "" && ms[j] == BlockTeaserHtml(teaserPaths[j]))
              || ms[j] == BlockTeaserHtml(DefaultBlockTeaser)
  {
    RewriteBlocksSpec(doc, teaserPaths, 0, DefaultBlockTeaser);
    var r := RewriteBlocks(doc, teaserPaths, 0, DefaultBlockTeaser);
    var ms := Teasers(teaserPaths, 0, r.blockIndex, DefaultBlockTeaser);
    forall j | 0 <= j < |ms|
      ensures (j < |teaserPaths| && teaserPaths[j] != "" && ms[j] == BlockTeaserHtml(teaserPaths[j]))
              || ms[j] == BlockTeaserHtml(DefaultBlockTeaser)
    {
      assert ms[j] == BlockTeaserHtml(PathAt(teaserPaths, j, DefaultBlockTeaser));
    }
  }

  /** A page made of one empty protected div. */
  const OneEmptyBlock := [Element(0, "div", [Attribute("class", "protected")], [])]

  /** The check records an empty path for it, and the rewriter writes the fallback's teaser. */
  lemma OneEmptyBlockRewritten(fallback: string)
    ensures TeaserPaths(Select(OneEmptyBlock, BlockProtection.ProtectedDivs)) == [""]
    ensures Html(RewriteBlocks(OneEmptyBlock, [""], 0, fallback).nodes) == BlockTeaserHtml(fallback)
  {
    var doc := OneEmptyBlock;
    assert Matches(BlockProtection.ProtectedDivs, doc[0]) by {
      assert ClassOf(doc[0]) == Some("protected");
    }
    assert Elements(doc) == [doc[0]];
    assert Select(doc, BlockProtection.ProtectedDivs) == [doc[0]];
    assert BlockProtection.LastDivText(doc[0]) == "";
    var h := BlockTeaserHtml(fallback);
    assert RewriteBlocks(OneEmptyBlock, [""], 0, fallback).nodes == [Markup(h)];
    assert Html([Markup(h)]) == h + Html([]);
  }

  /** A protected block whose last div is empty: as written its teaser links to `undefined`;
      corrected, to the default block teaser. */
  lemma UndefinedBlockTeaser()
    ensures var paths := TeaserPaths(Select(OneEmptyBlock, BlockProtection.ProtectedDivs));
            paths == [""]
            && Html(ApplyBlockLevelProtectionAsWritten(OneEmptyBlock, paths)) == BlockTeaserHtml("undefined")
            && Html(ApplyBlockLevelProtection(OneEmptyBlock, paths)) == BlockTeaserHtml(DefaultBlockTeaser)
            && Production.ParseLink(Html(ApplyBlockLevelProtectionAsWritten(OneEmptyBlock, paths)), |BlockTeaserOpen|)
               == Some(("undefined", "teaser"))
  {
    OneEmptyBlockRewritten("undefined");
    OneEmptyBlockRewritten(DefaultBlockTeaser);
    BlockTeaserLink("undefined");
  }

  // ---------------------------------------------------------------------------------------------
  // The request (lines 10-77).

  /** Which stage, if any, produced the page. */
  datatype Stage = PageLevel | SectionLevel | BlockLevel | Unprotected

  /** Header names are taken as the platform's `Headers` normalises them, in lower case. */
  type Headers = map<string, string>

  datatype Response =
    | HeaderFragment(url: string, headers: Headers)
    | Origin(url: string, headers: Headers)
    | Rendered(url: string, stage: Stage, body: string, headers: Headers)

  /** Lines 15, 55-77: fragment and navigation requests bypass protection. */
  predicate IsHeaderFragment(path: string) {
    StartsWith(path, "/fragments/") || StartsWith(path, "/nav.plain.html")
  }

  /** Lines 29-51: page, then section, then block protection, the first stage whose check finds
      protection producing the page; with none of them the page is passed through. */
  function Protect(html: string, doc: seq<Node>): (r: (Stage, string))
    ensures r.0 == PageLevel <==> CheckPageLevelProtection(doc).isProtected
    ensures r.0 == SectionLevel <==>
              !CheckPageLevelProtection(doc).isProtected && ProtectedSections(MainDescendantDivs(doc, false)) != []
    ensures r.0 == BlockLevel <==>
              !CheckPageLevelProtection(doc).isProtected && ProtectedSections(MainDescendantDivs(doc, false)) == []
              && Select(doc, BlockProtection.ProtectedDivs) != []
    ensures r.0 == Unprotected ==> r.1 == html
  {
    var page := CheckPageLevelProtection(doc);
    if page.isProtected then (PageLevel, Html(ApplyPageLevelProtection(doc, page.teaserPath)))
    else
      var sections := ProtectedSections(MainDescendantDivs(doc, false));
      if sections != [] then (SectionLevel, ReplaceProtectedSections(html, sections))
      else
        var paths := TeaserPaths(Select(doc, BlockProtection.ProtectedDivs));
        if paths != [] then (BlockLevel, Html(ApplyBlockLevelProtection(doc, paths)))
        else (Unprotected, html)
  }

  /** Lines 10-52, with the request's path, the origin's answer (its content type, headers, markup
      and the document parsed from it) as parameters.  The origin is asked for the path alone,
      the query being dropped; fragment requests come back with the origin's headers and an open
      `Access-Control-Allow-Origin`; other answers that are not HTML come back as they are; an
      HTML page is protected as `Protect` says, keeping the origin's headers. */
  function Fetch(pathname: string, contentType: Option<string>, originHeaders: Headers,
                 html: string, doc: seq<Node>): (r: Response)
    ensures r.url == AemOrigin + pathname
    ensures r.HeaderFragment? <==> IsHeaderFragment(pathname)
    ensures r.HeaderFragment? ==>
              r.headers == originHeaders["access-control-allow-origin" := "*"]
              && r.headers["access-control-allow-origin"] == "*"
              && forall h <- originHeaders :: h != "access-control-allow-origin" ==> h in r.headers && r.headers[h] == originHeaders[h]
    ensures r.Origin? <==> !IsHeaderFragment(pathname) && !Includes(OrEmpty(contentType), "text/html")
    ensures !r.HeaderFragment? ==> r.headers == originHeaders
    ensures r.Rendered? ==> (r.stage, r.body) == Protect(html, doc)
  {
    var aemUrl := AemOrigin + pathname;
    if IsHeaderFragment(pathname) then HeaderFragment(aemUrl, originHeaders["access-control-allow-origin" := "*"])
    else if !Includes(OrEmpty(contentType), "text/html") then Origin(aemUrl, originHeaders)
    else
      var (stage, body) := Protect(html, doc);
      Rendered(aemUrl, stage, body, originHeaders)
  }
}
