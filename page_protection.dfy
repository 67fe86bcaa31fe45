/** src/handlers/page-protection.js: a page whose `teaser` meta tag has a non-blank content is
    protected as a whole, and the rewriter then replaces the content of its main element by a
    link to the teaser fragment. */
module PageProtection {
  import opened JsString
  import opened HtmlTree
  import Config
  import SectionProtection
  import Production

  datatype PageCheck = PageCheck(isPageProtected: bool, teaserPath: Option<string>)

  const TeaserMeta := AttrIs("meta", "name", "teaser")

  /** Lines 4-13: the content attribute of the first `meta[name='teaser']`, and whether it holds
      something other than white space; the path is kept as written, untrimmed. */
  function CheckPageLevelProtection(doc: seq<Node>): PageCheck {
    var teaserContent := FirstAttr(doc, TeaserMeta, "content");
    PageCheck(teaserContent.Some? && Trim(teaserContent.value) != "", teaserContent)
  }

  /** The page check reads the first teaser meta tag of the document: its content is the path
      and the page is protected exactly when that content is not blank. */
  lemma PageCheckFirst(doc: seq<Node>, k: nat)
    requires k < |Elements(doc)| && Matches(TeaserMeta, Elements(doc)[k])
    requires forall j :: 0 <= j < k ==> !Matches(TeaserMeta, Elements(doc)[j])
    ensures var r := CheckPageLevelProtection(doc);
            r.teaserPath == Attr(Elements(doc)[k], "content")
            && (r.isPageProtected <==> r.teaserPath.Some? && !AllSpace(r.teaserPath.value))
  {
    FirstAttrAt(doc, TeaserMeta, "content", k);
    var c := Attr(Elements(doc)[k], "content");
    if c.Some? {
      TrimEmpty(c.value);
    }
  }

  /** A page without a teaser meta tag is not protected and has no teaser path. */
  lemma PageCheckNone(doc: seq<Node>)
    requires forall e <- Elements(doc) :: !Matches(TeaserMeta, e)
    ensures CheckPageLevelProtection(doc) == PageCheck(false, None)
  {
    FirstAttrNone(doc, TeaserMeta, "content");
  }

  /** Lines 15-19: the same markup as the section fragment, on the configured origin. */
  function GenerateFragmentHtml(teaserPath: string): string {
    SectionProtection.GenerateFragmentHtml(teaserPath, Config.AemOrigin)
  }

  /** The fragment's one link points at the teaser path and reads the origin followed by it. */
  lemma PageFragmentLink(teaserPath: string)
    requires '"' !in teaserPath && '<' !in teaserPath
    ensures Production.ParseLink(GenerateFragmentHtml(teaserPath), 17)
              == Some((teaserPath, Config.AemOrigin + teaserPath))
  {
    assert '<' !in Config.AemOrigin + teaserPath;
    SectionProtection.FragmentLink(teaserPath, Config.AemOrigin);
  }

  /** Lines 21-36: every outermost main now holds only the fragment (`HtmlTree.MainsHoldMarkup`,
      `HtmlTree.MainsKept`); the response keeps the origin's status and headers. */
  function ApplyPageLevelProtection(doc: seq<Node>, teaserPath: string): seq<Node> {
    SetMainContent(doc, GenerateFragmentHtml(teaserPath))
  }

  /** A protected page keeps every one of its outermost mains, now holding only the fragment, and
      keeps no other content inside a main. */
  lemma ProtectedPageMains(doc: seq<Node>, teaserPath: string)
    ensures var out := ApplyPageLevelProtection(doc, teaserPath);
            (forall d <- OuterMains(doc) :: Element(d.id, d.tag, d.attrs, [Markup(GenerateFragmentHtml(teaserPath))]) in Elements(out))
            && (forall e <- Elements(out) :: e.tag == "main" ==> e.children == [Markup(GenerateFragmentHtml(teaserPath))])
  {
    MainsKept(doc, GenerateFragmentHtml(teaserPath));
    MainsHoldMarkup(doc, GenerateFragmentHtml(teaserPath));
  }
}
