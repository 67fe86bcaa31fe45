/** platforms/cloudflare/src/index.js: a gated page loses the sections whose `view` metadata is
    meant for the other kind of visitor, and every other section loses the elements whose class
    names that kind.  The document is the element tree of `HtmlTree`; `removed` is its state. */
module CloudflareWorker {
  import opened JsString
  import opened HtmlTree

  const GatedMeta := AttrIs("meta", "name", "gated")

  /** Lines 8-9: the first `meta[name="gated"]` has the content `true`. */
  predicate IsGated(doc: seq<Node>) {
    FirstAttr(doc, GatedMeta, "content") == Some("true")
  }

  /** A page is gated exactly when its first gated meta tag says `true`. */
  lemma IsGatedFirst(doc: seq<Node>, k: nat)
    requires k < |Elements(doc)| && Matches(GatedMeta, Elements(doc)[k])
    requires forall j :: 0 <= j < k ==> !Matches(GatedMeta, Elements(doc)[j])
    ensures IsGated(doc) <==> Attr(Elements(doc)[k], "content") == Some("true")
  {
    FirstAttrAt(doc, GatedMeta, "content", k);
  }

  lemma NotGatedWithoutMeta(doc: seq<Node>)
    requires forall e <- Elements(doc) :: !Matches(GatedMeta, e)
    ensures !IsGated(doc)
  {
    FirstAttrNone(doc, GatedMeta, "content");
  }

  /** Lines 40 and 42: the elements meant for the other kind of visitor. */
  function Hidden(isAuthenticated: bool): Selector {
    ClassPart(None, if isAuthenticated then "logged-out" else "logged-in")
  }

  /** Lines 19-34: the section's `view` row names the other kind of visitor. */
  predicate ShouldRemove(section: Node, isAuthenticated: bool) {
    match MetaValue(section, "view")
    case Some(viewValue) => (isAuthenticated && viewValue == "logged-out") || (!isAuthenticated && viewValue == "logged-in")
    case None => false
  }

  /** What the loop of lines 17-45 has gathered: the identities removed so far and the sections
      to remove afterwards. */
  datatype Pass = Pass(removed: set<nat>, sectionsToRemove: seq<nat>)

  /** One iteration, on a section as the document first had it, seen as the removals so far
      left it. */
  function Visit(st: Pass, s: Node, isAuthenticated: bool): Pass
    requires s.Element?
  {
    var section := Current(s, st.removed);
    if ShouldRemove(section, isAuthenticated) then st.(sectionsToRemove := st.sectionsToRemove + [s.id])
    else st.(removed := st.removed + FindIds(section.children, Hidden(isAuthenticated)))
  }

  function VisitAll(ss: seq<Node>, isAuthenticated: bool): Pass
    requires forall s <- ss :: s.Element?
  {
    if ss == [] then Pass({}, []) else Visit(VisitAll(ss[..|ss| - 1], isAuthenticated), ss[|ss| - 1], isAuthenticated)
  }

  /** Everything lines 17-49 remove: what the loop removed and then the sections it set aside. */
  function Removal(ss: seq<Node>, isAuthenticated: bool): set<nat>
    requires forall s <- ss :: s.Element?
  {
    var p := VisitAll(ss, isAuthenticated);
    p.removed + IdSet(p.sectionsToRemove)
  }

  /** What lines 5-52 return: the page as it came when it is not gated, otherwise the
      serialisation of the document once everything removed is gone. */
  function ProcessContentSpec(html: string, doc: seq<Node>, isAuthenticated: bool): string {
    if IsGated(doc) then Html(Remove(doc, Removal(MainChildDivs(doc, false), isAuthenticated))) else html
  }

  /** Lines 5-52, with `load(html)` given as `doc`. */
  method ProcessContent(html: string, doc: seq<Node>, isAuthenticated: bool) returns (out: string)
    ensures out == ProcessContentSpec(html, doc, isAuthenticated)
  {
    var isGated := FirstAttr(doc, GatedMeta, "content") == Some("true");
    if !isGated {
      return html;
    }
    var sectionsToRemove: seq<nat> := [];
    var removed: set<nat> := {};
    var sectionEls := MainChildDivs(doc, false);
    for i := 0 to |sectionEls|
      invariant Pass(removed, sectionsToRemove) == VisitAll(sectionEls[..i], isAuthenticated)
    {
      VisitAllStep(sectionEls, i, isAuthenticated);
      var section := Current(sectionEls[i], removed);
      var shouldRemove := false;
      var viewValue := MetaValue(section, "view");
      if viewValue.Some? {
        shouldRemove := (isAuthenticated && viewValue.value == "logged-out") || (!isAuthenticated && viewValue.value == "logged-in");
        if shouldRemove {
          sectionsToRemove := sectionsToRemove + [sectionEls[i].id];
        }
      }
      // `includes` compares the wrapper object made in this iteration: it is found exactly when
      // it was pushed just above.
      var willBeRemoved := shouldRemove;
      if !willBeRemoved {
        removed := removed + FindIds(section.children, Hidden(isAuthenticated));
      }
    }
    assert sectionEls[..|sectionEls|] == sectionEls;
    for i := 0 to |sectionsToRemove|
      invariant removed == VisitAll(sectionEls, isAuthenticated).removed + IdSet(sectionsToRemove[..i])
    {
      assert sectionsToRemove[..i + 1][..i] == sectionsToRemove[..i];
      removed := removed + {sectionsToRemove[i]};
    }
    assert sectionsToRemove[..|sectionsToRemove|] == sectionsToRemove;
    out := Html(Remove(doc, removed));
  }

  lemma VisitAllStep(ss: seq<Node>, i: nat, isAuthenticated: bool)
    requires i < |ss| && forall s <- ss :: s.Element?
    ensures ss[i].Element? && forall s <- ss[..i] :: s.Element?
    ensures VisitAll(ss[..i + 1], isAuthenticated) == Visit(VisitAll(ss[..i], isAuthenticated), ss[i], isAuthenticated)
  {
    assert ss[..i + 1][..i] == ss[..i];
    assert forall s <- ss[..i] :: s in ss;
  }

  /** The identities a sequence lists. */
  function IdSet(xs: seq<nat>): (r: set<nat>)
    ensures forall x :: x in r <==> x in xs
  {
    if xs == [] then {} else IdSet(xs[..|xs| - 1]) + {xs[|xs| - 1]}
  }

  // ---------------------------------------------------------------------------------------------
  // What the pass removes.

  /** The section `ss[i]` is set aside when the loop reaches it, as the earlier iterations left it. */
  predicate Flagged(ss: seq<Node>, i: nat, isAuthenticated: bool)
    requires i < |ss| && forall s <- ss :: s.Element?
  {
    ShouldRemove(Current(ss[i], VisitAll(ss[..i], isAuthenticated).removed), isAuthenticated)
  }

  /** The sections set aside are exactly the flagged ones, in document order. */
  lemma {:induction false} SetAsideFlagged(ss: seq<Node>, isAuthenticated: bool)
    requires forall s <- ss :: s.Element?
    ensures forall x :: x in VisitAll(ss, isAuthenticated).sectionsToRemove <==>
              exists i :: 0 <= i < |ss| && ss[i].id == x && Flagged(ss, i, isAuthenticated)
  {
    if ss != [] {
      var n := |ss| - 1;
      var init := ss[..n];
      assert forall s <- init :: s in ss;
      SetAsideFlagged(init, isAuthenticated);
      SetAsideInduct(ss, isAuthenticated);
    }
  }

  lemma SetAsideInduct(ss: seq<Node>, isAuthenticated: bool)
    requires ss != [] && forall s <- ss :: s.Element?
    requires forall s <- ss[..|ss| - 1] :: s.Element?
    requires var init := ss[..|ss| - 1];
             forall x :: x in VisitAll(init, isAuthenticated).sectionsToRemove <==>
               exists i :: 0 <= i < |init| && init[i].id == x && Flagged(init, i, isAuthenticated)
    ensures forall x :: x in VisitAll(ss, isAuthenticated).sectionsToRemove <==>
              exists i :: 0 <= i < |ss| && ss[i].id == x && Flagged(ss, i, isAuthenticated)
  {
    var n := |ss| - 1;
    var init := ss[..n];
    SetAsideStep(ss, isAuthenticated);
    var all := VisitAll(ss, isAuthenticated).sectionsToRemove;
    var before := VisitAll(init, isAuthenticated).sectionsToRemove;
    var flags := seq(|ss|, i requires 0 <= i < |ss| => Flagged(ss, i, isAuthenticated));
    forall i | 0 <= i < n ensures init[i] == ss[i] && (Flagged(init, i, isAuthenticated) <==> flags[i]) {
      FlaggedPrefix(ss, i, n, isAuthenticated);
    }
    ListsFlagged(all, before, ss, flags);
  }

  /** The step of `SetAsideFlagged` on the flags alone. */
  lemma ListsFlagged(all: seq<nat>, before: seq<nat>, ss: seq<Node>, flags: seq<bool>)
    requires |flags| == |ss| > 0 && forall s <- ss :: s.Element?
    requires forall x :: x in before <==> exists i :: 0 <= i < |ss| - 1 && ss[i].id == x && flags[i]
    requires all == before + (if flags[|ss| - 1] then [ss[|ss| - 1].id] else [])
    ensures forall x :: x in all <==> exists i :: 0 <= i < |ss| && ss[i].id == x && flags[i]
  {
  }

  lemma SetAsideStep(ss: seq<Node>, isAuthenticated: bool)
    requires ss != [] && forall s <- ss :: s.Element?
    ensures forall s <- ss[..|ss| - 1] :: s.Element?
    ensures VisitAll(ss, isAuthenticated).sectionsToRemove
            == VisitAll(ss[..|ss| - 1], isAuthenticated).sectionsToRemove
               + (if Flagged(ss, |ss| - 1, isAuthenticated) then [ss[|ss| - 1].id] else [])
  {
    assert forall s <- ss[..|ss| - 1] :: s in ss;
  }

  /** Whether a section is flagged does not depend on the sections after it. */
  lemma FlaggedPrefix(ss: seq<Node>, i: nat, n: nat, isAuthenticated: bool)
    requires i < n <= |ss| && forall s <- ss :: s.Element?
    ensures forall s <- ss[..n] :: s.Element?
    ensures ss[..n][i] == ss[i] && (Flagged(ss[..n], i, isAuthenticated) <==> Flagged(ss, i, isAuthenticated))
  {
    assert forall s <- ss[..n] :: s in ss;
    assert ss[..n][..i] == ss[..i];
  }

  /** Each iteration only adds to what is removed. */
  lemma {:induction false} RemovedGrows(ss: seq<Node>, j: nat, isAuthenticated: bool)
    requires j <= |ss| && forall s <- ss :: s.Element?
    ensures VisitAll(ss[..j], isAuthenticated).removed <= VisitAll(ss, isAuthenticated).removed
    decreases |ss|
  {
    if j < |ss| {
      var init := ss[..|ss| - 1];
      assert forall s <- init :: s in ss;
      assert init[..j] == ss[..j];
      RemovedGrows(init, j, isAuthenticated);
    } else {
      assert ss[..j] == ss;
    }
  }

  /** A section that the loop keeps has, once everything is removed, no element inside it meant
      for the other kind of visitor. */
  lemma KeptSectionClean(ss: seq<Node>, i: nat, isAuthenticated: bool)
    requires i < |ss| && forall s <- ss :: s.Element?
    requires !Flagged(ss, i, isAuthenticated)
    ensures forall e <- Elements(Current(ss[i], Removal(ss, isAuthenticated)).children) ::
              !Matches(Hidden(isAuthenticated), e)
  {
    var sel := Hidden(isAuthenticated);
    var before := VisitAll(ss[..i], isAuthenticated).removed;
    var final := Removal(ss, isAuthenticated);
    VisitAllStep(ss, i, isAuthenticated);
    KeptAdds(VisitAll(ss[..i], isAuthenticated), ss[i], isAuthenticated);
    RemovedGrows(ss, i + 1, isAuthenticated);
    CleanAfter(ss[i].children, before, final, sel);
  }

  /** A section the loop keeps adds to the removals what the hidden selector finds in it. */
  lemma KeptAdds(st: Pass, s: Node, isAuthenticated: bool)
    requires s.Element? && !ShouldRemove(Current(s, st.removed), isAuthenticated)
    ensures Visit(st, s, isAuthenticated).removed == st.removed + FindIds(Remove(s.children, st.removed), Hidden(isAuthenticated))
  {
  }

  /** Once everything a selector found in a forest is removed, it finds nothing there. */
  lemma CleanAfter(kids: seq<Node>, before: set<nat>, final: set<nat>, sel: Selector)
    requires before + FindIds(Remove(kids, before), sel) <= final
    ensures forall e <- Elements(Remove(kids, final)) :: !Matches(sel, e)
  {
    var r := Remove(kids, final);
    RemoveFindIds(Remove(kids, before), final, sel);
    RemoveTwice(kids, before, final);
    assert before + final == final;
    assert FindIds(r, sel) == {};
    FindIdsSpec(r, sel);
    forall e <- Elements(r) ensures !Matches(sel, e) {
      assert e.id !in FindIds(r, sel);
    }
  }

  /** Nothing else is removed: only the flagged sections and, inside the sections, elements whose
      class names the other kind of visitor. */
  lemma {:induction false} RemovalOnly(ss: seq<Node>, isAuthenticated: bool)
    requires forall s <- ss :: s.Element?
    ensures forall x <- Removal(ss, isAuthenticated) ::
              exists i :: 0 <= i < |ss| && ((ss[i].id == x && Flagged(ss, i, isAuthenticated))
                                            || x in FindIds(ss[i].children, Hidden(isAuthenticated)))
  {
    SetAsideFlagged(ss, isAuthenticated);
    LoopRemovedOnly(ss, isAuthenticated);
  }

  lemma {:induction false} LoopRemovedOnly(ss: seq<Node>, isAuthenticated: bool)
    requires forall s <- ss :: s.Element?
    ensures forall x <- VisitAll(ss, isAuthenticated).removed ::
              exists i :: 0 <= i < |ss| && x in FindIds(ss[i].children, Hidden(isAuthenticated))
  {
    if ss != [] {
      var n := |ss| - 1;
      var init := ss[..n];
      var hidden := Hidden(isAuthenticated);
      assert forall s <- init :: s in ss;
      LoopRemovedOnly(init, isAuthenticated);
      var st := VisitAll(init, isAuthenticated);
      var before := st.removed;
      var section := Current(ss[n], before);
      assert VisitAll(ss, isAuthenticated) == Visit(st, ss[n], isAuthenticated);
      var added := if ShouldRemove(section, isAuthenticated) then {} else FindIds(section.children, hidden);
      assert Visit(st, ss[n], isAuthenticated).removed == before + added;
      assert section.children == Remove(ss[n].children, before);
      RemoveFindIds(ss[n].children, before, hidden);
      forall x <- VisitAll(ss, isAuthenticated).removed
        ensures exists i :: 0 <= i < |ss| && x in FindIds(ss[i].children, hidden)
      {
        if x in added {
          assert x in FindIds(ss[n].children, hidden);
        } else {
          var i :| 0 <= i < n && x in FindIds(init[i].children, hidden);
          assert init[i] == ss[i];
        }
      }
    }
  }

  /** A flagged section is gone from the page. */
  lemma FlaggedSectionGone(doc: seq<Node>, i: nat, isAuthenticated: bool)
    requires i < |MainChildDivs(doc, false)| && Flagged(MainChildDivs(doc, false), i, isAuthenticated)
    ensures MainChildDivs(doc, false)[i].id !in Ids(Remove(doc, Removal(MainChildDivs(doc, false), isAuthenticated)))
  {
    SetAsideFlagged(MainChildDivs(doc, false), isAuthenticated);
    RemoveGone(doc, Removal(MainChildDivs(doc, false), isAuthenticated));
  }

  // ---------------------------------------------------------------------------------------------
  // The request (lines 55-84).

  /** platforms/cloudflare/src/handlers/auth.js: every visitor counts as logged out for now. */
  function CheckAuthentication(): bool {
    false
  }

  datatype Response = Origin(url: string) | Rendered(url: string, body: string) | InternalError

  /** Lines 55-84, with the origin's configuration (platforms/cloudflare/src/config.js is not
      part of this model), the URL's path and query, and the origin's answer as parameters;
      `originFailed` stands for a fetch or a parse that throws.  Every request reaches the origin
      at the same path and query; a bypassed path or a response that is not HTML comes back as the
      origin sent it, and an HTML response is the processed page, for a logged-out visitor. */
  function Fetch(aemOrigin: string, bypassPaths: seq<string>, htmlContentTypes: seq<string>,
                 pathname: string, search: string, originFailed: bool,
                 contentType: Option<string>, html: string, doc: seq<Node>): (r: Response)
    ensures r.InternalError? <==> originFailed
    ensures !r.InternalError? ==> r.url == aemOrigin + pathname + search
    ensures r.Origin? <==> !originFailed && (StartsWithAny(pathname, bypassPaths)
                                             || !IncludesAny(OrEmpty(contentType), htmlContentTypes))
    ensures r.Rendered? ==> r.body == ProcessContentSpec(html, doc, false)
    ensures r.Rendered? && !IsGated(doc) ==> r.body == html
  {
    var fullUrl := aemOrigin + pathname + search;
    if originFailed then InternalError
    else if StartsWithAny(pathname, bypassPaths) then Origin(fullUrl)
    else if !IncludesAny(OrEmpty(contentType), htmlContentTypes) then Origin(fullUrl)
    else Rendered(fullUrl, ProcessContentSpec(html, doc, CheckAuthentication()))
  }
}
