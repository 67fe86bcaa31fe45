/** What the string-scanning worker's result is: the gate recognises exactly the gating meta tag,
    every recorded span is a balanced element, the section rule, the rebuilt `<main>`, and the
    balance of the text left after a removal. */
module StandaloneFacts {
  import opened JsString
  import opened DivScanner
  import opened Patterns
  import opened PatternFacts
  import opened Standalone

  // ---------------------------------------------------------------------------------------------
  // The gate.

  /** The gate is open exactly when the gate pattern matches somewhere in the document. */
  lemma GatedIff(html: string)
    ensures Gated(html) <==> exists i: nat :: GatedMetaAt(html, i).Some?
  {
    SearchPrimLeftmost(GatedMeta, html, 0);
    if Gated(html) {
      var f := SearchPrim(GatedMeta, html, 0).value;
      assert GatedMetaAt(html, f.start).Some?;
    } else {
      forall i: nat ensures GatedMetaAt(html, i).None? {
        assert PrimAt(GatedMeta, html, i).None?;
      }
    }
  }

  /** A document with no gating meta tag anywhere is returned exactly as it came, for both
      authentication states. */
  lemma Passthrough(html: string, isAuthenticated: bool)
    requires forall i: nat, b: nat, d: nat :: !GatedMetaTag(html, i, b, d)
    ensures Process(html, isAuthenticated) == html
  {
    GatedIff(html);
    if Gated(html) {
      var i: nat :| GatedMetaAt(html, i).Some?;
      GatedMetaExact(html, i);
    }
  }

  /** A document with a gating meta tag is processed. */
  lemma GatedByTag(html: string, i: nat, b: nat, d: nat)
    requires GatedMetaTag(html, i, b, d)
    ensures Gated(html)
  {
    GatedMetaExact(html, i);
    GatedIff(html);
  }

  // ---------------------------------------------------------------------------------------------
  // The recorded spans.

  /** `x` starts at an opening tag `m` matched there and ends just after the `</div>` that first
      brings the nesting back to 0. */
  ghost predicate Recorded(m: nat -> Option<nat>, t: string, x: Span) {
    m(x.start) == Some(x.tagEnd) && FirstClose(t, x.tagEnd, 1, x.end)
  }

  /** Every span is recorded, and each search resumed after the previous opening tag. */
  ghost predicate Visited(m: nat -> Option<nat>, t: string, sp: seq<Span>) {
    (forall k :: 0 <= k < |sp| ==> Recorded(m, t, sp[k]))
    && (forall k :: 0 <= k < |sp| - 1 ==> sp[k].tagEnd <= sp[k + 1].start)
  }

  lemma VisitedCons(m: nat -> Option<nat>, t: string, x: Span, rest: seq<Span>)
    requires Recorded(m, t, x) && Visited(m, t, rest)
    requires forall k :: 0 <= k < |rest| ==> x.tagEnd <= rest[k].start
    ensures Visited(m, t, [x] + rest)
  {
    var sp := [x] + rest;
    forall k | 0 <= k < |sp| ensures Recorded(m, t, sp[k]) {
      if k > 0 {
        assert sp[k] == rest[k - 1];
      }
    }
    forall k | 0 <= k < |sp| - 1 ensures sp[k].tagEnd <= sp[k + 1].start {
      assert sp[k + 1] == rest[k];
      if k > 0 {
        assert sp[k] == rest[k - 1];
      }
    }
  }

  /** The spans the exec loop records are visited in order, each one a closed element. */
  lemma {:induction false} SpanShape(m: nat -> Option<nat>, t: string, from: nat)
    requires TagMatcher(m, t)
    ensures Visited(m, t, Spans(m, t, from))
    decreases |t| - from
  {
    match First(m, from, |t|)
    case None =>
    case Some(o) =>
      SpanShape(m, t, o.1);
      var rest := Spans(m, t, o.1);
      match ScanClose(t, o.1, 1)
      case None =>
        assert Spans(m, t, from) == rest;
      case Some(e) =>
        ScanCloseSound(t, o.1, 1);
        var x := Span(o.0, o.1, e);
        assert Recorded(m, t, x);
        assert Spans(m, t, from) == [x] + rest;
        VisitedCons(m, t, x, rest);
  }

  /** An opener whose element is never closed is passed over: the loop goes on from the end of
      its opening tag and records nothing for it. */
  lemma UnclosedOpenerSkipped(m: nat -> Option<nat>, t: string, from: nat, i: nat, g: nat)
    requires TagMatcher(m, t)
    requires First(m, from, |t|) == Some((i, g)) && NeverCloses(t, g, 1)
    ensures Spans(m, t, from) == Spans(m, t, g)
  {
    ScanCloseSound(t, g, 1);
  }

  /** The spans of an opener pattern: each starts at a match of it and is closed by the scanner. */
  lemma RecordedSpan(op: Opener, t: string, k: nat)
    requires k < |OpenerSpans(op, t)|
    ensures var sp := OpenerSpans(op, t)[k];
            OpenerAt(op, t, sp.start) == Some(sp.tagEnd) && FirstClose(t, sp.tagEnd, 1, sp.end)
  {
    OpenerMatcherTags(op, t);
    SpanShape(OpenerMatcher(op, t), t, 0);
    var sps := OpenerSpans(op, t);
    assert sps == Spans(OpenerMatcher(op, t), t, 0);
    var sp := sps[k];
    assert OpenerMatcher(op, t)(sp.start) == OpenerAt(op, t, sp.start);
    assert FirstClose(t, sp.tagEnd, 1, sp.end);
  }

  /** A recorded element holds as many `<div` as `</div>`, when its opening tag is written with a
      lower-case `<div` (the section loop matches no other) and holds no other div tag. */
  lemma RecordedSpanParity(op: Opener, t: string, k: nat)
    requires k < |OpenerSpans(op, t)|
    requires var sp := OpenerSpans(op, t)[k];
             (op == AnyDiv || At(t, Open, sp.start, false))
             && forall p :: sp.start < p < sp.tagEnd ==> !At(t, Open, p, false) && !At(t, Close, p, false)
    ensures var x := Texts(t, OpenerSpans(op, t))[k];
            Occurrences(x, Open) == Occurrences(x, Close)
  {
    var sp := OpenerSpans(op, t)[k];
    RecordedSpan(op, t, k);
    ScanCloseSound(t, sp.tagEnd, 1);
    ScanCloseComplete(t, sp.tagEnd, 1, sp.end);
    SpanParity(t, sp.start, sp.tagEnd, sp.end);
  }

  // ---------------------------------------------------------------------------------------------
  // The section rule.

  lemma PrimAtViewRow(s: string, i: nat)
    ensures PrimAt(ViewRow, s, i) == ViewRowAt(s, i)
  {
  }

  /** A literal found at `k` is found at the start of the text it spans. */
  lemma AtOwnText(s: string, lit: string, k: nat, ignoreCase: bool)
    requires At(s, lit, k, ignoreCase)
    ensures At(s[k..k + |lit|], lit, 0, ignoreCase)
  {
    var v := s[k..k + |lit|];
    assert SameWindow(s, k, v, 0, |lit|);
    AtAcross(s, k, v, 0, |lit|, lit, 0, ignoreCase);
  }

  /** `logged-in` or `logged-out` in some letter case. */
  predicate ViewWord(v: string) {
    (|v| == 9 && At(v, "logged-in", 0, true)) || (|v| == 10 && At(v, "logged-out", 0, true))
  }

  /** The captured view value is `logged-in` or `logged-out` in some letter case. */
  lemma ViewValueShape(section: string)
    ensures ViewValue(section).Some? ==> ViewWord(ViewValue(section).value)
  {
    var r := SearchPrim(ViewRow, section, 0);
    if r.Some? {
      var h := r.value.hit;
      assert ViewWordAt(section, h.capStart) == Some(h.capEnd) by {
        assert ViewRowAt(section, r.value.start) == Some(h);
      }
      ViewWordSlice(section, h.capStart, h.capEnd);
      assert ViewValue(section) == Some(section[h.capStart..h.capEnd]);
    }
  }

  /** The text an alternative of `(logged-in|logged-out)` matched is that word in some case. */
  lemma ViewWordSlice(s: string, k: nat, e: nat)
    requires ViewWordAt(s, k) == Some(e)
    ensures k <= e <= |s| && ViewWord(s[k..e])
  {
    if At(s, "logged-in", k, true) {
      AtOwnText(s, "logged-in", k, true);
    } else {
      AtOwnText(s, "logged-out", k, true);
    }
  }

  /** The leftmost offset where a view row matches is the one the search finds. */
  lemma SearchViewRowAt(s: string, i: nat, h: Hit)
    requires PrimAt(ViewRow, s, i) == Some(h) && forall j :: 0 <= j < i ==> PrimAt(ViewRow, s, j).None?
    ensures SearchPrim(ViewRow, s, 0) == Some(Found(i, h))
  {
    FirstAt(PrimMatcher(ViewRow, s), 0, |s|, i);
  }

  lemma NoViewRowAt(s: string, j: nat)
    requires forall m: RowMarks :: !ViewRowText(s, j, m)
    ensures PrimAt(ViewRow, s, j).None?
  {
    PrimAtViewRow(s, j);
    ViewRowExact(s, j);
  }

  lemma ViewRowAtMarks(s: string, i: nat, m: RowMarks)
    requires ViewRowText(s, i, m)
    ensures PrimAt(ViewRow, s, i) == Some(Hit(m.p7 + 6, m.k, m.v))
  {
    assert ViewRowAt(s, i) == Some(Hit(m.p7 + 6, m.k, m.v)) by {
      ViewRowRecognised(s, i, m);
    }
    PrimAtViewRow(s, i);
  }

  /** The first view row written in a section is the one the pattern finds. */
  lemma FirstViewRow(section: string, i: nat, m: RowMarks)
    requires ViewRowText(section, i, m)
    requires forall j: nat, m': RowMarks :: j < i ==> !ViewRowText(section, j, m')
    ensures SearchPrim(ViewRow, section, 0) == Some(Found(i, Hit(m.p7 + 6, m.k, m.v)))
  {
    forall j | 0 <= j < i ensures PrimAt(ViewRow, section, j).None? {
      NoViewRowAt(section, j);
    }
    ViewRowAtMarks(section, i, m);
    SearchViewRowAt(section, i, Hit(m.p7 + 6, m.k, m.v));
  }

  /** A section is removed exactly when it carries section metadata and the value of its first
      written view row is, letter for letter, the audience the viewer is not in: a value written
      in another letter case keeps the section. */
  lemma SectionRule(section: string, isAuthenticated: bool, i: nat, m: RowMarks)
    requires ViewRowText(section, i, m)
    requires forall j: nat, m': RowMarks :: j < i ==> !ViewRowText(section, j, m')
    ensures m.k < m.v <= |section|
    ensures ShouldRemoveSection(section, isAuthenticated) <==>
              Includes(section, "section-metadata")
              && section[m.k..m.v] == (if isAuthenticated then "logged-out" else "logged-in")
  {
    var f := Found(i, Hit(m.p7 + 6, m.k, m.v));
    assert SearchPrim(ViewRow, section, 0) == Some(f) by {
      FirstViewRow(section, i, m);
    }
    assert ViewValue(section) == Some(section[m.k..m.v]);
  }

  /** A section in which no view row is written is kept. */
  lemma SectionWithoutRowKept(section: string, isAuthenticated: bool)
    requires forall j: nat, m: RowMarks :: !ViewRowText(section, j, m)
    ensures !ShouldRemoveSection(section, isAuthenticated)
  {
    forall j: nat ensures PrimAt(ViewRow, section, j).None? {
      PrimAtViewRow(section, j);
      ViewRowExact(section, j);
    }
    SearchPrimLeftmost(ViewRow, section, 0);
  }

  /** When no recorded section excludes the viewer, the main content is left as it is. */
  lemma {:induction false} RemoveSectionsKeeps(content: string, sections: seq<string>, isAuthenticated: bool)
    requires forall k :: 0 <= k < |sections| ==> !ShouldRemoveSection(sections[k], isAuthenticated)
    ensures RemoveSections(content, sections, isAuthenticated) == content
    decreases |sections|
  {
    if sections != [] {
      RemoveSectionsKeeps(content, sections[..|sections| - 1], isAuthenticated);
    }
  }

  /** The first occurrence of each text cut out in order, where `drop` says so: the shape of
      `RemoveSections` with its verdicts given in advance. */
  function CutFirsts(content: string, texts: seq<string>, drop: seq<bool>): string
    requires |drop| == |texts|
    decreases |texts|
  {
    if texts == [] then content
    else
      var before := CutFirsts(content, texts[..|texts| - 1], drop[..|drop| - 1]);
      if drop[|drop| - 1] then ReplaceFirst(before, texts[|texts| - 1], "") else before
  }

  /** The removal verdict of each recorded section. */
  function Verdicts(sections: seq<string>, isAuthenticated: bool): (r: seq<bool>)
    ensures |r| == |sections|
  {
    seq(|sections|, k requires 0 <= k < |sections| => ShouldRemoveSection(sections[k], isAuthenticated))
  }

  lemma {:induction false} RemoveSectionsCuts(content: string, sections: seq<string>, isAuthenticated: bool)
    ensures RemoveSections(content, sections, isAuthenticated)
            == CutFirsts(content, sections, Verdicts(sections, isAuthenticated))
    decreases |sections|
  {
    if sections != [] {
      var n := |sections| - 1;
      var init, last := sections[..n], sections[n];
      var vs := Verdicts(sections, isAuthenticated);
      var before := RemoveSections(content, init, isAuthenticated);
      assert before == CutFirsts(content, init, vs[..n]) by {
        RemoveSectionsCuts(content, init, isAuthenticated);
        VerdictsPrefix(sections, isAuthenticated);
      }
      assert vs[n] == ShouldRemoveSection(last, isAuthenticated);
      assert RemoveSections(content, sections, isAuthenticated)
             == if vs[n] then ReplaceFirst(before, last, "") else before;
      CutFirstsStep(content, sections, vs);
    }
  }

  lemma CutFirstsStep(content: string, texts: seq<string>, drop: seq<bool>)
    requires texts != [] && |drop| == |texts|
    ensures var n := |texts| - 1;
            var before := CutFirsts(content, texts[..n], drop[..n]);
            CutFirsts(content, texts, drop) == if drop[n] then ReplaceFirst(before, texts[n], "") else before
  {
  }

  lemma VerdictsPrefix(sections: seq<string>, isAuthenticated: bool)
    requires sections != []
    ensures Verdicts(sections[..|sections| - 1], isAuthenticated) == Verdicts(sections, isAuthenticated)[..|sections| - 1]
  {
    var n := |sections| - 1;
    var vs, v0 := Verdicts(sections, isAuthenticated), Verdicts(sections[..n], isAuthenticated);
    forall k | 0 <= k < n ensures v0[k] == vs[k] {
      assert sections[..n][k] == sections[k];
    }
  }

  lemma {:induction false} CutFirstsKeep(content: string, texts: seq<string>, drop: seq<bool>)
    requires |drop| == |texts| && forall k :: 0 <= k < |drop| ==> !drop[k]
    ensures CutFirsts(content, texts, drop) == content
    decreases |texts|
  {
    if texts != [] {
      CutFirstsKeep(content, texts[..|texts| - 1], drop[..|drop| - 1]);
    }
  }

  lemma {:induction false} CutFirstsOne(content: string, texts: seq<string>, drop: seq<bool>, j: nat)
    requires |drop| == |texts| && j < |texts| && drop[j]
    requires forall k :: 0 <= k < |drop| && k != j ==> !drop[k]
    ensures match IndexOf(content, texts[j], 0)
            case Some(p) => p + |texts[j]| <= |content| && CutFirsts(content, texts, drop) == content[..p] + content[p + |texts[j]|..]
            case None => CutFirsts(content, texts, drop) == content
    decreases |texts|
  {
    var init, dinit := texts[..|texts| - 1], drop[..|drop| - 1];
    if j == |texts| - 1 {
      CutFirstsKeep(content, init, dinit);
      match IndexOf(content, texts[j], 0)
      case Some(p) => RemovalPieces(content, texts[j], p);
      case None =>
    } else {
      assert init[j] == texts[j];
      CutFirstsOne(content, init, dinit, j);
    }
  }

  /** When exactly one recorded section excludes the viewer, the main content loses the first
      occurrence of that section's text (and nothing when the text does not occur). */
  lemma OneSectionRemoved(content: string, sections: seq<string>, isAuthenticated: bool, j: nat)
    requires j < |sections| && ShouldRemoveSection(sections[j], isAuthenticated)
    requires forall k :: 0 <= k < |sections| && k != j ==> !ShouldRemoveSection(sections[k], isAuthenticated)
    ensures match IndexOf(content, sections[j], 0)
            case Some(p) =>
              p + |sections[j]| <= |content|
              && RemoveSections(content, sections, isAuthenticated) == content[..p] + content[p + |sections[j]|..]
            case None => RemoveSections(content, sections, isAuthenticated) == content
  {
    RemoveSectionsCuts(content, sections, isAuthenticated);
    CutFirstsOne(content, sections, Verdicts(sections, isAuthenticated), j);
  }

  // ---------------------------------------------------------------------------------------------
  // The rebuilt `<main>`.

  lemma DollarFreeConcat(a: string, b: string)
    requires DollarFree(a) && DollarFree(b)
    ensures DollarFree(a + b)
  {
  }

  lemma DollarFreeSlice(s: string, i: nat, j: nat)
    requires DollarFree(s) && i <= j <= |s|
    ensures DollarFree(s[i..j])
  {
  }

  /** Removing text keeps a text free of `$`. */
  lemma {:induction false} RemoveSectionsDollarFree(content: string, sections: seq<string>, isAuthenticated: bool)
    requires DollarFree(content)
    ensures DollarFree(RemoveSections(content, sections, isAuthenticated))
    decreases |sections|
  {
    if sections != [] {
      var before := RemoveSections(content, sections[..|sections| - 1], isAuthenticated);
      RemoveSectionsDollarFree(content, sections[..|sections| - 1], isAuthenticated);
      var section := sections[|sections| - 1];
      match IndexOf(before, section, 0)
      case None =>
      case Some(p) =>
        DollarFreeSlice(before, 0, p);
        DollarFreeSlice(before, p + |section|, |before|);
        DollarFreeConcat(before[..p], before[p + |section|..]);
        assert before[..p] + Expand("", section, before, p) + before[p + |section|..]
            == before[..p] + before[p + |section|..];
    }
  }

  /** The matched `<main…>…</main>` text first occurs where the pattern matched it. */
  lemma MainFirstOccurrence(html: string, f: Found)
    requires SearchPrim(MainElement, html, 0) == Some(f)
    ensures At(html, html[f.start..f.hit.end], f.start, false)
    ensures forall q :: 0 <= q < f.start ==> !At(html, html[f.start..f.hit.end], q, false)
  {
    var m0 := html[f.start..f.hit.end];
    var n := |m0|;
    SearchPrimLeftmost(MainElement, html, 0);
    AtSlice(html, m0, f.start);
    forall q | 0 <= q < f.start ensures !At(html, m0, q, false) {
      NotMainCopy(html, f, q);
    }
  }

  /** No earlier offset holds a copy of the matched element: a copy would match there too. */
  lemma NotMainCopy(html: string, f: Found, q: nat)
    requires SearchPrim(MainElement, html, 0) == Some(f) && q < f.start
    requires forall i :: 0 <= i < f.start ==> PrimAt(MainElement, html, i).None?
    ensures !At(html, html[f.start..f.hit.end], q, false)
  {
    var m0 := html[f.start..f.hit.end];
    AtSlice(html, m0, q);
    assert PrimAt(MainElement, html, q) == MainAt(html, q);
    if At(html, m0, q, false) {
      SlicesWindow(html, f.start, html, q, |m0|);
      MainAcross(html, f.start, f.hit, html, q);
      assert false;
    }
  }

  /** The replacement text keeps the matched opening tag's attributes. */
  lemma MainReplacementShape(html: string, p: nat, h: Hit, nm: string)
    requires MainAt(html, p) == Some(h)
    ensures p + 5 <= h.capStart - 1 <= h.end <= |html|
    ensures MainReplacement(html[p..h.end], nm) == "<main" + html[p + 5..h.capStart - 1] + ">" + nm + "</main>"
  {
    var m0 := html[p..h.end];
    MainTagEnd(html, p, h);
    var g := h.capStart - 1 - p;
    assert IndexOfOrMinus(m0, ">") == g;
    assert 5 <= g <= |m0| && p + g == h.capStart - 1;
    SliceOfSlice(html, p, h.end, 5, g);
  }

  /** The replacement text is free of `$` when the document is. */
  lemma MainReplacementDollarFree(html: string, p: nat, h: Hit, nm: string)
    requires DollarFree(html) && DollarFree(nm)
    requires MainAt(html, p) == Some(h)
    ensures DollarFree(MainReplacement(html[p..h.end], nm))
  {
    var attrs := html[p + 5..h.capStart - 1];
    MainReplacementShape(html, p, h, nm);
    DollarFreeSlice(html, p + 5, h.capStart - 1);
    DollarFreeConcat("<main", attrs);
    DollarFreeConcat("<main" + attrs, ">");
    DollarFreeConcat("<main" + attrs + ">", nm);
    DollarFreeConcat("<main" + attrs + ">" + nm, "</main>");
  }

  /** Replacing the matched element's text, which first occurs where it was matched. */
  lemma MainReplaced(html: string, p: nat, h: Hit, nm: string)
    requires DollarFree(html) && DollarFree(nm)
    requires MainAt(html, p) == Some(h)
    requires At(html, html[p..h.end], p, false) && forall q :: 0 <= q < p ==> !At(html, html[p..h.end], q, false)
    ensures p + 5 <= h.capStart - 1 <= h.end <= |html|
    ensures ReplaceFirst(html, html[p..h.end], MainReplacement(html[p..h.end], nm))
            == html[..p] + ("<main" + html[p + 5..h.capStart - 1] + ">" + nm + "</main>") + html[h.end..]
  {
    var m0 := html[p..h.end];
    MainReplacementShape(html, p, h, nm);
    MainReplacementDollarFree(html, p, h, nm);
    ReplaceFirstWith(html, m0, MainReplacement(m0, nm), p,
                     "<main" + html[p + 5..h.capStart - 1] + ">" + nm + "</main>", h.end);
  }

  /** The section stage rebuilds the first `<main>` element in place: its opening tag keeps its
      attributes, its content is replaced by the content with the excluded sections removed, and
      the text before and after the element is untouched (for a document free of `$`, which
      `String.prototype.replace` would otherwise expand). */
  lemma MainRebuild(html: string, isAuthenticated: bool, f: Found)
    requires DollarFree(html)
    requires SearchPrim(MainElement, html, 0) == Some(f)
    ensures f.start + 5 <= f.hit.capStart - 1 && f.hit.end <= |html|
    ensures SectionStage(html, isAuthenticated)
            == html[..f.start]
               + ("<main" + html[f.start + 5..f.hit.capStart - 1] + ">"
                  + NewMainContent(html[f.hit.capStart..f.hit.capEnd], isAuthenticated) + "</main>")
               + html[f.hit.end..]
  {
    SectionStageMain(html, isAuthenticated, f);
    NewMainContentDollarFree(html, f, isAuthenticated);
    MainFirstOccurrence(html, f);
    assert MainAt(html, f.start) == Some(f.hit);
    RebuildShape(html, f, NewMainContent(html[f.hit.capStart..f.hit.capEnd], isAuthenticated));
  }

  lemma SectionStageMain(html: string, isAuthenticated: bool, f: Found)
    requires SearchPrim(MainElement, html, 0) == Some(f)
    ensures SectionStage(html, isAuthenticated)
            == RebuildMain(html, f, NewMainContent(html[f.hit.capStart..f.hit.capEnd], isAuthenticated))
  {
  }

  /** The rebuilt `<main>` in place of the matched one, for any new content free of `$`. */
  lemma RebuildShape(html: string, f: Found, nm: string)
    requires DollarFree(html) && DollarFree(nm)
    requires MainAt(html, f.start) == Some(f.hit)
    requires At(html, html[f.start..f.hit.end], f.start, false)
    requires forall q :: 0 <= q < f.start ==> !At(html, html[f.start..f.hit.end], q, false)
    ensures f.start + 5 <= f.hit.capStart - 1 && f.hit.end <= |html|
    ensures RebuildMain(html, f, nm)
            == html[..f.start] + ("<main" + html[f.start + 5..f.hit.capStart - 1] + ">" + nm + "</main>")
               + html[f.hit.end..]
  {
    MainReplaced(html, f.start, f.hit, nm);
  }

  /** The new main content is free of `$` when the document is. */
  lemma NewMainContentDollarFree(html: string, f: Found, isAuthenticated: bool)
    requires DollarFree(html) && SearchPrim(MainElement, html, 0) == Some(f)
    ensures DollarFree(NewMainContent(html[f.hit.capStart..f.hit.capEnd], isAuthenticated))
  {
    var content := html[f.hit.capStart..f.hit.capEnd];
    RemoveSectionsDollarFree(content, Texts(content, OpenerSpans(AnyDiv, content)), isAuthenticated);
  }

  // ---------------------------------------------------------------------------------------------
  // The balance of `<div` and `</div>` across a removal.

  /** Neither tag can be spelled across the junction of `a` and `b` when `a` does not end in one
      of the characters a tag continues after. */
  predicate CleanJunction(a: string) {
    a == [] || a[|a| - 1] !in "</div"
  }

  /** `<div` count minus `</div>` count. */
  function Excess(s: string): int {
    Occurrences(s, Open) - Occurrences(s, Close)
  }

  lemma TagPrefix(a: string, b: string, pat: string, p: nat)
    requires pat == Open || pat == Close
    requires p < |a| < p + |pat| && At(a + b, pat, p, false)
    ensures a[|a| - 1] in "</div"
  {
    TagChars(a + b, p);
    assert a[|a| - 1] == (a + b)[|a| - 1];
  }

  /** Occurrences add up across a clean junction. */
  lemma OccurrencesConcat(a: string, b: string, pat: string)
    requires pat == Open || pat == Close
    requires CleanJunction(a)
    ensures Occurrences(a + b, pat) == Occurrences(a, pat) + Occurrences(b, pat)
  {
    forall p | 0 <= p < |a| && p + |pat| > |a| ensures !At(a + b, pat, p, false) {
      if At(a + b, pat, p, false) {
        TagPrefix(a, b, pat, p);
      }
    }
    OccurrencesAcross(a, b, pat);
  }

  /** A text spelled as `a + x + b` where `x` runs from a `<div` to a `</div>`: no tag crosses
      either junction of `x`. */
  lemma ElementJunctions(a: string, x: string, b: string, pat: string)
    requires pat == Open || pat == Close
    requires At(x, Open, 0, false) && |x| >= |Close| && At(x, Close, |x| - |Close|, false)
    ensures Occurrences(a + x + b, pat) == Occurrences(a, pat) + Occurrences(x, pat) + Occurrences(b, pat)
  {
    TagChars(x, 0);
    TagChars(x, |x| - |Close|);
    var y := x + b;
    assert a + x + b == a + y;
    // Nothing ends at the start of `x`: a `<div` or `</div>` has `<` only in front.
    forall p | 0 <= p < |a| && p + |pat| > |a| ensures !At(a + y, pat, p, false) {
      if At(a + y, pat, p, false) {
        TagChars(a + y, p);
      }
    }
    OccurrencesAcross(a, y, pat);
    OccurrencesConcat(x, b, pat);
  }

  /** Occurrences add up across a junction that no occurrence crosses. */
  lemma OccurrencesAcross(a: string, b: string, pat: string)
    requires forall p :: 0 <= p < |a| && p + |pat| > |a| ==> !At(a + b, pat, p, false)
    ensures Occurrences(a + b, pat) == Occurrences(a, pat) + Occurrences(b, pat)
  {
    var s := a + b;
    assert SameWindow(a, 0, s, 0, |a|);
    assert SameWindow(b, 0, s, |a|, |b|);
    forall p | 0 <= p < |a| ensures At(a, pat, p, false) <==> At(s, pat, p, false) {
      if p + |pat| <= |a| {
        AtAcross(a, 0, s, 0, |a|, pat, p, false);
      }
    }
    forall p | 0 <= p < |b| ensures At(b, pat, p, false) <==> At(s, pat, p + |a|, false) {
      if p + |pat| <= |b| {
        AtAcross(b, 0, s, |a|, |b|, pat, p, false);
      }
    }
    CountShift(a, s, pat, 0, 0, |a|);
    CountShift(b, s, pat, |a|, 0, |b|);
    CountSplit(s, pat, 0, |a|, |s|);
  }

  /** Removing the first occurrence of a balanced element's text keeps the document's `<div` /
      `</div>` excess, when the text before that occurrence ends cleanly. */
  lemma RemovalKeepsBalance(t: string, x: string)
    requires At(x, Open, 0, false) && |x| >= |Close| && At(x, Close, |x| - |Close|, false)
    requires Excess(x) == 0
    requires match IndexOf(t, x, 0) case Some(p) => CleanJunction(t[..p]) case None => true
    ensures Excess(ReplaceFirst(t, x, "")) == Excess(t)
  {
    match IndexOf(t, x, 0)
    case None =>
    case Some(p) =>
      RemovalPieces(t, x, p);
      ExcessAcross(t[..p], x, t[p + |x|..]);
  }

  /** Removing the first occurrence at `p` joins the text before it to the text after it. */
  lemma RemovalPieces(t: string, x: string, p: nat)
    requires IndexOf(t, x, 0) == Some(p)
    ensures p + |x| <= |t|
    ensures t == t[..p] + x + t[p + |x|..]
    ensures ReplaceFirst(t, x, "") == t[..p] + t[p + |x|..]
  {
    assert At(t, x, p, false) by {
      FindSpec(t, x, 0, false);
    }
    assert t[p..p + |x|] == x by {
      AtSlice(t, x, p);
    }
    assert t == t[..p] + t[p..p + |x|] + t[p + |x|..];
    assert Expand("", x, t, p) == "";
  }

  /** Taking a balanced element out from between two texts keeps the excess. */
  lemma ExcessAcross(a: string, x: string, b: string)
    requires At(x, Open, 0, false) && |x| >= |Close| && At(x, Close, |x| - |Close|, false)
    requires Excess(x) == 0 && CleanJunction(a)
    ensures Excess(a + b) == Excess(a + x + b)
  {
    ElementJunctions(a, x, b, Open);
    ElementJunctions(a, x, b, Close);
    OccurrencesConcat(a, b, Open);
    OccurrencesConcat(a, b, Close);
  }

  // ---------------------------------------------------------------------------------------------
  // The balance of the block stage.

  /** The text of an element written with a lower-case `<div`, ending in `</div>`, and holding as
      many `<div` as `</div>`. */
  predicate BalancedElement(x: string) {
    At(x, Open, 0, false) && |x| >= |Close| && At(x, Close, |x| - |Close|, false) && Excess(x) == 0
  }

  /** Each removal of the reverse-order loop, last text first, finds its text (if at all) after
      a clean junction in the document as it then stands. */
  predicate CleanRemovals(s: string, blocks: seq<string>)
    decreases |blocks|
  {
    blocks == []
    || var x := blocks[|blocks| - 1];
       (match IndexOf(s, x, 0) case Some(p) => CleanJunction(s[..p]) case None => true)
       && CleanRemovals(ReplaceFirst(s, x, ""), blocks[..|blocks| - 1])
  }

  /** Removing balanced element texts one after the other, last one first, keeps the document's
      `<div` / `</div>` excess. */
  lemma {:induction false} RemoveReversedKeepsBalance(s: string, blocks: seq<string>)
    requires forall k :: 0 <= k < |blocks| ==> BalancedElement(blocks[k])
    requires CleanRemovals(s, blocks)
    ensures Excess(RemoveReversed(s, blocks)) == Excess(s)
    decreases |blocks|
  {
    if blocks != [] {
      var x := blocks[|blocks| - 1];
      RemovalKeepsBalance(s, x);
      RemoveReversedKeepsBalance(ReplaceFirst(s, x, ""), blocks[..|blocks| - 1]);
    }
  }

  /** A literal found at `a` is found at the start of any slice from `a` that holds it. */
  lemma AtSliceStart(t: string, lit: string, a: nat, b: nat)
    requires At(t, lit, a, false) && a + |lit| <= b <= |t|
    ensures At(t[a..b], lit, 0, false)
  {
    assert SameWindow(t, a, t[a..b], 0, b - a);
    AtAcross(t, a, t[a..b], 0, b - a, lit, 0, false);
  }

  /** A literal ending at `b` is found at the end of any slice up to `b` that holds it. */
  lemma AtSliceEnd(t: string, lit: string, a: nat, b: nat)
    requires a + |lit| <= b <= |t| && At(t, lit, b - |lit|, false)
    ensures At(t[a..b], lit, b - a - |lit|, false)
  {
    assert SameWindow(t, a, t[a..b], 0, b - a);
    AtAcross(t, a, t[a..b], 0, b - a, lit, b - a - |lit|, false);
  }

  /** A recorded element whose opening tag is a lower-case `<div` with no div tag inside it is a
      balanced element. */
  lemma RecordedElement(op: Opener, t: string, k: nat)
    requires k < |OpenerSpans(op, t)|
    requires var sp := OpenerSpans(op, t)[k];
             (op == AnyDiv || At(t, Open, sp.start, false))
             && forall p :: sp.start < p < sp.tagEnd ==> !At(t, Open, p, false) && !At(t, Close, p, false)
    ensures BalancedElement(Texts(t, OpenerSpans(op, t))[k])
  {
    var sp := OpenerSpans(op, t)[k];
    RecordedSpan(op, t, k);
    RecordedSpanParity(op, t, k);
    assert At(t, Open, sp.start, false);
    AtSliceStart(t, Open, sp.start, sp.end);
    AtSliceEnd(t, Close, sp.start, sp.end);
  }

  /** The block stage keeps the document's `<div` / `</div>` excess: every target block's
      opening tag is a lower-case `<div` with no div tag inside it (the class pattern itself
      matches `<DIV` too), and each removal meets a clean junction. */
  lemma BlockStageKeepsBalance(html: string, isAuthenticated: bool)
    requires var sps := OpenerSpans(ClassNamed(TargetClass(isAuthenticated)), html);
             forall k :: 0 <= k < |sps| ==>
               At(html, Open, sps[k].start, false)
               && forall p :: sps[k].start < p < sps[k].tagEnd ==> !At(html, Open, p, false) && !At(html, Close, p, false)
    requires CleanRemovals(html, Texts(html, OpenerSpans(ClassNamed(TargetClass(isAuthenticated)), html)))
    ensures Excess(BlockStage(html, isAuthenticated)) == Excess(html)
  {
    var op := ClassNamed(TargetClass(isAuthenticated));
    var blocks := Texts(html, OpenerSpans(op, html));
    forall k | 0 <= k < |blocks| ensures BalancedElement(blocks[k]) {
      RecordedElement(op, html, k);
    }
    RemoveReversedKeepsBalance(html, blocks);
  }
}
