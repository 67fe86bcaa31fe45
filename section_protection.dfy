/** src/handlers/section-protection.js: every `main > div` section whose metadata marks it
    protected is recorded with its teaser path; every other section is handed to the block check
    (block_protection.dfy).  The recorded markup is then replaced in the serialised document. */
module SectionProtection {
  import opened JsString
  import opened HtmlTree
  import opened BlockProtection
  import Production
  import Config

  /** A protected section recorded for replacement: its outer markup and its teaser path. */
  datatype ProtectedSection = ProtectedSection(elementHtml: string, teaserPath: string)

  datatype SectionCheck = SectionCheck(isProtected: bool, sections: seq<ProtectedSection>, teaserBlocks: seq<TeaserBlock>)

  /** Lines 13-23: a section is protected when its `protected` row reads `true`; its teaser path
      is the value of its `teaser` row when it has one (even an empty one), otherwise the
      default. */
  function SectionTeaser(section: Node): Option<string> {
    if MetaValue(section, "protected") == Some("true") then
      Some(match MetaValue(section, "teaser") case Some(v) => v case None => Config.DefaultSectionTeaser)
    else None
  }

  /** What the loop of lines 9-36 has gathered: the identities removed from the document so
      far, the protected sections and the teaser blocks. */
  datatype Scan = Scan(removed: set<nat>, sections: seq<ProtectedSection>, teaserBlocks: seq<TeaserBlock>)

  /** One iteration of the loop of lines 9-36, with the protection test and the block check
      given, on a section as the document first had it: the section is seen as it stands after
      the removals so far; a protected section is recorded as it stands, any other one is
      handed to the block check. */
  function StepBy(st: Scan, s: Node, teaser: Node -> Option<string>, check: Node --> BlockCheck): Scan
    requires s.Element? && forall n: Node :: n.Element? ==> check.requires(n)
  {
    var current := Current(s, st.removed);
    match teaser(current)
    case Some(p) => st.(sections := st.sections + [ProtectedSection(OuterHtml(current), p)])
    case None =>
      var r := check(current);
      Scan(st.removed + r.removed, st.sections, st.teaserBlocks + r.teaserBlocks)
  }

  function ScanBy(ss: seq<Node>, teaser: Node -> Option<string>, check: Node --> BlockCheck): Scan
    requires forall s <- ss :: s.Element?
    requires forall n: Node :: n.Element? ==> check.requires(n)
  {
    if ss == [] then Scan({}, [], []) else StepBy(ScanBy(ss[..|ss| - 1], teaser, check), ss[|ss| - 1], teaser, check)
  }

  /** The loop of lines 9-36 over the sections as the document first had them: each section is
      seen as it stands after the removals made by the ones before it. */
  function ScanAll(ss: seq<Node>): Scan
    requires forall s <- ss :: s.Element?
  {
    ScanBy(ss, SectionTeaser, CheckBlocks)
  }

  /** Lines 5-43 on the element tree.  `removed` is the state of the document: with the
      document as parsed it gives every element as it now stands. */
  method CheckSectionLevelProtection(doc: seq<Node>) returns (doc': seq<Node>, r: SectionCheck)
    ensures var st := ScanAll(MainChildDivs(doc, false));
            doc' == Remove(doc, st.removed)
            && r == SectionCheck(st.sections != [] || st.teaserBlocks != [], st.sections, st.teaserBlocks)
  {
    var sectionEls := MainChildDivs(doc, false);
    var removed: set<nat> := {};
    var protectedSections: seq<ProtectedSection> := [];
    var teaserBlocks: seq<TeaserBlock> := [];
    RemoveNone(doc, {});
    doc' := doc;
    for i := 0 to |sectionEls|
      invariant ScanAll(sectionEls[..i]) == Scan(removed, protectedSections, teaserBlocks)
      invariant doc' == Remove(doc, removed)
    {
      assert sectionEls[..i + 1][..i] == sectionEls[..i];
      var section := Current(sectionEls[i], removed);
      var teaser := SectionTeaser(section);
      if teaser.Some? {
        protectedSections := protectedSections + [ProtectedSection(OuterHtml(section), teaser.value)];
      } else {
        var doc'', teaserBlocks' := CheckBlockProtectionInSection(doc', section, teaserBlocks);
        RemoveTwice(doc, removed, CheckBlocks(section).removed);
        doc' := doc'';
        teaserBlocks := teaserBlocks';
        removed := removed + CheckBlocks(section).removed;
      }
    }
    assert sectionEls[..|sectionEls|] == sectionEls;
    r := SectionCheck(|protectedSections| > 0 || |teaserBlocks| > 0, protectedSections, teaserBlocks);
  }

  // ---------------------------------------------------------------------------------------------
  // What the scan records.  The facts are proved for `ScanBy` with the protection test and the
  // block check left as parameters, so that the proofs never look inside either.

  /** The sections as the scan sees them, each after the removals made by the ones before it. */
  function SeenBy(ss: seq<Node>, teaser: Node -> Option<string>, check: Node --> BlockCheck): (r: seq<Node>)
    requires forall s <- ss :: s.Element?
    requires forall n: Node :: n.Element? ==> check.requires(n)
    ensures |r| == |ss|
  {
    if ss == [] then []
    else
      var init := ss[..|ss| - 1];
      SeenBy(init, teaser, check) + [Current(ss[|ss| - 1], ScanBy(init, teaser, check).removed)]
  }

  /** `idx` lists, in increasing order, exactly the seen sections that `teaser` calls protected,
      and `sections` records each of them: its markup as it was seen and its teaser path. */
  predicate ListsProtected(seen: seq<Node>, idx: seq<nat>, sections: seq<ProtectedSection>, teaser: Node -> Option<string>) {
    |idx| == |sections|
    && (forall i, j :: 0 <= i < j < |idx| ==> idx[i] < idx[j])
    && (forall i :: 0 <= i < |idx| ==>
          idx[i] < |seen| && teaser(seen[idx[i]]) == Some(sections[i].teaserPath)
          && sections[i].elementHtml == OuterHtml(seen[idx[i]]))
    && (forall k :: 0 <= k < |seen| && teaser(seen[k]).Some? ==> k in idx)
  }

  /** One more seen section extends the listing when it is protected and leaves it otherwise. */
  lemma ListsExtend(seen: seq<Node>, idx: seq<nat>, sections: seq<ProtectedSection>, teaser: Node -> Option<string>, v: Node)
    requires ListsProtected(seen, idx, sections, teaser)
    ensures teaser(v).Some? ==>
              ListsProtected(seen + [v], idx + [|seen|], sections + [ProtectedSection(OuterHtml(v), teaser(v).value)], teaser)
    ensures teaser(v).None? ==> ListsProtected(seen + [v], idx, sections, teaser)
  {
  }

  lemma {:induction false} ScanByRecords(ss: seq<Node>, teaser: Node -> Option<string>, check: Node --> BlockCheck)
    requires forall s <- ss :: s.Element?
    requires forall n: Node :: n.Element? ==> check.requires(n)
    ensures exists idx: seq<nat> :: ListsProtected(SeenBy(ss, teaser, check), idx, ScanBy(ss, teaser, check).sections, teaser)
    decreases |ss|
  {
    if ss == [] {
      assert SeenBy(ss, teaser, check) == [] && ScanBy(ss, teaser, check).sections == [];
      assert ListsProtected([], [], [], teaser);
    } else {
      var init := ss[..|ss| - 1];
      ScanByRecords(init, teaser, check);
      var idx0: seq<nat> :| ListsProtected(SeenBy(init, teaser, check), idx0, ScanBy(init, teaser, check).sections, teaser);
      var v := Current(ss[|ss| - 1], ScanBy(init, teaser, check).removed);
      ListsExtend(SeenBy(init, teaser, check), idx0, ScanBy(init, teaser, check).sections, teaser, v);
      if teaser(v).Some? {
        assert ListsProtected(SeenBy(ss, teaser, check), idx0 + [|init|], ScanBy(ss, teaser, check).sections, teaser);
      } else {
        assert ListsProtected(SeenBy(ss, teaser, check), idx0, ScanBy(ss, teaser, check).sections, teaser);
      }
    }
  }

  lemma {:induction false} ScanByInside(ss: seq<Node>, teaser: Node -> Option<string>, check: Node --> BlockCheck)
    requires forall s <- ss :: s.Element?
    requires forall n: Node :: n.Element? ==> check.requires(n) && check(n).removed <= Ids(n.children)
    ensures var seen := SeenBy(ss, teaser, check);
            forall id <- ScanBy(ss, teaser, check).removed ::
              exists k :: 0 <= k < |ss| && teaser(seen[k]).None? && id in Ids(ss[k].children)
    decreases |ss|
  {
    if ss != [] {
      var n := |ss| - 1;
      var init := ss[..n];
      ScanByInside(init, teaser, check);
      var seen0, seen := SeenBy(init, teaser, check), SeenBy(ss, teaser, check);
      assert forall k :: 0 <= k < n ==> seen[k] == seen0[k] && ss[k] == init[k];
      RemoveGone(ss[n].children, ScanBy(init, teaser, check).removed);
    }
  }

  /** The sections as the loop of lines 9-36 sees them: section `k` after the removals made by
      the sections before it. */
  function Seen(ss: seq<Node>): seq<Node>
    requires forall s <- ss :: s.Element?
  {
    SeenBy(ss, SectionTeaser, CheckBlocks)
  }

  lemma {:induction false} SeenByAt(ss: seq<Node>, teaser: Node -> Option<string>, check: Node --> BlockCheck, k: nat)
    requires k < |ss| && forall s <- ss :: s.Element?
    requires forall n: Node :: n.Element? ==> check.requires(n)
    ensures SeenBy(ss, teaser, check)[k] == Current(ss[k], ScanBy(ss[..k], teaser, check).removed)
    decreases |ss|
  {
    var init := ss[..|ss| - 1];
    if k < |init| {
      SeenByAt(init, teaser, check, k);
      assert init[..k] == ss[..k];
    } else {
      assert ss[..k] == init;
    }
  }

  lemma SeenAt(ss: seq<Node>, k: nat)
    requires k < |ss| && forall s <- ss :: s.Element?
    ensures Seen(ss)[k] == Current(ss[k], ScanAll(ss[..k]).removed)
  {
    SeenByAt(ss, SectionTeaser, CheckBlocks, k);
  }

  /** The scan records the protected sections, in document order, and nothing else. */
  lemma ScanAllRecords(ss: seq<Node>)
    requires forall s <- ss :: s.Element?
    ensures exists idx: seq<nat> :: ListsProtected(Seen(ss), idx, ScanAll(ss).sections, SectionTeaser)
  {
    var secs := ScanBy(ss, SectionTeaser, CheckBlocks).sections;
    assert ScanAll(ss).sections == secs;
    ScanByRecords(ss, SectionTeaser, CheckBlocks);
    var idx: seq<nat> :| ListsProtected(Seen(ss), idx, secs, SectionTeaser);
    assert ListsProtected(Seen(ss), idx, ScanAll(ss).sections, SectionTeaser);
  }

  /** Whatever the scan removes lies inside a section that is not protected as the loop sees it. */
  lemma ScanAllRemovesInside(ss: seq<Node>)
    requires forall s <- ss :: s.Element?
    ensures forall id <- ScanAll(ss).removed ::
              exists k :: 0 <= k < |ss| && SectionTeaser(Seen(ss)[k]).None? && id in Ids(ss[k].children)
  {
    forall n: Node | n.Element? ensures CheckBlocks(n).removed <= Ids(n.children) {
      CheckBlocksInside(n);
    }
    ScanByInside(ss, SectionTeaser, CheckBlocks);
  }

  // ---------------------------------------------------------------------------------------------
  // Reading the verdict back from metadata written in the authoring format.

  /** No element of the rows carries a class. */
  lemma {:induction false} RowsClassless(rows: seq<(string, string)>)
    ensures forall e <- Elements(Rows(rows)) :: ClassOf(e).None?
  {
    if rows != [] {
      var r := Row(rows[0].0, rows[0].1);
      assert Rows(rows) == [r] + Rows(rows[1..]);
      ElementsConcat([r], Rows(rows[1..]));
      RowClassless(rows[0].0, rows[0].1);
      RowsClassless(rows[1..]);
    }
  }

  /** No element of one row carries a class. */
  lemma RowClassless(key: string, value: string)
    ensures forall e <- Elements([Row(key, value)]) :: ClassOf(e).None?
  {
    var r := Row(key, value);
    assert Elements([r]) == [r] + Elements(r.children) + Elements([]);
    ElementsConcat([r.children[0]], [r.children[1]]);
    assert r.children == [r.children[0]] + [r.children[1]];
    assert Elements([r.children[0]]) == [r.children[0]] + Elements([Text(key)]) + Elements([]);
    assert Elements([r.children[1]]) == [r.children[1]] + Elements([Text(value)]) + Elements([]);
    assert Elements([Text(key)]) == [] && Elements([Text(value)]) == [];
  }

  /** The section `<div><div class="section-metadata">rows</div></div>`. */
  function MetadataSection(id: nat, metaId: nat, rows: seq<(string, string)>): Node {
    Element(id, "div", [], [Element(metaId, "div", [Attribute("class", "section-metadata")], Rows(rows))])
  }

  /** In such a section the metadata element is the only one the class selects, so a row is
      read from it alone. */
  lemma MetadataSectionValue(id: nat, metaId: nat, rows: seq<(string, string)>, word: string)
    ensures MetaValue(MetadataSection(id, metaId, rows), word) == CellValue(Rows(rows), word)
  {
    var s := MetadataSection(id, metaId, rows);
    var m := s.children[0];
    RowsClassless(rows);
    var es := Elements(s.children);
    assert s.children == [m] && s.children[1..] == [];
    assert es == [m] + Elements(Rows(rows)) + Elements([]);
    assert es[0] == m && es[1..] == Elements(Rows(rows));
    assert ClassOf(m) == Some("section-metadata");
    assert HasWord("section-metadata", "section-metadata") by {
      AtChars("section-metadata", "section-metadata", 0, false);
    }
    FilterClassless(Elements(Rows(rows)), ClassWord("section-metadata"));
    assert Filter(es, ClassWord("section-metadata")) == [m] + Filter(es[1..], ClassWord("section-metadata"));
    assert Select(s.children, ClassWord("section-metadata")) == [m];
    assert [m][1..] == [];
    assert FirstValue([m], word) == CellValue(Rows(rows), word);
  }

  lemma {:induction false} FilterClassless(es: seq<Node>, sel: Selector)
    requires sel.ClassWord? && forall e <- es :: ClassOf(e).None?
    ensures Filter(es, sel) == []
  {
    if es != [] {
      FilterClassless(es[1..], sel);
    }
  }

  /** The first `protected` row reads `true`. */
  lemma AuthoredProtected(id: nat, metaId: nat, rows: seq<(string, string)>, j: nat)
    requires j < |rows| && rows[j] == ("protected", "true")
    requires forall k :: 0 <= k < j ==> RowMisses(rows[k], "protected")
    ensures MetaValue(MetadataSection(id, metaId, rows), "protected") == Some("true")
  {
    TrimFixed("protected");
    TrimFixed("true");
    TrimFixed("protectedtrue");
    assert "protected" + "true" == "protectedtrue";
    RowsRoundTrip(rows, "protected", j);
    MetadataSectionValue(id, metaId, rows, "protected");
  }

  /** The first `teaser` row gives its trimmed value. */
  lemma AuthoredTeaser(id: nat, metaId: nat, rows: seq<(string, string)>, t: nat)
    requires t < |rows| && rows[t].0 == "teaser" && Trim("teaser" + rows[t].1) != "teaser"
    requires forall k :: 0 <= k < t ==> RowMisses(rows[k], "teaser")
    ensures MetaValue(MetadataSection(id, metaId, rows), "teaser") == Some(Trim(rows[t].1))
  {
    TrimFixed("teaser");
    RowsRoundTrip(rows, "teaser", t);
    MetadataSectionValue(id, metaId, rows, "teaser");
  }

  /** A section whose metadata, written in the authoring format, has a first `protected` row
      reading `true` is protected, with the value of its first `teaser` row as teaser path, or
      the default when no row carries `teaser`. */
  lemma AuthoredSection(id: nat, metaId: nat, rows: seq<(string, string)>, j: nat, t: Option<nat>)
    requires j < |rows| && rows[j] == ("protected", "true")
    requires forall k :: 0 <= k < j ==> RowMisses(rows[k], "protected")
    requires t.Some? ==> t.value < |rows| && rows[t.value].0 == "teaser" && Trim("teaser" + rows[t.value].1) != "teaser"
                         && forall k :: 0 <= k < t.value ==> RowMisses(rows[k], "teaser")
    requires t.None? ==> forall k :: 0 <= k < |rows| ==> RowMisses(rows[k], "teaser")
    ensures SectionTeaser(MetadataSection(id, metaId, rows))
            == Some(if t.Some? then Trim(rows[t.value].1) else Config.DefaultSectionTeaser)
  {
    AuthoredProtected(id, metaId, rows, j);
    if t.Some? {
      AuthoredTeaser(id, metaId, rows, t.value);
    } else {
      RowsNoKey(rows, "teaser");
      MetadataSectionValue(id, metaId, rows, "teaser");
    }
  }

  /** A text without surrounding white space is its own trim. */
  lemma TrimFixed(s: string)
    requires s == "protected" || s == "true" || s == "teaser" || s == "protectedtrue"
    ensures Trim(s) == s
  {
    TrimNoSpace(s, 0, |s|);
    assert s[0..|s|] == s;
  }

  /** Rows none of which carries the key give no value. */
  lemma {:induction false} RowsNoKey(rows: seq<(string, string)>, word: string)
    requires forall k :: 0 <= k < |rows| ==> RowMisses(rows[k], word)
    ensures CellValue(Rows(rows), word) == None
  {
    if rows != [] {
      var ns := Rows(rows);
      assert ns[1..] == Rows(rows[1..]);
      var r := Row(rows[0].0, rows[0].1);
      assert r.children[1..] == [r.children[1]];
      CellText(rows[0].0);
      CellText(rows[0].1);
      assert TextOf(r.children) == rows[0].0 + rows[0].1 by {
        assert TextOf(r.children[1..]) == rows[0].1 + TextOf([]);
      }
      assert CellValue(r.children[1..], word) == None by {
        assert CellValue(r.children[1].children, word) == None;
      }
      assert CellValue(r.children[0].children, word) == None;
      assert CellValue(r.children, word) == None;
      RowsNoKey(rows[1..], word);
    }
  }

  // ---------------------------------------------------------------------------------------------
  // The fragments and their replacement (lines 45-64).

  /** Lines 45-49. */
  function GenerateFragmentHtml(teaserPath: string, aemOrigin: string): string {
    "<div>\n        <p>" + Production.Anchor(teaserPath, aemOrigin + teaserPath) + "</p>\n      </div>"
  }

  /** The fragment's one link points at the teaser path and reads the origin followed by it. */
  lemma FragmentLink(teaserPath: string, aemOrigin: string)
    requires '"' !in teaserPath && '<' !in aemOrigin + teaserPath
    ensures Production.ParseLink(GenerateFragmentHtml(teaserPath, aemOrigin), 17)
              == Some((teaserPath, aemOrigin + teaserPath))
  {
    Production.AnchorRoundTrip("<div>\n        <p>", teaserPath, aemOrigin + teaserPath, "</p>\n      </div>");
  }

  /** The replacement of lines 52-61 as a value: sections first, then teaser blocks, each the
      first occurrence of its recorded markup in what the earlier ones left. */
  function ReplaceSections(html: string, sections: seq<ProtectedSection>, aemOrigin: string): string {
    if sections == [] then html
    else
      var last := sections[|sections| - 1];
      ReplaceFirst(ReplaceSections(html, sections[..|sections| - 1], aemOrigin), last.elementHtml,
                   GenerateFragmentHtml(last.teaserPath, aemOrigin))
  }

  function ReplaceBlocks(html: string, blocks: seq<TeaserBlock>, aemOrigin: string): string {
    if blocks == [] then html
    else
      var last := blocks[|blocks| - 1];
      ReplaceFirst(ReplaceBlocks(html, blocks[..|blocks| - 1], aemOrigin), last.elementHtml,
                   GenerateBlockFragmentHtml(last.teaserPath, aemOrigin))
  }

  /** Lines 51-64: `$.html()` is the serialisation of the document as the check left it. */
  method ApplySectionLevelProtection(doc: seq<Node>, check: SectionCheck, aemOrigin: string) returns (finalHtml: string)
    ensures finalHtml == ReplaceBlocks(ReplaceSections(Html(doc), check.sections, aemOrigin), check.teaserBlocks, aemOrigin)
  {
    finalHtml := Html(doc);
    for i := 0 to |check.sections|
      invariant finalHtml == ReplaceSections(Html(doc), check.sections[..i], aemOrigin)
    {
      assert check.sections[..i + 1][..i] == check.sections[..i];
      var section := check.sections[i];
      finalHtml := ReplaceFirst(finalHtml, section.elementHtml, GenerateFragmentHtml(section.teaserPath, aemOrigin));
    }
    assert check.sections[..|check.sections|] == check.sections;
    ghost var afterSections := finalHtml;
    for i := 0 to |check.teaserBlocks|
      invariant finalHtml == ReplaceBlocks(afterSections, check.teaserBlocks[..i], aemOrigin)
    {
      assert check.teaserBlocks[..i + 1][..i] == check.teaserBlocks[..i];
      var block := check.teaserBlocks[i];
      finalHtml := ReplaceFirst(finalHtml, block.elementHtml, GenerateBlockFragmentHtml(block.teaserPath, aemOrigin));
    }
    assert check.teaserBlocks[..|check.teaserBlocks|] == check.teaserBlocks;
  }

  /** One protected section whose markup first occurs at `p`, with a teaser path free of `$`,
      is replaced there by its fragment and nothing else changes. */
  lemma OneSectionReplaced(html: string, s: ProtectedSection, aemOrigin: string, p: nat)
    requires At(html, s.elementHtml, p, false) && forall q :: 0 <= q < p ==> !At(html, s.elementHtml, q, false)
    requires DollarFree(s.teaserPath) && DollarFree(aemOrigin)
    ensures ReplaceBlocks(ReplaceSections(html, [s], aemOrigin), [], aemOrigin)
            == html[..p] + GenerateFragmentHtml(s.teaserPath, aemOrigin) + html[p + |s.elementHtml|..]
  {
    assert [s][..0] == [];
    FragmentDollarFree(s.teaserPath, aemOrigin);
    ReplaceFirstAt(html, s.elementHtml, GenerateFragmentHtml(s.teaserPath, aemOrigin), p);
  }

  lemma FragmentDollarFree(teaserPath: string, aemOrigin: string)
    requires DollarFree(teaserPath) && DollarFree(aemOrigin)
    ensures DollarFree(GenerateFragmentHtml(teaserPath, aemOrigin))
  {
    var f := GenerateFragmentHtml(teaserPath, aemOrigin);
    assert f == "<div>\n        <p>" + "<a href=\"" + teaserPath + "\">" + aemOrigin + teaserPath + "</a>" + "</p>\n      </div>";
  }

  /** Records whose markup does not occur leave the text as it is. */
  lemma {:induction false} AbsentSectionsKeep(html: string, sections: seq<ProtectedSection>, aemOrigin: string)
    requires forall s <- sections, p :: !At(html, s.elementHtml, p, false)
    ensures ReplaceSections(html, sections, aemOrigin) == html
  {
    if sections != [] {
      var init := sections[..|sections| - 1];
      assert forall s <- init :: s in sections;
      AbsentSectionsKeep(html, init, aemOrigin);
      var last := sections[|sections| - 1];
      ReplaceFirstAbsent(html, last.elementHtml, GenerateFragmentHtml(last.teaserPath, aemOrigin));
    }
  }
}
