/** src/handlers/block-protection.js: inside one section, the protected blocks that carry a teaser
    are recorded for replacement; when there are none, blocks paired by an `id-` class lose their
    protected member. */
module BlockProtection {
  import opened JsString
  import opened HtmlTree
  import Production

  /** A block recorded for replacement: its outer markup and its teaser path. */
  datatype TeaserBlock = TeaserBlock(elementHtml: string, teaserPath: string)

  /** `$(el).text().trim()`. */
  function TrimmedText(n: Node): string {
    if n.Element? then Trim(TextOf(n.children)) else ""
  }

  /** The descendant divs of an element (`$el.find('div')`). */
  function DivsBelow(n: Node): seq<Node> {
    if n.Element? then Select(n.children, TagIs("div")) else []
  }

  /** `$el.find('div').last().text().trim()`: the trimmed text of the last descendant div in
      document order, or nothing when there is none. */
  function LastDivText(n: Node): string {
    var divs := DivsBelow(n);
    if divs == [] then "" else TrimmedText(divs[|divs| - 1])
  }

  // ---------------------------------------------------------------------------------------------
  // Teaser blocks (lines 4-37).

  /** Line 17: the text names a fragment: it holds `/fragments/` or `/teasers/`, or it is a
      root-relative path longer than `/`. */
  predicate IsFragmentPath(text: string) {
    Includes(text, "/fragments/") || Includes(text, "/teasers/") || (StartsWith(text, "/") && |text| > 1)
  }

  /** The trimmed texts of an element's descendant divs, in document order. */
  function DivTexts(block: Node): (texts: seq<string>)
    ensures |texts| == |DivsBelow(block)|
  {
    var divs := DivsBelow(block);
    seq(|divs|, k requires 0 <= k < |divs| => TrimmedText(divs[k]))
  }

  /** What the filter of lines 4-23 keeps: among the block's descendant divs one reads `teaser`
      and one (the same or another) reads a fragment path. */
  predicate IsTeaserBlock(block: Node) {
    var texts := DivTexts(block);
    "teaser" in texts && exists t <- texts :: IsFragmentPath(t)
  }

  /** Lines 5-22: the filter's callback, raising its two flags over the descendant divs. */
  method HasTeaserRows(block: Node) returns (keep: bool)
    ensures keep == IsTeaserBlock(block)
  {
    var divs := DivsBelow(block);
    ghost var texts := DivTexts(block);
    var hasTeaserKeyword := false;
    var hasFragmentPath := false;
    for i := 0 to |divs|
      invariant hasTeaserKeyword <==> "teaser" in texts[..i]
      invariant hasFragmentPath <==> exists t <- texts[..i] :: IsFragmentPath(t)
    {
      var text := TrimmedText(divs[i]);
      DivTextAt(block, i);
      TakeOneMore(texts, i);
      if text == "teaser" {
        hasTeaserKeyword := true;
      }
      if IsFragmentPath(text) {
        hasFragmentPath := true;
      }
    }
    assert texts[..|divs|] == texts;
    keep := hasTeaserKeyword && hasFragmentPath;
  }

  lemma DivTextAt(block: Node, i: nat)
    requires i < |DivsBelow(block)|
    ensures DivTexts(block)[i] == TrimmedText(DivsBelow(block)[i])
  {
  }

  lemma TakeOneMore(texts: seq<string>, i: nat)
    requires i < |texts|
    ensures texts[..i + 1] == texts[..i] + [texts[i]]
  {
  }

  /** The candidates `bs` the filter keeps, in order. */
  function TeaserBlocks(bs: seq<Node>): (r: seq<Node>)
    ensures forall b <- r :: b in bs && IsTeaserBlock(b)
    ensures forall b <- bs :: IsTeaserBlock(b) ==> b in r
  {
    FilterBySpec(bs, IsTeaserBlock);
    FilterBy(bs, IsTeaserBlock)
  }

  /** Lines 27-33: a teaser block's record: its outer markup and the trimmed text of its last
      descendant div (the empty text when it has none). */
  function Record(block: Node): TeaserBlock {
    TeaserBlock(OuterHtml(block), LastDivText(block))
  }

  /** The records of the blocks `bs`, one per block and in the same order. */
  function Records(bs: seq<Node>): seq<TeaserBlock> {
    MapNodes(bs, Record)
  }

  // ---------------------------------------------------------------------------------------------
  // `id-` groups (lines 39-65).

  /** The end of the run of non-space characters from `j`. */
  function SpaceEnd(c: string, j: nat): (k: nat)
    requires j <= |c|
    ensures j <= k <= |c| && (k == |c| || IsSpace(c[k]))
    ensures forall x :: j <= x < k ==> !IsSpace(c[x])
    decreases |c| - j
  {
    if j < |c| && !IsSpace(c[j]) then SpaceEnd(c, j + 1) else j
  }

  /** `id-([^\s]+)` tried from `p` on: the capture of the leftmost match. */
  function IdKeyFrom(c: string, p: nat): (r: Option<string>)
    decreases |c| - p
  {
    if p + 3 >= |c| then None
    else if At(c, "id-", p, false) && !IsSpace(c[p + 3]) then Some(c[p + 3..SpaceEnd(c, p + 3)])
    else IdKeyFrom(c, p + 1)
  }

  /** Line 43: the group key of a class attribute. */
  function IdKey(c: string): Option<string> {
    IdKeyFrom(c, 0)
  }

  /** `id-` followed by a non-space character starts at `p`. */
  predicate KeyStart(c: string, p: nat) {
    p + 3 < |c| && At(c, "id-", p, false) && !IsSpace(c[p + 3])
  }

  /** The key is the non-empty, space-free text after the leftmost `id-` that is followed by a
      non-space character, and there is no key exactly when no such `id-` exists. */
  lemma {:induction false} IdKeyFromSpec(c: string, p: nat)
    ensures IdKeyFrom(c, p).None? <==> forall q :: p <= q ==> !KeyStart(c, q)
    ensures IdKeyFrom(c, p).Some? ==>
              exists q :: p <= q && KeyStart(c, q)
                && (forall q' :: p <= q' < q ==> !KeyStart(c, q'))
                && IdKeyFrom(c, p).value == c[q + 3..SpaceEnd(c, q + 3)]
    decreases |c| - p
  {
    if p + 3 >= |c| {
      assert IdKeyFrom(c, p) == None;
    } else if KeyStart(c, p) {
      assert IdKeyFrom(c, p) == Some(c[p + 3..SpaceEnd(c, p + 3)]);
    } else {
      assert IdKeyFrom(c, p) == IdKeyFrom(c, p + 1);
      IdKeyFromSpec(c, p + 1);
      if IdKeyFrom(c, p).Some? {
        var q :| p + 1 <= q && KeyStart(c, q)
                 && (forall q' :: p + 1 <= q' < q ==> !KeyStart(c, q'))
                 && IdKeyFrom(c, p).value == c[q + 3..SpaceEnd(c, q + 3)];
        assert forall q' :: p <= q' < q ==> !KeyStart(c, q');
      }
    }
  }

  lemma IdKeyShape(c: string)
    ensures IdKey(c).Some? ==> IdKey(c).value != [] && (forall x :: 0 <= x < |IdKey(c).value| ==> !IsSpace(IdKey(c).value[x]))
                               && Includes(c, "id-" + IdKey(c).value)
  {
    IdKeyFromSpec(c, 0);
    if IdKey(c).Some? {
      var q :| 0 <= q && KeyStart(c, q) && IdKey(c).value == c[q + 3..SpaceEnd(c, q + 3)];
      KeyAt(c, q);
    }
  }

  /** The key read after an `id-` at `q` is non-empty, space-free and written after `id-`. */
  lemma KeyAt(c: string, q: nat)
    requires KeyStart(c, q)
    ensures var key := c[q + 3..SpaceEnd(c, q + 3)];
            key != [] && (forall x :: 0 <= x < |key| ==> !IsSpace(key[x])) && Includes(c, "id-" + key)
  {
    var e := SpaceEnd(c, q + 3);
    assert e == SpaceEnd(c, q + 4);
    var key := c[q + 3..e];
    assert |key| == e - (q + 3) > 0;
    forall x | 0 <= x < |key| ensures !IsSpace(key[x]) {
      assert key[x] == c[q + 3 + x];
    }
    AtChars(c, "id-", q, false);
    AtChars(c, "id-" + key, q, false);
    IncludesSpec(c, "id-" + key);
  }

  /** A class attribute that starts with `id-key` gives `key` back. */
  lemma IdKeyOf(key: string, rest: string)
    requires key != [] && forall x :: 0 <= x < |key| ==> !IsSpace(key[x])
    requires rest == [] || IsSpace(rest[0])
    ensures IdKey("id-" + key + rest) == Some(key)
  {
    var c := "id-" + key + rest;
    AtChars(c, "id-", 0, false);
    assert c[3] == key[0];
    assert KeyStart(c, 0);
    var e := SpaceEnd(c, 3);
    forall x | 3 <= x < 3 + |key| ensures !IsSpace(c[x]) {
      assert c[x] == key[x - 3];
    }
    if rest != [] {
      assert c[3 + |key|] == rest[0];
    }
    assert e == 3 + |key|;
    assert c[3..e] == key;
  }

  /** One group: the identities of its last normal and last protected member so far. */
  datatype Pair = Pair(normal: Option<nat>, protected: Option<nat>)

  /** Line 42: the class attribute, or the empty text. */
  function ClassText(block: Node): string {
    OrEmpty(ClassOf(block))
  }

  function KeyOf(block: Node): Option<string> {
    IdKey(ClassText(block))
  }

  /** Line 44. */
  predicate IsProtectedBlock(block: Node) {
    Includes(ClassText(block), "protected")
  }

  /** Lines 41-56 for one block, with the reading of its key and of its kind as parameters: a
      block with a key becomes its group's member of its kind, replacing an earlier one. */
  function EnterBy(blocks: map<string, Pair>, block: Node, keyOf: Node -> Option<string>, kind: Node -> bool): map<string, Pair>
    requires block.Element?
  {
    match keyOf(block)
    case None => blocks
    case Some(key) =>
      var pair := if key in blocks then blocks[key] else Pair(None, None);
      blocks[key := if kind(block) then pair.(protected := Some(block.id)) else pair.(normal := Some(block.id))]
  }

  /** Lines 41-56 for one block, keyed by its `id-` class and split by `protected`. */
  function Enter(blocks: map<string, Pair>, block: Node): map<string, Pair>
    requires block.Element?
  {
    EnterBy(blocks, block, KeyOf, IsProtectedBlock)
  }

  function GroupsBy(bs: seq<Node>, keyOf: Node -> Option<string>, kind: Node -> bool): map<string, Pair>
    requires forall b <- bs :: b.Element?
  {
    if bs == [] then map[]
    else
      var init := bs[..|bs| - 1];
      assert forall b <- init :: b in bs;
      EnterBy(GroupsBy(init, keyOf, kind), bs[|bs| - 1], keyOf, kind)
  }

  /** The groups after the blocks `bs`, entered in order. */
  function Groups(bs: seq<Node>): map<string, Pair>
    requires forall b <- bs :: b.Element?
  {
    GroupsBy(bs, KeyOf, IsProtectedBlock)
  }

  /** The identity of the last block of `bs` that `member` accepts. */
  function LastWhere(bs: seq<Node>, member: Node -> bool): Option<nat>
    requires forall b <- bs :: b.Element?
  {
    if bs == [] then None
    else if member(bs[|bs| - 1]) then Some(bs[|bs| - 1].id)
    else LastWhere(bs[..|bs| - 1], member)
  }

  /** The last block `member` accepts is accepted, with nothing accepted after it. */
  lemma {:induction false} LastWhereSpec(bs: seq<Node>, member: Node -> bool)
    requires forall b <- bs :: b.Element?
    ensures LastWhere(bs, member).None? <==> forall j :: 0 <= j < |bs| ==> !member(bs[j])
    ensures LastWhere(bs, member).Some? ==>
              exists j :: 0 <= j < |bs| && bs[j].id == LastWhere(bs, member).value && member(bs[j])
                && forall j' :: j < j' < |bs| ==> !member(bs[j'])
  {
    if bs != [] {
      var n := |bs| - 1;
      var init := bs[..n];
      if member(bs[n]) {
        assert LastWhere(bs, member) == Some(bs[n].id);
      } else {
        assert forall b <- init :: b in bs;
        assert LastWhere(bs, member) == LastWhere(init, member);
        LastWhereSpec(init, member);
        if LastWhere(init, member).Some? {
          var j :| 0 <= j < n && init[j].id == LastWhere(init, member).value && member(init[j])
                   && forall j' :: j < j' < n ==> !member(init[j']);
          assert bs[j] == init[j];
          forall j' | j < j' < |bs| ensures !member(bs[j']) {
            if j' < n { assert bs[j'] == init[j']; }
          }
        } else {
          forall j | 0 <= j < |bs| ensures !member(bs[j]) {
            if j < n { assert bs[j] == init[j]; }
          }
        }
      }
    }
  }

  /** Whether a block is a member of group `key` of the given kind. */
  function MemberBy(keyOf: Node -> Option<string>, kind: Node -> bool, key: string, protected: bool): Node -> bool {
    b => keyOf(b) == Some(key) && kind(b) == protected
  }

  /** The identity of the last member of group `key` of the given kind among `bs`. */
  function LastOf(bs: seq<Node>, key: string, protected: bool): Option<nat>
    requires forall b <- bs :: b.Element?
  {
    LastWhere(bs, MemberBy(KeyOf, IsProtectedBlock, key, protected))
  }

  /** The last member of a kind is a member of that kind with nothing of that kind after it. */
  lemma LastOfSpec(bs: seq<Node>, key: string, protected: bool)
    requires forall b <- bs :: b.Element?
    ensures LastOf(bs, key, protected).None? <==>
              forall j :: 0 <= j < |bs| ==> !(KeyOf(bs[j]) == Some(key) && IsProtectedBlock(bs[j]) == protected)
    ensures LastOf(bs, key, protected).Some? ==>
              exists j :: 0 <= j < |bs| && bs[j].id == LastOf(bs, key, protected).value
                && KeyOf(bs[j]) == Some(key) && IsProtectedBlock(bs[j]) == protected
                && forall j' :: j < j' < |bs| ==> !(KeyOf(bs[j']) == Some(key) && IsProtectedBlock(bs[j']) == protected)
  {
    LastWhereSpec(bs, MemberBy(KeyOf, IsProtectedBlock, key, protected));
  }

  /** The groups are keyed by the keys that occur, and each holds the last member of each kind
      of its key: a later member of the same kind overwrites an earlier one. */
  lemma GroupsHoldLast(bs: seq<Node>)
    requires forall b <- bs :: b.Element?
    ensures forall key :: key in Groups(bs) <==> exists j :: 0 <= j < |bs| && KeyOf(bs[j]) == Some(key)
    ensures forall key <- Groups(bs) :: Groups(bs)[key] == Pair(LastOf(bs, key, false), LastOf(bs, key, true))
  {
    GroupsByKeys(bs, KeyOf, IsProtectedBlock);
    GroupsByLast(bs, KeyOf, IsProtectedBlock);
  }

  lemma {:induction false} GroupsByKeys(bs: seq<Node>, keyOf: Node -> Option<string>, kind: Node -> bool)
    requires forall b <- bs :: b.Element?
    ensures forall key :: key in GroupsBy(bs, keyOf, kind) <==> exists j :: 0 <= j < |bs| && keyOf(bs[j]) == Some(key)
  {
    if bs != [] {
      var n := |bs| - 1;
      var init, last := bs[..n], bs[n];
      assert forall j :: 0 <= j < n ==> init[j] == bs[j];
      assert forall b <- init :: b in bs;
      GroupsByKeys(init, keyOf, kind);
      forall key ensures key in GroupsBy(bs, keyOf, kind) <==> exists j :: 0 <= j < |bs| && keyOf(bs[j]) == Some(key) {
        if keyOf(last) == Some(key) {
          assert keyOf(bs[n]) == Some(key);
        }
      }
    }
  }

  lemma {:induction false} GroupsByLast(bs: seq<Node>, keyOf: Node -> Option<string>, kind: Node -> bool)
    requires forall b <- bs :: b.Element?
    ensures forall key <- GroupsBy(bs, keyOf, kind) ::
              GroupsBy(bs, keyOf, kind)[key]
              == Pair(LastWhere(bs, MemberBy(keyOf, kind, key, false)), LastWhere(bs, MemberBy(keyOf, kind, key, true)))
  {
    if bs != [] {
      var n := |bs| - 1;
      var init, last := bs[..n], bs[n];
      assert forall j :: 0 <= j < n ==> init[j] == bs[j];
      assert forall b <- init :: b in bs;
      GroupsByLast(init, keyOf, kind);
      GroupsByKeys(init, keyOf, kind);
      var g := GroupsBy(bs, keyOf, kind);
      forall key <- g
        ensures g[key] == Pair(LastWhere(bs, MemberBy(keyOf, kind, key, false)), LastWhere(bs, MemberBy(keyOf, kind, key, true)))
      {
        if keyOf(last) != Some(key) {
          assert LastWhere(bs, MemberBy(keyOf, kind, key, false)) == LastWhere(init, MemberBy(keyOf, kind, key, false));
          assert LastWhere(bs, MemberBy(keyOf, kind, key, true)) == LastWhere(init, MemberBy(keyOf, kind, key, true));
        } else if key !in GroupsBy(init, keyOf, kind) {
          LastWhereSpec(init, MemberBy(keyOf, kind, key, false));
          LastWhereSpec(init, MemberBy(keyOf, kind, key, true));
        }
      }
    }
  }

  /** Lines 59-65: the protected member of every group that also has a normal one. */
  function PairedProtected(blocks: map<string, Pair>): set<nat> {
    set key | key in blocks && blocks[key].normal.Some? && blocks[key].protected.Some? :: blocks[key].protected.value
  }

  /** Only a group with both kinds loses a member: each identity removed is the last protected
      member of a key that also has a normal member, and every such key loses its last protected
      member. */
  lemma PairedOnly(bs: seq<Node>, id: nat)
    requires forall b <- bs :: b.Element?
    ensures id in PairedProtected(Groups(bs)) <==>
              exists key :: LastOf(bs, key, true) == Some(id) && LastOf(bs, key, false).Some?
  {
    GroupsHoldLast(bs);
    if exists key :: LastOf(bs, key, true) == Some(id) && LastOf(bs, key, false).Some? {
      var key :| LastOf(bs, key, true) == Some(id) && LastOf(bs, key, false).Some?;
      LastOfSpec(bs, key, true);
      var j :| 0 <= j < |bs| && KeyOf(bs[j]) == Some(key);
      assert key in Groups(bs);
    }
  }

  /** Without both kinds in one group nothing is removed. */
  lemma SingleKindKept(bs: seq<Node>)
    requires forall b <- bs :: b.Element?
    requires forall j, j' :: 0 <= j < |bs| && 0 <= j' < |bs| && KeyOf(bs[j]).Some? && KeyOf(bs[j]) == KeyOf(bs[j'])
               ==> IsProtectedBlock(bs[j]) == IsProtectedBlock(bs[j'])
    ensures PairedProtected(Groups(bs)) == {}
  {
    forall id | id in PairedProtected(Groups(bs)) ensures false {
      PairedOnly(bs, id);
      var key :| LastOf(bs, key, true) == Some(id) && LastOf(bs, key, false).Some?;
      LastOfSpec(bs, key, true);
      LastOfSpec(bs, key, false);
    }
  }

  // ---------------------------------------------------------------------------------------------
  // The groups as written: a plain object as the dictionary.

  /** The names an empty object literal already answers with a truthy value: the properties of
      `Object.prototype`. */
  const InheritedNames: set<string> := {"constructor", "hasOwnProperty", "isPrototypeOf", "propertyIsEnumerable",
    "toLocaleString", "toString", "valueOf", "__defineGetter__", "__defineSetter__", "__lookupGetter__",
    "__lookupSetter__", "__proto__"}

  /** Lines 47-56 as written, with `blocks = {}`: for a key the object inherits, `!blocks[blockId]`
      is false, so no entry of its own is made and the member is stored on the inherited value,
      which `Object.entries` (line 60) does not list. */
  function EnterAsWritten(blocks: map<string, Pair>, block: Node): map<string, Pair>
    requires block.Element?
  {
    match KeyOf(block)
    case None => blocks
    case Some(key) => if key in InheritedNames then blocks else Enter(blocks, block)
  }

  function GroupsAsWritten(bs: seq<Node>): map<string, Pair>
    requires forall b <- bs :: b.Element?
  {
    if bs == [] then map[] else EnterAsWritten(GroupsAsWritten(bs[..|bs| - 1]), bs[|bs| - 1])
  }

  /** With the dictionary as written, a normal and a protected block whose key `Object.prototype`
      already has are never paired, so the protected block stays; the grouping the rest of the
      model uses removes it. */
  lemma InheritedKeyKept(key: string, normal: Node, prot: Node)
    requires key in InheritedNames && normal.Element? && prot.Element?
    requires KeyOf(normal) == Some(key) && !IsProtectedBlock(normal)
    requires KeyOf(prot) == Some(key) && IsProtectedBlock(prot)
    ensures PairedProtected(GroupsAsWritten([normal, prot])) == {}
    ensures PairedProtected(Groups([normal, prot])) == {prot.id}
  {
    var bs := [normal, prot];
    assert bs[..1][..0] == [] && bs[..1][0] == normal && bs[..2] == bs;
    assert GroupsAsWritten(bs[..1]) == map[];
    assert GroupsBy(bs[..1][..0], KeyOf, IsProtectedBlock) == map[];
    assert Groups(bs[..1]) == EnterBy(map[], normal, KeyOf, IsProtectedBlock) == map[key := Pair(Some(normal.id), None)];
    assert Groups(bs) == EnterBy(Groups(bs[..1]), prot, KeyOf, IsProtectedBlock);
    assert Groups(bs) == map[key := Pair(Some(normal.id), Some(prot.id))];
  }

  /** A text without the letter `p` does not hold `protected`. */
  lemma NoProtectedWithoutP(c: string)
    requires forall x :: 0 <= x < |c| ==> c[x] != 'p'
    ensures !Includes(c, "protected")
  {
    IncludesSpec(c, "protected");
    forall q ensures !At(c, "protected", q, false) {
      AtChars(c, "protected", q, false);
    }
  }

  /** `protected` as the last word of a class attribute. */
  lemma ProtectedWord(pre: string)
    ensures Includes(pre + " protected", "protected")
  {
    AtConcat(pre + " ", "protected", "");
    assert pre + " " + "protected" + "" == pre + " protected";
    IncludesSpec(pre + " protected", "protected");
  }

  /** The class attributes `id-constructor` and `id-constructor protected`. */
  const ConstructorClass := "id-" + "constructor"
  const ProtectedConstructorClass := ConstructorClass + " protected"

  /** `<div class="id-constructor">` is a normal block of the key `constructor`. */
  lemma NormalConstructorBlock(normal: Node)
    requires normal == Element(1, "div", [Attribute("class", ConstructorClass)], [Text("public")])
    ensures KeyOf(normal) == Some("constructor") && !IsProtectedBlock(normal)
  {
    assert ClassText(normal) == ConstructorClass == "id-" + "constructor" + "";
    IdKeyOf("constructor", "");
    NoProtectedWithoutP(ConstructorClass);
  }

  /** `<div class="id-constructor protected">` is a protected block of the key `constructor`. */
  lemma ProtectedConstructorBlock(prot: Node)
    requires prot == Element(2, "div", [Attribute("class", ProtectedConstructorClass)], [Text("members only")])
    ensures KeyOf(prot) == Some("constructor") && IsProtectedBlock(prot)
  {
    assert ClassText(prot) == ProtectedConstructorClass;
    IdKeyOf("constructor", " protected");
    ProtectedWord(ConstructorClass);
  }

  /** A section holding `<div class="id-constructor">` and `<div class="id-constructor protected">`
      keeps its protected block when the dictionary is a plain object. */
  lemma ConstructorPair(normal: Node, prot: Node)
    requires normal == Element(1, "div", [Attribute("class", ConstructorClass)], [Text("public")])
    requires prot == Element(2, "div", [Attribute("class", ProtectedConstructorClass)], [Text("members only")])
    ensures PairedProtected(GroupsAsWritten([normal, prot])) == {}
    ensures PairedProtected(Groups([normal, prot])) == {2}
  {
    NormalConstructorBlock(normal);
    ProtectedConstructorBlock(prot);
    InheritedKeyKept("constructor", normal, prot);
  }

  // ---------------------------------------------------------------------------------------------
  // The whole check for one section.

  /** What the check finds in a section: the teaser blocks to record, and the identities to
      remove. */
  datatype BlockCheck = BlockCheck(teaserBlocks: seq<TeaserBlock>, removed: set<nat>)

  const ProtectedDivs := ClassPart(Some("div"), "protected")
  const IdDivs := ClassPart(Some("div"), "id-")

  function CheckBlocks(section: Node): BlockCheck
    requires section.Element?
  {
    var teasers := TeaserBlocks(Select(section.children, ProtectedDivs));
    if teasers != [] then BlockCheck(Records(teasers), {})
    else BlockCheck([], PairedProtected(Groups(Select(section.children, IdDivs))))
  }

  /** The check of a section removes only elements inside that section. */
  lemma CheckBlocksInside(section: Node)
    requires section.Element?
    ensures CheckBlocks(section).removed <= Ids(section.children)
  {
    var bs := Select(section.children, IdDivs);
    if TeaserBlocks(Select(section.children, ProtectedDivs)) == [] {
      ElementIds(section.children);
      forall id | id in PairedProtected(Groups(bs)) ensures id in Ids(section.children) {
        PairedOnly(bs, id);
        var key :| LastOf(bs, key, true) == Some(id) && LastOf(bs, key, false).Some?;
        LastOfSpec(bs, key, true);
        var j :| 0 <= j < |bs| && bs[j].id == id;
        assert bs[j] in Elements(section.children);
      }
    }
  }

  /** The identities named by the keys `keys` that the forEach of lines 60-64 removes. */
  function RemovedOver(blocks: map<string, Pair>, keys: seq<string>): set<nat> {
    set key | key in keys && key in blocks && blocks[key].normal.Some? && blocks[key].protected.Some? :: blocks[key].protected.value
  }

  /** One more key removes its group's protected member when the group is complete. */
  lemma RemovedOverStep(blocks: map<string, Pair>, keys: seq<string>, key: string)
    requires key in blocks
    ensures var pair := blocks[key];
            RemovedOver(blocks, keys + [key])
            == RemovedOver(blocks, keys) + (if pair.normal.Some? && pair.protected.Some? then {pair.protected.value} else {})
  {
  }

  /** Lines 4-23: the filter over the candidates. */
  method FilterTeaserBlocks(candidates: seq<Node>) returns (teasers: seq<Node>)
    ensures teasers == TeaserBlocks(candidates)
  {
    teasers := [];
    for i := 0 to |candidates|
      invariant teasers == FilterBy(candidates[..i], IsTeaserBlock)
    {
      var keep := HasTeaserRows(candidates[i]);
      FilterByPrefix(candidates, i, IsTeaserBlock);
      if keep {
        teasers := teasers + [candidates[i]];
      }
    }
    assert candidates[..|candidates|] == candidates;
  }

  /** Lines 39-57: the groups, and their keys in the order they were first seen. */
  method GroupBlocks(idBlocks: seq<Node>) returns (blocks: map<string, Pair>, order: seq<string>)
    requires forall b <- idBlocks :: b.Element?
    ensures blocks == Groups(idBlocks)
    ensures forall key :: key in blocks <==> key in order
  {
    blocks := map[];
    order := [];
    for i := 0 to |idBlocks|
      invariant blocks == Groups(idBlocks[..i])
      invariant forall key :: key in blocks <==> key in order
    {
      assert idBlocks[..i + 1][..i] == idBlocks[..i];
      var block := idBlocks[i];
      var classAttr := ClassText(block);
      var idMatch := IdKey(classAttr);
      var isProtected := Includes(classAttr, "protected");
      if idMatch.Some? {
        var blockId := idMatch.value;
        if blockId !in blocks {
          blocks := blocks[blockId := Pair(None, None)];
          order := order + [blockId];
        }
        if isProtected {
          blocks := blocks[blockId := blocks[blockId].(protected := Some(block.id))];
        } else {
          blocks := blocks[blockId := blocks[blockId].(normal := Some(block.id))];
        }
      }
    }
    assert idBlocks[..|idBlocks|] == idBlocks;
  }

  /** Lines 59-65: each complete group's protected member is removed from the document. */
  method RemovePairs(doc: seq<Node>, blocks: map<string, Pair>, order: seq<string>) returns (doc': seq<Node>)
    requires forall key :: key in blocks <==> key in order
    ensures doc' == Remove(doc, PairedProtected(blocks))
  {
    doc' := doc;
    ghost var removed: set<nat> := {};
    RemoveNone(doc, {});
    for i := 0 to |order|
      invariant removed == RemovedOver(blocks, order[..i])
      invariant doc' == Remove(doc, removed)
    {
      var pair := blocks[order[i]];
      assert order[..i + 1] == order[..i] + [order[i]];
      RemovedOverStep(blocks, order[..i], order[i]);
      if pair.normal.Some? && pair.protected.Some? {
        RemoveTwice(doc, removed, {pair.protected.value});
        doc' := Remove(doc', {pair.protected.value});
        removed := removed + {pair.protected.value};
      }
    }
    assert order[..|order|] == order;
    assert RemovedOver(blocks, order) == PairedProtected(blocks);
  }

  /** Lines 25-34: each teaser block is appended to the caller's list. */
  method RecordTeaserBlocks(teasers: seq<Node>, teaserBlocks: seq<TeaserBlock>) returns (teaserBlocks': seq<TeaserBlock>)
    ensures teaserBlocks' == teaserBlocks + Records(teasers)
  {
    teaserBlocks' := teaserBlocks;
    for i := 0 to |teasers|
      invariant teaserBlocks' == teaserBlocks + Records(teasers[..i])
    {
      assert teasers[..i + 1][..i] == teasers[..i];
      teaserBlocks' := teaserBlocks' + [Record(teasers[i])];
    }
    assert teasers[..|teasers|] == teasers;
  }

  /** Lines 2-66 on the element tree: `doc` is the document and `section` the section as it
      stands in it. */
  method CheckBlockProtectionInSection(doc: seq<Node>, section: Node, teaserBlocks: seq<TeaserBlock>)
      returns (doc': seq<Node>, teaserBlocks': seq<TeaserBlock>)
    requires section.Element?
    ensures teaserBlocks' == teaserBlocks + CheckBlocks(section).teaserBlocks
    ensures doc' == Remove(doc, CheckBlocks(section).removed)
  {
    var teasers := FilterTeaserBlocks(Select(section.children, ProtectedDivs));
    if |teasers| > 0 {
      teaserBlocks' := RecordTeaserBlocks(teasers, teaserBlocks);
      RemoveNone(doc, {});
      doc' := doc;
    } else {
      var blocks, order := GroupBlocks(Select(section.children, IdDivs));
      doc' := RemovePairs(doc, blocks, order);
      teaserBlocks' := teaserBlocks;
    }
  }

  /** A section with a teaser block loses nothing; one without records nothing. */
  lemma TeasersOrPairs(section: Node)
    requires section.Element?
    ensures var r := CheckBlocks(section);
            (r.teaserBlocks != [] ==> r.removed == {})
            && (r.teaserBlocks == [] <==> forall b <- Select(section.children, ProtectedDivs) :: !IsTeaserBlock(b))
  {
    var candidates := Select(section.children, ProtectedDivs);
    var teasers := TeaserBlocks(candidates);
    if teasers != [] {
      assert teasers[0] in teasers;
    }
  }

  // ---------------------------------------------------------------------------------------------
  // The fragment (lines 68-70).

  function GenerateBlockFragmentHtml(teaserPath: string, aemOrigin: string): string {
    "<p>" + Production.Anchor(teaserPath, aemOrigin + teaserPath) + "</p>"
  }

  /** The fragment's one link points at the teaser path and reads the origin followed by it. */
  lemma BlockFragmentLink(teaserPath: string, aemOrigin: string)
    requires '"' !in teaserPath && '<' !in aemOrigin + teaserPath
    ensures Production.ParseLink(GenerateBlockFragmentHtml(teaserPath, aemOrigin), 3)
              == Some((teaserPath, aemOrigin + teaserPath))
  {
    Production.AnchorRoundTrip("<p>", teaserPath, aemOrigin + teaserPath, "</p>");
  }
}
