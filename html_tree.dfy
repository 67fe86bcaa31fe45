/** The parsed document the DOM-based workers query and edit (cheerio's `load`).  A document is a
    forest of nodes; an element carries an identity `id`, the stand-in for the library's element
    object, so that "remove this element" can be said of a value.  Only removal edits a parsed
    document, and the state after any number of removals is the original forest with the removed
    elements cut out (`Remove`), attached or not. */
module HtmlTree {
  import opened JsString

  datatype Attribute = Attribute(name: string, value: string)

  datatype Node =
    | Element(id: nat, tag: string, attrs: seq<Attribute>, children: seq<Node>)
    | Text(text: string)
      /** Markup a rewriter inserts as it stands (`{ html: true }`). */
    | Markup(html: string)

  // ---------------------------------------------------------------------------------------------
  // Attributes and selectors.

  /** `attr(name)`: the value of the first attribute called `name`. */
  function AttrValue(attrs: seq<Attribute>, name: string): (r: Option<string>)
    ensures r.Some? <==> exists k :: 0 <= k < |attrs| && attrs[k].name == name
    ensures r.Some? ==> Attribute(name, r.value) in attrs
  {
    if attrs == [] then None
    else if attrs[0].name == name then Some(attrs[0].value)
    else
      var r := AttrValue(attrs[1..], name);
      assert forall k :: 1 <= k < |attrs| ==> attrs[k] == attrs[1..][k - 1];
      r
  }

  function Attr(n: Node, name: string): Option<string> {
    if n.Element? then AttrValue(n.attrs, name) else None
  }

  function ClassOf(n: Node): Option<string> {
    Attr(n, "class")
  }

  /** The white space that separates the words of a class attribute. */
  predicate IsHtmlSpace(c: char) {
    c == ' ' || c == '\t' || c == '\n' || c == '\U{000C}' || c == '\r'
  }

  /** `word` is one of the white-space separated words of `c`. */
  predicate HasWord(c: string, word: string) {
    word != [] &&
    exists i :: 0 <= i && i + |word| <= |c| && At(c, word, i, false)
                && (i == 0 || IsHtmlSpace(c[i - 1])) && (i + |word| == |c| || IsHtmlSpace(c[i + |word|]))
  }

  /** The selectors the workers use. */
  datatype Selector =
    | TagIs(tag: string)                         // div
    | AttrIs(tag: string, name: string, value: string) // meta[name="gated"]
    | ClassWord(word: string)                    // .section-metadata
    | ClassPart(onTag: Option<string>, part: string) // div[class*="protected"], [class*="logged-in"]

  predicate Matches(sel: Selector, n: Node) {
    n.Element? &&
    match sel
    case TagIs(t) => n.tag == t
    case AttrIs(t, a, v) => n.tag == t && Attr(n, a) == Some(v)
    case ClassWord(w) => ClassOf(n).Some? && HasWord(ClassOf(n).value, w)
    case ClassPart(t, p) => (t.None? || n.tag == t.value) && ClassOf(n).Some? && Includes(ClassOf(n).value, p)
  }

  /** The elements of a forest and of everything below it, in document order: each element comes
      before its descendants, and those before its next sibling. */
  function Elements(ns: seq<Node>): (r: seq<Node>)
    ensures forall e <- r :: e.Element?
  {
    if ns == [] then []
    else (match ns[0] case Element(_, _, _, kids) => [ns[0]] + Elements(kids) case _ => []) + Elements(ns[1..])
  }

  /** The elements of `es` that `p` accepts, in order. */
  function FilterBy(es: seq<Node>, p: Node -> bool): (r: seq<Node>)
    ensures |r| <= |es|
  {
    if es == [] then [] else (if p(es[0]) then [es[0]] else []) + FilterBy(es[1..], p)
  }

  /** Whether a selector matches a node, as a function. */
  function MatchOf(sel: Selector): Node -> bool {
    e => Matches(sel, e)
  }

  /** The elements of `es` that the selector matches, in order. */
  function Filter(es: seq<Node>, sel: Selector): (r: seq<Node>)
    ensures |r| <= |es|
  {
    FilterBy(es, MatchOf(sel))
  }

  lemma {:induction false} FilterBySpec(es: seq<Node>, p: Node -> bool)
    ensures forall e <- FilterBy(es, p) :: e in es && p(e)
    ensures forall e <- es :: p(e) ==> e in FilterBy(es, p)
  {
    if es != [] {
      FilterBySpec(es[1..], p);
      assert es == [es[0]] + es[1..];
    }
  }

  /** A filter keeps exactly the elements that match. */
  lemma FilterSpec(es: seq<Node>, sel: Selector)
    ensures forall e <- Filter(es, sel) :: e in es && Matches(sel, e)
    ensures forall e <- es :: Matches(sel, e) ==> e in Filter(es, sel)
  {
    FilterBySpec(es, MatchOf(sel));
    forall e <- Filter(es, sel) ensures Matches(sel, e) {
      assert MatchOf(sel)(e);
    }
    forall e <- es | Matches(sel, e) ensures e in Filter(es, sel) {
      assert MatchOf(sel)(e);
    }
  }

  lemma ElementsConcat(a: seq<Node>, b: seq<Node>)
    ensures Elements(a + b) == Elements(a) + Elements(b)
  {
    if a != [] {
      assert (a + b)[1..] == a[1..] + b;
      ElementsConcat(a[1..], b);
    } else {
      assert a + b == b;
    }
  }

  lemma {:induction false} FilterByConcat(a: seq<Node>, b: seq<Node>, p: Node -> bool)
    ensures FilterBy(a + b, p) == FilterBy(a, p) + FilterBy(b, p)
  {
    if a != [] {
      assert (a + b)[0] == a[0] && (a + b)[1..] == a[1..] + b;
      FilterByConcat(a[1..], b, p);
    } else {
      assert a + b == b;
    }
  }

  lemma FilterConcat(a: seq<Node>, b: seq<Node>, sel: Selector)
    ensures Filter(a + b, sel) == Filter(a, sel) + Filter(b, sel)
  {
    FilterByConcat(a, b, MatchOf(sel));
  }

  /** One more element at the end is kept exactly when `p` accepts it. */
  lemma FilterBySnoc(es: seq<Node>, e: Node, p: Node -> bool)
    ensures FilterBy(es + [e], p) == FilterBy(es, p) + (if p(e) then [e] else [])
  {
    FilterByConcat(es, [e], p);
    assert FilterBy([e], p) == (if p(e) then [e] else []) + FilterBy([], p);
  }

  /** The filter over a prefix one element longer. */
  lemma FilterByPrefix(es: seq<Node>, i: nat, p: Node -> bool)
    requires i < |es|
    ensures FilterBy(es[..i + 1], p) == FilterBy(es[..i], p) + (if p(es[i]) then [es[i]] else [])
  {
    assert es[..i + 1] == es[..i] + [es[i]];
    FilterBySnoc(es[..i], es[i], p);
  }

  lemma {:induction false} FilterByFirst(es: seq<Node>, p: Node -> bool)
    ensures FilterBy(es, p) != [] <==> exists k :: 0 <= k < |es| && p(es[k])
    ensures FilterBy(es, p) != [] ==>
              exists k :: 0 <= k < |es| && es[k] == FilterBy(es, p)[0] && forall j :: 0 <= j < k ==> !p(es[j])
  {
    if es != [] && !p(es[0]) {
      FilterByFirst(es[1..], p);
      if FilterBy(es, p) != [] {
        var k :| 0 <= k < |es| - 1 && es[1..][k] == FilterBy(es[1..], p)[0]
                 && forall j :: 0 <= j < k ==> !p(es[1..][j]);
        assert es[k + 1] == FilterBy(es, p)[0];
        forall j | 0 <= j < k + 1 ensures !p(es[j]) {
          if j > 0 { assert es[j] == es[1..][j - 1]; }
        }
      }
      if exists k :: 0 <= k < |es| && p(es[k]) {
        var k :| 0 <= k < |es| && p(es[k]);
        assert es[1..][k - 1] == es[k];
      }
    }
  }

  /** The first element a filter keeps is the first one that matches; there is one exactly
      when some element matches. */
  lemma FilterFirst(es: seq<Node>, sel: Selector)
    ensures Filter(es, sel) != [] <==> exists k :: 0 <= k < |es| && Matches(sel, es[k])
    ensures Filter(es, sel) != [] ==>
              exists k :: 0 <= k < |es| && es[k] == Filter(es, sel)[0] && forall j :: 0 <= j < k ==> !Matches(sel, es[j])
  {
    var p := MatchOf(sel);
    FilterByFirst(es, p);
    assert forall k :: 0 <= k < |es| ==> (p(es[k]) <==> Matches(sel, es[k]));
  }

  /** `f` applied to each node, in order (`MapNodesAt`). */
  function MapNodes<T>(ns: seq<Node>, f: Node -> T): (r: seq<T>)
    ensures |r| == |ns|
  {
    if ns == [] then [] else MapNodes(ns[..|ns| - 1], f) + [f(ns[|ns| - 1])]
  }

  lemma {:induction false} MapNodesAt<T>(ns: seq<Node>, f: Node -> T, k: nat)
    requires k < |ns|
    ensures MapNodes(ns, f)[k] == f(ns[k])
  {
    var n := |ns| - 1;
    if k < n {
      MapNodesAt(ns[..n], f, k);
    }
  }

  /** One more node of `ns` maps to one more value. */
  lemma MapNodesPrefix<T>(ns: seq<Node>, f: Node -> T, i: nat)
    requires i < |ns|
    ensures MapNodes(ns[..i + 1], f) == MapNodes(ns[..i], f) + [f(ns[i])]
  {
    assert ns[..i + 1][..i] == ns[..i];
  }

  /** `$(sel)` on a document, or `$el.find(sel)` on the children of `el`: the matching elements
      in document order. */
  function Select(ns: seq<Node>, sel: Selector): (r: seq<Node>)
    ensures forall e <- r :: e.Element? && Matches(sel, e)
    ensures forall e <- r :: e in Elements(ns)
    ensures forall e <- Elements(ns) :: Matches(sel, e) ==> e in r
  {
    FilterSpec(Elements(ns), sel);
    Filter(Elements(ns), sel)
  }

  /** `$(sel).attr(name)`: the attribute of the first element the selector finds, if any. */
  function FirstAttr(ns: seq<Node>, sel: Selector, name: string): Option<string> {
    var found := Select(ns, sel);
    if found == [] then None else Attr(found[0], name)
  }

  /** The attribute read is that of the first matching element in document order. */
  lemma FirstAttrAt(ns: seq<Node>, sel: Selector, name: string, k: nat)
    requires k < |Elements(ns)| && Matches(sel, Elements(ns)[k])
    requires forall j :: 0 <= j < k ==> !Matches(sel, Elements(ns)[j])
    ensures FirstAttr(ns, sel, name) == Attr(Elements(ns)[k], name)
  {
    var es := Elements(ns);
    FilterFirst(es, sel);
    var i :| 0 <= i < |es| && es[i] == Filter(es, sel)[0] && forall j :: 0 <= j < i ==> !Matches(sel, es[j]);
    assert i == k by {
      FilterSpec(es, sel);
      assert Matches(sel, es[i]);
    }
  }

  /** Without a matching element there is no attribute. */
  lemma FirstAttrNone(ns: seq<Node>, sel: Selector, name: string)
    requires forall e <- Elements(ns) :: !Matches(sel, e)
    ensures FirstAttr(ns, sel, name) == None
  {
    FilterFirst(Elements(ns), sel);
  }

  /** `$('main > div')`: the div children of main elements, in document order.  `underMain` says
      whether the parent of `ns` is a main element. */
  function MainChildDivs(ns: seq<Node>, underMain: bool): (r: seq<Node>)
    ensures forall e <- r :: e.Element? && e.tag == "div"
  {
    if ns == [] then []
    else
      (match ns[0]
       case Element(_, tag, _, kids) =>
         (if underMain && tag == "div" then [ns[0]] else []) + MainChildDivs(kids, tag == "main")
       case _ => []) + MainChildDivs(ns[1..], underMain)
  }

  /** `$('main div')`: the divs with a main ancestor, in document order.  `inMain` says whether
      `ns` is itself below a main element. */
  function MainDescendantDivs(ns: seq<Node>, inMain: bool): (r: seq<Node>)
    ensures forall e <- r :: e.Element? && e.tag == "div"
  {
    if ns == [] then []
    else
      (match ns[0]
       case Element(_, tag, _, kids) =>
         (if inMain && tag == "div" then [ns[0]] else []) + MainDescendantDivs(kids, inMain || tag == "main")
       case _ => []) + MainDescendantDivs(ns[1..], inMain)
  }

  // ---------------------------------------------------------------------------------------------
  // Text and metadata rows.

  /** `.text()`: the text of a forest and of everything below it, in document order. */
  function TextOf(ns: seq<Node>): string {
    if ns == [] then ""
    else (match ns[0] case Element(_, _, _, kids) => TextOf(kids) case Text(t) => t case Markup(_) => "") + TextOf(ns[1..])
  }

  /** `$(div).text().trim() === word` for a div. */
  predicate IsCell(n: Node, word: string) {
    n.Element? && n.tag == "div" && Trim(TextOf(n.children)) == word
  }

  /** `.next().text().trim()` when `ns` are the siblings after an element: the trimmed text of the
      first element among them, or the empty text when there is none. */
  function NextText(ns: seq<Node>): string {
    if ns == [] then ""
    else match ns[0]
      case Element(_, _, _, kids) => Trim(TextOf(kids))
      case _ => NextText(ns[1..])
  }

  /** The first div at or below `ns`, in document order, whose trimmed text is `word`: the trimmed
      text of its next element sibling, or None when there is no such div. */
  function CellValue(ns: seq<Node>, word: string): Option<string> {
    if ns == [] then None
    else if IsCell(ns[0], word) then Some(NextText(ns[1..]))
    else
      match (match ns[0] case Element(_, _, _, kids) => CellValue(kids, word) case _ => None)
      case Some(v) => Some(v)
      case None => CellValue(ns[1..], word)
  }

  /** A div with the key is found exactly when one exists. */
  lemma {:induction false} CellValueFound(ns: seq<Node>, word: string)
    ensures CellValue(ns, word).Some? <==> exists e <- Elements(ns) :: IsCell(e, word)
  {
    if ns != [] {
      CellValueFound(ns[1..], word);
      match ns[0]
      case Element(_, _, _, kids) =>
        CellValueFound(kids, word);
        assert Elements(ns) == [ns[0]] + Elements(kids) + Elements(ns[1..]);
      case Text(_) =>
        assert Elements(ns) == Elements(ns[1..]);
      case Markup(_) =>
        assert Elements(ns) == Elements(ns[1..]);
    }
  }

  /** The value of the first of the elements `ms` that holds a div with the key. */
  function FirstValue(ms: seq<Node>, word: string): Option<string> {
    if ms == [] then None
    else match (match ms[0] case Element(_, _, _, kids) => CellValue(kids, word) case _ => None)
      case Some(v) => Some(v)
      case None => FirstValue(ms[1..], word)
  }

  /** `$section.find('.section-metadata').find('div').filter(...)` for the key, then `.next()`:
      the value of the section's first `key` row, or None when no metadata div holds the key.  The
      first div in document order among all the metadata elements' descendants lies below the first
      metadata element that holds one (a later one is after it or nested in it). */
  function MetaValue(section: Node, word: string): Option<string> {
    if section.Element? then FirstValue(Select(section.children, ClassWord("section-metadata")), word) else None
  }

  /** The markup of one metadata row as the authoring format writes it:
      `<div><div>key</div><div>value</div></div>`.  Ids are left at 0: they play no part in
      reading a row. */
  function Row(key: string, value: string): Node {
    Element(0, "div", [], [Element(0, "div", [], [Text(key)]), Element(0, "div", [], [Text(value)])])
  }

  function Rows(rows: seq<(string, string)>): seq<Node> {
    if rows == [] then [] else [Row(rows[0].0, rows[0].1)] + Rows(rows[1..])
  }

  lemma CellText(t: string)
    ensures TextOf([Text(t)]) == t
    ensures TextOf([Element(0, "div", [], [Text(t)])]) == t
  {
    assert [Text(t)][1..] == [];
    assert [Element(0, "div", [], [Text(t)])][1..] == [];
  }

  /** A row that does not carry `word` as its key, its value or its whole text. */
  predicate RowMisses(row: (string, string), word: string) {
    Trim(row.0 + row.1) != word && Trim(row.0) != word && Trim(row.1) != word
  }

  /** Reading a key back from rows written in the authoring format: the first row whose key is
      `word` gives its trimmed value, provided the rows before it do not carry `word` anywhere and
      the row's whole text is not `word` (a row with an empty value would be read as its own key
      cell and give the next row's text). */
  lemma RowsRoundTrip(rows: seq<(string, string)>, word: string, j: nat)
    requires j < |rows| && Trim(rows[j].0) == word && Trim(rows[j].0 + rows[j].1) != word
    requires forall k :: 0 <= k < j ==> RowMisses(rows[k], word)
    ensures CellValue(Rows(rows), word) == Some(Trim(rows[j].1))
  {
    RowsFrom(rows, word, 0, j);
    assert rows[0..] == rows;
  }

  /** `RowsRoundTrip` for the rows from `i` on. */
  lemma {:induction false} RowsFrom(rows: seq<(string, string)>, word: string, i: nat, j: nat)
    requires i <= j < |rows| && Trim(rows[j].0) == word && Trim(rows[j].0 + rows[j].1) != word
    requires forall k :: i <= k < j ==> RowMisses(rows[k], word)
    ensures CellValue(Rows(rows[i..]), word) == Some(Trim(rows[j].1))
    decreases j - i
  {
    var tail := rows[i..];
    assert tail[0] == rows[i] && tail[1..] == rows[i + 1..];
    if i == j {
      RowsFirst(tail, word);
    } else {
      RowsSkip(tail, word);
      RowsFrom(rows, word, i + 1, j);
    }
  }

  lemma RowsFirst(rows: seq<(string, string)>, word: string)
    requires rows != [] && Trim(rows[0].0) == word && Trim(rows[0].0 + rows[0].1) != word
    ensures CellValue(Rows(rows), word) == Some(Trim(rows[0].1))
  {
    RowValue(rows[0].0, rows[0].1, word);
    RowsCons(rows, word);
  }

  lemma RowsSkip(rows: seq<(string, string)>, word: string)
    requires rows != [] && RowMisses(rows[0], word)
    ensures CellValue(Rows(rows), word) == CellValue(Rows(rows[1..]), word)
  {
    RowValue(rows[0].0, rows[0].1, word);
    RowsCons(rows, word);
  }

  lemma RowsCons(rows: seq<(string, string)>, word: string)
    requires rows != [] && !IsCell(Row(rows[0].0, rows[0].1), word)
    ensures CellValue(Rows(rows), word)
            == match CellValue(Row(rows[0].0, rows[0].1).children, word)
               case Some(v) => Some(v)
               case None => CellValue(Rows(rows[1..]), word)
  {
    var ns := Rows(rows);
    assert ns[0] == Row(rows[0].0, rows[0].1) && ns[1..] == Rows(rows[1..]);
  }

  /** What one row gives when the key is read: the row itself is never the key's div; its key
      cell gives the value when it is the key, and a row that misses the key gives nothing. */
  lemma RowValue(key: string, value: string, word: string)
    requires Trim(key + value) != word
    ensures !IsCell(Row(key, value), word)
    ensures Trim(key) == word ==> CellValue(Row(key, value).children, word) == Some(Trim(value))
    ensures RowMisses((key, value), word) ==> CellValue(Row(key, value).children, word) == None
  {
    var r := Row(key, value);
    assert r.children[1..] == [r.children[1]];
    CellText(key);
    CellText(value);
    assert TextOf(r.children) == key + value by {
      assert TextOf(r.children[1..]) == value + TextOf([]);
    }
    if Trim(key) != word && Trim(value) != word {
      assert CellValue(r.children[1..], word) == None by {
        assert CellValue(r.children[1].children, word) == None;
      }
      assert CellValue(r.children[0].children, word) == None;
    }
  }

  // ---------------------------------------------------------------------------------------------
  // Removal.

  /** The identities of the elements of a forest and of everything below it. */
  function Ids(ns: seq<Node>): set<nat> {
    if ns == [] then {}
    else (match ns[0] case Element(id, _, _, kids) => {id} + Ids(kids) case _ => {}) + Ids(ns[1..])
  }

  /** The forest once every element whose identity is in `ids` has been removed (`.remove()`),
      together with everything below it. */
  function Remove(ns: seq<Node>, ids: set<nat>): seq<Node> {
    if ns == [] then []
    else
      (match ns[0]
       case Element(id, tag, attrs, kids) => if id in ids then [] else [Element(id, tag, attrs, Remove(kids, ids))]
       case _ => [ns[0]]) + Remove(ns[1..], ids)
  }

  lemma RemoveConcat(a: seq<Node>, b: seq<Node>, ids: set<nat>)
    ensures Remove(a + b, ids) == Remove(a, ids) + Remove(b, ids)
  {
    if a != [] {
      assert (a + b)[1..] == a[1..] + b;
      RemoveConcat(a[1..], b, ids);
    } else {
      assert a + b == b;
    }
  }

  /** Removing in two rounds is removing both sets: the order of removals does not matter. */
  lemma {:induction false} RemoveTwice(ns: seq<Node>, a: set<nat>, b: set<nat>)
    ensures Remove(Remove(ns, a), b) == Remove(ns, a + b)
  {
    if ns != [] {
      RemoveTwice(ns[1..], a, b);
      var head := match ns[0]
        case Element(id, tag, attrs, kids) => if id in a then [] else [Element(id, tag, attrs, Remove(kids, a))]
        case _ => [ns[0]];
      RemoveConcat(head, Remove(ns[1..], a), b);
      match ns[0]
      case Element(id, tag, attrs, kids) =>
        RemoveTwice(kids, a, b);
        if id !in a {
          assert Remove(head, b) == Remove([Element(id, tag, attrs, Remove(kids, a))], b);
          assert [Element(id, tag, attrs, Remove(kids, a))][1..] == [];
        }
      case Text(_) =>
        assert head[1..] == [];
      case Markup(_) =>
        assert head[1..] == [];
    }
  }

  /** Removing identities the forest does not hold changes nothing. */
  lemma {:induction false} RemoveNone(ns: seq<Node>, ids: set<nat>)
    requires ids !! Ids(ns)
    ensures Remove(ns, ids) == ns
  {
    if ns != [] {
      RemoveNone(ns[1..], ids);
      match ns[0]
      case Element(id, tag, attrs, kids) =>
        RemoveNone(kids, ids);
        assert ns == [ns[0]] + ns[1..];
      case Text(_) =>
        assert ns == [ns[0]] + ns[1..];
      case Markup(_) =>
        assert ns == [ns[0]] + ns[1..];
    }
  }

  /** What is left holds none of the removed identities and no identity that was not there. */
  lemma {:induction false} RemoveGone(ns: seq<Node>, ids: set<nat>)
    ensures Ids(Remove(ns, ids)) <= Ids(ns) - ids
  {
    if ns != [] {
      RemoveGone(ns[1..], ids);
      var head := match ns[0]
        case Element(id, tag, attrs, kids) => if id in ids then [] else [Element(id, tag, attrs, Remove(kids, ids))]
        case _ => [ns[0]];
      IdsConcat(head, Remove(ns[1..], ids));
      match ns[0]
      case Element(id, tag, attrs, kids) =>
        RemoveGone(kids, ids);
        if id !in ids {
          assert head[1..] == [];
        }
      case Text(_) =>
        assert head[1..] == [];
      case Markup(_) =>
        assert head[1..] == [];
    }
  }

  lemma IdsConcat(a: seq<Node>, b: seq<Node>)
    ensures Ids(a + b) == Ids(a) + Ids(b)
  {
    if a != [] {
      assert (a + b)[1..] == a[1..] + b;
      IdsConcat(a[1..], b);
    } else {
      assert a + b == b;
    }
  }

  /** Every element of a forest, at any depth, has its identity among the forest's. */
  lemma {:induction false} ElementIds(ns: seq<Node>)
    ensures forall e <- Elements(ns) :: e.id in Ids(ns)
  {
    if ns != [] {
      ElementIds(ns[1..]);
      match ns[0]
      case Element(id, _, _, kids) =>
        ElementIds(kids);
        assert Elements(ns) == [ns[0]] + Elements(kids) + Elements(ns[1..]);
      case Text(_) =>
      case Markup(_) =>
    }
  }

  /** The identities of the elements `$(sel)` selects in a forest (`FindIdsSpec`). */
  function FindIds(ns: seq<Node>, sel: Selector): set<nat> {
    if ns == [] then {}
    else
      (match ns[0]
       case Element(id, _, _, kids) => (if Matches(sel, ns[0]) then {id} else {}) + FindIds(kids, sel)
       case _ => {}) + FindIds(ns[1..], sel)
  }

  lemma {:induction false} FindIdsSpec(ns: seq<Node>, sel: Selector)
    ensures forall x :: x in FindIds(ns, sel) <==> exists e <- Elements(ns) :: Matches(sel, e) && e.id == x
  {
    if ns != [] {
      FindIdsSpec(ns[1..], sel);
      match ns[0]
      case Element(id, tag, attrs, kids) =>
        FindIdsSpec(kids, sel);
        assert Elements(ns) == [ns[0]] + Elements(kids) + Elements(ns[1..]);
      case Text(_) =>
        assert Elements(ns) == Elements(ns[1..]);
      case Markup(_) =>
        assert Elements(ns) == Elements(ns[1..]);
    }
  }

  lemma FindIdsConcat(a: seq<Node>, b: seq<Node>, sel: Selector)
    ensures FindIds(a + b, sel) == FindIds(a, sel) + FindIds(b, sel)
  {
    if a != [] {
      assert (a + b)[1..] == a[1..] + b;
      FindIdsConcat(a[1..], b, sel);
    } else {
      assert a + b == b;
    }
  }

  /** Removal keeps no removed element among the matches and adds no new match: what a selector
      finds afterwards, it found before. */
  lemma {:induction false} RemoveFindIds(ns: seq<Node>, ids: set<nat>, sel: Selector)
    ensures FindIds(Remove(ns, ids), sel) <= FindIds(ns, sel) - ids
  {
    if ns != [] {
      RemoveFindIds(ns[1..], ids, sel);
      var head := match ns[0]
        case Element(id, tag, attrs, kids) => if id in ids then [] else [Element(id, tag, attrs, Remove(kids, ids))]
        case _ => [ns[0]];
      FindIdsConcat(head, Remove(ns[1..], ids), sel);
      match ns[0]
      case Element(id, tag, attrs, kids) =>
        RemoveFindIds(kids, ids, sel);
        if id !in ids {
          assert head[1..] == [];
          assert Matches(sel, head[0]) == Matches(sel, ns[0]);
        }
      case Text(_) =>
        assert head[1..] == [];
      case Markup(_) =>
        assert head[1..] == [];
    }
  }

  /** An element as it stands after the removals `ids`: its own subtree with those cut out.  This
      holds whether or not the element is still attached to the document. */
  function Current(n: Node, ids: set<nat>): Node {
    match n
    case Element(id, tag, attrs, kids) => Element(id, tag, attrs, Remove(kids, ids))
    case _ => n
  }

  /** Two rounds of removal seen from one element. */
  lemma CurrentTwice(n: Node, a: set<nat>, b: set<nat>)
    ensures Current(Current(n, a), b) == Current(n, a + b)
  {
    if n.Element? {
      RemoveTwice(n.children, a, b);
    }
  }

  // ---------------------------------------------------------------------------------------------
  // Serialisation.

  function AttrsHtml(attrs: seq<Attribute>): string {
    if attrs == [] then "" else " " + attrs[0].name + "=\"" + attrs[0].value + "\"" + AttrsHtml(attrs[1..])
  }

  /** `$.html()` of a forest: each element as its start tag, its children and its end tag.  Text is
      written as it stands (the library's escaping and void elements are not modelled). */
  function Html(ns: seq<Node>): string {
    if ns == [] then ""
    else
      (match ns[0]
       case Element(_, tag, attrs, kids) => StartTag(tag, attrs) + Html(kids) + "</" + tag + ">"
       case Text(t) => t
       case Markup(h) => h) + Html(ns[1..])
  }

  function StartTag(tag: string, attrs: seq<Attribute>): string {
    "<" + tag + AttrsHtml(attrs) + ">"
  }

  /** `prop('outerHTML')`. */
  function OuterHtml(n: Node): string {
    Html([n])
  }

  /** The outer markup of an element starts with its start tag. */
  lemma OuterHtmlStarts(n: Node)
    requires n.Element?
    ensures StartsWith(OuterHtml(n), StartTag(n.tag, n.attrs))
  {
    var s := StartTag(n.tag, n.attrs);
    assert [n][1..] == [];
    var body := s + Html(n.children) + "</" + n.tag + ">";
    assert Html([n]) == body + Html([]);
    assert body == s + (Html(n.children) + "</" + n.tag + ">");
    assert OuterHtml(n)[..|s|] == s;
  }

  /** The markup passages of a forest, in document order: what the rewriters inserted. */
  function Markups(ns: seq<Node>): seq<string> {
    if ns == [] then []
    else
      (match ns[0]
       case Element(_, _, _, kids) => Markups(kids)
       case Text(_) => []
       case Markup(html) => [html]) + Markups(ns[1..])
  }

  lemma MarkupsConcat(a: seq<Node>, b: seq<Node>)
    ensures Markups(a + b) == Markups(a) + Markups(b)
  {
    if a != [] {
      assert (a + b)[1..] == a[1..] + b;
      MarkupsConcat(a[1..], b);
    } else {
      assert a + b == b;
    }
  }

  // ---------------------------------------------------------------------------------------------
  // The rewriter's `main` handler.

  /** An element handler on `main` calling `setInnerContent(markup, { html: true })`: each
      outermost main keeps its identity, tag and attributes and holds only the markup (the content
      it replaces, nested mains included, is not visited). */
  function SetMainContent(ns: seq<Node>, markup: string): seq<Node> {
    if ns == [] then []
    else
      [match ns[0]
       case Element(id, tag, attrs, kids) =>
         if tag == "main" then Element(id, tag, attrs, [Markup(markup)])
         else Element(id, tag, attrs, SetMainContent(kids, markup))
       case _ => ns[0]] + SetMainContent(ns[1..], markup)
  }

  /** The main elements that are not inside another main, in document order. */
  function OuterMains(ns: seq<Node>): (r: seq<Node>)
    ensures forall e <- r :: e.Element? && e.tag == "main"
  {
    if ns == [] then []
    else
      (match ns[0]
       case Element(_, tag, _, kids) => if tag == "main" then [ns[0]] else OuterMains(kids)
       case _ => []) + OuterMains(ns[1..])
  }

  /** Every main of the rewritten document holds only the markup, and it is one of the original
      main elements, with its identity and attributes. */
  lemma {:induction false} MainsHoldMarkup(ns: seq<Node>, markup: string)
    ensures forall e <- Elements(SetMainContent(ns, markup)) :: e.tag == "main" ==>
              e.children == [Markup(markup)] && exists d <- OuterMains(ns) :: d.id == e.id && d.attrs == e.attrs
  {
    if ns != [] {
      var r := SetMainContent(ns, markup);
      MainsHoldMarkup(ns[1..], markup);
      assert r[1..] == SetMainContent(ns[1..], markup);
      match ns[0]
      case Element(id, tag, attrs, kids) =>
        if tag == "main" {
          assert Elements([Markup(markup)]) == [];
          assert Elements(r) == [r[0]] + Elements(r[1..]);
        } else {
          MainsHoldMarkup(kids, markup);
          assert Elements(r) == [r[0]] + Elements(SetMainContent(kids, markup)) + Elements(r[1..]);
        }
        assert OuterMains(ns) == (if tag == "main" then [ns[0]] else OuterMains(kids)) + OuterMains(ns[1..]);
      case Text(_) =>
        assert Elements(r) == Elements(r[1..]);
      case Markup(_) =>
        assert Elements(r) == Elements(r[1..]);
    }
  }

  /** Every outermost main of the original document is kept, holding only the markup. */
  lemma {:induction false} MainsKept(ns: seq<Node>, markup: string)
    ensures forall d <- OuterMains(ns) ::
              Element(d.id, d.tag, d.attrs, [Markup(markup)]) in Elements(SetMainContent(ns, markup))
  {
    if ns != [] {
      var r := SetMainContent(ns, markup);
      MainsKept(ns[1..], markup);
      assert r[1..] == SetMainContent(ns[1..], markup);
      match ns[0]
      case Element(id, tag, attrs, kids) =>
        if tag == "main" {
          assert Elements(r) == [r[0]] + Elements([Markup(markup)]) + Elements(r[1..]);
        } else {
          MainsKept(kids, markup);
          assert Elements(r) == [r[0]] + Elements(SetMainContent(kids, markup)) + Elements(r[1..]);
        }
      case Text(_) =>
        assert Elements(r) == Elements(r[1..]);
      case Markup(_) =>
        assert Elements(r) == Elements(r[1..]);
    }
  }

  /** A document without a main element is left as it is. */
  lemma {:induction false} NoMainUnchanged(ns: seq<Node>, markup: string)
    requires forall e <- Elements(ns) :: e.tag != "main"
    ensures SetMainContent(ns, markup) == ns
  {
    if ns != [] {
      var n, rest := ns[0], ns[1..];
      assert Elements(ns) == (match n case Element(_, _, _, kids) => [n] + Elements(kids) case _ => []) + Elements(rest);
      NoMainUnchanged(rest, markup);
      if n.Element? {
        NoMainUnchanged(n.children, markup);
      }
      assert ns == [n] + rest;
    }
  }

}
