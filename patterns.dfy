/** The regular expressions of the string-based workers, each written out by hand as the
    match that JavaScript's backtracking engine finds at a given offset.

    Every piece `[^>]*>`, `\s*X` and `\s+X` used here has only one way to match (the greedy choice
    is the only one the rest of the pattern can accept), so it is a plain forward scan.  The one
    real choice point is `<div[^>]*class=["'][^"']*T[^"']*["'][^>]*>`: `[^>]*` may stop at any
    `class=` inside the tag and the engine tries them from the last one back.  A lazy
    `[\s\S]*?X` takes the nearest offset at which the rest of the pattern succeeds.  With the
    `i` flag and without `u`, JavaScript folds ASCII letters only, which `At(.., true)` does. */
module Patterns {
  import opened JsString

  /** A match at some offset: where it ends, and the span [capStart, capEnd) of its capture group
      (an empty span when the pattern has none). */
  datatype Hit = Hit(end: nat, capStart: nat, capEnd: nat)

  /** The leftmost match at or after a starting offset. */
  datatype Found = Found(start: nat, hit: Hit)

  predicate IsQuote(c: char) { c == '"' || c == '\'' }

  // ---------------------------------------------------------------------------------------------
  // Building blocks: each takes the offset where the piece starts and gives the offset after it.

  /** A literal under the `i` flag. */
  function Lit(s: string, j: nat, lit: string): (r: Option<nat>)
    ensures r.Some? ==> r.value == j + |lit| <= |s| && At(s, lit, j, true)
    ensures r.None? ==> !At(s, lit, j, true)
  {
    if At(s, lit, j, true) then Some(j + |lit|) else None
  }

  /** `["']`. */
  function Quote(s: string, j: nat): (r: Option<nat>)
    ensures r.Some? ==> r.value == j + 1 <= |s| && IsQuote(s[j])
  {
    if j < |s| && IsQuote(s[j]) then Some(j + 1) else None
  }

  /** `\s+`. */
  function Spaces1(s: string, j: nat): (r: Option<nat>)
    requires j <= |s|
    ensures r.Some? ==> j < r.value <= |s|
  {
    var k := SkipSpaces(s, j);
    if k > j then Some(k) else None
  }

  /** `[^>]*>`: everything up to and including the first `>`. */
  function TagRest(s: string, j: nat): (r: Option<nat>)
    ensures r.Some? ==> j < r.value <= |s|
  {
    match Find(s, ">", j, false)
    case None => None
    case Some(g) => Some(g + 1)
  }

  /** The first quote character at or after `j`. */
  function FindQuote(s: string, j: nat): (r: Option<nat>)
    ensures r.Some? ==> j <= r.value < |s| && IsQuote(s[r.value])
    ensures r.Some? ==> forall x :: j <= x < r.value ==> !IsQuote(s[x])
    ensures r.None? ==> forall x :: j <= x < |s| ==> !IsQuote(s[x])
    decreases |s| - j
  {
    if j >= |s| then None
    else if IsQuote(s[j]) then Some(j)
    else FindQuote(s, j + 1)
  }

  /** The first offset at or after `j` holding `<` or white space (the end of `[^<\s]*`). */
  function WordEnd(s: string, j: nat): (k: nat)
    requires j <= |s|
    ensures j <= k <= |s| && (k == |s| || s[k] == '<' || IsSpace(s[k]))
    ensures forall x :: j <= x < k ==> s[x] != '<' && !IsSpace(s[x])
    decreases |s| - j
  {
    if j < |s| && s[j] != '<' && !IsSpace(s[j]) then WordEnd(s, j + 1) else j
  }

  /** `<div[^>]*>` (under the `i` flag). */
  function DivTagAt(s: string, i: nat): (r: Option<nat>)
    ensures r.Some? ==> i + 4 < r.value <= |s|
  {
    if At(s, "<div", i, true) then TagRest(s, i + 4) else None
  }

  /** `\s*W\s*<\/div>` from `j`: a word and the `</div>` after it. */
  function WordClose(s: string, j: nat, w: string): (r: Option<nat>)
    requires j <= |s|
    ensures r.Some? ==> j < r.value <= |s|
  {
    match Lit(s, SkipSpaces(s, j), w)
    case None => None
    case Some(c) => Lit(s, SkipSpaces(s, c), "</div>")
  }

  /** `<div[^>]*>\s*W\s*<\/div>`: a div cell holding the word `W`. */
  function DivCell(s: string, i: nat, w: string): (r: Option<nat>)
    ensures r.Some? ==> i < r.value <= |s|
  {
    match DivTagAt(s, i)
    case None => None
    case Some(b) => WordClose(s, b, w)
  }

  // ---------------------------------------------------------------------------------------------
  // Patterns matched at one offset, without a choice point.

  datatype Prim =
    | GatedMeta      // <meta\s+name=["']gated["']\s+content=["']true["']            (i)
    | TeaserMeta     // <meta\s+name=["']teaser["']\s+content=["']([^"']+)["']       (i)
    | MainElement    // <main[^>]*>([\s\S]*?)<\/main>                                 (i)
    | DivOpenTag     // <div[^>]*>                                                    (case-sensitive)
    | ViewRow        // <div[^>]*>\s*<div[^>]*>\s*view\s*<\/div>\s*<div[^>]*>\s*(logged-in|logged-out)\s*<\/div>\s*<\/div>  (i)
    | ProtectedRow   // <div[^>]*>\s*protected\s*<\/div>\s*<div[^>]*>\s*true\s*<\/div>  (i)
    | CloseDiv       // <\/div>                                                       (i)
    | CloseClose     // <\/div>\s*<\/div>                                             (i)
    | TeaserCell     // <div[^>]*>\s*teaser\s*<\/div>                                 (i)
    | TeaserRow      // <div[^>]*>\s*teaser\s*<\/div>\s*<div[^>]*>\s*([^<\s]+)\s*<\/div>  (i)
    | FragmentCell   // <div[^>]*>\s*([^<]*(?:\/fragments\/|\/teasers\/)[^<]*)\s*<\/div>  (i)

  /** `attr=["']value["']` with a literal value (under the `i` flag). */
  function QuotedAttr(s: string, j: nat, attr: string, value: string): (r: Option<nat>)
    ensures r.Some? ==> j < r.value <= |s|
  {
    if !At(s, attr, j, true) then None
    else match Quote(s, j + |attr|)
      case None => None
      case Some(b) => if At(s, value, b, true) then Quote(s, b + |value|) else None
  }

  /** `<meta\s+A1["']V1["']\s+A2["']V2["']` with literal attribute names and values. */
  function MetaAttrsAt(s: string, i: nat, a1: string, v1: string, a2: string, v2: string): (r: Option<nat>)
    ensures r.Some? ==> i < r.value <= |s|
  {
    if !At(s, "<meta", i, true) then None
    else match Spaces1(s, i + 5)
      case None => None
      case Some(b) =>
        match QuotedAttr(s, b, a1, v1)
        case None => None
        case Some(c) =>
          match Spaces1(s, c)
          case None => None
          case Some(d) => QuotedAttr(s, d, a2, v2)
  }

  function GatedMetaAt(s: string, i: nat): (r: Option<nat>)
    ensures r.Some? ==> i < r.value <= |s|
  {
    MetaAttrsAt(s, i, "name=", "gated", "content=", "true")
  }

  function TeaserMetaAt(s: string, i: nat): (r: Option<Hit>)
    ensures r.Some? ==> i < r.value.capStart < r.value.capEnd < r.value.end <= |s|
    ensures r.Some? ==> forall x :: r.value.capStart <= x < r.value.capEnd ==> !IsQuote(s[x])
  {
    var a :- Lit(s, i, "<meta");
    var b :- Spaces1(s, a);
    var c :- QuotedAttr(s, b, "name=", "teaser");
    var d :- Spaces1(s, c);
    var e :- Lit(s, d, "content=");
    var k :- Quote(s, e);
    var q :- FindQuote(s, k);
    if q == k then None else Some(Hit(q + 1, k, q))
  }

  /** `OPEN[^>]*>([\s\S]*?)CLOSE` with literal ends (under the `i` flag). */
  function ElementAt(s: string, i: nat, open: string, close: string): (r: Option<Hit>)
    ensures r.Some? ==> i + |open| < r.value.capStart <= r.value.capEnd
                        && r.value.end == r.value.capEnd + |close| <= |s|
  {
    if !At(s, open, i, true) then None
    else match Find(s, ">", i + |open|, false)
      case None => None
      case Some(g) =>
        match Find(s, close, g + 1, true)
        case None => None
        case Some(k) => Some(Hit(k + |close|, g + 1, k))
  }

  function MainAt(s: string, i: nat): (r: Option<Hit>)
    ensures r.Some? ==> i < r.value.capStart <= r.value.capEnd < r.value.end <= |s|
    ensures r.Some? ==> r.value.end == r.value.capEnd + 7 && i + 6 <= r.value.capStart
  {
    ElementAt(s, i, "<main", "</main>")
  }

  function DivOpenTagAt(s: string, i: nat): (r: Option<nat>)
    ensures r.Some? ==> i + 4 < r.value <= |s|
  {
    if At(s, "<div", i, false) then TagRest(s, i + 4) else None
  }

  /** `(logged-in|logged-out)` at `k` (under the `i` flag): the end of the alternative that matches. */
  function ViewWordAt(s: string, k: nat): (r: Option<nat>)
    ensures r.Some? ==> (r.value == k + 9 && At(s, "logged-in", k, true))
                        || (r.value == k + 10 && At(s, "logged-out", k, true))
  {
    if At(s, "logged-in", k, true) then Some(k + 9)
    else if At(s, "logged-out", k, true) then Some(k + 10)
    else None
  }

  /** `\s*(logged-in|logged-out)\s*<\/div>\s*<\/div>` from `j`: the value and the two
      closing tags after it. */
  function ViewValueAt(s: string, j: nat): (r: Option<Hit>)
    requires j <= |s|
    ensures r.Some? ==> j <= r.value.capStart < r.value.capEnd < r.value.end <= |s|
    ensures r.Some? ==> r.value.capStart == SkipSpaces(s, j) && ViewWordAt(s, r.value.capStart) == Some(r.value.capEnd)
  {
    var k := SkipSpaces(s, j);
    match ViewWordAt(s, k)
    case None => None
    case Some(v) =>
      match Lit(s, SkipSpaces(s, v), "</div>")
      case None => None
      case Some(f) =>
        match Lit(s, SkipSpaces(s, f), "</div>")
        case None => None
        case Some(g) => Some(Hit(g, k, v))
  }

  /** `<div[^>]*>\s*<div[^>]*>\s*view\s*<\/div>`: the head of a view row. */
  function ViewHeadAt(s: string, i: nat): (r: Option<nat>)
    ensures r.Some? ==> i < r.value <= |s|
  {
    match DivTagAt(s, i)
    case None => None
    case Some(b) => DivCell(s, SkipSpaces(s, b), "view")
  }

  /** `\s*<div[^>]*>` and the value with its closing tags, from `j`. */
  function ViewTailAt(s: string, j: nat): (r: Option<Hit>)
    requires j <= |s|
    ensures r.Some? ==> j < r.value.capStart < r.value.capEnd < r.value.end <= |s|
    ensures r.Some? ==> ViewWordAt(s, r.value.capStart) == Some(r.value.capEnd)
  {
    match DivTagAt(s, SkipSpaces(s, j))
    case None => None
    case Some(e) => ViewValueAt(s, e)
  }

  function ViewRowAt(s: string, i: nat): (r: Option<Hit>)
    ensures r.Some? ==> i < r.value.capStart < r.value.capEnd < r.value.end <= |s|
    ensures r.Some? ==> ViewWordAt(s, r.value.capStart) == Some(r.value.capEnd)
  {
    match ViewHeadAt(s, i)
    case None => None
    case Some(c) => ViewTailAt(s, c)
  }

  function ProtectedRowAt(s: string, i: nat): (r: Option<nat>)
    ensures r.Some? ==> i < r.value <= |s|
  {
    var a :- DivCell(s, i, "protected");
    DivCell(s, SkipSpaces(s, a), "true")
  }

  function CloseCloseAt(s: string, i: nat): (r: Option<nat>)
    ensures r.Some? ==> i < r.value <= |s|
  {
    var a :- Lit(s, i, "</div>");
    Lit(s, SkipSpaces(s, a), "</div>")
  }

  function TeaserRowAt(s: string, i: nat): (r: Option<Hit>)
    ensures r.Some? ==> i < r.value.capStart < r.value.capEnd < r.value.end <= |s|
    ensures r.Some? ==> forall x :: r.value.capStart <= x < r.value.capEnd ==> s[x] != '<' && !IsSpace(s[x])
  {
    var a :- DivCell(s, i, "teaser");
    var b :- Lit(s, SkipSpaces(s, a), "<div");
    var c :- TagRest(s, b);
    var k := SkipSpaces(s, c);
    var p := WordEnd(s, k);
    if p == k then None
    else
      var e :- Lit(s, SkipSpaces(s, p), "</div>");
      Some(Hit(e, k, p))
  }

  /** The text in [k, p) holds `/fragments/` or `/teasers/` (ignoring case). */
  predicate HasFragmentPath(s: string, k: nat, p: nat) {
    (match Find(s, "/fragments/", k, true) case Some(x) => x + 11 <= p case None => false)
    || (match Find(s, "/teasers/", k, true) case Some(x) => x + 9 <= p case None => false)
  }

  function FragmentCellAt(s: string, i: nat): (r: Option<Hit>)
    ensures r.Some? ==> i < r.value.capStart <= r.value.capEnd < r.value.end <= |s|
  {
    var a :- Lit(s, i, "<div");
    var b :- TagRest(s, a);
    var k := SkipSpaces(s, b);
    var p :- Find(s, "<", k, false);
    if !HasFragmentPath(s, k, p) then None
    else
      var e :- Lit(s, p, "</div>");
      Some(Hit(e, k, p))
  }

  function NoCapture(r: Option<nat>): (h: Option<Hit>)
    ensures h.Some? <==> r.Some?
    ensures h.Some? ==> h.value.end == r.value && h.value.capStart == h.value.capEnd == r.value
  {
    match r
    case None => None
    case Some(e) => Some(Hit(e, e, e))
  }

  function PrimAt(pr: Prim, s: string, i: nat): (r: Option<Hit>)
    ensures r.Some? ==> i < r.value.end <= |s| && i <= r.value.capStart <= r.value.capEnd <= r.value.end
  {
    match pr
    case GatedMeta => NoCapture(GatedMetaAt(s, i))
    case TeaserMeta => TeaserMetaAt(s, i)
    case MainElement => MainAt(s, i)
    case DivOpenTag => NoCapture(DivOpenTagAt(s, i))
    case ViewRow => ViewRowAt(s, i)
    case ProtectedRow => NoCapture(ProtectedRowAt(s, i))
    case CloseDiv => NoCapture(Lit(s, i, "</div>"))
    case CloseClose => NoCapture(CloseCloseAt(s, i))
    case TeaserCell => NoCapture(DivCell(s, i, "teaser"))
    case TeaserRow => TeaserRowAt(s, i)
    case FragmentCell => FragmentCellAt(s, i)
  }

  /** The leftmost offset in [from, n) at which `m` succeeds, with what it gave there. */
  function First<T>(m: nat -> Option<T>, from: nat, n: nat): (r: Option<(nat, T)>)
    ensures r.Some? ==> from <= r.value.0 < n && m(r.value.0) == Some(r.value.1)
    decreases n - from
  {
    if from >= n then None
    else match m(from)
      case Some(h) => Some((from, h))
      case None => First(m, from + 1, n)
  }

  /** `First` finds the leftmost success, and reports none only when there is none. */
  lemma {:induction false} FirstLeftmost<T>(m: nat -> Option<T>, from: nat, n: nat)
    ensures var r := First(m, from, n);
            (r.Some? ==> forall i :: from <= i < r.value.0 ==> m(i).None?)
            && (r.None? ==> forall i :: from <= i < n ==> m(i).None?)
    decreases n - from
  {
    if from < n && m(from).None? {
      FirstLeftmost(m, from + 1, n);
    }
  }

  /** A success at `i` with none before it is what `First` returns. */
  lemma {:induction false} FirstAt<T>(m: nat -> Option<T>, from: nat, n: nat, i: nat)
    requires from <= i < n && m(i).Some?
    requires forall j :: from <= j < i ==> m(j).None?
    ensures First(m, from, n) == Some((i, m(i).value))
    decreases i - from
  {
    if from < i {
      FirstAt(m, from + 1, n, i);
    }
  }

  function PrimMatcher(pr: Prim, s: string): nat -> Option<Hit> {
    (i: nat) => PrimAt(pr, s, i)
  }

  /** `String.prototype.match` / `RegExp.prototype.exec` with `lastIndex == from`:
      the leftmost offset at or after `from` where the pattern matches. */
  function SearchPrim(pr: Prim, s: string, from: nat): (r: Option<Found>)
    ensures r.Some? ==> from <= r.value.start && PrimAt(pr, s, r.value.start) == Some(r.value.hit)
  {
    match First(PrimMatcher(pr, s), from, |s|)
    case None => None
    case Some(f) => Some(Found(f.0, f.1))
  }

  /** The search finds the leftmost match and reports no match only when there is none. */
  lemma SearchPrimLeftmost(pr: Prim, s: string, from: nat)
    ensures var r := SearchPrim(pr, s, from);
            (r.Some? ==> forall i :: from <= i < r.value.start ==> PrimAt(pr, s, i).None?)
            && (r.None? ==> forall i :: from <= i ==> PrimAt(pr, s, i).None?)
  {
    var m := PrimMatcher(pr, s);
    FirstLeftmost(m, from, |s|);
    var r := SearchPrim(pr, s, from);
    var hi := if r.Some? then r.value.start else |s|;
    forall i | from <= i < hi ensures PrimAt(pr, s, i).None? {
      assert m(i).None?;
    }
  }

  // ---------------------------------------------------------------------------------------------
  // Patterns with the `class=` choice point.

  /** What the quoted class value has to contain. */
  datatype ClassTest =
    | Contains(word: string)   // [^"']*word[^"']*
    | IdThenProtected          // [^"']*id-[^"']*protected[^"']*

  /** The class value s[b..q] (which holds no quote) passes the test, ignoring case. */
  predicate ValueOk(s: string, b: nat, q: nat, test: ClassTest) {
    match test
    case Contains(w) =>
      (match Find(s, w, b, true) case Some(x) => x + |w| <= q case None => false)
    case IdThenProtected =>
      (match Find(s, "id-", b, true)
       case None => false
       case Some(x) =>
         match Find(s, "protected", x + 3, true) case Some(y) => y + 9 <= q case None => false)
  }

  /** With `[^>]*` stopping at offset `j`: `class=["']`, the value up to the next quote, that
      quote, and `[^>]*>`; the end of the opening tag. */
  function ClassAt(s: string, j: nat, test: ClassTest): (r: Option<nat>)
    ensures r.Some? ==> j < r.value <= |s|
  {
    var a :- Lit(s, j, "class=");
    var b :- Quote(s, a);
    var q :- FindQuote(s, b);
    if !ValueOk(s, b, q, test) then None else TagRest(s, q + 1)
  }

  /** The ends of the opening tags for the stopping points j, j-1, ..., lo, in that order. */
  function EndsDown(s: string, lo: nat, j: nat, test: ClassTest): (r: seq<nat>)
    requires lo <= j
    ensures forall k :: 0 <= k < |r| ==> lo < r[k] <= |s|
    decreases j
  {
    (match ClassAt(s, j, test) case Some(e) => [e] case None => [])
    + (if j > lo then EndsDown(s, lo, j - 1, test) else [])
  }

  /** `<div[^>]*class=["'][^"']*..["'][^>]*>` at `i`: the ends of the opening tag it can match,
      in the order the engine tries them (the last `class=` inside the tag first). */
  function ClassOpenerEnds(s: string, i: nat, test: ClassTest): (r: seq<nat>)
    ensures forall k :: 0 <= k < |r| ==> i + 4 < r[k] <= |s|
  {
    if !At(s, "<div", i, true) then []
    else match Find(s, ">", i + 4, false)
      case None => []
      case Some(g) => EndsDown(s, i + 4, g, test)
  }

  /** What follows the opening tag in each such pattern. */
  datatype Tail =
    | TagOnly        // nothing
    | RowThenClose   // [\s\S]*?<protected row>[\s\S]*?<\/div>\s*<\/div>
    | CellThenClose  // [\s\S]*?<teaser cell>[\s\S]*?<\/div>
    | UpToClose      // [\s\S]*?<\/div>

  /** The lazy `[\s\S]*?X[\s\S]*?Y` from `k`: the nearest X after which Y still occurs. */
  function LazyPair(s: string, k: nat, x: Prim, y: Prim): (r: Option<nat>)
    ensures r.Some? ==> k < r.value <= |s|
    decreases |s| - k
  {
    if k >= |s| then None
    else match PrimAt(x, s, k)
      case Some(h) =>
        (match SearchPrim(y, s, h.end) case Some(f) => Some(f.hit.end) case None => LazyPair(s, k + 1, x, y))
      case None => LazyPair(s, k + 1, x, y)
  }

  function Continue(s: string, e: nat, tail: Tail): (r: Option<nat>)
    requires e <= |s|
    ensures r.Some? ==> e <= r.value <= |s|
  {
    match tail
    case TagOnly => Some(e)
    case RowThenClose => LazyPair(s, e, ProtectedRow, CloseClose)
    case CellThenClose => LazyPair(s, e, TeaserCell, CloseDiv)
    case UpToClose => match SearchPrim(CloseDiv, s, e) case Some(f) => Some(f.hit.end) case None => None
  }

  /** The first candidate end, in the engine's order, after which the tail matches. */
  function FirstWithTail(s: string, lo: nat, ends: seq<nat>, tail: Tail): (r: Option<nat>)
    requires forall k :: 0 <= k < |ends| ==> lo < ends[k] <= |s|
    ensures r.Some? ==> lo < r.value <= |s|
  {
    if ends == [] then None
    else match Continue(s, ends[0], tail)
      case Some(e) => Some(e)
      case None => FirstWithTail(s, lo, ends[1..], tail)
  }

  // ---------------------------------------------------------------------------------------------
  // The patterns with a choice point, matched at one offset, and their leftmost search.

  datatype Pattern =
    | ClassDiv(word: string)  // <div[^>]*class=["'][^"']*word[^"']*["'][^>]*>                         (gi)
    | ProtectedSection        // <div[^>]*>\s*<div[^>]*class=["'][^"']*section-metadata[^"']*["'][^>]*>
                              //   [\s\S]*?<protected row>[\s\S]*?<\/div>\s*<\/div>                     (gi)
    | TeaserBlock             // <div[^>]*class=["'][^"']*protected[^"']*["'][^>]*>[\s\S]*?<teaser cell>
                              //   [\s\S]*?<\/div>                                                     (gi)
    | ProtectedIdBlock        // <div[^>]*class=["'][^"']*id-[^"']*protected[^"']*["'][^>]*>[\s\S]*?<\/div>  (gi)

  /** The protected-section pattern at `i`: a div opening tag, white space, then the
      section-metadata opener and its tail. */
  function ProtectedSectionAt(s: string, i: nat): (r: Option<nat>)
    ensures r.Some? ==> i + 4 < r.value <= |s|
  {
    var a :- Lit(s, i, "<div");
    var b :- TagRest(s, a);
    var c := SkipSpaces(s, b);
    FirstWithTail(s, c, ClassOpenerEnds(s, c, Contains("section-metadata")), RowThenClose)
  }

  /** The end of the pattern's match at offset `i`, if it matches there. */
  function MatchAt(p: Pattern, s: string, i: nat): (r: Option<nat>)
    ensures r.Some? ==> i + 4 < r.value <= |s|
  {
    match p
    case ClassDiv(w) => FirstWithTail(s, i + 4, ClassOpenerEnds(s, i, Contains(w)), TagOnly)
    case ProtectedSection => ProtectedSectionAt(s, i)
    case TeaserBlock => FirstWithTail(s, i + 4, ClassOpenerEnds(s, i, Contains("protected")), CellThenClose)
    case ProtectedIdBlock => FirstWithTail(s, i + 4, ClassOpenerEnds(s, i, IdThenProtected), UpToClose)
  }

  function PatternMatcher(p: Pattern, s: string): nat -> Option<nat> {
    (i: nat) => MatchAt(p, s, i)
  }

  /** `RegExp.prototype.exec` of a global pattern with `lastIndex == from`: the start and end of
      the leftmost match. */
  function Search(p: Pattern, s: string, from: nat): (r: Option<(nat, nat)>)
    ensures r.Some? ==> from <= r.value.0 < r.value.1 <= |s| && MatchAt(p, s, r.value.0) == Some(r.value.1)
  {
    First(PatternMatcher(p, s), from, |s|)
  }

  lemma SearchLeftmost(p: Pattern, s: string, from: nat)
    ensures var r := Search(p, s, from);
            (r.Some? ==> forall i :: from <= i < r.value.0 ==> MatchAt(p, s, i).None?)
            && (r.None? ==> forall i :: from <= i ==> MatchAt(p, s, i).None?)
  {
    var m := PatternMatcher(p, s);
    FirstLeftmost(m, from, |s|);
    var r := Search(p, s, from);
    var hi := if r.Some? then r.value.0 else |s|;
    forall i | from <= i < hi ensures MatchAt(p, s, i).None? {
      assert m(i).None?;
    }
  }

}

/** Facts about the hand-written patterns: what text they recognise, and that a match depends only
    on the text it covers. */
module PatternFacts {
  import opened JsString
  import opened Patterns

  /** `attr=` and a quoted `value` at offset `j`: the words in any ASCII case, either quote
      character on each side. */
  predicate QuotedAttrText(s: string, j: nat, attr: string, value: string) {
    var b := j + |attr| + 1;
    b + |value| < |s|
    && At(s, attr, j, true) && IsQuote(s[j + |attr|]) && At(s, value, b, true) && IsQuote(s[b + |value|])
  }

  lemma QuotedAttrRecognised(s: string, j: nat, attr: string, value: string)
    requires QuotedAttrText(s, j, attr, value)
    ensures QuotedAttr(s, j, attr, value) == Some(j + |attr| + |value| + 2)
  {
  }

  /** The quoted-attribute piece matches exactly the text `QuotedAttrText` describes. */
  lemma QuotedAttrShape(s: string, j: nat, attr: string, value: string)
    requires QuotedAttr(s, j, attr, value).Some?
    ensures QuotedAttrText(s, j, attr, value) && QuotedAttr(s, j, attr, value) == Some(j + |attr| + |value| + 2)
  {
  }

  /** A `<meta A1"V1" A2"V2"` tag at offset `i`: each word in any ASCII case, either quote
      character around each value, non-empty white space before each attribute, the first run
      ending at `b` and the second at `d`. */
  predicate MetaTag(s: string, i: nat, b: nat, a1: string, v1: string, d: nat, a2: string, v2: string) {
    var c := b + |a1| + |v1| + 2;
    i + 5 < b && c < d
    && At(s, "<meta", i, true) && SpacesBetween(s, i + 5, b) && QuotedAttrText(s, b, a1, v1)
    && SpacesBetween(s, c, d) && QuotedAttrText(s, d, a2, v2)
  }

  /** The gating tag `<meta name="gated" content="true"`. */
  predicate GatedMetaTag(s: string, i: nat, b: nat, d: nat) {
    MetaTag(s, i, b, "name=", "gated", d, "content=", "true")
  }

  /** A literal that starts with a letter, found at `j`, starts with a character that is not
      white space. */
  lemma AtFirst(s: string, lit: string, j: nat)
    requires |lit| > 0 && 'a' <= lit[0] <= 'z' && At(s, lit, j, true)
    ensures j < |s| && !IsSpace(s[j])
  {
    AtChars(s, lit, j, true);
    assert CharEq(s[j], lit[0], true);
  }

  /** The meta pattern matches every such tag whose attribute names start with a letter. */
  lemma MetaRecognised(s: string, i: nat, b: nat, a1: string, v1: string, d: nat, a2: string, v2: string)
    requires |a1| > 0 && 'a' <= a1[0] <= 'z' && |a2| > 0 && 'a' <= a2[0] <= 'z'
    requires MetaTag(s, i, b, a1, v1, d, a2, v2)
    ensures MetaAttrsAt(s, i, a1, v1, a2, v2).Some?
  {
    var c := b + |a1| + |v1| + 2;
    AtFirst(s, a1, b);
    SkipSpacesTo(s, i + 5, b);
    QuotedAttrRecognised(s, b, a1, v1);
    AtFirst(s, a2, d);
    SkipSpacesTo(s, c, d);
    QuotedAttrRecognised(s, d, a2, v2);
  }

  /** The meta pattern matches only such tags: the white-space runs are the greedy ones. */
  lemma MetaShape(s: string, i: nat, a1: string, v1: string, a2: string, v2: string)
    requires MetaAttrsAt(s, i, a1, v1, a2, v2).Some?
    ensures var b := SkipSpaces(s, i + 5);
            var c := b + |a1| + |v1| + 2;
            c <= |s| && MetaTag(s, i, b, a1, v1, SkipSpaces(s, c), a2, v2)
  {
    var b := SkipSpaces(s, i + 5);
    assert Spaces1(s, i + 5) == Some(b);
    QuotedAttrShape(s, b, a1, v1);
    var c := b + |a1| + |v1| + 2;
    var d := SkipSpaces(s, c);
    assert Spaces1(s, c) == Some(d);
    QuotedAttrShape(s, d, a2, v2);
  }

  /** The meta pattern matches at `i` exactly when such a tag is written there. */
  lemma MetaExact(s: string, i: nat, a1: string, v1: string, a2: string, v2: string)
    requires |a1| > 0 && 'a' <= a1[0] <= 'z' && |a2| > 0 && 'a' <= a2[0] <= 'z'
    ensures MetaAttrsAt(s, i, a1, v1, a2, v2).Some? <==> exists b: nat, d: nat :: MetaTag(s, i, b, a1, v1, d, a2, v2)
  {
    if MetaAttrsAt(s, i, a1, v1, a2, v2).Some? {
      MetaShape(s, i, a1, v1, a2, v2);
    }
    forall b: nat, d: nat | MetaTag(s, i, b, a1, v1, d, a2, v2) ensures MetaAttrsAt(s, i, a1, v1, a2, v2).Some? {
      MetaRecognised(s, i, b, a1, v1, d, a2, v2);
    }
  }

  /** The gate pattern matches at `i` exactly when a gating meta tag is written there. */
  lemma GatedMetaExact(s: string, i: nat)
    ensures GatedMetaAt(s, i).Some? <==> exists b: nat, d: nat :: GatedMetaTag(s, i, b, d)
  {
    if GatedMetaAt(s, i).Some? {
      MetaExact(s, i, "name=", "gated", "content=", "true");
      var b: nat, d: nat :| MetaTag(s, i, b, "name=", "gated", d, "content=", "true");
      assert GatedMetaTag(s, i, b, d);
    }
    forall b: nat, d: nat | GatedMetaTag(s, i, b, d) ensures GatedMetaAt(s, i).Some? {
      MetaRecognised(s, i, b, "name=", "gated", d, "content=", "true");
    }
  }

  /** How an element pattern's match is made up. */
  lemma ElementParts(s: string, p: nat, open: string, close: string)
    requires ElementAt(s, p, open, close).Some?
    ensures var h := ElementAt(s, p, open, close).value;
            Lit(s, p, open) == Some(p + |open|)
            && Find(s, ">", p + |open|, false) == Some(h.capStart - 1)
            && Find(s, close, h.capStart, true) == Some(h.capEnd)
  {
  }

  lemma ElementFromParts(s: string, p: nat, open: string, close: string, g: nat, k: nat)
    requires Lit(s, p, open) == Some(p + |open|)
    requires Find(s, ">", p + |open|, false) == Some(g)
    requires Find(s, close, g + 1, true) == Some(k)
    ensures ElementAt(s, p, open, close) == Some(Hit(k + |close|, g + 1, k))
  {
  }

  /** An element pattern's match depends only on the text it covers: wherever that text recurs,
      the pattern matches there with the same shape. */
  lemma ElementAcross(s: string, p: nat, u: string, q: nat, n: nat, open: string, close: string, h: Hit)
    requires ElementAt(s, p, open, close) == Some(h) && h.end == p + n
    requires SameWindow(s, p, u, q, n)
    ensures ElementAt(u, q, open, close) == Some(Hit(q + n, q + (h.capStart - p), q + (h.capEnd - p)))
  {
    ElementParts(s, p, open, close);
    PartsAcross(s, p, u, q, n, open, close, h.capStart - 1 - p, h.capEnd - p);
    ElementFromParts(u, q, open, close, q + (h.capStart - 1 - p), q + (h.capEnd - p));
  }

  lemma PartsAcross(s: string, p: nat, u: string, q: nat, n: nat, open: string, close: string, g: nat, k: nat)
    requires SameWindow(s, p, u, q, n)
    requires |open| <= g && k + |close| <= n
    requires Lit(s, p, open) == Some(p + |open|)
    requires Find(s, ">", p + |open|, false) == Some(p + g)
    requires Find(s, close, p + g + 1, true) == Some(p + k)
    ensures Lit(u, q, open) == Some(q + |open|)
    ensures Find(u, ">", q + |open|, false) == Some(q + g)
    ensures Find(u, close, q + g + 1, true) == Some(q + k)
  {
    AtAcross(s, p, u, q, n, open, 0, true);
    FindAcross(s, p, u, q, n, ">", |open|, g, false);
    FindAcross(s, p, u, q, n, close, g + 1, k, true);
  }

  /** The `<main>` pattern likewise. */
  lemma MainAcross(s: string, p: nat, h: Hit, u: string, q: nat)
    requires MainAt(s, p) == Some(h)
    requires SameWindow(s, p, u, q, h.end - p)
    ensures MainAt(u, q) == Some(Hit(q + (h.end - p), q + (h.capStart - p), q + (h.capEnd - p)))
  {
    ElementAcross(s, p, u, q, h.end - p, "<main", "</main>", h);
  }

  /** Inside the matched `<main…>…</main>` text, the first `>` is the one ending the opening tag. */
  lemma MainTagEnd(s: string, p: nat, h: Hit)
    requires MainAt(s, p) == Some(h)
    ensures IndexOf(s[p..h.end], ">", 0) == Some(h.capStart - 1 - p)
  {
    var m0 := s[p..h.end];
    ElementParts(s, p, "<main", "</main>");
    assert SameWindow(s, p, m0, 0, h.end - p);
    FirstGtAfterOpen(s, p, m0, "<main", h.end - p, h.capStart - 1);
  }

  /** The first `>` after an opening literal without `>` is the first `>` of the whole window. */
  lemma FirstGtAfterOpen(s: string, p: nat, m0: string, open: string, n: nat, g: nat)
    requires forall z :: 0 <= z < |open| ==> open[z] != '>' && Lower(open[z]) != '>'
    requires At(s, open, p, true) && SameWindow(s, p, m0, 0, n)
    requires Find(s, ">", p + |open|, false) == Some(g) && g < p + n
    ensures IndexOf(m0, ">", 0) == Some(g - p)
  {
    FindSpec(s, ">", p + |open|, false);
    FindAcross(s, p, m0, 0, n, ">", |open|, g - p, false);
    OpenHasNoGt(s, p, m0, open, n);
    FindSkip(m0, ">", 0, |open|, false);
  }

  /** An opening literal without `>` holds no `>` in any letter case. */
  lemma OpenHasNoGt(s: string, p: nat, m0: string, open: string, n: nat)
    requires forall z :: 0 <= z < |open| ==> open[z] != '>' && Lower(open[z]) != '>'
    requires At(s, open, p, true) && |open| <= n && SameWindow(s, p, m0, 0, n)
    ensures forall z :: 0 <= z < |open| ==> !At(m0, ">", z, false)
  {
    AtChars(s, open, p, true);
    forall z | 0 <= z < |open| ensures !At(m0, ">", z, false) {
      AtChars(m0, ">", z, false);
      assert m0[z] == s[p + z];
      assert CharEq(s[p + z], open[z], true);
    }
  }

  // ---------------------------------------------------------------------------------------------
  // What the capture groups hold.

  lemma PrimAtTeaserMeta(s: string, i: nat)
    ensures PrimAt(TeaserMeta, s, i) == TeaserMetaAt(s, i)
  {
  }

  lemma PrimAtTeaserRow(s: string, i: nat)
    ensures PrimAt(TeaserRow, s, i) == TeaserRowAt(s, i)
  {
  }

  lemma PrimAtFragmentCell(s: string, i: nat)
    ensures PrimAt(FragmentCell, s, i) == FragmentCellAt(s, i)
  {
  }

  /** The text of a fragment cell names a fragment or teaser path and holds no `<`. */
  lemma FragmentCellCapture(s: string, f: Found)
    requires SearchPrim(FragmentCell, s, 0) == Some(f)
    ensures HasFragmentPath(s, f.hit.capStart, f.hit.capEnd)
    ensures forall x :: f.hit.capStart <= x < f.hit.capEnd ==> s[x] != '<'
  {
    var h := f.hit;
    PrimAtFragmentCell(s, f.start);
    FindSpec(s, "<", h.capStart, false);
    forall x | h.capStart <= x < h.capEnd ensures s[x] != '<' {
      AtChars(s, "<", x, false);
    }
  }

  // ---------------------------------------------------------------------------------------------
  // The view row as written.

  /** `[^>]*>` from `j`: the first `>` at or after `j` is at `g`. */
  predicate GtFirst(s: string, j: nat, g: nat) {
    j <= g && At(s, ">", g, false) && forall x :: j <= x < g ==> !At(s, ">", x, false)
  }

  /** The tag-rest piece ends just after the first `>`. */
  lemma TagRestExact(s: string, j: nat, g: nat)
    ensures TagRest(s, j) == Some(g + 1) <==> GtFirst(s, j, g)
  {
    FindSpec(s, ">", j, false);
    if GtFirst(s, j, g) {
      FindAt(s, ">", j, g);
    }
  }

  /** A literal starting with `<` or a lower-case letter, found at `j`, does not start on white
      space, so a greedy `\s*` in front of it stops at `j`. */
  lemma SpacesBefore(s: string, a: nat, lit: string, j: nat)
    requires |lit| > 0 && (lit[0] == '<' || 'a' <= lit[0] <= 'z')
    requires SpacesBetween(s, a, j) && At(s, lit, j, true)
    ensures SkipSpaces(s, a) == j
  {
    AtChars(s, lit, j, true);
    assert CharEq(s[j], lit[0], true);
    SkipSpacesTo(s, a, j);
  }

  /** `<div[^>]*>` at `a`, closed by the `>` at `g` (`<div` in any case). */
  predicate DivTagText(s: string, a: nat, g: nat) {
    At(s, "<div", a, true) && GtFirst(s, a + 4, g)
  }

  lemma DivTagExact(s: string, a: nat, g: nat)
    ensures DivTagAt(s, a) == Some(g + 1) <==> DivTagText(s, a, g)
  {
    TagRestExact(s, a + 4, g);
  }

  /** White space from `j` to `q`, the word `w` at `q`, white space up to `c` and `</div>` at `c`. */
  predicate WordCloseText(s: string, j: nat, w: string, q: nat, c: nat) {
    SpacesBetween(s, j, q) && At(s, w, q, true) && SpacesBetween(s, q + |w|, c) && At(s, "</div>", c, true)
  }

  lemma WordCloseShape(s: string, j: nat, w: string) returns (q: nat, c: nat)
    requires j <= |s| && WordClose(s, j, w).Some?
    ensures WordCloseText(s, j, w, q, c) && WordClose(s, j, w) == Some(c + 6)
  {
    q := SkipSpaces(s, j);
    c := SkipSpaces(s, q + |w|);
  }

  lemma WordCloseRecognised(s: string, j: nat, w: string, q: nat, c: nat)
    requires |w| > 0 && 'a' <= w[0] <= 'z'
    requires WordCloseText(s, j, w, q, c)
    ensures WordClose(s, j, w) == Some(c + 6)
  {
    SpacesBefore(s, j, w, q);
    SpacesBefore(s, q + |w|, "</div>", c);
  }

  /** `(logged-in|logged-out)` written from `k` to `v`, in any letter case. */
  predicate ViewWordText(s: string, k: nat, v: nat) {
    (v == k + 9 && At(s, "logged-in", k, true)) || (v == k + 10 && At(s, "logged-out", k, true))
  }

  /** The two words of the alternative never both match at one offset. */
  lemma ViewWordExact(s: string, k: nat, v: nat)
    ensures ViewWordAt(s, k) == Some(v) <==> ViewWordText(s, k, v)
  {
    if At(s, "logged-out", k, true) {
      AtChars(s, "logged-out", k, true);
      AtChars(s, "logged-in", k, true);
      assert CharEq(s[k + 7], 'o', true);
      assert !CharEq(s[k + 7], 'i', true);
    }
  }

  /** White space from `j`, the value from `k` to `v`, then `</div>` at `p6` and at `p7`, with
      only white space between. */
  predicate ValueText(s: string, j: nat, k: nat, v: nat, p6: nat, p7: nat) {
    SpacesBetween(s, j, k) && ViewWordText(s, k, v)
    && SpacesBetween(s, v, p6) && At(s, "</div>", p6, true)
    && SpacesBetween(s, p6 + 6, p7) && At(s, "</div>", p7, true)
  }

  lemma ValueShape(s: string, j: nat) returns (k: nat, v: nat, p6: nat, p7: nat)
    requires j <= |s| && ViewValueAt(s, j).Some?
    ensures ValueText(s, j, k, v, p6, p7) && ViewValueAt(s, j) == Some(Hit(p7 + 6, k, v))
  {
    k := SkipSpaces(s, j);
    v := ViewWordAt(s, k).value;
    ViewWordExact(s, k, v);
    p6 := SkipSpaces(s, v);
    p7 := SkipSpaces(s, p6 + 6);
  }

  lemma ValueRecognised(s: string, j: nat, k: nat, v: nat, p6: nat, p7: nat)
    requires ValueText(s, j, k, v, p6, p7)
    ensures ViewValueAt(s, j) == Some(Hit(p7 + 6, k, v))
  {
    AtChars(s, if v == k + 9 then "logged-in" else "logged-out", k, true);
    SkipSpacesTo(s, j, k);
    ViewWordExact(s, k, v);
    SpacesBefore(s, v, "</div>", p6);
    SpacesBefore(s, p6 + 6, "</div>", p7);
  }

  /** `<div…>`, white space, then `<div…>`, the word `view` and `</div>` with white space
      around it: the first `>` at `g1`, the second `<div` at `p2` closed at `g2`, `view` at
      `p3` and `</div>` at `p4`. */
  predicate HeadText(s: string, i: nat, g1: nat, p2: nat, g2: nat, p3: nat, p4: nat) {
    DivTagText(s, i, g1) && SpacesBetween(s, g1 + 1, p2) && DivTagText(s, p2, g2)
    && WordCloseText(s, g2 + 1, "view", p3, p4)
  }

  lemma HeadShape(s: string, i: nat) returns (g1: nat, p2: nat, g2: nat, p3: nat, p4: nat)
    requires ViewHeadAt(s, i).Some?
    ensures HeadText(s, i, g1, p2, g2, p3, p4) && ViewHeadAt(s, i) == Some(p4 + 6)
  {
    var b := DivTagAt(s, i).value;
    DivTagExact(s, i, b - 1);
    p2 := SkipSpaces(s, b);
    var b2 := DivTagAt(s, p2).value;
    DivTagExact(s, p2, b2 - 1);
    p3, p4 := WordCloseShape(s, b2, "view");
    g1, g2 := b - 1, b2 - 1;
  }

  lemma HeadRecognised(s: string, i: nat, g1: nat, p2: nat, g2: nat, p3: nat, p4: nat)
    requires HeadText(s, i, g1, p2, g2, p3, p4)
    ensures ViewHeadAt(s, i) == Some(p4 + 6)
  {
    assert DivTagAt(s, i) == Some(g1 + 1) by {
      DivTagExact(s, i, g1);
    }
    assert SkipSpaces(s, g1 + 1) == p2 by {
      SpacesBefore(s, g1 + 1, "<div", p2);
    }
    assert DivCell(s, p2, "view") == Some(p4 + 6) by {
      DivTagExact(s, p2, g2);
      WordCloseRecognised(s, g2 + 1, "view", p3, p4);
    }
  }

  /** White space from `j` to `p5`, a `<div…>` there closed at `g3`, and the value with its
      closing tags. */
  predicate TailText(s: string, j: nat, p5: nat, g3: nat, k: nat, v: nat, p6: nat, p7: nat) {
    SpacesBetween(s, j, p5) && DivTagText(s, p5, g3) && ValueText(s, g3 + 1, k, v, p6, p7)
  }

  lemma TailShape(s: string, j: nat) returns (p5: nat, g3: nat, k: nat, v: nat, p6: nat, p7: nat)
    requires j <= |s| && ViewTailAt(s, j).Some?
    ensures TailText(s, j, p5, g3, k, v, p6, p7) && ViewTailAt(s, j) == Some(Hit(p7 + 6, k, v))
  {
    p5 := SkipSpaces(s, j);
    var e := DivTagAt(s, p5).value;
    DivTagExact(s, p5, e - 1);
    g3 := e - 1;
    k, v, p6, p7 := ValueShape(s, e);
  }

  lemma TailRecognised(s: string, j: nat, p5: nat, g3: nat, k: nat, v: nat, p6: nat, p7: nat)
    requires TailText(s, j, p5, g3, k, v, p6, p7)
    ensures ViewTailAt(s, j) == Some(Hit(p7 + 6, k, v))
  {
    SpacesBefore(s, j, "<div", p5);
    DivTagExact(s, p5, g3);
    ValueRecognised(s, g3 + 1, k, v, p6, p7);
  }

  /** Where the pieces of a view row start and end: the `>` of each of the three `<div` tags
      (`g1`, `g2`, `g3`), the second and third `<div` (`p2`, `p5`), the word `view` (`p3`), the
      `</div>` after it (`p4`), the value (`k` to `v`) and the two closing `</div>` (`p6`, `p7`). */
  datatype RowMarks = RowMarks(g1: nat, p2: nat, g2: nat, p3: nat, p4: nat, p5: nat, g3: nat,
                               k: nat, v: nat, p6: nat, p7: nat)

  /** A view row written at `i`, every word in any letter case and any white space between the
      tags: `<div…><div…>view</div><div…>logged-in</div></div>`, or `logged-out`. */
  predicate ViewRowText(s: string, i: nat, m: RowMarks) {
    HeadText(s, i, m.g1, m.p2, m.g2, m.p3, m.p4) && TailText(s, m.p4 + 6, m.p5, m.g3, m.k, m.v, m.p6, m.p7)
  }

  /** How a view-row match is put together from its head and its tail. */
  lemma ViewRowParts(s: string, i: nat) returns (c: nat)
    requires ViewRowAt(s, i).Some?
    ensures ViewHeadAt(s, i) == Some(c) && c <= |s| && ViewTailAt(s, c) == ViewRowAt(s, i)
  {
    c := ViewHeadAt(s, i).value;
  }

  lemma ViewRowFromParts(s: string, i: nat, c: nat, h: Hit)
    requires ViewHeadAt(s, i) == Some(c) && c <= |s| && ViewTailAt(s, c) == Some(h)
    ensures ViewRowAt(s, i) == Some(h)
  {
  }

  /** A head and a tail the pattern matches are written as `ViewRowText` describes. */
  lemma ViewRowShape(s: string, i: nat, c: nat, h: Hit) returns (m: RowMarks)
    requires ViewHeadAt(s, i) == Some(c) && c <= |s| && ViewTailAt(s, c) == Some(h)
    ensures ViewRowText(s, i, m) && h == Hit(m.p7 + 6, m.k, m.v)
  {
    var g1, p2, g2, p3, p4 := HeadShape(s, i);
    var p5, g3, k, v, p6, p7 := TailShape(s, p4 + 6);
    m := RowMarks(g1, p2, g2, p3, p4, p5, g3, k, v, p6, p7);
  }

  lemma HeadOfRow(s: string, i: nat, m: RowMarks)
    requires ViewRowText(s, i, m)
    ensures ViewHeadAt(s, i) == Some(m.p4 + 6) && m.p4 + 6 <= |s|
  {
    HeadRecognised(s, i, m.g1, m.p2, m.g2, m.p3, m.p4);
  }

  lemma TailOfRow(s: string, m: RowMarks)
    requires TailText(s, m.p4 + 6, m.p5, m.g3, m.k, m.v, m.p6, m.p7)
    ensures ViewTailAt(s, m.p4 + 6) == Some(Hit(m.p7 + 6, m.k, m.v))
  {
    var j, h := m.p4 + 6, Hit(m.p7 + 6, m.k, m.v);
    assert ViewTailAt(s, j) == Some(h) by {
      TailRecognised(s, j, m.p5, m.g3, m.k, m.v, m.p6, m.p7);
    }
  }

  /** A row written as `ViewRowText` describes is matched, with its value as the capture. */
  lemma ViewRowRecognised(s: string, i: nat, m: RowMarks)
    requires ViewRowText(s, i, m)
    ensures ViewRowAt(s, i) == Some(Hit(m.p7 + 6, m.k, m.v))
  {
    HeadOfRow(s, i, m);
    TailOfRow(s, m);
    ViewRowFromParts(s, i, m.p4 + 6, Hit(m.p7 + 6, m.k, m.v));
  }

  /** The view-row pattern matches at `i` exactly when a view row is written there, and its
      capture is the value as written. */
  lemma ViewRowExact(s: string, i: nat)
    ensures ViewRowAt(s, i).Some? <==> exists m: RowMarks :: ViewRowText(s, i, m)
    ensures forall m: RowMarks :: ViewRowText(s, i, m) ==> ViewRowAt(s, i) == Some(Hit(m.p7 + 6, m.k, m.v))
  {
    if ViewRowAt(s, i).Some? {
      var c := ViewRowParts(s, i);
      var m := ViewRowShape(s, i, c, ViewRowAt(s, i).value);
    }
    forall m: RowMarks | ViewRowText(s, i, m) ensures ViewRowAt(s, i) == Some(Hit(m.p7 + 6, m.k, m.v)) {
      ViewRowRecognised(s, i, m);
    }
  }
}
