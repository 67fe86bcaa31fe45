/** String primitives with the semantics of the JavaScript built-ins that the workers call:
    the `\s` character class, `trim`, `indexOf`, `includes`, `startsWith`, ASCII case folding as
    the `i` regular-expression flag applies it, and `replace` with a string pattern. */
module JsString {

  datatype Option<T> = None | Some(value: T) {
    predicate IsFailure() { None? }
    function PropagateFailure<U>(): Option<U> requires None? { None }
    function Extract(): T requires Some? { value }
  }

  /** White space as JavaScript's `\s` and `String.prototype.trim` define it
      (the WhiteSpace and LineTerminator code points). */
  predicate IsSpace(c: char) {
    c == '\t' || c == '\n' || c == '\U{000B}' || c == '\U{000C}' || c == '\r' || c == ' '
    || c == '\U{00A0}' || c == '\U{1680}' || ('\U{2000}' <= c <= '\U{200A}')
    || c == '\U{2028}' || c == '\U{2029}' || c == '\U{202F}' || c == '\U{205F}'
    || c == '\U{3000}' || c == '\U{FEFF}'
  }

  predicate AllSpace(s: string) {
    forall k :: 0 <= k < |s| ==> IsSpace(s[k])
  }

  /** Every character of `s` from offset `j` up to `k` is white space. */
  predicate SpacesBetween(s: string, j: nat, k: nat) {
    j <= k <= |s| && forall x {:trigger IsSpace(s[x])} :: j <= x < k ==> IsSpace(s[x])
  }

  /** No white space at either end. */
  predicate Trimmed(s: string) {
    s == [] || (!IsSpace(s[0]) && !IsSpace(s[|s| - 1]))
  }

  /** `\s*`: the end of the greedy run of white space starting at `j`. */
  function SkipSpaces(s: string, j: nat): (k: nat)
    requires j <= |s|
    ensures j <= k <= |s| && SpacesBetween(s, j, k) && (k == |s| || !IsSpace(s[k]))
    decreases |s| - j
  {
    if j < |s| && IsSpace(s[j]) then
      SkipSpaces(s, j + 1)
    else j
  }

  /** The start of the run of white space that ends at `j`, going no lower than `lo`. */
  function SkipSpacesBack(s: string, lo: nat, j: nat): (k: nat)
    requires lo <= j <= |s|
    ensures lo <= k <= j && SpacesBetween(s, k, j) && (k == lo || !IsSpace(s[k - 1]))
    decreases j
  {
    if j > lo && IsSpace(s[j - 1]) then
      SkipSpacesBack(s, lo, j - 1)
    else j
  }

  /** A run of white space from `j` to `k` that nothing continues is the one `SkipSpaces` finds. */
  lemma {:induction false} SkipSpacesTo(s: string, j: nat, k: nat)
    requires SpacesBetween(s, j, k) && (k == |s| || !IsSpace(s[k]))
    ensures SkipSpaces(s, j) == k
    decreases k - j
  {
    if j < k {
      SkipSpacesTo(s, j + 1, k);
    }
  }

  lemma {:induction false} SkipSpacesBackTo(s: string, lo: nat, j: nat, k: nat)
    requires lo <= k && SpacesBetween(s, k, j) && (k == lo || !IsSpace(s[k - 1]))
    ensures SkipSpacesBack(s, lo, j) == k
    decreases j - k
  {
    if k < j {
      SkipSpacesBackTo(s, lo, j - 1, k);
    }
  }

  /** `String.prototype.trim`: the input with its leading and trailing white space removed. */
  function Trim(s: string): (r: string)
    ensures Trimmed(r)
  {
    var a := SkipSpaces(s, 0);
    s[a..SkipSpacesBack(s, a, |s|)]
  }

  /** What `Trim` removes is white space at either end, and what it keeps is a slice. */
  lemma TrimShape(s: string)
    ensures var r := Trim(s);
            var a := SkipSpaces(s, 0);
            a + |r| <= |s| && r == s[a..a + |r|] && SpacesBetween(s, 0, a) && SpacesBetween(s, a + |r|, |s|)
  {
  }

  /** Trimming a white-space-padded, already trimmed text gives that text back. */
  lemma {:induction false} TrimPadded(pre: string, core: string, post: string)
    requires AllSpace(pre) && AllSpace(post) && Trimmed(core)
    ensures Trim(pre + core + post) == core
  {
    var s := pre + core + post;
    var m := |pre| + |core|;
    assert SpacesBetween(s, 0, |pre|) && SpacesBetween(s, m, |s|);
    if core == [] {
      SkipSpacesTo(s, 0, |s|);
      SkipSpacesBackTo(s, |s|, |s|, |s|);
    } else {
      assert s[|pre|] == core[0] && s[m - 1] == core[|core| - 1];
      SkipSpacesTo(s, 0, |pre|);
      SkipSpacesBackTo(s, |pre|, |s|, m);
      assert s[|pre|..m] == core;
    }
  }

  /** A text trims to nothing exactly when it is all white space. */
  lemma TrimEmpty(s: string)
    ensures Trim(s) == "" <==> AllSpace(s)
  {
    TrimShape(s);
    var a := SkipSpaces(s, 0);
    if Trim(s) != "" {
      assert Trim(s)[0] == s[a] && !IsSpace(s[a]);
    }
  }

  /** A text without white space is its own trim. */
  lemma TrimNoSpace(s: string, a: nat, b: nat)
    requires a <= b <= |s| && forall x :: a <= x < b ==> !IsSpace(s[x])
    ensures Trim(s[a..b]) == s[a..b]
  {
    var w := s[a..b];
    forall x | 0 <= x < |w| ensures !IsSpace(w[x]) {
      assert w[x] == s[a + x];
    }
    assert [] + w + [] == w;
    TrimPadded([], w, []);
  }

  /** ASCII case folding: the only folding the `i` flag performs between the ASCII literals of
      these patterns and any input character (a non-ASCII character never folds onto ASCII). */
  function Lower(c: char): char {
    if 'A' <= c <= 'Z' then (c as int + 32) as char else c
  }

  predicate CharEq(a: char, b: char, ignoreCase: bool) {
    if ignoreCase then Lower(a) == Lower(b) else a == b
  }

  /** `lit` occurs in `s` at offset `i`, exactly or ignoring ASCII case. */
  predicate At(s: string, lit: string, i: nat, ignoreCase: bool) {
    i + |lit| <= |s| && MatchFrom(s, lit, i, 0, ignoreCase)
  }

  /** The characters of `lit` from index `j` on agree with those of `s` from `i + j` on. */
  predicate MatchFrom(s: string, lit: string, i: nat, j: nat, ignoreCase: bool)
    requires i + |lit| <= |s|
    decreases |lit| - j
  {
    j >= |lit| || (CharEq(s[i + j], lit[j], ignoreCase) && MatchFrom(s, lit, i, j + 1, ignoreCase))
  }

  lemma {:induction false} MatchFromChars(s: string, lit: string, i: nat, j: nat, ignoreCase: bool)
    requires i + |lit| <= |s|
    ensures MatchFrom(s, lit, i, j, ignoreCase) <==>
            forall k :: j <= k < |lit| ==> CharEq(s[i + k], lit[k], ignoreCase)
    decreases |lit| - j
  {
    if j < |lit| {
      MatchFromChars(s, lit, i, j + 1, ignoreCase);
    }
  }

  /** `At` spelt out character by character. */
  lemma AtChars(s: string, lit: string, i: nat, ignoreCase: bool)
    ensures At(s, lit, i, ignoreCase) <==>
            i + |lit| <= |s| && forall k :: 0 <= k < |lit| ==> CharEq(s[i + k], lit[k], ignoreCase)
  {
    if i + |lit| <= |s| {
      MatchFromChars(s, lit, i, 0, ignoreCase);
    }
  }

  /** A case-sensitive `At` is equality of a slice with the literal. */
  lemma AtSlice(s: string, lit: string, i: nat)
    ensures At(s, lit, i, false) <==> i + |lit| <= |s| && s[i..i + |lit|] == lit
  {
    AtChars(s, lit, i, false);
    if i + |lit| <= |s| && s[i..i + |lit|] == lit {
      forall k | 0 <= k < |lit| ensures s[i + k] == lit[k] {
        assert s[i + k] == s[i..i + |lit|][k];
      }
    }
  }

  /** `s.indexOf(pat, from)` (case-sensitive), and its case-insensitive counterpart used by
      the hand-written patterns: the first offset at or after `from` where `pat` occurs. */
  function Find(s: string, pat: string, from: nat, ignoreCase: bool): (r: Option<nat>)
    ensures r.Some? ==> from <= r.value && r.value + |pat| <= |s|
    decreases |s| - from
  {
    if from + |pat| > |s| then None
    else if At(s, pat, from, ignoreCase) then Some(from)
    else Find(s, pat, from + 1, ignoreCase)
  }

  /** `Find` returns the first occurrence at or after `from`, and None when there is none. */
  lemma {:induction false} FindSpec(s: string, pat: string, from: nat, ignoreCase: bool)
    ensures var r := Find(s, pat, from, ignoreCase);
            (r.Some? ==> from <= r.value && At(s, pat, r.value, ignoreCase)
                         && forall p :: from <= p < r.value ==> !At(s, pat, p, ignoreCase))
            && (r.None? ==> forall p :: from <= p ==> !At(s, pat, p, ignoreCase))
    decreases |s| - from
  {
    if from + |pat| <= |s| && !At(s, pat, from, ignoreCase) {
      FindSpec(s, pat, from + 1, ignoreCase);
    }
  }

  /** `s` from offset `p` and `u` from offset `q` agree on `n` characters. */
  predicate SameWindow(s: string, p: nat, u: string, q: nat, n: nat) {
    p + n <= |s| && q + n <= |u| && forall x :: p <= x < p + n ==> s[x] == u[q + (x - p)]
  }

  lemma SlicesWindow(s: string, p: nat, u: string, q: nat, n: nat)
    requires p + n <= |s| && q + n <= |u| && s[p..p + n] == u[q..q + n]
    ensures SameWindow(s, p, u, q, n)
  {
    forall x | p <= x < p + n ensures s[x] == u[q + (x - p)] {
      assert s[p..p + n][x - p] == u[q..q + n][x - p];
    }
  }

  /** Where two texts agree on a window of `n` characters, a literal lying inside the window
      occurs in one exactly where it occurs in the other. */
  lemma AtAcross(s: string, p: nat, u: string, q: nat, n: nat, lit: string, y: nat, ignoreCase: bool)
    requires SameWindow(s, p, u, q, n)
    requires y + |lit| <= n
    ensures At(s, lit, p + y, ignoreCase) <==> At(u, lit, q + y, ignoreCase)
  {
    AtChars(s, lit, p + y, ignoreCase);
    AtChars(u, lit, q + y, ignoreCase);
    forall k | 0 <= k < |lit|
      ensures CharEq(s[p + y + k], lit[k], ignoreCase) == CharEq(u[q + y + k], lit[k], ignoreCase)
    {
      assert s[p + y + k] == u[q + (p + y + k - p)];
    }
  }

  /** A search whose result lies inside a window finds the same relative offset in any text that
      agrees with it on the window. */
  lemma FindAcross(s: string, p: nat, u: string, q: nat, n: nat, pat: string, a: nat, x: nat, ignoreCase: bool)
    requires SameWindow(s, p, u, q, n)
    requires a <= x && x + |pat| <= n
    requires Find(s, pat, p + a, ignoreCase) == Some(p + x)
    ensures Find(u, pat, q + a, ignoreCase) == Some(q + x)
  {
    FindSpec(s, pat, p + a, ignoreCase);
    FindSpec(u, pat, q + a, ignoreCase);
    AtAcross(s, p, u, q, n, pat, x, ignoreCase);
    forall z | q + a <= z < q + x ensures !At(u, pat, z, ignoreCase) {
      AtAcross(s, p, u, q, n, pat, z - q, ignoreCase);
    }
  }

  /** A slice of a slice is a slice of the whole. */
  lemma SliceOfSlice(s: string, a: nat, b: nat, i: nat, j: nat)
    requires a <= b <= |s| && i <= j <= b - a
    ensures s[a..b][i..j] == s[a + i..a + j]
  {
    assert |s[a..b][i..j]| == |s[a + i..a + j]|;
    forall k | 0 <= k < j - i ensures s[a..b][i..j][k] == s[a + i..a + j][k] {
      assert s[a..b][i..j][k] == s[a..b][i + k];
    }
  }

  /** A search passes over a stretch without occurrences. */
  lemma {:induction false} FindSkip(s: string, pat: string, a: nat, b: nat, ignoreCase: bool)
    requires a <= b && forall z :: a <= z < b ==> !At(s, pat, z, ignoreCase)
    ensures Find(s, pat, a, ignoreCase) == Find(s, pat, b, ignoreCase)
    decreases b - a
  {
    if a < b && a + |pat| <= |s| {
      FindSkip(s, pat, a + 1, b, ignoreCase);
    }
  }

  function IndexOf(s: string, pat: string, from: nat): Option<nat> {
    Find(s, pat, from, false)
  }

  /** `s.includes(pat)`. */
  predicate Includes(s: string, pat: string) {
    IndexOf(s, pat, 0).Some?
  }

  lemma IncludesSpec(s: string, pat: string)
    ensures Includes(s, pat) <==> exists p :: At(s, pat, p, false)
  {
    FindSpec(s, pat, 0, false);
  }

  /** `s.startsWith(pre)`. */
  predicate StartsWith(s: string, pre: string) {
    |pre| <= |s| && s[..|pre|] == pre
  }

  /** `prefixes.some(p => s.startsWith(p))`. */
  predicate StartsWithAny(s: string, prefixes: seq<string>) {
    exists k :: 0 <= k < |prefixes| && StartsWith(s, prefixes[k])
  }

  /** `value || ''` for a header that may be missing. */
  function OrEmpty(value: Option<string>): string {
    match value case Some(v) => v case None => ""
  }

  /** `pats.some(p => s.includes(p))`. */
  predicate IncludesAny(s: string, pats: seq<string>) {
    exists k :: 0 <= k < |pats| && Includes(s, pats[k])
  }

  /** A literal written into a text is found where it was written. */
  lemma AtConcat(a: string, lit: string, b: string)
    ensures At(a + lit + b, lit, |a|, false)
  {
    var s := a + lit + b;
    AtSlice(s, lit, |a|);
    assert s[|a|..|a| + |lit|] == lit;
  }

  /** The first occurrence at or after `from` is at `q` when it occurs there and not before. */
  lemma FindAt(s: string, pat: string, from: nat, q: nat)
    requires from <= q && At(s, pat, q, false)
    requires forall x :: from <= x < q ==> !At(s, pat, x, false)
    ensures Find(s, pat, from, false) == Some(q)
  {
    FindSkip(s, pat, from, q, false);
  }

  /** `s.substring(a, b)`: both ends clamped into [0, |s|], and swapped when `a > b`. */
  function Substring(s: string, a: int, b: int): (r: string)
    ensures 0 <= a <= b <= |s| ==> r == s[a..b]
  {
    var x := if a < 0 then 0 else if a > |s| then |s| else a;
    var y := if b < 0 then 0 else if b > |s| then |s| else b;
    if x <= y then s[x..y] else s[y..x]
  }

  /** `s.indexOf(pat)` as JavaScript returns it, with -1 for a missing pattern. */
  function IndexOfOrMinus(s: string, pat: string): (r: int)
    ensures r == -1 || (r >= 0 && IndexOf(s, pat, 0) == Some(r as nat))
    ensures r == -1 <==> IndexOf(s, pat, 0).None?
  {
    match IndexOf(s, pat, 0) case Some(p) => p case None => -1
  }

  predicate DollarFree(s: string) {
    '$' !in s
  }

  /** The text that `String.prototype.replace` inserts for a match of `matched` at `position`
      in `str` when the replacement argument is the string `repl` and the pattern has no capture
      groups: `$$` stands for `$`, `$&` for the match, `` $` `` for the text before it, `$'` for
      the text after it; any other `$` is literal. */
  function Expand(repl: string, matched: string, str: string, position: nat): (r: string)
    requires position + |matched| <= |str|
    ensures DollarFree(repl) ==> r == repl
    decreases |repl|
  {
    if repl == [] then []
    else if repl[0] == '$' && |repl| >= 2 && repl[1] in "$&`'" then
      (if repl[1] == '$' then "$"
       else if repl[1] == '&' then matched
       else if repl[1] == '`' then str[..position]
       else str[position + |matched|..])
      + Expand(repl[2..], matched, str, position)
    else
      [repl[0]] + Expand(repl[1..], matched, str, position)
  }

  /** `s.replace(pat, repl)` with a string pattern: the first occurrence of `pat` is replaced by
      the expansion of `repl`; without an occurrence the string is returned as it is. */
  function ReplaceFirst(s: string, pat: string, repl: string): string {
    match IndexOf(s, pat, 0)
    case None => s
    case Some(p) => s[..p] + Expand(repl, pat, s, p) + s[p + |pat|..]
  }

  /** The first occurrence, and only it, is replaced; everything before and after it is kept. */
  lemma ReplaceFirstAt(s: string, pat: string, repl: string, p: nat)
    requires At(s, pat, p, false)
    requires forall q :: 0 <= q < p ==> !At(s, pat, q, false)
    requires DollarFree(repl)
    ensures ReplaceFirst(s, pat, repl) == s[..p] + repl + s[p + |pat|..]
  {
    FindSpec(s, pat, 0, false);
    var r := IndexOf(s, pat, 0);
    assert r.Some? && r.value == p;
  }

  /** The same, with the replacement and the end of the occurrence spelled out by the caller. */
  lemma ReplaceFirstWith(s: string, pat: string, repl: string, p: nat, x: string, e: nat)
    requires At(s, pat, p, false)
    requires forall q :: 0 <= q < p ==> !At(s, pat, q, false)
    requires DollarFree(repl) && repl == x && e == p + |pat|
    ensures ReplaceFirst(s, pat, repl) == s[..p] + x + s[e..]
  {
    ReplaceFirstAt(s, pat, repl, p);
  }

  /** A pattern that does not occur leaves the string unchanged. */
  lemma ReplaceFirstAbsent(s: string, pat: string, repl: string)
    requires forall p :: !At(s, pat, p, false)
    ensures ReplaceFirst(s, pat, repl) == s
  {
    FindSpec(s, pat, 0, false);
  }
}
