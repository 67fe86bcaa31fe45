/** The balanced `<div` / `</div>` scanner of the string-scanning worker
    (platforms/akamai/src/main-standalone.js, the inner loops at lines 45-65 and 98-118).
    Starting just after an opening tag, with depth 1, it repeatedly compares the next `<div`
    and the next `</div>` (both searched with `indexOf`, so case-sensitively and as plain
    prefixes): an earlier `<div` deepens the nesting and moves 4 characters on, otherwise a
    `</div>` lifts it and moves 6 characters on.  The offset just after the `</div>` that brings
    the depth to 0 ends the element; when no `</div>` is left first, there is no end. */
module DivScanner {
  import opened JsString

  const Open := "<div"
  const Close := "</div>"

  /** The number of offsets in [a, b) at which `pat` starts in `t`. */
  function Count(t: string, pat: string, a: nat, b: nat): nat
    decreases b
  {
    if b <= a then 0 else Count(t, pat, a, b - 1) + (if At(t, pat, b - 1, false) then 1 else 0)
  }

  /** How many occurrences of `pat` lie wholly inside `s`. */
  function Occurrences(s: string, pat: string): nat {
    Count(s, pat, 0, |s|)
  }

  /** Closing tags minus opening tags that start in [a, b): how far a scan from `a` has
      climbed out of the nesting by the offset `b`. */
  function Balance(t: string, a: nat, b: nat): int {
    Count(t, Close, a, b) - Count(t, Open, a, b)
  }

  /** The scanner loop, one iteration per call: from offset `pos` at nesting `depth`, the offset
      just after the `</div>` that closes the element, or None when the text runs out first. */
  function ScanClose(t: string, pos: nat, depth: nat): (r: Option<nat>)
    requires depth >= 1
    decreases |t| - pos
  {
    if pos >= |t| then None
    else match IndexOf(t, Close, pos)
      case None => None
      case Some(c) =>
        var o := IndexOf(t, Open, pos);
        if o.Some? && o.value < c then ScanClose(t, o.value + |Open|, depth + 1)
        else if depth == 1 then Some(c + |Close|)
        else ScanClose(t, c + |Close|, depth - 1)
  }

  /** `e` ends the first `</div>` at which the balance counted from `pos` reaches `depth`. */
  ghost predicate FirstClose(t: string, pos: nat, depth: nat, e: nat) {
    pos + |Close| <= e <= |t| && At(t, Close, e - |Close|, false) && Balance(t, pos, e) == depth
    && forall q :: pos <= q <= e - |Close| ==> Balance(t, pos, q) < depth
  }

  /** The balance counted from `pos` never reaches `depth` before the text ends. */
  ghost predicate NeverCloses(t: string, pos: nat, depth: nat) {
    forall q :: pos <= q <= |t| ==> Balance(t, pos, q) < depth
  }

  /** `r` is what the scanner must return from `pos` at `depth`. */
  ghost predicate Characterises(t: string, pos: nat, depth: nat, r: Option<nat>) {
    (r.Some? ==> FirstClose(t, pos, depth, r.value)) && (r.None? ==> NeverCloses(t, pos, depth))
  }

  /** The scanner returns exactly the end of the first `</div>` that balances the nesting,
      and returns None exactly when the nesting is never balanced. */
  lemma {:induction false} ScanCloseSound(t: string, pos: nat, depth: nat)
    requires depth >= 1
    ensures Characterises(t, pos, depth, ScanClose(t, pos, depth))
    decreases |t| - pos
  {
    if pos >= |t| || IndexOf(t, Close, pos).None? {
      SoundEnd(t, pos, depth);
    } else if IndexOf(t, Open, pos).Some? && IndexOf(t, Open, pos).value < IndexOf(t, Close, pos).value {
      ScanCloseSound(t, IndexOf(t, Open, pos).value + |Open|, depth + 1);
      SoundOpen(t, pos, depth);
    } else if depth == 1 {
      SoundClose(t, pos, depth);
    } else {
      ScanCloseSound(t, IndexOf(t, Close, pos).value + |Close|, depth - 1);
      SoundClose(t, pos, depth);
    }
  }

  /** No `</div>` left: the nesting never closes. */
  lemma SoundEnd(t: string, pos: nat, depth: nat)
    requires depth >= 1 && (pos >= |t| || IndexOf(t, Close, pos).None?)
    ensures Characterises(t, pos, depth, ScanClose(t, pos, depth))
  {
    if pos >= |t| {
      forall q | pos <= q <= |t| ensures Balance(t, pos, q) < depth {
        assert q == pos;
      }
    } else {
      FindSpec(t, Close, pos, false);
      forall q | pos <= q <= |t| ensures Balance(t, pos, q) < depth {
        CountZero(t, Close, pos, q);
      }
    }
  }

  /** A `<div` first: the answer one level deeper past it is the answer here. */
  lemma SoundOpen(t: string, pos: nat, depth: nat)
    requires depth >= 1 && pos < |t|
    requires IndexOf(t, Close, pos).Some? && IndexOf(t, Open, pos).Some?
    requires IndexOf(t, Open, pos).value < IndexOf(t, Close, pos).value
    requires var n := IndexOf(t, Open, pos).value + |Open|;
             Characterises(t, n, depth + 1, ScanClose(t, n, depth + 1))
    ensures Characterises(t, pos, depth, ScanClose(t, pos, depth))
  {
    var o := IndexOf(t, Open, pos).value;
    var n := o + |Open|;
    OpenFirst(t, pos, depth);
    OpenStep(t, pos, o, IndexOf(t, Close, pos).value);
    Shift(t, pos, n, depth, -1, ScanClose(t, n, depth + 1));
  }

  /** A `</div>` first: it ends the element at level 1, and otherwise the answer one level up
      past it is the answer here. */
  lemma SoundClose(t: string, pos: nat, depth: nat)
    requires depth >= 1 && pos < |t| && IndexOf(t, Close, pos).Some?
    requires !(IndexOf(t, Open, pos).Some? && IndexOf(t, Open, pos).value < IndexOf(t, Close, pos).value)
    requires var n := IndexOf(t, Close, pos).value + |Close|;
             depth > 1 ==> Characterises(t, n, depth - 1, ScanClose(t, n, depth - 1))
    ensures Characterises(t, pos, depth, ScanClose(t, pos, depth))
  {
    var c := IndexOf(t, Close, pos).value;
    CloseFirst(t, pos, depth);
    CloseStep(t, pos, c);
    if depth > 1 {
      Shift(t, pos, c + |Close|, depth, 1, ScanClose(t, c + |Close|, depth - 1));
    } else {
      ClosesHere(t, pos, c);
    }
  }

  lemma ClosesHere(t: string, pos: nat, c: nat)
    requires pos <= c && c + |Close| <= |t| && At(t, Close, c, false)
    requires forall q :: pos <= q <= c ==> Balance(t, pos, q) <= 0
    requires Balance(t, pos, c + |Close|) == 1
    ensures FirstClose(t, pos, 1, c + |Close|)
  {
  }

  /** A stretch [pos, n) over which the nesting stays open shifts the answer from `n` to `pos`. */
  lemma Shift(t: string, pos: nat, n: nat, depth: nat, delta: int, r: Option<nat>)
    requires pos <= n && depth >= 1 && depth - delta >= 1
    requires forall q :: pos <= q <= n ==> Balance(t, pos, q) < depth
    requires forall q :: n <= q ==> Balance(t, pos, q) == Balance(t, n, q) + delta
    requires Characterises(t, n, depth - delta, r)
    ensures Characterises(t, pos, depth, r)
  {
  }

  /** When a `<div` comes first, the balance dips to -1 across it and otherwise carries on. */
  lemma OpenStep(t: string, pos: nat, o: nat, c: nat)
    requires IndexOf(t, Open, pos) == Some(o) && IndexOf(t, Close, pos) == Some(c) && o < c
    ensures o + |Open| <= |t|
    ensures forall q :: pos <= q <= o + |Open| ==> Balance(t, pos, q) <= 0
    ensures forall q :: o + |Open| <= q ==> Balance(t, pos, q) == Balance(t, o + |Open|, q) - 1
  {
    var n := o + |Open|;
    FindSpec(t, Open, pos, false);
    FindSpec(t, Close, pos, false);
    OpenExcludes(t, o);
    CountZero(t, Open, pos, o);
    CountZero(t, Open, o + 1, n);
    CountSplit(t, Open, pos, o, o + 1);
    CountSplit(t, Open, pos, o + 1, n);
    CountZero(t, Close, pos, n);
    forall q | pos <= q <= n ensures Balance(t, pos, q) <= 0 {
      CountZero(t, Close, pos, q);
    }
    forall q | n <= q ensures Balance(t, pos, q) == Balance(t, n, q) - 1 {
      CountSplit(t, Open, pos, n, q);
      CountSplit(t, Close, pos, n, q);
    }
  }

  /** When a `</div>` comes first, the balance rises to 1 just after it and otherwise carries on. */
  lemma CloseStep(t: string, pos: nat, c: nat)
    requires IndexOf(t, Close, pos) == Some(c)
    requires !(IndexOf(t, Open, pos).Some? && IndexOf(t, Open, pos).value < c)
    ensures c + |Close| <= |t| && At(t, Close, c, false)
    ensures forall q :: pos <= q <= c ==> Balance(t, pos, q) <= 0
    ensures forall q :: pos <= q <= c + |Close| ==> Balance(t, pos, q) <= 1
    ensures Balance(t, pos, c + |Close|) == 1
    ensures forall q :: c + |Close| <= q ==> Balance(t, pos, q) == Balance(t, c + |Close|, q) + 1
  {
    var n := c + |Close|;
    FindSpec(t, Open, pos, false);
    FindSpec(t, Close, pos, false);
    CloseExcludes(t, c);
    CountZero(t, Open, pos, n);
    CountZero(t, Close, pos, c);
    CountZero(t, Close, c + 1, n);
    CountSplit(t, Close, pos, c, c + 1);
    CountSplit(t, Close, pos, c + 1, n);
    forall q | pos <= q <= n ensures Balance(t, pos, q) <= 1 && (q <= c ==> Balance(t, pos, q) <= 0) {
      CountZero(t, Open, pos, q);
      CountSplit(t, Close, pos, q, n);
      if q <= c { CountZero(t, Close, pos, q); }
    }
    forall q | n <= q ensures Balance(t, pos, q) == Balance(t, n, q) + 1 {
      CountSplit(t, Open, pos, n, q);
      CountSplit(t, Close, pos, n, q);
    }
  }

  /** Conversely, the first balancing `</div>` is the one the scanner finds. */
  lemma ScanCloseComplete(t: string, pos: nat, depth: nat, e: nat)
    requires depth >= 1 && FirstClose(t, pos, depth, e)
    ensures ScanClose(t, pos, depth) == Some(e)
  {
    ScanCloseSound(t, pos, depth);
    var e2 := ScanClose(t, pos, depth).value;
    CloseOrder(t, e - |Close|, e2 - |Close|);
    CloseOrder(t, e2 - |Close|, e - |Close|);
  }

  /** Two distinct `</div>` are at least a tag apart. */
  lemma CloseOrder(t: string, x: nat, y: nat)
    requires At(t, Close, x, false) && At(t, Close, y, false)
    ensures x < y ==> x + |Close| <= y
  {
    CloseExcludes(t, x);
  }

  /** The loop of lines 42-65 (and 95-118), stopping where the source pushes the span. */
  method FindClosingEnd(t: string, tagEnd: nat) returns (r: Option<nat>)
    ensures r == ScanClose(t, tagEnd, 1)
  {
    var depth := 1;
    var pos := tagEnd;
    while pos < |t| && depth > 0
      invariant depth >= 1
      invariant ScanClose(t, pos, depth) == ScanClose(t, tagEnd, 1)
      decreases |t| - pos
    {
      var nextOpenDiv := IndexOf(t, Open, pos);
      var nextCloseDiv := IndexOf(t, Close, pos);
      if nextCloseDiv.None? {
        EndsUnclosed(t, pos, depth);
        return None;
      }
      Step(t, pos, depth, nextOpenDiv, nextCloseDiv.value);
      if nextOpenDiv.Some? && nextOpenDiv.value < nextCloseDiv.value {
        depth := depth + 1;
        pos := nextOpenDiv.value + 4;
      } else {
        depth := depth - 1;
        pos := nextCloseDiv.value + 6;
        if depth == 0 {
          return Some(pos);
        }
      }
    }
    EndsUnclosed(t, pos, depth);
    return None;
  }

  /** One pass of the loop body once a `</div>` is known to be left: where the scan goes next. */
  lemma Step(t: string, pos: nat, depth: nat, o: Option<nat>, c: nat)
    requires depth >= 1 && pos < |t| && IndexOf(t, Close, pos) == Some(c) && IndexOf(t, Open, pos) == o
    ensures if o.Some? && o.value < c then ScanClose(t, pos, depth) == ScanClose(t, o.value + 4, depth + 1)
            else ScanClose(t, pos, depth) == if depth == 1 then Some(c + 6) else ScanClose(t, c + 6, depth - 1)
  {
    if o.Some? && o.value < c {
      OpenFirst(t, pos, depth);
    } else {
      CloseFirst(t, pos, depth);
    }
  }

  /** With the text or its `</div>` tags used up, the scan reports no end. */
  lemma EndsUnclosed(t: string, pos: nat, depth: nat)
    requires depth >= 1 && (pos >= |t| || IndexOf(t, Close, pos).None?)
    ensures ScanClose(t, pos, depth).None?
  {
  }

  /** A `<div` before the next `</div>`: the scan goes one level deeper past it. */
  lemma OpenFirst(t: string, pos: nat, depth: nat)
    requires depth >= 1 && pos < |t|
    requires IndexOf(t, Close, pos).Some? && IndexOf(t, Open, pos).Some?
    requires IndexOf(t, Open, pos).value < IndexOf(t, Close, pos).value
    ensures IndexOf(t, Open, pos).value + 4 <= |t|
    ensures ScanClose(t, pos, depth) == ScanClose(t, IndexOf(t, Open, pos).value + 4, depth + 1)
  {
    FindSpec(t, Open, pos, false);
  }

  /** Otherwise the next `</div>` lifts the scan one level, ending it at level 1. */
  lemma CloseFirst(t: string, pos: nat, depth: nat)
    requires depth >= 1 && pos < |t|
    requires IndexOf(t, Close, pos).Some?
    requires !(IndexOf(t, Open, pos).Some? && IndexOf(t, Open, pos).value < IndexOf(t, Close, pos).value)
    ensures IndexOf(t, Close, pos).value + 6 <= |t|
    ensures ScanClose(t, pos, depth) == if depth == 1 then Some(IndexOf(t, Close, pos).value + 6)
                                          else ScanClose(t, IndexOf(t, Close, pos).value + 6, depth - 1)
  {
    FindSpec(t, Close, pos, false);
  }

  /** An element the scanner closes holds as many `<div` as `</div>`, counted in its own text,
      provided its opening tag is a lower-case `<div` with no other div tag inside it. */
  lemma SpanParity(t: string, start: nat, tagEnd: nat, e: nat)
    requires At(t, Open, start, false) && start + |Open| <= tagEnd
    requires forall p :: start < p < tagEnd ==> !At(t, Open, p, false) && !At(t, Close, p, false)
    requires ScanClose(t, tagEnd, 1) == Some(e)
    ensures start < e <= |t|
    ensures Occurrences(t[start..e], Open) == Occurrences(t[start..e], Close)
  {
    ScanCloseSound(t, tagEnd, 1);
    OpenExcludes(t, start);
    CountZero(t, Open, start + 1, tagEnd);
    CountZero(t, Close, start, tagEnd);
    CountSplit(t, Open, start, start + 1, tagEnd);
    CountSplit(t, Open, start, tagEnd, e);
    CountSplit(t, Close, start, tagEnd, e);
    assert Count(t, Open, start, e) == Count(t, Close, start, e);
    CloseExcludes(t, e - |Close|);
    CountSlice(t, Open, start, e);
    CountSlice(t, Close, start, e);
  }

  /** Counting inside a slice agrees with counting in the whole text when no occurrence that
      starts in the slice runs past its end, and the slice ends a `</div>`. */
  lemma CountSlice(t: string, pat: string, a: nat, b: nat)
    requires a < b <= |t| && |pat| <= |Close|
    requires b >= |Close| && At(t, Close, b - |Close|, false)
    requires pat == Open || pat == Close
    requires forall p :: b - |Close| < p < b ==> !At(t, Open, p, false) && !At(t, Close, p, false)
    ensures Occurrences(t[a..b], pat) == Count(t, pat, a, b)
  {
    var s := t[a..b];
    forall p | 0 <= p < |s| ensures At(s, pat, p, false) <==> At(t, pat, a + p, false) {
      AtChars(s, pat, p, false);
      AtChars(t, pat, a + p, false);
      if a + p + |pat| <= b {
      }
    }
    CountShift(s, t, pat, a, 0, |s|);
  }

  lemma {:induction false} CountShift(s: string, t: string, pat: string, off: nat, lo: nat, hi: nat)
    requires forall p :: lo <= p < hi ==> (At(s, pat, p, false) <==> At(t, pat, p + off, false))
    ensures Count(s, pat, lo, hi) == Count(t, pat, lo + off, hi + off)
    decreases hi
  {
    if hi > lo {
      CountShift(s, t, pat, off, lo, hi - 1);
    }
  }

  lemma {:induction false} CountSplit(t: string, pat: string, a: nat, b: nat, c: nat)
    requires a <= b <= c
    ensures Count(t, pat, a, c) == Count(t, pat, a, b) + Count(t, pat, b, c)
    decreases c
  {
    if c > b {
      CountSplit(t, pat, a, b, c - 1);
    }
  }

  lemma {:induction false} CountZero(t: string, pat: string, a: nat, b: nat)
    requires forall p :: a <= p < b ==> !At(t, pat, p, false)
    ensures Count(t, pat, a, b) == 0
    decreases b
  {
    if b > a {
      CountZero(t, pat, a, b - 1);
    }
  }

  /** The characters a `<div` and a `</div>` are made of. */
  lemma TagChars(t: string, p: nat)
    ensures At(t, Open, p, false) ==> t[p] == '<' && t[p + 1] == 'd' && t[p + 2] == 'i' && t[p + 3] == 'v'
    ensures At(t, Close, p, false) ==>
      t[p] == '<' && t[p + 1] == '/' && t[p + 2] == 'd' && t[p + 3] == 'i' && t[p + 4] == 'v' && t[p + 5] == '>'
  {
    if At(t, Open, p, false) {
      assert t[p..p + 4] == Open;
      assert t[p] == t[p..p + 4][0] && t[p + 1] == t[p..p + 4][1];
      assert t[p + 2] == t[p..p + 4][2] && t[p + 3] == t[p..p + 4][3];
    }
    if At(t, Close, p, false) {
      assert t[p..p + 6] == Close;
      assert t[p] == t[p..p + 6][0] && t[p + 1] == t[p..p + 6][1] && t[p + 2] == t[p..p + 6][2];
      assert t[p + 3] == t[p..p + 6][3] && t[p + 4] == t[p..p + 6][4] && t[p + 5] == t[p..p + 6][5];
    }
  }

  /** A `<div` leaves no room for another tag to start inside it. */
  lemma OpenExcludes(t: string, p: nat)
    requires At(t, Open, p, false)
    ensures !At(t, Close, p, false)
    ensures forall k :: p < k < p + |Open| ==> !At(t, Open, k, false) && !At(t, Close, k, false)
  {
    TagChars(t, p);
    forall k | p < k < p + |Open| ensures !At(t, Open, k, false) && !At(t, Close, k, false) {
      TagChars(t, k);
    }
  }

  /** A `</div>` is not a `<div`, and leaves no room for another tag to start inside it. */
  lemma CloseExcludes(t: string, p: nat)
    requires At(t, Close, p, false)
    ensures !At(t, Open, p, false)
    ensures forall k :: p < k < p + |Close| ==> !At(t, Open, k, false) && !At(t, Close, k, false)
  {
    TagChars(t, p);
    forall k | p < k < p + |Close| ensures !At(t, Open, k, false) && !At(t, Close, k, false) {
      TagChars(t, k);
    }
  }
}
