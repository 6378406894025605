/** How the field cuts its text into styled runs (`input_text_runs` in `src/input.rs`):
    a boundary sweep with binary searches, against the style of each byte on its own. */
module TextRuns {
  import opened Basics
  import opened Options
  import opened Splice

  datatype Token = Token(range: Range, tokenClass: nat)
  datatype Wash = ActiveMatch | Selection | OtherMatch

  /** What decides a run's paint; the colours themselves are looked up from it. */
  datatype Style = Style(tokenClass: Option<nat>, wash: Option<Wash>, underlined: bool)
  datatype TextRun = TextRun(len: nat, style: Style)

  datatype Paint = Paint(
    displayLen: nat, selected: Option<Range>, marked: Option<Range>,
    highlight: seq<Token>, matches: seq<Range>, active: Option<Range>)

  function Ranges(tokens: seq<Token>): (rs: seq<Range>)
    ensures |rs| == |tokens| && forall i :: 0 <= i < |rs| ==> rs[i] == tokens[i].range
  {
    seq(|tokens|, i requires 0 <= i < |tokens| => tokens[i].range)
  }

  /** Sorted and non-overlapping. */
  predicate Disjoint(rs: seq<Range>) {
    && (forall i :: 0 <= i < |rs| ==> rs[i].start <= rs[i].end)
    && (forall i, j :: 0 <= i < j < |rs| ==> rs[i].end <= rs[j].start)
  }

  predicate Paintable(p: Paint) {
    && Disjoint(Ranges(p.highlight)) && Disjoint(p.matches)
    && (p.active.Some? ==> p.active.value in p.matches)
    && (p.selected.Some? ==> p.selected.value.start <= p.selected.value.end)
    && (p.marked.Some? ==> p.marked.value.start <= p.marked.value.end)
  }

  // ----- each byte on its own -----

  predicate Covers(r: Range, k: nat) {
    r.start <= k < r.end
  }

  predicate MaybeCovers(r: Option<Range>, k: nat) {
    r.Some? && Covers(r.value, k)
  }

  /** Linear search for the token that covers a byte. */
  function ClassAt(tokens: seq<Token>, k: nat): Option<nat> {
    if tokens == [] then None
    else if Covers(tokens[0].range, k) then Some(tokens[0].tokenClass)
    else ClassAt(tokens[1..], k)
  }

  predicate AnyCovers(rs: seq<Range>, k: nat) {
    exists i :: 0 <= i < |rs| && Covers(rs[i], k)
  }

  function StyleOf(p: Paint, k: nat): Style {
    Style(
      ClassAt(p.highlight, k),
      if MaybeCovers(p.active, k) then Some(ActiveMatch)
      else if MaybeCovers(p.selected, k) then Some(Selection)
      else if AnyCovers(p.matches, k) then Some(OtherMatch)
      else None,
      MaybeCovers(p.marked, k))
  }

  function Pointwise(p: Paint, n: nat): seq<Style> {
    seq(n, k requires 0 <= k < n => StyleOf(p, k))
  }

  /** One style for each byte of the runs, in order. */
  function Painted(runs: seq<TextRun>): seq<Style> {
    if runs == [] then []
    else Painted(runs[..|runs| - 1]) + seq(runs[|runs| - 1].len, _ => runs[|runs| - 1].style)
  }

  // ----- boundaries -----

  function Clip(x: nat, len: nat): nat {
    if x <= len then x else len
  }

  lemma AscendingCons(x: nat, t: seq<nat>)
    requires Ascending(t) && forall y :: y in t ==> x < y
    ensures Ascending([x] + t)
  {
    var s := [x] + t;
    forall i, j | 0 <= i < j < |s| ensures s[i] < s[j] {
      assert s[j] == t[j - 1] && s[j] in t;
    }
  }

  /** Put `x` into an ascending list without repeating it. */
  function Insert(s: seq<nat>, x: nat): (r: seq<nat>)
    requires Ascending(s)
    ensures Ascending(r) && x in r && (forall y :: y in r <==> y == x || y in s)
  {
    if s == [] then [x]
    else if x < s[0] then
      assert forall y :: y in [x] + s <==> y == x || y in s;
      [x] + s
    else if x == s[0] then s
    else
      var t := Insert(s[1..], x);
      assert s == [s[0]] + s[1..];
      AscendingCons(s[0], t);
      [s[0]] + t
  }

  function InsertBoth(s: seq<nat>, x: nat, y: nat): (r: seq<nat>)
    requires Ascending(s)
    ensures Ascending(r) && (forall z :: z in r <==> z == x || z == y || z in s)
  {
    hide Insert, Ascending;
    Insert(Insert(s, x), y)
  }

  function Listed(r: Option<Range>): seq<Range> {
    match r case Some(x) => [x] case None => []
  }

  /** Every range that can change a style, in the order their edges are collected. */
  function Edges(p: Paint): seq<Range> {
    Listed(p.selected) + Listed(p.marked) + Ranges(p.highlight) + p.matches
  }

  predicate Edge(p: Paint, r: Range) {
    p.selected == Some(r) || p.marked == Some(r) || r in Ranges(p.highlight) || r in p.matches
  }

  lemma EdgesAreAll(p: Paint, r: Range)
    ensures r in Edges(p) <==> Edge(p, r)
  {
  }

  /** An end of the text, or a clipped edge of one of the ranges. */
  predicate EdgeOf(rs: seq<Range>, len: nat, x: nat) {
    x == 0 || x == len || exists i :: 0 <= i < |rs| && (x == Clip(rs[i].start, len) || x == Clip(rs[i].end, len))
  }

  lemma OneRangeMore(rs: seq<Range>, i: nat, len: nat, x: nat)
    requires i < |rs|
    ensures EdgeOf(rs[..i + 1], len, x)
       <==> EdgeOf(rs[..i], len, x) || x == Clip(rs[i].start, len) || x == Clip(rs[i].end, len)
  {
    var a, b := rs[..i], rs[..i + 1];
    assert b[i] == rs[i];
    if EdgeOf(a, len, x) && x != 0 && x != len {
      var j :| 0 <= j < |a| && (x == Clip(a[j].start, len) || x == Clip(a[j].end, len));
      assert b[j] == a[j];
    }
    if EdgeOf(b, len, x) && x != 0 && x != len {
      var j :| 0 <= j < |b| && (x == Clip(b[j].start, len) || x == Clip(b[j].end, len));
      if j < i { assert a[j] == b[j]; }
    }
  }

  lemma NoRangesYet(rs: seq<Range>, len: nat, x: nat)
    ensures EdgeOf(rs[..0], len, x) <==> x == 0 || x == len
  {
  }

  /** The ends of the text and the clipped edges, sorted and deduplicated. */
  method SortedEdges(rs: seq<Range>, len: nat) returns (b: seq<nat>)
    ensures Ascending(b) && forall x :: x in b <==> EdgeOf(rs, len, x)
  {
    b := [];
    assert Ascending(b);
    hide Insert, InsertBoth, Ascending, Clip, EdgeOf;
    b := InsertBoth(b, 0, len);
    forall x ensures x in b <==> EdgeOf(rs[..0], len, x) { NoRangesYet(rs, len, x); }
    for i := 0 to |rs|
      invariant Ascending(b) && forall x :: x in b <==> EdgeOf(rs[..i], len, x)
    {
      b := InsertBoth(b, Clip(rs[i].start, len), Clip(rs[i].end, len));
      forall x ensures x in b <==> EdgeOf(rs[..i + 1], len, x) { OneRangeMore(rs, i, len, x); }
    }
    assert rs[..|rs|] == rs;
  }

  lemma ClipWithin(x: nat, len: nat)
    ensures Clip(x, len) <= len
  {
  }

  lemma EdgesWithin(rs: seq<Range>, len: nat, x: nat)
    requires EdgeOf(rs, len, x)
    ensures x <= len
  {
    hide Clip;
    if x != 0 && x != len {
      var i :| 0 <= i < |rs| && (x == Clip(rs[i].start, len) || x == Clip(rs[i].end, len));
      ClipWithin(rs[i].start, len);
      ClipWithin(rs[i].end, len);
    }
  }

  /** An end of the text, or a clipped edge of a range that can change a style. */
  ghost predicate MayChange(p: Paint, x: nat) {
    || x == 0 || x == p.displayLen
    || exists r :: Edge(p, r) && (x == Clip(r.start, p.displayLen) || x == Clip(r.end, p.displayLen))
  }

  /** In the list are the ends of the text and the clipped edges, each once, and nothing else. */
  method Boundaries(p: Paint) returns (b: seq<nat>)
    ensures Ascending(b) && (forall x :: x in b ==> x <= p.displayLen)
    ensures forall x :: x in b <==> MayChange(p, x)
  {
    hide Ascending, Clip, Edges, Edge;
    b := SortedEdges(Edges(p), p.displayLen);
    forall x ensures EdgeOf(Edges(p), p.displayLen, x) <==> MayChange(p, x) { EdgeOfSomeRange(p, x); }
    forall x | x in b ensures x <= p.displayLen { EdgesWithin(Edges(p), p.displayLen, x); }
  }

  lemma EdgeOfSomeRange(p: Paint, x: nat)
    ensures EdgeOf(Edges(p), p.displayLen, x) <==> MayChange(p, x)
  {
    hide Clip, Edges, Edge;
    var rs, len := Edges(p), p.displayLen;
    if EdgeOf(rs, len, x) && x != 0 && x != len {
      var i :| 0 <= i < |rs| && (x == Clip(rs[i].start, len) || x == Clip(rs[i].end, len));
      EdgesAreAll(p, rs[i]);
    }
    if r :| Edge(p, r) && (x == Clip(r.start, len) || x == Clip(r.end, len)) {
      EdgesAreAll(p, r);
      var i :| 0 <= i < |rs| && rs[i] == r;
      assert EdgeOf(rs, len, x);
    }
  }

  // ----- one window -----

  /** No edge of `r` falls strictly inside the window. */
  predicate EdgeFree(r: Range, start: nat, end: nat) {
    r.start <= r.end && !(start < r.start < end) && !(start < r.end < end)
  }

  /** Such a range covers all of the window or none of it. */
  lemma AllOrNothing(r: Range, start: nat, end: nat, k: nat)
    requires start <= k < end && EdgeFree(r, start, end)
    ensures Covers(r, k) <==> r.start <= start && r.end >= end
    ensures Covers(r, k) <==> r.start < end && r.end > start
  {
  }

  /** `partition_point(|range| range.end <= at)`, counted one by one. */
  function FirstEndingAfter(rs: seq<Range>, at: nat): (n: nat)
    ensures n <= |rs|
    ensures forall i :: 0 <= i < n ==> rs[i].end <= at
    ensures n < |rs| ==> rs[n].end > at
  {
    if rs == [] || rs[0].end > at then 0
    else
      var m := FirstEndingAfter(rs[1..], at);
      assert forall i :: 0 <= i < m + 1 ==> rs[i].end <= at by {
        forall i | 0 < i < m + 1 ensures rs[i].end <= at { assert rs[i] == rs[1..][i - 1]; }
      }
      m + 1
  }

  /** The binary search finds the same place. */
  method FindEndingAfter(rs: seq<Range>, at: nat) returns (n: nat)
    requires Disjoint(rs)
    ensures n == FirstEndingAfter(rs, at)
  {
    forall i, j | 0 <= i < j < |rs| && rs[j].end <= at ensures rs[i].end <= at {
      assert rs[i].end <= rs[j].start;
    }
    n := PartitionPoint(rs, (r: Range) => r.end <= at);
    ghost var f := FirstEndingAfter(rs, at);
    assert f < |rs| ==> rs[f].end > at;
    assert n < |rs| ==> rs[n].end > at;
  }

  /** The one candidate for a window covers it exactly when anything covers any of it. */
  lemma CandidateDecides(rs: seq<Range>, start: nat, end: nat, k: nat)
    requires Disjoint(rs) && start <= k < end
    requires forall i :: 0 <= i < |rs| ==> EdgeFree(rs[i], start, end)
    ensures var n := FirstEndingAfter(rs, start);
      && (AnyCovers(rs, k) <==> n < |rs| && rs[n].start <= start && rs[n].end >= end)
      && forall i :: 0 <= i < |rs| && Covers(rs[i], k) ==> i == n
  {
    var n := FirstEndingAfter(rs, start);
    forall i | 0 <= i < |rs| && Covers(rs[i], k)
      ensures i == n && rs[n].start <= start && rs[n].end >= end
    {
      AllOrNothing(rs[i], start, end, k);
    }
    if n < |rs| && rs[n].start <= start && rs[n].end >= end {
      assert Covers(rs[n], k);
    }
  }

  lemma {:induction false} ClassAtIs(tokens: seq<Token>, k: nat, n: nat)
    requires forall i :: 0 <= i < |tokens| && Covers(tokens[i].range, k) ==> i == n
    ensures ClassAt(tokens, k) ==
      if n < |tokens| && Covers(tokens[n].range, k) then Some(tokens[n].tokenClass) else None
  {
    if tokens != [] && !Covers(tokens[0].range, k) {
      if n > 0 {
        ClassAtIs(tokens[1..], k, n - 1);
      } else {
        ClassAtIs(tokens[1..], k, |tokens|);
      }
    }
  }

  ghost predicate WindowEdgeFree(p: Paint, start: nat, end: nat) {
    forall r :: Edge(p, r) ==> EdgeFree(r, start, end)
  }

  /** Between neighbouring boundaries no range begins or ends. */
  lemma NeighboursAreEdgeFree(p: Paint, b: seq<nat>, i: nat)
    requires Paintable(p) && Ascending(b) && i + 1 < |b| && b[i + 1] <= p.displayLen
    requires forall r :: Edge(p, r) ==> Clip(r.start, p.displayLen) in b && Clip(r.end, p.displayLen) in b
    ensures WindowEdgeFree(p, b[i], b[i + 1])
  {
    forall r | Edge(p, r) ensures EdgeFree(r, b[i], b[i + 1]) {
      NotBetween(b, i, Clip(r.start, p.displayLen));
      NotBetween(b, i, Clip(r.end, p.displayLen));
      EdgesAreOrdered(p, r);
    }
  }

  lemma NotBetween(b: seq<nat>, i: nat, x: nat)
    requires Ascending(b) && i + 1 < |b| && x in b
    ensures !(b[i] < x < b[i + 1])
  {
    var j :| 0 <= j < |b| && b[j] == x;
  }

  lemma EdgesAreOrdered(p: Paint, r: Range)
    requires Paintable(p) && Edge(p, r)
    ensures r.start <= r.end
  {
  }

  /** The style the sweep gives a window. */
  method WindowStyle(p: Paint, start: nat, end: nat) returns (s: Style)
    requires Paintable(p) && start < end && WindowEdgeFree(p, start, end)
    ensures forall k :: start <= k < end ==> s == StyleOf(p, k)
  {
    var tokenIndex := FindEndingAfter(Ranges(p.highlight), start);
    var tokenClass := None;
    if tokenIndex < |p.highlight| {
      var token := p.highlight[tokenIndex];
      if token.range.start <= start && token.range.end >= end {
        tokenClass := Some(token.tokenClass);
      }
    }
    var matchIndex := FindEndingAfter(p.matches, start);
    var wash := None;
    if p.active.Some? && p.active.value.start <= start && p.active.value.end >= end {
      wash := Some(ActiveMatch);
    } else if p.selected.Some? && p.selected.value.start < end && p.selected.value.end > start {
      wash := Some(Selection);
    } else if matchIndex < |p.matches|
              && p.matches[matchIndex].start <= start && p.matches[matchIndex].end >= end {
      wash := Some(OtherMatch);
    }
    var underlined := p.marked.Some? && p.marked.value.start < end && p.marked.value.end > start;
    s := Style(tokenClass, wash, underlined);
    forall k | start <= k < end ensures s == StyleOf(p, k) {
      TokenDecides(p, start, end, k);
      WashDecides(p, start, end, k);
    }
  }

  lemma TokenDecides(p: Paint, start: nat, end: nat, k: nat)
    requires Paintable(p) && start <= k < end && WindowEdgeFree(p, start, end)
    ensures var n := FirstEndingAfter(Ranges(p.highlight), start);
      ClassAt(p.highlight, k) ==
        if n < |p.highlight| && p.highlight[n].range.start <= start && p.highlight[n].range.end >= end
        then Some(p.highlight[n].tokenClass) else None
  {
    var rs := Ranges(p.highlight);
    forall i | 0 <= i < |rs| ensures EdgeFree(rs[i], start, end) { assert Edge(p, rs[i]); }
    CandidateDecides(rs, start, end, k);
    var n := FirstEndingAfter(rs, start);
    assert forall i :: 0 <= i < |p.highlight| && Covers(p.highlight[i].range, k) ==> Covers(rs[i], k);
    ClassAtIs(p.highlight, k, n);
    if n < |rs| { AllOrNothing(rs[n], start, end, k); }
  }

  lemma WashDecides(p: Paint, start: nat, end: nat, k: nat)
    requires Paintable(p) && start <= k < end && WindowEdgeFree(p, start, end)
    ensures var n := FirstEndingAfter(p.matches, start);
      AnyCovers(p.matches, k) <==> n < |p.matches| && p.matches[n].start <= start && p.matches[n].end >= end
    ensures p.active.Some? ==>
      (Covers(p.active.value, k) <==> p.active.value.start <= start && p.active.value.end >= end)
    ensures p.selected.Some? ==>
      (Covers(p.selected.value, k) <==> p.selected.value.start < end && p.selected.value.end > start)
    ensures p.marked.Some? ==> (Covers(p.marked.value, k) <==> p.marked.value.start < end && p.marked.value.end > start)
  {
    forall i | 0 <= i < |p.matches| ensures EdgeFree(p.matches[i], start, end) { assert Edge(p, p.matches[i]); }
    CandidateDecides(p.matches, start, end, k);
    if p.active.Some? { AllOrNothing(p.active.value, start, end, k); }
    if p.selected.Some? { AllOrNothing(p.selected.value, start, end, k); }
    if p.marked.Some? { AllOrNothing(p.marked.value, start, end, k); }
  }

  /** The runs tile the text, and every byte gets exactly its own style. */
  method InputTextRuns(p: Paint) returns (runs: seq<TextRun>)
    requires Paintable(p)
    ensures Painted(runs) == Pointwise(p, p.displayLen)
    ensures forall i :: 0 <= i < |runs| ==> runs[i].len > 0
  {
    var b := Boundaries(p);
    FirstAndLast(b, p.displayLen);
    runs := [];
    for i := 0 to |b| - 1
      invariant |runs| == i && forall j :: 0 <= j < i ==> runs[j].len > 0
      invariant Painted(runs) == Pointwise(p, b[i])
    {
      var start, end := b[i], b[i + 1];
      NeighboursAreEdgeFree(p, b, i);
      var style := WindowStyle(p, start, end);
      var run := TextRun(end - start, style);
      assert (runs + [run])[..|runs|] == runs;
      runs := runs + [run];
    }
  }

  lemma FirstAndLast(b: seq<nat>, len: nat)
    requires Ascending(b) && 0 in b && len in b && forall x :: x in b ==> x <= len
    ensures |b| > 0 && b[0] == 0 && b[|b| - 1] == len
  {
    var i :| 0 <= i < |b| && b[i] == 0;
    var j :| 0 <= j < |b| && b[j] == len;
    assert b[|b| - 1] in b;
  }

  /** Three bytes: the active match over the selection, the selection over another match; the
      first two marked, the last two one token. */
  lemma OneOfEach()
    ensures var p := Paint(3, Some(Range(0, 2)), Some(Range(0, 2)), [Token(Range(1, 3), 7)],
                           [Range(0, 1), Range(1, 3)], Some(Range(0, 1)));
      && Paintable(p)
      && Pointwise(p, 3) == [Style(None, Some(ActiveMatch), true), Style(Some(7), Some(Selection), true),
                             Style(Some(7), Some(OtherMatch), false)]
  {
    var p := Paint(3, Some(Range(0, 2)), Some(Range(0, 2)), [Token(Range(1, 3), 7)],
                   [Range(0, 1), Range(1, 3)], Some(Range(0, 1)));
    assert p.active.value == p.matches[0];
    assert p.highlight[1..] == [];
    assert Covers(p.matches[1], 2);
    var s := Pointwise(p, 3);
    assert s[0] == Style(None, Some(ActiveMatch), true);
    assert s[1] == Style(Some(7), Some(Selection), true);
    assert s[2] == Style(Some(7), Some(OtherMatch), false);
  }
}
