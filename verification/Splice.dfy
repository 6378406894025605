/** Text splices, and the trimming that `src/input.rs` applies before it stores one. */
module Splice {
  import opened Utf8

  datatype Range = Range(start: nat, end: nat)

  /** A byte range of `s` that Rust can slice: ordered, in bounds, on boundaries. */
  predicate Sliceable(s: Bytes, r: Range) {
    r.start <= r.end <= |s| && IsBoundary(s, r.start) && IsBoundary(s, r.end)
  }

  /** `content.get(at..at + piece.len()) == Some(piece)`. */
  predicate Holds(content: Bytes, at: nat, piece: Bytes) {
    Sliceable(content, Range(at, at + |piece|)) && content[at..at + |piece|] == piece
  }

  function Apply(s: Bytes, r: Range, t: Bytes): Bytes
    requires r.start <= r.end <= |s|
  {
    s[..r.start] + t + s[r.end..]
  }

  /** How far both agree from the front, the first `n` bytes being taken as read;
      character boundaries aside. */
  function SharedPrefix(a: Bytes, b: Bytes, n: nat): (m: nat)
    requires n <= |a| && n <= |b|
    ensures n <= m <= |a| && m <= |b|
    ensures forall i :: n <= i < m ==> a[i] == b[i]
    ensures m < |a| && m < |b| ==> a[m] != b[m]
    decreases |a| - n
  {
    if n < |a| && n < |b| && a[n] == b[n] then SharedPrefix(a, b, n + 1) else n
  }

  /** The same from the end. */
  function SharedSuffix(a: Bytes, b: Bytes, n: nat): (m: nat)
    requires n <= |a| && n <= |b|
    ensures n <= m <= |a| && m <= |b|
    ensures forall j :: |a| - m <= j < |a| - n ==> a[j] == b[|b| - |a| + j]
    ensures m < |a| && m < |b| ==> a[|a| - m - 1] != b[|b| - m - 1]
    decreases |a| - n
  {
    if n < |a| && n < |b| && a[|a| - n - 1] == b[|b| - n - 1] then SharedSuffix(a, b, n + 1) else n
  }

  /** The largest boundary of `a` at or below `n`. */
  function BackOff(a: Bytes, n: nat): (m: nat)
    requires n <= |a|
    ensures m <= n && IsBoundary(a, m)
    ensures forall k: nat :: m < k <= n ==> !IsBoundary(a, k)
  {
    if IsBoundary(a, n) then n else BackOff(a, n - 1)
  }

  /** The largest `m <= n` such that `a` has a boundary `m` bytes before its end. */
  function BackOffEnd(a: Bytes, n: nat): (m: nat)
    requires n <= |a|
    ensures m <= n && IsBoundary(a, |a| - m)
    ensures forall i: nat :: |a| - n <= i < |a| - m ==> !IsBoundary(a, i)
  {
    if IsBoundary(a, |a| - n) then n else BackOffEnd(a, n - 1)
  }

  function CommonPrefix(a: Bytes, b: Bytes): nat {
    BackOff(a, SharedPrefix(a, b, 0))
  }

  function CommonSuffix(a: Bytes, b: Bytes): nat {
    BackOffEnd(a, SharedSuffix(a, b, 0))
  }

  /** `common_prefix_len`: count equal bytes, then back off over `a` only. */
  method CommonPrefixLen(a: Bytes, b: Bytes) returns (len: nat)
    ensures len == CommonPrefix(a, b)
  {
    len := 0;
    while len < |a| && len < |b| && a[len] == b[len]
      invariant len <= |a| && len <= |b|
      invariant SharedPrefix(a, b, len) == SharedPrefix(a, b, 0)
    {
      len := len + 1;
    }
    while !IsBoundary(a, len)
      invariant len <= |a| && BackOff(a, len) == CommonPrefix(a, b)
      decreases len
    {
      len := len - 1;
    }
  }

  /** `common_suffix_len`: the same from the end. */
  method CommonSuffixLen(a: Bytes, b: Bytes) returns (len: nat)
    ensures len == CommonSuffix(a, b)
  {
    len := 0;
    while len < |a| && len < |b| && a[|a| - len - 1] == b[|b| - len - 1]
      invariant len <= |a| && len <= |b|
      invariant SharedSuffix(a, b, len) == SharedSuffix(a, b, 0)
    {
      len := len + 1;
    }
    while !IsBoundary(a, |a| - len)
      invariant len <= |a| && BackOffEnd(a, len) == CommonSuffix(a, b)
      decreases len
    {
      len := len - 1;
    }
  }

  lemma Halves(a: Bytes, b: Bytes)
    ensures (a + b)[..|a|] == a && (a + b)[|a|..] == b
  {
  }

  lemma SeamIsBoundary(a: Bytes, b: Bytes)
    requires Valid(a) && Valid(b)
    ensures IsBoundary(a + b, |a|)
  {
    if b != [] { ValidStartsWithLead(b); }
  }

  /** Although the back-off looks only at `a`, the cut is a boundary in both
      strings: they split into the same valid prefix and valid rests. */
  lemma CommonPrefixSplits(a: Bytes, b: Bytes) returns (p: Bytes, x: Bytes, y: Bytes)
    requires Valid(a) && Valid(b)
    ensures Valid(p) && Valid(x) && Valid(y) && |p| == CommonPrefix(a, b)
    ensures a == p + x && b == p + y
    ensures IsBoundary(a, |p|) && IsBoundary(b, |p|)
  {
    hide Valid, CharLen, SharedPrefix, BackOff;
    var n := CommonPrefix(a, b);
    p, x, y := a[..n], a[n..], b[n..];
    assert b == p + y;
    SplitValid(a, n);
    ValidSuffix(p, y);
    SeamIsBoundary(p, y);
  }

  lemma CommonSuffixSplits(a: Bytes, b: Bytes) returns (x: Bytes, y: Bytes, t: Bytes)
    requires Valid(a) && Valid(b)
    ensures Valid(x) && Valid(y) && Valid(t) && |t| == CommonSuffix(a, b)
    ensures a == x + t && b == y + t
    ensures IsBoundary(a, |x|) && IsBoundary(b, |y|)
  {
    hide Valid, CharLen, SharedSuffix, BackOffEnd;
    var n := CommonSuffix(a, b);
    x, y, t := a[..|a| - n], b[..|b| - n], a[|a| - n..];
    assert b == y + t;
    SplitValid(a, |x|);
    if t != [] {
      ValidStartsWithLead(t);
      assert b[|y|] == t[0];
    }
    SplitValid(b, |y|);
  }

  /** No longer valid text can be shared at the front ... */
  lemma CommonPrefixIsLongest(c: Bytes, x: Bytes, y: Bytes)
    requires Valid(c) && Valid(x) && Valid(y)
    ensures |c| <= CommonPrefix(c + x, c + y)
  {
    hide Valid, CharLen, SharedPrefix, BackOff;
    SeamIsBoundary(c, x);
  }

  /** ... nor at the end. */
  lemma CommonSuffixIsLongest(x: Bytes, y: Bytes, c: Bytes)
    requires Valid(c) && Valid(x) && Valid(y)
    ensures |c| <= CommonSuffix(x + c, y + c)
  {
    hide Valid, CharLen, SharedSuffix, BackOffEnd;
    SeamIsBoundary(x, c);
    assert |x + c| - |c| == |x|;
  }

  /** What `trimmed_splice` returns: an offset and the (old, new) pair. */
  datatype Trimmed = Trimmed(start: nat, removed: Bytes, inserted: Bytes)

  function Trim(content: Bytes, range: Range, newText: Bytes): Trimmed
    requires range.start <= range.end <= |content|
  {
    var old_ := content[range.start..range.end];
    var prefix := CommonPrefix(old_, newText);
    var o, n := old_[prefix..], newText[prefix..];
    var suffix := CommonSuffix(o, n);
    Trimmed(range.start + prefix, o[..|o| - suffix], n[..|n| - suffix])
  }

  method TrimmedSplice(content: Bytes, range: Range, newText: Bytes) returns (t: Trimmed)
    requires range.start <= range.end <= |content|
    ensures t == Trim(content, range, newText)
  {
    var o, n := content[range.start..range.end], newText;
    var prefix := CommonPrefixLen(o, n);
    o, n := o[prefix..], n[prefix..];
    var suffix := CommonSuffixLen(o, n);
    t := Trimmed(range.start + prefix, o[..|o| - suffix], n[..|n| - suffix]);
  }

  lemma Slices(a: Bytes, b: Bytes, c: Bytes)
    ensures (a + b + c)[..|a|] == a
    ensures (a + b + c)[|a|..|a| + |b|] == b
    ensures (a + b + c)[|a| + |b|..] == c
  {
  }

  lemma Regroup(a: Bytes, b: Bytes, c: Bytes, d: Bytes, e: Bytes)
    ensures a + (b + c + d) + e == (a + b) + c + (d + e)
  {
  }

  lemma Regroup4(a: Bytes, b: Bytes, c: Bytes, d: Bytes)
    ensures a + (b + c) + d == (a + b) + (c + d)
  {
  }

  lemma Assoc(a: Bytes, b: Bytes, c: Bytes)
    ensures (a + b) + c == a + (b + c)
  {
  }

  lemma Cut(s: Bytes, i: nat, j: nat)
    requires i <= j <= |s|
    ensures s == s[..i] + s[i..j] + s[j..]
  {
  }

  /** Old and new text split into a shared prefix, what differs, a shared suffix. */
  lemma TrimParts(content: Bytes, range: Range, newText: Bytes)
    returns (p: Bytes, o: Bytes, n: Bytes, q: Bytes)
    requires Valid(content) && Valid(newText) && Sliceable(content, range)
    ensures Valid(p) && Valid(o) && Valid(n) && Valid(q)
    ensures content[range.start..range.end] == p + o + q && newText == p + n + q
    ensures Trim(content, range, newText) == Trimmed(range.start + |p|, o, n)
    ensures |p| == CommonPrefix(p + o + q, p + n + q) && |q| == CommonSuffix(o + q, n + q)
  {
    hide Valid, CharLen, CommonPrefix, CommonSuffix;
    var a := content[range.start..range.end];
    SpliceValid(content, range.start, range.end, newText);
    var x, y;
    p, x, y := CommonPrefixSplits(a, newText);
    o, n, q := CommonSuffixSplits(x, y);
    assert a[|p|..] == x && newText[|p|..] == y by { Halves(p, x); Halves(p, y); }
    assert x[..|o|] == o && y[..|n|] == n by { Halves(o, q); Halves(n, q); }
    Assoc(p, o, q);
    Assoc(p, n, q);
  }

  /** Text between valid parts can be sliced out and replaced. */
  lemma SeamSplice(a: Bytes, o: Bytes, c: Bytes, n: Bytes)
    requires Valid(a) && Valid(o) && Valid(c)
    ensures Holds(a + o + c, |a|, o)
    ensures Apply(a + o + c, Range(|a|, |a| + |o|), n) == a + n + c
  {
    hide Valid, CharLen, IsBoundary;
    SeamsAreBoundaries(a, o, c);
    Slices(a, o, c);
    assert (a + o + c)[|a|..|a| + |o|] == o;
  }

  lemma ApplyValid(s: Bytes, r: Range, t: Bytes)
    requires Valid(s) && Sliceable(s, r) && Valid(t)
    ensures Valid(Apply(s, r, t))
  {
    hide Valid, CharLen, IsBoundary;
    SpliceValid(s, r.start, r.end, t);
  }

  lemma SeamDelete(a: Bytes, o: Bytes, c: Bytes)
    ensures Apply(a + o + c, Range(|a|, |a| + |o|), []) == a + c
  {
    Slices(a, o, c);
  }

  lemma SeamInsert(a: Bytes, c: Bytes, n: Bytes)
    requires Valid(a) && Valid(c)
    ensures Holds(a + c, |a|, [])
    ensures Apply(a + c, Range(|a|, |a|), n) == a + n + c
  {
    if c != [] { ValidStartsWithLead(c); }
    assert (a + c)[..|a|] == a && (a + c)[|a|..] == c;
  }

  /** The trimmed splice is the same edit: it removes text that is really there,
      on boundaries, and leaves the same result. */
  lemma TrimIsSameEdit(content: Bytes, range: Range, newText: Bytes)
    requires Valid(content) && Valid(newText) && Sliceable(content, range)
    ensures var t := Trim(content, range, newText); var r := Range(t.start, t.start + |t.removed|);
      && Valid(t.removed) && Valid(t.inserted)
      && Holds(content, t.start, t.removed)
      && Apply(content, r, t.inserted) == Apply(content, range, newText)
  {
    hide Valid, CharLen, Trim, IsBoundary;
    var p, o, n, q := TrimParts(content, range, newText);
    SpliceValid(content, range.start, range.end, newText);
    var pre, post := content[..range.start], content[range.end..];
    var a, c := pre + p, q + post;
    assert content == a + o + c by {
      Cut(content, range.start, range.end);
      Regroup(pre, p, o, q, post);
    }
    assert Apply(content, range, newText) == a + n + c by { Regroup(pre, p, n, q, post); }
    assert Valid(a) && Valid(c) by {
      ValidConcat(pre, p);
      ValidConcat(q, post);
    }
    assert |a| == range.start + |p|;
    SeamSplice(a, o, c, n);
  }

  /** The trim is maximal at character granularity: nothing is left to trim. */
  lemma TrimIsMaximal(content: Bytes, range: Range, newText: Bytes)
    requires Valid(content) && Valid(newText) && Sliceable(content, range)
    ensures var t := Trim(content, range, newText);
      CommonPrefix(t.removed, t.inserted) == 0 && CommonSuffix(t.removed, t.inserted) == 0
  {
    hide Valid, CharLen, CommonPrefix, CommonSuffix;
    var p, o, n, q := TrimParts(content, range, newText);
    NothingSharedInFront(p, o, n, q);
    var x, y, c := CommonSuffixSplits(o, n);
    ValidConcat(c, q);
    CommonSuffixIsLongest(x, y, c + q);
    Assoc(x, c, q);
    Assoc(y, c, q);
  }

  /** The front goes first: whatever both texts begin with is trimmed there, even where the end
      could have taken it. */
  lemma FrontGoesFirst(content: Bytes, range: Range, newText: Bytes, c: Bytes, x: Bytes, y: Bytes)
    requires range.start <= range.end <= |content| && Valid(c) && Valid(x) && Valid(y)
    requires content[range.start..range.end] == c + x && newText == c + y
    ensures Trim(content, range, newText).start >= range.start + |c|
  {
    hide Valid, CommonPrefix, CommonSuffix;
    CommonPrefixIsLongest(c, x, y);
  }

  lemma NothingSharedInFront(p: Bytes, o: Bytes, n: Bytes, q: Bytes)
    requires Valid(p) && Valid(o) && Valid(n) && Valid(q)
    requires |p| == CommonPrefix(p + o + q, p + n + q)
    ensures CommonPrefix(o, n) == 0
  {
    hide Valid, CharLen, CommonPrefix, CommonSuffix;
    var c, x, y := CommonPrefixSplits(o, n);
    ValidConcat(p, c);
    ValidConcat(x, q);
    ValidConcat(y, q);
    CommonPrefixIsLongest(p + c, x + q, y + q);
    Regroup4(p, c, x, q);
    Regroup4(p, c, y, q);
  }

  /** A splice changes nothing exactly when it trims to nothing. */
  lemma TrimIsEmptyIffNoChange(content: Bytes, range: Range, newText: Bytes)
    requires Valid(content) && Valid(newText) && Sliceable(content, range)
    ensures var t := Trim(content, range, newText);
      (t.removed == [] && t.inserted == []) <==> Apply(content, range, newText) == content
  {
    hide Valid, CharLen, CommonPrefix, CommonSuffix;
    TrimIsSameEdit(content, range, newText);
    var t := Trim(content, range, newText);
    var i, j := t.start, t.start + |t.removed|;
    assert content == content[..i] + t.removed + content[j..];
    if Apply(content, range, newText) == content {
      assert content == content[..i] + t.inserted + content[j..];
      assert t.inserted == content[i..j] == t.removed;
      assert Valid([]) by { SplitValid(content, 0); assert content[..0] == []; }
      CommonPrefixIsLongest(t.removed, [], []);
      assert t.removed + [] == t.removed;
      TrimIsMaximal(content, range, newText);
    }
  }
}
