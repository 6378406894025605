/** UTF-8 text as bytes: the well-formedness table of RFC 3629 (section 4), the
    encoding of one scalar value (section 3), and the character-boundary test
    that Rust's `str` applies before it slices. */
module Utf8 {
  newtype Byte = b: int | 0 <= b < 256
  type Bytes = seq<Byte>

  predicate IsTail(b: Byte) {
    0x80 <= b <= 0xBF
  }

  /** Length of the well-formed character at the front of `s`; 0 when there is none. */
  function CharLen(s: Bytes): (n: nat)
    ensures n <= 4 && n <= |s|
    ensures n > 0 ==> !IsTail(s[0]) && forall i :: 0 < i < n ==> IsTail(s[i])
  {
    if |s| == 0 then 0
    else if s[0] <= 0x7F then 1
    else if 0xC2 <= s[0] <= 0xDF then
      if |s| >= 2 && IsTail(s[1]) then 2 else 0
    else if 0xE0 <= s[0] <= 0xEF then
      if |s| >= 3 && IsTail(s[1]) && IsTail(s[2])
         && (s[0] == 0xE0 ==> 0xA0 <= s[1]) && (s[0] == 0xED ==> s[1] <= 0x9F)
      then 3 else 0
    else if 0xF0 <= s[0] <= 0xF4 then
      if |s| >= 4 && IsTail(s[1]) && IsTail(s[2]) && IsTail(s[3])
         && (s[0] == 0xF0 ==> 0x90 <= s[1]) && (s[0] == 0xF4 ==> s[1] <= 0x8F)
      then 4 else 0
    else 0
  }

  predicate Valid(s: Bytes) {
    s == [] || (CharLen(s) > 0 && Valid(s[CharLen(s)..]))
  }

  lemma NothingIsValid()
    ensures Valid([])
  {
  }

  /** Rust's `str::is_char_boundary`: both ends, and every byte that is not a tail. */
  predicate IsBoundary(s: Bytes, i: int) {
    i == 0 || i == |s| || (0 < i < |s| && !IsTail(s[i]))
  }

  /** The front character is decided by its own bytes only. */
  lemma CharLenLocal(s: Bytes, t: Bytes)
    requires 0 < CharLen(s) <= |t| && t[..CharLen(s)] == s[..CharLen(s)]
    ensures CharLen(t) == CharLen(s)
  {
    var n := CharLen(s);
    assert forall i :: 0 <= i < n ==> t[i] == t[..n][i] == s[..n][i] == s[i];
  }

  lemma {:induction false} ValidConcat(a: Bytes, b: Bytes)
    requires Valid(a) && Valid(b)
    ensures Valid(a + b)
  {
    hide CharLen;
    if a == [] {
      assert a + b == b;
    } else {
      var n := CharLen(a);
      CharLenLocal(a, a + b);
      ValidConcat(a[n..], b);
      assert (a + b)[n..] == a[n..] + b;
    }
  }

  /** A valid prefix can be cut off: what remains of a valid string is valid. */
  lemma {:induction false} ValidSuffix(a: Bytes, b: Bytes)
    requires Valid(a) && Valid(a + b)
    ensures Valid(b)
  {
    hide CharLen;
    if a == [] {
      assert a + b == b;
    } else {
      var n := CharLen(a);
      CharLenLocal(a, a + b);
      assert (a + b)[n..] == a[n..] + b;
      ValidSuffix(a[n..], b);
    }
  }

  /** Slicing a valid string at a boundary leaves two valid strings. */
  lemma {:induction false} SplitValid(s: Bytes, i: nat)
    requires Valid(s) && i <= |s| && IsBoundary(s, i)
    ensures Valid(s[..i]) && Valid(s[i..])
  {
    hide CharLen;
    if i == 0 {
      assert s[0..] == s;
    } else {
      var n := CharLen(s);
      assert s[n..][i - n..] == s[i..];
      assert s[..i][n..] == s[n..][..i - n];
      if i < |s| { assert s[n..][i - n] == s[i]; }
      SplitValid(s[n..], i - n);
      CharLenLocal(s, s[..i]);
    }
  }

  lemma ValidStartsWithLead(s: Bytes)
    requires Valid(s) && s != []
    ensures !IsTail(s[0])
  {
  }

  /** Cutting out `s[i..j]` at boundaries and putting `t` there stays valid. */
  lemma SpliceValid(s: Bytes, i: nat, j: nat, t: Bytes)
    requires Valid(s) && Valid(t) && i <= j <= |s| && IsBoundary(s, i) && IsBoundary(s, j)
    ensures Valid(s[..i]) && Valid(s[i..j]) && Valid(s[j..]) && Valid(s[..i] + t + s[j..])
  {
    hide Valid, CharLen;
    SplitValid(s, i);
    SplitValid(s, j);
    assert s[..i] + s[i..j] == s[..j];
    ValidSuffix(s[..i], s[i..j]);
    ValidConcat(s[..i], t);
    ValidConcat(s[..i] + t, s[j..]);
  }

  /** In `a + b + c` made of valid parts the two seams are boundaries. */
  lemma SeamsAreBoundaries(a: Bytes, b: Bytes, c: Bytes)
    requires Valid(a) && Valid(b) && Valid(c)
    ensures Valid(a + b + c)
    ensures IsBoundary(a + b + c, |a|) && IsBoundary(a + b + c, |a| + |b|)
  {
    ValidConcat(a, b);
    ValidConcat(a + b, c);
    if b != [] { ValidStartsWithLead(b); }
    if c != [] { ValidStartsWithLead(c); }
  }

  /** A boundary of a middle part is a boundary of the whole, and conversely. */
  lemma BoundaryInside(a: Bytes, b: Bytes, c: Bytes, i: nat)
    requires Valid(a) && Valid(b) && Valid(c) && i <= |b|
    ensures IsBoundary(a + b + c, |a| + i) <==> IsBoundary(b, i)
  {
    SeamsAreBoundaries(a, b, c);
  }
}
