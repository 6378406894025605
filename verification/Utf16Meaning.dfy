/** What the UTF-16 offsets of the text field count: units of the decoded text. */
module Utf16Meaning {
  import opened Basics
  import opened Utf8
  import opened Splice
  import opened Utf16
  import Utf8Codec

  /** How many UTF-16 units a text takes. */
  function Length16(s: Bytes): nat {
    |Utf8Codec.Decode(s)|
  }

  // ----- decoding character by character -----

  lemma TurnIsLocal(a: Bytes, b: Bytes)
    requires CharLen(a) > 0
    ensures Utf8Codec.Turn(a + b) == Utf8Codec.Turn(a) && Utf8Codec.Turn(a).1 == CharLen(a)
    ensures |Utf8Codec.Turn(a).0| == if CharLen(a) == 4 then 2 else 1
  {
    hide Utf8Codec.Turn, Utf8Codec.FromCodePoint, Utf8Codec.EncodeScalar, Utf8Codec.ScalarOf;
    var n := CharLen(a);
    Utf8Codec.CharacterHolds(a);
    var c := Utf8Codec.ScalarOf(a[..n]);
    assert a == a[..n] + a[n..] && a + b == a[..n] + (a[n..] + b);
    Utf8Codec.TurnOfEncoded(c, a[n..]);
    Utf8Codec.TurnOfEncoded(c, a[n..] + b);
    UnitsOfScalar(c);
  }

  lemma UnitsOfScalar(c: nat)
    requires Utf8Codec.IsScalar(c)
    ensures |Utf8Codec.FromCodePoint(c)| == if |Utf8Codec.EncodeScalar(c)| == 4 then 2 else 1
  {
  }

  /** A valid text decodes on its own, whatever follows. */
  lemma {:induction false} DecodeConcat(a: Bytes, b: Bytes)
    requires Valid(a)
    ensures Utf8Codec.Decode(a + b) == Utf8Codec.Decode(a) + Utf8Codec.Decode(b)
    decreases |a|
  {
    hide CharLen, Utf8Codec.Turn;
    if a == [] {
      assert a + b == b;
      assert Utf8Codec.Decode(a) + Utf8Codec.Decode(b) == Utf8Codec.Decode(b);
    } else {
      var n := CharLen(a);
      TurnIsLocal(a, b);
      assert (a + b)[n..] == a[n..] + b;
      DecodeConcat(a[n..], b);
      Regrouped(Utf8Codec.Turn(a).0, Utf8Codec.Decode(a[n..]), Utf8Codec.Decode(b));
    }
  }

  lemma LengthConcat(a: Bytes, b: Bytes)
    requires Valid(a)
    ensures Length16(a + b) == Length16(a) + Length16(b)
  {
    hide Utf8Codec.Decode;
    DecodeConcat(a, b);
  }

  lemma LengthFirst(s: Bytes)
    requires Valid(s) && s != []
    ensures Length16(s) == (if CharLen(s) == 4 then 2 else 1) + Length16(s[CharLen(s)..])
  {
    hide CharLen, Utf8Codec.Turn;
    TurnIsLocal(s, []);
    assert s + [] == s;
  }

  // ----- the two conversions -----

  lemma {:induction false} ToUtf16OfAll(s: Bytes, i: nat)
    requires Valid(s) && i >= |s|
    ensures ToUtf16(s, i) == Length16(s)
    decreases |s|
  {
    hide CharLen, Length16;
    if s == [] {
      assert Length16([]) == 0 by { NothingToCount(); }
    } else {
      LengthFirst(s);
      ToUtf16OfAll(s[CharLen(s)..], Minus(i, CharLen(s)));
    }
  }

  lemma NothingToCount()
    ensures Length16([]) == 0
  {
  }

  lemma AfterBoundary(s: Bytes, i: nat)
    requires Valid(s) && s != [] && 0 < i <= |s| && IsBoundary(s, i)
    ensures var n := CharLen(s); n <= i && CharLen(s[..i]) == n && s[..i][n..] == s[n..][..i - n]
  {
    hide CharLen;
    BoundaryAfterFirst(s, i);
    CharLenLocal(s, s[..i]);
  }

  /** A boundary is converted to the length of the decoded text before it. */
  lemma {:induction false} ToUtf16IsLength(s: Bytes, i: nat)
    requires Valid(s) && i <= |s| && IsBoundary(s, i)
    ensures ToUtf16(s, i) == Length16(s[..i])
    decreases |s|
  {
    hide CharLen, Length16;
    if s == [] || i == 0 {
      assert s[..i] == [];
      NothingToCount();
    } else {
      var n := CharLen(s);
      AfterBoundary(s, i);
      BoundaryAfterFirst(s, i);
      SplitValid(s, i);
      LengthFirst(s[..i]);
      ToUtf16IsLength(s[n..], i - n);
    }
  }

  /** Any other offset is first moved on to the next boundary. */
  lemma {:induction false} ToUtf16RoundsUp(s: Bytes, i: nat, j: nat)
    requires Valid(s) && i <= j <= |s| && IsBoundary(s, j) && forall k: nat :: i <= k < j ==> !IsBoundary(s, k)
    ensures ToUtf16(s, i) == ToUtf16(s, j)
    decreases |s|
  {
    hide CharLen;
    if s != [] && i > 0 {
      var n := CharLen(s);
      BoundaryAfterFirst(s, j);
      if i <= n {
        FirstEnds(s);
        assert j == n;
      } else {
        forall k: nat | i - n <= k < j - n ensures !IsBoundary(s[n..], k) {
          assert !IsBoundary(s, n + k);
          assert s[n..][k] == s[n + k];
        }
        ToUtf16RoundsUp(s[n..], i - n, j - n);
      }
    } else {
      assert IsBoundary(s, 0);
    }
  }

  lemma FirstEnds(s: Bytes)
    requires Valid(s) && s != []
    ensures IsBoundary(s, CharLen(s))
  {
    hide CharLen;
    if CharLen(s) < |s| { ValidStartsWithLead(s[CharLen(s)..]); }
  }

  /** A UTF-16 offset is converted to the first boundary with at least that many units before
      it, and to the end of a text that has fewer. */
  lemma FromUtf16IsLeast(s: Bytes, u: nat)
    requires Valid(s)
    ensures var i := FromUtf16(s, u);
      && i <= |s| && IsBoundary(s, i)
      && (if Length16(s) < u then i == |s| else Length16(s[..i]) >= u)
      && (forall j: nat :: j < i && IsBoundary(s, j) ==> Length16(s[..j]) < u)
  {
    hide Length16, IsBoundary;
    var i := FromUtf16(s, u);
    FromUtf16IsBoundary(s, u);
    ToUtf16OfAll(s, |s|);
    if u <= Length16(s) {
      ToUtf16OfFromUtf16(s, u);
      ToUtf16IsLength(s, i);
    } else {
      FromUtf16PastTheEnd(s, u);
    }
    forall j: nat | j < i && IsBoundary(s, j) ensures Length16(s[..j]) < u {
      ToUtf16IsLength(s, j);
      FromUtf16OfToUtf16(s, j);
      if Length16(s[..j]) >= u { FromUtf16Monotone(s, u, ToUtf16(s, j)); }
    }
  }

  lemma FromUtf16PastTheEnd(s: Bytes, u: nat)
    requires Valid(s) && Length16(s) <= u
    ensures FromUtf16(s, u) == |s|
  {
    hide Length16;
    ToUtf16OfAll(s, |s|);
    FromUtf16OfToUtf16(s, |s|);
    FromUtf16Monotone(s, Length16(s), u);
  }

  /** In a text put together from valid parts, offsets in the second one add up. */
  lemma OffsetInside(a: Bytes, b: Bytes, c: Bytes, i: nat)
    requires Valid(a) && Valid(b) && Valid(c) && i <= |b| && IsBoundary(b, i)
    ensures var s := a + b + c;
      && Valid(s) && IsBoundary(s, |a| + i)
      && ToUtf16(s, |a| + i) == ToUtf16(s, |a|) + Length16(b[..i])
      && FromUtf16(s, ToUtf16(s, |a|) + Length16(b[..i])) == |a| + i
  {
    hide Valid, CharLen, Length16, IsBoundary, FromUtf16, ToUtf16;
    var s := a + b + c;
    SeamsAreBoundaries(a, b, c);
    BoundaryInside(a, b, c, i);
    ToUtf16IsLength(s, |a|);
    ToUtf16IsLength(s, |a| + i);
    assert s[..|a|] == a && s[..|a| + i] == a + b[..i];
    LengthConcat(a, b[..i]);
    FromUtf16OfToUtf16(s, |a| + i);
  }

  /** An emoji is four bytes and two units. */
  lemma EmojiCounts()
    ensures var s: Bytes := [0xF0, 0x9F, 0x98, 0x80, 0x61];
      Valid(s) && FromUtf16(s, 2) == 4 && ToUtf16(s, 4) == 2 && Utf8Codec.Decode(s) == [0xD83D, 0xDE00, 0x61]
  {
    var s: Bytes := [0xF0, 0x9F, 0x98, 0x80, 0x61];
    assert s[4..] == [0x61] && s[4..][1..] == [];
    assert CharLen(s) == 4 && CharLen(s[4..]) == 1;
    assert Valid(s[4..]);
    assert FromUtf16(s[4..], 0) == 0;
    Utf8Codec.EncodedHolds(0x1F600);
    Utf8Codec.TurnOfEncoded(0x1F600, [0x61]);
    assert Utf8Codec.EncodeScalar(0x1F600) == [0xF0, 0x9F, 0x98, 0x80];
    assert s == Utf8Codec.EncodeScalar(0x1F600) + [0x61];
    Utf8Codec.TurnOfEncoded(0x61, []);
    assert Utf8Codec.EncodeScalar(0x61) + [] == [0x61];
    assert Utf8Codec.Decode([0x61]) == [0x61];
  }
}
