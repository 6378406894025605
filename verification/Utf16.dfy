/** Byte offsets against UTF-16 offsets, as an input method counts them. */
module Utf16 {
  import opened Utf8
  import opened Splice

  /** UTF-16 units of a character that takes `n` UTF-8 bytes. */
  function Units(n: nat): nat {
    if n == 4 then 2 else 1
  }

  function Minus(a: nat, b: nat): nat {
    if a > b then a - b else 0
  }

  /** `offset_from_utf16`: whole characters until at least `offset` units have passed. */
  function FromUtf16(s: Bytes, offset: nat): (i: nat)
    requires Valid(s)
    ensures i <= |s|
  {
    if s == [] || offset == 0 then 0
    else CharLen(s) + FromUtf16(s[CharLen(s)..], Minus(offset, Units(CharLen(s))))
  }

  /** `offset_to_utf16`: units of the whole characters until `offset` bytes have passed. */
  function ToUtf16(s: Bytes, offset: nat): nat
    requires Valid(s)
  {
    if s == [] || offset == 0 then 0
    else Units(CharLen(s)) + ToUtf16(s[CharLen(s)..], Minus(offset, CharLen(s)))
  }

  method OffsetFromUtf16(content: Bytes, offset: nat) returns (utf8Offset: nat)
    requires Valid(content)
    ensures utf8Offset == FromUtf16(content, offset)
  {
    hide CharLen;
    utf8Offset := 0;
    var utf16Count: nat := 0;
    while utf8Offset < |content|
      invariant utf8Offset <= |content| && Valid(content[utf8Offset..])
      invariant FromUtf16(content, offset) == utf8Offset + FromUtf16(content[utf8Offset..], Minus(offset, utf16Count))
    {
      if utf16Count >= offset {
        break;
      }
      ghost var rest := content[utf8Offset..];
      var n := CharLen(content[utf8Offset..]);
      assert rest[n..] == content[utf8Offset + n..];
      utf16Count := utf16Count + Units(n);
      utf8Offset := utf8Offset + n;
    }
  }

  method OffsetToUtf16(content: Bytes, offset: nat) returns (utf16Offset: nat)
    requires Valid(content)
    ensures utf16Offset == ToUtf16(content, offset)
  {
    hide CharLen;
    utf16Offset := 0;
    var utf8Count := 0;
    while utf8Count < |content|
      invariant utf8Count <= |content| && Valid(content[utf8Count..])
      invariant ToUtf16(content, offset) == utf16Offset + ToUtf16(content[utf8Count..], Minus(offset, utf8Count))
    {
      if utf8Count >= offset {
        break;
      }
      ghost var rest := content[utf8Count..];
      var n := CharLen(content[utf8Count..]);
      assert rest[n..] == content[utf8Count + n..];
      utf8Count := utf8Count + n;
      utf16Offset := utf16Offset + Units(n);
    }
  }

  lemma {:induction false} FromUtf16IsBoundary(s: Bytes, offset: nat)
    requires Valid(s)
    ensures IsBoundary(s, FromUtf16(s, offset))
  {
    hide CharLen;
    if s != [] && offset > 0 {
      var n := CharLen(s);
      FromUtf16IsBoundary(s[n..], Minus(offset, Units(n)));
      if n < |s| { ValidStartsWithLead(s[n..]); }
    }
  }

  lemma {:induction false} FromUtf16Monotone(s: Bytes, a: nat, b: nat)
    requires Valid(s) && a <= b
    ensures FromUtf16(s, a) <= FromUtf16(s, b)
  {
    hide CharLen;
    if s != [] && a > 0 {
      FromUtf16Monotone(s[CharLen(s)..], Minus(a, Units(CharLen(s))), Minus(b, Units(CharLen(s))));
    }
  }

  /** A boundary survives the trip to UTF-16 and back. */
  lemma {:induction false} FromUtf16OfToUtf16(s: Bytes, i: nat)
    requires Valid(s) && i <= |s| && IsBoundary(s, i)
    ensures FromUtf16(s, ToUtf16(s, i)) == i
  {
    hide CharLen;
    if s != [] && i > 0 {
      var n := CharLen(s);
      BoundaryAfterFirst(s, i);
      FromUtf16OfToUtf16(s[n..], i - n);
    }
  }

  lemma BoundaryAfterFirst(s: Bytes, i: nat)
    requires Valid(s) && s != [] && 0 < i <= |s| && IsBoundary(s, i)
    ensures CharLen(s) <= i && IsBoundary(s[CharLen(s)..], i - CharLen(s))
  {
  }

  /** The other way an offset inside a surrogate pair is rounded up to its end. */
  lemma {:induction false} ToUtf16OfFromUtf16(s: Bytes, u: nat)
    requires Valid(s) && u <= ToUtf16(s, |s|)
    ensures u <= ToUtf16(s, FromUtf16(s, u)) <= u + 1
  {
    hide CharLen;
    if s != [] && u > 0 {
      var n := CharLen(s);
      ToUtf16OfFromUtf16(s[n..], Minus(u, Units(n)));
    }
  }

  function RangeFromUtf16(s: Bytes, r: Range): Range
    requires Valid(s)
  {
    Range(FromUtf16(s, r.start), FromUtf16(s, r.end))
  }

  /** A range whose ends count UTF-16 units from byte offset `base`. */
  function RangeFromRelativeUtf16(s: Bytes, base: nat, r: Range): Range
    requires Valid(s)
  {
    RangeFromUtf16(s, Range(ToUtf16(s, base) + r.start, ToUtf16(s, base) + r.end))
  }

  lemma RangeFromUtf16Sliceable(s: Bytes, r: Range)
    requires Valid(s) && r.start <= r.end
    ensures Sliceable(s, RangeFromUtf16(s, r))
  {
    FromUtf16IsBoundary(s, r.start);
    FromUtf16IsBoundary(s, r.end);
    FromUtf16Monotone(s, r.start, r.end);
  }

  /** Relative ranges start at or after their base. */
  lemma RelativeStartsAtBase(s: Bytes, base: nat, r: Range)
    requires Valid(s) && r.start <= r.end && base <= |s| && IsBoundary(s, base)
    ensures base <= RangeFromRelativeUtf16(s, base, r).start
    ensures Sliceable(s, RangeFromRelativeUtf16(s, base, r))
  {
    hide Valid, CharLen, FromUtf16, ToUtf16;
    var b := ToUtf16(s, base);
    FromUtf16OfToUtf16(s, base);
    FromUtf16Monotone(s, b, b + r.start);
    RangeFromUtf16Sliceable(s, Range(b + r.start, b + r.end));
  }
}
