/** What the decoder makes of bytes that are no UTF-8 (RFC 3629, section 4), and the examples
    of that document. */
module Utf8Malformed {
  import opened Utf8
  import opened Utf8Codec

  // ----- what is replaced -----

  /** The bytes that a first byte asks for, itself included. */
  function Wanted(first: Byte): nat {
    if first <= 0x7F then 1
    else if 0xC2 <= first <= 0xDF then 2
    else if 0xE0 <= first <= 0xEF then 3
    else if 0xF0 <= first <= 0xF4 then 4
    else 0
  }

  lemma AnnouncedIsWanted(first: Byte)
    ensures Announced(first).None? <==> Wanted(first) == 0
    ensures Announced(first).Some? ==> Announced(first).value.0 + 1 == Wanted(first)
  {
  }

  /** Shaped like a character, it is one unless it is overlong, a surrogate or too large. */
  lemma ShapedThree(b: Bytes)
    requires |b| >= 3 && Wanted(b[0]) == 3 && IsTail(b[1]) && IsTail(b[2])
    ensures Acceptable(ScalarOf(b[..3]), 2) <==> CharLen(b) == 3
  {
    hide Accumulated;
    assert b[..3][1..] == [b[1], b[2]];
    var x, y, z := b[0] as nat - 0xE0, b[1] as nat - 0x80, b[2] as nat - 0x80;
    AccumulatedTwo(x, b[..3][1..]);
  }

  lemma ShapedFour(b: Bytes)
    requires |b| >= 4 && Wanted(b[0]) == 4 && IsTail(b[1]) && IsTail(b[2]) && IsTail(b[3])
    ensures Acceptable(ScalarOf(b[..4]), 3) <==> CharLen(b) == 4
  {
    hide Accumulated;
    assert b[..4][1..] == [b[1], b[2], b[3]];
    AccumulatedThree(b[0] as nat - 0xF0, b[..4][1..]);
  }

  /** Where the bytes at the front are no character, a replacement stands for them: for the
      first byte alone if it starts no character or one that the next bytes do not go on with,
      for all that is left if the character is cut short, and for the whole of one that is
      overlong, a surrogate or too large. */
  lemma MalformedIsReplaced(b: Bytes)
    requires b != [] && CharLen(b) == 0
    ensures var n := Wanted(b[0]);
      Turn(b) == ([REPLACEMENT], if n == 0 then 1
                                 else if n > |b| then |b|
                                 else if exists i :: 1 <= i < n && !IsTail(b[i]) then 1 else n)
  {
    hide Accumulated, FromCodePoint, Acceptable, Announced;
    var n := Wanted(b[0]);
    AnnouncedIsWanted(b[0]);
    TurnCases(b);
    if 0 < n <= |b| {
      var more := b[1..n];
      assert forall i :: 1 <= i < n ==> more[i - 1] == b[i];
      if AllTails(more) {
        assert forall i :: 1 <= i < n ==> IsTail(b[i]);
        NotAcceptable(b);
      } else {
        var i :| 0 <= i < |more| && !IsTail(more[i]);
        assert !IsTail(b[i + 1]);
      }
    }
  }

  lemma NotAcceptable(b: Bytes)
    requires b != [] && CharLen(b) == 0 && 0 < Wanted(b[0]) <= |b|
    requires forall i :: 1 <= i < Wanted(b[0]) ==> IsTail(b[i])
    ensures Announced(b[0]).Some?
    ensures !Acceptable(Accumulated(Announced(b[0]).value.1, b[1..Wanted(b[0])]), Wanted(b[0]) - 1)
  {
    hide Accumulated, Acceptable;
    var n := Wanted(b[0]);
    assert b[..n][1..] == b[1..n];
    if n == 3 {
      ShapedThree(b);
    } else {
      assert n == 4;
      ShapedFour(b);
    }
  }

  /** Where they are a character, it is read, and nothing is replaced but U+FFFD itself. */
  lemma CharacterIsRead(b: Bytes)
    requires b != [] && CharLen(b) > 0
    ensures var n := CharLen(b);
      && Turn(b).1 == n && Encode(Turn(b).0) == b[..n]
      && (Turn(b).0 == [REPLACEMENT] <==> b[..n] == [0xEF, 0xBF, 0xBD])
  {
    hide CharLen, EncodeScalar, FromCodePoint, Turn, FirstScalar, FirstLength, Announced, ScalarOf;
    var n := CharLen(b);
    CharacterHolds(b);
    var c := ScalarOf(b[..n]);
    assert b == EncodeScalar(c) + b[n..];
    TurnOfEncoded(c, b[n..]);
    OneCodePoint(c);
    ReplacementBytes(c);
  }

  lemma OneCodePoint(c: nat)
    requires IsScalar(c)
    ensures Encode(FromCodePoint(c)) == EncodeScalar(c)
  {
    hide EncodeScalar, FromCodePoint, FirstScalar, FirstLength;
    FirstOfCodePoint(c, []);
    var u := FromCodePoint(c);
    assert u + [] == u && u[|u|..] == [];
    assert EncodeScalar(c) + [] == EncodeScalar(c);
  }

  lemma ReplacementBytes(c: nat)
    requires IsScalar(c)
    ensures FromCodePoint(c) == [REPLACEMENT] <==> c == 0xFFFD
    ensures EncodeScalar(c) == [0xEF, 0xBF, 0xBD] <==> c == 0xFFFD
  {
    if 0x7FF < c <= 0xFFFF { SixBitDigits(c); }
  }

  // ----- the examples of RFC 3629 -----

  lemma OneTurn(b: Bytes, u: Units, n: nat)
    requires b != [] && Turn(b) == (u, n)
    ensures Decode(b) == u + Decode(b[n..])
  {
    hide Turn;
  }

  lemma Replaced(b: Bytes, n: nat)
    requires b != [] && Turn(b) == ([REPLACEMENT], n)
    ensures Decode(b) == [REPLACEMENT] + Decode(b[n..])
  {
    OneTurn(b, [REPLACEMENT], n);
  }

  lemma ReplacedWhole(b: Bytes)
    requires b != [] && Turn(b) == ([REPLACEMENT], |b|)
    ensures Decode(b) == [REPLACEMENT]
  {
    hide Turn;
    Replaced(b, |b|);
    assert b[|b|..] == [];
  }

  /** Section 10: an overlong NUL, an overlong slash after two dots, and the two halves of a
      surrogate pair. */
  lemma OverlongAndSurrogates()
    ensures Decode([0xC0, 0x80]) == [REPLACEMENT, REPLACEMENT]
    ensures Decode([0x2F, 0xC0, 0xAE, 0x2E, 0x2F]) == [0x2F, REPLACEMENT, REPLACEMENT, 0x2E, 0x2F]
    ensures Decode([0xED, 0xA1, 0x8C, 0xED, 0xBE, 0xB4]) == [REPLACEMENT, REPLACEMENT]
  {
    hide Turn, Decode;
    var nul: Bytes := [0xC0, 0x80];
    assert nul[1..][1..] == [];
    Lone(nul);
    Lone(nul[1..]);
    NothingDecoded();
    Overlong();
    Surrogates();
  }

  lemma Lone(b: Bytes)
    requires b != [] && Wanted(b[0]) == 0
    ensures Decode(b) == [REPLACEMENT] + Decode(b[1..])
  {
    hide Turn;
    MalformedIsReplaced(b);
    Replaced(b, 1);
  }

  lemma Ascii(b: Bytes)
    requires b != [] && b[0] <= 0x7F
    ensures Decode(b) == [b[0] as Unit] + Decode(b[1..])
  {
    hide Accumulated;
    NothingAccumulated(b[0] as nat);
    assert b[1..1] == [];
    assert Turn(b) == ([b[0] as Unit], 1);
  }

  lemma Overlong()
    ensures Decode([0x2F, 0xC0, 0xAE, 0x2E, 0x2F]) == [0x2F, REPLACEMENT, REPLACEMENT, 0x2E, 0x2F]
  {
    hide Turn, Decode;
    var b: Bytes := [0x2F, 0xC0, 0xAE, 0x2E, 0x2F];
    Ascii(b);
    Lone(b[1..]);
    assert b[1..][1..] == b[2..] && b[2..][1..] == b[3..] && b[3..][1..] == b[4..] && b[4..][1..] == [];
    Lone(b[2..]);
    Ascii(b[3..]);
    Ascii(b[4..]);
    NothingDecoded();
  }

  lemma Surrogates()
    ensures Decode([0xED, 0xA1, 0x8C, 0xED, 0xBE, 0xB4]) == [REPLACEMENT, REPLACEMENT]
  {
    hide Turn, Decode;
    var b: Bytes := [0xED, 0xA1, 0x8C, 0xED, 0xBE, 0xB4];
    MalformedIsReplaced(b);
    Replaced(b, 3);
    assert b[3..] == [0xED, 0xBE, 0xB4];
    MalformedIsReplaced(b[3..]);
    ReplacedWhole(b[3..]);
  }

  /** A character cut short takes the rest of the text with it: `a` after E2 is lost, though
      two letters after it are not. */
  lemma CutShortLosesTheRest()
    ensures Decode([0xE2, 0x61]) == [REPLACEMENT]
    ensures Decode([0xE2, 0x61, 0x62]) == [REPLACEMENT, 0x61, 0x62]
  {
    hide Turn, Decode;
    var b: Bytes := [0xE2, 0x61, 0x62];
    MalformedIsReplaced([0xE2, 0x61]);
    ReplacedWhole([0xE2, 0x61]);
    assert !IsTail(b[1]);
    MalformedIsReplaced(b);
    Replaced(b, 1);
    assert b[1..][1..] == b[2..] && b[2..][1..] == [];
    Ascii(b[1..]);
    Ascii(b[2..]);
    NothingDecoded();
  }

  lemma OneScalar(s: Units, c: nat)
    requires s != [] && FirstScalar(s) == c
    ensures Encode(s) == EncodeScalar(c) + Encode(s[FirstLength(s)..])
  {
    hide EncodeScalar;
  }

  lemma NothingEncoded()
    ensures Encode([]) == []
  {
  }

  lemma BytesOfSection7()
    ensures EncodeScalar(0x41) == [0x41] && EncodeScalar(0x2E) == [0x2E]
    ensures EncodeScalar(0x2262) == [0xE2, 0x89, 0xA2] && EncodeScalar(0x391) == [0xCE, 0x91]
    ensures EncodeScalar(0x233B4) == [0xF0, 0xA3, 0x8E, 0xB4]
  {
  }

  /** Section 7: `A`, not identical to, alpha and a full stop; and the character U+233B4. */
  lemma Section7()
    ensures Encode([0x41, 0x2262, 0x391, 0x2E]) == [0x41, 0xE2, 0x89, 0xA2, 0xCE, 0x91, 0x2E]
    ensures Encode([0xD84C, 0xDFB4]) == [0xF0, 0xA3, 0x8E, 0xB4]
  {
    hide Encode, EncodeScalar;
    var s, t: Units := [0x41, 0x2262, 0x391, 0x2E], [0xD84C, 0xDFB4];
    assert s[1..][1..] == s[2..] && s[2..][1..] == s[3..] && s[3..][1..] == [] && t[2..] == [];
    OneScalar(s, 0x41);
    OneScalar(s[1..], 0x2262);
    OneScalar(s[2..], 0x391);
    OneScalar(s[3..], 0x2E);
    OneScalar(t, 0x233B4);
    NothingEncoded();
    BytesOfSection7();
  }
}
