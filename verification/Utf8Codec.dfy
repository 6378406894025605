/** The UTF-8 codec of the bootstrap script (`src/js_repl_bootstrap.js`), between UTF-16
    units and bytes. On the values that occur, `|` of disjoint bits is a sum, a shift is a
    product or quotient by a power of two, and a mask is a remainder. */
module Utf8Codec {
  import opened Basics
  import opened Options
  import opened Utf8

  newtype Unit = u: int | 0 <= u < 0x1_0000
  type Units = seq<Unit>

  const REPLACEMENT: Unit := 0xFFFD

  predicate IsHigh(u: Unit) {
    0xD800 <= u <= 0xDBFF
  }

  predicate IsLow(u: Unit) {
    0xDC00 <= u <= 0xDFFF
  }

  /** A scalar value (RFC 3629, section 3): in range and no surrogate. */
  predicate IsScalar(c: nat) {
    c <= 0x10FFFF && !(0xD800 <= c <= 0xDFFF)
  }

  // ----- encoding -----

  predicate StartsWithPair(s: Units) {
    |s| >= 2 && IsHigh(s[0]) && IsLow(s[1])
  }

  function FirstScalar(s: Units): (c: nat)
    requires s != []
    ensures IsScalar(c)
  {
    if StartsWithPair(s) then 0x10000 + (s[0] as nat - 0xD800) * 0x400 + (s[1] as nat - 0xDC00)
    else if IsHigh(s[0]) || IsLow(s[0]) then 0xFFFD
    else s[0] as nat
  }

  function FirstLength(s: Units): (n: nat)
    requires s != []
    ensures 0 < n <= |s|
  {
    if StartsWithPair(s) then 2 else 1
  }

  /** The four forms of RFC 3629, section 3. */
  function EncodeScalar(c: nat): (b: Bytes)
    requires c <= 0x10FFFF
  {
    if c <= 0x7F then [c as Byte]
    else if c <= 0x7FF then [(0xC0 + c / 0x40) as Byte, (0x80 + c % 0x40) as Byte]
    else if c <= 0xFFFF then
      [(0xE0 + c / 0x1000) as Byte, (0x80 + c / 0x40 % 0x40) as Byte, (0x80 + c % 0x40) as Byte]
    else
      [(0xF0 + c / 0x4_0000) as Byte, (0x80 + c / 0x1000 % 0x40) as Byte,
       (0x80 + c / 0x40 % 0x40) as Byte, (0x80 + c % 0x40) as Byte]
  }

  function Encode(s: Units): Bytes
    decreases |s|
  {
    if s == [] then [] else EncodeScalar(FirstScalar(s)) + Encode(s[FirstLength(s)..])
  }

  method Utf8Encode(input: Units) returns (output: Bytes)
    ensures output == Encode(input)
  {
    hide EncodeScalar;
    output := [];
    var index := 0;
    while index < |input|
      invariant index <= |input| && Encode(input) == output + Encode(input[index..])
    {
      ghost var rest := input[index..];
      ghost var before := output;
      var codePoint := input[index] as nat;
      if 0xD800 <= codePoint <= 0xDBFF {
        if index + 1 < |input| && 0xDC00 <= input[index + 1] <= 0xDFFF {
          codePoint := 0x10000 + (codePoint - 0xD800) * 0x400 + (input[index + 1] as nat - 0xDC00);
          index := index + 1;
        } else {
          codePoint := 0xFFFD;
        }
      } else if 0xDC00 <= codePoint <= 0xDFFF {
        codePoint := 0xFFFD;
      }
      assert codePoint == FirstScalar(rest);
      output := output + EncodeScalar(codePoint);
      index := index + 1;
      assert rest[FirstLength(rest)..] == input[index..];
      Regrouped(before, EncodeScalar(codePoint), Encode(input[index..]));
    }
    assert input[index..] == [];
  }

  // ----- decoding -----

  /** How many more bytes a first byte announces, and the bits it holds. */
  function Announced(first: Byte): Option<(nat, nat)> {
    var f := first as nat;
    if f <= 0x7F then Some((0, f))
    else if 0xC2 <= f <= 0xDF then Some((1, f % 0x20))
    else if 0xE0 <= f <= 0xEF then Some((2, f % 0x10))
    else if 0xF0 <= f <= 0xF4 then Some((3, f % 0x08))
    else None
  }

  /** Six more bits from each byte. */
  function Accumulated(bits: nat, more: Bytes): nat {
    if more == [] then bits else Accumulated(bits, more[..|more| - 1]) * 0x40 + more[|more| - 1] as nat % 0x40
  }

  predicate AllTails(b: Bytes) {
    forall i :: 0 <= i < |b| ==> IsTail(b[i])
  }

  predicate Acceptable(c: nat, remaining: nat) {
    !(remaining == 1 && c < 0x80) && !(remaining == 2 && c < 0x800) && !(remaining == 3 && c < 0x10000)
    && IsScalar(c)
  }

  function FromCodePoint(c: nat): Units
    requires c <= 0x10FFFF
  {
    if c < 0x10000 then [c as Unit]
    else [(0xD800 + (c - 0x10000) / 0x400) as Unit, (0xDC00 + (c - 0x10000) % 0x400) as Unit]
  }

  /** What one turn of the loop writes, and how many bytes it moves on. A truncated last
      character ends the text, whatever follows its first byte. */
  function Turn(b: Bytes): (r: (Units, nat))
    requires b != []
    ensures 0 < r.1 <= |b|
  {
    match Announced(b[0])
    case None => ([REPLACEMENT], 1)
    case Some((remaining, bits)) =>
      if 1 + remaining > |b| then ([REPLACEMENT], |b|)
      else if !AllTails(b[1..1 + remaining]) then ([REPLACEMENT], 1)
      else
        var c := Accumulated(bits, b[1..1 + remaining]);
        (if Acceptable(c, remaining) then FromCodePoint(c) else [REPLACEMENT], 1 + remaining)
  }

  function Decode(b: Bytes): Units
    decreases |b|
  {
    if b == [] then [] else Turn(b).0 + Decode(b[Turn(b).1..])
  }

  method Utf8Decode(bytes: Bytes) returns (output: Units)
    ensures output == Decode(bytes)
  {
    hide Announced, Accumulated, Acceptable, FromCodePoint, Turn, AllTails, Decode;
    output := [];
    var index := 0;
    while index < |bytes|
      invariant index <= |bytes| && Decode(bytes) == output + Decode(bytes[index..])
    {
      ghost var rest := bytes[index..];
      ghost var before := output;
      var announced := Announced(bytes[index]);
      index := index + 1;
      TurnCases(rest);
      if announced.None? {
        output := output + [REPLACEMENT];
        TurnTaken(before, bytes, rest, output, index);
        continue;
      }
      var (remaining, bits) := announced.value;
      if index + remaining > |bytes| {
        output := output + [REPLACEMENT];
        TurnTaken(before, bytes, rest, output, |bytes|);
        index := |bytes|;
        break;
      }
      assert rest[1..1 + remaining] == bytes[index..index + remaining];
      var valid, codePoint := CodePoint(bytes, index, remaining, bits);
      if !valid {
        output := output + [REPLACEMENT];
        TurnTaken(before, bytes, rest, output, index);
        continue;
      }
      index := index + remaining;
      if !Acceptable(codePoint, remaining) {
        output := output + [REPLACEMENT];
      } else {
        assert IsScalar(codePoint) by { AcceptableIsScalar(codePoint, remaining); }
        output := output + FromCodePoint(codePoint);
      }
      TurnTaken(before, bytes, rest, output, index);
    }
    assert bytes[index..] == [];
    NothingDecoded();
  }

  lemma NothingDecoded()
    ensures Decode([]) == []
  {
  }

  lemma TurnCases(b: Bytes)
    requires b != []
    ensures Announced(b[0]).None? ==> Turn(b) == ([REPLACEMENT], 1)
    ensures Announced(b[0]).Some? ==>
              var (remaining, bits) := Announced(b[0]).value;
              if 1 + remaining > |b| then Turn(b) == ([REPLACEMENT], |b|)
              else var more := b[1..1 + remaining]; var c := Accumulated(bits, more);
                if !AllTails(more) then Turn(b) == ([REPLACEMENT], 1)
                else if !Acceptable(c, remaining) then Turn(b) == ([REPLACEMENT], 1 + remaining)
                else c <= 0x10FFFF && Turn(b) == (FromCodePoint(c), 1 + remaining)
  {
    hide Announced, Accumulated, AllTails, FromCodePoint;
  }

  lemma AcceptableIsScalar(c: nat, remaining: nat)
    requires Acceptable(c, remaining)
    ensures IsScalar(c)
  {
  }

  lemma TurnTaken(before: Units, bytes: Bytes, rest: Bytes, output: Units, index: nat)
    requires rest != [] && |rest| <= |bytes| && rest == bytes[|bytes| - |rest|..]
    requires output == before + Turn(rest).0 && index == |bytes| - |rest| + Turn(rest).1
    ensures before + Decode(rest) == output + Decode(bytes[index..])
  {
    hide Turn;
    assert rest[Turn(rest).1..] == bytes[index..];
    Regrouped(before, Turn(rest).0, Decode(bytes[index..]));
  }

  method CodePoint(bytes: Bytes, index: nat, remaining: nat, bits: nat) returns (valid: bool, codePoint: nat)
    requires index + remaining <= |bytes|
    ensures valid == AllTails(bytes[index..index + remaining])
    ensures valid ==> codePoint == Accumulated(bits, bytes[index..index + remaining])
  {
    valid, codePoint := true, bits;
    for offset := 0 to remaining
      invariant AllTails(bytes[index..index + offset])
      invariant codePoint == Accumulated(bits, bytes[index..index + offset])
    {
      var byte := bytes[index + offset];
      assert bytes[index..index + remaining][offset] == byte;
      if !(0x80 <= byte <= 0xBF) {
        return false, codePoint;
      }
      assert bytes[index..index + offset + 1] == bytes[index..index + offset] + [byte];
      codePoint := codePoint * 0x40 + byte as nat % 0x40;
    }
  }

  // ----- one character -----

  /** A character encoded is one well-formed character. */
  lemma EncodedIsCharacter(c: nat, t: Bytes)
    requires IsScalar(c)
    ensures CharLen(EncodeScalar(c) + t) == |EncodeScalar(c)|
  {
    hide IsTail;
    var b := EncodeScalar(c);
    var s := b + t;
    TailsOfEncoded(c);
    assert s[0] == b[0] && (|b| > 1 ==> s[1] == b[1]) && (|b| > 2 ==> s[2] == b[2]) && (|b| > 3 ==> s[3] == b[3]);
  }

  lemma TailsOfEncoded(c: nat)
    requires IsScalar(c)
    ensures var b := EncodeScalar(c); forall i :: 1 <= i < |b| ==> IsTail(b[i])
  {
  }

  lemma AccumulatedOne(bits: nat, more: Bytes)
    requires |more| == 1
    ensures Accumulated(bits, more) == bits * 0x40 + more[0] as nat % 0x40
  {
    assert more[..0] == [];
  }

  lemma AccumulatedTwo(bits: nat, more: Bytes)
    requires |more| == 2
    ensures Accumulated(bits, more) == (bits * 0x40 + more[0] as nat % 0x40) * 0x40 + more[1] as nat % 0x40
  {
    AccumulatedOne(bits, more[..1]);
  }

  lemma AccumulatedThree(bits: nat, more: Bytes)
    requires |more| == 3
    ensures Accumulated(bits, more)
         == ((bits * 0x40 + more[0] as nat % 0x40) * 0x40 + more[1] as nat % 0x40) * 0x40 + more[2] as nat % 0x40
  {
    AccumulatedTwo(bits, more[..2]);
  }

  /** The scalar value that `n` bytes hold. */
  function ScalarOf(b: Bytes): nat
    requires b != [] && Announced(b[0]).Some?
  {
    Accumulated(Announced(b[0]).value.1, b[1..])
  }

  /** The bytes of a scalar value hold it again. */
  lemma EncodedHolds(c: nat)
    requires IsScalar(c)
    ensures var b := EncodeScalar(c);
      && Announced(b[0]).Some? && Announced(b[0]).value.0 == |b| - 1 && AllTails(b[1..])
      && ScalarOf(b) == c && Acceptable(c, |b| - 1)
  {
    hide Accumulated;
    var b := EncodeScalar(c);
    if |b| == 1 {
      NothingAccumulated(b[0] as nat);
      assert b[1..] == [];
    } else if |b| == 2 {
      assert b[1..] == [b[1]];
      AccumulatedOne(Announced(b[0]).value.1, b[1..]);
    } else if |b| == 3 {
      EncodedHoldsThree(c);
    } else {
      EncodedHoldsFour(c);
    }
  }

  lemma NothingAccumulated(bits: nat)
    ensures Accumulated(bits, []) == bits
  {
  }

  lemma EncodedHoldsThree(c: nat)
    requires IsScalar(c) && 0x7FF < c <= 0xFFFF
    ensures var b := EncodeScalar(c);
      && Announced(b[0]) == Some((2, c / 0x1000)) && AllTails(b[1..])
      && Accumulated(c / 0x1000, b[1..]) == c
  {
    hide Accumulated;
    var b := EncodeScalar(c);
    assert b[1..] == [b[1], b[2]];
    AccumulatedTwo(c / 0x1000, b[1..]);
    SixBitDigits(c);
  }

  lemma EncodedHoldsFour(c: nat)
    requires IsScalar(c) && 0xFFFF < c
    ensures var b := EncodeScalar(c);
      && Announced(b[0]) == Some((3, c / 0x4_0000)) && AllTails(b[1..])
      && Accumulated(c / 0x4_0000, b[1..]) == c
  {
    hide Accumulated;
    var b := EncodeScalar(c);
    assert b[1..] == [b[1], b[2], b[3]];
    AccumulatedThree(c / 0x4_0000, b[1..]);
    SixBitDigits(c);
  }

  lemma SixBitDigits(c: nat)
    ensures c == ((c / 0x4_0000 * 0x40 + c / 0x1000 % 0x40) * 0x40 + c / 0x40 % 0x40) * 0x40 + c % 0x40
    ensures c == (c / 0x1000 * 0x40 + c / 0x40 % 0x40) * 0x40 + c % 0x40
  {
    assert c / 0x1000 == c / 0x4_0000 * 0x40 + c / 0x1000 % 0x40;
    assert c / 0x40 == c / 0x1000 * 0x40 + c / 0x40 % 0x40;
  }

  /** One encoded character is decoded in one turn. */
  lemma TurnOfEncoded(c: nat, t: Bytes)
    requires IsScalar(c)
    ensures Turn(EncodeScalar(c) + t) == (FromCodePoint(c), |EncodeScalar(c)|)
  {
    hide Announced, EncodeScalar, Accumulated, AllTails, Acceptable, FromCodePoint;
    EncodedHolds(c);
    var b := EncodeScalar(c);
    assert b != [] by { EncodedNotEmpty(c); }
    assert (b + t)[0] == b[0];
    assert (b + t)[1..|b|] == b[1..];
  }

  lemma EncodedNotEmpty(c: nat)
    requires IsScalar(c)
    ensures EncodeScalar(c) != []
  {
  }

  // ----- from text to bytes and back -----

  predicate LoneAt(s: Units, i: nat)
    requires i < |s|
  {
    (IsHigh(s[i]) && !(i + 1 < |s| && IsLow(s[i + 1]))) || (IsLow(s[i]) && !(i > 0 && IsHigh(s[i - 1])))
  }

  predicate WellFormed(s: Units) {
    forall i :: 0 <= i < |s| ==> !LoneAt(s, i)
  }

  /** The text with each lone surrogate replaced, unit by unit. */
  function Repaired(s: Units): (r: Units)
    ensures |r| == |s|
  {
    seq(|s|, i requires 0 <= i < |s| => if LoneAt(s, i) then REPLACEMENT else s[i])
  }

  /** The first character repaired, and the rest repaired on its own. */
  lemma RepairedFirst(s: Units)
    requires s != []
    ensures Repaired(s) == FromCodePoint(FirstScalar(s)) + Repaired(s[FirstLength(s)..])
  {
    var n := FirstLength(s);
    var c := FirstScalar(s);
    FirstUnits(s);
    forall i | n <= i < |s| ensures LoneAt(s, i) == LoneAt(s[n..], i - n) {
    }
  }

  lemma FirstUnits(s: Units)
    requires s != []
    ensures |FromCodePoint(FirstScalar(s))| == FirstLength(s)
    ensures forall i :: 0 <= i < FirstLength(s) ==>
              FromCodePoint(FirstScalar(s))[i] == if LoneAt(s, i) then REPLACEMENT else s[i]
  {
    if StartsWithPair(s) {
      var h, l := s[0] as nat - 0xD800, s[1] as nat - 0xDC00;
      assert (h * 0x400 + l) / 0x400 == h && (h * 0x400 + l) % 0x400 == l;
    }
  }

  /** Every text comes back with its lone surrogates replaced, and nothing else changed. */
  lemma {:induction false} DecodeOfEncode(s: Units)
    ensures Decode(Encode(s)) == Repaired(s)
    decreases |s|
  {
    hide EncodeScalar, FromCodePoint, Turn, LoneAt, Repaired;
    if s == [] {
      assert Repaired(s) == [];
    } else {
      var c, rest := FirstScalar(s), s[FirstLength(s)..];
      var b, t := EncodeScalar(c), Encode(rest);
      EncodedNotEmpty(c);
      TurnOfEncoded(c, t);
      assert (b + t)[|b|..] == t;
      DecodeOfEncode(rest);
      RepairedFirst(s);
    }
  }

  /** Text survives exactly when it has no lone surrogate. */
  lemma TextSurvivesIff(s: Units)
    ensures Decode(Encode(s)) == s <==> WellFormed(s)
  {
    DecodeOfEncode(s);
    if Repaired(s) == s {
      forall i | 0 <= i < |s| ensures !LoneAt(s, i) { assert Repaired(s)[i] == s[i]; }
    }
    hide Decode, Encode;
  }

  // ----- from bytes to text and back -----

  /** A well-formed character holds a scalar value whose bytes it is. */
  lemma CharacterHolds(b: Bytes)
    requires CharLen(b) > 0
    ensures var n := CharLen(b); var c := ScalarOf(b[..n]);
      Announced(b[0]).Some? && IsScalar(c) && EncodeScalar(c) == b[..n]
  {
    hide Accumulated;
    var n := CharLen(b);
    var f := b[..n];
    if n == 1 {
      assert f[1..] == [];
      NothingAccumulated(f[0] as nat);
    } else if n == 2 {
      assert f[1..] == [b[1]];
      AccumulatedOne(Announced(b[0]).value.1, f[1..]);
    } else if n == 3 {
      CharacterHoldsThree(b);
    } else {
      CharacterHoldsFour(b);
    }
  }

  /** The bytes of the scalar value that these bits make up. */
  lemma EncodedThree(x: nat, y: nat, z: nat)
    requires x < 0x10 && y < 0x40 && z < 0x40
    requires x == 0 ==> y >= 0x20
    ensures var c := (x * 0x40 + y) * 0x40 + z;
      0x7FF < c <= 0xFFFF && EncodeScalar(c) == [(0xE0 + x) as Byte, (0x80 + y) as Byte, (0x80 + z) as Byte]
  {
    var c := (x * 0x40 + y) * 0x40 + z;
    SixBits(x, y);
    SixBits(x * 0x40 + y, z);
    Quotients(c);
  }

  lemma EncodedFour(w: nat, x: nat, y: nat, z: nat)
    requires w <= 4 && x < 0x40 && y < 0x40 && z < 0x40
    requires (w == 0 ==> x >= 0x10) && (w == 4 ==> x < 0x10)
    ensures var c := ((w * 0x40 + x) * 0x40 + y) * 0x40 + z;
      && 0xFFFF < c <= 0x10FFFF
      && EncodeScalar(c) == [(0xF0 + w) as Byte, (0x80 + x) as Byte, (0x80 + y) as Byte, (0x80 + z) as Byte]
  {
    var c := ((w * 0x40 + x) * 0x40 + y) * 0x40 + z;
    SixBits(w, x);
    SixBits(w * 0x40 + x, y);
    SixBits((w * 0x40 + x) * 0x40 + y, z);
    Quotients(c);
  }

  lemma CharacterHoldsThree(b: Bytes)
    requires CharLen(b) == 3
    ensures var c := ScalarOf(b[..3]);
      Announced(b[0]).Some? && IsScalar(c) && EncodeScalar(c) == b[..3]
  {
    hide Accumulated, EncodeScalar;
    var f := b[..3];
    assert f[1..] == [b[1], b[2]];
    var x, y, z := b[0] as nat - 0xE0, b[1] as nat - 0x80, b[2] as nat - 0x80;
    AccumulatedTwo(x, f[1..]);
    EncodedThree(x, y, z);
  }

  lemma CharacterHoldsFour(b: Bytes)
    requires CharLen(b) == 4
    ensures var c := ScalarOf(b[..4]);
      Announced(b[0]).Some? && IsScalar(c) && EncodeScalar(c) == b[..4]
  {
    hide Accumulated, EncodeScalar;
    var f := b[..4];
    assert f[1..] == [b[1], b[2], b[3]];
    var w, x, y, z := b[0] as nat - 0xF0, b[1] as nat - 0x80, b[2] as nat - 0x80, b[3] as nat - 0x80;
    AccumulatedThree(w, f[1..]);
    EncodedFour(w, x, y, z);
  }

  lemma FirstOfCodePoint(c: nat, t: Units)
    requires IsScalar(c)
    ensures var u := FromCodePoint(c);
      u != [] && FirstScalar(u + t) == c && FirstLength(u + t) == |u|
  {
    var u := FromCodePoint(c);
    assert (u + t)[0] == u[0] && (|u| == 2 ==> (u + t)[1] == u[1]);
  }

  /** Every well-formed byte string comes back as it was. */
  lemma {:induction false} EncodeOfDecode(b: Bytes)
    requires Valid(b)
    ensures Encode(Decode(b)) == b
    decreases |b|
  {
    hide CharLen, EncodeScalar, FromCodePoint, Turn, FirstScalar, FirstLength, Announced, ScalarOf;
    if b != [] {
      var n := CharLen(b);
      CharacterHolds(b);
      var c := ScalarOf(b[..n]);
      assert b == EncodeScalar(c) + b[n..];
      TurnOfEncoded(c, b[n..]);
      var rest := Decode(b[n..]);
      EncodeOfDecode(b[n..]);
      FirstOfCodePoint(c, rest);
      assert (FromCodePoint(c) + rest)[|FromCodePoint(c)|..] == rest;
    }
  }

  /** What the encoder writes is well-formed UTF-8, whatever the text. */
  lemma {:induction false} EncodedIsValid(s: Units)
    ensures Valid(Encode(s))
    decreases |s|
  {
    hide CharLen, EncodeScalar, FirstScalar, FirstLength;
    if s != [] {
      var c, t := FirstScalar(s), Encode(s[FirstLength(s)..]);
      EncodedIsValid(s[FirstLength(s)..]);
      EncodedIsCharacter(c, t);
      EncodedNotEmpty(c);
      assert (EncodeScalar(c) + t)[|EncodeScalar(c)|..] == t;
    }
  }

  /** Bytes survive exactly when they are well-formed UTF-8. */
  lemma BytesSurviveIff(b: Bytes)
    ensures Encode(Decode(b)) == b <==> Valid(b)
  {
    hide Encode, Decode, Valid;
    EncodedIsValid(Decode(b));
    if Valid(b) { EncodeOfDecode(b); }
  }

  lemma WellFormedConcat(a: Units, b: Units)
    requires WellFormed(a) && WellFormed(b)
    ensures WellFormed(a + b)
  {
    forall i | 0 <= i < |a + b| ensures !LoneAt(a + b, i) {
      if i < |a| { assert !LoneAt(a, i); } else { assert !LoneAt(b, i - |a|); }
    }
  }

  lemma TurnWellFormed(b: Bytes)
    requires b != []
    ensures WellFormed(Turn(b).0)
  {
    hide Accumulated;
    forall c: nat | IsScalar(c) ensures WellFormed(FromCodePoint(c)) { CodePointWellFormed(c); }
  }

  lemma CodePointWellFormed(c: nat)
    requires IsScalar(c)
    ensures WellFormed(FromCodePoint(c))
  {
  }

  /** Whatever the bytes, the decoded text has no lone surrogate. */
  lemma {:induction false} DecodedIsWellFormed(b: Bytes)
    ensures WellFormed(Decode(b))
    decreases |b|
  {
    hide Turn, WellFormed;
    if b == [] {
      NothingIsWellFormed();
    } else {
      TurnWellFormed(b);
      DecodedIsWellFormed(b[Turn(b).1..]);
      WellFormedConcat(Turn(b).0, Decode(b[Turn(b).1..]));
    }
  }

  lemma NothingIsWellFormed()
    ensures WellFormed([])
  {
  }
}
