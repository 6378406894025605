/** base64 and base64url (RFC 4648, sections 4 and 5) as the bootstrap script writes and
    reads them (`src/js_repl_bootstrap.js`). Its shifts work on 32-bit signed integers. */
module Base64 {
  import opened Basics
  import opened Options
  import opened Utf8

  /** The alphabet of section 4. */
  function Letter(d: nat): char
    requires d < 64
  {
    if d < 26 then 'A' + d as char
    else if d < 52 then 'a' + (d - 26) as char
    else if d < 62 then '0' + (d - 52) as char
    else if d == 62 then '+'
    else '/'
  }

  function DigitOf(c: char): (r: Option<nat>)
    ensures r.Some? ==> r.value < 64
  {
    if 'A' <= c <= 'Z' then Some((c - 'A') as nat)
    else if 'a' <= c <= 'z' then Some(26 + (c - 'a') as nat)
    else if '0' <= c <= '9' then Some(52 + (c - '0') as nat)
    else if c == '+' then Some(62)
    else if c == '/' then Some(63)
    else None
  }

  lemma LetterIsRead(d: nat)
    requires d < 64
    ensures DigitOf(Letter(d)) == Some(d)
    ensures Letter(d) != '=' && Letter(d) !in "-_ \t\n\r\U{0C}"
  {
  }

  // ----- encoding -----

  function ByteAt(b: Bytes, i: nat): nat {
    if i < |b| then b[i] as nat else 0
  }

  /** Three bytes as four letters; missing bytes count as zero and their letters as padding. */
  function Quad(b: Bytes): string
    requires b != []
  {
    var value := ByteAt(b, 0) * 0x1_0000 + ByteAt(b, 1) * 0x100 + ByteAt(b, 2);
    [Letter(value / 0x4_0000 % 64), Letter(value / 0x1000 % 64),
     if |b| > 1 then Letter(value / 0x40 % 64) else '=', if |b| > 2 then Letter(value % 64) else '=']
  }

  function Group(b: Bytes): nat {
    if |b| < 3 then |b| else 3
  }

  function Encoded(b: Bytes): string {
    if b == [] then "" else Quad(b) + Encoded(b[Group(b)..])
  }

  function UrlLetter(c: char): char {
    if c == '+' then '-' else if c == '/' then '_' else c
  }

  function Mapped(s: string, f: char -> char): (r: string)
    ensures |r| == |s|
  {
    seq(|s|, i requires 0 <= i < |s| => f(s[i]))
  }

  function Unpadded(s: string): string {
    if s != [] && s[|s| - 1] == '=' then Unpadded(s[..|s| - 1]) else s
  }

  function Encode(b: Bytes, urlSafe: bool): string {
    if urlSafe then Unpadded(Mapped(Encoded(b), UrlLetter)) else Encoded(b)
  }

  method Base64Encode(bytes: Bytes, urlSafe: bool) returns (output: string)
    ensures output == Encode(bytes, urlSafe)
  {
    hide Letter;
    output := "";
    var index := 0;
    while index < |bytes|
      invariant index <= |bytes| && Encoded(bytes) == output + Encoded(bytes[index..])
    {
      ghost var before, rest := output, bytes[index..];
      var remaining := |bytes| - index;
      var second := if index + 1 < |bytes| then bytes[index + 1] as nat else 0;
      var third := if index + 2 < |bytes| then bytes[index + 2] as nat else 0;
      var value := bytes[index] as nat * 0x1_0000 + second * 0x100 + third;
      output := output + [Letter(value / 0x4_0000 % 64)];
      output := output + [Letter(value / 0x1000 % 64)];
      output := output + [if remaining > 1 then Letter(value / 0x40 % 64) else '='];
      output := output + [if remaining > 2 then Letter(value % 64) else '='];
      assert output == before + Quad(rest);
      assert rest[Group(rest)..] == bytes[index + Group(rest)..];
      Regrouped(before, Quad(rest), Encoded(bytes[index + Group(rest)..]));
      index := if remaining < 3 then |bytes| else index + 3;
    }
    assert bytes[index..] == [] && output + "" == output;
    if urlSafe {
      output := Unpadded(Mapped(output, UrlLetter));
    }
  }

  // ----- decoding -----

  /** The 32-bit signed integer with the same low bits. */
  function Int32(x: int): (r: int)
    ensures -0x8000_0000 <= r < 0x8000_0000
  {
    (x + 0x8000_0000) % 0x1_0000_0000 - 0x8000_0000
  }

  predicate Blank(c: char) {
    c in "\t\n\U{0C}\r "
  }

  function PlainLetter(c: char): char {
    if c == '-' then '+' else if c == '_' then '/' else c
  }

  function Cleaned(s: string): string {
    if s == [] then [] else (if Blank(s[0]) then [] else [PlainLetter(s[0])]) + Cleaned(s[1..])
  }

  function Power(bits: nat): (p: nat)
    ensures p > 0
  {
    if bits == 0 then 1 else 2 * Power(bits - 1)
  }

  /** The loop from one character on: the accumulator, and how many of its bits are pending. */
  function Read(value: int, bits: nat, s: string): Bytes
    requires bits < 8 && bits % 2 == 0
    decreases |s|
  {
    if s == [] || s[0] == '=' then []
    else match DigitOf(s[0])
         case None => Read(value, bits, s[1..])
         case Some(d) =>
           var v := Int32(value * 64 + d);
           if bits < 2 then Read(v, bits + 6, s[1..])
           else [(v / Power(bits - 2) % 256) as Byte] + Read(v, bits - 2, s[1..])
  }

  function Decode(s: string): Bytes {
    Read(0, 0, Cleaned(s))
  }

  method Base64Decode(input: string) returns (output: Bytes)
    ensures output == Decode(input)
  {
    hide Power, DigitOf, Int32;
    var s := Cleaned(input);
    output := [];
    var value, bits := 0, 0;
    for i := 0 to |s|
      invariant 0 <= bits < 8 && bits % 2 == 0 && Decode(input) == output + Read(value, bits, s[i..])
    {
      assert s[i..][1..] == s[i + 1..];
      ghost var before := output;
      if s[i] == '=' {
        assert output + [] == output;
        return;
      }
      var digit := DigitOf(s[i]);
      if digit.Some? {
        value := Int32(value * 64 + digit.value);
        bits := bits + 6;
        if bits >= 8 {
          bits := bits - 8;
          output := output + [(value / Power(bits) % 256) as Byte];
          Regrouped(before, [(value / Power(bits) % 256) as Byte], Read(value, bits, s[i + 1..]));
        }
      }
    }
    assert s[|s|..] == [];
  }

  // ----- only the pending bits matter -----

  /** The low `bits` bits agree, as far as a character can leave bits pending. */
  predicate SamePending(v: int, w: int, bits: nat)
  {
    (bits == 2 ==> (v - w) % 4 == 0) && (bits == 4 ==> (v - w) % 16 == 0) && (bits == 6 ==> (v - w) % 64 == 0)
  }

  /** Shifting in six bits drops high bits on either side, but the low ones still agree. */
  lemma Shifted(v: int, w: int, d: nat) returns (j: int)
    ensures Int32(v * 64 + d) - Int32(w * 64 + d) == 64 * (v - w) + 0x1_0000_0000 * j
  {
    var a, b := v * 64 + d, w * 64 + d;
    var p, q := (a + 0x8000_0000) / 0x1_0000_0000, (b + 0x8000_0000) / 0x1_0000_0000;
    assert Int32(a) == a - 0x1_0000_0000 * p;
    assert Int32(b) == b - 0x1_0000_0000 * q;
    j := q - p;
  }

  lemma ModAdd(w: int, m: int)
    ensures (w + 256 * m) % 256 == w % 256
  {
  }

  lemma ByteAbove2(v: int, w: int, j: int, k: int)
    requires v - w == 256 * k + 0x1_0000_0000 * j
    ensures v % 256 == w % 256
  {
    assert v == w + 256 * (k + 0x100_0000 * j);
    ModAdd(w, k + 0x100_0000 * j);
  }

  lemma QuotientAdd4(w: int, n: int)
    ensures (w + 4 * n) / 4 == w / 4 + n && 4 * n % 4 == 0
  {
  }

  lemma ByteAbove4(v: int, w: int, j: int, k: int)
    requires v - w == 1024 * k + 0x1_0000_0000 * j
    ensures v / 4 % 256 == w / 4 % 256 && (v - w) % 4 == 0
  {
    var m := k + 0x40_0000 * j;
    QuotientAdd4(w, 256 * m);
    ModAdd(w / 4, m);
  }

  lemma QuotientAdd16(w: int, n: int)
    ensures (w + 16 * n) / 16 == w / 16 + n && 16 * n % 16 == 0
  {
  }

  lemma ByteAbove6(v: int, w: int, j: int, k: int)
    requires v - w == 4096 * k + 0x1_0000_0000 * j
    ensures v / 16 % 256 == w / 16 % 256 && (v - w) % 16 == 0
  {
    var m := k + 0x10_0000 * j;
    QuotientAdd16(w, 256 * m);
    ModAdd(w / 16, m);
  }

  lemma Powers()
    ensures Power(0) == 1 && Power(2) == 4 && Power(4) == 16
  {
    assert Power(1) == 2;
    assert Power(3) == 8;
  }

  /** The byte written and the bits left pending depend on the pending bits alone. */
  lemma StepSees(v: int, w: int, bits: nat, d: nat)
    requires bits in {0, 2, 4, 6} && SamePending(v, w, bits)
    ensures var v', w' := Int32(v * 64 + d), Int32(w * 64 + d);
      && (bits == 0 ==> SamePending(v', w', 6))
      && (bits >= 2 ==> SamePending(v', w', bits - 2) && v' / Power(bits - 2) % 256 == w' / Power(bits - 2) % 256)
  {
    hide Int32, Power;
    Powers();
    var v', w' := Int32(v * 64 + d), Int32(w * 64 + d);
    var j := Shifted(v, w, d);
    if bits == 2 {
      ByteAbove2(v', w', j, (v - w) / 4);
    } else if bits == 4 {
      ByteAbove4(v', w', j, (v - w) / 16);
    } else if bits == 6 {
      ByteAbove6(v', w', j, (v - w) / 64);
    }
  }

  /** However far the accumulator has wrapped, reading on depends on its pending bits alone. */
  lemma {:induction false} ReadSees(v: int, w: int, bits: nat, s: string)
    requires bits < 8 && bits % 2 == 0 && SamePending(v, w, bits)
    ensures Read(v, bits, s) == Read(w, bits, s)
    decreases |s|
  {
    hide Int32, Power, SamePending, DigitOf;
    if s != [] && s[0] != '=' {
      match DigitOf(s[0])
      case None => ReadSees(v, w, bits, s[1..]);
      case Some(d) =>
        StepSees(v, w, bits, d);
        var v', w' := Int32(v * 64 + d), Int32(w * 64 + d);
        ReadSees(v', w', if bits < 2 then bits + 6 else bits - 2, s[1..]);
    }
  }

  // ----- round trip -----

  /** Reading one letter. */
  lemma ReadLetter(value: int, bits: nat, d: nat, s: string)
    requires bits < 8 && bits % 2 == 0 && d < 64
    ensures var v := Int32(value * 64 + d);
      Read(value, bits, [Letter(d)] + s) ==
        if bits < 2 then Read(v, bits + 6, s) else [(v / Power(bits - 2) % 256) as Byte] + Read(v, bits - 2, s)
  {
    hide Letter, Int32, Power, DigitOf;
    LetterIsRead(d);
    assert ([Letter(d)] + s)[1..] == s;
  }

  lemma ReadPadding(value: int, bits: nat, s: string)
    requires bits < 8 && bits % 2 == 0 && (s == [] || s[0] == '=')
    ensures Read(value, bits, s) == []
  {
  }

  lemma Small(x: nat)
    requires x < 0x8000_0000
    ensures Int32(x) == x
  {
  }

  /** The digits of three bytes. */
  lemma Digits(a: nat, b: nat, c: nat) returns (d0: nat, d1: nat, d2: nat, d3: nat)
    requires a < 256 && b < 256 && c < 256
    ensures var value := a * 0x1_0000 + b * 0x100 + c;
      && d0 == value / 0x4_0000 % 64 && d1 == value / 0x1000 % 64 && d2 == value / 0x40 % 64 && d3 == value % 64
    ensures d0 < 64 && d1 < 64 && d2 < 64 && d3 < 64
    ensures (d0 * 64 + d1) / 16 % 256 == a && (d0 * 64 + d1) * 64 + d2 < 0x4_0000
    ensures ((d0 * 64 + d1) * 64 + d2) / 4 % 256 == b
    ensures (((d0 * 64 + d1) * 64 + d2) * 64 + d3) % 256 == c
  {
    d0, d1, d2, d3 := a / 4, a % 4 * 16 + b / 16, b % 16 * 4 + c / 64, c % 64;
    DigitsMakeUp(a, b, c);
    DigitsAgree(a, b, c);
    BytesOfDigits(a, b, c);
  }

  lemma BytesOfDigits(a: nat, b: nat, c: nat)
    requires a < 256 && b < 256 && c < 256
    ensures (a * 16 + b / 16) / 16 % 256 == a
    ensures ((a * 256 + b) * 4 + c / 64) / 4 % 256 == b
    ensures (a * 0x1_0000 + b * 0x100 + c) % 256 == c
  {
    assert (a * 16 + b / 16) / 16 == a;
    assert ((a * 256 + b) * 4 + c / 64) / 4 == a * 256 + b;
    ModAdd(b, a);
    ModAdd(c, a * 0x100 + b);
  }

  lemma DigitsMakeUp(a: nat, b: nat, c: nat)
    requires a < 256 && b < 256 && c < 256
    ensures var d0, d1, d2, d3 := a / 4, a % 4 * 16 + b / 16, b % 16 * 4 + c / 64, c % 64;
      && d0 * 64 + d1 == a * 16 + b / 16
      && (d0 * 64 + d1) * 64 + d2 == (a * 256 + b) * 4 + c / 64
      && ((d0 * 64 + d1) * 64 + d2) * 64 + d3 == a * 0x1_0000 + b * 0x100 + c
  {
  }

  lemma DigitsAgree(a: nat, b: nat, c: nat)
    requires a < 256 && b < 256 && c < 256
    ensures var value := a * 0x1_0000 + b * 0x100 + c;
      && value / 0x4_0000 % 64 == a / 4 && value / 0x1000 % 64 == a % 4 * 16 + b / 16
      && value / 0x40 % 64 == b % 16 * 4 + c / 64 && value % 64 == c % 64
  {
    var value := a * 0x1_0000 + b * 0x100 + c;
    var d0, d1, d2, d3 := a / 4, a % 4 * 16 + b / 16, b % 16 * 4 + c / 64, c % 64;
    DigitsMakeUp(a, b, c);
    SixBits((d0 * 64 + d1) * 64 + d2, d3);
    SixBits(d0 * 64 + d1, d2);
    SixBits(d0, d1);
    Quotients(value);
  }

  lemma NonePending(v: int, w: int)
    ensures SamePending(v, w, 0)
  {
  }

  /** Two letters give a byte and leave four bits, a third another byte and leaves two, a
      fourth the last byte. */
  lemma ReadTwo(d0: nat, d1: nat, s: string)
    requires d0 < 64 && d1 < 64
    ensures var v := d0 * 64 + d1;
      Read(0, 0, [Letter(d0)] + ([Letter(d1)] + s)) == [(v / 16 % 256) as Byte] + Read(v, 4, s)
  {
    hide Letter, Read, Int32, Power;
    Powers();
    Small(d0);
    Small(d0 * 64 + d1);
    ReadLetter(0, 0, d0, [Letter(d1)] + s);
    ReadLetter(d0, 6, d1, s);
  }

  lemma ReadThird(v: nat, d: nat, s: string)
    requires v < 0x1_0000 && d < 64
    ensures Read(v, 4, [Letter(d)] + s) == [((v * 64 + d) / 4 % 256) as Byte] + Read(v * 64 + d, 2, s)
  {
    hide Letter, Read, Int32, Power;
    Powers();
    Small(v * 64 + d);
    ReadLetter(v, 4, d, s);
  }

  lemma ReadFourth(v: nat, d: nat, s: string)
    requires v < 0x40_0000 && d < 64
    ensures Read(v, 2, [Letter(d)] + s) == [((v * 64 + d) % 256) as Byte] + Read(0, 0, s)
  {
    hide Letter, Read, Int32, Power;
    Powers();
    Small(v * 64 + d);
    ReadLetter(v, 2, d, s);
    NonePending(v * 64 + d, 0);
    ReadSees(v * 64 + d, 0, 0, s);
  }

  lemma QuadLetters(b: Bytes, s: string)
    requires b != []
    ensures var q := Quad(b);
      |q| == 4 && q + s == [q[0]] + ([q[1]] + ([q[2]] + ([q[3]] + s)))
  {
  }

  /** Reading one group gives its bytes back; after a whole group no bits are pending. */
  lemma ReadQuad(b: Bytes, s: string)
    requires b != [] && (|b| < 3 ==> s == [])
    ensures Read(0, 0, Quad(b) + s) == b[..Group(b)] + Read(0, 0, s)
  {
    hide Letter, Read;
    var d0, d1, d2, d3 := Digits(ByteAt(b, 0), ByteAt(b, 1), ByteAt(b, 2));
    var v := d0 * 64 + d1;
    var q := Quad(b);
    QuadLetters(b, s);
    ReadTwo(d0, d1, [q[2]] + ([q[3]] + s));
    ReadPadding(0, 0, "");
    if |b| == 1 {
      ReadPadding(v, 4, [q[2]] + ([q[3]] + s));
      assert b[..1] == [b[0]];
    } else if |b| == 2 {
      ReadThird(v, d2, [q[3]] + s);
      ReadPadding(v * 64 + d2, 2, [q[3]] + s);
      assert b[..2] == [b[0]] + [b[1]];
    } else {
      ReadThird(v, d2, [q[3]] + s);
      ReadFourth(v * 64 + d2, d3, s);
      assert b[..3] == [b[0]] + [b[1]] + [b[2]];
    }
  }

  /** Whole texts: reading undoes writing. */
  lemma {:induction false} ReadOfEncoded(b: Bytes)
    ensures Read(0, 0, Encoded(b)) == b
  {
    hide Quad, Read;
    if b == [] {
      ReadPadding(0, 0, "");
    } else {
      var rest := b[Group(b)..];
      ReadOfEncoded(rest);
      ReadQuad(b, Encoded(rest));
      assert b == b[..Group(b)] + rest;
    }
  }

  // ----- the other alphabet, padding and blanks -----

  predicate PlainText(s: string) {
    forall i :: 0 <= i < |s| ==> !Blank(s[i]) && PlainLetter(s[i]) == s[i]
  }

  lemma QuadIsPlain(b: Bytes)
    requires b != []
    ensures PlainText(Quad(b))
  {
    hide Letter;
    forall d | 0 <= d < 64 ensures !Blank(Letter(d)) && PlainLetter(Letter(d)) == Letter(d) { LetterIsRead(d); }
  }

  lemma {:induction false} EncodedIsPlain(b: Bytes)
    ensures PlainText(Encoded(b))
  {
    hide Quad, Blank, PlainLetter;
    if b != [] {
      QuadIsPlain(b);
      EncodedIsPlain(b[Group(b)..]);
    }
  }

  lemma {:induction false} PlainStays(s: string)
    requires PlainText(s)
    ensures Cleaned(s) == s && Cleaned(Mapped(s, UrlLetter)) == s
  {
    if s != [] {
      PlainStays(s[1..]);
      var m := Mapped(s, UrlLetter);
      assert m[1..] == Mapped(s[1..], UrlLetter);
      assert [s[0]] + s[1..] == s;
    }
  }

  lemma {:induction false} MappedPadding(s: string)
    ensures Unpadded(Mapped(s, UrlLetter)) == Mapped(Unpadded(s), UrlLetter)
  {
    if s != [] {
      var n := |s| - 1;
      assert Mapped(s, UrlLetter)[..n] == Mapped(s[..n], UrlLetter);
      MappedPadding(s[..n]);
    }
  }

  /** Padding at the end makes no difference. */
  lemma {:induction false} ReadEnd(value: int, bits: nat, s: string)
    requires bits < 8 && bits % 2 == 0
    ensures Read(value, bits, s + "=") == Read(value, bits, s)
    decreases |s|
  {
    hide Int32, Power, DigitOf;
    if s == [] {
      assert s + "=" == "=";
    } else if s[0] != '=' {
      assert (s + "=")[1..] == s[1..] + "=";
      match DigitOf(s[0])
      case None => ReadEnd(value, bits, s[1..]);
      case Some(d) => ReadEnd(Int32(value * 64 + d), if bits < 2 then bits + 6 else bits - 2, s[1..]);
    }
  }

  lemma {:induction false} ReadUnpadded(s: string)
    ensures Read(0, 0, Unpadded(s)) == Read(0, 0, s)
  {
    hide Read;
    if s != [] && s[|s| - 1] == '=' {
      var t := s[..|s| - 1];
      ReadUnpadded(t);
      ReadEnd(0, 0, t);
      assert t + "=" == s;
    }
  }

  lemma {:induction false} UnpaddedIsPlain(s: string)
    requires PlainText(s)
    ensures PlainText(Unpadded(s))
  {
    if s != [] { UnpaddedIsPlain(s[..|s| - 1]); }
  }

  /** All byte strings come back, from either alphabet. */
  lemma DecodeOfEncode(b: Bytes, urlSafe: bool)
    ensures Decode(Encode(b, urlSafe)) == b
  {
    hide Read, Encoded, Unpadded, PlainText;
    var e := Encoded(b);
    EncodedIsPlain(b);
    ReadOfEncoded(b);
    if urlSafe {
      MappedPadding(e);
      UnpaddedIsPlain(e);
      PlainStays(Unpadded(e));
      ReadUnpadded(e);
    } else {
      PlainStays(e);
    }
  }

  /** Only letters: what is left without the padding at the end has none inside. */
  lemma {:induction false} UnpaddedHasNoPadding(b: Bytes)
    ensures '=' !in Unpadded(Encoded(b))
  {
    hide Quad;
    if b != [] {
      var t := Encoded(b[Group(b)..]);
      UnpaddedHasNoPadding(b[Group(b)..]);
      if |b| > 3 {
        QuadHasNoPadding(b);
        UnpaddedAfter(Quad(b), t);
      } else {
        assert t == "" && Quad(b) + t == Quad(b);
        UnpaddedLastQuad(b);
      }
    }
  }

  lemma QuadHasNoPadding(b: Bytes)
    requires |b| >= 3
    ensures |Quad(b)| == 4 && '=' !in Quad(b)
  {
    hide Letter;
    forall d | 0 <= d < 64 ensures Letter(d) != '=' { LetterIsRead(d); }
  }

  lemma UnpaddedLastQuad(b: Bytes)
    requires 0 < |b| <= 3
    ensures '=' !in Unpadded(Quad(b))
  {
    hide Letter;
    forall d | 0 <= d < 64 ensures Letter(d) != '=' { LetterIsRead(d); }
    var q := Quad(b);
    if |b| == 3 {
      assert q[3] != '=';
    } else if |b| == 2 {
      assert q[3] == '=' && q[..3][2] != '=';
      assert Unpadded(q) == Unpadded(q[..3]) == q[..3];
    } else {
      assert q[3] == '=' && q[..3][2] == '=' && q[..3][..2] == q[..2] && q[..2][1] != '=';
      assert Unpadded(q) == Unpadded(q[..3]);
      assert Unpadded(q[..3]) == Unpadded(q[..2]);
      assert Unpadded(q[..2]) == q[..2];
    }
  }

  lemma {:induction false} UnpaddedAfter(a: string, t: string)
    requires a != [] && '=' !in a
    ensures Unpadded(a + t) == a + Unpadded(t)
    decreases |t|
  {
    if t == [] {
      assert a + t == a;
    } else {
      assert (a + t)[..|a + t| - 1] == a + t[..|t| - 1];
      UnpaddedAfter(a, t[..|t| - 1]);
    }
  }

  /** The URL form uses neither of the letters section 5 replaces, and no padding. */
  lemma UrlFormIsSafe(b: Bytes)
    ensures forall c :: c in Encode(b, true) ==> c !in "+/="
  {
    hide Encoded, Unpadded;
    UnpaddedHasNoPadding(b);
    MappedPadding(Encoded(b));
    var u := Unpadded(Encoded(b));
    forall i | 0 <= i < |u| ensures UrlLetter(u[i]) !in "+/=" { assert u[i] in u; }
  }

  /** The characters that decoding looks at: those of either alphabet, up to the first padding. */
  function LettersOf(s: string): string {
    if s == [] || s[0] == '=' then []
    else (if DigitOf(PlainLetter(s[0])).Some? then [s[0]] else []) + LettersOf(s[1..])
  }

  /** Anything else in the text is passed over, and so is all that follows a padding. */
  lemma {:induction false} OnlyLettersCount(s: string, value: int, bits: nat)
    requires bits < 8 && bits % 2 == 0
    ensures Read(value, bits, Cleaned(s)) == Read(value, bits, Cleaned(LettersOf(s)))
    decreases |s|
  {
    hide Int32, Power, DigitOf, Read, Blank;
    if s != [] {
      var c, rest := s[0], s[1..];
      FirstCleaned(s);
      if c == '=' {
        PaddingStays();
        PaddingEnds(value, bits, Cleaned(rest));
      } else if DigitOf(PlainLetter(c)).Some? {
        var letters := LettersOf(rest);
        LetterIsNotBlank(c);
        assert LettersOf(s) == [c] + letters && ([c] + letters)[1..] == letters;
        FirstCleaned([c] + letters);
        ReadOn(value, bits, PlainLetter(c), Cleaned(rest));
        ReadOn(value, bits, PlainLetter(c), Cleaned(letters));
        var v := Int32(value * 64 + DigitOf(PlainLetter(c)).value);
        OnlyLettersCount(rest, v, if bits < 2 then bits + 6 else bits - 2);
      } else {
        assert LettersOf(s) == LettersOf(rest);
        if Blank(c) {
          assert Cleaned(s) == Cleaned(rest);
        } else {
          PassedOver(value, bits, PlainLetter(c), Cleaned(rest));
        }
        OnlyLettersCount(rest, value, bits);
      }
    }
  }

  lemma FirstCleaned(s: string)
    requires s != []
    ensures Cleaned(s) == (if Blank(s[0]) then [] else [PlainLetter(s[0])]) + Cleaned(s[1..])
  {
  }

  lemma PaddingStays()
    ensures !Blank('=') && PlainLetter('=') == '=' && Cleaned([]) == []
  {
  }

  lemma LetterIsNotBlank(c: char)
    requires DigitOf(PlainLetter(c)).Some?
    ensures !Blank(c) && c != '='
  {
  }

  lemma PaddingEnds(value: int, bits: nat, s: string)
    requires bits < 8 && bits % 2 == 0
    ensures Read(value, bits, ['='] + s) == [] == Read(value, bits, [])
  {
  }

  lemma PassedOver(value: int, bits: nat, c: char, s: string)
    requires bits < 8 && bits % 2 == 0 && DigitOf(c).None? && c != '='
    ensures Read(value, bits, [c] + s) == Read(value, bits, s)
  {
    hide DigitOf;
    assert ([c] + s)[1..] == s;
  }

  lemma ReadOn(value: int, bits: nat, c: char, s: string)
    requires bits < 8 && bits % 2 == 0 && DigitOf(c).Some? && c != '='
    ensures var v := Int32(value * 64 + DigitOf(c).value);
      Read(value, bits, [c] + s) ==
        if bits < 2 then Read(v, bits + 6, s) else [(v / Power(bits - 2) % 256) as Byte] + Read(v, bits - 2, s)
  {
    hide DigitOf, Int32, Power;
    assert ([c] + s)[1..] == s;
  }

  /** So a text decodes as its letters do. */
  lemma DecodeOfLetters(s: string)
    ensures Decode(s) == Decode(LettersOf(s))
  {
    hide Read, Cleaned, LettersOf;
    OnlyLettersCount(s, 0, 0);
  }
}
