/** What the letters of base64 and base64url are, said with the table of RFC 4648 (section 4)
    and the numbers that bytes and letters write. */
module Base64Forms {
  import opened Basics
  import opened Utf8
  import opened Base64

  const UPPER := "ABCDEFGHIJKLMNOPQRSTUVWXYZ"
  const LOWER := "abcdefghijklmnopqrstuvwxyz"
  const ALPHABET := UPPER + (LOWER + "0123456789+/")
  const URL_ALPHABET := UPPER + (LOWER + "0123456789-_")

  lemma UpperAt(d: nat)
    requires d < 26
    ensures |UPPER| == 26 && UPPER[d] == 'A' + d as char && UPPER[d] !in "+/"
  {
  }

  lemma LowerAt(d: nat)
    requires d < 26
    ensures |LOWER| == 26 && LOWER[d] == 'a' + d as char && LOWER[d] !in "+/"
  {
  }

  lemma RestAt(d: nat)
    requires d < 12
    ensures |"0123456789+/"| == |"0123456789-_"| == 12
    ensures "0123456789+/"[d] == Letter(52 + d) && "0123456789-_"[d] == UrlLetter(Letter(52 + d))
  {
  }

  lemma LetterIsOfTable(d: nat)
    requires d < 64
    ensures |ALPHABET| == |URL_ALPHABET| == 64
    ensures Letter(d) == ALPHABET[d] && UrlLetter(Letter(d)) == URL_ALPHABET[d]
  {
    hide UPPER, LOWER;
    UpperAt(if d < 26 then d else 0);
    LowerAt(if 26 <= d < 52 then d - 26 else 0);
    RestAt(if d < 52 then 0 else d - 52);
  }

  /** Letters of the table for their values. */
  function InTable(table: string, ds: seq<nat>): (r: string)
    requires |table| == 64 && forall i :: 0 <= i < |ds| ==> ds[i] < 64
    ensures |r| == |ds|
  {
    seq(|ds|, i requires 0 <= i < |ds| => table[ds[i]])
  }

  /** The number that digits write in a base, the first the most. */
  function Written(base: nat, ds: seq<nat>): nat {
    if ds == [] then 0 else Written(base, ds[..|ds| - 1]) * base + ds[|ds| - 1]
  }

  function Values(b: Bytes): (r: seq<nat>)
    ensures |r| == |b|
  {
    seq(|b|, i requires 0 <= i < |b| => b[i] as nat)
  }

  lemma WrittenMore(base: nat, ds: seq<nat>, d: nat)
    ensures Written(base, ds + [d]) == Written(base, ds) * base + d
  {
    assert (ds + [d])[..|ds|] == ds;
  }

  lemma WrittenFirst(base: nat, d: nat)
    ensures Written(base, [d]) == d
  {
    assert [d][..0] == [];
  }

  lemma WrittenDigits(base: nat, d0: nat, d1: nat, d2: nat, d3: nat)
    ensures Written(base, [d0, d1]) == d0 * base + d1
    ensures Written(base, [d0, d1, d2]) == (d0 * base + d1) * base + d2
    ensures Written(base, [d0, d1, d2, d3]) == ((d0 * base + d1) * base + d2) * base + d3
  {
    hide Written;
    WrittenFirst(base, d0);
    WrittenMore(base, [d0], d1);
    WrittenMore(base, [d0, d1], d2);
    WrittenMore(base, [d0, d1, d2], d3);
    assert [d0] + [d1] == [d0, d1] && [d0, d1] + [d2] == [d0, d1, d2] && [d0, d1, d2] + [d3] == [d0, d1, d2, d3];
  }

  /** What a group of bytes has to be shifted by, and how it is filled up. */
  function Shift(n: nat): nat {
    if n == 1 then 16 else if n == 2 then 4 else 1
  }

  function Padding(n: nat): string {
    if n == 1 then "==" else if n == 2 then "=" else ""
  }

  /** The digits write the bytes' number, with zeros for the bits that are missing. */
  predicate Spells(ds: seq<nat>, b: Bytes) {
    && |ds| == |b| + 1 && (forall i :: 0 <= i < |ds| ==> ds[i] < 64)
    && Written(64, ds) == Written(256, Values(b)) * Shift(|b|)
  }

  /** The digits of up to three bytes, missing ones being zero. */
  lemma QuadOf(b: Bytes)
    requires b != []
    ensures var x, y, z := ByteAt(b, 0), ByteAt(b, 1), ByteAt(b, 2);
      && x / 4 < 64 && x % 4 * 16 + y / 16 < 64 && y % 16 * 4 + z / 64 < 64
      && Quad(b) == [Letter(x / 4), Letter(x % 4 * 16 + y / 16),
                     if |b| > 1 then Letter(y % 16 * 4 + z / 64) else '=', if |b| > 2 then Letter(z % 64) else '=']
  {
    hide Letter;
    DigitsAgree(ByteAt(b, 0), ByteAt(b, 1), ByteAt(b, 2));
  }

  lemma OneByte(x: nat) returns (ds: seq<nat>)
    requires x < 256
    ensures ds == [x / 4, x % 4 * 16] && x / 4 < 64 && x % 4 * 16 < 64
    ensures Written(64, ds) == Written(256, [x]) * 16
  {
    hide Written;
    ds := [x / 4, x % 4 * 16];
    DigitsMakeUp(x, 0, 0);
    WrittenDigits(64, x / 4, x % 4 * 16, 0, 0);
    WrittenFirst(256, x);
  }

  lemma TwoBytes(x: nat, y: nat) returns (ds: seq<nat>)
    requires x < 256 && y < 256
    ensures ds == [x / 4, x % 4 * 16 + y / 16, y % 16 * 4] && x / 4 < 64 && x % 4 * 16 + y / 16 < 64 && y % 16 * 4 < 64
    ensures Written(64, ds) == Written(256, [x, y]) * 4
  {
    hide Written;
    ds := [x / 4, x % 4 * 16 + y / 16, y % 16 * 4];
    DigitsMakeUp(x, y, 0);
    WrittenDigits(64, x / 4, x % 4 * 16 + y / 16, y % 16 * 4, 0);
    WrittenDigits(256, x, y, 0, 0);
  }

  lemma ThreeBytes(x: nat, y: nat, z: nat) returns (ds: seq<nat>)
    requires x < 256 && y < 256 && z < 256
    ensures ds == [x / 4, x % 4 * 16 + y / 16, y % 16 * 4 + z / 64, z % 64]
    ensures x / 4 < 64 && x % 4 * 16 + y / 16 < 64 && y % 16 * 4 + z / 64 < 64
    ensures Written(64, ds) == Written(256, [x, y, z])
  {
    hide Written;
    ds := [x / 4, x % 4 * 16 + y / 16, y % 16 * 4 + z / 64, z % 64];
    DigitsMakeUp(x, y, z);
    WrittenDigits(64, x / 4, x % 4 * 16 + y / 16, y % 16 * 4 + z / 64, z % 64);
    WrittenDigits(256, x, y, z, 0);
  }

  lemma ValuesAre(b: Bytes)
    requires 1 <= |b| <= 3
    ensures Values(b) == [ByteAt(b, 0), ByteAt(b, 1), ByteAt(b, 2)][..|b|]
  {
  }

  lemma DigitsOf(b: Bytes) returns (ds: seq<nat>)
    requires 1 <= |b| <= 3
    ensures Spells(ds, b)
    ensures var x, y, z := ByteAt(b, 0), ByteAt(b, 1), ByteAt(b, 2);
      ds == [x / 4, x % 4 * 16 + y / 16, y % 16 * 4 + z / 64, z % 64][..|b| + 1]
  {
    hide Written;
    var x, y, z := ByteAt(b, 0), ByteAt(b, 1), ByteAt(b, 2);
    ValuesAre(b);
    if |b| == 1 {
      ds := OneByte(x);
      assert Values(b) == [x];
    } else if |b| == 2 {
      ds := TwoBytes(x, y);
      assert Values(b) == [x, y];
    } else {
      ds := ThreeBytes(x, y, z);
      assert Values(b) == [x, y, z];
    }
  }

  lemma GroupDigits(b: Bytes) returns (ds: seq<nat>)
    requires 1 <= |b| <= 3
    ensures |ALPHABET| == 64 && Spells(ds, b) && Quad(b) == InTable(ALPHABET, ds) + Padding(|b|)
  {
    hide Letter, Quad, Written, ByteAt;
    QuadOf(b);
    ds := DigitsOf(b);
    SpellsIs(ds, b);
    hide Spells;
    LettersOfTable(ds);
  }

  lemma LettersOfTable(ds: seq<nat>)
    requires forall i :: 0 <= i < |ds| ==> ds[i] < 64
    ensures |ALPHABET| == 64 && forall i :: 0 <= i < |ds| ==> ALPHABET[ds[i]] == Letter(ds[i])
  {
    hide Letter;
    LetterIsOfTable(0);
    forall i | 0 <= i < |ds| ensures ALPHABET[ds[i]] == Letter(ds[i]) { LetterIsOfTable(ds[i]); }
  }

  lemma EncodedGroup(b: Bytes)
    requires 1 <= |b| <= 3
    ensures Encoded(b) == Quad(b)
  {
    hide Quad;
    assert b[Group(b)..] == [] && Quad(b) + "" == Quad(b);
  }

  /** One group: letters of the table that write the same number, filled up with padding. */
  lemma GroupIs(b: Bytes) returns (ds: seq<nat>)
    requires 1 <= |b| <= 3
    ensures |ALPHABET| == |URL_ALPHABET| == 64 && Spells(ds, b)
    ensures Encode(b, false) == InTable(ALPHABET, ds) + Padding(|b|)
    ensures Encode(b, true) == InTable(URL_ALPHABET, ds)
  {
    hide Letter, Encoded, Unpadded, Written, Spells;
    LetterIsOfTable(0);
    EncodedGroup(b);
    ds := GroupDigits(b);
    assert forall i :: 0 <= i < |ds| ==> ds[i] < 64 by { SpellsIs(ds, b); }
    UrlGroup(ds, |b|);
  }

  lemma SpellsIs(ds: seq<nat>, b: Bytes)
    requires Spells(ds, b)
    ensures forall i :: 0 <= i < |ds| ==> ds[i] < 64
  {
  }

  lemma UrlGroup(ds: seq<nat>, n: nat)
    requires forall i :: 0 <= i < |ds| ==> ds[i] < 64
    ensures |ALPHABET| == |URL_ALPHABET| == 64
    ensures Unpadded(Mapped(InTable(ALPHABET, ds) + Padding(n), UrlLetter)) == InTable(URL_ALPHABET, ds)
  {
    hide Letter, Unpadded;
    LetterIsOfTable(0);
    forall i | 0 <= i < |ds| ensures UrlLetter(ALPHABET[ds[i]]) == URL_ALPHABET[ds[i]] != '=' {
      LetterIsOfTable(ds[i]);
      LetterIsRead(ds[i]);
    }
    var s := InTable(URL_ALPHABET, ds);
    var t := InTable(ALPHABET, ds) + Padding(n);
    forall i | 0 <= i < |t| ensures UrlLetter(t[i]) == (s + Padding(n))[i] {
      if i >= |ds| { assert t[i] == Padding(n)[i - |ds|] == '='; }
    }
    assert Mapped(t, UrlLetter) == s + Padding(n);
    assert '=' !in s;
    UnpaddedAll(s, Padding(n));
  }

  lemma {:induction false} UnpaddedAll(s: string, padding: string)
    requires '=' !in s && forall c :: c in padding ==> c == '='
    ensures Unpadded(s + padding) == s
    decreases |padding|
  {
    if padding == "" {
      assert s + padding == s;
    } else {
      var rest, last := padding[..|padding| - 1], padding[|padding| - 1];
      assert last in padding && forall c :: c in rest ==> c in padding;
      assert (s + padding)[..|s + padding| - 1] == s + rest;
      UnpaddedAll(s, rest);
    }
  }

  // ----- group by group -----

  lemma {:induction false} EncodedConcat(a: Bytes, b: Bytes)
    requires |a| % 3 == 0
    ensures Encoded(a + b) == Encoded(a) + Encoded(b)
    decreases |a|
  {
    hide Quad;
    if a == [] {
      assert a + b == b && Encoded(a) + Encoded(b) == Encoded(b);
    } else {
      assert (a + b)[3..] == a[3..] + b;
      SameQuad(a, b);
      EncodedConcat(a[3..], b);
      Regrouped(Quad(a), Encoded(a[3..]), Encoded(b));
    }
  }

  lemma SameQuad(a: Bytes, b: Bytes)
    requires |a| >= 3
    ensures Quad(a + b) == Quad(a)
  {
  }

  /** Whole groups are written one after the other, in either alphabet. */
  lemma GroupsFollow(a: Bytes, b: Bytes, urlSafe: bool)
    requires |a| % 3 == 0
    ensures Encode(a + b, urlSafe) == Encode(a, urlSafe) + Encode(b, urlSafe)
  {
    hide Encoded, Unpadded;
    EncodedConcat(a, b);
    if urlSafe {
      var x, y := Encoded(a), Encoded(b);
      WholeGroups(a);
      MappedPadding(x);
      MappedPadding(y);
      MappedPadding(x + y);
      UnpaddedAll(x, "");
      assert x + "" == x;
      if x == "" {
        assert x + y == y;
      } else {
        UnpaddedAfter(x, y);
      }
      assert Mapped(x + Unpadded(y), UrlLetter) == Mapped(x, UrlLetter) + Mapped(Unpadded(y), UrlLetter);
    }
  }

  lemma {:induction false} WholeGroups(a: Bytes)
    requires |a| % 3 == 0
    ensures '=' !in Encoded(a)
    decreases |a|
  {
    hide Quad;
    if a != [] {
      QuadHasNoPadding(a);
      WholeGroups(a[3..]);
    }
  }

  // ----- the examples of section 10 -----

  /** The text `foobar` and its beginnings. */
  lemma Foobar()
    ensures var f: Bytes := [0x66, 0x6F, 0x6F, 0x62, 0x61, 0x72];
      && Encode([], false) == "" && Encode(f[..1], false) == "Zg==" && Encode(f[..2], false) == "Zm8="
      && Encode(f[..3], false) == "Zm9v" && Encode(f[..4], false) == "Zm9vYg=="
      && Encode(f[..5], false) == "Zm9vYmE=" && Encode(f, false) == "Zm9vYmFy"
  {
    hide Encoded, Quad;
    var f: Bytes := [0x66, 0x6F, 0x6F, 0x62, 0x61, 0x72];
    Beginnings(f[..3]);
    assert f[..3][..1] == f[..1] && f[..3][..2] == f[..2];
    Beginnings([0x62, 0x61, 0x72]);
    assert [0x62, 0x61, 0x72][..1] == [0x62] && [0x62, 0x61, 0x72][..2] == [0x62, 0x61];
    FirstGroups(f);
    assert Encoded([]) == "" by { NothingEncoded(); }
    GroupsFollow(f[..3], [0x62], false);
    GroupsFollow(f[..3], [0x62, 0x61], false);
    GroupsFollow(f[..3], [0x62, 0x61, 0x72], false);
    assert f[..3] + [0x62] == f[..4] && f[..3] + [0x62, 0x61] == f[..5] && f[..3] + [0x62, 0x61, 0x72] == f;
  }

  lemma NothingEncoded()
    ensures Encoded([]) == ""
  {
  }

  lemma Beginnings(b: Bytes)
    requires |b| == 3
    ensures Encoded(b[..1]) == Quad(b[..1]) && Encoded(b[..2]) == Quad(b[..2]) && Encoded(b) == Quad(b)
  {
    hide Quad;
    EncodedGroup(b[..1]);
    EncodedGroup(b[..2]);
    EncodedGroup(b);
  }

  lemma FirstGroups(f: Bytes)
    requires f == [0x66, 0x6F, 0x6F, 0x62, 0x61, 0x72]
    ensures Quad(f[..1]) == "Zg==" && Quad(f[..2]) == "Zm8=" && Quad(f[..3]) == "Zm9v"
    ensures Quad([0x62, 0x61, 0x72][..1]) == "Yg==" && Quad([0x62, 0x61, 0x72][..2]) == "YmE="
    ensures Quad([0x62, 0x61, 0x72]) == "YmFy"
  {
    hide Quad;
    QuadOf(f[..1]);
    QuadOf(f[..2]);
    QuadOf(f[..3]);
    SecondGroups([0x62, 0x61, 0x72]);
  }

  lemma SecondGroups(b: Bytes)
    requires b == [0x62, 0x61, 0x72]
    ensures Quad(b[..1]) == "Yg==" && Quad(b[..2]) == "YmE=" && Quad(b) == "YmFy"
  {
    hide Quad;
    QuadOf(b[..1]);
    QuadOf(b[..2]);
    QuadOf(b);
  }
}
