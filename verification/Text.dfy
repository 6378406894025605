/** The string operations that the parsers use, over sequences of characters. */
module Text {
  import opened Options

  predicate StartsWith(s: string, p: string) {
    p <= s
  }

  function StripPrefix(s: string, p: string): Option<string> {
    if p <= s then Some(s[|p|..]) else None
  }

  /** The first place where `sep` begins. */
  function Find(s: string, sep: string): (r: Option<nat>)
    ensures r.Some? ==> r.value + |sep| <= |s|
    decreases |s|
  {
    if sep <= s then Some(0)
    else if s == [] then None
    else match Find(s[1..], sep)
         case Some(i) => Some(i + 1)
         case None => None
  }

  /** The last place where `sep` begins. */
  function RFind(s: string, sep: string): (r: Option<nat>)
    requires sep != []
    ensures r.Some? ==> r.value + |sep| <= |s|
    decreases |s|
  {
    if s == [] then None
    else match RFind(s[1..], sep)
         case Some(i) => Some(i + 1)
         case None => if sep <= s then Some(0) else None
  }

  function SplitOnce(s: string, sep: string): Option<(string, string)> {
    match Find(s, sep)
    case Some(i) => Some((s[..i], s[i + |sep|..]))
    case None => None
  }

  /** What follows the last `sep`. */
  function AfterLast(s: string, sep: string): Option<string>
    requires sep != []
  {
    match RFind(s, sep)
    case Some(i) => Some(s[i + |sep|..])
    case None => None
  }

  /** `char::is_whitespace`: the Unicode White_Space characters. */
  predicate IsSpace(c: char) {
    '\t' <= c <= '\r' || c == ' ' || c == '\U{85}' || c == '\U{A0}' || c == '\U{1680}'
    || '\U{2000}' <= c <= '\U{200A}' || c == '\U{2028}' || c == '\U{2029}' || c == '\U{202F}'
    || c == '\U{205F}' || c == '\U{3000}'
  }

  function SkipSpaces(s: string): string {
    if s != [] && IsSpace(s[0]) then SkipSpaces(s[1..]) else s
  }

  function WordLength(s: string): (n: nat)
    ensures n <= |s|
  {
    if s == [] || IsSpace(s[0]) then 0 else 1 + WordLength(s[1..])
  }

  /** The next word of `split_whitespace`, and what is left after it. */
  function NextWord(s: string): Option<(string, string)> {
    var t := SkipSpaces(s);
    if t == [] then None else Some((t[..WordLength(t)], t[WordLength(t)..]))
  }

  predicate IsDigit(c: char) {
    '0' <= c <= '9'
  }

  predicate AllDigits(s: string) {
    forall i :: 0 <= i < |s| ==> IsDigit(s[i])
  }

  function Number(digits: string): nat
    requires AllDigits(digits)
  {
    if digits == [] then 0
    else 10 * Number(digits[..|digits| - 1]) + (digits[|digits| - 1] as nat - '0' as nat)
  }

  /** Rust's `parse` for an unsigned type with this maximum: an optional plus sign and
      at least one digit, nothing else, in range. */
  function ParseUnsigned(s: string, max: nat): Option<nat> {
    var digits := if s != [] && s[0] == '+' then s[1..] else s;
    if digits != [] && AllDigits(digits) && Number(digits) <= max then Some(Number(digits)) else None
  }

  function Digit(n: nat): char
    requires n < 10
  {
    ('0' as nat + n) as char
  }

  /** Decimal digits without leading zeros. */
  function Decimal(n: nat): string {
    if n < 10 then [Digit(n)] else Decimal(n / 10) + [Digit(n % 10)]
  }

  lemma {:induction false} DecimalParses(n: nat)
    ensures Decimal(n) != [] && AllDigits(Decimal(n)) && Number(Decimal(n)) == n
  {
    var s := Decimal(n);
    if n < 10 {
      assert s[..0] == [];
    } else {
      DecimalParses(n / 10);
      assert s[..|s| - 1] == Decimal(n / 10);
    }
  }

  // ----- searching -----

  /** Where a search that starts one character later ends up. */
  function Later(r: Option<nat>, n: nat): Option<nat> {
    match r case Some(i) => Some(n + i) case None => None
  }

  lemma OtherStart(s: string, sep: string)
    requires s != [] && sep != [] && s[0] != sep[0]
    ensures Find(s, sep) == Later(Find(s[1..], sep), 1)
    ensures RFind(s, sep) == Later(RFind(s[1..], sep), 1)
  {
  }

  lemma TailOfConcat(s: string, t: string)
    requires s != []
    ensures s + t != [] && (s + t)[0] == s[0] && (s + t)[1..] == s[1..] + t
  {
  }

  lemma NothingBefore(t: string)
    ensures [] + t == t
  {
  }

  /** A separator whose first character is missing cannot occur. */
  lemma {:induction false} FindSkips(s: string, t: string, sep: string)
    requires sep != [] && sep[0] !in s
    ensures Find(s + t, sep) == Later(Find(t, sep), |s|)
    ensures RFind(s + t, sep) == Later(RFind(t, sep), |s|)
  {
    hide Find, RFind;
    if s == [] {
      NothingBefore(t);
    } else {
      TailOfConcat(s, t);
      OtherStart(s + t, sep);
      FindSkips(s[1..], t, sep);
    }
  }

  lemma PrefixAfter(c: char, t: string, p: string)
    ensures StartsWith([c] + t, [c] + p) <==> StartsWith(t, p)
  {
    var s, q := [c] + t, [c] + p;
    if q <= s { assert s[1..|q|] == q[1..]; assert t[..|p|] == p; }
    if p <= t { assert s[..|q|] == q; }
  }

  /** The last occurrence is the one before text that has none. */
  lemma {:induction false} RFindLast(a: string, sep: string, t: string)
    requires sep != [] && sep[0] !in sep[1..] && RFind(t, sep).None?
    ensures RFind(a + (sep + t), sep) == Some(|a|)
    decreases |a|
  {
    var s := a + (sep + t);
    if a == [] {
      TailOfConcat(sep, t);
      NothingBefore(sep + t);
      assert RFind(sep[1..] + t, sep).None? by { FindSkips(sep[1..], t, sep); }
      assert sep <= s;
    } else {
      TailOfConcat(a, sep + t);
      RFindLast(a[1..], sep, t);
      assert RFind(s[1..], sep) == Some(|a| - 1);
    }
  }

  /** Digits are no separators, signs or spaces. */
  lemma DecimalIsWord(n: nat)
    ensures forall i :: 0 <= i < |Decimal(n)| ==> IsDigit(Decimal(n)[i])
    ensures Decimal(n) != []
  {
    DecimalParses(n);
  }

  lemma {:induction false} WordThenSpace(w: string, t: string)
    requires forall i :: 0 <= i < |w| ==> !IsSpace(w[i])
    requires t == [] || IsSpace(t[0])
    ensures WordLength(w + t) == |w|
  {
    if w == [] {
      assert w + t == t;
    } else {
      assert (w + t)[1..] == w[1..] + t;
      WordThenSpace(w[1..], t);
    }
  }

  // ----- lines -----

  /** A line without the carriage return before its line feed. */
  function WithoutCr(line: string): string {
    if line != [] && line[|line| - 1] == '\r' then line[..|line| - 1] else line
  }

  /** `str::lines`: the texts before each line feed, one carriage return taken off, and what
      follows the last line feed as it is. */
  function Lines(text: string): seq<string>
    decreases |text|
  {
    match Find(text, "\n")
    case None => if text == [] then [] else [text]
    case Some(i) => [WithoutCr(text[..i])] + Lines(text[i + 1..])
  }

  /** Lines as they are printed, each ended by a line feed. */
  function Joined(lines: seq<string>): string {
    if lines == [] then [] else lines[0] + ("\n" + Joined(lines[1..]))
  }

  predicate NoBreaks(lines: seq<string>) {
    forall i :: 0 <= i < |lines| ==> '\n' !in lines[i]
  }

  function AllWithoutCr(lines: seq<string>): (r: seq<string>)
    ensures |r| == |lines|
  {
    seq(|lines|, i requires 0 <= i < |lines| => WithoutCr(lines[i]))
  }

  lemma FindNothing(sep: string)
    requires sep != []
    ensures Find([], sep).None?
  {
  }

  lemma FindFirst(sep: string, t: string)
    ensures Find(sep + t, sep) == Some(0)
  {
  }

  /** Printed and read again, each line loses its carriage return. */
  lemma {:induction false} LinesOfJoined(lines: seq<string>)
    requires NoBreaks(lines)
    ensures Lines(Joined(lines)) == AllWithoutCr(lines)
    decreases |lines|
  {
    hide Find, WithoutCr;
    if lines == [] {
      FindNothing("\n");
    } else {
      var line, rest := lines[0], Joined(lines[1..]);
      var text := line + ("\n" + rest);
      FindFirst("\n", rest);
      FindSkips(line, "\n" + rest, "\n");
      assert text[..|line|] == line && text[|line| + 1..] == rest;
      LinesOfJoined(lines[1..]);
      assert AllWithoutCr(lines) == [WithoutCr(line)] + AllWithoutCr(lines[1..]);
    }
  }

  /** What follows the last line feed is a line too unless it is empty, and keeps a carriage
      return at its end. */
  lemma {:induction false} LastLineIsKept(lines: seq<string>, last: string)
    requires NoBreaks(lines) && '\n' !in last
    ensures Lines(Joined(lines) + last) == AllWithoutCr(lines) + (if last == [] then [] else [last])
    decreases |lines|
  {
    hide Find, WithoutCr;
    if lines == [] {
      FindSkips(last, [], "\n");
      FindNothing("\n");
      assert Joined(lines) + last == last && last + [] == last;
    } else {
      var line, rest := lines[0], Joined(lines[1..]) + last;
      var text := line + ("\n" + rest);
      assert Joined(lines) + last == text;
      FindFirst("\n", rest);
      FindSkips(line, "\n" + rest, "\n");
      assert text[..|line|] == line && text[|line| + 1..] == rest;
      LastLineIsKept(lines[1..], last);
      assert AllWithoutCr(lines) == [WithoutCr(line)] + AllWithoutCr(lines[1..]);
    }
  }

  /** Printed lines come back exactly when none of them ends in a carriage return. */
  lemma LinesComeBackIff(lines: seq<string>)
    requires NoBreaks(lines)
    ensures Lines(Joined(lines)) == lines <==>
            forall i :: 0 <= i < |lines| ==> lines[i] == [] || lines[i][|lines[i]| - 1] != '\r'
  {
    hide Joined, Lines;
    LinesOfJoined(lines);
    forall i | 0 <= i < |lines| ensures WithoutCr(lines[i]) == lines[i]
                                   <==> lines[i] == [] || lines[i][|lines[i]| - 1] != '\r' {
    }
    if Lines(Joined(lines)) == lines {
      forall i | 0 <= i < |lines| ensures WithoutCr(lines[i]) == lines[i] {
        assert AllWithoutCr(lines)[i] == WithoutCr(lines[i]);
      }
    }
  }

  lemma WithoutCrAfter(p: string, t: string)
    requires p != [] && p[|p| - 1] != '\r'
    ensures WithoutCr(p + t) == p + WithoutCr(t)
  {
    if t == [] {
      assert p + t == p;
    } else {
      assert (p + t)[..|p + t| - 1] == p + t[..|t| - 1];
    }
  }

  lemma AllWithoutCrConcat(a: seq<string>, b: seq<string>)
    ensures AllWithoutCr(a + b) == AllWithoutCr(a) + AllWithoutCr(b)
  {
  }
}
