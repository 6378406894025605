/** The header line of a file in a patch, printed bare or quoted as `git diff` prints it
    with `core.quotePath=false`, and read again (`parse_diff_header_path` in
    `src/review_diff.rs`). */
module PatchHeaders {
  import opened Options
  import opened Text
  import opened PatchParser

  // ----- printing -----

  predicate IsControl(c: char) {
    c < ' ' || c == '\U{7F}'
  }

  /** Control characters whose escapes the parser does not know. */
  predicate Strange(c: char) {
    IsControl(c) && c !in "\t\n\r"
  }

  predicate NeedsEscape(c: char) {
    IsControl(c) || c == '"' || c == '\\'
  }

  predicate NeedsQuotes(path: string) {
    exists i :: 0 <= i < |path| && NeedsEscape(path[i])
  }

  /** What follows the backslash: a letter, the character itself, or three octal digits. */
  function EscapeCode(c: char): (r: string)
    requires NeedsEscape(c)
    ensures r != [] && ' ' !in r && '\\' !in r[1..]
  {
    match c as int
    case 7 => "a"
    case 8 => "b"
    case 9 => "t"
    case 10 => "n"
    case 11 => "v"
    case 12 => "f"
    case 13 => "r"
    case n => if n == 34 || n == 92 then [c] else [Digit(n / 64), Digit(n / 8 % 8), Digit(n % 8)]
  }

  function Escape(c: char): string {
    if NeedsEscape(c) then ['\\'] + EscapeCode(c) else [c]
  }

  function Quoted(path: string): string {
    if path == [] then [] else Escape(path[0]) + Quoted(path[1..])
  }

  function BareHeader(path: string): string {
    "diff --git " + ("a/" + path + (" b/" + path))
  }

  function QuotedHeader(path: string): string {
    "diff --git " + ("\"a/" + (Quoted(path) + ("\" \"b/" + (Quoted(path) + "\""))))
  }

  function PrintedHeader(path: string): string {
    if NeedsQuotes(path) then QuotedHeader(path) else BareHeader(path)
  }

  // ----- what unescaping does -----

  lemma {:induction false} UnescapedLength(s: string)
    ensures |Unescaped(s)| <= |s|
    ensures '\\' in s ==> |Unescaped(s)| < |s|
    decreases |s|
  {
    if s == [] {
    } else if s[0] == '\\' {
      if |s| > 1 { UnescapedLength(s[2..]); }
    } else {
      UnescapedLength(s[1..]);
    }
  }

  lemma {:induction false} NothingToUnescape(path: string)
    requires '\\' !in path
    ensures Unescaped(path) == path
  {
    if path != [] {
      NothingToUnescape(path[1..]);
    }
  }

  /** How an escaped character is read: a strange one as the code after its backslash. */
  function Misread(c: char): string {
    if Strange(c) then EscapeCode(c) else [c]
  }

  function MisreadAll(path: string): string {
    if path == [] then [] else Misread(path[0]) + MisreadAll(path[1..])
  }

  lemma UnescapedEscape(c: char, t: string)
    ensures Unescaped(Escape(c) + t) == Misread(c) + Unescaped(t)
  {
    var s := Escape(c) + t;
    if !NeedsEscape(c) {
      assert s[1..] == t;
    } else {
      assert s == ['\\'] + (EscapeCode(c) + t);
      EscapeCodes(c);
      UnescapedCode(EscapeCode(c), t);
      assert s[1..] == EscapeCode(c) + t;
    }
  }

  /** An escape code stands for a character the parser knows, or is three plain characters,
      or one that is read as itself. */
  lemma EscapeCodes(c: char)
    requires NeedsEscape(c)
    ensures var r := EscapeCode(c);
      && (|r| == 1 || (|r| == 3 && r[0] !in "tnr" && r[1] != '\\' && r[2] != '\\'))
      && (!Strange(c) ==> |r| == 1 && Decoded(r[0]) == c)
      && (Strange(c) ==> r[0] !in "tnr")
  {
  }

  /** What a backslash before `c` is read as. */
  function Decoded(c: char): char {
    match c case 't' => '\t' case 'n' => '\n' case 'r' => '\r' case other => other
  }

  lemma UnescapedCode(r: string, t: string)
    requires |r| == 1 || (|r| == 3 && r[1] != '\\' && r[2] != '\\')
    ensures Unescaped(['\\'] + (r + t)) == [Decoded(r[0])] + r[1..] + Unescaped(t)
  {
    var s := ['\\'] + (r + t);
    assert s[1] == r[0] && s[2..] == r[1..] + t;
    if |r| == 3 {
      PlainPair(r[1], r[2], t);
      assert r[1..] == [r[1], r[2]];
    } else {
      assert r[1..] == [];
      NothingBefore(t);
      NothingBefore(Unescaped(t));
    }
  }

  lemma PlainPair(a: char, b: char, t: string)
    requires a != '\\' && b != '\\'
    ensures Unescaped([a, b] + t) == [a, b] + Unescaped(t)
  {
    var s := [a, b] + t;
    assert s[1..] == [b] + t && s[1..][1..] == t;
  }

  lemma {:induction false} UnescapedQuoted(path: string, t: string)
    ensures Unescaped(Quoted(path) + t) == MisreadAll(path) + Unescaped(t)
  {
    hide Unescaped, Escape, Misread;
    if path == [] {
      NothingBefore(t);
      NothingBefore(Unescaped(t));
    } else {
      var q := Quoted(path[1..]);
      assert Quoted(path) + t == Escape(path[0]) + (q + t);
      UnescapedEscape(path[0], q + t);
      UnescapedQuoted(path[1..], t);
      assert Misread(path[0]) + (MisreadAll(path[1..]) + Unescaped(t)) == MisreadAll(path) + Unescaped(t);
    }
  }

  predicate NoneStrange(path: string) {
    forall i :: 0 <= i < |path| ==> !Strange(path[i])
  }

  lemma MisreadIsPlain(c: char)
    ensures NoneStrange(Misread(c)) && |Misread(c)| >= 1
  {
  }

  lemma {:induction false} MisreadIsNeverStrange(path: string)
    ensures NoneStrange(MisreadAll(path))
  {
    hide Misread, Strange;
    if path != [] {
      MisreadIsPlain(path[0]);
      MisreadIsNeverStrange(path[1..]);
    }
  }

  lemma {:induction false} MisreadIffStrange(path: string)
    ensures MisreadAll(path) == path <==> NoneStrange(path)
  {
    hide Strange;
    if NoneStrange(path) {
      if path != [] {
        MisreadIffStrange(path[1..]);
        assert path == [path[0]] + path[1..];
      }
    } else {
      MisreadIsNeverStrange(path);
    }
  }

  // ----- where the separator is found -----

  /** The text around the last separator. */
  lemma {:induction false} SplitAtLast(s: string, sep: string) returns (a: string, t: string)
    requires sep != [] && RFind(s, sep).Some?
    ensures s == a + (sep + t) && RFind(t, sep).None?
  {
    if RFind(s[1..], sep).Some? {
      a, t := SplitAtLast(s[1..], sep);
      assert s == [s[0]] + s[1..];
      a := [s[0]] + a;
    } else {
      a, t := [], s[|sep|..];
      assert s == sep + t;
      NotInTail(s[1..], |sep| - 1, sep);
      assert s[1..][|sep| - 1..] == t;
    }
  }

  lemma {:induction false} NotInTail(s: string, k: nat, sep: string)
    requires sep != [] && k <= |s| && RFind(s, sep).None?
    ensures RFind(s[k..], sep).None?
  {
    if k > 0 {
      assert s[k..] == s[1..][k - 1..];
      NotInTail(s[1..], k - 1, sep);
    } else {
      assert s[0..] == s;
    }
  }

  lemma EscapeHasNoSpace(c: char)
    requires c != ' '
    ensures ' ' !in Escape(c)
  {
  }

  lemma QuotedFirst(path: string, t: string)
    requires path != []
    ensures Quoted(path) + t == Escape(path[0]) + (Quoted(path[1..]) + t)
  {
    hide Escape;
    assert Quoted(path) + t == Escape(path[0]) + (Quoted(path[1..]) + t);
  }

  /** A space separator followed by plain characters is in the quoted text only where it is
      in the path. */
  lemma {:induction false} NotFoundQuoted(path: string, t: string)
    requires RFind(path, " b/").None? && t != [] && t[0] == '"' && RFind(t, " b/").None?
    ensures RFind(Quoted(path) + t, " b/").None?
  {
    hide RFind, Escape, Quoted;
    if path == [] {
      NothingBefore(t);
      assert Quoted(path) == [] by { QuotedNothing(); }
    } else {
      var c, rest := path[0], path[1..];
      QuotedFirst(path, t);
      assert RFind(rest, " b/").None? by { NotInTail(path, 1, " b/"); }
      NotFoundQuoted(rest, t);
      var u := Quoted(rest) + t;
      if c == ' ' {
        SpaceFirst(path);
        QuotedStartsAlike(rest, t);
        assert Escape(c) + u == " " + u by { SpaceIsPlain(); }
        assert " " + "b/" == " b/";
        SpaceNotFound(u, "b/");
      } else {
        EscapeHasNoSpace(c);
        FindSkips(Escape(c), u, " b/");
      }
    }
  }

  lemma QuotedNothing()
    ensures Quoted([]) == []
  {
  }

  lemma SpaceIsPlain()
    ensures Escape(' ') == " "
  {
  }

  lemma SpaceFirst(path: string)
    requires path != [] && path[0] == ' ' && RFind(path, " b/").None?
    ensures !("b/" <= path[1..])
  {
    PrefixAfter(' ', path[1..], "b/");
    assert [' '] + path[1..] == path && [' '] + "b/" == " b/";
  }

  lemma SpaceNotFound(u: string, word: string)
    requires !(word <= u) && RFind(u, " " + word).None?
    ensures RFind(" " + u, " " + word).None?
  {
    assert (" " + u)[1..] == u;
    PrefixAfter(' ', u, word);
    assert [' '] + u == " " + u && [' '] + word == " " + word;
  }

  lemma QuotedStartsAlike(path: string, t: string)
    requires t != [] && t[0] == '"' && !("b/" <= path)
    ensures !("b/" <= Quoted(path) + t)
  {
    hide Escape;
    var u := Quoted(path) + t;
    BSlash(u);
    BSlash(path);
    QuotedStart(path, t);
    if u[0] == 'b' {
      assert path[0] == 'b' && u == ['b'] + (Quoted(path[1..]) + t);
      QuotedStart(path[1..], t);
    }
  }

  lemma BSlash(s: string)
    ensures "b/" <= s <==> |s| > 1 && s[0] == 'b' && s[1] == '/'
  {
    if |s| > 1 { assert s[..2] == [s[0], s[1]]; }
  }

  /** A quoted text starts with a letter or a slash only where the path does. */
  lemma QuotedStart(path: string, t: string)
    requires t != [] && t[0] == '"'
    ensures var u := Quoted(path) + t;
      && u != [] && (u[0] != '"' && u[0] != '\\' ==> path != [] && u[0] == path[0])
      && (path != [] ==> u[0] != '"' && (!NeedsEscape(path[0]) ==> u == [path[0]] + (Quoted(path[1..]) + t)))
  {
    if path != [] { QuotedFirst(path, t); }
  }

  /** Nor does a quote follow a space there. */
  lemma {:induction false} NoQuoteFollows(path: string)
    ensures RFind(Quoted(path) + "\"", " \"b/").None?
  {
    hide RFind, Escape, Quoted;
    if path == [] {
      assert Quoted(path) == [] by { QuotedNothing(); }
      NothingBefore("\"");
      FindSkips("\"", [], " \"b/");
      assert RFind([], " \"b/").None? by { NothingFound(); }
      assert "\"" + [] == "\"";
    } else {
      var c, rest := path[0], path[1..];
      QuotedFirst(path, "\"");
      NoQuoteFollows(rest);
      var u := Quoted(rest) + "\"";
      if c == ' ' {
        QuoteOnlyAtTheEnd(rest);
        assert Escape(c) + u == " " + u by { SpaceIsPlain(); }
        assert " " + "\"b/" == " \"b/";
        SpaceNotFound(u, "\"b/");
      } else {
        EscapeHasNoSpace(c);
        FindSkips(Escape(c), u, " \"b/");
      }
    }
  }

  lemma NothingFound()
    ensures RFind([], " b/").None? && RFind([], " \"b/").None?
  {
  }

  lemma QuoteOnlyAtTheEnd(path: string)
    ensures !("\"b/" <= Quoted(path) + "\"")
  {
    hide Escape, Quoted;
    var u := Quoted(path) + "\"";
    QuotedStart(path, "\"");
    if path == [] {
      assert Quoted(path) == [] by { QuotedNothing(); }
      assert |u| == 1;
    }
  }

  // ----- the two kinds of header -----

  /** What follows the names in the quoted header, and the header after its keyword. */
  function SecondName(path: string): string {
    "\" \"b/" + (Quoted(path) + "\"")
  }

  function QuotedNames(path: string): string {
    "\"a/" + (Quoted(path) + SecondName(path))
  }

  /** What the parser takes for the path of a bare header. */
  lemma BarePathFound(path: string) returns (t: string)
    ensures HeaderPath(BareHeader(path)) == Some(Unescaped(t))
    ensures if RFind(path, " b/").None? then t == path else |t| < |path|
  {
    hide RFind, Unescaped;
    var rest := "a/" + path + (" b/" + path);
    Stripped("diff --git ", rest);
    var before;
    before, t := BareNames(path);
    RFindLast(before, " b/", t);
    AfterSeparator(before, t);
  }

  /** Where its names part: before the second, or inside it. */
  lemma BareNames(path: string) returns (before: string, t: string)
    ensures "a/" + path + (" b/" + path) == before + (" b/" + t) && RFind(t, " b/").None?
    ensures if RFind(path, " b/").None? then t == path else |t| < |path|
  {
    hide RFind;
    if RFind(path, " b/").None? {
      before, t := "a/" + path, path;
    } else {
      var a;
      a, t := SplitAtLast(path, " b/");
      before := "a/" + path + (" b/" + a);
    }
  }

  lemma AfterSeparator(before: string, t: string)
    ensures (before + (" b/" + t))[|before| + 3..] == t
  {
  }

  /** A bare header gives its path back exactly when the path has no backslash and no
      separator of its own. */
  lemma BareParsesIff(path: string)
    ensures HeaderPath(BareHeader(path)) == Some(path) <==> '\\' !in path && RFind(path, " b/").None?
  {
    hide RFind, Unescaped, HeaderPath, BareHeader;
    var t := BarePathFound(path);
    UnescapedLength(t);
    if '\\' !in path { NothingToUnescape(path); }
  }

  lemma Stripped(p: string, t: string)
    ensures StripPrefix(p + t, p) == Some(t) && StartsWith(p + t, p)
  {
  }

  lemma QuoteIsNoSeparator()
    ensures RFind("\"", " b/").None?
  {
    FindSkips("\"", [], " b/");
    NothingFound();
    assert "\"" + [] == "\"";
  }

  /** Without the separator in the path the first branch finds nothing. */
  lemma NoBareSeparator(path: string)
    requires RFind(path, " b/").None?
    ensures RFind(QuotedNames(path), " b/").None?
  {
    hide RFind, Quoted;
    var q := Quoted(path);
    QuoteIsNoSeparator();
    NotFoundQuoted(path, "\"");
    SecondNameSkipped(q + "\"");
    NotFoundQuoted(path, SecondName(path));
    FindSkips("\"a/", q + SecondName(path), " b/");
  }

  /** And the second branch finds the quoted path. */
  lemma QuotedPathFound(path: string)
    ensures AfterLast(QuotedNames(path), " \"b/") == Some(Quoted(path) + "\"")
  {
    hide RFind, Quoted;
    var t := Quoted(path) + "\"";
    var before := "\"a/" + t;
    NoQuoteFollows(path);
    assert QuotedNames(path) == before + (" \"b/" + t);
    RFindLast(before, " \"b/", t);
    assert (before + (" \"b/" + t))[|before| + 4..] == t;
  }

  lemma SecondNameSkipped(t: string)
    requires RFind(t, " b/").None?
    ensures RFind("\" \"b/" + t, " b/").None?
  {
    hide RFind;
    var u := "\"b/" + t;
    FindSkips("\"b/", t, " b/");
    assert " " + "b/" == " b/";
    SpaceNotFound(u, "b/");
    FindSkips("\"", " " + u, " b/");
    assert "\" \"b/" + t == "\"" + (" " + u);
  }

  /** With the separator in the path the first branch finds the last one, in the second name. */
  lemma SeparatorInQuotedPath(path: string) returns (a: string, t: string)
    requires RFind(path, " b/").Some?
    ensures path == a + (" b/" + t)
    ensures AfterLast(QuotedNames(path), " b/") == Some(Quoted(t) + "\"")
  {
    hide RFind, Quoted;
    a, t := SplitAtLast(path, " b/");
    QuoteIsNoSeparator();
    NotFoundQuoted(t, "\"");
    QuotedSplit(a, t);
    var before := "\"a/" + Quoted(path) + "\" \"b/" + Quoted(a);
    assert QuotedNames(path) == before + (" b/" + (Quoted(t) + "\""));
    RFindLast(before, " b/", Quoted(t) + "\"");
    assert QuotedNames(path)[|before| + 3..] == Quoted(t) + "\"";
  }

  lemma {:induction false} QuotedConcat(a: string, b: string)
    ensures Quoted(a + b) == Quoted(a) + Quoted(b)
  {
    hide Escape;
    if a == [] {
      assert a + b == b;
    } else {
      assert (a + b)[0] == a[0] && (a + b)[1..] == a[1..] + b;
      QuotedConcat(a[1..], b);
      assert Escape(a[0]) + (Quoted(a[1..]) + Quoted(b)) == (Escape(a[0]) + Quoted(a[1..])) + Quoted(b);
    }
  }

  lemma QuotedSplit(a: string, t: string)
    ensures Quoted(a + (" b/" + t)) == Quoted(a) + (" b/" + Quoted(t))
  {
    hide Quoted;
    QuotedConcat(a, " b/" + t);
    QuotedConcat(" b/", t);
    assert Quoted(" b/") == " b/" by { SeparatorIsPlain(); }
  }

  lemma SeparatorIsPlain()
    ensures Quoted(" b/") == " b/"
  {
    var s := " b/";
    assert s[1..] == "b/" && s[1..][1..] == "/" && s[1..][1..][1..] == "";
    assert Quoted("/") == "/";
    assert Quoted("b/") == "b/";
  }

  /** A quoted header without the separator is read with its strange characters misread. */
  lemma QuotedReads(path: string)
    requires RFind(path, " b/").None?
    ensures HeaderPath(QuotedHeader(path)) == Some(MisreadAll(path))
  {
    hide RFind, Unescaped, Quoted, MisreadAll;
    Stripped("diff --git ", QuotedNames(path));
    NoBareSeparator(path);
    QuotedPathFound(path);
    var found := Quoted(path) + "\"";
    assert found[|found| - 1] == '"' && found[..|found| - 1] == Quoted(path);
    UnescapedQuoted(path, []);
    NothingLeft(Quoted(path), MisreadAll(path));
  }

  /** A quoted header gives its path back exactly when the path has no separator of its own
      and no control character but tab, newline and carriage return. */
  lemma QuotedParsesIff(path: string)
    ensures HeaderPath(QuotedHeader(path)) == Some(path) <==> RFind(path, " b/").None? && NoneStrange(path)
  {
    hide RFind, Unescaped, Quoted, MisreadAll, NoneStrange;
    if RFind(path, " b/").None? {
      QuotedReads(path);
      MisreadIffStrange(path);
    } else {
      Stripped("diff --git ", QuotedNames(path));
      var a, t := SeparatorInQuotedPath(path);
      UnescapedQuoted(t, "\"");
      NothingToUnescape("\"");
      NotTheTail(path, a, t);
    }
  }

  lemma NothingLeft(s: string, t: string)
    ensures s + [] == s && t + Unescaped([]) == t
  {
  }

  lemma NotTheTail(path: string, a: string, t: string)
    requires path == a + (" b/" + t)
    ensures MisreadAll(t) + "\"" != path
  {
    hide MisreadAll, Strange;
    var r := MisreadAll(t) + "\"";
    MisreadIffStrange(t);
    if !NoneStrange(t) {
      MisreadIsNeverStrange(t);
      var i :| 0 <= i < |t| && Strange(t[i]);
      assert path[|a| + 3 + i] == t[i];
      assert !Strange('"') by { QuoteIsNoControl(); }
      assert NoneStrange(r);
    }
  }

  lemma QuoteIsNoControl()
    ensures !Strange('"')
  {
  }

  /** The path is read back from the header git prints. */
  predicate Readable(path: string) {
    RFind(path, " b/").None? && NoneStrange(path)
  }

  /** For every path: its header gives it back exactly when it is readable. */
  lemma HeaderParsesIff(path: string)
    ensures HeaderPath(PrintedHeader(path)) == Some(path) <==> Readable(path)
  {
    hide RFind, HeaderPath, BareHeader, QuotedHeader;
    if NeedsQuotes(path) {
      QuotedParsesIff(path);
    } else {
      BareParsesIff(path);
      BareIsPlain(path);
    }
  }

  lemma BareIsPlain(path: string)
    requires !NeedsQuotes(path)
    ensures '\\' !in path && NoneStrange(path)
  {
  }

  /** Whatever the path, its header is read as that of some path. */
  lemma HeaderIsRead(path: string)
    ensures HeaderPath(PrintedHeader(path)).Some?
  {
    hide RFind, HeaderPath, BareHeader, QuotedHeader;
    if !NeedsQuotes(path) {
      var t := BarePathFound(path);
    } else if RFind(path, " b/").None? {
      QuotedReads(path);
    } else {
      QuotedHeaderIsRead(path);
    }
  }

  lemma QuotedHeaderIsRead(path: string)
    requires RFind(path, " b/").Some?
    ensures HeaderPath(QuotedHeader(path)).Some?
  {
    hide RFind, Unescaped, Quoted;
    Stripped("diff --git ", QuotedNames(path));
    var a, t := SeparatorInQuotedPath(path);
  }

  /** The path that the header of a file is read as. */
  function ReadPath(path: string): string {
    match HeaderPath(PrintedHeader(path)) case Some(p) => p case None => ""
  }

  lemma ReadPathIff(path: string)
    ensures ReadPath(path) == path <==> Readable(path)
  {
    hide HeaderPath, PrintedHeader, Readable;
    HeaderIsRead(path);
    HeaderParsesIff(path);
  }

  // ----- a header is one line -----

  predicate NoControls(s: string) {
    forall i :: 0 <= i < |s| ==> !IsControl(s[i])
  }

  lemma {:induction false} QuotedHasNoControls(path: string)
    ensures NoControls(Quoted(path))
  {
    hide Escape;
    if path != [] {
      assert NoControls(Escape(path[0])) by { EscapeHasNoControls(path[0]); }
      QuotedHasNoControls(path[1..]);
    }
  }

  lemma EscapeHasNoControls(c: char)
    ensures NoControls(Escape(c))
  {
  }

  lemma NoControlsConcat(a: string, b: string)
    requires NoControls(a) && NoControls(b)
    ensures NoControls(a + b)
  {
  }

  lemma NamesHaveNoControls()
    ensures NoControls("diff --git ") && NoControls("a/") && NoControls(" b/")
    ensures NoControls("\"a/") && NoControls("\" \"b/") && NoControls("\"")
  {
  }

  lemma BareHasNoControls(path: string)
    requires !NeedsQuotes(path)
    ensures NoControls(path)
  {
  }

  lemma HeaderHasNoControls(path: string)
    ensures NoControls(PrintedHeader(path))
  {
    hide NoControls, Quoted, NeedsQuotes;
    NamesHaveNoControls();
    if NeedsQuotes(path) {
      var q := Quoted(path);
      QuotedHasNoControls(path);
      NoControlsConcat(q, "\"");
      NoControlsConcat("\" \"b/", q + "\"");
      NoControlsConcat(q, "\" \"b/" + (q + "\""));
      NoControlsConcat("\"a/", q + ("\" \"b/" + (q + "\"")));
      NoControlsConcat("diff --git ", "\"a/" + (q + ("\" \"b/" + (q + "\""))));
    } else {
      BareHasNoControls(path);
      NoControlsConcat("a/", path);
      NoControlsConcat(" b/", path);
      NoControlsConcat("a/" + path, " b/" + path);
      NoControlsConcat("diff --git ", "a/" + path + (" b/" + path));
    }
  }

  /** Without control characters a line has no line feed, and no carriage return to lose. */
  lemma NoControlsIsALine(s: string)
    requires NoControls(s)
    ensures '\n' !in s && WithoutCr(s) == s
  {
  }

  /** The file `y` in the directory `x b` is listed as `y`. */
  lemma SeparatorInPathIsMisread()
    ensures HeaderPath(PrintedHeader("x b/y")) == Some("y")
  {
    hide RFind, Unescaped, BareHeader, HeaderPath;
    var path := "x b/y";
    assert PrintedHeader(path) == BareHeader(path);
    LastOfTheTwo();
    NothingToUnescape("y");
  }

  lemma LastOfTheTwo()
    ensures HeaderPath(BareHeader("x b/y")) == Some(Unescaped("y"))
  {
    hide RFind, Unescaped;
    var path := "x b/y";
    var before := "a/" + path + (" b/" + "x");
    Stripped("diff --git ", "a/" + path + (" b/" + path));
    assert "a/" + path + (" b/" + path) == before + (" b/" + "y");
    FindSkips("y", [], " b/");
    NothingFound();
    assert "y" + [] == "y";
    RFindLast(before, " b/", "y");
    AfterSeparator(before, "y");
  }

  /** A file named with the control character 1 is listed as `001`. */
  lemma ControlIsMisread()
    ensures HeaderPath(PrintedHeader("\U{1}")) == Some("001")
  {
    hide RFind, HeaderPath, QuotedHeader;
    var path := "\U{1}";
    assert NeedsEscape(path[0]);
    FindSkips(path, [], " b/");
    NothingFound();
    assert path + [] == path;
    QuotedReads(path);
    assert path[1..] == [];
    assert MisreadAll(path) == "001";
  }
}
