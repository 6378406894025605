/** Printing an appcast and reading it back (`scripts/appcast-windows.ts`). The parser cuts
    the text at tags and quotes; it never unescapes. */
module Appcast {
  import opened Basics
  import opened Options
  import opened Text
  import opened AppcastMerge

  function Open(name: string): string {
    "<" + (name + ">")
  }

  function Close(name: string): string {
    "</" + (name + ">")
  }

  // ----- the parser -----

  /** `split(sep)[0]` */
  function First(s: string, sep: string): string
    requires sep != []
  {
    Pieces(s, sep)[0]
  }

  /** `split(sep)[1]` */
  function Second(s: string, sep: string): Option<string>
    requires sep != []
  {
    var pieces := Pieces(s, sep);
    if |pieces| > 1 then Some(pieces[1]) else None
  }

  function Attribute(enclosure: string, name: string): Option<string> {
    match Second(enclosure, name + "=" + "\"")
    case Some(t) => Some(First(t, "\""))
    case None => None
  }

  function Enclosure(item: string): string {
    match Second(item, "<enclosure") case Some(t) => First(t, ">") case None => ""
  }

  function Or(a: Option<string>, b: string): string {
    match a case Some(s) => s case None => b
  }

  /** What an element holds, up to the next tag. */
  function Element(item: string, tag: string): Option<string>
    requires tag != []
  {
    match Second(item, tag) case Some(t) => Some(Trim(First(t, "<"))) case None => None
  }

  function ParsedChunk(chunk: string): (r: seq<Item>)
    ensures |r| <= 1
  {
    var item := First(chunk, Close("item"));
    var enclosure := Enclosure(item);
    var version := match Element(item, Open("sparkle:shortVersionString"))
                   case Some(v) => v
                   case None => Or(Attribute(enclosure, "sparkle:shortVersionString"), "");
    var url, signature := Or(Attribute(enclosure, "url"), ""), Or(Attribute(enclosure, "sparkle:edSignature"), "");
    if version == "" || url == "" || signature == "" then []
    else [Item(version, url, Int(Or(Attribute(enclosure, "length"), "0")), signature,
               Or(Element(item, Open("pubDate")), ""))]
  }

  function ParsedChunks(chunks: seq<string>): seq<Item> {
    if chunks == [] then [] else ParsedChunk(chunks[0]) + ParsedChunks(chunks[1..])
  }

  function Parsed(xml: string): seq<Item> {
    ParsedChunks(Pieces(xml, Open("item"))[1..])
  }

  // ----- the printer -----

  predicate Special(c: char) {
    c in "&<>\"'"
  }

  function Entity(c: char): string {
    match c
    case '&' => "amp"
    case '<' => "lt"
    case '>' => "gt"
    case '"' => "quot"
    case _ => "apos"
  }

  function EscapedChar(c: char): string {
    if Special(c) then "&" + (Entity(c) + ";") else [c]
  }

  function Escaped(s: string): string {
    if s == [] then [] else EscapedChar(s[0]) + Escaped(s[1..])
  }

  function Printed(n: int): string {
    if n < 0 then "-" + Decimal(-n) else Decimal(n)
  }

  /** A tag, or the name of one with attributes, and the text up to the next. */
  datatype Tag = Tag(name: string, text: string)

  function Flat(tags: seq<Tag>): string {
    if tags == [] then [] else tags[0].name + (tags[0].text + Flat(tags[1..]))
  }

  /** Chunks with a quote between any two. */
  function Quoted(chunks: seq<string>): string {
    if chunks == [] then [] else if |chunks| == 1 then chunks[0] else chunks[0] + ("\"" + Quoted(chunks[1..]))
  }

  function EscapedItem(item: Item): Item {
    Item(Escaped(item.version), Escaped(item.url), item.length, Escaped(item.signature), Escaped(item.pubDate))
  }

  const NAMESPACE := "http://www.andymatuschak.org" + "/xml-namespaces/sparkle"
  const INDENT := "\n      "
  const SIGNATURE := "sparkle:edSignature="

  function Attributes(e: Item): seq<string> {
    [" url=", e.url, " length=", Printed(e.length), " type=", "application/octet-stream",
     " " + SIGNATURE, e.signature, " sparkle:os=", "windows", " /"]
  }

  function EnclosureTag(e: Item): Tag {
    Tag("<enclosure", Quoted(Attributes(e)) + (">" + "\n    "))
  }

  /** An item between its tags. */
  function ItemTags(e: Item): seq<Tag> {
    [Tag(Open("title"), e.version), Tag(Close("title"), INDENT),
     Tag(Open("pubDate"), e.pubDate), Tag(Close("pubDate"), INDENT),
     Tag(Open("sparkle:version"), e.version), Tag(Close("sparkle:version"), INDENT),
     Tag(Open("sparkle:shortVersionString"), e.version), Tag(Close("sparkle:shortVersionString"), INDENT),
     Tag(Open("sparkle:minimumSystemVersion"), "10.0.17763"), Tag(Close("sparkle:minimumSystemVersion"), INDENT),
     EnclosureTag(e)]
  }

  datatype Architecture = X86_64 | Aarch64

  function Name(arch: Architecture): string {
    match arch case X86_64 => "x86_64" case Aarch64 => "aarch64"
  }

  function HeadTags(arch: Architecture): seq<Tag> {
    [Tag("<?xml", " version=\"1.0\" encoding=\"utf-8\"?>\n"),
     Tag("<rss", " xmlns:sparkle=\"" + (NAMESPACE + "\" version=\"2.0\">\n  ")),
     Tag(Open("channel"), "\n    "),
     Tag(Open("title"), "Kerenzikov (Windows " + Name(arch) + ")"),
     Tag(Close("title"), "\n")]
  }

  function TailTags(): seq<Tag> {
    [Tag(Close("channel"), "\n"), Tag(Close("rss"), "\n")]
  }

  function RenderedItem(item: Item): string {
    "    " + (Open("item") + (INDENT + Flat(ItemTags(EscapedItem(item))) + Close("item")))
  }

  /** The entries with a line break between any two. */
  function Entries(items: seq<Item>): string {
    if items == [] then [] else if |items| == 1 then RenderedItem(items[0])
    else RenderedItem(items[0]) + ("\n" + Entries(items[1..]))
  }

  function Rendered(arch: Architecture, items: seq<Item>): string {
    Flat(HeadTags(arch)) + (Entries(items) + ("\n  " + Flat(TailTags())))
  }

  // ----- finding tags -----

  predicate Differ(a: string, b: string) {
    exists k :: 0 <= k < |a| && k < |b| && a[k] != b[k]
  }

  predicate Plain(tag: Tag) {
    tag.name != [] && '<' !in tag.name[1..] && '<' !in tag.text
  }

  predicate AllPlain(tags: seq<Tag>) {
    forall i :: 0 <= i < |tags| ==> Plain(tags[i])
  }

  predicate AllDiffer(tags: seq<Tag>, sep: string) {
    forall i :: 0 <= i < |tags| ==> Differ(tags[i].name, sep)
  }

  lemma NotAtFront(s: string, sep: string)
    requires s != [] && !StartsWith(s, sep)
    ensures Find(s, sep) == Later(Find(s[1..], sep), 1)
  {
  }

  lemma DifferIsNoPrefix(name: string, t: string, sep: string)
    requires Differ(name, sep)
    ensures !StartsWith(name + t, sep)
  {
    var k :| 0 <= k < |name| && k < |sep| && name[k] != sep[k];
    assert (name + t)[k] == name[k];
  }

  lemma InConcat(c: char, a: string, b: string)
    ensures c in a + b <==> c in a || c in b
  {
  }

  lemma SkipTag(tag: Tag, u: string, sep: string)
    requires Plain(tag) && Differ(tag.name, sep) && sep != [] && sep[0] == '<'
    ensures Find(tag.name + (tag.text + u), sep) == Later(Find(u, sep), |tag.name| + |tag.text|)
  {
    hide Find, Differ, StartsWith;
    var s := tag.name + (tag.text + u);
    DifferIsNoPrefix(tag.name, tag.text + u, sep);
    AfterFirst(tag.name, tag.text, u);
    NotAtFront(s, sep);
    var body := tag.name[1..] + tag.text;
    InConcat('<', tag.name[1..], tag.text);
    FindSkips(body, u, sep);
  }

  lemma AfterFirst(n: string, t: string, u: string)
    requires n != []
    ensures n + (t + u) != [] && (n + (t + u))[1..] == (n[1..] + t) + u
  {
  }

  lemma {:induction false} SkipTags(tags: seq<Tag>, u: string, sep: string)
    requires AllPlain(tags) && AllDiffer(tags, sep) && sep != [] && sep[0] == '<'
    ensures Find(Flat(tags) + u, sep) == Later(Find(u, sep), |Flat(tags)|)
  {
    hide Find, Differ, Plain;
    if tags == [] {
      NothingBefore(u);
    } else {
      var t, rest := tags[0], Flat(tags[1..]);
      SkipTags(tags[1..], u, sep);
      SkipTag(t, rest + u, sep);
      Regrouped(t.name, t.text + rest, u);
      Regrouped(t.text, rest, u);
    }
  }

  lemma FoundHere(sep: string, t: string)
    ensures Find(sep + t, sep) == Some(0)
  {
  }

  lemma FirstIs(s: string, sep: string)
    requires sep != []
    ensures First(s, sep) == match Find(s, sep) case Some(i) => s[..i] case None => s
  {
    hide Find;
  }

  lemma SecondIs(s: string, sep: string)
    requires sep != []
    ensures Second(s, sep) == match Find(s, sep) case Some(i) => Some(First(s[i + |sep|..], sep)) case None => None
  {
    hide Find;
    match Find(s, sep)
    case None =>
    case Some(i) => assert Pieces(s, sep)[1..] == Pieces(s[i + |sep|..], sep);
  }

  lemma PiecesIs(s: string, sep: string)
    requires sep != []
    ensures Pieces(s, sep) == match Find(s, sep) case Some(i) => [s[..i]] + Pieces(s[i + |sep|..], sep) case None => [s]
  {
    hide Find;
  }

  lemma TagFound(x: string, tags: seq<Tag>, sep: string, t: string)
    requires '<' !in x && AllPlain(tags) && AllDiffer(tags, sep) && sep != [] && sep[0] == '<'
    ensures Find(x + (Flat(tags) + (sep + t)), sep) == Some(|x| + |Flat(tags)|)
  {
    hide Find, AllPlain, AllDiffer, Flat;
    FindSkips(x, Flat(tags) + (sep + t), sep);
    SkipTags(tags, sep + t, sep);
    FoundHere(sep, t);
  }

  /** Cutting at a tag that comes after text and other tags. */
  lemma CutAtTag(x: string, tags: seq<Tag>, sep: string, t: string)
    requires '<' !in x && AllPlain(tags) && AllDiffer(tags, sep) && sep != [] && sep[0] == '<'
    ensures var s := x + (Flat(tags) + (sep + t));
      && First(s, sep) == x + Flat(tags)
      && Second(s, sep) == Some(First(t, sep))
      && Pieces(s, sep) == [x + Flat(tags)] + Pieces(t, sep)
  {
    hide Find, AllPlain, AllDiffer, Flat, First, Second, Pieces;
    TagFound(x, tags, sep, t);
    CutParts(x, Flat(tags), sep, t);
    CutThere(x + (Flat(tags) + (sep + t)), sep, x + Flat(tags), t);
  }

  lemma CutThere(s: string, sep: string, a: string, t: string)
    requires sep != [] && Find(s, sep) == Some(|a|)
    requires s[..|a|] == a && s[|a| + |sep|..] == t
    ensures First(s, sep) == a && Second(s, sep) == Some(First(t, sep)) && Pieces(s, sep) == [a] + Pieces(t, sep)
  {
    hide Find, First, Second, Pieces;
    FirstIs(s, sep);
    SecondIs(s, sep);
    PiecesIs(s, sep);
  }

  lemma CutParts(x: string, y: string, sep: string, t: string)
    ensures var s := x + (y + (sep + t)); var i := |x| + |y|;
      s[..i] == x + y && s[i + |sep|..] == t
  {
    assert x + (y + (sep + t)) == (x + y) + (sep + t);
  }

  lemma NothingThere(sep: string)
    requires sep != []
    ensures Find("", sep).None?
  {
  }

  /** Up to the next tag: plain text followed by a tag or by nothing. */
  lemma UpToTag(text: string, u: string)
    requires '<' !in text && (u == [] || u[0] == '<')
    ensures First(text + u, "<") == text
  {
    hide Find;
    FindSkips(text, u, "<");
    if u == [] {
      NothingThere("<");
      assert text + u == text;
    } else {
      assert u == "<" + u[1..];
      FoundHere("<", u[1..]);
    }
  }

  // ----- finding attributes -----

  predicate EndsWith(s: string, key: string) {
    |s| >= |key| && s[|s| - |key|..] == key
  }

  /** A key and its quote, sought in unquoted text before the next quote. */
  lemma {:induction false} FindKey(pre: string, rest: string, key: string)
    requires key != [] && '"' !in key && '"' !in pre
    ensures Find(pre + ("\"" + rest), key + "\"") ==
            if EndsWith(pre, key) then Some(|pre| - |key|) else Later(Find(rest, key + "\""), |pre| + 1)
  {
    hide Find, EndsWith, StartsWith;
    var sep, s := key + "\"", pre + ("\"" + rest);
    KeyAtFront(pre, rest, key);
    EndsAfterFirst(pre, key);
    if pre == key {
      FoundHere(sep, rest);
      Regrouped(key, "\"", rest);
    } else {
      NotAtFront(s, sep);
      if pre == [] {
        NothingBefore("\"" + rest);
        assert s[1..] == rest;
      } else {
        TailOfConcat(pre, "\"" + rest);
        FindKey(pre[1..], rest, key);
      }
    }
  }

  lemma KeyAtFront(pre: string, rest: string, key: string)
    requires key != [] && '"' !in key && '"' !in pre
    ensures StartsWith(pre + ("\"" + rest), key + "\"") <==> pre == key
  {
    var sep, s := key + "\"", pre + ("\"" + rest);
    if sep <= s {
      var i := if |pre| < |key| then |pre| else |key|;
      assert s[i] == sep[i];
      assert |pre| == |key|;
      assert forall i :: 0 <= i < |key| ==> pre[i] == s[i] && key[i] == sep[i];
    }
    assert pre == key ==> s == sep + rest;
  }

  lemma EndsAfterFirst(pre: string, key: string)
    requires key != []
    ensures pre == key ==> EndsWith(pre, key)
    ensures pre == [] ==> !EndsWith(pre, key)
    ensures pre != [] && pre != key ==> (EndsWith(pre, key) <==> EndsWith(pre[1..], key))
  {
    if pre != [] {
      if |pre| > |key| { assert pre[|pre| - |key|..] == pre[1..][|pre| - 1 - |key|..]; }
    }
  }

  predicate Unquoted(chunks: seq<string>) {
    forall i :: 0 <= i < |chunks| ==> '"' !in chunks[i]
  }

  function Without(s: string, key: string): string {
    if EndsWith(s, key) then s[..|s| - |key|] else s
  }

  /** The value of a key: the chunk after the first one that ends with the key. Should the
      value end with the key as well, it is cut there. */
  function ValueOf(chunks: seq<string>, key: string): Option<string> {
    if |chunks| < 2 then None
    else if !EndsWith(chunks[0], key) then ValueOf(chunks[1..], key)
    else if |chunks| == 2 then Some(chunks[1])
    else Some(Without(chunks[1], key))
  }

  lemma CutAtQuote(v: string, rest: string)
    requires '"' !in v
    ensures First(v + ("\"" + rest), "\"") == v
  {
    hide Find, First;
    FindSkips(v, "\"" + rest, "\"");
    FoundHere("\"", rest);
    FirstIs(v + ("\"" + rest), "\"");
  }

  lemma NoQuote(v: string)
    requires '"' !in v
    ensures First(v, "\"") == v
  {
    hide Find, First;
    assert v + "" == v;
    FindSkips(v, "", "\"");
    NothingThere("\"");
    FirstIs(v, "\"");
  }

  /** The value after a key, cut at the next key and then at the next quote. */
  lemma ValueCut(v: string, rest: string, key: string)
    requires key != [] && '"' !in key && '"' !in v
    ensures First(First(v + ("\"" + rest), key + "\""), "\"") == Without(v, key)
  {
    hide Find, First, EndsWith;
    var sep, t := key + "\"", v + ("\"" + rest);
    FindKey(v, rest, key);
    FirstIs(t, sep);
    CutAtQuote(v, rest);
    if EndsWith(v, key) {
      EndsLength(v, key);
      assert t[..|v| - |key|] == v[..|v| - |key|];
      NoQuote(v[..|v| - |key|]);
    } else if Find(rest, sep).Some? {
      var j := Find(rest, sep).value;
      assert t[..|v| + 1 + j] == v + ("\"" + rest[..j]);
      CutAtQuote(v, rest[..j]);
    }
  }

  lemma EndsLength(s: string, key: string)
    requires EndsWith(s, key)
    ensures |s| >= |key|
  {
  }

  /** Unquoted text holds no key with its quote. */
  lemma {:induction false} NoKey(s: string, key: string)
    requires '"' !in s
    ensures Find(s, key + "\"").None?
  {
    var sep := key + "\"";
    assert '"' == sep[|key|];
    if s != [] { NoKey(s[1..], key); }
  }

  lemma AfterQuote(c: string, rest: string, j: nat)
    requires j <= |rest|
    ensures (c + ("\"" + rest))[|c| + 1 + j..] == rest[j..]
  {
  }

  lemma SecondHere(c: string, rest: string, key: string)
    requires key != [] && '"' !in key && '"' !in c && EndsWith(c, key)
    ensures Second(c + ("\"" + rest), key + "\"") == Some(First(rest, key + "\""))
  {
    hide Find, First, Second, EndsWith;
    var sep, s := key + "\"", c + ("\"" + rest);
    FindKey(c, rest, key);
    SecondIs(s, sep);
    EndsLength(c, key);
    AfterQuote(c, rest, 0);
  }

  lemma SecondLater(c: string, rest: string, key: string)
    requires key != [] && '"' !in key && '"' !in c && !EndsWith(c, key)
    ensures Second(c + ("\"" + rest), key + "\"") == Second(rest, key + "\"")
  {
    hide Find, First, Second, EndsWith;
    var sep, s := key + "\"", c + ("\"" + rest);
    FindKey(c, rest, key);
    SecondIs(s, sep);
    SecondIs(rest, sep);
    if Find(rest, sep).Some? {
      AfterQuote(c, rest, Find(rest, sep).value + |sep|);
    }
  }

  lemma {:induction false} AttributeIs(chunks: seq<string>, name: string)
    requires Unquoted(chunks) && '"' !in name
    ensures Attribute(Quoted(chunks), name) == ValueOf(chunks, name + "=")
    decreases |chunks|
  {
    hide Find, First, Second, EndsWith, Without, Quoted;
    var key := name + "=";
    var sep := key + "\"";
    assert '"' !in key by { InConcat('"', name, "="); }
    if |chunks| < 2 {
      assert '"' !in Quoted(chunks) by { QuotedShort(chunks); }
      NoKey(Quoted(chunks), key);
      SecondIs(Quoted(chunks), sep);
    } else {
      QuotedLong(chunks);
      var rest := chunks[1..];
      if !EndsWith(chunks[0], key) {
        SecondLater(chunks[0], Quoted(rest), key);
        AttributeIs(rest, name);
        return;
      }
      SecondHere(chunks[0], Quoted(rest), key);
      if |chunks| == 2 {
        QuotedShort(rest);
        NoKey(rest[0], key);
        FirstIs(rest[0], sep);
        NoQuote(rest[0]);
      } else {
        QuotedLong(rest);
        ValueCut(rest[0], Quoted(rest[1..]), key);
      }
    }
  }

  lemma QuotedShort(chunks: seq<string>)
    requires Unquoted(chunks) && |chunks| < 2
    ensures '"' !in Quoted(chunks) && (|chunks| == 1 ==> Quoted(chunks) == chunks[0])
  {
  }

  lemma QuotedLong(chunks: seq<string>)
    requires |chunks| >= 2
    ensures Quoted(chunks) == chunks[0] + ("\"" + Quoted(chunks[1..]))
  {
  }

  // ----- what comes back -----

  /** What the parser makes of an item printed with these field texts. */
  function ReadBack(e: Item): (r: seq<Item>)
    ensures |r| <= 1
  {
    var version, url := Trim(e.version), Without(e.url, "url=");
    var signature := if EndsWith(e.url, SIGNATURE) then " length=" else Without(e.signature, SIGNATURE);
    if version == "" || url == "" || signature == "" then []
    else [Item(version, url, if EndsWith(e.url, "length=") then 0 else e.length, signature, Trim(e.pubDate))]
  }

  /** Field texts as escaping leaves them. */
  predicate FieldText(s: string) {
    '<' !in s && '>' !in s && '"' !in s
  }

  predicate FieldTexts(e: Item) {
    FieldText(e.version) && FieldText(e.url) && FieldText(e.signature) && FieldText(e.pubDate)
  }

  lemma {:induction false} EscapedIsFieldText(s: string)
    ensures FieldText(Escaped(s))
  {
    hide EscapedChar, FieldText;
    if s == [] {
      NothingIsFieldText();
    } else {
      EscapedIsFieldText(s[1..]);
      EscapedCharIsFieldText(s[0]);
      BothFieldTexts(EscapedChar(s[0]), Escaped(s[1..]));
    }
  }

  lemma NothingIsFieldText()
    ensures FieldText("")
  {
  }

  lemma EscapedCharIsFieldText(c: char)
    ensures FieldText(EscapedChar(c))
  {
  }

  lemma BothFieldTexts(a: string, b: string)
    requires FieldText(a) && FieldText(b)
    ensures FieldText(a + b)
  {
  }

  // ----- the attributes -----

  lemma OtherEnd(s: string, key: string)
    requires |s| < |key| || s == [] || key == [] || s[|s| - 1] != key[|key| - 1]
    requires key != []
    ensures !EndsWith(s, key)
  {
  }

  lemma EndsWithKey(key: string)
    ensures EndsWith(" " + key, key) && Without(" " + key, key) == " "
  {
    assert (" " + key)[1..] == key;
  }

  lemma NotCut(s: string, key: string)
    requires key != [] && |s| < |key|
    ensures !EndsWith(s, key) && Without(s, key) == s
  {
  }

  lemma KeyElsewhere(c: seq<string>, i: nat, key: string)
    requires i + 1 < |c| && !EndsWith(c[i], key)
    ensures ValueOf(c[i..], key) == ValueOf(c[i + 1..], key)
  {
    hide EndsWith;
    assert c[i..][1..] == c[i + 1..];
  }

  lemma KeyHere(c: seq<string>, i: nat, key: string)
    requires i + 2 < |c| && EndsWith(c[i], key)
    ensures ValueOf(c[i..], key) == Some(Without(c[i + 1], key))
  {
    hide EndsWith, Without;
  }

  lemma UrlIs(e: Item)
    ensures ValueOf(Attributes(e), "url=") == Some(Without(e.url, "url="))
  {
    hide EndsWith, Without, ValueOf;
    var c := Attributes(e);
    EndsWithKey("url=");
    assert " " + "url=" == " url=";
    assert c[0..] == c;
    KeyHere(c, 0, "url=");
  }

  lemma LengthIs(e: Item)
    requires !EndsWith(Printed(e.length), "length=")
    ensures ValueOf(Attributes(e), "length=") == Some(if EndsWith(e.url, "length=") then " " else Printed(e.length))
  {
    hide EndsWith, Printed, ValueOf;
    var c := Attributes(e);
    assert c[0..] == c;
    OtherEnd(" url=", "length=");
    EndsWithKey("length=");
    assert " " + "length=" == " length=";
    KeyElsewhere(c, 0, "length=");
    if EndsWith(e.url, "length=") {
      KeyHere(c, 1, "length=");
    } else {
      KeyElsewhere(c, 1, "length=");
      KeyHere(c, 2, "length=");
    }
  }

  lemma SignatureIs(e: Item)
    requires !EndsWith(Printed(e.length), SIGNATURE)
    ensures ValueOf(Attributes(e), SIGNATURE)
         == Some(if EndsWith(e.url, SIGNATURE) then " length=" else Without(e.signature, SIGNATURE))
  {
    hide EndsWith, Printed, Without, ValueOf;
    var c := Attributes(e);
    assert c[0..] == c;
    OtherEnd(" url=", SIGNATURE);
    NotCut(" length=", SIGNATURE);
    KeyElsewhere(c, 0, SIGNATURE);
    if EndsWith(e.url, SIGNATURE) {
      KeyHere(c, 1, SIGNATURE);
    } else {
      KeyElsewhere(c, 1, SIGNATURE);
      SignatureAfterUrl(e);
    }
  }

  lemma SignatureAfterUrl(e: Item)
    requires !EndsWith(Printed(e.length), SIGNATURE)
    ensures ValueOf(Attributes(e)[2..], SIGNATURE) == Some(Without(e.signature, SIGNATURE))
  {
    hide EndsWith, Printed, Without, ValueOf;
    var c := Attributes(e);
    NotCut(" length=", SIGNATURE);
    OtherEnd(" type=", SIGNATURE);
    OtherEnd("application/octet-stream", SIGNATURE);
    EndsWithKey(SIGNATURE);
    KeyElsewhere(c, 2, SIGNATURE);
    KeyElsewhere(c, 3, SIGNATURE);
    KeyElsewhere(c, 4, SIGNATURE);
    KeyElsewhere(c, 5, SIGNATURE);
    KeyHere(c, 6, SIGNATURE);
  }

  // ----- numbers -----

  lemma {:induction false} CountsAllDigits(s: string)
    requires AllDigits(s)
    ensures DigitCount(s) == |s|
  {
    if s != [] { CountsAllDigits(s[1..]); }
  }

  lemma PrintedIsRead(n: int)
    ensures Int(Printed(n)) == n
  {
    hide Decimal, Number, DigitCount;
    var d := Decimal(if n < 0 then -n else n);
    DecimalParses(if n < 0 then -n else n);
    CountsAllDigits(d);
    assert d[..|d|] == d;
    if n < 0 { assert ("-" + d)[1..] == d; }
  }

  lemma PrintedEndsInDigit(n: int, key: string)
    requires key != [] && key[|key| - 1] == '='
    ensures !EndsWith(Printed(n), key)
    ensures FieldText(Printed(n))
  {
    var d := Decimal(if n < 0 then -n else n);
    DecimalParses(if n < 0 then -n else n);
    OtherEnd(Printed(n), key);
  }

  // ----- the tags of an item -----

  lemma DifferAt(a: string, b: string, k: nat)
    requires k < |a| && k < |b| && a[k] != b[k]
    ensures Differ(a, b)
  {
  }

  lemma NamesDiffer(a: string, b: string, k: nat)
    requires k < |a| && k < |b| && a[k] != b[k]
    ensures Differ(Open(a), Open(b)) && Differ(Close(a), Close(b))
  {
    DifferAt(Open(a), Open(b), k + 1);
    DifferAt(Close(a), Close(b), k + 2);
  }

  lemma KindsDiffer(a: string, b: string)
    requires a != [] && a[0] != '/'
    ensures Differ(Open(a), Close(b)) && Differ(Close(b), Open(a))
  {
    DifferAt(Open(a), Close(b), 1);
    DifferAt(Close(b), Open(a), 1);
  }

  lemma EnclosureDiffers(a: string)
    requires a != [] && a[0] != 'e' && a[0] != '/'
    ensures Differ(Open(a), "<enclosure") && Differ(Close(a), "<enclosure")
    ensures Differ("<enclosure", Open(a)) && Differ("<enclosure", Close(a))
  {
    DifferAt(Open(a), "<enclosure", 1);
    DifferAt(Close(a), "<enclosure", 1);
    DifferAt("<enclosure", Open(a), 1);
    DifferAt("<enclosure", Close(a), 1);
  }

  predicate Word(name: string) {
    '<' !in name && name != [] && name[0] in "tps"
  }

  lemma Words()
    ensures Word("title") && Word("pubDate") && Word("sparkle:version")
    ensures Word("sparkle:shortVersionString") && Word("sparkle:minimumSystemVersion")
  {
  }

  lemma PlainTags(name: string, text: string)
    requires Word(name) && '<' !in text
    ensures Plain(Tag(Open(name), text)) && Plain(Tag(Close(name), INDENT))
  {
    assert Open(name)[1..] == name + ">";
    assert Close(name)[1..] == "/" + (name + ">");
  }

  /** What every element of an item shares: it is plain and none of the tags sought. */
  lemma ElementFacts(name: string, text: string)
    requires Word(name) && '<' !in text
    ensures Plain(Tag(Open(name), text)) && Plain(Tag(Close(name), INDENT))
    ensures Differ(Open(name), Open("item")) && Differ(Close(name), Open("item"))
    ensures Differ(Open(name), Close("item")) && Differ(Close(name), Close("item"))
    ensures Differ(Open(name), "<enclosure") && Differ(Close(name), "<enclosure")
    ensures Differ(Close(name), Open("pubDate")) && Differ(Close(name), Open("sparkle:shortVersionString"))
  {
    hide Plain, Differ, Open, Close;
    PlainTags(name, text);
    NamesDiffer(name, "item", 0);
    KindsDiffer("item", name);
    KindsDiffer(name, "item");
    KindsDiffer("pubDate", name);
    KindsDiffer("sparkle:shortVersionString", name);
    EnclosureDiffers(name);
  }

  lemma LiteralsLack(c: char)
    requires c in "<>\""
    ensures c !in " url=" && c !in " length=" && c !in " type=" && c !in "application/octet-stream"
    ensures c !in " sparkle:os=" && c !in "windows" && c !in " /"
  {
  }

  lemma SignatureLacks(c: char)
    requires c in "<>\""
    ensures c !in " " + SIGNATURE
  {
    InConcat(c, " ", SIGNATURE);
  }

  lemma AttributesLack(e: Item, c: char)
    requires FieldTexts(e) && FieldText(Printed(e.length)) && c in "<>\""
    ensures forall i :: 0 <= i < |Attributes(e)| ==> c !in Attributes(e)[i]
  {
    hide Printed;
    LiteralsLack(c);
    SignatureLacks(c);
  }

  lemma {:induction false} QuotedLacks(chunks: seq<string>, c: char)
    requires c != '"' && forall i :: 0 <= i < |chunks| ==> c !in chunks[i]
    ensures c !in Quoted(chunks)
  {
    if |chunks| > 1 {
      QuotedLacks(chunks[1..], c);
      InConcat(c, chunks[0], "\"" + Quoted(chunks[1..]));
    }
  }

  lemma AttributeFacts(e: Item)
    requires FieldTexts(e)
    ensures Unquoted(Attributes(e)) && '<' !in Quoted(Attributes(e)) && '>' !in Quoted(Attributes(e))
  {
    hide Quoted, Printed, Attributes, FieldTexts;
    PrintedEndsInDigit(e.length, SIGNATURE);
    AttributesLack(e, '<');
    AttributesLack(e, '>');
    AttributesLack(e, '"');
    QuotedLacks(Attributes(e), '<');
    QuotedLacks(Attributes(e), '>');
  }

  lemma EnclosureFacts(e: Item)
    requires FieldTexts(e)
    ensures Plain(EnclosureTag(e)) && '>' !in Quoted(Attributes(e)) && Unquoted(Attributes(e))
    ensures Differ("<enclosure", Open("item")) && Differ("<enclosure", Close("item"))
  {
    hide Quoted, Differ, Attributes, FieldTexts, Unquoted;
    AttributeFacts(e);
    InConcat('<', Quoted(Attributes(e)), ">" + "\n    ");
    EnclosureDiffers("item");
  }

  lemma EnclosureName(e: Item)
    ensures EnclosureTag(e).name == "<enclosure"
  {
  }

  predicate DifferUpTo(tags: seq<Tag>, n: nat, sep: string)
    requires n <= |tags|
  {
    forall i :: 0 <= i < n ==> Differ(tags[i].name, sep)
  }

  /** All the tags of an item are plain, and no tags of a feed. */
  lemma ItemTagsArePlain(e: Item)
    requires FieldTexts(e)
    ensures AllPlain(ItemTags(e))
  {
    hide Plain, Open, Close, EnclosureTag, Word;
    Words();
    PlainTags("title", e.version);
    PlainTags("pubDate", e.pubDate);
    PlainTags("sparkle:version", e.version);
    PlainTags("sparkle:shortVersionString", e.version);
    PlainTags("sparkle:minimumSystemVersion", "10.0.17763");
    EnclosureFacts(e);
  }

  lemma ItemTagsDiffer(e: Item, sep: string)
    requires FieldTexts(e) && sep in {Open("item"), Close("item")}
    ensures AllDiffer(ItemTags(e), sep)
  {
    hide Plain, Differ, Open, Close, EnclosureTag, Word;
    Words();
    ElementFacts("title", "");
    ElementFacts("pubDate", "");
    ElementFacts("sparkle:version", "");
    ElementFacts("sparkle:shortVersionString", "");
    ElementFacts("sparkle:minimumSystemVersion", "");
    EnclosureFacts(e);
    EnclosureName(e);
  }

  lemma BeforeDate(e: Item)
    ensures DifferUpTo(ItemTags(e), 2, Open("pubDate"))
  {
    hide Plain, Differ, Open, Close, EnclosureTag, Word;
    Words();
    NamesDiffer("title", "pubDate", 0);
    ElementFacts("title", "");
  }

  lemma BeforeVersion(e: Item)
    ensures DifferUpTo(ItemTags(e), 6, Open("sparkle:shortVersionString"))
  {
    hide Plain, Differ, Open, Close, EnclosureTag, Word;
    Words();
    NamesDiffer("title", "sparkle:shortVersionString", 0);
    NamesDiffer("pubDate", "sparkle:shortVersionString", 0);
    NamesDiffer("sparkle:version", "sparkle:shortVersionString", 8);
    ElementFacts("title", "");
    ElementFacts("pubDate", "");
    ElementFacts("sparkle:version", "");
  }

  lemma BeforeEnclosure(e: Item)
    ensures DifferUpTo(ItemTags(e), 10, "<enclosure")
  {
    hide Plain, Differ, Open, Close, EnclosureTag, Word;
    Words();
    ElementFacts("title", "");
    ElementFacts("pubDate", "");
    ElementFacts("sparkle:version", "");
    ElementFacts("sparkle:shortVersionString", "");
    ElementFacts("sparkle:minimumSystemVersion", "");
  }

  // ----- parsing a printed item -----

  lemma {:induction false} FlatConcat(a: seq<Tag>, b: seq<Tag>)
    ensures Flat(a + b) == Flat(a) + Flat(b)
  {
    if a == [] {
      assert a + b == b;
      NothingBefore(Flat(b));
    } else {
      var t := a[0];
      assert (a + b)[0] == t && (a + b)[1..] == a[1..] + b;
      FlatConcat(a[1..], b);
      Regrouped(t.text, Flat(a[1..]), Flat(b));
      Regrouped(t.name, t.text + Flat(a[1..]), Flat(b));
    }
  }

  lemma FlatAt(tags: seq<Tag>, i: nat)
    requires i < |tags|
    ensures Flat(tags) == Flat(tags[..i]) + (tags[i].name + (tags[i].text + Flat(tags[i + 1..])))
  {
    hide Flat;
    FlatConcat(tags[..i], tags[i..]);
    assert tags == tags[..i] + tags[i..];
    FlatFirst(tags[i..]);
    assert tags[i..][1..] == tags[i + 1..];
  }

  lemma FlatFirst(tags: seq<Tag>)
    requires tags != []
    ensures Flat(tags) == tags[0].name + (tags[0].text + Flat(tags[1..]))
  {
  }

  lemma FlatStart(tags: seq<Tag>)
    requires forall i :: 0 <= i < |tags| ==> tags[i].name != [] && tags[i].name[0] == '<'
    ensures Flat(tags) == [] || Flat(tags)[0] == '<'
  {
  }

  lemma PrefixPlain(tags: seq<Tag>, i: nat, sep: string)
    requires i <= |tags| && AllPlain(tags) && DifferUpTo(tags, i, sep)
    ensures AllPlain(tags[..i]) && AllDiffer(tags[..i], sep)
  {
    hide Plain, Differ;
  }

  /** Text before a tag stays the same when what follows is cut at some other tag. */
  lemma CutTwice(text: string, u: string, sep: string)
    requires '<' !in text && (u == [] || u[0] == '<') && sep != [] && sep[0] == '<'
    ensures First(First(text + u, sep), "<") == text
  {
    hide Find, First;
    FirstIs(text + u, sep);
    FindSkips(text, u, sep);
    UpToTag(text, u);
    if Find(u, sep).Some? {
      var k := Find(u, sep).value;
      assert (text + u)[..|text| + k] == text + u[..k];
      UpToTag(text, u[..k]);
    }
  }

  ghost predicate Tagged(tags: seq<Tag>) {
    forall i :: 0 <= i < |tags| ==> tags[i].name != [] && tags[i].name[0] == '<'
  }

  /** The text of the first element with this tag. */
  lemma ElementIs(x: string, tags: seq<Tag>, i: nat, tag: string)
    requires '<' !in x && AllPlain(tags) && Tagged(tags) && i < |tags|
    requires DifferUpTo(tags, i, tag) && tags[i].name == tag && tag != [] && tag[0] == '<'
    ensures Element(x + Flat(tags), tag) == Some(Trim(tags[i].text))
  {
    hide First, Second, Trim, Differ;
    var text, u := tags[i].text, Flat(tags[i + 1..]);
    PrefixPlain(tags, i, tag);
    FlatAt(tags, i);
    CutAtTag(x, tags[..i], tag, text + u);
    FlatStart(tags[i + 1..]);
    CutTwice(text, u, tag);
  }

  lemma ItemTagsAreTagged(e: Item)
    ensures Tagged(ItemTags(e))
  {
    hide EnclosureTag;
    EnclosureName(e);
  }

  lemma FieldsAreRead(e: Item)
    requires FieldTexts(e)
    ensures var item := INDENT + Flat(ItemTags(e));
      && Element(item, Open("pubDate")) == Some(Trim(e.pubDate))
      && Element(item, Open("sparkle:shortVersionString")) == Some(Trim(e.version))
  {
    hide Flat, Element, Trim, Open, Close, AllPlain, DifferUpTo, Tagged, EnclosureTag;
    ItemTagsArePlain(e);
    ItemTagsAreTagged(e);
    BeforeDate(e);
    BeforeVersion(e);
    OpenStart("pubDate");
    OpenStart("sparkle:shortVersionString");
    ElementIs(INDENT, ItemTags(e), 2, Open("pubDate"));
    ElementIs(INDENT, ItemTags(e), 6, Open("sparkle:shortVersionString"));
  }

  lemma OpenStart(name: string)
    ensures Open(name) != [] && Open(name)[0] == '<' && Close(name) != [] && Close(name)[0] == '<'
  {
  }

  lemma EnclosureIsRead(e: Item)
    requires FieldTexts(e)
    ensures Enclosure(INDENT + Flat(ItemTags(e))) == Quoted(Attributes(e))
  {
    hide Flat, First, Second, Open, Close, AllPlain, AllDiffer, DifferUpTo, Quoted, Attributes, Printed, Differ;
    hide Plain, EnclosureTag;
    var tags := ItemTags(e);
    var t := EnclosureTag(e).text;
    ItemTagsArePlain(e);
    BeforeEnclosure(e);
    PrefixPlain(tags, 10, "<enclosure");
    FlatAt(tags, 10);
    assert tags[11..] == [];
    FlatNothing();
    assert t + [] == t;
    EnclosureName(e);
    CutAtTag(INDENT, tags[..10], "<enclosure", t);
    EnclosureText(e);
  }

  lemma EnclosureText(e: Item)
    requires FieldTexts(e)
    ensures var t := EnclosureTag(e).text; First(First(t, "<enclosure"), ">") == Quoted(Attributes(e))
  {
    hide First, Quoted, Attributes;
    EnclosureFacts(e);
    NoTagInText(EnclosureTag(e).text, "<enclosure");
    CutAtAngle(Quoted(Attributes(e)), "\n    ");
  }

  lemma FlatNothing()
    ensures Flat([]) == []
  {
  }

  lemma NoTagInText(t: string, sep: string)
    requires '<' !in t && sep != [] && sep[0] == '<'
    ensures First(t, sep) == t
  {
    hide Find, First;
    assert t + "" == t;
    FindSkips(t, "", sep);
    NothingThere(sep);
    FirstIs(t, sep);
  }

  lemma CutAtAngle(a: string, rest: string)
    requires '>' !in a
    ensures First(a + (">" + rest), ">") == a
  {
    hide Find, First;
    FindSkips(a, ">" + rest, ">");
    FoundHere(">", rest);
    FirstIs(a + (">" + rest), ">");
  }

  /** A printed item reads back as `ReadBack` says, whatever follows its closing tag. */
  lemma ChunkIsRead(e: Item, tail: string)
    requires FieldTexts(e)
    ensures ParsedChunk(INDENT + (Flat(ItemTags(e)) + (Close("item") + tail))) == ReadBack(e)
  {
    hide Flat, First, Element, Enclosure, Attribute, Open, Close, AllPlain, AllDiffer, Quoted, Trim, Without, EndsWith;
    hide Attributes, Printed, ValueOf, Int;
    ItemTagsArePlain(e);
    ItemTagsDiffer(e, Close("item"));
    OpenStart("item");
    CutAtTag(INDENT, ItemTags(e), Close("item"), tail);
    FieldsAreRead(e);
    EnclosureIsRead(e);
    EnclosureFacts(e);
    AttributesAreRead(e);
  }

  lemma AttributesAreRead(e: Item)
    requires Unquoted(Attributes(e))
    ensures var enclosure := Quoted(Attributes(e));
      && Attribute(enclosure, "url") == Some(Without(e.url, "url="))
      && Attribute(enclosure, "sparkle:edSignature")
         == Some(if EndsWith(e.url, SIGNATURE) then " length=" else Without(e.signature, SIGNATURE))
      && Attribute(enclosure, "length").Some?
      && Int(Attribute(enclosure, "length").value) == if EndsWith(e.url, "length=") then 0 else e.length
  {
    hide Quoted, Attribute, ValueOf, Without, EndsWith, Attributes, Printed, Int;
    PrintedEndsInDigit(e.length, "length=");
    PrintedEndsInDigit(e.length, SIGNATURE);
    PrintedIsRead(e.length);
    BlankIsZero();
    KeyNames();
    AttributeIs(Attributes(e), "url");
    AttributeIs(Attributes(e), "length");
    AttributeIs(Attributes(e), "sparkle:edSignature");
    UrlIs(e);
    LengthIs(e);
    SignatureIs(e);
  }

  lemma KeyNames()
    ensures "url" + "=" == "url=" && "length" + "=" == "length=" && "sparkle:edSignature" + "=" == SIGNATURE
  {
  }

  lemma BlankIsZero()
    ensures Int(" ") == 0
  {
    assert " "[1..] == "";
    assert TrimStart(" ") == "";
    assert ""[..DigitCount("")] == "";
  }

  // ----- parsing a printed feed -----

  /** No item starts in this text, nor across its end. */
  ghost predicate Passes(p: string) {
    forall u: string :: PassesBefore(p, u)
  }

  predicate PassesBefore(p: string, u: string) {
    Find(p + u, Open("item")) == Later(Find(u, Open("item")), |p|)
  }

  lemma TextPasses(t: string)
    requires '<' !in t
    ensures Passes(t)
  {
    hide Find;
    forall u: string ensures PassesBefore(t, u) {
      FindSkips(t, u, Open("item"));
    }
  }

  lemma FlatPasses(tags: seq<Tag>)
    requires AllPlain(tags) && AllDiffer(tags, Open("item"))
    ensures Passes(Flat(tags))
  {
    hide Find, Flat, AllPlain, AllDiffer;
    OpenStart("item");
    hide Open;
    forall u: string ensures PassesBefore(Flat(tags), u) {
      SkipTags(tags, u, Open("item"));
    }
  }

  lemma BothPass(a: string, b: string)
    requires Passes(a) && Passes(b)
    ensures Passes(a + b)
  {
    hide PassesBefore;
    forall u: string ensures PassesBefore(a + b, u) {
      assert PassesBefore(a, b + u) && PassesBefore(b, u);
      BothPassBefore(a, b, u);
    }
  }

  lemma BothPassBefore(a: string, b: string, u: string)
    requires PassesBefore(a, b + u) && PassesBefore(b, u)
    ensures PassesBefore(a + b, u)
  {
    hide Find, Open;
    Regrouped(a, b, u);
  }

  /** Cutting after text in which no item starts. */
  lemma CutAtItem(p: string, t: string)
    requires Passes(p)
    ensures Pieces(p + (Open("item") + t), Open("item")) == [p] + Pieces(t, Open("item"))
  {
    hide Find, Pieces, First, Second, Open, Passes;
    OpenStart("item");
    ItemFound(p, t);
    JustAfter(p, Open("item"), t);
    CutThere(p + (Open("item") + t), Open("item"), p, t);
  }

  lemma JustAfter(p: string, sep: string, t: string)
    ensures var s := p + (sep + t); s[..|p|] == p && s[|p| + |sep|..] == t
  {
  }

  lemma ItemFound(p: string, t: string)
    requires Passes(p)
    ensures Find(p + (Open("item") + t), Open("item")) == Some(|p|)
  {
    hide Find, Open;
    assert PassesBefore(p, Open("item") + t);
    FoundHere(Open("item"), t);
  }

  lemma NoMoreItems(p: string)
    requires Passes(p)
    ensures Pieces(p, Open("item")) == [p]
  {
    hide Find, Pieces, Open;
    OpenStart("item");
    NothingThere(Open("item"));
    assert PassesBefore(p, "");
    assert p + "" == p;
    PiecesIs(p, Open("item"));
  }

  lemma TailPasses()
    ensures Passes("\n  " + Flat(TailTags()))
  {
    hide Plain, Differ, Passes, Flat, Open, Close;
    KindsDiffer("item", "channel");
    KindsDiffer("item", "rss");
    PlainClose("channel");
    PlainClose("rss");
    FlatPasses(TailTags());
    TextPasses("\n  ");
    BothPass("\n  ", Flat(TailTags()));
  }

  lemma PlainClose(name: string)
    requires '<' !in name
    ensures Plain(Tag(Close(name), "\n"))
  {
    assert Close(name)[1..] == "/" + (name + ">");
  }

  function Ending(): string {
    "\n  " + Flat(TailTags())
  }

  /** What follows an item's closing tag up to the next item, or to the end. */
  function Between(more: bool): string {
    if more then "\n" + "    " else Ending()
  }

  function Chunk(e: Item, more: bool): string {
    INDENT + (Flat(ItemTags(e)) + (Close("item") + Between(more)))
  }

  function Chunks(items: seq<Item>): seq<string> {
    if items == [] then [] else [Chunk(EscapedItem(items[0]), |items| > 1)] + Chunks(items[1..])
  }

  lemma EscapedItemTexts(item: Item)
    ensures FieldTexts(EscapedItem(item))
  {
    hide Escaped, FieldText;
    EscapedIsFieldText(item.version);
    EscapedIsFieldText(item.url);
    EscapedIsFieldText(item.signature);
    EscapedIsFieldText(item.pubDate);
  }

  lemma ItemPasses(e: Item)
    requires FieldTexts(e)
    ensures Passes(INDENT + (Flat(ItemTags(e)) + Close("item")))
  {
    hide Passes, Flat, Open, Close, AllPlain, AllDiffer, Plain, Differ;
    ItemTagsArePlain(e);
    ItemTagsDiffer(e, Open("item"));
    FlatPasses(ItemTags(e));
    TextPasses(INDENT);
    ClosePasses();
    BothPass(Flat(ItemTags(e)), Close("item"));
    BothPass(INDENT, Flat(ItemTags(e)) + Close("item"));
  }

  lemma ClosePasses()
    ensures Passes(Close("item"))
  {
    hide Passes, Flat, Open, Plain, Differ;
    var tags := [Tag(Close("item"), "")];
    assert Close("item")[1..] == "/" + ("item" + ">");
    assert Plain(tags[0]) by { PlainCloseEmpty(); }
    KindsDiffer("item", "item");
    FlatPasses(tags);
    OneTag(tags[0]);
  }

  lemma PlainCloseEmpty()
    ensures Plain(Tag(Close("item"), ""))
  {
    assert Close("item")[1..] == "/" + ("item" + ">");
  }

  lemma OneTag(t: Tag)
    ensures Flat([t]) == t.name + t.text && (t.text == "" ==> Flat([t]) == t.name)
  {
    assert [t][1..] == [];
  }

  /** The whole text after `p`, cut at the items. */
  lemma {:induction false} FeedPieces(p: string, items: seq<Item>)
    requires Passes(p)
    ensures Pieces(p + (Entries(items) + Ending()), Open("item"))
         == [p + (if items == [] then Ending() else "    ")] + Chunks(items)
    decreases |items|
  {
    hide Passes, Flat, Open, Close, Pieces, Ending, EscapedItem, ItemTags;
    if items == [] {
      NothingBefore(Ending());
      EndingPasses();
      BothPass(p, Ending());
      NoMoreItems(p + Ending());
    } else {
      var e := EscapedItem(items[0]);
      EscapedItemTexts(items[0]);
      var body := INDENT + (Flat(ItemTags(e)) + Close("item"));
      ItemPasses(e);
      TextPasses("    ");
      BothPass(p, "    ");
      FeedText(p, items);
      CutAtItem(p + "    ", body + After(items));
      AfterPieces(body, items);
    }
  }

  lemma EndingPasses()
    ensures Passes(Ending())
  {
    hide Passes, Flat, TailTags;
    TailPasses();
  }

  /** What follows the first item's closing tag. */
  function After(items: seq<Item>): string
    requires items != []
  {
    if |items| == 1 then Ending() else "\n" + (Entries(items[1..]) + Ending())
  }

  lemma FeedText(p: string, items: seq<Item>)
    requires items != []
    ensures var e := EscapedItem(items[0]);
      p + (Entries(items) + Ending())
      == (p + "    ") + (Open("item") + ((INDENT + (Flat(ItemTags(e)) + Close("item"))) + After(items)))
  {
    hide Flat, Open, Close, Ending, EscapedItem, ItemTags;
    var e := EscapedItem(items[0]);
    Regrouped(INDENT, Flat(ItemTags(e)), Close("item"));
    var b := INDENT + (Flat(ItemTags(e)) + Close("item"));
    var o := Open("item");
    if |items| == 1 {
      FourParts("    ", o, b, Ending());
      Regrouped(p, "    ", o + (b + Ending()));
    } else {
      var more := "\n" + Entries(items[1..]);
      FourParts("    ", o, b, more + Ending());
      Regrouped("    " + (o + b), more, Ending());
      Regrouped("\n", Entries(items[1..]), Ending());
      Regrouped(p, "    ", o + (b + (more + Ending())));
    }
  }

  lemma FourParts(a: string, b: string, c: string, d: string)
    ensures (a + (b + c)) + d == a + (b + (c + d))
  {
    Regrouped(a, b + c, d);
    Regrouped(b, c, d);
  }

  lemma {:induction false} AfterPieces(body: string, items: seq<Item>)
    requires items != [] && Passes(body)
    requires body == INDENT + (Flat(ItemTags(EscapedItem(items[0]))) + Close("item"))
    ensures Pieces(body + After(items), Open("item")) == Chunks(items)
    decreases |items|, 0
  {
    hide Passes, Flat, Open, Close, Pieces, Ending, EscapedItem, ItemTags;
    var e := EscapedItem(items[0]);
    if |items| == 1 {
      EndingPasses();
      BothPass(body, Ending());
      NoMoreItems(body + Ending());
      ChunkIs(e, false);
      assert items[1..] == [];
    } else {
      TextPasses("\n");
      BothPass(body, "\n");
      Regrouped(body, "\n", Entries(items[1..]) + Ending());
      FeedPieces(body + "\n", items[1..]);
      Regrouped(body, "\n", "    ");
      ChunkIs(e, true);
    }
  }

  lemma ChunkIs(e: Item, more: bool)
    ensures Chunk(e, more) == (INDENT + (Flat(ItemTags(e)) + Close("item"))) + Between(more)
  {
    hide Flat, ItemTags, Close, Between;
    FourParts(INDENT, Flat(ItemTags(e)), Close("item"), Between(more));
  }

  lemma HeadPasses(arch: Architecture)
    ensures Passes(Flat(HeadTags(arch)))
  {
    hide Passes, Flat, Differ, Open, Close, Plain;
    Words();
    PlainHead(arch);
    DeclarationDiffers();
    NamesDiffer("channel", "item", 0);
    NamesDiffer("title", "item", 0);
    KindsDiffer("item", "title");
    FlatPasses(HeadTags(arch));
  }

  lemma DeclarationDiffers()
    ensures Differ("<?xml", Open("item")) && Differ("<rss", Open("item"))
  {
    DifferAt("<?xml", Open("item"), 1);
    DifferAt("<rss", Open("item"), 1);
  }

  lemma PlainHead(arch: Architecture)
    ensures AllPlain(HeadTags(arch))
  {
    hide Plain, Open, Close;
    PlainDeclaration();
    PlainRss();
    PlainChannel(arch);
  }

  lemma PlainDeclaration()
    ensures Plain(Tag("<?xml", " version=\"1.0\" encoding=\"utf-8\"?>\n"))
  {
  }

  lemma PlainRss()
    ensures Plain(Tag("<rss", " xmlns:sparkle=\"" + (NAMESPACE + "\" version=\"2.0\">\n  ")))
  {
    PlainNamespace();
    InConcat('<', NAMESPACE, "\" version=\"2.0\">\n  ");
    InConcat('<', " xmlns:sparkle=\"", NAMESPACE + "\" version=\"2.0\">\n  ");
  }

  lemma PlainNamespace()
    ensures '<' !in NAMESPACE
  {
    InConcat('<', "http://www.andymatuschak.org", "/xml-namespaces/sparkle");
  }

  lemma PlainChannel(arch: Architecture)
    ensures Plain(Tag(Open("channel"), "\n    ")) && Plain(Tag(Close("title"), "\n"))
    ensures Plain(Tag(Open("title"), "Kerenzikov (Windows " + Name(arch) + ")"))
  {
    hide Name;
    NameIsPlain(arch);
    InConcat('<', "Kerenzikov (Windows ", Name(arch));
    InConcat('<', "Kerenzikov (Windows " + Name(arch), ")");
    assert Open("channel")[1..] == "channel" + ">";
    assert Close("title")[1..] == "/" + ("title" + ">");
    assert Open("title")[1..] == "title" + ">";
  }

  lemma NameIsPlain(arch: Architecture)
    ensures '<' !in Name(arch)
  {
  }

  lemma {:induction false} ChunksAreRead(items: seq<Item>)
    ensures ParsedChunks(Chunks(items)) == AllReadBack(items)
  {
    hide ParsedChunk, Chunk, ReadBack, EscapedItem;
    if items != [] {
      EscapedItemTexts(items[0]);
      ChunkReadBack(EscapedItem(items[0]), |items| > 1);
      ChunksAreRead(items[1..]);
      assert Chunks(items)[1..] == Chunks(items[1..]);
    }
  }

  lemma ChunkReadBack(e: Item, more: bool)
    requires FieldTexts(e)
    ensures ParsedChunk(Chunk(e, more)) == ReadBack(e)
  {
    hide ParsedChunk, Flat, ItemTags, ReadBack, FieldTexts, Close, Between;
    ChunkIsRead(e, Between(more));
  }

  function AllReadBack(items: seq<Item>): seq<Item> {
    if items == [] then [] else ReadBack(EscapedItem(items[0])) + AllReadBack(items[1..])
  }

  /** Whatever the items, parsing the printed feed reads each back from its escaped texts. */
  lemma FeedReadsBack(arch: Architecture, items: seq<Item>)
    ensures Parsed(Rendered(arch, items)) == AllReadBack(items)
  {
    hide Flat, Passes, Pieces, Open, Close, ParsedChunks, Chunks, AllReadBack, HeadTags, Entries, TailTags;
    var head := Flat(HeadTags(arch));
    HeadPasses(arch);
    FeedPieces(head, items);
    ChunksAreRead(items);
  }

  // ----- when a feed survives -----

  predicate NoSpecials(s: string) {
    forall i :: 0 <= i < |s| ==> !Special(s[i])
  }

  /** The items that come back as they were. */
  predicate Survives(item: Item) {
    && NoSpecials(item.version) && NoSpecials(item.url) && NoSpecials(item.signature) && NoSpecials(item.pubDate)
    && item.version != "" && Trim(item.version) == item.version && Trim(item.pubDate) == item.pubDate
    && item.url != "" && !EndsWith(item.url, "url=") && (EndsWith(item.url, "length=") ==> item.length == 0)
    && item.signature != ""
    && (if EndsWith(item.url, SIGNATURE) then item.signature == " length=" else !EndsWith(item.signature, SIGNATURE))
  }

  /** Semicolons: escaping adds one for each special character, trimming and cutting keys
      removes none. */
  function Semis(s: string): nat {
    if s == [] then 0 else (if s[0] == ';' then 1 else 0) + Semis(s[1..])
  }

  lemma {:induction false} SemisConcat(a: string, b: string)
    ensures Semis(a + b) == Semis(a) + Semis(b)
  {
    if a == [] {
      NothingBefore(b);
    } else {
      TailOfConcat(a, b);
      SemisConcat(a[1..], b);
    }
  }

  lemma EscapedCharSemis(c: char)
    ensures Semis(EscapedChar(c)) == Semis([c]) + (if Special(c) then 1 else 0)
    ensures !Special(c) ==> EscapedChar(c) == [c]
  {
    assert [c][1..] == "";
    if Special(c) {
      SemisConcat("&", Entity(c) + ";");
      SemisConcat(Entity(c), ";");
      NoSemis("&");
      NoSemis(Entity(c));
      assert Semis(";") == 1 by { assert ";"[1..] == ""; }
    }
  }

  lemma {:induction false} NoSemis(s: string)
    requires ';' !in s
    ensures Semis(s) == 0
  {
    if s != [] { NoSemis(s[1..]); }
  }

  /** Escaping leaves a text alone exactly when it has no special character; any other has
      more semicolons afterwards. */
  lemma {:induction false} EscapedSemis(s: string)
    ensures NoSpecials(s) ==> Escaped(s) == s
    ensures !NoSpecials(s) ==> Semis(Escaped(s)) > Semis(s)
    ensures Semis(Escaped(s)) >= Semis(s)
  {
    hide EscapedChar, Special;
    if s != [] {
      var t := s[1..];
      EscapedCharSemis(s[0]);
      EscapedSemis(t);
      SemisConcat(EscapedChar(s[0]), Escaped(t));
      SemisConcat([s[0]], t);
      assert s == [s[0]] + t;
    }
  }

  lemma {:induction false} SemisTrimStart(s: string)
    ensures Semis(TrimStart(s)) == Semis(s)
  {
    if s != [] && JsSpace(s[0]) { SemisTrimStart(s[1..]); }
  }

  lemma {:induction false} SemisTrimEnd(s: string)
    ensures Semis(TrimEnd(s)) == Semis(s)
  {
    if s != [] && JsSpace(s[|s| - 1]) {
      var t := s[..|s| - 1];
      SemisTrimEnd(t);
      SemisConcat(t, [s[|s| - 1]]);
      assert s == t + [s[|s| - 1]];
      NoSemis([s[|s| - 1]]);
    }
  }

  lemma SemisWithout(s: string, key: string)
    requires ';' !in key
    ensures Semis(Without(s, key)) == Semis(s)
  {
    if EndsWith(s, key) {
      SemisConcat(s[..|s| - |key|], key);
      assert s == s[..|s| - |key|] + key;
      NoSemis(key);
    }
  }

  /** A text that comes back as it was, trimmed or cut, had no special character. */
  lemma TrimmedBack(s: string)
    ensures Trim(Escaped(s)) == s <==> NoSpecials(s) && Trim(s) == s
  {
    hide Escaped, TrimStart, TrimEnd, NoSpecials;
    EscapedSemis(s);
    SemisTrimStart(Escaped(s));
    SemisTrimEnd(TrimStart(Escaped(s)));
  }

  lemma CutBack(s: string, key: string)
    requires ';' !in key && key != []
    ensures Without(Escaped(s), key) == s <==> NoSpecials(s) && !EndsWith(s, key)
  {
    hide Escaped, NoSpecials;
    EscapedSemis(s);
    SemisWithout(Escaped(s), key);
  }

  lemma SurvivorsEnds(item: Item)
    requires NoSpecials(item.url)
    ensures Escaped(item.url) == item.url
  {
    EscapedSemis(item.url);
  }

  lemma KeysHaveNoSemis()
    ensures ';' !in "url=" && ';' !in SIGNATURE
    ensures NoSpecials(" length=") && !EndsWith(" length=", SIGNATURE) && " length=" != ""
  {
  }

  /** One item comes back as it was exactly when it survives: no special characters in its
      texts, the version trimmed and not empty, the date trimmed, URL and signature not empty,
      and nothing for the parser to cut. It cuts `url=` off a URL always, `length=` unless the
      length is 0, and `sparkle:edSignature=` off a signature, or off a URL unless the
      signature is ` length=`. */
  lemma ReadBackIff(item: Item)
    ensures ReadBack(EscapedItem(item)) == [item] <==> Survives(item)
  {
    hide Escaped, NoSpecials, Trim, EndsWith, Without;
    TrimmedBack(item.version);
    TrimmedBack(item.pubDate);
    KeysHaveNoSemis();
    CutBack(item.url, "url=");
    CutBack(item.signature, SIGNATURE);
    if NoSpecials(item.url) { SurvivorsEnds(item); }
  }

  predicate AllSurvive(items: seq<Item>) {
    forall i :: 0 <= i < |items| ==> Survives(items[i])
  }

  lemma {:induction false} ReadBackNoLonger(items: seq<Item>)
    ensures |AllReadBack(items)| <= |items|
  {
    hide ReadBack, EscapedItem;
    if items != [] { ReadBackNoLonger(items[1..]); }
  }

  lemma {:induction false} AllReadBackIff(items: seq<Item>)
    ensures AllReadBack(items) == items <==> AllSurvive(items)
  {
    hide ReadBack, EscapedItem, Survives;
    if items != [] {
      var first, rest := items[0], items[1..];
      var r := ReadBack(EscapedItem(first));
      ReadBackIff(first);
      AllReadBackIff(rest);
      ReadBackNoLonger(rest);
      assert items == [first] + rest;
      assert AllSurvive(items) <==> Survives(first) && AllSurvive(rest);
      assert AllReadBack(items) == r + AllReadBack(rest);
      if AllReadBack(items) == items {
        assert |r| == 1;
        assert r == [items[0]];
        assert (r + AllReadBack(rest))[1..] == AllReadBack(rest);
      }
    }
  }

  /** A feed parses to the items it was printed from exactly when each of them survives. */
  lemma FeedSurvivesIff(arch: Architecture, items: seq<Item>)
    ensures Parsed(Rendered(arch, items)) == items <==> AllSurvive(items)
  {
    hide Rendered, Parsed, AllReadBack, AllSurvive;
    FeedReadsBack(arch, items);
    AllReadBackIff(items);
  }

  /** An address with an ampersand does not come back. */
  lemma AmpersandStaysEscaped(arch: Architecture, item: Item)
    requires item.url == "setup?os=win&arch=x64"
    ensures Parsed(Rendered(arch, [item])) != [item]
  {
    hide Rendered, Parsed;
    FeedSurvivesIff(arch, [item]);
    assert Special(item.url[12]);
    assert !Survives([item][0]);
  }
}
