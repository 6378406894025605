/** What a printed appcast says to a reader of XML: its elements, and the texts in them once
    their entities are read (section 4.6 of XML 1.0). */
module AppcastPrinted {
  import opened Options
  import opened Text
  import opened AppcastMerge
  import opened Appcast

  // ----- entities -----

  /** The five predefined entities; any other text stands for itself. */
  function Unescaped(s: string): string
    decreases |s|
  {
    if s == [] then []
    else if StartsWith(s, "&amp;") then "&" + Unescaped(s[5..])
    else if StartsWith(s, "&lt;") then "<" + Unescaped(s[4..])
    else if StartsWith(s, "&gt;") then ">" + Unescaped(s[4..])
    else if StartsWith(s, "&quot;") then "\"" + Unescaped(s[6..])
    else if StartsWith(s, "&apos;") then "'" + Unescaped(s[6..])
    else [s[0]] + Unescaped(s[1..])
  }

  lemma AmpersandIsRead(t: string)
    ensures Unescaped("&amp;" + t) == "&" + Unescaped(t)
  {
    assert ("&amp;" + t)[5..] == t;
  }

  lemma LessIsRead(t: string)
    ensures Unescaped("&lt;" + t) == "<" + Unescaped(t)
  {
    var s := "&lt;" + t;
    assert s[1] == 'l' && s[4..] == t;
    assert StartsWith(s, "&lt;") && !StartsWith(s, "&amp;");
  }

  lemma GreaterIsRead(t: string)
    ensures Unescaped("&gt;" + t) == ">" + Unescaped(t)
  {
    var s := "&gt;" + t;
    assert s[1] == 'g' && s[4..] == t;
    assert StartsWith(s, "&gt;") && !StartsWith(s, "&amp;") && !StartsWith(s, "&lt;");
  }

  lemma QuoteIsRead(t: string)
    ensures Unescaped("&quot;" + t) == "\"" + Unescaped(t)
  {
    var s := "&quot;" + t;
    assert s[1] == 'q' && s[6..] == t;
    assert StartsWith(s, "&quot;") && !StartsWith(s, "&amp;") && !StartsWith(s, "&lt;") && !StartsWith(s, "&gt;");
  }

  lemma ApostropheIsRead(t: string)
    ensures Unescaped("&apos;" + t) == "'" + Unescaped(t)
  {
    var s := "&apos;" + t;
    assert s[1] == 'a' && s[2] == 'p' && s[6..] == t;
    assert StartsWith(s, "&apos;") && !StartsWith(s, "&amp;") && !StartsWith(s, "&lt;") && !StartsWith(s, "&gt;")
           && !StartsWith(s, "&quot;");
  }

  lemma EntityIsRead(c: char, t: string)
    requires Special(c)
    ensures Unescaped(EscapedChar(c) + t) == [c] + Unescaped(t)
  {
    hide Unescaped, EscapedChar;
    MarkupTexts();
    QuoteTexts();
    if c == '&' {
      AmpersandIsRead(t);
    } else if c == '<' {
      LessIsRead(t);
    } else if c == '>' {
      GreaterIsRead(t);
    } else if c == '"' {
      QuoteIsRead(t);
    } else {
      ApostropheIsRead(t);
    }
  }

  lemma MarkupTexts()
    ensures EscapedChar('&') == "&amp;" && EscapedChar('<') == "&lt;" && EscapedChar('>') == "&gt;"
  {
  }

  lemma QuoteTexts()
    ensures EscapedChar('"') == "&quot;" && EscapedChar('\'') == "&apos;"
  {
  }

  lemma NoEntity(s: string, p: string)
    requires s != [] && s[0] != '&' && p != [] && p[0] == '&'
    ensures !StartsWith(s, p)
  {
  }

  lemma OtherIsRead(c: char, t: string)
    requires !Special(c)
    ensures Unescaped(EscapedChar(c) + t) == [c] + Unescaped(t)
  {
    hide StartsWith;
    var s := [c] + t;
    assert s[1..] == t && c != '&';
    NoEntity(s, "&amp;");
    NoEntity(s, "&lt;");
    NoEntity(s, "&gt;");
    NoEntity(s, "&quot;");
    NoEntity(s, "&apos;");
  }

  /** Whatever the text, reading its entities gives it back, and it has no bare special
      character in it. */
  lemma {:induction false} EscapedIsRead(s: string)
    ensures Unescaped(Escaped(s)) == s
    ensures forall c :: c in Escaped(s) ==> c !in "<>\"'"
  {
    hide Unescaped, EscapedChar;
    if s == [] {
      assert Unescaped([]) == [] by { NothingToRead(); }
    } else {
      EscapedIsRead(s[1..]);
      if Special(s[0]) { EntityIsRead(s[0], Escaped(s[1..])); } else { OtherIsRead(s[0], Escaped(s[1..])); }
      NoneBare(s[0]);
    }
  }

  lemma NothingToRead()
    ensures Unescaped([]) == []
  {
  }

  lemma NoneBare(c: char)
    ensures forall x :: x in EscapedChar(c) ==> x !in "<>\"'"
  {
  }

  // ----- elements -----

  lemma BeforeOthers(e: Item)
    ensures DifferUpTo(ItemTags(e), 0, Open("title")) && DifferUpTo(ItemTags(e), 4, Open("sparkle:version"))
    ensures DifferUpTo(ItemTags(e), 8, Open("sparkle:minimumSystemVersion"))
  {
    hide Plain, Differ, Open, Close, EnclosureTag, Word;
    NamesDiffer("title", "sparkle:version", 0);
    NamesDiffer("pubDate", "sparkle:version", 0);
    KindsDiffer("sparkle:version", "title");
    KindsDiffer("sparkle:version", "pubDate");
    BeforeMinimum(e);
  }

  lemma BeforeMinimum(e: Item)
    ensures DifferUpTo(ItemTags(e), 8, Open("sparkle:minimumSystemVersion"))
  {
    hide Plain, Differ, Open, Close, EnclosureTag, Word;
    var name := "sparkle:minimumSystemVersion";
    NamesDiffer("title", name, 0);
    NamesDiffer("pubDate", name, 0);
    NamesDiffer("sparkle:version", name, 8);
    NamesDiffer("sparkle:shortVersionString", name, 8);
    KindsDiffer(name, "title");
    KindsDiffer(name, "pubDate");
    KindsDiffer(name, "sparkle:version");
    KindsDiffer(name, "sparkle:shortVersionString");
  }

  /** What is between the tags of an item. */
  function Inside(item: Item): string {
    INDENT + Flat(ItemTags(EscapedItem(item)))
  }

  lemma InsideElements(item: Item)
    ensures var text := Inside(item); var version := Trim(Escaped(item.version));
      && Element(text, Open("title")) == Some(version) && Element(text, Open("sparkle:version")) == Some(version)
      && Element(text, Open("sparkle:shortVersionString")) == Some(version)
      && Element(text, Open("sparkle:minimumSystemVersion")) == Some(Trim("10.0.17763"))
      && Element(text, Open("pubDate")) == Some(Trim(Escaped(item.pubDate)))
  {
    hide Flat, Element, Trim, Open, Close, AllPlain, DifferUpTo, Tagged, EnclosureTag;
    var e := EscapedItem(item);
    EscapedItemTexts(item);
    FieldsAreRead(e);
    ItemTagsArePlain(e);
    ItemTagsAreTagged(e);
    BeforeOthers(e);
    OpenStart("title");
    OpenStart("sparkle:version");
    OpenStart("sparkle:minimumSystemVersion");
    ElementIs(INDENT, ItemTags(e), 0, Open("title"));
    ElementIs(INDENT, ItemTags(e), 4, Open("sparkle:version"));
    ElementIs(INDENT, ItemTags(e), 8, Open("sparkle:minimumSystemVersion"));
  }

  lemma {:induction false} ChunkAt(items: seq<Item>, k: nat)
    requires k < |items|
    ensures |Chunks(items)| == |items| && Chunks(items)[k] == Chunk(EscapedItem(items[k]), k + 1 < |items|)
  {
    hide Chunk, EscapedItem;
    ChunksLength(items);
    if k > 0 { ChunkAt(items[1..], k - 1); }
  }

  lemma {:induction false} ChunksLength(items: seq<Item>)
    ensures |Chunks(items)| == |items|
  {
    hide Chunk, EscapedItem;
    if items != [] { ChunksLength(items[1..]); }
  }

  lemma ChunkCut(item: Item, more: bool)
    ensures First(Chunk(EscapedItem(item), more), Close("item")) == Inside(item)
  {
    hide Flat, First, Open, Close, AllPlain, AllDiffer, ItemTags, Between, EscapedItem;
    var e := EscapedItem(item);
    EscapedItemTexts(item);
    ItemTagsArePlain(e);
    ItemTagsDiffer(e, Close("item"));
    OpenStart("item");
    CutAtTag(INDENT, ItemTags(e), Close("item"), Between(more));
  }

  lemma FeedIsCut(arch: Architecture, items: seq<Item>, k: nat)
    requires k < |items|
    ensures var pieces := Pieces(Rendered(arch, items), Open("item"));
      |pieces| == |items| + 1 && First(pieces[1 + k], Close("item")) == Inside(items[k])
  {
    hide Flat, Passes, Pieces, Open, Close, Chunks, Chunk, HeadTags, Entries, TailTags, First, Inside;
    HeadPasses(arch);
    FeedPieces(Flat(HeadTags(arch)), items);
    ChunkAt(items, k);
    ChunkCut(items[k], k + 1 < |items|);
  }

  lemma ShortTags()
    ensures Open("title") == "<title>" && Open("item") == "<item>" && Close("item") == "</item>"
    ensures Open("pubDate") == "<pubDate>"
  {
  }

  lemma VersionTag()
    ensures Open("sparkle:version") == "<sparkle:version>"
  {
  }

  lemma ShortVersionTag()
    ensures Open("sparkle:shortVersionString") == "<sparkle:shortVersionString>"
  {
  }

  lemma MinimumTag()
    ensures Open("sparkle:minimumSystemVersion") == "<sparkle:minimumSystemVersion>"
  {
  }

  lemma MinimumStays()
    ensures Trim("10.0.17763") == "10.0.17763"
  {
    var s := "10.0.17763";
    assert !JsSpace(s[0]) && !JsSpace(s[|s| - 1]);
  }

  /** Of any printed feed, the text between the tags of its k-th item has the version in its
      title and in both version elements, and the date, each as escaped. */
  lemma ElementsAreThere(arch: Architecture, items: seq<Item>, k: nat)
    requires k < |items|
    ensures var pieces := Pieces(Rendered(arch, items), "<item>");
      && |pieces| == |items| + 1
      && var text := First(pieces[1 + k], "</item>"); var version := Trim(Escaped(items[k].version));
         && Element(text, "<title>") == Some(version) && Element(text, "<sparkle:version>") == Some(version)
         && Element(text, "<sparkle:shortVersionString>") == Some(version)
         && Element(text, "<sparkle:minimumSystemVersion>") == Some("10.0.17763")
         && Element(text, "<pubDate>") == Some(Trim(Escaped(items[k].pubDate)))
  {
    hide Open, Close, Pieces, Rendered, Element, Trim, Inside, First, Escaped;
    ShortTags();
    VersionTag();
    ShortVersionTag();
    MinimumTag();
    MinimumStays();
    FeedIsCut(arch, items, k);
    InsideElements(items[k]);
  }
}
