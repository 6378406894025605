/** What the rows of a parsed patch say about the two sides of a file. */
module PatchSides {
  import opened Basics
  import opened Options
  import opened Text
  import opened DiffRows
  import opened PatchHeaders
  import opened PatchHunks
  import opened PatchRoundTrip
  import opened PatchText

  predicate RowOn(side: Side, line: Line) {
    line.kind.Context? || (if side.OldFile? then line.kind.Deletion? else line.kind.Addition?)
  }

  function NumberOn(side: Side, line: Line): Option<nat> {
    if side.OldFile? then line.oldLine else line.newLine
  }

  /** The numbers and texts of the rows on one side. */
  function SideOf(side: Side, lines: seq<Line>): seq<(Option<nat>, string)> {
    if lines == [] then []
    else (if RowOn(side, lines[0]) then [(NumberOn(side, lines[0]), lines[0].content)] else [])
         + SideOf(side, lines[1..])
  }

  function Numbered(from: nat, texts: seq<string>): seq<(Option<nat>, string)>
    decreases |texts|
  {
    if texts == [] then [] else [(Some(from), texts[0])] + Numbered(from + 1, texts[1..])
  }

  predicate LostOn(side: Side, e: Edit) {
    Lost(e) && On(side, e)
  }

  predicate NoneLostOn(side: Side, edits: seq<Edit>) {
    forall i :: 0 <= i < |edits| ==> !LostOn(side, edits[i])
  }

  function StartOn(side: Side, o: nat, n: nat): nat {
    if side.OldFile? then o else n
  }

  lemma {:induction false} NumberedLength(from: nat, texts: seq<string>)
    ensures |Numbered(from, texts)| == |texts|
    decreases |texts|
  {
    if texts != [] { NumberedLength(from + 1, texts[1..]); }
  }

  lemma {:induction false} SideNoLonger(side: Side, f: nat, o: nat, n: nat, edits: seq<Edit>)
    ensures |SideOf(side, Rows(f, o, n, edits))| <= |Texts(side, edits)|
    decreases |edits|
  {
    hide Lost, Rows;
    if edits == [] {
      NoRows(f, o, n);
    } else if Lost(edits[0]) {
      RowsOfLost(f, o, n, edits);
      SideNoLonger(side, f, o, n, edits[1..]);
    } else {
      RowsFirst(f, o, n, edits);
      SideNoLonger(side, f, o + OldStep(edits[0]), n + NewStep(edits[0]), edits[1..]);
    }
  }

  /** The rows of a script show one of its sides, each line with its number, exactly when
      none of the side's lines is lost: no deletion starts with `-- `, no addition with `++ `. */
  lemma {:induction false} RowsShowSideIff(side: Side, f: nat, o: nat, n: nat, edits: seq<Edit>)
    ensures SideOf(side, Rows(f, o, n, edits)) == Numbered(StartOn(side, o, n), Texts(side, edits))
       <==> NoneLostOn(side, edits)
    decreases |edits|
  {
    hide Lost, Rows, NoneLostOn;
    NoneLostFirst(side, edits);
    if edits == [] {
      NoRows(f, o, n);
    } else if Lost(edits[0]) {
      RowsOfLost(f, o, n, edits);
      RowsShowSideIff(side, f, o, n, edits[1..]);
      SideNoLonger(side, f, o, n, edits[1..]);
      NumberedLength(StartOn(side, o, n), Texts(side, edits));
      TextsFirst(side, edits);
    } else {
      RowsShowSideIff(side, f, o + OldStep(edits[0]), n + NewStep(edits[0]), edits[1..]);
      SideFirst(side, f, o, n, edits);
    }
  }

  lemma TextsFirst(side: Side, edits: seq<Edit>)
    requires edits != []
    ensures Texts(side, edits) ==
            if On(side, edits[0]) then [edits[0].text] + Texts(side, edits[1..]) else Texts(side, edits[1..])
  {
  }

  lemma NoneLostFirst(side: Side, edits: seq<Edit>)
    ensures NoneLostOn(side, edits) <==> edits == [] || (!LostOn(side, edits[0]) && NoneLostOn(side, edits[1..]))
  {
    hide Lost, On;
    if edits != [] && !LostOn(side, edits[0]) && NoneLostOn(side, edits[1..]) {
      assert forall i :: 1 <= i < |edits| ==> edits[i] == edits[1..][i - 1];
    }
  }

  lemma SideFirst(side: Side, f: nat, o: nat, n: nat, edits: seq<Edit>)
    requires edits != [] && !Lost(edits[0])
    ensures var e := edits[0]; var o', n' := o + OldStep(e), n + NewStep(e);
      (SideOf(side, Rows(f, o, n, edits)) == Numbered(StartOn(side, o, n), Texts(side, edits))
       <==> SideOf(side, Rows(f, o', n', edits[1..])) == Numbered(StartOn(side, o', n'), Texts(side, edits[1..])))
  {
    hide Lost, Rows, Texts, SideOf;
    RowsFirst(f, o, n, edits);
    TextsFirst(side, edits);
    var e := edits[0];
    var start := StartOn(side, o, n);
    var more := Rows(f, o + OldStep(e), n + NewStep(e), edits[1..]);
    SideOfFirst(side, Rows(f, o, n, edits));
    if On(side, e) {
      NumberedFirst(start, e.text, Texts(side, edits[1..]));
      OneAhead((Some(start), e.text), SideOf(side, more), Numbered(start + 1, Texts(side, edits[1..])));
    }
  }

  lemma SideOfFirst(side: Side, lines: seq<Line>)
    requires lines != []
    ensures SideOf(side, lines) ==
            if RowOn(side, lines[0]) then [(NumberOn(side, lines[0]), lines[0].content)] + SideOf(side, lines[1..])
            else SideOf(side, lines[1..])
  {
  }

  lemma NumberedFirst(from: nat, text: string, texts: seq<string>)
    ensures Numbered(from, [text] + texts) == [(Some(from), text)] + Numbered(from + 1, texts)
  {
    assert ([text] + texts)[1..] == texts;
  }

  lemma OneAhead<T>(x: T, a: seq<T>, b: seq<T>)
    ensures [x] + a == [x] + b <==> a == b
  {
    if [x] + a == [x] + b { assert a == ([x] + a)[1..]; assert b == ([x] + b)[1..]; }
  }

  // ----- with carriage returns -----

  /** A line of the side ends in a carriage return. */
  predicate CutOn(side: Side, e: Edit) {
    On(side, e) && WithoutCr(e.text) != e.text
  }

  predicate NoneCutOn(side: Side, edits: seq<Edit>) {
    forall i :: 0 <= i < |edits| ==> !CutOn(side, edits[i])
  }

  lemma NoneCutFirst(side: Side, edits: seq<Edit>)
    ensures NoneCutOn(side, edits) <==> edits == [] || (!CutOn(side, edits[0]) && NoneCutOn(side, edits[1..]))
  {
    hide CutOn;
    if edits != [] && !CutOn(side, edits[0]) && NoneCutOn(side, edits[1..]) {
      assert forall i :: 1 <= i < |edits| ==> edits[i] == edits[1..][i - 1];
    }
  }

  lemma {:induction false} CutTextsIff(side: Side, edits: seq<Edit>)
    ensures Texts(side, CutEdits(edits)) == Texts(side, edits) <==> NoneCutOn(side, edits)
  {
    hide WithoutCr, NoneCutOn;
    NoneCutFirst(side, edits);
    CutTextsLength(side, edits);
    if edits != [] {
      assert CutEdits(edits)[1..] == CutEdits(edits[1..]) && CutEdits(edits)[0] == CutEdit(edits[0]);
      TextsFirst(side, edits);
      TextsFirst(side, CutEdits(edits));
      CutTextsIff(side, edits[1..]);
      if On(side, edits[0]) {
        SameListIff(WithoutCr(edits[0].text), edits[0].text,
                    Texts(side, CutEdits(edits[1..])), Texts(side, edits[1..]));
      }
    }
  }

  lemma {:induction false} NumberedInjective(from: nat, a: seq<string>, b: seq<string>)
    ensures Numbered(from, a) == Numbered(from, b) <==> a == b
    decreases |a|
  {
    NumberedLength(from, a);
    NumberedLength(from, b);
    if a != [] && b != [] {
      NumberedInjective(from + 1, a[1..], b[1..]);
      SameListIff((Some(from), a[0]), (Some(from), b[0]), Numbered(from + 1, a[1..]), Numbered(from + 1, b[1..]));
      SameListIff(a[0], b[0], a[1..], b[1..]);
      assert a == [a[0]] + a[1..] && b == [b[0]] + b[1..];
    }
  }

  lemma CutKeepsNoneLost(side: Side, edits: seq<Edit>)
    ensures NoneLostOn(side, CutEdits(edits)) <==> NoneLostOn(side, edits)
  {
    hide Lost, WithoutCr;
    forall i | 0 <= i < |edits| ensures LostOn(side, CutEdits(edits)[i]) <==> LostOn(side, edits[i]) {
      CutKeepsLost(edits[i]);
    }
    if NoneLostOn(side, CutEdits(edits)) {
      forall i | 0 <= i < |edits| ensures !LostOn(side, edits[i]) { assert !LostOn(side, CutEdits(edits)[i]); }
    }
  }

  /** A lost line leaves its side shorter. */
  lemma {:induction false} LostMakesShorter(side: Side, f: nat, o: nat, n: nat, edits: seq<Edit>)
    requires !NoneLostOn(side, edits)
    ensures |SideOf(side, Rows(f, o, n, edits))| < |Texts(side, edits)|
    decreases |edits|
  {
    hide Lost, Rows, NoneLostOn;
    NoneLostFirst(side, edits);
    assert edits != [] by { NoneLostFirst(side, []); }
    TextsFirst(side, edits);
    if Lost(edits[0]) {
      RowsOfLost(f, o, n, edits);
      SideNoLonger(side, f, o, n, edits[1..]);
      if !On(side, edits[0]) { LostMakesShorter(side, f, o, n, edits[1..]); }
    } else {
      RowsFirst(f, o, n, edits);
      SideOfFirst(side, Rows(f, o, n, edits));
      LostMakesShorter(side, f, o + OldStep(edits[0]), n + NewStep(edits[0]), edits[1..]);
    }
  }

  /** The same for a script whose lines were split off a text. */
  lemma CutRowsShowSideIff(side: Side, f: nat, o: nat, n: nat, edits: seq<Edit>)
    ensures |SideOf(side, Rows(f, o, n, CutEdits(edits)))| <= |Texts(side, edits)|
    ensures SideOf(side, Rows(f, o, n, CutEdits(edits))) == Numbered(StartOn(side, o, n), Texts(side, edits))
       <==> NoneLostOn(side, edits) && NoneCutOn(side, edits)
  {
    hide Rows, SideOf, Numbered, NoneLostOn, NoneCutOn, CutEdits, Texts;
    var cut, start := CutEdits(edits), StartOn(side, o, n);
    CutKeepsNoneLost(side, edits);
    CutTextsLength(side, edits);
    SideNoLonger(side, f, o, n, cut);
    NumberedLength(start, Texts(side, edits));
    if NoneLostOn(side, edits) {
      RowsShowSideIff(side, f, o, n, cut);
      NumberedInjective(start, Texts(side, cut), Texts(side, edits));
      CutTextsIff(side, edits);
    } else {
      LostMakesShorter(side, f, o, n, cut);
    }
  }

  // ----- hunks -----

  lemma {:induction false} SideOfConcat(side: Side, a: seq<Line>, b: seq<Line>)
    ensures SideOf(side, a + b) == SideOf(side, a) + SideOf(side, b)
  {
    hide RowOn, NumberOn, SideOf;
    if a == [] {
      NothingOnSide(side);
      NothingInFront(b);
      NothingInFront(SideOf(side, b));
    } else {
      assert (a + b)[0] == a[0] && (a + b)[1..] == a[1..] + b;
      SideOfConcat(side, a[1..], b);
      SideOfFirst(side, a);
      SideOfFirst(side, a + b);
      Regrouped(if RowOn(side, a[0]) then [(NumberOn(side, a[0]), a[0].content)] else [],
                SideOf(side, a[1..]), SideOf(side, b));
      NothingInFront(SideOf(side, a[1..]));
      NothingInFront(SideOf(side, a[1..]) + SideOf(side, b));
    }
  }

  /** Two lists match when their parts do, if neither part of the first is longer. */
  lemma PartsMatchIff<T>(x: seq<T>, y: seq<T>, a: seq<T>, b: seq<T>)
    requires |x| <= |y| && |a| <= |b|
    ensures x + a == y + b <==> x == y && a == b
  {
    if x + a == y + b {
      assert |x + a| == |x| + |a| && |y + b| == |y| + |b|;
      assert x == (x + a)[..|x|] && y == (y + b)[..|y|] && a == (x + a)[|x|..] && b == (y + b)[|y|..];
    }
  }

  /** The lines of one side that hunks have, with their numbers in the file. */
  function LinesOn(side: Side, at: Place, hunks: seq<Hunk>): seq<(Option<nat>, string)>
    decreases |hunks|
  {
    if hunks == [] then []
    else Numbered(StartOn(side, at.o, at.n) + hunks[0].skip, Texts(side, hunks[0].edits))
         + LinesOn(side, EndOf(at, hunks[0]), hunks[1..])
  }

  /** No line of the side is lost or loses a carriage return. */
  predicate AllShown(side: Side, hunks: seq<Hunk>) {
    forall i :: 0 <= i < |hunks| ==> NoneLostOn(side, hunks[i].edits) && NoneCutOn(side, hunks[i].edits)
  }

  lemma AllShownFirst(side: Side, hunks: seq<Hunk>)
    requires hunks != []
    ensures AllShown(side, hunks)
       <==> NoneLostOn(side, hunks[0].edits) && NoneCutOn(side, hunks[0].edits) && AllShown(side, hunks[1..])
  {
    hide NoneLostOn, NoneCutOn;
    if NoneLostOn(side, hunks[0].edits) && NoneCutOn(side, hunks[0].edits) && AllShown(side, hunks[1..]) {
      assert forall i :: 1 <= i < |hunks| ==> hunks[i] == hunks[1..][i - 1];
    }
  }

  lemma SeparatorOnNoSide(side: Side, f: nat, id: nat, next: Place, start: Place, raw: string, complete: bool)
    ensures SideOf(side, Separator(f, id, next, start, raw, complete).rows) == []
  {
    var rows := Separator(f, id, next, start, raw, complete).rows;
    if rows != [] { assert rows[1..] == []; }
  }

  /** A side without lines in a hunk has nothing to number. */
  lemma NumberedFromStart(side: Side, at: Place, h: Hunk)
    ensures var start := StartOf(at, h);
      Numbered(StartOn(side, start.o, start.n), Texts(side, h.edits))
        == Numbered(StartOn(side, at.o, at.n) + h.skip, Texts(side, h.edits))
  {
    hide Texts;
  }

  lemma {:induction false} HunksShowSideIff(side: Side, f: nat, id: nat, next: Place, at: Place, hunks: seq<Hunk>,
                                            complete: bool)
    ensures |SideOf(side, HunkRows(f, id, next, at, CutHunks(hunks), complete).rows)| <= |LinesOn(side, at, hunks)|
    ensures SideOf(side, HunkRows(f, id, next, at, CutHunks(hunks), complete).rows) == LinesOn(side, at, hunks)
       <==> AllShown(side, hunks)
    decreases |hunks|
  {
    hide Rows, NextAfter, Separator, HunkLine, StartOf, EndOf, SideOf, Numbered;
    hide AllShown, NoneLostOn, NoneCutOn, CutEdits;
    if hunks == [] {
      NothingOnSide(side);
    } else {
      var h, more := hunks[0], hunks[1..];
      assert CutHunks(hunks)[0] == CutHunk(h) && CutHunks(hunks)[1..] == CutHunks(more);
      CutHunkPlaces(at, h);
      AllShownFirst(side, hunks);
      var start, end := StartOf(at, h), EndOf(at, h);
      var sep := Separator(f, id, next, start, HunkLine(at, CutHunk(h)), complete);
      var rows := Rows(f, start.o, start.n, CutEdits(h.edits));
      var next' := NextAfter(next, start.o, start.n, CutEdits(h.edits));
      var rest := HunkRows(f, sep.id, next', end, CutHunks(more), complete).rows;
      SeparatorOnNoSide(side, f, id, next, start, HunkLine(at, CutHunk(h)), complete);
      OnSide(side, sep.rows, rows, rest);
      OneHunkShowsSideIff(side, f, at, h);
      HunksShowSideIff(side, f, sep.id, next', end, more, complete);
      PartsMatchIff(SideOf(side, rows), Numbered(StartOn(side, at.o, at.n) + h.skip, Texts(side, h.edits)),
                    SideOf(side, rest), LinesOn(side, end, more));
    }
  }

  lemma OnSide(side: Side, sep: seq<Line>, rows: seq<Line>, rest: seq<Line>)
    requires SideOf(side, sep) == []
    ensures SideOf(side, sep + (rows + rest)) == SideOf(side, rows) + SideOf(side, rest)
  {
    hide SideOf;
    SideOfConcat(side, sep, rows + rest);
    SideOfConcat(side, rows, rest);
    NothingInFront(SideOf(side, rows) + SideOf(side, rest));
  }

  lemma OneHunkShowsSideIff(side: Side, f: nat, at: Place, h: Hunk)
    ensures var start := StartOf(at, h);
      var shown := SideOf(side, Rows(f, start.o, start.n, CutEdits(h.edits)));
      var own := Numbered(StartOn(side, at.o, at.n) + h.skip, Texts(side, h.edits));
      |shown| <= |own| && (shown == own <==> NoneLostOn(side, h.edits) && NoneCutOn(side, h.edits))
  {
    hide Rows, StartOf, SideOf, Numbered, NoneLostOn, NoneCutOn, CutEdits, Texts;
    var start := StartOf(at, h);
    CutRowsShowSideIff(side, f, start.o, start.n, h.edits);
    NumberedFromStart(side, at, h);
    NumberedLength(StartOn(side, at.o, at.n) + h.skip, Texts(side, h.edits));
  }

  lemma NothingOnSide(side: Side)
    ensures SideOf(side, []) == [] && AllShown(side, [])
  {
  }

  lemma NothingInFront<T>(s: seq<T>)
    ensures [] + s == s
  {
  }

  // ----- whole patches -----

  function PatchLinesOn(side: Side, patch: seq<FilePatch>): seq<(Option<nat>, string)> {
    if patch == [] then []
    else (if patch[0].body.Hunks? then LinesOn(side, TOP, patch[0].body.hunks) else [])
         + PatchLinesOn(side, patch[1..])
  }

  predicate FileShown(side: Side, p: FilePatch) {
    p.body.Hunks? ==> AllShown(side, p.body.hunks)
  }

  predicate PatchShown(side: Side, patch: seq<FilePatch>) {
    forall i :: 0 <= i < |patch| ==> FileShown(side, patch[i])
  }

  lemma PatchShownFirst(side: Side, patch: seq<FilePatch>)
    requires patch != []
    ensures PatchShown(side, patch) <==> FileShown(side, patch[0]) && PatchShown(side, patch[1..])
  {
    hide FileShown;
    if FileShown(side, patch[0]) && PatchShown(side, patch[1..]) {
      assert forall i :: 1 <= i < |patch| ==> patch[i] == patch[1..][i - 1];
    }
  }

  lemma FileShowsSideIff(side: Side, f: nat, id: nat, p: FilePatch, complete: bool)
    ensures var own := if p.body.Hunks? then LinesOn(side, TOP, p.body.hunks) else [];
      var shown := SideOf(side, FileRows(f, id, CutFile(p), complete).rows);
      |shown| <= |own| && (shown == own <==> FileShown(side, p))
  {
    hide HunkRows, LinesOn, AllShown, CutHunks;
    var o := BodyRows(f, id, CutBody(p.body), complete);
    SideOfConcat(side, [Bare(f, FileHeader)], o.rows);
    HeaderOnNoSide(side, f);
    NothingInFront(SideOf(side, o.rows));
    match p.body
    case Nothing =>
    case Hunks(_, _, hunks) => HunksShowSideIff(side, f, id, TOP, TOP, hunks, complete);
    case BinaryNote(_) => assert o.rows[1..] == [];
  }

  lemma HeaderOnNoSide(side: Side, f: nat)
    ensures SideOf(side, [Bare(f, FileHeader)]) == []
  {
    assert [Bare(f, FileHeader)][1..] == [];
  }

  /** The rows of a patch that was split off a text show a side of its files, each line with
      its number in its file, exactly when no line of that side is lost - no deletion starts
      with `-- `, no addition with `++ ` - and none ends in a carriage return. */
  lemma {:induction false} PatchShowsSideIff(side: Side, l: Listing, id: nat, patch: seq<FilePatch>, complete: bool)
    requires l.Ok()
    ensures var shown := SideOf(side, PatchRows(l, id, Cut(patch), complete).rows);
      |shown| <= |PatchLinesOn(side, patch)| && (shown == PatchLinesOn(side, patch) <==> PatchShown(side, patch))
    decreases |patch|
  {
    hide SideOf, FileRows, LinesOn, FileShown, PatchShown, Listed, Listing.Ok, CutFile, ReadPath;
    if patch == [] {
      NothingOnSide(side);
      assert PatchShown(side, []) by { NoFilesShown(side); }
    } else {
      var p, more := patch[0], patch[1..];
      assert Cut(patch)[0] == CutFile(p) && Cut(patch)[1..] == Cut(more);
      var m := Listed(l, CutFile(p));
      var f := m.indexes[ReadPath(CutFile(p).path)];
      var first := FileRows(f, id, CutFile(p), complete);
      PatchShownFirst(side, patch);
      FileShowsSideIff(side, f, id, p, complete);
      PatchShowsSideIff(side, m, first.id, more, complete);
      var rest := PatchRows(m, first.id, Cut(more), complete).rows;
      SideOfConcat(side, first.rows, rest);
      PartsMatchIff(SideOf(side, first.rows), if p.body.Hunks? then LinesOn(side, TOP, p.body.hunks) else [],
                    SideOf(side, rest), PatchLinesOn(side, more));
    }
  }

  lemma NoFilesShown(side: Side)
    ensures PatchShown(side, [])
  {
  }

  lemma TextShowsSideIff(side: Side, numstat: string, patch: seq<FilePatch>, complete: bool)
    requires AllPrintable(patch)
    ensures SideOf(side, ParsedState(numstat, TextOf(patch), complete).lines) == PatchLinesOn(side, patch)
       <==> PatchShown(side, patch)
  {
    hide ParsedState, TextOf, PatchRows, AllPrintable, SideOf, PatchLinesOn, PatchShown, Cut;
    TextParses(numstat, patch, complete);
    PatchShowsSideIff(side, NumstatListing(numstat), 0, patch, complete);
  }

  /** With complete context that side is the whole file. */
  lemma SideIsTheFileIff(side: Side, numstat: string, p: FilePatch, section: string, edits: seq<Edit>)
    requires p.body.Hunks? && p.body.hunks == [Hunk(0, section, edits)] && Printable(p)
    ensures SideOf(side, ParsedState(numstat, TextOf([p]), true).lines) == Numbered(1, Texts(side, edits))
       <==> NoneLostOn(side, edits) && NoneCutOn(side, edits)
  {
    hide ParsedState, TextOf, PatchRows, Printable, SideOf, Numbered, NoneLostOn, NoneCutOn, Texts, Cut;
    assert AllPrintable([p]);
    TextShowsSideIff(side, numstat, [p], true);
    var h := Hunk(0, section, edits);
    assert [p][1..] == [] && [h][1..] == [];
    AllShownFirst(side, [h]);
    assert AllShown(side, []);
    PatchShownFirst(side, [p]);
    assert PatchShown(side, []) by { NoFilesShown(side); }
    assert LinesOn(side, TOP, [h]) == Numbered(1, Texts(side, edits)) by {
      assert LinesOn(side, EndOf(TOP, h), []) == [];
      NothingAfter(Numbered(1, Texts(side, edits)));
    }
    NothingAfter(LinesOn(side, TOP, [h]));
  }

  lemma NothingAfter<T>(s: seq<T>)
    ensures s + [] == s
  {
  }

  /** A deleted comment line of SQL is not shown, and the line after it gets its number. */
  lemma CommentIsLost()
    ensures var edits := [Remove("-- old"), Keep("select 1")];
      && Numbered(1, Texts(OldFile, edits)) == [(Some(1), "-- old"), (Some(2), "select 1")]
      && SideOf(OldFile, Rows(0, 1, 1, edits)) == [(Some(1), "select 1")]
  {
    var edits := [Remove("-- old"), Keep("select 1")];
    var text, rest := edits[0].text, edits[1..];
    assert rest == [Keep("select 1")] && rest[1..] == [];
    assert text[..3] == "-- ";
    assert Lost(edits[0]) && !Lost(rest[0]);
    var row := RowOf(0, 1, 1, rest[0]);
    assert Rows(0, 1, 1, rest) == [row] by { assert [row] + [] == [row]; }
    assert [row][1..] == [];
    assert Texts(OldFile, rest) == ["select 1"];
    assert ["-- old", "select 1"][1..] == ["select 1"] && ["select 1"][1..] == [];
    assert Numbered(2, ["select 1"]) == [(Some(2), "select 1")];
  }


  /** A line feed changed to a carriage return and a line feed: the text of the patch says so,
      the two rows say the same. */
  lemma CrlfIsCut()
    ensures var edits := [Remove("a"), Insert("a\r")];
      var p := FilePatch("a", Same, None, Hunks("a/a", "b/a", [Hunk(0, "", edits)]));
      ParsedState("", TextOf([p]), true).lines ==
        [Bare(0, FileHeader), Line(0, Some(1), None, Deletion, "a"), Line(0, None, Some(1), Addition, "a")]
  {
    hide ParsedState, TextOf, TextRows, AllPrintable;
    var edits := [Remove("a"), Insert("a\r")];
    CrlfPrints(edits);
    TextParses("", [FilePatch("a", Same, None, Hunks("a/a", "b/a", [Hunk(0, "", edits)]))], true);
    CrlfRows(edits);
  }

  lemma CrlfRows(edits: seq<Edit>)
    requires edits == [Remove("a"), Insert("a\r")]
    ensures TextRows("", [FilePatch("a", Same, None, Hunks("a/a", "b/a", [Hunk(0, "", edits)]))], true) ==
            [Bare(0, FileHeader), Line(0, Some(1), None, Deletion, "a"), Line(0, None, Some(1), Addition, "a")]
  {
    hide PatchRows, HunkRows, CutEdits, NumstatListing, Rows, StartOf;
    var cut := [Remove("a"), Insert("a")];
    var q := FilePatch("a", Same, None, Hunks("a/a", "b/a", [Hunk(0, "", cut)]));
    CrlfCut(edits, cut);
    CrlfCutPatch(edits, cut);
    NothingListed();
    OneFileRows(NumstatListing(""), q);
    OneHunkRows("", cut);
    TwoRows(cut);
  }

  lemma CrlfCutPatch(edits: seq<Edit>, cut: seq<Edit>)
    requires CutEdits(edits) == cut
    ensures Cut([FilePatch("a", Same, None, Hunks("a/a", "b/a", [Hunk(0, "", edits)]))])
         == [FilePatch("a", Same, None, Hunks("a/a", "b/a", [Hunk(0, "", cut)]))]
  {
    hide CutEdits;
    assert CutHunks([Hunk(0, "", edits)]) == [Hunk(0, "", cut)];
  }

  lemma CrlfPrints(edits: seq<Edit>)
    requires edits == [Remove("a"), Insert("a\r")]
    ensures AllPrintable([FilePatch("a", Same, None, Hunks("a/a", "b/a", [Hunk(0, "", edits)]))])
  {
    var hunks := [Hunk(0, "", edits)];
    assert hunks[1..] == [];
    assert HunksFit(TOP, hunks);
  }

  lemma CrlfCut(edits: seq<Edit>, cut: seq<Edit>)
    requires edits == [Remove("a"), Insert("a\r")] && cut == [Remove("a"), Insert("a")]
    ensures CutEdits(edits) == cut
  {
    assert "a\r"[..1] == "a";
  }

  lemma TwoRows(cut: seq<Edit>)
    requires cut == [Remove("a"), Insert("a")]
    ensures var start := StartOf(TOP, Hunk(0, "", cut));
      Rows(0, start.o, start.n, cut) ==
        [Line(0, Some(1), None, Deletion, "a"), Line(0, None, Some(1), Addition, "a")]
  {
    var rest := cut[1..];
    assert rest == [Insert("a")] && rest[1..] == [];
    assert Texts(NewFile, rest) == ["a"] && Texts(OldFile, rest) == [];
    RowsFirst(0, 1, 1, cut);
    RowsFirst(0, 2, 1, rest);
    NoRows(0, 2, 2);
    assert Rows(0, 2, 1, rest) == [RowOf(0, 2, 1, rest[0])];
    assert Rows(0, 1, 1, cut) == [RowOf(0, 1, 1, cut[0])] + Rows(0, 2, 1, rest);
  }
}
