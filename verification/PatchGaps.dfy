/** The gaps of a patch with three lines of context: what the parser counts between two hunks,
    and when that is what git left out. */
module PatchGaps {
  import opened Basics
  import opened Text
  import opened DiffRows
  import opened DiffCollapse
  import opened PatchHeaders
  import opened PatchHunks
  import opened PatchRoundTrip
  import opened PatchText

  // ----- what was left out -----

  predicate HasLines(h: Hunk) {
    Texts(OldFile, h.edits) != [] || Texts(NewFile, h.edits) != []
  }

  /** Hunks as git prints them: each has lines, and lines are left out between two of them. */
  predicate Apart(hunks: seq<Hunk>) {
    && (forall i :: 0 <= i < |hunks| ==> HasLines(hunks[i]))
    && (forall i :: 1 <= i < |hunks| ==> hunks[i].skip > 0)
  }

  /** The rows with a gap of the right count wherever lines are left out. */
  function TrueRows(f: nat, id: nat, first: bool, at: Place, hunks: seq<Hunk>): Output
    decreases |hunks|
  {
    if hunks == [] then Output([], id)
    else
      var h, start := hunks[0], StartOf(at, hunks[0]);
      var gap := Bare(f, GapRow(Gap(id, h.skip, [], if first then Leading else Between)));
      var rest := TrueRows(f, if h.skip > 0 then NextId(id) else id, false, EndOf(at, h), hunks[1..]);
      Output((if h.skip > 0 then [gap] else []) + (Rows(f, start.o, start.n, h.edits) + rest.rows), rest.id)
  }

  // ----- how far behind the parser is -----

  function LostCount(side: Side, edits: seq<Edit>): nat {
    if edits == [] then 0
    else (if Lost(edits[0]) && On(side, edits[0]) then 1 else 0) + LostCount(side, edits[1..])
  }

  function Empty(side: Side, h: Hunk): nat {
    if Texts(side, h.edits) == [] then 1 else 0
  }

  /** After a hunk the parser is behind by the lines it lost, and by one on a side that the
      hunk has no line of. */
  function Behind(side: Side, h: Hunk): nat {
    LostCount(side, h.edits) + Empty(side, h)
  }

  /** The next hunk makes up for it only where it has no line of that side either. */
  predicate CaughtUp(h: Hunk, next: Hunk) {
    Behind(OldFile, h) <= Empty(OldFile, next) && Behind(NewFile, h) <= Empty(NewFile, next)
  }

  predicate AllCaughtUp(hunks: seq<Hunk>) {
    forall i :: 0 <= i < |hunks| - 1 ==> CaughtUp(hunks[i], hunks[i + 1])
  }

  predicate AnyShown(edits: seq<Edit>) {
    exists i :: 0 <= i < |edits| && !Lost(edits[i])
  }

  lemma AnyShownFirst(edits: seq<Edit>)
    ensures AnyShown(edits) <==> edits != [] && (!Lost(edits[0]) || AnyShown(edits[1..]))
  {
    hide Lost;
    if edits != [] {
      if !Lost(edits[0]) { assert AnyShown(edits); }
      if AnyShown(edits[1..]) {
        var i :| 0 <= i < |edits[1..]| && !Lost(edits[1..][i]);
        assert !Lost(edits[i + 1]);
      }
      if AnyShown(edits) && Lost(edits[0]) {
        var i :| 0 <= i < |edits| && !Lost(edits[i]);
        assert !Lost(edits[1..][i - 1]);
      }
    }
  }

  /** Where the parser expects to go on after a script. */
  lemma {:induction false} NextAfterIs(next: Place, o: nat, n: nat, edits: seq<Edit>)
    ensures LostCount(OldFile, edits) <= |Texts(OldFile, edits)| && LostCount(NewFile, edits) <= |Texts(NewFile, edits)|
    ensures NextAfter(next, o, n, edits) ==
      if AnyShown(edits) then
        Place(o + |Texts(OldFile, edits)| - LostCount(OldFile, edits),
              n + |Texts(NewFile, edits)| - LostCount(NewFile, edits))
      else next
    ensures !AnyShown(edits) ==>
      LostCount(OldFile, edits) == |Texts(OldFile, edits)| && LostCount(NewFile, edits) == |Texts(NewFile, edits)|
    decreases |edits|
  {
    hide AnyShown, Lost;
    AnyShownFirst(edits);
    if edits != [] {
      LostIsOnASide(edits[0]);
      if Lost(edits[0]) {
        NextAfterIs(next, o, n, edits[1..]);
      } else {
        var o', n' := o + OldStep(edits[0]), n + NewStep(edits[0]);
        NextAfterIs(Place(o', n'), o', n', edits[1..]);
        AnyShownFirst(edits[1..]);
      }
    }
  }

  lemma LostIsOnASide(e: Edit)
    ensures Lost(e) ==> e.Remove? || e.Insert?
    ensures OldStep(e) == (if On(OldFile, e) then 1 else 0) && NewStep(e) == (if On(NewFile, e) then 1 else 0)
  {
  }

  // ----- one gap -----

  predicate NoFurther(next: Place, at: Place) {
    1 <= at.o && 1 <= at.n && next.o <= at.o && next.n <= at.n
  }

  /** The gap before a hunk will be right. */
  predicate Ready(next: Place, at: Place, h: Hunk) {
    GapBefore(next, StartOf(at, h)) == h.skip && next != Place(1, 1)
  }

  lemma StartWhere(at: Place, h: Hunk)
    requires 1 <= at.o && 1 <= at.n
    ensures StartOf(at, h) == Place(at.o + h.skip - Empty(OldFile, h), at.n + h.skip - Empty(NewFile, h))
  {
    hide Texts;
  }

  /** A gap is never too small. */
  lemma GapIsLarge(next: Place, at: Place, h: Hunk)
    requires NoFurther(next, at) && HasLines(h)
    ensures GapBefore(next, StartOf(at, h)) >= h.skip
    ensures next == at ==> GapBefore(next, StartOf(at, h)) == h.skip
  {
    hide Texts, StartOf;
    StartWhere(at, h);
  }

  /** What the parser expects after a hunk, against where the file goes on. */
  lemma NextIs(next: Place, at: Place, h: Hunk)
    requires NoFurther(next, at)
    ensures var start, end := StartOf(at, h), EndOf(at, h);
      var r := NextAfter(next, start.o, start.n, h.edits);
      && NoFurther(r, end)
      && (if AnyShown(h.edits) then r.o + Behind(OldFile, h) == end.o && r.n + Behind(NewFile, h) == end.n
          else r == next)
  {
    hide Texts, StartOf, NextAfter, LostCount, AnyShown;
    var start := StartOf(at, h);
    StartWhere(at, h);
    NextAfterIs(next, start.o, start.n, h.edits);
  }

  /** With no row shown, every line of the hunk is lost. */
  lemma AllLost(h: Hunk)
    ensures !AnyShown(h.edits) ==> LostCount(OldFile, h.edits) == |Texts(OldFile, h.edits)|
    ensures !AnyShown(h.edits) ==> LostCount(NewFile, h.edits) == |Texts(NewFile, h.edits)|
  {
    hide AnyShown, NextAfter;
    NextAfterIs(Place(1, 1), 0, 0, h.edits);
  }

  lemma ReadyIffCaughtUp(next: Place, at: Place, h: Hunk, h2: Hunk)
    requires NoFurther(next, at) && HasLines(h) && HasLines(h2) && h2.skip > 0
    requires h.skip > 0 || next == Place(1, 1)
    ensures var start := StartOf(at, h);
      Ready(NextAfter(next, start.o, start.n, h.edits), EndOf(at, h), h2) <==> CaughtUp(h, h2)
  {
    hide Texts, StartOf, NextAfter, LostCount, AnyShown;
    NextIs(next, at, h);
    AllLost(h);
    StartWhere(EndOf(at, h), h2);
  }

  // ----- all of them -----

  predicate AllApart(hunks: seq<Hunk>) {
    forall i :: 0 <= i < |hunks| ==> HasLines(hunks[i]) && hunks[i].skip > 0
  }

  lemma AllCaughtUpFirst(hunks: seq<Hunk>)
    requires hunks != []
    ensures AllCaughtUp(hunks) <==> AllCaughtUp(hunks[1..]) && (|hunks| > 1 ==> CaughtUp(hunks[0], hunks[1]))
  {
    hide CaughtUp;
    var rest := hunks[1..];
    if AllCaughtUp(hunks) {
      forall i | 0 <= i < |rest| - 1 ensures CaughtUp(rest[i], rest[i + 1]) {
        assert CaughtUp(hunks[i + 1], hunks[i + 2]);
      }
    }
    if AllCaughtUp(rest) && (|hunks| > 1 ==> CaughtUp(hunks[0], hunks[1])) {
      forall i | 0 <= i < |hunks| - 1 ensures CaughtUp(hunks[i], hunks[i + 1]) {
        if i > 0 { assert CaughtUp(rest[i - 1], rest[i]); }
      }
    }
  }

  /** A hunk's rows end both lists alike, so what is left to compare is the gaps. */
  lemma SplitOff(x: Line, y: Line, rows: seq<Line>, a: seq<Line>, b: seq<Line>)
    ensures [x] + (rows + a) == [y] + (rows + b) <==> x == y && a == b
  {
    SameListIff(x, y, rows + a, rows + b);
    SameTailIff(rows, a, b);
  }

  lemma LaterSeparator(f: nat, id: nat, next: Place, at: Place, h: Hunk, raw: string)
    requires NoFurther(next, at) && HasLines(h) && h.skip > 0
    ensures var sep := Separator(f, id, next, StartOf(at, h), raw, false);
      var gap := Bare(f, GapRow(Gap(id, h.skip, [], Between)));
      |sep.rows| == 1 && sep.id == NextId(id) && (sep.rows == [gap] <==> Ready(next, at, h))
  {
    hide StartOf, HasLines;
    GapIsLarge(next, at, h);
    var sep := Separator(f, id, next, StartOf(at, h), raw, false);
    assert sep.rows[0].kind.GapRow?;
  }

  lemma {:induction false} LaterGapsIff(f: nat, id: nat, next: Place, at: Place, hunks: seq<Hunk>)
    requires NoFurther(next, at) && AllApart(hunks)
    ensures var o, t := HunkRows(f, id, next, at, hunks, false), TrueRows(f, id, false, at, hunks);
      && |o.rows| == |t.rows| && o.id == t.id
      && (o.rows == t.rows <==> hunks == [] || (Ready(next, at, hunks[0]) && AllCaughtUp(hunks)))
    decreases |hunks|
  {
    hide Rows, NextAfter, Separator, HunkLine, StartOf, EndOf, Ready, CaughtUp, AllCaughtUp, NoFurther, HasLines;
    if hunks != [] {
      var h, start, more := hunks[0], StartOf(at, hunks[0]), hunks[1..];
      var next' := NextAfter(next, start.o, start.n, h.edits);
      var sep := Separator(f, id, next, start, HunkLine(at, h), false);
      LaterSeparator(f, id, next, at, h, HunkLine(at, h));
      NextIs(next, at, h);
      AllCaughtUpFirst(hunks);
      if more != [] { ReadyIffCaughtUp(next, at, h, more[0]); } else { NothingToCatchUp(); }
      LaterGapsIff(f, sep.id, next', EndOf(at, h), more);
      var gap := Bare(f, GapRow(Gap(id, h.skip, [], Between)));
      assert sep.rows == [sep.rows[0]];
      SplitOff(sep.rows[0], gap, Rows(f, start.o, start.n, h.edits),
               HunkRows(f, sep.id, next', EndOf(at, h), more, false).rows,
               TrueRows(f, NextId(id), false, EndOf(at, h), more).rows);
    }
  }

  lemma FirstSeparator(f: nat, id: nat, h: Hunk, raw: string)
    requires HasLines(h)
    ensures var top := Place(1, 1); var sep := Separator(f, id, top, StartOf(top, h), raw, false);
      var gap := Bare(f, GapRow(Gap(id, h.skip, [], Leading)));
      sep == if h.skip > 0 then Output([gap], NextId(id)) else Output([], id)
  {
    hide StartOf, HasLines;
    GapIsLarge(Place(1, 1), Place(1, 1), h);
  }

  /** With hunks and their gaps, the rows say how many lines were left out before each hunk
      exactly when after no hunk the parser is behind the next one: no line of it is lost, and
      a side it has no line of is one that the next hunk has no line of either. */
  lemma GapsRightIff(f: nat, id: nat, hunks: seq<Hunk>)
    requires Apart(hunks)
    ensures var o, t := HunkRows(f, id, TOP, TOP, hunks, false), TrueRows(f, id, true, TOP, hunks);
      |o.rows| == |t.rows| && o.id == t.id && (o.rows == t.rows <==> AllCaughtUp(hunks))
  {
    hide Rows, NextAfter, Separator, HunkLine, StartOf, EndOf, Ready, CaughtUp, AllCaughtUp, HasLines;
    if hunks == [] {
      NothingToCatchUp();
    } else {
      var top := Place(1, 1);
      var h, start, more := hunks[0], StartOf(top, hunks[0]), hunks[1..];
      var next' := NextAfter(top, start.o, start.n, h.edits);
      var sep := Separator(f, id, top, start, HunkLine(top, h), false);
      FirstSeparator(f, id, h, HunkLine(top, h));
      NextIs(top, top, h);
      AllCaughtUpFirst(hunks);
      if more != [] { ReadyIffCaughtUp(top, top, h, more[0]); } else { NothingToCatchUp(); }
      LaterGapsIff(f, sep.id, next', EndOf(top, h), more);
      var rows := Rows(f, start.o, start.n, h.edits);
      var a := HunkRows(f, sep.id, next', EndOf(top, h), more, false).rows;
      var b := TrueRows(f, sep.id, false, EndOf(top, h), more).rows;
      SameTailIff(sep.rows, rows + a, rows + b);
      SameTailIff(rows, a, b);
    }
  }

  lemma NothingToCatchUp()
    ensures AllCaughtUp([])
  {
  }

  // ----- whole patches -----

  lemma {:induction false} CutLostCount(side: Side, edits: seq<Edit>)
    ensures LostCount(side, CutEdits(edits)) == LostCount(side, edits)
  {
    hide Lost, WithoutCr;
    if edits != [] {
      assert CutEdits(edits)[0] == CutEdit(edits[0]) && CutEdits(edits)[1..] == CutEdits(edits[1..]);
      CutKeepsLost(edits[0]);
      CutLostCount(side, edits[1..]);
    }
  }

  lemma CutHunkBehind(side: Side, h: Hunk)
    ensures Behind(side, CutHunk(h)) == Behind(side, h) && Empty(side, CutHunk(h)) == Empty(side, h)
  {
    hide LostCount, Texts;
    CutTextsLength(side, h.edits);
    CutLostCount(side, h.edits);
  }

  lemma CutCatchesUp(hunks: seq<Hunk>)
    ensures AllCaughtUp(CutHunks(hunks)) <==> AllCaughtUp(hunks)
    ensures Apart(CutHunks(hunks)) <==> Apart(hunks)
  {
    hide Behind, Empty;
    var cut := CutHunks(hunks);
    forall i | 0 <= i < |hunks|
      ensures Behind(OldFile, cut[i]) == Behind(OldFile, hunks[i]) && Empty(OldFile, cut[i]) == Empty(OldFile, hunks[i])
      ensures Behind(NewFile, cut[i]) == Behind(NewFile, hunks[i]) && Empty(NewFile, cut[i]) == Empty(NewFile, hunks[i])
      ensures HasLines(cut[i]) <==> HasLines(hunks[i])
    {
      CutHunkBehind(OldFile, hunks[i]);
      CutHunkBehind(NewFile, hunks[i]);
      CutTextsLength(OldFile, hunks[i].edits);
      CutTextsLength(NewFile, hunks[i].edits);
    }
    if AllCaughtUp(cut) {
      forall i | 0 <= i < |hunks| - 1 ensures CaughtUp(hunks[i], hunks[i + 1]) { assert CaughtUp(cut[i], cut[i + 1]); }
    }
    assert forall i :: 0 <= i < |hunks| ==> cut[i].skip == hunks[i].skip;
    if Apart(cut) {
      forall i | 0 <= i < |hunks| ensures HasLines(hunks[i]) && (i >= 1 ==> hunks[i].skip > 0) {
        assert HasLines(cut[i]) && (i >= 1 ==> cut[i].skip > 0);
      }
    }
  }

  predicate FileApart(p: FilePatch) {
    p.body.Hunks? ==> Apart(p.body.hunks)
  }

  predicate FileCaughtUp(p: FilePatch) {
    p.body.Hunks? ==> AllCaughtUp(p.body.hunks)
  }

  predicate PatchApart(patch: seq<FilePatch>) {
    forall i :: 0 <= i < |patch| ==> FileApart(patch[i])
  }

  predicate PatchCaughtUp(patch: seq<FilePatch>) {
    forall i :: 0 <= i < |patch| ==> FileCaughtUp(patch[i])
  }

  lemma PatchCaughtUpFirst(patch: seq<FilePatch>)
    requires patch != []
    ensures PatchCaughtUp(patch) <==> FileCaughtUp(patch[0]) && PatchCaughtUp(patch[1..])
  {
    hide FileCaughtUp;
    if FileCaughtUp(patch[0]) && PatchCaughtUp(patch[1..]) {
      assert forall i :: 1 <= i < |patch| ==> patch[i] == patch[1..][i - 1];
    }
  }

  function TrueFileRows(f: nat, id: nat, p: FilePatch): Output {
    var o := if p.body.Hunks? then TrueRows(f, id, true, TOP, p.body.hunks) else BodyRows(f, id, p.body, false);
    Output([Bare(f, FileHeader)] + o.rows, o.id)
  }

  /** The rows of a patch with every gap right. */
  function TruePatchRows(l: Listing, id: nat, patch: seq<FilePatch>): Output
    requires l.Ok()
    decreases |patch|
  {
    if patch == [] then Output([], id)
    else
      var m := Listed(l, patch[0]);
      var first := TrueFileRows(m.indexes[ReadPath(patch[0].path)], id, patch[0]);
      var rest := TruePatchRows(m, first.id, patch[1..]);
      Output(first.rows + rest.rows, rest.id)
  }

  lemma FileGapsRightIff(f: nat, id: nat, p: FilePatch)
    requires FileApart(p)
    ensures var o, t := FileRows(f, id, CutFile(p), false), TrueFileRows(f, id, CutFile(p));
      |o.rows| == |t.rows| && o.id == t.id && (o.rows == t.rows <==> FileCaughtUp(p))
  {
    hide HunkRows, TrueRows, Apart, AllCaughtUp, CutHunks;
    if p.body.Hunks? {
      var cut := CutHunks(p.body.hunks);
      CutCatchesUp(p.body.hunks);
      GapsRightIff(f, id, cut);
      SameTailIff([Bare(f, FileHeader)], HunkRows(f, id, TOP, TOP, cut, false).rows,
                  TrueRows(f, id, true, TOP, cut).rows);
    }
  }

  lemma PartsAgreeIff<T>(x: seq<T>, y: seq<T>, a: seq<T>, b: seq<T>)
    requires |x| == |y|
    ensures x + a == y + b <==> x == y && a == b
  {
    if x + a == y + b {
      assert x == (x + a)[..|x|] && y == (y + b)[..|y|] && a == (x + a)[|x|..] && b == (y + b)[|y|..];
    }
  }

  /** Over all files of a patch that was split off a text: every gap has the number of lines
      left out before its hunk exactly when no hunk leaves the parser behind the next one. */
  lemma {:induction false} PatchGapsRightIff(l: Listing, id: nat, patch: seq<FilePatch>)
    requires l.Ok() && PatchApart(patch)
    ensures var o, t := PatchRows(l, id, Cut(patch), false), TruePatchRows(l, id, Cut(patch));
      |o.rows| == |t.rows| && o.id == t.id && (o.rows == t.rows <==> PatchCaughtUp(patch))
    decreases |patch|
  {
    hide FileRows, TrueFileRows, FileApart, FileCaughtUp, PatchCaughtUp, Listed, Listing.Ok, CutFile, ReadPath;
    if patch == [] {
      assert PatchCaughtUp([]) by { NoFilesToCatchUp(); }
    } else {
      var p, more := patch[0], patch[1..];
      assert Cut(patch)[0] == CutFile(p) && Cut(patch)[1..] == Cut(more);
      var m := Listed(l, CutFile(p));
      var f := m.indexes[ReadPath(CutFile(p).path)];
      var o, t := FileRows(f, id, CutFile(p), false), TrueFileRows(f, id, CutFile(p));
      PatchCaughtUpFirst(patch);
      FileGapsRightIff(f, id, p);
      PatchGapsRightIff(m, o.id, more);
      PartsAgreeIff(o.rows, t.rows, PatchRows(m, o.id, Cut(more), false).rows, TruePatchRows(m, o.id, Cut(more)).rows);
    }
  }

  lemma NoFilesToCatchUp()
    ensures PatchCaughtUp([])
  {
  }

  lemma TextGapsRightIff(numstat: string, patch: seq<FilePatch>)
    requires AllPrintable(patch) && PatchApart(patch)
    ensures var t := TruePatchRows(NumstatListing(numstat), 0, Cut(patch));
      ParsedState(numstat, TextOf(patch), false).lines == t.rows <==> PatchCaughtUp(patch)
  {
    hide ParsedState, TextOf, PatchRows, TruePatchRows, AllPrintable, PatchApart, PatchCaughtUp, Cut;
    TextParses(numstat, patch, false);
    PatchGapsRightIff(NumstatListing(numstat), 0, patch);
  }

  // ----- a gap that is too large -----

  function WithComment(): Hunk {
    Hunk(0, "", [Remove("-- old"), Keep("a")])
  }

  function AfterComment(): Hunk {
    Hunk(5, "", [Keep("b")])
  }

  lemma CommentPlaces()
    ensures var h, h2 := WithComment(), AfterComment();
      && StartOf(TOP, h) == TOP && EndOf(TOP, h) == Place(3, 2)
      && StartOf(Place(3, 2), h2) == Place(8, 7) && HunksFit(TOP, [h, h2])
  {
    var edits := WithComment().edits;
    assert edits[1..] == [Keep("a")] && edits[1..][1..] == [] && AfterComment().edits[1..] == [];
    assert Texts(OldFile, edits[1..]) == ["a"] && Texts(NewFile, edits[1..]) == ["a"];
    assert Texts(OldFile, AfterComment().edits) == ["b"] && Texts(NewFile, AfterComment().edits) == ["b"];
    assert |Texts(OldFile, edits)| == 2 && |Texts(NewFile, edits)| == 1;
    assert [WithComment(), AfterComment()][1..] == [AfterComment()] && [AfterComment()][1..] == [];
    assert HunksFit(Place(3, 2), [AfterComment()]);
  }

  lemma CommentRows()
    ensures |Rows(0, 1, 1, WithComment().edits)| == 1 && NextAfter(TOP, 1, 1, WithComment().edits) == Place(2, 2)
  {
    var edits := WithComment().edits;
    assert edits[0].text[..3] == "-- ";
    assert edits[1..] == [Keep("a")] && edits[1..][1..] == [];
    assert Lost(edits[0]) && !Lost(edits[1..][0]);
    NoRows(0, 2, 2);
    RowsFirst(0, 1, 1, edits[1..]);
    assert NextAfter(Place(2, 2), 2, 2, []) == Place(2, 2);
    assert NextAfter(TOP, 1, 1, edits[1..]) == Place(2, 2);
  }

  /** Five lines left out after a deleted line of an SQL comment are counted as six. */
  lemma GapCountsTheLostLine()
    ensures var hunks := [WithComment(), AfterComment()];
      && HunksFit(TOP, hunks) && AfterComment().skip == 5
      && var rows := HunkRows(0, 0, TOP, TOP, hunks, false).rows;
         |rows| > 1 && rows[1] == Bare(0, GapRow(Gap(0, 6, [], Between)))
  {
    hide Rows, NextAfter, StartOf, EndOf, HunkLine, HunksFit;
    CommentPlaces();
    CommentRows();
    var hunks := [WithComment(), AfterComment()];
    assert hunks[1..] == [AfterComment()];
    var rest := HunkRows(0, 0, Place(2, 2), Place(3, 2), hunks[1..], false).rows;
    assert rest[0] == Bare(0, GapRow(Gap(0, 6, [], Between)));
    SecondRow(Rows(0, 1, 1, WithComment().edits), rest);
  }

  lemma SecondRow(a: seq<Line>, b: seq<Line>)
    requires |a| == 1 && b != []
    ensures |[] + (a + b)| > 1 && ([] + (a + b))[1] == b[0]
  {
  }
}
