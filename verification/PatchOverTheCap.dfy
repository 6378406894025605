/** A patch that, parsed, is one click away from more rows than the cap. */
module PatchOverTheCap {
  import opened Basics
  import opened Options
  import opened Text
  import opened DiffRows
  import opened DiffExpand
  import opened DiffCollapse
  import opened DiffSnapshot
  import opened PatchParser
  import opened PatchHeaders
  import opened PatchHunks
  import opened PatchRoundTrip
  import opened PatchText

  /** One file: 49,995 added lines, then five unchanged ones. */
  function LongPatch(): seq<FilePatch> {
    [FilePatch("a", Same, None, Hunks("a/a", "b/a", [Hunk(0, "", LongEdits(MAX_RENDERED_DIFF_LINES - 5))]))]
  }

  function LongEdits(n: nat): seq<Edit> {
    seq(n, i => Insert("x")) + seq(5, i => Keep("x"))
  }

  lemma {:induction false} AddedRows(n: nat, from: nat, rest: seq<Edit>)
    returns (added: seq<Line>)
    ensures Rows(0, 1, from, seq(n, i => Insert("x")) + rest) == added + Rows(0, 1, from + n, rest)
    ensures |added| == n && forall i :: 0 <= i < n ==> added[i].kind.Addition? && added[i].file == 0
    decreases n
  {
    hide Rows;
    var edits := seq(n, i => Insert("x")) + rest;
    if n == 0 {
      assert edits == rest;
      added := [];
      NothingBeforeRows(Rows(0, 1, from, rest));
    } else {
      assert edits[0] == Insert("x") && edits[1..] == seq(n - 1, i => Insert("x")) + rest;
      assert !Lost(edits[0]) by { NotLost(); }
      RowsFirst(0, 1, from, edits);
      var more := AddedRows(n - 1, from + 1, rest);
      added := [RowOf(0, 1, from, edits[0])] + more;
      Regrouped([RowOf(0, 1, from, edits[0])], more, Rows(0, 1, from + n, rest));
      assert Rows(0, 1, from, edits) == [RowOf(0, 1, from, edits[0])] + Rows(0, 1, from, edits)[1..];
    }
  }

  lemma NotLost()
    ensures !Lost(Insert("x")) && !Lost(Keep("x"))
  {
  }

  lemma {:induction false} KeptRows(n: nat, o: nat, from: nat)
    ensures var rows := Rows(0, o, from, seq(n, i => Keep("x")));
      |rows| == n && AllContext(rows) && forall i :: 0 <= i < n ==> rows[i].file == 0
    decreases n
  {
    hide Rows;
    var edits := seq(n, i => Keep("x"));
    if n == 0 {
      assert edits == [];
      NoRows(0, o, from);
    } else {
      assert edits[0] == Keep("x") && edits[1..] == seq(n - 1, i => Keep("x"));
      assert !Lost(edits[0]) by { NotLost(); }
      RowsFirst(0, o, from, edits);
      KeptRows(n - 1, o + 1, from + 1);
      var rows := Rows(0, o, from, edits);
      assert forall i :: 1 <= i < |rows| ==> rows[i] == rows[1..][i - 1];
    }
  }

  /** Parsed, it fills the cap exactly; one click on its gap leaves a row too many. */
  lemma LongPatchPassesTheCap()
    ensures var v := Parsed("", TextOf(LongPatch()), true);
      && SnapshotOk(v) && |v.lines| == MAX_RENDERED_DIFF_LINES && !v.truncated
      && |Expanded(v, MAX_RENDERED_DIFF_LINES - 1, Start).0.lines| == MAX_RENDERED_DIFF_LINES + 1
  {
    hide Steps, Lines, TextRows, TextOf, SnapshotOk, Expanded, Finished, LongEdits, AllPrintable, ReadPath;
    LongPatchPrints();
    NothingListed();
    OneListed(NumstatListing(""), LongPatch());
    TextParses("", LongPatch(), true);
    var end := ParsedState("", TextOf(LongPatch()), true);
    var head, added, context := LongTextRows();
    OneRowOverTheCap(end.files, head, added, context);
  }

  lemma OneListed(l: Listing, patch: seq<FilePatch>)
    requires l.Ok() && |patch| == 1
    ensures PatchListing(l, patch).files != []
  {
    hide ReadPath;
    assert patch[1..] == [];
  }

  lemma LongPatchPrints()
    ensures AllPrintable(LongPatch())
  {
    hide LongEdits;
    var edits := LongEdits(MAX_RENDERED_DIFF_LINES - 5);
    LongEditsFit();
    var hunks := [Hunk(0, "", edits)];
    assert hunks[1..] == [];
    assert HunksFit(TOP, hunks);
  }

  lemma LongEditsFit()
    ensures var edits := LongEdits(MAX_RENDERED_DIFF_LINES - 5);
      && |edits| == MAX_RENDERED_DIFF_LINES && OneLineEdits(edits) && CutEdits(edits) == edits
      && edits[|edits| - 1].Keep?
  {
    PlainX();
  }

  lemma PlainX()
    ensures OneLine("x") && WithoutCr("x") == "x"
  {
  }

  lemma {:induction false} SomethingKept(side: Side, edits: seq<Edit>)
    requires edits != [] && edits[|edits| - 1].Keep?
    ensures Texts(side, edits) != []
  {
    if |edits| > 1 { SomethingKept(side, edits[1..]); }
  }

  /** The rows of the text: the header, then those of its only hunk. */
  lemma LongTextRows() returns (head: Line, added: seq<Line>, context: seq<Line>)
    ensures TextRows("", LongPatch(), true) == [head] + (added + context) && head == Bare(0, FileHeader)
    ensures |added| == MAX_RENDERED_DIFF_LINES - 5 && |context| == 5 && AllContext(context)
    ensures forall i :: 0 <= i < |added| ==> added[i].kind.Addition? && added[i].file == 0
    ensures forall i :: 0 <= i < |context| ==> context[i].file == 0
  {
    hide LongEdits, Rows, Texts, ReadPath, Lines;
    var edits := LongEdits(MAX_RENDERED_DIFF_LINES - 5);
    LongEditsFit();
    SomethingKept(OldFile, edits);
    SomethingKept(NewFile, edits);
    head := Bare(0, FileHeader);
    added, context := LongRows();
    NothingListed();
    LongCut(edits);
    var p := FilePatch("a", Same, None, Hunks("a/a", "b/a", [Hunk(0, "", edits)]));
    OneFileRows(NumstatListing(""), p);
    OneHunkRows("", edits);
  }

  lemma LongCut(edits: seq<Edit>)
    requires CutEdits(edits) == edits
    ensures Cut([FilePatch("a", Same, None, Hunks("a/a", "b/a", [Hunk(0, "", edits)]))])
         == [FilePatch("a", Same, None, Hunks("a/a", "b/a", [Hunk(0, "", edits)]))]
  {
    assert CutHunks([Hunk(0, "", edits)]) == [Hunk(0, "", edits)];
  }

  lemma LongRows() returns (added: seq<Line>, context: seq<Line>)
    ensures Rows(0, 1, 1, LongEdits(MAX_RENDERED_DIFF_LINES - 5)) == added + context
    ensures |added| == MAX_RENDERED_DIFF_LINES - 5 && |context| == 5 && AllContext(context)
    ensures forall i :: 0 <= i < |added| ==> added[i].kind.Addition? && added[i].file == 0
    ensures forall i :: 0 <= i < |context| ==> context[i].file == 0
  {
    hide Rows;
    var n := MAX_RENDERED_DIFF_LINES - 5;
    added := AddedRows(n, 1, seq(5, i => Keep("x")));
    context := Rows(0, 1, 1 + n, seq(5, i => Keep("x")));
    KeptRows(5, 1, 1 + n);
  }
}
