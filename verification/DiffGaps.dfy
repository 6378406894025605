/** Where a gap lies among the changes of its file, as the rows around it show: what tells
    a full expansion that has to stop which side to keep. */
module DiffGaps {
  import opened Basics
  import opened DiffRows
  import opened DiffExpand
  import opened DiffCollapse
  import opened DiffSnapshot

  /** Going up from below these rows, a change of file `f` comes before any other file. */
  predicate ChangeAbove(rows: seq<Line>, f: nat) {
    rows != [] && rows[|rows| - 1].file == f && (IsChange(rows[|rows| - 1]) || ChangeAbove(rows[..|rows| - 1], f))
  }

  /** Going down from above them. */
  predicate ChangeBelow(rows: seq<Line>, f: nat) {
    rows != [] && rows[0].file == f && (IsChange(rows[0]) || ChangeBelow(rows[1..], f))
  }

  function Where(above: bool, below: bool): GapPosition {
    if !above then Leading else if !below then Trailing else Between
  }

  /** With `a` above and `z` below, every gap of the rows that hides some knows where it lies,
      and hides rows of its own file. */
  predicate Placed(a: seq<Line>, rows: seq<Line>, z: seq<Line>)
    decreases |rows|
  {
    rows == [] || (PlacedHere(a, rows[0], rows[1..] + z) && Placed(a + [rows[0]], rows[1..], z))
  }

  predicate PlacedHere(a: seq<Line>, row: Line, z: seq<Line>) {
    Expandable(row) ==>
      && row.kind.gap.position == Where(ChangeAbove(a, row.file), ChangeBelow(z, row.file))
      && forall i :: 0 <= i < |row.kind.gap.hidden| ==> row.kind.gap.hidden[i].file == row.file
  }

  lemma {:induction false} PlacedConcat(a: seq<Line>, x: seq<Line>, y: seq<Line>, z: seq<Line>)
    ensures Placed(a, x + y, z) <==> Placed(a, x, y + z) && Placed(a + x, y, z)
    decreases |x|
  {
    hide PlacedHere;
    if x == [] {
      assert x + y == y && a + x == a;
    } else {
      assert (x + y)[0] == x[0] && (x + y)[1..] == x[1..] + y;
      assert (x[1..] + y) + z == x[1..] + (y + z);
      assert (a + [x[0]]) + x[1..] == a + x;
      PlacedConcat(a + [x[0]], x[1..], y, z);
    }
  }

  // ----- rows of one file -----

  predicate AllOf(rows: seq<Line>, f: nat) {
    forall i :: 0 <= i < |rows| ==> rows[i].file == f
  }

  predicate NoChange(rows: seq<Line>) {
    forall i :: 0 <= i < |rows| ==> !IsChange(rows[i])
  }

  lemma {:induction false} AboveThrough(a: seq<Line>, rows: seq<Line>, f: nat)
    requires AllOf(rows, f)
    ensures ChangeAbove(a + rows, f) <==> HasChange(rows) || ChangeAbove(a, f)
    decreases |rows|
  {
    if rows == [] {
      assert a + rows == a;
    } else {
      var n := |rows| - 1;
      assert (a + rows)[..|a + rows| - 1] == a + rows[..n];
      AboveThrough(a, rows[..n], f);
      LastChange(rows);
    }
  }

  lemma LastChange(rows: seq<Line>)
    requires rows != []
    ensures HasChange(rows) <==> IsChange(rows[|rows| - 1]) || HasChange(rows[..|rows| - 1])
  {
    var n := |rows| - 1;
    if HasChange(rows[..n]) {
      var k :| 0 <= k < n && IsChange(rows[..n][k]);
      assert IsChange(rows[k]);
    }
    if HasChange(rows) && !IsChange(rows[n]) {
      var k :| 0 <= k < |rows| && IsChange(rows[k]);
      assert rows[..n][k] == rows[k];
    }
  }

  lemma {:induction false} BelowThrough(rows: seq<Line>, z: seq<Line>, f: nat)
    requires AllOf(rows, f)
    ensures ChangeBelow(rows + z, f) <==> HasChange(rows) || ChangeBelow(z, f)
    decreases |rows|
  {
    if rows == [] {
      assert rows + z == z;
    } else {
      assert (rows + z)[1..] == rows[1..] + z;
      BelowThrough(rows[1..], z, f);
      assert rows[0..] == rows;
      ChangeFromHere(rows, 0);
    }
  }

  lemma {:induction false} PlacedFlat(a: seq<Line>, rows: seq<Line>, z: seq<Line>)
    requires NoneExpandable(rows)
    ensures Placed(a, rows, z)
    decreases |rows|
  {
    if rows != [] { PlacedFlat(a + [rows[0]], rows[1..], z); }
  }

  // ----- collapsing -----

  /** Unchanged rows around a gap of the same file. */
  lemma PlacedGap(a: seq<Line>, x: seq<Line>, gap: Line, y: seq<Line>, z: seq<Line>)
    requires gap.kind.GapRow? && AllContext(x) && AllContext(y) && AllOf(x, gap.file) && AllOf(y, gap.file)
    requires gap.kind.gap.position == Where(ChangeAbove(a, gap.file), ChangeBelow(z, gap.file))
    requires AllOf(gap.kind.gap.hidden, gap.file)
    ensures Placed(a, x + [gap] + y, z)
  {
    hide ChangeAbove, ChangeBelow, Where;
    PlacedConcat(a, x + [gap], y, z);
    PlacedConcat(a, x, [gap], y + z);
    PlacedFlat(a, x, [gap] + (y + z));
    PlacedFlat(a + (x + [gap]), y, z);
    AboveThrough(a, x, gap.file);
    BelowThrough(y, z, gap.file);
    OnePlaced(a + x, gap, y + z);
  }

  lemma OnePlaced(a: seq<Line>, row: Line, z: seq<Line>)
    requires PlacedHere(a, row, z)
    ensures Placed(a, [row], z)
  {
    hide PlacedHere;
    assert [row][1..] + z == z && [row][1..] == [];
  }

  lemma {:induction false} RunPlaced(a: seq<Line>, run: seq<Line>, z: seq<Line>, f: nat, id: nat)
    requires AllContext(run) && AllOf(run, f) && |run| <= U32_MAX
    ensures var rows := RunOutput(run, ChangeAbove(a, f), ChangeBelow(z, f), id).rows;
      Placed(a, rows, z) && AllOf(rows, f) && NoChange(rows) && (rows == [] <==> run == [])
  {
    hide ChangeAbove, ChangeBelow, Placed, CollapsedRun;
    var above, below := ChangeAbove(a, f), ChangeBelow(z, f);
    if above || below {
      CollapsedRunPlaced(a, run, z, f, id);
    } else {
      PlacedFlat(a, run, z);
    }
  }

  lemma CollapsedRunPlaced(a: seq<Line>, run: seq<Line>, z: seq<Line>, f: nat, id: nat)
    requires AllContext(run) && AllOf(run, f) && |run| <= U32_MAX
    ensures var rows := CollapsedRun(run, Where(ChangeAbove(a, f), ChangeBelow(z, f)), id).rows;
      Placed(a, rows, z) && AllOf(rows, f) && NoChange(rows) && (rows == [] <==> run == [])
  {
    hide ChangeAbove, ChangeBelow, Placed, Where, KeptStart, KeptEnd;
    var position := Where(ChangeAbove(a, f), ChangeBelow(z, f));
    var s, e := KeptStart(position, |run|), |run| - KeptEnd(position, |run|);
    if e - s <= COLLAPSED_CONTEXT_THRESHOLD {
      PlacedFlat(a, run, z);
    } else {
      var hidden := run[s..e];
      assert hidden[..|hidden|] == hidden && hidden[0].file == f;
      PlacedGap(a, run[..s], Bare(f, GapRow(Gap(id, |hidden|, hidden, position))), run[e..], z);
    }
  }

  /** The rows of one file, the changes above it told by `sawChange`, none of its own below. */
  lemma {:induction false} CollapsedFilePlaced(a: seq<Line>, lines: seq<Line>, z: seq<Line>, f: nat, sawChange: bool,
                                               id: nat)
    requires AllOf(lines, f) && NoGaps(lines) && |lines| <= U32_MAX
    requires sawChange == ChangeAbove(a, f) && !ChangeBelow(z, f)
    ensures var rows := CollapsedFile(lines, sawChange, id).rows;
      && Placed(a, rows, z) && AllOf(rows, f)
      && (HasChange(rows) <==> HasChange(lines)) && (rows == [] <==> lines == [])
    decreases |lines|, 0
  {
    hide ChangeAbove, ChangeBelow, Placed, RunOutput, HasChange, RunLength, CollapsedFile;
    if lines == [] {
      NothingPlaced(a, z, sawChange, id);
    } else if !lines[0].kind.Context? {
      FileStepRow(lines, sawChange, id);
      var row, rest := [lines[0]], CollapsedFile(lines[1..], sawChange || IsChange(lines[0]), id).rows;
      AboveThrough(a, row, f);
      ChangeOfOne(lines[0]);
      CollapsedFilePlaced(a + row, lines[1..], z, f, sawChange || IsChange(lines[0]), id);
      PlacedFlat(a, row, rest + z);
      PlacedConcat(a, row, rest, z);
      assert lines == row + lines[1..];
      ChangeInEither(row, lines[1..]);
      ChangeInEither(row, rest);
    } else {
      var n := RunLength(lines);
      FileStepRun(lines, sawChange, id, n);
      var run, more := lines[..n], lines[n..];
      var o := RunOutput(run, sawChange, HasChange(more), id);
      var rest := CollapsedFile(more, sawChange, o.id).rows;
      RestOfFile(a, run, more, z, f, sawChange, id);
      PlacedConcat(a, o.rows, rest, z);
      assert lines == run + more;
      NoChangeMeans(run);
      NoChangeMeans(o.rows);
      ChangeInEither(run, more);
      ChangeInEither(o.rows, rest);
    }
  }

  lemma RestOfFile(a: seq<Line>, run: seq<Line>, more: seq<Line>, z: seq<Line>, f: nat, sawChange: bool, id: nat)
    requires AllContext(run) && run != [] && AllOf(run + more, f) && NoGaps(more) && |run + more| <= U32_MAX
    requires sawChange == ChangeAbove(a, f) && !ChangeBelow(z, f)
    ensures var o := RunOutput(run, sawChange, HasChange(more), id);
      var rest := CollapsedFile(more, sawChange, o.id).rows;
      && Placed(a, o.rows, rest + z) && AllOf(o.rows, f) && NoChange(o.rows) && o.rows != []
      && Placed(a + o.rows, rest, z) && AllOf(rest, f) && (HasChange(rest) <==> HasChange(more))
    decreases |more|, 1
  {
    hide ChangeAbove, ChangeBelow, Placed, RunOutput, HasChange, CollapsedFile;
    assert AllOf(run, f) && AllOf(more, f) by {
      assert (run + more)[..|run|] == run && (run + more)[|run|..] == more;
    }
    var o := RunOutput(run, sawChange, HasChange(more), id);
    RunFacts(run, f, sawChange, HasChange(more), id);
    AboveThrough(a, o.rows, f);
    NoChangeMeans(o.rows);
    CollapsedFilePlaced(a + o.rows, more, z, f, sawChange, o.id);
    var rest := CollapsedFile(more, sawChange, o.id).rows;
    BelowThrough(rest, z, f);
    RunPlaced(a, run, rest + z, f, id);
  }

  lemma RunFacts(run: seq<Line>, f: nat, sawChange: bool, laterChange: bool, id: nat)
    requires AllContext(run) && AllOf(run, f) && |run| <= U32_MAX
    ensures var rows := RunOutput(run, sawChange, laterChange, id).rows; AllOf(rows, f) && NoChange(rows)
  {
    hide KeptStart, KeptEnd;
  }

  lemma NothingPlaced(a: seq<Line>, z: seq<Line>, sawChange: bool, id: nat)
    ensures CollapsedFile([], sawChange, id).rows == [] && Placed(a, [], z)
  {
  }

  lemma ChangeOfOne(row: Line)
    ensures HasChange([row]) <==> IsChange(row)
  {
    assert [row][0] == row;
  }

  lemma NoChangeMeans(rows: seq<Line>)
    requires NoChange(rows) || AllContext(rows)
    ensures !HasChange(rows)
  {
  }

  lemma ChangeInEither(x: seq<Line>, y: seq<Line>)
    ensures HasChange(x + y) <==> HasChange(x) || HasChange(y)
  {
    if HasChange(x) {
      var i :| 0 <= i < |x| && IsChange(x[i]);
      assert (x + y)[i] == x[i];
    }
    if HasChange(y) {
      var i :| 0 <= i < |y| && IsChange(y[i]);
      assert (x + y)[|x| + i] == y[i];
    }
  }

  /** All files: a stretch of one file ends where the next one begins. */
  lemma {:induction false} CollapsedPlaced(a: seq<Line>, lines: seq<Line>, id: nat)
    requires NoGaps(lines) && |lines| <= U32_MAX
    requires a == [] || lines == [] || a[|a| - 1].file != lines[0].file
    ensures var rows := Collapsed(lines, id).rows;
      Placed(a, rows, []) && (if lines == [] then rows == [] else rows != [] && rows[0].file == lines[0].file)
    decreases |lines|
  {
    hide Placed, CollapsedFile, FileLength, Collapsed, HasChange;
    if lines == [] {
      assert Collapsed([], id).rows == [] by { NothingCollapsed(id); }
      NothingPlaced(a, [], false, id);
    } else {
      var f, n := lines[0].file, FileLength(lines, lines[0].file);
      ContextStep(lines, id, n);
      var first := CollapsedFile(lines[..n], false, id);
      var rest := Collapsed(lines[n..], first.id).rows;
      FirstFile(lines[..n], f, id);
      CollapsedPlaced(a + first.rows, lines[n..], first.id);
      assert rest + [] == rest;
      NoneOf(a, rest, f);
      CollapsedFilePlaced(a, lines[..n], rest + [], f, false, id);
      PlacedConcat(a, first.rows, rest, []);
    }
  }

  lemma FirstFile(lines: seq<Line>, f: nat, id: nat)
    requires AllOf(lines, f) && NoGaps(lines) && |lines| <= U32_MAX && lines != []
    ensures var rows := CollapsedFile(lines, false, id).rows; rows != [] && AllOf(rows, f)
  {
    hide CollapsedFile, Placed;
    CollapsedFilePlaced([], lines, [], f, false, id);
  }

  lemma NoneOf(a: seq<Line>, z: seq<Line>, f: nat)
    requires (a == [] || a[|a| - 1].file != f) && (z == [] || z[0].file != f)
    ensures !ChangeAbove(a, f) && !ChangeBelow(z, f)
  {
  }

  lemma NothingCollapsed(id: nat)
    ensures Collapsed([], id).rows == []
  {
  }

  // ----- expanding -----

  ghost predicate AlikeBelow(x: seq<Line>, y: seq<Line>) {
    forall f: nat :: ChangeBelow(x, f) <==> ChangeBelow(y, f)
  }

  ghost predicate AlikeAbove(x: seq<Line>, y: seq<Line>) {
    forall f: nat :: ChangeAbove(x, f) <==> ChangeAbove(y, f)
  }

  lemma {:induction false} AlikeBelowUnder(rows: seq<Line>, x: seq<Line>, y: seq<Line>)
    requires AlikeBelow(x, y)
    ensures AlikeBelow(rows + x, rows + y)
    decreases |rows|
  {
    if rows == [] {
      assert rows + x == x && rows + y == y;
    } else {
      AlikeBelowUnder(rows[1..], x, y);
      assert (rows + x)[1..] == rows[1..] + x && (rows + y)[1..] == rows[1..] + y;
    }
  }

  lemma AlikeAboveOver(x: seq<Line>, y: seq<Line>, row: Line)
    requires AlikeAbove(x, y)
    ensures AlikeAbove(x + [row], y + [row])
  {
    assert (x + [row])[..|x|] == x && (y + [row])[..|y|] == y;
  }

  lemma {:induction false} PlacedAlikeBelow(a: seq<Line>, rows: seq<Line>, x: seq<Line>, y: seq<Line>)
    requires AlikeBelow(x, y) && Placed(a, rows, x)
    ensures Placed(a, rows, y)
    decreases |rows|
  {
    hide AlikeBelow, ChangeBelow, ChangeAbove, Where;
    if rows != [] {
      AlikeBelowUnder(rows[1..], x, y);
      assert ChangeBelow(rows[1..] + x, rows[0].file) <==> ChangeBelow(rows[1..] + y, rows[0].file) by {
        AlikeThere(rows[1..] + x, rows[1..] + y, rows[0].file);
      }
      PlacedAlikeBelow(a + [rows[0]], rows[1..], x, y);
    }
  }

  lemma AlikeThere(x: seq<Line>, y: seq<Line>, f: nat)
    requires AlikeBelow(x, y)
    ensures ChangeBelow(x, f) <==> ChangeBelow(y, f)
  {
    hide ChangeBelow;
  }

  lemma {:induction false} PlacedAlikeAbove(x: seq<Line>, y: seq<Line>, rows: seq<Line>, z: seq<Line>)
    requires AlikeAbove(x, y) && Placed(x, rows, z)
    ensures Placed(y, rows, z)
    decreases |rows|
  {
    hide AlikeAbove, ChangeBelow, ChangeAbove, Where;
    if rows != [] {
      assert ChangeAbove(x, rows[0].file) <==> ChangeAbove(y, rows[0].file) by { AlikeUp(x, y, rows[0].file); }
      AlikeAboveOver(x, y, rows[0]);
      PlacedAlikeAbove(x + [rows[0]], y + [rows[0]], rows[1..], z);
    }
  }

  lemma AlikeUp(x: seq<Line>, y: seq<Line>, f: nat)
    requires AlikeAbove(x, y)
    ensures ChangeAbove(x, f) <==> ChangeAbove(y, f)
  {
    hide ChangeAbove;
  }

  /** One row without a change gives way to others without any. */
  lemma SwapIsAlike(a: seq<Line>, g: Line, rows: seq<Line>, z: seq<Line>)
    requires !IsChange(g) && NoChange(rows) && rows != [] && AllOf(rows, g.file)
    ensures AlikeBelow([g] + z, rows + z) && AlikeAbove(a + [g], a + rows)
  {
    hide HasChange;
    NoChangeMeans([g]);
    NoChangeMeans(rows);
    forall f: nat
      ensures ChangeBelow([g] + z, f) <==> ChangeBelow(rows + z, f)
      ensures ChangeAbove(a + [g], f) <==> ChangeAbove(a + rows, f)
    {
      if f == g.file {
        BelowThrough([g], z, f);
        BelowThrough(rows, z, f);
        AboveThrough(a, [g], f);
        AboveThrough(a, rows, f);
      } else {
        OtherFile(a, rows, z, g.file, f);
        OtherFile(a, [g], z, g.file, f);
      }
    }
  }

  lemma OtherFile(a: seq<Line>, rows: seq<Line>, z: seq<Line>, g: nat, f: nat)
    requires rows != [] && AllOf(rows, g) && f != g
    ensures !ChangeBelow(rows + z, f) && !ChangeAbove(a + rows, f)
  {
    assert (a + rows)[|a + rows| - 1] == rows[|rows| - 1];
  }

  /** Whatever is revealed, what stays hidden keeps its place. */
  lemma ReplacementPlaced(a: seq<Line>, line: Line, before: nat, shown: nat, z: seq<Line>)
    requires GapOk(line) && Expandable(line) && before <= shown && 0 < shown <= |line.kind.gap.hidden|
    requires PlacedHere(a, line, z)
    ensures var rows := Replacement(line, line.kind.gap, before, shown);
      Placed(a, rows, z) && AllOf(rows, line.file) && NoChange(rows) && rows != []
  {
    hide ChangeAbove, ChangeBelow, Where, Placed;
    var gap := line.kind.gap;
    var n := |gap.hidden| - (shown - before);
    var head, mid, tail := gap.hidden[..before], gap.hidden[before..n], gap.hidden[n..];
    var rest := Remaining(line.file, gap.(hidden := mid));
    if mid == [] {
      PlacedFlat(a, head + rest + tail, z);
    } else {
      PlacedGap(a, head, rest[0], tail, z);
      assert rest == [rest[0]];
    }
  }

  lemma ExpandKeepsPlaced(v: View, index: nat, direction: ExpansionDirection, z: seq<Line>)
    requires RowsOk(v.lines) && Placed([], v.lines, z)
    ensures Placed([], Expanded(v, index, direction).0.lines, z)
  {
    hide Placed, GapOk, Ascending, GapIds, Replacement;
    var (w, res) := Expanded(v, index, direction);
    if res.Some? {
      var line, gap := v.lines[index], v.lines[index].kind.gap;
      var shown := RevealedCount(direction, |gap.hidden|, Available(v.lines));
      var before := FromStart(direction, gap.position, shown, |gap.hidden|);
      GapOfRows(v.lines, index);
      var a, b := v.lines[..index], v.lines[index + 1..];
      LinesAround(v, index);
      SwapPlaced(a, line, before, shown, b, z);
    } else {
      assert w.lines == v.lines;
    }
  }

  lemma SwapPlaced(a: seq<Line>, line: Line, before: nat, shown: nat, b: seq<Line>, z: seq<Line>)
    requires GapOk(line) && Expandable(line) && before <= shown && 0 < shown <= |line.kind.gap.hidden|
    requires Placed([], a + [line] + b, z)
    ensures Placed([], a + Replacement(line, line.kind.gap, before, shown) + b, z)
  {
    hide Placed, GapOk, Replacement, AlikeAbove, AlikeBelow;
    var rows := Replacement(line, line.kind.gap, before, shown);
    PlacedConcat([], a + [line], b, z);
    PlacedConcat([], a, [line], b + z);
    NothingAbove(a, line);
    TheOnePlaced(a, line, b + z);
    ReplacementPlaced(a, line, before, shown, b + z);
    SwapIsAlike(a, line, rows, b + z);
    PlacedAlikeBelow([], a, [line] + (b + z), rows + (b + z));
    PlacedAlikeAbove(a + [line], a + rows, b, z);
    PlacedConcat([], a, rows, b + z);
    PlacedConcat([], a + rows, b, z);
    assert [] + (a + rows) == a + rows;
  }

  lemma NothingAbove(a: seq<Line>, line: Line)
    ensures [] + a == a && [] + (a + [line]) == a + [line]
  {
  }

  lemma TheOnePlaced(a: seq<Line>, row: Line, z: seq<Line>)
    requires Placed(a, [row], z)
    ensures PlacedHere(a, row, z)
  {
    hide PlacedHere;
    assert [row][1..] + z == z;
  }

  lemma {:induction false} ClicksKeepPlaced(v: View, clicks: seq<Click>, z: seq<Line>)
    requires SnapshotOk(v) && Placed([], v.lines, z)
    ensures Placed([], Clicked(v, clicks).lines, z)
    decreases |clicks|
  {
    hide SnapshotOk, Expanded, Placed;
    if clicks != [] {
      OkRows(v);
      ExpandKeepsPlaced(v, clicks[0].index, clicks[0].direction, z);
      ExpandKeepsSnapshot(v, clicks[0].index, clicks[0].direction);
      ClicksKeepPlaced(Expanded(v, clicks[0].index, clicks[0].direction).0, clicks[1..], z);
    }
  }

  // ----- every gap on screen -----

  lemma {:induction false} PlacedAt(a: seq<Line>, rows: seq<Line>, z: seq<Line>, i: nat)
    requires Placed(a, rows, z) && i < |rows|
    ensures PlacedHere(a + rows[..i], rows[i], rows[i + 1..] + z)
    decreases i
  {
    hide PlacedHere;
    if i == 0 {
      assert a + rows[..0] == a;
    } else {
      PlacedAt(a + [rows[0]], rows[1..], z, i - 1);
      assert a + rows[..i] == (a + [rows[0]]) + rows[1..][..i - 1];
      assert rows[1..][i..] == rows[i + 1..];
    }
  }

  /** With complete context, whatever was clicked: a gap leads when no change of its file is
      above it, trails when none is below, the rows cut off at the cap included, and is
      between two otherwise. */
  lemma GapsKnowTheirPlace(files: seq<File>, lines: seq<Line>, clicks: seq<Click>, i: nat)
    requires FilesListed(lines, |files|) && NoGaps(lines) && |lines| <= U32_MAX
    requires var v := Clicked(Finished(files, lines, true), clicks); i < |v.lines| && Expandable(v.lines[i])
    ensures var v := Clicked(Finished(files, lines, true), clicks); var row := v.lines[i];
      row.kind.gap.position == Where(ChangeAbove(v.lines[..i], row.file),
                                     ChangeBelow(v.lines[i + 1..] + CutOff(Collapsed(lines, 0).rows), row.file))
  {
    hide Placed, Collapsed, Clicked, SnapshotOk, ChangeAbove, ChangeBelow, Where, Sum, ListedHeaders;
    var all := Collapsed(lines, 0).rows;
    CollapsedPlaced([], lines, 0);
    FinishedIsOk(files, lines, true);
    CutPlaced(all);
    ClicksKeepPlaced(Finished(files, lines, true), clicks, CutOff(all));
    var v := Clicked(Finished(files, lines, true), clicks);
    PlacedAt([], v.lines, CutOff(all), i);
    assert [] + v.lines[..i] == v.lines[..i];
  }

  /** What the cap leaves out. */
  function CutOff(rows: seq<Line>): seq<Line> {
    rows[Min(|rows|, MAX_RENDERED_DIFF_LINES)..]
  }

  lemma CutPlaced(rows: seq<Line>)
    requires Placed([], rows, [])
    ensures Placed([], Visible(rows), CutOff(rows))
  {
    hide Placed;
    PlacedConcat([], Visible(rows), CutOff(rows), []);
    assert rows == Visible(rows) + CutOff(rows) && CutOff(rows) + [] == CutOff(rows);
  }
}
