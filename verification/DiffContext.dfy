/** Which rows collapsing hides, judged row by row (`src/review_diff.rs`). */
module DiffContext {
  import opened Basics
  import opened DiffRows
  import opened DiffCollapse
  import opened DiffExpand

  // ----- what is shown -----

  function ShownOf(line: Line): seq<bool> {
    if Expandable(line) then seq(|line.kind.gap.hidden|, _ => false) else [true]
  }

  /** For each flattened row whether it is on screen or behind a gap. */
  function ShownRows(rows: seq<Line>): seq<bool> {
    if rows == [] then [] else ShownOf(rows[0]) + ShownRows(rows[1..])
  }

  lemma {:induction false} ShownConcat(a: seq<Line>, b: seq<Line>)
    ensures ShownRows(a + b) == ShownRows(a) + ShownRows(b)
  {
    if a == [] {
      assert a + b == b;
    } else {
      assert (a + b)[0] == a[0] && (a + b)[1..] == a[1..] + b;
      ShownConcat(a[1..], b);
      assert ShownOf(a[0]) + (ShownRows(a[1..]) + ShownRows(b)) == (ShownOf(a[0]) + ShownRows(a[1..])) + ShownRows(b);
    }
  }

  lemma {:induction false} ShownPlain(rows: seq<Line>)
    requires NoGaps(rows)
    ensures ShownRows(rows) == seq(|rows|, _ => true)
  {
    if rows != [] { ShownPlain(rows[1..]); }
  }

  // ----- row by row -----

  predicate IsContext(lines: seq<Line>, i: int) {
    0 <= i < |lines| && lines[i].kind.Context?
  }

  predicate ChangeBefore(lines: seq<Line>, sawChange: bool, i: int) {
    sawChange || exists j :: 0 <= j < i && j < |lines| && IsChange(lines[j])
  }

  predicate ChangeAfter(lines: seq<Line>, i: int) {
    exists j :: 0 <= j && i < j < |lines| && IsChange(lines[j])
  }

  /** At most three rows after the last row that is no context. */
  predicate NearBefore(lines: seq<Line>, i: int) {
    exists j :: i - COLLAPSED_CONTEXT_LINES <= j < i && -1 <= j && !IsContext(lines, j)
  }

  predicate NearAfter(lines: seq<Line>, i: int) {
    exists j :: i < j <= i + COLLAPSED_CONTEXT_LINES && j <= |lines| && !IsContext(lines, j)
  }

  /** Unchanged, in a file that changes, and away from the changed side or sides. */
  predicate Distant(lines: seq<Line>, sawChange: bool, i: int) {
    && IsContext(lines, i)
    && (ChangeBefore(lines, sawChange, i) || ChangeAfter(lines, i))
    && (ChangeBefore(lines, sawChange, i) ==> !NearBefore(lines, i))
    && (ChangeAfter(lines, i) ==> !NearAfter(lines, i))
  }

  /** A distant row is hidden unless it is distant all alone. */
  predicate HiddenAt(lines: seq<Line>, sawChange: bool, i: int) {
    Distant(lines, sawChange, i) && (Distant(lines, sawChange, i - 1) || Distant(lines, sawChange, i + 1))
  }

  function Pointwise(lines: seq<Line>, sawChange: bool): seq<bool> {
    seq(|lines|, i => !HiddenAt(lines, sawChange, i))
  }

  // ----- one run of context -----

  /** In the run at the front only its length and the changes around it matter. */
  lemma DistantInRun(lines: seq<Line>, sawChange: bool, n: nat, i: int)
    requires n == RunLength(lines) && 0 <= i < n
    ensures var later := HasChange(lines[n..]);
      Distant(lines, sawChange, i) <==>
        (sawChange || later) && (sawChange ==> i >= COLLAPSED_CONTEXT_LINES)
        && (later ==> n - i > COLLAPSED_CONTEXT_LINES)
  {
    var later := HasChange(lines[n..]);
    assert ChangeBefore(lines, sawChange, i) == sawChange;
    ChangeAfterRun(lines, n, i);
    assert NearBefore(lines, i) == (i < COLLAPSED_CONTEXT_LINES) by {
      if i < COLLAPSED_CONTEXT_LINES { assert !IsContext(lines, -1); }
    }
    assert NearAfter(lines, i) == (n - i <= COLLAPSED_CONTEXT_LINES) by {
      assert !IsContext(lines, n);
      assert forall j :: 0 <= j < n ==> IsContext(lines, j);
    }
  }

  lemma ChangeAfterRun(lines: seq<Line>, n: nat, i: int)
    requires n == RunLength(lines) && 0 <= i < n
    ensures ChangeAfter(lines, i) == HasChange(lines[n..])
  {
    if ChangeAfter(lines, i) {
      var j :| 0 <= j && i < j < |lines| && IsChange(lines[j]);
      assert lines[n..][j - n] == lines[j];
    }
    if HasChange(lines[n..]) {
      var k :| 0 <= k < |lines[n..]| && IsChange(lines[n..][k]);
      assert lines[n + k] == lines[n..][k];
    }
  }

  lemma RunHidden(lines: seq<Line>, sawChange: bool, n: nat, position: GapPosition, i: int)
    requires n == RunLength(lines) && 0 <= i < n
    requires position == PositionOf(sawChange, HasChange(lines[n..])) && (sawChange || HasChange(lines[n..]))
    ensures var s, e := KeptStart(position, n), n - KeptEnd(position, n);
      HiddenAt(lines, sawChange, i) <==> s <= i < e && e - s > COLLAPSED_CONTEXT_THRESHOLD
  {
    DistantInRun(lines, sawChange, n, i);
    if i > 0 { DistantInRun(lines, sawChange, n, i - 1); }
    if i + 1 < n { DistantInRun(lines, sawChange, n, i + 1); }
    hide Distant;
    EndsAreNotDistant(lines, sawChange, n);
  }

  lemma EndsAreNotDistant(lines: seq<Line>, sawChange: bool, n: nat)
    requires n == RunLength(lines)
    ensures !Distant(lines, sawChange, -1) && !Distant(lines, sawChange, n)
  {
  }

  function PositionOf(sawChange: bool, laterChange: bool): GapPosition {
    if !sawChange then Leading else if !laterChange then Trailing else Between
  }

  lemma ShownGap(hidden: seq<Line>, position: GapPosition, id: nat)
    requires 0 < |hidden| <= U32_MAX
    ensures ShownRows(ContextGap(hidden, position, id).rows) == seq(|hidden|, _ => false)
  {
    var rows := ContextGap(hidden, position, id).rows;
    assert hidden[..|hidden|] == hidden;
    assert rows[1..] == [];
  }

  /** The run at the front shows exactly its rows that are not hidden. */
  lemma RunShown(lines: seq<Line>, sawChange: bool, n: nat, id: nat)
    requires n == RunLength(lines) && |lines| <= U32_MAX
    ensures ShownRows(RunOutput(lines[..n], sawChange, HasChange(lines[n..]), id).rows)
         == Pointwise(lines, sawChange)[..n]
  {
    hide HasChange, ShownRows, RunLength, Pointwise, RunOutput;
    if !sawChange && !HasChange(lines[n..]) {
      UnchangedRunShown(lines, n, id);
    } else {
      ChangedRunShown(lines, sawChange, n, id);
    }
  }

  lemma UnchangedRunShown(lines: seq<Line>, n: nat, id: nat)
    requires n == RunLength(lines) && !HasChange(lines[n..])
    ensures ShownRows(RunOutput(lines[..n], false, false, id).rows) == Pointwise(lines, false)[..n]
  {
    hide HiddenAt, HasChange, ShownRows;
    ShownPlain(lines[..n]);
    forall i | 0 <= i < n ensures !HiddenAt(lines, false, i) { NothingHiddenWithoutChange(lines, n, i); }
  }

  lemma ChangedRunShown(lines: seq<Line>, sawChange: bool, n: nat, id: nat)
    requires n == RunLength(lines) && |lines| <= U32_MAX && (sawChange || HasChange(lines[n..]))
    ensures ShownRows(RunOutput(lines[..n], sawChange, HasChange(lines[n..]), id).rows)
         == Pointwise(lines, sawChange)[..n]
  {
    hide HiddenAt, HasChange, ShownRows, KeptStart, KeptEnd, CollapsedRun, RunLength;
    var run, position := lines[..n], PositionOf(sawChange, HasChange(lines[n..]));
    RunIsContext(lines, n);
    ShownRun(run, position, id);
    forall i | 0 <= i < n ensures
        HiddenAt(lines, sawChange, i) <==>
          KeptStart(position, n) <= i < n - KeptEnd(position, n)
          && n - KeptEnd(position, n) - KeptStart(position, n) > COLLAPSED_CONTEXT_THRESHOLD
    {
      RunHidden(lines, sawChange, n, position, i);
    }
  }

  lemma RunIsContext(lines: seq<Line>, n: nat)
    requires n == RunLength(lines)
    ensures AllContext(lines[..n])
  {
  }

  lemma NothingHiddenWithoutChange(lines: seq<Line>, n: nat, i: int)
    requires n == RunLength(lines) && 0 <= i < n && !HasChange(lines[n..])
    ensures !HiddenAt(lines, false, i)
  {
    DistantInRun(lines, false, n, i);
    hide Distant;
  }

  lemma ShownRun(run: seq<Line>, position: GapPosition, id: nat)
    requires AllContext(run) && |run| <= U32_MAX
    ensures var s, e := KeptStart(position, |run|), |run| - KeptEnd(position, |run|);
      ShownRows(CollapsedRun(run, position, id).rows)
      == seq(|run|, i => !(s <= i < e && e - s > COLLAPSED_CONTEXT_THRESHOLD))
  {
    hide ShownRows, ContextGap, KeptStart, KeptEnd;
    var s, e := KeptStart(position, |run|), |run| - KeptEnd(position, |run|);
    if e - s <= COLLAPSED_CONTEXT_THRESHOLD {
      ShownPlain(run);
    } else {
      var gap := ContextGap(run[s..e], position, id);
      ShownPlain(run[..s]);
      ShownPlain(run[e..]);
      ShownGap(run[s..e], position, id);
      ShownConcat(run[..s] + gap.rows, run[e..]);
      ShownConcat(run[..s], gap.rows);
    }
  }

  // ----- from one stretch to the next -----

  /** Past the run at the front everything is as if the rest stood alone. */
  lemma DistantAfterRun(lines: seq<Line>, sawChange: bool, n: nat, i: int)
    requires n == RunLength(lines) && n <= i <= |lines|
    ensures Distant(lines, sawChange, i) == Distant(lines[n..], sawChange, i - n)
  {
    hide ChangeBefore, ChangeAfter, NearBefore, NearAfter, RunLength;
    ContextAfter(lines, n, i);
    if IsContext(lines, i) {
      RunEnds(lines, n);
      Same(lines, n, i);
      BeforeAfterRun(lines, sawChange, n, i);
    }
  }

  lemma ContextAfter(lines: seq<Line>, n: nat, i: int)
    requires n <= i && n <= |lines|
    ensures IsContext(lines, i) == IsContext(lines[n..], i - n)
  {
  }

  lemma RunEnds(lines: seq<Line>, n: nat)
    requires n == RunLength(lines)
    ensures !IsContext(lines, n)
  {
  }

  lemma Same(lines: seq<Line>, n: nat, i: int)
    requires n <= |lines| && n <= i < |lines|
    ensures ChangeAfter(lines, i) == ChangeAfter(lines[n..], i - n)
    ensures NearAfter(lines, i) == NearAfter(lines[n..], i - n)
  {
    var rest := lines[n..];
    if ChangeAfter(lines, i) {
      var j :| 0 <= j && i < j < |lines| && IsChange(lines[j]);
      assert IsChange(rest[j - n]);
    }
    if ChangeAfter(rest, i - n) {
      var j :| 0 <= j && i - n < j < |rest| && IsChange(rest[j]);
      assert IsChange(lines[j + n]);
    }
    if NearAfter(lines, i) {
      var j :| i < j <= i + COLLAPSED_CONTEXT_LINES && j <= |lines| && !IsContext(lines, j);
      assert !IsContext(rest, j - n);
    }
    if NearAfter(rest, i - n) {
      var j :| i - n < j <= i - n + COLLAPSED_CONTEXT_LINES && j <= |rest| && !IsContext(rest, j);
      assert !IsContext(lines, j + n);
    }
  }

  lemma BeforeAfterRun(lines: seq<Line>, sawChange: bool, n: nat, i: int)
    requires n == RunLength(lines) && n < i < |lines|
    ensures ChangeBefore(lines, sawChange, i) == ChangeBefore(lines[n..], sawChange, i - n)
    ensures NearBefore(lines, i) == NearBefore(lines[n..], i - n)
  {
    hide NearBefore, ChangeBefore;
    ChangeBeforeRest(lines, sawChange, n, i);
    NearBeforeRest(lines, n, i);
  }

  lemma ChangeBeforeRest(lines: seq<Line>, sawChange: bool, n: nat, i: int)
    requires n < i < |lines| && forall k :: 0 <= k < n ==> !IsChange(lines[k])
    ensures ChangeBefore(lines, sawChange, i) == ChangeBefore(lines[n..], sawChange, i - n)
  {
    hide IsChange;
    var rest := lines[n..];
    if j :| 0 <= j < i && j < |lines| && IsChange(lines[j]) {
      assert IsChange(rest[j - n]);
    }
    if j :| 0 <= j < i - n && j < |rest| && IsChange(rest[j]) {
      assert IsChange(lines[j + n]);
    }
  }

  lemma NearBeforeRest(lines: seq<Line>, n: nat, i: int)
    requires n < |lines| && !lines[n].kind.Context? && n < i < |lines|
    requires forall k :: 0 <= k < n ==> lines[k].kind.Context?
    ensures NearBefore(lines, i) == NearBefore(lines[n..], i - n)
  {
    var rest := lines[n..];
    assert !IsContext(lines, n) && !IsContext(rest, 0);
    if NearBefore(lines, i) {
      var j :| i - COLLAPSED_CONTEXT_LINES <= j < i && -1 <= j && !IsContext(lines, j);
      if j >= n { assert !IsContext(rest, j - n); }
    }
    if NearBefore(rest, i - n) {
      var j :| i - n - COLLAPSED_CONTEXT_LINES <= j < i - n && -1 <= j && !IsContext(rest, j);
      if j >= 0 { assert !IsContext(lines, j + n); }
    }
  }

  /** Past a row that is no context, likewise; a change there counts from then on. */
  lemma DistantAfterRow(lines: seq<Line>, sawChange: bool, i: int)
    requires lines != [] && !lines[0].kind.Context? && 1 <= i <= |lines|
    ensures Distant(lines, sawChange, i) == Distant(lines[1..], sawChange || IsChange(lines[0]), i - 1)
  {
    hide ChangeBefore, ChangeAfter, NearBefore, NearAfter;
    ContextAfter(lines, 1, i);
    if IsContext(lines, i) {
      Same(lines, 1, i);
      BeforeAfterRow(lines, sawChange, i);
    }
  }

  lemma BeforeAfterRow(lines: seq<Line>, sawChange: bool, i: int)
    requires lines != [] && !lines[0].kind.Context? && 1 <= i < |lines|
    ensures ChangeBefore(lines, sawChange, i) == ChangeBefore(lines[1..], sawChange || IsChange(lines[0]), i - 1)
    ensures NearBefore(lines, i) == NearBefore(lines[1..], i - 1)
  {
    var rest := lines[1..];
    if exists j :: 0 <= j < i && j < |lines| && IsChange(lines[j]) {
      var j :| 0 <= j < i && j < |lines| && IsChange(lines[j]);
      if j > 0 { assert IsChange(rest[j - 1]); }
    }
    if exists j :: 0 <= j < i - 1 && j < |rest| && IsChange(rest[j]) {
      var j :| 0 <= j < i - 1 && j < |rest| && IsChange(rest[j]);
      assert IsChange(lines[j + 1]);
    }
    assert !IsContext(lines, 0);
    if NearBefore(lines, i) {
      var j :| i - COLLAPSED_CONTEXT_LINES <= j < i && -1 <= j && !IsContext(lines, j);
      assert !IsContext(rest, if j > 0 then j - 1 else -1);
    }
    if NearBefore(rest, i - 1) {
      var j :| i - 1 - COLLAPSED_CONTEXT_LINES <= j < i - 1 && -1 <= j && !IsContext(rest, j);
      assert !IsContext(lines, j + 1);
    }
  }

  lemma HiddenAfterRun(lines: seq<Line>, sawChange: bool, n: nat, i: int)
    requires n == RunLength(lines) && n <= i < |lines|
    ensures HiddenAt(lines, sawChange, i) == HiddenAt(lines[n..], sawChange, i - n)
  {
    hide Distant, RunLength;
    DistantAfterRun(lines, sawChange, n, i);
    if i == n {
      EndsAreNotDistant(lines, sawChange, n);
    } else {
      DistantAfterRun(lines, sawChange, n, i - 1);
      DistantAfterRun(lines, sawChange, n, i + 1);
    }
  }

  lemma NotDistant(lines: seq<Line>, sawChange: bool, i: int)
    requires !IsContext(lines, i)
    ensures !Distant(lines, sawChange, i)
  {
  }

  lemma HiddenAfterRow(lines: seq<Line>, sawChange: bool, i: int)
    requires lines != [] && !lines[0].kind.Context? && 1 <= i < |lines|
    ensures HiddenAt(lines, sawChange, i) == HiddenAt(lines[1..], sawChange || IsChange(lines[0]), i - 1)
  {
    hide Distant;
    var saw := sawChange || IsChange(lines[0]);
    DistantAfterRow(lines, sawChange, i);
    DistantAfterRow(lines, sawChange, i + 1);
    if i > 1 {
      DistantAfterRow(lines, sawChange, i - 1);
    } else {
      NotDistant(lines, sawChange, 0);
      NotDistant(lines[1..], saw, -1);
    }
  }

  /** Collapsing a file hides exactly the rows that are hidden by the row-by-row rule. */
  lemma {:induction false} FileHidesPointwise(lines: seq<Line>, sawChange: bool, id: nat)
    requires NoGaps(lines) && |lines| <= U32_MAX
    ensures ShownRows(CollapsedFile(lines, sawChange, id).rows) == Pointwise(lines, sawChange)
    decreases |lines|
  {
    hide HiddenAt, ShownRows, RunOutput, HasChange;
    if lines == [] {
      NothingShown();
    } else if !lines[0].kind.Context? {
      var saw, rest := sawChange || IsChange(lines[0]), lines[1..];
      FileHidesPointwise(rest, saw, id);
      ShownConcat([lines[0]], CollapsedFile(rest, saw, id).rows);
      ShownPlain([lines[0]]);
      NotHidden(lines, sawChange, 0);
      forall i | 1 <= i < |lines| ensures HiddenAt(lines, sawChange, i) == HiddenAt(rest, saw, i - 1) {
        HiddenAfterRow(lines, sawChange, i);
      }
    } else {
      var n := RunLength(lines);
      var rest := lines[n..];
      var run := RunOutput(lines[..n], sawChange, HasChange(rest), id);
      RunShown(lines, sawChange, n, id);
      FileHidesPointwise(rest, sawChange, run.id);
      ShownConcat(run.rows, CollapsedFile(rest, sawChange, run.id).rows);
      forall i | n <= i < |lines| ensures HiddenAt(lines, sawChange, i) == HiddenAt(rest, sawChange, i - n) {
        HiddenAfterRun(lines, sawChange, n, i);
      }
      var p := Pointwise(lines, sawChange);
      assert p[n..] == Pointwise(rest, sawChange);
      assert p == p[..n] + p[n..];
    }
  }

  lemma NothingShown()
    ensures ShownRows([]) == []
  {
  }

  lemma NotHidden(lines: seq<Line>, sawChange: bool, i: int)
    requires !IsContext(lines, i)
    ensures !HiddenAt(lines, sawChange, i)
  {
  }

  /** The rule for a whole patch, file by file. */
  function FilesPointwise(lines: seq<Line>): seq<bool>
    decreases |lines|
  {
    if lines == [] then []
    else
      var n := FileLength(lines, lines[0].file);
      Pointwise(lines[..n], false) + FilesPointwise(lines[n..])
  }

  lemma {:induction false} CollapseHidesPointwise(lines: seq<Line>, id: nat)
    requires NoGaps(lines) && |lines| <= U32_MAX
    ensures ShownRows(Collapsed(lines, id).rows) == FilesPointwise(lines)
    decreases |lines|
  {
    hide ShownRows, CollapsedFile, Pointwise;
    if lines == [] {
      NothingShown();
    } else {
      var n := FileLength(lines, lines[0].file);
      var first := CollapsedFile(lines[..n], false, id);
      FileHidesPointwise(lines[..n], false, id);
      CollapseHidesPointwise(lines[n..], first.id);
      ShownConcat(first.rows, Collapsed(lines[n..], first.id).rows);
    }
  }

  // ----- what a click reveals -----

  /** Which of a gap's `n` rows a click shows when it shows `k`: from the front, from the
      back, or half from each side with the odd one in front. */
  predicate Reveals(direction: ExpansionDirection, position: GapPosition, n: nat, k: nat, i: int) {
    match direction
    case Start => i < k
    case End => i >= n - k
    case Both => 2 * i < k || 2 * (n - 1 - i) + 1 < k
    case All =>
      k == n ||
      (match position
       case Leading => i >= n - k
       case Trailing => i < k
       case Between => 2 * i < k || 2 * (n - 1 - i) + 1 < k)
  }

  lemma ShownReplacement(line: Line, gap: Gap, before: nat, shown: nat)
    requires |gap.hidden| <= U32_MAX && before <= shown <= |gap.hidden|
    requires forall i :: 0 <= i < |gap.hidden| ==> gap.hidden[i].kind.Context?
    ensures var n := |gap.hidden|;
      ShownRows(Replacement(line, gap, before, shown)) == seq(n, i => i < before || i >= n - (shown - before))
  {
    hide ShownRows, Remaining;
    var n := |gap.hidden|;
    var e := n - (shown - before);
    var rest := Remaining(line.file, gap.(hidden := gap.hidden[before..e]));
    ShownPlain(gap.hidden[..before]);
    ShownPlain(gap.hidden[e..]);
    ShownRemaining(line.file, gap.(hidden := gap.hidden[before..e]));
    ShownConcat(gap.hidden[..before] + rest, gap.hidden[e..]);
    ShownConcat(gap.hidden[..before], rest);
  }

  lemma ShownRemaining(file: nat, gap: Gap)
    requires |gap.hidden| <= U32_MAX
    ensures ShownRows(Remaining(file, gap)) == seq(|gap.hidden|, _ => false)
  {
    if gap.hidden != [] {
      var rows := Remaining(file, gap);
      assert Expandable(rows[0]) && rows[1..] == [];
    }
  }

  lemma FromStartReveals(direction: ExpansionDirection, position: GapPosition, n: nat, k: nat, i: int)
    requires k <= n && 0 <= i < n
    ensures var before := FromStart(direction, position, k, n);
      (i < before || i >= n - (k - before)) <==> Reveals(direction, position, n, k, i)
  {
  }

  /** A success shows exactly the rows its direction asks for, a hundred or two unless fewer
      are hidden or fit, and leaves every other row shown or hidden as it was. */
  lemma ExpansionReveals(v: View, index: nat, direction: ExpansionDirection)
    requires RowsOk(v.lines) && Expanded(v, index, direction).1.Some?
    ensures var gap := v.lines[index].kind.gap; var n := |gap.hidden|;
      var k := RevealedCount(direction, n, Available(v.lines));
      ShownRows(Expanded(v, index, direction).0.lines)
      == ShownRows(v.lines[..index]) + seq(n, i => Reveals(direction, gap.position, n, k, i))
         + ShownRows(v.lines[index + 1..])
  {
    hide ShownRows, Reveals, FromStart, Replacement, RevealedCount;
    var line, gap := v.lines[index], v.lines[index].kind.gap;
    var n := |gap.hidden|;
    var k := RevealedCount(direction, n, Available(v.lines));
    assert k <= n by { RevealedAtMost(direction, n, Available(v.lines)); }
    assert GapOk(line);
    var before := FromStart(direction, gap.position, k, n);
    var rows := Replacement(line, gap, before, k);
    ShownReplacement(line, gap, before, k);
    forall i | 0 <= i < n ensures (i < before || i >= n - (k - before)) <==> Reveals(direction, gap.position, n, k, i) {
      FromStartReveals(direction, gap.position, n, k, i);
    }
    ShownConcat(v.lines[..index] + rows, v.lines[index + 1..]);
    ShownConcat(v.lines[..index], rows);
  }

  lemma RevealedAtMost(direction: ExpansionDirection, hidden: nat, available: nat)
    ensures RevealedCount(direction, hidden, available) <= hidden
  {
  }

  /** How many rows a success shows: no more than are hidden, were asked for or fit below the
      cap of 50,000, and as many as one of these allows. */
  lemma RevealsAsMany(v: View, index: nat, direction: ExpansionDirection)
    requires SnapshotOk(v) && Expanded(v, index, direction).1.Some?
    ensures var n := |v.lines[index].kind.gap.hidden|; var k := RevealedCount(direction, n, Available(v.lines));
      var asked := match direction case Start => 100 case End => 100 case Both => 200 case All => n;
      && 0 < k <= n && k <= asked && |v.lines| - 1 + k <= 50_000
      && (k == n || k == asked || |v.lines| - 1 + k == 50_000)
  {
    hide RowsOk, IndexesOk;
  }
}
