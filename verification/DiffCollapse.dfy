/** Collapsing unchanged context into gaps (`collapse_context` in `src/review_diff.rs`). */
module DiffCollapse {
  import opened Basics
  import opened DiffRows

  function NextId(id: nat): nat {
    (id + 1) % U64_SIZE
  }

  /** What a collapsing call appends, and the next gap id. */
  datatype Output = Output(rows: seq<Line>, id: nat)

  /** `push_context_gap`: nothing for nothing hidden. */
  function ContextGap(hidden: seq<Line>, position: GapPosition, id: nat): Output {
    if hidden == [] then Output([], id)
    else
      var count := if |hidden| <= U32_MAX then |hidden| else U32_MAX;
      Output([Bare(hidden[0].file, GapRow(Gap(id, count, hidden[..count], position)))], NextId(id))
  }

  /** Rows of a run kept before and after its gap. */
  function KeptStart(position: GapPosition, n: nat): (k: nat)
    ensures k <= n
  {
    if position.Leading? then 0 else Min(COLLAPSED_CONTEXT_LINES, n)
  }

  function KeptEnd(position: GapPosition, n: nat): (k: nat)
    ensures KeptStart(position, n) + k <= n
  {
    match position
    case Leading => Min(COLLAPSED_CONTEXT_LINES, n)
    case Trailing => 0
    case Between => Min(COLLAPSED_CONTEXT_LINES, n - KeptStart(position, n))
  }

  function CollapsedRun(run: seq<Line>, position: GapPosition, id: nat): Output {
    var s, e := KeptStart(position, |run|), |run| - KeptEnd(position, |run|);
    if e - s <= COLLAPSED_CONTEXT_THRESHOLD then Output(run, id)
    else
      var gap := ContextGap(run[s..e], position, id);
      Output(run[..s] + gap.rows + run[e..], gap.id)
  }

  /** How many leading rows are context. */
  function RunLength(lines: seq<Line>): (n: nat)
    ensures n <= |lines| && forall i :: 0 <= i < n ==> lines[i].kind.Context?
    ensures n < |lines| ==> !lines[n].kind.Context?
  {
    if lines == [] || !lines[0].kind.Context? then 0 else 1 + RunLength(lines[1..])
  }

  predicate HasChange(lines: seq<Line>) {
    exists i :: 0 <= i < |lines| && IsChange(lines[i])
  }

  function CollapsedFile(lines: seq<Line>, sawChange: bool, id: nat): Output
    decreases |lines|
  {
    if lines == [] then Output([], id)
    else if !lines[0].kind.Context? then
      var rest := CollapsedFile(lines[1..], sawChange || IsChange(lines[0]), id);
      Output([lines[0]] + rest.rows, rest.id)
    else
      var n := RunLength(lines);
      var run := RunOutput(lines[..n], sawChange, HasChange(lines[n..]), id);
      var rest := CollapsedFile(lines[n..], sawChange, run.id);
      Output(run.rows + rest.rows, rest.id)
  }

  function RunOutput(run: seq<Line>, sawChange: bool, laterChange: bool, id: nat): Output {
    if !sawChange && laterChange then CollapsedRun(run, Leading, id)
    else if sawChange && !laterChange then CollapsedRun(run, Trailing, id)
    else if sawChange && laterChange then CollapsedRun(run, Between, id)
    else Output(run, id)
  }

  /** How many leading rows belong to the same file. */
  function FileLength(lines: seq<Line>, file: nat): (n: nat)
    ensures n <= |lines| && forall i :: 0 <= i < n ==> lines[i].file == file
    ensures n < |lines| ==> lines[n].file != file
  {
    if lines == [] || lines[0].file != file then 0 else 1 + FileLength(lines[1..], file)
  }

  function Collapsed(lines: seq<Line>, id: nat): Output
    decreases |lines|
  {
    if lines == [] then Output([], id)
    else
      var n := FileLength(lines, lines[0].file);
      var first := CollapsedFile(lines[..n], false, id);
      var rest := Collapsed(lines[n..], first.id);
      Output(first.rows + rest.rows, rest.id)
  }

  // ----- the loops -----

  method PushContextGap(output: seq<Line>, hidden: seq<Line>, position: GapPosition, nextGapId: nat)
    returns (rows: seq<Line>, id: nat)
    ensures var o := ContextGap(hidden, position, nextGapId); rows == output + o.rows && id == o.id
  {
    if |hidden| == 0 {
      return output, nextGapId;
    }
    var count := if |hidden| <= U32_MAX then |hidden| else U32_MAX;
    rows := output + [Bare(hidden[0].file, GapRow(Gap(nextGapId, count, hidden[..count], position)))];
    id := (nextGapId + 1) % U64_SIZE;
  }

  method CollapseLeadingContext(lines: seq<Line>, output: seq<Line>, nextGapId: nat) returns (rows: seq<Line>, id: nat)
    ensures var o := CollapsedRun(lines, Leading, nextGapId); rows == output + o.rows && id == o.id
  {
    var kept := Min(COLLAPSED_CONTEXT_LINES, |lines|);
    var hidden := lines[..|lines| - kept];
    if |hidden| <= COLLAPSED_CONTEXT_THRESHOLD {
      return output + lines, nextGapId;
    }
    rows, id := PushContextGap(output, hidden, Leading, nextGapId);
    rows := rows + lines[|lines| - kept..];
  }

  method CollapseTrailingContext(lines: seq<Line>, output: seq<Line>, nextGapId: nat) returns (rows: seq<Line>, id: nat)
    ensures var o := CollapsedRun(lines, Trailing, nextGapId); rows == output + o.rows && id == o.id
  {
    var kept := Min(COLLAPSED_CONTEXT_LINES, |lines|);
    var hidden := lines[kept..];
    if |hidden| <= COLLAPSED_CONTEXT_THRESHOLD {
      return output + lines, nextGapId;
    }
    rows, id := PushContextGap(output + lines[..kept], hidden, Trailing, nextGapId);
    assert lines[kept..|lines|] == hidden;
  }

  method CollapseBetweenContext(lines: seq<Line>, output: seq<Line>, nextGapId: nat) returns (rows: seq<Line>, id: nat)
    ensures var o := CollapsedRun(lines, Between, nextGapId); rows == output + o.rows && id == o.id
  {
    var keptStart := Min(COLLAPSED_CONTEXT_LINES, |lines|);
    var keptEnd := Min(COLLAPSED_CONTEXT_LINES, |lines| - keptStart);
    var hidden := lines[keptStart..|lines| - keptEnd];
    if |hidden| <= COLLAPSED_CONTEXT_THRESHOLD {
      return output + lines, nextGapId;
    }
    rows, id := PushContextGap(output + lines[..keptStart], hidden, Between, nextGapId);
    rows := rows + lines[|lines| - keptEnd..];
  }

  /** `change_after`: for each position, whether a change row comes at or after it. */
  method ChangeAfter(lines: seq<Line>) returns (after: array<bool>)
    ensures after.Length == |lines| + 1 && fresh(after)
    ensures forall i :: 0 <= i <= |lines| ==> after[i] == HasChange(lines[i..])
  {
    after := new bool[|lines| + 1];
    after[|lines|] := false;
    for i := |lines| downto 0
      invariant forall j :: i <= j <= |lines| ==> after[j] == HasChange(lines[j..])
    {
      ChangeFromHere(lines, i);
      after[i] := after[i + 1] || IsChange(lines[i]);
    }
  }

  lemma ChangeFromHere(lines: seq<Line>, i: nat)
    requires i < |lines|
    ensures HasChange(lines[i..]) <==> HasChange(lines[i + 1..]) || IsChange(lines[i])
  {
    var s, t := lines[i..], lines[i + 1..];
    if HasChange(s) && !IsChange(lines[i]) {
      var k :| 0 <= k < |s| && IsChange(s[k]);
      assert t[k - 1] == s[k];
    }
    if HasChange(t) {
      var k :| 0 <= k < |t| && IsChange(t[k]);
      assert s[k + 1] == t[k];
    }
    if IsChange(lines[i]) { assert IsChange(s[0]); }
  }

  /** What is still to come after some rows are out. */
  ghost predicate Pending(whole: Output, rows: seq<Line>, rest: Output) {
    whole.rows == rows + rest.rows && whole.id == rest.id
  }

  lemma PendingStep(whole: Output, rows: seq<Line>, first: seq<Line>, rest: Output)
    requires Pending(whole, rows, Output(first + rest.rows, rest.id))
    ensures Pending(whole, rows + first, rest)
  {
    assert rows + (first + rest.rows) == (rows + first) + rest.rows;
  }

  lemma FileStepRow(lines: seq<Line>, sawChange: bool, id: nat)
    requires lines != [] && !lines[0].kind.Context?
    ensures var rest := CollapsedFile(lines[1..], sawChange || IsChange(lines[0]), id);
      CollapsedFile(lines, sawChange, id) == Output([lines[0]] + rest.rows, rest.id)
  {
  }

  lemma FileStepRun(lines: seq<Line>, sawChange: bool, id: nat, n: nat)
    requires lines != [] && lines[0].kind.Context? && n == RunLength(lines)
    ensures n > 0
    ensures var run := RunOutput(lines[..n], sawChange, HasChange(lines[n..]), id);
      var rest := CollapsedFile(lines[n..], sawChange, run.id);
      CollapsedFile(lines, sawChange, id) == Output(run.rows + rest.rows, rest.id)
  {
  }

  /** Where the run of context rows that starts at `start` ends. */
  method ContextEnd(lines: seq<Line>, start: nat) returns (end: nat)
    requires start <= |lines|
    ensures start <= end <= |lines| && end - start == RunLength(lines[start..])
  {
    end := start;
    while end < |lines| && lines[end].kind.Context?
      invariant start <= end <= |lines|
      invariant RunLength(lines[start..]) == end - start + RunLength(lines[end..])
    {
      assert lines[end..][1..] == lines[end + 1..];
      end := end + 1;
    }
  }

  method CollapseRun(run: seq<Line>, sawChange: bool, hasLaterChange: bool, output: seq<Line>, nextGapId: nat)
    returns (rows: seq<Line>, id: nat)
    ensures var o := RunOutput(run, sawChange, hasLaterChange, nextGapId); rows == output + o.rows && id == o.id
  {
    hide CollapsedRun;
    if !sawChange && hasLaterChange {
      rows, id := CollapseLeadingContext(run, output, nextGapId);
    } else if sawChange && !hasLaterChange {
      rows, id := CollapseTrailingContext(run, output, nextGapId);
    } else if sawChange && hasLaterChange {
      rows, id := CollapseBetweenContext(run, output, nextGapId);
    } else {
      rows, id := output + run, nextGapId;
    }
  }

  method CollapseFileContext(lines: seq<Line>, output: seq<Line>, nextGapId: nat) returns (rows: seq<Line>, id: nat)
    ensures Pending(Output(rows, id), output, CollapsedFile(lines, false, nextGapId))
  {
    hide CollapsedFile, RunOutput, HasChange, RunLength, Pending;
    var changeAfter := ChangeAfter(lines);
    rows, id := output, nextGapId;
    var sawChange := false;
    var index := 0;
    ghost var all := CollapsedFile(lines, false, nextGapId);
    ghost var whole := Output(output + all.rows, all.id);
    assert lines[0..] == lines;
    PendingStart(whole, output, CollapsedFile(lines, false, nextGapId));
    while index < |lines|
      invariant index <= |lines|
      invariant Pending(whole, rows, CollapsedFile(lines[index..], sawChange, id))
      invariant forall i :: 0 <= i <= |lines| ==> changeAfter[i] == HasChange(lines[i..])
    {
      ghost var here := lines[index..];
      if !lines[index].kind.Context? {
        FileStepRow(here, sawChange, id);
        assert here[1..] == lines[index + 1..];
        sawChange := sawChange || IsChange(lines[index]);
        PendingStep(whole, rows, [lines[index]], CollapsedFile(lines[index + 1..], sawChange, id));
        rows := rows + [lines[index]];
        index := index + 1;
      } else {
        var end := ContextEnd(lines, index);
        var run := lines[index..end];
        FileStepRun(here, sawChange, id, end - index);
        assert here[..end - index] == run && here[end - index..] == lines[end..];
        ghost var o := RunOutput(run, sawChange, HasChange(lines[end..]), id);
        PendingStep(whole, rows, o.rows, CollapsedFile(lines[end..], sawChange, o.id));
        rows, id := CollapseRun(run, sawChange, changeAfter[end], rows, id);
        index := end;
      }
    }
    PendingEnd(whole, rows, id, sawChange);
    assert lines[index..] == [];
    PendingStart(Output(rows, id), output, CollapsedFile(lines, false, nextGapId));
  }

  lemma PendingStart(whole: Output, rows: seq<Line>, rest: Output)
    ensures Pending(whole, rows, rest) <==> whole == Output(rows + rest.rows, rest.id)
  {
  }

  lemma PendingEnd(whole: Output, rows: seq<Line>, id: nat, sawChange: bool)
    ensures Pending(whole, rows, CollapsedFile([], sawChange, id)) ==> whole == Output(rows, id)
    ensures Pending(whole, rows, Collapsed([], id)) ==> whole == Output(rows, id)
  {
  }

  lemma ContextStep(lines: seq<Line>, id: nat, n: nat)
    requires lines != [] && n == FileLength(lines, lines[0].file)
    ensures n > 0
    ensures var first := CollapsedFile(lines[..n], false, id); var rest := Collapsed(lines[n..], first.id);
      Collapsed(lines, id) == Output(first.rows + rest.rows, rest.id)
  {
    hide CollapsedFile;
  }

  /** Where the rows of the file at `start` end. */
  method FileEnd(lines: seq<Line>, start: nat) returns (end: nat)
    requires start < |lines|
    ensures start < end <= |lines| && end - start == FileLength(lines[start..], lines[start].file)
  {
    var fileIndex := lines[start].file;
    end := start + 1;
    assert lines[start..][1..] == lines[end..];
    while end < |lines| && lines[end].file == fileIndex
      invariant start < end <= |lines|
      invariant FileLength(lines[start..], fileIndex) == end - start + FileLength(lines[end..], fileIndex)
    {
      assert lines[end..][1..] == lines[end + 1..];
      end := end + 1;
    }
  }

  method CollapseContext(lines: seq<Line>) returns (collapsed: seq<Line>)
    ensures collapsed == Collapsed(lines, 0).rows
  {
    hide Collapsed, CollapsedFile, FileLength, Pending;
    collapsed := [];
    var nextGapId := 0;
    var fileStart := 0;
    ghost var whole := Collapsed(lines, 0);
    assert lines[0..] == lines && [] + whole.rows == whole.rows;
    PendingStart(whole, [], whole);
    while fileStart < |lines|
      invariant fileStart <= |lines|
      invariant Pending(whole, collapsed, Collapsed(lines[fileStart..], nextGapId))
    {
      ghost var here := lines[fileStart..];
      var fileEnd := FileEnd(lines, fileStart);
      ghost var n := fileEnd - fileStart;
      var rows := lines[fileStart..fileEnd];
      assert here[..n] == rows && here[n..] == lines[fileEnd..];
      ContextStep(here, nextGapId, n);
      ghost var first := CollapsedFile(rows, false, nextGapId);
      PendingStep(whole, collapsed, first.rows, Collapsed(lines[fileEnd..], first.id));
      PendingStart(Output(collapsed + first.rows, first.id), collapsed, first);
      ghost var before := collapsed;
      collapsed, nextGapId := CollapseFileContext(rows, collapsed, nextGapId);
      PendingStart(Output(collapsed, nextGapId), before, first);
      fileStart := fileEnd;
    }
    assert lines[fileStart..] == [];
    PendingEnd(whole, collapsed, nextGapId, false);
  }

  // ----- what collapsing keeps -----

  predicate NoGaps(lines: seq<Line>) {
    forall i :: 0 <= i < |lines| ==> !lines[i].kind.GapRow?
  }

  predicate AllContext(lines: seq<Line>) {
    forall i :: 0 <= i < |lines| ==> lines[i].kind.Context?
  }

  /** Gap ids that start at `from`, end before `to`, and rise in between. */
  predicate IdsBetween(rows: seq<Line>, from: nat, to: nat) {
    && from <= to && Ascending(GapIds(rows))
    && forall i :: 0 <= i < |GapIds(rows)| ==> from <= GapIds(rows)[i] < to
  }

  /** What a collapsed stretch of rows is worth: the same rows when flattened, sound
      gaps, and fresh ids. */
  ghost predicate Faithful(lines: seq<Line>, o: Output, id: nat) {
    && Flatten(o.rows) == lines
    && (forall i :: 0 <= i < |o.rows| ==> GapOk(o.rows[i]))
    && IdsBetween(o.rows, id, o.id) && o.id <= id + |lines|
  }

  lemma IdsJoin(a: seq<Line>, b: seq<Line>, from: nat, mid: nat, to: nat)
    requires IdsBetween(a, from, mid) && IdsBetween(b, mid, to)
    ensures IdsBetween(a + b, from, to)
  {
    GapIdsConcat(a, b);
    hide GapIds;
  }

  lemma FaithfulJoin(x: seq<Line>, p: Output, y: seq<Line>, q: Output, id: nat)
    requires Faithful(x, p, id) && Faithful(y, q, p.id)
    ensures Faithful(x + y, Output(p.rows + q.rows, q.id), id)
  {
    hide IdsBetween, GapOk, Flatten;
    FlattenConcat(p.rows, q.rows);
    IdsJoin(p.rows, q.rows, id, p.id, q.id);
  }

  lemma FaithfulPlain(rows: seq<Line>, id: nat)
    requires NoGaps(rows)
    ensures Faithful(rows, Output(rows, id), id)
  {
    hide Flatten, GapIds;
    NothingHidden(rows);
    FlattenFlat(rows);
  }

  lemma FaithfulGap(hidden: seq<Line>, position: GapPosition, id: nat)
    requires AllContext(hidden) && 0 < |hidden| <= U32_MAX && id + 1 < U64_SIZE
    ensures Faithful(hidden, ContextGap(hidden, position, id), id)
  {
    var o := ContextGap(hidden, position, id);
    var row := o.rows[0];
    assert hidden[..|hidden|] == hidden;
    assert Expandable(row) && o.rows == [row];
    FlattenOne(row);
    OneGapId(row);
  }

  lemma FaithfulRun(run: seq<Line>, position: GapPosition, id: nat)
    requires AllContext(run) && |run| <= U32_MAX && id + 1 < U64_SIZE
    ensures Faithful(run, CollapsedRun(run, position, id), id)
  {
    hide Faithful, ContextGap, KeptStart, KeptEnd;
    var s, e := KeptStart(position, |run|), |run| - KeptEnd(position, |run|);
    if e - s <= COLLAPSED_CONTEXT_THRESHOLD {
      FaithfulPlain(run, id);
    } else {
      FaithfulPlain(run[..s], id);
      FaithfulGap(run[s..e], position, id);
      var gap := ContextGap(run[s..e], position, id);
      FaithfulJoin(run[..s], Output(run[..s], id), run[s..e], gap, id);
      FaithfulPlain(run[e..], gap.id);
      FaithfulJoin(run[..s] + run[s..e], Output(run[..s] + gap.rows, gap.id), run[e..], Output(run[e..], gap.id), id);
      assert run == run[..s] + run[s..e] + run[e..];
    }
  }

  lemma {:induction false} FaithfulFile(lines: seq<Line>, sawChange: bool, id: nat)
    requires NoGaps(lines) && |lines| <= U32_MAX && id + |lines| < U64_SIZE
    ensures Faithful(lines, CollapsedFile(lines, sawChange, id), id)
    decreases |lines|
  {
    hide Faithful, CollapsedRun, HasChange;
    if lines == [] {
      FaithfulPlain([], id);
    } else if !lines[0].kind.Context? {
      FileStepRow(lines, sawChange, id);
      FaithfulPlain([lines[0]], id);
      FaithfulFile(lines[1..], sawChange || IsChange(lines[0]), id);
      FaithfulJoin([lines[0]], Output([lines[0]], id), lines[1..],
                   CollapsedFile(lines[1..], sawChange || IsChange(lines[0]), id), id);
      assert lines == [lines[0]] + lines[1..];
    } else {
      var n := RunLength(lines);
      FileStepRun(lines, sawChange, id, n);
      var run := lines[..n];
      var o := RunOutput(run, sawChange, HasChange(lines[n..]), id);
      FaithfulRunOutput(run, sawChange, HasChange(lines[n..]), id);
      FaithfulBounds(run, o, id);
      FaithfulFile(lines[n..], sawChange, o.id);
      FaithfulJoin(run, o, lines[n..], CollapsedFile(lines[n..], sawChange, o.id), id);
      assert lines == run + lines[n..];
    }
  }

  lemma FaithfulRunOutput(run: seq<Line>, sawChange: bool, laterChange: bool, id: nat)
    requires AllContext(run) && |run| <= U32_MAX && id + 1 < U64_SIZE
    ensures Faithful(run, RunOutput(run, sawChange, laterChange, id), id)
  {
    hide Faithful, CollapsedRun;
    FaithfulRun(run, Leading, id);
    FaithfulRun(run, Trailing, id);
    FaithfulRun(run, Between, id);
    FaithfulPlain(run, id);
  }

  lemma FaithfulBounds(lines: seq<Line>, o: Output, id: nat)
    requires Faithful(lines, o, id)
    ensures id <= o.id <= id + |lines|
  {
  }

  lemma {:induction false} FaithfulContext(lines: seq<Line>, id: nat)
    requires NoGaps(lines) && |lines| <= U32_MAX && id + |lines| < U64_SIZE
    ensures Faithful(lines, Collapsed(lines, id), id)
    decreases |lines|
  {
    hide Faithful, CollapsedFile, Collapsed;
    if lines == [] {
      FaithfulPlain([], id);
      NothingCollapsed(id);
    } else {
      var n := FileLength(lines, lines[0].file);
      ContextStep(lines, id, n);
      var first := CollapsedFile(lines[..n], false, id);
      FaithfulFile(lines[..n], false, id);
      FaithfulBounds(lines[..n], first, id);
      FaithfulContext(lines[n..], first.id);
      FaithfulJoin(lines[..n], first, lines[n..], Collapsed(lines[n..], first.id), id);
      assert lines == lines[..n] + lines[n..];
    }
  }

  lemma NothingCollapsed(id: nat)
    ensures Collapsed([], id) == Output([], id)
  {
  }

  /** Collapsing complete context and flattening it again gives back every row, and the
      gaps it makes are sound, expandable when flattened and numbered apart. */
  lemma CollapseThenFlatten(lines: seq<Line>)
    requires NoGaps(lines) && |lines| <= U32_MAX
    ensures Flatten(Collapsed(lines, 0).rows) == lines && RowsOk(Collapsed(lines, 0).rows)
  {
    FaithfulContext(lines, 0);
  }
}
