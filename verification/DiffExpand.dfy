/** Expanding collapsed context in place (`Snapshot::expand_gap` in `src/review_diff.rs`). */
module DiffExpand {
  import opened Basics
  import opened Options
  import opened DiffRows

  datatype FileStatus = Added | Modified | Deleted | Binary
  datatype File = File(path: string, additions: nat, deletions: nat, status: FileStatus, diffLine: Option<nat>)
  datatype ExpansionDirection = Start | End | Both | All

  datatype View = View(
    files: seq<File>, lines: seq<Line>, additions: nat, deletions: nat, truncated: bool, headers: seq<nat>)

  function Less(a: nat, b: nat): nat {
    if a > b then a - b else 0
  }

  /** Rows that may still be shown in place of the gap row. */
  function Available(lines: seq<Line>): nat {
    Less(MAX_RENDERED_DIFF_LINES, Less(|lines|, 1))
  }

  function Requested(direction: ExpansionDirection, hidden: nat): nat {
    match direction
    case Start => DEFAULT_EXPANSION_LINE_COUNT
    case End => DEFAULT_EXPANSION_LINE_COUNT
    case Both => 2 * DEFAULT_EXPANSION_LINE_COUNT
    case All => hidden
  }

  function RevealedCount(direction: ExpansionDirection, hidden: nat, available: nat): nat {
    Min(Min(Requested(direction, hidden), hidden), available)
  }

  /** How many rows are revealed before what stays hidden; the others come after it. */
  function FromStart(direction: ExpansionDirection, position: GapPosition, shown: nat, hidden: nat): (n: nat)
    ensures n <= shown
  {
    match direction
    case Start => shown
    case End => 0
    case Both => (shown + 1) / 2
    case All =>
      if shown == hidden then shown
      else match position
           case Leading => 0
           case Trailing => shown
           case Between => (shown + 1) / 2
  }

  function Remaining(file: nat, gap: Gap): seq<Line> {
    if gap.hidden == [] then [] else [Bare(file, GapRow(gap.(count := |gap.hidden| % (U32_MAX + 1))))]
  }

  /** The rows that take the gap row's place: some from each end, the rest still hidden. */
  function Replacement(line: Line, gap: Gap, before: nat, shown: nat): seq<Line>
    requires before <= shown <= |gap.hidden|
  {
    var n := |gap.hidden| - (shown - before);
    gap.hidden[..before] + Remaining(line.file, gap.(hidden := gap.hidden[before..n])) + gap.hidden[n..]
  }

  function ShiftFile(f: File, index: nat, inserted: nat): File {
    if f.diffLine.Some? && f.diffLine.value > index
    then f.(diffLine := Some(f.diffLine.value + inserted)) else f
  }

  function ShiftFiles(files: seq<File>, index: nat, inserted: nat): seq<File> {
    seq(|files|, i requires 0 <= i < |files| => ShiftFile(files[i], index, inserted))
  }

  function ShiftHeaders(headers: seq<nat>, index: nat, inserted: nat): seq<nat> {
    seq(|headers|, i requires 0 <= i < |headers| => if headers[i] > index then headers[i] + inserted else headers[i])
  }

  /** The snapshot after a call, and the replacement count of a call that revealed rows. */
  function Expanded(v: View, index: nat, direction: ExpansionDirection): (View, Option<nat>) {
    if index >= |v.lines| || !Expandable(v.lines[index]) then (v, None)
    else
      var line, gap := v.lines[index], v.lines[index].kind.gap;
      var available := Available(v.lines);
      var shown := RevealedCount(direction, |gap.hidden|, available);
      if available == 0 then (v.(truncated := true), None)
      else if shown == 0 then (v, None)
      else
        var rows := Replacement(line, gap, FromStart(direction, gap.position, shown, |gap.hidden|), shown);
        var inserted := Less(|rows|, 1);
        (v.(files := ShiftFiles(v.files, index, inserted),
            lines := v.lines[..index] + rows + v.lines[index + 1..],
            truncated := v.truncated || (direction.All? && shown < |gap.hidden|),
            headers := ShiftHeaders(v.headers, index, inserted)), Some(|rows|))
  }

  // ----- the invariant -----

  predicate IndexesOk(v: View) {
    && v.headers == HeaderLines(v.lines)
    && forall i :: 0 <= i < |v.files| ==> v.files[i].diffLine == FirstHeader(v.lines, i)
  }

  /** What holds of every snapshot: rows, both indexes, and at most one row over the cap. */
  predicate SnapshotOk(v: View) {
    RowsOk(v.lines) && IndexesOk(v) && |v.lines| <= MAX_RENDERED_DIFF_LINES + 1
  }

  // ----- one replacement -----

  lemma ReplacementRows(line: Line, before: nat, shown: nat)
    requires GapOk(line) && Expandable(line) && 0 < shown && before <= shown <= |line.kind.gap.hidden|
    ensures var gap := line.kind.gap; var rows := Replacement(line, gap, before, shown);
      && Flatten(rows) == gap.hidden
      && HiddenCount(rows) == |gap.hidden| - shown
      && |rows| == shown + (if shown < |gap.hidden| then 1 else 0)
      && GapIds(rows) == (if shown < |gap.hidden| then [gap.id] else [])
      && (forall i :: 0 <= i < |rows| ==> GapOk(rows[i]) && !rows[i].kind.FileHeader?)
  {
    var gap := line.kind.gap;
    var n := |gap.hidden| - (shown - before);
    var head, mid, tail := gap.hidden[..before], gap.hidden[before..n], gap.hidden[n..];
    assert gap.hidden == head + mid + tail;
    ThreeParts(line, gap.(hidden := mid), head, tail);
  }

  lemma ThreeParts(line: Line, gap: Gap, head: seq<Line>, tail: seq<Line>)
    requires |gap.hidden| <= U32_MAX
    requires forall i :: 0 <= i < |head| ==> head[i].kind.Context?
    requires forall i :: 0 <= i < |tail| ==> tail[i].kind.Context?
    requires forall i :: 0 <= i < |gap.hidden| ==> gap.hidden[i].kind.Context?
    ensures var rest := Remaining(line.file, gap); var rows := head + rest + tail;
      && Flatten(rows) == head + gap.hidden + tail && HiddenCount(rows) == |gap.hidden|
      && GapIds(rows) == (if gap.hidden == [] then [] else [gap.id])
      && (forall i :: 0 <= i < |rows| ==> GapOk(rows[i]) && !rows[i].kind.FileHeader?)
  {
    hide Flatten, HiddenCount, GapIds, NoneExpandable;
    var rest := Remaining(line.file, gap);
    NothingHidden(head);
    NothingHidden(tail);
    FlattenFlat(head);
    FlattenFlat(tail);
    FlattenAround(head, rest, tail);
    HiddenAround(head, rest, tail);
    GapIdsAround(head, rest, tail);
    RemainingRows(line, gap);
  }

  lemma RemainingRows(line: Line, gap: Gap)
    requires |gap.hidden| <= U32_MAX
    ensures var rest := Remaining(line.file, gap);
      && Flatten(rest) == gap.hidden && HiddenCount(rest) == |gap.hidden|
      && GapIds(rest) == if gap.hidden == [] then [] else [gap.id]
  {
    if gap.hidden != [] {
      var row := Remaining(line.file, gap)[0];
      FlattenOne(row);
      assert [row][1..] == [];
      assert Expandable(row);
    }
  }

  /** The rows around the gap stay, and the gap row gives way to its replacement. */
  lemma LinesAround(v: View, index: nat)
    requires index < |v.lines|
    ensures v.lines == v.lines[..index] + [v.lines[index]] + v.lines[index + 1..]
  {
  }

  /** Expanding never changes the flattened rows, whatever the direction, and each
      success strictly lowers the number of hidden rows. */
  lemma ExpandKeepsText(v: View, index: nat, direction: ExpansionDirection)
    requires RowsOk(v.lines)
    ensures var (v', res) := Expanded(v, index, direction);
      && Flatten(v'.lines) == Flatten(v.lines)
      && (res.Some? ==> HiddenCount(v'.lines) < HiddenCount(v.lines))
      && (res.None? ==> v'.lines == v.lines && v'.headers == v.headers && v'.files == v.files)
  {
    hide GapOk;
    var (v', res) := Expanded(v, index, direction);
    if res.Some? {
      var line, gap := v.lines[index], v.lines[index].kind.gap;
      var shown := RevealedCount(direction, |gap.hidden|, Available(v.lines));
      var before := FromStart(direction, gap.position, shown, |gap.hidden|);
      var a, z := v.lines[..index], v.lines[index + 1..];
      ReplacementRows(line, before, shown);
      LinesAround(v, index);
      FlattenAround(a, [line], z);
      FlattenAround(a, Replacement(line, gap, before, shown), z);
      HiddenAround(a, [line], z);
      HiddenAround(a, Replacement(line, gap, before, shown), z);
      FlattenOne(line);
      assert HiddenCount([line]) == |gap.hidden| by { assert [line][1..] == []; }
    }
  }

  // ----- the indexes and the cap -----

  /** Where the headers are once one row without a header gives way to others. */
  lemma HeaderLinesSplice(a: seq<Line>, g: Line, rows: seq<Line>, z: seq<Line>)
    requires !g.kind.FileHeader? && rows != []
    requires forall i :: 0 <= i < |rows| ==> !rows[i].kind.FileHeader?
    ensures HeaderLines(a + rows + z) == ShiftHeaders(HeaderLines(a + [g] + z), |a|, |rows| - 1)
  {
    hide HeaderLines;
    HeaderLinesConcat(a + rows, z);
    HeaderLinesConcat(a, rows);
    HeaderLinesConcat(a + [g], z);
    HeaderLinesConcat(a, [g]);
    NoHeaders(rows);
    NoHeaders([g]);
    var ha, hz := HeaderLines(a), HeaderLines(z);
    assert forall i :: 0 <= i < |ha| ==> ha[i] in ha;
  }

  lemma {:induction false} NoHeaders(rows: seq<Line>)
    requires forall i :: 0 <= i < |rows| ==> !rows[i].kind.FileHeader?
    ensures HeaderLines(rows) == []
  {
    if rows != [] { NoHeaders(rows[..|rows| - 1]); }
  }

  lemma FirstHeaderSplice(a: seq<Line>, g: Line, rows: seq<Line>, z: seq<Line>, f: File, file: nat)
    requires !g.kind.FileHeader? && rows != []
    requires forall i :: 0 <= i < |rows| ==> !rows[i].kind.FileHeader?
    requires f.diffLine == FirstHeader(a + [g] + z, file)
    ensures ShiftFile(f, |a|, |rows| - 1).diffLine == FirstHeader(a + rows + z, file)
  {
    hide FirstHeader, ShiftFile, Placed;
    FirstHeaderOver(a, [g], z, file);
    FirstHeaderOver(a, rows, z, file);
    ShiftPlaced(f, FirstHeader(a, file), FirstHeader(z, file), |a|, |rows| - 1);
  }

  /** The first of two places, the second one counted from `n`. */
  function Placed(before: Option<nat>, behind: Option<nat>, n: nat): Option<nat> {
    match before
    case Some(i) => Some(i)
    case None => match behind case Some(i) => Some(n + i) case None => None
  }

  lemma ShiftPlaced(f: File, before: Option<nat>, behind: Option<nat>, n: nat, more: nat)
    requires (before.Some? ==> before.value < n) && f.diffLine == Placed(before, behind, n + 1)
    ensures ShiftFile(f, n, more).diffLine == Placed(before, behind, n + 1 + more)
  {
  }

  lemma FirstHeaderOver(a: seq<Line>, rows: seq<Line>, z: seq<Line>, file: nat)
    requires forall i :: 0 <= i < |rows| ==> !rows[i].kind.FileHeader?
    ensures FirstHeader(a + rows + z, file) == Placed(FirstHeader(a, file), FirstHeader(z, file), |a| + |rows|)
  {
    hide FirstHeader;
    FirstHeaderAround(a, rows, z, file);
  }

  /** The largest row count that a call can leave. */
  lemma RowCountAfter(v: View, index: nat, direction: ExpansionDirection)
    requires RowsOk(v.lines)
    ensures var (v', res) := Expanded(v, index, direction);
      res.Some? ==>
        var hidden := |v.lines[index].kind.gap.hidden|;
        var shown := RevealedCount(direction, hidden, Available(v.lines));
        && |v'.lines| == |v.lines| - 1 + shown + (if shown < hidden then 1 else 0)
        && res.value == shown + (if shown < hidden then 1 else 0)
  {
    hide Flatten, HiddenCount, GapIds, Ascending;
    var (v', res) := Expanded(v, index, direction);
    if res.Some? {
      var line, gap := v.lines[index], v.lines[index].kind.gap;
      var shown := RevealedCount(direction, |gap.hidden|, Available(v.lines));
      ReplacementRows(line, FromStart(direction, gap.position, shown, |gap.hidden|), shown);
    }
  }

  /** A success leaves one row over the cap exactly when the free rows are all used and
      the gap row stays for what is left: its row is not counted. */
  lemma OverTheCapIff(v: View, index: nat, direction: ExpansionDirection)
    requires SnapshotOk(v) && Expanded(v, index, direction).1.Some?
    ensures var hidden := |v.lines[index].kind.gap.hidden|;
      |Expanded(v, index, direction).0.lines| > MAX_RENDERED_DIFF_LINES <==>
        Available(v.lines) < hidden && Available(v.lines) <= Requested(direction, hidden)
  {
    hide RowsOk, IndexesOk;
    assert RowsOk(v.lines);
    RowCountAfter(v, index, direction);
  }

  lemma {:induction false} AscendingReplace(a: seq<nat>, x: nat, z: seq<nat>)
    requires Ascending(a + [x] + z)
    ensures Ascending(a + z)
  {
    var s, t := a + [x] + z, a + z;
    forall i, j | 0 <= i < j < |t| ensures t[i] < t[j] {
      var i', j' := if i < |a| then i else i + 1, if j < |a| then j else j + 1;
      assert t[i] == s[i'] && t[j] == s[j'];
    }
  }

  lemma RowsStayOk(a: seq<Line>, g: Line, z: seq<Line>, rows: seq<Line>)
    requires RowsOk(a + [g] + z) && g.kind.GapRow?
    requires GapIds(rows) == [] || GapIds(rows) == [g.kind.gap.id]
    requires forall i :: 0 <= i < |rows| ==> GapOk(rows[i])
    ensures RowsOk(a + rows + z)
  {
    hide GapIds, GapOk, Ascending;
    IdsStayAscending(a, g, z, rows);
    GapsStayOk(a, g, z, rows);
  }

  lemma IdsStayAscending(a: seq<Line>, g: Line, z: seq<Line>, rows: seq<Line>)
    requires Ascending(GapIds(a + [g] + z)) && g.kind.GapRow?
    requires GapIds(rows) == [] || GapIds(rows) == [g.kind.gap.id]
    ensures Ascending(GapIds(a + rows + z))
  {
    hide GapIds, Ascending;
    GapIdsAround(a, [g], z);
    GapIdsAround(a, rows, z);
    OneGapId(g);
    if GapIds(rows) == [] {
      AscendingReplace(GapIds(a), g.kind.gap.id, GapIds(z));
      assert GapIds(a) + [] + GapIds(z) == GapIds(a) + GapIds(z);
    }
  }

  lemma GapsStayOk(a: seq<Line>, g: Line, z: seq<Line>, rows: seq<Line>)
    requires forall i :: 0 <= i < |a + [g] + z| ==> GapOk((a + [g] + z)[i])
    requires forall i :: 0 <= i < |rows| ==> GapOk(rows[i])
    ensures forall i :: 0 <= i < |a + rows + z| ==> GapOk((a + rows + z)[i])
  {
    hide GapOk;
    var before, after := a + [g] + z, a + rows + z;
    forall i | 0 <= i < |after| ensures GapOk(after[i]) {
      if i < |a| {
        assert after[i] == before[i];
      } else if i >= |a| + |rows| {
        assert after[i] == before[i - |rows| + 1];
      }
    }
  }

  /** Both indexes follow the rows, gap ids stay distinct and the count stays bounded. */
  lemma ExpandKeepsSnapshot(v: View, index: nat, direction: ExpansionDirection)
    requires SnapshotOk(v)
    ensures SnapshotOk(Expanded(v, index, direction).0)
  {
    hide RowsOk, Flatten, HiddenCount, GapIds, GapOk, FirstHeader, HeaderLines;
    var (v', res) := Expanded(v, index, direction);
    if res.Some? {
      var line, gap := v.lines[index], v.lines[index].kind.gap;
      var shown := RevealedCount(direction, |gap.hidden|, Available(v.lines));
      var before := FromStart(direction, gap.position, shown, |gap.hidden|);
      var rows := Replacement(line, gap, before, shown);
      var a, z := v.lines[..index], v.lines[index + 1..];
      LinesAround(v, index);
      GapOfRows(v.lines, index);
      ReplacementRows(line, before, shown);
      RowsStayOk(a, line, z, rows);
      HeaderLinesSplice(a, line, rows, z);
      forall i | 0 <= i < |v.files| ensures v'.files[i].diffLine == FirstHeader(v'.lines, i) {
        FirstHeaderSplice(a, line, rows, z, v.files[i], i);
      }
      RowCountAfter(v, index, direction);
    }
  }

  lemma GapOfRows(lines: seq<Line>, index: nat)
    requires RowsOk(lines) && index < |lines|
    ensures GapOk(lines[index])
  {
  }

  // ----- runs -----

  datatype Click = Click(index: nat, direction: ExpansionDirection)

  function Clicked(v: View, clicks: seq<Click>): View
    decreases |clicks|
  {
    if clicks == [] then v
    else Clicked(Expanded(v, clicks[0].index, clicks[0].direction).0, clicks[1..])
  }

  /** Any run of expansions keeps the flattened rows and the whole invariant. */
  lemma {:induction false} RunKeepsSnapshot(v: View, clicks: seq<Click>)
    requires SnapshotOk(v)
    ensures SnapshotOk(Clicked(v, clicks)) && Flatten(Clicked(v, clicks).lines) == Flatten(v.lines)
    ensures HiddenCount(Clicked(v, clicks).lines) <= HiddenCount(v.lines)
    decreases |clicks|
  {
    hide SnapshotOk, Expanded;
    if clicks != [] {
      ExpandKeepsSnapshot(v, clicks[0].index, clicks[0].direction);
      assert RowsOk(v.lines) by { OkRows(v); }
      ExpandKeepsText(v, clicks[0].index, clicks[0].direction);
      RunKeepsSnapshot(Expanded(v, clicks[0].index, clicks[0].direction).0, clicks[1..]);
    }
  }

  lemma OkRows(v: View)
    requires SnapshotOk(v)
    ensures RowsOk(v.lines)
  {
  }

  lemma {:induction false} FlattenIsNoShorter(lines: seq<Line>)
    ensures |Flatten(lines)| >= |lines|
  {
    if lines != [] { FlattenIsNoShorter(lines[1..]); }
  }

  /** When all the rows fit, `All` reveals the whole of a gap. */
  lemma AllRevealsAll(v: View, index: nat)
    requires SnapshotOk(v) && index < |v.lines| && Expandable(v.lines[index])
    requires |Flatten(v.lines)| <= MAX_RENDERED_DIFF_LINES
    ensures Expanded(v, index, All).1.Some?
    ensures HiddenCount(Expanded(v, index, All).0.lines) < HiddenCount(v.lines)
  {
    hide SnapshotOk, IndexesOk, Flatten, HiddenCount;
    OkRows(v);
    var line := v.lines[index];
    var a, z := v.lines[..index], v.lines[index + 1..];
    LinesAround(v, index);
    FlattenAround(a, [line], z);
    FlattenOne(line);
    FlattenIsNoShorter(a);
    FlattenIsNoShorter(z);
    ExpandKeepsText(v, index, All);
  }

  /** If the flattened rows fit the cap, full expansion is always reachable and equals
      them: from any state, some clicks show exactly the flattened rows. */
  lemma {:induction false} FullExpansionReachable(v: View) returns (clicks: seq<Click>)
    requires SnapshotOk(v) && |Flatten(v.lines)| <= MAX_RENDERED_DIFF_LINES
    ensures Clicked(v, clicks).lines == Flatten(v.lines)
    decreases HiddenCount(v.lines)
  {
    hide SnapshotOk, Expanded, HiddenCount, Flatten;
    if NoneExpandable(v.lines) {
      clicks := [];
      FlattenFlat(v.lines);
    } else {
      var index: nat :| index < |v.lines| && Expandable(v.lines[index]);
      AllRevealsAll(v, index);
      OkRows(v);
      ExpandKeepsText(v, index, All);
      ExpandKeepsSnapshot(v, index, All);
      var rest := FullExpansionReachable(Expanded(v, index, All).0);
      clicks := [Click(index, All)] + rest;
      assert clicks[1..] == rest;
    }
  }
}
