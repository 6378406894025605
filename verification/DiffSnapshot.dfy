/** The snapshot a review surface holds: built from parsed rows, then expanded in place. */
module DiffSnapshot {
  import opened Basics
  import opened Options
  import opened DiffRows
  import opened DiffExpand
  import opened DiffCollapse

  // ----- from parsed rows to a snapshot -----

  function Visible(lines: seq<Line>): seq<Line> {
    lines[..Min(|lines|, MAX_RENDERED_DIFF_LINES)]
  }

  /** `cap_visible_lines`: push rows until one does not fit. */
  method CapVisibleLines(lines: seq<Line>) returns (visible: seq<Line>, truncated: bool)
    ensures visible == Visible(lines) && truncated == (|lines| > MAX_RENDERED_DIFF_LINES)
  {
    truncated := |lines| > MAX_RENDERED_DIFF_LINES;
    visible := [];
    for i := 0 to |lines|
      invariant visible == lines[..i] && i <= MAX_RENDERED_DIFF_LINES
    {
      if |visible| >= MAX_RENDERED_DIFF_LINES {
        break;
      }
      visible := visible + [lines[i]];
    }
  }

  /** Header rows of files that are listed. */
  function ListedHeaders(lines: seq<Line>, n: nat): seq<nat> {
    if lines == [] then []
    else
      var k := |lines| - 1;
      ListedHeaders(lines[..k], n) + (if lines[k].kind.FileHeader? && lines[k].file < n then [k] else [])
  }

  predicate FilesListed(lines: seq<Line>, n: nat) {
    forall i :: 0 <= i < |lines| ==> lines[i].file < n
  }

  lemma {:induction false} ListedHeadersAreAll(lines: seq<Line>, n: nat)
    requires FilesListed(lines, n)
    ensures ListedHeaders(lines, n) == HeaderLines(lines)
  {
    if lines != [] { ListedHeadersAreAll(lines[..|lines| - 1], n); }
  }

  function Indexed(files: seq<File>, lines: seq<Line>): (r: seq<File>)
    ensures |r| == |files|
  {
    seq(|files|, i requires 0 <= i < |files| => files[i].(diffLine := FirstHeader(lines, i)))
  }

  /** `recompute_diff_lines`: the first header of each file and the list of all of them. */
  method RecomputeDiffLines(files: seq<File>, lines: seq<Line>) returns (indexed: seq<File>, headers: seq<nat>)
    ensures indexed == Indexed(files, lines) && headers == ListedHeaders(lines, |files|)
  {
    indexed := seq(|files|, i requires 0 <= i < |files| => files[i].(diffLine := None));
    headers := [];
    assert lines[..0] == [];
    for i := 0 to |lines|
      invariant indexed == Indexed(files, lines[..i]) && headers == ListedHeaders(lines[..i], |files|)
    {
      assert lines[..i + 1][..i] == lines[..i];
      if lines[i].kind.FileHeader? && lines[i].file < |files| {
        var f := lines[i].file;
        if indexed[f].diffLine.None? {
          indexed := indexed[f := indexed[f].(diffLine := Some(i))];
        }
        headers := headers + [i];
      }
    }
    assert lines[..|lines|] == lines;
  }

  function Sum(ns: seq<nat>): nat {
    if ns == [] then 0 else ns[0] + Sum(ns[1..])
  }

  /** The end of `parse`: collapse complete context, cap, index. */
  function Finished(files: seq<File>, lines: seq<Line>, completeContext: bool): View {
    var all := if completeContext then Collapsed(lines, 0).rows else lines;
    var rows := Visible(all);
    View(Indexed(files, rows), rows,
         Sum(seq(|files|, i requires 0 <= i < |files| => files[i].additions)),
         Sum(seq(|files|, i requires 0 <= i < |files| => files[i].deletions)),
         |all| > MAX_RENDERED_DIFF_LINES, ListedHeaders(rows, |files|))
  }

  /** Every row keeps the file it came with. */
  lemma {:induction false} CollapsedFilesListed(lines: seq<Line>, id: nat, n: nat)
    requires FilesListed(lines, n)
    ensures FilesListed(Collapsed(lines, id).rows, n)
    decreases |lines|
  {
    hide CollapsedFile;
    if lines != [] {
      var k := FileLength(lines, lines[0].file);
      ContextStep(lines, id, k);
      CollapsedFileListed(lines[..k], false, id, n);
      CollapsedFilesListed(lines[k..], CollapsedFile(lines[..k], false, id).id, n);
    }
  }

  lemma {:induction false} CollapsedFileListed(lines: seq<Line>, sawChange: bool, id: nat, n: nat)
    requires FilesListed(lines, n)
    ensures FilesListed(CollapsedFile(lines, sawChange, id).rows, n)
    decreases |lines|
  {
    hide HasChange, RunOutput;
    if lines == [] {
    } else if !lines[0].kind.Context? {
      CollapsedFileListed(lines[1..], sawChange || IsChange(lines[0]), id, n);
    } else {
      var k := RunLength(lines);
      FileStepRun(lines, sawChange, id, k);
      var o := RunOutput(lines[..k], sawChange, HasChange(lines[k..]), id);
      RunListed(lines[..k], sawChange, HasChange(lines[k..]), id, n);
      CollapsedFileListed(lines[k..], sawChange, o.id, n);
    }
  }

  lemma RunListed(run: seq<Line>, sawChange: bool, laterChange: bool, id: nat, n: nat)
    requires FilesListed(run, n)
    ensures FilesListed(RunOutput(run, sawChange, laterChange, id).rows, n)
  {
    hide KeptStart, KeptEnd;
  }

  lemma VisibleRowsOk(lines: seq<Line>)
    requires RowsOk(lines)
    ensures RowsOk(Visible(lines))
  {
    var k := Min(|lines|, MAX_RENDERED_DIFF_LINES);
    assert lines == lines[..k] + lines[k..];
    GapIdsConcat(lines[..k], lines[k..]);
    hide GapIds, GapOk;
    assert forall i :: 0 <= i < |GapIds(lines[..k])| ==> GapIds(lines[..k])[i] == GapIds(lines)[i];
  }

  /** What `parse` leaves satisfies the invariant that every expansion keeps. */
  lemma FinishedIsOk(files: seq<File>, lines: seq<Line>, completeContext: bool)
    requires FilesListed(lines, |files|)
    requires if completeContext then NoGaps(lines) && |lines| <= U32_MAX else RowsOk(lines)
    ensures SnapshotOk(Finished(files, lines, completeContext))
  {
    hide Collapsed, RowsOk, NoGaps, Sum, ListedHeaders;
    var all := if completeContext then Collapsed(lines, 0).rows else lines;
    if completeContext {
      CollapseThenFlatten(lines);
      CollapsedFilesListed(lines, 0, |files|);
    }
    VisibleRowsOk(all);
    ListedHeadersAreAll(Visible(all), |files|);
  }

  /** With complete context within the cap, any run of expansions shows rows that flatten
      to the parsed ones, and some run shows exactly the parsed ones. */
  lemma FinishedShowsEverything(files: seq<File>, lines: seq<Line>, clicks: seq<Click>)
    returns (more: seq<Click>)
    requires FilesListed(lines, |files|) && NoGaps(lines) && |lines| <= MAX_RENDERED_DIFF_LINES
    ensures var v := Clicked(Finished(files, lines, true), clicks);
      SnapshotOk(v) && Flatten(v.lines) == lines && Clicked(v, more).lines == lines
  {
    hide Collapsed, RowsOk, NoGaps, Sum, ListedHeaders, SnapshotOk, Flatten;
    var v0 := Finished(files, lines, true);
    FinishedIsOk(files, lines, true);
    CollapseThenFlatten(lines);
    FlattenIsNoShorter(Collapsed(lines, 0).rows);
    assert Visible(Collapsed(lines, 0).rows) == Collapsed(lines, 0).rows;
    RunKeepsSnapshot(v0, clicks);
    more := FullExpansionReachable(Clicked(v0, clicks));
  }

  // ----- one row over the cap -----

  lemma {:induction false} OneFile(lines: seq<Line>, file: nat)
    requires forall i :: 0 <= i < |lines| ==> lines[i].file == file
    ensures FileLength(lines, file) == |lines|
  {
    if lines != [] { OneFile(lines[1..], file); }
  }

  /** Additions are kept as they are. */
  lemma {:induction false} AdditionsStay(added: seq<Line>, rest: seq<Line>, sawChange: bool, id: nat)
    requires forall i :: 0 <= i < |added| ==> added[i].kind.Addition?
    ensures var o := CollapsedFile(rest, sawChange || added != [], id);
      CollapsedFile(added + rest, sawChange, id) == Output(added + o.rows, o.id)
    decreases |added|
  {
    hide CollapsedFile;
    var o := CollapsedFile(rest, sawChange || added != [], id);
    if added == [] {
      assert added + rest == rest && added + o.rows == o.rows;
    } else {
      var lines := added + rest;
      assert lines[0] == added[0] && lines[1..] == added[1..] + rest;
      FileStepRow(lines, sawChange, id);
      AdditionsStay(added[1..], rest, true, id);
      assert [added[0]] + (added[1..] + o.rows) == added + o.rows;
    }
  }

  lemma {:induction false} AllOneRun(context: seq<Line>)
    requires AllContext(context)
    ensures RunLength(context) == |context|
  {
    if context != [] { AllOneRun(context[1..]); }
  }

  /** Five context rows at the end of a changed file: two of them go into a gap. */
  lemma TwoHidden(context: seq<Line>)
    requires AllContext(context) && |context| == 5
    ensures CollapsedFile(context, true, 0).rows ==
            context[..3] + [Bare(context[3].file, GapRow(Gap(0, 2, context[3..], Trailing)))]
  {
    AllOneRun(context);
    assert context[5..] == [] && context[..5] == context && context[3..5] == context[3..];
    assert context[3..][..2] == context[3..];
  }

  /** What `parse` leaves of a file whose rows pass the cap by one before they collapse. */
  lemma AtTheCap(head: Line, added: seq<Line>, context: seq<Line>)
    requires head.kind.FileHeader? && |added| == MAX_RENDERED_DIFF_LINES - 5 && |context| == 5 && AllContext(context)
    requires forall i :: 0 <= i < |added| ==> added[i].kind.Addition?
    requires var lines := [head] + (added + context); forall i :: 0 <= i < |lines| ==> lines[i].file == head.file
    ensures var lines := [head] + (added + context);
      Collapsed(lines, 0).rows ==
        [head] + (added + (context[..3] + [Bare(context[3].file, GapRow(Gap(0, 2, context[3..], Trailing)))]))
  {
    hide CollapsedFile, FileLength, AllContext;
    var lines := [head] + (added + context);
    OneFile(lines, head.file);
    ContextStep(lines, 0, |lines|);
    assert lines[..|lines|] == lines && lines[|lines|..] == [] && lines[1..] == added + context;
    FileStepRow(lines, false, 0);
    AdditionsStay(added, context, false, 0);
    TwoHidden(context);
    NothingCollapses(CollapsedFile(lines, false, 0).rows, CollapsedFile(lines, false, 0).id);
  }

  lemma NothingCollapses(rows: seq<Line>, id: nat)
    ensures rows + Collapsed([], id).rows == rows
  {
  }

  /** From such a snapshot, full but not truncated, one click leaves a row too many. */
  lemma OneRowOverTheCap(files: seq<File>, head: Line, added: seq<Line>, context: seq<Line>)
    requires head.kind.FileHeader? && |added| == MAX_RENDERED_DIFF_LINES - 5 && |context| == 5 && AllContext(context)
    requires forall i :: 0 <= i < |added| ==> added[i].kind.Addition?
    requires var lines := [head] + (added + context); forall i :: 0 <= i < |lines| ==> lines[i].file == head.file
    requires head.file < |files|
    ensures var v := Finished(files, [head] + (added + context), true);
      && SnapshotOk(v) && |v.lines| == MAX_RENDERED_DIFF_LINES && !v.truncated
      && |Expanded(v, MAX_RENDERED_DIFF_LINES - 1, Start).0.lines| == MAX_RENDERED_DIFF_LINES + 1
  {
    hide Collapsed, RowsOk, IndexesOk, Sum, ListedHeaders, FilesListed, Replacement;
    var lines := [head] + (added + context);
    assert FilesListed(lines, |files|) by { SameFileListed(lines, head.file, |files|); }
    assert NoGaps(lines);
    FinishedIsOk(files, lines, true);
    AtTheCap(head, added, context);
    var v := Finished(files, lines, true);
    var rows := Collapsed(lines, 0).rows;
    assert |rows| == MAX_RENDERED_DIFF_LINES && Visible(rows) == rows;
    var index := MAX_RENDERED_DIFF_LINES - 1;
    assert v.lines[index] == Bare(context[3].file, GapRow(Gap(0, 2, context[3..], Trailing)));
    OverTheCapIff(v, index, Start);
    ExpandKeepsSnapshot(v, index, Start);
  }

  lemma SameFileListed(lines: seq<Line>, file: nat, n: nat)
    requires file < n && forall i :: 0 <= i < |lines| ==> lines[i].file == file
    ensures FilesListed(lines, n)
  {
  }

  // ----- sticky headers -----

  predicate HeaderAt(lines: seq<Line>, i: nat) {
    i < |lines| && lines[i].kind.FileHeader?
  }

  /** `around` holds the nearest header at or before a row, and the nearest after it. */
  ghost predicate AsScanned(lines: seq<Line>, lineIndex: nat, around: Option<(nat, Option<nat>)>) {
    match around
    case None => forall i: nat :: i <= lineIndex ==> !HeaderAt(lines, i)
    case Some((current, next)) =>
      && current <= lineIndex && HeaderAt(lines, current)
      && (forall i: nat :: current < i <= lineIndex ==> !HeaderAt(lines, i))
      && (match next
          case None => forall i: nat :: lineIndex < i ==> !HeaderAt(lines, i)
          case Some(n) => lineIndex < n && HeaderAt(lines, n)
                          && (forall i: nat :: lineIndex < i < n ==> !HeaderAt(lines, i)))
  }

  lemma FoundAsScanned(lines: seq<Line>, lineIndex: nat, p: nat)
    requires p <= |HeaderLines(lines)|
    requires forall i :: 0 <= i < p ==> HeaderLines(lines)[i] <= lineIndex
    requires forall i :: p <= i < |HeaderLines(lines)| ==> HeaderLines(lines)[i] > lineIndex
    ensures var hs := HeaderLines(lines);
      AsScanned(lines, lineIndex,
        if p == 0 then None else Some((hs[p - 1], if p < |hs| then Some(hs[p]) else None)))
  {
    var hs := HeaderLines(lines);
    HeaderLinesAscend(lines);
    hide HeaderLines;
    forall i: nat | HeaderAt(lines, i)
      ensures if i <= lineIndex then p > 0 && i <= hs[p - 1] else p < |hs| && i >= hs[p]
    {
      HeaderLinesListed(lines, i);
      var j :| 0 <= j < |hs| && hs[j] == i;
    }
    if p > 0 { HeaderLinesListed(lines, hs[p - 1]); }
    if p < |hs| { HeaderLinesListed(lines, hs[p]); }
  }

  // ----- the snapshot in place -----

  class Snapshot {
    var files: seq<File>
    var lines: seq<Line>
    var additions: nat
    var deletions: nat
    var truncated: bool
    var fileHeaderLines: seq<nat>

    function Value(): View
      reads this
    {
      View(files, lines, additions, deletions, truncated, fileHeaderLines)
    }

    constructor (parsedFiles: seq<File>, parsed: seq<Line>, completeContext: bool)
      ensures Value() == Finished(parsedFiles, parsed, completeContext)
    {
      var all := parsed;
      if completeContext {
        all := CollapseContext(parsed);
      }
      var rows, cut := CapVisibleLines(all);
      var indexed, headers := RecomputeDiffLines(parsedFiles, rows);
      files, lines, truncated, fileHeaderLines := indexed, rows, cut, headers;
      additions := Sum(seq(|parsedFiles|, i requires 0 <= i < |parsedFiles| => parsedFiles[i].additions));
      deletions := Sum(seq(|parsedFiles|, i requires 0 <= i < |parsedFiles| => parsedFiles[i].deletions));
    }

    /** The header at or before a row and the header after it, by binary search over
        the list, are what a scan of the rows finds. */
    method FileHeadersAround(lineIndex: nat) returns (around: Option<(nat, Option<nat>)>)
      requires fileHeaderLines == HeaderLines(lines)
      ensures AsScanned(lines, lineIndex, around)
    {
      HeaderLinesAscend(lines);
      var nextPosition := PartitionPoint(fileHeaderLines, (header: nat) => header <= lineIndex);
      FoundAsScanned(lines, lineIndex, nextPosition);
      if nextPosition == 0 {
        return None;
      }
      around := Some((fileHeaderLines[nextPosition - 1],
                      if nextPosition < |fileHeaderLines| then Some(fileHeaderLines[nextPosition]) else None));
    }

    method ExpandGap(lineIndex: nat, direction: ExpansionDirection) returns (replacementCount: Option<nat>)
      modifies this
      ensures (Value(), replacementCount) == Expanded(old(Value()), lineIndex, direction)
    {
      if lineIndex >= |lines| {
        return None;
      }
      var line := lines[lineIndex];
      if !line.kind.GapRow? || !line.kind.gap.IsExpandable() {
        return None;
      }
      var gap := line.kind.gap;
      var available := Less(MAX_RENDERED_DIFF_LINES, Less(|lines|, 1));
      if available == 0 {
        truncated := true;
        return None;
      }
      var shown := Min(Min(Requested(direction, |gap.hidden|), |gap.hidden|), available);
      if shown == 0 {
        return None;
      }
      if direction.All? && shown < |gap.hidden| {
        truncated := true;
      }
      var replacement := ReplacementRowsFor(line, gap, direction, shown);
      var inserted := Less(|replacement|, 1);
      lines := lines[..lineIndex] + replacement + lines[lineIndex + 1..];
      files := ShiftFiles(files, lineIndex, inserted);
      fileHeaderLines := ShiftHeaders(fileHeaderLines, lineIndex, inserted);
      replacementCount := Some(|replacement|);
    }

    /** The branches of the direction, each draining `hidden` from its own ends. */
    method ReplacementRowsFor(line: Line, gap: Gap, direction: ExpansionDirection, shown: nat)
      returns (replacement: seq<Line>)
      requires 0 < shown <= |gap.hidden|
      ensures replacement == Replacement(line, gap, FromStart(direction, gap.position, shown, |gap.hidden|), shown)
    {
      hide Replacement, Remaining;
      var hidden := gap.hidden;
      if direction.Start? || (direction.All? && shown < |hidden| && gap.position.Trailing?) {
        replacement := hidden[..shown] + Remaining(line.file, gap.(hidden := hidden[shown..]));
        FromTheStart(line, gap, shown);
      } else if direction.End? || (direction.All? && shown < |hidden| && gap.position.Leading?) {
        replacement := Remaining(line.file, gap.(hidden := hidden[..|hidden| - shown])) + hidden[|hidden| - shown..];
        FromTheEnd(line, gap, shown);
      } else if shown == |hidden| {
        replacement := hidden;
        AllOfIt(line, gap, FromStart(direction, gap.position, shown, |hidden|));
      } else {
        var fromStart := (shown + 1) / 2;
        var fromEnd := shown - fromStart;
        var rest := hidden[fromStart..];
        var revealedEnd := rest[|rest| - fromEnd..];
        replacement := hidden[..fromStart]
          + Remaining(line.file, gap.(hidden := rest[..|rest| - fromEnd])) + revealedEnd;
        FromBothEnds(line, gap, fromStart, fromEnd);
      }
    }
  }

  lemma FromTheStart(line: Line, gap: Gap, shown: nat)
    requires shown <= |gap.hidden|
    ensures Replacement(line, gap, shown, shown)
         == gap.hidden[..shown] + Remaining(line.file, gap.(hidden := gap.hidden[shown..]))
  {
    assert gap.hidden[shown..|gap.hidden|] == gap.hidden[shown..];
  }

  lemma FromTheEnd(line: Line, gap: Gap, shown: nat)
    requires shown <= |gap.hidden|
    ensures var k := |gap.hidden| - shown;
      Replacement(line, gap, 0, shown) == Remaining(line.file, gap.(hidden := gap.hidden[..k])) + gap.hidden[k..]
  {
    var k := |gap.hidden| - shown;
    assert gap.hidden[0..k] == gap.hidden[..k];
  }

  lemma AllOfIt(line: Line, gap: Gap, before: nat)
    requires before <= |gap.hidden|
    ensures Replacement(line, gap, before, |gap.hidden|) == gap.hidden
  {
  }

  lemma FromBothEnds(line: Line, gap: Gap, fromStart: nat, fromEnd: nat)
    requires fromStart + fromEnd <= |gap.hidden|
    ensures var rest := gap.hidden[fromStart..]; var k := |rest| - fromEnd;
      Replacement(line, gap, fromStart, fromStart + fromEnd)
        == gap.hidden[..fromStart] + Remaining(line.file, gap.(hidden := rest[..k])) + rest[k..]
  {
    var rest := gap.hidden[fromStart..];
    assert rest[..|rest| - fromEnd] == gap.hidden[fromStart..|gap.hidden| - fromEnd];
    assert rest[|rest| - fromEnd..] == gap.hidden[|gap.hidden| - fromEnd..];
  }
}
