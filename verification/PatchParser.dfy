/** The line-by-line patch parser (`parse` in `src/review_diff.rs`), syntax tokens left out. */
module PatchParser {
  import opened Basics
  import opened Options
  import opened Text
  import opened DiffRows
  import opened DiffExpand
  import opened DiffCollapse
  import opened DiffSnapshot

  const U64_MAX: nat := U64_SIZE - 1

  // ----- one line -----

  function Unescaped(path: string): string {
    if path == [] then []
    else if path[0] == '\\' then
      if |path| == 1 then []
      else [match path[1] case 't' => '\t' case 'n' => '\n' case 'r' => '\r' case c => c] + Unescaped(path[2..])
    else [path[0]] + Unescaped(path[1..])
  }

  /** `parse_diff_header_path`. */
  function HeaderPath(raw: string): Option<string> {
    match StripPrefix(raw, "diff --git ")
    case None => None
    case Some(rest) =>
      match AfterLast(rest, " b/")
      case Some(path) => Some(Unescaped(path))
      case None =>
        match AfterLast(rest, " \"b/")
        case None => None
        case Some(path) =>
          Some(Unescaped(if path != [] && path[|path| - 1] == '"' then path[..|path| - 1] else path))
  }

  /** `parse_range_start`: the number before the first comma. */
  function RangeStart(range: string): Option<nat> {
    match Find(range, ",")
    case Some(i) => ParseUnsigned(range[..i], U32_MAX)
    case None => ParseUnsigned(range, U32_MAX)
  }

  /** `parse_hunk_starts`. */
  function HunkStarts(raw: string): Option<(nat, nat)> {
    match StripPrefix(raw, "@@ ")
    case None => None
    case Some(rest) =>
      match SplitOnce(rest, " @@")
      case None => None
      case Some((ranges, _)) =>
        match NextWord(ranges)
        case None => None
        case Some((first, more)) =>
          match (StripPrefix(first, "-"), NextWord(more))
          case (Some(old_), Some((second, _))) =>
            (match StripPrefix(second, "+")
             case None => None
             case Some(new_) =>
               match (RangeStart(old_), RangeStart(new_))
               case (Some(o), Some(n)) => Some((o, n))
               case _ => None)
          case _ => None
  }

  // ----- the state between lines -----

  datatype State = State(
    files: seq<File>, indexes: map<string, nat>, lines: seq<Line>, current: Option<nat>,
    oldLine: nat, newLine: nat, previousOldNext: nat, previousNewNext: nat,
    nextGapId: nat, positioned: bool)

  function Saturated(n: nat): nat {
    if n < U32_MAX then n + 1 else U32_MAX
  }

  function Pushed(st: State, line: Line): State {
    st.(lines := st.lines + [line])
  }

  function WithFile(st: State, path: string): (r: State)
    ensures path in r.indexes
  {
    if path in st.indexes then st
    else st.(files := st.files + [File(path, 0, 0, Modified, None)], indexes := st.indexes[path := |st.files|])
  }

  function OnHeader(st: State, path: string): State {
    var s := WithFile(st, path);
    var f := s.indexes[path];
    State(s.files, s.indexes, s.lines + [Bare(f, FileHeader)], Some(f), 0, 0, 1, 1, s.nextGapId, true)
  }

  function WithStatus(st: State, f: nat, status: FileStatus): State {
    if f < |st.files| then st.(files := st.files[f := st.files[f].(status := status)]) else st
  }

  predicate Skipped(raw: string) {
    StartsWith(raw, "index ") || StartsWith(raw, "--- ") || StartsWith(raw, "+++ ")
    || StartsWith(raw, "old mode ") || StartsWith(raw, "new mode ")
  }

  function OnBareHunk(st: State, f: nat): State {
    var s := st.(positioned := false);
    if s.lines == [] || s.lines[|s.lines| - 1].kind.FileHeader? then s else Pushed(s, Bare(f, HunkHeader))
  }

  function OnHunk(st: State, f: nat, raw: string, nextOld: nat, nextNew: nat, complete: bool): State {
    var oldGap, newGap := Less(nextOld, st.previousOldNext), Less(nextNew, st.previousNewNext);
    var gap := if oldGap > newGap then oldGap else newGap;
    var first := st.previousOldNext == 1 && st.previousNewNext == 1;
    var s :=
      if !complete && gap > 0 then
        Pushed(st, Bare(f, GapRow(Gap(st.nextGapId, gap, [], if first then Leading else Between))))
          .(nextGapId := NextId(st.nextGapId))
      else if !complete && !first then Pushed(st, Bare(f, HunkHeader).(content := raw))
      else st;
    s.(positioned := true, oldLine := nextOld, newLine := nextNew)
  }

  function NumberIf(positioned: bool, n: nat): Option<nat> {
    if positioned then Some(n) else None
  }

  function OnRow(st: State, f: nat, raw: string): State {
    if raw == [] then st
    else
      var content := raw[1..];
      var o, n := NumberIf(st.positioned, st.oldLine), NumberIf(st.positioned, st.newLine);
      var s :=
        match raw[0]
        case ' ' => Pushed(st, Line(f, o, n, Context, content))
                      .(oldLine := Saturated(st.oldLine), newLine := Saturated(st.newLine))
        case '-' => Pushed(st, Line(f, o, None, Deletion, content)).(oldLine := Saturated(st.oldLine))
        case '+' => Pushed(st, Line(f, None, n, Addition, content)).(newLine := Saturated(st.newLine))
        case '\\' => Pushed(st, Line(f, None, None, Meta, content))
        case _ => st;
      if raw[0] in " -+\\" then s.(previousOldNext := s.oldLine, previousNewNext := s.newLine) else st
  }

  function InFile(st: State, f: nat, raw: string, complete: bool): State {
    if StartsWith(raw, "new file mode ") then WithStatus(st, f, Added)
    else if StartsWith(raw, "deleted file mode ") then WithStatus(st, f, Deleted)
    else if StartsWith(raw, "Binary files ") || raw == "GIT binary patch" then
      Pushed(WithStatus(st, f, Binary), Bare(f, Meta).(content := "Binary file changed"))
    else if Skipped(raw) then st
    else
      match HunkStarts(raw)
      case None => if StartsWith(raw, "@@") then OnBareHunk(st, f) else OnRow(st, f, raw)
      case Some((o, n)) => OnHunk(st, f, raw, o, n, complete)
  }

  function Step(st: State, raw: string, complete: bool): State {
    match HeaderPath(raw)
    case Some(path) => OnHeader(st, path)
    case None =>
      match st.current
      case None => st
      case Some(f) => InFile(st, f, raw, complete)
  }

  function Steps(st: State, patch: seq<string>, complete: bool): State {
    if patch == [] then st else Step(Steps(st, patch[..|patch| - 1], complete), patch[|patch| - 1], complete)
  }

  function Started(files: seq<File>, indexes: map<string, nat>): State {
    State(files, indexes, [], None, 0, 0, 1, 1, 0, true)
  }

  // ----- numstat -----

  /** One `additions, deletions, path` line, its columns parted by tabs. */
  function NumstatFile(line: string): Option<File> {
    match SplitOnce(line, "\t")
    case None => None
    case Some((additions, rest)) =>
      match SplitOnce(rest, "\t")
      case None => None
      case Some((deletions, path)) =>
        Some(File(path, CountOr0(additions), CountOr0(deletions),
                  if additions == "-" || deletions == "-" then Binary else Modified, None))
  }

  function CountOr0(s: string): nat {
    match ParseUnsigned(s, U64_MAX) case Some(n) => n case None => 0
  }

  function NumstatFiles(numstat: seq<string>): seq<File> {
    if numstat == [] then []
    else (match NumstatFile(numstat[0]) case Some(f) => [f] case None => []) + NumstatFiles(numstat[1..])
  }

  /** Later files win a shared path, as when pairs are collected into a map. */
  function PathIndexes(files: seq<File>): (m: map<string, nat>)
    ensures forall p :: p in m ==> m[p] < |files| && files[m[p]].path == p
  {
    if files == [] then map[]
    else
      var n := |files| - 1;
      var m := PathIndexes(files[..n]);
      m[files[n].path := n]
  }

  /** Where the parser is before the first line of a patch. */
  function Opened(numstat: string): State {
    var files := NumstatFiles(Lines(numstat));
    Started(files, PathIndexes(files))
  }

  function Parsed(numstat: string, patch: string, complete: bool): View {
    var st := Steps(Opened(numstat), Lines(patch), complete);
    Finished(st.files, st.lines, complete)
  }

  // ----- the loop -----

  /** `parse`: one pass over the lines, everything it knows in local variables. */
  method Parse(numstat: string, patchText: string, completeContext: bool) returns (snapshot: Snapshot)
    ensures snapshot.Value() == Parsed(numstat, patchText, completeContext) && fresh(snapshot)
  {
    hide Finished, Step, Steps, Lines;
    var patch := Lines(patchText);
    var files := NumstatFiles(Lines(numstat));
    var pathIndexes: map<string, nat> := PathIndexes(files);
    ghost var start := Started(files, pathIndexes);
    var lines: seq<Line> := [];
    var currentFile: Option<nat> := None;
    var oldLine, newLine := 0, 0;
    var previousOldNext, previousNewNext := 1, 1;
    var nextGapId := 0;
    var positioned := true;
    NoSteps(start, completeContext);
    assert patch[..0] == [];
    for i := 0 to |patch|
      invariant State(files, pathIndexes, lines, currentFile, oldLine, newLine, previousOldNext, previousNewNext,
                      nextGapId, positioned) == Steps(start, patch[..i], completeContext)
    {
      ghost var before := Steps(start, patch[..i], completeContext);
      var raw := patch[i];
      var path := HeaderPath(raw);
      if path.Some? {
        if path.value !in pathIndexes {
          pathIndexes := pathIndexes[path.value := |files|];
          files := files + [File(path.value, 0, 0, Modified, None)];
        }
        currentFile := Some(pathIndexes[path.value]);
        oldLine, newLine, previousOldNext, previousNewNext, positioned := 0, 0, 1, 1, true;
        lines := lines + [Bare(pathIndexes[path.value], FileHeader)];
        OneHeader(before, raw, completeContext);
      } else if currentFile.Some? {
        files, lines, oldLine, newLine, previousOldNext, previousNewNext, nextGapId, positioned :=
          ParseInFile(files, lines, currentFile.value, oldLine, newLine, previousOldNext, previousNewNext,
                      nextGapId, positioned, raw, completeContext, pathIndexes);
        OneInFile(before, raw, completeContext);
      } else {
        OneBeforeFiles(before, raw, completeContext);
      }
      OneMore(start, patch, i, completeContext);
    }
    assert patch[..|patch|] == patch;
    snapshot := new Snapshot(files, lines, completeContext);
  }

  lemma NoSteps(st: State, complete: bool)
    ensures Steps(st, [], complete) == st
  {
  }

  lemma OneMore(st: State, patch: seq<string>, i: nat, complete: bool)
    requires i < |patch|
    ensures Steps(st, patch[..i + 1], complete) == Step(Steps(st, patch[..i], complete), patch[i], complete)
  {
    assert patch[..i + 1][..i] == patch[..i];
  }

  lemma OneHeader(st: State, raw: string, complete: bool)
    requires HeaderPath(raw).Some?
    ensures Step(st, raw, complete) == OnHeader(st, HeaderPath(raw).value)
  {
  }

  lemma OneInFile(st: State, raw: string, complete: bool)
    requires HeaderPath(raw).None? && st.current.Some?
    ensures Step(st, raw, complete) == InFile(st, st.current.value, raw, complete)
  {
  }

  lemma OneBeforeFiles(st: State, raw: string, complete: bool)
    requires HeaderPath(raw).None? && st.current.None?
    ensures Step(st, raw, complete) == st
  {
  }

  /** The part of the loop below the file headers. */
  method ParseInFile(
    files0: seq<File>, lines0: seq<Line>, fileIndex: nat, oldLine0: nat, newLine0: nat,
    previousOldNext0: nat, previousNewNext0: nat, nextGapId0: nat, positioned0: bool,
    raw: string, completeContext: bool, ghost indexes: map<string, nat>)
    returns (files: seq<File>, lines: seq<Line>, oldLine: nat, newLine: nat,
             previousOldNext: nat, previousNewNext: nat, nextGapId: nat, positioned: bool)
    ensures State(files, indexes, lines, Some(fileIndex), oldLine, newLine, previousOldNext, previousNewNext,
                  nextGapId, positioned)
         == InFile(State(files0, indexes, lines0, Some(fileIndex), oldLine0, newLine0, previousOldNext0,
                         previousNewNext0, nextGapId0, positioned0), fileIndex, raw, completeContext)
  {
    hide HunkStarts, Skipped;
    files, lines, oldLine, newLine := files0, lines0, oldLine0, newLine0;
    previousOldNext, previousNewNext, nextGapId, positioned :=
      previousOldNext0, previousNewNext0, nextGapId0, positioned0;
    if StartsWith(raw, "new file mode ") {
      if fileIndex < |files| { files := files[fileIndex := files[fileIndex].(status := Added)]; }
      return;
    }
    if StartsWith(raw, "deleted file mode ") {
      if fileIndex < |files| { files := files[fileIndex := files[fileIndex].(status := Deleted)]; }
      return;
    }
    if StartsWith(raw, "Binary files ") || raw == "GIT binary patch" {
      if fileIndex < |files| { files := files[fileIndex := files[fileIndex].(status := Binary)]; }
      lines := lines + [Bare(fileIndex, Meta).(content := "Binary file changed")];
      return;
    }
    if Skipped(raw) {
      return;
    }
    var starts := HunkStarts(raw);
    if StartsWith(raw, "@@") && starts.None? {
      positioned := false;
      if !(|lines| == 0 || lines[|lines| - 1].kind.FileHeader?) {
        lines := lines + [Bare(fileIndex, HunkHeader)];
      }
      return;
    }
    if starts.Some? {
      var (nextOld, nextNew) := starts.value;
      positioned := true;
      var oldGap, newGap := Less(nextOld, previousOldNext), Less(nextNew, previousNewNext);
      var gap := if oldGap > newGap then oldGap else newGap;
      if !completeContext && gap > 0 {
        var firstHunk := previousOldNext == 1 && previousNewNext == 1;
        lines := lines + [Bare(fileIndex, GapRow(Gap(nextGapId, gap, [], if firstHunk then Leading else Between)))];
        nextGapId := (nextGapId + 1) % U64_SIZE;
      } else if !completeContext && (previousOldNext != 1 || previousNewNext != 1) {
        lines := lines + [Bare(fileIndex, HunkHeader).(content := raw)];
      }
      oldLine, newLine := nextOld, nextNew;
      return;
    }
    if |raw| == 0 {
      return;
    }
    var content := raw[1..];
    if raw[0] == ' ' {
      lines := lines
        + [Line(fileIndex, NumberIf(positioned, oldLine), NumberIf(positioned, newLine), Context, content)];
      oldLine, newLine := Saturated(oldLine), Saturated(newLine);
    } else if raw[0] == '-' {
      lines := lines + [Line(fileIndex, NumberIf(positioned, oldLine), None, Deletion, content)];
      oldLine := Saturated(oldLine);
    } else if raw[0] == '+' {
      lines := lines + [Line(fileIndex, None, NumberIf(positioned, newLine), Addition, content)];
      newLine := Saturated(newLine);
    } else if raw[0] == '\\' {
      lines := lines + [Line(fileIndex, None, None, Meta, content)];
    } else {
      return;
    }
    previousOldNext, previousNewNext := oldLine, newLine;
  }

  // ----- what every patch leaves -----

  ghost predicate Tidy(st: State, complete: bool) {
    && FilesListed(st.lines, |st.files|)
    && (st.current.Some? ==> st.current.value < |st.files|)
    && (forall p :: p in st.indexes ==> st.indexes[p] < |st.files|)
    && (if complete then NoGaps(st.lines)
        else RowsOk(st.lines) && forall i :: 0 <= i < |GapIds(st.lines)| ==> GapIds(st.lines)[i] < st.nextGapId)
  }

  lemma PushedTidy(st: State, line: Line, complete: bool)
    requires Tidy(st, complete) && line.file < |st.files| && !line.kind.GapRow?
    ensures Tidy(Pushed(st, line), complete)
  {
    GapIdsConcat(st.lines, [line]);
    assert GapIds([line]) == [] by { assert [line][1..] == []; }
    assert GapIds(st.lines) + [] == GapIds(st.lines);
    hide GapIds;
  }

  lemma PushedGapTidy(st: State, line: Line)
    requires Tidy(st, false) && line.file < |st.files| && line.kind.GapRow? && line.kind.gap.hidden == []
    requires line.kind.gap.id == st.nextGapId && st.nextGapId + 1 < U64_SIZE
    ensures Tidy(Pushed(st, line).(nextGapId := NextId(st.nextGapId)), false)
  {
    GapIdsConcat(st.lines, [line]);
    OneGapId(line);
    hide GapIds;
  }

  lemma StepTidy(st: State, raw: string, complete: bool)
    requires Tidy(st, complete) && st.nextGapId + 1 < U64_SIZE
    ensures Tidy(Step(st, raw, complete), complete) && Step(st, raw, complete).nextGapId <= st.nextGapId + 1
  {
    hide HeaderPath, HunkStarts, StartsWith, Skipped, Tidy;
    if HeaderPath(raw).Some? {
      HeaderTidy(st, HeaderPath(raw).value, complete);
    } else if st.current.Some? {
      var f := st.current.value;
      TidyCurrent(st, complete);
      StatusTidy(st, f, complete);
      var s := WithStatus(st, f, Binary);
      PushedTidy(s, Bare(f, Meta).(content := "Binary file changed"), complete);
      HunkTidy(st, f, raw, complete);
      RowTidy(st, f, raw, complete);
    }
  }

  lemma TidyCurrent(st: State, complete: bool)
    requires Tidy(st, complete) && st.current.Some?
    ensures st.current.value < |st.files|
  {
  }

  lemma HeaderTidy(st: State, path: string, complete: bool)
    requires Tidy(st, complete)
    ensures Tidy(OnHeader(st, path), complete)
  {
    var s := WithFile(st, path);
    assert Tidy(s, complete);
    PushedTidy(s, Bare(s.indexes[path], FileHeader), complete);
  }

  lemma StatusTidy(st: State, f: nat, complete: bool)
    requires Tidy(st, complete) && f < |st.files|
    ensures forall status :: Tidy(WithStatus(st, f, status), complete)
  {
  }

  lemma HunkTidy(st: State, f: nat, raw: string, complete: bool)
    requires Tidy(st, complete) && f < |st.files| && st.nextGapId + 1 < U64_SIZE
    ensures Tidy(OnBareHunk(st, f), complete)
    ensures forall o, n :: Tidy(OnHunk(st, f, raw, o, n, complete), complete)
    ensures forall o, n :: OnHunk(st, f, raw, o, n, complete).nextGapId <= st.nextGapId + 1
  {
    hide RowsOk, FilesListed, NoGaps, GapIds;
    PushedTidy(st, Bare(f, HunkHeader), complete);
    PushedTidy(st, Bare(f, HunkHeader).(content := raw), complete);
    forall o, n ensures Tidy(OnHunk(st, f, raw, o, n, complete), complete)
      && OnHunk(st, f, raw, o, n, complete).nextGapId <= st.nextGapId + 1
    {
      var oldGap, newGap := Less(o, st.previousOldNext), Less(n, st.previousNewNext);
      var gap := if oldGap > newGap then oldGap else newGap;
      if !complete && gap > 0 {
        var first := st.previousOldNext == 1 && st.previousNewNext == 1;
        PushedGapTidy(st, Bare(f, GapRow(Gap(st.nextGapId, gap, [], if first then Leading else Between))));
      }
    }
  }

  lemma RowTidy(st: State, f: nat, raw: string, complete: bool)
    requires Tidy(st, complete) && f < |st.files|
    ensures Tidy(OnRow(st, f, raw), complete) && OnRow(st, f, raw).nextGapId == st.nextGapId
  {
    hide RowsOk, FilesListed, NoGaps, GapIds;
    if raw != [] {
      var o, n := NumberIf(st.positioned, st.oldLine), NumberIf(st.positioned, st.newLine);
      PushedTidy(st, Line(f, o, n, Context, raw[1..]), complete);
      PushedTidy(st, Line(f, o, None, Deletion, raw[1..]), complete);
      PushedTidy(st, Line(f, None, n, Addition, raw[1..]), complete);
      PushedTidy(st, Line(f, None, None, Meta, raw[1..]), complete);
    }
  }

  lemma {:induction false} StepsTidy(st: State, patch: seq<string>, complete: bool)
    requires Tidy(st, complete) && st.nextGapId + |patch| < U64_SIZE
    ensures Tidy(Steps(st, patch, complete), complete)
    ensures Steps(st, patch, complete).nextGapId <= st.nextGapId + |patch|
  {
    hide Tidy, Step;
    if patch != [] {
      StepsTidy(st, patch[..|patch| - 1], complete);
      StepTidy(Steps(st, patch[..|patch| - 1], complete), patch[|patch| - 1], complete);
    }
  }

  lemma InFileGrowsLinesByOne(st: State, f: nat, raw: string, complete: bool)
    ensures |InFile(st, f, raw, complete).lines| <= |st.lines| + 1
  {
    hide HunkStarts, StartsWith, Skipped, OnRow, OnHunk;
    RowGrowsByOne(st, f, raw);
    match HunkStarts(raw)
    case None =>
    case Some((o, n)) => HunkGrowsByOne(st, f, raw, o, n, complete);
  }

  lemma RowGrowsByOne(st: State, f: nat, raw: string)
    ensures |OnRow(st, f, raw).lines| <= |st.lines| + 1
  {
  }

  lemma HunkGrowsByOne(st: State, f: nat, raw: string, o: nat, n: nat, complete: bool)
    ensures |OnHunk(st, f, raw, o, n, complete).lines| <= |st.lines| + 1
  {
  }

  lemma {:induction false} StepsGrowLinesByOne(st: State, patch: seq<string>, complete: bool)
    ensures |Steps(st, patch, complete).lines| <= |st.lines| + |patch|
  {
    hide HeaderPath, InFile;
    if patch != [] {
      var raw := patch[|patch| - 1];
      StepsGrowLinesByOne(st, patch[..|patch| - 1], complete);
      var before := Steps(st, patch[..|patch| - 1], complete);
      if before.current.Some? { InFileGrowsLinesByOne(before, before.current.value, raw, complete); }
    }
  }

  /** Whatever the patch says, the snapshot satisfies the invariant: both indexes match
      the rows, gaps are sound and numbered apart, and the cap holds. */
  lemma ParsedIsOk(numstat: string, patch: string, complete: bool)
    requires |Lines(patch)| <= U32_MAX
    ensures SnapshotOk(Parsed(numstat, patch, complete))
    ensures |Parsed(numstat, patch, complete).lines| <= MAX_RENDERED_DIFF_LINES
  {
    hide Step, Collapsed, RowsOk, SnapshotOk, Lines;
    var st := Opened(numstat);
    assert RowsOk([]) by { EmptyRowsOk(); }
    assert Tidy(st, complete);
    StepsTidy(st, Lines(patch), complete);
    StepsGrowLinesByOne(st, Lines(patch), complete);
    var end := Steps(st, Lines(patch), complete);
    FinishedIsOk(end.files, end.lines, complete);
  }

  lemma EmptyRowsOk()
    ensures RowsOk([])
  {
  }
}
