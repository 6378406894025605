/** Line numbers of any patch text, well printed or not: they stay 32-bit numbers, and count on
    to the largest of them and no further. */
module PatchNumbers {
  import opened Basics
  import opened Options
  import opened Text
  import opened DiffRows
  import opened DiffExpand
  import opened PatchParser

  predicate SmallNumber(n: Option<nat>) {
    n.Some? ==> n.value <= U32_MAX
  }

  predicate SmallLine(line: Line) {
    SmallNumber(line.oldLine) && SmallNumber(line.newLine) && (line.kind.GapRow? ==> line.kind.gap.count <= U32_MAX)
  }

  /** The parser's counters, and the numbers of its rows. */
  predicate InRange(st: State) {
    && st.oldLine <= U32_MAX && st.newLine <= U32_MAX && st.previousOldNext <= U32_MAX && st.previousNewNext <= U32_MAX
    && forall i :: 0 <= i < |st.lines| ==> SmallLine(st.lines[i])
  }

  lemma RangeStartIsSmall(range: string)
    ensures RangeStart(range).Some? ==> RangeStart(range).value <= U32_MAX
  {
    hide Find, Number;
  }

  lemma StartsAreSmall(raw: string)
    ensures HunkStarts(raw).Some? ==> HunkStarts(raw).value.0 <= U32_MAX && HunkStarts(raw).value.1 <= U32_MAX
  {
    hide RangeStart, NextWord, SplitOnce;
    forall range: string ensures RangeStart(range).Some? ==> RangeStart(range).value <= U32_MAX {
      RangeStartIsSmall(range);
    }
  }

  lemma HunkInRange(st: State, f: nat, raw: string, o: nat, n: nat, complete: bool)
    requires InRange(st) && o <= U32_MAX && n <= U32_MAX
    ensures InRange(OnHunk(st, f, raw, o, n, complete))
  {
  }

  /** A row moves the counters of its sides on by one, up to the largest number. */
  lemma RowCounts(st: State, f: nat, raw: string)
    requires InRange(st)
    ensures var r := OnRow(st, f, raw);
      && InRange(r)
      && r.oldLine == (if raw != [] && raw[0] in " -" && st.oldLine < U32_MAX then st.oldLine + 1 else st.oldLine)
      && r.newLine == (if raw != [] && raw[0] in " +" && st.newLine < U32_MAX then st.newLine + 1 else st.newLine)
  {
  }

  lemma OtherLinesInRange(st: State, f: nat, path: string, status: FileStatus)
    requires InRange(st)
    ensures InRange(OnHeader(st, path)) && InRange(OnBareHunk(st, f)) && InRange(WithStatus(st, f, status))
    ensures InRange(Pushed(WithStatus(st, f, status), Bare(f, Meta).(content := "Binary file changed")))
  {
  }

  lemma InFileInRange(st: State, f: nat, raw: string, complete: bool)
    requires InRange(st)
    ensures InRange(InFile(st, f, raw, complete))
  {
    hide HunkStarts, StartsWith, Skipped, OnHunk, OnRow, OnBareHunk, WithStatus, Pushed, InRange;
    StartsAreSmall(raw);
    RowCounts(st, f, raw);
    OtherLinesInRange(st, f, "", Added);
    OtherLinesInRange(st, f, "", Deleted);
    OtherLinesInRange(st, f, "", Binary);
    if HunkStarts(raw).Some? {
      HunkInRange(st, f, raw, HunkStarts(raw).value.0, HunkStarts(raw).value.1, complete);
    }
  }

  lemma StepInRange(st: State, raw: string, complete: bool)
    requires InRange(st)
    ensures InRange(Step(st, raw, complete))
  {
    hide HeaderPath, InFile, OnHeader, InRange;
    if HeaderPath(raw).Some? {
      OtherLinesInRange(st, 0, HeaderPath(raw).value, Added);
    } else if st.current.Some? {
      InFileInRange(st, st.current.value, raw, complete);
    }
  }

  lemma {:induction false} StepsInRange(st: State, patch: seq<string>, complete: bool)
    requires InRange(st)
    ensures InRange(Steps(st, patch, complete))
  {
    hide Step, InRange;
    if patch != [] {
      StepsInRange(st, patch[..|patch| - 1], complete);
      StepInRange(Steps(st, patch[..|patch| - 1], complete), patch[|patch| - 1], complete);
    }
  }

  /** Whatever the text: no row has a larger number, and no gap counts more lines. */
  lemma NumbersStayInRange(numstat: string, patch: string, complete: bool)
    ensures InRange(Steps(Opened(numstat), Lines(patch), complete))
  {
    hide Steps, Lines, NumstatFiles, PathIndexes;
    StepsInRange(Opened(numstat), Lines(patch), complete);
  }
}
