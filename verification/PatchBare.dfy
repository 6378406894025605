/** Hunks without positions, as the diffs made from a tool's before and after texts have them:
    their rows are shown without numbers. And binary files without hunks. */
module PatchBare {
  import opened Basics
  import opened Options
  import opened Text
  import opened DiffRows
  import opened DiffExpand
  import opened PatchParser
  import opened PatchHunks

  /** A row of such a hunk. */
  function UnnumberedRow(f: nat, e: Edit): Line {
    match e
    case Keep(t) => Line(f, None, None, Context, t)
    case Remove(t) => Line(f, None, None, Deletion, t)
    case Insert(t) => Line(f, None, None, Addition, t)
    case NoNewline => Line(f, None, None, Meta, " No newline at end of file")
  }

  function UnnumberedRows(f: nat, edits: seq<Edit>): seq<Line> {
    if edits == [] then []
    else (if Lost(edits[0]) then [] else [UnnumberedRow(f, edits[0])]) + UnnumberedRows(f, edits[1..])
  }

  /** What each hunk shows: its rows, below an empty header unless it comes right after the
      header of the file. */
  function BareRows(f: nat, atTop: bool, hunks: seq<seq<Edit>>): seq<Line>
    decreases |hunks|
  {
    if hunks == [] then []
    else
      var rows := (if atTop then [] else [Bare(f, HunkHeader)]) + UnnumberedRows(f, hunks[0]);
      rows + BareRows(f, atTop && rows == [], hunks[1..])
  }

  function PrintedBare(hunks: seq<seq<Edit>>): seq<string>
    decreases |hunks|
  {
    if hunks == [] then [] else ["@@"] + (Printed(hunks[0]) + PrintedBare(hunks[1..]))
  }

  predicate AtTop(lines: seq<Line>) {
    lines == [] || lines[|lines| - 1].kind.FileHeader?
  }

  lemma BareLine(st: State, f: nat, complete: bool)
    requires st.current == Some(f)
    ensures Step(st, "@@", complete) == OnBareHunk(st, f)
  {
    hide HeaderPath, OnBareHunk, StartsWith;
    NotAHeader("@@");
    OtherFirst("@@", "new file mode ");
    OtherFirst("@@", "deleted file mode ");
    OtherFirst("@@", "Binary files ");
    OtherFirst("@@", "index ");
    OtherFirst("@@", "--- ");
    OtherFirst("@@", "+++ ");
    OtherFirst("@@", "old mode ");
    OtherFirst("@@", "new mode ");
    NoPosition();
  }

  lemma NoPosition()
    ensures HunkStarts("@@").None? && StartsWith("@@", "@@")
  {
    var raw, p := "@@", "@@ ";
    assert |raw| < |p|;
    assert !(p <= raw);
  }

  lemma UnnumberedOf(st: State, f: nat, e: Edit)
    requires st.current == Some(f) && !st.positioned
    ensures var r := OnRow(st, f, Marked(e));
      r.current == Some(f) && !r.positioned && r.lines == st.lines + [UnnumberedRow(f, e)] && SameFiles(st, r)
  {
    if !e.NoNewline? { assert Marked(e)[1..] == e.text; }
  }

  lemma {:induction false} UnnumberedParse(st: State, f: nat, edits: seq<Edit>, complete: bool)
    requires st.current == Some(f) && !st.positioned
    ensures var r := Steps(st, Printed(edits), complete);
      && r.current == Some(f) && !r.positioned && r.lines == st.lines + UnnumberedRows(f, edits) && SameFiles(st, r)
    decreases |edits|
  {
    hide Step, Steps, Marked, Printed, OnRow, Lost, UnnumberedRow;
    if edits == [] {
      NoSteps(st, complete);
      assert Printed([]) == [];
    } else {
      var e, rest := edits[0], edits[1..];
      PrintedFirst(edits);
      OneStep(st, Marked(e), Printed(rest), complete);
      MarkedLine(st, f, e, complete);
      if Lost(e) {
        UnnumberedParse(st, f, rest, complete);
        assert UnnumberedRows(f, edits) == UnnumberedRows(f, rest);
      } else {
        UnnumberedOf(st, f, e);
        UnnumberedParse(OnRow(st, f, Marked(e)), f, rest, complete);
        Regrouped(st.lines, [UnnumberedRow(f, e)], UnnumberedRows(f, rest));
      }
    }
  }

  /** Any number of them in a file: the rows have no numbers, and no lines count as left out,
      complete context or not. */
  lemma {:induction false} BareHunksParse(st: State, f: nat, hunks: seq<seq<Edit>>, complete: bool)
    requires st.current == Some(f)
    ensures var r := Steps(st, PrintedBare(hunks), complete);
      r.lines == st.lines + BareRows(f, AtTop(st.lines), hunks) && r.current == Some(f) && SameFiles(st, r)
    decreases |hunks|
  {
    hide Step, Steps, Printed, UnnumberedRows;
    if hunks == [] {
      NoSteps(st, complete);
    } else {
      var first, rest := Printed(hunks[0]), PrintedBare(hunks[1..]);
      OneStep(st, "@@", first + rest, complete);
      BareLine(st, f, complete);
      var s := OnBareHunk(st, f);
      UnnumberedParse(s, f, hunks[0], complete);
      StepsConcat(s, first, rest, complete);
      var t := Steps(s, first, complete);
      BareHunksParse(t, f, hunks[1..], complete);
      var rows := (if AtTop(st.lines) then [] else [Bare(f, HunkHeader)]) + UnnumberedRows(f, hunks[0]);
      assert t.lines == st.lines + rows;
      BelowTheTop(st.lines, f, hunks[0]);
      Regrouped(st.lines, rows, BareRows(f, AtTop(t.lines), hunks[1..]));
    }
  }

  /** The rows of a hunk are no header of a file. */
  lemma BelowTheTop(lines: seq<Line>, f: nat, edits: seq<Edit>)
    ensures var rows := (if AtTop(lines) then [] else [Bare(f, HunkHeader)]) + UnnumberedRows(f, edits);
      AtTop(lines + rows) <==> AtTop(lines) && rows == []
  {
    hide UnnumberedRow;
    NoHeaders(f, edits);
    var rows := (if AtTop(lines) then [] else [Bare(f, HunkHeader)]) + UnnumberedRows(f, edits);
    if rows == [] {
      assert lines + rows == lines;
    } else {
      assert (lines + rows)[|lines + rows| - 1] == rows[|rows| - 1];
    }
  }

  lemma {:induction false} NoHeaders(f: nat, edits: seq<Edit>)
    ensures forall i :: 0 <= i < |UnnumberedRows(f, edits)| ==> !UnnumberedRows(f, edits)[i].kind.FileHeader?
  {
    if edits != [] { NoHeaders(f, edits[1..]); }
  }

  /** Git's other note about a binary file is read like the first. */
  lemma BinaryPatchIsBinary(st: State, f: nat, names: string, complete: bool)
    requires st.current == Some(f) && f < |st.files|
    ensures var r := Step(st, "GIT binary patch", complete);
      && r == Step(st, "Binary files " + names, complete)
      && r.files == st.files[f := st.files[f].(status := Binary)]
      && r.lines == st.lines + [Line(f, None, None, Meta, "Binary file changed")]
  {
    hide HeaderPath, HunkStarts, Skipped;
    NotAHeader("GIT binary patch");
    NotAHeader("Binary files " + names);
    OtherFirst("GIT binary patch", "new file mode ");
    OtherFirst("GIT binary patch", "deleted file mode ");
    OtherFirst("Binary files " + names, "new file mode ");
    OtherFirst("Binary files " + names, "deleted file mode ");
  }
}
