/** One diff in full: its lines as git prints them, and what they are read as. */
module PatchSample {
  import opened Options
  import opened Text
  import opened DiffRows
  import opened DiffExpand
  import opened DiffCollapse
  import opened PatchParser
  import opened PatchHeaders
  import opened PatchHunks
  import opened PatchRoundTrip
  import opened PatchText
  import opened PatchNumstat

  function Edits(): seq<Edit> {
    [Keep("x"), Remove("y"), Insert("z"), NoNewline]
  }

  function ChangedFile(): FilePatch {
    FilePatch("a", Same, Some("1f..2e 100644"), Hunks("a/a", "b/a", [Hunk(9, " f()", Edits())]))
  }

  function NewFileOfBytes(): FilePatch {
    FilePatch("b", New("100644"), None, BinaryNote("/dev/null and b/b differ"))
  }

  /** Files without lines, one gone and one new. */
  function EmptyFiles(): seq<FilePatch> {
    [FilePatch("c", Gone("100644"), None, Nothing), FilePatch("d", New("100644"), None, Nothing)]
  }

  /** A line changed after nine that are left out, a new binary file, and the empty ones. */
  function Sample(): seq<FilePatch> {
    [ChangedFile(), NewFileOfBytes()] + EmptyFiles()
  }

  // ----- as printed -----

  function HunkText(): seq<string> {
    ["@@ -10,2 +10,2 @@ f()", " x", "-y", "+z", "\\ No newline at end of file"]
  }

  function SampleText(): seq<string> {
    ["diff --git a/a b/a", "index 1f..2e 100644", "--- a/a", "+++ b/a"] + HunkText()
    + ["diff --git a/b b/b", "new file mode 100644", "Binary files /dev/null and b/b differ"] + EmptyText()
  }

  function EmptyText(): seq<string> {
    ["diff --git a/c b/c", "deleted file mode 100644", "diff --git a/d b/d", "new file mode 100644"]
  }

  lemma TextsFirst(side: Side, e: Edit, rest: seq<Edit>)
    ensures Texts(side, [e] + rest) == (if On(side, e) then [e.text] else []) + Texts(side, rest)
  {
    assert ([e] + rest)[1..] == rest;
  }

  lemma TextsOn(side: Side)
    ensures Texts(side, Edits()) == ["x", if side.OldFile? then "y" else "z"]
  {
    hide Texts;
    var none: seq<Edit> := [];
    TextsFirst(side, NoNewline, none);
    TextsFirst(side, Insert("z"), [NoNewline] + none);
    TextsFirst(side, Remove("y"), [Insert("z")] + ([NoNewline] + none));
    TextsFirst(side, Keep("x"), [Remove("y")] + ([Insert("z")] + ([NoNewline] + none)));
    assert Edits() == [Keep("x")] + ([Remove("y")] + ([Insert("z")] + ([NoNewline] + none)));
    assert Texts(side, none) == [] by { NoTexts(side); }
  }

  lemma NoTexts(side: Side)
    ensures Texts(side, []) == []
  {
  }

  lemma TextsOfEdits()
    ensures Texts(OldFile, Edits()) == ["x", "y"] && Texts(NewFile, Edits()) == ["x", "z"]
  {
    hide Texts;
    TextsOn(OldFile);
    TextsOn(NewFile);
  }

  lemma NumbersAre()
    ensures Decimal(10) == "10" && Decimal(2) == "2" && Decimal(1) == "1" && Decimal(0) == "0"
  {
    assert Decimal(1) == "1" && Decimal(0) == "0";
  }

  lemma HunkLineIsPrinted()
    ensures HunkLine(TOP, Hunk(9, " f()", Edits())) == "@@ -10,2 +10,2 @@ f()"
  {
    hide Decimal, Texts;
    TextsOfEdits();
    NumbersAre();
    assert PrintedRange(10, 2) == "10,2";
    assert " @@" + " f()" == " @@ f()";
    assert ("-" + "10,2") + (" " + (("+" + "10,2") + " @@ f()")) == "-10,2 +10,2 @@ f()";
  }

  lemma EditsArePrinted()
    ensures Printed(Edits()) == [" x", "-y", "+z", "\\ No newline at end of file"]
  {
    var p := Printed(Edits());
    assert p[0] == " x" && p[1] == "-y" && p[2] == "+z" && p[3] == "\\ No newline at end of file";
  }

  lemma HunkIsPrinted()
    ensures PrintedHunks(TOP, [Hunk(9, " f()", Edits())]) == HunkText()
  {
    hide Decimal, HunkLine, Printed;
    HunkLineIsPrinted();
    EditsArePrinted();
    var h := Hunk(9, " f()", Edits());
    assert [h][1..] == [];
    assert PrintedHunks(EndOf(TOP, h), []) == [];
  }

  lemma HeaderIsPrinted(c: char)
    requires 'a' <= c <= 'd'
    ensures PrintedHeader([c]) == "diff --git " + ("a/" + ([c] + (" b/" + [c])))
  {
    assert !NeedsQuotes([c]);
    assert "a/" + [c] + (" b/" + [c]) == "a/" + ([c] + (" b/" + [c]));
  }

  lemma HeadersArePrinted()
    ensures PrintedHeader("a") == "diff --git a/a b/a" && PrintedHeader("b") == "diff --git a/b b/b"
  {
    hide PrintedHeader;
    HeaderIsPrinted('a');
    HeaderIsPrinted('b');
  }

  lemma EmptyHeadersArePrinted()
    ensures PrintedHeader("c") == "diff --git a/c b/c" && PrintedHeader("d") == "diff --git a/d b/d"
  {
    hide PrintedHeader;
    HeaderIsPrinted('c');
    HeaderIsPrinted('d');
  }

  lemma EmptyArePrinted()
    ensures PrintedPatch(EmptyFiles()) == EmptyText()
  {
    hide PrintedHeader;
    EmptyHeadersArePrinted();
    var e := EmptyFiles();
    assert e[1..] == [e[1]] && e[1..][1..] == [];
    assert "new file mode " + "100644" == "new file mode 100644";
    assert "deleted file mode " + "100644" == "deleted file mode 100644";
    assert PrintedPatch([e[1]]) == PrintedFile(e[1]);
  }

  lemma ChangeIsPrinted()
    ensures PrintedFile(ChangedFile())
         == ["diff --git a/a b/a", "index 1f..2e 100644", "--- a/a", "+++ b/a"] + HunkText()
  {
    hide PrintedHeader, PrintedHunks;
    HeadersArePrinted();
    HunkIsPrinted();
    assert "index " + "1f..2e 100644" == "index 1f..2e 100644";
    assert "--- " + "a/a" == "--- a/a" && "+++ " + "b/a" == "+++ b/a";
  }

  lemma BinaryIsPrinted()
    ensures PrintedFile(NewFileOfBytes())
         == ["diff --git a/b b/b", "new file mode 100644", "Binary files /dev/null and b/b differ"]
  {
    hide PrintedHeader, PrintedHunks;
    HeadersArePrinted();
    assert "new file mode " + "100644" == "new file mode 100644";
    assert "Binary files " + "/dev/null and b/b differ" == "Binary files /dev/null and b/b differ";
  }

  lemma SampleIsPrinted()
    ensures PrintedPatch(Sample()) == SampleText()
  {
    hide PrintedFile, HunkText, EmptyText, EmptyFiles;
    ChangeIsPrinted();
    BinaryIsPrinted();
    EmptyArePrinted();
    SampleParts();
    assert PrintedPatch([NewFileOfBytes()] + EmptyFiles()) == PrintedFile(NewFileOfBytes()) + EmptyText();
  }

  lemma SampleParts()
    ensures Sample()[0] == ChangedFile() && Sample()[1..] == [NewFileOfBytes()] + EmptyFiles()
    ensures Sample()[1..][0] == NewFileOfBytes() && Sample()[1..][1..] == EmptyFiles()
  {
  }

  function SampleNumstat(): seq<string> {
    ["1\t1\ta", "-\t-\tb", "0\t0\tc", "0\t0\td"]
  }

  lemma CountsOfSample()
    ensures PatchNumstat.Changed(ChangedFile(), true) == 1 && PatchNumstat.Changed(ChangedFile(), false) == 1
    ensures PatchNumstat.Changed(NewFileOfBytes(), true) == 0 && PatchNumstat.Changed(NewFileOfBytes(), false) == 0
  {
    var e := Edits();
    assert e[1..][1..] == e[2..] && e[2..][1..] == e[3..] && e[3..][1..] == [];
    assert CountIn(e[3..], true) == 0 && CountIn(e[3..], false) == 0;
    assert CountIn(e[2..], true) == 1 && CountIn(e[2..], false) == 0;
    assert CountIn(e[1..], true) == 1 && CountIn(e[1..], false) == 1;
    var hunks := [Hunk(9, " f()", e)];
    assert hunks[1..] == [] && Count(hunks[1..], true) == 0 && Count(hunks[1..], false) == 0;
  }

  lemma NumstatIsPrinted()
    ensures NumstatLines(Sample()) == SampleNumstat()
  {
    hide PatchNumstat.Changed, Decimal, Name;
    CountsOfSample();
    NumbersAre();
    PlainName('a');
    PlainName('b');
    PlainName('c');
    PlainName('d');
    EmptyCounts();
    assert NumstatLine(ChangedFile()) == "1\t1\ta" && NumstatLine(NewFileOfBytes()) == "-\t-\tb";
    assert NumstatLine(EmptyFiles()[0]) == "0\t0\tc" && NumstatLine(EmptyFiles()[1]) == "0\t0\td";
  }

  lemma EmptyCounts()
    ensures forall i, inserted :: 0 <= i < 2 ==> PatchNumstat.Changed(EmptyFiles()[i], inserted) == 0
  {
  }

  lemma PlainName(c: char)
    requires 'a' <= c <= 'd'
    ensures Name([c]) == [c]
  {
    assert !NeedsQuotes([c]);
  }

  // ----- as read -----

  function SampleFiles(): seq<File> {
    [File("a", 1, 1, Modified, None), File("b", 0, 0, Binary, None), File("c", 0, 0, Deleted, None),
     File("d", 0, 0, Added, None)]
  }

  function SampleRows(): seq<Line> {
    [Bare(0, FileHeader), Bare(0, GapRow(Gap(0, 9, [], Leading))),
     Line(0, Some(10), Some(10), Context, "x"), Line(0, Some(11), None, Deletion, "y"),
     Line(0, None, Some(11), Addition, "z"), Line(0, None, None, Meta, " No newline at end of file"),
     Bare(1, FileHeader), Line(1, None, None, Meta, "Binary file changed"), Bare(2, FileHeader), Bare(3, FileHeader)]
  }

  lemma SampleIsPlain()
    ensures AllPlain(Sample()) && Distinct(Sample())
  {
    PlainPaths();
  }

  lemma PlainPaths()
    ensures PlainPath("a") && PlainPath("b") && PlainPath("c") && PlainPath("d")
  {
    OneLetter('a');
    OneLetter('b');
    OneLetter('c');
    OneLetter('d');
  }

  lemma OneLetter(c: char)
    requires 'a' <= c <= 'd'
    ensures PlainPath([c])
  {
    assert [c][1..] == "" && RFind("", " b/").None?;
    assert RFind([c], " b/").None?;
  }

  lemma SampleIsPrintable()
    ensures AllPrintable(Sample())
  {
    hide Printable, ChangedFile, NewFileOfBytes;
    ChangeIsPrintable();
    BinaryIsPrintable();
    EmptyArePrintable();
  }

  lemma EmptyArePrintable()
    ensures AllPrintable(EmptyFiles())
  {
  }

  lemma ChangeIsPrintable()
    ensures Printable(ChangedFile())
  {
    hide HunksFit, Texts;
    SampleFits();
    assert OneLineEdits(Edits()) by { OneLiners(); }
  }

  lemma OneLiners()
    ensures OneLineEdits(Edits())
  {
  }

  lemma BinaryIsPrintable()
    ensures Printable(NewFileOfBytes())
  {
    hide HunksFit, Texts;
  }

  lemma SampleFits()
    ensures HunksFit(TOP, [Hunk(9, " f()", Edits())])
  {
    hide Texts;
    assert [Hunk(9, " f()", Edits())][1..] == [];
  }

  lemma SampleIsUncut()
    ensures Cut(Sample()) == Sample()
  {
    var e := Edits();
    assert CutEdits(e) == e;
    assert CutHunks([Hunk(9, " f()", e)]) == [Hunk(9, " f()", e)];
    assert CutFile(ChangedFile()) == ChangedFile();
    assert CutFile(NewFileOfBytes()) == NewFileOfBytes();
    assert CutFile(EmptyFiles()[0]) == EmptyFiles()[0] && CutFile(EmptyFiles()[1]) == EmptyFiles()[1];
  }

  lemma RowsOfEdits()
    ensures Rows(0, 10, 10, Edits()) ==
      [Line(0, Some(10), Some(10), Context, "x"), Line(0, Some(11), None, Deletion, "y"),
       Line(0, None, Some(11), Addition, "z"), Line(0, None, None, Meta, " No newline at end of file")]
  {
    hide Rows;
    var e := Edits();
    assert e[1..][1..] == e[2..] && e[2..][1..] == e[3..] && e[3..][1..] == [];
    assert !Lost(e[0]) && !Lost(e[1]) && !Lost(e[2]) && !Lost(e[3]);
    RowsFirst(0, 10, 10, e);
    RowsFirst(0, 11, 11, e[1..]);
    RowsFirst(0, 12, 11, e[2..]);
    RowsFirst(0, 12, 12, e[3..]);
    NoRows(0, 12, 12);
  }

  lemma ChangedRows()
    ensures FileRows(0, 0, ChangedFile(), false) == Output(SampleRows()[..6], 1)
  {
    hide Rows, Texts, HunkLine;
    TextsOfEdits();
    RowsOfEdits();
    var hunks := [Hunk(9, " f()", Edits())];
    assert hunks[1..] == [];
    var gap := Bare(0, GapRow(Gap(0, 9, [], Leading)));
    assert Separator(0, 0, TOP, Place(10, 10), HunkLine(TOP, hunks[0]), false) == Output([gap], 1);
    assert Rows(0, 10, 10, Edits()) + [] == Rows(0, 10, 10, Edits());
    assert HunkRows(0, 0, TOP, TOP, hunks, false) == Output([gap] + Rows(0, 10, 10, Edits()), 1);
  }

  lemma RowsOfSample()
    ensures ExpectedRows(0, 0, Sample(), false).rows == SampleRows()
  {
    hide FileRows, EmptyFiles;
    ChangedRows();
    BinaryRows();
    EmptyRows();
    SampleParts();
    assert ExpectedRows(1, 1, Sample()[1..], false).rows == SampleRows()[6..8] + SampleRows()[8..];
    assert SampleRows() == SampleRows()[..6] + (SampleRows()[6..8] + SampleRows()[8..]);
  }

  lemma BinaryRows()
    ensures FileRows(1, 1, NewFileOfBytes(), false) == Output(SampleRows()[6..8], 1)
  {
  }

  lemma EmptyRows()
    ensures ExpectedRows(2, 1, EmptyFiles(), false).rows == SampleRows()[8..]
  {
    var e := EmptyFiles();
    assert e[1..] == [e[1]] && e[1..][1..] == [];
    assert ExpectedRows(3, 1, [e[1]], false).rows == [Bare(3, FileHeader)] + [];
  }

  lemma FilesOfSample()
    ensures ExpectedFiles(Sample()) == SampleFiles()
  {
    hide PatchNumstat.Changed;
    CountsOfSample();
    EmptyCounts();
  }

  /** The text of the diff and its numstat, and the files and rows that they are read as. */
  lemma SampleIsRead()
    ensures var st := ParsedState(Joined(SampleNumstat()), Joined(SampleText()), false);
      st.files == SampleFiles() && st.lines == SampleRows()
  {
    hide ParsedState, Sample, SampleText, SampleNumstat, SampleRows, SampleFiles, Joined, PrintedPatch, NumstatLines,
      ExpectedRows, ExpectedFiles, AllPrintable, AllPlain, Distinct, Cut;
    SampleIsPrinted();
    NumstatIsPrinted();
    SampleIsPlain();
    SampleIsPrintable();
    SampleIsUncut();
    OneListIff(Sample(), false);
    RowsOfSample();
    FilesOfSample();
  }
}
