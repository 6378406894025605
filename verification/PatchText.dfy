/** A printed patch as one text, split into lines again and shown. */
module PatchText {
  import opened Basics
  import opened Options
  import opened Text
  import opened DiffRows
  import opened DiffExpand
  import opened DiffCollapse
  import opened DiffSnapshot
  import opened PatchParser
  import opened PatchHeaders
  import opened PatchHunks
  import opened PatchRoundTrip

  // ----- without carriage returns -----

  /** The lines of a patch and of an edit script without the carriage returns at their ends. */
  function CutEdit(e: Edit): Edit {
    if e.NoNewline? then e else e.(text := WithoutCr(e.text))
  }

  function CutEdits(edits: seq<Edit>): (r: seq<Edit>)
    ensures |r| == |edits| && forall i :: 0 <= i < |r| ==> r[i] == CutEdit(edits[i])
  {
    seq(|edits|, i requires 0 <= i < |edits| => CutEdit(edits[i]))
  }

  function CutHunk(h: Hunk): Hunk {
    Hunk(h.skip, WithoutCr(h.section), CutEdits(h.edits))
  }

  function CutHunks(hunks: seq<Hunk>): (r: seq<Hunk>)
    ensures |r| == |hunks| && forall i :: 0 <= i < |r| ==> r[i] == CutHunk(hunks[i])
  {
    seq(|hunks|, i requires 0 <= i < |hunks| => CutHunk(hunks[i]))
  }

  function CutMode(mode: Mode): Mode {
    match mode
    case Same => Same
    case New(m) => New(WithoutCr(m))
    case Gone(m) => Gone(WithoutCr(m))
    case Changed(was, m) => Changed(WithoutCr(was), WithoutCr(m))
  }

  function CutBody(body: Body): Body {
    match body
    case Nothing => Nothing
    case Hunks(a, b, hunks) => Hunks(WithoutCr(a), WithoutCr(b), CutHunks(hunks))
    case BinaryNote(names) => BinaryNote(WithoutCr(names))
  }

  function CutIndex(index: Option<string>): Option<string> {
    match index
    case None => None
    case Some(i) => Some(WithoutCr(i))
  }

  function CutFile(p: FilePatch): FilePatch {
    FilePatch(p.path, CutMode(p.mode), CutIndex(p.index), CutBody(p.body))
  }

  function Cut(patch: seq<FilePatch>): (r: seq<FilePatch>)
    ensures |r| == |patch| && forall i :: 0 <= i < |r| ==> r[i] == CutFile(patch[i])
  {
    seq(|patch|, i requires 0 <= i < |patch| => CutFile(patch[i]))
  }

  // ----- texts of one line -----

  predicate OneLine(s: string) {
    '\n' !in s
  }

  predicate OneLineEdits(edits: seq<Edit>) {
    forall i :: 0 <= i < |edits| ==> edits[i].NoNewline? || OneLine(edits[i].text)
  }

  predicate OneLineHunks(hunks: seq<Hunk>) {
    forall i :: 0 <= i < |hunks| ==> OneLine(hunks[i].section) && OneLineEdits(hunks[i].edits)
  }

  predicate OneLineMode(mode: Mode) {
    match mode
    case Same => true
    case New(m) => OneLine(m)
    case Gone(m) => OneLine(m)
    case Changed(was, m) => OneLine(was) && OneLine(m)
  }

  predicate OneLineBody(body: Body) {
    match body
    case Nothing => true
    case Hunks(a, b, hunks) => OneLine(a) && OneLine(b) && OneLineHunks(hunks)
    case BinaryNote(names) => OneLine(names)
  }

  /** What goes into lines has no line feed; a path may have one, since git quotes it. */
  predicate Printable(p: FilePatch) {
    OneLineMode(p.mode) && (p.index.Some? ==> OneLine(p.index.value)) && OneLineBody(p.body) && BodyFits(p.body)
  }

  predicate AllPrintable(patch: seq<FilePatch>) {
    forall i :: 0 <= i < |patch| ==> Printable(patch[i])
  }

  // ----- splitting into lines -----

  /** Printed as a text and split again, the first lines become the second ones. */
  ghost predicate SplitsTo(lines: seq<string>, cut: seq<string>) {
    NoBreaks(lines) && AllWithoutCr(lines) == cut
  }

  lemma SplitsConcat(a: seq<string>, x: seq<string>, b: seq<string>, y: seq<string>)
    requires SplitsTo(a, x) && SplitsTo(b, y)
    ensures SplitsTo(a + b, x + y)
  {
    AllWithoutCrConcat(a, b);
  }

  lemma SplitsNothing()
    ensures SplitsTo([], [])
  {
  }

  /** A line of a plain start and any text. */
  lemma SplitsLine(p: string, t: string)
    requires OneLine(p) && OneLine(t) && p != [] && p[|p| - 1] != '\r'
    ensures SplitsTo([p + t], [p + WithoutCr(t)])
  {
    WithoutCrAfter(p, t);
  }

  lemma SplitsEdit(e: Edit)
    requires e.NoNewline? || OneLine(e.text)
    ensures SplitsTo([Marked(e)], [Marked(CutEdit(e))])
  {
    hide WithoutCr;
    match e
    case Keep(t) => SplitsLine(" ", t);
    case Remove(t) => SplitsLine("-", t);
    case Insert(t) => SplitsLine("+", t);
    case NoNewline => NoteIsALine();
  }

  lemma NoteIsALine()
    ensures SplitsTo([Marked(NoNewline)], [Marked(NoNewline)])
  {
  }

  lemma {:induction false} SplitsEdits(edits: seq<Edit>)
    requires OneLineEdits(edits)
    ensures SplitsTo(Printed(edits), Printed(CutEdits(edits)))
  {
    hide SplitsTo, Marked, CutEdit, Printed, OneLine;
    if edits == [] {
      NothingPrinted();
      SplitsNothing();
    } else {
      PrintedFirst(edits);
      PrintedFirst(CutEdits(edits));
      assert CutEdits(edits)[1..] == CutEdits(edits[1..]);
      SplitsEdit(edits[0]);
      SplitsEdits(edits[1..]);
      SplitsConcat([Marked(edits[0])], [Marked(CutEdit(edits[0]))], Printed(edits[1..]), Printed(CutEdits(edits[1..])));
    }
  }

  lemma NothingPrinted()
    ensures Printed([]) == [] && CutEdits([]) == []
  {
  }

  lemma {:induction false} CutTextsLength(side: Side, edits: seq<Edit>)
    ensures |Texts(side, CutEdits(edits))| == |Texts(side, edits)|
  {
    hide WithoutCr;
    if edits != [] {
      assert CutEdits(edits)[1..] == CutEdits(edits[1..]);
      CutTextsLength(side, edits[1..]);
    }
  }

  lemma CutHunkPlaces(at: Place, h: Hunk)
    ensures StartOf(at, CutHunk(h)) == StartOf(at, h) && EndOf(at, CutHunk(h)) == EndOf(at, h)
  {
    hide Texts;
    CutTextsLength(OldFile, h.edits);
    CutTextsLength(NewFile, h.edits);
  }

  lemma RangeIsALine(start: nat, count: nat)
    ensures OneLine(PrintedRange(start, count))
  {
    hide PrintedRange;
    RangeHasNoSpace(start, count);
  }

  lemma SplitsHunkLine(at: Place, h: Hunk)
    requires OneLine(h.section)
    ensures SplitsTo([HunkLine(at, h)], [HunkLine(at, CutHunk(h))])
  {
    hide SplitsTo, PrintedRange, Texts, StartOf;
    CutTextsLength(OldFile, h.edits);
    CutTextsLength(NewFile, h.edits);
    CutHunkPlaces(at, h);
    var start := StartOf(at, h);
    var r, q := PrintedRange(start.o, |Texts(OldFile, h.edits)|), PrintedRange(start.n, |Texts(NewFile, h.edits)|);
    RangeIsALine(start.o, |Texts(OldFile, h.edits)|);
    RangeIsALine(start.n, |Texts(NewFile, h.edits)|);
    var p := "@@ -" + r + " +" + q + " @@";
    HunkLineIs(r, q, h.section);
    HunkLineIs(r, q, WithoutCr(h.section));
    HunkStartIsALine(r, q);
    SplitsLine(p, h.section);
  }

  lemma HunkLineIs(r: string, q: string, section: string)
    ensures "@@ " + (("-" + r) + (" " + (("+" + q) + (" @@" + section)))) == ("@@ -" + r + " +" + q + " @@") + section
  {
  }

  lemma HunkStartIsALine(r: string, q: string)
    requires OneLine(r) && OneLine(q)
    ensures var p := "@@ -" + r + " +" + q + " @@"; OneLine(p) && p[|p| - 1] != '\r'
  {
  }

  lemma {:induction false} SplitsHunks(at: Place, hunks: seq<Hunk>)
    requires OneLineHunks(hunks)
    ensures SplitsTo(PrintedHunks(at, hunks), PrintedHunks(at, CutHunks(hunks)))
    decreases |hunks|
  {
    hide SplitsTo, HunkLine, Printed, OneLine, OneLineEdits, EndOf, CutEdits;
    if hunks == [] {
      SplitsNothing();
    } else {
      var h, more := hunks[0], hunks[1..];
      assert CutHunks(hunks)[0] == CutHunk(h) && CutHunks(hunks)[1..] == CutHunks(more);
      CutHunkPlaces(at, h);
      SplitsHunkLine(at, h);
      SplitsEdits(h.edits);
      SplitsHunks(EndOf(at, h), more);
      var end := EndOf(at, h);
      SplitsConcat(Printed(h.edits), Printed(CutEdits(h.edits)),
                   PrintedHunks(end, more), PrintedHunks(end, CutHunks(more)));
      SplitsConcat([HunkLine(at, h)], [HunkLine(at, CutHunk(h))],
                   Printed(h.edits) + PrintedHunks(end, more),
                   Printed(CutEdits(h.edits)) + PrintedHunks(end, CutHunks(more)));
    }
  }

  lemma Plain(p: string)
    requires p != [] && forall i :: 0 <= i < |p| ==> ' ' <= p[i]
    ensures OneLine(p) && p[|p| - 1] != '\r'
  {
  }

  lemma SplitsMode(mode: Mode)
    requires OneLineMode(mode)
    ensures SplitsTo(PrintedMode(mode), PrintedMode(CutMode(mode)))
  {
    hide SplitsTo, OneLine, WithoutCr;
    match mode
    case Same => SplitsNothing();
    case New(m) => Plain("new file mode "); SplitsLine("new file mode ", m);
    case Gone(m) => Plain("deleted file mode "); SplitsLine("deleted file mode ", m);
    case Changed(was, m) =>
      Plain("old mode ");
      Plain("new mode ");
      SplitsLine("old mode ", was);
      SplitsLine("new mode ", m);
      SplitsConcat(["old mode " + was], ["old mode " + WithoutCr(was)],
                   ["new mode " + m], ["new mode " + WithoutCr(m)]);
      assert ["old mode " + was] + ["new mode " + m] == PrintedMode(mode);
      assert ["old mode " + WithoutCr(was)] + ["new mode " + WithoutCr(m)] == PrintedMode(CutMode(mode));
  }

  lemma SplitsBody(body: Body)
    requires OneLineBody(body)
    ensures SplitsTo(PrintedBody(body), PrintedBody(CutBody(body)))
  {
    hide SplitsTo, OneLine, WithoutCr, PrintedHunks, OneLineHunks;
    match body
    case Nothing => SplitsNothing();
    case BinaryNote(names) => Plain("Binary files "); SplitsLine("Binary files ", names);
    case Hunks(a, b, hunks) =>
      Plain("--- ");
      Plain("+++ ");
      SplitsLine("--- ", a);
      SplitsLine("+++ ", b);
      SplitsHunks(TOP, hunks);
      SplitsConcat(["--- " + a], ["--- " + WithoutCr(a)], ["+++ " + b], ["+++ " + WithoutCr(b)]);
      SplitsConcat(["--- " + a] + ["+++ " + b], ["--- " + WithoutCr(a)] + ["+++ " + WithoutCr(b)],
                   PrintedHunks(TOP, hunks), PrintedHunks(TOP, CutHunks(hunks)));
      assert ["--- " + a] + ["+++ " + b] == ["--- " + a, "+++ " + b];
      assert ["--- " + WithoutCr(a)] + ["+++ " + WithoutCr(b)] == ["--- " + WithoutCr(a), "+++ " + WithoutCr(b)];
  }

  lemma SplitsHeader(path: string)
    ensures SplitsTo([PrintedHeader(path)], [PrintedHeader(path)])
  {
    hide PrintedHeader;
    HeaderHasNoControls(path);
    NoControlsIsALine(PrintedHeader(path));
  }

  lemma SplitsIndex(index: Option<string>)
    requires index.Some? ==> OneLine(index.value)
    ensures SplitsTo(PrintedIndex(index), PrintedIndex(CutIndex(index)))
  {
    hide SplitsTo, OneLine, WithoutCr;
    match index
    case None => SplitsNothing();
    case Some(i) => Plain("index "); SplitsLine("index ", i);
  }

  lemma SplitsFile(p: FilePatch)
    requires Printable(p)
    ensures SplitsTo(PrintedFile(p), PrintedFile(CutFile(p)))
  {
    hide SplitsTo, PrintedMode, PrintedIndex, PrintedBody, PrintedHeader;
    hide OneLineMode, OneLineBody, OneLine, CutMode, CutBody, CutIndex;
    var q := CutFile(p);
    SplitsHeader(p.path);
    SplitsMode(p.mode);
    SplitsIndex(p.index);
    SplitsBody(p.body);
    SplitsConcat(PrintedIndex(p.index), PrintedIndex(q.index), PrintedBody(p.body), PrintedBody(q.body));
    SplitsConcat(PrintedMode(p.mode), PrintedMode(q.mode),
                 PrintedIndex(p.index) + PrintedBody(p.body), PrintedIndex(q.index) + PrintedBody(q.body));
    SplitsConcat([PrintedHeader(p.path)], [PrintedHeader(p.path)],
                 PrintedMode(p.mode) + (PrintedIndex(p.index) + PrintedBody(p.body)),
                 PrintedMode(q.mode) + (PrintedIndex(q.index) + PrintedBody(q.body)));
  }

  lemma {:induction false} SplitsPatch(patch: seq<FilePatch>)
    requires AllPrintable(patch)
    ensures SplitsTo(PrintedPatch(patch), PrintedPatch(Cut(patch)))
  {
    hide SplitsTo, PrintedFile, Printable, CutFile;
    if patch == [] {
      SplitsNothing();
    } else {
      assert Cut(patch)[1..] == Cut(patch[1..]);
      SplitsFile(patch[0]);
      SplitsPatch(patch[1..]);
      SplitsConcat(PrintedFile(patch[0]), PrintedFile(CutFile(patch[0])),
                   PrintedPatch(patch[1..]), PrintedPatch(Cut(patch[1..])));
    }
  }

  /** The text of a patch. */
  function TextOf(patch: seq<FilePatch>): string {
    Joined(PrintedPatch(patch))
  }

  /** Split into lines, it is the patch without the carriage returns at its line ends. */
  lemma LinesOfPatch(patch: seq<FilePatch>)
    requires AllPrintable(patch)
    ensures Lines(TextOf(patch)) == PrintedPatch(Cut(patch))
  {
    hide Lines, Joined, PrintedPatch;
    SplitsPatch(patch);
    LinesOfJoined(PrintedPatch(patch));
  }

  lemma CutKeepsLost(e: Edit)
    ensures Lost(CutEdit(e)) <==> Lost(e)
  {
    if !e.NoNewline? {
      CutKeepsPrefix(e.text, "-- ");
      CutKeepsPrefix(e.text, "++ ");
    }
  }

  lemma CutKeepsPrefix(text: string, p: string)
    requires p != [] && p[|p| - 1] != '\r'
    ensures StartsWith(WithoutCr(text), p) <==> StartsWith(text, p)
  {
    if p <= text && |p| == |text| { assert p == text; }
    if p <= WithoutCr(text) { assert text[..|p|] == p; }
  }

  // ----- what the parser makes of the text -----

  /** Taking off carriage returns moves no hunk and changes no listing. */
  lemma {:induction false} CutFits(at: Place, hunks: seq<Hunk>)
    ensures HunksFit(at, CutHunks(hunks)) <==> HunksFit(at, hunks)
    decreases |hunks|
  {
    hide EndOf, CutEdits;
    if hunks != [] {
      assert CutHunks(hunks)[0] == CutHunk(hunks[0]) && CutHunks(hunks)[1..] == CutHunks(hunks[1..]);
      CutHunkPlaces(at, hunks[0]);
      CutFits(EndOf(at, hunks[0]), hunks[1..]);
    }
  }

  lemma CutAllFit(patch: seq<FilePatch>)
    requires AllPrintable(patch)
    ensures AllFit(Cut(patch))
  {
    hide HunksFit;
    forall i | 0 <= i < |patch| ensures BodyFits(Cut(patch)[i].body) {
      assert Printable(patch[i]);
      if patch[i].body.Hunks? { CutFits(TOP, patch[i].body.hunks); }
    }
  }

  lemma CutListed(l: Listing, p: FilePatch)
    requires l.Ok()
    ensures Listed(l, CutFile(p)) == Listed(l, p)
  {
    hide ReadPath, Listing.Ok;
    CutStatus(p);
  }

  lemma CutStatus(p: FilePatch)
    ensures forall was :: StatusAfter(CutFile(p), was) == StatusAfter(p, was)
  {
  }

  lemma {:induction false} CutListing(l: Listing, patch: seq<FilePatch>)
    requires l.Ok()
    ensures PatchListing(l, Cut(patch)) == PatchListing(l, patch)
    decreases |patch|
  {
    hide ReadPath, Listed, CutFile, Listing.Ok;
    if patch != [] {
      assert Cut(patch)[1..] == Cut(patch[1..]);
      CutListed(l, patch[0]);
      CutListing(Listed(l, patch[0]), patch[1..]);
    }
  }

  /** The files of a numstat. */
  function NumstatListing(numstat: string): (l: Listing)
    ensures l.Ok()
  {
    hide Lines;
    var files := NumstatFiles(Lines(numstat));
    Listing(files, PathIndexes(files))
  }

  /** Where the parser is after a text. */
  function ParsedState(numstat: string, patch: string, complete: bool): State {
    Steps(Opened(numstat), Lines(patch), complete)
  }

  /** The rows of a printed patch as its lines arrive. */
  function TextRows(numstat: string, patch: seq<FilePatch>, complete: bool): seq<Line> {
    PatchRows(NumstatListing(numstat), 0, Cut(patch), complete).rows
  }

  /** Parsing the text of a patch lists its files with their statuses after those of the
      numstat, and gives the rows of the patch without its carriage returns. */
  lemma TextParses(numstat: string, patch: seq<FilePatch>, complete: bool)
    requires AllPrintable(patch)
    ensures var st := ParsedState(numstat, TextOf(patch), complete);
      && ListingOf(st) == PatchListing(NumstatListing(numstat), patch)
      && st.lines == TextRows(numstat, patch, complete)
  {
    hide Steps, Lines, PatchRows, PrintedPatch, AllPrintable, TextOf, Cut;
    LinesOfPatch(patch);
    CutAllFit(patch);
    CutListing(NumstatListing(numstat), patch);
    PatchParses(Opened(numstat), Cut(patch), complete);
    NothingBeforeRows(TextRows(numstat, patch, complete));
  }

  lemma NothingBeforeRows(rows: seq<Line>)
    ensures [] + rows == rows
  {
  }

  lemma NothingListed()
    ensures NumstatListing("").files == []
  {
  }

  lemma OneFileRows(l: Listing, p: FilePatch)
    requires l.Ok() && l.files == []
    ensures PatchRows(l, 0, [p], true).rows == [Bare(0, FileHeader)] + BodyRows(0, 0, p.body, true).rows
  {
    hide ReadPath, BodyRows;
    assert [p][1..] == [];
  }

  lemma OneHunkRows(section: string, edits: seq<Edit>)
    ensures var start := StartOf(TOP, Hunk(0, section, edits));
      HunkRows(0, 0, TOP, TOP, [Hunk(0, section, edits)], true).rows == Rows(0, start.o, start.n, edits)
  {
    hide Rows, NextAfter;
    var start := StartOf(TOP, Hunk(0, section, edits));
    assert [Hunk(0, section, edits)][1..] == [];
    assert [] + (Rows(0, start.o, start.n, edits) + []) == Rows(0, start.o, start.n, edits);
  }

  // ----- on the screen -----

  /** The same files, wherever their first rows are. */
  ghost predicate SameButPlaces(a: seq<File>, b: seq<File>) {
    |a| == |b| && forall i :: 0 <= i < |a| ==> a[i] == b[i].(diffLine := a[i].diffLine)
  }

  lemma {:induction false} ClicksKeepFiles(v: View, clicks: seq<Click>)
    ensures SameButPlaces(Clicked(v, clicks).files, v.files)
    decreases |clicks|
  {
    hide Replacement;
    if clicks != [] {
      ClicksKeepFiles(Expanded(v, clicks[0].index, clicks[0].direction).0, clicks[1..]);
    }
  }

  /** From text to screen: whatever was clicked, the files are those of the patch with their
      statuses, the rows flatten to its rows, and further clicks show exactly those. */
  lemma PrintedPatchIsShown(numstat: string, patch: seq<FilePatch>, clicks: seq<Click>)
    returns (more: seq<Click>)
    requires AllPrintable(patch) && |PrintedPatch(patch)| <= U32_MAX
    requires |TextRows(numstat, patch, true)| <= MAX_RENDERED_DIFF_LINES
    ensures var v := Clicked(Parsed(numstat, TextOf(patch), true), clicks);
      var rows := TextRows(numstat, patch, true);
      && SnapshotOk(v) && Flatten(v.lines) == rows && Clicked(v, more).lines == rows
      && SameButPlaces(v.files, PatchListing(NumstatListing(numstat), patch).files)
  {
    hide Step, Steps, Lines, TextRows, PrintedPatch, AllPrintable, SnapshotOk, Flatten, Clicked, TextOf;
    var end := ParsedState(numstat, TextOf(patch), true);
    TextParses(numstat, patch, true);
    ParsedTidy(numstat, patch);
    more := FinishedShowsEverything(end.files, end.lines, clicks);
    ClicksKeepFiles(Finished(end.files, end.lines, true), clicks);
  }

  lemma ParsedTidy(numstat: string, patch: seq<FilePatch>)
    requires AllPrintable(patch) && |PrintedPatch(patch)| <= U32_MAX
    ensures var st := ParsedState(numstat, TextOf(patch), true); FilesListed(st.lines, |st.files|) && NoGaps(st.lines)
  {
    hide Step, Steps, Lines, PrintedPatch, AllPrintable, TextOf;
    assert RowsOk([]) by { EmptyRowsOk(); }
    LinesOfPatch(patch);
    assert |Lines(TextOf(patch))| == |PrintedPatch(patch)| by { SplitsPatch(patch); }
    StepsTidy(Opened(numstat), Lines(TextOf(patch)), true);
  }
}
