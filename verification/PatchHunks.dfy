/** The hunks of a file in a patch: printed from an edit script, and parsed again. */
module PatchHunks {
  import opened Basics
  import opened Options
  import opened Text
  import opened DiffRows
  import opened DiffExpand
  import opened DiffCollapse
  import opened PatchParser
  import opened PatchHeaders

  /** One line of an edit script, or the note that the line before it does not end. */
  datatype Edit = Keep(text: string) | Remove(text: string) | Insert(text: string) | NoNewline

  function Marked(e: Edit): string {
    match e
    case Keep(t) => " " + t
    case Remove(t) => "-" + t
    case Insert(t) => "+" + t
    case NoNewline => "\\ No newline at end of file"
  }

  function Printed(edits: seq<Edit>): (r: seq<string>)
    ensures |r| == |edits|
  {
    seq(|edits|, i requires 0 <= i < |edits| => Marked(edits[i]))
  }

  /** Marked, such a line reads as a file marker and is skipped. */
  predicate Lost(e: Edit) {
    (e.Remove? && StartsWith(e.text, "-- ")) || (e.Insert? && StartsWith(e.text, "++ "))
  }

  function OldStep(e: Edit): nat {
    if e.Keep? || e.Remove? then 1 else 0
  }

  function NewStep(e: Edit): nat {
    if e.Keep? || e.Insert? then 1 else 0
  }

  function RowOf(f: nat, o: nat, n: nat, e: Edit): Line {
    match e
    case Keep(t) => Line(f, Some(o), Some(n), Context, t)
    case Remove(t) => Line(f, Some(o), None, Deletion, t)
    case Insert(t) => Line(f, None, Some(n), Addition, t)
    case NoNewline => Line(f, None, None, Meta, " No newline at end of file")
  }

  /** The rows of a script whose first lines have numbers `o` and `n`. A lost line does
      not even count: the lines after it on its side get numbers one too small. */
  function Rows(f: nat, o: nat, n: nat, edits: seq<Edit>): seq<Line>
    decreases |edits|
  {
    if edits == [] then []
    else if Lost(edits[0]) then Rows(f, o, n, edits[1..])
    else [RowOf(f, o, n, edits[0])] + Rows(f, o + OldStep(edits[0]), n + NewStep(edits[0]), edits[1..])
  }

  lemma RowsFirst(f: nat, o: nat, n: nat, edits: seq<Edit>)
    requires edits != [] && !Lost(edits[0])
    ensures var rows := Rows(f, o, n, edits);
      && rows != [] && rows[0] == RowOf(f, o, n, edits[0])
      && rows[1..] == Rows(f, o + OldStep(edits[0]), n + NewStep(edits[0]), edits[1..])
  {
    hide Lost;
  }

  lemma NoRows(f: nat, o: nat, n: nat)
    ensures Rows(f, o, n, []) == []
  {
  }

  lemma RowsOfLost(f: nat, o: nat, n: nat, edits: seq<Edit>)
    requires edits != [] && Lost(edits[0])
    ensures Rows(f, o, n, edits) == Rows(f, o, n, edits[1..])
  {
    hide Lost;
  }

  /** A line number on either side. */
  datatype Place = Place(o: nat, n: nat)

  /** The numbers the parser expects to come next after a script: those after its last row,
      and what it expected before when no row was shown. */
  function NextAfter(next: Place, o: nat, n: nat, edits: seq<Edit>): Place
    decreases |edits|
  {
    if edits == [] then next
    else if Lost(edits[0]) then NextAfter(next, o, n, edits[1..])
    else
      var at := Place(o + OldStep(edits[0]), n + NewStep(edits[0]));
      NextAfter(at, at.o, at.n, edits[1..])
  }

  datatype Side = OldFile | NewFile

  predicate On(side: Side, e: Edit) {
    e.Keep? || (if side.OldFile? then e.Remove? else e.Insert?)
  }

  /** The lines of a script on one side: the file before it, or after it. */
  function Texts(side: Side, edits: seq<Edit>): seq<string> {
    if edits == [] then [] else (if On(side, edits[0]) then [edits[0].text] else []) + Texts(side, edits[1..])
  }

  // ----- hunks -----

  /** Some lines of the file left out, then a script. */
  datatype Hunk = Hunk(skip: nat, section: string, edits: seq<Edit>)

  function Before(place: nat, count: nat): nat {
    if count == 0 then Less(place, 1) else place
  }

  /** Where a hunk starts, as git prints it: a side without lines in the hunk has the number
      of the line before. */
  function StartOf(at: Place, h: Hunk): Place {
    Place(Before(at.o + h.skip, |Texts(OldFile, h.edits)|), Before(at.n + h.skip, |Texts(NewFile, h.edits)|))
  }

  function EndOf(at: Place, h: Hunk): Place {
    Place(at.o + h.skip + |Texts(OldFile, h.edits)|, at.n + h.skip + |Texts(NewFile, h.edits)|)
  }

  function HunkLine(at: Place, h: Hunk): string {
    var start := StartOf(at, h);
    PrintedHunk(start.o, |Texts(OldFile, h.edits)|, start.n, |Texts(NewFile, h.edits)|, h.section)
  }

  function PrintedHunks(at: Place, hunks: seq<Hunk>): seq<string>
    decreases |hunks|
  {
    if hunks == [] then []
    else [HunkLine(at, hunks[0])] + (Printed(hunks[0].edits) + PrintedHunks(EndOf(at, hunks[0]), hunks[1..]))
  }

  /** Line numbers stay within what the parser counts. */
  predicate HunksFit(at: Place, hunks: seq<Hunk>)
    decreases |hunks|
  {
    hunks == [] ||
    (at.o + hunks[0].skip + |hunks[0].edits| <= U32_MAX && at.n + hunks[0].skip + |hunks[0].edits| <= U32_MAX
     && HunksFit(EndOf(at, hunks[0]), hunks[1..]))
  }

  function Max(a: nat, b: nat): nat {
    if a > b then a else b
  }

  /** How many lines the parser finds left out before a hunk. */
  function GapBefore(next: Place, start: Place): nat {
    Max(Less(start.o, next.o), Less(start.n, next.n))
  }

  /** What it puts between two hunks when the context is not complete. */
  function Separator(f: nat, id: nat, next: Place, start: Place, raw: string, complete: bool): Output {
    var first := next == Place(1, 1);
    if complete then Output([], id)
    else if GapBefore(next, start) > 0 then
      Output([Bare(f, GapRow(Gap(id, GapBefore(next, start), [], if first then Leading else Between)))], NextId(id))
    else if !first then Output([Bare(f, HunkHeader).(content := raw)], id)
    else Output([], id)
  }

  /** The rows of hunks that follow each other from `at`, for a parser that expects `next`. */
  function HunkRows(f: nat, id: nat, next: Place, at: Place, hunks: seq<Hunk>, complete: bool): Output
    decreases |hunks|
  {
    if hunks == [] then Output([], id)
    else
      var h, start := hunks[0], StartOf(at, hunks[0]);
      var sep := Separator(f, id, next, start, HunkLine(at, h), complete);
      var rest := HunkRows(f, sep.id, NextAfter(next, start.o, start.n, h.edits), EndOf(at, h), hunks[1..], complete);
      Output(sep.rows + (Rows(f, start.o, start.n, h.edits) + rest.rows), rest.id)
  }

  // ----- which branch a printed line takes -----

  lemma OtherFirst(raw: string, p: string)
    requires p != [] && (raw == [] || raw[0] != p[0])
    ensures !StartsWith(raw, p) && StripPrefix(raw, p).None?
  {
  }

  lemma NotAHeader(raw: string)
    requires raw == [] || raw[0] != 'd'
    ensures HeaderPath(raw).None?
  {
    OtherFirst(raw, "diff --git ");
  }

  lemma NotAHunk(raw: string)
    requires raw == [] || raw[0] != '@'
    ensures HunkStarts(raw).None? && !StartsWith(raw, "@@")
  {
    OtherFirst(raw, "@@ ");
    OtherFirst(raw, "@@");
  }

  lemma NoKeyword(raw: string)
    requires raw != [] && raw[0] in " -+\\"
    ensures !StartsWith(raw, "index ") && !StartsWith(raw, "old mode ") && !StartsWith(raw, "new mode ")
    ensures !StartsWith(raw, "new file mode ") && !StartsWith(raw, "deleted file mode ")
    ensures !StartsWith(raw, "Binary files ") && raw != "GIT binary patch"
  {
  }

  lemma MarkedIsSkippedIff(e: Edit)
    ensures Skipped(Marked(e)) <==> Lost(e)
  {
    var raw := Marked(e);
    NoKeyword(raw);
    match e
    case Keep(t) =>
      OtherFirst(raw, "--- ");
      OtherFirst(raw, "+++ ");
    case Remove(t) =>
      PrefixAfter('-', t, "-- ");
      assert ['-'] + "-- " == "--- ";
      OtherFirst(raw, "+++ ");
    case Insert(t) =>
      PrefixAfter('+', t, "++ ");
      assert ['+'] + "++ " == "+++ ";
      OtherFirst(raw, "--- ");
    case NoNewline =>
      OtherFirst(raw, "--- ");
      OtherFirst(raw, "+++ ");
  }

  /** A printed line is a row, or nothing at all when it is lost. */
  lemma MarkedLine(st: State, f: nat, e: Edit, complete: bool)
    requires st.current == Some(f)
    ensures Step(st, Marked(e), complete) == if Lost(e) then st else OnRow(st, f, Marked(e))
  {
    hide HeaderPath, HunkStarts, Skipped, OnRow, StartsWith;
    var raw := Marked(e);
    NotAHeader(raw);
    NotAHunk(raw);
    NoKeyword(raw);
    MarkedIsSkippedIff(e);
  }

  lemma {:induction false} StepsConcat(st: State, a: seq<string>, b: seq<string>, complete: bool)
    ensures Steps(st, a + b, complete) == Steps(Steps(st, a, complete), b, complete)
    decreases |b|
  {
    hide Step;
    if b == [] {
      assert a + b == a;
    } else {
      assert (a + b)[..|a + b| - 1] == a + b[..|b| - 1];
      StepsConcat(st, a, b[..|b| - 1], complete);
    }
  }

  lemma OneStep(st: State, raw: string, rest: seq<string>, complete: bool)
    ensures Steps(st, [raw] + rest, complete) == Steps(Step(st, raw, complete), rest, complete)
  {
    hide Step;
    StepsConcat(st, [raw], rest, complete);
    assert [raw][..0] == [];
  }

  /** Where the parser is inside file `f`, in a hunk whose position is known. */
  ghost predicate InHunk(st: State, f: nat, o: nat, n: nat) {
    st.current == Some(f) && st.positioned && st.oldLine == o && st.newLine == n
  }

  /** The numbers after the last row. */
  ghost predicate Expects(st: State, next: Place) {
    st.previousOldNext == next.o && st.previousNewNext == next.n
  }

  /** Only the rows, the counters and the position differ. */
  ghost predicate SameFiles(a: State, b: State) {
    a.files == b.files && a.indexes == b.indexes && a.nextGapId == b.nextGapId
  }

  lemma RowOfEdit(st: State, f: nat, e: Edit)
    requires InHunk(st, f, st.oldLine, st.newLine) && st.oldLine < U32_MAX && st.newLine < U32_MAX
    ensures var r := OnRow(st, f, Marked(e));
      && SameFiles(st, r) && InHunk(r, f, st.oldLine + OldStep(e), st.newLine + NewStep(e))
      && r.lines == st.lines + [RowOf(f, st.oldLine, st.newLine, e)]
      && Expects(r, Place(st.oldLine + OldStep(e), st.newLine + NewStep(e)))
  {
    if !e.NoNewline? { assert Marked(e)[1..] == e.text; }
  }

  lemma PrintedFirst(edits: seq<Edit>)
    requires edits != []
    ensures Printed(edits) == [Marked(edits[0])] + Printed(edits[1..])
  {
  }

  /** Parsing the lines of a script appends its rows. */
  lemma {:induction false} ParseEdits(st: State, f: nat, next: Place, o: nat, n: nat, edits: seq<Edit>, complete: bool)
    requires InHunk(st, f, o, n) && Expects(st, next) && o + |edits| <= U32_MAX && n + |edits| <= U32_MAX
    ensures var r := Steps(st, Printed(edits), complete);
      && SameFiles(st, r) && r.current == Some(f) && Expects(r, NextAfter(next, o, n, edits))
      && r.lines == st.lines + Rows(f, o, n, edits)
    decreases |edits|
  {
    hide Step, Steps, Marked, Printed, OnRow, Lost, RowOf;
    if edits == [] {
      NoSteps(st, complete);
      assert Printed([]) == [];
    } else {
      var e, rest := edits[0], edits[1..];
      PrintedFirst(edits);
      OneStep(st, Marked(e), Printed(rest), complete);
      MarkedLine(st, f, e, complete);
      if Lost(e) {
        ParseEdits(st, f, next, o, n, rest, complete);
      } else {
        RowOfEdit(st, f, e);
        var s := OnRow(st, f, Marked(e));
        var o', n' := o + OldStep(e), n + NewStep(e);
        ParseEdits(s, f, Place(o', n'), o', n', rest, complete);
        Regrouped(st.lines, [RowOf(f, o, n, e)], Rows(f, o', n', rest));
      }
    }
  }

  // ----- hunk headers -----

  /** A range as git prints it: a count of one is left out. */
  function PrintedRange(start: nat, count: nat): string {
    Decimal(start) + if count == 1 then "" else "," + Decimal(count)
  }

  function PrintedHunk(o: nat, oldCount: nat, n: nat, newCount: nat, section: string): string {
    "@@ " + (("-" + PrintedRange(o, oldCount)) + (" " + (("+" + PrintedRange(n, newCount)) + (" @@" + section))))
  }

  predicate RangeChars(s: string) {
    forall i :: 0 <= i < |s| ==> s[i] == ',' || IsDigit(s[i])
  }

  lemma RangeHasNoSpace(start: nat, count: nat)
    ensures RangeChars(PrintedRange(start, count))
  {
    hide Decimal;
    DecimalIsWord(start);
    DecimalIsWord(count);
  }

  lemma DecimalParsesBack(n: nat, max: nat)
    requires n <= max
    ensures ParseUnsigned(Decimal(n), max) == Some(n)
  {
    hide Decimal, Number;
    DecimalParses(n);
  }

  lemma RangeParses(start: nat, count: nat)
    requires start <= U32_MAX
    ensures RangeStart(PrintedRange(start, count)) == Some(start)
  {
    hide Decimal, Find, ParseUnsigned;
    var d := Decimal(start);
    DecimalIsWord(start);
    DecimalParsesBack(start, U32_MAX);
    if count == 1 {
      assert d + "" == d;
      FindSkips(d, "", ",");
      assert Find("", ",").None? by { FindNothing(","); }
    } else {
      var t := "," + Decimal(count);
      FindSkips(d, t, ",");
      assert Find(t, ",") == Some(0) by { FindFirst(",", Decimal(count)); }
      assert (d + t)[..|d|] == d;
    }
  }

  /** The first word of a text whose second character on are range characters. */
  lemma FirstWord(sign: char, range: string, t: string)
    requires sign in "+-" && RangeChars(range) && (t == [] || t[0] == ' ')
    ensures NextWord(([sign] + range) + t) == Some(([sign] + range, t))
  {
    hide WordLength;
    var w := [sign] + range;
    WordThenSpace(w, t);
    assert SkipSpaces(w + t) == w + t;
    assert (w + t)[..|w|] == w && (w + t)[|w|..] == t;
  }

  lemma SpaceThenWord(w: string)
    requires w != [] && !IsSpace(w[0])
    ensures NextWord(" " + w) == NextWord(w)
  {
    assert (" " + w)[1..] == w;
  }

  /** The end of the ranges is where they were printed to end. */
  lemma RangesEnd(a: string, b: string, section: string)
    requires ' ' !in a && b != [] && b[0] != '@' && ' ' !in b
    ensures SplitOnce(a + (" " + (b + (" @@" + section))), " @@") == Some((a + (" " + b), section))
  {
    hide Find;
    FoundAfterBoth(a, ' ', b, " @@", section);
    RangesSlices(a, b, section);
  }

  /** A separator is not found in two texts without its first character, nor in between. */
  lemma FoundAfterBoth(a: string, c: char, b: string, sep: string, t: string)
    requires |sep| > 1 && sep[0] == c && c !in a && c !in b && b != [] && b[0] != sep[1]
    ensures Find(a + ([c] + (b + (sep + t))), sep) == Some(|a| + 1 + |b|)
  {
    hide Find;
    var u := sep + t;
    FindFirst(sep, t);
    FoundLater(b, u, sep, 0);
    var v := b + u;
    assert v[0] == b[0];
    NotFoundBetween(c, v, sep);
    FoundLater(a, [c] + v, sep, 1 + |b|);
  }

  lemma FoundLater(s: string, t: string, sep: string, k: nat)
    requires sep != [] && sep[0] !in s && Find(t, sep) == Some(k)
    ensures Find(s + t, sep) == Some(|s| + k)
  {
    hide Find;
    FindSkips(s, t, sep);
  }

  lemma NotFoundBetween(c: char, t: string, sep: string)
    requires |sep| > 1 && t != [] && t[0] != sep[1]
    ensures Find([c] + t, sep) == Later(Find(t, sep), 1)
  {
    assert ([c] + t)[1..] == t;
    assert ([c] + t)[1] != sep[1];
  }

  lemma RangesSlices(a: string, b: string, section: string)
    ensures var rest := a + (" " + (b + (" @@" + section))); var i := |a| + 1 + |b|;
      rest[..i] == a + (" " + b) && rest[i + 3..] == section
  {
    var rest, i := a + (" " + (b + (" @@" + section))), |a| + 1 + |b|;
    assert rest == (a + (" " + b)) + (" @@" + section);
  }

  /** The starts of a printed hunk header are read back. */
  lemma HunkParses(o: nat, oldCount: nat, n: nat, newCount: nat, section: string)
    requires o <= U32_MAX && n <= U32_MAX
    ensures HunkStarts(PrintedHunk(o, oldCount, n, newCount, section)) == Some((o, n))
  {
    hide PrintedRange, NextWord, SplitOnce, RangeStart;
    var r, q := PrintedRange(o, oldCount), PrintedRange(n, newCount);
    RangeHasNoSpace(o, oldCount);
    RangeHasNoSpace(n, newCount);
    RangeParses(o, oldCount);
    RangeParses(n, newCount);
    var a, b := "-" + r, "+" + q;
    Stripped("@@ ", a + (" " + (b + (" @@" + section))));
    RangesEnd(a, b, section);
    assert NextWord(a + (" " + b)) == Some((a, " " + b)) by { FirstWord('-', r, " " + b); }
    assert NextWord(" " + b) == Some((b, "")) by {
      SpaceThenWord(b);
      FirstWord('+', q, "");
      assert b + "" == b;
    }
    Stripped("-", r);
    Stripped("+", q);
  }

  // ----- parsing hunks -----

  lemma HunkStep(st: State, f: nat, o: nat, oldCount: nat, n: nat, newCount: nat, section: string, complete: bool)
    requires st.current == Some(f) && o <= U32_MAX && n <= U32_MAX
    ensures var raw := PrintedHunk(o, oldCount, n, newCount, section);
      Step(st, raw, complete) == OnHunk(st, f, raw, o, n, complete)
  {
    hide HunkStarts, StripPrefix, OnHunk;
    HunkParses(o, oldCount, n, newCount, section);
    var raw := PrintedHunk(o, oldCount, n, newCount, section);
    assert raw[0] == '@';
    NotAHeader(raw);
    NotSkipped(raw);
  }

  lemma NotSkipped(raw: string)
    requires raw != [] && raw[0] == '@'
    ensures !Skipped(raw) && !StartsWith(raw, "new file mode ") && !StartsWith(raw, "deleted file mode ")
    ensures !StartsWith(raw, "Binary files ") && raw != "GIT binary patch"
  {
  }

  /** The line of a hunk puts its separator and takes the parser to the start. */
  lemma OnHunkIs(st: State, f: nat, next: Place, start: Place, raw: string, complete: bool)
    requires st.current == Some(f) && Expects(st, next)
    ensures var r := OnHunk(st, f, raw, start.o, start.n, complete);
      var sep := Separator(f, st.nextGapId, next, start, raw, complete);
      && InHunk(r, f, start.o, start.n) && Expects(r, next) && r.files == st.files && r.indexes == st.indexes
      && r.lines == st.lines + sep.rows && r.nextGapId == sep.id
  {
  }

  lemma {:induction false} TextsNoLonger(side: Side, edits: seq<Edit>)
    ensures |Texts(side, edits)| <= |edits|
  {
    if edits != [] { TextsNoLonger(side, edits[1..]); }
  }

  lemma StartFits(at: Place, h: Hunk)
    ensures StartOf(at, h).o <= at.o + h.skip && StartOf(at, h).n <= at.n + h.skip
  {
  }

  /** Parsing hunks appends their rows. */
  lemma {:induction false} HunksParse(st: State, f: nat, next: Place, at: Place, hunks: seq<Hunk>, complete: bool)
    requires st.current == Some(f) && Expects(st, next) && HunksFit(at, hunks)
    ensures var r := Steps(st, PrintedHunks(at, hunks), complete);
      var o := HunkRows(f, st.nextGapId, next, at, hunks, complete);
      r.files == st.files && r.indexes == st.indexes && r.lines == st.lines + o.rows && r.nextGapId == o.id
    decreases |hunks|
  {
    hide Step, Steps, Printed, HunkLine, Separator, StartOf, EndOf, Rows, OnHunk, NextAfter;
    if hunks == [] {
      NoSteps(st, complete);
    } else {
      var h, start, raw := hunks[0], StartOf(at, hunks[0]), HunkLine(at, hunks[0]);
      var more := PrintedHunks(EndOf(at, h), hunks[1..]);
      StartFits(at, h);
      var s := FirstHunk(st, f, next, at, h, complete);
      var sep := Separator(f, st.nextGapId, next, start, raw, complete);
      OneStep(st, raw, Printed(h.edits) + more, complete);
      StepsConcat(s, Printed(h.edits), more, complete);
      ParseEdits(s, f, next, start.o, start.n, h.edits, complete);
      var t := Steps(s, Printed(h.edits), complete);
      var next' := NextAfter(next, start.o, start.n, h.edits);
      HunksParse(t, f, next', EndOf(at, h), hunks[1..], complete);
      FourParts(st.lines, sep.rows, Rows(f, start.o, start.n, h.edits),
                HunkRows(f, sep.id, next', EndOf(at, h), hunks[1..], complete).rows);
    }
  }

  lemma FourParts<T>(a: seq<T>, b: seq<T>, c: seq<T>, d: seq<T>)
    ensures ((a + b) + c) + d == a + (b + (c + d))
  {
  }

  lemma FirstHunk(st: State, f: nat, next: Place, at: Place, h: Hunk, complete: bool) returns (s: State)
    requires st.current == Some(f) && Expects(st, next)
    requires StartOf(at, h).o <= U32_MAX && StartOf(at, h).n <= U32_MAX
    ensures var start, raw := StartOf(at, h), HunkLine(at, h);
      var sep := Separator(f, st.nextGapId, next, start, raw, complete);
      && s == Step(st, raw, complete)
      && InHunk(s, f, start.o, start.n) && Expects(s, next) && s.files == st.files && s.indexes == st.indexes
      && s.lines == st.lines + sep.rows && s.nextGapId == sep.id
  {
    hide Step, StartOf, Separator, PrintedHunk, OnHunk;
    var start, raw := StartOf(at, h), HunkLine(at, h);
    HunkStep(st, f, start.o, |Texts(OldFile, h.edits)|, start.n, |Texts(NewFile, h.edits)|, h.section, complete);
    OnHunkIs(st, f, next, start, raw, complete);
    s := Step(st, raw, complete);
  }
}
