/** A whole patch as git prints it, and what the parser makes of it. */
module PatchRoundTrip {
  import opened Basics
  import opened Options
  import opened Text
  import opened DiffRows
  import opened DiffExpand
  import opened DiffCollapse
  import opened PatchParser
  import opened PatchHeaders
  import opened PatchHunks

  // ----- printing -----

  datatype Mode = Same | New(mode: string) | Gone(mode: string) | Changed(was: string, mode: string)

  /** What follows the header lines of a file: nothing, its two names and its hunks, or the
      note about a binary file. */
  datatype Body =
    | Nothing
    | Hunks(oldName: string, newName: string, hunks: seq<Hunk>)
    | BinaryNote(names: string)

  /** One file of a patch: its path, mode, index line and body. */
  datatype FilePatch = FilePatch(path: string, mode: Mode, index: Option<string>, body: Body)

  function PrintedMode(mode: Mode): seq<string> {
    match mode
    case Same => []
    case New(m) => ["new file mode " + m]
    case Gone(m) => ["deleted file mode " + m]
    case Changed(was, m) => ["old mode " + was, "new mode " + m]
  }

  function PrintedIndex(index: Option<string>): seq<string> {
    match index
    case None => []
    case Some(i) => ["index " + i]
  }

  /** Hunks start at line 1 of either side. */
  const TOP: Place := Place(1, 1)

  function PrintedBody(body: Body): seq<string> {
    match body
    case Nothing => []
    case Hunks(oldName, newName, hunks) => ["--- " + oldName, "+++ " + newName] + PrintedHunks(TOP, hunks)
    case BinaryNote(names) => ["Binary files " + names]
  }

  function PrintedFile(p: FilePatch): seq<string> {
    [PrintedHeader(p.path)] + (PrintedMode(p.mode) + (PrintedIndex(p.index) + PrintedBody(p.body)))
  }

  function PrintedPatch(patch: seq<FilePatch>): seq<string> {
    if patch == [] then [] else PrintedFile(patch[0]) + PrintedPatch(patch[1..])
  }

  /** Line numbers stay below 2^32. */
  predicate BodyFits(body: Body) {
    body.Hunks? ==> HunksFit(TOP, body.hunks)
  }

  predicate AllFit(patch: seq<FilePatch>) {
    forall i :: 0 <= i < |patch| ==> BodyFits(patch[i].body)
  }

  // ----- what a patch says -----

  /** The status a file of a patch leaves, over the one it had. */
  function StatusAfter(p: FilePatch, was: FileStatus): FileStatus {
    if p.body.BinaryNote? then Binary
    else match p.mode
         case New(_) => Added
         case Gone(_) => Deleted
         case _ => was
  }

  function BodyRows(f: nat, id: nat, body: Body, complete: bool): Output {
    match body
    case Nothing => Output([], id)
    case Hunks(_, _, hunks) => HunkRows(f, id, TOP, TOP, hunks, complete)
    case BinaryNote(_) => Output([Bare(f, Meta).(content := "Binary file changed")], id)
  }

  function FileRows(f: nat, id: nat, p: FilePatch, complete: bool): Output {
    var o := BodyRows(f, id, p.body, complete);
    Output([Bare(f, FileHeader)] + o.rows, o.id)
  }

  /** The files listed so far, by path. */
  datatype Listing = Listing(files: seq<File>, indexes: map<string, nat>) {
    ghost predicate Ok() {
      forall p :: p in indexes ==> indexes[p] < |files| && files[indexes[p]].path == p
    }
  }

  /** The listing after a file of a patch: the path that its header is read as joins at the
      end when it is new. */
  function Listed(l: Listing, p: FilePatch): (r: Listing)
    requires l.Ok()
    ensures r.Ok() && ReadPath(p.path) in r.indexes
  {
    var path := ReadPath(p.path);
    var m := if path in l.indexes then l
             else Listing(l.files + [File(path, 0, 0, Modified, None)], l.indexes[path := |l.files|]);
    var f := m.indexes[path];
    m.(files := m.files[f := m.files[f].(status := StatusAfter(p, m.files[f].status))])
  }

  function PatchListing(l: Listing, patch: seq<FilePatch>): (r: Listing)
    requires l.Ok()
    ensures r.Ok()
    decreases |patch|
  {
    if patch == [] then l else PatchListing(Listed(l, patch[0]), patch[1..])
  }

  /** The rows of a patch over the files listed before it. */
  function PatchRows(l: Listing, id: nat, patch: seq<FilePatch>, complete: bool): Output
    requires l.Ok()
    decreases |patch|
  {
    if patch == [] then Output([], id)
    else
      var m := Listed(l, patch[0]);
      var first := FileRows(m.indexes[ReadPath(patch[0].path)], id, patch[0], complete);
      var rest := PatchRows(m, first.id, patch[1..], complete);
      Output(first.rows + rest.rows, rest.id)
  }

  // ----- parsing its lines -----

  ghost function ListingOf(st: State): Listing {
    Listing(st.files, st.indexes)
  }

  lemma SkippedLine(st: State, f: nat, raw: string, complete: bool)
    requires st.current == Some(f) && Skipped(raw) && raw != [] && raw[0] in "i-+o"
    ensures Step(st, raw, complete) == st
  {
    hide HunkStarts, Skipped, OnRow;
    NotAHeader(raw);
    OtherFirst(raw, "new file mode ");
    OtherFirst(raw, "deleted file mode ");
    OtherFirst(raw, "Binary files ");
  }

  /** The status after the mode lines of a file. */
  function ModeStep(st: State, f: nat, mode: Mode): State {
    match mode
    case New(_) => WithStatus(st, f, Added)
    case Gone(_) => WithStatus(st, f, Deleted)
    case _ => st
  }

  lemma NewModeSkipped(st: State, f: nat, m: string, complete: bool)
    requires st.current == Some(f)
    ensures Step(st, "new mode " + m, complete) == st
  {
    hide HunkStarts, OnRow;
    var raw := "new mode " + m;
    Stripped("new mode ", m);
    NotAHeader(raw);
    assert !StartsWith(raw, "new file mode ") by { assert raw[4] == 'm'; }
  }

  lemma NewFileLine(st: State, f: nat, m: string, complete: bool)
    requires st.current == Some(f)
    ensures Step(st, "new file mode " + m, complete) == WithStatus(st, f, Added)
  {
    hide HunkStarts, OnRow, WithStatus;
    NotAHeader("new file mode " + m);
    Stripped("new file mode ", m);
  }

  lemma DeletedFileLine(st: State, f: nat, m: string, complete: bool)
    requires st.current == Some(f)
    ensures Step(st, "deleted file mode " + m, complete) == WithStatus(st, f, Deleted)
  {
    hide HunkStarts, OnRow, WithStatus;
    var raw := "deleted file mode " + m;
    Stripped("deleted file mode ", m);
    OtherFirst(raw, "new file mode ");
    assert !("diff --git " <= raw) by { assert raw[1] == 'e'; }
  }

  lemma ModeLines(st: State, f: nat, mode: Mode, complete: bool)
    requires st.current == Some(f)
    ensures Steps(st, PrintedMode(mode), complete) == ModeStep(st, f, mode)
  {
    hide Step, WithStatus;
    match mode
    case Same => NoSteps(st, complete);
    case New(m) => NewFileLine(st, f, m, complete); SingleStep(st, "new file mode " + m, complete);
    case Gone(m) => DeletedFileLine(st, f, m, complete); SingleStep(st, "deleted file mode " + m, complete);
    case Changed(was, m) =>
      Stripped("old mode ", was);
      SkippedLine(st, f, "old mode " + was, complete);
      NewModeSkipped(st, f, m, complete);
      OneStep(st, "old mode " + was, ["new mode " + m], complete);
      SingleStep(st, "new mode " + m, complete);
      assert ["old mode " + was] + ["new mode " + m] == PrintedMode(mode);
  }

  lemma SingleStep(st: State, raw: string, complete: bool)
    ensures Steps(st, [raw], complete) == Step(st, raw, complete)
  {
    hide Step;
    OneStep(st, raw, [], complete);
    NoSteps(Step(st, raw, complete), complete);
    assert [raw] + [] == [raw];
  }

  lemma IndexLine(st: State, f: nat, index: Option<string>, complete: bool)
    requires st.current == Some(f)
    ensures Steps(st, PrintedIndex(index), complete) == st
  {
    hide Step;
    match index
    case None => NoSteps(st, complete);
    case Some(i) =>
      Stripped("index ", i);
      SkippedLine(st, f, "index " + i, complete);
      SingleStep(st, "index " + i, complete);
  }

  lemma BinaryLine(st: State, f: nat, names: string, complete: bool)
    requires st.current == Some(f)
    ensures var raw := "Binary files " + names;
      Step(st, raw, complete) == Pushed(WithStatus(st, f, Binary), Bare(f, Meta).(content := "Binary file changed"))
  {
    hide HunkStarts, OnRow, WithStatus;
    var raw := "Binary files " + names;
    NotAHeader(raw);
    Stripped("Binary files ", names);
    OtherFirst(raw, "new file mode ");
    OtherFirst(raw, "deleted file mode ");
  }

  lemma HunkLines(st: State, f: nat, body: Body, complete: bool)
    requires st.current == Some(f) && Expects(st, TOP) && body.Hunks? && BodyFits(body)
    ensures var r := Steps(st, PrintedBody(body), complete); var o := BodyRows(f, st.nextGapId, body, complete);
      r.files == st.files && r.indexes == st.indexes && r.lines == st.lines + o.rows && r.nextGapId == o.id
  {
    hide Step, Steps, PrintedHunks, HunkRows, Skipped;
    var a, b := "--- " + body.oldName, "+++ " + body.newName;
    assert Skipped(a) && Skipped(b) by {
      Stripped("--- ", body.oldName);
      Stripped("+++ ", body.newName);
      NamesSkipped(a, b);
    }
    SkippedLine(st, f, a, complete);
    SkippedLine(st, f, b, complete);
    HunksParse(st, f, TOP, TOP, body.hunks, complete);
    assert PrintedBody(body) == [a] + ([b] + PrintedHunks(TOP, body.hunks));
    OneStep(st, a, [b] + PrintedHunks(TOP, body.hunks), complete);
    OneStep(st, b, PrintedHunks(TOP, body.hunks), complete);
  }

  lemma NamesSkipped(a: string, b: string)
    requires StartsWith(a, "--- ") && StartsWith(b, "+++ ")
    ensures Skipped(a) && Skipped(b)
  {
  }

  lemma BodyLines(st: State, f: nat, body: Body, complete: bool)
    requires st.current == Some(f) && Expects(st, TOP) && BodyFits(body)
    ensures var r := Steps(st, PrintedBody(body), complete); var o := BodyRows(f, st.nextGapId, body, complete);
      && ListingOf(r) == ListingOf(if body.BinaryNote? then WithStatus(st, f, Binary) else st)
      && r.lines == st.lines + o.rows && r.nextGapId == o.id
  {
    hide Step, HunkRows, PrintedHunks, HunksFit;
    match body
    case Nothing => NoSteps(st, complete);
    case Hunks(_, _, _) => HunkLines(st, f, body, complete);
    case BinaryNote(names) =>
      BinaryLine(st, f, names, complete);
      SingleStep(st, "Binary files " + names, complete);
  }

  lemma HeaderLine(st: State, path: string, complete: bool)
    ensures Step(st, PrintedHeader(path), complete) == OnHeader(st, ReadPath(path))
  {
    hide HeaderPath, PrintedHeader;
    HeaderIsRead(path);
  }

  /** What the header and mode lines of a file do. */
  lemma HeaderLists(st: State, p: FilePatch)
    requires ListingOf(st).Ok()
    ensures var s := OnHeader(st, ReadPath(p.path)); var m := Listed(ListingOf(st), p);
      && s.current == Some(m.indexes[ReadPath(p.path)])
      && var f := s.current.value; var t := ModeStep(s, f, p.mode);
         && ListingOf(if p.body.BinaryNote? then WithStatus(t, f, Binary) else t) == m
         && t.lines == st.lines + [Bare(f, FileHeader)] && t.nextGapId == st.nextGapId
         && t.current == Some(f) && Expects(t, TOP)
  {
    hide ReadPath;
  }

  /** The lines of one file list it and append its rows. */
  lemma FileParses(st: State, p: FilePatch, complete: bool)
    requires BodyFits(p.body) && ListingOf(st).Ok()
    ensures var r := Steps(st, PrintedFile(p), complete); var m := Listed(ListingOf(st), p);
      var o := FileRows(m.indexes[ReadPath(p.path)], st.nextGapId, p, complete);
      ListingOf(r) == m && r.lines == st.lines + o.rows && r.nextGapId == o.id
  {
    hide Step, Steps, PrintedMode, PrintedIndex, PrintedBody, PrintedHeader, BodyRows, ReadPath, BodyFits;
    hide OnHeader, ModeStep, WithStatus, Listed, Listing.Ok, Expects;
    HeaderLists(st, p);
    var s := OnHeader(st, ReadPath(p.path));
    var f := s.current.value;
    var tail := PrintedIndex(p.index) + PrintedBody(p.body);
    HeaderLine(st, p.path, complete);
    OneStep(st, PrintedHeader(p.path), PrintedMode(p.mode) + tail, complete);
    StepsConcat(s, PrintedMode(p.mode), tail, complete);
    ModeLines(s, f, p.mode, complete);
    var t := ModeStep(s, f, p.mode);
    StepsConcat(t, PrintedIndex(p.index), PrintedBody(p.body), complete);
    IndexLine(t, f, p.index, complete);
    BodyLines(t, f, p.body, complete);
    Regrouped(st.lines, [Bare(f, FileHeader)], BodyRows(f, st.nextGapId, p.body, complete).rows);
  }

  /** Parsing the lines of a patch lists its files with their statuses and gives back its
      rows, file after file. */
  lemma {:induction false} PatchParses(st: State, patch: seq<FilePatch>, complete: bool)
    requires AllFit(patch) && ListingOf(st).Ok()
    ensures var r := Steps(st, PrintedPatch(patch), complete);
      var o := PatchRows(ListingOf(st), st.nextGapId, patch, complete);
      && ListingOf(r) == PatchListing(ListingOf(st), patch)
      && r.lines == st.lines + o.rows && r.nextGapId == o.id
    decreases |patch|
  {
    hide Steps, PrintedFile, FileRows, BodyFits, Listed, Listing.Ok, ReadPath;
    if patch == [] {
      NoSteps(st, complete);
    } else {
      var p := patch[0];
      var r := Steps(st, PrintedFile(p), complete);
      FileParses(st, p, complete);
      StepsConcat(st, PrintedFile(p), PrintedPatch(patch[1..]), complete);
      PatchParses(r, patch[1..], complete);
      var m := Listed(ListingOf(st), p);
      var first := FileRows(m.indexes[ReadPath(p.path)], st.nextGapId, p, complete);
      Regrouped(st.lines, first.rows, PatchRows(m, first.id, patch[1..], complete).rows);
    }
  }
}
