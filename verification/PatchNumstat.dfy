/** The numstat that git prints with a patch: whether both list the same files. */
module PatchNumstat {
  import opened Basics
  import opened Options
  import opened Text
  import opened DiffRows
  import opened DiffExpand
  import opened DiffCollapse
  import opened PatchParser
  import opened PatchHeaders
  import opened PatchHunks
  import opened PatchRoundTrip
  import opened PatchText

  // ----- printing -----

  /** A path as the numstat has it. */
  function Name(path: string): string {
    if NeedsQuotes(path) then "\"" + (Quoted(path) + "\"") else path
  }

  function CountIn(edits: seq<Edit>, inserted: bool): nat {
    if edits == [] then 0
    else (if (if inserted then edits[0].Insert? else edits[0].Remove?) then 1 else 0) + CountIn(edits[1..], inserted)
  }

  function Count(hunks: seq<Hunk>, inserted: bool): nat {
    if hunks == [] then 0 else CountIn(hunks[0].edits, inserted) + Count(hunks[1..], inserted)
  }

  /** The lines a file of a patch adds, or takes away. */
  function Changed(p: FilePatch, inserted: bool): nat {
    if p.body.Hunks? then Count(p.body.hunks, inserted) else 0
  }

  function NumstatLine(p: FilePatch): string {
    if p.body.BinaryNote? then "-" + ("\t" + ("-" + ("\t" + Name(p.path))))
    else Decimal(Changed(p, true)) + ("\t" + (Decimal(Changed(p, false)) + ("\t" + Name(p.path))))
  }

  function NumstatLines(patch: seq<FilePatch>): (r: seq<string>)
    ensures |r| == |patch| && forall i :: 0 <= i < |r| ==> r[i] == NumstatLine(patch[i])
  {
    seq(|patch|, i requires 0 <= i < |patch| => NumstatLine(patch[i]))
  }

  /** The numstat of a patch. */
  function Numstat(patch: seq<FilePatch>): string {
    Joined(NumstatLines(patch))
  }

  predicate CountsFit(patch: seq<FilePatch>) {
    forall i :: 0 <= i < |patch| ==> Changed(patch[i], true) <= U64_MAX && Changed(patch[i], false) <= U64_MAX
  }

  lemma {:induction false} CountInFits(edits: seq<Edit>)
    ensures CountIn(edits, true) <= |Texts(NewFile, edits)| && CountIn(edits, false) <= |Texts(OldFile, edits)|
    ensures |Texts(NewFile, edits)| <= |edits| && |Texts(OldFile, edits)| <= |edits|
  {
    if edits != [] { CountInFits(edits[1..]); }
  }

  /** Counts are no larger than line numbers. */
  lemma {:induction false} CountFits(at: Place, hunks: seq<Hunk>)
    requires HunksFit(at, hunks) && at.o <= U32_MAX && at.n <= U32_MAX
    ensures at.n + Count(hunks, true) <= U32_MAX && at.o + Count(hunks, false) <= U32_MAX
    decreases |hunks|
  {
    hide CountIn, Texts;
    if hunks != [] {
      CountInFits(hunks[0].edits);
      CountFits(EndOf(at, hunks[0]), hunks[1..]);
    }
  }

  lemma PrintableCountsFit(patch: seq<FilePatch>)
    requires AllPrintable(patch)
    ensures CountsFit(patch)
  {
    hide HunksFit, Count, OneLineBody, OneLineMode;
    forall i | 0 <= i < |patch| ensures Changed(patch[i], true) <= U64_MAX && Changed(patch[i], false) <= U64_MAX {
      assert Printable(patch[i]);
      if patch[i].body.Hunks? { CountFits(TOP, patch[i].body.hunks); }
    }
  }

  // ----- parsing it -----

  /** What the numstat lists for a file. */
  function Entry(p: FilePatch): File {
    File(Name(p.path), Changed(p, true), Changed(p, false), if p.body.BinaryNote? then Binary else Modified, None)
  }

  function Entries(patch: seq<FilePatch>): (r: seq<File>)
    ensures |r| == |patch| && forall i :: 0 <= i < |r| ==> r[i] == Entry(patch[i])
  {
    seq(|patch|, i requires 0 <= i < |patch| => Entry(patch[i]))
  }

  lemma SplitAtTab(word: string, rest: string)
    requires '\t' !in word
    ensures SplitOnce(word + ("\t" + rest), "\t") == Some((word, rest))
  {
    hide Find;
    FindFirst("\t", rest);
    FindSkips(word, "\t" + rest, "\t");
    assert (word + ("\t" + rest))[..|word|] == word && (word + ("\t" + rest))[|word| + 1..] == rest;
  }

  lemma CountParses(n: nat)
    requires n <= U64_MAX
    ensures CountOr0(Decimal(n)) == n && '\t' !in Decimal(n) && Decimal(n) != "-"
  {
    hide Decimal, Number;
    DecimalParsesBack(n, U64_MAX);
    DecimalIsWord(n);
    assert IsDigit(Decimal(n)[0]);
  }

  lemma NumstatLineParses(p: FilePatch)
    requires Changed(p, true) <= U64_MAX && Changed(p, false) <= U64_MAX
    ensures NumstatFile(NumstatLine(p)) == Some(Entry(p))
  {
    hide SplitOnce, Decimal, CountOr0, Name;
    if p.body.BinaryNote? {
      SplitAtTab("-", "-" + ("\t" + Name(p.path)));
      SplitAtTab("-", Name(p.path));
      DashIsNoCount();
    } else {
      var a, d := Changed(p, true), Changed(p, false);
      CountParses(a);
      CountParses(d);
      SplitAtTab(Decimal(a), Decimal(d) + ("\t" + Name(p.path)));
      SplitAtTab(Decimal(d), Name(p.path));
    }
  }

  lemma DashIsNoCount()
    ensures CountOr0("-") == 0
  {
  }

  lemma NameIsALine(path: string)
    ensures '\n' !in Name(path) && WithoutCr(Name(path)) == Name(path)
  {
    hide NoControls, Quoted, WithoutCr;
    NamesHaveNoControls();
    if NeedsQuotes(path) {
      QuotedHasNoControls(path);
      NoControlsConcat(Quoted(path), "\"");
      NoControlsConcat("\"", Quoted(path) + "\"");
    } else {
      BareHasNoControls(path);
    }
    NoControlsIsALine(Name(path));
  }

  lemma AfterTwoCounts(a: string, d: string, name: string)
    requires '\n' !in a && '\n' !in d && '\n' !in name && WithoutCr(name) == name
    ensures var line := a + ("\t" + (d + ("\t" + name))); '\n' !in line && WithoutCr(line) == line
  {
    hide WithoutCr;
    var p := a + ("\t" + (d + "\t"));
    assert p[|p| - 1] == '\t';
    WithoutCrAfter(p, name);
    assert p + name == a + ("\t" + (d + ("\t" + name)));
  }

  lemma CountHasNoBreak(n: nat)
    ensures '\n' !in Decimal(n)
  {
    hide Decimal;
    DecimalIsWord(n);
  }

  lemma NumstatLineIsALine(p: FilePatch)
    ensures '\n' !in NumstatLine(p) && WithoutCr(NumstatLine(p)) == NumstatLine(p)
  {
    hide WithoutCr, Decimal, Name;
    NameIsALine(p.path);
    CountHasNoBreak(Changed(p, true));
    CountHasNoBreak(Changed(p, false));
    if p.body.BinaryNote? {
      AfterTwoCounts("-", "-", Name(p.path));
    } else {
      AfterTwoCounts(Decimal(Changed(p, true)), Decimal(Changed(p, false)), Name(p.path));
    }
  }

  lemma {:induction false} NumstatFilesAre(patch: seq<FilePatch>)
    requires CountsFit(patch)
    ensures NumstatFiles(NumstatLines(patch)) == Entries(patch)
  {
    hide NumstatFile, NumstatLine, Entry, Changed;
    if patch != [] {
      NumstatLineParses(patch[0]);
      assert NumstatLines(patch)[1..] == NumstatLines(patch[1..]);
      NumstatFilesAre(patch[1..]);
      assert Entries(patch) == [Entry(patch[0])] + Entries(patch[1..]);
    }
  }

  /** Each file is listed under its name in the numstat, with its counts. */
  lemma NumstatParses(patch: seq<FilePatch>)
    requires CountsFit(patch)
    ensures NumstatListing(Numstat(patch)) == Listing(Entries(patch), PathIndexes(Entries(patch)))
  {
    hide Joined, Lines, NumstatFiles, PathIndexes, NumstatLine, WithoutCr, CountsFit;
    forall i | 0 <= i < |patch|
      ensures '\n' !in NumstatLine(patch[i]) && WithoutCr(NumstatLine(patch[i])) == NumstatLine(patch[i])
    {
      NumstatLineIsALine(patch[i]);
    }
    LinesOfJoined(NumstatLines(patch));
    assert AllWithoutCr(NumstatLines(patch)) == NumstatLines(patch);
    NumstatFilesAre(patch);
  }

  // ----- one list -----

  /** A file as both together should list it. */
  function Expected(p: FilePatch): File {
    File(p.path, Changed(p, true), Changed(p, false), StatusAfter(p, Modified), None)
  }

  function ExpectedFiles(patch: seq<FilePatch>): (r: seq<File>)
    ensures |r| == |patch| && forall i :: 0 <= i < |r| ==> r[i] == Expected(patch[i])
  {
    seq(|patch|, i requires 0 <= i < |patch| => Expected(patch[i]))
  }

  /** The rows with the files of the patch numbered from `k`. */
  function ExpectedRows(k: nat, id: nat, patch: seq<FilePatch>, complete: bool): Output
    decreases |patch|
  {
    if patch == [] then Output([], id)
    else
      var first := FileRows(k, id, patch[0], complete);
      var rest := ExpectedRows(k + 1, first.id, patch[1..], complete);
      Output(first.rows + rest.rows, rest.id)
  }

  predicate Distinct(patch: seq<FilePatch>) {
    forall i, j :: 0 <= i < j < |patch| ==> patch[i].path != patch[j].path
  }

  /** Paths that git prints bare and whose header gives them back. */
  predicate PlainPath(path: string) {
    !NeedsQuotes(path) && Readable(path)
  }

  predicate AllPlain(patch: seq<FilePatch>) {
    forall i :: 0 <= i < |patch| ==> PlainPath(patch[i].path)
  }

  // ----- rows of one file or another -----

  lemma {:induction false} RowsAlike(f: nat, g: nat, o: nat, n: nat, edits: seq<Edit>)
    ensures |Rows(f, o, n, edits)| == |Rows(g, o, n, edits)|
    decreases |edits|
  {
    hide Lost, RowOf;
    if edits != [] {
      RowsAlike(f, g, o, n, edits[1..]);
      RowsAlike(f, g, o + OldStep(edits[0]), n + NewStep(edits[0]), edits[1..]);
    }
  }

  lemma SeparatorsAlike(f: nat, g: nat, id: nat, next: Place, start: Place, raw: string, complete: bool)
    ensures var a, b := Separator(f, id, next, start, raw, complete), Separator(g, id, next, start, raw, complete);
      |a.rows| == |b.rows| && a.id == b.id
  {
  }

  lemma {:induction false} HunkRowsAlike(f: nat, g: nat, id: nat, next: Place, at: Place, hunks: seq<Hunk>,
                                         complete: bool)
    ensures var a, b := HunkRows(f, id, next, at, hunks, complete), HunkRows(g, id, next, at, hunks, complete);
      |a.rows| == |b.rows| && a.id == b.id
    decreases |hunks|
  {
    hide Rows, Separator, NextAfter, StartOf, EndOf, HunkLine;
    if hunks != [] {
      var h, start := hunks[0], StartOf(at, hunks[0]);
      SeparatorsAlike(f, g, id, next, start, HunkLine(at, h), complete);
      RowsAlike(f, g, start.o, start.n, h.edits);
      HunkRowsAlike(f, g, Separator(f, id, next, start, HunkLine(at, h), complete).id,
                    NextAfter(next, start.o, start.n, h.edits), EndOf(at, h), hunks[1..], complete);
    }
  }

  lemma FileRowsAlike(f: nat, g: nat, id: nat, p: FilePatch, complete: bool)
    ensures var a, b := FileRows(f, id, p, complete), FileRows(g, id, p, complete);
      |a.rows| == |b.rows| && a.id == b.id && (a.rows == b.rows ==> f == g)
  {
    hide HunkRows;
    if p.body.Hunks? { HunkRowsAlike(f, g, id, TOP, TOP, p.body.hunks, complete); }
    var a, b := FileRows(f, id, p, complete), FileRows(g, id, p, complete);
    assert a.rows[0] == Bare(f, FileHeader) && b.rows[0] == Bare(g, FileHeader);
  }

  // ----- only with plain paths -----

  lemma ListedKeepsPaths(l: Listing, p: FilePatch)
    requires l.Ok()
    ensures var m := Listed(l, p);
      && |l.files| <= |m.files| && forall i :: 0 <= i < |l.files| ==> m.files[i].path == l.files[i].path
  {
    hide ReadPath, StatusAfter;
  }

  lemma {:induction false} ListingKeepsPaths(l: Listing, patch: seq<FilePatch>)
    requires l.Ok()
    ensures var m := PatchListing(l, patch);
      && |l.files| <= |m.files| && forall i :: 0 <= i < |l.files| ==> m.files[i].path == l.files[i].path
    decreases |patch|
  {
    hide Listed, Listing.Ok, ReadPath;
    if patch != [] {
      ListedKeepsPaths(l, patch[0]);
      ListingKeepsPaths(Listed(l, patch[0]), patch[1..]);
    }
  }

  lemma ListedThere(l: Listing, p: FilePatch)
    requires l.Ok()
    ensures var m := Listed(l, p); var f := m.indexes[ReadPath(p.path)];
      f < |m.files| && m.files[f].path == ReadPath(p.path)
  {
    hide ReadPath, StatusAfter;
  }

  /** From `k` on the files have the paths that the headers are read as. */
  ghost predicate Named(files: seq<File>, k: nat, patch: seq<FilePatch>) {
    k + |patch| <= |files| && forall i :: 0 <= i < |patch| ==> files[k..][i].path == ReadPath(patch[i].path)
  }

  lemma NamedFirst(files: seq<File>, k: nat, patch: seq<FilePatch>)
    requires patch != [] && k < |files| && files[k].path == ReadPath(patch[0].path) && Named(files, k + 1, patch[1..])
    ensures Named(files, k, patch)
  {
    hide ReadPath;
    forall i | 0 <= i < |patch| ensures files[k..][i].path == ReadPath(patch[i].path) {
      if i > 0 { assert files[k + 1..][i - 1] == files[k..][i] && patch[1..][i - 1] == patch[i]; }
    }
  }

  /** If the rows are in the files' order, the listing has the paths that the headers are read as. */
  lemma {:induction false} RowsNameFiles(l: Listing, k: nat, id: nat, patch: seq<FilePatch>, complete: bool)
    requires l.Ok() && k <= |l.files|
    requires PatchRows(l, id, patch, complete).rows == ExpectedRows(k, id, patch, complete).rows
    ensures Named(PatchListing(l, patch).files, k, patch)
    decreases |patch|
  {
    hide FileRows, Listed, Listing.Ok, ReadPath, Named;
    if patch == [] {
      assert Named(l.files, k, []) by { NothingNamed(l.files, k); }
    } else {
      var p, more := patch[0], patch[1..];
      var m := Listed(l, p);
      var f := m.indexes[ReadPath(p.path)];
      FileRowsAlike(f, k, id, p, complete);
      var a, b := FileRows(f, id, p, complete), FileRows(k, id, p, complete);
      EqualParts(a.rows, b.rows, PatchRows(m, a.id, more, complete).rows,
                 ExpectedRows(k + 1, b.id, more, complete).rows);
      ListedThere(l, p);
      RowsNameFiles(m, k + 1, a.id, more, complete);
      ListingKeepsPaths(m, more);
      NamedFirst(PatchListing(m, more).files, k, patch);
    }
  }

  lemma NothingNamed(files: seq<File>, k: nat)
    requires k <= |files|
    ensures Named(files, k, [])
  {
  }

  lemma EqualParts<T>(x: seq<T>, y: seq<T>, a: seq<T>, b: seq<T>)
    requires |x| == |y| && x + a == y + b
    ensures x == y && a == b
  {
    assert x == (x + a)[..|x|] && y == (y + b)[..|y|] && a == (x + a)[|x|..] && b == (y + b)[|y|..];
  }

  lemma {:induction false} QuotedNoShorter(path: string)
    ensures |Quoted(path)| >= |path|
  {
    if path != [] { QuotedNoShorter(path[1..]); }
  }

  lemma NameIsPathIff(path: string)
    ensures Name(path) == path <==> !NeedsQuotes(path)
  {
    hide Quoted, NeedsQuotes;
    QuotedNoShorter(path);
  }

  lemma OnlyPlain(l: Listing, id: nat, patch: seq<FilePatch>, complete: bool)
    requires l.Ok() && l.files == Entries(patch) && PatchListing(l, patch).files == ExpectedFiles(patch)
    requires PatchRows(l, id, patch, complete).rows == ExpectedRows(0, id, patch, complete).rows
    ensures AllPlain(patch)
  {
    hide PatchRows, ExpectedRows, PatchListing, Listing.Ok, ReadPath, Readable, NeedsQuotes, Name, Changed;
    RowsNameFiles(l, 0, id, patch, complete);
    ListingKeepsPaths(l, patch);
    forall i | 0 <= i < |patch| ensures PlainPath(patch[i].path) {
      var path := patch[i].path;
      var m := PatchListing(l, patch);
      assert m.files[i] == Expected(patch[i]) && l.files[i] == Entry(patch[i]);
      assert m.files[0..][i].path == ReadPath(path);
      ReadPathIff(path);
      NameIsPathIff(path);
    }
  }

  // ----- always with plain paths -----

  /** With distinct paths each file is found under its own. */
  lemma {:induction false} IndexOfDistinct(files: seq<File>, i: nat)
    requires i < |files| && forall j :: i < j < |files| ==> files[j].path != files[i].path
    ensures files[i].path in PathIndexes(files) && PathIndexes(files)[files[i].path] == i
  {
    var n := |files| - 1;
    if i < n {
      assert files[..n][i] == files[i];
      IndexOfDistinct(files[..n], i);
    }
  }

  /** Files up to `k` are done, the rest as the numstat has them, each under its own path. */
  ghost predicate Halfway(l: Listing, all: seq<FilePatch>, k: nat) {
    && l.Ok() && k <= |all| && |l.files| == |all|
    && (forall i :: 0 <= i < |all| ==> l.files[i] == if i < k then Expected(all[i]) else Entry(all[i]))
    && (forall i :: 0 <= i < |all| ==> all[i].path in l.indexes && l.indexes[all[i].path] == i)
  }

  lemma PlainStep(l: Listing, all: seq<FilePatch>, k: nat)
    requires Halfway(l, all, k) && k < |all| && AllPlain(all)
    ensures var m := Listed(l, all[k]);
      Halfway(m, all, k + 1) && ReadPath(all[k].path) == all[k].path && m.indexes[all[k].path] == k
  {
    hide Changed, NeedsQuotes, Readable, ReadPath;
    assert PlainPath(all[k].path);
    ReadPathIff(all[k].path);
    assert Entry(all[k]).path == all[k].path;
  }

  lemma {:induction false} PlainListing(l: Listing, id: nat, all: seq<FilePatch>, k: nat, complete: bool)
    requires Halfway(l, all, k) && AllPlain(all)
    ensures PatchListing(l, all[k..]).files == ExpectedFiles(all)
    ensures PatchRows(l, id, all[k..], complete) == ExpectedRows(k, id, all[k..], complete)
    decreases |all| - k
  {
    hide Listed, Listing.Ok, FileRows, ReadPath, AllPlain, Entry, Expected;
    if k < |all| {
      var rest := all[k..];
      assert rest[0] == all[k] && rest[1..] == all[k + 1..];
      PlainStep(l, all, k);
      var m := Listed(l, all[k]);
      PlainListing(m, FileRows(k, id, all[k], complete).id, all, k + 1, complete);
    } else {
      assert all[k..] == [];
    }
  }

  lemma EntriesOfPlain(patch: seq<FilePatch>)
    requires AllPlain(patch) && Distinct(patch)
    ensures Halfway(Listing(Entries(patch), PathIndexes(Entries(patch))), patch, 0)
  {
    hide PathIndexes, NeedsQuotes, Readable, Changed;
    forall i | 0 <= i < |patch| ensures Entries(patch)[i].path == patch[i].path {
      assert PlainPath(patch[i].path);
    }
    forall i | 0 <= i < |patch|
      ensures patch[i].path in PathIndexes(Entries(patch)) && PathIndexes(Entries(patch))[patch[i].path] == i
    {
      IndexOfDistinct(Entries(patch), i);
    }
  }

  /** The numstat and the patch that git prints of the same changes list each file once, under
      its path, with its counts, its status and its own rows, exactly when every path is one
      that git does not quote and whose header gives it back. */
  lemma OneListIff(patch: seq<FilePatch>, complete: bool)
    requires AllPrintable(patch) && Distinct(patch)
    ensures var st := ParsedState(Numstat(patch), TextOf(patch), complete);
      st.files == ExpectedFiles(patch) && st.lines == ExpectedRows(0, 0, Cut(patch), complete).rows
      <==> AllPlain(patch)
  {
    hide ParsedState, TextOf, Numstat, NumstatListing, PatchRows, ExpectedRows, PatchListing, AllPrintable, CountsFit,
      AllPlain, Distinct, PathIndexes, Cut, ExpectedFiles;
    var l := Listing(Entries(patch), PathIndexes(Entries(patch)));
    PrintableCountsFit(patch);
    NumstatParses(patch);
    TextParses(Numstat(patch), patch, complete);
    CutLists(l, patch);
    if AllPlain(patch) {
      CutIsPlain(patch);
      EntriesOfPlain(Cut(patch));
      assert Cut(patch)[0..] == Cut(patch);
      PlainListing(l, 0, Cut(patch), 0, complete);
    } else if PatchListing(l, patch).files == ExpectedFiles(patch)
              && PatchRows(l, 0, Cut(patch), complete).rows == ExpectedRows(0, 0, Cut(patch), complete).rows {
      OnlyPlain(l, 0, Cut(patch), complete);
      CutIsPlain(patch);
    }
  }

  /** Carriage returns at line ends change nothing about the files. */
  lemma CutLists(l: Listing, patch: seq<FilePatch>)
    requires l.Ok()
    ensures Entries(Cut(patch)) == Entries(patch) && ExpectedFiles(Cut(patch)) == ExpectedFiles(patch)
    ensures PatchListing(l, Cut(patch)) == PatchListing(l, patch)
  {
    hide Listing.Ok, PatchListing, CutFile, Entry, Expected;
    CutListing(l, patch);
    forall i | 0 <= i < |patch|
      ensures Entry(Cut(patch)[i]) == Entry(patch[i]) && Expected(Cut(patch)[i]) == Expected(patch[i])
    {
      CutExpected(patch[i]);
    }
  }

  lemma CutExpected(p: FilePatch)
    ensures Entry(CutFile(p)) == Entry(p) && Expected(CutFile(p)) == Expected(p)
  {
    hide Changed, Name;
    CutCounts(p, true);
    CutCounts(p, false);
    CutStatus(p);
  }

  lemma CutIsPlain(patch: seq<FilePatch>)
    ensures AllPlain(Cut(patch)) <==> AllPlain(patch)
    ensures Distinct(Cut(patch)) <==> Distinct(patch)
  {
    hide PlainPath;
    assert forall i :: 0 <= i < |patch| ==> Cut(patch)[i].path == patch[i].path;
    if AllPlain(Cut(patch)) {
      forall i | 0 <= i < |patch| ensures PlainPath(patch[i].path) { assert PlainPath(Cut(patch)[i].path); }
    }
    if Distinct(Cut(patch)) {
      forall i, j | 0 <= i < j < |patch| ensures patch[i].path != patch[j].path {
        assert Cut(patch)[i].path != Cut(patch)[j].path;
      }
    }
  }

  lemma {:induction false} CutCountIn(edits: seq<Edit>, inserted: bool)
    ensures CountIn(CutEdits(edits), inserted) == CountIn(edits, inserted)
  {
    hide WithoutCr;
    if edits != [] {
      assert CutEdits(edits)[0] == CutEdit(edits[0]) && CutEdits(edits)[1..] == CutEdits(edits[1..]);
      CutCountIn(edits[1..], inserted);
    }
  }

  lemma {:induction false} CutCount(hunks: seq<Hunk>, inserted: bool)
    ensures Count(CutHunks(hunks), inserted) == Count(hunks, inserted)
  {
    hide CountIn, CutEdits;
    if hunks != [] {
      assert CutHunks(hunks)[0] == CutHunk(hunks[0]) && CutHunks(hunks)[1..] == CutHunks(hunks[1..]);
      CutCountIn(hunks[0].edits, inserted);
      CutCount(hunks[1..], inserted);
    }
  }

  lemma CutCounts(p: FilePatch, inserted: bool)
    ensures Changed(CutFile(p), inserted) == Changed(p, inserted)
  {
    hide Count, CutHunks;
    if p.body.Hunks? { CutCount(p.body.hunks, inserted); }
  }

  // ----- a file listed twice -----

  function QuotedPatch(): seq<FilePatch> {
    [FilePatch("a\"b", Same, None, Hunks("a", "b", [Hunk(0, "", [Insert("x")])]))]
  }

  lemma QuotedPrints()
    ensures AllPrintable(QuotedPatch())
  {
    var hunks := [Hunk(0, "", [Insert("x")])];
    assert hunks[1..] == [];
    assert HunksFit(TOP, hunks);
  }

  lemma QuotedCounts()
    ensures Changed(QuotedPatch()[0], true) == 1 && Changed(QuotedPatch()[0], false) == 0
  {
    var edits := [Insert("x")];
    var hunks := [Hunk(0, "", edits)];
    OneInserted(edits);
    hide CountIn;
    assert hunks[0].edits == edits && hunks[1..] == [];
    assert Count(hunks[1..], true) == 0 && Count(hunks[1..], false) == 0;
  }

  lemma OneInserted(edits: seq<Edit>)
    requires |edits| == 1 && edits[0].Insert?
    ensures CountIn(edits, true) == 1 && CountIn(edits, false) == 0
  {
    assert edits[1..] == [];
    assert CountIn(edits[1..], true) == 0 && CountIn(edits[1..], false) == 0;
  }

  lemma QuotedName()
    ensures Name("a\"b") == "\"a\\\"b\"" && ReadPath("a\"b") == "a\"b"
  {
    hide ReadPath, RFind;
    var path := "a\"b";
    assert NeedsEscape(path[1]);
    assert path[1..] == "\"b" && path[1..][1..] == "b" && path[1..][1..][1..] == "";
    assert Quoted("b") == "b" && Quoted("\"b") == "\\\"b";
    FindSkips(path, [], " b/");
    PatchHeaders.NothingFound();
    assert path + [] == path;
    ReadPathIff(path);
  }

  /** A file with a quote in its name is listed twice: by the numstat with its counts, and by
      the patch with its rows. */
  lemma QuotedIsListedTwice()
    ensures ParsedState(Numstat(QuotedPatch()), TextOf(QuotedPatch()), true).files ==
            [File("\"a\\\"b\"", 1, 0, Modified, None), File("a\"b", 0, 0, Modified, None)]
  {
    hide ParsedState, TextOf, Numstat, AllPrintable, CountsFit, PatchListing, PathIndexes, Changed, Name, ReadPath;
    QuotedPrints();
    QuotedCounts();
    QuotedName();
    PrintableCountsFit(QuotedPatch());
    NumstatParses(QuotedPatch());
    TextParses(Numstat(QuotedPatch()), QuotedPatch(), true);
    JoinsAtTheEnd(Entry(QuotedPatch()[0]), QuotedPatch()[0]);
    assert Entries(QuotedPatch()) == [Entry(QuotedPatch()[0])];
  }

  lemma JoinsAtTheEnd(entry: File, p: FilePatch)
    requires entry.path != ReadPath(p.path) && p.mode.Same? && p.body.Hunks?
    ensures PatchListing(Listing([entry], PathIndexes([entry])), [p]).files
         == [entry, File(ReadPath(p.path), 0, 0, Modified, None)]
  {
    hide ReadPath;
    assert [entry][..0] == [] && [p][1..] == [];
    assert PathIndexes([]) == map[];
    assert ReadPath(p.path) !in PathIndexes([entry]);
  }
}
