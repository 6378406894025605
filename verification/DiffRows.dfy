/** Review diff rows (`src/review_diff.rs`): the row list, its flattening, and the
    two indexes that follow it. */
module DiffRows {
  import opened Basics
  import opened Options

  const COLLAPSED_CONTEXT_LINES: nat := 3
  const COLLAPSED_CONTEXT_THRESHOLD: nat := 1
  const DEFAULT_EXPANSION_LINE_COUNT: nat := 100
  const MAX_RENDERED_DIFF_LINES: nat := 50_000
  const U64_SIZE: nat := 0x1_0000_0000_0000_0000

  datatype GapPosition = Leading | Between | Trailing

  /** Context collapsed into one row: `count` is displayed, `hidden` is what can be shown. */
  datatype Gap = Gap(id: nat, count: nat, hidden: seq<Line>, position: GapPosition) {
    predicate IsExpandable() {
      count > 0 && |hidden| == count
    }
  }

  datatype LineKind =
    | FileHeader
    | GapRow(gap: Gap)
    | HunkHeader
    | Context
    | Addition
    | Deletion
    | Meta

  datatype Line = Line(file: nat, oldLine: Option<nat>, newLine: Option<nat>, kind: LineKind, content: string)

  function Bare(file: nat, kind: LineKind): Line {
    Line(file, None, None, kind, "")
  }

  predicate IsChange(line: Line) {
    line.kind.Addition? || line.kind.Deletion?
  }

  predicate Expandable(line: Line) {
    line.kind.GapRow? && line.kind.gap.IsExpandable()
  }

  // ----- flattening -----

  function Shown(line: Line): seq<Line> {
    if Expandable(line) then line.kind.gap.hidden else [line]
  }

  /** The rows with every expandable gap replaced by the rows it hides. */
  function Flatten(lines: seq<Line>): seq<Line> {
    if lines == [] then [] else Shown(lines[0]) + Flatten(lines[1..])
  }

  lemma {:induction false} FlattenConcat(a: seq<Line>, b: seq<Line>)
    ensures Flatten(a + b) == Flatten(a) + Flatten(b)
  {
    if a == [] {
      assert a + b == b;
    } else {
      assert (a + b)[0] == a[0] && (a + b)[1..] == a[1..] + b;
      FlattenConcat(a[1..], b);
      assert Shown(a[0]) + (Flatten(a[1..]) + Flatten(b)) == (Shown(a[0]) + Flatten(a[1..])) + Flatten(b);
    }
  }

  lemma FlattenOne(line: Line)
    ensures Flatten([line]) == Shown(line)
  {
    assert [line][1..] == [];
    assert Shown(line) + [] == Shown(line);
  }

  lemma FlattenAround(a: seq<Line>, m: seq<Line>, z: seq<Line>)
    ensures Flatten(a + m + z) == Flatten(a) + Flatten(m) + Flatten(z)
  {
    FlattenConcat(a + m, z);
    FlattenConcat(a, m);
  }

  predicate NoneExpandable(lines: seq<Line>) {
    forall i :: 0 <= i < |lines| ==> !Expandable(lines[i])
  }

  lemma {:induction false} FlattenFlat(lines: seq<Line>)
    requires NoneExpandable(lines)
    ensures Flatten(lines) == lines
  {
    if lines != [] {
      FlattenFlat(lines[1..]);
      assert lines == [lines[0]] + lines[1..];
    }
  }

  function Hidden(line: Line): nat {
    if line.kind.GapRow? then |line.kind.gap.hidden| else 0
  }

  function HiddenCount(lines: seq<Line>): nat {
    if lines == [] then 0 else Hidden(lines[0]) + HiddenCount(lines[1..])
  }

  lemma {:induction false} HiddenConcat(a: seq<Line>, b: seq<Line>)
    ensures HiddenCount(a + b) == HiddenCount(a) + HiddenCount(b)
  {
    if a == [] {
      assert a + b == b;
    } else {
      assert (a + b)[0] == a[0] && (a + b)[1..] == a[1..] + b;
      HiddenConcat(a[1..], b);
    }
  }

  lemma HiddenAround(a: seq<Line>, m: seq<Line>, z: seq<Line>)
    ensures HiddenCount(a + m + z) == HiddenCount(a) + HiddenCount(m) + HiddenCount(z)
  {
    HiddenConcat(a + m, z);
    HiddenConcat(a, m);
  }

  lemma {:induction false} NothingHidden(lines: seq<Line>)
    requires forall i :: 0 <= i < |lines| ==> !lines[i].kind.GapRow?
    ensures HiddenCount(lines) == 0 && GapIds(lines) == [] && NoneExpandable(lines)
  {
    if lines != [] { NothingHidden(lines[1..]); }
  }

  /** The gap ids in row order. */
  function GapIds(lines: seq<Line>): seq<nat> {
    if lines == [] then []
    else (if lines[0].kind.GapRow? then [lines[0].kind.gap.id] else []) + GapIds(lines[1..])
  }

  lemma {:induction false} GapIdsConcat(a: seq<Line>, b: seq<Line>)
    ensures GapIds(a + b) == GapIds(a) + GapIds(b)
  {
    if a == [] {
      assert a + b == b;
    } else {
      assert (a + b)[0] == a[0] && (a + b)[1..] == a[1..] + b;
      GapIdsConcat(a[1..], b);
    }
  }

  lemma GapIdsAround(a: seq<Line>, m: seq<Line>, z: seq<Line>)
    ensures GapIds(a + m + z) == GapIds(a) + GapIds(m) + GapIds(z)
  {
    GapIdsConcat(a + m, z);
    GapIdsConcat(a, m);
  }

  /** A gap hides context rows, of a file, that are counted right, or nothing at all. */
  predicate GapOk(line: Line) {
    line.kind.GapRow? ==>
      && |line.kind.gap.hidden| <= U32_MAX
      && (line.kind.gap.hidden == [] || line.kind.gap.count == |line.kind.gap.hidden|)
      && forall i :: 0 <= i < |line.kind.gap.hidden| ==> line.kind.gap.hidden[i].kind.Context?
  }

  predicate RowsOk(lines: seq<Line>) {
    Ascending(GapIds(lines)) && forall i :: 0 <= i < |lines| ==> GapOk(lines[i])
  }

  lemma OneGapId(g: Line)
    requires g.kind.GapRow?
    ensures GapIds([g]) == [g.kind.gap.id]
  {
    assert [g][1..] == [];
  }

  // ----- the header indexes -----

  /** The file-header rows, in order. */
  function HeaderLines(lines: seq<Line>): (hs: seq<nat>)
    ensures forall h :: h in hs ==> h < |lines|
  {
    if lines == [] then []
    else
      var n := |lines| - 1;
      HeaderLines(lines[..n]) + (if lines[n].kind.FileHeader? then [n] else [])
  }

  /** They are exactly the header rows, each once, in increasing order. */
  lemma HeaderLinesExact(lines: seq<Line>)
    ensures Ascending(HeaderLines(lines))
    ensures forall i: nat :: i in HeaderLines(lines) <==> i < |lines| && lines[i].kind.FileHeader?
  {
    HeaderLinesAscend(lines);
    forall i: nat ensures i in HeaderLines(lines) <==> i < |lines| && lines[i].kind.FileHeader? {
      HeaderLinesListed(lines, i);
    }
  }

  lemma {:induction false} HeaderLinesAscend(lines: seq<Line>)
    ensures Ascending(HeaderLines(lines))
  {
    if lines != [] {
      var hs := HeaderLines(lines[..|lines| - 1]);
      HeaderLinesAscend(lines[..|lines| - 1]);
      assert forall i :: 0 <= i < |hs| ==> hs[i] in hs;
    }
  }

  lemma {:induction false} HeaderLinesListed(lines: seq<Line>, i: nat)
    ensures i in HeaderLines(lines) <==> i < |lines| && lines[i].kind.FileHeader?
  {
    if lines != [] { HeaderLinesListed(lines[..|lines| - 1], i); }
  }

  function Moved(s: seq<nat>, offset: nat): (r: seq<nat>)
    ensures |r| == |s| && forall i :: 0 <= i < |s| ==> r[i] == s[i] + offset
  {
    seq(|s|, i requires 0 <= i < |s| => s[i] + offset)
  }

  lemma {:induction false} HeaderLinesConcat(a: seq<Line>, b: seq<Line>)
    ensures HeaderLines(a + b) == HeaderLines(a) + Moved(HeaderLines(b), |a|)
    decreases |b|
  {
    if b == [] {
      assert a + b == a;
    } else {
      var b' := b[..|b| - 1];
      assert (a + b)[..|a + b| - 1] == a + b';
      HeaderLinesConcat(a, b');
    }
  }

  /** The first header row of a file. */
  function FirstHeader(lines: seq<Line>, file: nat): (r: Option<nat>)
    ensures r.Some? ==> r.value < |lines|
  {
    if lines == [] then None
    else
      var n := |lines| - 1;
      match FirstHeader(lines[..n], file)
      case Some(i) => Some(i)
      case None => if lines[n].kind.FileHeader? && lines[n].file == file then Some(n) else None
  }

  lemma {:induction false} FirstHeaderMeaning(lines: seq<Line>, file: nat)
    ensures match FirstHeader(lines, file)
      case Some(r) =>
        && lines[r].kind.FileHeader? && lines[r].file == file
        && (forall i :: 0 <= i < r && lines[i].kind.FileHeader? ==> lines[i].file != file)
      case None => forall i :: 0 <= i < |lines| && lines[i].kind.FileHeader? ==> lines[i].file != file
  {
    if lines != [] { FirstHeaderMeaning(lines[..|lines| - 1], file); }
  }

  lemma {:induction false} FirstHeaderConcat(a: seq<Line>, b: seq<Line>, file: nat)
    ensures FirstHeader(a + b, file) ==
      match FirstHeader(a, file)
      case Some(i) => Some(i)
      case None => match FirstHeader(b, file) case Some(i) => Some(|a| + i) case None => None
    decreases |b|
  {
    if b == [] {
      assert a + b == a;
    } else {
      var b' := b[..|b| - 1];
      assert (a + b)[..|a + b| - 1] == a + b';
      FirstHeaderConcat(a, b', file);
    }
  }

  lemma FirstHeaderAround(a: seq<Line>, m: seq<Line>, z: seq<Line>, file: nat)
    requires forall i :: 0 <= i < |m| ==> !m[i].kind.FileHeader?
    ensures FirstHeader(a + m + z, file) ==
      match FirstHeader(a, file)
      case Some(i) => Some(i)
      case None => match FirstHeader(z, file) case Some(i) => Some(|a| + |m| + i) case None => None
  {
    var am := a + m;
    FirstHeaderConcat(am, z, file);
    FirstHeaderConcat(a, m, file);
    FirstHeaderMeaning(m, file);
  }
}
