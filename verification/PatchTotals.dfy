/** The totals that a parsed patch shows, and whether it is shown as truncated, whatever was
    clicked. */
module PatchTotals {
  import opened Text
  import opened DiffRows
  import opened DiffExpand
  import opened DiffCollapse
  import opened DiffSnapshot
  import opened PatchParser
  import opened PatchHeaders
  import opened PatchHunks
  import opened PatchRoundTrip
  import opened PatchText
  import opened PatchNumstat

  /** Every edit of a patch. */
  function HunkEdits(hunks: seq<Hunk>): seq<Edit> {
    if hunks == [] then [] else hunks[0].edits + HunkEdits(hunks[1..])
  }

  function AllEdits(patch: seq<FilePatch>): seq<Edit> {
    if patch == [] then []
    else (if patch[0].body.Hunks? then HunkEdits(patch[0].body.hunks) else []) + AllEdits(patch[1..])
  }

  lemma {:induction false} CountInConcat(a: seq<Edit>, b: seq<Edit>, inserted: bool)
    ensures CountIn(a + b, inserted) == CountIn(a, inserted) + CountIn(b, inserted)
  {
    if a == [] {
      assert a + b == b;
    } else {
      assert (a + b)[1..] == a[1..] + b;
      CountInConcat(a[1..], b, inserted);
    }
  }

  lemma {:induction false} CountIsOfEdits(hunks: seq<Hunk>, inserted: bool)
    ensures Count(hunks, inserted) == CountIn(HunkEdits(hunks), inserted)
  {
    hide CountIn;
    if hunks == [] {
      NoEdits(inserted);
    } else {
      CountIsOfEdits(hunks[1..], inserted);
      CountInConcat(hunks[0].edits, HunkEdits(hunks[1..]), inserted);
    }
  }

  lemma NoEdits(inserted: bool)
    ensures CountIn([], inserted) == 0
  {
  }

  // ----- the sums -----

  /** What each file counts. */
  function Counts(files: seq<File>, inserted: bool): (r: seq<nat>)
    ensures |r| == |files|
    ensures forall i :: 0 <= i < |r| ==> r[i] == if inserted then files[i].additions else files[i].deletions
  {
    seq(|files|, i requires 0 <= i < |files| => if inserted then files[i].additions else files[i].deletions)
  }

  lemma {:induction false} SumWithNothing(ns: seq<nat>)
    ensures Sum(ns + [0]) == Sum(ns)
  {
    if ns == [] {
      assert ([] + [0])[1..] == [];
    } else {
      assert (ns + [0])[1..] == ns[1..] + [0];
      SumWithNothing(ns[1..]);
    }
  }

  /** A file that the patch adds to the list counts nothing, and the others keep their counts. */
  lemma ListedKeepsSum(l: Listing, p: FilePatch, inserted: bool)
    requires l.Ok()
    ensures Sum(Counts(Listed(l, p).files, inserted)) == Sum(Counts(l.files, inserted))
  {
    hide Sum, ReadPath, StatusAfter;
    var a, b := Counts(l.files, inserted), Counts(Listed(l, p).files, inserted);
    if ReadPath(p.path) in l.indexes {
      assert a == b;
    } else {
      assert b == a + [0];
      SumWithNothing(a);
    }
  }

  lemma {:induction false} ListingKeepsSum(l: Listing, patch: seq<FilePatch>, inserted: bool)
    requires l.Ok()
    ensures Sum(Counts(PatchListing(l, patch).files, inserted)) == Sum(Counts(l.files, inserted))
    decreases |patch|
  {
    hide Listed, Listing.Ok, Sum, Counts, ReadPath;
    if patch != [] {
      ListedKeepsSum(l, patch[0], inserted);
      ListingKeepsSum(Listed(l, patch[0]), patch[1..], inserted);
    }
  }

  lemma {:induction false} EntriesSum(patch: seq<FilePatch>, inserted: bool)
    ensures Sum(Counts(Entries(patch), inserted)) == CountIn(AllEdits(patch), inserted)
  {
    hide CountIn, Count, HunkEdits;
    var ns := Counts(Entries(patch), inserted);
    if patch == [] {
      NoEdits(inserted);
    } else {
      assert ns[1..] == Counts(Entries(patch[1..]), inserted);
      EntriesSum(patch[1..], inserted);
      if patch[0].body.Hunks? {
        CountIsOfEdits(patch[0].body.hunks, inserted);
        CountInConcat(HunkEdits(patch[0].body.hunks), AllEdits(patch[1..]), inserted);
      } else {
        assert [] + AllEdits(patch[1..]) == AllEdits(patch[1..]);
      }
    }
  }

  // ----- what clicks keep -----

  /** A click that has to leave rows hidden because the cap is reached: no row is free, or all
      of them were asked for and they do not fit. */
  predicate StopsAtTheCap(v: View, c: Click) {
    && c.index < |v.lines| && Expandable(v.lines[c.index])
    && (|v.lines| - 1 >= MAX_RENDERED_DIFF_LINES
        || (c.direction.All? && |v.lines| - 1 + |v.lines[c.index].kind.gap.hidden| > MAX_RENDERED_DIFF_LINES))
  }

  lemma ClickTruncates(v: View, c: Click)
    ensures var w := Expanded(v, c.index, c.direction).0;
      && w.additions == v.additions && w.deletions == v.deletions
      && (w.truncated <==> v.truncated || StopsAtTheCap(v, c))
  {
    hide Replacement;
  }

  /** Some click of a run stops there. */
  predicate SomeStops(v: View, clicks: seq<Click>)
    decreases |clicks|
  {
    clicks != [] &&
    (StopsAtTheCap(v, clicks[0]) || SomeStops(Expanded(v, clicks[0].index, clicks[0].direction).0, clicks[1..]))
  }

  lemma {:induction false} ClicksKeepTotals(v: View, clicks: seq<Click>)
    ensures var w := Clicked(v, clicks);
      && w.additions == v.additions && w.deletions == v.deletions
      && (w.truncated <==> v.truncated || SomeStops(v, clicks))
    decreases |clicks|
  {
    hide Expanded, StopsAtTheCap;
    if clicks != [] {
      ClickTruncates(v, clicks[0]);
      ClicksKeepTotals(Expanded(v, clicks[0].index, clicks[0].direction).0, clicks[1..]);
    }
  }

  // ----- from text -----

  /** The rows before the cap. */
  function RowsToShow(patch: seq<FilePatch>, complete: bool): seq<Line>
    requires AllPrintable(patch)
  {
    var rows := TextRows(Numstat(patch), patch, complete);
    if complete then Collapsed(rows, 0).rows else rows
  }

  lemma FinishedTotals(files: seq<File>, lines: seq<Line>, complete: bool)
    ensures var v := Finished(files, lines, complete); var rows := if complete then Collapsed(lines, 0).rows else lines;
      && v.additions == Sum(Counts(files, true)) && v.deletions == Sum(Counts(files, false))
      && (v.truncated <==> |rows| > MAX_RENDERED_DIFF_LINES)
  {
    hide Sum, Collapsed, ListedHeaders;
    var adds := seq(|files|, i requires 0 <= i < |files| => files[i].additions);
    var dels := seq(|files|, i requires 0 <= i < |files| => files[i].deletions);
    assert adds == Counts(files, true) && dels == Counts(files, false);
  }

  /** The totals of a patch, parsed with its numstat, are the lines it inserts and the lines it
      removes, quoted paths or not, and clicks keep them. It is shown as truncated exactly when
      there were more rows than the cap, or a click had to stop there. */
  lemma TotalsAreShown(patch: seq<FilePatch>, complete: bool, clicks: seq<Click>)
    requires AllPrintable(patch)
    ensures var v := Parsed(Numstat(patch), TextOf(patch), complete); var w := Clicked(v, clicks);
      && w.additions == CountIn(AllEdits(patch), true) && w.deletions == CountIn(AllEdits(patch), false)
      && (w.truncated <==> Truncates(v, patch, complete, clicks))
  {
    hide Steps, Lines, PatchListing, TextRows, TextOf, Numstat, AllPrintable, CountsFit, Finished, PathIndexes, Sum;
    hide Clicked, CountIn, AllEdits, Counts, SomeStops, Collapsed;
    var st := ParsedState(Numstat(patch), TextOf(patch), complete);
    PrintableCountsFit(patch);
    NumstatParses(patch);
    TextParses(Numstat(patch), patch, complete);
    var l := NumstatListing(Numstat(patch));
    ListingKeepsSum(l, patch, true);
    ListingKeepsSum(l, patch, false);
    EntriesSum(patch, true);
    EntriesSum(patch, false);
    FinishedTotals(st.files, st.lines, complete);
    ClicksKeepTotals(Finished(st.files, st.lines, complete), clicks);
  }

  predicate Truncates(v: View, patch: seq<FilePatch>, complete: bool, clicks: seq<Click>)
    requires AllPrintable(patch)
  {
    |RowsToShow(patch, complete)| > MAX_RENDERED_DIFF_LINES || SomeStops(v, clicks)
  }
}
