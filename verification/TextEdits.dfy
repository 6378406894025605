/** What each edit of the text field shows, told by the texts alone: where a range of UTF-16
    units falls, what is put there, and where the caret or the selection is afterwards. */
module TextEdits {
  import opened Options
  import opened Utf8
  import opened Splice
  import opened Utf16
  import opened Utf16Meaning
  import opened UndoHistory
  import opened TextField
  import UndoRuns

  /** A byte range as an input method names it: in UTF-16 units. */
  function Named16(s: Bytes, r: Range): Range
    requires r.start <= r.end <= |s|
  {
    Range(Length16(s[..r.start]), Length16(s[..r.end]))
  }

  lemma NamedInOrder(s: Bytes, r: Range)
    requires Valid(s) && Sliceable(s, r)
    ensures Named16(s, r).start <= Named16(s, r).end
  {
    hide Valid, Length16;
    NothingIsValid();
    SpliceValid(s, r.start, r.end, []);
    LengthConcat(s[..r.start], s[r.start..r.end]);
    assert s[..r.start] + s[r.start..r.end] == s[..r.end];
  }

  lemma NamedIsFound(s: Bytes, r: Range)
    requires Valid(s) && Sliceable(s, r)
    ensures RangeFromUtf16(s, Named16(s, r)) == r
  {
    hide Valid, Length16, FromUtf16, ToUtf16;
    ToUtf16IsLength(s, r.start);
    ToUtf16IsLength(s, r.end);
    FromUtf16OfToUtf16(s, r.start);
    FromUtf16OfToUtf16(s, r.end);
  }

  predicate Editable(f: Field) {
    f.marked.None? && !f.readOnly
  }

  /** The text with a range replaced. */
  function Put(s: Bytes, over: Range, t: Bytes): Bytes
    requires over.start <= over.end <= |s|
  {
    s[..over.start] + t + s[over.end..]
  }

  function At(i: nat): Range {
    Range(i, i)
  }

  // ----- committing text -----

  /** The range is the selection when none is given, and otherwise the one named. */
  predicate Chosen(f: Field, r16: Option<Range>, over: Range) {
    Sliceable(f.text, over) && (match r16 case None => over == f.selection case Some(r) => r == Named16(f.text, over))
  }

  /** Text goes where the range is, the caret after it, and the history is told of the splice
      with the selection that was shown. */
  lemma ReplaceShows(f: Field, r16: Option<Range>, over: Range, t: Bytes, now: nat)
    requires FieldOk(f) && Editable(f) && Valid(t) && Chosen(f, r16, over)
    ensures Supplied(f, ReplaceText(r16, t, now))
    ensures var r := FieldStep(f, ReplaceText(r16, t, now));
      && FieldOk(r) && Editable(r) && r.reversed == f.reversed
      && r.text == Put(f.text, over, t) && r.selection == At(over.start + |t|)
    ensures var r := FieldStep(f, ReplaceText(r16, t, now));
      var op := UndoRuns.Record(over, t, f.selection, f.reversed, now);
      UndoRuns.Enabled(UndoRuns.State(f.h, f.text), op)
      && UndoRuns.State(r.h, r.text) == UndoRuns.Step(UndoRuns.State(f.h, f.text), op)
  {
    hide Valid, Consistent, Recorded, Length16, IsBoundary, FromUtf16;
    if r16.Some? {
      NamedInOrder(f.text, over);
      NamedIsFound(f.text, over);
    }
    FieldStepOk(f, ReplaceText(r16, t, now));
  }

  /** Under a mark, whatever range is given, the text replaces the marked text and the mark is
      gone. */
  lemma CommitShows(f: Field, r16: Option<Range>, t: Bytes, now: nat)
    requires FieldOk(f) && f.marked.Some? && !f.readOnly && Valid(t) && Ordered(r16)
    ensures var r, m := FieldStep(f, ReplaceText(r16, t, now)), f.marked.value;
      && FieldOk(r) && Editable(r) && r.reversed == f.reversed
      && r.text == Put(f.text, m, t) && r.selection == At(m.start + |t|)
  {
    hide Valid, Consistent, RecordedComposition, IsBoundary, Finalized;
    FieldStepOk(f, ReplaceText(r16, t, now));
  }

  // ----- marking text -----

  /** Where marked text goes: with nothing marked as above, and under a mark in the marked text,
      whose units a given range counts. */
  ghost predicate MarkChosen(f: Field, r16: Option<Range>, over: Range) {
    match f.marked
    case None => Chosen(f, r16, over)
    case Some(m) =>
      && m.start <= m.end <= |f.text|
      && match r16
         case None => over == m
         case Some(r) =>
           var piece := f.text[m.start..m.end];
           && m.start <= over.start <= over.end <= m.end
           && Sliceable(piece, Range(over.start - m.start, over.end - m.start))
           && r == Named16(piece, Range(over.start - m.start, over.end - m.start))
  }

  /** The parts of a text around a range. */
  lemma PartsAround(s: Bytes, m: Range)
    requires Valid(s) && Sliceable(s, m)
    ensures Valid(s[..m.start]) && Valid(s[m.start..m.end]) && Valid(s[m.end..])
    ensures s == s[..m.start] + s[m.start..m.end] + s[m.end..]
  {
    hide Valid;
    NothingIsValid();
    SpliceValid(s, m.start, m.end, []);
  }

  /** A range named in the units of a piece of the text falls where the piece has it. */
  lemma NamedInPiece(s: Bytes, m: Range, i: nat, j: nat)
    requires Valid(s) && Sliceable(s, m) && m.start + j <= m.end && Sliceable(s[m.start..m.end], Range(i, j))
    ensures RangeFromRelativeUtf16(s, m.start, Named16(s[m.start..m.end], Range(i, j)))
         == Range(m.start + i, m.start + j)
  {
    hide Valid, Length16, FromUtf16, ToUtf16, IsBoundary;
    PartsAround(s, m);
    var a, b, c := s[..m.start], s[m.start..m.end], s[m.end..];
    OffsetInside(a, b, c, i);
    OffsetInside(a, b, c, j);
  }

  lemma MarkRangeIs(f: Field, r16: Option<Range>, over: Range)
    requires Sane(f) && MarkChosen(f, r16, over)
    ensures Ordered(r16) && MarkRange(f, r16) == over && Sliceable(f.text, over)
  {
    hide Valid, Length16, FromUtf16, ToUtf16, IsBoundary, RangeFromRelativeUtf16;
    if f.marked.Some? {
      var m := f.marked.value;
      if r16.Some? {
        var piece := f.text[m.start..m.end];
        PartsAround(f.text, m);
        NamedInOrder(piece, Range(over.start - m.start, over.end - m.start));
        NamedInPiece(f.text, m, over.start - m.start, over.end - m.start);
        MarkRangeSliceable(f, r16);
      }
    } else if r16.Some? {
      NamedInOrder(f.text, over);
      NamedIsFound(f.text, over);
    }
  }

  lemma TextMarkedIs(f: Field, r16: Option<Range>, over: Range, t: Bytes, sel16: Option<Range>, now: nat)
    requires Sane(f) && !f.readOnly && Valid(t) && Ordered(r16) && Ordered(sel16)
    requires MarkRange(f, r16) == over && Sliceable(f.text, over) && Valid(Put(f.text, over, t))
    ensures var r := TextMarked(f, r16, t, sel16, now);
      && r.text == Put(f.text, over, t) && r.reversed == f.reversed && !r.readOnly
      && r.marked == (if t == [] then None else Some(Range(over.start, over.start + |t|)))
      && r.selection == (match sel16
                         case None => At(over.start + |t|)
                         case Some(s) => RangeFromRelativeUtf16(Put(f.text, over, t), over.start, s))
  {
    hide Valid, RecordedComposition, IsBoundary, RangeFromRelativeUtf16, Finalized, MarkRange;
  }

  lemma MarkedIs(f: Field, r16: Option<Range>, over: Range, t: Bytes, sel16: Option<Range>, now: nat)
    requires FieldOk(f) && !f.readOnly && Valid(t) && MarkChosen(f, r16, over) && Ordered(sel16)
    ensures over.start <= over.end <= |f.text| && Valid(Put(f.text, over, t)) && Ordered(r16)
    ensures var r := FieldStep(f, ReplaceAndMark(r16, t, sel16, now));
      && r.text == Put(f.text, over, t) && r.reversed == f.reversed && !r.readOnly
      && r.marked == (if t == [] then None else Some(Range(over.start, over.start + |t|)))
      && r.selection == (match sel16
                         case None => At(over.start + |t|)
                         case Some(s) => RangeFromRelativeUtf16(Put(f.text, over, t), over.start, s))
  {
    hide Valid, Consistent, IsBoundary, RangeFromRelativeUtf16, MarkRange, MarkChosen, TextMarked;
    MarkRangeIs(f, r16, over);
    ApplyValid(f.text, over, t);
    TextMarkedIs(f, r16, over, t, sel16, now);
  }

  /** A selection named in the units of the new text falls where the new text has it. */
  lemma SelectedInside(s: Bytes, over: Range, t: Bytes, inside: Range)
    requires Valid(s) && Valid(t) && Sliceable(s, over) && Sliceable(t, inside)
    ensures Valid(Put(s, over, t))
    ensures RangeFromRelativeUtf16(Put(s, over, t), over.start, Named16(t, inside))
         == Range(over.start + inside.start, over.start + inside.end)
  {
    hide Valid, Length16, IsBoundary, RangeFromRelativeUtf16;
    ApplyValid(s, over, t);
    NewTextSliceable(s, over, t);
    assert Put(s, over, t)[over.start..over.start + |t|] == t;
    NamedInPiece(Put(s, over, t), Range(over.start, over.start + |t|), inside.start, inside.end);
  }

  /** The new text is marked, and a selection is counted in its units; without one the caret
      goes after it. */
  lemma MarkShows(f: Field, r16: Option<Range>, over: Range, t: Bytes, inside: Option<Range>, now: nat)
    requires FieldOk(f) && !f.readOnly && Valid(t) && MarkChosen(f, r16, over)
    requires inside.Some? ==> Sliceable(t, inside.value)
    ensures var sel16 := match inside case None => None case Some(r) => Some(Named16(t, r));
      var op := ReplaceAndMark(r16, t, sel16, now);
      && Supplied(f, op)
      && var r := FieldStep(f, op);
         && FieldOk(r) && over.start <= over.end <= |f.text| && r.text == Put(f.text, over, t)
         && r.reversed == f.reversed && !r.readOnly
         && r.marked == (if t == [] then None else Some(Range(over.start, over.start + |t|)))
         && r.selection == (match inside
                            case None => At(over.start + |t|)
                            case Some(r) => Range(over.start + r.start, over.start + r.end))
  {
    hide Valid, Consistent, Named16, IsBoundary, RangeFromRelativeUtf16, FieldStep, MarkChosen, Put;
    var sel16 := match inside case None => None case Some(r) => Some(Named16(t, r));
    MarkRangeIs(f, r16, over);
    if inside.Some? {
      NamedInOrder(t, inside.value);
      SelectedInside(f.text, over, t, inside.value);
    }
    MarkedIs(f, r16, over, t, sel16, now);
    FieldStepOk(f, ReplaceAndMark(r16, t, sel16, now));
  }

  /** A range that counts beyond the marked text is clipped to it. */
  lemma MarkIsClipped(f: Field, r: Range)
    requires Sane(f) && f.marked.Some? && r.start <= r.end
    requires var m := f.marked.value; Length16(f.text[m.start..m.end]) <= r.start
    ensures MarkRange(f, Some(r)) == At(f.marked.value.end)
  {
    hide Valid, Length16, IsBoundary, FromUtf16, ToUtf16;
    var m := f.marked.value;
    PartsAround(f.text, m);
    var a, b, c := f.text[..m.start], f.text[m.start..m.end], f.text[m.end..];
    assert IsBoundary(b, |b|) by { EndIsBoundary(b); }
    OffsetInside(a, b, c, |b|);
    assert b[..|b|] == b;
    var u := ToUtf16(f.text, m.start);
    FromUtf16Monotone(f.text, u + Length16(b), u + r.start);
    FromUtf16Monotone(f.text, u + r.start, u + r.end);
  }

  lemma EndIsBoundary(s: Bytes)
    ensures IsBoundary(s, |s|)
  {
  }

  // ----- the other edits -----

  /** `replace_range` clamps its range to the text and does nothing off the boundaries. */
  lemma ReplaceRangeShows(f: Field, range: Range, t: Bytes, now: nat)
    requires FieldOk(f) && !f.readOnly && Valid(t)
    ensures var r := FieldStep(f, ReplaceRange(range, t, now));
      var i := if range.start < |f.text| then range.start else |f.text|;
      var j := if range.end < |f.text| then range.end else |f.text|;
      if i <= j && IsBoundary(f.text, i) && IsBoundary(f.text, j) then
        && r.text == f.text[..i] + t + f.text[j..] && r.selection == At(i + |t|)
        && !r.reversed && r.marked.None? && !r.readOnly
      else r == f
  {
    hide Consistent, IsBoundary, RangeReplaced, Clipped, Put;
    RangeReplacedIs(f, range, t, now);
    ClippedIs(f, range);
    var c := Clipped(f, range);
    if c.start <= c.end { PutIs(f.text, c, t); }
  }

  lemma ClippedIs(f: Field, range: Range)
    ensures var c := Clipped(f, range);
      && c.start == (if range.start < |f.text| then range.start else |f.text|)
      && c.end == (if range.end < |f.text| then range.end else |f.text|)
  {
  }

  lemma PutIs(s: Bytes, over: Range, t: Bytes)
    requires over.start <= over.end <= |s|
    ensures Put(s, over, t) == s[..over.start] + t + s[over.end..]
  {
  }

  lemma RangeReplacedIs(f: Field, range: Range, t: Bytes, now: nat)
    requires !f.readOnly
    ensures var r, c := RangeReplaced(f, range, t, now), Clipped(f, range);
      && c.start <= |f.text| && c.end <= |f.text|
      && (if Sliceable(f.text, c) then
            && r.text == Put(f.text, c, t) && r.selection == At(c.start + |t|)
            && !r.reversed && r.marked.None? && !r.readOnly
          else r == f)
  {
    hide Recorded, Sealed, IsBoundary;
  }

  /** Content that is set or cleared is shown with the caret at its end; a change forgets every
      step. */
  lemma ContentShows(f: Field, op: FieldOp)
    requires FieldOk(f) && (op == Clear || (op.SetContent? && Valid(op.newText)))
    ensures var r := FieldStep(f, op); var t := if op == Clear then [] else op.newText;
      && r.text == t && r.selection == At(|t|) && !r.reversed && r.marked.None? && r.readOnly == f.readOnly
      && r.h == (if t == f.text then f.h else History([], []))
  {
    hide Valid, Consistent;
  }

  lemma SealedAroundIs(f: Field, t: Bytes, now: nat)
    requires FieldOk(f) && Editable(f) && Valid(t)
    ensures var r := SealedAround(f, t, now);
      && FieldOk(r) && Editable(r) && r.reversed == f.reversed
      && r.text == Put(f.text, f.selection, t) && r.selection == At(f.selection.start + |t|)
      && (r.h.undo == [] || Last(r.h.undo).sealed)
  {
    hide Valid, Consistent, Recorded, IsBoundary;
    SealedAroundOk(f, t, now);
    SealedEnds(f.h);
    SealedEnds(TextReplaced(f.(h := Sealed(f.h)), None, t, now).h);
  }

  lemma SealedEnds(h: History)
    ensures Sealed(h).undo == [] || Last(Sealed(h).undo).sealed
  {
  }

  /** Cut takes the selection away, and pasting it at the caret brings it back. */
  lemma CutThenPaste(f: Field, now: nat, later: nat)
    requires FieldOk(f) && Editable(f) && f.selection.start < f.selection.end
    ensures var taken := f.text[f.selection.start..f.selection.end];
      var g := FieldStep(f, Cut(now));
      && Valid(taken) && FieldOk(g) && Editable(g)
      && g.text == f.text[..f.selection.start] + f.text[f.selection.end..] && g.selection == At(f.selection.start)
      && FieldStep(g, Paste(taken, later)).text == f.text
      && FieldStep(g, Paste(taken, later)).selection == At(f.selection.end)
  {
    hide Valid, Consistent, SealedAround, IsBoundary;
    PartsAround(f.text, f.selection);
    NothingIsValid();
    var i, j := f.selection.start, f.selection.end;
    var taken := f.text[i..j];
    SealedAroundIs(f, [], now);
    var g := SealedAround(f, [], now);
    PutNothing(f.text, f.selection);
    SealedAroundIs(g, taken, later);
    PutBack(f.text, i, j);
  }

  lemma PutNothing(s: Bytes, r: Range)
    requires r.start <= r.end <= |s|
    ensures Put(s, r, []) == s[..r.start] + s[r.end..]
  {
  }

  lemma PutBack(s: Bytes, i: nat, j: nat)
    requires i <= j <= |s|
    ensures Put(s[..i] + s[j..], At(i), s[i..j]) == s
  {
  }

  /** Calls that edit: all but setting or clearing the content, selecting and the like. */
  predicate Edits(op: FieldOp) {
    op.ReplaceText? || op.ReplaceAndMark? || op.ReplaceRange? || op.Cut? || op.Paste? || op.Undo? || op.Redo?
  }

  /** A read-only field shows the same through all of them; and undo and redo do nothing while
      text is marked. */
  lemma ReadOnlyShowsTheSame(f: Field, op: FieldOp)
    requires Sane(f) && Supplied(f, op)
    ensures f.readOnly && Edits(op) ==> FieldStep(f, op).(h := f.h) == f
    ensures (f.readOnly || f.marked.Some?) && (op.Undo? || op.Redo?) ==> FieldStep(f, op) == f
  {
    hide Valid, Sealed, Undone, Redone;
  }
}
