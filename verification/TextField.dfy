/** The text field around the history (`TextInput` in `src/input.rs`): its splices,
    the two input-method entry points, and what interrupts a composition. */
module TextField {
  import opened Options
  import opened Utf8
  import opened Splice
  import opened Utf16
  import opened UndoHistory

  datatype Field = Field(
    text: Bytes, selection: Range, reversed: bool, marked: Option<Range>, readOnly: bool, h: History)

  /** The field can be edited: its ranges slice its text, and marked text is never empty. */
  predicate Sane(f: Field) {
    Valid(f.text) && Sliceable(f.text, f.selection)
    && (f.marked.Some? ==> Sliceable(f.text, f.marked.value) && f.marked.value.start < f.marked.value.end)
  }

  function ClampTo(x: nat, r: Range): nat {
    if x < r.start then r.start else if x > r.end then r.end else x
  }

  /** Record a splice in the history, then apply it; composing splices amend the open step. */
  function Edited(f: Field, range: Range, newText: Bytes, composing: bool, now: nat): Field
    requires range.start <= range.end <= |f.text|
  {
    f.(text := Apply(f.text, range, newText),
       h := if composing then RecordedComposition(f.h, f.text, range, newText, f.selection, f.reversed, now)
            else Recorded(f.h, f.text, range, newText, f.selection, f.reversed, now))
  }

  function CaretAfter(range: Range, newText: Bytes): Range {
    Range(range.start + |newText|, range.start + |newText|)
  }

  predicate Ordered(r: Option<Range>) {
    r.Some? ==> r.value.start <= r.value.end
  }

  /** Where `replace_text_in_range` splices: the marked text while there is any. */
  function CommitRange(f: Field, rangeUtf16: Option<Range>): Range
    requires Sane(f)
  {
    match f.marked
    case Some(marked) => marked
    case None =>
      match rangeUtf16
      case Some(r) => RangeFromUtf16(f.text, r)
      case None => f.selection
  }

  /** Where `replace_and_mark_text_in_range` splices: relative to the marked text and
      clipped to it, absolute only when nothing is marked. */
  function MarkRange(f: Field, rangeUtf16: Option<Range>): Range
    requires Sane(f)
  {
    match (rangeUtf16, f.marked)
    case (Some(r), Some(marked)) =>
      var absolute := RangeFromRelativeUtf16(f.text, marked.start, r);
      Range(ClampTo(absolute.start, marked), ClampTo(absolute.end, marked))
    case (Some(r), None) => RangeFromUtf16(f.text, r)
    case (None, Some(marked)) => marked
    case (None, None) => f.selection
  }

  lemma CommitRangeSliceable(f: Field, rangeUtf16: Option<Range>)
    requires Sane(f) && Ordered(rangeUtf16)
    ensures Sliceable(f.text, CommitRange(f, rangeUtf16))
  {
    if f.marked.None? && rangeUtf16.Some? { RangeFromUtf16Sliceable(f.text, rangeUtf16.value); }
  }

  /** After conversion every composing splice falls on character boundaries inside the
      marked text. */
  lemma MarkRangeSliceable(f: Field, rangeUtf16: Option<Range>)
    requires Sane(f) && Ordered(rangeUtf16)
    ensures Sliceable(f.text, MarkRange(f, rangeUtf16))
    ensures f.marked.Some? ==>
      f.marked.value.start <= MarkRange(f, rangeUtf16).start && MarkRange(f, rangeUtf16).end <= f.marked.value.end
  {
    hide Valid, FromUtf16, ToUtf16;
    if rangeUtf16.Some? && f.marked.Some? {
      RelativeStartsAtBase(f.text, f.marked.value.start, rangeUtf16.value);
    } else if rangeUtf16.Some? {
      RangeFromUtf16Sliceable(f.text, rangeUtf16.value);
    }
  }

  datatype FieldOp =
    | ReplaceText(rangeUtf16: Option<Range>, newText: Bytes, now: nat)
    | ReplaceAndMark(rangeUtf16: Option<Range>, newText: Bytes, newSelection: Option<Range>, now: nat)
    | Unmark
    | Undo
    | Redo
    | ReplaceRange(range: Range, newText: Bytes, now: nat)
    | SetContent(newText: Bytes)
    | Clear
    | Cut(now: nat)
    | Paste(newText: Bytes, now: nat)
    | Focus
    | Select(selection: Range, reversed: bool)
    | SetReadOnly(flag: bool)

  /** What the callers supply: UTF-8 text, ordered ranges, selections on boundaries. */
  ghost predicate Supplied(f: Field, op: FieldOp) {
    match op
    case ReplaceText(r, t, _) => Ordered(r) && Valid(t)
    case ReplaceAndMark(r, t, sel, _) => Ordered(r) && Valid(t) && Ordered(sel)
    case ReplaceRange(_, t, _) => Valid(t)
    case SetContent(t) => Valid(t)
    case Paste(t, _) => Valid(t)
    case Select(sel, _) => Sliceable(f.text, sel)
    case _ => true
  }

  function TextReplaced(f: Field, rangeUtf16: Option<Range>, newText: Bytes, now: nat): Field
    requires Sane(f) && Ordered(rangeUtf16)
  {
    if f.readOnly then f
    else
      CommitRangeSliceable(f, rangeUtf16);
      var range := CommitRange(f, rangeUtf16);
      var e := Edited(f, range, newText, f.marked.Some?, now);
      e.(selection := CaretAfter(range, newText), marked := None,
         h := if f.marked.Some? then Finalized(e.h) else e.h)
  }

  function TextMarked(f: Field, rangeUtf16: Option<Range>, newText: Bytes, newSelection: Option<Range>, now: nat): Field
    requires Sane(f) && Ordered(rangeUtf16) && Valid(newText)
  {
    if f.readOnly then f
    else
      MarkRangeSliceable(f, rangeUtf16);
      var range := MarkRange(f, rangeUtf16);
      var e := Edited(f, range, newText, true, now);
      ApplyValid(f.text, range, newText);
      e.(marked := if newText == [] then None else Some(Range(range.start, range.start + |newText|)),
         h := if newText == [] then Finalized(e.h) else e.h,
         selection := match newSelection
                      case Some(r) => RangeFromRelativeUtf16(e.text, range.start, r)
                      case None => CaretAfter(range, newText))
  }

  function HistoryApplied(f: Field, outcome: (History, Option<Restored>)): Field {
    match outcome.1
    case None => f.(h := outcome.0)
    case Some(r) => f.(text := r.text, selection := r.selection, reversed := r.reversed, marked := None, h := outcome.0)
  }

  /** `replace_range` clamps to the text and gives up on anything it cannot slice. */
  function Clipped(f: Field, range: Range): Range {
    Clamp(range, |f.text|)
  }

  function RangeReplaced(f: Field, range: Range, newText: Bytes, now: nat): Field {
    var r := Clipped(f, range);
    if f.readOnly || !Sliceable(f.text, r) then f
    else
      var e := Edited(f.(h := Sealed(f.h)), r, newText, false, now);
      e.(selection := CaretAfter(r, newText), reversed := false, marked := None, h := Sealed(e.h))
  }

  function ContentSet(f: Field, newText: Bytes): Field {
    f.(text := newText, selection := Range(|newText|, |newText|), reversed := false, marked := None,
       h := if newText != f.text then History([], []) else f.h)
  }

  function Cleared(f: Field): Field {
    f.(text := [], selection := Range(0, 0), reversed := false, marked := None,
       h := if f.text != [] then History([], []) else f.h)
  }

  /** Cut and paste: the splice stands alone between two seals. */
  function SealedAround(f: Field, newText: Bytes, now: nat): Field
    requires Sane(f)
  {
    var e := TextReplaced(f.(h := Sealed(f.h)), None, newText, now);
    e.(h := Sealed(e.h))
  }

  ghost function FieldStep(f: Field, op: FieldOp): Field
    requires Sane(f) && Supplied(f, op)
  {
    match op
    case ReplaceText(r, t, now) => TextReplaced(f, r, t, now)
    case ReplaceAndMark(r, t, sel, now) => TextMarked(f, r, t, sel, now)
    case Unmark => f.(marked := None, h := Finalized(f.h))
    case Undo => if f.readOnly || f.marked.Some? then f else HistoryApplied(f, Undone(f.h, f.text))
    case Redo => if f.readOnly || f.marked.Some? then f else HistoryApplied(f, Redone(f.h, f.text))
    case ReplaceRange(r, t, now) => RangeReplaced(f, r, t, now)
    case SetContent(t) => ContentSet(f, t)
    case Clear => Cleared(f)
    case Cut(now) => if f.selection.start == f.selection.end then f else SealedAround(f, [], now)
    case Paste(t, now) => SealedAround(f, t, now)
    case Focus => f.(h := Sealed(f.h))
    case Select(sel, rev) => f.(selection := sel, reversed := rev)
    case SetReadOnly(flag) => f.(readOnly := flag)
  }

  // ----- what every operation keeps -----

  ghost predicate FieldOk(f: Field) {
    Sane(f) && Consistent(f.h, f.text)
  }

  /** A splice leaves a consistent field whose caret can go after the new text. */
  lemma EditedOk(f: Field, range: Range, newText: Bytes, composing: bool, now: nat)
    requires FieldOk(f) && Valid(newText) && Sliceable(f.text, range)
    ensures var e := Edited(f, range, newText, composing, now);
      && Valid(e.text) && Consistent(e.h, e.text)
      && Sliceable(e.text, CaretAfter(range, newText))
      && Sliceable(e.text, Range(range.start, range.start + |newText|))
  {
    hide Valid, Consistent, Apply, Recorded, RecordedComposition, IsBoundary;
    if composing {
      CompositionStep(f.h, f.text, range, newText, f.selection, f.reversed, now);
    } else {
      RecordStep(f.h, f.text, range, newText, f.selection, f.reversed, now);
    }
    ApplyValid(f.text, range, newText);
    NewTextSliceable(f.text, range, newText);
  }

  lemma NewTextSliceable(s: Bytes, range: Range, t: Bytes)
    requires Valid(s) && Valid(t) && Sliceable(s, range)
    ensures Sliceable(Apply(s, range, t), Range(range.start, range.start + |t|))
  {
    hide Valid;
    SpliceValid(s, range.start, range.end, t);
    SeamsAreBoundaries(s[..range.start], t, s[range.end..]);
  }

  lemma NewHistoryOk(text: Bytes)
    requires Valid(text)
    ensures Consistent(History([], []), text)
  {
  }

  lemma TextReplacedOk(f: Field, r: Option<Range>, t: Bytes, now: nat)
    requires FieldOk(f) && Ordered(r) && Valid(t)
    ensures FieldOk(TextReplaced(f, r, t, now))
  {
    hide Valid, Consistent, Edited, CommitRange, Finalized, IsBoundary;
    if !f.readOnly {
      CommitRangeSliceable(f, r);
      var range := CommitRange(f, r);
      EditedOk(f, range, t, f.marked.Some?, now);
      var e := Edited(f, range, t, f.marked.Some?, now);
      FinalizeStep(e.h, e.text);
    }
  }

  lemma TextMarkedOk(f: Field, r: Option<Range>, t: Bytes, sel: Option<Range>, now: nat)
    requires FieldOk(f) && Ordered(r) && Valid(t) && Ordered(sel)
    ensures FieldOk(TextMarked(f, r, t, sel, now))
  {
    hide Valid, Consistent, MarkRange, Finalized, Recorded, RecordedComposition, Apply, RangeFromRelativeUtf16;
    if !f.readOnly {
      MarkRangeSliceable(f, r);
      var range := MarkRange(f, r);
      EditedOk(f, range, t, true, now);
      var e := Edited(f, range, t, true, now);
      FinalizeStep(e.h, e.text);
      if sel.Some? { RelativeStartsAtBase(e.text, range.start, sel.value); }
    }
  }

  lemma RangeReplacedOk(f: Field, r: Range, t: Bytes, now: nat)
    requires FieldOk(f) && Valid(t)
    ensures FieldOk(RangeReplaced(f, r, t, now))
  {
    hide Valid, Consistent, Edited, IsBoundary, Sealed;
    SealStep(f.h, f.text);
    var c, f' := Clipped(f, r), f.(h := Sealed(f.h));
    if !f.readOnly && Sliceable(f.text, c) {
      EditedOk(f', c, t, false, now);
      var e := Edited(f', c, t, false, now);
      SealStep(e.h, e.text);
    }
  }

  lemma SealedAroundOk(f: Field, t: Bytes, now: nat)
    requires FieldOk(f) && Valid(t)
    ensures FieldOk(SealedAround(f, t, now))
  {
    hide Valid, Consistent, TextReplaced, IsBoundary, Sealed;
    SealStep(f.h, f.text);
    var f' := f.(h := Sealed(f.h));
    TextReplacedOk(f', None, t, now);
    var e := TextReplaced(f', None, t, now);
    SealStep(e.h, e.text);
  }

  lemma HistoryAppliedOk(f: Field)
    requires FieldOk(f) && f.marked.None?
    ensures FieldOk(HistoryApplied(f, Undone(f.h, f.text)))
    ensures FieldOk(HistoryApplied(f, Redone(f.h, f.text)))
  {
    hide Valid, IsBoundary, UndoFits, RedoFits, Apply, Holds;
    if f.h.undo != [] { UndoStep(f.h, f.text); }
    if f.h.redo != [] { RedoStep(f.h, f.text); }
  }

  /** Every operation, the interrupting ones included, keeps the field's ranges on
      character boundaries of its text and the history describing that text. */
  lemma FieldStepOk(f: Field, op: FieldOp)
    requires FieldOk(f) && Supplied(f, op)
    ensures FieldOk(FieldStep(f, op))
  {
    hide Valid, Consistent, IsBoundary, TextReplaced, TextMarked, RangeReplaced;
    hide SealedAround, HistoryApplied, Finalized, Sealed;
    match op
    case ReplaceText(r, t, now) => TextReplacedOk(f, r, t, now);
    case ReplaceAndMark(r, t, sel, now) => TextMarkedOk(f, r, t, sel, now);
    case Unmark => FinalizeStep(f.h, f.text);
    case Undo => if f.marked.None? { HistoryAppliedOk(f); }
    case Redo => if f.marked.None? { HistoryAppliedOk(f); }
    case ReplaceRange(r, t, now) => RangeReplacedOk(f, r, t, now);
    case SetContent(t) => NewHistoryOk(t); EndsAreBoundaries(t);
    case Clear => NewHistoryOk([]); EndsAreBoundaries([]);
    case Cut(now) => NothingIsValid(); SealedAroundOk(f, [], now);
    case Paste(t, now) => SealedAroundOk(f, t, now);
    case Focus => SealStep(f.h, f.text);
    case Select(sel, rev) =>
    case SetReadOnly(flag) =>
  }

  lemma EndsAreBoundaries(t: Bytes)
    ensures Sliceable(t, Range(|t|, |t|))
  {
  }

  ghost predicate FieldRunnable(f: Field, ops: seq<FieldOp>)
    decreases |ops|
  {
    ops == [] || (Sane(f) && Supplied(f, ops[0]) && FieldRunnable(FieldStep(f, ops[0]), ops[1..]))
  }

  ghost function FieldRun(f: Field, ops: seq<FieldOp>): Field
    requires FieldRunnable(f, ops)
    decreases |ops|
  {
    if ops == [] then f else FieldRun(FieldStep(f, ops[0]), ops[1..])
  }

  lemma {:induction false} FieldRunOk(f: Field, ops: seq<FieldOp>)
    requires FieldOk(f) && FieldRunnable(f, ops)
    ensures FieldOk(FieldRun(f, ops))
    decreases |ops|
  {
    hide FieldOk, Sane, Supplied, FieldStep;
    if ops != [] {
      FieldStepOk(f, ops[0]);
      FieldRunOk(FieldStep(f, ops[0]), ops[1..]);
    }
  }

  // ----- a composition is one step -----

  ghost predicate NoneComposing(s: seq<EditRecord>) {
    forall i :: 0 <= i < |s| ==> !s[i].composing
  }

  /** The open record covers the marked text, and there is one exactly while text is marked. */
  ghost predicate Settled(f: Field) {
    && NoneComposing(f.h.redo)
    && (f.marked.None? ==> NoneComposing(f.h.undo))
    && (f.marked.Some? ==>
          f.h.undo != [] && NoneComposing(DropLast(f.h.undo)) && InsideComposition(f.h, f.marked.value))
  }

  /** A splice that clears the mark without closing the open record. */
  predicate Interrupts(f: Field, op: FieldOp) {
    f.marked.Some? &&
    match op
    case ReplaceRange(r, _, _) => !f.readOnly && Sliceable(f.text, Clipped(f, r))
    case SetContent(t) => t == f.text
    case _ => false
  }

  lemma RecordedPlain(h: History, text: Bytes, range: Range, t: Bytes, sel: Range, rev: bool, now: nat)
    requires range.start <= range.end <= |text| && NoneComposing(h.undo) && NoneComposing(h.redo)
    ensures var h' := Recorded(h, text, range, t, sel, rev, now); NoneComposing(h'.undo) && NoneComposing(h'.redo)
  {
    hide Trim;
  }

  lemma FinalizedPlain(h: History)
    requires NoneComposing(h.redo) && (h.undo != [] ==> NoneComposing(DropLast(h.undo)))
    ensures NoneComposing(Finalized(h).undo) && Finalized(h).redo == h.redo
  {
  }

  /** A splice inside the open record only rewrites that record. */
  lemma AmendedShape(h: History, text: Bytes, range: Range, t: Bytes, sel: Range, rev: bool, now: nat)
    requires range.start <= range.end <= |text| && InsideComposition(h, range)
    ensures var h' := RecordedComposition(h, text, range, t, sel, rev, now);
      && h'.redo == [] && h'.undo != [] && DropLast(h'.undo) == DropLast(h.undo)
      && InsideComposition(h', Range(range.start, range.start + |t|))
      && Last(h'.undo).selection == Last(h.undo).selection && Last(h'.undo).reversed == Last(h.undo).reversed
  {
  }

  /** The steps that survive when one more is pushed. */
  function Kept(undo: seq<EditRecord>): seq<EditRecord> {
    if |undo| >= UNDO_HISTORY_CAP then undo[|undo| + 1 - UNDO_HISTORY_CAP..] else undo
  }

  lemma StartedShape(h: History, text: Bytes, range: Range, t: Bytes, sel: Range, rev: bool, now: nat)
    requires range.start <= range.end <= |text| && NoneComposing(h.undo)
    ensures var h' := RecordedComposition(h, text, range, t, sel, rev, now);
      && h'.redo == [] && h'.undo != [] && DropLast(h'.undo) == Kept(h.undo)
      && InsideComposition(h', Range(range.start, range.start + |t|))
      && Last(h'.undo).selection == sel && Last(h'.undo).reversed == rev
  {
    assert Closed(h.undo) == h.undo;
  }

  lemma MarkedSettled(f: Field, r: Option<Range>, t: Bytes, sel: Option<Range>, now: nat)
    requires FieldOk(f) && Ordered(r) && Valid(t) && Settled(f)
    ensures Settled(TextMarked(f, r, t, sel, now))
  {
    hide Valid, Consistent, MarkRange, RecordedComposition, Apply, RangeFromRelativeUtf16, Finalized;
    if !f.readOnly {
      MarkRangeSliceable(f, r);
      ApplyValid(f.text, MarkRange(f, r), t);
      var range := MarkRange(f, r);
      if f.marked.Some? {
        AmendedShape(f.h, f.text, range, t, f.selection, f.reversed, now);
      } else {
        StartedShape(f.h, f.text, range, t, f.selection, f.reversed, now);
      }
      FinalizedPlain(Edited(f, range, t, true, now).h);
    }
  }

  lemma ReplacedSettled(f: Field, r: Option<Range>, t: Bytes, now: nat)
    requires FieldOk(f) && Ordered(r) && Valid(t) && Settled(f)
    ensures Settled(TextReplaced(f, r, t, now))
  {
    hide Valid, Consistent, CommitRange, RecordedComposition, Recorded, Apply, Finalized;
    if !f.readOnly {
      CommitRangeSliceable(f, r);
      var range := CommitRange(f, r);
      if f.marked.Some? {
        assert range == f.marked.value by { CommitsTheMark(f, r); }
        AmendedShape(f.h, f.text, range, t, f.selection, f.reversed, now);
        FinalizedPlain(Edited(f, range, t, true, now).h);
      } else {
        RecordedPlain(f.h, f.text, range, t, f.selection, f.reversed, now);
      }
    }
  }

  lemma CommitsTheMark(f: Field, r: Option<Range>)
    requires Sane(f) && f.marked.Some?
    ensures CommitRange(f, r) == f.marked.value
  {
  }

  lemma SealedSettled(f: Field)
    requires Settled(f)
    ensures Settled(f.(h := Sealed(f.h)))
  {
    if f.h.undo != [] {
      assert DropLast(Sealed(f.h).undo) == DropLast(f.h.undo);
    }
  }

  lemma SealedAroundSettled(f: Field, t: Bytes, now: nat)
    requires FieldOk(f) && Valid(t) && Settled(f)
    ensures Settled(SealedAround(f, t, now))
  {
    hide Valid, Consistent, TextReplaced, IsBoundary, Sealed, Settled;
    SealStep(f.h, f.text);
    SealedSettled(f);
    var f' := f.(h := Sealed(f.h));
    ReplacedSettled(f', None, t, now);
    SealedSettled(TextReplaced(f', None, t, now));
  }

  lemma UndoneSettled(f: Field)
    requires FieldOk(f) && Settled(f) && f.marked.None?
    ensures Settled(HistoryApplied(f, Undone(f.h, f.text)))
  {
    hide Consistent, View;
    if f.h.undo != [] { UndoStep(f.h, f.text); }
  }

  lemma RedoneSettled(f: Field)
    requires FieldOk(f) && Settled(f) && f.marked.None?
    ensures Settled(HistoryApplied(f, Redone(f.h, f.text)))
  {
    hide Consistent, View;
    if f.h.redo != [] { RedoStep(f.h, f.text); }
  }

  lemma RangeReplacedSettled(f: Field, r: Range, t: Bytes, now: nat)
    requires FieldOk(f) && Valid(t) && Settled(f)
    ensures Settled(RangeReplaced(f, r, t, now)) <==> !Interrupts(f, ReplaceRange(r, t, now))
  {
    hide Valid, Consistent, Trim, Apply, IsBoundary, Clipped, Coalesced;
    var c := Clipped(f, r);
    if !f.readOnly && Sliceable(f.text, c) {
      if f.marked.Some? {
        InterruptedByReplace(f.h, f.text, c, t, f.selection, f.reversed, now);
      } else {
        SealedSettled(f);
        RecordedPlain(Sealed(f.h), f.text, c, t, f.selection, f.reversed, now);
        SealedSettled(Edited(f.(h := Sealed(f.h)), c, t, false, now));
      }
    }
  }

  /** The open record stays open, at the top or right below the new step. */
  lemma InterruptedByReplace(h: History, text: Bytes, range: Range, t: Bytes, sel: Range, rev: bool, now: nat)
    requires range.start <= range.end <= |text| && h.undo != [] && Last(h.undo).composing
    ensures !NoneComposing(Sealed(Recorded(Sealed(h), text, range, t, sel, rev, now)).undo)
  {
    hide Trim;
    var g := Sealed(h);
    var h' := Recorded(g, text, range, t, sel, rev, now);
    var h'' := Sealed(h');
    if h' == g {
      assert h''.undo[|h''.undo| - 1].composing;
    } else {
      assert Coalesced(Last(g.undo), Trim(text, range, t), now).None?;
      var n := |h'.undo|;
      assert n >= 2 && h'.undo[n - 2] == Last(g.undo);
      assert h''.undo[n - 2].composing;
    }
  }

  /** Every operation keeps the open record and the marked text together, except exactly
      `replace_range` and an unchanged `set_content` under a mark. */
  lemma FieldStepSettledIff(f: Field, op: FieldOp)
    requires FieldOk(f) && Supplied(f, op) && Settled(f)
    ensures Settled(FieldStep(f, op)) <==> !Interrupts(f, op)
  {
    hide Valid, Consistent, IsBoundary, TextReplaced, TextMarked, RangeReplaced;
    hide SealedAround, HistoryApplied, Finalized, Sealed;
    match op
    case ReplaceText(r, t, now) => ReplacedSettled(f, r, t, now);
    case ReplaceAndMark(r, t, sel, now) => MarkedSettled(f, r, t, sel, now);
    case Unmark => FinalizedPlain(f.h);
    case Undo => if f.marked.None? { UndoneSettled(f); }
    case Redo => if f.marked.None? { RedoneSettled(f); }
    case ReplaceRange(r, t, now) => RangeReplacedSettled(f, r, t, now);
    case SetContent(t) => if f.marked.Some? { assert f.h.undo[|f.h.undo| - 1].composing; }
    case Clear => NonemptyWhileMarked(f);
    case Cut(now) => NothingIsValid(); SealedAroundSettled(f, [], now);
    case Paste(t, now) => SealedAroundSettled(f, t, now);
    case Focus => SealedSettled(f);
    case Select(sel, rev) =>
    case SetReadOnly(flag) =>
  }

  lemma NonemptyWhileMarked(f: Field)
    requires Sane(f)
    ensures f.marked.Some? ==> f.text != []
  {
  }

  /** The newest step is the one a composition opened over `base` on `text`. */
  ghost predicate OpenStep(h: History, current: Bytes, base: seq<EditRecord>, text: Bytes, sel: Range, rev: bool) {
    && h.undo != [] && DropLast(h.undo) == base && LeadsTo(Last(h.undo), current, text)
    && Last(h.undo).selection == sel && Last(h.undo).reversed == rev
  }

  /** A composition that began on `text` over the steps `base` is under way. */
  ghost predicate InSession(f: Field, base: seq<EditRecord>, text: Bytes, sel: Range, rev: bool) {
    FieldOk(f) && Settled(f) && f.marked.Some? && OpenStep(f.h, f.text, base, text, sel, rev)
  }

  lemma LastTextLedTo(h: History, text: Bytes)
    requires Consistent(h, text) && h.undo != []
    ensures LeadsTo(Last(h.undo), text, Last(View(h, text).past))
  {
    hide Valid, IsBoundary;
  }

  /** Marking text opens the composition's step over the text it began on. */
  lemma SessionStarts(f: Field, op: FieldOp)
    requires FieldOk(f) && Settled(f) && Supplied(f, op) && f.marked.None? && op.ReplaceAndMark?
    requires FieldStep(f, op).marked.Some?
    ensures InSession(FieldStep(f, op), Kept(f.h.undo), f.text, f.selection, f.reversed)
  {
    hide Valid, Consistent, MarkRange, RecordedComposition, Apply, RangeFromRelativeUtf16, LeadsTo;
    FieldStepOk(f, op);
    FieldStepSettledIff(f, op);
    MarkRangeSliceable(f, op.rangeUtf16);
    var range := MarkRange(f, op.rangeUtf16);
    StartedShape(f.h, f.text, range, op.newText, f.selection, f.reversed, op.now);
    CompositionStep(f.h, f.text, range, op.newText, f.selection, f.reversed, op.now);
    OutsideWhenNoneComposing(f.h, range);
    LastTextLedTo(Edited(f, range, op.newText, true, op.now).h, Apply(f.text, range, op.newText));
  }

  lemma OutsideWhenNoneComposing(h: History, range: Range)
    requires NoneComposing(h.undo)
    ensures !InsideComposition(h, range)
  {
  }

  lemma SealedOpen(h: History, current: Bytes, base: seq<EditRecord>, text: Bytes, sel: Range, rev: bool)
    requires OpenStep(h, current, base, text, sel, rev)
    ensures OpenStep(Sealed(h), current, base, text, sel, rev)
  {
    hide Valid, IsBoundary, Apply;
    assert DropLast(Sealed(h).undo) == base;
  }

  /** A composing splice inside the open record amends that step and nothing else. */
  lemma OpenAmended(f: Field, range: Range, t: Bytes, now: nat, base: seq<EditRecord>, text: Bytes, sel: Range,
                    rev: bool)
    requires FieldOk(f) && OpenStep(f.h, f.text, base, text, sel, rev) && InsideComposition(f.h, range)
    requires Sliceable(f.text, range) && Valid(t)
    ensures var e := Edited(f, range, t, true, now);
      && OpenStep(e.h, e.text, base, text, sel, rev) && Last(e.h.undo).composing && e.h.redo == []
      && InsideComposition(e.h, Range(range.start, range.start + |t|))
  {
    hide Valid, Consistent, RecordedComposition, Apply, LeadsTo, View;
    AmendedShape(f.h, f.text, range, t, f.selection, f.reversed, now);
    CompositionStep(f.h, f.text, range, t, f.selection, f.reversed, now);
    LeadsToTheLatest(f.h, f.text, text);
    var e := Edited(f, range, t, true, now);
    assert View(e.h, e.text).past == View(f.h, f.text).past by { SamePast(f, range, t, now); }
    LastTextLedTo(e.h, e.text);
  }

  /** A splice of the marked text is such a splice. */
  lemma AmendedOpen(f: Field, range: Range, t: Bytes, now: nat, base: seq<EditRecord>, text: Bytes, sel: Range,
                    rev: bool)
    requires InSession(f, base, text, sel, rev) && Sliceable(f.text, range) && Valid(t)
    requires f.marked.value.start <= range.start && range.end <= f.marked.value.end
    ensures var e := Edited(f, range, t, true, now);
      OpenStep(e.h, e.text, base, text, sel, rev) && Last(e.h.undo).composing
  {
    hide Valid, Consistent, Apply, LeadsTo, View, Edited, OpenStep;
    OpenAmended(f, range, t, now, base, text, sel, rev);
  }

  lemma SamePast(f: Field, range: Range, t: Bytes, now: nat)
    requires FieldOk(f) && Sliceable(f.text, range) && Valid(t) && InsideComposition(f.h, range)
    ensures var e := Edited(f, range, t, true, now);
      Consistent(e.h, e.text) && View(e.h, e.text).past == View(f.h, f.text).past
  {
    hide Valid, Consistent, RecordedComposition, Apply;
    CompositionStep(f.h, f.text, range, t, f.selection, f.reversed, now);
  }

  lemma LeadsToTheLatest(h: History, current: Bytes, text: Bytes)
    requires Consistent(h, current) && h.undo != [] && LeadsTo(Last(h.undo), current, text)
    ensures View(h, current).past != [] && text == Last(View(h, current).past)
  {
    hide Valid, IsBoundary, Apply;
  }

  /** While the text stays marked, the step stays the same one. */
  lemma SessionContinues(f: Field, op: FieldOp, base: seq<EditRecord>, text: Bytes, sel: Range, rev: bool)
    requires InSession(f, base, text, sel, rev) && Supplied(f, op) && FieldStep(f, op).marked.Some?
    ensures InSession(FieldStep(f, op), base, text, sel, rev)
  {
    hide Valid, Consistent, Edited, CommitRange, MarkRange, Finalized, Sealed, LeadsTo, Apply, Settled;
    hide RangeFromRelativeUtf16;
    FieldStepOk(f, op);
    FieldStepSettledIff(f, op);
    SealedOpen(f.h, f.text, base, text, sel, rev);
    SealedOpen(Sealed(f.h), f.text, base, text, sel, rev);
    if op.ReplaceAndMark? && !f.readOnly {
      MarkRangeSliceable(f, op.rangeUtf16);
      AmendedOpen(f, MarkRange(f, op.rangeUtf16), op.newText, op.now, base, text, sel, rev);
    }
  }

  predicate Closes(op: FieldOp) {
    op.ReplaceText? || op.Unmark? || op.ReplaceAndMark? || op.Cut? || op.Paste?
  }

  /** The steps left by a composition that came to nothing: cut and paste seal the newest. */
  function LeftBy(op: FieldOp, base: seq<EditRecord>): seq<EditRecord> {
    if op.Cut? || op.Paste? then Sealed(History(base, [])).undo else base
  }

  /** The history after the commit or cancel: the steps `left` for a composition that came to
      nothing, and otherwise one step over `base` that leads back to where it began and that
      no later splice joins. */
  ghost predicate ClosedAs(f: Field, base: seq<EditRecord>, left: seq<EditRecord>, text: Bytes, sel: Range, rev: bool) {
    && FieldOk(f) && Settled(f) && f.marked.None?
    && (f.text == text ==> f.h.undo == left)
    && (f.text != text ==> OpenStep(f.h, f.text, base, text, sel, rev) && Last(f.h.undo).sealed)
  }

  lemma FinalizedOpen(h: History, current: Bytes, base: seq<EditRecord>, text: Bytes, sel: Range, rev: bool)
    requires Consistent(h, current) && OpenStep(h, current, base, text, sel, rev) && Last(h.undo).composing
    ensures current == text ==> Finalized(h).undo == base
    ensures current != text ==>
      OpenStep(Finalized(h), current, base, text, sel, rev) && Last(Finalized(h).undo).sealed
  {
    hide Valid, IsBoundary, Apply, UndoFits, RedoFits;
    var r := Last(h.undo);
    SameTextIffSamePiece(current, r.start, r.after, r.before);
    if current != text {
      assert DropLast(Finalized(h).undo) == base;
    }
  }

  lemma CommitCloses(f: Field, op: FieldOp, base: seq<EditRecord>, text: Bytes, sel: Range, rev: bool)
    requires InSession(f, base, text, sel, rev) && Supplied(f, op) && FieldStep(f, op).marked.None?
    requires op.ReplaceText? || op.Unmark? || op.ReplaceAndMark?
    ensures ClosedAs(FieldStep(f, op), base, base, text, sel, rev)
  {
    hide Valid, Consistent, Edited, CommitRange, MarkRange, Finalized, LeadsTo, Apply, RangeFromRelativeUtf16;
    FieldStepOk(f, op);
    FieldStepSettledIff(f, op);
    if op.Unmark? {
      FinalizedOpen(f.h, f.text, base, text, sel, rev);
    } else {
      var range := if op.ReplaceText? then CommitRange(f, op.rangeUtf16) else MarkRange(f, op.rangeUtf16);
      CommitsTheMark(f, op.rangeUtf16);
      CommitRangeSliceable(f, op.rangeUtf16);
      MarkRangeSliceable(f, op.rangeUtf16);
      AmendedOpen(f, range, op.newText, op.now, base, text, sel, rev);
      EditedOk(f, range, op.newText, true, op.now);
      var e := Edited(f, range, op.newText, true, op.now);
      FinalizedOpen(e.h, e.text, base, text, sel, rev);
      EditedText(f, range, op.newText, op.now);
    }
  }

  lemma SealedSession(f: Field, base: seq<EditRecord>, text: Bytes, sel: Range, rev: bool)
    requires InSession(f, base, text, sel, rev)
    ensures InSession(f.(h := Sealed(f.h)), base, text, sel, rev)
  {
    hide Valid, Consistent, Sealed, LeadsTo, Settled;
    SealStep(f.h, f.text);
    SealedSettled(f);
    SealedOpen(f.h, f.text, base, text, sel, rev);
  }

  lemma SealedClosed(f: Field, op: FieldOp, base: seq<EditRecord>, text: Bytes, sel: Range, rev: bool)
    requires ClosedAs(f, base, base, text, sel, rev) && (op.Cut? || op.Paste?)
    ensures ClosedAs(f.(h := Sealed(f.h)), base, LeftBy(op, base), text, sel, rev)
  {
    hide Valid, Consistent, LeadsTo, Settled;
    SealStep(f.h, f.text);
    SealedSettled(f);
    if f.text != text { SealedOpen(f.h, f.text, base, text, sel, rev); }
  }

  lemma SessionCloses(f: Field, op: FieldOp, base: seq<EditRecord>, text: Bytes, sel: Range, rev: bool)
    requires InSession(f, base, text, sel, rev) && Supplied(f, op) && Closes(op) && FieldStep(f, op).marked.None?
    ensures ClosedAs(FieldStep(f, op), base, LeftBy(op, base), text, sel, rev)
  {
    hide InSession, Valid, Consistent, TextReplaced, TextMarked, ClosedAs, Sealed, Finalized;
    if op.Cut? || op.Paste? {
      var t := if op.Cut? then [] else op.newText;
      assert Valid(t) by { NothingIsValid(); }
      var g := f.(h := Sealed(f.h));
      SealedSession(f, base, text, sel, rev);
      SaneSession(f, base, text, sel, rev);
      SaneSession(g, base, text, sel, rev);
      CommitCloses(g, ReplaceText(None, t, op.now), base, text, sel, rev);
      SealedClosed(TextReplaced(g, None, t, op.now), op, base, text, sel, rev);
    } else {
      CommitCloses(f, op, base, text, sel, rev);
    }
  }

  lemma SaneSession(f: Field, base: seq<EditRecord>, text: Bytes, sel: Range, rev: bool)
    requires InSession(f, base, text, sel, rev)
    ensures Sane(f) && f.marked.Some?
  {
    hide Valid, Consistent, Settled, OpenStep;
  }

  lemma EditedText(f: Field, range: Range, t: Bytes, now: nat)
    requires range.start <= range.end <= |f.text|
    ensures Edited(f, range, t, true, now).text == Apply(f.text, range, t)
  {
  }

  /** Text stays marked through the whole run. */
  ghost predicate MarkedThroughout(f: Field, ops: seq<FieldOp>)
    decreases |ops|
  {
    f.marked.Some? &&
    (ops == [] || (Sane(f) && Supplied(f, ops[0]) && MarkedThroughout(FieldStep(f, ops[0]), ops[1..])))
  }

  lemma {:induction false} SessionRuns(f: Field, ops: seq<FieldOp>, base: seq<EditRecord>, text: Bytes, sel: Range,
                                       rev: bool)
    requires InSession(f, base, text, sel, rev) && MarkedThroughout(f, ops)
    ensures FieldRunnable(f, ops) && InSession(FieldRun(f, ops), base, text, sel, rev)
    decreases |ops|
  {
    hide InSession, Sane, Supplied, FieldStep;
    if ops != [] {
      assert FieldStep(f, ops[0]).marked.Some?;
      assert Sane(f) && Supplied(f, ops[0]);
      SessionContinues(f, ops[0], base, text, sel, rev);
      SessionRuns(FieldStep(f, ops[0]), ops[1..], base, text, sel, rev);
    }
  }

  /** A whole composition - the first marked text (to `g`), any revisions (to `m`), the
      commit or cancel - is at most one undo step over the steps kept from before it. */
  lemma CompositionIsOneStep(f: Field, start: FieldOp, g: Field, revisions: seq<FieldOp>, m: Field, close: FieldOp)
    requires FieldOk(f) && Settled(f) && f.marked.None?
    requires start.ReplaceAndMark? && Supplied(f, start) && g == FieldStep(f, start)
    requires MarkedThroughout(g, revisions) && FieldRunnable(g, revisions) && m == FieldRun(g, revisions)
    requires Closes(close) && Sane(m) && Supplied(m, close) && FieldStep(m, close).marked.None?
    ensures ClosedAs(FieldStep(m, close), Kept(f.h.undo), LeftBy(close, Kept(f.h.undo)),
                     f.text, f.selection, f.reversed)
  {
    hide Sane, Consistent, Settled, Supplied, FieldStep, Kept, ClosedAs;
    SessionStarts(f, start);
    SessionRuns(g, revisions, Kept(f.h.undo), f.text, f.selection, f.reversed);
    SessionCloses(m, close, Kept(f.h.undo), f.text, f.selection, f.reversed);
  }

  /** Undoing the closed composition restores the text and the selection before it. */
  lemma UndoAfterComposition(f: Field, base: seq<EditRecord>, left: seq<EditRecord>, text: Bytes, sel: Range, rev: bool)
    requires ClosedAs(f, base, left, text, sel, rev) && f.text != text && !f.readOnly
    ensures var g := FieldStep(f, Undo);
      g.text == text && g.selection == sel && g.reversed == rev && g.h.undo == base
  {
    hide Valid, IsBoundary, Apply, View;
    UndoStep(f.h, f.text);
    LeadsToTheLatest(f.h, f.text, text);
  }

  /** A composition that came to nothing leaves the undo stack as it was exactly below the
      cap: at the cap its first splice has already given up the oldest step. */
  lemma NothingLostIffBelowCap(undo: seq<EditRecord>)
    requires |undo| <= UNDO_HISTORY_CAP
    ensures Kept(undo) == undo <==> |undo| < UNDO_HISTORY_CAP
  {
  }
}
