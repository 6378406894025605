/** What it costs when a mark is cleared without closing its composition (`replace_range`
    and an unchanged `set_content` in `src/input.rs`). */
module TextInterrupted {
  import opened Options
  import opened Utf8
  import opened Splice
  import opened Utf16
  import opened UndoHistory
  import opened TextField

  // ----- when a composition opens a step -----

  /** A composition that begins with no mark opens a step of its own exactly when its splice
      is not inside a record left open. */
  lemma OpensAStepIff(f: Field, op: FieldOp)
    requires FieldOk(f) && f.marked.None? && !f.readOnly && Supplied(f, op)
    requires op.ReplaceAndMark? && op.newText != [] && |f.h.undo| < UNDO_HISTORY_CAP
    ensures |FieldStep(f, op).h.undo| == |f.h.undo| + 1 <==> !InsideComposition(f.h, MarkRange(f, op.rangeUtf16))
    ensures FieldStep(f, op).marked.Some? && |FieldStep(f, op).h.undo| >= |f.h.undo|
  {
    hide Valid, Consistent, Apply, MarkRange, RangeFromRelativeUtf16, IsBoundary;
    MarkRangeSliceable(f, op.rangeUtf16);
  }

  // ----- a record left open -----

  /** Nothing is marked, but the newest step is still the open one of a composition that
      began on `text` over `base`. */
  ghost predicate LeftOpen(f: Field, base: seq<EditRecord>, text: Bytes, sel: Range, rev: bool) {
    && FieldOk(f) && f.marked.None? && NoneComposing(base)
    && OpenStep(f.h, f.text, base, text, sel, rev) && Last(f.h.undo).composing
  }

  lemma SessionIsOpen(f: Field, base: seq<EditRecord>, text: Bytes, sel: Range, rev: bool)
    requires InSession(f, base, text, sel, rev)
    ensures FieldOk(f) && NoneComposing(base) && OpenStep(f.h, f.text, base, text, sel, rev) && f.h.undo != []
    ensures Last(f.h.undo).composing && DropLast(f.h.undo) == base && f.marked.Some?
  {
    hide Valid, Consistent, LeadsTo;
  }

  lemma SameContentLeavesOpen(f: Field, base: seq<EditRecord>, text: Bytes, sel: Range, rev: bool)
    requires InSession(f, base, text, sel, rev)
    ensures Interrupts(f, SetContent(f.text)) && Supplied(f, SetContent(f.text)) && Sane(f)
    ensures LeftOpen(FieldStep(f, SetContent(f.text)), base, text, sel, rev)
  {
    hide Valid, Consistent, OpenStep, NoneComposing, InSession;
    SessionIsOpen(f, base, text, sel, rev);
    FieldStepOk(f, SetContent(f.text));
  }

  /** A splice that changes nothing records nothing. */
  lemma NothingRecorded(h: History, content: Bytes, range: Range, t: Bytes, sel: Range, rev: bool, now: nat)
    requires Consistent(h, content) && Valid(t) && Sliceable(content, range) && Sliceable(content, sel)
    requires Apply(content, range, t) == content
    ensures Recorded(h, content, range, t, sel, rev, now) == h
  {
    hide Consistent, Valid, Apply, IsBoundary, Recorded;
    RecordStep(h, content, range, t, sel, rev, now);
  }

  /** `replace_range` with no change leaves the record open on top. */
  lemma SameRangeLeavesOpen(f: Field, op: FieldOp, base: seq<EditRecord>, text: Bytes, sel: Range, rev: bool)
    requires InSession(f, base, text, sel, rev) && Sane(f) && Supplied(f, op)
    requires op.ReplaceRange? && Interrupts(f, op) && Apply(f.text, Clipped(f, op.range), op.newText) == f.text
    ensures LeftOpen(FieldStep(f, op), base, text, sel, rev)
  {
    hide Valid, Consistent, NoneComposing, InSession, Apply, Recorded, IsBoundary, LeadsTo, Clamp, Sealed;
    SessionIsOpen(f, base, text, sel, rev);
    FieldStepOk(f, op);
    SealStep(f.h, f.text);
    NothingRecorded(Sealed(f.h), f.text, Clipped(f, op.range), op.newText, f.selection, f.reversed, op.now);
    SealedOpen(f.h, f.text, base, text, sel, rev);
    SealedOpen(Sealed(f.h), f.text, base, text, sel, rev);
    StillComposing(f.h);
    StillComposing(Sealed(f.h));
  }

  lemma StillComposing(h: History)
    requires h.undo != []
    ensures Sealed(h).undo != [] && Last(Sealed(h).undo).composing == Last(h.undo).composing
    ensures |Sealed(h).undo| == |h.undo| && DropLast(Sealed(h).undo) == DropLast(h.undo)
  {
  }

  /** A sealed history takes a change as a new step. */
  lemma PushedOverSeal(h: History, content: Bytes, range: Range, t: Bytes, sel: Range, rev: bool, now: nat)
    requires Consistent(h, content) && Valid(t) && Sliceable(content, range) && Sliceable(content, sel)
    requires Apply(content, range, t) != content
    ensures var undo := Recorded(Sealed(h), content, range, t, sel, rev, now).undo;
      undo != [] && DropLast(undo) == Kept(Sealed(h).undo)
  {
    hide Consistent, Valid, Apply, IsBoundary, Trim;
    OfConsistent(h, content);
    TrimIsEmptyIffNoChange(content, range, t);
  }

  /** The steps below the newest when the steps kept from a stack are its top ones. */
  lemma KeptTop(undo: seq<EditRecord>)
    requires undo != [] && |undo| <= UNDO_HISTORY_CAP
    ensures Kept(undo) != [] && Last(Kept(undo)) == Last(undo)
    ensures DropLast(Kept(undo)) ==
            if |undo| == UNDO_HISTORY_CAP then DropLast(undo)[1..] else DropLast(undo)
  {
  }

  /** `replace_range` with a change buries the open record under a step of its own; undoing
      that step brings the record back on top, still open, with nothing marked. */
  lemma BuriedRecordResurfaces(f: Field, op: FieldOp, base: seq<EditRecord>, text: Bytes, sel: Range, rev: bool)
    requires InSession(f, base, text, sel, rev) && Sane(f) && Supplied(f, op)
    requires op.ReplaceRange? && Interrupts(f, op) && Apply(f.text, Clipped(f, op.range), op.newText) != f.text
    ensures var g := FieldStep(f, op);
      && FieldOk(g) && g.marked.None? && !g.readOnly && g.h.undo != [] && !Last(g.h.undo).composing
      && FieldStep(g, Undo).text == f.text
      && LeftOpen(FieldStep(g, Undo), if |f.h.undo| == UNDO_HISTORY_CAP then base[1..] else base, text, sel, rev)
  {
    hide Valid, Consistent, InSession, Apply, Recorded, IsBoundary, LeadsTo, Clamp, Sealed;
    hide Undone, View, Kept, OpenStep;
    SessionIsOpen(f, base, text, sel, rev);
    FieldStepOk(f, op);
    var g := FieldStep(f, op);
    BuriedHistory(f, op);
    FieldStepOk(g, Undo);
    UndoShows(g);
    OpenAtTheTop(f, base, text, sel, rev);
    var base' := if |f.h.undo| == UNDO_HISTORY_CAP then base[1..] else base;
    OpenInTheUndoStack(Kept(Sealed(f.h).undo), FieldStep(g, Undo).h, f.text, base', text, sel, rev);
  }

  /** Whether a step is open is a matter of the undo stack alone. */
  lemma OpenInTheUndoStack(undo: seq<EditRecord>, h: History, current: Bytes, base: seq<EditRecord>, text: Bytes,
                           sel: Range, rev: bool)
    requires h.undo == undo && OpenStep(History(undo, []), current, base, text, sel, rev)
    ensures OpenStep(h, current, base, text, sel, rev) && h.undo != []
  {
    hide Valid, LeadsTo;
  }

  /** What undo shows, and the steps it leaves. */
  lemma UndoShows(g: Field)
    requires FieldOk(g) && g.marked.None? && !g.readOnly && g.h.undo != []
    ensures View(g.h, g.text).past != []
    ensures var r := FieldStep(g, Undo);
      r.text == Last(View(g.h, g.text).past) && r.h.undo == DropLast(g.h.undo) && r.marked.None?
  {
    hide Valid, IsBoundary, UndoFits, RedoFits, Undone;
    UndoStep(g.h, g.text);
  }

  /** The history after such a change: the kept steps, sealed, under the new one. */
  lemma BuriedHistory(f: Field, op: FieldOp)
    requires FieldOk(f) && Supplied(f, op) && f.h.undo != []
    requires op.ReplaceRange? && !f.readOnly && Sliceable(f.text, Clipped(f, op.range))
    requires Apply(f.text, Clipped(f, op.range), op.newText) != f.text
    ensures var g := FieldStep(f, op);
      && FieldOk(g) && g.h.undo != [] && DropLast(g.h.undo) == Kept(Sealed(f.h).undo) && !Last(g.h.undo).composing
      && View(g.h, g.text).past != [] && Last(View(g.h, g.text).past) == f.text
  {
    hide Valid, Consistent, Apply, Recorded, IsBoundary, Clamp, Sealed, View, Kept, Capped, Joins;
    var c, h := Clipped(f, op.range), Sealed(f.h);
    FieldStepOk(f, op);
    SealStep(f.h, f.text);
    var h' := Recorded(h, f.text, c, op.newText, f.selection, f.reversed, op.now);
    var text' := Apply(f.text, c, op.newText);
    PushedOverSeal(f.h, f.text, c, op.newText, f.selection, f.reversed, op.now);
    RecordStep(h, f.text, c, op.newText, f.selection, f.reversed, op.now);
    SealedNeverJoins(f.h, f.text, c, op.newText, op.now);
    CappedEnds(View(h, f.text).past, f.text);
    NotComposing(h, f.text, c, op.newText, f.selection, f.reversed, op.now);
    SealStep(h', text');
    StillComposing(h');
  }

  lemma CappedEnds<T>(a: seq<T>, x: T)
    ensures Capped(a + [x]) != [] && Last(Capped(a + [x])) == x
  {
  }

  lemma SealedNeverJoins(h: History, content: Bytes, range: Range, t: Bytes, now: nat)
    requires range.start <= range.end <= |content|
    ensures !Joins(Sealed(h), content, range, t, now)
  {
    hide Trim;
  }

  lemma NotComposing(h: History, content: Bytes, range: Range, t: Bytes, sel: Range, rev: bool, now: nat)
    requires range.start <= range.end <= |content| && Apply(content, range, t) != content
    requires !Joins(h, content, range, t, now) && Consistent(h, content) && Valid(t) && Sliceable(content, range)
    ensures var undo := Recorded(h, content, range, t, sel, rev, now).undo; undo != [] && !Last(undo).composing
  {
    hide Trim, Consistent, Valid, Apply, Coalesced, IsBoundary;
    OfConsistent(h, content);
    TrimIsEmptyIffNoChange(content, range, t);
  }

  lemma OfConsistent(h: History, content: Bytes)
    requires Consistent(h, content)
    ensures Valid(content) && |h.undo| <= UNDO_HISTORY_CAP
  {
    hide Valid, UndoFits, RedoFits;
  }

  /** Sealed, and with the oldest step given up at the cap, the open step is the same one. */
  lemma OpenAtTheTop(f: Field, base: seq<EditRecord>, text: Bytes, sel: Range, rev: bool)
    requires FieldOk(f) && OpenStep(f.h, f.text, base, text, sel, rev) && Last(f.h.undo).composing
    requires NoneComposing(base)
    ensures var top := Kept(Sealed(f.h).undo);
      var base' := if |f.h.undo| == UNDO_HISTORY_CAP then base[1..] else base;
      && OpenStep(History(top, []), f.text, base', text, sel, rev) && Last(top).composing && NoneComposing(base')
  {
    hide Valid, Consistent, Kept, LeadsTo, Sealed;
    OfConsistent(f.h, f.text);
    SealedOpen(f.h, f.text, base, text, sel, rev);
    StillComposing(f.h);
    KeptTop(Sealed(f.h).undo);
  }

  // ----- what the next composition does with it -----

  /** A composition that begins inside a record left open goes on with that record: from then
      on it is the first composition's session, over the first one's steps and back to the
      text before the first. */
  lemma InterruptedCompositionsMerge(f: Field, op: FieldOp, base: seq<EditRecord>, text: Bytes, sel: Range, rev: bool)
    requires LeftOpen(f, base, text, sel, rev) && !f.readOnly && Sane(f) && Supplied(f, op)
    requires op.ReplaceAndMark? && op.newText != [] && InsideComposition(f.h, MarkRange(f, op.rangeUtf16))
    ensures InSession(FieldStep(f, op), base, text, sel, rev)
  {
    hide Valid, Consistent, Apply, MarkRange, RangeFromRelativeUtf16, LeadsTo, RecordedComposition, NoneComposing;
    var range := MarkRange(f, op.rangeUtf16);
    MarkRangeSliceable(f, op.rangeUtf16);
    FieldStepOk(f, op);
    OpenAmended(f, range, op.newText, op.now, base, text, sel, rev);
    NothingComposes();
  }

  lemma NothingComposes()
    ensures NoneComposing([])
  {
  }

  /** And a session that is committed is one step: undoing it shows the text before it, here
      the text before the first of the two compositions. */
  lemma CommittedSessionUndoes(f: Field, close: FieldOp, base: seq<EditRecord>, text: Bytes, sel: Range, rev: bool)
    requires InSession(f, base, text, sel, rev) && Closes(close) && Supplied(f, close)
    requires FieldStep(f, close).marked.None?
    ensures var r := FieldStep(f, close);
      && ClosedAs(r, base, LeftBy(close, base), text, sel, rev)
      && (r.text != text && !r.readOnly ==> FieldStep(r, Undo).text == text && FieldStep(r, Undo).h.undo == base)
  {
    hide Sane, Consistent, Settled, Supplied, FieldStep, ClosedAs, InSession, LeftBy;
    SaneSession(f, base, text, sel, rev);
    SessionCloses(f, close, base, text, sel, rev);
    var r := FieldStep(f, close);
    if r.text != text && !r.readOnly {
      UndoAfterComposition(r, base, LeftBy(close, base), text, sel, rev);
    }
  }

  // ----- a run that loses a step -----

  function EmptyField(): Field {
    Field([], Range(0, 0), false, None, false, History([], []))
  }

  /** Mark `k`, set the content to the `k` that is there, mark `a`, commit. */
  function MarkSetMark(): seq<FieldOp> {
    [ReplaceAndMark(None, [0x6B], None, 0), SetContent([0x6B]), ReplaceAndMark(None, [0x61], None, 1), Unmark]
  }

  function Composing(text: Bytes, marked: Option<Range>, now: nat): Field {
    var end := |text|;
    Field(text, Range(end, end), false, marked, false,
          History([EditRecord(0, [], text, Range(0, 0), false, now, false, true)], []))
  }

  lemma Letters()
    ensures Valid([]) && Valid([0x6B]) && Valid([0x61]) && Valid([0x6B, 0x61])
  {
    var ka: Bytes := [0x6B, 0x61];
    assert Valid(ka[1..]) by { assert ka[1..] == [0x61]; }
    assert CharLen(ka) == 1;
  }

  lemma MarkK()
    ensures var f, op := EmptyField(), MarkSetMark()[0];
      Sane(f) && Supplied(f, op) && FieldStep(f, op) == Composing([0x6B], Some(Range(0, 1)), 0)
  {
    Letters();
    var f := EmptyField();
    assert Apply(f.text, Range(0, 0), [0x6B]) == [0x6B];
  }

  lemma SetK()
    ensures var f, op := Composing([0x6B], Some(Range(0, 1)), 0), MarkSetMark()[1];
      Sane(f) && Supplied(f, op) && FieldStep(f, op) == Composing([0x6B], None, 0)
  {
    Letters();
  }

  lemma MarkA()
    ensures var f, op := Composing([0x6B], None, 0), MarkSetMark()[2];
      Sane(f) && Supplied(f, op) && FieldStep(f, op) == Composing([0x6B, 0x61], Some(Range(1, 2)), 1)
  {
    Letters();
    var k: Bytes := [0x6B];
    assert Apply(k, Range(1, 1), [0x61]) == [0x6B, 0x61];
  }

  lemma CommitKa()
    ensures var f, op := Composing([0x6B, 0x61], Some(Range(1, 2)), 1), MarkSetMark()[3];
      && Sane(f) && Supplied(f, op)
      && var r := FieldStep(f, op);
         && r.text == [0x6B, 0x61] && Sane(r) && |r.h.undo| == 1
         && FieldStep(r, Undo).text == [] && FieldStep(r, Undo).h.undo == []
  {
    Letters();
    var ka: Bytes := [0x6B, 0x61];
    assert Apply(ka, Range(0, 2), []) == [];
  }

  /** Two compositions, one undo step: a single undo takes away both letters. */
  lemma TwoCompositionsOneStep()
    ensures FieldRunnable(EmptyField(), MarkSetMark())
    ensures var r := FieldRun(EmptyField(), MarkSetMark());
      && r.text == [0x6B, 0x61] && Sane(r) && |r.h.undo| == 1
      && FieldStep(r, Undo).text == [] && FieldStep(r, Undo).h.undo == []
  {
    hide Sane, Supplied, FieldStep, Composing, EmptyField;
    MarkK();
    SetK();
    MarkA();
    CommitKa();
    var ops := MarkSetMark();
    assert ops[1..][1..] == ops[2..] && ops[2..][1..] == ops[3..] && ops[3..][1..] == [];
    var f := Composing([0x6B, 0x61], Some(Range(1, 2)), 1);
    assert FieldRunnable(FieldStep(f, ops[3]), []);
    assert FieldRunnable(f, ops[3..]) && FieldRun(f, ops[3..]) == FieldStep(f, ops[3]);
    var g := Composing([0x6B], None, 0);
    assert FieldRunnable(g, ops[2..]) && FieldRun(g, ops[2..]) == FieldRun(f, ops[3..]);
    var m := Composing([0x6B], Some(Range(0, 1)), 0);
    assert FieldRunnable(m, ops[1..]) && FieldRun(m, ops[1..]) == FieldRun(g, ops[2..]);
  }
}
