/** Typing and erasing in the text field, key by key: what is shown, and that the history is
    told exactly the calls whose gestures `UndoGestures` speaks of. */
module TextTyping {
  import opened Options
  import opened Utf8
  import opened Splice
  import opened UndoHistory
  import opened UndoGestures
  import opened TextField
  import opened TextEdits
  import opened Utf16
  import UndoRuns

  /** The field's text and history, as `UndoRuns` sees them. */
  function StateOf(f: Field): UndoRuns.State {
    UndoRuns.State(f.h, f.text)
  }

  lemma OkState(f: Field)
    requires FieldOk(f)
    ensures UndoRuns.Ok(StateOf(f)) && Valid(f.text)
  {
  }

  lemma {:induction false} FieldRunsOn(f: Field, op: FieldOp, ops: seq<FieldOp>)
    requires Sane(f) && Supplied(f, op) && FieldRunnable(FieldStep(f, op), ops)
    ensures FieldRunnable(f, [op] + ops) && FieldRun(f, [op] + ops) == FieldRun(FieldStep(f, op), ops)
  {
    hide Sane, Supplied, FieldStep;
    assert ([op] + ops)[1..] == ops;
  }

  // ----- typing -----

  /** The field with `text` in it, the caret at `at`, and the rest as in `f`. */
  ghost predicate ShowsTyped(r: Field, f: Field, text: Bytes, at: nat) {
    FieldOk(r) && Editable(r) && r.text == text && r.selection == At(at) && r.reversed == f.reversed
  }

  function Keys(strokes: seq<Stroke>): seq<FieldOp> {
    if strokes == [] then [] else [ReplaceText(None, strokes[0].text, strokes[0].now)] + Keys(strokes[1..])
  }

  predicate AllText(strokes: seq<Stroke>) {
    forall i :: 0 <= i < |strokes| ==> Valid(strokes[i].text)
  }

  /** One key: the text goes in at the caret and the caret goes after it. */
  lemma KeyShows(f: Field, at: nat, k: Stroke)
    requires FieldOk(f) && Editable(f) && f.selection == At(at) && Valid(k.text)
    ensures Supplied(f, ReplaceText(None, k.text, k.now)) && at <= |f.text|
    ensures var r := FieldStep(f, ReplaceText(None, k.text, k.now));
      && ShowsTyped(r, f, f.text[..at] + k.text + f.text[at..], at + |k.text|)
      && UndoRuns.Enabled(StateOf(f), TypeOp(at, f.reversed, k))
      && StateOf(r) == UndoRuns.Step(StateOf(f), TypeOp(at, f.reversed, k))
  {
    hide Valid, Consistent, FieldStep, UndoRuns.Step, UndoRuns.Enabled;
    ReplaceShows(f, None, At(at), k.text, k.now);
  }

  /** Keys one after the other put their texts in one after the other, and the history is told
      of each where the last one ended. */
  lemma {:induction false} TypingShows(f: Field, at: nat, strokes: seq<Stroke>)
    requires FieldOk(f) && Editable(f) && f.selection == At(at) && AllText(strokes)
    ensures at <= |f.text| && FieldRunnable(f, Keys(strokes))
    ensures var r := FieldRun(f, Keys(strokes));
      ShowsTyped(r, f, f.text[..at] + TypedText(strokes) + f.text[at..], at + |TypedText(strokes)|)
    ensures UndoRuns.Runnable(StateOf(f), TypeOps(at, f.reversed, strokes))
    ensures StateOf(FieldRun(f, Keys(strokes))) == UndoRuns.Run(StateOf(f), TypeOps(at, f.reversed, strokes))
    decreases |strokes|
  {
    hide Valid, Consistent, FieldStep, UndoRuns.Step, UndoRuns.Enabled, IsBoundary;
    if strokes == [] {
      InPlace(f, at);
      assert f.text[..at] + [] + f.text[at..] == f.text;
    } else {
      var k, rest := strokes[0], strokes[1..];
      KeyShows(f, at, k);
      var op := ReplaceText(None, k.text, k.now);
      var g := FieldStep(f, op);
      TypingShows(g, at + |k.text|, rest);
      FieldRunsOn(f, op, Keys(rest));
      assert TypeOps(at, f.reversed, strokes)[1..] == TypeOps(at + |k.text|, f.reversed, rest);
      SplitAtCaret(f.text, at, k.text);
      Together(f.text[..at], k.text, TypedText(rest), f.text[at..]);
    }
  }

  lemma InPlace(f: Field, at: nat)
    requires FieldOk(f) && f.selection == At(at)
    ensures at <= |f.text|
  {
  }

  lemma SplitAtCaret(s: Bytes, at: nat, t: Bytes)
    requires at <= |s|
    ensures var u := s[..at] + t + s[at..]; u[..at + |t|] == s[..at] + t && u[at + |t|..] == s[at..]
  {
  }

  /** Typing over the selection, or over a range that an input method names in UTF-16 units. */
  lemma TypingOverShows(f: Field, r16: Option<Range>, over: Range, first: Stroke, strokes: seq<Stroke>)
    requires FieldOk(f) && Editable(f) && Chosen(f, r16, over) && Valid(first.text) && AllText(strokes)
    ensures var ops := [ReplaceText(r16, first.text, first.now)] + Keys(strokes);
      && over.start <= over.end <= |f.text| && FieldRunnable(f, ops)
      && ShowsTyped(FieldRun(f, ops), f, TextAfter(f.text, over, first, strokes),
                    over.start + |first.text| + |TypedText(strokes)|)
    ensures var calls := TypedOver(over, Selected(f.selection, f.reversed), first, strokes);
      && UndoRuns.Runnable(StateOf(f), calls)
      && StateOf(FieldRun(f, [ReplaceText(r16, first.text, first.now)] + Keys(strokes)))
         == UndoRuns.Run(StateOf(f), calls)
  {
    hide Valid, Consistent, FieldStep, UndoRuns.Step, UndoRuns.Enabled, IsBoundary, Named16;
    var op := ReplaceText(r16, first.text, first.now);
    ReplaceShows(f, r16, over, first.text, first.now);
    var g, at := FieldStep(f, op), over.start + |first.text|;
    TypingShows(g, at, strokes);
    FieldRunsOn(f, op, Keys(strokes));
    var sel := Selected(f.selection, f.reversed);
    assert TypedOver(over, sel, first, strokes)[1..] == TypeOps(at, f.reversed, strokes);
    PutParts(f.text, over, first.text);
    Together(f.text[..over.start], first.text, TypedText(strokes), f.text[over.end..]);
  }

  lemma PutParts(s: Bytes, over: Range, t: Bytes)
    requires over.start <= over.end <= |s|
    ensures var u, at := Put(s, over, t), over.start + |t|; u[..at] == s[..over.start] + t && u[at..] == s[over.end..]
  {
  }

  /** The operations run, and one undo after them shows the text before them, with `sel`
      selected. */
  ghost predicate UndoneByOne(f: Field, ops: seq<FieldOp>, sel: Selected) {
    && FieldRunnable(f, ops) && Sane(FieldRun(f, ops))
    && var u := FieldStep(FieldRun(f, ops), Undo);
       u.text == f.text && u.selection == sel.range && u.reversed == sel.reversed && Editable(u)
  }

  /** The steps that the history is told of decide it. */
  lemma RunIsUndone(f: Field, ops: seq<FieldOp>, calls: seq<UndoRuns.Op>, text: Bytes, sel: Selected)
    requires FieldRunnable(f, ops) && FieldOk(FieldRun(f, ops)) && Editable(FieldRun(f, ops))
    requires UndoRuns.Ok(StateOf(f)) && UndoesAtOnce(StateOf(f), calls, text, f.text, sel)
    requires StateOf(FieldRun(f, ops)) == UndoRuns.Run(StateOf(f), calls)
    ensures UndoneByOne(f, ops, sel)
  {
    hide Valid, Consistent, IsBoundary, Undone, UndoRuns.Ok, UndoRuns.Run, UndoRuns.Runnable, FieldRun, FieldRunnable;
    UndoneShows(FieldRun(f, ops), f.text, sel.range, sel.reversed);
  }

  /** So one undo after a typed run shows the field as it was before it, selection and direction
      included, if what is recorded of its first stroke ends at the caret. */
  lemma TypingIsUndone(f: Field, r16: Option<Range>, over: Range, first: Stroke, strokes: seq<Stroke>)
    requires FieldOk(f) && Editable(f) && Chosen(f, r16, over) && Steady(first.now, strokes)
    requires Begins(StateOf(f), over, Selected(f.selection, f.reversed), first)
    requires strokes == [] || over.start == over.end || EndsAtCaret(f.text, over, first.text)
    ensures UndoneByOne(
      f, [ReplaceText(r16, first.text, first.now)] + Keys(strokes), Selected(f.selection, f.reversed))
  {
    hide Consistent, UndoneByOne, Steady, Begins, EndsAtCaret, Chosen, TypedOver, UndoesAtOnce, FieldRun, FieldRunnable;
    hide UndoRuns.Ok, UndoRuns.Run, UndoRuns.Runnable, Valid, Keys, TextAfter;
    SteadyIsText(first.now, strokes);
    BeginsIsText(f, over, first);
    OkState(f);
    TypingOverShows(f, r16, over, first, strokes);
    var sel := Selected(f.selection, f.reversed);
    TypedRunUndoesAtOnce(StateOf(f), over, sel, first, strokes);
    RunIsUndone(f, [ReplaceText(r16, first.text, first.now)] + Keys(strokes), TypedOver(over, sel, first, strokes),
                TextAfter(f.text, over, first, strokes), sel);
  }

  lemma BeginsIsText(f: Field, over: Range, first: Stroke)
    requires Begins(StateOf(f), over, Selected(f.selection, f.reversed), first)
    ensures Valid(first.text) && over.start <= over.end <= |f.text|
  {
  }

  lemma {:induction false} SteadyIsText(now: nat, strokes: seq<Stroke>)
    requires Steady(now, strokes)
    ensures AllText(strokes)
    decreases |strokes|
  {
    hide Valid;
    if strokes != [] {
      SteadyIsText(strokes[0].now, strokes[1..]);
      assert forall i :: 1 <= i < |strokes| ==> strokes[i] == strokes[1..][i - 1];
    }
  }

  lemma UndoneShows(r: Field, text: Bytes, selection: Range, reversed: bool)
    requires FieldOk(r) && Editable(r) && Undone(r.h, r.text).1 == Some(Restored(text, selection, reversed))
    ensures Sane(r)
    ensures var u := FieldStep(r, Undo);
      u.text == text && u.selection == selection && u.reversed == reversed && u.marked.None? && !u.readOnly
  {
    hide Valid, Consistent, IsBoundary, Undone;
  }

  // ----- erasing -----

  /** `extend_selection_to`: the live end of the selection moves, and the ends change places
      when it passes the other one. */
  function Extended(sel: Selected, offset: nat): Selected {
    var start := if sel.reversed then offset else sel.range.start;
    var end := if sel.reversed then sel.range.end else offset;
    if end < start then Selected(Range(end, start), !sel.reversed) else Selected(Range(start, end), sel.reversed)
  }

  /** From a caret, whichever end is live, this selects what lies between, with the live end
      where it went. */
  lemma ExtendedFromCaret(at: nat, rev: bool, k: Erasure)
    requires k.count > 0 && (k.Back? ==> k.count <= at)
    ensures Extended(Selected(At(at), rev), if k.Back? then at - k.count else at + k.count) == SelectedBy(at, k)
  {
  }

  /** Backspace or delete at a caret: the selection extended to the other side of what it takes,
      then nothing in its place. */
  function Press(at: nat, k: Erasure): seq<FieldOp> {
    [Select(SelectedBy(at, k).range, SelectedBy(at, k).reversed), ReplaceText(None, [], k.now)]
  }

  /** `backspace` and `delete`, told where the character boundary before or after the caret
      is: a selection is taken away, and a caret first selects up to there. */
  function Pressed(f: Field, to: nat, now: nat): Field
    requires Sane(f) && to <= |f.text| && IsBoundary(f.text, to)
  {
    var sel := Selected(f.selection, f.reversed);
    var taken := if f.selection.start == f.selection.end then Extended(sel, to) else sel;
    TextReplaced(f.(selection := taken.range, reversed := taken.reversed), None, [], now)
  }

  lemma NothingToErase(f: Field, to: nat, now: nat)
    requires Sane(f) && f.text == [] && to == 0
    ensures IsBoundary(f.text, to) && Pressed(f, to, now) == f
  {
    hide Valid, CharLen, Trim, Coalesced, Pushed, RangeFromUtf16, RecordedComposition, Finalized, IsBoundary;
    TrimOfDeletion([], At(0));
    assert f.selection == At(0) && f.marked.None?;
    assert Apply([], At(0), []) == [];
  }

  /** The field with what the press takes selected. */
  function Taking(f: Field, at: nat, k: Erasure): Field {
    f.(selection := SelectedBy(at, k).range, reversed := SelectedBy(at, k).reversed)
  }

  lemma PressedIs(f: Field, at: nat, k: Erasure, to: nat)
    requires Sane(f) && f.selection == At(at) && Takes(f.text, at, k)
    requires to == if k.Back? then at - k.count else at + k.count
    ensures to <= |f.text| && IsBoundary(f.text, to) && Sane(Taking(f, at, k))
    ensures Pressed(f, to, k.now) == TextReplaced(Taking(f, at, k), None, [], k.now)
  {
    hide Valid, IsBoundary, TextReplaced, Extended;
    ExtendedFromCaret(at, f.reversed, k);
  }

  lemma PressRuns(f: Field, at: nat, k: Erasure)
    requires Sane(f) && Sane(Taking(f, at, k)) && Supplied(f, Press(at, k)[0])
    ensures FieldRunnable(f, Press(at, k))
    ensures FieldRun(f, Press(at, k)) == TextReplaced(Taking(f, at, k), None, [], k.now)
  {
    hide Sane, TextReplaced, SelectedBy;
    NothingIsValid();
    var select, erase := Press(at, k)[0], Press(at, k)[1];
    var g := Taking(f, at, k);
    assert FieldStep(f, select) == g && FieldStep(g, erase) == TextReplaced(g, None, [], k.now);
    assert Supplied(g, erase);
    hide FieldStep, Supplied;
    assert [erase] + [] == [erase];
    FieldRunsOn(g, erase, []);
    FieldRunsOn(f, select, [erase]);
    assert Press(at, k) == [select] + [erase];
  }

  /** At a caret that is the press of the run. */
  lemma PressIs(f: Field, at: nat, k: Erasure)
    requires Sane(f) && f.selection == At(at) && Takes(f.text, at, k)
    ensures var to := if k.Back? then at - k.count else at + k.count;
      && to <= |f.text| && IsBoundary(f.text, to) && FieldRunnable(f, Press(at, k))
      && Pressed(f, to, k.now) == FieldRun(f, Press(at, k))
  {
    hide Sane, IsBoundary, TextReplaced, Pressed, FieldRun, FieldRunnable, Taking;
    PressedIs(f, at, k, if k.Back? then at - k.count else at + k.count);
    PressRuns(f, at, k);
  }

  function Presses(at: nat, keys: seq<Erasure>): seq<FieldOp>
    decreases |keys|
  {
    if keys == [] then [] else Press(at, keys[0]) + Presses(Erased(at, keys[0]).start, keys[1..])
  }

  ghost predicate AtCaretOf(r: Field, text: Bytes, at: nat) {
    FieldOk(r) && Editable(r) && r.text == text && r.selection == At(at)
  }

  lemma PressShows(f: Field, at: nat, k: Erasure)
    requires FieldOk(f) && Editable(f) && f.selection == At(at) && Takes(f.text, at, k)
    ensures FieldRunnable(f, Press(at, k))
    ensures var r := FieldRun(f, Press(at, k)); var range := Erased(at, k);
      && AtCaretOf(r, Apply(f.text, range, []), range.start)
      && UndoRuns.Enabled(StateOf(f), EraseOp(at, k)) && StateOf(r) == UndoRuns.Step(StateOf(f), EraseOp(at, k))
  {
    hide Valid, Consistent, IsBoundary, UndoRuns.Step, UndoRuns.Enabled;
    NothingIsValid();
    var sel := SelectedBy(at, k);
    var select := Select(sel.range, sel.reversed);
    FieldStepOk(f, select);
    var g := FieldStep(f, select);
    assert g == f.(selection := sel.range, reversed := sel.reversed);
    ReplaceShows(g, None, sel.range, [], k.now);
    hide FieldStep;
    FieldRunsOn(g, ReplaceText(None, [], k.now), []);
    assert [ReplaceText(None, [], k.now)] + [] == [ReplaceText(None, [], k.now)];
    FieldRunsOn(f, select, [ReplaceText(None, [], k.now)]);
    assert Press(at, k) == [select] + [ReplaceText(None, [], k.now)];
  }

  lemma {:induction false} RunsInTurn(f: Field, a: seq<FieldOp>, b: seq<FieldOp>)
    requires FieldRunnable(f, a) && FieldRunnable(FieldRun(f, a), b)
    ensures FieldRunnable(f, a + b) && FieldRun(f, a + b) == FieldRun(FieldRun(f, a), b)
    decreases |a|
  {
    hide Sane, Supplied, FieldStep;
    if a == [] {
      assert a + b == b;
    } else {
      assert (a + b)[0] == a[0] && (a + b)[1..] == a[1..] + b;
      RunsInTurn(FieldStep(f, a[0]), a[1..], b);
    }
  }

  /** Presses one after the other take what they take, and the history is told of each. */
  lemma {:induction false} ErasingShows(f: Field, at: nat, now: nat, keys: seq<Erasure>)
    requires FieldOk(f) && Editable(f) && f.selection == At(at) && Erasable(f.text, at, now, keys)
    ensures FieldRunnable(f, Presses(at, keys))
    ensures var r := FieldRun(f, Presses(at, keys));
      && r.text == ErasedText(f.text, at, now, keys) && FieldOk(r) && Editable(r)
      && UndoRuns.Runnable(StateOf(f), EraseOps(at, keys)) && StateOf(r) == UndoRuns.Run(StateOf(f), EraseOps(at, keys))
    decreases |keys|
  {
    hide Valid, Consistent, FieldStep, UndoRuns.Step, UndoRuns.Enabled, IsBoundary, Takes, Erased, Apply, Press;
    if keys != [] {
      var k, rest := keys[0], keys[1..];
      PressShows(f, at, k);
      var g, at' := FieldRun(f, Press(at, k)), Erased(at, k).start;
      ErasingShows(g, at', k.now, rest);
      RunsInTurn(f, Press(at, k), Presses(at', rest));
      assert EraseOps(at, keys)[1..] == EraseOps(at', rest);
    }
  }

  /** One undo after a run of presses shows the text before it, with what the first press took
      selected and the live end where that press went. */
  lemma ErasingIsUndone(f: Field, at: nat, keys: seq<Erasure>)
    requires FieldOk(f) && Editable(f) && f.selection == At(at) && keys != []
    requires Erasable(f.text, at, keys[0].now, keys) && Starts(f, at, keys[0])
    ensures UndoneByOne(f, Presses(at, keys), SelectedBy(at, keys[0]))
  {
    hide Consistent, UndoneByOne, Erasable, UndoesAtOnce, FieldRun, FieldRunnable, Valid, SelectedBy, ErasedText;
    hide UndoRuns.Ok, UndoRuns.Run, UndoRuns.Runnable, Presses, EraseOps;
    OkState(f);
    ErasingShows(f, at, keys[0].now, keys);
    DeletedRunUndoesAtOnce(StateOf(f), at, keys);
    RunIsUndone(f, Presses(at, keys), EraseOps(at, keys), ErasedText(f.text, at, keys[0].now, keys),
                SelectedBy(at, keys[0]));
  }

  /** What the first press takes joins no step. */
  predicate Starts(f: Field, at: nat, k: Erasure) {
    Takes(f.text, at, k) && !Joins(f.h, f.text, Erased(at, k), [], k.now)
  }

  // ----- steps of their own -----

  /** A splice between two seals. */
  function Alone(f: Field, over: Range, t: Bytes, now: nat): History
    requires over.start <= over.end <= |f.text|
  {
    Sealed(Recorded(Sealed(f.h), f.text, over, t, f.selection, f.reversed, now))
  }

  /** It is one step, whatever was typed just before. */
  lemma AloneIsAStep(f: Field, over: Range, t: Bytes, now: nat)
    requires FieldOk(f) && Sliceable(f.text, over) && Valid(t) && Put(f.text, over, t) != f.text
    ensures var h := Alone(f, over, t, now);
      && Consistent(h, Put(f.text, over, t)) && Fresh(h)
      && Undone(h, Put(f.text, over, t)).1 == Some(Restored(f.text, f.selection, f.reversed))
  {
    hide Valid, Consistent, IsBoundary, Recorded, Sealed, Trim, View, Undone;
    var sel, k := Selected(f.selection, f.reversed), Stroke(t, now);
    var s := UndoRuns.State(Sealed(f.h), f.text);
    SealStep(f.h, f.text);
    OkState(f.(h := Sealed(f.h)));
    SealedJoinsNothing(f.h, f.text, over, t, now);
    FirstStroke(s, over, sel, k);
    var r := UndoRuns.Step(s, TypeOver(over, sel, k));
    SealStep(r.h, r.text);
    SealedKeepsRecord(r.h);
    StepIsUndone(UndoRuns.State(Sealed(r.h), r.text), UndoRuns.Seen(s).past, f.text, sel);
  }

  lemma SealedJoinsNothing(h: History, content: Bytes, over: Range, t: Bytes, now: nat)
    requires over.start <= over.end <= |content|
    ensures !Joins(Sealed(h), content, over, t, now)
  {
    hide Trim;
  }

  lemma SealedKeepsRecord(h: History)
    requires h.undo != []
    ensures var r := Last(Sealed(h).undo);
      Sealed(h).undo != [] && r.sealed && r.selection == Last(h.undo).selection && r.reversed == Last(h.undo).reversed
  {
  }

  /** Cut, paste and `replace_range` make such a splice. */
  lemma AloneIs(f: Field, op: FieldOp, over: Range, t: Bytes)
    requires FieldOk(f) && Editable(f) && Supplied(f, op) && FieldStep(f, op).text != f.text
    requires match op
             case Cut(_) => over == f.selection && t == []
             case Paste(u, _) => over == f.selection && t == u
             case ReplaceRange(r, u, _) => over == Clipped(f, r) && t == u
             case _ => false
    ensures Sliceable(f.text, over) && Valid(t)
    ensures var g := FieldStep(f, op);
      g.text == Put(f.text, over, t) && Editable(g) && g.h == Alone(f, over, t, op.now)
  {
    hide Valid, Consistent, Recorded, Sealed, IsBoundary;
    NothingIsValid();
  }

  /** So each is a step of its own: one undo shows the field as it was before, and what comes
      next begins a new step. */
  lemma AloneIsUndone(f: Field, op: FieldOp)
    requires FieldOk(f) && Editable(f) && Supplied(f, op) && (op.Cut? || op.Paste? || op.ReplaceRange?)
    requires FieldStep(f, op).text != f.text
    ensures UndoneByOne(f, [op], Selected(f.selection, f.reversed)) && Fresh(FieldStep(f, op).h)
  {
    hide Valid, Consistent, FieldStep, Undone, Alone, Fresh, IsBoundary;
    var over := match op case ReplaceRange(r, _, _) => Clipped(f, r) case _ => f.selection;
    var t := match op case Paste(u, _) => u case ReplaceRange(_, u, _) => u case _ => [];
    AloneIs(f, op, over, t);
    AloneIsAStep(f, over, t, op.now);
    FieldStepOk(f, op);
    var g := FieldStep(f, op);
    assert FieldRun(f, [op]) == g && FieldRunnable(f, [op]) by { assert [op][1..] == []; }
    UndoneShows(g, f.text, f.selection, f.reversed);
  }

  /** Gaining focus ends the step. */
  lemma FocusEndsTheStep(f: Field, op: FieldOp)
    requires FieldOk(f) && op.Focus?
    ensures Fresh(FieldStep(f, op).h) && FieldStep(f, op).text == f.text
  {
    hide Consistent;
    SealedEnds(f.h);
  }
}
