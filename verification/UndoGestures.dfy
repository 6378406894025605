/** Which splices share an undo step: typing runs, deletion runs, and what ends them. */
module UndoGestures {
  import opened Options
  import opened Utf8
  import opened Splice
  import opened UndoHistory
  import opened UndoRuns

  lemma TrimOfInsertion(content: Bytes, at: nat, text: Bytes)
    requires at <= |content|
    ensures Trim(content, Range(at, at), text) == Trimmed(at, [], text)
  {
    assert content[at..at] == [];
  }

  lemma TrimOfDeletion(content: Bytes, r: Range)
    requires r.start <= r.end <= |content|
    ensures Trim(content, r, []) == Trimmed(r.start, content[r.start..r.end], [])
  {
  }

  /** No splice can join the newest step: there is none, or it is sealed. */
  predicate Fresh(h: History) {
    h.undo == [] || Last(h.undo).sealed
  }

  // ----- typing -----

  /** The newest step is an insertion that ended at `at`, last grown at `now`. */
  predicate Typing(s: State, at: nat, now: nat) {
    && s.h.undo != [] && at <= |s.text|
    && var last := Last(s.h.undo);
       !last.sealed && !last.composing && last.after != [] && last.start + |last.after| == at && last.editedAt == now
  }

  datatype Stroke = Stroke(text: Bytes, now: nat)

  /** The selection that a call records, and whether its live end is the first one. */
  datatype Selected = Selected(range: Range, reversed: bool)

  function TypeOp(at: nat, rev: bool, k: Stroke): Op {
    Record(Range(at, at), k.text, Range(at, at), rev, k.now)
  }

  /** The same over a range, with any selection shown. */
  function TypeOver(over: Range, sel: Selected, k: Stroke): Op {
    Record(over, k.text, sel.range, sel.reversed, k.now)
  }

  /** Each stroke puts its text where the last one ended; typing leaves the direction alone. */
  function TypeOps(at: nat, rev: bool, strokes: seq<Stroke>): seq<Op>
    decreases |strokes|
  {
    if strokes == [] then [] else [TypeOp(at, rev, strokes[0])] + TypeOps(at + |strokes[0].text|, rev, strokes[1..])
  }

  /** The selection that undoing the newest step brings back. */
  ghost predicate Opened(s: State, sel: Selected) {
    s.h.undo != [] && Last(s.h.undo).selection == sel.range && Last(s.h.undo).reversed == sel.reversed
  }

  function TypedText(strokes: seq<Stroke>): Bytes {
    if strokes == [] then [] else strokes[0].text + TypedText(strokes[1..])
  }

  /** Real text, each stroke less than the interval after the one before. */
  predicate Steady(now: nat, strokes: seq<Stroke>)
    decreases |strokes|
  {
    strokes == [] ||
    (strokes[0].text != [] && Valid(strokes[0].text) && Elapsed(strokes[0].now, now) < UNDO_GROUP_INTERVAL
     && Steady(strokes[0].now, strokes[1..]))
  }

  lemma Inserted(content: Bytes, at: nat, text: Bytes)
    requires Valid(content) && Valid(text) && text != [] && Sliceable(content, Range(at, at))
    ensures var r := Apply(content, Range(at, at), text);
      && r != content && |r| == |content| + |text| && Sliceable(r, Range(at + |text|, at + |text|))
      && r[..at + |text|] == content[..at] + text && r[at + |text|..] == content[at..]
  {
    hide Valid, CharLen;
    SplitValid(content, at);
    SeamsAreBoundaries(content[..at], text, content[at..]);
  }

  /** The stacks after a stroke: the newest step grown, or a new one. */
  lemma RecordedStroke(h: History, content: Bytes, at: nat, rev: bool, k: Stroke)
    requires at <= |content| && k.text != []
    ensures var t := Trimmed(at, [], k.text);
      var r := Recorded(h, content, Range(at, at), k.text, Range(at, at), rev, k.now);
      r == if h.undo != [] && Coalesced(Last(h.undo), t, k.now).Some?
           then History(DropLast(h.undo) + [Coalesced(Last(h.undo), t, k.now).value], [])
           else History(Pushed(h.undo, EditRecord(at, [], k.text, Range(at, at), rev, k.now, false, false)), [])
    ensures Joins(h, content, Range(at, at), k.text, k.now) ==
            (h.undo != [] && Coalesced(Last(h.undo), Trimmed(at, [], k.text), k.now).Some?)
  {
    hide Trim, Coalesced, Pushed;
    TrimOfInsertion(content, at, k.text);
  }

  lemma LastPushed(undo: seq<EditRecord>, r: EditRecord)
    ensures Pushed(undo, r) != [] && Last(Pushed(undo, r)) == r
  {
  }

  lemma StrokeJoins(s: State, at: nat, rev: bool, now: nat, k: Stroke)
    requires Ok(s) && Typing(s, at, now) && Sliceable(s.text, Range(at, at))
    requires k.text != [] && Valid(k.text) && Elapsed(k.now, now) < UNDO_GROUP_INTERVAL
    ensures Enabled(s, TypeOp(at, rev, k))
    ensures var r := Step(s, TypeOp(at, rev, k));
      && Ok(r) && Typing(r, at + |k.text|, k.now) && r.text == Apply(s.text, Range(at, at), k.text)
      && Seen(r).past == Seen(s).past && forall sel :: Opened(s, sel) ==> Opened(r, sel)
  {
    hide Valid, IsBoundary, Apply, Consistent, View, Recorded, Joins;
    RecordedStroke(s.h, s.text, at, rev, k);
    RecordStep(s.h, s.text, Range(at, at), k.text, Range(at, at), rev, k.now);
    OkText(s);
    Inserted(s.text, at, k.text);
  }

  lemma OkText(s: State)
    requires Ok(s)
    ensures Valid(s.text)
  {
  }

  /** Strokes that keep coming add no step: what undo leads to stays the same, selection and
      all. */
  lemma {:induction false} TypingAddsNoStep(s: State, at: nat, sel: Selected, rev: bool, now: nat, strokes: seq<Stroke>)
    requires Ok(s) && Typing(s, at, now) && Opened(s, sel) && Sliceable(s.text, Range(at, at)) && Steady(now, strokes)
    ensures Runnable(s, TypeOps(at, rev, strokes))
    ensures var r := Run(s, TypeOps(at, rev, strokes));
      && Ok(r) && Opened(r, sel) && Seen(r).past == Seen(s).past
      && r.text == s.text[..at] + TypedText(strokes) + s.text[at..]
    decreases |strokes|
  {
    hide Ok, Enabled, Step, Valid, IsBoundary, Seen, Apply, Opened;
    if strokes == [] {
      assert s.text[..at] + [] + s.text[at..] == s.text;
    } else {
      var k, rest := strokes[0], strokes[1..];
      StrokeJoins(s, at, rev, now, k);
      OkText(s);
      Inserted(s.text, at, k.text);
      var r := Step(s, TypeOp(at, rev, k));
      TypingAddsNoStep(r, at + |k.text|, sel, rev, k.now, rest);
      assert TypeOps(at, rev, strokes)[1..] == TypeOps(at + |k.text|, rev, rest);
      Together(s.text[..at], k.text, TypedText(rest), s.text[at..]);
    }
  }

  lemma Together(a: Bytes, b: Bytes, c: Bytes, d: Bytes)
    ensures (a + b) + c + d == a + (b + c) + d
  {
  }

  /** What is recorded of a stroke over a selection ends at the caret: the typed text goes on
      beyond what it shares with the front of the selection, and shares nothing with its end. */
  predicate EndsAtCaret(content: Bytes, over: Range, text: Bytes)
    requires over.start <= over.end <= |content|
  {
    var t := Trim(content, over, text);
    t.inserted != [] && t.start + |t.inserted| == over.start + |text|
  }

  lemma InsertionEndsAtCaret(content: Bytes, at: nat, text: Bytes)
    requires at <= |content| && text != []
    ensures EndsAtCaret(content, Range(at, at), text)
  {
    hide Trim;
    TrimOfInsertion(content, at, text);
  }

  /** A stroke that joins no step is the newest one then. */
  lemma NewestStroke(h: History, content: Bytes, over: Range, sel: Selected, k: Stroke)
    requires over.start <= over.end <= |content| && Valid(content) && Valid(k.text) && Sliceable(content, over)
    requires !Joins(h, content, over, k.text, k.now) && Apply(content, over, k.text) != content
    ensures var undo := Recorded(h, content, over, k.text, sel.range, sel.reversed, k.now).undo;
      var t := Trim(content, over, k.text);
      && undo != []
      && Last(undo) == EditRecord(t.start, t.removed, t.inserted, sel.range, sel.reversed, k.now, false, false)
  {
    hide Trim, Coalesced, Pushed, Valid, IsBoundary, Apply;
    TrimIsEmptyIffNoChange(content, over, k.text);
    var t := Trim(content, over, k.text);
    LastPushed(h.undo, EditRecord(t.start, t.removed, t.inserted, sel.range, sel.reversed, k.now, false, false));
  }

  /** The first stroke of a run, over a range or none. */
  lemma FirstStroke(s: State, over: Range, sel: Selected, k: Stroke)
    requires Ok(s) && Sliceable(s.text, over) && Valid(k.text) && Apply(s.text, over, k.text) != s.text
    requires Sliceable(s.text, sel.range) && !Joins(s.h, s.text, over, k.text, k.now)
    ensures Enabled(s, TypeOver(over, sel, k))
    ensures var r := Step(s, TypeOver(over, sel, k)); var t := Trim(s.text, over, k.text);
      && Ok(r) && r.text == Apply(s.text, over, k.text) && Seen(r).past == Capped(Seen(s).past + [s.text])
      && r.h.undo != []
      && Last(r.h.undo) == EditRecord(t.start, t.removed, t.inserted, sel.range, sel.reversed, k.now, false, false)
  {
    hide Valid, IsBoundary, Apply, Consistent, View, Recorded, Joins, Capped, Trim;
    OkText(s);
    NewestStroke(s.h, s.text, over, sel, k);
    RecordStep(s.h, s.text, over, k.text, sel.range, sel.reversed, k.now);
  }

  lemma Replaced(content: Bytes, over: Range, text: Bytes)
    requires Valid(content) && Valid(text) && Sliceable(content, over)
    ensures var r, at := Apply(content, over, text), over.start + |text|;
      && at <= |r| && Sliceable(r, Range(at, at))
      && r[..at] == content[..over.start] + text && r[at..] == content[over.end..]
  {
    hide Valid, CharLen;
    SplitValid(content, over.start);
    SplitValid(content, over.end);
    SeamsAreBoundaries(content[..over.start], text, content[over.end..]);
  }

  lemma CappedLast<T>(a: seq<T>, x: T)
    ensures Capped(a + [x]) != [] && Last(Capped(a + [x])) == x
  {
  }

  /** The run ends with `text`, and one undo then shows `back` with the selection `sel`. */
  ghost predicate UndoesAtOnce(s: State, ops: seq<Op>, text: Bytes, back: Bytes, sel: Selected) {
    && Runnable(s, ops)
    && var r := Run(s, ops);
       Ok(r) && r.text == text && Undone(r.h, r.text).1 == Some(Restored(back, sel.range, sel.reversed))
  }

  /** A run over a range or none: the first stroke joins no step and changes the text. */
  predicate Begins(s: State, over: Range, sel: Selected, first: Stroke) {
    && Sliceable(s.text, over) && Sliceable(s.text, sel.range) && Valid(first.text) && first.text != []
    && Apply(s.text, over, first.text) != s.text && !Joins(s.h, s.text, over, first.text, first.now)
  }

  function TypedOver(over: Range, sel: Selected, first: Stroke, strokes: seq<Stroke>): seq<Op> {
    [TypeOver(over, sel, first)] + TypeOps(over.start + |first.text|, sel.reversed, strokes)
  }

  function TextAfter(text: Bytes, over: Range, first: Stroke, strokes: seq<Stroke>): Bytes
    requires over.start <= over.end <= |text|
  {
    text[..over.start] + (first.text + TypedText(strokes)) + text[over.end..]
  }

  lemma RunsOn(s: State, op: Op, ops: seq<Op>)
    requires Ok(s) && Enabled(s, op) && Runnable(Step(s, op), ops)
    ensures Runnable(s, [op] + ops) && Run(s, [op] + ops) == Run(Step(s, op), ops)
  {
    hide Ok, Enabled, Step;
    assert ([op] + ops)[1..] == ops;
  }

  /** The state after the first stroke is one of typing where its record ends at the caret. */
  lemma TypingFrom(s: State, over: Range, sel: Selected, k: Stroke)
    requires Ok(s) && Begins(s, over, sel, k)
    ensures Enabled(s, TypeOver(over, sel, k)) && Ok(Step(s, TypeOver(over, sel, k)))
    ensures var r, at := Step(s, TypeOver(over, sel, k)), over.start + |k.text|;
      && at <= |r.text| && Sliceable(r.text, Range(at, at))
      && r.text[..at] == s.text[..over.start] + k.text && r.text[at..] == s.text[over.end..]
      && r.text != s.text && Opened(r, sel) && Seen(r).past == Capped(Seen(s).past + [s.text])
      && (EndsAtCaret(s.text, over, k.text) ==> Typing(r, at, k.now))
  {
    hide Ok, Valid, IsBoundary, Apply, Step, Seen, Joins, Capped, Trim, Enabled;
    FirstStroke(s, over, sel, k);
    OkText(s);
    Replaced(s.text, over, k.text);
  }

  /** A typed run is one step, and one undo takes all of it away, if what is recorded of its
      first stroke ends at the caret; a stroke over no range always does. The selection
      shown before the run comes back with the text. */
  lemma TypedRunUndoesAtOnce(s: State, over: Range, sel: Selected, first: Stroke, strokes: seq<Stroke>)
    requires Ok(s) && Begins(s, over, sel, first) && Steady(first.now, strokes)
    requires strokes == [] || over.start == over.end || EndsAtCaret(s.text, over, first.text)
    ensures UndoesAtOnce(s, TypedOver(over, sel, first, strokes), TextAfter(s.text, over, first, strokes), s.text, sel)
  {
    hide Ok, Enabled, Valid, IsBoundary, Steady, TypedText, Step, Seen, Apply, Begins, Typing, EndsAtCaret, Capped;
    hide Opened, Undone;
    BeginsWithText(s, over, sel, first);
    TypingFrom(s, over, sel, first);
    var op, at := TypeOver(over, sel, first), over.start + |first.text|;
    var r := Step(s, op);
    if strokes == [] {
      RunsOn(s, op, []);
      assert TypeOps(at, sel.reversed, strokes) == [];
      assert TypedText(strokes) == [] by { NothingTyped(); }
      OneStroke(r.text, at, s.text[..over.start], first.text, s.text[over.end..]);
      StepIsUndone(r, Seen(s).past, s.text, sel);
    } else {
      if over.start == over.end { InsertionEndsAtCaret(s.text, over.start, first.text); }
      TypingAddsNoStep(r, at, sel, sel.reversed, first.now, strokes);
      RunsOn(s, op, TypeOps(at, sel.reversed, strokes));
      Together(s.text[..over.start], first.text, TypedText(strokes), s.text[over.end..]);
      StepIsUndone(Run(r, TypeOps(at, sel.reversed, strokes)), Seen(s).past, s.text, sel);
    }
  }

  lemma OneStroke(text: Bytes, at: nat, a: Bytes, b: Bytes, c: Bytes)
    requires at <= |text| && text[..at] == a + b && text[at..] == c
    ensures text == a + (b + []) + c
  {
    assert text == text[..at] + text[at..];
    assert b + [] == b;
  }

  lemma BeginsWithText(s: State, over: Range, sel: Selected, first: Stroke)
    requires Begins(s, over, sel, first)
    ensures first.text != [] && over.start <= over.end <= |s.text|
  {
  }

  lemma TypedFirst(strokes: seq<Stroke>)
    requires strokes != []
    ensures TypedText(strokes) == strokes[0].text + TypedText(strokes[1..])
  {
  }

  lemma NothingTyped()
    ensures TypedText([]) == []
  {
  }

  /** One undo after a run that left one step more shows the text before it. */
  lemma StepIsUndone(r: State, past: seq<Bytes>, back: Bytes, sel: Selected)
    requires Ok(r) && Opened(r, sel) && Seen(r).past == Capped(past + [back])
    ensures Undone(r.h, r.text).1 == Some(Restored(back, sel.range, sel.reversed))
  {
    hide Valid, IsBoundary, UndoFits, RedoFits, Undone, View, Capped;
    CappedLast(past, back);
    UndoStep(r.h, r.text);
  }

  /** Where it does not end there - `pe` typed over `cape`, `a` over `ab` - the next stroke is a
      step of its own, and one undo leaves the first. */
  lemma TypedOverUndoesAtOnceIff(s: State, over: Range, sel: Selected, first: Stroke, strokes: seq<Stroke>)
    requires Ok(s) && Begins(s, over, sel, first) && strokes != [] && Steady(first.now, strokes)
    ensures UndoesAtOnce(s, TypedOver(over, sel, first, strokes), TextAfter(s.text, over, first, strokes), s.text, sel)
       <==> EndsAtCaret(s.text, over, first.text)
  {
    hide Ok, Enabled, Valid, IsBoundary, TypedText, Step, Seen, Apply, Begins, Typing;
    hide EndsAtCaret, Capped, UndoesAtOnce;
    BeginsWithText(s, over, sel, first);
    if EndsAtCaret(s.text, over, first.text) {
      TypedRunUndoesAtOnce(s, over, sel, first, strokes);
    } else {
      SteadyIsApart(s, over, first, strokes);
      SecondStepStays(s, over, sel, first, strokes);
      ChangesText(s, over, sel, first);
      var ops, text := TypedOver(over, sel, first, strokes), TextAfter(s.text, over, first, strokes);
      if UndoesAtOnce(s, ops, text, s.text, sel) {
        OneWayBack(s, ops, text, Apply(s.text, over, first.text), AtCaret(over, sel, first), s.text, sel);
      }
    }
  }

  lemma SteadyIsApart(s: State, over: Range, first: Stroke, strokes: seq<Stroke>)
    requires strokes != [] && Steady(first.now, strokes) && over.start <= over.end <= |s.text|
    requires !EndsAtCaret(s.text, over, first.text)
    ensures Apart(s, over, first, strokes[0]) && Steady(strokes[0].now, strokes[1..])
  {
    hide Valid, EndsAtCaret;
  }

  lemma OneWayBack(s: State, ops: seq<Op>, text: Bytes, a: Bytes, x: Selected, b: Bytes, y: Selected)
    requires UndoesAtOnce(s, ops, text, a, x) && UndoesAtOnce(s, ops, text, b, y)
    ensures a == b
  {
    hide Runnable, Run, Ok, Step, Undone;
  }

  lemma ChangesText(s: State, over: Range, sel: Selected, first: Stroke)
    requires Begins(s, over, sel, first)
    ensures over.start <= over.end <= |s.text| && Apply(s.text, over, first.text) != s.text
  {
  }

  /** The selection after the first stroke. */
  function AtCaret(over: Range, sel: Selected, first: Stroke): Selected {
    Selected(Range(over.start + |first.text|, over.start + |first.text|), sel.reversed)
  }

  /** The second stroke comes after a pause, or where the record of the first does not end. */
  predicate Apart(s: State, over: Range, first: Stroke, second: Stroke)
    requires over.start <= over.end <= |s.text|
  {
    && second.text != [] && Valid(second.text)
    && (Elapsed(second.now, first.now) >= UNDO_GROUP_INTERVAL || !EndsAtCaret(s.text, over, first.text))
  }

  /** It begins a new run then. */
  lemma SecondBegins(s: State, over: Range, sel: Selected, first: Stroke, second: Stroke)
    requires Ok(s) && Begins(s, over, sel, first) && Apart(s, over, first, second)
    ensures Enabled(s, TypeOver(over, sel, first))
    ensures var r, at := Step(s, TypeOver(over, sel, first)), over.start + |first.text|;
      Ok(r) && at <= |r.text| && Begins(r, Range(at, at), AtCaret(over, sel, first), second)
  {
    hide Ok, Valid, IsBoundary, Apply, Step, Seen, Capped, Trim, Enabled, Opened;
    FirstStroke(s, over, sel, first);
    TypingFrom(s, over, sel, first);
    var r, at := Step(s, TypeOver(over, sel, first)), over.start + |first.text|;
    OkText(r);
    Inserted(r.text, at, second.text);
    RecordedStroke(r.h, r.text, at, sel.reversed, second);
  }

  /** So one undo leaves the first stroke. */
  lemma SecondStepStays(s: State, over: Range, sel: Selected, first: Stroke, strokes: seq<Stroke>)
    requires Ok(s) && Begins(s, over, sel, first)
    requires strokes != [] && Apart(s, over, first, strokes[0]) && Steady(strokes[0].now, strokes[1..])
    ensures UndoesAtOnce(s, TypedOver(over, sel, first, strokes), TextAfter(s.text, over, first, strokes),
                         Apply(s.text, over, first.text), AtCaret(over, sel, first))
  {
    hide Ok, Enabled, Valid, IsBoundary, TypedText, Step, Seen, Apply, Begins, Typing, EndsAtCaret, Capped;
    hide Opened, Undone;
    var op, at := TypeOver(over, sel, first), over.start + |first.text|;
    var second, rest := strokes[0], strokes[1..];
    BeginsWithText(s, over, sel, first);
    SecondBegins(s, over, sel, first, second);
    TypingFrom(s, over, sel, first);
    var r := Step(s, op);
    var again, caret := Range(at, at), AtCaret(over, sel, first);
    TypedRunUndoesAtOnce(r, again, caret, second, rest);
    RunsOn(s, op, TypedOver(again, caret, second, rest));
    assert TypeOps(at, sel.reversed, strokes) == TypedOver(again, caret, second, rest);
    assert TypedOver(over, sel, first, strokes) == [op] + TypedOver(again, caret, second, rest);
    FirstShows(s, over, sel, first);
    TypedFirst(strokes);
    Together(s.text[..over.start], first.text, TypedText(strokes), s.text[over.end..]);
  }

  lemma FirstShows(s: State, over: Range, sel: Selected, first: Stroke)
    requires Ok(s) && Begins(s, over, sel, first)
    ensures var op := TypeOver(over, sel, first); Enabled(s, op) && Step(s, op).text == Apply(s.text, over, first.text)
  {
    hide Ok, Valid, IsBoundary, Apply, Seen, Joins, Capped, Trim, Step, Enabled;
    FirstStroke(s, over, sel, first);
  }

  lemma SharedFront()
    ensures !EndsAtCaret([0x61, 0x62], Range(0, 2), [0x61])
  {
    hide Valid, Trim;
    LettersAreText();
    var a: Bytes, b: Bytes, none: Bytes := [0x61], [0x62], [];
    assert a + b == [0x61, 0x62] && a + none == a && (a + b)[0..2] == a + b;
    FrontGoesFirst(a + b, Range(0, 2), a, a, b, none);
  }

  lemma LettersAreText()
    ensures Valid([]) && Valid([0x61, 0x62]) && Valid([0x61]) && Valid([0x62]) && Valid([0x63])
  {
    var ab: Bytes, a: Bytes, c: Bytes := [0x61, 0x62], [0x61], [0x63];
    assert ab[1..] == [0x62] && ab[1..][1..] == [] && a[1..] == [] && c[1..] == [];
    assert Valid(ab[1..]);
  }

  lemma SelectedBegins()
    ensures var s, sel := State(History([], []), [0x61, 0x62]), Selected(Range(0, 2), false);
      Ok(s) && Begins(s, Range(0, 2), sel, Stroke([0x61], 0))
      && Apply(s.text, Range(0, 2), [0x61]) == [0x61] && Apart(s, Range(0, 2), Stroke([0x61], 0), Stroke([0x63], 1))
  {
    hide Valid, EndsAtCaret;
    LettersAreText();
    SharedFront();
    assert Apply([0x61, 0x62], Range(0, 2), [0x61]) == [0x61];
  }

  /** Select `ab` and type `ac`: one undo shows `a`, not `ab`. */
  lemma TypedOverTakesTwoUndos()
    ensures var s := State(History([], []), [0x61, 0x62]);
      && Ok(s)
      && UndoesAtOnce(s, TypedOver(Range(0, 2), Selected(Range(0, 2), false), Stroke([0x61], 0), [Stroke([0x63], 1)]),
                      [0x61, 0x63], [0x61], Selected(Range(1, 1), false))
  {
    hide UndoesAtOnce, TypedOver, Begins, Apart, Ok, Apply, Valid;
    var a: Bytes, c: Bytes := [0x61], [0x63];
    var s := State(History([], []), [0x61, 0x62]);
    SelectedBegins();
    assert [Stroke(c, 1)][1..] == [];
    SecondStepStays(s, Range(0, 2), Selected(Range(0, 2), false), Stroke(a, 0), [Stroke(c, 1)]);
    assert TypedText([Stroke(c, 1)]) == c;
    assert TextAfter(s.text, Range(0, 2), Stroke(a, 0), [Stroke(c, 1)]) == [0x61, 0x63];
  }

  /** Two keys 299 milliseconds apart are one step, and 300 apart they are two. */
  lemma HowLongAStepIs(now: nat)
    ensures var s, sel := State(History([], []), []), Selected(Range(0, 0), false);
      var a := Stroke([0x61], now);
      && Ok(s)
      && UndoesAtOnce(s, TypedOver(Range(0, 0), sel, a, [Stroke([0x62], now + 299)]), [0x61, 0x62], [], sel)
      && UndoesAtOnce(s, TypedOver(Range(0, 0), sel, a, [Stroke([0x62], now + 300)]), [0x61, 0x62], [0x61],
                      Selected(Range(1, 1), false))
  {
    hide UndoesAtOnce, TypedOver, EndsAtCaret;
    var s, sel := State(History([], []), []), Selected(Range(0, 0), false);
    var a, soon, late := Stroke([0x61], now), [Stroke([0x62], now + 299)], [Stroke([0x62], now + 300)];
    EmptyBegins(now);
    assert soon[1..] == [] && late[1..] == [];
    TypedRunUndoesAtOnce(s, Range(0, 0), sel, a, soon);
    SecondStepStays(s, Range(0, 0), sel, a, late);
    assert TypedText(soon) == [0x62] && TypedText(late) == [0x62];
    assert TextAfter([], Range(0, 0), a, soon) == [0x61, 0x62] == TextAfter([], Range(0, 0), a, late);
    assert Apply([], Range(0, 0), [0x61]) == [0x61];
  }

  lemma EmptyBegins(now: nat)
    ensures var s, sel := State(History([], []), []), Selected(Range(0, 0), false);
      Ok(s) && Begins(s, Range(0, 0), sel, Stroke([0x61], now)) && Valid([0x61]) && Valid([0x62])
  {
    var a: Bytes, b: Bytes := [0x61], [0x62];
    assert a[1..] == [] && b[1..] == [];
    assert Apply([], Range(0, 0), a) == a;
  }

  // ----- deleting -----

  /** The newest step is a deletion at `at`, last grown at `now`. */
  predicate Deleting(s: State, at: nat, now: nat) {
    && s.h.undo != [] && at <= |s.text|
    && var last := Last(s.h.undo);
       !last.sealed && !last.composing && last.after == [] && last.before != [] && last.start == at
       && last.editedAt == now
  }

  /** One press of backspace, or of forward delete, that takes `count` bytes. */
  datatype Erasure = Back(count: nat, now: nat) | Forward(count: nat, now: nat)

  function Erased(at: nat, k: Erasure): Range {
    match k
    case Back(n, _) => Range(if n <= at then at - n else 0, at)
    case Forward(n, _) => Range(at, at + n)
  }

  /** The press first selects what it takes, from the caret back or on. */
  function SelectedBy(at: nat, k: Erasure): Selected {
    Selected(Erased(at, k), k.Back?)
  }

  function EraseOp(at: nat, k: Erasure): Op {
    Record(Erased(at, k), [], SelectedBy(at, k).range, SelectedBy(at, k).reversed, k.now)
  }

  function EraseOps(at: nat, keys: seq<Erasure>): seq<Op>
    decreases |keys|
  {
    if keys == [] then [] else [EraseOp(at, keys[0])] + EraseOps(Erased(at, keys[0]).start, keys[1..])
  }

  /** Each press takes whole characters next to the caret. */
  predicate Takes(text: Bytes, at: nat, k: Erasure) {
    k.count > 0 && (k.Back? ==> k.count <= at) && Sliceable(text, Erased(at, k)) && Sliceable(text, Range(at, at))
  }

  /** Each press comes less than the interval after the one before. */
  predicate Erasable(text: Bytes, at: nat, now: nat, keys: seq<Erasure>)
    decreases |keys|
  {
    keys == [] ||
    (Takes(text, at, keys[0]) && Elapsed(keys[0].now, now) < UNDO_GROUP_INTERVAL
     && Erasable(Apply(text, Erased(at, keys[0]), []), Erased(at, keys[0]).start, keys[0].now, keys[1..]))
  }

  /** The text after all of them. */
  function ErasedText(text: Bytes, at: nat, now: nat, keys: seq<Erasure>): Bytes
    requires Erasable(text, at, now, keys)
    decreases |keys|
  {
    if keys == [] then text
    else ErasedText(Apply(text, Erased(at, keys[0]), []), Erased(at, keys[0]).start, keys[0].now, keys[1..])
  }

  lemma Shrunk(text: Bytes, r: Range)
    requires r.start < r.end <= |text|
    ensures Apply(text, r, []) != text && |Apply(text, r, [])| >= r.start
  {
    assert |Apply(text, r, [])| < |text|;
  }

  lemma NothingToAdd()
    ensures Valid([])
  {
  }

  /** Backspace and forward delete alike join a deletion. */
  lemma ErasureJoins(s: State, at: nat, now: nat, k: Erasure)
    requires Ok(s) && Deleting(s, at, now) && Takes(s.text, at, k) && Elapsed(k.now, now) < UNDO_GROUP_INTERVAL
    ensures Enabled(s, EraseOp(at, k))
    ensures var r := Step(s, EraseOp(at, k));
      && Ok(r) && Deleting(r, Erased(at, k).start, k.now) && r.text == Apply(s.text, Erased(at, k), [])
      && Seen(r).past == Seen(s).past && forall sel :: Opened(s, sel) ==> Opened(r, sel)
  {
    hide Valid, CharLen, IsBoundary, Apply, Consistent, View, Trim;
    NothingToAdd();
    var range := Erased(at, k);
    TrimOfDeletion(s.text, range);
    RecordStep(s.h, s.text, range, [], range, k.Back?, k.now);
    Shrunk(s.text, range);
  }

  lemma FirstErasure(s: State, at: nat, k: Erasure)
    requires Ok(s) && Takes(s.text, at, k) && !Joins(s.h, s.text, Erased(at, k), [], k.now)
    ensures Enabled(s, EraseOp(at, k))
    ensures var r := Step(s, EraseOp(at, k));
      && Ok(r) && Deleting(r, Erased(at, k).start, k.now) && r.text == Apply(s.text, Erased(at, k), [])
      && Seen(r).past == Capped(Seen(s).past + [s.text]) && Opened(r, SelectedBy(at, k))
  {
    hide Valid, CharLen, IsBoundary, Apply, Consistent, View, Trim;
    NothingToAdd();
    var range := Erased(at, k);
    TrimOfDeletion(s.text, range);
    RecordStep(s.h, s.text, range, [], range, k.Back?, k.now);
    Shrunk(s.text, range);
  }

  lemma {:induction false} DeletingAddsNoStep(s: State, at: nat, sel: Selected, now: nat, keys: seq<Erasure>)
    requires Ok(s) && Deleting(s, at, now) && Opened(s, sel) && Erasable(s.text, at, now, keys)
    ensures Runnable(s, EraseOps(at, keys))
    ensures var r := Run(s, EraseOps(at, keys));
      Ok(r) && Opened(r, sel) && Seen(r).past == Seen(s).past && r.text == ErasedText(s.text, at, now, keys)
    decreases |keys|
  {
    hide Ok, Enabled, Step, Valid, IsBoundary, Seen, Apply, Takes, Erased, Opened;
    if keys != [] {
      ErasureJoins(s, at, now, keys[0]);
      DeletingAddsNoStep(Step(s, EraseOp(at, keys[0])), Erased(at, keys[0]).start, sel, keys[0].now, keys[1..]);
      assert EraseOps(at, keys)[1..] == EraseOps(Erased(at, keys[0]).start, keys[1..]);
    }
  }

  /** A run of deletions in either direction that joins no step before it is one step: one undo
      brings all of it back, with the first press's selection. */
  lemma DeletedRunUndoesAtOnce(s: State, at: nat, keys: seq<Erasure>)
    requires Ok(s) && keys != [] && Erasable(s.text, at, keys[0].now, keys)
    requires !Joins(s.h, s.text, Erased(at, keys[0]), [], keys[0].now)
    ensures UndoesAtOnce(s, EraseOps(at, keys), ErasedText(s.text, at, keys[0].now, keys), s.text,
                         SelectedBy(at, keys[0]))
  {
    hide Ok, Enabled, Valid, IsBoundary, Consistent, Undone, View, Apply, Step, Takes, Erased, Opened;
    FirstErasure(s, at, keys[0]);
    var sel := SelectedBy(at, keys[0]);
    DeletingAddsNoStep(Step(s, EraseOp(at, keys[0])), Erased(at, keys[0]).start, sel, keys[0].now, keys[1..]);
    assert EraseOps(at, keys)[1..] == EraseOps(Erased(at, keys[0]).start, keys[1..]);
    StepIsUndone(Run(s, EraseOps(at, keys)), Seen(s).past, s.text, sel);
  }

  // ----- what joins a run, and what ends one -----

  /** The newest step is open to a change at this moment. */
  predicate OpenAt(h: History, now: nat) {
    && h.undo != [] && !Last(h.undo).sealed && !Last(h.undo).composing
    && Elapsed(now, Last(h.undo).editedAt) < UNDO_GROUP_INTERVAL
  }

  /** Typed text joins the newest step exactly when that is open, has put something in and
      ended where the text goes: typing after deleting, or somewhere else, does not. */
  lemma InsertionJoinsIff(h: History, content: Bytes, at: nat, text: Bytes, now: nat)
    requires at <= |content| && text != []
    ensures Joins(h, content, Range(at, at), text, now) <==>
      OpenAt(h, now) && Last(h.undo).after != [] && at == Last(h.undo).start + |Last(h.undo).after|
  {
    hide Trim;
    TrimOfInsertion(content, at, text);
  }

  /** A deletion joins it exactly when that is open, has only taken something away, and what
      goes now was just before it or just after. */
  lemma DeletionJoinsIff(h: History, content: Bytes, r: Range, now: nat)
    requires r.start < r.end <= |content|
    ensures Joins(h, content, r, [], now) <==>
      && OpenAt(h, now) && Last(h.undo).after == [] && Last(h.undo).before != []
      && (r.end == Last(h.undo).start || r.start == Last(h.undo).start)
  {
    hide Trim;
    TrimOfDeletion(content, r);
  }

  /** A seal, a pause, an open composition, or deleting after typing: the next change is a
      step of its own. */
  lemma TheNextChangeIsAStep(s: State, op: Op)
    requires Ok(s) && op.Record? && Enabled(s, op) && Apply(s.text, op.range, op.newText) != s.text
    requires
      || Fresh(s.h) || Last(s.h.undo).composing || Elapsed(op.now, Last(s.h.undo).editedAt) >= UNDO_GROUP_INTERVAL
      || (Last(s.h.undo).after != [] && op.newText == [])
    ensures Ok(Step(s, op)) && Seen(Step(s, op)).past == Capped(Seen(s).past + [s.text])
  {
    hide Valid, CharLen, IsBoundary, Apply, Consistent, View, Trim;
    RecordStep(s.h, s.text, op.range, op.newText, op.selection, op.reversed, op.now);
    if op.newText == [] {
      TrimOfDeletion(s.text, op.range);
      SomethingTaken(s.text, op.range);
    }
  }

  lemma SomethingTaken(text: Bytes, r: Range)
    requires r.start <= r.end <= |text| && Apply(text, r, []) != text
    ensures text[r.start..r.end] != []
  {
    assert text == text[..r.start] + text[r.start..];
  }
}
