/** The undo/redo history of the text field (`EditHistory` in `src/input.rs`).

    The specification functions act on values; class `EditHistory` at the end does
    the same in place and is proved equal to them. */
module UndoHistory {
  import opened Basics
  import opened Options
  import opened Utf8
  import opened Splice

  /** Milliseconds within which a new edit may still join the newest step. */
  const UNDO_GROUP_INTERVAL: nat := 300
  const UNDO_HISTORY_CAP: nat := 1000

  /** One step: the text at `start` was `before` and is now `after`. */
  datatype EditRecord = EditRecord(
    start: nat, before: Bytes, after: Bytes,
    selection: Range, reversed: bool, editedAt: nat, sealed: bool, composing: bool)

  datatype History = History(undo: seq<EditRecord>, redo: seq<EditRecord>)

  /** What `undo` and `redo` hand back: the text and the selection to show. */
  datatype Restored = Restored(text: Bytes, selection: Range, reversed: bool)

  function Last<T>(s: seq<T>): T
    requires s != []
  {
    s[|s| - 1]
  }

  function DropLast<T>(s: seq<T>): seq<T>
    requires s != []
  {
    s[..|s| - 1]
  }

  // ----- the operations -----

  /** `Instant::duration_since`, which is zero for an earlier instant. */
  function Elapsed(now: nat, earlier: nat): nat {
    if now >= earlier then now - earlier else 0
  }

  /** The newest step grown by a trimmed edit, when the two read as one gesture. */
  function Coalesced(last: EditRecord, t: Trimmed, now: nat): Option<EditRecord> {
    if last.sealed || last.composing || Elapsed(now, last.editedAt) >= UNDO_GROUP_INTERVAL then None
    else if t.removed == [] && last.after != [] && t.start == last.start + |last.after| then
      Some(last.(after := last.after + t.inserted, editedAt := now))
    else if t.inserted == [] && last.after == [] && last.before != [] then
      if t.start + |t.removed| == last.start then
        Some(last.(start := t.start, before := t.removed + last.before, editedAt := now))
      else if t.start == last.start then
        Some(last.(before := last.before + t.removed, editedAt := now))
      else None
    else None
  }

  function Pushed(undo: seq<EditRecord>, r: EditRecord): seq<EditRecord> {
    var u := undo + [r];
    if |u| > UNDO_HISTORY_CAP then u[|u| - UNDO_HISTORY_CAP..] else u
  }

  function Recorded(h: History, content: Bytes, range: Range, newText: Bytes,
                    selection: Range, reversed: bool, now: nat): History
    requires range.start <= range.end <= |content|
  {
    var t := Trim(content, range, newText);
    if t.removed == [] && t.inserted == [] then h
    else if h.undo != [] && Coalesced(Last(h.undo), t, now).Some? then
      History(DropLast(h.undo) + [Coalesced(Last(h.undo), t, now).value], [])
    else
      History(Pushed(h.undo, EditRecord(t.start, t.removed, t.inserted, selection, reversed, now, false, false)), [])
  }

  /** Does a splice of `range` stay inside what the open composition has put there? */
  predicate InsideComposition(h: History, range: Range) {
    h.undo != [] && Last(h.undo).composing &&
    Last(h.undo).start <= range.start && range.end <= Last(h.undo).start + |Last(h.undo).after|
  }

  function Amended(r: EditRecord, range: Range, newText: Bytes, now: nat): EditRecord
    requires r.start <= range.start <= range.end <= r.start + |r.after|
  {
    r.(after := Apply(r.after, Range(range.start - r.start, range.end - r.start), newText), editedAt := now)
  }

  /** `finalize_composition` without its pop: no later splice joins the step. */
  function Closed(undo: seq<EditRecord>): seq<EditRecord> {
    if undo != [] && Last(undo).composing then
      DropLast(undo) + [Last(undo).(composing := false, sealed := true)]
    else undo
  }

  function RecordedComposition(h: History, content: Bytes, range: Range, newText: Bytes,
                               selection: Range, reversed: bool, now: nat): History
    requires range.start <= range.end <= |content|
  {
    if InsideComposition(h, range) then
      History(DropLast(h.undo) + [Amended(Last(h.undo), range, newText, now)], [])
    else
      History(Pushed(Closed(h.undo), EditRecord(range.start, content[range.start..range.end], newText,
                                                selection, reversed, now, false, true)), [])
  }

  function Finalized(h: History): History {
    if h.undo != [] && Last(h.undo).composing then
      if Last(h.undo).before == Last(h.undo).after then h.(undo := DropLast(h.undo))
      else h.(undo := Closed(h.undo))
    else h
  }

  function Sealed(h: History): History {
    if h.undo == [] then h
    else h.(undo := DropLast(h.undo) + [Last(h.undo).(sealed := true)])
  }

  function Clamp(r: Range, len: nat): Range {
    Range(Min(r.start, len), Min(r.end, len))
  }

  /** The text a step was recorded over, given the text it left. */
  function Before(r: EditRecord, content: Bytes): Bytes
    requires Holds(content, r.start, r.after)
  {
    Apply(content, Range(r.start, r.start + |r.after|), r.before)
  }

  function After(r: EditRecord, content: Bytes): Bytes
    requires Holds(content, r.start, r.before)
  {
    Apply(content, Range(r.start, r.start + |r.before|), r.after)
  }

  function Undone(h: History, content: Bytes): (History, Option<Restored>) {
    if h.undo == [] then (h, None)
    else
      var r := Last(h.undo);
      if !Holds(content, r.start, r.after) then (History([], []), None)
      else
        var text := Before(r, content);
        (History(DropLast(h.undo), h.redo + [r]), Some(Restored(text, Clamp(r.selection, |text|), r.reversed)))
  }

  function Redone(h: History, content: Bytes): (History, Option<Restored>) {
    if h.redo == [] then (h, None)
    else
      var r := Last(h.redo);
      if !Holds(content, r.start, r.before) then (History([], []), None)
      else
        var caret := r.start + |r.after|;
        (History(h.undo + [r], DropLast(h.redo)), Some(Restored(After(r, content), Range(caret, caret), false)))
  }

  // ----- what the stacks mean -----

  ghost predicate Proper(r: EditRecord) {
    Valid(r.before) && Valid(r.after)
  }

  /** Every undo step, newest first, describes the text it would be undone on,
      and its selection fits the text it restores. */
  ghost predicate UndoFits(undo: seq<EditRecord>, content: Bytes) {
    undo == [] ||
    (var r := Last(undo);
     Proper(r) && Holds(content, r.start, r.after) && Sliceable(Before(r, content), r.selection)
     && UndoFits(DropLast(undo), Before(r, content)))
  }

  ghost predicate RedoFits(redo: seq<EditRecord>, content: Bytes) {
    redo == [] ||
    (var r := Last(redo);
     Proper(r) && Holds(content, r.start, r.before) && Sliceable(content, r.selection)
     && RedoFits(DropLast(redo), After(r, content)))
  }

  /** The texts that undoing visits, the nearest one last. */
  ghost function UndoTexts(undo: seq<EditRecord>, content: Bytes): (texts: seq<Bytes>)
    requires UndoFits(undo, content)
    ensures |texts| == |undo|
  {
    if undo == [] then []
    else
      var p := Before(Last(undo), content);
      UndoTexts(DropLast(undo), p) + [p]
  }

  ghost function RedoTexts(redo: seq<EditRecord>, content: Bytes): (texts: seq<Bytes>)
    requires RedoFits(redo, content)
    ensures |texts| == |redo|
  {
    if redo == [] then []
    else
      var n := After(Last(redo), content);
      RedoTexts(DropLast(redo), n) + [n]
  }

  ghost predicate Consistent(h: History, content: Bytes) {
    Valid(content) && |h.undo| + |h.redo| <= UNDO_HISTORY_CAP
    && UndoFits(h.undo, content) && RedoFits(h.redo, content)
  }

  /** A history seen as the texts it leads to: a stack of snapshots on each side. */
  datatype Timeline = Timeline(past: seq<Bytes>, text: Bytes, future: seq<Bytes>)

  ghost function View(h: History, content: Bytes): Timeline
    requires Consistent(h, content)
  {
    Timeline(UndoTexts(h.undo, content), content, RedoTexts(h.redo, content))
  }

  // ----- undo and redo -----

  lemma HeldParts(content: Bytes, at: nat, piece: Bytes) returns (a: Bytes, z: Bytes)
    requires Valid(content) && Valid(piece) && Holds(content, at, piece)
    ensures Valid(a) && Valid(z) && |a| == at && content == a + piece + z
  {
    hide Valid, CharLen;
    SpliceValid(content, at, at + |piece|, piece);
    a, z := content[..at], content[at + |piece|..];
    Cut(content, at, at + |piece|);
  }

  /** Swapping one valid piece for another can be swapped back. */
  lemma SwapBack(content: Bytes, at: nat, piece: Bytes, other: Bytes)
    requires Valid(content) && Valid(piece) && Valid(other) && Holds(content, at, piece)
    ensures var p := Apply(content, Range(at, at + |piece|), other);
      && Valid(p) && Holds(p, at, other) && Apply(p, Range(at, at + |other|), piece) == content
  {
    hide Valid, CharLen, IsBoundary, Apply;
    var a, z := HeldParts(content, at, piece);
    SeamSplice(a, piece, z, other);
    SeamSplice(a, other, z, piece);
    SeamsAreBoundaries(a, other, z);
  }

  /** What the newest step says of the text it would be undone on. */
  lemma NewestUndo(undo: seq<EditRecord>, content: Bytes)
    requires undo != [] && UndoFits(undo, content)
    ensures var r := Last(undo);
      && Proper(r) && Holds(content, r.start, r.after) && Sliceable(Before(r, content), r.selection)
      && UndoFits(DropLast(undo), Before(r, content))
      && UndoTexts(undo, content) == UndoTexts(DropLast(undo), Before(r, content)) + [Before(r, content)]
  {
    hide Proper, Holds, Sliceable, Before;
  }

  lemma NewestRedo(redo: seq<EditRecord>, content: Bytes)
    requires redo != [] && RedoFits(redo, content)
    ensures var r := Last(redo);
      && Proper(r) && Holds(content, r.start, r.before) && Sliceable(content, r.selection)
      && RedoFits(DropLast(redo), After(r, content))
      && RedoTexts(redo, content) == RedoTexts(DropLast(redo), After(r, content)) + [After(r, content)]
  {
    hide Proper, Holds, Sliceable, After;
  }

  /** One step more on a stack that fits the text the step leads to. */
  lemma StackUndo(undo: seq<EditRecord>, r: EditRecord, content: Bytes)
    requires Proper(r) && Holds(content, r.start, r.after) && Sliceable(Before(r, content), r.selection)
    requires UndoFits(undo, Before(r, content))
    ensures UndoFits(undo + [r], content)
    ensures UndoTexts(undo + [r], content) == UndoTexts(undo, Before(r, content)) + [Before(r, content)]
  {
    hide Proper, Holds, Sliceable, Before;
    assert Last(undo + [r]) == r && DropLast(undo + [r]) == undo;
  }

  lemma StackRedo(redo: seq<EditRecord>, r: EditRecord, content: Bytes)
    requires Proper(r) && Holds(content, r.start, r.before) && Sliceable(content, r.selection)
    requires RedoFits(redo, After(r, content))
    ensures RedoFits(redo + [r], content)
    ensures RedoTexts(redo + [r], content) == RedoTexts(redo, After(r, content)) + [After(r, content)]
  {
    hide Proper, Holds, Sliceable, After;
    assert Last(redo + [r]) == r && DropLast(redo + [r]) == redo;
  }

  lemma BeforeThenAfter(r: EditRecord, content: Bytes)
    requires Valid(content) && Proper(r) && Holds(content, r.start, r.after)
    ensures var p := Before(r, content);
      Valid(p) && Holds(p, r.start, r.before) && After(r, p) == content
  {
    hide Valid, Holds, Apply;
    SwapBack(content, r.start, r.after, r.before);
  }

  lemma AfterThenBefore(r: EditRecord, content: Bytes)
    requires Valid(content) && Proper(r) && Holds(content, r.start, r.before)
    ensures var p := After(r, content);
      Valid(p) && Holds(p, r.start, r.after) && Before(r, p) == content
  {
    hide Valid, Holds, Apply;
    SwapBack(content, r.start, r.before, r.after);
  }

  lemma NoClamp(text: Bytes, r: Range)
    requires Sliceable(text, r)
    ensures Clamp(r, |text|) == r
  {
    hide IsBoundary;
  }

  /** What comes back when the newest step matches the text. */
  lemma UndoneIs(h: History, content: Bytes)
    requires h.undo != [] && Holds(content, Last(h.undo).start, Last(h.undo).after)
    requires Sliceable(Before(Last(h.undo), content), Last(h.undo).selection)
    ensures var r := Last(h.undo);
      Undone(h, content) == (History(DropLast(h.undo), h.redo + [r]),
                             Some(Restored(Before(r, content), r.selection, r.reversed)))
  {
    hide Holds, Before, Sliceable, Clamp;
    NoClamp(Before(Last(h.undo), content), Last(h.undo).selection);
  }

  lemma CaretAtEnd(r: EditRecord, content: Bytes)
    requires Valid(content) && Proper(r) && Holds(content, r.start, r.before)
    ensures Holds(After(r, content), r.start, r.after)
    ensures Sliceable(After(r, content), Range(r.start + |r.after|, r.start + |r.after|))
  {
    hide Valid, CharLen, Apply;
    AfterThenBefore(r, content);
  }

  lemma RedoneIs(h: History, content: Bytes)
    requires h.redo != [] && Holds(content, Last(h.redo).start, Last(h.redo).before)
    ensures var r := Last(h.redo); var (h', res) := Redone(h, content);
      && h' == History(h.undo + [r], DropLast(h.redo)) && res.Some? && res.value.text == After(r, content)
      && res.value.selection == Range(r.start + |r.after|, r.start + |r.after|)
  {
    hide Holds, After;
  }

  /** Undo never drops the history: it lands on the previous text with the recorded
      selection unclamped, and moves one snapshot from the past to the future. */
  lemma UndoStep(h: History, content: Bytes)
    requires Consistent(h, content) && h.undo != []
    ensures var (h', res) := Undone(h, content); var r := Last(h.undo);
      && h' == History(DropLast(h.undo), h.redo + [r])
      && res == Some(Restored(Last(View(h, content).past), r.selection, r.reversed))
      && Consistent(h', res.value.text) && Sliceable(res.value.text, r.selection)
      && View(h', res.value.text) ==
         Timeline(DropLast(View(h, content).past), Last(View(h, content).past), View(h, content).future + [content])
  {
    hide Valid, Undone, UndoFits, RedoFits, UndoTexts, RedoTexts, Proper, Holds, Sliceable, Before, After;
    NewestUndo(h.undo, content);
    var r := Last(h.undo);
    var p := Before(r, content);
    UndoneIs(h, content);
    BeforeThenAfter(r, content);
    StackRedo(h.redo, r, p);
  }

  lemma RedoStep(h: History, content: Bytes)
    requires Consistent(h, content) && h.redo != []
    ensures var (h', res) := Redone(h, content); var r := Last(h.redo);
      && h' == History(h.undo + [r], DropLast(h.redo))
      && res.Some? && res.value.text == Last(View(h, content).future)
      && Consistent(h', res.value.text) && Sliceable(res.value.text, res.value.selection)
      && View(h', res.value.text) ==
         Timeline(View(h, content).past + [content], Last(View(h, content).future), DropLast(View(h, content).future))
  {
    hide Valid, Redone, UndoFits, RedoFits, UndoTexts, RedoTexts, Proper, Holds, Sliceable, Before, After;
    NewestRedo(h.redo, content);
    var r := Last(h.redo);
    RedoneIs(h, content);
    AfterThenBefore(r, content);
    CaretAtEnd(r, content);
    StackUndo(h.undo, r, After(r, content));
  }

  /** A text that does not hold what the newest step put in is left alone, and every step is
      forgotten; with no step nothing happens. */
  lemma MismatchForgets(h: History, content: Bytes)
    ensures Undone(h, content).1.None? <==> h.undo == [] || !Holds(content, Last(h.undo).start, Last(h.undo).after)
    ensures Undone(h, content).1.None? ==> Undone(h, content).0 == if h.undo == [] then h else History([], [])
    ensures Redone(h, content).1.None? <==> h.redo == [] || !Holds(content, Last(h.redo).start, Last(h.redo).before)
    ensures Redone(h, content).1.None? ==> Redone(h, content).0 == if h.redo == [] then h else History([], [])
  {
    hide Holds;
  }

  /** A redo after an undo gives the text and the stacks back, with the caret after what the
      step put in. */
  lemma UndoThenRedo(h: History, content: Bytes)
    requires Consistent(h, content) && h.undo != []
    ensures var (h', res) := Undone(h, content); var caret := Last(h.undo).start + |Last(h.undo).after|;
      res.Some? && Redone(h', res.value.text) == (h, Some(Restored(content, Range(caret, caret), false)))
  {
    hide Valid, CharLen, IsBoundary, Apply, Holds;
    var r := Last(h.undo);
    SwapBack(content, r.start, r.after, r.before);
    assert Last(h.redo + [r]) == r && DropLast(h.redo + [r]) == h.redo;
    assert DropLast(h.undo) + [r] == h.undo;
  }

  /** An undo after a redo gives the text and the stacks back, with the selection and the
      direction that the step has recorded. */
  lemma RedoThenUndo(h: History, content: Bytes)
    requires Consistent(h, content) && h.redo != []
    ensures var (h', res) := Redone(h, content); var r := Last(h.redo);
      res.Some? && Undone(h', res.value.text) == (h, Some(Restored(content, r.selection, r.reversed)))
  {
    hide Valid, CharLen, IsBoundary, Apply, Holds;
    var r := Last(h.redo);
    SwapBack(content, r.start, r.before, r.after);
    assert Last(h.undo + [r]) == r && DropLast(h.undo + [r]) == h.undo;
    assert DropLast(h.redo) + [r] == h.redo;
    NoClamp(content, r.selection);
  }

  // ----- recording -----

  /** Undoing `r` on `content` is possible and gives `text`. */
  ghost predicate LeadsTo(r: EditRecord, content: Bytes, text: Bytes) {
    Proper(r) && Holds(content, r.start, r.after) && Before(r, content) == text
  }

  /** Replacing the newest step by one that leads back to the same text. */
  lemma ReplaceNewest(undo: seq<EditRecord>, content: Bytes, r': EditRecord, content': Bytes)
    requires undo != [] && UndoFits(undo, content)
    requires LeadsTo(r', content', Before(Last(undo), content)) && r'.selection == Last(undo).selection
    ensures UndoFits(DropLast(undo) + [r'], content')
    ensures UndoTexts(DropLast(undo) + [r'], content') == UndoTexts(undo, content)
  {
    hide Valid, CharLen, Apply, IsBoundary, Holds;
    var u := DropLast(undo) + [r'];
    assert Last(u) == r' && DropLast(u) == DropLast(undo);
  }

  lemma {:induction false} DropOldest(undo: seq<EditRecord>, k: nat, content: Bytes)
    requires k <= |undo| && UndoFits(undo, content)
    ensures UndoFits(undo[k..], content)
    ensures UndoTexts(undo[k..], content) == UndoTexts(undo, content)[k..]
  {
    hide Valid, CharLen, Apply, IsBoundary, Holds;
    if k < |undo| {
      var rest := DropLast(undo);
      DropOldest(rest, k, Before(Last(undo), content));
      assert Last(undo[k..]) == Last(undo) && DropLast(undo[k..]) == rest[k..];
    }
  }

  /** Keep the newest `UNDO_HISTORY_CAP` entries. */
  function Capped<T>(s: seq<T>): seq<T> {
    if |s| > UNDO_HISTORY_CAP then s[|s| - UNDO_HISTORY_CAP..] else s
  }

  lemma PushStep(undo: seq<EditRecord>, content: Bytes, r: EditRecord, content': Bytes)
    requires UndoFits(undo, content)
    requires LeadsTo(r, content', content)
    requires Sliceable(content, r.selection)
    ensures UndoFits(Pushed(undo, r), content')
    ensures UndoTexts(Pushed(undo, r), content') == Capped(UndoTexts(undo, content) + [content])
  {
    hide Valid, CharLen, Apply, IsBoundary, Holds;
    var u := undo + [r];
    assert Last(u) == r && DropLast(u) == undo;
    if |u| > UNDO_HISTORY_CAP { DropOldest(u, |u| - UNDO_HISTORY_CAP, content'); }
  }

  lemma InsertAfter(a: Bytes, held: Bytes, z: Bytes, more: Bytes)
    ensures Apply(a + held + z, Range(|a| + |held|, |a| + |held|), more) == a + (held + more) + z
  {
    assert (a + held + z)[..|a| + |held|] == a + held;
    assert (a + held + z)[|a| + |held|..] == z;
    assert (a + held) + more == a + (held + more);
  }

  lemma PrependRemoved(a: Bytes, removed: Bytes, z: Bytes, before: Bytes)
    ensures Apply(a + removed + z, Range(|a| + |removed|, |a| + |removed|), before) == a + (removed + before) + z
  {
    InsertAfter(a, removed, z, before);
  }

  lemma AppendRemoved(a: Bytes, removed: Bytes, z: Bytes, before: Bytes)
    ensures Apply(a + removed + z, Range(|a|, |a|), before) == a + (before + removed) + z
  {
    assert (a + removed + z)[..|a|] == a;
    assert (a + removed + z)[|a|..] == removed + z;
    assert a + before + (removed + z) == a + (before + removed) + z;
  }

  lemma ReplaceInside(a: Bytes, held: Bytes, z: Bytes, i: nat, j: nat, t: Bytes)
    requires i <= j <= |held|
    ensures Apply(a + held + z, Range(|a| + i, |a| + j), t) == a + Apply(held, Range(i, j), t) + z
  {
    assert (a + held + z)[..|a| + i] == a + held[..i];
    assert (a + held + z)[|a| + j..] == held[j..] + z;
    assert (a + held[..i]) + t + (held[j..] + z) == a + (held[..i] + t + held[j..]) + z;
  }

  /** A grown step leads back to the same text as the step it grew from: the typing run ... */
  lemma TypingStep(last: EditRecord, content: Bytes, more: Bytes)
    requires Valid(content) && Proper(last) && Holds(content, last.start, last.after) && Valid(more)
    ensures var at := last.start + |last.after|;
      LeadsTo(last.(after := last.after + more), Apply(content, Range(at, at), more), Before(last, content))
  {
    hide Valid, CharLen, Holds, Apply;
    var a, z := HeldParts(content, last.start, last.after);
    InsertAfter(a, last.after, z, more);
    ValidConcat(last.after, more);
    SeamSplice(a, last.after, z, last.before);
    SeamSplice(a, last.after + more, z, last.before);
  }

  /** ... the backspace run ... */
  lemma BackspaceStep(last: EditRecord, content: Bytes, start: nat, removed: Bytes)
    requires Valid(content) && Proper(last) && Holds(content, start, removed) && Valid(removed)
    requires last.after == [] && start + |removed| == last.start && Holds(content, last.start, [])
    ensures LeadsTo(last.(start := start, before := removed + last.before),
                    Apply(content, Range(start, last.start), []), Before(last, content))
  {
    hide Valid, CharLen, Holds, Apply;
    var a, z := HeldParts(content, start, removed);
    PrependRemoved(a, removed, z, last.before);
    ValidConcat(removed, last.before);
    SeamDelete(a, removed, z);
    SeamInsert(a, z, removed + last.before);
  }

  /** ... the forward-delete run ... */
  lemma ForwardDeleteStep(last: EditRecord, content: Bytes, removed: Bytes)
    requires Valid(content) && Proper(last) && Holds(content, last.start, removed) && Valid(removed)
    requires last.after == [] && Holds(content, last.start, [])
    ensures LeadsTo(last.(before := last.before + removed),
                    Apply(content, Range(last.start, last.start + |removed|), []), Before(last, content))
  {
    hide Valid, CharLen, Holds, Apply;
    var a, z := HeldParts(content, last.start, removed);
    AppendRemoved(a, removed, z, last.before);
    ValidConcat(last.before, removed);
    SeamDelete(a, removed, z);
    SeamInsert(a, z, last.before + removed);
  }

  /** ... and the amended composition. */
  lemma AmendStep(last: EditRecord, content: Bytes, range: Range, newText: Bytes, now: nat)
    requires Valid(content) && Proper(last) && Holds(content, last.start, last.after) && Valid(newText)
    requires Sliceable(content, range) && last.start <= range.start && range.end <= last.start + |last.after|
    ensures IsBoundary(last.after, range.start - last.start) && IsBoundary(last.after, range.end - last.start)
    ensures LeadsTo(Amended(last, range, newText, now), Apply(content, range, newText), Before(last, content))
  {
    hide Valid, CharLen, Holds, Apply;
    var a, z := HeldParts(content, last.start, last.after);
    var i, j := range.start - last.start, range.end - last.start;
    BoundaryInside(a, last.after, z, i);
    BoundaryInside(a, last.after, z, j);
    ReplaceInside(a, last.after, z, i, j, newText);
    ApplyValid(last.after, Range(i, j), newText);
    SeamSplice(a, last.after, z, last.before);
    SeamSplice(a, Apply(last.after, Range(i, j), newText), z, last.before);
  }

  lemma CoalescedStep(last: EditRecord, content: Bytes, t: Trimmed, now: nat)
    requires Valid(content) && Proper(last) && Holds(content, last.start, last.after)
    requires Valid(t.removed) && Valid(t.inserted) && Holds(content, t.start, t.removed)
    requires Coalesced(last, t, now).Some?
    ensures LeadsTo(Coalesced(last, t, now).value,
                    Apply(content, Range(t.start, t.start + |t.removed|), t.inserted), Before(last, content))
  {
    hide Valid, CharLen, IsBoundary, Apply, Holds;
    if last.after != [] {
      TypingStep(last, content, t.inserted);
    } else if t.start + |t.removed| == last.start {
      BackspaceStep(last, content, t.start, t.removed);
    } else {
      ForwardDeleteStep(last, content, t.removed);
    }
  }

  /** Does this splice join the newest step rather than start one? */
  predicate Joins(h: History, content: Bytes, range: Range, newText: Bytes, now: nat)
    requires range.start <= range.end <= |content|
  {
    h.undo != [] && Coalesced(Last(h.undo), Trim(content, range, newText), now).Some?
  }

  /** A recorded splice keeps the history truthful: nothing changes when the text does
      not, and otherwise the redo side is dropped and the text left behind becomes the
      newest snapshot, unless the splice joined the newest step. */
  lemma RecordStep(h: History, content: Bytes, range: Range, newText: Bytes,
                   selection: Range, reversed: bool, now: nat)
    requires Consistent(h, content) && Valid(newText)
    requires Sliceable(content, range) && Sliceable(content, selection)
    ensures var h' := Recorded(h, content, range, newText, selection, reversed, now);
      var content' := Apply(content, range, newText);
      && Consistent(h', content')
      && (content' == content ==> h' == h)
      && (content' != content ==>
            View(h', content') == Timeline(
              if Joins(h, content, range, newText, now) then View(h, content).past
              else Capped(View(h, content).past + [content]), content', []))
  {
    hide Valid, CharLen, IsBoundary, Apply, Holds, Trim, UndoFits, Before, Coalesced;
    ApplyValid(content, range, newText);
    TrimIsSameEdit(content, range, newText);
    TrimIsEmptyIffNoChange(content, range, newText);
    var t, content' := Trim(content, range, newText), Apply(content, range, newText);
    if content' != content {
      if Joins(h, content, range, newText, now) {
        JoinedStep(h.undo, content, t, now);
      } else {
        var r := EditRecord(t.start, t.removed, t.inserted, selection, reversed, now, false, false);
        NewStep(content, t.start, t.removed, t.inserted, r);
        PushStep(h.undo, content, r, content');
      }
    }
  }

  lemma JoinedStep(undo: seq<EditRecord>, content: Bytes, t: Trimmed, now: nat)
    requires undo != [] && UndoFits(undo, content) && Coalesced(Last(undo), t, now).Some?
    requires Valid(content) && Valid(t.removed) && Valid(t.inserted) && Holds(content, t.start, t.removed)
    ensures var undo' := DropLast(undo) + [Coalesced(Last(undo), t, now).value];
      var content' := Apply(content, Range(t.start, t.start + |t.removed|), t.inserted);
      UndoFits(undo', content') && UndoTexts(undo', content') == UndoTexts(undo, content)
  {
    hide Valid, CharLen, IsBoundary, Apply, UndoFits;
    NewestFits(undo, content);
    CoalescedStep(Last(undo), content, t, now);
    ReplaceNewest(undo, content, Coalesced(Last(undo), t, now).value,
                  Apply(content, Range(t.start, t.start + |t.removed|), t.inserted));
  }

  lemma HoldsSlice(content: Bytes, at: nat, piece: Bytes)
    requires Sliceable(content, Range(at, at + |piece|)) && content[at..at + |piece|] == piece
    ensures Holds(content, at, piece)
  {
  }

  lemma NewestFits(undo: seq<EditRecord>, content: Bytes)
    requires undo != [] && UndoFits(undo, content)
    ensures LeadsTo(Last(undo), content, Before(Last(undo), content))
  {
  }

  lemma NewStep(content: Bytes, at: nat, removed: Bytes, inserted: Bytes, r: EditRecord)
    requires Valid(content) && Valid(removed) && Valid(inserted) && Holds(content, at, removed)
    requires r.start == at && r.before == removed && r.after == inserted
    ensures LeadsTo(r, Apply(content, Range(at, at + |removed|), inserted), content)
  {
    hide Valid, CharLen, Holds, Apply;
    SwapBack(content, at, removed, inserted);
  }

  lemma CompositionStep(h: History, content: Bytes, range: Range, newText: Bytes,
                        selection: Range, reversed: bool, now: nat)
    requires Consistent(h, content) && Valid(newText)
    requires Sliceable(content, range) && Sliceable(content, selection)
    ensures var h' := RecordedComposition(h, content, range, newText, selection, reversed, now);
      var content' := Apply(content, range, newText);
      && Consistent(h', content')
      && View(h', content') == Timeline(
           if InsideComposition(h, range) then View(h, content).past
           else Capped(View(h, content).past + [content]), content', [])
  {
    hide Valid, IsBoundary, Apply, UndoFits, UndoTexts, Closed, Pushed, Capped;
    ApplyValid(content, range, newText);
    if InsideComposition(h, range) {
      AmendedFits(h, content, range, newText, now);
    } else {
      ClosedStep(h.undo, content);
      OpenedFits(Closed(h.undo), content, range, newText, selection, reversed, now);
      CappedLength(UndoTexts(Closed(h.undo), content), content);
    }
  }

  lemma CappedLength<T>(a: seq<T>, x: T)
    ensures |Capped(a + [x])| <= UNDO_HISTORY_CAP
  {
  }

  lemma AmendedFits(h: History, content: Bytes, range: Range, newText: Bytes, now: nat)
    requires Valid(content) && UndoFits(h.undo, content) && InsideComposition(h, range)
    requires Sliceable(content, range) && Valid(newText)
    ensures var undo := DropLast(h.undo) + [Amended(Last(h.undo), range, newText, now)];
      var content' := Apply(content, range, newText);
      UndoFits(undo, content') && UndoTexts(undo, content') == UndoTexts(h.undo, content)
  {
    hide Valid, IsBoundary, Apply, UndoFits, UndoTexts, LeadsTo, Holds, Proper;
    NewestUndo(h.undo, content);
    NewestFits(h.undo, content);
    AmendStep(Last(h.undo), content, range, newText, now);
    ReplaceNewest(h.undo, content, Amended(Last(h.undo), range, newText, now), Apply(content, range, newText));
  }

  lemma OpenedFits(undo: seq<EditRecord>, content: Bytes, range: Range, newText: Bytes,
                   selection: Range, reversed: bool, now: nat)
    requires Valid(content) && UndoFits(undo, content) && Valid(newText)
    requires Sliceable(content, range) && Sliceable(content, selection)
    ensures
      var r := EditRecord(range.start, content[range.start..range.end], newText, selection, reversed, now, false, true);
      var content' := Apply(content, range, newText);
      && UndoFits(Pushed(undo, r), content')
      && UndoTexts(Pushed(undo, r), content') == Capped(UndoTexts(undo, content) + [content])
  {
    hide Valid, IsBoundary, Apply, UndoFits, UndoTexts, Pushed, Capped, LeadsTo, Holds;
    var removed := content[range.start..range.end];
    var r := EditRecord(range.start, removed, newText, selection, reversed, now, false, true);
    assert Valid(removed) by { SpliceValid(content, range.start, range.end, newText); }
    HoldsSlice(content, range.start, removed);
    NewStep(content, range.start, removed, newText, r);
    PushStep(undo, content, r, Apply(content, range, newText));
  }

  lemma ClosedStep(undo: seq<EditRecord>, content: Bytes)
    requires UndoFits(undo, content)
    ensures UndoFits(Closed(undo), content) && UndoTexts(Closed(undo), content) == UndoTexts(undo, content)
    ensures |Closed(undo)| == |undo|
  {
    hide Valid, CharLen, IsBoundary, Apply, Holds;
    if undo != [] && Last(undo).composing {
      NewestFits(undo, content);
      ReplaceNewest(undo, content, Last(undo).(composing := false, sealed := true), content);
    }
  }

  /** Closing a composition pops the step exactly when it leads back to the text shown. */
  lemma FinalizeStep(h: History, content: Bytes)
    requires Consistent(h, content)
    ensures var v := View(h, content);
      var pops := h.undo != [] && Last(h.undo).composing && Last(h.undo).before == Last(h.undo).after;
      && Consistent(Finalized(h), content)
      && (pops ==> Last(v.past) == content)
      && (h.undo != [] && Last(h.undo).composing && Last(v.past) == content ==> pops)
      && View(Finalized(h), content) == v.(past := if pops then DropLast(v.past) else v.past)
  {
    hide Valid, CharLen, IsBoundary, Apply;
    if h.undo != [] && Last(h.undo).composing {
      var r := Last(h.undo);
      ClosedStep(h.undo, content);
      SameTextIffSamePiece(content, r.start, r.after, r.before);
    }
  }

  lemma SameTextIffSamePiece(content: Bytes, at: nat, piece: Bytes, other: Bytes)
    requires Valid(content) && Valid(piece) && Holds(content, at, piece)
    ensures Apply(content, Range(at, at + |piece|), other) == content <==> other == piece
  {
    hide Valid, CharLen;
    var a, z := HeldParts(content, at, piece);
    SeamSplice(a, piece, z, other);
    Slices(a, piece, z);
    Slices(a, other, z);
  }

  lemma SealStep(h: History, content: Bytes)
    requires Consistent(h, content)
    ensures Consistent(Sealed(h), content) && View(Sealed(h), content) == View(h, content)
  {
    hide Valid, CharLen, IsBoundary, Apply, Holds;
    if h.undo != [] {
      NewestFits(h.undo, content);
      ReplaceNewest(h.undo, content, Last(h.undo).(sealed := true), content);
    }
  }

  // ----- the history as the field holds it -----

  class EditHistory {
    var undo: seq<EditRecord>
    var redo: seq<EditRecord>

    function Value(): History
      reads this
    {
      History(undo, redo)
    }

    constructor ()
      ensures Value() == History([], [])
    {
      undo, redo := [], [];
    }

    method Record(content: Bytes, range: Range, newText: Bytes, selection: Range, reversed: bool, now: nat)
      requires range.start <= range.end <= |content|
      modifies this
      ensures Value() == Recorded(old(Value()), content, range, newText, selection, reversed, now)
    {
      hide Trim;
      var t := TrimmedSplice(content, range, newText);
      if t.removed == [] && t.inserted == [] {
        return;
      }
      redo := [];
      if undo != [] {
        var last := undo[|undo| - 1];
        if !last.sealed && !last.composing && Elapsed(now, last.editedAt) < UNDO_GROUP_INTERVAL {
          if t.removed == [] && last.after != [] && t.start == last.start + |last.after| {
            undo := undo[..|undo| - 1] + [last.(after := last.after + t.inserted, editedAt := now)];
            return;
          }
          if t.inserted == [] && last.after == [] && last.before != [] {
            if t.start + |t.removed| == last.start {
              undo := undo[..|undo| - 1]
                + [last.(start := t.start, before := t.removed + last.before, editedAt := now)];
              return;
            }
            if t.start == last.start {
              undo := undo[..|undo| - 1] + [last.(before := last.before + t.removed, editedAt := now)];
              return;
            }
          }
        }
      }
      Push(EditRecord(t.start, t.removed, t.inserted, selection, reversed, now, false, false));
    }

    method RecordComposition(content: Bytes, range: Range, newText: Bytes,
                             selection: Range, reversed: bool, now: nat)
      requires range.start <= range.end <= |content|
      modifies this
      ensures Value() == RecordedComposition(old(Value()), content, range, newText, selection, reversed, now)
    {
      redo := [];
      if undo != [] && undo[|undo| - 1].composing {
        var last := undo[|undo| - 1];
        if last.start <= range.start && range.end <= last.start + |last.after| {
          undo := undo[..|undo| - 1] + [Amended(last, range, newText, now)];
          return;
        }
        undo := undo[..|undo| - 1] + [last.(composing := false, sealed := true)];
      }
      Push(EditRecord(range.start, content[range.start..range.end], newText, selection, reversed, now, false, true));
    }

    method FinalizeComposition()
      modifies this
      ensures Value() == Finalized(old(Value()))
    {
      if undo != [] && undo[|undo| - 1].composing {
        var last := undo[|undo| - 1];
        undo := undo[..|undo| - 1] + [last.(composing := false, sealed := true)];
        if last.before == last.after {
          undo := undo[..|undo| - 1];
        }
      }
    }

    method Seal()
      modifies this
      ensures Value() == Sealed(old(Value()))
    {
      if undo != [] {
        undo := undo[..|undo| - 1] + [undo[|undo| - 1].(sealed := true)];
      }
    }

    method Push(record: EditRecord)
      modifies this`undo
      ensures undo == Pushed(old(undo), record)
    {
      undo := undo + [record];
      if |undo| > UNDO_HISTORY_CAP {
        var excess := |undo| - UNDO_HISTORY_CAP;
        undo := undo[excess..];
      }
    }

    method Undo(content: Bytes) returns (res: Option<Restored>)
      modifies this
      ensures (Value(), res) == Undone(old(Value()), content)
    {
      if undo == [] {
        return None;
      }
      var r := undo[|undo| - 1];
      undo := undo[..|undo| - 1];
      if !Holds(content, r.start, r.after) {
        undo, redo := [], [];
        return None;
      }
      var text := content[..r.start] + r.before + content[r.start + |r.after|..];
      redo := redo + [r];
      res := Some(Restored(text, Clamp(r.selection, |text|), r.reversed));
    }

    method Redo(content: Bytes) returns (res: Option<Restored>)
      modifies this
      ensures (Value(), res) == Redone(old(Value()), content)
    {
      if redo == [] {
        return None;
      }
      var r := redo[|redo| - 1];
      redo := redo[..|redo| - 1];
      if !Holds(content, r.start, r.before) {
        undo, redo := [], [];
        return None;
      }
      var text := content[..r.start] + r.after + content[r.start + |r.before|..];
      var caret := r.start + |r.after|;
      undo := undo + [r];
      res := Some(Restored(text, Range(caret, caret), false));
    }
  }
}
