/** `TextInput` itself: the field's state updated in place, each method against the
    specification in `TextField`. Painting, focus and clipboard calls are left out. */
module TextInput {
  import opened Basics
  import opened Options
  import opened Utf8
  import opened Splice
  import opened Utf16
  import opened UndoHistory
  import opened TextField
  import opened TextTyping
  import UndoGestures

  class Input {
    var content: Bytes
    var selectedRange: Range
    var selectionReversed: bool
    var markedRange: Option<Range>
    var readOnly: bool
    var history: EditHistory

    function Value(): Field
      reads this, history
    {
      Field(content, selectedRange, selectionReversed, markedRange, readOnly, history.Value())
    }

    constructor ()
      ensures Value() == Field([], Range(0, 0), false, None, false, History([], []))
      ensures fresh(history)
    {
      content, selectedRange, selectionReversed := [], Range(0, 0), false;
      markedRange, readOnly := None, false;
      history := new EditHistory();
    }

    method RecordEditHistory(range: Range, newText: Bytes, composing: bool, now: nat)
      requires range.start <= range.end <= |content|
      modifies history
      ensures history.Value() == Edited(old(Value()), range, newText, composing, now).h
    {
      if composing {
        history.RecordComposition(content, range, newText, selectedRange, selectionReversed, now);
      } else {
        history.Record(content, range, newText, selectedRange, selectionReversed, now);
      }
    }

    method ReplaceTextInRange(rangeUtf16: Option<Range>, newText: Bytes, now: nat)
      requires Sane(Value()) && Ordered(rangeUtf16)
      modifies this, history
      ensures Value() == TextReplaced(old(Value()), rangeUtf16, newText, now)
      ensures history == old(history)
    {
      hide Valid, CharLen, IsBoundary, Recorded, RecordedComposition, Finalized;
      if readOnly {
        return;
      }
      CommitRangeSliceable(Value(), rangeUtf16);
      var composing := markedRange.Some?;
      var range;
      if markedRange.Some? {
        range := markedRange.value;
      } else if rangeUtf16.Some? {
        var start := OffsetFromUtf16(content, rangeUtf16.value.start);
        var end := OffsetFromUtf16(content, rangeUtf16.value.end);
        range := Range(start, end);
      } else {
        range := selectedRange;
      }
      RecordEditHistory(range, newText, composing, now);
      content := content[..range.start] + newText + content[range.end..];
      var offset := range.start + |newText|;
      selectedRange := Range(offset, offset);
      markedRange := None;
      if composing {
        history.FinalizeComposition();
      }
    }

    method RangeFromRelative(base: nat, range: Range) returns (r: Range)
      requires Valid(content)
      ensures r == RangeFromRelativeUtf16(content, base, range)
    {
      var baseUtf16 := OffsetToUtf16(content, base);
      var start := OffsetFromUtf16(content, baseUtf16 + range.start);
      var end := OffsetFromUtf16(content, baseUtf16 + range.end);
      r := Range(start, end);
    }

    method ReplaceAndMarkTextInRange(rangeUtf16: Option<Range>, newText: Bytes,
                                     newSelectedRangeUtf16: Option<Range>, now: nat)
      requires Sane(Value()) && Ordered(rangeUtf16) && Valid(newText)
      modifies this, history
      ensures Value() == TextMarked(old(Value()), rangeUtf16, newText, newSelectedRangeUtf16, now)
      ensures history == old(history)
    {
      hide Valid, CharLen, IsBoundary, Recorded, RecordedComposition, Finalized, FromUtf16, ToUtf16;
      if readOnly {
        return;
      }
      MarkRangeSliceable(Value(), rangeUtf16);
      var range;
      if rangeUtf16.Some? && markedRange.Some? {
        var absolute := RangeFromRelative(markedRange.value.start, rangeUtf16.value);
        range := Range(ClampTo(absolute.start, markedRange.value), ClampTo(absolute.end, markedRange.value));
      } else if rangeUtf16.Some? {
        var start := OffsetFromUtf16(content, rangeUtf16.value.start);
        var end := OffsetFromUtf16(content, rangeUtf16.value.end);
        range := Range(start, end);
      } else if markedRange.Some? {
        range := markedRange.value;
      } else {
        range := selectedRange;
      }
      assert range == MarkRange(Value(), rangeUtf16);
      ApplyValid(content, range, newText);
      RecordEditHistory(range, newText, true, now);
      content := content[..range.start] + newText + content[range.end..];
      markedRange := if newText != [] then Some(Range(range.start, range.start + |newText|)) else None;
      if markedRange.None? {
        history.FinalizeComposition();
      }
      if newSelectedRangeUtf16.Some? {
        selectedRange := RangeFromRelative(range.start, newSelectedRangeUtf16.value);
      } else {
        var offset := range.start + |newText|;
        selectedRange := Range(offset, offset);
      }
    }

    method UnmarkText()
      modifies this, history
      ensures Value() == old(Value()).(marked := None, h := Finalized(old(history.Value())))
      ensures history == old(history)
    {
      markedRange := None;
      history.FinalizeComposition();
    }

    method ReplaceRange(range: Range, text: Bytes, now: nat)
      modifies this, history
      ensures Value() == RangeReplaced(old(Value()), range, text, now)
      ensures history == old(history)
    {
      hide Recorded, Sealed;
      if readOnly {
        return;
      }
      var r := Range(Min(range.start, |content|), Min(range.end, |content|));
      if !IsBoundary(content, r.start) || !IsBoundary(content, r.end) || r.start > r.end {
        return;
      }
      history.Seal();
      RecordEditHistory(r, text, false, now);
      content := content[..r.start] + text + content[r.end..];
      var offset := r.start + |text|;
      selectedRange := Range(offset, offset);
      selectionReversed := false;
      markedRange := None;
      history.Seal();
    }

    method SetContent(text: Bytes)
      modifies this
      ensures Value() == ContentSet(old(Value()), text)
      ensures history == old(history) || fresh(history)
    {
      var changed := content != text;
      content := text;
      var offset := |content|;
      selectedRange := Range(offset, offset);
      selectionReversed := false;
      markedRange := None;
      if changed {
        history := new EditHistory();
      }
    }

    method Clear()
      modifies this
      ensures Value() == Cleared(old(Value()))
      ensures history == old(history) || fresh(history)
    {
      var changed := content != [];
      content := [];
      selectedRange := Range(0, 0);
      selectionReversed := false;
      markedRange := None;
      if changed {
        history := new EditHistory();
      }
    }

    method ApplyHistoryStep(r: Restored)
      modifies this
      ensures Value() == old(Value()).(text := r.text, selection := r.selection, reversed := r.reversed, marked := None)
      ensures history == old(history)
    {
      content := r.text;
      selectedRange := r.selection;
      selectionReversed := r.reversed;
      markedRange := None;
    }

    method Undo()
      modifies this, history
      ensures Value() == if old(readOnly) || old(markedRange).Some? then old(Value())
                         else HistoryApplied(old(Value()), Undone(old(history.Value()), old(content)))
      ensures history == old(history)
    {
      hide Undone;
      if readOnly || markedRange.Some? {
        return;
      }
      var step := history.Undo(content);
      if step.Some? {
        ApplyHistoryStep(step.value);
      }
    }

    method Redo()
      modifies this, history
      ensures Value() == if old(readOnly) || old(markedRange).Some? then old(Value())
                         else HistoryApplied(old(Value()), Redone(old(history.Value()), old(content)))
      ensures history == old(history)
    {
      hide Redone;
      if readOnly || markedRange.Some? {
        return;
      }
      var step := history.Redo(content);
      if step.Some? {
        ApplyHistoryStep(step.value);
      }
    }

    method ExtendSelectionTo(offset: nat)
      modifies this`selectedRange, this`selectionReversed
      ensures UndoGestures.Selected(selectedRange, selectionReversed)
           == Extended(UndoGestures.Selected(old(selectedRange), old(selectionReversed)), offset)
    {
      if selectionReversed {
        selectedRange := Range(offset, selectedRange.end);
      } else {
        selectedRange := Range(selectedRange.start, offset);
      }
      if selectedRange.end < selectedRange.start {
        selectionReversed := !selectionReversed;
        selectedRange := Range(selectedRange.end, selectedRange.start);
      }
    }

    /** The boundary before the caret is the caller's to find. */
    method Backspace(previous: nat, now: nat)
      requires Sane(Value()) && previous <= |content| && IsBoundary(content, previous)
      modifies this, history
      ensures Value() == Pressed(old(Value()), previous, now)
      ensures history == old(history)
    {
      hide Valid, IsBoundary;
      if content == [] {
        NothingToErase(Value(), previous, now);
        return;
      }
      if selectedRange.start == selectedRange.end {
        ExtendSelectionTo(previous);
      }
      ReplaceTextInRange(None, [], now);
    }

    method Delete(next: nat, now: nat)
      requires Sane(Value()) && next <= |content| && IsBoundary(content, next)
      modifies this, history
      ensures Value() == Pressed(old(Value()), next, now)
      ensures history == old(history)
    {
      hide Valid, IsBoundary;
      if selectedRange.start == selectedRange.end {
        ExtendSelectionTo(next);
      }
      ReplaceTextInRange(None, [], now);
    }

    method Paste(text: Bytes, now: nat)
      requires Sane(Value())
      modifies this, history
      ensures Value() == SealedAround(old(Value()), text, now)
      ensures history == old(history)
    {
      hide Sealed, TextReplaced;
      history.Seal();
      ReplaceTextInRange(None, text, now);
      history.Seal();
    }

    method Cut(now: nat)
      requires Sane(Value())
      modifies this, history
      ensures Value() == if old(selectedRange.start == selectedRange.end) then old(Value())
                         else SealedAround(old(Value()), [], now)
      ensures history == old(history)
    {
      hide Sealed, TextReplaced;
      if selectedRange.start != selectedRange.end {
        history.Seal();
        ReplaceTextInRange(None, [], now);
        history.Seal();
      }
    }
  }
}
