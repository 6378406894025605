/** A composition cancelled at the cap of the undo history (`record_composition` and
    `finalize_composition` in `src/input.rs`): the text comes back, the oldest step
    does not. */
module TextAtTheCap {
  import opened Options
  import opened Utf8
  import opened Splice
  import opened UndoHistory
  import opened TextField
  import opened TextInterrupted

  /** `n` pastes of the letter `a`. */
  function Pastes(n: nat): seq<FieldOp> {
    seq(n, i => Paste([0x61], 0))
  }

  /** An idle field with a caret and `n` steps to undo. */
  ghost predicate Idle(f: Field, n: nat) {
    && FieldOk(f) && Settled(f) && f.marked.None? && !f.readOnly
    && f.selection.start == f.selection.end && |f.h.undo| == n
  }

  lemma EmptyIsIdle()
    ensures Idle(EmptyField(), 0)
  {
    Letters();
  }

  /** Each paste is a step of its own. */
  lemma PasteIsAStep(f: Field, n: nat)
    requires Idle(f, n) && n < UNDO_HISTORY_CAP
    ensures Sane(f) && Supplied(f, Paste([0x61], 0)) && Idle(FieldStep(f, Paste([0x61], 0)), n + 1)
  {
    hide Consistent, Valid, IsBoundary, Settled, Recorded, Sealed, Trim;
    Letters();
    var op := Paste([0x61], 0);
    FieldStepOk(f, op);
    FieldStepSettledIff(f, op);
    var t := Apply(f.text, f.selection, [0x61]);
    assert t != f.text by { assert |t| == |f.text| + 1; }
    SealStep(f.h, f.text);
    SealedLength(f.h);
    PushedOverSeal(f.h, f.text, f.selection, [0x61], f.selection, f.reversed, 0);
    SealedLength(Recorded(Sealed(f.h), f.text, f.selection, [0x61], f.selection, f.reversed, 0));
  }

  lemma SealedLength(h: History)
    ensures |Sealed(h).undo| == |h.undo|
  {
  }

  lemma {:induction false} PastesAreSteps(f: Field, n: nat, m: nat)
    requires Idle(f, m) && m + n <= UNDO_HISTORY_CAP
    ensures FieldRunnable(f, Pastes(n)) && Idle(FieldRun(f, Pastes(n)), m + n)
    decreases n
  {
    hide Idle, Sane, Supplied, FieldStep;
    if n > 0 {
      PasteIsAStep(f, m);
      assert Pastes(n)[0] == Paste([0x61], 0) && Pastes(n)[1..] == Pastes(n - 1);
      PastesAreSteps(FieldStep(f, Paste([0x61], 0)), n - 1, m + 1);
    } else {
      assert Pastes(n) == [];
    }
  }

  /** Mark `b`, then cancel. */
  function Marking(): FieldOp {
    ReplaceAndMark(None, [0x62], None, 0)
  }

  function Cancelling(): FieldOp {
    ReplaceAndMark(None, [], None, 0)
  }

  lemma InsertThenDelete(s: Bytes, at: nat, t: Bytes)
    requires at <= |s|
    ensures Apply(Apply(s, Range(at, at), t), Range(at, at + |t|), []) == s
  {
    var u := s[..at] + t + s[at..];
    assert u[..at] == s[..at] && u[at + |t|..] == s[at..];
  }

  /** What marking a letter shows. */
  lemma Marks(f: Field, n: nat)
    requires Idle(f, n)
    ensures Sane(f) && Supplied(f, Marking())
    ensures var g, at := FieldStep(f, Marking()), f.selection.start;
      && FieldOk(g) && g.marked == Some(Range(at, at + 1)) && !g.readOnly
      && g.text == Apply(f.text, Range(at, at), [0x62])
  {
    hide Consistent, IsBoundary, Settled, RecordedComposition, Apply;
    var b: Bytes := [0x62];
    assert Valid(b[1..]) by { NothingIsValid(); }
    FieldStepOk(f, Marking());
  }

  /** What cancelling shows: the text before. */
  lemma Cancels(f: Field, n: nat)
    requires Idle(f, n) && Sane(f) && Supplied(f, Marking())
    ensures var g := FieldStep(f, Marking());
      && Sane(g) && Supplied(g, Cancelling())
      && FieldStep(g, Cancelling()).text == f.text && FieldStep(g, Cancelling()).marked.None?
  {
    hide Consistent, IsBoundary, Settled, RecordedComposition, Apply, Finalized;
    Marks(f, n);
    NothingIsValid();
    InsertThenDelete(f.text, f.selection.start, [0x62]);
  }

  /** Marking a letter and cancelling it gives the text back and keeps the steps exactly
      below the cap. */
  lemma CancelKeepsStepsIff(f: Field, n: nat)
    requires Idle(f, n)
    ensures FieldRunnable(f, [Marking(), Cancelling()])
    ensures var r := FieldRun(f, [Marking(), Cancelling()]);
      && r.text == f.text && r.h.undo == Kept(f.h.undo)
      && (r.h.undo == f.h.undo <==> n < UNDO_HISTORY_CAP)
  {
    hide Idle, Sane, Supplied, FieldStep, Kept;
    Marks(f, n);
    Cancels(f, n);
    OfIdle(f, n);
    var g := FieldStep(f, Marking());
    var ops := [Marking(), Cancelling()];
    assert ops[1..] == [Cancelling()] && ops[1..][1..] == [];
    CompositionIsOneStep(f, Marking(), g, [], g, Cancelling());
    NothingLostIffBelowCap(f.h.undo);
    assert FieldRun(f, ops) == FieldRun(g, ops[1..]) == FieldRun(FieldStep(g, Cancelling()), []);
  }

  lemma OfIdle(f: Field, n: nat)
    requires Idle(f, n)
    ensures FieldOk(f) && Settled(f) && f.marked.None? && |f.h.undo| == n <= UNDO_HISTORY_CAP
  {
    hide Valid, UndoFits, RedoFits, Settled;
  }

  /** A thousand pastes, a letter marked and cancelled: the text is as it was and the first
      paste can no longer be undone. */
  lemma CancelLosesTheOldest()
    ensures FieldRunnable(EmptyField(), Pastes(1000))
    ensures var f := FieldRun(EmptyField(), Pastes(1000));
      && |f.h.undo| == 1000
      && FieldRunnable(f, [Marking(), Cancelling()])
      && var r := FieldRun(f, [Marking(), Cancelling()]);
         r.text == f.text && r.h.undo == f.h.undo[1..]
  {
    hide Idle, FieldRunnable, FieldRun, EmptyField, Pastes;
    EmptyIsIdle();
    PastesAreSteps(EmptyField(), UNDO_HISTORY_CAP, 0);
    var f := FieldRun(EmptyField(), Pastes(UNDO_HISTORY_CAP));
    OfIdle(f, UNDO_HISTORY_CAP);
    CancelKeepsStepsIff(f, UNDO_HISTORY_CAP);
  }
}
