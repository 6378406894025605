/** Whole runs of the undo history, and its refinement of a plain snapshot history. */
module UndoRuns {
  import opened Basics
  import opened Options
  import opened Utf8
  import opened Splice
  import opened UndoHistory

  /** One call on the history together with the splice or restore the field applies. */
  datatype Op =
    | Record(range: Range, newText: Bytes, selection: Range, reversed: bool, now: nat)
    | Compose(range: Range, newText: Bytes, selection: Range, reversed: bool, now: nat)
    | Finalize
    | Seal
    | Undo
    | Redo

  datatype State = State(h: History, text: Bytes)

  ghost predicate Enabled(s: State, op: Op) {
    op.Record? || op.Compose? ==>
      Sliceable(s.text, op.range) && Valid(op.newText) && Sliceable(s.text, op.selection)
  }

  ghost function Step(s: State, op: Op): State
    requires Enabled(s, op)
  {
    match op
    case Record(range, newText, selection, reversed, now) =>
      State(Recorded(s.h, s.text, range, newText, selection, reversed, now), Apply(s.text, range, newText))
    case Compose(range, newText, selection, reversed, now) =>
      State(RecordedComposition(s.h, s.text, range, newText, selection, reversed, now), Apply(s.text, range, newText))
    case Finalize => s.(h := Finalized(s.h))
    case Seal => s.(h := Sealed(s.h))
    case Undo => Moved(s, Undone(s.h, s.text))
    case Redo => Moved(s, Redone(s.h, s.text))
  }

  /** The field takes the restored text, or keeps its own when there is none. */
  function Moved(s: State, outcome: (History, Option<Restored>)): State {
    State(outcome.0, match outcome.1 case Some(r) => r.text case None => s.text)
  }

  ghost predicate Runnable(s: State, ops: seq<Op>)
    decreases |ops|
  {
    ops == [] || (Enabled(s, ops[0]) && Runnable(Step(s, ops[0]), ops[1..]))
  }

  ghost function Run(s: State, ops: seq<Op>): State
    requires Runnable(s, ops)
    decreases |ops|
  {
    if ops == [] then s else Run(Step(s, ops[0]), ops[1..])
  }

  ghost predicate Ok(s: State) {
    Consistent(s.h, s.text)
  }

  ghost function Seen(s: State): Timeline
    requires Ok(s)
  {
    View(s.h, s.text)
  }

  // ----- the same run on a stack of snapshots -----

  /** What one call does to the snapshots. */
  datatype Move = Stay | Grow(text: Bytes) | Push(text: Bytes) | Forget | Back | Forward

  function Shifted(t: Timeline, m: Move): Timeline {
    match m
    case Stay => t
    case Grow(text) => Timeline(t.past, text, [])
    case Push(text) => Timeline(Capped(t.past + [t.text]), text, [])
    case Forget => if t.past == [] then t else t.(past := DropLast(t.past))
    case Back => if t.past == [] then t else Timeline(DropLast(t.past), Last(t.past), t.future + [t.text])
    case Forward => if t.future == [] then t else Timeline(t.past + [t.text], Last(t.future), DropLast(t.future))
  }

  /** A new step pushes a snapshot, a joined or amended one replaces the text, and a
      composition that came to nothing forgets its snapshot. */
  ghost function MoveOf(s: State, op: Op): Move
    requires Enabled(s, op)
  {
    match op
    case Record(range, newText, _, _, now) =>
      var text := Apply(s.text, range, newText);
      if text == s.text then Stay
      else if Joins(s.h, s.text, range, newText, now) then Grow(text) else Push(text)
    case Compose(range, newText, _, _, _) =>
      var text := Apply(s.text, range, newText);
      if InsideComposition(s.h, range) then Grow(text) else Push(text)
    case Finalize =>
      if s.h.undo != [] && Last(s.h.undo).composing && Last(s.h.undo).before == Last(s.h.undo).after
      then Forget else Stay
    case Seal => Stay
    case Undo => Back
    case Redo => Forward
  }

  predicate Fits(t: Timeline, m: Move) {
    && (m.Grow? ==> t.past != [])
    && (m.Forget? ==> t.past != [] && Last(t.past) == t.text)
  }

  /** Every call acts on the recorded steps as `MoveOf` says on whole snapshots, and a
      forgotten snapshot is the text still shown. */
  lemma StepMoves(s: State, op: Op)
    requires Ok(s) && Enabled(s, op)
    ensures Ok(Step(s, op)) && Seen(Step(s, op)) == Shifted(Seen(s), MoveOf(s, op))
    ensures Fits(Seen(s), MoveOf(s, op))
  {
    hide Ok, Enabled, Step, Seen, MoveOf, Shifted, Fits;
    match op
    case Record(_, _, _, _, _) => RecordMoves(s, op);
    case Compose(_, _, _, _, _) => ComposeMoves(s, op);
    case _ => OtherMoves(s, op);
  }

  lemma RecordMoves(s: State, op: Op)
    requires Ok(s) && Enabled(s, op) && op.Record?
    ensures Ok(Step(s, op)) && Seen(Step(s, op)) == Shifted(Seen(s), MoveOf(s, op))
    ensures Fits(Seen(s), MoveOf(s, op))
  {
    hide Consistent, View, Recorded, Apply, Joins, IsBoundary, Valid;
    RecordStep(s.h, s.text, op.range, op.newText, op.selection, op.reversed, op.now);
    JoiningNeedsAStep(s.h, s.text, op.range, op.newText, op.now);
    StepsAreTexts(s);
  }

  lemma ComposeMoves(s: State, op: Op)
    requires Ok(s) && Enabled(s, op) && op.Compose?
    ensures Ok(Step(s, op)) && Seen(Step(s, op)) == Shifted(Seen(s), MoveOf(s, op))
    ensures Fits(Seen(s), MoveOf(s, op))
  {
    hide Consistent, View, RecordedComposition, Apply, IsBoundary, Valid;
    CompositionStep(s.h, s.text, op.range, op.newText, op.selection, op.reversed, op.now);
    StepsAreTexts(s);
  }

  lemma OtherMoves(s: State, op: Op)
    requires Ok(s) && Enabled(s, op) && !op.Record? && !op.Compose?
    ensures Ok(Step(s, op)) && Seen(Step(s, op)) == Shifted(Seen(s), MoveOf(s, op))
    ensures Fits(Seen(s), MoveOf(s, op))
  {
    hide Consistent, View, Sealed, Undone, Redone, Finalized;
    StepsAreTexts(s);
    UndoOfNothing(s.h, s.text);
    match op
    case Finalize => FinalizeStep(s.h, s.text);
    case Seal => SealStep(s.h, s.text);
    case Undo => if s.h.undo != [] { UndoStep(s.h, s.text); }
    case Redo => if s.h.redo != [] { RedoStep(s.h, s.text); }
  }

  lemma StepsAreTexts(s: State)
    requires Ok(s)
    ensures |Seen(s).past| == |s.h.undo| && |Seen(s).future| == |s.h.redo| && Seen(s).text == s.text
  {
    hide Valid, UndoFits, RedoFits;
  }

  lemma JoiningNeedsAStep(h: History, text: Bytes, range: Range, newText: Bytes, now: nat)
    requires range.start <= range.end <= |text|
    ensures Joins(h, text, range, newText, now) ==> h.undo != []
  {
    hide Trim, Coalesced;
  }

  lemma UndoOfNothing(h: History, text: Bytes)
    ensures h.undo == [] ==> Undone(h, text) == (h, None)
    ensures h.redo == [] ==> Redone(h, text) == (h, None)
  {
  }

  /** Over any run the stacks describe texts one splice apart that fit each other, at
      most `UNDO_HISTORY_CAP` in all, so no undo or redo ever meets a mismatch. */
  lemma {:induction false} RunKeeps(s: State, ops: seq<Op>)
    requires Ok(s) && Runnable(s, ops)
    ensures Ok(Run(s, ops))
    decreases |ops|
  {
    hide Ok, Enabled, Step, MoveOf, Shifted;
    if ops != [] {
      StepMoves(s, ops[0]);
      RunKeeps(Step(s, ops[0]), ops[1..]);
    }
  }

  // ----- the plain history: one snapshot for each splice -----

  datatype PlainOp = Spliced(text: Bytes) | PlainUndo | PlainRedo

  function PlainStep(p: Timeline, op: PlainOp): Timeline {
    match op
    case Spliced(text) => Timeline(p.past + [p.text], text, [])
    case PlainUndo =>
      if p.past == [] then p else Timeline(DropLast(p.past), Last(p.past), p.future + [p.text])
    case PlainRedo =>
      if p.future == [] then p else Timeline(p.past + [p.text], Last(p.future), DropLast(p.future))
  }

  function PlainRun(p: Timeline, ops: seq<PlainOp>): Timeline
    decreases |ops|
  {
    if ops == [] then p else PlainRun(PlainStep(p, ops[0]), ops[1..])
  }

  lemma {:induction false} PlainRunConcat(p: Timeline, a: seq<PlainOp>, b: seq<PlainOp>)
    ensures PlainRun(p, a + b) == PlainRun(PlainRun(p, a), b)
    decreases |a|
  {
    if a == [] {
      assert a + b == b;
    } else {
      assert (a + b)[1..] == a[1..] + b;
      PlainRunConcat(PlainStep(p, a[0]), a[1..], b);
    }
  }

  /** `a` is `b` with some entries left out. */
  predicate Subsequence(a: seq<Bytes>, b: seq<Bytes>) {
    a == [] ||
    (b != [] && (Subsequence(a, DropLast(b)) || (Last(a) == Last(b) && Subsequence(DropLast(a), DropLast(b)))))
  }

  lemma {:induction false} SubsequenceRefl(a: seq<Bytes>)
    ensures Subsequence(a, a)
  {
    if a != [] { SubsequenceRefl(DropLast(a)); }
  }

  lemma SubsequencePush(a: seq<Bytes>, b: seq<Bytes>, x: Bytes)
    requires Subsequence(a, b)
    ensures Subsequence(a, b + [x]) && Subsequence(a + [x], b + [x])
  {
    assert DropLast(b + [x]) == b && DropLast(a + [x]) == a;
  }

  lemma {:induction false} SubsequenceDropFirst(a: seq<Bytes>, b: seq<Bytes>, k: nat)
    requires Subsequence(a, b) && k <= |a|
    ensures Subsequence(a[k..], b)
    decreases |b|
  {
    if k < |a| {
      if Subsequence(a, DropLast(b)) {
        SubsequenceDropFirst(a, DropLast(b), k);
      } else {
        SubsequenceDropFirst(DropLast(a), DropLast(b), k);
        assert DropLast(a[k..]) == DropLast(a)[k..];
      }
    }
  }

  lemma {:induction false} SubsequenceDropLast(a: seq<Bytes>, b: seq<Bytes>)
    requires Subsequence(a, b) && a != []
    ensures Subsequence(DropLast(a), b)
    decreases |b|
  {
    if Subsequence(a, DropLast(b)) {
      SubsequenceDropLast(a, DropLast(b));
    } else {
      SubsequencePush(DropLast(a), DropLast(b), Last(b));
      assert DropLast(b) + [Last(b)] == b;
    }
  }

  /** `c` visits some of the texts `p` visits, in the same order, at the same place. */
  ghost predicate Coarsens(c: Timeline, p: Timeline) {
    c.text == p.text && Subsequence(c.past, p.past) && Subsequence(c.future, p.future)
  }

  /** Enough plain undos bring the plain history to the coarse one's previous text. */
  lemma {:induction false} BackTo(c: seq<Bytes>, p: Timeline, f: seq<Bytes>) returns (n: nat)
    requires c != [] && Subsequence(c, p.past) && Subsequence(f, p.future)
    ensures var p' := PlainRun(p, seq(n, _ => PlainUndo));
      p'.text == Last(c) && Subsequence(DropLast(c), p'.past) && Subsequence(f + [p.text], p'.future)
    decreases |p.past|
  {
    var q := PlainStep(p, PlainUndo);
    SubsequencePush(f, p.future, p.text);
    if Last(c) == Last(p.past) && Subsequence(DropLast(c), DropLast(p.past)) {
      n := 1;
      assert seq(1, _ => PlainUndo)[1..] == [];
    } else {
      var m := BackTo(c, q, f + [p.text]);
      n := m + 1;
      assert seq(n, _ => PlainUndo)[1..] == seq(m, _ => PlainUndo);
      var p' := PlainRun(q, seq(m, _ => PlainUndo));
      SubsequenceDropLast(f + [p.text] + [q.text], p'.future);
    }
  }

  function Mirror(p: Timeline): Timeline {
    Timeline(p.future, p.text, p.past)
  }

  lemma {:induction false} ForwardMirrorsBack(p: Timeline, n: nat)
    ensures PlainRun(p, seq(n, _ => PlainRedo)) == Mirror(PlainRun(Mirror(p), seq(n, _ => PlainUndo)))
    decreases n
  {
    if n > 0 {
      assert seq(n, _ => PlainRedo)[1..] == seq(n - 1, _ => PlainRedo);
      assert seq(n, _ => PlainUndo)[1..] == seq(n - 1, _ => PlainUndo);
      ForwardMirrorsBack(PlainStep(p, PlainRedo), n - 1);
    }
  }

  /** The texts that the splices of a run produce, no-op records left out. */
  ghost function RunSplices(s: State, ops: seq<Op>): seq<PlainOp>
    requires Runnable(s, ops)
    decreases |ops|
  {
    if ops == [] then []
    else
      var m := MoveOf(s, ops[0]);
      (if m.Grow? || m.Push? then [Spliced(m.text)] else []) + RunSplices(Step(s, ops[0]), ops[1..])
  }

  function OnlySplices(ops: seq<PlainOp>): seq<PlainOp> {
    if ops == [] then []
    else (if ops[0].Spliced? then [ops[0]] else []) + OnlySplices(ops[1..])
  }

  lemma {:induction false} OnlySplicesConcat(a: seq<PlainOp>, b: seq<PlainOp>)
    ensures OnlySplices(a + b) == OnlySplices(a) + OnlySplices(b)
  {
    if a == [] {
      assert a + b == b;
    } else {
      var first := if a[0].Spliced? then [a[0]] else [];
      assert (a + b)[0] == a[0] && (a + b)[1..] == a[1..] + b;
      OnlySplicesConcat(a[1..], b);
      Regrouped(first, OnlySplices(a[1..]), OnlySplices(b));
    }
  }

  lemma {:induction false} NoSplicesIn(n: nat, op: PlainOp)
    requires !op.Spliced?
    ensures OnlySplices(seq(n, _ => op)) == []
  {
    if n > 0 {
      assert seq(n, _ => op)[1..] == seq(n - 1, _ => op);
      NoSplicesIn(n - 1, op);
    }
  }

  /** One call is matched by some plain steps: the same splice, or enough plain undos. */
  lemma MoveRefines(c: Timeline, m: Move, p: Timeline) returns (ops: seq<PlainOp>)
    requires Coarsens(c, p) && Fits(c, m)
    ensures Coarsens(Shifted(c, m), PlainRun(p, ops))
    ensures OnlySplices(ops) == if m.Grow? || m.Push? then [Spliced(m.text)] else []
  {
    ops := [];
    match m
    case Stay =>
    case Grow(_) | Push(_) =>
      var text := m.text;
      ops := [Spliced(text)];
      SplicePushes(c, p, text);
      assert OnlySplices(ops[1..]) == [];
    case Forget => SubsequenceDropLast(c.past, p.past);
    case Back =>
      if c.past != [] {
        var n := BackTo(c.past, p, c.future);
        ops := seq(n, _ => PlainUndo);
        NoSplicesIn(n, PlainUndo);
      }
    case Forward =>
      if c.future != [] {
        var n := BackTo(c.future, Mirror(p), c.past);
        ops := seq(n, _ => PlainRedo);
        NoSplicesIn(n, PlainRedo);
        ForwardMirrorsBack(p, n);
      }
  }

  lemma SplicePushes(c: Timeline, p: Timeline, text: Bytes)
    requires Coarsens(c, p)
    ensures PlainRun(p, [Spliced(text)]) == Timeline(p.past + [p.text], text, [])
    ensures Subsequence(c.past, p.past + [p.text])
    ensures Subsequence(Capped(c.past + [c.text]), p.past + [p.text])
  {
    hide Subsequence;
    SubsequencePush(c.past, p.past, p.text);
    var ps := c.past + [c.text];
    if |ps| > UNDO_HISTORY_CAP {
      SubsequenceDropFirst(ps, p.past + [p.text], |ps| - UNDO_HISTORY_CAP);
    }
    OnePlainSplice(p, text);
  }

  lemma OnePlainSplice(p: Timeline, text: Bytes)
    ensures PlainRun(p, [Spliced(text)]) == Timeline(p.past + [p.text], text, [])
  {
    assert [Spliced(text)][1..] == [];
  }

  /** The coalescing history refines the plain one: for every run there is a run of the
      plain history with the very same splices that ends on the same text, and whose
      undo and redo texts contain the coalescing history's, in order. */
  lemma {:induction false} RunRefines(s: State, ops: seq<Op>, p: Timeline) returns (pops: seq<PlainOp>)
    requires Ok(s) && Runnable(s, ops) && Coarsens(Seen(s), p)
    ensures Ok(Run(s, ops)) && Coarsens(Seen(Run(s, ops)), PlainRun(p, pops))
    ensures OnlySplices(pops) == RunSplices(s, ops)
    decreases |ops|
  {
    hide Ok, Enabled, Step, Coarsens, MoveOf, Shifted;
    pops := [];
    if ops != [] {
      StepMoves(s, ops[0]);
      var first := MoveRefines(Seen(s), MoveOf(s, ops[0]), p);
      var rest := RunRefines(Step(s, ops[0]), ops[1..], PlainRun(p, first));
      pops := first + rest;
      PlainRunConcat(p, first, rest);
      OnlySplicesConcat(first, rest);
    }
  }

  /** So it does from wherever both stand together. */
  lemma RunRefinesFromHere(s: State, ops: seq<Op>) returns (pops: seq<PlainOp>)
    requires Ok(s) && Runnable(s, ops)
    ensures Ok(Run(s, ops)) && Coarsens(Seen(Run(s, ops)), PlainRun(Seen(s), pops))
    ensures OnlySplices(pops) == RunSplices(s, ops)
  {
    hide Ok, Seen, Run, Runnable, Subsequence;
    SubsequenceRefl(Seen(s).past);
    SubsequenceRefl(Seen(s).future);
    pops := RunRefines(s, ops, Seen(s));
  }

  // ----- how far back, and there and back again -----

  /** The oldest text that undoing can reach. */
  function Baseline(t: Timeline): Bytes {
    (t.past + [t.text])[0]
  }

  /** Does this call push a step onto a full stack? */
  ghost predicate FullPush(s: State, op: Op)
    requires Ok(s) && Enabled(s, op)
  {
    MoveOf(s, op).Push? && |Seen(s).past| == UNDO_HISTORY_CAP
  }

  ghost predicate NeverFull(s: State, ops: seq<Op>)
    requires Ok(s) && Runnable(s, ops)
    decreases |ops|
  {
    ops == [] ||
    (StepMoves(s, ops[0]);
     !FullPush(s, ops[0]) && NeverFull(Step(s, ops[0]), ops[1..]))
  }

  lemma MoveKeepsBaseline(t: Timeline, m: Move)
    requires |t.past| + |t.future| <= UNDO_HISTORY_CAP && Fits(t, m) && !(m.Push? && |t.past| == UNDO_HISTORY_CAP)
    ensures Baseline(Shifted(t, m)) == Baseline(t)
  {
  }

  lemma SeenWithinCap(s: State)
    requires Ok(s)
    ensures |Seen(s).past| + |Seen(s).future| <= UNDO_HISTORY_CAP
  {
    hide Valid, UndoFits, RedoFits;
  }

  /** Undoing leads all the way to where the run began as long as no step is pushed onto a
      full stack, however long the run. */
  lemma {:induction false} RunKeepsBaseline(s: State, ops: seq<Op>)
    requires Ok(s) && Runnable(s, ops) && NeverFull(s, ops)
    ensures Ok(Run(s, ops)) && Baseline(Seen(Run(s, ops))) == Baseline(Seen(s))
    decreases |ops|
  {
    hide Ok, Enabled, Step, Baseline, MoveOf, Shifted, Seen;
    if ops != [] {
      StepMoves(s, ops[0]);
      SeenWithinCap(s);
      MoveKeepsBaseline(Seen(s), MoveOf(s, ops[0]));
      RunKeepsBaseline(Step(s, ops[0]), ops[1..]);
    }
  }

  /** The first step pushed onto a full stack drops exactly the text the run began on: undo
      then leads to the second oldest at most. */
  lemma FirstFullPushDropsBaseline(s: State, ops: seq<Op>, op: Op)
    requires Ok(s) && Runnable(s, ops) && NeverFull(s, ops)
    requires Ok(Run(s, ops)) && Enabled(Run(s, ops), op) && FullPush(Run(s, ops), op)
    ensures var t := Seen(Run(s, ops)); var r := Step(Run(s, ops), op);
      && Ok(r) && t.past[0] == Baseline(Seen(s))
      && Seen(r).past == t.past[1..] + [t.text] && Baseline(Seen(r)) == t.past[1]
  {
    hide Ok, Enabled, Step, MoveOf, Seen;
    var t := Seen(Run(s, ops));
    RunKeepsBaseline(s, ops);
    StepMoves(Run(s, ops), op);
    OldestIsLostOnlyAtTheCap(t, MoveOf(Run(s, ops), op).text);
  }

  /** A new step gives up the oldest text at the cap, and only there. */
  lemma OldestIsLostOnlyAtTheCap(t: Timeline, text: Bytes)
    requires |t.past| <= UNDO_HISTORY_CAP
    ensures Shifted(t, Push(text)).past ==
      (if |t.past| == UNDO_HISTORY_CAP then t.past[1..] else t.past) + [t.text]
  {
    var ps := t.past + [t.text];
    assert |t.past| == UNDO_HISTORY_CAP ==> ps[1..] == t.past[1..] + [t.text];
  }

  ghost function Repeat(s: State, op: Op, k: nat): State
    requires op.Undo? || op.Redo?
  {
    if k == 0 then s else Step(Repeat(s, op, k - 1), op)
  }

  lemma {:induction false} RepeatShift(s: State, op: Op, k: nat)
    requires op.Undo? || op.Redo?
    ensures Repeat(Step(s, op), op, k) == Step(Repeat(s, op, k), op)
  {
    hide Step;
    if k > 0 { RepeatShift(s, op, k - 1); }
  }

  lemma UndoThenRedoStep(s: State)
    requires Ok(s) && s.h.undo != []
    ensures var t := Step(s, Undo);
      && Ok(t) && |t.h.undo| == |s.h.undo| - 1 && Step(t, Redo) == s
      && t.text == Last(Seen(s).past) && Seen(t).past == DropLast(Seen(s).past)
  {
    hide Consistent, Undone, Redone;
    UndoStep(s.h, s.text);
    UndoThenRedo(s.h, s.text);
  }

  lemma RedoThenUndoStep(s: State)
    requires Ok(s) && s.h.redo != []
    ensures var t := Step(s, Redo);
      && Ok(t) && |t.h.redo| == |s.h.redo| - 1 && Step(t, Undo) == s
      && t.text == Last(Seen(s).future) && Seen(t).future == DropLast(Seen(s).future)
  {
    hide Consistent, Undone, Redone;
    RedoStep(s.h, s.text);
    RedoThenUndo(s.h, s.text);
  }

  /** `k` undos visit the recorded texts one by one, and `k` redos bring back the text
      and both stacks exactly. */
  lemma {:induction false} UndosThenRedos(s: State, k: nat)
    requires Ok(s) && k <= |s.h.undo|
    ensures k > 0 ==> Repeat(s, Undo, k).text == Seen(s).past[|s.h.undo| - k]
    ensures Repeat(Repeat(s, Undo, k), Redo, k) == s
    decreases k
  {
    hide Ok, Step;
    if k > 0 {
      UndoThenRedoStep(s);
      var s' := Step(s, Undo);
      RepeatShift(s, Undo, k - 1);
      UndosThenRedos(s', k - 1);
    }
  }

  lemma {:induction false} RedosThenUndos(s: State, k: nat)
    requires Ok(s) && k <= |s.h.redo|
    ensures k > 0 ==> Repeat(s, Redo, k).text == Seen(s).future[|s.h.redo| - k]
    ensures Repeat(Repeat(s, Redo, k), Undo, k) == s
    decreases k
  {
    hide Ok, Step;
    if k > 0 {
      RedoThenUndoStep(s);
      RepeatShift(s, Redo, k - 1);
      RedosThenUndos(Step(s, Redo), k - 1);
    }
  }

  // ----- only texts that were really shown -----

  function Texts(t: Timeline): set<Bytes> {
    (set x | x in t.past) + {t.text} + (set x | x in t.future)
  }

  lemma MoveReachesHeldTexts(t: Timeline, m: Move)
    ensures Texts(Shifted(t, m)) <= Texts(t) + {Shifted(t, m).text}
  {
  }

  /** The texts the field shows during a run. */
  ghost function Shown(s: State, ops: seq<Op>): set<Bytes>
    requires Runnable(s, ops)
    decreases |ops|
  {
    {s.text} + if ops == [] then {} else Shown(Step(s, ops[0]), ops[1..])
  }

  /** Undo and redo only ever lead to texts the field has shown. */
  lemma {:induction false} RunReachesHeldTexts(s: State, ops: seq<Op>)
    requires Ok(s) && Runnable(s, ops)
    ensures Ok(Run(s, ops)) && Texts(Seen(Run(s, ops))) <= Texts(Seen(s)) + Shown(s, ops)
    decreases |ops|
  {
    hide Ok, Enabled, Step, Texts, MoveOf, Shifted;
    if ops != [] {
      StepMoves(s, ops[0]);
      MoveReachesHeldTexts(Seen(s), MoveOf(s, ops[0]));
      RunReachesHeldTexts(Step(s, ops[0]), ops[1..]);
      ShowsItsText(Step(s, ops[0]), ops[1..]);
    }
  }

  lemma ShowsItsText(s: State, ops: seq<Op>)
    requires Runnable(s, ops)
    ensures s.text in Shown(s, ops)
  {
  }
}
