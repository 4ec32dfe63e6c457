/** Undo as the inverse of every decision: after any run of Include, Exclude
    and include-multiple clicks, one undo per id they pushed gives back the
    decisions the run started from. */
module UndoProofs {
  import opened Masks
  import opened Metrics
  import opened Curation
  import opened CurationProofs
  import opened BatchProofs

  /** The state one click of Undo displays. */
  function Undone(s: State): State {
    UndoOnClick(s).s
  }

  /** n clicks of a button, the state each displays feeding the next. */
  function Repeat(f: State -> State, s: State, n: nat): State
    decreases n
  {
    if n == 0 then s else Repeat(f, f(s), n - 1)
  }

  /** A click that reads only the decisions: states that agree on them agree after it. */
  ghost predicate Congruent(f: State -> State) {
    forall a, b :: SameDecisions(a, b) ==> SameDecisions(f(a), f(b))
  }

  /** Clicking f once per push made since s gives back the decisions of s. */
  ghost predicate RestoresBy(f: State -> State, s: State, r: State) {
    |s.undo| <= |r.undo| && SameDecisions(Repeat(f, r, |r.undo| - |s.undo|), s)
  }

  /** One undo per push made since s gives back the decisions of s. */
  ghost predicate Restores(s: State, r: State) {
    RestoresBy(Undone, s, r)
  }

  /** Undo reads only the decisions, so states that agree on them undo alike. */
  lemma UndoCongruent(a: State, b: State)
    requires SameDecisions(a, b)
    ensures SameDecisions(UndoOnClick(a).s, UndoOnClick(b).s)
  {
    if a.undo != [] {
      assert Revert(a).fault == Revert(b).fault;
      assert SameDecisions(Revert(a).s, Revert(b).s);
    }
  }

  lemma UndoneCongruent()
    ensures Congruent(Undone)
  {
    forall a, b | SameDecisions(a, b)
      ensures SameDecisions(Undone(a), Undone(b))
    {
      UndoCongruent(a, b);
    }
  }

  lemma {:induction false} RepeatCongruent(f: State -> State, a: State, b: State, n: nat)
    requires Congruent(f) && SameDecisions(a, b)
    ensures SameDecisions(Repeat(f, a, n), Repeat(f, b, n))
    decreases n
  {
    if n > 0 {
      RepeatCongruent(f, f(a), f(b), n - 1);
    }
  }

  /** j + k clicks are k clicks followed by j more. */
  lemma {:induction false} RepeatAdd(f: State -> State, r: State, j: nat, k: nat)
    ensures Repeat(f, r, j + k) == Repeat(f, Repeat(f, r, k), j)
    decreases k
  {
    if k > 0 {
      RepeatAdd(f, f(r), j, k - 1);
      assert Repeat(f, r, j + k) == Repeat(f, f(r), j + k - 1);
    }
  }

  /** Restoring composes: undoing what r pushed on top of t, then what t pushed on top of s, restores s. */
  lemma RestoresTrans(f: State -> State, s: State, t: State, r: State)
    requires Congruent(f) && RestoresBy(f, s, t) && RestoresBy(f, t, r)
    ensures RestoresBy(f, s, r)
  {
    RepeatTrans(f, s, t, r, |t.undo| - |s.undo|, |r.undo| - |t.undo|, |r.undo| - |s.undo|);
  }

  lemma RepeatTrans(f: State -> State, s: State, t: State, r: State, j: nat, k: nat, n: nat)
    requires Congruent(f) && n == j + k
    requires SameDecisions(Repeat(f, r, k), t) && SameDecisions(Repeat(f, t, j), s)
    ensures SameDecisions(Repeat(f, r, n), s)
  {
    RepeatAdd(f, r, j, k);
    RepeatCongruent(f, Repeat(f, r, k), t, j);
  }

  /** A state with the same decisions as r is restored alike. */
  lemma RestoresSame(f: State -> State, s: State, r: State, r': State)
    requires Congruent(f) && RestoresBy(f, s, r) && SameDecisions(r, r')
    ensures RestoresBy(f, s, r')
  {
    RepeatCongruent(f, r, r', |r.undo| - |s.undo|);
  }

  /** One push whose undo restores t. */
  lemma RestoresOne(t: State, r: State)
    requires |r.undo| == |t.undo| + 1 && SameDecisions(UndoOnClick(r).s, t)
    ensures Restores(t, r)
  {
    assert Repeat(Undone, r, 1) == Repeat(Undone, Undone(r), 0);
  }

  lemma RestoresSelf(s: State)
    ensures Restores(s, s)
  {
    assert Repeat(Undone, s, 0) == s;
  }

  /** One step of the batch loop either pushes nothing and changes no
      decision, or pushes one id that one undo takes back. */
  lemma StepRestores(bt: Batch, v: int, com: Mask -> Centroid)
    requires Consistent(bt.s)
    ensures Restores(bt.s, BatchStep(bt, v, com).s)
  {
    var t := bt.s;
    var r := BatchStep(bt, v, com).s;
    if v != 0 && IsLabel(t.labels, v) && v in t.remaining
       && GetOverlap(CellMask(t.labels, v as nat), t.accepted) == {} {
      BatchOneThenUndo(t, v, com);
      assert RunBatch(t, [v], com).s == r by {
        assert [v][..0] == [];
      }
      RestoresOne(t, r);
    } else {
      assert r == t;
      RestoresSelf(t);
    }
  }

  /** A whole batch, then one undo per id it pushed, restores every decision. */
  lemma {:induction false} BatchThenUndoAll(s: State, ids: seq<int>, com: Mask -> Centroid)
    requires Consistent(s)
    ensures Restores(s, RunBatch(s, ids, com).s)
  {
    if ids == [] {
      RestoresSelf(s);
    } else {
      var pre, v := ids[..|ids| - 1], ids[|ids| - 1];
      var bt := RunBatch(s, pre, com);
      BatchThenUndoAll(s, pre, com);
      RunBatchPreserves(s, pre, com);
      StepRestores(bt, v, com);
      UndoneCongruent();
      RestoresTrans(Undone, s, bt.s, BatchStep(bt, v, com).s);
    }
  }

  // ---------------------------------------------------------------- runs of clicks

  /** The decision buttons: Include and Exclude on the cell on show, and the
      include-multiple button with the ids typed into its field. */
  datatype Action = IncludeShown | ExcludeShown | IncludeMany(ids: seq<int>)

  function Apply(s: State, a: Action, com: Mask -> Centroid): (r: State)
    requires Shaped(s)
    ensures Shaped(r)
  {
    match a
    case IncludeShown => IncludeOnClick(s, false, com).s
    case ExcludeShown => ExcludeOnClick(s).s
    case IncludeMany(ids) => IncludeMultipleOnClick(s, Ids(ids), com).s
  }

  /** Include and Exclude are pressed while a remaining cell is on show, as
      outside draw mode; the include-multiple button needs no cell on show. */
  ghost predicate Pressable(s: State, a: Action) {
    a.IncludeMany? || exists x :: Showing(s, x)
  }

  function Run(s: State, acts: seq<Action>, com: Mask -> Centroid): (r: State)
    requires Shaped(s)
    ensures Shaped(r)
    decreases acts
  {
    if acts == [] then s else Run(Apply(s, acts[0], com), acts[1..], com)
  }

  /** Every click of the run is pressed where it is allowed. */
  ghost predicate Feasible(s: State, acts: seq<Action>, com: Mask -> Centroid)
    requires Shaped(s)
    decreases acts
  {
    acts == [] || (Pressable(s, acts[0]) && Feasible(Apply(s, acts[0], com), acts[1..], com))
  }

  lemma IncludeShownRestores(s: State, x: nat, com: Mask -> Centroid)
    requires Consistent(s) && Showing(s, x)
    ensures Consistent(Apply(s, IncludeShown, com)) && Restores(s, Apply(s, IncludeShown, com))
  {
    IncludeShownPreserves(s, x, com);
    var r := Apply(s, IncludeShown, com);
    if GetOverlap(CellMask(s.labels, x), s.accepted) == {} {
      IncludeThenUndo(s, x, com);
      RestoresOne(s, r);
    } else {
      assert r == s;
      RestoresSelf(s);
    }
  }

  lemma ExcludeShownRestores(s: State, x: nat, com: Mask -> Centroid)
    requires Consistent(s) && Showing(s, x)
    ensures Consistent(Apply(s, ExcludeShown, com)) && Restores(s, Apply(s, ExcludeShown, com))
  {
    ExcludeShownPreserves(s, x);
    ExcludeThenUndo(s, x);
    RestoresOne(s, Apply(s, ExcludeShown, com));
  }

  lemma IncludeManyRestores(s: State, ids: seq<int>, com: Mask -> Centroid)
    requires Consistent(s)
    ensures Consistent(Apply(s, IncludeMany(ids), com)) && Restores(s, Apply(s, IncludeMany(ids), com))
  {
    var b := RunBatch(s, ids, com);
    var r := Apply(s, IncludeMany(ids), com);
    BatchThenUndoAll(s, ids, com);
    RunBatchPreserves(s, ids, com);
    assert SameDecisions(b.s, r);
    UndoneCongruent();
    RestoresSame(Undone, s, b.s, r);
    SameDecisionsConsistent(b.s, r);
  }

  /** One click of a decision button keeps the invariant, and undoing what it pushed restores the decisions. */
  lemma ActionRestores(s: State, a: Action, com: Mask -> Centroid)
    requires Consistent(s) && Pressable(s, a)
    ensures Consistent(Apply(s, a, com)) && Restores(s, Apply(s, a, com))
  {
    match a
    case IncludeMany(ids) => IncludeManyRestores(s, ids, com);
    case IncludeShown =>
      var x :| Showing(s, x);
      IncludeShownRestores(s, x, com);
    case ExcludeShown =>
      var x :| Showing(s, x);
      ExcludeShownRestores(s, x, com);
  }

  /** Any run of Include, Exclude and include-multiple clicks keeps the
      invariant, and one undo per pushed id gives back the decisions it
      started from. */
  lemma {:induction false} RunThenUndoAll(s: State, acts: seq<Action>, com: Mask -> Centroid)
    requires Consistent(s) && Feasible(s, acts, com)
    ensures Consistent(Run(s, acts, com)) && Restores(s, Run(s, acts, com))
    decreases acts
  {
    if acts == [] {
      RestoresSelf(s);
    } else {
      var t := Apply(s, acts[0], com);
      ActionRestores(s, acts[0], com);
      RunThenUndoAll(t, acts[1..], com);
      UndoneCongruent();
      RestoresTrans(Undone, s, t, Run(t, acts[1..], com));
    }
  }
}
