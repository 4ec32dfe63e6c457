/** What `include_multiple` promises: every requested id other than 0 is
    reported in one of the four classes, each inclusion is one push on the
    undo stack, and the curation invariant survives the whole batch. */
module BatchProofs {
  import opened Ids
  import opened Masks
  import opened Metrics
  import opened Curation
  import opened CurationProofs

  /** What a batch reports: the faulty ids are exactly the requested
      non-labels, every requested nonzero id is reported, and only ids that
      remained are included. */
  ghost predicate Reported(s: State, ids: seq<int>, r: Batch) {
    && (forall v :: v in r.faulty <==> v in ids && v != 0 && !IsLabel(s.labels, v))
    && (forall v :: v in r.included || v in r.ignored || v in r.overlapped || v in r.faulty
                    <==> v in ids && v != 0)
    && (forall v :: v in r.included ==> v >= 0 && v as nat in s.remaining)
  }

  /** What a batch changed: the included ids left the remaining set for the
      included one, and each of them was pushed on the undo stack. */
  ghost predicate Moved(s: State, r: Batch) {
    && (forall x: nat :: x in r.s.remaining <==> x in s.remaining && x !in r.included)
    && (forall x: nat :: x in r.s.included <==> x in s.included || x in r.included)
    && |s.undo| <= |r.s.undo| && r.s.undo[..|s.undo|] == s.undo
    && (forall x: nat :: x in r.s.undo[|s.undo|..] <==> x in r.included)
    && NoDup(r.s.undo[|s.undo|..])
  }

  /** One batch step on a consistent state commits only a remaining label
      cell that overlaps nothing, so the invariant holds after it. */
  lemma BatchStepPreserves(b: Batch, v: int, com: Mask -> Centroid)
    requires Consistent(b.s)
    ensures Consistent(BatchStep(b, v, com).s)
  {
    var s := b.s;
    if v != 0 && IsLabel(s.labels, v) && v in s.remaining {
      var id := v as nat;
      BatchTestIsOverlap(s.accepted, s.labels, id);
      var m := CellMask(s.labels, id);
      if GetOverlap(m, s.accepted) == {} {
        CellMaskShowsCell(s.labels, id);
        CountPositive(s.labels, id);
        assert Count(s.labels, id) > 0;
        assert id !in s.accepted by {
          assert id !in NonzeroValues(s.accepted);
        }
        CommitPreserves(s, id, m, true, com);
      }
    }
  }

  /** The invariant holds after a whole batch. */
  lemma {:induction false} RunBatchPreserves(s: State, ids: seq<int>, com: Mask -> Centroid)
    requires Consistent(s)
    ensures Consistent(RunBatch(s, ids, com).s)
  {
    if ids != [] {
      RunBatchPreserves(s, ids[..|ids| - 1], com);
      BatchStepPreserves(RunBatch(s, ids[..|ids| - 1], com), ids[|ids| - 1], com);
    }
  }

  lemma StepReported(s: State, init: seq<int>, v: int, b: Batch, com: Mask -> Centroid)
    requires Shaped(b.s) && b.s.labels == s.labels && Reported(s, init, b) && Moved(s, b)
    ensures Reported(s, init + [v], BatchStep(b, v, com))
  {
    assert forall w :: w in init + [v] <==> w in init || w == v;
  }

  lemma AppendNoDup(q: seq<nat>, x: nat)
    requires NoDup(q) && x !in q
    ensures NoDup(q + [x])
  {
  }

  lemma StepMoved(s: State, v: int, b: Batch, com: Mask -> Centroid)
    requires Shaped(b.s) && Moved(s, b)
    ensures Moved(s, BatchStep(b, v, com))
  {
    var r := BatchStep(b, v, com);
    if v != 0 && IsLabel(b.s.labels, v) && v in b.s.remaining
       && GetOverlap(CellMask(b.s.labels, v as nat), b.s.accepted) == {} {
      var q, x := b.s.undo[|s.undo|..], v as nat;
      assert r.s.undo == b.s.undo + [x];
      assert r.s.undo[..|s.undo|] == b.s.undo[..|s.undo|];
      assert r.s.undo[|s.undo|..] == q + [x];
      assert x !in q;
      AppendNoDup(q, x);
    } else {
      assert r.s == b.s;
    }
  }

  /** Ids are taken left to right: every requested nonzero id is reported in
      a class, the faulty ones are exactly the requested non-labels, only
      remaining ids are included, they leave the remaining set for the
      included one, and each inclusion is pushed on the undo stack. */
  lemma {:induction false} RunBatchClassifies(s: State, ids: seq<int>, com: Mask -> Centroid)
    requires Shaped(s)
    ensures Reported(s, ids, RunBatch(s, ids, com)) && Moved(s, RunBatch(s, ids, com))
  {
    if ids != [] {
      var init := ids[..|ids| - 1];
      var v := ids[|ids| - 1];
      RunBatchClassifies(s, init, com);
      var b := RunBatch(s, init, com);
      assert ids == init + [v];
      StepReported(s, init, v, b, com);
      StepMoved(s, v, b, com);
    } else {
      assert s.undo[..|s.undo|] == s.undo;
    }
  }

  /** A first request for a remaining label cell that overlaps nothing includes it. */
  lemma FirstRequestIncludes(s: State, v: int, com: Mask -> Centroid)
    requires Shaped(s) && v != 0 && IsLabel(s.labels, v) && v in s.remaining
    requires GetOverlap(CellMask(s.labels, v as nat), s.accepted) == {}
    ensures var r := RunBatch(s, [v], com);
            && r.included == {v} && r.ignored == r.faulty == r.overlapped == {}
            && r.s.labels == s.labels && v !in r.s.remaining
  {
    assert [v][..0] == [];
    assert RunBatch(s, [], com) == Batch(s, {}, {}, {}, {});
  }

  /** A second request for an id the same batch included is reported as ignored. */
  lemma DuplicateIsIgnored(s: State, v: int, com: Mask -> Centroid)
    requires Shaped(s) && v != 0 && IsLabel(s.labels, v) && v in s.remaining
    requires GetOverlap(CellMask(s.labels, v as nat), s.accepted) == {}
    ensures var r := RunBatch(s, [v, v], com);
            r.included == {v} && r.ignored == {v} && r.faulty == {} && r.overlapped == {}
  {
    FirstRequestIncludes(s, v, com);
    var b1 := RunBatch(s, [v], com);
    assert RunBatch(s, [v, v], com) == BatchStep(b1, v, com) by {
      assert [v, v][..1] == [v];
    }
  }

  /** The message box after a batch reads "0 is not a valid cell id." exactly
      when every requested id was 0. */
  lemma ReportZeroIff(s: State, ids: seq<int>, com: Mask -> Centroid)
    requires Shaped(s)
    ensures var b := RunBatch(s, ids, com);
            Report(b.included, b.ignored, b.faulty, b.overlapped) == ZeroNotValid
            <==> forall v :: v in ids ==> v == 0
  {
    RunBatchClassifies(s, ids, com);
    var b := RunBatch(s, ids, com);
    if exists v :: v in ids && v != 0 {
      var v :| v in ids && v != 0;
      assert v in b.included || v in b.ignored || v in b.overlapped || v in b.faulty;
      assert !(b.included == b.ignored == b.faulty == b.overlapped == {});
    } else {
      assert forall x :: x in b.included || x in b.ignored || x in b.overlapped || x in b.faulty
                         ==> x in ids && x != 0;
      assert b.included == {} && b.ignored == {} && b.faulty == {} && b.overlapped == {};
    }
  }

  /** Including one remaining label cell by the batch and then undoing it
      restores every decision, and shows the cell again when a layer is on show. */
  lemma BatchOneThenUndo(s: State, v: int, com: Mask -> Centroid)
    requires Consistent(s) && v != 0 && IsLabel(s.labels, v) && v in s.remaining
    requires GetOverlap(CellMask(s.labels, v as nat), s.accepted) == {}
    ensures var r := RunBatch(s, [v], com);
            var u := UndoOnClick(r.s);
            && r.s.undo == s.undo + [v as nat] && v as nat in r.s.included
            && SameDecisions(u.s, s)
            && (s.current.Some? ==> u.fault.None? && Showing(u.s, v as nat))
  {
    BatchOneCommits(s, v, com);
    UndoTakesBack(s, RunBatch(s, [v], com).s, v as nat);
  }

  /** What a batch of one remaining label cell leaves for undo to take back:
      the id on top of the stack, its record last, and its pixels alone added. */
  lemma BatchOneCommits(s: State, v: int, com: Mask -> Centroid)
    requires Consistent(s) && v != 0 && IsLabel(s.labels, v) && v in s.remaining
    requires GetOverlap(CellMask(s.labels, v as nat), s.accepted) == {}
    ensures var id, r := v as nat, RunBatch(s, [v], com).s;
            && Consistent(r) && r.labels == s.labels && r.current == s.current
            && r.undo == s.undo + [id] && id in r.included && id in r.accepted && id in r.labels
            && id !in s.included && r.remaining == s.remaining - {id}
            && r.included == s.included + {id} && r.excluded == s.excluded
            && r.records != [] && r.records[..|r.records| - 1] == s.records
            && Clear(r.accepted, id) == s.accepted
  {
    var id := v as nat;
    var m := CellMask(s.labels, id);
    FirstRequestIncludes(s, v, com);
    var r := RunBatch(s, [v], com);
    assert r == BatchStep(Batch(s, {}, {}, {}, {}), v, com) by {
      assert [v][..0] == [];
    }
    CellMaskShowsCell(s.labels, id);
    CountPositive(s.labels, id);
    assert id !in s.accepted by {
      assert id !in NonzeroValues(s.accepted);
    }
    RunBatchPreserves(s, [v], com);
    assert id in r.s.accepted by {
      MergeCell(s.accepted, m, id);
      CountPositive(r.s.accepted, id);
    }
    ClearUndoesMerge(s.accepted, m, id);
  }

  /** Remaining ids 2, 3 and 5, one pixel each, where the pixel of 5 is already accepted. */
  function ExampleState(): (s: State)
    ensures Shaped(s) && s.remaining == {2, 3, 5}
  {
    Init().(labels := [2, 3, 5], accepted := [0, 0, 4], remaining := {2, 3, 5})
  }

  lemma ExampleIncludesTwo(com: Mask -> Centroid)
    ensures var b := BatchStep(Batch(ExampleState(), {}, {}, {}, {}), 2, com);
            && b.included == {2} && b.ignored == b.faulty == b.overlapped == {}
            && b.s.accepted == [2, 0, 4] && b.s.labels == [2, 3, 5]
            && b.s.remaining == {3, 5} && b.s.included == {2} && b.s.undo == [2]
  {
    var s := ExampleState();
    assert IsLabel(s.labels, 2);
    assert CellMask(s.labels, 2) == [2, 0, 0];
    assert SumAt(s.accepted, s.labels, 2) == 0 by {
      assert s.accepted[1..] == [0, 4] && s.labels[1..] == [3, 5];
      assert [0, 4][1..] == [4] && [3, 5][1..] == [5];
    }
    assert Add(s.accepted, [2, 0, 0]) == [2, 0, 4];
  }

  lemma ExampleOverlapsFive(b: Batch, com: Mask -> Centroid)
    requires b.s == BatchStep(Batch(ExampleState(), {}, {}, {}, {}), 2, com).s
    ensures BatchStep(b, 5, com) == b.(overlapped := b.overlapped + {5})
  {
    ExampleIncludesTwo(com);
    assert IsLabel(b.s.labels, 5) && 5 in b.s.remaining;
    assert SumAt(b.s.accepted, b.s.labels, 5) == 4 by {
      assert b.s.accepted[1..] == [0, 4] && b.s.labels[1..] == [3, 5];
      assert [0, 4][1..] == [4] && [3, 5][1..] == [5];
    }
  }

  /** The batch of requests 2, 2, 99 and 5 against the remaining ids 2, 3
      and 5, where the pixel of 5 is already accepted: 2 is included once
      and then ignored, 99 is no label, 5 overlaps. */
  lemma BatchExample(com: Mask -> Centroid)
    ensures var r := RunBatch(ExampleState(), [2, 2, 99, 5], com);
            && r.included == {2} && r.ignored == {2} && r.faulty == {99} && r.overlapped == {5}
            && r.s.remaining == {3, 5} && r.s.included == {2} && r.s.undo == [2]
            && r.s.accepted == [2, 0, 4]
  {
    var s := ExampleState();
    var b1 := BatchStep(Batch(s, {}, {}, {}, {}), 2, com);
    var b3 := RunBatch(s, [2, 2, 99], com);
    ExampleIncludesTwo(com);
    ExampleFirstThree(com);
    assert b3 == b1.(ignored := {2}, faulty := {99});
    ExampleOverlapsFive(b3, com);
    assert RunBatch(s, [2, 2, 99, 5], com) == b3.(overlapped := {5}) by {
      assert [2, 2, 99, 5][..3] == [2, 2, 99];
    }
  }

  /** The first three requests of the example: 2 is included, then ignored, and 99 is no label. */
  lemma ExampleFirstThree(com: Mask -> Centroid)
    ensures var b1 := BatchStep(Batch(ExampleState(), {}, {}, {}, {}), 2, com);
            RunBatch(ExampleState(), [2, 2, 99], com) == b1.(ignored := {2}, faulty := {99})
  {
    var s := ExampleState();
    ExampleIncludesTwo(com);
    var b1 := BatchStep(Batch(s, {}, {}, {}, {}), 2, com);
    assert RunBatch(s, [2], com) == b1 by { assert [2][..0] == []; }
    var b2 := BatchStep(b1, 2, com);
    assert RunBatch(s, [2, 2], com) == b2 by { assert [2, 2][..1] == [2]; }
    assert b2 == b1.(ignored := {2});
    var b3 := BatchStep(b2, 99, com);
    assert RunBatch(s, [2, 2, 99], com) == b3 by { assert [2, 2, 99][..2] == [2, 2]; }
    assert !IsLabel(b2.s.labels, 99);
  }
}
