/** What the curation operations promise together: the partition of the
    label ids, the accepted mask, the records and the undo stack stay in step
    (Consistent), include and exclude are undone by undo, and the batch
    include sorts every id into exactly the class the widget reports. */
module CurationProofs {
  import opened Ids
  import opened Selector
  import opened Masks
  import opened Metrics
  import opened Curation

  function Elems(q: seq<nat>): set<nat> {
    set x | x in q
  }

  predicate NoDup(q: seq<nat>) {
    forall i, j :: 0 <= i < j < |q| ==> q[i] != q[j]
  }

  /** The ids of q that lie in S, in the order of q: with q the undo stack
      and S the included ids, the order in which the records must appear. */
  function Decided(q: seq<nat>, S: set<nat>): (r: seq<nat>)
    ensures |r| <= |q|
    ensures Elems(r) == Elems(q) * S
  {
    if q == [] then []
    else
      var init, x := q[..|q| - 1], q[|q| - 1];
      assert q == init + [x];
      assert Elems(q) == Elems(init) + {x};
      var r := Decided(init, S) + (if x in S then [x] else []);
      assert Elems(r) == Elems(Decided(init, S)) + (if x in S then {x} else {});
      r
  }

  /** Every nonzero label is in exactly one of the three sets; self-drawn ids are only included. */
  predicate Partition(s: State) {
    && s.remaining !! s.included && s.remaining !! s.excluded && s.included !! s.excluded
    && s.remaining <= NonzeroValues(s.labels) && s.excluded <= NonzeroValues(s.labels)
    && NonzeroValues(s.labels) <= s.remaining + s.included + s.excluded
  }

  /** The undo stack holds each decided id once. */
  predicate StackMatches(s: State) {
    NoDup(s.undo) && Elems(s.undo) == s.included + s.excluded
  }

  /** One record per included cell, in the order of inclusion, with its pixel
      count, and the statistics of those records. */
  predicate RecordsMatch(s: State) {
    && RecordIds(s.records) == Decided(s.undo, s.included)
    && (forall k :: 0 <= k < |s.records| ==> s.records[k].size == Count(s.accepted, s.records[k].id))
    && s.stats == Compute(s.records)
  }

  /** The invariant of the curation state; the accepted mask holds exactly the included cells. */
  predicate Consistent(s: State) {
    && Shaped(s) && Partition(s)
    && s.included == NonzeroValues(s.accepted)
    && StackMatches(s) && RecordsMatch(s)
  }

  /** The current layer shows the remaining cell x, as `display_cell` leaves it. */
  predicate Showing(s: State, x: nat) {
    x in s.remaining && s.current == Some(CellMask(s.labels, x))
  }

  /** The current layer holds only pixels painted with the fresh brush of `draw_own_cell`. */
  predicate PaintedFresh(s: State) {
    && s.current.Some? && s.brush != 0
    && SingleLabel(s.current.value, s.brush)
    && s.brush !in s.labels && s.brush !in s.accepted
  }

  // ---------------------------------------------------------------- sequences

  lemma {:induction false} DecidedIgnores(q: seq<nat>, S: set<nat>, x: nat)
    requires x !in q
    ensures Decided(q, S + {x}) == Decided(q, S) && Decided(q, S - {x}) == Decided(q, S)
  {
    if q != [] {
      assert q[|q| - 1] != x;
      DecidedIgnores(q[..|q| - 1], S, x);
    }
  }

  lemma Pushed(q: seq<nat>, x: nat)
    requires NoDup(q) && x !in q
    ensures NoDup(q + [x]) && Elems(q + [x]) == Elems(q) + {x}
    ensures (q + [x])[..|q|] == q
  {
    assert forall i :: 0 <= i < |q| ==> (q + [x])[i] == q[i];
  }

  lemma Popped(q: seq<nat>)
    requires NoDup(q) && q != []
    ensures NoDup(q[..|q| - 1])
    ensures q[|q| - 1] !in q[..|q| - 1]
    ensures Elems(q[..|q| - 1]) == Elems(q) - {q[|q| - 1]}
  {
    var init := q[..|q| - 1];
    assert q == init + [q[|q| - 1]];
    assert forall y :: y in init ==> y in q;
  }

  lemma RecordIdsPush(rs: seq<Record>, r: Record)
    ensures RecordIds(rs + [r]) == RecordIds(rs) + [r.id]
  {
  }

  lemma RecordIdsPop(rs: seq<Record>)
    requires rs != []
    ensures RecordIds(rs[..|rs| - 1]) == RecordIds(rs)[..|rs| - 1]
  {
  }

  // ---------------------------------------------------------------- masks

  /** A cell painted with a single label shows it as its maximum. */
  lemma SingleLabelMax(m: Mask, id: nat)
    requires SingleLabel(m, id) && Support(m) != {} && |m| > 0
    ensures MaxPixel(m) == id
  {
    var k :| k in Support(m);
    assert m[k] == id;
  }

  /** One record per included cell: their ids are exactly the included ids. */
  lemma RecordsAreIncluded(s: State)
    requires Consistent(s)
    ensures Elems(RecordIds(s.records)) == s.included
  {
  }

  // ---------------------------------------------------------------- binding

  /** The decisions carried over when a label mask is bound: the included
      ids are the accepted labels, disjoint from the excluded ones, and the
      undo stack and the records agree with them. A fresh widget has them. */
  predicate Decisions(s: State) {
    && s.included !! s.excluded && s.included == NonzeroValues(s.accepted)
    && StackMatches(s) && RecordsMatch(s)
  }

  /** Without records nothing is included. */
  lemma NoRecordsNoneIncluded(s: State)
    requires Decisions(s) && s.records == []
    ensures s.included == {}
  {
    assert Decided(s.undo, s.included) == RecordIds(s.records) == [];
    assert Elems(s.undo) * s.included == Elems([]) == {};
  }

  /** Binding a label mask that holds every excluded id, and has the shape
      of the accepted mask and of the current layer where those are kept,
      establishes the invariant. */
  lemma BindPreserves(s: State, labels: Mask)
    requires Decisions(s) && s.excluded <= NonzeroValues(labels)
    requires s.records != [] ==> |s.accepted| == |labels|
    requires s.current.Some? ==> |s.current.value| == |labels|
    ensures Bind(s, labels).fault.None? && Consistent(Bind(s, labels).s)
  {
    var t := Bind(s, labels).s;
    if s.records == [] {
      NoRecordsNoneIncluded(s);
    } else {
      assert |s.records| > 0;
      assert s.records[0].id in Elems(RecordIds(s.records));
      assert s.included != {};
      var x :| x in NonzeroValues(s.accepted);
      assert |s.accepted| > 0;
    }
  }

  /** A session that excluded cell 1 and included none, as an import of
      exclusions alone leaves it, has the decisions a binding starts from. */
  lemma ExcludedOnlyDecisions()
    ensures Decisions(Init().(excluded := {1}, undo := [1]))
  {
    var s := Init().(excluded := {1}, undo := [1]);
    assert Decided([1], {}) == [] by {
      assert [1][..0] == [];
    }
    assert Elems([1]) == {1};
    assert NoDup([1]);
  }

  /** That session bound correctly to labels 1 and 2: only cell 2 remains
      and the invariant holds. */
  lemma ExcludedOnlyBindsCorrectly()
    ensures var s := Init().(excluded := {1}, undo := [1]);
            Bind(s, [0, 1, 2]).s.remaining == {2} && Consistent(Bind(s, [0, 1, 2]).s)
  {
    var s := Init().(excluded := {1}, undo := [1]);
    var labels: Mask := [0, 1, 2];
    assert labels[1] == 1 && labels[2] == 2;
    assert forall x :: x in labels ==> x <= 2;
    assert NonzeroValues(labels) == {1, 2};
    ExcludedOnlyDecisions();
    BindPreserves(s, labels);
  }

  /** Line 378 as written: the same session bound to labels 1 and 2 has
      cell 1 both remaining and excluded, while the corrected binding leaves
      only cell 2 remaining and keeps the invariant. */
  lemma BindAsWrittenBreaksPartition()
    ensures var s := Init().(excluded := {1}, undo := [1]);
            && 1 in BindAsWritten(s, [0, 1, 2]).s.remaining
            && 1 in BindAsWritten(s, [0, 1, 2]).s.excluded
            && !Partition(BindAsWritten(s, [0, 1, 2]).s)
            && Bind(s, [0, 1, 2]).s.remaining == {2}
            && Consistent(Bind(s, [0, 1, 2]).s)
  {
    var labels: Mask := [0, 1, 2];
    assert labels[1] == 1;
    ExcludedOnlyBindsCorrectly();
  }

  /** The correction changes nothing when records exist or nothing is decided. */
  lemma BindCorrectionAgrees(s: State, labels: Mask)
    requires s.records != [] || s.included + s.excluded == {}
    ensures BindAsWritten(s, labels) == Bind(s, labels)
  {
    assert Values(labels) - (s.included + s.excluded + {0}) == NonzeroValues(labels) - (s.included + s.excluded);
  }

  /** Binding a label mask to a fresh widget sets up the invariant; the
      operator starts with every nonzero label remaining and an all-zero
      accepted mask. */
  lemma BindEstablishes(labels: Mask)
    ensures Bind(Init(), labels).fault.None?
    ensures Consistent(Bind(Init(), labels).s)
    ensures Bind(Init(), labels).s.remaining == NonzeroValues(labels)
    ensures Bind(Init(), labels).s.accepted == Zeros(|labels|)
  {
  }

  /** The binding test: a mask whose nonzero labels are 1 to 7. */
  lemma BindExample()
    ensures var s := Bind(Init(), [0, 1, 2, 3, 4, 5, 6, 7, 0]).s;
            s.remaining == {1, 2, 3, 4, 5, 6, 7} && s.accepted == Zeros(9) && s.field == Some(1)
  {
    var labels: Mask := [0, 1, 2, 3, 4, 5, 6, 7, 0];
    var s := Bind(Init(), labels).s;
    assert forall x :: x in labels ==> x <= 7;
    assert labels[1] == 1 && labels[2] == 2 && labels[3] == 3 && labels[4] == 4;
    assert labels[5] == 5 && labels[6] == 6 && labels[7] == 7;
    assert s.remaining == {1, 2, 3, 4, 5, 6, 7};
    assert IsLeast(1, s.remaining);
  }

  /** Starting on 1 with the labels 1 to 7 remaining shows cell 1 alone and
      pre-fills 2, both as written and as corrected. */
  lemma StartOnOne(s: State)
    requires s.labels == [0, 1, 2, 3, 4, 5, 6, 7, 0] && s.remaining == {1, 2, 3, 4, 5, 6, 7}
    requires s.field == Some(1)
    ensures var w := StartAsWritten(s, s.field);
            var c := Start(s, s.field);
            && w.fault.None? && w.s.current == Some([0, 1, 0, 0, 0, 0, 0, 0, 0]) && w.s.field == Some(2)
            && c.fault.None? && c.s.current == Some([0, 1, 0, 0, 0, 0, 0, 0, 0]) && c.s.field == Some(2)
  {
    assert StartId(s.remaining, 1) == 1;
    var up := Above(s.remaining, 1);
    assert up == {2, 3, 4, 5, 6, 7};
    assert IsLeast(2, up);
    assert CellMask(s.labels, 1) == [0, 1, 0, 0, 0, 0, 0, 0, 0];
  }

  /** The start test: after binding, the field holds 1; starting shows cell 1
      alone and pre-fills 2, both as written and as corrected. */
  lemma StartExample()
    ensures var s := Bind(Init(), [0, 1, 2, 3, 4, 5, 6, 7, 0]).s;
            var w := StartAsWritten(s, s.field);
            var c := Start(s, s.field);
            && w.fault.None? && w.s.current == Some([0, 1, 0, 0, 0, 0, 0, 0, 0]) && w.s.field == Some(2)
            && c.fault.None? && c.s.current == Some([0, 1, 0, 0, 0, 0, 0, 0, 0]) && c.s.field == Some(2)
  {
    BindExample();
    StartOnOne(Bind(Init(), [0, 1, 2, 3, 4, 5, 6, 7, 0]).s);
  }

  /** Line 450 as written raises when the start id is the greatest remaining
      one: binding the labels 1 and 2 and starting at 2 shows nothing and
      raises, while the corrected start shows cell 2 and leaves the field
      at 1, the wrap-around of `display_next_cell`. */
  lemma StartAsWrittenRaises()
    ensures var s := Bind(Init(), [0, 1, 2]).s;
            && StartAsWritten(s, Some(2)).fault == Some(EmptyMin)
            && StartAsWritten(s, Some(2)).s.current == Some(Zeros(3))
            && Start(s, Some(2)).fault.None?
            && Start(s, Some(2)).s.current == Some([0, 0, 2])
            && Start(s, Some(2)).s.field == Some(1)
  {
    var labels: Mask := [0, 1, 2];
    var s := Bind(Init(), labels).s;
    assert forall x :: x in labels ==> x <= 2;
    assert labels[1] == 1 && labels[2] == 2;
    assert s.remaining == {1, 2};
    assert StartId(s.remaining, 2) == 2;
    assert IsGreatest(2, s.remaining);
    assert CellMask(labels, 2) == [0, 0, 2];
    assert Above(s.remaining, 2) == {};
    assert IsLeast(1, s.remaining);
  }

  /** Away from that case the correction changes nothing: whenever the start
      id is not the greatest remaining id, both starts reach the same state. */
  lemma StartCorrectionAgrees(s: State, typed: Option<int>)
    requires typed.Some? && s.remaining != {}
    requires !IsGreatest(StartId(s.remaining, typed.value), s.remaining)
    ensures StartAsWritten(s, typed) == Start(s, typed)
  {
    var start := StartId(s.remaining, typed.value);
    var y :| y in s.remaining && y > start;
    assert y in Above(s.remaining, start);
    assert |s.remaining| > 1 by {
      var rest := s.remaining - {start};
      assert y in rest;
      assert |rest| == |s.remaining| - 1;
    }
    WrapHintDiffers(s.remaining, start);
  }

  // ---------------------------------------------------------------- preservation

  /** The invariant speaks only of decisions and shapes. */
  lemma SameDecisionsConsistent(a: State, b: State)
    requires Consistent(a) && SameDecisions(a, b) && Shaped(b)
    ensures Consistent(b)
  {
  }

  /** Showing a cell keeps the invariant. */
  lemma DisplayPreserves(s: State, checkLowered: bool)
    requires Consistent(s)
    ensures Consistent(DisplayNext(s, checkLowered).s)
  {
    var st := DisplayNext(s, checkLowered);
    if st.s.current.Some? && st.s.current != s.current {
      assert |st.s.current.value| == |s.labels|;
    }
    SameDecisionsConsistent(s, st.s);
  }

  /** Starting keeps the invariant and shows the start cell. */
  lemma StartShows(s: State, typed: Option<int>)
    requires Consistent(s) && typed.Some? && s.remaining != {}
    ensures Consistent(Start(s, typed).s)
    ensures Showing(Start(s, typed).s, StartId(s.remaining, typed.value))
  {
    SameDecisionsConsistent(s, Start(s, typed).s);
  }

  /** Committing a single-label cell that overlaps nothing, with the id
      pushed on the undo stack, keeps the invariant. Both include paths
      (a shown label cell, a painted fresh cell) and the batch reach it. */
  lemma CommitPreserves(s: State, id: nat, m: Mask, fromRemaining: bool, com: Mask -> Centroid)
    requires Consistent(s)
    requires |m| == |s.labels| && id != 0 && SingleLabel(m, id) && Support(m) != {}
    requires GetOverlap(m, s.accepted) == {} && id !in s.accepted
    requires fromRemaining ==> id in s.remaining
    requires !fromRemaining ==> id !in s.labels
    ensures Include(s, id, m, fromRemaining, com).fault.None?
    ensures Consistent(Include(s, id, m, fromRemaining, com).s.(undo := s.undo + [id]))
  {
    var inc := Include(s, id, m, fromRemaining, com);
    assert |Support(m)| > 0;
    var t := inc.s.(undo := s.undo + [id]);
    MergeCell(s.accepted, m, id);
    assert id !in s.included;
    assert id !in s.excluded by {
      if !fromRemaining {
        assert id !in NonzeroValues(s.labels);
      }
    }
    assert id !in s.undo by {
      assert id !in Elems(s.undo);
    }
    Pushed(s.undo, id);
    var rec := Record(id, CountNonzero(m), com(m));
    assert CountNonzero(m) > 0;
    assert t.records == s.records + [rec] && t.included == s.included + {id};
    assert Partition(t);
    assert StackMatches(t);
    CommitRecordIds(s, id, rec);
    CommitSizes(s, id, m, com);
    assert RecordsMatch(t);
  }

  /** Pushing an undecided id and appending its record keeps the records in
      the order of the stack. */
  lemma CommitRecordIds(s: State, id: nat, r: Record)
    requires RecordIds(s.records) == Decided(s.undo, s.included)
    requires id !in s.undo && id !in s.included && r.id == id
    ensures RecordIds(s.records + [r]) == Decided(s.undo + [id], s.included + {id})
  {
    DecidedIgnores(s.undo, s.included, id);
    assert Decided(s.undo + [id], s.included + {id}) == Decided(s.undo, s.included) + [id];
    RecordIdsPush(s.records, r);
  }

  /** After a commit every record still holds the pixel count of its cell. */
  lemma CommitSizes(s: State, id: nat, m: Mask, com: Mask -> Centroid)
    requires Consistent(s)
    requires |m| == |s.labels| && id != 0 && SingleLabel(m, id)
    requires GetOverlap(m, s.accepted) == {} && id !in s.accepted
    ensures var recs := s.records + [Record(id, CountNonzero(m), com(m))];
            forall k :: 0 <= k < |recs| ==> recs[k].size == Count(Add(s.accepted, m), recs[k].id)
  {
    var recs := s.records + [Record(id, CountNonzero(m), com(m))];
    MergeCell(s.accepted, m, id);
    RecordsAreIncluded(s);
    forall k | 0 <= k < |recs| ensures recs[k].size == Count(Add(s.accepted, m), recs[k].id) {
      if k < |s.records| {
        assert recs[k] == s.records[k];
        assert s.records[k].id in Elems(RecordIds(s.records));
      }
    }
  }

  /** Including the cell on show, as the include button does, keeps the invariant. */
  lemma IncludeShownPreserves(s: State, x: nat, com: Mask -> Centroid)
    requires Consistent(s) && Showing(s, x)
    ensures Consistent(IncludeOnClick(s, false, com).s)
  {
    var m := CellMask(s.labels, x);
    var i := IncludeOnClick(s, false, com);
    if GetOverlap(m, s.accepted) == {} {
      ShownCellCommits(s, x);
      assert CurrentId(s) == Some(x);
      CommitPreserves(s, x, m, true, com);
      var inc := Include(s, x, m, true, com);
      var t := inc.s.(undo := s.undo + [x]);
      assert SameDecisions(i.s, t);
      SameDecisionsConsistent(t, i.s);
    } else {
      assert i.s == s;
    }
  }

  /** The facts about a shown cell that a commit needs. */
  lemma ShownCellCommits(s: State, x: nat)
    requires Consistent(s) && Showing(s, x)
    ensures x != 0 && x in s.labels && x !in s.accepted && x !in s.included + s.excluded
    ensures var m := CellMask(s.labels, x);
            |m| == |s.labels| > 0 && SingleLabel(m, x) && Support(m) != {} && MaxPixel(m) == x
            && Support(m) == Positions(s.labels, x)
  {
    assert x in NonzeroValues(s.labels);
    CellMaskShowsCell(s.labels, x);
    CountPositive(s.labels, x);
    assert x !in NonzeroValues(s.accepted);
  }

  /** Arming `draw_own_cell` keeps the invariant, and whatever the operator
      then paints is a cell of the fresh label. */
  lemma ArmThenPaint(s: State, at: set<nat>, com: Mask -> Centroid)
    requires Consistent(s) && !s.drawing && CurrentId(s).Some?
    ensures var t := DrawOwnCell(s, com).s;
            t.current.Some? && t.drawing && Consistent(t)
            && Consistent(Paint(t, at)) && PaintedFresh(Paint(t, at))
  {
    var t := DrawOwnCell(s, com).s;
    SameDecisionsConsistent(s, t);
  }

  /** Confirming a painted fresh cell keeps the invariant when it commits. */
  lemma ConfirmPreserves(s: State, com: Mask -> Centroid)
    requires Consistent(s) && s.drawing && PaintedFresh(s)
    ensures DrawOwnCell(s, com).fault.None? ==> Consistent(DrawOwnCell(s, com).s)
  {
    var st := DrawOwnCell(s, com);
    var inc := IncludeOnClick(s, true, com);
    var m := s.current.value;
    if st.fault.None? && s.remaining != {} && GetOverlap(m, s.accepted) == {} {
      SingleLabelMax(m, s.brush);
      CommitPreserves(s, s.brush, m, false, com);
      var t := Include(s, s.brush, m, false, com).s.(undo := s.undo + [s.brush]);
      assert SameDecisions(st.s, t);
      SameDecisionsConsistent(t, st.s);
    }
  }

  /** The decisions after excluding x. */
  lemma ExcludeStepConsistent(s: State, x: nat)
    requires Consistent(s) && x in s.remaining
    ensures Consistent(s.(excluded := s.excluded + {x}, remaining := s.remaining - {x}, undo := s.undo + [x]))
  {
    var t := s.(excluded := s.excluded + {x}, remaining := s.remaining - {x}, undo := s.undo + [x]);
    assert x !in s.undo by {
      assert x !in Elems(s.undo);
    }
    Pushed(s.undo, x);
    assert Decided(t.undo, t.included) == Decided(s.undo, s.included) by {
      assert (s.undo + [x])[..|s.undo|] == s.undo;
    }
  }

  /** Excluding the cell on show keeps the invariant. */
  lemma ExcludeShownPreserves(s: State, x: nat)
    requires Consistent(s) && Showing(s, x)
    ensures ExcludeOnClick(s).fault != Some(MissingKey(x))
    ensures Consistent(ExcludeOnClick(s).s)
  {
    ShownCellCommits(s, x);
    assert CurrentId(s) == Some(x);
    var t := s.(excluded := s.excluded + {x}, remaining := s.remaining - {x}, undo := s.undo + [x]);
    ExcludeStepConsistent(s, x);
    DisplayPreserves(t, true);
    assert ExcludeOnClick(s) == if t.remaining != {} then DisplayNext(t, true) else Step(t, [], None);
  }

  /** The top of the undo stack of a consistent state is a decided, nonzero id. */
  lemma TopDecided(s: State)
    requires Consistent(s) && s.undo != []
    ensures var x := s.undo[|s.undo| - 1];
            && x != 0 && x in s.included + s.excluded
            && (x in s.accepted <==> x in s.included)
            && (x in s.labels ==> x !in s.remaining && x in NonzeroValues(s.labels))
  {
    var x := s.undo[|s.undo| - 1];
    assert x in Elems(s.undo);
    assert 0 !in NonzeroValues(s.accepted);
    assert 0 !in NonzeroValues(s.labels);
    assert x in s.accepted <==> x in NonzeroValues(s.accepted);
  }

  /** Undoing an inclusion: the last record is the undone cell's. */
  lemma RevertIncluded(s: State)
    requires Consistent(s) && s.undo != [] && s.undo[|s.undo| - 1] in s.included
    ensures Revert(s).fault.None?
    ensures Consistent(Revert(s).s.(stats := Compute(Revert(s).s.records)))
  {
    var x := s.undo[|s.undo| - 1];
    var q := s.undo[..|s.undo| - 1];
    TopDecided(s);
    assert s.records != [] by {
      Popped(s.undo);
      assert s.undo == q + [x];
      assert Decided(s.undo, s.included) == Decided(q, s.included) + [x];
    }
    var r := Revert(s).s.(stats := Compute(Revert(s).s.records));
    assert r == s.(undo := q, remaining := if x in s.labels then s.remaining + {x} else s.remaining,
                   records := s.records[..|s.records| - 1], accepted := Clear(s.accepted, x),
                   included := s.included - {x}, stats := Compute(s.records[..|s.records| - 1]));
    UnincludeConsistent(s);
  }

  /** The decisions after undoing the inclusion on top of the stack. */
  lemma UnincludeConsistent(s: State)
    requires Consistent(s) && s.undo != [] && s.undo[|s.undo| - 1] in s.included && s.records != []
    ensures var x := s.undo[|s.undo| - 1];
            Consistent(s.(undo := s.undo[..|s.undo| - 1],
                          remaining := if x in s.labels then s.remaining + {x} else s.remaining,
                          records := s.records[..|s.records| - 1], accepted := Clear(s.accepted, x),
                          included := s.included - {x}, stats := Compute(s.records[..|s.records| - 1])))
  {
    var x := s.undo[|s.undo| - 1];
    var q := s.undo[..|s.undo| - 1];
    var r := s.(undo := q, remaining := if x in s.labels then s.remaining + {x} else s.remaining,
                records := s.records[..|s.records| - 1], accepted := Clear(s.accepted, x),
                included := s.included - {x}, stats := Compute(s.records[..|s.records| - 1]));
    TopDecided(s);
    ClearLabel(s.accepted, x);
    assert Partition(r);
    Popped(s.undo);
    assert StackMatches(r);
    UnincludeRecords(s);
  }

  lemma UnincludeRecords(s: State)
    requires Consistent(s) && s.undo != [] && s.undo[|s.undo| - 1] in s.included && s.records != []
    ensures var x := s.undo[|s.undo| - 1];
            RecordsMatch(s.(undo := s.undo[..|s.undo| - 1], records := s.records[..|s.records| - 1],
                            accepted := Clear(s.accepted, x), included := s.included - {x},
                            stats := Compute(s.records[..|s.records| - 1])))
  {
    var x := s.undo[|s.undo| - 1];
    var q := s.undo[..|s.undo| - 1];
    PoppedRecordIds(s);
    TopDecided(s);
    ClearLabel(s.accepted, x);
    RecordSizesKept(s.records, s.accepted, Clear(s.accepted, x), Elems(q), x);
  }

  /** The records left after the pop are those of the stack left after it;
      none of them is the popped id. */
  lemma PoppedRecordIds(s: State)
    requires Consistent(s) && s.undo != [] && s.undo[|s.undo| - 1] in s.included && s.records != []
    ensures var x, q := s.undo[|s.undo| - 1], s.undo[..|s.undo| - 1];
            var p := s.records[..|s.records| - 1];
            && RecordIds(p) == Decided(q, s.included - {x})
            && (forall k :: 0 <= k < |s.records| - 1 ==> s.records[k].id in Elems(q))
            && x !in Elems(q) && 0 !in Elems(q)
  {
    var x := s.undo[|s.undo| - 1];
    var q := s.undo[..|s.undo| - 1];
    TopDecided(s);
    Popped(s.undo);
    assert s.undo == q + [x];
    assert Decided(s.undo, s.included) == Decided(q, s.included) + [x];
    RecordIdsPop(s.records);
    DecidedIgnores(q, s.included, x);
    var p := s.records[..|s.records| - 1];
    assert RecordIds(p) == Decided(q, s.included - {x});
    forall k | 0 <= k < |s.records| - 1
      ensures s.records[k].id in Elems(q)
    {
      assert RecordIds(p)[k] == s.records[k].id;
      assert s.records[k].id in Decided(q, s.included);
      assert s.records[k].id in Elems(Decided(q, s.included));
    }
  }

  /** Record sizes survive clearing a label that none of them carries. */
  lemma RecordSizesKept(rs: seq<Record>, a: Mask, b: Mask, ids: set<nat>, x: nat)
    requires rs != []
    requires forall k :: 0 <= k < |rs| ==> rs[k].size == Count(a, rs[k].id)
    requires forall k :: 0 <= k < |rs| - 1 ==> rs[k].id in ids
    requires x !in ids && 0 !in ids
    requires forall y: nat :: y != 0 && y != x ==> Count(b, y) == Count(a, y)
    ensures var p := rs[..|rs| - 1];
            forall k :: 0 <= k < |p| ==> p[k].size == Count(b, p[k].id)
  {
  }

  /** Undoing an exclusion. */
  lemma RevertExcluded(s: State)
    requires Consistent(s) && s.undo != [] && s.undo[|s.undo| - 1] in s.excluded
    ensures Revert(s).fault.None?
    ensures Consistent(Revert(s).s.(stats := Compute(Revert(s).s.records)))
  {
    var x := s.undo[|s.undo| - 1];
    var q := s.undo[..|s.undo| - 1];
    TopDecided(s);
    Popped(s.undo);
    assert s.undo == q + [x];
    assert Decided(s.undo, s.included) == Decided(q, s.included);
  }

  /** Under the invariant the pop and set updates of undo never raise. */
  lemma RevertSucceeds(s: State)
    requires Consistent(s) && s.undo != []
    ensures Revert(s).fault.None?
    ensures Consistent(Revert(s).s.(stats := Compute(Revert(s).s.records)))
  {
    TopDecided(s);
    if s.undo[|s.undo| - 1] in s.included {
      RevertIncluded(s);
    } else {
      RevertExcluded(s);
    }
  }

  /** Undo keeps the invariant, and it only fails when no cell layer exists. */
  lemma UndoPreserves(s: State)
    requires Consistent(s)
    ensures Consistent(UndoOnClick(s).s)
    ensures UndoOnClick(s).fault.Some? ==> UndoOnClick(s).fault == Some(NoLayer)
  {
    if s.undo != [] {
      RevertSucceeds(s);
      var x := s.undo[|s.undo| - 1];
      var r := Revert(s).s;
      DisplayPreserves(r.(field := Some(x), stats := Compute(r.records)), true);
    }
  }

  /** Once the pop and set updates succeed, undo displays the undone label:
      the field holds it and it remains again. */
  lemma RevertedIsShown(s: State)
    requires s.undo != [] && s.current.Some? && Revert(s).fault.None?
    requires s.undo[|s.undo| - 1] in s.labels
    ensures UndoOnClick(s).fault.None? && Showing(UndoOnClick(s).s, s.undo[|s.undo| - 1])
  {
    var x := s.undo[|s.undo| - 1];
    var r := Revert(s).s;
    var d := r.(field := Some(x), stats := Compute(r.records));
    assert x in d.remaining && d.current.Some?;
    assert UndoOnClick(s) == DisplayNext(d, true);
  }

  /** Undo shows the undone cell again when it is a label of the mask. */
  lemma UndoRedisplays(s: State)
    requires Consistent(s) && s.undo != [] && s.current.Some?
    requires s.undo[|s.undo| - 1] in s.labels
    ensures UndoOnClick(s).fault.None? && Showing(UndoOnClick(s).s, s.undo[|s.undo| - 1])
  {
    RevertSucceeds(s);
    RevertedIsShown(s);
  }

  /** Include followed by undo restores every decision, and shows the cell again. */
  lemma IncludeThenUndo(s: State, x: nat, com: Mask -> Centroid)
    requires Consistent(s) && Showing(s, x)
    requires GetOverlap(CellMask(s.labels, x), s.accepted) == {}
    ensures var i := IncludeOnClick(s, false, com);
            var u := UndoOnClick(i.s);
            && i.s.undo == s.undo + [x] && x in i.s.included
            && SameDecisions(u.s, s) && u.fault.None? && Showing(u.s, x)
  {
    IncludeShownCommits(s, x, com);
    UndoTakesBack(s, IncludeOnClick(s, false, com).s, x);
  }

  /** Undo takes back a commit of x on top of s: a state that differs from s
      only by x pushed, included, recorded last and merged into the accepted
      mask undoes to the decisions of s, showing x again when a layer is on show. */
  lemma UndoTakesBack(s: State, r: State, x: nat)
    requires Consistent(s) && Consistent(r) && r.labels == s.labels
    requires r.undo == s.undo + [x] && x in r.included && x in r.accepted && x in r.labels
    requires x !in s.included && r.remaining == s.remaining - {x} && x in s.remaining
    requires r.included == s.included + {x} && r.excluded == s.excluded
    requires r.records != [] && r.records[..|r.records| - 1] == s.records
    requires Clear(r.accepted, x) == s.accepted
    ensures SameDecisions(UndoOnClick(r).s, s)
    ensures r.current.Some? ==> UndoOnClick(r).fault.None? && Showing(UndoOnClick(r).s, x)
  {
    assert (s.undo + [x])[..|s.undo|] == s.undo;
    assert r.remaining + {x} == s.remaining && r.included - {x} == s.included;
    var b := Revert(r).s;
    assert b.records == s.records && b.accepted == s.accepted;
    RevertSucceeds(r);
    if r.current.Some? {
      RevertedIsShown(r);
    }
  }

  /** What the include of a cell on show leaves for undo to take back: x is
      on top of the stack, its record last, and its pixels alone were added. */
  lemma IncludeShownCommits(s: State, x: nat, com: Mask -> Centroid)
    requires Consistent(s) && Showing(s, x)
    requires GetOverlap(CellMask(s.labels, x), s.accepted) == {}
    ensures var i := IncludeOnClick(s, false, com).s;
            && Consistent(i) && i.current.Some? && i.labels == s.labels
            && i.undo == s.undo + [x] && x in i.included && x in i.accepted && x in i.labels
            && x !in s.included && x in s.remaining
            && i.remaining == s.remaining - {x} && i.included == s.included + {x} && i.excluded == s.excluded
            && i.records != [] && i.records[..|i.records| - 1] == s.records
            && Clear(i.accepted, x) == s.accepted
  {
    var m := CellMask(s.labels, x);
    ShownCellCommits(s, x);
    CommitPreserves(s, x, m, true, com);
    var i := IncludeOnClick(s, false, com);
    var t := Include(s, x, m, true, com).s.(undo := s.undo + [x]);
    assert SameDecisions(i.s, t);
    assert i.s.current.Some?;
    assert x in i.s.accepted by {
      MergeCell(s.accepted, m, x);
      CountPositive(i.s.accepted, x);
    }
    ClearUndoesMerge(s.accepted, m, x);
    IncludeShownPreserves(s, x, com);
  }

  /** Exclude followed by undo restores every decision, and shows the cell again. */
  lemma ExcludeThenUndo(s: State, x: nat)
    requires Consistent(s) && Showing(s, x)
    ensures var e := ExcludeOnClick(s);
            var u := UndoOnClick(e.s);
            && e.s.undo == s.undo + [x] && x in e.s.excluded
            && SameDecisions(u.s, s) && u.fault.None? && Showing(u.s, x)
  {
    ShownCellCommits(s, x);
    assert CurrentId(s) == Some(x);
    ExcludeShownPreserves(s, x);
    var e := ExcludeOnClick(s);
    assert (s.undo + [x])[..|s.undo|] == s.undo;
    assert x !in e.s.accepted by {
      assert x !in NonzeroValues(s.accepted);
    }
    UndoRedisplays(e.s);
  }

  /** Confirming a drawn cell followed by undo restores every decision; the
      drawn id is not a label of the mask, so it does not become a remaining cell. */
  lemma DrawnThenUndo(s: State, com: Mask -> Centroid)
    requires Consistent(s) && s.drawing && PaintedFresh(s) && s.remaining != {}
    requires GetOverlap(s.current.value, s.accepted) == {} && Support(s.current.value) != {}
    ensures var d := DrawOwnCell(s, com);
            var u := UndoOnClick(d.s);
            d.fault.None? ==>
              && d.s.undo == s.undo + [s.brush] && s.brush in d.s.included
              && u.fault.None? && SameDecisions(u.s, s) && s.brush !in u.s.remaining
  {
    var m, x := s.current.value, s.brush;
    var d := DrawOwnCell(s, com);
    if d.fault.None? {
      SingleLabelMax(m, x);
      assert CurrentId(s) == Some(x);
      CommitPreserves(s, x, m, false, com);
      var t := Include(s, x, m, false, com).s.(undo := s.undo + [x]);
      assert SameDecisions(d.s, t);
      SameDecisionsConsistent(t, d.s);
      assert x in d.s.accepted by {
        MergeCell(s.accepted, m, x);
        CountPositive(d.s.accepted, x);
      }
      assert (s.undo + [x])[..|s.undo|] == s.undo;
      ClearUndoesMerge(s.accepted, m, x);
      RevertSucceeds(d.s);
      assert d.s.current.Some?;
      assert x !in s.included;
    }
  }

  /** The corrected export leaves the widget as it was, so the invariant and
      every undo lemma still hold after it, and a later undo keeps the
      invariant; the file holds every record once, sorted by id, with the
      stack, the exclusions and the accepted mask of the session. */
  lemma ExportPreserves(s: State)
    requires Consistent(s)
    ensures var e := Export(s);
            && e.s == s && Consistent(UndoOnClick(e.s).s)
            && multiset(e.file.records) == multiset(s.records) && SortedById(e.file.records)
            && e.file.undo == s.undo && e.file.excluded == s.excluded
            && e.file.accepted == s.accepted && e.file.stats == s.stats
  {
    UndoPreserves(s);
  }

  /** Cells 5 and 3, one pixel each, included in that order. */
  function FiveThenThree(): State {
    var recs := [Record(5, 1, [0]), Record(3, 1, [1])];
    Init().(labels := [5, 3], accepted := [5, 3], included := {3, 5},
            records := recs, undo := [5, 3], stats := Compute(recs))
  }

  lemma FiveThenThreeMasks()
    ensures NonzeroValues([5, 3]) == {3, 5}
    ensures Count([5, 3], 5) == 1 && Count([5, 3], 3) == 1
  {
    var m: Mask := [5, 3];
    assert m[0] == 5 && m[1] == 3;
    assert Positions(m, 5) == {0};
    assert Positions(m, 3) == {1};
  }

  lemma FiveThenThreeStack()
    ensures Elems([5, 3]) == {3, 5} && NoDup([5, 3])
    ensures Decided([5, 3], {3, 5}) == [5, 3]
  {
    var q: seq<nat> := [5, 3];
    assert q[0] == 5 && q[1] == 3;
    assert q[..1] == [5] && [5][..0] == [];
  }

  lemma FiveThenThreeConsistent()
    ensures Consistent(FiveThenThree())
  {
    FiveThenThreeMasks();
    FiveThenThreeStack();
    var s := FiveThenThree();
    assert RecordIds(s.records) == [5, 3];
    assert RecordsMatch(s);
    assert StackMatches(s);
    assert Partition(s);
  }

  /** Line 537 as written: after an export of cells 5 and 3, included in that
      order, the records no longer follow the undo stack, and undo, which pops
      the last record (line 622), drops the record of 5 while it clears and
      un-includes 3. */
  lemma ExportAsWrittenBreaksUndo()
    ensures var s := FiveThenThree();
            var e := ExportAsWritten(s).s;
            var u := UndoOnClick(e);
            && Consistent(s) && !RecordsMatch(e)
            && u.s.included == {5} && u.s.records == [Record(3, 1, [1])]
  {
    FiveThenThreeConsistent();
    FiveThenThreeStack();
    SortFiveThree();
    var e := ExportAsWritten(FiveThenThree()).s;
    assert RecordIds(e.records)[0] == 3;
    UndoAfterSort(e);
  }

  lemma SortFiveThree()
    ensures SortById([Record(5, 1, [0]), Record(3, 1, [1])]) == [Record(3, 1, [1]), Record(5, 1, [0])]
  {
    var r5, r3 := Record(5, 1, [0]), Record(3, 1, [1]);
    assert [r5, r3][..1] == [r5];
    assert SortById([r5, r3]) == InsertById(SortById([r5]), r3);
    SortFive();
    InsertThreeAfterFive();
  }

  lemma SortFive()
    ensures SortById([Record(5, 1, [0])]) == [Record(5, 1, [0])]
  {
    var r5 := Record(5, 1, [0]);
    assert [r5][..0] == [];
  }

  lemma InsertThreeAfterFive()
    ensures InsertById([Record(5, 1, [0])], Record(3, 1, [1])) == [Record(3, 1, [1]), Record(5, 1, [0])]
  {
    var r5, r3 := Record(5, 1, [0]), Record(3, 1, [1]);
    assert [r5][..0] == [];
    assert InsertById([], r3) == [r3];
  }

  /** Undo on the sorted records pops the record of 5 while it takes back 3. */
  lemma UndoAfterSort(e: State)
    requires e.accepted == [5, 3] && e.included == {3, 5} && e.undo == [5, 3]
    requires e.records == [Record(3, 1, [1]), Record(5, 1, [0])]
    ensures UndoOnClick(e).s.included == {5} && UndoOnClick(e).s.records == [Record(3, 1, [1])]
  {
    assert e.undo[|e.undo| - 1] == 3 && e.accepted[1] == 3;
    assert e.records[..1] == [Record(3, 1, [1])];
    assert Revert(e).fault.None?;
  }

  // ---------------------------------------------------------------- draw mode, as written

  /** Arming the brush empties the current layer, so its `np.max` is 0. */
  lemma ArmedLayerIsZero(s: State, com: Mask -> Centroid)
    requires Consistent(s) && !s.drawing && CurrentId(s).Some?
    ensures var t := DrawOwnCell(s, com).s;
            && t.drawing && Consistent(t) && CurrentId(t) == Some(0)
            && Support(t.current.value) == {} && GetOverlap(t.current.value, t.accepted) == {}
            && CountNonzero(t.current.value) == 0 && 0 !in t.remaining
  {
    ArmThenPaint(s, {}, com);
    var t := DrawOwnCell(s, com).s;
    var z := t.current.value;
    assert z == Zeros(|s.labels|) && |z| > 0 && z[0] == 0;
    assert MaxPixel(z) in z;
    assert 0 !in NonzeroValues(t.labels);
  }

  /** Exclude pressed while the brush is armed (draw mode disables no button):
      `excluded.add(0)` runs before `remaining.remove(0)` raises KeyError
      (lines 600-601), and 0 stays excluded, which breaks the invariant. */
  lemma ExcludeWhileArmed(s: State, com: Mask -> Centroid)
    requires Consistent(s) && !s.drawing && CurrentId(s).Some? && s.remaining != {}
    ensures var t := DrawOwnCell(s, com).s;
            var e := ExcludeOnClick(t);
            && e.fault == Some(MissingKey(0)) && 0 in e.s.excluded && !Consistent(e.s)
  {
    ArmedLayerIsZero(s, com);
    var e := ExcludeOnClick(DrawOwnCell(s, com).s);
    assert 0 !in NonzeroValues(e.s.labels);
  }

  /** "Confirm/Back" pressed right after arming, nothing painted: the empty
      layer is included as cell 0, which joins `included` (line 910) before
      the centroid of the empty mask raises (line 948); the widget stays in
      draw mode and the invariant is broken. */
  lemma BackWithoutPainting(s: State, com: Mask -> Centroid)
    requires Consistent(s) && !s.drawing && CurrentId(s).Some? && s.remaining != {}
    ensures var t := DrawOwnCell(s, com).s;
            var b := DrawOwnCell(t, com);
            && b.fault == Some(NanCentroid) && 0 in b.s.included && b.s.drawing && !Consistent(b.s)
  {
    ArmedLayerIsZero(s, com);
    var b := DrawOwnCell(DrawOwnCell(s, com).s, com);
    assert 0 !in NonzeroValues(b.s.accepted);
  }

  /** Undo pressed while the brush is armed shows the undone cell again but
      stays in draw mode (lines 628-632 do not reset the button). */
  lemma ArmThenUndo(s: State, com: Mask -> Centroid)
    requires Consistent(s) && !s.drawing && CurrentId(s).Some? && s.undo != []
    requires s.undo[|s.undo| - 1] in s.labels
    ensures var u := UndoOnClick(DrawOwnCell(s, com).s);
            && u.fault.None? && u.s.drawing && Consistent(u.s)
            && Showing(u.s, s.undo[|s.undo| - 1])
  {
    ArmThenPaint(s, {}, com);
    var t := DrawOwnCell(s, com).s;
    RevertSucceeds(t);
    RevertedIsShown(t);
    UndoPreserves(t);
  }

  /** "Confirm/Back" then commits whatever the layer shows, not taken from
      remaining (line 825 passes `self_drawn`): a shown label cell is included
      and still remains, which breaks the invariant without any exception. */
  lemma ConfirmShownLabel(u: State, y: nat, com: Mask -> Centroid)
    requires Consistent(u) && u.drawing && Showing(u, y)
    requires GetOverlap(CellMask(u.labels, y), u.accepted) == {}
    ensures var d := DrawOwnCell(u, com);
            d.fault.None? ==> y in d.s.remaining && y in d.s.included && !Consistent(d.s)
  {
    ShownCellCommits(u, y);
    assert CurrentId(u) == Some(y);
  }

  /** A session on the labels 1, 2 and 3: binding offers cell 1. */
  lemma SessionBinds()
    ensures var s1 := Bind(Init(), [1, 2, 3]).s;
            && Consistent(s1) && s1.field == Some(1) && s1.labels == [1, 2, 3]
            && s1.accepted == [0, 0, 0] && s1.remaining == {1, 2, 3}
            && s1.included == {} && s1.excluded == {} && s1.undo == [] && s1.records == []
  {
    var labels: Mask := [1, 2, 3];
    BindEstablishes(labels);
    var s1 := Bind(Init(), labels).s;
    assert forall x :: x in labels ==> 1 <= x <= 3;
    assert labels[0] == 1 && labels[1] == 2 && labels[2] == 3;
    assert s1.remaining == {1, 2, 3};
    assert IsLeast(1, s1.remaining);
    assert s1.accepted == Zeros(3) == [0, 0, 0];
  }

  /** Starting on the id the field offers shows cell 1 and offers 2. */
  lemma SessionStarts(s1: State)
    requires Consistent(s1) && s1.field == Some(1) && s1.remaining == {1, 2, 3}
    ensures var s2 := Start(s1, s1.field).s;
            && Consistent(s2) && Showing(s2, 1) && s2.field == Some(2) && SameDecisions(s2, s1)
  {
    assert StartId(s1.remaining, 1) == 1;
    StartShows(s1, s1.field);
    assert 2 in Above(s1.remaining, 1);
    assert IsLeast(2, Above(s1.remaining, 1));
  }

  /** The commit of cell 1: it moves, and its one pixel is recorded. */
  lemma SessionCommits(s2: State, com: Mask -> Centroid)
    requires Shaped(s2) && s2.labels == [1, 2, 3] && s2.accepted == [0, 0, 0]
    requires s2.remaining == {1, 2, 3} && s2.included == {}
    ensures var inc := Include(s2, 1, [1, 0, 0], true, com);
            && inc.fault.None? && inc.s.remaining == {2, 3} && inc.s.included == {1}
            && inc.s.accepted == [1, 0, 0] && |inc.s.records| == |s2.records| + 1
            && inc.s.records[|s2.records|].size == 1
  {
    var m: Mask := [1, 0, 0];
    assert CountNonzero(m) == 1 by {
      assert Support(m) == {0};
    }
    assert Add(s2.accepted, m) == [1, 0, 0];
  }

  /** The commit of cell 1 keeps the invariant. */
  lemma SessionCommitKeeps(s2: State, com: Mask -> Centroid)
    requires Consistent(s2) && Showing(s2, 1) && s2.labels == [1, 2, 3] && s2.accepted == [0, 0, 0]
    ensures Consistent(Include(s2, 1, [1, 0, 0], true, com).s.(undo := s2.undo + [1]))
  {
    ShownCellCommits(s2, 1);
    assert CellMask(s2.labels, 1) == [1, 0, 0];
    assert GetOverlap([1, 0, 0], s2.accepted) == {};
    CommitPreserves(s2, 1, [1, 0, 0], true, com);
  }

  /** Including cell 1 on show displays the next cell; the decisions are those of the commit. */
  lemma SessionIncludeStep(s2: State, com: Mask -> Centroid)
    requires Consistent(s2) && Showing(s2, 1) && s2.labels == [1, 2, 3] && s2.accepted == [0, 0, 0]
    requires s2.remaining == {1, 2, 3} && s2.included == {}
    ensures IncludeOnClick(s2, false, com)
            == DisplayNext(Include(s2, 1, [1, 0, 0], true, com).s.(undo := s2.undo + [1]), true)
  {
    ShownCellCommits(s2, 1);
    assert CellMask(s2.labels, 1) == [1, 0, 0];
    assert GetOverlap([1, 0, 0], s2.accepted) == {};
    SessionCommits(s2, com);
  }

  /** Including cell 1 on show shows cell 2, the id the field offered. */
  lemma SessionIncludes(s2: State, com: Mask -> Centroid)
    requires Consistent(s2) && Showing(s2, 1) && s2.field == Some(2)
    requires s2.labels == [1, 2, 3] && s2.accepted == [0, 0, 0]
    requires s2.remaining == {1, 2, 3} && s2.included == {}
    ensures var s3 := IncludeOnClick(s2, false, com).s;
            && Consistent(s3) && Showing(s3, 2)
            && s3.remaining == {2, 3} && s3.included == {1} && s3.excluded == s2.excluded
            && s3.accepted == [1, 0, 0] && |s3.records| == |s2.records| + 1
            && s3.records[|s2.records|].size == 1
  {
    SessionCommits(s2, com);
    SessionCommitKeeps(s2, com);
    SessionIncludeStep(s2, com);
    var t := Include(s2, 1, [1, 0, 0], true, com).s.(undo := s2.undo + [1]);
    assert IsLeast(2, Above(t.remaining, 1));
    assert 3 in Above(t.remaining, 2);
    DisplayPreserves(t, true);
  }

  /** Excluding cell 2 next moves it to the excluded ids. */
  lemma SessionExcludes(s3: State)
    requires Consistent(s3) && Showing(s3, 2)
    requires s3.remaining == {2, 3} && s3.excluded == {}
    ensures ExcludeOnClick(s3).s.remaining == {3}
    ensures ExcludeOnClick(s3).s.included == s3.included
    ensures ExcludeOnClick(s3).s.excluded == {2}
  {
    ShownCellCommits(s3, 2);
    assert CurrentId(s3) == Some(2);
  }

  /** Undoing that exclusion gives 2 back to the remaining ids. */
  lemma SessionUndoes(s3: State)
    requires Consistent(s3) && Showing(s3, 2)
    ensures SameDecisions(UndoOnClick(ExcludeOnClick(s3).s).s, s3)
    ensures Consistent(UndoOnClick(ExcludeOnClick(s3).s).s)
  {
    ExcludeThenUndo(s3, 2);
    ExcludeShownPreserves(s3, 2);
    UndoPreserves(ExcludeOnClick(s3).s);
  }

  /** The first half of the session below: bind the labels 1, 2 and 3,
      start on the offered id 1 and include it; cell 2 is then on show. */
  lemma SessionReachesTwo(com: Mask -> Centroid)
    ensures var s1 := Bind(Init(), [1, 2, 3]).s;
            var s2 := Start(s1, s1.field).s;
            var s3 := IncludeOnClick(s2, false, com).s;
            && Showing(s2, 1) && Consistent(s3) && Showing(s3, 2)
            && s3.remaining == {2, 3} && s3.included == {1} && s3.excluded == {}
            && s3.accepted == [1, 0, 0] && |s3.records| == 1 && s3.records[0].size == 1
  {
    SessionBinds();
    var s1 := Bind(Init(), [1, 2, 3]).s;
    SessionStarts(s1);
    var s2 := Start(s1, s1.field).s;
    SessionIncludes(s2, com);
  }

  /** A whole session on the labels 1, 2 and 3: bind, start on the offered
      id, include cell 1, exclude cell 2, undo. Each step shows the cell the
      field offered, the decisions move as the buttons say, and after the
      undo cell 2 remains again with the invariant intact. */
  lemma SessionExample(com: Mask -> Centroid)
    ensures var s1 := Bind(Init(), [1, 2, 3]).s;
            var s2 := Start(s1, s1.field).s;
            var s3 := IncludeOnClick(s2, false, com).s;
            var s4 := ExcludeOnClick(s3).s;
            var s5 := UndoOnClick(s4).s;
            && Showing(s2, 1)
            && s3.remaining == {2, 3} && s3.included == {1} && s3.excluded == {}
            && s3.accepted == [1, 0, 0] && |s3.records| == 1 && s3.records[0].size == 1
            && Showing(s3, 2)
            && s4.remaining == {3} && s4.included == {1} && s4.excluded == {2}
            && s5.remaining == {2, 3} && s5.included == {1} && s5.excluded == {}
            && Consistent(s5)
  {
    SessionReachesTwo(com);
    var s1 := Bind(Init(), [1, 2, 3]).s;
    var s3 := IncludeOnClick(Start(s1, s1.field).s, false, com).s;
    SessionExcludes(s3);
    SessionUndoes(s3);
  }
}
