/** The `CellAnalyzer` widget as an object whose methods update its fields in
    place, as src/mmv_h4cells/_widget.py does. The accepted mask is an array
    that include adds into and undo zeroes; the other fields are reassigned.
    Each method is proved to reach the state, the message boxes and the
    escaping exception of the matching transition of module Curation, so
    the invariant and undo lemmas proved there hold of the object. */
module Analyzer {
  import opened Ids
  import opened Selector
  import opened Masks
  import opened Metrics
  import opened Curation
  import opened CurationProofs
  import opened BatchProofs

  class CellAnalyzer {
    var labels: Mask              // layer_to_evaluate.data
    var accepted: array<nat>      // accepted_cells
    var current: Option<Mask>     // current_cell_layer.data
    var remaining: set<nat>
    var included: set<nat>
    var excluded: set<nat>
    var records: seq<Record>      // metric_data
    var undo: seq<nat>            // undo_stack
    var stats: Stats              // mean_size and std_size
    var field: Option<int>        // lineedit_next_id
    var brush: nat                // current_cell_layer.selected_label
    var drawing: bool             // btn_segment reads "Confirm/Back"

    /** The fields as a value of the curation state. */
    ghost function Abs(): State
      reads this, accepted
    {
      State(labels, accepted[..], current, remaining, included, excluded,
            records, undo, stats, field, brush, drawing)
    }

    /** The widget after `__init__`: no label layer and nothing decided. */
    constructor ()
      ensures Abs() == Init()
    {
      labels := [];
      accepted := new nat[0];
      current := None;
      remaining, included, excluded := {}, {}, {};
      records, undo := [], [];
      stats := Stats(0.0, 0.0);
      field := None;
      brush := 0;
      drawing := false;
    }

    /** `set_label_layer` (lines 365-382), with the remaining ids computed
        as line 374 does, with or without records. */
    method SetLabelLayer(layer: Mask) returns (fault: Option<Fault>)
      modifies this
      ensures Bind(old(Abs()), layer) == Step(Abs(), [], fault)
      ensures old(Decisions(Abs()) && excluded <= NonzeroValues(layer)
                  && (records != [] ==> accepted.Length == |layer|)
                  && (current.Some? ==> |current.value| == |layer|)) ==>
                fault.None? && Consistent(Abs())
    {
      ghost var before := Abs();
      labels := layer;
      if records != [] && accepted.Length == 0 {
        return Some(EmptyMax);
      }
      if records == [] {
        accepted := new nat[|layer|](_ => 0);
        assert accepted[..] == Zeros(|layer|);
      }
      remaining := NonzeroValues(layer) - (included + excluded);
      field := MinHint(remaining);
      fault := None;
      if Decisions(before) && before.excluded <= NonzeroValues(layer)
         && (before.records != [] ==> |before.accepted| == |layer|)
         && (before.current.Some? ==> |before.current.value| == |layer|) {
        BindPreserves(before, layer);
      }
    }

    /** `calculate_metrics` (lines 1004-1012). */
    method CalculateMetrics()
      modifies this`stats
      ensures stats == Compute(records)
    {
      stats := Compute(records);
    }

    /** `display_cell` (lines 455-468). */
    method DisplayCell(id: nat) returns (fault: Option<Fault>)
      modifies this`current, this`brush
      ensures Curation.DisplayCell(old(Abs()), id) == Step(Abs(), [], fault)
    {
      if current.None? {
        return Some(NoLayer);
      }
      current := Some(CellMask(labels, id));
      brush := id;
      fault := None;
    }

    /** `display_next_cell` (lines 828-898). */
    method DisplayNextCell(checkLowered: bool) returns (msgs: seq<Msg>, fault: Option<Fault>)
      modifies this`current, this`brush, this`field
      ensures DisplayNext(old(Abs()), checkLowered) == Step(Abs(), msgs, fault)
      ensures old(Consistent(Abs())) ==> Consistent(Abs())
    {
      if Consistent(Abs()) {
        DisplayPreserves(Abs(), checkLowered);
      }
      if remaining == {} {
        return [NoMoreCells], None;
      }
      if field.None? {
        return [], Some(BadNumber);
      }
      var c := Choose(remaining, LastDecided(undo), field.value, checkLowered);
      msgs := (if c.notAvailable then [IdNotRemaining] else [])
              + (if c.advisory.Some? then [Advice(c.advisory.value)] else []);
      fault := DisplayCell(c.chosen as nat);
      if fault.None? {
        field := c.hint;
      }
    }

    /** `start_analysis_on_click` (lines 404-453), with the next-id field
        filled by the rule of `display_next_cell`. */
    method StartAnalysisOnClick(typed: Option<int>) returns (msgs: seq<Msg>)
      modifies this`current, this`brush, this`field
      ensures Start(old(Abs()), typed) == Step(Abs(), msgs, None)
      ensures old(Consistent(Abs())) ==> Consistent(Abs())
      ensures typed.Some? && old(remaining) != {} ==> Showing(Abs(), StartId(remaining, typed.value))
    {
      if Consistent(Abs()) && typed.Some? && remaining != {} {
        StartShows(Abs(), typed);
      }
      if typed.None? {
        return [InvalidStartId];
      }
      if remaining == {} {
        return [NoCellsToEvaluate];
      }
      current := Some(Zeros(|labels|));
      var start := StartId(remaining, typed.value);
      field := NextHint(remaining, start);
      var fault := DisplayCell(start as nat);
      msgs := [];
    }

    /** `include` with `add_cell_to_accepted` (lines 901-913, 944-958): the
        cell mask is added into the accepted mask, the id moves to the
        included set, its record is appended and the statistics recomputed. */
    method Include(id: nat, data: Mask, fromRemaining: bool, com: Mask -> Centroid)
      returns (fault: Option<Fault>)
      requires |data| == accepted.Length
      modifies this, accepted
      ensures accepted == old(accepted)
      ensures Curation.Include(old(Abs()), id, data, fromRemaining, com) == Step(Abs(), [], fault)
    {
      MergeIntoAccepted(data);
      if fromRemaining {
        if id !in remaining {
          return Some(MissingKey(id));
        }
        remaining := remaining - {id};
      }
      included := included + {id};
      var size := CountNonzero(data);
      if size == 0 {
        return Some(NanCentroid);
      }
      records := records + [Record(id, size, com(data))];
      CalculateMetrics();
      fault := None;
    }

    /** `accepted_cells += data_array` (line 908): the cell mask is added
        into the accepted mask pixel by pixel, in place. */
    method MergeIntoAccepted(data: Mask)
      requires |data| == accepted.Length
      modifies accepted
      ensures accepted[..] == Add(old(accepted[..]), data)
    {
      var n := accepted.Length;
      for i := 0 to n
        invariant forall k :: 0 <= k < i ==> accepted[k] == old(accepted[k]) + data[k]
        invariant forall k :: i <= k < n ==> accepted[k] == old(accepted[k])
      {
        accepted[i] := accepted[i] + data[i];
      }
    }

    /** `include_on_click` (lines 554-586): an overlap with the accepted mask
        blocks the commit; otherwise the cell on show is included, its id
        pushed and the next cell shown. */
    method IncludeOnClick(selfDrawn: bool, com: Mask -> Centroid)
      returns (msgs: seq<Msg>, fault: Option<Fault>)
      requires Shaped(Abs())
      modifies this, accepted
      ensures accepted == old(accepted)
      ensures Curation.IncludeOnClick(old(Abs()), selfDrawn, com) == Step(Abs(), msgs, fault)
      ensures !selfDrawn && old(Consistent(Abs()) && CurrentId(Abs()).Some? && Showing(Abs(), CurrentId(Abs()).value)) ==>
                Consistent(Abs())
    {
      if !selfDrawn && Consistent(Abs()) && CurrentId(Abs()).Some? && Showing(Abs(), CurrentId(Abs()).value) {
        IncludeShownPreserves(Abs(), CurrentId(Abs()).value, com);
      }
      if remaining == {} {
        return [NoRemainingCells], None;
      }
      if current.None? {
        return [], Some(NoLayer);
      }
      var m := current.value;
      if GetOverlap(m, accepted[..]) != {} {
        return [OverlapDetected], None;
      }
      if |m| == 0 {
        return [], Some(EmptyMax);
      }
      var id := MaxPixel(m);
      fault := Include(id, m, !selfDrawn, com);
      if fault.Some? {
        return [], fault;
      }
      undo := undo + [id];
      if remaining != {} {
        msgs, fault := DisplayNextCell(true);
      } else {
        msgs := [];
      }
    }

    /** `exclude_on_click` (lines 588-607). */
    method ExcludeOnClick() returns (msgs: seq<Msg>, fault: Option<Fault>)
      modifies this
      ensures Curation.ExcludeOnClick(old(Abs())) == Step(Abs(), msgs, fault)
      ensures old(Consistent(Abs()) && CurrentId(Abs()).Some? && Showing(Abs(), CurrentId(Abs()).value)) ==>
                Consistent(Abs())
    {
      if Consistent(Abs()) && CurrentId(Abs()).Some? && Showing(Abs(), CurrentId(Abs()).value) {
        ExcludeShownPreserves(Abs(), CurrentId(Abs()).value);
      }
      if remaining == {} {
        return [NoRemainingCells], None;
      }
      if current.None? {
        return [], Some(NoLayer);
      }
      if |current.value| == 0 {
        return [], Some(EmptyMax);
      }
      var id := MaxPixel(current.value);
      excluded := excluded + {id};
      if id !in remaining {
        return [], Some(MissingKey(id));
      }
      remaining := remaining - {id};
      undo := undo + [id];
      if remaining != {} {
        msgs, fault := DisplayNextCell(true);
      } else {
        msgs, fault := [], None;
      }
    }

    /** Lines 623-624: every pixel of the accepted mask that carries `x` is zeroed in place. */
    method ZeroLabel(x: nat)
      modifies accepted
      ensures accepted[..] == Clear(old(accepted[..]), x)
    {
      var n := accepted.Length;
      for i := 0 to n
        invariant forall k :: 0 <= k < i ==> accepted[k] == if old(accepted[k]) == x then 0 else old(accepted[k])
        invariant forall k :: i <= k < n ==> accepted[k] == old(accepted[k])
      {
        if accepted[i] == x {
          accepted[i] := 0;
        }
      }
    }

    /** The pop and the set updates of `undo_on_click` (lines 615-627). */
    method Revert() returns (fault: Option<Fault>)
      requires undo != []
      modifies this, accepted
      ensures accepted == old(accepted)
      ensures Curation.Revert(old(Abs())) == Step(Abs(), [], fault)
    {
      var x := undo[|undo| - 1];
      undo := undo[..|undo| - 1];
      if x in labels {
        remaining := remaining + {x};
      }
      if x in accepted[..] {
        if records == [] {
          return Some(NoRecord);
        }
        records := records[..|records| - 1];
        ZeroLabel(x);
        if x !in included {
          return Some(MissingKey(x));
        }
        included := included - {x};
      } else {
        if x !in excluded {
          return Some(MissingKey(x));
        }
        excluded := excluded - {x};
      }
      fault := None;
    }

    /** `undo_on_click` (lines 609-632): the id on top of the stack goes back
        to the remaining ids; an included one loses its record and its pixels
        in the accepted mask. The statistics are recomputed and the undone
        cell is shown again. */
    method UndoOnClick() returns (msgs: seq<Msg>, fault: Option<Fault>)
      modifies this, accepted
      ensures accepted == old(accepted)
      ensures Curation.UndoOnClick(old(Abs())) == Step(Abs(), msgs, fault)
      ensures old(Consistent(Abs())) ==> Consistent(Abs())
    {
      ghost var s0 := Abs();
      if Consistent(s0) {
        UndoPreserves(s0);
      }
      if undo == [] {
        return [], None;
      }
      var x := undo[|undo| - 1];
      fault := Revert();
      ghost var r := Curation.Revert(s0);
      assert r == Step(Abs(), [], fault);
      if fault.Some? {
        return [], fault;
      }
      field := Some(x);
      CalculateMetrics();
      assert Abs() == r.s.(field := Some(x), stats := Compute(r.s.records));
      msgs, fault := DisplayNextCell(true);
      assert Curation.UndoOnClick(s0) == Step(Abs(), msgs, fault);
    }

    /** `include_multiple` (lines 771-799): the requested ids are taken left
        to right and sorted into the four classes; each one included is
        committed and pushed at once. */
    method IncludeMultiple(ids: seq<int>, com: Mask -> Centroid)
      returns (inc: set<int>, ign: set<int>, ov: set<int>, fa: set<int>)
      requires Shaped(Abs())
      modifies this, accepted
      ensures accepted == old(accepted)
      ensures RunBatch(old(Abs()), ids, com) == Batch(Abs(), inc, ign, ov, fa)
      ensures Reported(old(Abs()), ids, Batch(Abs(), inc, ign, ov, fa))
      ensures Moved(old(Abs()), Batch(Abs(), inc, ign, ov, fa))
      ensures old(Consistent(Abs())) ==> Consistent(Abs())
    {
      RunBatchClassifies(Abs(), ids, com);
      if Consistent(Abs()) {
        RunBatchPreserves(Abs(), ids, com);
      }
      inc, ign, ov, fa := {}, {}, {}, {};
      for k := 0 to |ids|
        invariant accepted == old(accepted)
        invariant RunBatch(old(Abs()), ids[..k], com) == Batch(Abs(), inc, ign, ov, fa)
      {
        assert ids[..k + 1] == ids[..k] + [ids[k]];
        var v := ids[k];
        if v == 0 {
          continue;
        }
        if !IsLabel(labels, v) {
          fa := fa + {v};
          continue;
        }
        if v !in remaining {
          ign := ign + {v};
          continue;
        }
        var id := v as nat;
        if SumAt(accepted[..], labels, id) != 0 {
          ov := ov + {v};
          continue;
        }
        var data := CellMask(labels, id);
        var f := Include(id, data, true, com);
        inc := inc + {v};
        undo := undo + [id];
      }
      assert ids[..|ids|] == ids;
    }

    /** `include_multiple_on_click` (lines 712-745). */
    method IncludeMultipleOnClick(parsed: Parsed, com: Mask -> Centroid)
      returns (msgs: seq<Msg>, fault: Option<Fault>)
      requires Shaped(Abs())
      modifies this, accepted
      ensures accepted == old(accepted)
      ensures Curation.IncludeMultipleOnClick(old(Abs()), parsed, com) == Step(Abs(), msgs, fault)
    {
      match parsed
      case Blank =>
        return [], None;
      case Malformed =>
        return [EnterIntegers], None;
      case Ids(ids) =>
        var inc, ign, ov, fa := IncludeMultiple(ids, com);
        field := MinHint(remaining);
        msgs, fault := DisplayNextCell(false);
        if fault.None? {
          msgs := msgs + [Report(inc, ign, fa, ov)];
        }
    }

    /** `draw_own_cell` (lines 801-826). */
    method DrawOwnCell(com: Mask -> Centroid) returns (msgs: seq<Msg>, fault: Option<Fault>)
      requires Shaped(Abs())
      modifies this, accepted
      ensures accepted == old(accepted)
      ensures Curation.DrawOwnCell(old(Abs()), com) == Step(Abs(), msgs, fault)
      ensures old(Consistent(Abs()) && !drawing && CurrentId(Abs()).Some?) ==> Consistent(Abs())
      ensures old(Consistent(Abs()) && drawing && PaintedFresh(Abs())) && fault.None? ==> Consistent(Abs())
    {
      if Consistent(Abs()) && !drawing && CurrentId(Abs()).Some? {
        ArmThenPaint(Abs(), {}, com);
      }
      if Consistent(Abs()) && drawing && PaintedFresh(Abs()) {
        ConfirmPreserves(Abs(), com);
      }
      if !drawing {
        drawing := true;
        if current.None? {
          return [], Some(NoLayer);
        }
        if |current.value| == 0 {
          return [], Some(EmptyMax);
        }
        field := Some(MaxPixel(current.value));
        current := Some(Zeros(|labels|));
        brush := FreshLabel(accepted[..], labels);
        return [], None;
      }
      msgs, fault := IncludeOnClick(true, com);
      if fault.None? {
        drawing := false;
      }
    }
  }
}
