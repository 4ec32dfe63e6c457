/** The curation state of `CellAnalyzer` (src/mmv_h4cells/_widget.py) and its
    operations as transitions on values. Each operation gives back the new
    state, the message boxes it shows, in order, and the Python exception that
    escapes the Qt slot, if any, together with the state reached when it was
    raised. */
module Curation {
  import opened Ids
  import opened Selector
  import opened Masks
  import opened Metrics

  datatype State = State(
    labels: Mask,            // layer_to_evaluate.data
    accepted: Mask,          // accepted_cells
    current: Option<Mask>,   // current_cell_layer.data; None before the analysis starts
    remaining: set<nat>,
    included: set<nat>,
    excluded: set<nat>,
    records: seq<Record>,    // metric_data
    undo: seq<nat>,          // undo_stack
    stats: Stats,            // mean_size and std_size
    field: Option<int>,      // lineedit_next_id, as `int()` reads it; None for text it refuses
    brush: nat,              // current_cell_layer.selected_label
    drawing: bool)           // btn_segment shows "Confirm/Back"

  /** Message boxes shown to the operator. */
  datatype Msg =
    | InvalidStartId                     // "Invalid start id"
    | NoCellsToEvaluate                  // "No cells to evaluate"
    | NoRemainingCells                   // "No remaining cells"
    | NoMoreCells                        // "No more cells to evaluate."
    | IdNotRemaining                     // "Given id is not in remaining cells."
    | Advice(advisory: Advisory)         // the lowered-id warnings
    | OverlapDetected                    // "Overlap detected and highlighted. ..."
    | EnterIntegers                      // "Please enter a comma separated list of integers."
    | BatchReport(included: set<int>, ignored: set<int>, faulty: set<int>, overlapped: set<int>)
    | ZeroNotValid                       // "0 is not a valid cell id."

  /** Python exceptions that escape an operation. */
  datatype Fault =
    | BadNumber        // ValueError: `int()` of the next-id field
    | MissingKey(id: nat) // KeyError: `set.remove` of an absent id
    | EmptyMax         // ValueError: `max` / `np.max` of an empty array
    | EmptyMin         // ValueError: `min` of an empty generator (line 450)
    | NoLayer          // AttributeError: no current-cell layer yet
    | NanCentroid      // ValueError: `int()` of the NaN centroid of an empty cell mask
    | NoRecord         // IndexError: `metric_data.pop` on an empty list

  datatype Step = Step(s: State, msgs: seq<Msg>, fault: Option<Fault>)

  /** The widget right after construction: no label layer, nothing decided. */
  function Init(): State {
    State([], [], None, {}, {}, {}, [], [], Stats(0.0, 0.0), None, 0, false)
  }

  /** The masks of a state have the shape of the label mask; `zeros_like` keeps it so. */
  predicate Shaped(s: State) {
    |s.accepted| == |s.labels| && (s.current.Some? ==> |s.current.value| == |s.labels|)
  }

  /** What is decided: everything but the display (current layer, field, brush, mode). */
  predicate SameDecisions(a: State, b: State) {
    a.labels == b.labels && a.accepted == b.accepted && a.remaining == b.remaining
    && a.included == b.included && a.excluded == b.excluded && a.records == b.records
    && a.undo == b.undo && a.stats == b.stats
  }

  /** The id of the current-cell layer, `np.max` of it. */
  function CurrentId(s: State): (id: Option<nat>)
    ensures id.Some? <==> s.current.Some? && |s.current.value| > 0
    ensures id.Some? ==> id.value in s.current.value
    ensures id.Some? ==> forall i :: 0 <= i < |s.current.value| ==> s.current.value[i] <= id.value
  {
    if s.current.Some? && |s.current.value| > 0 then Some(MaxPixel(s.current.value)) else None
  }

  /** The "Next cell" hint written after binding or a batch: min(remaining), empty when none remains. */
  function MinHint(remaining: set<nat>): (h: Option<int>)
    ensures h.None? <==> remaining == {}
    ensures h.Some? ==> IsLeast(h.value, remaining)
  {
    if remaining == {} then None else Some(Min(remaining))
  }

  // ---------------------------------------------------------------- binding

  /** `set_label_layer` (lines 365-382) as written: without region records
      every nonzero label remains, even one that is already excluded. */
  function BindAsWritten(s: State, labels: Mask): (st: Step)
    ensures st.msgs == [] && st.s.labels == labels
    ensures st.s.included == s.included && st.s.excluded == s.excluded
    ensures st.s.records == s.records && st.s.undo == s.undo && st.s.stats == s.stats
    ensures st.s.current == s.current && st.s.brush == s.brush && st.s.drawing == s.drawing
    // first binding: a zero accepted mask of the label mask's shape, every nonzero label remains
    ensures s.records == [] ==> st.fault.None? && st.s.accepted == Zeros(|labels|)
    ensures s.records == [] ==> st.s.remaining == NonzeroValues(labels)
    // with records: the accepted mask stays and only undecided labels remain
    ensures s.records != [] ==> (st.fault.None? <==> |s.accepted| > 0)
    ensures s.records != [] && st.fault.None? ==>
              st.s.accepted == s.accepted
              && st.s.remaining == Values(labels) - (s.included + s.excluded + {0})
    ensures st.fault.None? ==> st.s.field == MinHint(st.s.remaining)
  {
    var s1 := s.(labels := labels);
    if s.records != [] then
      if |s.accepted| == 0 then Step(s1, [], Some(EmptyMax))
      else
        var rem := Values(labels) - (s.included + s.excluded + {0});
        Step(s1.(remaining := rem, field := MinHint(rem)), [], None)
    else
      var rem := NonzeroValues(labels);
      Step(s1.(accepted := Zeros(|labels|), remaining := rem, field := MinHint(rem)), [], None)
  }

  /** `set_label_layer` as evidently intended: the labels that remain are
      those not yet decided, with or without region records, as line 374
      and the import of lines 507-514 compute them. */
  function Bind(s: State, labels: Mask): (st: Step)
    ensures st.msgs == [] && st.s.labels == labels
    ensures st.s.included == s.included && st.s.excluded == s.excluded
    ensures st.s.records == s.records && st.s.undo == s.undo && st.s.stats == s.stats
    ensures st.s.current == s.current && st.s.brush == s.brush && st.s.drawing == s.drawing
    ensures st.fault.None? <==> s.records == [] || |s.accepted| > 0
    ensures st.fault.Some? ==> st.fault == Some(EmptyMax)
    ensures st.fault.None? ==>
              && st.s.accepted == (if s.records == [] then Zeros(|labels|) else s.accepted)
              && (forall x :: x in st.s.remaining <==>
                                x in labels && x != 0 && x !in s.included && x !in s.excluded)
              && st.s.field == MinHint(st.s.remaining)
  {
    var s1 := s.(labels := labels);
    if s.records != [] && |s.accepted| == 0 then Step(s1, [], Some(EmptyMax))
    else
      var rem := NonzeroValues(labels) - (s.included + s.excluded);
      var acc := if s.records != [] then s.accepted else Zeros(|labels|);
      Step(s1.(accepted := acc, remaining := rem, field := MinHint(rem)), [], None)
  }

  // ---------------------------------------------------------------- display

  /** `display_cell` (lines 455-468): the current layer shows exactly the cell. */
  function DisplayCell(s: State, id: nat): (st: Step)
    ensures st.msgs == [] && SameDecisions(st.s, s) && st.s.field == s.field && st.s.drawing == s.drawing
    ensures st.fault.None? <==> s.current.Some?
    ensures st.fault.None? ==> st.s.current == Some(CellMask(s.labels, id)) && st.s.brush == id
    ensures st.fault.Some? ==> st.s == s && st.fault == Some(NoLayer)
  {
    if s.current.None? then Step(s, [], Some(NoLayer))
    else Step(s.(current := Some(CellMask(s.labels, id)), brush := id), [], None)
  }

  /** `display_next_cell` (lines 828-898). */
  function DisplayNext(s: State, checkLowered: bool): (st: Step)
    ensures SameDecisions(st.s, s) && st.s.drawing == s.drawing
    ensures Shaped(s) ==> Shaped(st.s)
    ensures s.remaining == {} ==> st == Step(s, [NoMoreCells], None)
    ensures s.remaining != {} && s.field.None? ==> st == Step(s, [], Some(BadNumber))
    ensures s.remaining != {} && s.field.Some? ==>
              var c := Choose(s.remaining, LastDecided(s.undo), s.field.value, checkLowered);
              && st.msgs == (if c.notAvailable then [IdNotRemaining] else [])
                            + (if c.advisory.Some? then [Advice(c.advisory.value)] else [])
              && (st.fault.None? <==> s.current.Some?)
              && (st.fault.None? ==>
                    c.chosen in s.remaining
                    && st.s.current == Some(CellMask(s.labels, c.chosen as nat))
                    && st.s.brush == c.chosen && st.s.field == c.hint)
  {
    if s.remaining == {} then Step(s, [NoMoreCells], None)
    else if s.field.None? then Step(s, [], Some(BadNumber))
    else
      var c := Choose(s.remaining, LastDecided(s.undo), s.field.value, checkLowered);
      var msgs := (if c.notAvailable then [IdNotRemaining] else [])
                  + (if c.advisory.Some? then [Advice(c.advisory.value)] else []);
      var d := DisplayCell(s, c.chosen as nat);
      if d.fault.Some? then Step(d.s, msgs, d.fault)
      else Step(d.s.(field := c.hint), msgs, None)
  }

  // ---------------------------------------------------------------- start

  /** `start_analysis_on_click` (lines 404-453) as written: the hint of line 450
      is the least remaining id above the start id, and `min` of nothing
      raises when the start id is the greatest remaining id. */
  function StartAsWritten(s: State, typed: Option<int>): (st: Step)
    ensures typed.None? ==> st == Step(s, [InvalidStartId], None)
    ensures typed.Some? && s.remaining == {} ==> st == Step(s, [NoCellsToEvaluate], None)
    ensures typed.Some? && s.remaining != {} ==>
              var start := StartId(s.remaining, typed.value);
              && SameDecisions(st.s, s) && st.msgs == []
              && (st.fault.Some? <==> IsGreatest(start, s.remaining))
              && (st.fault.Some? ==> st.fault == Some(EmptyMin) && st.s.current == Some(Zeros(|s.labels|)))
              && (st.fault.None? ==>
                    st.s.current == Some(CellMask(s.labels, start as nat)) && st.s.brush == start
                    && st.s.field.Some? && IsLeast(st.s.field.value, Above(s.remaining, start)))
  {
    if typed.None? then Step(s, [InvalidStartId], None)
    else if s.remaining == {} then Step(s, [NoCellsToEvaluate], None)
    else
      var s1 := s.(current := Some(Zeros(|s.labels|)));
      var start := StartId(s.remaining, typed.value);
      var up := Above(s.remaining, start);
      if up == {} then
        assert IsGreatest(start, s.remaining) by {
          assert forall y :: y in s.remaining && y > start ==> y in up;
        }
        Step(s1, [], Some(EmptyMin))
      else
        assert !IsGreatest(start, s.remaining) by {
          var y := Pick(up);
          assert y in s.remaining && y > start;
        }
        var d := DisplayCell(s1.(field := Some(Min(up))), start as nat);
        Step(d.s, [], None)
  }

  /** The start as evidently intended: the hint follows the rule of
      `display_next_cell` (lines 890-898), wrapping to min(remaining) and
      left empty when only the start id remains. */
  function Start(s: State, typed: Option<int>): (st: Step)
    ensures st.fault.None?
    ensures typed.None? ==> st == Step(s, [InvalidStartId], None)
    ensures typed.Some? && s.remaining == {} ==> st == Step(s, [NoCellsToEvaluate], None)
    ensures typed.Some? && s.remaining != {} ==>
              var start := StartId(s.remaining, typed.value);
              && SameDecisions(st.s, s) && st.msgs == [] && st.s.drawing == s.drawing
              && st.s.current == Some(CellMask(s.labels, start as nat)) && st.s.brush == start
              && st.s.field == NextHint(s.remaining, start)
  {
    if typed.None? then Step(s, [InvalidStartId], None)
    else if s.remaining == {} then Step(s, [NoCellsToEvaluate], None)
    else
      var start := StartId(s.remaining, typed.value);
      var s1 := s.(current := Some(Zeros(|s.labels|)), field := NextHint(s.remaining, start));
      var d := DisplayCell(s1, start as nat);
      Step(d.s, [], None)
  }

  // ---------------------------------------------------------------- include

  /** `include` with `add_cell_to_accepted` (lines 901-913, 944-958): merge the
      cell mask into the accepted mask, move the id, append its record and
      recompute the statistics. `com` is the host's centre of mass. */
  function Include(s: State, id: nat, data: Mask, fromRemaining: bool, com: Mask -> Centroid): (st: Step)
    requires |data| == |s.accepted|
    ensures st.msgs == [] && st.s.labels == s.labels && st.s.undo == s.undo
    ensures st.s.current == s.current && st.s.field == s.field
    ensures st.s.brush == s.brush && st.s.drawing == s.drawing
    ensures st.s.accepted == Add(s.accepted, data)
    ensures st.s.excluded == s.excluded
    ensures st.fault.None? <==> (fromRemaining ==> id in s.remaining) && CountNonzero(data) > 0
    ensures fromRemaining && id !in s.remaining ==> st.fault == Some(MissingKey(id))
    ensures st.fault.None? ==>
              && st.s.remaining == (if fromRemaining then s.remaining - {id} else s.remaining)
              && st.s.included == s.included + {id}
              && st.s.records == s.records + [Record(id, CountNonzero(data), com(data))]
              && st.s.stats == Compute(st.s.records)
  {
    var s1 := s.(accepted := Add(s.accepted, data));
    if fromRemaining && id !in s.remaining then Step(s1, [], Some(MissingKey(id)))
    else
      var s2 := s1.(remaining := if fromRemaining then s.remaining - {id} else s.remaining,
                    included := s.included + {id});
      if CountNonzero(data) == 0 then Step(s2, [], Some(NanCentroid))
      else
        var recs := s.records + [Record(id, CountNonzero(data), com(data))];
        Step(s2.(records := recs, stats := Compute(recs)), [], None)
  }

  /** `include_on_click` (lines 554-586); `selfDrawn` is its `self_drawn` flag. */
  function IncludeOnClick(s: State, selfDrawn: bool, com: Mask -> Centroid): (st: Step)
    requires Shaped(s)
    ensures s.remaining == {} ==> st == Step(s, [NoRemainingCells], None)
    ensures s.remaining != {} && s.current.None? ==> st == Step(s, [], Some(NoLayer))
    // an overlap blocks the commit and changes nothing
    ensures s.remaining != {} && s.current.Some? && GetOverlap(s.current.value, s.accepted) != {} ==>
              st == Step(s, [OverlapDetected], None)
    ensures s.remaining != {} && s.current.Some? && |s.current.value| == 0 ==> st == Step(s, [], Some(EmptyMax))
    // otherwise the shown cell is committed: see Include; then its id is pushed and the next cell shown
    ensures s.remaining != {} && CurrentId(s).Some? && GetOverlap(s.current.value, s.accepted) == {} ==>
              var inc := Include(s, CurrentId(s).value, s.current.value, !selfDrawn, com);
              && (inc.fault.Some? ==> st == inc)
              && (inc.fault.None? ==>
                    var s1 := inc.s.(undo := s.undo + [CurrentId(s).value]);
                    && SameDecisions(st.s, s1)
                    && st == (if s1.remaining != {} then DisplayNext(s1, true) else Step(s1, [], None))
                    && (st.fault != Some(BadNumber) || s.field.None?))
    ensures st.s.labels == s.labels && st.s.drawing == s.drawing
    ensures Shaped(st.s)
  {
    if s.remaining == {} then Step(s, [NoRemainingCells], None)
    else if s.current.None? then Step(s, [], Some(NoLayer))
    else
      var m := s.current.value;
      if GetOverlap(m, s.accepted) != {} then Step(s, [OverlapDetected], None)
      else if |m| == 0 then Step(s, [], Some(EmptyMax))
      else
        var id := MaxPixel(m);
        var inc := Include(s, id, m, !selfDrawn, com);
        if inc.fault.Some? then inc
        else
          var s1 := inc.s.(undo := s.undo + [id]);
          if s1.remaining != {} then
            DisplayNext(s1, true)
          else Step(s1, [], None)
  }

  // ---------------------------------------------------------------- exclude

  /** `exclude_on_click` (lines 588-607). */
  function ExcludeOnClick(s: State): (st: Step)
    ensures s.remaining == {} ==> st == Step(s, [NoRemainingCells], None)
    ensures s.remaining != {} && CurrentId(s).None? ==>
              st.s == s && st.fault == Some(if s.current.None? then NoLayer else EmptyMax)
    // the id on show that does not remain is still added to `excluded` before the KeyError
    ensures s.remaining != {} && CurrentId(s).Some? && CurrentId(s).value !in s.remaining ==>
              st.fault == Some(MissingKey(CurrentId(s).value))
              && st.s == s.(excluded := s.excluded + {CurrentId(s).value})
    ensures s.remaining != {} && CurrentId(s).Some? && CurrentId(s).value in s.remaining ==>
              var id := CurrentId(s).value;
              && st.s.remaining == s.remaining - {id}
              && st.s.excluded == s.excluded + {id}
              && st.s.undo == s.undo + [id]
              && st.s.included == s.included && st.s.accepted == s.accepted
              && st.s.records == s.records && st.s.stats == s.stats && st.s.labels == s.labels
    ensures st.s.labels == s.labels && st.s.drawing == s.drawing
    ensures Shaped(s) ==> Shaped(st.s)
  {
    if s.remaining == {} then Step(s, [NoRemainingCells], None)
    else if s.current.None? then Step(s, [], Some(NoLayer))
    else if |s.current.value| == 0 then Step(s, [], Some(EmptyMax))
    else
      var id := MaxPixel(s.current.value);
      var s1 := s.(excluded := s.excluded + {id});
      if id !in s.remaining then Step(s1, [], Some(MissingKey(id)))
      else
        var s2 := s1.(remaining := s.remaining - {id}, undo := s.undo + [id]);
        if s2.remaining != {} then DisplayNext(s2, true) else Step(s2, [], None)
  }

  // ---------------------------------------------------------------- undo

  /** The state after the pop and the set updates of `undo_on_click`
      (lines 615-627), before the display; the fault, if one is raised. */
  function Revert(s: State): (st: Step)
    requires s.undo != []
    ensures st.msgs == [] && st.s.labels == s.labels && st.s.current == s.current
    ensures st.s.undo == s.undo[..|s.undo| - 1]
    ensures var x := s.undo[|s.undo| - 1];
            && st.s.remaining == (if x in s.labels then s.remaining + {x} else s.remaining)
            && (x in s.accepted ==>
                  (st.fault.None? <==> s.records != [] && x in s.included)
                  && (s.records != [] ==>
                        st.s.records == s.records[..|s.records| - 1]
                        && st.s.accepted == Clear(s.accepted, x))
                  && (st.fault.None? ==> st.s.included == s.included - {x} && st.s.excluded == s.excluded))
            && (x !in s.accepted ==>
                  (st.fault.None? <==> x in s.excluded)
                  && st.s.accepted == s.accepted && st.s.records == s.records
                  && st.s.included == s.included
                  && (st.fault.None? ==> st.s.excluded == s.excluded - {x}))
  {
    var x := s.undo[|s.undo| - 1];
    var s1 := s.(undo := s.undo[..|s.undo| - 1],
                 remaining := if x in s.labels then s.remaining + {x} else s.remaining);
    if x in s.accepted then
      if s.records == [] then Step(s1, [], Some(NoRecord))
      else
        var s2 := s1.(records := s.records[..|s.records| - 1], accepted := Clear(s.accepted, x));
        if x !in s.included then Step(s2, [], Some(MissingKey(x)))
        else Step(s2.(included := s.included - {x}), [], None)
    else if x !in s.excluded then Step(s1, [], Some(MissingKey(x)))
    else Step(s1.(excluded := s.excluded - {x}), [], None)
  }

  /** `undo_on_click` (lines 609-632). */
  function UndoOnClick(s: State): (st: Step)
    ensures s.undo == [] ==> st == Step(s, [], None)
    ensures s.undo != [] && Revert(s).fault.None? ==>
              var r := Revert(s).s;
              && SameDecisions(st.s, r.(stats := Compute(r.records)))
              && st.s.drawing == s.drawing
              && (st.fault.Some? ==> st.fault == Some(NoLayer))
    ensures s.undo != [] && Revert(s).fault.Some? ==> st == Revert(s)
    ensures Shaped(s) ==> Shaped(st.s)
  {
    if s.undo == [] then Step(s, [], None)
    else
      var r := Revert(s);
      if r.fault.Some? then r
      else
        var x := s.undo[|s.undo| - 1];
        DisplayNext(r.s.(field := Some(x), stats := Compute(r.s.records)), true)
  }

  // ---------------------------------------------------------------- own cell

  /** The fresh label of line 816-822: one above every label of both masks. */
  function FreshLabel(accepted: Mask, labels: Mask): (f: nat)
    requires |accepted| > 0 && |labels| > 0
    ensures f !in accepted && f !in labels && f > 0
    ensures forall i :: 0 <= i < |accepted| ==> accepted[i] < f
    ensures forall i :: 0 <= i < |labels| ==> labels[i] < f
  {
    var a := MaxPixel(accepted);
    var l := MaxPixel(labels);
    (if a < l then l else a) + 1
  }

  /** `draw_own_cell` (lines 801-826): the first click clears the current layer
      and arms the fresh brush label; the second includes the painted cell. */
  function DrawOwnCell(s: State, com: Mask -> Centroid): (st: Step)
    requires Shaped(s)
    ensures !s.drawing && CurrentId(s).None? ==>
              st.fault == Some(if s.current.None? then NoLayer else EmptyMax)
    ensures !s.drawing && CurrentId(s).Some? ==>
              && st.fault.None? && st.msgs == [] && SameDecisions(st.s, s) && st.s.drawing
              && st.s.field == Some(CurrentId(s).value as int)
              && st.s.current == Some(Zeros(|s.labels|))
              && st.s.brush !in s.labels && st.s.brush !in s.accepted && st.s.brush > 0
    ensures s.drawing ==> st.s.drawing == st.fault.Some?
    ensures s.drawing ==> SameDecisions(st.s, IncludeOnClick(s, true, com).s)
                          && st.msgs == IncludeOnClick(s, true, com).msgs
                          && st.fault == IncludeOnClick(s, true, com).fault
  {
    if !s.drawing then
      var s1 := s.(drawing := true);
      if s.current.None? then Step(s1, [], Some(NoLayer))
      else if |s.current.value| == 0 then Step(s1, [], Some(EmptyMax))
      else
        var s2 := s1.(field := Some(MaxPixel(s.current.value)), current := Some(Zeros(|s.labels|)));
        Step(s2.(brush := FreshLabel(s.accepted, s.labels)), [], None)
    else
      var inc := IncludeOnClick(s, true, com);
      if inc.fault.Some? then inc
      else Step(inc.s.(drawing := false), inc.msgs, None)
  }

  /** The operator paints with the brush label at the given pixels of the current layer. */
  function Paint(s: State, at: set<nat>): (st: State)
    requires s.current.Some?
    ensures SameDecisions(st, s) && st.brush == s.brush && st.field == s.field && st.drawing == s.drawing
    ensures st.current.Some? && |st.current.value| == |s.current.value|
    ensures forall i :: 0 <= i < |s.current.value| ==>
              st.current.value[i] == if i in at then s.brush else s.current.value[i]
  {
    var m := s.current.value;
    s.(current := Some(seq(|m|, i requires 0 <= i < |m| => if i as nat in at then s.brush else m[i])))
  }

  // ---------------------------------------------------------------- export

  /** What `export_on_click` writes: the records, the summary statistics, the
      excluded ids and the undo stack to the CSV file, the accepted mask to the
      TIFF file. */
  datatype Saved = Saved(records: seq<Record>, stats: Stats, excluded: set<nat>, undo: seq<nat>, accepted: Mask)

  /** The widget state after an export, and what was written. */
  datatype Exported = Exported(s: State, file: Saved)

  /** `export_on_click` (lines 522-552) as written: line 537 replaces the
      widget's own `metric_data` by the copy sorted by id, and writes that. */
  function ExportAsWritten(s: State): (e: Exported)
    ensures e.s == s.(records := e.s.records) && e.file.records == e.s.records
    ensures multiset(e.s.records) == multiset(s.records) && SortedById(e.s.records)
    ensures e.file == Saved(e.file.records, s.stats, s.excluded, s.undo, s.accepted)
  {
    var t := s.(records := SortById(s.records));
    Exported(t, Saved(t.records, t.stats, t.excluded, t.undo, t.accepted))
  }

  /** `export_on_click` corrected: the file holds the records sorted by id,
      and the widget keeps its own in the order of inclusion. */
  function Export(s: State): (e: Exported)
    ensures e.s == s
    ensures multiset(e.file.records) == multiset(s.records) && SortedById(e.file.records)
    ensures e.file == Saved(e.file.records, s.stats, s.excluded, s.undo, s.accepted)
  {
    Exported(s, Saved(SortById(s.records), s.stats, s.excluded, s.undo, s.accepted))
  }

  // ---------------------------------------------------------------- batch

  /** The result of `get_ids_to_include` (lines 747-769): an empty field, text
      that is not a comma separated list of integers, or the ids. */
  datatype Parsed = Blank | Malformed | Ids(ids: seq<int>)

  /** The loop state of `include_multiple`: the widget state and the four result sets. */
  datatype Batch = Batch(s: State, included: set<int>, ignored: set<int>, overlapped: set<int>, faulty: set<int>)

  predicate IsLabel(labels: Mask, v: int) {
    v >= 0 && v as nat in labels
  }

  /** One pass of the loop of `include_multiple` (lines 784-798) for `v`. */
  function BatchStep(b: Batch, v: int, com: Mask -> Centroid): (r: Batch)
    requires Shaped(b.s)
    ensures Shaped(r.s) && r.s.labels == b.s.labels && r.s.current == b.s.current
    ensures r.s.field == b.s.field && r.s.drawing == b.s.drawing && r.s.excluded == b.s.excluded
    ensures v == 0 ==> r == b
    ensures v != 0 && !IsLabel(b.s.labels, v) ==> r == b.(faulty := b.faulty + {v})
    ensures v != 0 && IsLabel(b.s.labels, v) && v !in b.s.remaining ==> r == b.(ignored := b.ignored + {v})
    ensures v != 0 && IsLabel(b.s.labels, v) && v in b.s.remaining ==>
              GetOverlap(CellMask(b.s.labels, v as nat), b.s.accepted) != {} ==> r == b.(overlapped := b.overlapped + {v})
    ensures v != 0 && IsLabel(b.s.labels, v) && v in b.s.remaining
            && GetOverlap(CellMask(b.s.labels, v as nat), b.s.accepted) == {} ==>
              var m := CellMask(b.s.labels, v as nat);
              && r.included == b.included + {v} && r.ignored == b.ignored
              && r.overlapped == b.overlapped && r.faulty == b.faulty
              && r.s.accepted == Add(b.s.accepted, m)
              && r.s.remaining == b.s.remaining - {v as nat}
              && r.s.included == b.s.included + {v as nat}
              && r.s.records == b.s.records + [Record(v as nat, Count(b.s.labels, v as nat), com(m))]
              && r.s.stats == Compute(r.s.records)
              && r.s.undo == b.s.undo + [v as nat]
  {
    var s := b.s;
    if v == 0 then b
    else if !IsLabel(s.labels, v) then b.(faulty := b.faulty + {v})
    else if v !in s.remaining then b.(ignored := b.ignored + {v})
    else
      var id := v as nat;
      BatchTestIsOverlap(s.accepted, s.labels, id);
      if SumAt(s.accepted, s.labels, id) != 0 then b.(overlapped := b.overlapped + {v})
      else
        var m := CellMask(s.labels, id);
        CellMaskShowsCell(s.labels, id);
        CountPositive(s.labels, id);
        var inc := Include(s, id, m, true, com);
        Batch(inc.s.(undo := s.undo + [id]), b.included + {v}, b.ignored, b.overlapped, b.faulty)
  }

  /** The loop of `include_multiple` over the first |ids| ids, left to right. */
  function RunBatch(s: State, ids: seq<int>, com: Mask -> Centroid): (r: Batch)
    requires Shaped(s)
    ensures Shaped(r.s) && r.s.labels == s.labels && r.s.current == s.current
    ensures r.s.field == s.field && r.s.drawing == s.drawing && r.s.excluded == s.excluded
  {
    if ids == [] then Batch(s, {}, {}, {}, {})
    else BatchStep(RunBatch(s, ids[..|ids| - 1], com), ids[|ids| - 1], com)
  }

  /** The report of lines 727-745. */
  function Report(included: set<int>, ignored: set<int>, faulty: set<int>, overlapped: set<int>): Msg {
    if included == ignored == faulty == overlapped == {} then ZeroNotValid
    else BatchReport(included, ignored, faulty, overlapped)
  }

  /** `include_multiple_on_click` (lines 712-745). */
  function IncludeMultipleOnClick(s: State, parsed: Parsed, com: Mask -> Centroid): (st: Step)
    requires Shaped(s)
    ensures parsed.Blank? ==> st == Step(s, [], None)
    ensures parsed.Malformed? ==> st == Step(s, [EnterIntegers], None)
    ensures parsed.Ids? ==>
              var b := RunBatch(s, parsed.ids, com);
              var d := DisplayNext(b.s.(field := MinHint(b.s.remaining)), false);
              st.s == d.s && SameDecisions(st.s, b.s) && st.fault == d.fault && st.fault != Some(BadNumber)
              && st.msgs == d.msgs + (if d.fault.None? then [Report(b.included, b.ignored, b.faulty, b.overlapped)] else [])
  {
    match parsed
    case Blank => Step(s, [], None)
    case Malformed => Step(s, [EnterIntegers], None)
    case Ids(ids) =>
      var b := RunBatch(s, ids, com);
      var d := DisplayNext(b.s.(field := MinHint(b.s.remaining)), false);
      if d.fault.Some? then d else Step(d.s, d.msgs + [Report(b.included, b.ignored, b.faulty, b.overlapped)], None)
  }
}
