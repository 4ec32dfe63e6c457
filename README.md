# Cell curation in the mmv_h4cells `CellAnalyzer`

This project models the curation state machine of the `CellAnalyzer` napari
widget (src/mmv_h4cells/_widget.py) and proves properties of it. An operator
binds a label mask, starts the analysis and walks through the cells. Each cell
is shown on its own. The operator includes it, excludes it, undoes the last
decision, includes a typed list of ids at once, or paints a cell of their own.
The widget keeps:

- the set of remaining ids, the set of included ids and the set of excluded ids;
- the accepted mask, which holds the pixels of every included cell;
- one region record (id, pixel count, centroid) per included cell;
- the mean and standard deviation of the recorded sizes;
- the undo stack of decided ids;
- the "Next cell" text field, which suggests the id to show next.

The model has two layers.

- Module `Curation` holds every operation as a pure transition on a value
  `State`. A transition gives back the new state, the message boxes it shows
  in order, and the Python exception that escapes the Qt slot, if any
  (`Fault`), together with the state reached when that exception was raised.
- Module `Analyzer` holds class `CellAnalyzer`. Its fields are the widget's
  attributes and its accepted mask is an `array<nat>`. The array is updated in
  place, as numpy does it: it is added into on include and zeroed on undo.
  Every method is proved equal to its matching function. The click handlers
  reach the state, messages and fault of their `Curation` transition (`ensures
  Curation.X(old(Abs()), ...) == Step(Abs(), msgs, fault)`). The helpers are
  tied to the function they implement: `CalculateMetrics` to `Compute`,
  `MergeIntoAccepted` to `Add`, `ZeroLabel` to `Clear`, `IncludeMultiple` to
  `RunBatch`. Each method keeps the invariant where the lemmas show that its
  function keeps it.

Supporting modules:

- `Ids`: min and max of sets of ids.
- `Masks`: label masks, flattened to `seq<nat>`.
- `Metrics`: region records and size statistics.
- `Selector`: the next-id rule of `display_next_cell` and the start-id fallback.

`CurationProofs`, `BatchProofs` and `UndoProofs` hold the lemmas. `UndoProofs`
shows that undo is the inverse of every decision, over any run of Include,
Exclude and include-multiple clicks. The central invariant is
`Consistent`:

- every nonzero label of the mask is in exactly one of remaining, included and
  excluded;
- the accepted mask's nonzero labels are exactly the included ids;
- the undo stack holds each decided id once;
- the records are the included cells in the order of inclusion, each with its
  pixel count;
- the statistics are those of the records.

Where the code and its evident intent disagree, the model follows the code in
an "as written" member. A corrected member proves the intended property, and
the class uses the corrected one (see Findings).

## Model

| member | source | states |
|---|---|---|
| Ids.Min | src/mmv_h4cells/_widget.py:379 | Python `min` of a non-empty set of ids is its least element |
| Ids.Max | src/mmv_h4cells/_widget.py:445 | Python `max` of a non-empty set of ids is its greatest element |
| Ids.LeastExists | src/mmv_h4cells/_widget.py:379 | every non-empty finite set of ids has a least element, so `min` is defined on it |
| Ids.GreatestExists | src/mmv_h4cells/_widget.py:445 | every non-empty finite set of ids has a greatest element |
| Masks.Zeros | src/mmv_h4cells/_widget.py:377 | `np.zeros_like` gives a mask of the given size that holds no label and has no nonzero pixel |
| Masks.MaxPixel | src/mmv_h4cells/_widget.py:571 | `np.max` of a non-empty mask is one of its pixels and no pixel exceeds it |
| Masks.CellMask | src/mmv_h4cells/_widget.py:457-459 | the current-cell layer for an id has the shape of the label mask |
| Masks.CellMaskShowsCell | src/mmv_h4cells/_widget.py:455-468 | the displayed layer's labelled pixels are exactly the cell's pixels in the label mask, carry only its id, and `np.max` of the layer is that id |
| Masks.GetOverlap | src/mmv_h4cells/_widget.py:925-942 | a pixel is in the overlap iff it is labelled both in the current layer and in the accepted mask (the intersection of their supports) |
| Masks.SumAtZeroIff | src/mmv_h4cells/_widget.py:789-790 | the batch's `np.sum` over a cell's pixels of the accepted mask is zero iff none of those pixels is accepted |
| Masks.BatchTestIsOverlap | src/mmv_h4cells/_widget.py:789-790 | the batch's sum test and the click's `get_overlap` test agree on every cell |
| Masks.MergeCell | src/mmv_h4cells/_widget.py:908 | adding a single-label cell that overlaps nothing gives the id exactly the cell's pixels, leaves every other label's pixels alone and adds the id to the accepted labels |
| Masks.ClearUndoesMerge | src/mmv_h4cells/_widget.py:623-624 | zeroing the id after that merge gives back the accepted mask from before it |
| Masks.ClearLabel | src/mmv_h4cells/_widget.py:623-624 | zeroing an id removes exactly that id; every other label keeps its pixels |
| Masks.CountPositive | src/mmv_h4cells/_widget.py:620 | an id is `in` a mask iff it has at least one pixel there |
| Metrics.SquaredDeviations | src/mmv_h4cells/_widget.py:1009 | the sum of squared deviations is never negative |
| Metrics.Compute | src/mmv_h4cells/_widget.py:1004-1012 | the statistics are taken over the pixel counts of the records, in record order (`Sizes`); no records give mean and spread 0; otherwise mean × n is the sum of sizes and variance × n the sum of squared deviations from the mean (population variance) |
| Metrics.SumAtLeast | src/mmv_h4cells/_widget.py:1008 | n sizes none below a bound sum to at least n × that bound |
| Metrics.SumAtMost | src/mmv_h4cells/_widget.py:1008 | n sizes none above a bound sum to at most n × that bound |
| Metrics.InsertById | src/mmv_h4cells/_widget.py:537 | inserting a record into records sorted by id keeps them sorted and adds exactly that record |
| Metrics.SortById | src/mmv_h4cells/_widget.py:537 | `sorted(..., key=id)` gives the same records (as a multiset) in ascending id order |
| Metrics.BoundedBy | src/mmv_h4cells/_widget.py:537 | every record of a rearrangement of records with ids at most a bound has its id at most that bound |
| Metrics.MeanBetweenSizes | src/mmv_h4cells/_widget.py:1008 | the mean lies between the smallest and the largest recorded size |
| Metrics.TwoRecordsExample | src/mmv_h4cells/_tests/test_widget.py:199-204 | sizes 100 and 200 give mean 150 and standard deviation 50 (variance 2500) |
| Selector.LeastAboveOrMin | src/mmv_h4cells/_widget.py:844-849 | the computed id is the least remaining id above the last decision, and wraps to min(remaining) when none is above |
| Selector.GreatestBelowOrMin | src/mmv_h4cells/_widget.py:859-866 | the fallback for a typed id that does not remain is the greatest remaining id below it, else min(remaining) |
| Selector.LeastAndGreatestIsSingleton | src/mmv_h4cells/_widget.py:890 | an id that is both least and greatest of the remaining ids is the only one |
| Selector.NextHint | src/mmv_h4cells/_widget.py:890-898 | the field is left empty iff at most one id remains; otherwise it offers a remaining id other than the one shown, the next one above it or, wrapping, min(remaining) |
| Selector.WrapHintDiffers | src/mmv_h4cells/_widget.py:890-895 | with two or more ids remaining, the wrap-around never offers the id just shown |
| Selector.Choose | src/mmv_h4cells/_widget.py:840-898 | the shown id always remains; it is the typed id iff that id remains, else the fallback; "not in remaining" is shown iff the typed id does not remain; an advisory appears iff lowering is checked and the shown id is below the last decision, "finished" only when nothing remains above it; the hint follows NextHint |
| Selector.StartId | src/mmv_h4cells/_widget.py:440-448 | the start id remains; it is the typed id iff that one remains, else the greatest remaining id below it, else min(remaining) |
| Selector.PrefilledHintFollowsComputed | src/mmv_h4cells/_widget.py:840-898 | following the pre-filled field after deciding the shown cell displays exactly the computed next id, with no "not in remaining" box and an advisory only on wrap-around |
| Curation.CurrentId | src/mmv_h4cells/_widget.py:571 | the current id exists iff a non-empty current layer exists, and is its greatest pixel |
| Curation.MinHint | src/mmv_h4cells/_widget.py:379 | the field after binding or a batch is empty iff nothing remains, else min(remaining) |
| Curation.BindAsWritten | src/mmv_h4cells/_widget.py:365-382 | as written: without records a zero accepted mask and every nonzero label remaining; with records `np.max` of an empty accepted mask raises, else only undecided labels remain; the field gets min(remaining) |
| Curation.Bind | src/mmv_h4cells/_widget.py:365-382 | corrected: the same, except that with or without records a label remains iff it is nonzero and neither included nor excluded |
| Curation.DisplayCell | src/mmv_h4cells/_widget.py:455-468 | without a current layer the call raises and changes nothing; otherwise the layer shows exactly the cell and nothing decided changes |
| Curation.DisplayNext | src/mmv_h4cells/_widget.py:828-898 | nothing remaining shows "No more cells"; an unreadable field raises; otherwise the shown cell and the boxes are those of Choose, given as last decision the top of the undo stack or 0 when it is empty (`LastDecided`), the field is its hint and no decision changes |
| Curation.StartAsWritten | src/mmv_h4cells/_widget.py:404-453 | as written: an invalid id or nothing remaining shows a box; otherwise it raises iff the start id is the greatest remaining id, and else shows the start cell with the least id above it in the field |
| Curation.Start | src/mmv_h4cells/_widget.py:404-453 | corrected: never raises; shows the StartId cell with the NextHint of it in the field, and no decision changes |
| Curation.Include | src/mmv_h4cells/_widget.py:901-913 | the cell is added to the accepted mask; a missing remaining id raises KeyError; an empty cell raises on its NaN centroid; otherwise the id moves to included and its record (id, pixel count, centroid) is appended with recomputed statistics |
| Curation.IncludeOnClick | src/mmv_h4cells/_widget.py:554-586 | nothing remaining shows a box; an overlap shows a box and changes nothing; otherwise the cell on show is committed and its id pushed, and then, while cells remain, the outcome is exactly the display of the next cell with the lowering check (DisplayNext); with none left nothing more happens |
| Curation.ExcludeOnClick | src/mmv_h4cells/_widget.py:588-607 | nothing remaining shows a box; otherwise the id on show moves from remaining to excluded and is pushed, with nothing else decided changing; an id on show that does not remain is added to excluded before the KeyError |
| Curation.Revert | src/mmv_h4cells/_widget.py:615-627 | the pop returns the top id to remaining when it is a label; an accepted id loses its last record and its pixels and leaves included; any other id leaves excluded; each missing element raises the matching error |
| Curation.UndoOnClick | src/mmv_h4cells/_widget.py:609-632 | an empty stack changes nothing; a revert that raises stops there; otherwise the statistics are recomputed and the undone id is displayed next |
| Curation.FreshLabel | src/mmv_h4cells/_widget.py:816-822 | the brush label is positive and above every pixel of both masks, so it is neither a label nor accepted |
| Curation.DrawOwnCell | src/mmv_h4cells/_widget.py:801-826 | the first click keeps every decision, clears the current layer, writes the current id to the field and arms a fresh brush; the second click is include-on-click of whatever the layer then holds (a painted cell, nothing, or a label cell an undo showed), not taken from remaining |
| Curation.Paint | src/mmv_h4cells/_widget.py:814 | painting with the brush sets exactly the painted pixels of the current layer to the brush label and changes nothing decided |
| Curation.ExportAsWritten | src/mmv_h4cells/_widget.py:522-552 | as written: the widget's records become a sorted-by-id rearrangement of themselves, nothing else changes, and the file holds those records with the statistics, exclusions, undo stack and accepted mask |
| Curation.Export | src/mmv_h4cells/_widget.py:537 | corrected: the widget is unchanged, and the file holds a sorted-by-id rearrangement of the records with the statistics, exclusions, undo stack and accepted mask |
| Curation.BatchStep | src/mmv_h4cells/_widget.py:784-797 | 0 is skipped; a non-label is faulty; a label that does not remain is ignored; an overlapping cell is reported overlapped; any other cell is committed, moved to included and pushed |
| Curation.RunBatch | src/mmv_h4cells/_widget.py:771-799 | the batch keeps the labels, the current layer, the field and the exclusions |
| Curation.IncludeMultipleOnClick | src/mmv_h4cells/_widget.py:712-745 | an empty field does nothing; a malformed list shows a box; otherwise the batch runs, the field is reset to min(remaining), the new state is exactly that of displaying the next cell without the lowering check, and the report (`Report`) follows its boxes unless that display raised |
| CurationProofs.Decided | src/mmv_h4cells/_widget.py:944-958 | the order the records must follow: the ids of the undo stack that are included, in stack order; its elements are exactly the stack's ids that lie in the set, and it is never longer than the stack |
| CurationProofs.SingleLabelMax | src/mmv_h4cells/_widget.py:571 | a painted cell of one label has that label as its `np.max` |
| CurationProofs.RecordsAreIncluded | src/mmv_h4cells/_widget.py:944-958 | under the invariant the record ids are exactly the included ids |
| CurationProofs.BindPreserves | src/mmv_h4cells/_widget.py:365-382 | binding a mask that holds every excluded id, with the invariant's decisions, cannot raise and establishes the whole invariant |
| CurationProofs.ExcludedOnlyDecisions | src/mmv_h4cells/_widget.py:491-507 | a session holding one exclusion, on the stack, and no records is a state a binding may start from |
| CurationProofs.ExcludedOnlyBindsCorrectly | src/mmv_h4cells/_widget.py:365-382 | with the corrected binding, that session bound to labels 1 and 2 has only 2 remaining and keeps the invariant |
| CurationProofs.BindAsWrittenBreaksPartition | src/mmv_h4cells/_widget.py:376-378 | as written, a session with one exclusion and no records that binds labels 1 and 2 has cell 1 both remaining and excluded; the corrected Bind leaves only 2 and keeps the invariant |
| CurationProofs.BindCorrectionAgrees | src/mmv_h4cells/_widget.py:372-378 | with records, or with nothing decided, the corrected binding is the code as written |
| CurationProofs.BindEstablishes | src/mmv_h4cells/_widget.py:365-382 | binding a fresh widget (`Init`: nothing remaining, included, excluded, recorded or on the undo stack) never raises, leaves every nonzero label remaining with an all-zero accepted mask of the label mask's size, and establishes the invariant |
| CurationProofs.BindExample | src/mmv_h4cells/_tests/test_widget.py:40-51 | binding a mask with labels 1 to 7 leaves {1..7} remaining, a zero accepted mask of its shape, and offers 1 |
| CurationProofs.StartOnOne | src/mmv_h4cells/_widget.py:440-453 | on labels 1 to 7 with 1 in the field, starting shows exactly cell 1 and offers 2, as written and as corrected |
| CurationProofs.StartExample | src/mmv_h4cells/_tests/test_widget.py:61-72 | starting on the offered id shows exactly cell 1 and offers 2, as written and as corrected |
| CurationProofs.StartAsWrittenRaises | src/mmv_h4cells/_widget.py:449-451 | as written, starting at the greatest remaining id raises on `min` of nothing after the layer is created; corrected, it shows the cell and offers min(remaining) |
| CurationProofs.StartCorrectionAgrees | src/mmv_h4cells/_widget.py:449-451 | whenever the start id is not the greatest remaining id, the corrected start is the code as written |
| CurationProofs.SameDecisionsConsistent | src/mmv_h4cells/_widget.py:455-468 | the invariant depends only on the decisions, so changing the display keeps it |
| CurationProofs.DisplayPreserves | src/mmv_h4cells/_widget.py:828-898 | displaying the next cell keeps the invariant |
| CurationProofs.StartShows | src/mmv_h4cells/_widget.py:404-453 | starting keeps the invariant and shows the start cell |
| CurationProofs.CommitPreserves | src/mmv_h4cells/_widget.py:901-913 | committing a non-overlapping single-label cell, from remaining or freshly painted, with its id pushed, never raises and keeps the invariant |
| CurationProofs.CommitSizes | src/mmv_h4cells/_widget.py:944-958 | after a commit every record still holds the pixel count of its cell in the accepted mask |
| CurationProofs.IncludeShownPreserves | src/mmv_h4cells/_widget.py:554-586 | including the cell on show keeps the invariant |
| CurationProofs.ShownCellCommits | src/mmv_h4cells/_widget.py:565-576 | the cell on show is a nonzero, undecided, unaccepted label whose layer has only its id, and whose `np.max` is that id |
| CurationProofs.ArmThenPaint | src/mmv_h4cells/_widget.py:801-822 | arming the brush keeps the invariant, and whatever is then painted is a cell of the fresh label |
| CurationProofs.ConfirmPreserves | src/mmv_h4cells/_widget.py:823-826 | confirming a painted fresh cell keeps the invariant when it commits |
| CurationProofs.ExcludeStepConsistent | src/mmv_h4cells/_widget.py:600-602 | moving a remaining id to excluded and pushing it keeps the invariant |
| CurationProofs.ExcludeShownPreserves | src/mmv_h4cells/_widget.py:588-607 | excluding the cell on show never raises KeyError and keeps the invariant |
| CurationProofs.TopDecided | src/mmv_h4cells/_widget.py:615-627 | the top of the undo stack is a nonzero decided id; it is in the accepted mask iff it is included, and a label on it does not remain |
| CurationProofs.RevertIncluded | src/mmv_h4cells/_widget.py:620-625 | undoing an inclusion pops that cell's record and never raises; the invariant holds after the recomputation of statistics |
| CurationProofs.UnincludeConsistent | src/mmv_h4cells/_widget.py:617-630 | the decisions after undoing an inclusion satisfy the invariant |
| CurationProofs.UnincludeRecords | src/mmv_h4cells/_widget.py:622 | the record popped by the undo of an inclusion is the undone cell's, and the other records keep their ids |
| CurationProofs.RecordSizesKept | src/mmv_h4cells/_widget.py:622-624 | record sizes survive clearing a label that none of the remaining records carries |
| CurationProofs.RevertExcluded | src/mmv_h4cells/_widget.py:626-627 | undoing an exclusion never raises and keeps the invariant |
| CurationProofs.RevertSucceeds | src/mmv_h4cells/_widget.py:615-627 | under the invariant the pop and the set updates of undo never raise |
| CurationProofs.UndoPreserves | src/mmv_h4cells/_widget.py:609-632 | undo keeps the invariant, and it only fails when there is no current layer |
| CurationProofs.RevertedIsShown | src/mmv_h4cells/_widget.py:628-632 | once the pop succeeds, undo with a current layer displays the undone label and it remains |
| CurationProofs.UndoRedisplays | src/mmv_h4cells/_widget.py:628-632 | undo shows the undone cell again when it is a label |
| CurationProofs.IncludeThenUndo | src/mmv_h4cells/_widget.py:554-632 | including the cell on show and then undoing restores every decision and shows the cell again |
| CurationProofs.UndoTakesBack | src/mmv_h4cells/_widget.py:609-632 | a state that differs from a consistent one only by one id pushed, included, recorded last and merged into the accepted mask undoes to the earlier decisions, showing that cell again when a layer is on show |
| CurationProofs.DrawnThenUndo | src/mmv_h4cells/_widget.py:801-826 | confirming a painted fresh cell pushes the brush id and includes it; undoing it then never raises, restores every decision, and the drawn id, not a label of the mask, does not become remaining |
| CurationProofs.ExcludeThenUndo | src/mmv_h4cells/_widget.py:588-632 | excluding the cell on show and then undoing restores every decision and shows the cell again |
| CurationProofs.ExportPreserves | src/mmv_h4cells/_widget.py:522-552 | the corrected export leaves the widget unchanged, so the invariant holds and a later undo keeps it; the file holds every record once, sorted by id, with the stack, the exclusions, the statistics and the accepted mask |
| CurationProofs.FiveThenThreeConsistent | src/mmv_h4cells/_widget.py:554-586 | the session that included cell 5 and then cell 3 satisfies the invariant |
| CurationProofs.SortFiveThree | src/mmv_h4cells/_widget.py:537 | sorting the records of 5 and 3 by id puts 3 first |
| CurationProofs.UndoAfterSort | src/mmv_h4cells/_widget.py:615-625 | with the records sorted, undo of 3 pops the record of 5 while it un-includes 3 |
| CurationProofs.ExportAsWrittenBreaksUndo | src/mmv_h4cells/_widget.py:537 | as written, exporting that consistent session breaks the record order, and the following undo leaves 5 included with only the record of 3 |
| CurationProofs.ArmedLayerIsZero | src/mmv_h4cells/_widget.py:801-822 | arming the brush keeps the invariant and empties the current layer, so the id on show is 0, which is not remaining |
| CurationProofs.ExcludeWhileArmed | src/mmv_h4cells/_widget.py:588-602 | as written: Exclude pressed while the brush is armed adds 0 to the excluded ids before `remove` raises KeyError(0), and the invariant no longer holds |
| CurationProofs.BackWithoutPainting | src/mmv_h4cells/_widget.py:823-826 | as written: confirming with nothing painted adds 0 to the included ids (line 910) before the centroid of the empty layer fails (line 948); draw mode stays on and the invariant no longer holds |
| CurationProofs.ArmThenUndo | src/mmv_h4cells/_widget.py:609-632 | undo pressed while the brush is armed keeps the invariant and shows the undone cell again, but leaves draw mode on |
| CurationProofs.ConfirmShownLabel | src/mmv_h4cells/_widget.py:823-826 | as written: confirming while a label cell is on show includes it without taking it from remaining, and the invariant no longer holds |
| CurationProofs.SessionBinds | src/mmv_h4cells/_widget.py:365-382 | binding labels 1, 2 and 3 leaves all three remaining and offers 1 |
| CurationProofs.SessionStarts | src/mmv_h4cells/_widget.py:440-453 | starting on the offered id 1 shows cell 1 and offers 2 |
| CurationProofs.SessionCommits | src/mmv_h4cells/_widget.py:901-913 | committing cell 1 moves it to included with a one-pixel record |
| CurationProofs.SessionCommitKeeps | src/mmv_h4cells/_widget.py:901-913 | that commit keeps the invariant |
| CurationProofs.SessionIncludeStep | src/mmv_h4cells/_widget.py:554-586 | the include button on cell 1 is the commit followed by the display of the next cell |
| CurationProofs.SessionIncludes | src/mmv_h4cells/_widget.py:554-586 | including cell 1 shows cell 2 and keeps the invariant |
| CurationProofs.SessionExcludes | src/mmv_h4cells/_widget.py:588-607 | excluding cell 2 leaves only 3 remaining |
| CurationProofs.SessionUndoes | src/mmv_h4cells/_widget.py:609-632 | undoing that exclusion restores the decisions before it |
| CurationProofs.SessionReachesTwo | src/mmv_h4cells/_widget.py:404-586 | bind, start and include 1 reach a consistent state showing cell 2 |
| CurationProofs.SessionExample | src/mmv_h4cells/_widget.py:404-632 | the session bind, start, include 1, exclude 2, undo reaches the stated sets, masks and records at each step and ends consistent |
| BatchProofs.BatchStepPreserves | src/mmv_h4cells/_widget.py:784-797 | each batch step keeps the invariant |
| BatchProofs.RunBatchPreserves | src/mmv_h4cells/_widget.py:771-799 | a whole batch keeps the invariant |
| BatchProofs.RunBatchClassifies | src/mmv_h4cells/_widget.py:771-799 | faulty ids are exactly the requested nonzero non-labels; every requested nonzero id lands in some class; only remaining ids are included, they leave remaining, and each is pushed on the stack exactly once |
| BatchProofs.FirstRequestIncludes | src/mmv_h4cells/_widget.py:784-797 | a first request for a remaining, non-overlapping label includes it |
| BatchProofs.ReportZeroIff | src/mmv_h4cells/_widget.py:726-745 | after a batch the box reads "0 is not a valid cell id." exactly when every requested id was 0 |
| BatchProofs.BatchOneThenUndo | src/mmv_h4cells/_widget.py:609-632 | including one remaining, non-overlapping label by the batch pushes and includes it; undo then restores every decision, and with a layer on show shows the cell again without raising |
| BatchProofs.DuplicateIsIgnored | src/mmv_h4cells/_widget.py:786-788 | a second request in the same batch for an included id is reported as ignored |
| BatchProofs.ExampleState | src/mmv_h4cells/_widget.py:771-799 | the example state has labels 2, 3 and 5 remaining |
| BatchProofs.ExampleIncludesTwo | src/mmv_h4cells/_widget.py:789-797 | in the example, requesting 2 commits cell 2 |
| BatchProofs.ExampleOverlapsFive | src/mmv_h4cells/_widget.py:789-791 | in the example, cell 5, whose pixel is already accepted, is reported overlapped |
| BatchProofs.BatchExample | src/mmv_h4cells/_widget.py:771-799 | requests 2, 2, 99, 5 give included {2}, ignored {2}, faulty {99}, overlapped {5}, and change the state accordingly |
| UndoProofs.UndoCongruent | src/mmv_h4cells/_widget.py:609-632 | undo reads only the decisions: two states with the same decisions have the same decisions after an undo |
| UndoProofs.RestoresOne | src/mmv_h4cells/_widget.py:609-632 | a click that pushes one id and whose undo gives back the earlier decisions is restored by one undo |
| UndoProofs.StepRestores | src/mmv_h4cells/_widget.py:784-797 | each step of the include-multiple loop is taken back by one undo per id it pushed |
| UndoProofs.BatchThenUndoAll | src/mmv_h4cells/_widget.py:771-799 | after any batch, as many undos as ids it pushed give back every decision it started from |
| UndoProofs.Apply | src/mmv_h4cells/_widget.py:554-607 | Include, Exclude and include-multiple keep the masks in the shape of the label mask |
| UndoProofs.Run | src/mmv_h4cells/_widget.py:554-745 | a run of those clicks keeps the masks in the shape of the label mask |
| UndoProofs.IncludeShownRestores | src/mmv_h4cells/_widget.py:554-632 | Include on a cell on show keeps the invariant and is taken back by one undo, or changes nothing when the cell overlaps |
| UndoProofs.ExcludeShownRestores | src/mmv_h4cells/_widget.py:588-632 | Exclude on a cell on show keeps the invariant and is taken back by one undo |
| UndoProofs.IncludeManyRestores | src/mmv_h4cells/_widget.py:712-745 | include-multiple keeps the invariant and is taken back by one undo per id it included |
| UndoProofs.ActionRestores | src/mmv_h4cells/_widget.py:554-745 | any one decision click pressed where allowed keeps the invariant and is taken back by its undos |
| UndoProofs.RunThenUndoAll | src/mmv_h4cells/_widget.py:554-745 | any run of Include, Exclude and include-multiple clicks keeps the invariant, and one undo per pushed id gives back the decisions the run started from |
| Analyzer.CellAnalyzer.constructor | src/mmv_h4cells/_widget.py:51-74 | the new object is the initial state `Init`: no label layer, nothing remaining, included, excluded, recorded or on the undo stack |
| Analyzer.CellAnalyzer.SetLabelLayer | src/mmv_h4cells/_widget.py:365-382 | reaches the corrected binding; from consistent decisions it never raises and establishes the invariant |
| Analyzer.CellAnalyzer.CalculateMetrics | src/mmv_h4cells/_widget.py:1004-1012 | the statistics become those of the records; nothing else changes |
| Analyzer.CellAnalyzer.DisplayCell | src/mmv_h4cells/_widget.py:455-468 | reaches the display transition, changing only the current layer and brush |
| Analyzer.CellAnalyzer.DisplayNextCell | src/mmv_h4cells/_widget.py:828-898 | reaches the next-cell transition and keeps the invariant |
| Analyzer.CellAnalyzer.StartAnalysisOnClick | src/mmv_h4cells/_widget.py:404-453 | reaches the corrected start, keeps the invariant and shows the start cell |
| Analyzer.CellAnalyzer.Include | src/mmv_h4cells/_widget.py:901-913 | reaches the include transition, with the accepted array updated in place |
| Analyzer.CellAnalyzer.MergeIntoAccepted | src/mmv_h4cells/_widget.py:908 | the accepted array becomes the pixelwise sum of its old contents and the cell |
| Analyzer.CellAnalyzer.IncludeOnClick | src/mmv_h4cells/_widget.py:554-586 | reaches the include-click transition and keeps the invariant when the shown cell is committed |
| Analyzer.CellAnalyzer.ExcludeOnClick | src/mmv_h4cells/_widget.py:588-607 | reaches the exclude transition and keeps the invariant for the cell on show |
| Analyzer.CellAnalyzer.ZeroLabel | src/mmv_h4cells/_widget.py:623-624 | every pixel of the accepted array holding the id is zeroed in place, and no other pixel changes |
| Analyzer.CellAnalyzer.Revert | src/mmv_h4cells/_widget.py:615-627 | reaches the pop and set updates of undo |
| Analyzer.CellAnalyzer.UndoOnClick | src/mmv_h4cells/_widget.py:609-632 | reaches the undo transition and keeps the invariant |
| Analyzer.CellAnalyzer.IncludeMultiple | src/mmv_h4cells/_widget.py:771-799 | the loop reaches the batch transition; the reported classes and the moved ids satisfy RunBatchClassifies; the invariant is kept |
| Analyzer.CellAnalyzer.IncludeMultipleOnClick | src/mmv_h4cells/_widget.py:712-745 | reaches the batch-click transition |
| Analyzer.CellAnalyzer.DrawOwnCell | src/mmv_h4cells/_widget.py:801-826 | reaches the draw-own-cell transition; arming keeps the invariant, and so does confirming a painted fresh cell |

## Left out

- Qt and napari glue is not modelled: buttons being enabled, opacity, the camera, layer visibility and the "Amount" labels of `update_labels`. Only the message boxes' texts (`Msg`) and escaping exceptions (`Fault`) are kept.
- Hotkeys, ROI export, and the CSV and TIFF reading and writing (_reader.py, _writer.py) are file I/O. `import_on_click` is not modelled; `Decisions` states what a binding starts from, which a fresh widget satisfies, and an imported session only where its file keeps the records in the order of the undo stack. `export_on_click` is modelled by what it writes (`Saved`) and by what it does to the widget's records (`ExportAsWritten`, `Export`).
- Curation.DrawOwnCell: draw mode disables no button and no hotkey (lines 100-110, 801-826). Two paths from it break `Consistent`. `BackWithoutPainting`: confirming with nothing painted includes 0. `ArmThenUndo` then `ConfirmShownLabel`: after an undo in draw mode, confirming includes the shown label and leaves it remaining. The invariant is proved for confirming only when a fresh cell is painted (`ConfirmPreserves`).
- Curation.ExcludeOnClick: while the brush is armed the id on show is 0, and `excluded.add(0)` runs before the KeyError (lines 600-601), so 0 stays excluded (`ExcludeWhileArmed`). The invariant is proved only for Exclude on a remaining cell on show (`ExcludeShownPreserves`).
- UndoProofs.RunThenUndoAll: Include and Exclude count as pressed only while a remaining cell is on show (`Pressable`), so runs through draw mode, or through a click that shows no cell, are not covered; undo clicks inside the run are not part of it either.
- After an export as written (`Curation.ExportAsWritten`), `Consistent` and every undo lemma no longer apply when cells were included out of id order (see Findings); the lemmas cover the corrected `Curation.Export`.
- Curation.Export: the file still holds the records sorted by id, as the source writes them, so a session imported back from it would not satisfy `Decisions` when cells were included out of id order; the import is not modelled, and only the widget's own state is proved safe.
- The show-included, show-excluded and show-remaining views add napari layers and change no decision.
- The logger and timing calls are left out.
- `handle_overlap` highlighting is reduced to the `OverlapDetected` message. Its Cancel branch (line 1000) is unreachable: `include_on_click` calls `check_for_overlap()` without forwarding `self_drawn` (line 565), so the dialog never offers Cancel (line 991).
- The centroid from `ndimage.center_of_mass` is a function `com` supplied by the caller. Floating-point arithmetic and the `int()` truncation are the caller's.
- `get_ids_to_include`: the split on commas and Python `int()` parsing of the text are not modelled. The parse result is an input (`Parsed`: blank, malformed or a list of ids). Likewise the next-id field is modelled as the `Option<int>` that `int()` would read from it.
- Curation.FreshLabel: ids are unbounded naturals and labels are taken to be non-negative. The fresh label assumes the largest label is below the maximum of the mask's integer type; at that maximum numpy would wrap the `+ 1` around or fail to store it, which is not modelled.
- Metrics.Compute: the mean and spread are exact reals. The rounding by `np.round(..., 3)` is not modelled, and the standard deviation is stated through its square, the population variance.
- Masks are flattened to one dimension. Numpy broadcasting and shape errors between masks of different shapes are excluded by preconditions, which the shape invariant `Shaped` guarantees.
- The label mask and the current-cell layer are reassigned sequences in the class, not arrays updated in place. Only the accepted mask, which the source mutates through `+=` and index assignment, is an array.
- Before any label layer is bound, `accepted_cells` is an unset attribute in the source; the model uses an empty mask.
- Analyzer.CellAnalyzer.SetLabelLayer, StartAnalysisOnClick: the class uses the corrected `Bind` and `Start` (see Findings). The behaviour as written is modelled by `Curation.BindAsWritten` and `Curation.StartAsWritten`.

## Findings

| source | as written | input that shows it | evidently intended | confidence | as-written member | corrected member |
|---|---|---|---|---|---|---|
| src/mmv_h4cells/_widget.py:449-451 | the next-id hint is `min` over the remaining ids above the start id, which raises ValueError when the start id is the greatest remaining id; the current-cell layer has already been added, so no cell is displayed | labels 1 and 2 bound, typed start id 2 (or any session with one cell left) | the hint rule of `display_next_cell` (lines 890-898): wrap to min(remaining), or an empty field when only the start id remains | high; not executed | CurationProofs.StartAsWrittenRaises (on Curation.StartAsWritten) | Curation.Start, with CurationProofs.StartShows and CurationProofs.StartCorrectionAgrees |
| src/mmv_h4cells/_widget.py:537 | export replaces the widget's own `metric_data` by its copy sorted by id, while `undo_stack` stays in decision order and undo pops the last record (line 622) | include cell 5, then cell 3, export, undo: 3 is cleared and un-included but the record of 5 is removed, leaving 5 included with the record of 3 | sort only the copy that is written, keeping `metric_data` in the order of inclusion on which undo relies | high; not executed | CurationProofs.ExportAsWrittenBreaksUndo (on Curation.ExportAsWritten) | Curation.Export, with CurationProofs.ExportPreserves |
| src/mmv_h4cells/_widget.py:376-378 | without region records the remaining ids are all nonzero labels; the excluded ids are not subtracted | an import whose file holds exclusions but no records, then a label layer is bound: an excluded id is remaining and excluded at once (labels 1 and 2, excluded {1}) | subtract the decided ids in both branches, as line 374 and the import (lines 507-515) do | medium; not executed | CurationProofs.BindAsWrittenBreaksPartition (on Curation.BindAsWritten) | Curation.Bind, with CurationProofs.BindPreserves and CurationProofs.BindCorrectionAgrees |
