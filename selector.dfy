/** The next-cell rule of `display_next_cell` and the start-id fallback of
    `start_analysis_on_click`: pure arithmetic on the set of remaining ids. */
module Selector {
  import opened Ids

  function Above(s: set<int>, b: int): set<int> {
    set x | x in s && x > b
  }

  function Below(s: set<int>, b: int): set<int> {
    set x | x in s && x < b
  }

  /** The least id of s above b, or min(s) when no id of s lies above b (wrap-around). */
  function LeastAboveOrMin(s: set<int>, b: int): (r: int)
    requires s != {}
    ensures r in s
    ensures Above(s, b) != {} ==> b < r && forall y :: y in s && b < y ==> r <= y
    ensures Above(s, b) == {} ==> IsLeast(r, s) && r <= b
  {
    var up := Above(s, b);
    if up != {} then
      assert forall y :: y in s && b < y ==> y in up;
      Min(up)
    else
      var m := Min(s);
      assert m !in up;
      m
  }

  /** The greatest id of s below b, or min(s) when no id of s lies below b. */
  function GreatestBelowOrMin(s: set<int>, b: int): (r: int)
    requires s != {}
    ensures r in s
    ensures Below(s, b) != {} ==> r < b && forall y :: y in s && y < b ==> y <= r
    ensures Below(s, b) == {} ==> IsLeast(r, s) && b <= r
  {
    var down := Below(s, b);
    if down != {} then
      assert forall y :: y in s && y < b ==> y in down;
      Max(down)
    else
      var m := Min(s);
      assert m !in down;
      m
  }

  lemma LeastAndGreatestIsSingleton(m: int, s: set<int>)
    requires IsLeast(m, s) && IsGreatest(m, s)
    ensures s == {m} && |s| == 1
  {
    assert forall y :: y in s ==> y == m;
  }

  /** The id the text field suggests for the following round (lines 890-898):
      the least remaining id above `chosen`, wrapping to min(remaining); no
      suggestion (an empty field) when at most one id remains. */
  function NextHint(remaining: set<int>, chosen: int): (h: Option<int>)
    requires chosen in remaining
    ensures h.None? <==> |remaining| <= 1
    ensures h.Some? ==> h.value in remaining && h.value != chosen
    ensures h.Some? && h.value > chosen ==> forall y :: y in remaining && chosen < y ==> h.value <= y
    ensures h.Some? && h.value < chosen ==> IsLeast(h.value, remaining) && IsGreatest(chosen, remaining)
  {
    if |remaining| > 1 then
      WrapHintDiffers(remaining, chosen);
      Some(LeastAboveOrMin(remaining, chosen))
    else
      None
  }

  /** With at least two ids remaining, the wrap-around to min(remaining) after
      the greatest remaining id never lands back on that id. */
  lemma WrapHintDiffers(remaining: set<int>, chosen: int)
    requires chosen in remaining && |remaining| > 1
    ensures LeastAboveOrMin(remaining, chosen) != chosen
    ensures Above(remaining, chosen) == {} ==> IsGreatest(chosen, remaining)
  {
    if Above(remaining, chosen) == {} {
      forall y | y in remaining ensures y <= chosen {
        assert y > chosen ==> y in Above(remaining, chosen);
      }
      if LeastAboveOrMin(remaining, chosen) == chosen {
        LeastAndGreatestIsSingleton(chosen, remaining);
      }
    }
  }

  /** The id decided last: the top of the undo stack, 0 when it is empty (lines 840-842). */
  function LastDecided(undo: seq<nat>): nat {
    if undo == [] then 0 else undo[|undo| - 1]
  }

  datatype Advisory =
    | DatasetFinished      // "Dataset is finished. Jumping to earlier cells."
    | LoweringDiscouraged  // "Lowering the next cell id is a bad idea."

  datatype Choice = Choice(
    computed: int,              // next_id_computed
    chosen: int,                // next_id, the cell that is displayed
    notAvailable: bool,         // "Given id is not in remaining cells." was shown
    advisory: Option<Advisory>, // the lowered-id advisory, if any
    hint: Option<int>)          // the new content of the next-id field

  /** The selection of `display_next_cell` (lines 840-898) for a non-empty
      set of remaining ids, the id decided last and the id typed in the field. */
  function Choose(remaining: set<int>, last: int, given: int, checkLowered: bool): (c: Choice)
    requires remaining != {}
    // the computed id: the least remaining id above the last decision, else min(remaining)
    ensures c.computed in remaining
    ensures Above(remaining, last) != {} ==>
              last < c.computed && forall y :: y in remaining && last < y ==> c.computed <= y
    ensures Above(remaining, last) == {} ==> IsLeast(c.computed, remaining)
    // the displayed id is always a remaining one, and it is the typed id exactly when that one remains
    ensures c.chosen in remaining
    ensures c.chosen == given <==> given in remaining
    ensures c.notAvailable <==> given !in remaining
    // a typed id that does not remain falls back to the greatest remaining id below it, else min(remaining)
    ensures given !in remaining && Below(remaining, given) != {} ==>
              c.chosen < given && forall y :: y in remaining && y < given ==> y <= c.chosen
    ensures given !in remaining && Below(remaining, given) == {} ==> IsLeast(c.chosen, remaining)
    // one advisory exactly when lowering is checked and the displayed id is below the last decision
    ensures c.advisory.Some? <==> checkLowered && c.chosen < last
    ensures c.advisory == Some(DatasetFinished) ==> Above(remaining, last) == {}
    ensures c.advisory == Some(LoweringDiscouraged) ==> last <= c.computed
    ensures c.hint == NextHint(remaining, c.chosen)
  {
    var computed := LeastAboveOrMin(remaining, last);
    var notAvailable := given != computed && given !in remaining;
    var chosen := if notAvailable then GreatestBelowOrMin(remaining, given) else given;
    var advisory :=
      if checkLowered && chosen < last then
        Some(if computed < last then DatasetFinished else LoweringDiscouraged)
      else None;
    Choice(computed, chosen, notAvailable, advisory, NextHint(remaining, chosen))
  }

  /** Start-id fallback of `start_analysis_on_click` (lines 440-448): a typed id
      that does not remain is replaced by the greatest remaining id below it, else min(remaining). */
  function StartId(remaining: set<int>, typed: int): (start: int)
    requires remaining != {}
    ensures start in remaining
    ensures start == typed <==> typed in remaining
    ensures typed !in remaining && Below(remaining, typed) != {} ==>
              start < typed && forall y :: y in remaining && y < typed ==> y <= start
    ensures typed !in remaining && Below(remaining, typed) == {} ==> IsLeast(start, remaining)
  {
    if typed in remaining then typed else GreatestBelowOrMin(remaining, typed)
  }

  /** Following the pre-filled field walks the ids in ascending order: if the
      field holds the hint produced when `prev` was displayed, and `prev` is
      then decided (removed from the remaining ids and pushed as the last
      decision), the next display takes the computed id — the least id above
      `prev`, or the wrap-around to the least remaining id — and it warns only
      when it wraps. */
  lemma {:induction false} PrefilledHintFollowsComputed(remaining: set<int>, prev: int, checkLowered: bool)
    requires prev in remaining && |remaining| > 1
    ensures remaining - {prev} != {}
    ensures var c := Choose(remaining - {prev}, prev, NextHint(remaining, prev).value, checkLowered);
            && c.chosen == c.computed
            && !c.notAvailable
            && (c.advisory.Some? <==> checkLowered && Above(remaining, prev) == {})
  {
    var rest := remaining - {prev};
    var h := NextHint(remaining, prev).value;
    assert h in rest;
    var c := Choose(rest, prev, h, checkLowered);
    assert Above(rest, prev) == Above(remaining, prev);
    if Above(remaining, prev) != {} {
      assert h > prev by {
        var y :| y in Above(remaining, prev);
        assert h < prev ==> IsGreatest(prev, remaining) && y <= prev;
      }
      assert c.computed <= h;
      assert h <= c.computed;
    } else {
      assert h < prev by {
        assert h > prev ==> h in Above(remaining, prev);
      }
      assert IsLeast(h, remaining);
      assert IsLeast(c.computed, rest);
      assert h <= c.computed && c.computed <= h;
      assert c.chosen < prev;
    }
  }
}
