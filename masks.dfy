/** Pixel masks. A numpy label array of any shape is modelled flattened: position i
    holds the label of pixel i and 0 is background. The label mask, the
    current-cell layer and the accepted mask of the widget all have this form. */
module Masks {

  type Mask = seq<nat>

  /** `np.zeros_like`: a mask of the given size that holds no label at all. */
  function Zeros(n: nat): (m: Mask)
    ensures |m| == n && NonzeroValues(m) == {} && Support(m) == {}
  {
    seq(n, _ => 0)
  }

  /** `np.unique(m)` as a set. */
  function Values(m: Mask): set<nat> {
    set x | x in m
  }

  function NonzeroValues(m: Mask): set<nat> {
    Values(m) - {0}
  }

  /** The positions holding label v: `np.where(m == v)`. */
  function Positions(m: Mask, v: nat): set<nat> {
    set i: nat | i < |m| && m[i] == v
  }

  /** The positions holding any label: `np.nonzero(m)`. */
  function Support(m: Mask): set<nat> {
    set i: nat | i < |m| && m[i] != 0
  }

  function Count(m: Mask, v: nat): nat {
    |Positions(m, v)|
  }

  /** `np.count_nonzero(m)`. */
  function CountNonzero(m: Mask): nat {
    |Support(m)|
  }

  /** Every labelled pixel of m carries `id`. */
  predicate SingleLabel(m: Mask, id: nat) {
    forall i :: 0 <= i < |m| ==> m[i] == 0 || m[i] == id
  }

  /** `np.max(m)`, which numpy refuses on an empty array. */
  function MaxPixel(m: Mask): (r: nat)
    requires |m| > 0
    ensures r in m
    ensures forall i :: 0 <= i < |m| ==> m[i] <= r
  {
    if |m| == 1 then m[0]
    else
      var t := MaxPixel(m[1..]);
      assert forall i :: 1 <= i < |m| ==> m[i] == m[1..][i - 1];
      if m[0] < t then t else m[0]
  }

  /** The current-cell layer for `cell_id` (`display_cell`, lines 457-459): the
      cell's own pixels carry its id, every other pixel is 0. */
  function CellMask(labels: Mask, id: nat): (m: Mask)
    ensures |m| == |labels|
  {
    seq(|labels|, i requires 0 <= i < |labels| => if labels[i] == id then id else 0)
  }

  /** What the tests observe of a displayed cell: its labelled pixels are
      exactly those of the cell in the label mask, they carry only its id, and
      `np.max` of the layer is that id. */
  lemma CellMaskShowsCell(labels: Mask, id: nat)
    requires id != 0
    ensures Support(CellMask(labels, id)) == Positions(labels, id)
    ensures SingleLabel(CellMask(labels, id), id)
    ensures NonzeroValues(CellMask(labels, id)) == if id in labels then {id} else {}
    ensures id in labels ==> MaxPixel(CellMask(labels, id)) == id
  {
    var m := CellMask(labels, id);
    if id in labels {
      var k :| 0 <= k < |labels| && labels[k] == id;
      assert m[k] == id;
      assert id in Values(m);
    }
    assert forall x :: x in m ==> x == 0 || x == id;
  }

  /** `get_overlap` (lines 935-941): a zero layer gets +1 at the labelled pixels of
      the current cell and +1 at those of the accepted mask; the overlap is
      where the count reached 2. No mask is changed, as the source works on a copy. */
  function GetOverlap(current: Mask, accepted: Mask): (overlap: set<nat>)
    requires |current| == |accepted|
    ensures forall i: nat :: i in overlap <==> i < |current| && current[i] != 0 && accepted[i] != 0
    ensures overlap == Support(current) * Support(accepted)
  {
    var combined := seq(|current|, i requires 0 <= i < |current| =>
                          (if current[i] != 0 then 1 else 0) + (if accepted[i] != 0 then 1 else 0));
    set i: nat | i < |combined| && combined[i] == 2
  }

  /** `accepted_cells += data` (line 908). */
  function Add(a: Mask, b: Mask): (r: Mask)
    requires |a| == |b|
    ensures |r| == |a|
  {
    seq(|a|, i requires 0 <= i < |a| => a[i] + b[i])
  }

  /** Zeroing every pixel equal to x (lines 623-624). */
  function Clear(a: Mask, x: nat): (r: Mask)
    ensures |r| == |a|
  {
    seq(|a|, i requires 0 <= i < |a| => if a[i] == x then 0 else a[i])
  }

  /** `np.sum(accepted[np.where(labels == v)])` (lines 789-790). */
  function SumAt(accepted: Mask, labels: Mask, v: nat): nat
    requires |accepted| == |labels|
  {
    if |accepted| == 0 then 0
    else (if labels[0] == v then accepted[0] else 0) + SumAt(accepted[1..], labels[1..], v)
  }

  /** The batch test of line 790 sums accepted labels; since labels are never
      negative, that sum is nonzero exactly when one pixel of the cell is
      already accepted. */
  lemma {:induction false} SumAtZeroIff(accepted: Mask, labels: Mask, v: nat)
    requires |accepted| == |labels|
    ensures SumAt(accepted, labels, v) == 0 <==>
            forall i :: 0 <= i < |labels| && labels[i] == v ==> accepted[i] == 0
  {
    if |accepted| > 0 {
      SumAtZeroIff(accepted[1..], labels[1..], v);
      assert forall i :: 1 <= i < |labels| ==> labels[i] == labels[1..][i - 1] && accepted[i] == accepted[1..][i - 1];
    }
  }

  /** The batch test of line 790 and the click test of `get_overlap` agree:
      a cell's label pixels sum to nonzero in the accepted mask exactly when
      its displayed mask overlaps the accepted mask. */
  lemma BatchTestIsOverlap(accepted: Mask, labels: Mask, v: nat)
    requires |accepted| == |labels| && v != 0
    ensures SumAt(accepted, labels, v) != 0 <==> GetOverlap(CellMask(labels, v), accepted) != {}
  {
    SumAtZeroIff(accepted, labels, v);
    var m := CellMask(labels, v);
    if SumAt(accepted, labels, v) != 0 {
      var i :| 0 <= i < |labels| && labels[i] == v && accepted[i] != 0;
      assert i in GetOverlap(m, accepted);
    } else {
      assert forall i: nat :: i < |m| ==> !(m[i] != 0 && accepted[i] != 0);
    }
  }

  lemma NoOverlapDisjoint(a: Mask, m: Mask)
    requires |a| == |m| && GetOverlap(m, a) == {}
    ensures forall i :: 0 <= i < |m| ==> m[i] == 0 || a[i] == 0
  {
    var o := GetOverlap(m, a);
    forall i | 0 <= i < |m| ensures m[i] == 0 || a[i] == 0 {
      assert i as nat !in o;
    }
  }

  /** Merging a single-label cell that overlaps nothing records exactly that
      cell: its pixels carry `id`, every other label keeps its pixel count, and
      the set of accepted labels gains `id` when the cell has any pixel. */
  lemma MergeCell(a: Mask, m: Mask, id: nat)
    requires |a| == |m| && id != 0 && id !in a
    requires SingleLabel(m, id) && GetOverlap(m, a) == {}
    ensures Positions(Add(a, m), id) == Support(m)
    ensures Count(Add(a, m), id) == CountNonzero(m)
    ensures forall y: nat :: y != 0 && y != id ==> Positions(Add(a, m), y) == Positions(a, y)
    ensures forall y: nat :: y != 0 && y != id ==> Count(Add(a, m), y) == Count(a, y)
    ensures NonzeroValues(Add(a, m)) == NonzeroValues(a) + (if Support(m) != {} then {id} else {})
  {
    var r := Add(a, m);
    MergePositions(a, m, id);
    var want := NonzeroValues(a) + (if Support(m) != {} then {id} else {});
    forall x | x in NonzeroValues(r) ensures x in want {
      var i :| 0 <= i < |r| && r[i] == x;
      assert i as nat in Positions(r, x);
      if x != id {
        assert i as nat in Positions(a, x);
      } else {
        assert i as nat in Support(m);
      }
    }
    forall x | x in want ensures x in NonzeroValues(r) {
      if x == id {
        var k :| k in Support(m);
        assert r[k] == id;
      } else {
        var i :| 0 <= i < |a| && a[i] == x;
        assert i as nat in Positions(a, x);
        assert i as nat in Positions(r, x);
      }
    }
  }

  /** The pixels of the merged mask: those of `id` are the cell's, those of
      every other label are unchanged. */
  lemma MergePositions(a: Mask, m: Mask, id: nat)
    requires |a| == |m| && id != 0 && id !in a
    requires SingleLabel(m, id) && GetOverlap(m, a) == {}
    ensures Positions(Add(a, m), id) == Support(m)
    ensures forall y: nat :: y != 0 && y != id ==> Positions(Add(a, m), y) == Positions(a, y)
    ensures forall i :: 0 <= i < |a| ==> (Add(a, m)[i] == 0 <==> a[i] == 0 && m[i] == 0)
  {
    var r := Add(a, m);
    NoOverlapDisjoint(a, m);
    assert forall i :: 0 <= i < |a| ==> a[i] != id;
    assert Positions(r, id) == Support(m);
    forall y: nat | y != 0 && y != id ensures Positions(r, y) == Positions(a, y) {
      assert forall i :: 0 <= i < |a| ==> (r[i] == y <==> a[i] == y);
    }
  }

  /** Undoing a merge: clearing `id` from the merged mask gives back the mask
      from before the merge. */
  lemma ClearUndoesMerge(a: Mask, m: Mask, id: nat)
    requires |a| == |m| && id != 0 && id !in a
    requires SingleLabel(m, id) && GetOverlap(m, a) == {}
    ensures Clear(Add(a, m), id) == a
  {
    NoOverlapDisjoint(a, m);
    assert forall i :: 0 <= i < |a| ==> a[i] != id;
  }

  /** Clearing a label removes exactly that label: no pixel of any other label changes. */
  lemma ClearLabel(a: Mask, x: nat)
    requires x != 0
    ensures x !in Clear(a, x)
    ensures NonzeroValues(Clear(a, x)) == NonzeroValues(a) - {x}
    ensures forall y: nat :: y != 0 && y != x ==> Positions(Clear(a, x), y) == Positions(a, y)
    ensures forall y: nat :: y != 0 && y != x ==> Count(Clear(a, x), y) == Count(a, y)
  {
    var r := Clear(a, x);
    forall y: nat | y != 0 && y != x ensures Positions(r, y) == Positions(a, y) {
      assert forall i :: 0 <= i < |a| ==> (r[i] == y <==> a[i] == y);
    }
    assert forall v :: v in r && v != 0 ==> v in a && v != x;
    forall v | v in NonzeroValues(a) - {x} ensures v in NonzeroValues(r) {
      var i :| 0 <= i < |a| && a[i] == v;
      assert r[i] == v;
    }
  }

  /** A label occurs in a mask exactly when it holds at least one pixel. */
  lemma CountPositive(a: Mask, x: nat)
    ensures x in a <==> Count(a, x) > 0
  {
    if x in a {
      var i :| 0 <= i < |a| && a[i] == x;
      assert i in Positions(a, x);
    } else {
      assert Positions(a, x) == {};
    }
  }
}
