/**
 * The selection flags of `AccountManagerApp` (main.py) stated on values:
 * setting one flag, clearing all, the select-all toggle over the visible rows,
 * the right-click selection, and the drag gesture that presses in the "选择"
 * column and sweeps a range of visible rows. Records are named by their index
 * in the record list; the visible rows are a sequence of such indices.
 */
module Selection {
  import opened Records

  /** `_set_account_selection_state(accs[i], state)`: only the flag of record `i` changes. */
  function SetSelected(accs: seq<Account>, i: nat, state: bool): (r: seq<Account>)
    requires i < |accs|
    ensures |r| == |accs| && r[i].selected == state && SameButSelection(accs, r)
    ensures forall j :: 0 <= j < |accs| && j != i ==> r[j] == accs[j]
  {
    accs[i := accs[i].(selected := state)]
  }

  /** The flag of every record whose index is in `s` set to `state`, the others untouched. */
  function SetEach(accs: seq<Account>, s: set<nat>, state: bool): (r: seq<Account>)
    ensures |r| == |accs| && SameButSelection(accs, r)
    ensures forall i :: 0 <= i < |accs| ==> r[i] == (if i in s then accs[i].(selected := state) else accs[i])
  {
    seq(|accs|, i requires 0 <= i < |accs| => if i in s then accs[i].(selected := state) else accs[i])
  }

  /** The two lists hold the same records apart from their selection flags. */
  predicate SameButSelection(a: seq<Account>, b: seq<Account>)
  {
    |a| == |b| && forall i :: 0 <= i < |a| ==> b[i] == a[i].(selected := b[i].selected)
  }

  /** Every record deselected: a press on empty space without a modifier key. */
  function ClearAll(accs: seq<Account>): (r: seq<Account>)
    ensures SameButSelection(accs, r)
    ensures forall i :: 0 <= i < |r| ==> !r[i].selected
  {
    seq(|accs|, i requires 0 <= i < |accs| => accs[i].(selected := false))
  }

  /** The records shown in the given rows. */
  function RowSet(rows: seq<nat>): (s: set<nat>)
    ensures forall i :: i in s <==> i in rows
  {
    set k | 0 <= k < |rows| :: rows[k]
  }

  // ---------------------------------------------------------------------
  // Select-all toggle (select_all_toggle)
  // ---------------------------------------------------------------------

  /** Every visible record is selected. */
  predicate AllSelected(accs: seq<Account>, rows: seq<nat>)
    requires forall k :: 0 <= k < |rows| ==> rows[k] < |accs|
  {
    forall k :: 0 <= k < |rows| ==> accs[rows[k]].selected
  }

  /** The list after `select_all_toggle` with the given visible rows. */
  function SelectAllToggled(accs: seq<Account>, rows: seq<nat>): seq<Account>
    requires forall k :: 0 <= k < |rows| ==> rows[k] < |accs|
  {
    if rows == [] then accs else SetEach(accs, RowSet(rows), !AllSelected(accs, rows))
  }

  /**
   * Select-all deselects every visible record when all of them are selected and
   * otherwise selects them all; hidden records keep their flags and no other
   * field changes.
   */
  lemma SelectAllToggleFacts(accs: seq<Account>, rows: seq<nat>)
    requires forall k :: 0 <= k < |rows| ==> rows[k] < |accs|
    ensures var r := SelectAllToggled(accs, rows);
      SameButSelection(accs, r)
      && (forall i :: 0 <= i < |accs| && i !in rows ==> r[i] == accs[i])
      && (rows != [] && AllSelected(accs, rows) ==> forall k :: 0 <= k < |rows| ==> !r[rows[k]].selected)
      && (!AllSelected(accs, rows) ==> AllSelected(r, rows))
  {
  }

  /** Pressing select-all twice on a partly selected view ends with every visible record deselected. */
  lemma SelectAllTwice(accs: seq<Account>, rows: seq<nat>)
    requires forall k :: 0 <= k < |rows| ==> rows[k] < |accs|
    requires !AllSelected(accs, rows)
    ensures var r := SelectAllToggled(SelectAllToggled(accs, rows), rows);
      forall k :: 0 <= k < |rows| ==> !r[rows[k]].selected
  {
    SelectAllToggleFacts(accs, rows);
    SelectAllToggleFacts(SelectAllToggled(accs, rows), rows);
  }

  // ---------------------------------------------------------------------
  // Right-click selection (on_tree_right_click)
  // ---------------------------------------------------------------------

  /** The list after a right click on record `i` outside "备注" and "快捷" without a modifier key. */
  function SelectOnly(accs: seq<Account>, i: nat): seq<Account>
    requires i < |accs|
  {
    SetSelected(ClearAll(accs), i, true)
  }

  /** After a plain right click exactly the clicked record is selected. */
  lemma SelectOnlyFacts(accs: seq<Account>, i: nat)
    requires i < |accs|
    ensures var r := SelectOnly(accs, i);
      SameButSelection(accs, r) && forall j :: 0 <= j < |r| ==> (r[j].selected <==> j == i)
  {
  }

  // ---------------------------------------------------------------------
  // The drag gesture (on_tree_button_press / _drag_motion / _release)
  // ---------------------------------------------------------------------

  function Min(a: nat, b: nat): nat { if a <= b then a else b }
  function Max(a: nat, b: nat): nat { if a <= b then b else a }

  /** The records shown in the rows from position `p` to position `q`, both included, in either order. */
  function RowRange(rows: seq<nat>, p: nat, q: nat): (s: set<nat>)
    requires p < |rows| && q < |rows|
    ensures rows[p] in s && rows[q] in s
  {
    set k | Min(p, q) <= k <= Max(p, q) :: rows[k]
  }

  /** The range holds the records shown between the two positions and nothing else, so only shown records. */
  lemma RowRangeFacts(rows: seq<nat>, p: nat, q: nat)
    requires p < |rows| && q < |rows|
    ensures forall i :: i in RowRange(rows, p, q) <==> exists k :: Min(p, q) <= k <= Max(p, q) && rows[k] == i
    ensures forall i :: i in RowRange(rows, p, q) ==> i in rows
  {
    forall i | i in RowRange(rows, p, q) ensures i in rows {
      var k :| Min(p, q) <= k <= Max(p, q) && rows[k] == i;
    }
  }

  /** `rows.index(i)`: the first position showing record `i`. */
  function PositionOf(rows: seq<nat>, i: nat): (p: nat)
    requires i in rows
    ensures p < |rows| && rows[p] == i
    ensures forall k :: 0 <= k < p ==> rows[k] != i
  {
    if rows[0] == i then 0 else 1 + PositionOf(rows[1..], i)
  }

  /**
   * One drag motion: the records of the previous range that are outside the
   * new range get `!mode`, then every record of the new range gets `mode`.
   */
  function DragMotion(accs: seq<Account>, last: set<nat>, range: set<nat>, mode: bool): seq<Account>
  {
    SetEach(SetEach(accs, last - range, !mode), range, mode)
  }

  /**
   * A whole gesture: a press in the "选择" column on record `a` toggles it and
   * fixes the mode to its new flag, then one motion per range. Yields the list
   * and the last range.
   */
  function Gesture(accs: seq<Account>, a: nat, ranges: seq<set<nat>>): (seq<Account>, set<nat>)
    requires a < |accs|
  {
    if ranges == [] then (SetSelected(accs, a, !accs[a].selected), {a})
    else
      var (s, last) := Gesture(accs, a, ranges[..|ranges| - 1]);
      (DragMotion(s, last, ranges[|ranges| - 1], !accs[a].selected), ranges[|ranges| - 1])
  }

  /** Record `i` is the anchor or lies in one of the ranges swept so far. */
  predicate Visited(a: nat, ranges: seq<set<nat>>, i: nat)
  {
    i == a || exists k :: 0 <= k < |ranges| && i in ranges[k]
  }

  /**
   * The drag rule: after the press and any number of motions, every record of
   * the current range has the mode's flag, every record swept earlier but
   * outside the current range has the opposite flag, every record never swept
   * is unchanged, and no field other than the flag changes.
   */
  lemma {:induction false} GestureRule(accs: seq<Account>, a: nat, ranges: seq<set<nat>>)
    requires a < |accs|
    ensures var (r, last) := Gesture(accs, a, ranges);
      var mode := !accs[a].selected;
      && SameButSelection(accs, r)
      && last == (if ranges == [] then {a} else ranges[|ranges| - 1])
      && (forall i :: 0 <= i < |accs| && i in last ==> r[i].selected == mode)
      && (forall i: nat :: i < |accs| && Visited(a, ranges, i) && i !in last ==> r[i].selected == !mode)
      && (forall i: nat :: i < |accs| && !Visited(a, ranges, i) ==> r[i] == accs[i])
  {
    if ranges != [] {
      var init := ranges[..|ranges| - 1];
      var range := ranges[|ranges| - 1];
      var mode := !accs[a].selected;
      GestureRule(accs, a, init);
      var (s, last) := Gesture(accs, a, init);
      var r := DragMotion(s, last, range, mode);
      forall i: nat | i < |accs| && Visited(a, ranges, i) && i !in range
        ensures r[i].selected == !mode
      {
        if i !in last {
          if i != a {
            var k :| 0 <= k < |ranges| && i in ranges[k];
            assert k < |init| && i in init[k];
          }
          assert Visited(a, init, i);
        }
      }
      forall i: nat | i < |accs| && !Visited(a, ranges, i)
        ensures r[i] == accs[i]
      {
        assert i !in range;
        assert !Visited(a, init, i) by {
          forall k | 0 <= k < |init| ensures i !in init[k] { assert init[k] == ranges[k]; }
        }
      }
    }
  }
}
