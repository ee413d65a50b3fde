/** OthelloAction: a frozen record (row, col, is_pass) whose equality is
    structural, and its encoding into the 65-slot action index space
    (0..63 for the cells in row-major order, 64 for a pass). */
module OthelloAction {
  import opened Wrappers

  /** Python's `None` coordinates are kept, so that the two pass values of
      the engine stay distinguishable as they are in the source. */
  datatype Action = Action(row: Option<int>, col: Option<int>, isPass: bool) {
    /** An action on which `to_index` does not fail: a pass, or a
        placement whose row and column are both given. */
    predicate WellFormed() {
      isPass || (row.Some? && col.Some?)
    }
  }

  /** `OthelloAction(row, col)`: a placement. */
  function Place(r: int, c: int): Action {
    Action(Some(r), Some(c), false)
  }

  /** `OthelloAction.pass_action()`, i.e. `OthelloAction(None, None, True)`. */
  function PassAction(): Action {
    Action(None, None, true)
  }

  /** The pass the move generator emits: `OthelloAction(-1, -1, True)`. */
  function GeneratedPass(): Action {
    Action(Some(-1), Some(-1), true)
  }

  /** `to_index`: 64 for any pass, `row * 8 + col` for a placement. */
  function ToIndex(a: Action): (i: int)
    requires a.WellFormed()
    ensures a.isPass ==> i == 64
    ensures !a.isPass ==> i == a.row.value * 8 + a.col.value
    ensures !a.isPass && 0 <= a.row.value < 8 && 0 <= a.col.value < 8 ==> 0 <= i < 64
  {
    if a.isPass then 64 else a.row.value * 8 + a.col.value
  }

  /** `from_index`: the pass action for 64, otherwise the placement
      (index // 8, index % 8), with no range check. */
  function FromIndex(index: int): (a: Action)
    ensures a.WellFormed()
    ensures index == 64 <==> a.isPass
  {
    if index == 64 then PassAction() else Place(index / 8, index % 8)
  }

  /** A placement index in 0..63 decodes to an on-board cell. */
  lemma FromIndexOnBoard(i: int)
    requires 0 <= i < 64
    ensures FromIndex(i) == Place(i / 8, i % 8)
    ensures 0 <= FromIndex(i).row.value < 8 && 0 <= FromIndex(i).col.value < 8
  {
  }

  /** Encoding after decoding is the identity, on every integer (so in
      particular on 0..64). */
  lemma ToFromIndex(i: int)
    ensures ToIndex(FromIndex(i)) == i
  {
  }

  /** Decoding after encoding is the identity on on-board placements, so
      `to_index` is injective on them. */
  lemma FromToIndex(r: int, c: int)
    requires 0 <= r < 8 && 0 <= c < 8
    ensures FromIndex(ToIndex(Place(r, c))) == Place(r, c)
  {
    var i := r * 8 + c;
    assert i / 8 == r && i % 8 == c;
  }

  lemma ToIndexInjective(a: Action, b: Action)
    requires !a.isPass && !b.isPass && a.WellFormed() && b.WellFormed()
    requires 0 <= a.row.value < 8 && 0 <= a.col.value < 8
    requires 0 <= b.row.value < 8 && 0 <= b.col.value < 8
    requires ToIndex(a) == ToIndex(b)
    ensures a == b
  {
    FromToIndex(a.row.value, a.col.value);
    FromToIndex(b.row.value, b.col.value);
  }

  /** The generator's pass and `pass_action()` share index 64 but are
      different values, because equality compares all three fields. */
  lemma TwoPasses()
    ensures GeneratedPass() != PassAction()
    ensures ToIndex(GeneratedPass()) == ToIndex(PassAction()) == 64
    ensures FromIndex(64) == PassAction()
  {
  }

  /** Out-of-range indices decode to off-board placements, e.g. 65 to (8, 1). */
  lemma FromIndexNoRangeCheck()
    ensures FromIndex(65) == Place(8, 1)
    ensures FromIndex(-1) == Place(-1, 7)
  {
  }
}
