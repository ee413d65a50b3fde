/** Properties of the rules engine: the shape of the list of valid actions,
    the agreement between the two legality tests, the effects and the error
    cases of apply_action, conservation of discs, and get_reward. */
module OthelloRules {
  import opened Wrappers
  import opened Board
  import opened OthelloAction
  import opened OthelloState

  // ---------------------------------------------------------------------
  // The list of valid actions

  /** PlacementsIn lists exactly the set cells of lo .. hi-1, as on-board
      placements, in strictly increasing index order. */
  lemma {:induction false} PlacementsInFacts(m: Mask, lo: nat, hi: nat)
    requires lo <= hi <= 64
    decreases hi - lo
    ensures forall i :: 0 <= i < |PlacementsIn(m, lo, hi)| ==>
      var x := PlacementsIn(m, lo, hi)[i];
      x.WellFormed() && !x.isPass && lo <= ToIndex(x) < hi
      && OnBoard(x.row.value, x.col.value) && m[x.row.value][x.col.value]
    ensures forall r, c :: OnBoard(r, c) && lo <= r * 8 + c < hi && m[r][c] ==> Place(r, c) in PlacementsIn(m, lo, hi)
    ensures forall i, j :: 0 <= i < j < |PlacementsIn(m, lo, hi)| ==>
      ToIndex(PlacementsIn(m, lo, hi)[i]) < ToIndex(PlacementsIn(m, lo, hi)[j])
  {
    if lo < hi {
      PlacementsInFacts(m, lo + 1, hi);
      var rest := PlacementsIn(m, lo + 1, hi);
      var head := if Flat(m, lo) then [Place(lo / 8, lo % 8)] else [];
      assert PlacementsIn(m, lo, hi) == head + rest;
      forall r, c | OnBoard(r, c) && lo <= r * 8 + c < hi && m[r][c]
        ensures Place(r, c) in PlacementsIn(m, lo, hi)
      {
        FlatOf(r, c);
        if r * 8 + c == lo {
          assert head == [Place(r, c)];
        } else {
          assert Place(r, c) in rest;
        }
      }
    }
  }

  /** The listing of lo .. hi-1 is the listing of lo .. mid-1 followed by
      that of mid .. hi-1. */
  lemma {:induction false} PlacementsInSplit(m: Mask, lo: nat, mid: nat, hi: nat)
    requires lo <= mid <= hi <= 64
    decreases mid - lo
    ensures PlacementsIn(m, lo, hi) == PlacementsIn(m, lo, mid) + PlacementsIn(m, mid, hi)
  {
    if lo < mid {
      PlacementsInSplit(m, lo + 1, mid, hi);
    }
  }

  /** A range without set cells lists nothing. */
  lemma {:induction false} PlacementsInNone(m: Mask, lo: nat, hi: nat)
    requires lo <= hi <= 64
    requires forall f :: lo <= f < hi ==> !Flat(m, f)
    decreases hi - lo
    ensures PlacementsIn(m, lo, hi) == []
  {
    if lo < hi {
      PlacementsInNone(m, lo + 1, hi);
    }
  }

  /** With no set cell before mid and mid set, the listing from lo starts
      with mid's placement. */
  lemma PlacementsInNext(m: Mask, lo: nat, mid: nat, hi: nat, rest: seq<Action>)
    requires lo <= mid < hi <= 64
    requires forall f :: lo <= f < mid ==> !Flat(m, f)
    requires Flat(m, mid) && PlacementsIn(m, mid + 1, hi) == rest
    ensures PlacementsIn(m, lo, hi) == [Place(mid / 8, mid % 8)] + rest
  {
    PlacementsInNone(m, lo, mid);
    PlacementsInSplit(m, lo, mid, hi);
  }

  /** A placement appears in ArgWhere(m) exactly when it is on the board
      and its cell is set. */
  lemma ArgWhereMember(m: Mask, a: Action)
    requires !a.isPass
    ensures a in ArgWhere(m) <==>
      a.row.Some? && a.col.Some? && OnBoard(a.row.value, a.col.value) && m[a.row.value][a.col.value]
  {
    PlacementsInFacts(m, 0, 64);
    if a.row.Some? && a.col.Some? && OnBoard(a.row.value, a.col.value) && m[a.row.value][a.col.value] {
      FlatOf(a.row.value, a.col.value);
      assert a == Place(a.row.value, a.col.value);
    }
  }

  /** get_valid_actions lists a placement exactly when it is legal by the
      ray definition. */
  lemma ValidPlacement(s: State, a: Action)
    requires !a.isPass
    ensures a in ValidActions(s) <==>
      a.row.Some? && a.col.Some? && Legal(s.board, s.player, a.row.value, a.col.value)
  {
    ArgWhereMember(LegalMask(s), a);
  }

  /** ArgWhere(m) is empty exactly when no cell of m is set. */
  lemma ArgWhereEmpty(m: Mask)
    ensures ArgWhere(m) == [] <==> forall r, c :: OnBoard(r, c) ==> !m[r][c]
  {
    if ArgWhere(m) == [] {
      forall r, c | OnBoard(r, c) ensures !m[r][c] {
        ArgWhereMember(m, Place(r, c));
      }
    } else {
      var x := ArgWhere(m)[0];
      ArgWhereOrdered(m);
      ArgWhereMember(m, x);
    }
  }

  /** ArgWhere(m) holds placements only, in strictly increasing row-major
      order. */
  lemma ArgWhereOrdered(m: Mask)
    ensures forall i :: 0 <= i < |ArgWhere(m)| ==> !ArgWhere(m)[i].isPass && ArgWhere(m)[i].WellFormed()
    ensures forall i, j :: 0 <= i < j < |ArgWhere(m)| ==> ToIndex(ArgWhere(m)[i]) < ToIndex(ArgWhere(m)[j])
  {
    PlacementsInFacts(m, 0, 64);
  }

  /** The list is never empty, and it is the single generated pass exactly
      when no cell is legal. */
  lemma ValidActionsPass(s: State)
    ensures |ValidActions(s)| >= 1
    ensures ValidActions(s) == [GeneratedPass()] <==> forall r, c :: !Legal(s.board, s.player, r, c)
  {
    var m := LegalMask(s);
    ArgWhereEmpty(m);
    ArgWhereOrdered(m);
    if ArgWhere(m) != [] {
      assert !ArgWhere(m)[0].isPass;
    }
    assert (forall r, c :: OnBoard(r, c) ==> !m[r][c]) <==> (forall r, c :: !Legal(s.board, s.player, r, c));
  }

  /** Without the pass, the list holds placements in strictly increasing
      row-major order; in every case it has no duplicates. */
  lemma ValidActionsOrdered(s: State)
    ensures ValidActions(s) != [GeneratedPass()] ==>
      forall i :: 0 <= i < |ValidActions(s)| ==> !ValidActions(s)[i].isPass && ValidActions(s)[i].WellFormed()
    ensures ValidActions(s) != [GeneratedPass()] ==>
      forall i, j :: 0 <= i < j < |ValidActions(s)| ==> ToIndex(ValidActions(s)[i]) < ToIndex(ValidActions(s)[j])
    ensures forall i, j :: 0 <= i < j < |ValidActions(s)| ==> ValidActions(s)[i] != ValidActions(s)[j]
  {
    ArgWhereOrdered(LegalMask(s));
  }

  /** The listed actions are pairwise different. */
  lemma ValidActionsDistinct(s: State)
    ensures forall i, j :: 0 <= i < j < |ValidActions(s)| ==> ValidActions(s)[i] != ValidActions(s)[j]
  {
    ValidActionsOrdered(s);
  }

  // ---------------------------------------------------------------------
  // The two legality tests agree

  /** The cell next to the target starts every flanked run. */
  lemma FlankFlipsFirst(b: Grid, p: int, r: int, c: int, e: int, m: int)
    requires 0 <= e < 8 && FlankAt(b, p, r, c, Directions[e].0, Directions[e].1, m)
    ensures Flipped(b, p, r, c, RayCell(r, c, Directions[e].0, Directions[e].1, 1).0,
                                RayCell(r, c, Directions[e].0, Directions[e].1, 1).1)
  {
    var (dr, dc) := Directions[e];
    var cell := RayCell(r, c, dr, dc, 1);
    assert OnRun(b, p, r, c, dr, dc, cell.0, cell.1);
  }

  /** Every flipped cell held an opponent disc, lies on the board and is
      not the target. */
  lemma FlippedCell(b: Grid, p: int, r: int, c: int, i: int, j: int)
    requires p != 0 && Flipped(b, p, r, c, i, j)
    ensures OnBoard(i, j) && b[i][j] == -p && (i, j) != (r, c)
  {
    var e :| 0 <= e < 8 && OnRun(b, p, r, c, Directions[e].0, Directions[e].1, i, j);
    DirectionFacts(e);
    var (dr, dc) := Directions[e];
    var k, m :| 1 <= k < m && FlankAt(b, p, r, c, dr, dc, m) && RayCell(r, c, dr, dc, k) == (i, j);
    assert Ray(b, r, c, dr, dc, k) == -p;
    RayCellNotOrigin(r, c, dr, dc, k);
  }

  /** A legal placement flips at least one disc. */
  lemma LegalFlips(b: Grid, p: int, r: int, c: int)
    requires p != 0 && Legal(b, p, r, c)
    ensures MaskCount(FlipMask(b, p, r, c)) >= 1
  {
    var fm := FlipMask(b, p, r, c);
    var e, m :| 0 <= e < 8 && FlankAt(b, p, r, c, Directions[e].0, Directions[e].1, m);
    FlankFlipsFirst(b, p, r, c, e, m);
    var cell := RayCell(r, c, Directions[e].0, Directions[e].1, 1);
    FlippedCell(b, p, r, c, cell.0, cell.1);
    FlatOf(cell.0, cell.1);
    MaskCountPositive(fm, cell.0 * 8 + cell.1, 64);
  }

  /** A placement on an empty cell that flips a disc is legal. */
  lemma FlipsLegal(b: Grid, p: int, r: int, c: int)
    requires OnBoard(r, c) && b[r][c] == 0
    requires MaskCount(FlipMask(b, p, r, c)) >= 1
    ensures Legal(b, p, r, c)
  {
    var fm := FlipMask(b, p, r, c);
    MaskCountWitness(fm, 64);
    var f :| 0 <= f < 64 && Flat(fm, f);
    assert Flipped(b, p, r, c, f / 8, f % 8);
    var e :| 0 <= e < 8 && OnRun(b, p, r, c, Directions[e].0, Directions[e].1, f / 8, f % 8);
    var k, m :| 1 <= k < m && FlankAt(b, p, r, c, Directions[e].0, Directions[e].1, m)
                && RayCell(r, c, Directions[e].0, Directions[e].1, k) == (f / 8, f % 8);
  }

  /** The vectorised test of get_valid_actions and the ray walk of
      apply_action agree: an empty on-board cell is listed exactly when
      the walk from it flips at least one disc. */
  lemma LegalIffFlips(s: State, r: int, c: int)
    requires OnBoard(r, c) && s.board[r][c] == 0
    ensures Place(r, c) in ValidActions(s) <==> MaskCount(FlipMask(s.board, s.player, r, c)) >= 1
  {
    ValidPlacement(s, Place(r, c));
    if Legal(s.board, s.player, r, c) {
      LegalFlips(s.board, s.player, r, c);
    }
    if MaskCount(FlipMask(s.board, s.player, r, c)) >= 1 {
      FlipsLegal(s.board, s.player, r, c);
    }
  }

  // ---------------------------------------------------------------------
  // apply_action: passes

  /** A pass keeps the board, hands the move over and counts one more
      pass, whatever the state; two passes in a row end the game and give
      the move back to the first player. */
  lemma TwoPassesEnd(s: State, a1: Action, a2: Action)
    requires a1.isPass && a2.isPass
    ensures Apply(s, a1).Ok?
    ensures Apply(s, a1).value.board == s.board
    ensures Apply(s, a1).value.player == Opponent(s.player)
    ensures Apply(s, a1).value.passes == s.passes + 1
    ensures Apply(Apply(s, a1).value, a2).Ok?
    ensures IsTerminal(Apply(Apply(s, a1).value, a2).value)
    ensures Apply(Apply(s, a1).value, a2).value.player == s.player
  {
  }

  /** One pass after a placement does not end the game. */
  lemma OnePassNotTerminal(s: State, a: Action)
    requires a.isPass && s.passes == 0
    ensures !IsTerminal(Apply(s, a).value)
  {
  }

  // ---------------------------------------------------------------------
  // apply_action: placements

  /** The error cases of a placement, each exactly characterised, and
      success exactly for a legal placement.  The range test looks at the
      row before the column, so a missing column is only reported for an
      on-board row, and an off-board row is reported whatever the column. */
  lemma PlacementOutcome(s: State, a: Action)
    requires !a.isPass
    ensures Apply(s, a) == Err(MissingCoordinate) <==>
      a.row.None? || (0 <= a.row.value < 8 && a.col.None?)
    ensures Apply(s, a) == Err(OutOfBounds) <==>
      a.row.Some? && (!(0 <= a.row.value < 8) || (a.col.Some? && !OnBoard(a.row.value, a.col.value)))
    ensures Apply(s, a) == Err(NotEmpty) <==>
      a.row.Some? && a.col.Some? && OnBoard(a.row.value, a.col.value) && s.board[a.row.value][a.col.value] != 0
    ensures Apply(s, a) == Err(NotValidMove) <==>
      a.row.Some? && a.col.Some? && OnBoard(a.row.value, a.col.value) && s.board[a.row.value][a.col.value] == 0
      && !Legal(s.board, s.player, a.row.value, a.col.value)
    ensures Apply(s, a).Ok? <==> a.row.Some? && a.col.Some? && Legal(s.board, s.player, a.row.value, a.col.value)
  {
    ValidPlacement(s, a);
  }

  /** The order of the range test on concrete actions: an off-board row
      is out of bounds even with no column, a missing column under an
      on-board row is a missing coordinate, and a missing row is one
      whatever the column. */
  lemma RangeCheckOrder(s: State)
    ensures Apply(s, Action(Some(9), None, false)) == Err(OutOfBounds)
    ensures Apply(s, Action(Some(-1), None, false)) == Err(OutOfBounds)
    ensures Apply(s, Action(Some(3), None, false)) == Err(MissingCoordinate)
    ensures Apply(s, Action(None, Some(9), false)) == Err(MissingCoordinate)
    ensures Apply(s, Action(Some(3), Some(8), false)) == Err(OutOfBounds)
  {
  }

  /** A state is terminal exactly after two passes in a row: an applied
      placement never ends the game, and an applied pass ends it exactly
      when the previous move was a pass too. */
  lemma TerminalByPasses(s: State, a: Action)
    requires Apply(s, a).Ok?
    ensures IsTerminal(Apply(s, a).value) <==> a.isPass && s.passes >= 1
    ensures !a.isPass ==> Apply(s, a).value.passes == 0
  {
  }

  /** A legal placement succeeds, with the board PlaceBoard describes, the
      move passed to the opponent and the pass count reset. */
  lemma ApplyLegal(s: State, r: int, c: int)
    requires Legal(s.board, s.player, r, c)
    ensures Apply(s, Place(r, c)) == Ok(State(PlaceBoard(s.board, s.player, r, c), Opponent(s.player), 0))
  {
    ValidPlacement(s, Place(r, c));
  }

  /** The board after a legal placement: the target takes the mover's
      colour, every flipped cell was an opponent disc and now holds the
      mover's, every other cell is unchanged, and all cells stay in
      {-1, 0, 1}. */
  lemma PlacementEffects(b: Grid, p: Player, r: int, c: int)
    requires Legal(b, p, r, c)
    ensures PlaceBoard(b, p, r, c)[r][c] == p
    ensures forall i, j :: 0 <= i < 8 && 0 <= j < 8 && Flipped(b, p, r, c, i, j) ==>
      b[i][j] == -(p as int) && PlaceBoard(b, p, r, c)[i][j] == p
    ensures forall i, j :: 0 <= i < 8 && 0 <= j < 8 && (i, j) != (r, c) && !Flipped(b, p, r, c, i, j) ==>
      PlaceBoard(b, p, r, c)[i][j] == b[i][j]
    ensures Discs(b) ==> Discs(PlaceBoard(b, p, r, c))
  {
    forall i, j | 0 <= i < 8 && 0 <= j < 8 && Flipped(b, p, r, c, i, j)
      ensures b[i][j] == -(p as int)
    {
      FlippedCell(b, p, r, c, i, j);
    }
  }

  /** PlaceBoard in row-major form: the premises of CountAfterPlacement. */
  lemma PlaceBoardFlat(b: Grid, p: Player, r: int, c: int)
    requires OnBoard(r, c) && b[r][c] == 0
    ensures var t := r * 8 + c;
      var fm := FlipMask(b, p, r, c);
      var b' := PlaceBoard(b, p, r, c);
      0 <= t < 64 && Flat(b, t) == 0 && Flat(b', t) == p && !Flat(fm, t)
      && (forall f :: 0 <= f < 64 && f != t && Flat(fm, f) ==> Flat(b, f) == -(p as int) && Flat(b', f) == p)
      && (forall f :: 0 <= f < 64 && f != t && !Flat(fm, f) ==> Flat(b', f) == Flat(b, f))
  {
    var t := r * 8 + c;
    var fm := FlipMask(b, p, r, c);
    var b' := PlaceBoard(b, p, r, c);
    FlatOf(r, c);
    forall f | 0 <= f < 64 && f != t
      ensures Flat(fm, f) ==> Flat(b, f) == -(p as int) && Flat(b', f) == p
      ensures !Flat(fm, f) ==> Flat(b', f) == Flat(b, f)
    {
      PlaceFlatCell(b, p, r, c, f);
    }
    assert !Flat(fm, t) by {
      if Flipped(b, p, r, c, r, c) {
        FlippedCell(b, p, r, c, r, c);
      }
    }
  }

  /** PlaceBoardFlat at one cell other than the target. */
  lemma PlaceFlatCell(b: Grid, p: Player, r: int, c: int, f: int)
    requires OnBoard(r, c) && 0 <= f < 64 && f != r * 8 + c
    ensures Flat(FlipMask(b, p, r, c), f) ==> Flat(b, f) == -(p as int) && Flat(PlaceBoard(b, p, r, c), f) == p
    ensures !Flat(FlipMask(b, p, r, c), f) ==> Flat(PlaceBoard(b, p, r, c), f) == Flat(b, f)
  {
    var i, j := f / 8, f % 8;
    assert 0 <= i < 8 && 0 <= j < 8 && f == i * 8 + j;
    assert (i, j) != (r, c);
    if Flipped(b, p, r, c, i, j) {
      FlippedCell(b, p, r, c, i, j);
    }
  }

  /** Conservation of discs: a legal placement flips k >= 1 discs, the
      mover's count rises by 1 + k, the opponent's falls by k, and the
      number of discs on the board rises by exactly one. */
  lemma PlacementCounts(b: Grid, p: Player, r: int, c: int)
    requires Legal(b, p, r, c)
    ensures var k := MaskCount(FlipMask(b, p, r, c));
      var b' := PlaceBoard(b, p, r, c);
      k >= 1
      && Count(b', p) == Count(b, p) + 1 + k
      && Count(b', -(p as int)) == Count(b, -(p as int)) - k
      && Count(b', p) + Count(b', -(p as int)) == Count(b, p) + Count(b, -(p as int)) + 1
  {
    LegalFlips(b, p, r, c);
    PlaceBoardFlat(b, p, r, c);
    CountAfterPlacement(b, PlaceBoard(b, p, r, c), FlipMask(b, p, r, c), r * 8 + c, p, 64);
  }

  /** Every action get_valid_actions lists can be applied, and the result
      keeps every cell in {-1, 0, 1}. */
  lemma ValidActionApplies(s: State, a: Action)
    requires a in ValidActions(s)
    ensures Apply(s, a).Ok?
    ensures Discs(s.board) ==> Discs(Apply(s, a).value.board)
  {
    if !a.isPass {
      ValidPlacement(s, a);
      ApplyLegal(s, a.row.value, a.col.value);
      assert a == Place(a.row.value, a.col.value);
      PlacementEffects(s.board, s.player, a.row.value, a.col.value);
    }
  }

  /** Every listed action has an index into the 65-slot policy. */
  lemma ValidActionIndex(s: State, a: Action)
    requires a in ValidActions(s)
    ensures a.WellFormed() && 0 <= ToIndex(a) <= 64
  {
    if !a.isPass {
      ValidPlacement(s, a);
    }
  }

  /** The state a listed action leads to. */
  ghost function Successor(s: State, a: Action): State
    requires a in ValidActions(s)
  {
    ValidActionApplies(s, a);
    Apply(s, a).value
  }

  // ---------------------------------------------------------------------
  // get_reward

  /** Exchanging the colours of every disc negates the reward and keeps
      whether the reward is defined. */
  lemma RewardColourSwap(s: State, s': State)
    requires s'.passes == s.passes
    requires forall i, j :: 0 <= i < 8 && 0 <= j < 8 ==> s'.board[i][j] == -s.board[i][j]
    ensures GetReward(s').Ok? == GetReward(s).Ok?
    ensures GetReward(s).Ok? ==> GetReward(s').value == -GetReward(s).value
  {
    forall f | 0 <= f < 64 ensures Flat(s'.board, f) == -Flat(s.board, f) {
      assert 0 <= f / 8 < 8 && 0 <= f % 8 < 8;
    }
    CountNegated(s.board, s'.board, 1, 64);
    CountNegated(s.board, s'.board, -1, 64);
  }
}
