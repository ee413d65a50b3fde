/** OthelloState: the rules engine.  A state is a board, the player to move
    (1 or -1) and the number of consecutive passes; every transition returns
    a fresh state.  Legality is specified by walking rays from the target
    cell (FlankAt), and the two algorithms of the source are proved against
    that definition: the shifted-mask ray cast of get_valid_actions
    (GetValidActions) and the ray walk with a flip mask of apply_action
    (ApplyAction). */
module OthelloState {
  import opened Wrappers
  import opened Board
  import opened OthelloAction

  type Player = p: int | p == 1 || p == -1 witness 1

  /** OthelloState(board, current_player, passes); the board is a value, so
      the copy the constructor makes is implicit. */
  datatype State = State(board: Grid, player: Player, passes: nat)

  /** `-current_player`. */
  function Opponent(p: Player): Player {
    -(p as int)
  }

  /** OthelloState.DIRECTIONS, in the source's order. */
  const Directions: seq<(int, int)> :=
    [(-1, -1), (-1, 0), (-1, 1), (0, -1), (0, 1), (1, -1), (1, 0), (1, 1)]

  /** Each direction is a unit step other than (0, 0), and the list is
      closed under negation: entry 7 - e is the opposite of entry e. */
  lemma DirectionFacts(e: int)
    requires 0 <= e < 8
    ensures |Directions| == 8
    ensures -1 <= Directions[e].0 <= 1 && -1 <= Directions[e].1 <= 1
    ensures Directions[e] != (0, 0)
    ensures Directions[7 - e] == (-Directions[e].0, -Directions[e].1)
  {
    if e == 0 {} else if e == 1 {} else if e == 2 {} else if e == 3 {}
    else if e == 4 {} else if e == 5 {} else if e == 6 {} else {}
  }

  predicate UnitStep(dr: int, dc: int) {
    -1 <= dr <= 1 && -1 <= dc <= 1 && (dr, dc) != (0, 0)
  }

  // ---------------------------------------------------------------------
  // Initial position and simple queries

  function InitialBoard(): Grid {
    seq(8, i requires 0 <= i < 8 => seq(8, j requires 0 <= j < 8 =>
      if (i == 3 && j == 3) || (i == 4 && j == 4) then -1
      else if (i == 3 && j == 4) || (i == 4 && j == 3) then 1
      else 0))
  }

  /** OthelloState.get_initial_state: -1 on (3,3) and (4,4), 1 on (3,4) and
      (4,3), every other cell empty, player 1 to move, no passes. */
  function GetInitialState(): (s: State)
    ensures s.board[3][3] == -1 && s.board[4][4] == -1
    ensures s.board[3][4] == 1 && s.board[4][3] == 1
    ensures forall i, j :: 0 <= i < 8 && 0 <= j < 8 && !(3 <= i <= 4 && 3 <= j <= 4) ==> s.board[i][j] == 0
    ensures s.player == 1 && s.passes == 0
    ensures Discs(s.board)
  {
    State(InitialBoard(), 1, 0)
  }

  /** get_current_player: always 1 or -1. */
  function GetCurrentPlayer(s: State): (p: int)
    ensures p == 1 || p == -1
    ensures p == s.player
  {
    s.player
  }

  /** is_terminal: two (or more) consecutive passes.  A full board is not
      terminal by itself. */
  predicate IsTerminal(s: State) {
    s.passes >= 2
  }

  /** get_reward: an error before the game is over; then 1, -1 or 0 as
      player 1 has more, fewer or as many discs as player -1. */
  function GetReward(s: State): (r: Result<real>)
    ensures r.Err? <==> !IsTerminal(s)
    ensures r.Err? ==> r.error == NotTerminal
    ensures r.Ok? ==> (r.value == 1.0 <==> Count(s.board, 1) > Count(s.board, -1))
    ensures r.Ok? ==> (r.value == -1.0 <==> Count(s.board, 1) < Count(s.board, -1))
    ensures r.Ok? ==> (r.value == 0.0 <==> Count(s.board, 1) == Count(s.board, -1))
  {
    if !IsTerminal(s) then Err(NotTerminal)
    else
      var black := Count(s.board, 1);
      var white := Count(s.board, -1);
      if black > white then Ok(1.0)
      else if black < white then Ok(-1.0)
      else Ok(0.0)
  }

  // ---------------------------------------------------------------------
  // Rays and the legality specification

  /** The cell k steps from (r, c) in direction (dr, dc). */
  function RayCell(r: int, c: int, dr: int, dc: int, k: int): (int, int) {
    (r + k * dr, c + k * dc)
  }

  /** The contents of that cell, 0 when it is off the board. */
  function Ray(b: Grid, r: int, c: int, dr: int, dc: int, k: int): int {
    At(b, r + k * dr, c + k * dc)
  }

  /** From (r, c) in direction (dr, dc): cells 1 .. m-1 hold opponent discs
      (at least one) and cell m holds a disc of the mover p. */
  predicate FlankAt(b: Grid, p: int, r: int, c: int, dr: int, dc: int, m: int) {
    2 <= m
    && (forall k :: 1 <= k < m ==> Ray(b, r, c, dr, dc, k) == -p)
    && Ray(b, r, c, dr, dc, m) == p
  }

  /** A legal placement: an empty on-board cell from which some direction
      crosses one or more opponent discs and then reaches a mover disc. */
  ghost predicate Legal(b: Grid, p: int, r: int, c: int) {
    OnBoard(r, c) && b[r][c] == 0
    && exists e, m :: 0 <= e < 8 && FlankAt(b, p, r, c, Directions[e].0, Directions[e].1, m)
  }

  ghost function LegalMask(s: State): (m: Mask)
    ensures forall i, j :: 0 <= i < 8 && 0 <= j < 8 ==> m[i][j] == Legal(s.board, s.player, i, j)
  {
    seq(8, i requires 0 <= i < 8 => seq(8, j requires 0 <= j < 8 => Legal(s.board, s.player, i, j)))
  }

  /** `[OthelloAction(r, c) for r, c in np.argwhere(m)]` restricted to the
      row-major indices lo .. hi-1. */
  function PlacementsIn(m: Mask, lo: nat, hi: nat): seq<Action>
    requires lo <= hi <= 64
    decreases hi - lo
  {
    if lo == hi then []
    else (if Flat(m, lo) then [Place(lo / 8, lo % 8)] else []) + PlacementsIn(m, lo + 1, hi)
  }

  /** `np.argwhere(m)` over all |m| * 8 = 64 cells. */
  function ArgWhere(m: Mask): seq<Action> {
    PlacementsIn(m, 0, |m| * 8)
  }

  /** get_valid_actions, specified: the legal placements in row-major order,
      or the single generated pass (-1, -1, True) when there is none. */
  ghost function ValidActions(s: State): seq<Action> {
    var ps := ArgWhere(LegalMask(s));
    if ps == [] then [GeneratedPass()] else ps
  }

  // ---------------------------------------------------------------------
  // Geometry of rays

  lemma RayBound(r: int, c: int, dr: int, dc: int, k: int)
    requires OnBoard(r, c) && UnitStep(dr, dc) && 0 <= k
    requires OnBoard(r + k * dr, c + k * dc)
    ensures k <= 7
  {
    if dr == 1 {} else if dr == -1 {} else if dc == 1 {} else {}
  }

  lemma RayCellNotOrigin(r: int, c: int, dr: int, dc: int, k: int)
    requires UnitStep(dr, dc) && 1 <= k
    ensures RayCell(r, c, dr, dc, k) != (r, c)
  {
    if dr == 1 {} else if dr == -1 {} else if dc == 1 {} else {}
  }

  /** Six shifts after the first suffice: a flanking run on an 8x8 board
      ends at most 7 cells away. */
  lemma FlankBound(b: Grid, p: int, r: int, c: int, dr: int, dc: int, m: int)
    requires p != 0 && OnBoard(r, c) && UnitStep(dr, dc) && FlankAt(b, p, r, c, dr, dc, m)
    ensures m <= 7
  {
    assert Ray(b, r, c, dr, dc, m) == p;
    RayBound(r, c, dr, dc, m);
  }

  /** A run ends at most once: two flanking ends in one direction coincide. */
  lemma FlankUnique(b: Grid, p: int, r: int, c: int, dr: int, dc: int, m: int, m': int)
    requires p != 0
    requires FlankAt(b, p, r, c, dr, dc, m) && FlankAt(b, p, r, c, dr, dc, m')
    ensures m == m'
  {
  }

  /** The walk stops at distance j without a flank when every earlier cell
      is an opponent disc and cell j is not one, unless cell j is a mover
      disc at distance at least 2. */
  lemma NoFlankAfterStop(b: Grid, p: int, r: int, c: int, dr: int, dc: int, j: int)
    requires p != 0 && 1 <= j
    requires forall k :: 1 <= k < j ==> Ray(b, r, c, dr, dc, k) == -p
    requires Ray(b, r, c, dr, dc, j) != -p
    requires j == 1 || Ray(b, r, c, dr, dc, j) != p
    ensures forall m :: !FlankAt(b, p, r, c, dr, dc, m)
  {
  }

  // ---------------------------------------------------------------------
  // get_valid_actions

  /** The per-direction test of get_valid_actions: a run ending at
      k = 2 .. 7 along the ray (dr, dc).  The source's shift (dx, dy) looks
      along the ray (-dx, -dy). */
  ghost predicate VecFlank(b: Grid, p: int, i: int, j: int, dr: int, dc: int) {
    exists m :: 2 <= m <= 7 && FlankAt(b, p, i, j, dr, dc, m)
  }

  /** The shifted-mask test over all eight directions agrees with the ray
      definition of legality. */
  lemma VecLegal(b: Grid, p: int, i: int, j: int)
    requires p != 0 && OnBoard(i, j)
    ensures (b[i][j] == 0 && exists e :: 0 <= e < 8 && VecFlank(b, p, i, j, -Directions[e].0, -Directions[e].1))
            <==> Legal(b, p, i, j)
  {
    if b[i][j] == 0 && exists e :: 0 <= e < 8 && VecFlank(b, p, i, j, -Directions[e].0, -Directions[e].1) {
      var e :| 0 <= e < 8 && VecFlank(b, p, i, j, -Directions[e].0, -Directions[e].1);
      DirectionFacts(e);
      var m :| 2 <= m <= 7 && FlankAt(b, p, i, j, -Directions[e].0, -Directions[e].1, m);
      assert FlankAt(b, p, i, j, Directions[7 - e].0, Directions[7 - e].1, m);
    }
    if Legal(b, p, i, j) {
      var e, m :| 0 <= e < 8 && FlankAt(b, p, i, j, Directions[e].0, Directions[e].1, m);
      DirectionFacts(e);
      FlankBound(b, p, i, j, Directions[e].0, Directions[e].1, m);
      var e' := 7 - e;
      DirectionFacts(e');
      assert VecFlank(b, p, i, j, -Directions[e'].0, -Directions[e'].1);
    }
  }

  /** One more shift by (-dr, -dc) moves every ray (dr, dc) one step further. */
  lemma ShiftStep(b: Grid, g: Grid, h: Grid, dr: int, dc: int, t: int)
    requires UnitStep(dr, dc) && 1 <= t
    requires forall i, j :: 0 <= i < 8 && 0 <= j < 8 ==> g[i][j] == Ray(b, i, j, dr, dc, t)
    requires forall i, j :: 0 <= i < 8 && 0 <= j < 8 ==> h[i][j] == At(g, i + dr, j + dc)
    ensures forall i, j :: 0 <= i < 8 && 0 <= j < 8 ==> h[i][j] == Ray(b, i, j, dr, dc, t + 1)
  {
    forall i, j | 0 <= i < 8 && 0 <= j < 8
      ensures h[i][j] == Ray(b, i, j, dr, dc, t + 1)
    {
      assert i + dr + t * dr == i + (t + 1) * dr;
      assert j + dc + t * dc == j + (t + 1) * dc;
      if !OnBoard(i + dr, j + dc) {
        if dr == 1 {} else if dr == -1 {}
        if dc == 1 {} else if dc == -1 {}
        assert !OnBoard(i + (t + 1) * dr, j + (t + 1) * dc);
      }
    }
  }

  /** The state of one direction's scan after t + 1 shifts: `shifted`
      holds the cells t + 1 steps along the ray, `candidates` the empty
      cells whose first t + 1 ray cells are opponent discs, and `validDir`
      the empty cells with a flanking run ending within t + 1 steps. */
  ghost predicate ScanState(b: Grid, p: int, dr: int, dc: int, t: int, shifted: Grid, candidates: Mask, validDir: Mask) {
    forall i, j :: 0 <= i < 8 && 0 <= j < 8 ==>
      ScanCell(b, p, dr, dc, t, i, j, shifted[i][j], candidates[i][j], validDir[i][j])
  }

  /** ScanState at the single cell (i, j). */
  ghost predicate ScanCell(b: Grid, p: int, dr: int, dc: int, t: int, i: int, j: int, sh: int, cand: bool, vd: bool) {
    && OnBoard(i, j)
    && sh == Ray(b, i, j, dr, dc, t + 1)
    && cand == (b[i][j] == 0 && forall k :: 1 <= k <= t + 1 ==> Ray(b, i, j, dr, dc, k) == -p)
    && vd == (b[i][j] == 0 && exists m :: 2 <= m <= t + 1 && FlankAt(b, p, i, j, dr, dc, m))
  }

  /** The first shift starts the scan. */
  lemma ScanStart(b: Grid, p: int, dr: int, dc: int, shifted: Grid)
    requires forall i, j :: 0 <= i < 8 && 0 <= j < 8 ==> shifted[i][j] == At(b, i + dr, j + dc)
    ensures ScanState(b, p, dr, dc, 0, shifted, And(EqMask(b, 0), EqMask(shifted, -p)), NoCells())
  {
    var candidates := And(EqMask(b, 0), EqMask(shifted, -p));
    forall i, j | 0 <= i < 8 && 0 <= j < 8
      ensures shifted[i][j] == Ray(b, i, j, dr, dc, 1)
      ensures candidates[i][j] == (b[i][j] == 0 && forall k :: 1 <= k <= 1 ==> Ray(b, i, j, dr, dc, k) == -p)
    {
      assert Ray(b, i, j, dr, dc, 1) == At(b, i + dr, j + dc);
    }
  }

  /** One round of the inner loop at a single cell: `cand` and `vd` are the
      candidate and accepted bits after t + 1 shifts, `nxt` the cell t + 2
      steps along the ray. */
  lemma ScanCellRound(b: Grid, p: int, i: int, j: int, dr: int, dc: int, t: int, sh: int, cand: bool, vd: bool, nxt: int)
    requires 0 <= t && ScanCell(b, p, dr, dc, t, i, j, sh, cand, vd)
    requires nxt == Ray(b, i, j, dr, dc, t + 2)
    ensures ScanCell(b, p, dr, dc, t + 1, i, j, nxt, cand && nxt == -p, vd || (cand && nxt == p))
  {
    if b[i][j] == 0 && exists m :: 2 <= m <= t + 2 && FlankAt(b, p, i, j, dr, dc, m) {
      var m :| 2 <= m <= t + 2 && FlankAt(b, p, i, j, dr, dc, m);
      if m == t + 2 {
        assert cand && nxt == p;
      } else {
        assert vd;
      }
    }
    if cand && nxt == p {
      assert FlankAt(b, p, i, j, dr, dc, t + 2);
    }
  }

  /** One round of the inner loop of get_valid_actions keeps the scan state. */
  lemma ScanRound(b: Grid, p: int, dr: int, dc: int, t: int, shifted: Grid, candidates: Mask, validDir: Mask, next: Grid)
    requires UnitStep(dr, dc) && 0 <= t
    requires ScanState(b, p, dr, dc, t, shifted, candidates, validDir)
    requires forall i, j :: 0 <= i < 8 && 0 <= j < 8 ==> next[i][j] == At(shifted, i + dr, j + dc)
    ensures ScanState(b, p, dr, dc, t + 1, next,
                      And(candidates, EqMask(next, -p)),
                      Or(validDir, And(candidates, EqMask(next, p))))
  {
    var candidates' := And(candidates, EqMask(next, -p));
    var validDir' := Or(validDir, And(candidates, EqMask(next, p)));
    assert forall i, j :: 0 <= i < 8 && 0 <= j < 8 ==> shifted[i][j] == Ray(b, i, j, dr, dc, t + 1);
    ShiftStep(b, shifted, next, dr, dc, t + 1);
    forall i, j | 0 <= i < 8 && 0 <= j < 8
      ensures ScanCell(b, p, dr, dc, t + 1, i, j, next[i][j], candidates'[i][j], validDir'[i][j])
    {
      assert candidates'[i][j] == (candidates[i][j] && next[i][j] == -p);
      assert validDir'[i][j] == (validDir[i][j] || (candidates[i][j] && next[i][j] == p));
      ScanCellRound(b, p, i, j, dr, dc, t, shifted[i][j], candidates[i][j], validDir[i][j], next[i][j]);
    }
  }

  /** The accumulated mask after the first d directions. */
  ghost predicate MovesState(b: Grid, p: int, d: int, validMoves: Mask)
    requires 0 <= d <= 8
  {
    forall i, j :: 0 <= i < 8 && 0 <= j < 8 ==>
      validMoves[i][j] == (b[i][j] == 0 && exists e :: 0 <= e < d && VecFlank(b, p, i, j, -Directions[e].0, -Directions[e].1))
  }

  /** Or-ing in the finished scan of direction d extends the mask to d + 1
      directions. */
  lemma MovesRound(b: Grid, p: int, d: int, dr: int, dc: int, validMoves: Mask, validDir: Mask)
    requires 0 <= d < 8 && MovesState(b, p, d, validMoves)
    requires dr == -Directions[d].0 && dc == -Directions[d].1
    requires forall i, j :: 0 <= i < 8 && 0 <= j < 8 ==> validDir[i][j] == (b[i][j] == 0 && VecFlank(b, p, i, j, dr, dc))
    ensures MovesState(b, p, d + 1, Or(validMoves, validDir))
  {
    var validMoves' := Or(validMoves, validDir);
    forall i, j | 0 <= i < 8 && 0 <= j < 8
      ensures validMoves'[i][j] == (b[i][j] == 0 && exists e :: 0 <= e < d + 1 && VecFlank(b, p, i, j, -Directions[e].0, -Directions[e].1))
    {
      if b[i][j] == 0 && exists e :: 0 <= e < d + 1 && VecFlank(b, p, i, j, -Directions[e].0, -Directions[e].1) {
        var e :| 0 <= e < d + 1 && VecFlank(b, p, i, j, -Directions[e].0, -Directions[e].1);
        if e == d {
          assert validDir[i][j];
        } else {
          assert validMoves[i][j];
        }
      }
      if validDir[i][j] {
        assert VecFlank(b, p, i, j, -Directions[d].0, -Directions[d].1);
      }
    }
  }

  /** get_valid_actions: for each direction, shift the board once to find
      empty cells next to an opponent disc, then six more times, each time
      accepting the candidates that now see a mover disc and keeping those
      that still see an opponent disc; the accepted cells in row-major
      order are the result, or the generated pass when there are none. */
  method GetValidActions(s: State) returns (actions: seq<Action>)
    ensures actions == ValidActions(s)
  {
    var b := s.board;
    var player: int := s.player;
    var validMoves := NoCells();
    var empty := EqMask(b, 0);
    var d := 0;
    while d < 8
      invariant 0 <= d <= 8
      invariant MovesState(b, player, d, validMoves)
    {
      DirectionFacts(d);
      var (dx, dy) := Directions[d];
      var validDir := ScanDirection(b, player, empty, dx, dy);
      MovesRound(b, player, d, -dx, -dy, validMoves, validDir);
      validMoves := Or(validMoves, validDir);
      d := d + 1;
    }
    forall i, j | 0 <= i < 8 && 0 <= j < 8 ensures validMoves[i][j] == LegalMask(s)[i][j] {
      VecLegal(b, player, i, j);
    }
    GridExt(validMoves, LegalMask(s));
    actions := ArgWhere(validMoves);
    if actions == [] {
      actions := [GeneratedPass()];
    }
  }

  /** The body of get_valid_actions' loop for the direction (dx, dy):
      the board shifted once gives the empty cells next to an opponent
      disc, six more shifts accept those candidates that then see a mover
      disc and keep those that still see an opponent disc.  The result is
      the empty cells with a flank of length at most seven in direction
      (-dx, -dy). */
  method ScanDirection(b: Grid, player: int, empty: Mask, dx: int, dy: int) returns (validDir: Mask)
    requires UnitStep(dx, dy) && empty == EqMask(b, 0)
    ensures forall i, j :: 0 <= i < 8 && 0 <= j < 8 ==>
      validDir[i][j] == (b[i][j] == 0 && VecFlank(b, player, i, j, -dx, -dy))
  {
    var shifted, candidates;
    shifted, candidates, validDir := ScanInit(b, player, empty, dx, dy);
    var t := 0;
    while t < 6
      invariant 0 <= t <= 6
      invariant ScanState(b, player, -dx, -dy, t, shifted, candidates, validDir)
    {
      shifted, candidates, validDir := ScanStep(b, player, dx, dy, t, shifted, candidates, validDir);
      t := t + 1;
    }
    ScanFinish(b, player, -dx, -dy, shifted, candidates, validDir);
  }

  /** After the six rounds the accepted mask is the flank test. */
  lemma ScanFinish(b: Grid, p: int, dr: int, dc: int, shifted: Grid, candidates: Mask, validDir: Mask)
    requires ScanState(b, p, dr, dc, 6, shifted, candidates, validDir)
    ensures forall i, j :: 0 <= i < 8 && 0 <= j < 8 ==>
      validDir[i][j] == (b[i][j] == 0 && VecFlank(b, p, i, j, dr, dc))
  {
    forall i, j | 0 <= i < 8 && 0 <= j < 8
      ensures validDir[i][j] == (b[i][j] == 0 && VecFlank(b, p, i, j, dr, dc))
    {
      ScanDone(b, p, dr, dc, i, j, shifted[i][j], candidates[i][j], validDir[i][j]);
    }
  }

  /** The start of the scan: the board shifted once, the empty cells
      next to an opponent disc as candidates, and nothing accepted. */
  method ScanInit(b: Grid, player: int, empty: Mask, dx: int, dy: int)
    returns (shifted: Grid, candidates: Mask, validDir: Mask)
    requires empty == EqMask(b, 0)
    ensures ScanState(b, player, -dx, -dy, 0, shifted, candidates, validDir)
  {
    shifted := ShiftBoard(b, dx, dy);
    candidates := And(empty, EqMask(shifted, -player));
    validDir := NoCells();
    ScanStart(b, player, -dx, -dy, shifted);
  }

  /** One round of the scan: shift once more, accept the candidates that
      now see a mover disc, keep those that still see an opponent disc. */
  method ScanStep(b: Grid, player: int, dx: int, dy: int, t: nat, shifted: Grid, candidates: Mask, validDir: Mask)
    returns (shifted': Grid, candidates': Mask, validDir': Mask)
    requires UnitStep(dx, dy)
    requires ScanState(b, player, -dx, -dy, t, shifted, candidates, validDir)
    ensures ScanState(b, player, -dx, -dy, t + 1, shifted', candidates', validDir')
  {
    shifted' := ShiftBoard(shifted, dx, dy);
    ScanRound(b, player, -dx, -dy, t, shifted, candidates, validDir, shifted');
    validDir' := Or(validDir, And(candidates, EqMask(shifted', player)));
    candidates' := And(candidates, EqMask(shifted', -player));
  }

  /** After the six rounds one cell's accepted bit is the flank test. */
  lemma ScanDone(b: Grid, p: int, dr: int, dc: int, i: int, j: int, sh: int, cand: bool, vd: bool)
    requires ScanCell(b, p, dr, dc, 6, i, j, sh, cand, vd)
    ensures vd == (b[i][j] == 0 && VecFlank(b, p, i, j, dr, dc))
  {
    if vd {
      var m :| 2 <= m <= 7 && FlankAt(b, p, i, j, dr, dc, m);
    }
  }

  // ---------------------------------------------------------------------
  // apply_action

  /** (i, j) lies strictly inside a flanked run that starts next to (r, c)
      in direction (dr, dc). */
  ghost predicate OnRun(b: Grid, p: int, r: int, c: int, dr: int, dc: int, i: int, j: int) {
    exists k, m :: 1 <= k < m && FlankAt(b, p, r, c, dr, dc, m) && RayCell(r, c, dr, dc, k) == (i, j)
  }

  /** A placement at (r, c) flips (i, j): it lies inside a flanked run in
      one of the eight directions of the board before the move. */
  ghost predicate Flipped(b: Grid, p: int, r: int, c: int, i: int, j: int) {
    exists e :: 0 <= e < 8 && OnRun(b, p, r, c, Directions[e].0, Directions[e].1, i, j)
  }

  /** The flip_mask of apply_action, specified. */
  ghost function FlipMask(b: Grid, p: int, r: int, c: int): (m: Mask)
    ensures forall i, j :: 0 <= i < 8 && 0 <= j < 8 ==> m[i][j] == Flipped(b, p, r, c, i, j)
  {
    seq(8, i requires 0 <= i < 8 => seq(8, j requires 0 <= j < 8 => Flipped(b, p, r, c, i, j)))
  }

  /** The board after p places on (r, c): the target and every flipped cell
      hold p, every other cell is unchanged. */
  ghost function PlaceBoard(b: Grid, p: int, r: int, c: int): (g: Grid)
    ensures forall i, j :: 0 <= i < 8 && 0 <= j < 8 ==>
      g[i][j] == if (i, j) == (r, c) || Flipped(b, p, r, c, i, j) then p else b[i][j]
  {
    seq(8, i requires 0 <= i < 8 => seq(8, j requires 0 <= j < 8 =>
      if (i, j) == (r, c) || Flipped(b, p, r, c, i, j) then p else b[i][j]))
  }

  /** apply_action, specified.  A pass is accepted unchecked.  A placement
      is range-checked row first, and the check stops at the first failing
      comparison: a missing row, then a row off the board, then a missing
      column, then a column off the board (Python compares None with 0 and
      raises, so a missing coordinate is only reached when everything before
      it passed).  Then it fails on an occupied target and on an action that
      get_valid_actions does not list; otherwise the mover takes the target
      and every flanked run. */
  ghost function Apply(s: State, a: Action): Result<State> {
    if a.isPass then Ok(State(s.board, Opponent(s.player), s.passes + 1))
    else if a.row.None? then Err(MissingCoordinate)
    else if !(0 <= a.row.value < 8) then Err(OutOfBounds)
    else if a.col.None? then Err(MissingCoordinate)
    else if !(0 <= a.col.value < 8) then Err(OutOfBounds)
    else if s.board[a.row.value][a.col.value] != 0 then Err(NotEmpty)
    else if a !in ValidActions(s) then Err(NotValidMove)
    else Ok(State(PlaceBoard(s.board, s.player, a.row.value, a.col.value), Opponent(s.player), 0))
  }

  /** The first n cells of the ray from (r, c), nearest first. */
  function RunCells(r: int, c: int, dr: int, dc: int, n: nat): (cells: seq<(int, int)>)
    ensures |cells| == n
    ensures forall q :: 0 <= q < n ==> cells[q] == RayCell(r, c, dr, dc, q + 1)
  {
    seq(n, q => RayCell(r, c, dr, dc, q + 1))
  }

  /** The walk of apply_action at distance k along (dr, dc) from (r, c):
      it stands on cell (x, y), the k - 1 cells behind it hold opponent
      discs and have been collected. */
  ghost predicate WalkState(b: Grid, p: int, r: int, c: int, dr: int, dc: int, k: int, x: int, y: int, cells: seq<(int, int)>) {
    1 <= k && (x, y) == RayCell(r, c, dr, dc, k)
    && cells == RunCells(r, c, dr, dc, k - 1)
    && forall q :: 1 <= q < k ==> Ray(b, r, c, dr, dc, q) == -p
  }

  lemma WalkStart(b: Grid, p: int, r: int, c: int, dr: int, dc: int)
    ensures WalkState(b, p, r, c, dr, dc, 1, r + dr, c + dc, [])
  {
  }

  /** Collecting an opponent disc moves the walk one step on. */
  lemma WalkStep(b: Grid, p: int, r: int, c: int, dr: int, dc: int, k: int, x: int, y: int, cells: seq<(int, int)>)
    requires WalkState(b, p, r, c, dr, dc, k, x, y, cells)
    requires At(b, x, y) == -p
    ensures WalkState(b, p, r, c, dr, dc, k + 1, x + dr, y + dc, cells + [(x, y)])
  {
    assert RayCell(r, c, dr, dc, k + 1) == (x + dr, y + dc) by {
      assert (k + 1) * dr == k * dr + dr;
      assert (k + 1) * dc == k * dc + dc;
    }
    assert cells + [(x, y)] == RunCells(r, c, dr, dc, k);
  }

  /** The walk in direction (dr, dc) stopped at distance j on a cell that is
      not an opponent disc, without a flank: nothing on this ray flips. */
  lemma WalkStopsEmpty(b: Grid, p: int, r: int, c: int, dr: int, dc: int, j: int)
    requires p != 0 && 1 <= j
    requires forall k :: 1 <= k < j ==> Ray(b, r, c, dr, dc, k) == -p
    requires Ray(b, r, c, dr, dc, j) != -p
    requires j == 1 || Ray(b, r, c, dr, dc, j) != p
    ensures forall i, j' :: !OnRun(b, p, r, c, dr, dc, i, j')
  {
    NoFlankAfterStop(b, p, r, c, dr, dc, j);
  }

  /** A cell the walk collected before reaching the mover disc at m is
      inside the run. */
  lemma CollectedOnRun(b: Grid, p: int, r: int, c: int, dr: int, dc: int, m: int, q: int)
    requires FlankAt(b, p, r, c, dr, dc, m) && 0 <= q < m - 1
    ensures OnRun(b, p, r, c, dr, dc, RunCells(r, c, dr, dc, m - 1)[q].0, RunCells(r, c, dr, dc, m - 1)[q].1)
  {
    var cells := RunCells(r, c, dr, dc, m - 1);
    assert RayCell(r, c, dr, dc, q + 1) == (cells[q].0, cells[q].1);
  }

  /** A cell inside the run was collected. */
  lemma OnRunCollected(b: Grid, p: int, r: int, c: int, dr: int, dc: int, m: int, i: int, j: int)
    requires p != 0 && FlankAt(b, p, r, c, dr, dc, m) && OnRun(b, p, r, c, dr, dc, i, j)
    ensures (i, j) in RunCells(r, c, dr, dc, m - 1)
  {
    var k, m' :| 1 <= k < m' && FlankAt(b, p, r, c, dr, dc, m') && RayCell(r, c, dr, dc, k) == (i, j);
    FlankUnique(b, p, r, c, dr, dc, m, m');
    assert RunCells(r, c, dr, dc, m - 1)[k - 1] == (i, j);
  }

  /** The walk reached a mover disc at distance m >= 2: the run it flips is
      exactly the cells it collected. */
  lemma WalkStopsFlank(b: Grid, p: int, r: int, c: int, dr: int, dc: int, m: int)
    requires p != 0 && FlankAt(b, p, r, c, dr, dc, m)
    ensures forall i, j :: OnRun(b, p, r, c, dr, dc, i, j) <==> (i, j) in RunCells(r, c, dr, dc, m - 1)
  {
    var cells := RunCells(r, c, dr, dc, m - 1);
    forall i, j ensures OnRun(b, p, r, c, dr, dc, i, j) <==> (i, j) in cells {
      if OnRun(b, p, r, c, dr, dc, i, j) {
        OnRunCollected(b, p, r, c, dr, dc, m, i, j);
      }
      if (i, j) in cells {
        var q :| 0 <= q < |cells| && cells[q] == (i, j);
        CollectedOnRun(b, p, r, c, dr, dc, m, q);
      }
    }
  }

  /** The walk ends on cell (x, y) without flanking: nothing on this ray
      flips. */
  lemma WalkEndsEmpty(b: Grid, p: int, r: int, c: int, dr: int, dc: int, k: int, x: int, y: int, cells: seq<(int, int)>)
    requires p != 0 && WalkState(b, p, r, c, dr, dc, k, x, y, cells)
    requires At(b, x, y) != -p && (cells == [] || At(b, x, y) != p)
    ensures forall i, j :: !OnRun(b, p, r, c, dr, dc, i, j)
  {
    WalkStopsEmpty(b, p, r, c, dr, dc, k);
  }

  /** The walk ends on a mover disc after collecting opponent discs: the
      run of this ray is exactly what it collected. */
  lemma WalkEndsFlank(b: Grid, p: int, r: int, c: int, dr: int, dc: int, k: int, x: int, y: int, cells: seq<(int, int)>)
    requires p != 0 && WalkState(b, p, r, c, dr, dc, k, x, y, cells)
    requires At(b, x, y) == p && cells != []
    ensures forall i, j :: OnRun(b, p, r, c, dr, dc, i, j) <==> (i, j) in cells
  {
    assert FlankAt(b, p, r, c, dr, dc, k);
    WalkStopsFlank(b, p, r, c, dr, dc, k);
  }

  /** The flip mask after the first d directions. */
  ghost predicate FlipState(b: Grid, p: int, r: int, c: int, d: int, mask: Mask)
    requires 0 <= d <= 8
  {
    forall i, j :: 0 <= i < 8 && 0 <= j < 8 ==>
      mask[i][j] == exists e :: 0 <= e < d && OnRun(b, p, r, c, Directions[e].0, Directions[e].1, i, j)
  }

  /** Marking the run of direction d extends the flip mask to d + 1
      directions. */
  lemma FlipRound(b: Grid, p: int, r: int, c: int, d: int, dr: int, dc: int, mask: Mask, mask': Mask)
    requires 0 <= d < 8 && FlipState(b, p, r, c, d, mask)
    requires (dr, dc) == Directions[d]
    requires forall i, j :: 0 <= i < 8 && 0 <= j < 8 ==> mask'[i][j] == (mask[i][j] || OnRun(b, p, r, c, dr, dc, i, j))
    ensures FlipState(b, p, r, c, d + 1, mask')
  {
    forall i, j | 0 <= i < 8 && 0 <= j < 8
      ensures mask'[i][j] == exists e :: 0 <= e < d + 1 && OnRun(b, p, r, c, Directions[e].0, Directions[e].1, i, j)
    {
      if exists e :: 0 <= e < d + 1 && OnRun(b, p, r, c, Directions[e].0, Directions[e].1, i, j) {
        var e :| 0 <= e < d + 1 && OnRun(b, p, r, c, Directions[e].0, Directions[e].1, i, j);
        if e < d {
          assert mask[i][j];
        }
      }
    }
  }

  /** apply_action: a pass hands the move over; a placement is checked
      and then made by PlaceAndFlip. */
  method ApplyAction(s: State, a: Action) returns (res: Result<State>)
    ensures res == Apply(s, a)
  {
    if a.isPass {
      return Ok(State(s.board, Opponent(s.player), s.passes + 1));
    }
    if a.row.None? {
      return Err(MissingCoordinate);
    }
    var row := a.row.value;
    if !(0 <= row < 8) {
      return Err(OutOfBounds);
    }
    if a.col.None? {
      return Err(MissingCoordinate);
    }
    var col := a.col.value;
    if !(0 <= col < 8) {
      return Err(OutOfBounds);
    }
    if s.board[row][col] != 0 {
      return Err(NotEmpty);
    }
    var validActions := GetValidActions(s);
    if a !in validActions {
      return Err(NotValidMove);
    }
    var newBoard := PlaceAndFlip(s.board, s.player, row, col);
    return Ok(State(newBoard, Opponent(s.player), 0));
  }

  /** The walk of apply_action in one direction (dr, dc) from the placed
      disc: collect the opponent discs up to the first non-opponent cell,
      and flip them only when that cell holds a mover disc. */
  method FlipDirection(b: Grid, newBoard: Grid, player: int, row: int, col: int, dr: int, dc: int, flipMask: Mask)
    returns (flipMask': Mask)
    requires player != 0 && OnBoard(row, col) && UnitStep(dr, dc)
    requires newBoard == Put(b, row, col, player)
    ensures forall i, j :: 0 <= i < 8 && 0 <= j < 8 ==>
      flipMask'[i][j] == (flipMask[i][j] || OnRun(b, player, row, col, dr, dc, i, j))
  {
    var opponent := -player;
    flipMask' := flipMask;
    var cells: seq<(int, int)> := [];
    var r, c := row + dr, col + dc;
    ghost var k := 1;
    WalkStart(b, player, row, col, dr, dc);
    while 0 <= r < 8 && 0 <= c < 8
      invariant WalkState(b, player, row, col, dr, dc, k, r, c, cells)
      invariant flipMask' == flipMask
      decreases 8 - k
    {
      RayBound(row, col, dr, dc, k);
      RayCellNotOrigin(row, col, dr, dc, k);
      var currentCell := newBoard[r][c];
      assert currentCell == At(b, r, c);
      if currentCell == opponent {
        WalkStep(b, player, row, col, dr, dc, k, r, c, cells);
        cells := cells + [(r, c)];
      } else if currentCell == player {
        if cells != [] {
          WalkEndsFlank(b, player, row, col, dr, dc, k, r, c, cells);
          flipMask' := SetCells(flipMask, cells);
        } else {
          WalkEndsEmpty(b, player, row, col, dr, dc, k, r, c, cells);
        }
        break;
      } else {
        WalkEndsEmpty(b, player, row, col, dr, dc, k, r, c, cells);
        break;
      }
      r, c := r + dr, c + dc;
      k := k + 1;
    }
    if !(0 <= r < 8 && 0 <= c < 8) {
      WalkEndsEmpty(b, player, row, col, dr, dc, k, r, c, cells);
    }
  }

  /** The placement part of apply_action: the target is set on a copy of
      the board, each direction is walked from the target while it stays
      on the board, collecting opponent discs until a mover disc marks them
      in the flip mask or anything else ends the walk, and finally the
      masked cells are set to the mover.  Any on-board target is accepted
      here; the walk reads the copy, which differs from the board only at
      the target, a cell no ray returns to. */
  method PlaceAndFlip(b: Grid, player: int, row: int, col: int) returns (newBoard: Grid)
    requires player != 0 && OnBoard(row, col)
    ensures newBoard == PlaceBoard(b, player, row, col)
  {
    newBoard := Put(b, row, col, player);
    var flipMask := NoCells();
    var d := 0;
    while d < 8
      invariant 0 <= d <= 8
      invariant FlipState(b, player, row, col, d, flipMask)
    {
      DirectionFacts(d);
      var (dr, dc) := Directions[d];
      var flipMask' := FlipDirection(b, newBoard, player, row, col, dr, dc, flipMask);
      FlipRound(b, player, row, col, d, dr, dc, flipMask, flipMask');
      flipMask := flipMask';
      d := d + 1;
    }
    GridExt(flipMask, FlipMask(b, player, row, col));
    newBoard := Fill(newBoard, flipMask, player);
    GridExt(newBoard, PlaceBoard(b, player, row, col));
  }
}
