/** OthelloGame: the starting position, the text move parser and the
    move formatter it inverts, and the opening of a game from the starting
    position. */
module OthelloGame {
  import opened Wrappers
  import opened Board
  import opened OthelloAction
  import opened OthelloState
  import opened OthelloRules

  // ---------------------------------------------------------------------
  // get_initial_state

  /** OthelloGame.get_initial_state: an empty board, then the four centre
      discs assigned one by one, player 1 to move.  It builds the same
      state as OthelloState.get_initial_state. */
  function GetInitialState(): (s: State)
    ensures s == OthelloState.GetInitialState()
  {
    var board := Put(Put(Put(Put(Zeros(), 3, 3, -1), 4, 4, -1), 3, 4, 1), 4, 3, 1);
    GridExt(board, InitialBoard());
    State(board, 1, 0)
  }

  // ---------------------------------------------------------------------
  // parse_move and the move formatter

  /** One character of `str.lower()`, on ASCII letters. */
  function LowerChar(ch: char): char {
    if 'A' <= ch <= 'Z' then (ch as int - 'A' as int + 'a' as int) as char else ch
  }

  /** `str.lower()`, on ASCII letters. */
  function Lower(s: string): (t: string)
    ensures |t| == |s|
    ensures forall i :: 0 <= i < |s| ==> t[i] == LowerChar(s[i])
  {
    seq(|s|, i requires 0 <= i < |s| => LowerChar(s[i]))
  }

  /** `str.isdigit()`, on ASCII digits. */
  predicate IsDigit(ch: char) {
    '0' <= ch <= '9'
  }

  /** parse_move: "pass" in any letter case is the pass action; otherwise
      the text must be a column letter a-h followed by a digit, giving
      column `ord(letter) - ord('a')` and row `digit - 1`. */
  function ParseMove(s: string): (r: Result<Action>)
    ensures Lower(s) == "pass" ==> r == Ok(PassAction())
    ensures Lower(s) != "pass" && (|s| != 2 || s[0] !in "abcdefgh" || !IsDigit(s[1])) ==> r == Err(BadMoveFormat)
    ensures |s| == 2 && s[0] in "abcdefgh" && IsDigit(s[1]) ==> r.Ok? && !r.value.isPass
    ensures r.Ok? && !r.value.isPass ==>
      |s| == 2 && r.value.WellFormed()
      && 0 <= r.value.col.value < 8 && -1 <= r.value.row.value <= 8
      && s[0] as int == 'a' as int + r.value.col.value
      && s[1] as int == '0' as int + r.value.row.value + 1
  {
    if Lower(s) == "pass" then Ok(PassAction())
    else if |s| != 2 || s[0] !in "abcdefgh" || !IsDigit(s[1]) then Err(BadMoveFormat)
    else
      var col := s[0] as int - 'a' as int;
      var row := (s[1] as int - '0' as int) - 1;
      Ok(Place(row, col))
  }

  /** The notation render prints for an on-board placement:
      `chr(ord('a') + col)` followed by `str(row + 1)`. */
  function FormatMove(r: int, c: int): (t: string)
    requires OnBoard(r, c)
    ensures |t| == 2 && t[0] in "abcdefgh" && '1' <= t[1] <= '8'
  {
    [('a' as int + c) as char, ('0' as int + r + 1) as char]
  }

  /** Parsing undoes formatting on every cell of the board. */
  lemma ParseFormat(r: int, c: int)
    requires OnBoard(r, c)
    ensures ParseMove(FormatMove(r, c)) == Ok(Place(r, c))
  {
    var t := FormatMove(r, c);
    assert Lower(t)[1] != 'a';
  }

  /** Formatting undoes parsing on every accepted placement text whose row
      is on the board. */
  lemma FormatParse(s: string)
    requires ParseMove(s).Ok? && !ParseMove(s).value.isPass
    requires 0 <= ParseMove(s).value.row.value < 8
    ensures FormatMove(ParseMove(s).value.row.value, ParseMove(s).value.col.value) == s
  {
  }

  /** "pass" in any letter case is accepted; the upper-case column letters
      are not. */
  lemma ParseExamples()
    ensures ParseMove("pass") == Ok(PassAction())
    ensures ParseMove("PaSS") == Ok(PassAction())
    ensures ParseMove("d3") == Ok(Place(2, 3))
    ensures ParseMove("D3") == Err(BadMoveFormat)
    ensures ParseMove("d") == Err(BadMoveFormat)
    ensures ParseMove("d34") == Err(BadMoveFormat)
    ensures ParseMove("dx") == Err(BadMoveFormat)
  {
    assert Lower("PaSS") == "pass";
    assert Lower("D3")[0] == 'd';
    assert Lower("d")[0] == 'd';
    assert Lower("d34")[0] == 'd';
    assert Lower("dx")[0] == 'd';
    assert Lower("d3")[0] == 'd';
  }

  /** The digits 0 and 9 pass the parser but name rows -1 and 8, which
      apply_action rejects as out of bounds. */
  lemma ParseOffBoardRows(s: State, letter: char)
    requires letter in "abcdefgh"
    ensures ParseMove([letter, '0']).Ok? && ParseMove([letter, '0']).value.row == Some(-1)
    ensures ParseMove([letter, '9']).Ok? && ParseMove([letter, '9']).value.row == Some(8)
    ensures Apply(s, ParseMove([letter, '0']).value) == Err(OutOfBounds)
    ensures Apply(s, ParseMove([letter, '9']).value) == Err(OutOfBounds)
  {
    assert Lower([letter, '0'])[1] == '0';
    assert Lower([letter, '9'])[1] == '9';
  }

  // ---------------------------------------------------------------------
  // The opening

  /** The starting board's cells in closed form, off-board cells included. */
  function StartCell(x: int, y: int): int {
    if (x, y) == (3, 3) || (x, y) == (4, 4) then -1
    else if (x, y) == (3, 4) || (x, y) == (4, 3) then 1
    else 0
  }

  /** A board laid out as the starting board. */
  ghost predicate StartLayout(b: Grid) {
    forall x, y :: At(b, x, y) == StartCell(x, y)
  }

  lemma InitialAt(x: int, y: int)
    ensures At(InitialBoard(), x, y) == StartCell(x, y)
  {
  }

  lemma InitialLayout()
    ensures StartLayout(InitialBoard())
  {
    forall x, y
      ensures At(InitialBoard(), x, y) == StartCell(x, y)
    {
      InitialAt(x, y);
    }
  }

  /** Along a fixed direction: a flank of player 1 on the starting board
      has length two and is one of four. */
  lemma InitialFlankDir(b: Grid, r: int, c: int, dr: int, dc: int, m: int)
    requires StartLayout(b) && UnitStep(dr, dc)
    requires FlankAt(b, 1, r, c, dr, dc, m)
    ensures m == 2
    ensures (r, c, dr, dc) == (3, 2, 0, 1) || (r, c, dr, dc) == (2, 3, 1, 0)
         || (r, c, dr, dc) == (5, 4, -1, 0) || (r, c, dr, dc) == (4, 5, 0, -1)
  {
    assert Ray(b, r, c, dr, dc, 1) == -1;
    InitialThird(b, r, c, dr, dc);
    assert Ray(b, r, c, dr, dc, 3) == 0;
    assert 3 < m ==> Ray(b, r, c, dr, dc, 3) == -1;
    assert m == 2;
    InitialPair(b, r, c, dr, dc);
  }

  /** Past a disc of player -1 on the starting board, the cell two further
      steps on is empty. */
  lemma InitialThird(b: Grid, r: int, c: int, dr: int, dc: int)
    requires StartLayout(b) && UnitStep(dr, dc) && At(b, r + dr, c + dc) == -1
    ensures At(b, r + 3 * dr, c + 3 * dc) == 0
  {
    assert StartCell(r + dr, c + dc) == -1;
    assert At(b, r + 3 * dr, c + 3 * dc) == StartCell(r + 3 * dr, c + 3 * dc);
  }

  /** A disc of player -1 followed by one of player 1, on the starting
      board: one of the four opening flanks. */
  lemma InitialPair(b: Grid, r: int, c: int, dr: int, dc: int)
    requires StartLayout(b) && UnitStep(dr, dc)
    requires At(b, r + dr, c + dc) == -1 && At(b, r + 2 * dr, c + 2 * dc) == 1
    ensures (r, c, dr, dc) == (3, 2, 0, 1) || (r, c, dr, dc) == (2, 3, 1, 0)
         || (r, c, dr, dc) == (5, 4, -1, 0) || (r, c, dr, dc) == (4, 5, 0, -1)
  {
    assert StartCell(r + dr, c + dc) == -1;
    assert StartCell(r + 2 * dr, c + 2 * dc) == 1;
  }

  /** Every flank player 1 has on the starting board has length two, and
      there are exactly four: from (3, 2) eastwards, (2, 3) southwards,
      (5, 4) northwards and (4, 5) westwards. */
  lemma InitialFlank(r: int, c: int, e: int, m: int)
    requires 0 <= e < 8
    requires FlankAt(InitialBoard(), 1, r, c, Directions[e].0, Directions[e].1, m)
    ensures m == 2
    ensures ((r, c) == (3, 2) && e == 4) || ((r, c) == (2, 3) && e == 6)
         || ((r, c) == (5, 4) && e == 1) || ((r, c) == (4, 5) && e == 3)
  {
    DirectionFacts(e);
    InitialLayout();
    InitialFlankDir(InitialBoard(), r, c, Directions[e].0, Directions[e].1, m);
    OrthogonalIndex(e);
  }

  /** Where the four orthogonal steps sit in the direction list. */
  lemma OrthogonalIndex(e: int)
    requires 0 <= e < 8
    ensures Directions[e] == (0, 1) ==> e == 4
    ensures Directions[e] == (1, 0) ==> e == 6
    ensures Directions[e] == (-1, 0) ==> e == 1
    ensures Directions[e] == (0, -1) ==> e == 3
  {
    if e == 0 {} else if e == 1 {} else if e == 2 {} else if e == 3 {}
    else if e == 4 {} else if e == 5 {} else if e == 6 {} else {}
  }

  /** Player 1's legal cells on the starting board. */
  lemma InitialLegal(r: int, c: int)
    ensures Legal(InitialBoard(), 1, r, c) <==>
      (r, c) == (2, 3) || (r, c) == (3, 2) || (r, c) == (4, 5) || (r, c) == (5, 4)
  {
    var b := InitialBoard();
    if Legal(b, 1, r, c) {
      var e, m :| 0 <= e < 8 && FlankAt(b, 1, r, c, Directions[e].0, Directions[e].1, m);
      InitialFlank(r, c, e, m);
    }
    if (r, c) == (3, 2) || (r, c) == (2, 3) || (r, c) == (5, 4) || (r, c) == (4, 5) {
      InitialLegalFour(r, c);
    }
  }

  /** The four opening cells are legal for player 1. */
  lemma InitialLegalFour(r: int, c: int)
    requires (r, c) == (3, 2) || (r, c) == (2, 3) || (r, c) == (5, 4) || (r, c) == (4, 5)
    ensures Legal(InitialBoard(), 1, r, c)
  {
    InitialAt(r, c);
    if (r, c) == (3, 2) {
      InitialFlankOfTwo(r, c, 4);
    } else if (r, c) == (2, 3) {
      InitialFlankOfTwo(r, c, 6);
    } else if (r, c) == (5, 4) {
      InitialFlankOfTwo(r, c, 1);
    } else {
      InitialFlankOfTwo(r, c, 3);
    }
  }

  /** An empty cell of the starting board next to a disc of player -1
      backed by one of player 1, in direction e, is legal for player 1. */
  lemma InitialFlankOfTwo(r: int, c: int, e: int)
    requires 0 <= e < 8 && OnBoard(r, c) && At(InitialBoard(), r, c) == 0
    requires var (dr, dc) := Directions[e];
      At(InitialBoard(), r + dr, c + dc) == -1 && At(InitialBoard(), r + 2 * dr, c + 2 * dc) == 1
    ensures Legal(InitialBoard(), 1, r, c)
  {
    var (dr, dc) := Directions[e];
    assert FlankAt(InitialBoard(), 1, r, c, dr, dc, 2);
  }

  /** The four opening cells in row-major numbering. */
  lemma OpeningFlat(m: Mask)
    requires forall i, j :: 0 <= i < 8 && 0 <= j < 8 ==>
      (m[i][j] <==> (i, j) == (2, 3) || (i, j) == (3, 2) || (i, j) == (4, 5) || (i, j) == (5, 4))
    ensures forall f :: 0 <= f < 64 ==> (Flat(m, f) <==> f == 19 || f == 26 || f == 37 || f == 44)
  {
    forall f | 0 <= f < 64
      ensures Flat(m, f) <==> f == 19 || f == 26 || f == 37 || f == 44
    {
      var i, j := f / 8, f % 8;
      assert f == i * 8 + j;
      assert 0 <= i < 8 && 0 <= j < 8;
    }
  }

  /** The listing of a mask whose set cells are the four opening moves. */
  lemma ArgWhereOpening(m: Mask)
    requires forall f :: 0 <= f < 64 ==> (Flat(m, f) <==> f == 19 || f == 26 || f == 37 || f == 44)
    ensures ArgWhere(m) == [Place(2, 3), Place(3, 2), Place(4, 5), Place(5, 4)]
  {
    OpeningMiddle(m);
    PlacementsInNext(m, 0, 19, 64, [Place(3, 2), Place(4, 5), Place(5, 4)]);
    OpeningHead(PlacementsIn(m, 0, 64));
  }

  lemma OpeningHead(ps: seq<Action>)
    requires ps == [Place(19 / 8, 19 % 8)] + [Place(3, 2), Place(4, 5), Place(5, 4)]
    ensures ps == [Place(2, 3), Place(3, 2), Place(4, 5), Place(5, 4)]
  {
  }

  /** The last three entries of that listing ... */
  lemma OpeningMiddle(m: Mask)
    requires forall f :: 0 <= f < 64 ==> (Flat(m, f) <==> f == 19 || f == 26 || f == 37 || f == 44)
    ensures PlacementsIn(m, 20, 64) == [Place(3, 2), Place(4, 5), Place(5, 4)]
  {
    OpeningTail(m);
    PlacementsInNext(m, 20, 26, 64, [Place(4, 5), Place(5, 4)]);
    assert [Place(26 / 8, 26 % 8)] + [Place(4, 5), Place(5, 4)] == [Place(3, 2), Place(4, 5), Place(5, 4)];
  }

  /** ... and the last two. */
  lemma OpeningTail(m: Mask)
    requires forall f :: 0 <= f < 64 ==> (Flat(m, f) <==> f == 19 || f == 26 || f == 37 || f == 44)
    ensures PlacementsIn(m, 27, 64) == [Place(4, 5), Place(5, 4)]
  {
    PlacementsInNone(m, 45, 64);
    PlacementsInNext(m, 38, 44, 64, []);
    assert [Place(44 / 8, 44 % 8)] + [] == [Place(5, 4)];
    PlacementsInNext(m, 27, 37, 64, [Place(5, 4)]);
    assert [Place(37 / 8, 37 % 8)] + [Place(5, 4)] == [Place(4, 5), Place(5, 4)];
  }

  /** Player 1's legal cells on the starting board, as a mask. */
  lemma InitialLegalMask(m: Mask)
    requires m == LegalMask(OthelloState.GetInitialState())
    ensures forall i, j :: 0 <= i < 8 && 0 <= j < 8 ==>
      (m[i][j] <==> (i, j) == (2, 3) || (i, j) == (3, 2) || (i, j) == (4, 5) || (i, j) == (5, 4))
  {
    forall i, j | 0 <= i < 8 && 0 <= j < 8
      ensures m[i][j] <==> (i, j) == (2, 3) || (i, j) == (3, 2) || (i, j) == (4, 5) || (i, j) == (5, 4)
    {
      InitialLegal(i, j);
    }
  }

  /** From the starting position get_valid_actions lists exactly (2, 3),
      (3, 2), (4, 5) and (5, 4), in that order. */
  lemma InitialValidActions()
    ensures ValidActions(OthelloState.GetInitialState()) == [Place(2, 3), Place(3, 2), Place(4, 5), Place(5, 4)]
  {
    var m := LegalMask(OthelloState.GetInitialState());
    InitialLegalMask(m);
    OpeningFlat(m);
    ArgWhereOpening(m);
  }

  /** A run in a direction whose only flank has length two is the cell
      next to the origin. */
  lemma ShortRun(b: Grid, p: int, r: int, c: int, dr: int, dc: int, i: int, j: int)
    requires OnRun(b, p, r, c, dr, dc, i, j)
    requires forall m :: FlankAt(b, p, r, c, dr, dc, m) ==> m == 2
    ensures (i, j) == RayCell(r, c, dr, dc, 1)
  {
  }

  /** Playing (2, 3) first flips nothing but (3, 3) ... */
  lemma OpeningFlipsOnly(i: int, j: int)
    requires Flipped(InitialBoard(), 1, 2, 3, i, j)
    ensures (i, j) == (3, 3)
  {
    var b := InitialBoard();
    var e :| 0 <= e < 8 && OnRun(b, 1, 2, 3, Directions[e].0, Directions[e].1, i, j);
    var k, m :| 1 <= k < m && FlankAt(b, 1, 2, 3, Directions[e].0, Directions[e].1, m)
                && RayCell(2, 3, Directions[e].0, Directions[e].1, k) == (i, j);
    InitialFlank(2, 3, e, m);
    forall m' | FlankAt(b, 1, 2, 3, Directions[e].0, Directions[e].1, m') ensures m' == 2 {
      InitialFlank(2, 3, e, m');
    }
    ShortRun(b, 1, 2, 3, Directions[e].0, Directions[e].1, i, j);
    assert Directions[6] == (1, 0);
  }

  /** ... and does flip (3, 3). */
  lemma OpeningFlipsCentre()
    ensures Flipped(InitialBoard(), 1, 2, 3, 3, 3)
  {
    InitialLayout();
    StartFlipsCentre(InitialBoard());
  }

  lemma StartFlipsCentre(b: Grid)
    requires StartLayout(b)
    ensures Flipped(b, 1, 2, 3, 3, 3)
  {
    assert At(b, 3, 3) == -1 && At(b, 4, 3) == 1;
    assert Directions[6] == (1, 0);
    assert Ray(b, 2, 3, 1, 0, 1) == -1 && Ray(b, 2, 3, 1, 0, 2) == 1;
    assert FlankAt(b, 1, 2, 3, 1, 0, 2);
    assert RayCell(2, 3, 1, 0, 1) == (3, 3);
    assert OnRun(b, 1, 2, 3, Directions[6].0, Directions[6].1, 3, 3);
  }

  /** The board after (2, 3): player 1 on (2, 3), (3, 3), (3, 4) and
      (4, 3), player -1 on (4, 4) only. */
  predicate OpeningBoardShape(g: Grid) {
    forall i, j :: 0 <= i < 8 && 0 <= j < 8 ==>
      g[i][j] == if (i, j) == (2, 3) || (i, j) == (3, 3) || (i, j) == (3, 4) || (i, j) == (4, 3) then 1
                 else if (i, j) == (4, 4) then -1
                 else 0
  }

  lemma OpeningCell(i: int, j: int)
    requires 0 <= i < 8 && 0 <= j < 8
    ensures PlaceBoard(InitialBoard(), 1, 2, 3)[i][j] ==
      if (i, j) == (2, 3) || (i, j) == (3, 3) || (i, j) == (3, 4) || (i, j) == (4, 3) then 1
      else if (i, j) == (4, 4) then -1
      else 0
  {
    InitialAt(i, j);
    if Flipped(InitialBoard(), 1, 2, 3, i, j) {
      OpeningFlipsOnly(i, j);
    }
    if (i, j) == (3, 3) {
      OpeningFlipsCentre();
    }
  }

  lemma OpeningBoard()
    ensures OpeningBoardShape(PlaceBoard(InitialBoard(), 1, 2, 3))
  {
    forall i, j | 0 <= i < 8 && 0 <= j < 8 {
      OpeningCell(i, j);
    }
  }

  /** Counting the discs of that board. */
  lemma OpeningCounts(g: Grid)
    requires OpeningBoardShape(g)
    ensures Count(g, 1) == 4 && Count(g, -1) == 1
  {
    forall f | 0 <= f < 64
      ensures Flat(g, f) == if f == 19 || f == 27 || f == 28 || f == 35 then 1 else if f == 36 then -1 else 0
    {
      var i, j := f / 8, f % 8;
      assert f == i * 8 + j;
      assert 0 <= i < 8 && 0 <= j < 8;
    }
    CountSkip(g, 1, 36, 64);
    CountSkip(g, 1, 29, 35);
    CountSkip(g, 1, 20, 27);
    CountSkip(g, 1, 0, 19);
    CountSkip(g, -1, 37, 64);
    CountSkip(g, -1, 0, 36);
  }

  /** After (2, 3), player 1 has four discs and player -1 one, and player
      -1 is to move. */
  lemma OpeningMove()
    ensures Apply(OthelloState.GetInitialState(), Place(2, 3)).Ok?
    ensures var s' := Apply(OthelloState.GetInitialState(), Place(2, 3)).value;
      s'.player == -1 && s'.passes == 0
      && s'.board[2][3] == 1 && s'.board[3][3] == 1
      && Count(s'.board, 1) == 4 && Count(s'.board, -1) == 1
  {
    InitialLegal(2, 3);
    ApplyLegal(OthelloState.GetInitialState(), 2, 3);
    OpeningBoard();
    OpeningCounts(PlaceBoard(InitialBoard(), 1, 2, 3));
  }
}
