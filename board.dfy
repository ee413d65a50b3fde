/** The 8x8 integer grid of the Othello engine and the element-wise NumPy
    operations the rules engine uses on it, stated by their meaning. */
module Board {

  const Size: int := 8

  predicate OnBoard(r: int, c: int) {
    0 <= r < 8 && 0 <= c < 8
  }

  predicate Is8x8<T>(g: seq<seq<T>>) {
    |g| == 8 && forall i :: 0 <= i < 8 ==> |g[i]| == 8
  }

  /** An 8x8 array of ints (the `board` ndarray). */
  type Grid = g: seq<seq<int>> | Is8x8(g) witness seq(8, _ => seq(8, _ => 0))

  /** An 8x8 array of booleans (a NumPy mask). */
  type Mask = m: seq<seq<bool>> | Is8x8(m) witness seq(8, _ => seq(8, _ => false))

  /** Every cell is empty (0) or holds a disc of player 1 or -1. */
  predicate Discs(b: Grid) {
    forall i, j :: 0 <= i < 8 && 0 <= j < 8 ==> -1 <= b[i][j] <= 1
  }

  /** The cell at (r, c), or 0 for a position off the board. */
  function At(b: Grid, r: int, c: int): int {
    if OnBoard(r, c) then b[r][c] else 0
  }

  function Zeros(): Grid {
    seq(8, _ => seq(8, _ => 0))
  }

  function NoCells(): Mask {
    seq(8, _ => seq(8, _ => false))
  }

  /** `g == v` on an ndarray. */
  function EqMask(g: Grid, v: int): (m: Mask)
    ensures forall i, j {:trigger m[i][j]} :: 0 <= i < 8 && 0 <= j < 8 ==> m[i][j] == (g[i][j] == v)
  {
    seq(8, i requires 0 <= i < 8 => seq(8, j requires 0 <= j < 8 => g[i][j] == v))
  }

  /** `m1 & m2` on masks. */
  function And(m1: Mask, m2: Mask): (m: Mask)
    ensures forall i, j {:trigger m[i][j]} :: 0 <= i < 8 && 0 <= j < 8 ==> m[i][j] == (m1[i][j] && m2[i][j])
  {
    seq(8, i requires 0 <= i < 8 => seq(8, j requires 0 <= j < 8 => m1[i][j] && m2[i][j]))
  }

  /** `m1 | m2` on masks. */
  function Or(m1: Mask, m2: Mask): (m: Mask)
    ensures forall i, j {:trigger m[i][j]} :: 0 <= i < 8 && 0 <= j < 8 ==> m[i][j] == (m1[i][j] || m2[i][j])
  {
    seq(8, i requires 0 <= i < 8 => seq(8, j requires 0 <= j < 8 => m1[i][j] || m2[i][j]))
  }

  /** Two 8x8 grids (of discs or of mask bits) with the same cells are
      the same grid. */
  lemma GridExt<T>(g: seq<seq<T>>, h: seq<seq<T>>)
    requires Is8x8(g) && Is8x8(h)
    requires forall i, j :: 0 <= i < 8 && 0 <= j < 8 ==> g[i][j] == h[i][j]
    ensures g == h
  {
    forall i | 0 <= i < 8 ensures g[i] == h[i] {
      assert |g[i]| == |h[i]| == 8;
    }
  }

  // ---------------------------------------------------------------------
  // shift_board

  /** `np.roll(board, shift=(dx, dy), axis=(0, 1))`: element (i, j) of the
      result is element ((i - dx) mod 8, (j - dy) mod 8) of the input. */
  function Roll(b: Grid, dx: int, dy: int): (g: Grid) {
    seq(8, i requires 0 <= i < 8 => seq(8, j requires 0 <= j < 8 => b[(i - dx) % 8][(j - dy) % 8]))
  }

  /** `g[lo:hi, :] = 0`, the slice clipped to the board as NumPy does. */
  function ZeroRows(g: Grid, lo: int, hi: int): (h: Grid)
    ensures forall i, j :: 0 <= i < 8 && 0 <= j < 8 ==> h[i][j] == if lo <= i < hi then 0 else g[i][j]
  {
    seq(8, i requires 0 <= i < 8 => seq(8, j requires 0 <= j < 8 => if lo <= i < hi then 0 else g[i][j]))
  }

  /** `g[:, lo:hi] = 0`, the slice clipped to the board as NumPy does. */
  function ZeroCols(g: Grid, lo: int, hi: int): (h: Grid)
    ensures forall i, j :: 0 <= i < 8 && 0 <= j < 8 ==> h[i][j] == if lo <= j < hi then 0 else g[i][j]
  {
    seq(8, i requires 0 <= i < 8 => seq(8, j requires 0 <= j < 8 => if lo <= j < hi then 0 else g[i][j]))
  }

  /** shift_board: translate the board by (dx, dy), filling the vacated
      rows and columns with 0 instead of wrapping around.  Cell (i, j) of the
      result is the input cell (i - dx, j - dy) when that is on the board,
      and 0 otherwise, for shifts of any size. */
  method ShiftBoard(board: Grid, dx: int, dy: int) returns (shifted: Grid)
    ensures forall i, j {:trigger shifted[i][j]} :: 0 <= i < 8 && 0 <= j < 8 ==> shifted[i][j] == At(board, i - dx, j - dy)
  {
    shifted := Roll(board, dx, dy);
    if dx > 0 {
      shifted := ZeroRows(shifted, 0, dx);
    } else if dx < 0 {
      shifted := ZeroRows(shifted, 8 + dx, 8);
    }
    if dy > 0 {
      shifted := ZeroCols(shifted, 0, dy);
    } else if dy < 0 {
      shifted := ZeroCols(shifted, 8 + dy, 8);
    }
  }

  /** `m[rows, cols] = True` for the listed on-board cells. */
  function SetCells(m: Mask, cells: seq<(int, int)>): (m': Mask)
    ensures forall i, j :: 0 <= i < 8 && 0 <= j < 8 ==> m'[i][j] == (m[i][j] || (i, j) in cells)
  {
    seq(8, i requires 0 <= i < 8 => seq(8, j requires 0 <= j < 8 => m[i][j] || (i, j) in cells))
  }

  /** `g[m] = v`: every masked cell becomes v, the others keep their value. */
  function Fill(g: Grid, m: Mask, v: int): (h: Grid)
    ensures forall i, j :: 0 <= i < 8 && 0 <= j < 8 ==> h[i][j] == if m[i][j] then v else g[i][j]
  {
    seq(8, i requires 0 <= i < 8 => seq(8, j requires 0 <= j < 8 => if m[i][j] then v else g[i][j]))
  }

  /** `g[r, c] = v`. */
  function Put(g: Grid, r: int, c: int, v: int): (h: Grid)
    requires OnBoard(r, c)
    ensures forall i, j :: 0 <= i < 8 && 0 <= j < 8 ==> h[i][j] == if (i, j) == (r, c) then v else g[i][j]
  {
    g[r := g[r][c := v]]
  }

  // ---------------------------------------------------------------------
  // Counting cells (np.sum(board == v)) over the 64 cells in row-major order.

  /** The cell with row-major index f. */
  function Flat<T>(g: seq<seq<T>>, f: int): T
    requires Is8x8(g) && 0 <= f < 64
  {
    g[f / 8][f % 8]
  }

  /** Number of cells among the first n (row-major) that hold v. */
  function CountUpTo(g: Grid, v: int, n: nat): nat
    requires n <= 64
  {
    if n == 0 then 0 else CountUpTo(g, v, n - 1) + (if Flat(g, n - 1) == v then 1 else 0)
  }

  /** `np.sum(g == v)`.  The whole-board functions bound their recursion
      by |g| * 8, which is 64, rather than the literal: with literal bounds
      the verifier unrolls all 64 steps wherever the function appears. */
  function Count(g: Grid, v: int): nat {
    CountUpTo(g, v, |g| * 8)
  }

  /** Number of set cells among the first n (row-major) of a mask. */
  function MaskCountUpTo(m: Mask, n: nat): nat
    requires n <= 64
  {
    if n == 0 then 0 else MaskCountUpTo(m, n - 1) + (if Flat(m, n - 1) then 1 else 0)
  }

  function MaskCount(m: Mask): nat {
    MaskCountUpTo(m, |m| * 8)
  }

  /** Sum of the first n cells (row-major); `board.sum()` for n = 64. */
  function SumUpTo(g: Grid, n: nat): int
    requires n <= 64
  {
    if n == 0 then 0 else SumUpTo(g, n - 1) + Flat(g, n - 1)
  }

  /** `board.sum()`. */
  function Sum(g: Grid): int {
    SumUpTo(g, |g| * 8)
  }

  /** Row and column of a flat index, and back. */
  lemma FlatOf(i: int, j: int)
    requires 0 <= i < 8 && 0 <= j < 8
    ensures 0 <= i * 8 + j < 64 && (i * 8 + j) / 8 == i && (i * 8 + j) % 8 == j
  {
  }

  /** Placing a disc of player p on an empty target and turning every
      masked cell, each an opponent disc, to p raises p's count by one plus
      the number of masked cells and lowers the opponent's by that number. */
  lemma {:induction false} CountAfterPlacement(b: Grid, b': Grid, m: Mask, t: nat, p: int, n: nat)
    requires p != 0 && t < 64 && n <= 64
    requires Flat(b, t) == 0 && Flat(b', t) == p && !Flat(m, t)
    requires forall f :: 0 <= f < 64 && f != t && Flat(m, f) ==> Flat(b, f) == -p && Flat(b', f) == p
    requires forall f :: 0 <= f < 64 && f != t && !Flat(m, f) ==> Flat(b', f) == Flat(b, f)
    ensures CountUpTo(b', p, n) == CountUpTo(b, p, n) + MaskCountUpTo(m, n) + (if t < n then 1 else 0)
    ensures CountUpTo(b', -p, n) + MaskCountUpTo(m, n) == CountUpTo(b, -p, n)
  {
    if n > 0 {
      CountAfterPlacement(b, b', m, t, p, n - 1);
    }
  }

  /** The mask count is at least one when some cell is set. */
  lemma {:induction false} MaskCountPositive(m: Mask, f: nat, n: nat)
    requires f < n <= 64 && Flat(m, f)
    ensures MaskCountUpTo(m, n) >= 1
  {
    if f < n - 1 {
      MaskCountPositive(m, f, n - 1);
    }
  }

  /** Cells lo .. n-1 that do not hold v add nothing to the count. */
  lemma {:induction false} CountSkip(g: Grid, v: int, lo: nat, n: nat)
    requires lo <= n <= 64
    requires forall f :: lo <= f < n ==> Flat(g, f) != v
    ensures CountUpTo(g, v, n) == CountUpTo(g, v, lo)
  {
    if lo < n {
      CountSkip(g, v, lo, n - 1);
    }
  }

  /** A positive mask count has a set cell among the cells counted. */
  lemma {:induction false} MaskCountWitness(m: Mask, n: nat)
    requires n <= 64 && MaskCountUpTo(m, n) >= 1
    ensures exists f :: 0 <= f < n && Flat(m, f)
  {
    if !Flat(m, n - 1) {
      MaskCountWitness(m, n - 1);
    }
  }

  /** Negating every cell of the board exchanges the counts of v and -v. */
  lemma {:induction false} CountNegated(g: Grid, h: Grid, v: int, n: nat)
    requires n <= 64
    requires forall f :: 0 <= f < 64 ==> Flat(h, f) == -Flat(g, f)
    ensures CountUpTo(h, v, n) == CountUpTo(g, -v, n)
  {
    if n > 0 {
      CountNegated(g, h, v, n - 1);
    }
  }

  /** With every cell in {-1, 0, 1}, the sum of n cells lies in [-n, n]. */
  lemma {:induction false} SumBounded(g: Grid, n: nat)
    requires n <= 64 && Discs(g)
    ensures -(n as int) <= SumUpTo(g, n) <= n
  {
    if n > 0 {
      SumBounded(g, n - 1);
      var f := n - 1;
      assert -1 <= g[f / 8][f % 8] <= 1;
    }
  }
}
