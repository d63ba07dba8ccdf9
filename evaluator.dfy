/**
 * The static evaluator of `AlphaBetaAI` (js/alphabeta.js) as functions on a board: the
 * centre-column term, the score of one window of four cells, and the sums over the 69
 * windows the engine visits on its hard-coded 7-by-6 board. The methods of the engine
 * class in alphabeta.dfy are proved against these.
 */
module Evaluation {
  import opened Board

  /** The board the evaluator assumes: at least 7 columns of at least 6 cells. */
  predicate Covers(g: Grid) {
    |g| >= 7 && forall c :: 0 <= c < 7 ==> |g[c]| >= 6
  }

  /** The four cells from (c, r) stepping by (dc, dr) all lie within the 7-by-6 board. */
  predicate Fits(c: int, r: int, dc: int, dr: int) {
    IsStep(dc, dr) && InBounds(7, 6, c, r) && InBounds(7, 6, c + Offset(3, dc), r + Offset(3, dr))
  }

  /** How many of the first n cells of the window hold `who`. */
  function CountIn(g: Grid, c: int, r: int, dc: int, dr: int, n: nat, who: Cell): (k: nat)
    requires Covers(g) && Fits(c, r, dc, dr) && n <= 4
    ensures k <= n
  {
    if n == 0 then 0
    else
      CountIn(g, c, r, dc, dr, n - 1, who) +
      (if g[c + Offset(n - 1, dc)][r + Offset(n - 1, dr)] == who then 1 else 0)
  }

  /** Cell n of a window that fits lies on the board. */
  lemma CellOnBoard(c: int, r: int, dc: int, dr: int, n: nat)
    requires Fits(c, r, dc, dr) && n < 4
    ensures InBounds(7, 6, c + Offset(n, dc), r + Offset(n, dr))
  {
  }

  /** a, o and e are the AI's, the opponent's and the remaining cells among the first n of the window. */
  predicate Counted(g: Grid, c: int, r: int, dc: int, dr: int, n: nat, ai: Player, a: int, o: int, e: int)
    requires Covers(g) && Fits(c, r, dc, dr) && n <= 4
  {
    a == CountIn(g, c, r, dc, dr, n, Stone(ai)) && o == CountIn(g, c, r, dc, dr, n, Stone(Other(ai))) && a + o + e == n
  }

  /** Counting cell n of a window, by adding one to exactly one of the three counts, extends `Counted`. */
  lemma CountStep(g: Grid, c: int, r: int, dc: int, dr: int, n: nat, ai: Player, cell: Cell,
                  a: int, o: int, e: int, a': int, o': int, e': int)
    requires Covers(g) && Fits(c, r, dc, dr) && n < 4 && Counted(g, c, r, dc, dr, n, ai, a, o, e)
    requires InBounds(7, 6, c + Offset(n, dc), r + Offset(n, dr)) && cell == g[c + Offset(n, dc)][r + Offset(n, dr)]
    requires a' == a + (if cell == Stone(ai) then 1 else 0) && o' == o + (if cell == Stone(Other(ai)) then 1 else 0)
    requires a' + o' + e' == a + o + e + 1
    ensures Counted(g, c, r, dc, dr, n + 1, ai, a', o', e')
  {
  }

  /** Every cell of a window is the AI's, the opponent's or empty, so the three counts add up. */
  lemma {:induction false} CountsAddUp(g: Grid, c: int, r: int, dc: int, dr: int, n: nat, ai: Player)
    requires Covers(g) && Fits(c, r, dc, dr) && n <= 4
    ensures CountIn(g, c, r, dc, dr, n, Stone(ai)) + CountIn(g, c, r, dc, dr, n, Stone(Other(ai))) +
            CountIn(g, c, r, dc, dr, n, Empty) == n
  {
    if n > 0 {
      CountsAddUp(g, c, r, dc, dr, n - 1, ai);
      var cell := g[c + Offset(n - 1, dc)][r + Offset(n - 1, dr)];
      assert cell == Empty || cell == Stone(ai) || cell == Stone(Other(ai)) by {
        if cell.Stone? && cell.owner != ai {
          assert cell.owner == Other(ai);
        }
      }
    }
  }

  /**
   * The scoring ladder of `evaluateWindow` for a window holding a of the AI's pieces and o of
   * the opponent's: four of one side, three or two of one side with none of the other, else 0.
   */
  function WindowScore(a: nat, o: nat): (s: int)
    requires a + o <= 4
    ensures s == 1000 <==> a == 4
    ensures s == -1000 <==> o == 4
    ensures s == 50 <==> a == 3 && o == 0
    ensures s == 10 <==> a == 2 && o == 0
    ensures s == -50 <==> o == 3 && a == 0
    ensures s == -10 <==> o == 2 && a == 0
    ensures s == 0 <==> (a < 2 && o < 2) || (a > 0 && o > 0)
  {
    if a == 4 then 1000
    else if o == 4 then -1000
    else if o == 0 && a == 3 then 50
    else if o == 0 && a == 2 then 10
    else if a == 0 && o == 3 then -50
    else if a == 0 && o == 2 then -10
    else 0
  }

  /** n cells of a window hold `who` exactly when each of its first n cells does. */
  lemma {:induction false} CountAll(g: Grid, c: int, r: int, dc: int, dr: int, n: nat, who: Cell)
    requires Covers(g) && Fits(c, r, dc, dr) && n <= 4
    ensures CountIn(g, c, r, dc, dr, n, who) == n <==>
            forall i :: 0 <= i < n ==> g[c + Offset(i, dc)][r + Offset(i, dr)] == who
  {
    if n > 0 {
      CountAll(g, c, r, dc, dr, n - 1, who);
    }
  }

  /**
   * The score of the window from (c, r) stepping by (dc, dr), from the side of `ai`: a
   * completed four (1000 or -1000), or at most 50 either way.
   */
  function Window(g: Grid, c: int, r: int, dc: int, dr: int, ai: Player): (w: int)
    requires Covers(g) && Fits(c, r, dc, dr)
    ensures w == 1000 || w == -1000 || -50 <= w <= 50
  {
    CountsAddUp(g, c, r, dc, dr, 4, ai);
    WindowScore(CountIn(g, c, r, dc, dr, 4, Stone(ai)), CountIn(g, c, r, dc, dr, 4, Stone(Other(ai))))
  }

  /** A window scores 1000 exactly when all four cells are the AI's, -1000 exactly when all four are the opponent's. */
  lemma WindowFour(g: Grid, c: int, r: int, dc: int, dr: int, ai: Player)
    requires Covers(g) && Fits(c, r, dc, dr)
    ensures Window(g, c, r, dc, dr, ai) == 1000 <==>
            forall i :: 0 <= i < 4 ==> g[c + Offset(i, dc)][r + Offset(i, dr)] == Stone(ai)
    ensures Window(g, c, r, dc, dr, ai) == -1000 <==>
            forall i :: 0 <= i < 4 ==> g[c + Offset(i, dc)][r + Offset(i, dr)] == Stone(Other(ai))
  {
    CountsAddUp(g, c, r, dc, dr, 4, ai);
    CountAll(g, c, r, dc, dr, 4, Stone(ai));
    CountAll(g, c, r, dc, dr, 4, Stone(Other(ai)));
  }

  /** The horizontal windows starting in the first n columns of row r. */
  function RowWindows(g: Grid, r: int, n: nat, ai: Player): (v: int)
    requires Covers(g) && 0 <= r < 6 && n <= 4
    ensures -1000 * n <= v <= 1000 * n
  {
    if n == 0 then 0 else RowWindows(g, r, n - 1, ai) + Window(g, n - 1, r, 1, 0, ai)
  }

  /** The horizontal windows of the first n rows. */
  function Horizontal(g: Grid, n: nat, ai: Player): (v: int)
    requires Covers(g) && n <= 6
    ensures -4000 * n <= v <= 4000 * n
  {
    if n == 0 then 0 else Horizontal(g, n - 1, ai) + RowWindows(g, n - 1, 4, ai)
  }

  /** The windows along (dc, dr) that start in column c at rows r0 .. r - 1. */
  function ColWindows(g: Grid, c: int, r0: int, r: int, dc: int, dr: int, ai: Player): (v: int)
    requires Covers(g) && r0 <= r
    requires forall y :: r0 <= y < r ==> Fits(c, y, dc, dr)
    ensures -1000 * (r - r0) <= v <= 1000 * (r - r0)
    decreases r - r0
  {
    if r == r0 then 0 else ColWindows(g, c, r0, r - 1, dc, dr, ai) + Window(g, c, r - 1, dc, dr, ai)
  }

  /** The windows along (dc, dr) that start in the first n columns at rows r0 .. r1 - 1. */
  function Columns(g: Grid, n: nat, r0: int, r1: int, dc: int, dr: int, ai: Player): (v: int)
    requires Covers(g) && r0 <= r1 <= r0 + 3
    requires forall x, y :: 0 <= x < n && r0 <= y < r1 ==> Fits(x, y, dc, dr)
    ensures -3000 * n <= v <= 3000 * n
  {
    if n == 0 then 0 else Columns(g, n - 1, r0, r1, dc, dr, ai) + ColWindows(g, n - 1, r0, r1, dc, dr, ai)
  }

  /**
   * `evaluateLines`: 24 horizontal windows, 21 vertical ones, 12 rising diagonals starting in
   * the bottom three rows and 12 falling diagonals starting in the top three rows.
   */
  function LinesScore(g: Grid, ai: Player): (v: int)
    requires Covers(g)
    ensures -69000 <= v <= 69000
  {
    GroupsFit();
    Horizontal(g, 6, ai) + Columns(g, 7, 0, 3, 0, 1, ai) + Columns(g, 4, 0, 3, 1, 1, ai) + Columns(g, 4, 3, 6, 1, -1, ai)
  }

  /** The vertical and the two diagonal groups of windows lie within the 7-by-6 board. */
  lemma GroupsFit()
    ensures forall x, y :: 0 <= x < 7 && 0 <= y < 3 ==> Fits(x, y, 0, 1)
    ensures forall x, y :: 0 <= x < 4 && 0 <= y < 3 ==> Fits(x, y, 1, 1)
    ensures forall x, y :: 0 <= x < 4 && 3 <= y < 6 ==> Fits(x, y, 1, -1)
  {
  }

  /** The centre-column term over the first n rows of column 3: +3 per AI piece, -3 per opponent piece. */
  function CenterTerm(g: Grid, n: nat, ai: Player): (v: int)
    requires Covers(g) && n <= 6
    ensures -3 * n <= v <= 3 * n
  {
    if n == 0 then 0
    else CenterTerm(g, n - 1, ai) + (if g[3][n - 1] == Stone(ai) then 3 else if g[3][n - 1] == Stone(Other(ai)) then -3 else 0)
  }

  /** `AlphaBetaAI.evaluate(state, ai)`: the centre-column term plus every window. */
  function BoardScore(g: Grid, ai: Player): (v: int)
    requires Covers(g)
    ensures -69018 <= v <= 69018
  {
    CenterTerm(g, 6, ai) + LinesScore(g, ai)
  }

  /** A window scores the same for either side, with the sign flipped. */
  lemma WindowAntisymmetric(g: Grid, c: int, r: int, dc: int, dr: int, ai: Player)
    requires Covers(g) && Fits(c, r, dc, dr)
    ensures Window(g, c, r, dc, dr, Other(ai)) == -Window(g, c, r, dc, dr, ai)
  {
    CountsAddUp(g, c, r, dc, dr, 4, ai);
    assert Other(Other(ai)) == ai;
  }

  lemma {:induction false} RowWindowsAntisymmetric(g: Grid, r: int, n: nat, ai: Player)
    requires Covers(g) && 0 <= r < 6 && n <= 4
    ensures RowWindows(g, r, n, Other(ai)) == -RowWindows(g, r, n, ai)
  {
    if n > 0 {
      RowWindowsAntisymmetric(g, r, n - 1, ai);
      WindowAntisymmetric(g, n - 1, r, 1, 0, ai);
    }
  }

  lemma {:induction false} HorizontalAntisymmetric(g: Grid, n: nat, ai: Player)
    requires Covers(g) && n <= 6
    ensures Horizontal(g, n, Other(ai)) == -Horizontal(g, n, ai)
  {
    if n > 0 {
      HorizontalAntisymmetric(g, n - 1, ai);
      RowWindowsAntisymmetric(g, n - 1, 4, ai);
    }
  }

  lemma {:induction false} ColWindowsAntisymmetric(g: Grid, c: int, r0: int, r: int, dc: int, dr: int, ai: Player)
    requires Covers(g) && r0 <= r
    requires forall y :: r0 <= y < r ==> Fits(c, y, dc, dr)
    ensures ColWindows(g, c, r0, r, dc, dr, Other(ai)) == -ColWindows(g, c, r0, r, dc, dr, ai)
    decreases r - r0
  {
    if r > r0 {
      ColWindowsAntisymmetric(g, c, r0, r - 1, dc, dr, ai);
      WindowAntisymmetric(g, c, r - 1, dc, dr, ai);
    }
  }

  lemma {:induction false} ColumnsAntisymmetric(g: Grid, n: nat, r0: int, r1: int, dc: int, dr: int, ai: Player)
    requires Covers(g) && r0 <= r1 <= r0 + 3
    requires forall x, y :: 0 <= x < n && r0 <= y < r1 ==> Fits(x, y, dc, dr)
    ensures Columns(g, n, r0, r1, dc, dr, Other(ai)) == -Columns(g, n, r0, r1, dc, dr, ai)
  {
    if n > 0 {
      ColumnsAntisymmetric(g, n - 1, r0, r1, dc, dr, ai);
      ColWindowsAntisymmetric(g, n - 1, r0, r1, dc, dr, ai);
    }
  }

  lemma {:induction false} CenterTermAntisymmetric(g: Grid, n: nat, ai: Player)
    requires Covers(g) && n <= 6
    ensures CenterTerm(g, n, Other(ai)) == -CenterTerm(g, n, ai)
  {
    if n > 0 {
      CenterTermAntisymmetric(g, n - 1, ai);
      assert Other(Other(ai)) == ai;
    }
  }

  /** The evaluation is zero-sum: what one side gains the other loses. */
  lemma BoardScoreAntisymmetric(g: Grid, ai: Player)
    requires Covers(g)
    ensures BoardScore(g, Other(ai)) == -BoardScore(g, ai)
  {
    GroupsFit();
    CenterTermAntisymmetric(g, 6, ai);
    HorizontalAntisymmetric(g, 6, ai);
    ColumnsAntisymmetric(g, 7, 0, 3, 0, 1, ai);
    ColumnsAntisymmetric(g, 4, 0, 3, 1, 1, ai);
    ColumnsAntisymmetric(g, 4, 3, 6, 1, -1, ai);
  }

  /** Two boards agree on the 7-by-6 area the evaluator reads. */
  predicate SameArea(g: Grid, h: Grid)
    requires Covers(g) && Covers(h)
  {
    forall x, y :: 0 <= x < 7 && 0 <= y < 6 ==> g[x][y] == h[x][y]
  }

  lemma {:induction false} CountInArea(g: Grid, h: Grid, c: int, r: int, dc: int, dr: int, n: nat, who: Cell)
    requires Covers(g) && Covers(h) && SameArea(g, h) && Fits(c, r, dc, dr) && n <= 4
    ensures CountIn(g, c, r, dc, dr, n, who) == CountIn(h, c, r, dc, dr, n, who)
  {
    if n > 0 {
      CountInArea(g, h, c, r, dc, dr, n - 1, who);
    }
  }

  lemma WindowArea(g: Grid, h: Grid, c: int, r: int, dc: int, dr: int, ai: Player)
    requires Covers(g) && Covers(h) && SameArea(g, h) && Fits(c, r, dc, dr)
    ensures Window(g, c, r, dc, dr, ai) == Window(h, c, r, dc, dr, ai)
  {
    CountInArea(g, h, c, r, dc, dr, 4, Stone(ai));
    CountInArea(g, h, c, r, dc, dr, 4, Stone(Other(ai)));
  }

  lemma {:induction false} RowWindowsArea(g: Grid, h: Grid, r: int, n: nat, ai: Player)
    requires Covers(g) && Covers(h) && SameArea(g, h) && 0 <= r < 6 && n <= 4
    ensures RowWindows(g, r, n, ai) == RowWindows(h, r, n, ai)
  {
    if n > 0 {
      RowWindowsArea(g, h, r, n - 1, ai);
      WindowArea(g, h, n - 1, r, 1, 0, ai);
    }
  }

  lemma {:induction false} HorizontalArea(g: Grid, h: Grid, n: nat, ai: Player)
    requires Covers(g) && Covers(h) && SameArea(g, h) && n <= 6
    ensures Horizontal(g, n, ai) == Horizontal(h, n, ai)
  {
    if n > 0 {
      HorizontalArea(g, h, n - 1, ai);
      RowWindowsArea(g, h, n - 1, 4, ai);
    }
  }

  lemma {:induction false} ColWindowsArea(g: Grid, h: Grid, c: int, r0: int, r: int, dc: int, dr: int, ai: Player)
    requires Covers(g) && Covers(h) && SameArea(g, h) && r0 <= r
    requires forall y :: r0 <= y < r ==> Fits(c, y, dc, dr)
    ensures ColWindows(g, c, r0, r, dc, dr, ai) == ColWindows(h, c, r0, r, dc, dr, ai)
    decreases r - r0
  {
    if r > r0 {
      ColWindowsArea(g, h, c, r0, r - 1, dc, dr, ai);
      WindowArea(g, h, c, r - 1, dc, dr, ai);
    }
  }

  lemma {:induction false} ColumnsArea(g: Grid, h: Grid, n: nat, r0: int, r1: int, dc: int, dr: int, ai: Player)
    requires Covers(g) && Covers(h) && SameArea(g, h) && r0 <= r1 <= r0 + 3
    requires forall x, y :: 0 <= x < n && r0 <= y < r1 ==> Fits(x, y, dc, dr)
    ensures Columns(g, n, r0, r1, dc, dr, ai) == Columns(h, n, r0, r1, dc, dr, ai)
  {
    if n > 0 {
      ColumnsArea(g, h, n - 1, r0, r1, dc, dr, ai);
      ColWindowsArea(g, h, n - 1, r0, r1, dc, dr, ai);
    }
  }

  lemma {:induction false} CenterTermArea(g: Grid, h: Grid, n: nat, ai: Player)
    requires Covers(g) && Covers(h) && SameArea(g, h) && n <= 6
    ensures CenterTerm(g, n, ai) == CenterTerm(h, n, ai)
  {
    if n > 0 {
      CenterTermArea(g, h, n - 1, ai);
    }
  }

  /** The evaluation reads nothing outside columns 0..6 and rows 0..5, however large the board. */
  lemma BoardScoreArea(g: Grid, h: Grid, ai: Player)
    requires Covers(g) && Covers(h) && SameArea(g, h)
    ensures BoardScore(g, ai) == BoardScore(h, ai)
  {
    GroupsFit();
    CenterTermArea(g, h, 6, ai);
    HorizontalArea(g, h, 6, ai);
    ColumnsArea(g, h, 7, 0, 3, 0, 1, ai);
    ColumnsArea(g, h, 4, 0, 3, 1, 1, ai);
    ColumnsArea(g, h, 4, 3, 6, 1, -1, ai);
  }
}
