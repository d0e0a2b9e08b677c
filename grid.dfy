/**
 * The geometry of the 9x9 grid and the rules a filled-in grid obeys, on grid
 * values (a sequence of rows). The search's contracts are stated with these
 * predicates, and the lemmas here carry the step-by-step reasoning behind
 * them: what one step of the search does to the set of ways the grid can
 * still be finished.
 */
module Grid {
  import opened Lists

  /** Side of the grid (`width`). */
  const Width := 9
  /** Side of a box: the integer square root of `Width`. */
  const BoxSize := 3

  predicate InGrid(i: int, j: int)
  {
    0 <= i < Width && 0 <= j < Width
  }

  /**
   * Place of cell (row, col) in the visiting order of the search: down each
   * column, then on to the next column. The "row == Width" position that the
   * search passes through before wrapping gets the same number as the top of
   * the next column.
   */
  function Pos(row: int, col: int): int
  {
    col * Width + row
  }

  /** Distinct cells have distinct places: the visiting order is a total order on cells. */
  lemma PosInjective(i: int, j: int, i2: int, j2: int)
    requires InGrid(i, j) && InGrid(i2, j2) && Pos(i, j) == Pos(i2, j2)
    ensures i == i2 && j == j2
  {
  }

  /** First row (or column) of the box that row (or column) `x` lies in. */
  function BoxStart(x: int): (s: int)
    requires 0 <= x < Width
    ensures 0 <= s && s + BoxSize <= Width
    ensures s <= x < s + BoxSize
    ensures forall y :: 0 <= y < Width ==> (s <= y < s + BoxSize <==> y / BoxSize == x / BoxSize)
  {
    (x / BoxSize) * BoxSize
  }

  predicate SameBox(r1: int, c1: int, r2: int, c2: int)
  {
    r1 / BoxSize == r2 / BoxSize && c1 / BoxSize == c2 / BoxSize
  }

  /** Cell (r2, c2) lies in the row, the column or the box of cell (r1, c1), itself included. */
  predicate SameUnit(r1: int, c1: int, r2: int, c2: int)
  {
    r1 == r2 || c1 == c2 || SameBox(r1, c1, r2, c2)
  }

  /** Two different cells that share a row, a column or a box. */
  predicate Peers(r1: int, c1: int, r2: int, c2: int)
  {
    (r1 != r2 || c1 != c2) && SameUnit(r1, c1, r2, c2)
  }

  /** A grid as a value: a sequence of rows, 0 marking an empty cell. */
  type Board = seq<seq<int>>

  predicate IsBoard(g: Board)
  {
    |g| == Width && forall i :: 0 <= i < Width ==> |g[i]| == Width
  }

  /** Two boards that agree on every cell are the same board. */
  lemma BoardsEqual(g: Board, h: Board)
    requires IsBoard(g) && IsBoard(h)
    requires forall i, j :: InGrid(i, j) ==> g[i][j] == h[i][j]
    ensures g == h
  {
    forall i | 0 <= i < Width ensures g[i] == h[i] {
      assert forall j :: 0 <= j < Width ==> g[i][j] == h[i][j];
    }
  }

  /** `g` with `v` written into cell (r, c). */
  function Put(g: Board, r: int, c: int, v: int): (h: Board)
    requires IsBoard(g) && InGrid(r, c)
    ensures IsBoard(h)
    ensures forall i, j :: InGrid(i, j) ==> h[i][j] == if i == r && j == c then v else g[i][j]
  {
    g[r := g[r][c := v]]
  }

  /** No cell in the row, the column or the box of (r, c) holds `v`. */
  ghost predicate FreeAt(g: Board, r: int, c: int, v: int)
    requires IsBoard(g) && InGrid(r, c)
  {
    forall i, j :: InGrid(i, j) && SameUnit(r, c, i, j) ==> g[i][j] != v
  }

  /** In `g`, cell (i, j) holds a value in 1..Width that no peer holds. */
  ghost predicate SettledIn(g: Board, i: int, j: int)
    requires IsBoard(g) && InGrid(i, j)
  {
    1 <= g[i][j] <= Width &&
    forall i2, j2 :: InGrid(i2, j2) && Peers(i, j, i2, j2) ==> g[i2][j2] != g[i][j]
  }

  /** `after` agrees with `before` on every cell before place `p` and on every non-empty cell of `before`. */
  ghost predicate Keeps(after: Board, before: Board, p: int)
    requires IsBoard(after) && IsBoard(before)
  {
    forall i, j :: InGrid(i, j) && (Pos(i, j) < p || before[i][j] != 0) ==> after[i][j] == before[i][j]
  }

  /** No cell from place `p` on is empty. */
  ghost predicate NoEmptyFrom(g: Board, p: int)
    requires IsBoard(g)
  {
    forall i, j :: InGrid(i, j) && Pos(i, j) >= p ==> g[i][j] != 0
  }

  /**
   * `b` finishes `g` from place `p`: it keeps the cells before `p` and the
   * non-empty ones, and every cell from `p` on that is empty in `g` holds in
   * `b` a value that no peer holds.
   */
  ghost predicate Completes(b: Board, g: Board, p: int)
    requires IsBoard(g)
  {
    IsBoard(b) && Keeps(b, g, p) &&
    forall i, j :: InGrid(i, j) && Pos(i, j) >= p && g[i][j] == 0 ==> SettledIn(b, i, j)
  }

  /** Every non-empty cell holds a value in 1..Width and no two non-empty peers hold the same value. */
  ghost predicate Consistent(g: Board)
    requires IsBoard(g)
  {
    forall i, j :: InGrid(i, j) && g[i][j] != 0 ==>
      1 <= g[i][j] <= Width && forall i2, j2 :: InGrid(i2, j2) && Peers(i, j, i2, j2) ==> g[i2][j2] != g[i][j]
  }

  /** A finished, valid grid: every cell is settled. */
  ghost predicate IsSolution(g: Board)
    requires IsBoard(g)
  {
    forall i, j :: InGrid(i, j) ==> SettledIn(g, i, j)
  }

  /** A completion from place `p` leaves no empty cell from `p` on. */
  lemma {:induction false} CompletesFills(b: Board, g: Board, p: int)
    requires IsBoard(g) && Completes(b, g, p)
    ensures NoEmptyFrom(b, p)
  {
    forall i, j | InGrid(i, j) && Pos(i, j) >= p ensures b[i][j] != 0 {
      if g[i][j] == 0 {
        assert SettledIn(b, i, j);
      }
    }
  }

  /**
   * Passing over a non-empty cell changes nothing about the completions:
   * they are the completions from the next place.
   */
  lemma {:induction false} CompletesSkip(g: Board, r: int, c: int)
    requires IsBoard(g) && InGrid(r, c) && g[r][c] != 0
    ensures forall b :: Completes(b, g, Pos(r, c)) <==> Completes(b, g, Pos(r, c) + 1)
  {
    var p := Pos(r, c);
    forall i, j | InGrid(i, j) && Pos(i, j) == p ensures i == r && j == c {
      PosInjective(i, j, r, c);
    }
  }

  /**
   * Writing a free value `v` into the empty cell (r, c) and finishing from the
   * next place is exactly finishing from the place of (r, c) with `v` in that cell.
   */
  lemma {:induction false} CompletesTry(b: Board, g: Board, r: int, c: int, v: int)
    requires IsBoard(g) && InGrid(r, c) && g[r][c] == 0
    requires 1 <= v <= Width && FreeAt(g, r, c, v)
    ensures Completes(b, g, Pos(r, c)) && b[r][c] == v <==> Completes(b, Put(g, r, c, v), Pos(r, c) + 1)
  {
    var p := Pos(r, c);
    var t := Put(g, r, c, v);
    forall i, j | InGrid(i, j) && (i != r || j != c) ensures Pos(i, j) != p {
      if Pos(i, j) == p { PosInjective(i, j, r, c); }
    }
    if Completes(b, t, p + 1) {
      assert b[r][c] == v;
      forall i2, j2 | InGrid(i2, j2) && Peers(r, c, i2, j2) ensures b[i2][j2] != v {
        assert SameUnit(r, c, i2, j2);
        if Pos(i2, j2) < p || g[i2][j2] != 0 {
          assert b[i2][j2] == g[i2][j2];
        } else {
          assert SettledIn(b, i2, j2);
          assert Peers(i2, j2, r, c);
        }
      }
      assert SettledIn(b, r, c);
    }
  }

  /** What a completion puts into the empty cell (r, c) is one of that cell's candidates. */
  lemma {:induction false} CompletionIsCandidate(b: Board, g: Board, r: int, c: int)
    requires IsBoard(g) && InGrid(r, c) && g[r][c] == 0
    requires Completes(b, g, Pos(r, c))
    ensures 1 <= b[r][c] <= Width && FreeAt(g, r, c, b[r][c])
  {
    assert SettledIn(b, r, c);
    forall i, j | InGrid(i, j) && SameUnit(r, c, i, j) ensures g[i][j] != b[r][c] {
      if g[i][j] != 0 {
        assert b[i][j] == g[i][j];
        assert Peers(r, c, i, j);
      }
    }
  }

  /**
   * One more candidate tried at the empty cell (r, c), and the search from
   * the next place found no completion: no completion of `g` from the place
   * of (r, c) puts that candidate into the cell either.
   */
  lemma {:induction false} CompletesRuleOut(g: Board, r: int, c: int, candidates: seq<int>, k: int, tried: Board, next: int)
    requires IsBoard(g) && InGrid(r, c) && g[r][c] == 0 && 0 <= k < |candidates|
    requires 1 <= candidates[k] <= Width && FreeAt(g, r, c, candidates[k])
    requires forall b :: Completes(b, g, Pos(r, c)) ==> b[r][c] !in candidates[..k]
    requires tried == Put(g, r, c, candidates[k]) && next == Pos(r, c) + 1
    requires forall b :: !Completes(b, tried, next)
    ensures forall b :: Completes(b, g, Pos(r, c)) ==> b[r][c] !in candidates[..k + 1]
  {
    forall b | Completes(b, g, Pos(r, c)) ensures b[r][c] !in candidates[..k + 1] {
      assert candidates[..k + 1] == candidates[..k] + [candidates[k]];
      CompletesTry(b, g, r, c, candidates[k]);
    }
  }

  /**
   * When every candidate of the empty cell (r, c) has been ruled out, `g` has
   * no completion from the place of (r, c) at all.
   */
  lemma {:induction false} CompletesNone(g: Board, r: int, c: int, candidates: seq<int>)
    requires IsBoard(g) && InGrid(r, c) && g[r][c] == 0
    requires forall v :: 1 <= v <= Width && FreeAt(g, r, c, v) ==> v in candidates
    requires forall b :: Completes(b, g, Pos(r, c)) ==> b[r][c] !in candidates
    ensures forall b :: !Completes(b, g, Pos(r, c))
  {
    forall b | Completes(b, g, Pos(r, c)) ensures false {
      CompletionIsCandidate(b, g, r, c);
    }
  }

  /** Finishing a consistent grid from the first cell gives a valid solution. */
  lemma {:induction false} CompletionOfConsistentIsSolution(b: Board, g: Board)
    requires IsBoard(g) && Consistent(g) && Completes(b, g, 0)
    ensures IsSolution(b)
  {
    forall i, j | InGrid(i, j) ensures SettledIn(b, i, j) {
      if g[i][j] != 0 {
        forall i2, j2 | InGrid(i2, j2) && Peers(i, j, i2, j2) ensures b[i2][j2] != b[i][j] {
          if g[i2][j2] == 0 {
            assert SettledIn(b, i2, j2);
            assert Peers(i2, j2, i, j);
          }
        }
      }
    }
  }

  /**
   * `a` comes before `b` in the order the search tries grids from place `p`:
   * the two agree from `p` up to some cell, and there `a` holds the smaller value.
   */
  ghost predicate Before(a: Board, b: Board, p: int)
    requires IsBoard(a) && IsBoard(b)
  {
    exists i, j :: InGrid(i, j) && Pos(i, j) >= p && a[i][j] < b[i][j] &&
      forall i2, j2 :: InGrid(i2, j2) && p <= Pos(i2, j2) < Pos(i, j) ==> a[i2][j2] == b[i2][j2]
  }

  /** Past the last cell no grid comes before another. */
  lemma NothingBeforeAtEnd(a: Board, b: Board, p: int)
    requires IsBoard(a) && IsBoard(b) && p >= Width * Width
    ensures !Before(a, b, p)
  {
  }

  /**
   * Comparing from the place of (r, c): either `a` holds the smaller value at
   * (r, c), or the two agree there and `a` comes first from the next place.
   */
  lemma {:induction false} BeforeAt(a: Board, b: Board, r: int, c: int, next: int)
    requires IsBoard(a) && IsBoard(b) && InGrid(r, c) && next == Pos(r, c) + 1
    requires Before(a, b, Pos(r, c))
    ensures a[r][c] < b[r][c] || (a[r][c] == b[r][c] && Before(a, b, next))
  {
    var p := Pos(r, c);
    var i, j :| InGrid(i, j) && Pos(i, j) >= p && a[i][j] < b[i][j] &&
      forall i2, j2 :: InGrid(i2, j2) && p <= Pos(i2, j2) < Pos(i, j) ==> a[i2][j2] == b[i2][j2];
    if i != r || j != c {
      if Pos(i, j) == p { PosInjective(i, j, r, c); }
      assert a[r][c] == b[r][c];
      assert Before(a, b, next);
    }
  }

  /**
   * Passing over a given cell keeps the search's answer the least: when no
   * completion from the next place comes before `s`, and `s` keeps the given
   * value, no completion from the place of (r, c) comes before `s` either.
   */
  lemma {:induction false} LeastSkip(g: Board, s: Board, r: int, c: int, next: int)
    requires IsBoard(g) && IsBoard(s) && InGrid(r, c) && g[r][c] != 0 && s[r][c] == g[r][c]
    requires next == Pos(r, c) + 1
    requires forall b :: Completes(b, g, next) ==> !Before(b, s, next)
    ensures forall b :: Completes(b, g, Pos(r, c)) ==> !Before(b, s, Pos(r, c))
  {
    CompletesSkip(g, r, c);
    forall b | Completes(b, g, Pos(r, c)) ensures !Before(b, s, Pos(r, c)) {
      if Before(b, s, Pos(r, c)) {
        BeforeAt(b, s, r, c, next);
      }
    }
  }

  /**
   * The first candidate (in ascending order) that leads to a completion gives
   * the least completion: the smaller candidates were all ruled out, and with
   * this one in the cell the search from the next place found the least.
   */
  lemma {:induction false} LeastTry(g: Board, s: Board, r: int, c: int, candidates: seq<int>, k: int, tried: Board, next: int)
    requires IsBoard(g) && IsBoard(s) && InGrid(r, c) && g[r][c] == 0
    requires StrictlyAscending(candidates) && 0 <= k < |candidates|
    requires forall v :: v in candidates <==> 1 <= v <= Width && FreeAt(g, r, c, v)
    requires forall b :: Completes(b, g, Pos(r, c)) ==> b[r][c] !in candidates[..k]
    requires tried == Put(g, r, c, candidates[k]) && next == Pos(r, c) + 1
    requires s[r][c] == candidates[k]
    requires forall b :: Completes(b, tried, next) ==> !Before(b, s, next)
    ensures forall b :: Completes(b, g, Pos(r, c)) ==> !Before(b, s, Pos(r, c))
  {
    assert candidates[k] in candidates;
    forall b | Completes(b, g, Pos(r, c)) ensures !Before(b, s, Pos(r, c)) {
      if Before(b, s, Pos(r, c)) {
        BeforeAt(b, s, r, c, next);
        CompletionIsCandidate(b, g, r, c);
        CompletesTry(b, g, r, c, candidates[k]);
      }
    }
  }

  /**
   * The search from the next place succeeded with the candidate at index `k`
   * in the empty cell (r, c), and its answer `s` is the least completion of
   * `tried` from there: then `s` is the least completion of `g` from (r, c).
   */
  lemma {:induction false} TryFound(g: Board, s: Board, r: int, c: int, candidates: seq<int>, k: int, tried: Board, next: int)
    requires IsBoard(g) && InGrid(r, c) && g[r][c] == 0
    requires StrictlyAscending(candidates) && 0 <= k < |candidates|
    requires forall v :: v in candidates <==> 1 <= v <= Width && FreeAt(g, r, c, v)
    requires forall b :: Completes(b, g, Pos(r, c)) ==> b[r][c] !in candidates[..k]
    requires tried == Put(g, r, c, candidates[k]) && next == Pos(r, c) + 1
    requires Completes(s, tried, next)
    requires forall b :: Completes(b, tried, next) ==> !Before(b, s, next)
    ensures Completes(s, g, Pos(r, c))
    ensures forall b :: Completes(b, g, Pos(r, c)) ==> !Before(b, s, Pos(r, c))
  {
    assert candidates[k] in candidates;
    assert s[r][c] == tried[r][c];
    CompletesTry(s, g, r, c, candidates[k]);
    LeastTry(g, s, r, c, candidates, k, tried, next);
  }
}
