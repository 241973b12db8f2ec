/**
 * Counting cells of the grid: while the snake does not cover the whole
 * grid, some in-grid cell is free, so food generation can succeed.
 */
module Board {
  import opened Rules

  /** The cells with 0 <= x < w and 0 <= y < h. */
  function Rect(w: nat, h: nat): set<Cell> {
    set x: int, y: int | 0 <= x < w && 0 <= y < h :: Cell(x, y)
  }

  /** The cells of column x with 0 <= y < h. */
  function Column(x: int, h: nat): set<Cell> {
    set y: int | 0 <= y < h :: Cell(x, y)
  }

  /** The cells a sequence visits. */
  function Cells(s: seq<Cell>): set<Cell> {
    set i | 0 <= i < |s| :: s[i]
  }

  lemma {:induction false} ColumnSize(x: int, h: nat)
    ensures |Column(x, h)| == h
  {
    if h > 0 {
      ColumnSize(x, h - 1);
      assert Column(x, h) == Column(x, h - 1) + {Cell(x, h - 1)};
    }
  }

  /** A rectangle is the one to its left plus its last column, and the two do not overlap. */
  lemma RectSplit(w: nat, h: nat)
    requires w > 0
    ensures Rect(w, h) == Rect(w - 1, h) + Column(w - 1, h)
    ensures Rect(w - 1, h) !! Column(w - 1, h)
  {
    forall c | c in Rect(w, h) ensures c in Rect(w - 1, h) + Column(w - 1, h) {
      if c.x < w - 1 { assert c in Rect(w - 1, h); } else { assert c in Column(w - 1, h); }
    }
  }

  lemma {:induction false} RectSize(w: nat, h: nat)
    ensures |Rect(w, h)| == w * h
  {
    if w > 0 {
      RectSize(w - 1, h);
      ColumnSize(w - 1, h);
      RectSplit(w, h);
      assert (w - 1) * h + h == w * h;
    }
  }

  /** A duplicate-free sequence visits as many cells as it is long. */
  lemma {:induction false} CellsOfDistinct(s: seq<Cell>)
    requires NoDuplicates(s)
    ensures |Cells(s)| == |s|
  {
    if s != [] {
      var rest := s[1..];
      assert NoDuplicates(rest) by {
        forall i, j | 0 <= i < j < |rest| ensures rest[i] != rest[j] {
          assert rest[i] == s[i + 1] && rest[j] == s[j + 1];
        }
      }
      CellsOfDistinct(rest);
      assert Cells(s) == {s[0]} + Cells(rest) by {
        forall c ensures c in Cells(s) <==> c in {s[0]} + Cells(rest) {
          if c in Cells(s) {
            var i :| 0 <= i < |s| && s[i] == c;
            if i > 0 { assert rest[i - 1] == c; }
          }
          if c in Cells(rest) {
            var i :| 0 <= i < |rest| && rest[i] == c;
            assert s[i + 1] == c;
          }
        }
      }
      assert s[0] !in Cells(rest);
    }
  }

  /**
   * A duplicate-free body shorter than the number of grid cells leaves some
   * in-grid cell free.
   */
  lemma FreeCellExists(s: seq<Cell>)
    requires NoDuplicates(s)
    requires |s| < GridCount * GridCount
    ensures exists c: Cell :: InBounds(c) && c !in s
  {
    if forall c: Cell :: InBounds(c) ==> c in s {
      assert Rect(GridCount, GridCount) <= Cells(s) by {
        forall c | c in Rect(GridCount, GridCount) ensures c in Cells(s) {
          assert InBounds(c);
          assert c in s;
        }
      }
      RectSize(GridCount, GridCount);
      CellsOfDistinct(s);
      SubsetSize(Rect(GridCount, GridCount), Cells(s));
      assert false;
    }
  }

  lemma SubsetSize(a: set<Cell>, b: set<Cell>)
    requires a <= b
    ensures |a| <= |b|
  {
    assert b == a + (b - a);
  }

  /**
   * While some grid cell is not yet covered by the snake, a food draw can
   * succeed: a tick onto the food on a board that the grown snake does not
   * fill has an in-grid cell for the new food.
   */
  lemma FoodCellAfterEating(g: GameView)
    requires WellFormed(g) && WillEat(g)
    requires g.score + 2 < GridCount * GridCount
    ensures exists c: Cell :: InBounds(c) && c !in [g.food] + g.snake
  {
    var grown := [g.food] + g.snake;
    PrependDistinct(g.food, g.snake, |g.snake|);
    assert g.snake[..|g.snake|] == g.snake;
    FreeCellExists(grown);
  }
}
