/** `calculateScreenPosition` of linenoise/src/linenoise.cpp. */
module ScreenPosition {

  /** Where the cursor is after `count` more cells on rows of `columns`. */
  predicate IsPosition(columns: nat, cells: nat, y: nat, xOut: nat, yOut: nat)
    requires columns > 0
  {
    xOut < columns && yOut >= y && (yOut - y) * columns + xOut == cells
  }

  /**
    The loop, row by row, and the wrap at its end: the position that many cells on, unless it starts off
    the screen and goes nowhere.
   */
  method CalculateScreenPosition(xIn: nat, yIn: nat, screenColumns: nat, charCount: nat) returns (xOut: nat, yOut: nat)
    requires screenColumns > 0
    ensures IsPosition(screenColumns, xIn + charCount, yIn, xOut, yOut) <==> charCount > 0 || xIn <= screenColumns
  {
    var x, y := xIn, yIn;
    xOut, yOut := xIn, yIn;
    var charsRemaining: int := charCount;
    ghost var above := 0;
    while charsRemaining > 0
      invariant charsRemaining >= 0 && y >= yIn
      invariant y == yIn ==> x == xIn && charsRemaining == charCount && xOut == xIn && yOut == yIn && above == 0
      invariant y > yIn ==>
        x == 0 && yOut == y - 1 && xOut <= screenColumns && (charsRemaining > 0 ==> xOut == screenColumns)
      invariant y > yIn ==> charCount > 0 && above + xOut + charsRemaining == xIn + charCount
      invariant above == (yOut - yIn) * screenColumns
      decreases x >= screenColumns, charsRemaining
    {
      var charsThisRow := if x + charsRemaining < screenColumns then charsRemaining else screenColumns - x;
      xOut := x + charsThisRow;
      if y > yIn {
        above := above + screenColumns;
        Row(y - 1 - yIn, screenColumns);
      }
      yOut := y;
      charsRemaining := charsRemaining - charsThisRow;
      x := 0;
      y := y + 1;
    }
    if xOut == screenColumns {
      Row(yOut - yIn, screenColumns);
      xOut := 0;
      yOut := yOut + 1;
    }
  }

  lemma Row(rows: int, columns: int)
    ensures (rows + 1) * columns == rows * columns + columns
  {
  }

  /** The position is that of division, and the only one. */
  lemma PositionIsDivision(columns: nat, cells: nat, y: nat, xOut: nat, yOut: nat)
    requires columns > 0
    ensures IsPosition(columns, cells, y, xOut, yOut) <==> xOut == cells % columns && yOut == y + cells / columns
  {
    var q, r := cells / columns, cells % columns;
    assert q * columns + r == cells;
    if IsPosition(columns, cells, y, xOut, yOut) {
      var d := yOut - y;
      assert (d - q) * columns == r - xOut by {
        assert d * columns + xOut == q * columns + r;
        assert (d - q) * columns == d * columns - q * columns;
      }
      assert (q - d) * columns == xOut - r by {
        assert (q - d) * columns == q * columns - d * columns;
      }
      if d > q {
        AtLeast(d - q, columns);
      } else if d < q {
        AtLeast(q - d, columns);
      }
    }
  }

  lemma AtLeast(rows: nat, columns: nat)
    requires rows >= 1
    ensures rows * columns >= columns
  {
    Row(rows - 1, columns);
  }
}
