/** The Moore-neighbourhood count of a cell on a bounded (non-wrapping) grid. */
module Neighbours {
  import opened Grid

  /** 1 when the position at offset (i, j) from (x, y) is counted: never the cell
      itself, never a position off the grid, otherwise when it holds a live cell. */
  function Hit(a: seq<int>, width: int, height: int, x: int, y: int, i: int, j: int): nat
    requires width * height <= |a|
  {
    if i == 0 && j == 0 then 0
    else if !InGrid(width, height, x + i, y + j) then 0
    else if IsLive(At(a, width, height, x + i, y + j)) then 1
    else 0
  }

  /** Hits at offsets (-1, j) .. (i - 1, j): what the inner loop has counted on row j. */
  function RowCount(a: seq<int>, width: int, height: int, x: int, y: int, j: int, i: int): nat
    requires width * height <= |a|
    requires -1 <= i <= 2
    decreases i + 1
  {
    if i == -1 then 0
    else RowCount(a, width, height, x, y, j, i - 1) + Hit(a, width, height, x, y, i - 1, j)
  }

  /** Hits on rows -1 .. j - 1 of the neighbourhood: what the outer loop has counted. */
  function RowsCount(a: seq<int>, width: int, height: int, x: int, y: int, j: int): nat
    requires width * height <= |a|
    requires -1 <= j <= 2
    decreases j + 1
  {
    if j == -1 then 0
    else RowsCount(a, width, height, x, y, j - 1) + RowCount(a, width, height, x, y, j - 1, 2)
  }

  /** Number of live Moore neighbours of (x, y), in the order the loops visit them. */
  function CountSpec(a: seq<int>, width: int, height: int, x: int, y: int): nat
    requires width * height <= |a|
  {
    RowsCount(a, width, height, x, y, 2)
  }

  /** The live neighbours of (x, y) as a set of positions: the eight positions
      around it that lie on the grid and hold a live cell. */
  ghost function LiveNeighbours(a: seq<int>, width: int, height: int, x: int, y: int): set<(int, int)>
    requires width * height <= |a|
  {
    set x2, y2 | x - 1 <= x2 <= x + 1 && y - 1 <= y2 <= y + 1 && (x2, y2) != (x, y)
                 && InGrid(width, height, x2, y2) && IsLive(At(a, width, height, x2, y2))
      :: (x2, y2)
  }

  /** The live neighbours at offsets before (i, j) in the loops' row-major order. */
  ghost function LiveBefore(a: seq<int>, width: int, height: int, x: int, y: int, j: int, i: int): set<(int, int)>
    requires width * height <= |a|
  {
    set x2, y2 | x - 1 <= x2 <= x + 1 && y - 1 <= y2 <= y + 1
                 && (y2 - y < j || (y2 - y == j && x2 - x < i))
                 && Hit(a, width, height, x, y, x2 - x, y2 - y) == 1
      :: (x2, y2)
  }

  lemma LiveBeforeStep(a: seq<int>, width: int, height: int, x: int, y: int, j: int, i: int)
    requires width * height <= |a|
    requires -1 <= j <= 1 && -1 <= i <= 1
    ensures |LiveBefore(a, width, height, x, y, j, i + 1)|
         == |LiveBefore(a, width, height, x, y, j, i)| + Hit(a, width, height, x, y, i, j)
  {
    var s := LiveBefore(a, width, height, x, y, j, i);
    var p := (x + i, y + j);
    assert p !in s;
    if Hit(a, width, height, x, y, i, j) == 1 {
      assert LiveBefore(a, width, height, x, y, j, i + 1) == s + {p};
    } else {
      assert LiveBefore(a, width, height, x, y, j, i + 1) == s;
    }
  }

  lemma {:induction false} LiveBeforeRow(a: seq<int>, width: int, height: int, x: int, y: int, j: int, i: int)
    requires width * height <= |a|
    requires -1 <= j <= 1 && -1 <= i <= 2
    ensures |LiveBefore(a, width, height, x, y, j, i)|
         == |LiveBefore(a, width, height, x, y, j, -1)| + RowCount(a, width, height, x, y, j, i)
  {
    if i > -1 {
      LiveBeforeRow(a, width, height, x, y, j, i - 1);
      LiveBeforeStep(a, width, height, x, y, j, i - 1);
    }
  }

  lemma {:induction false} LiveBeforeRows(a: seq<int>, width: int, height: int, x: int, y: int, j: int)
    requires width * height <= |a|
    requires -1 <= j <= 2
    ensures |LiveBefore(a, width, height, x, y, j, -1)| == RowsCount(a, width, height, x, y, j)
  {
    if j == -1 {
      assert LiveBefore(a, width, height, x, y, j, -1) == {};
    } else {
      LiveBeforeRows(a, width, height, x, y, j - 1);
      LiveBeforeRow(a, width, height, x, y, j - 1, 2);
      assert LiveBefore(a, width, height, x, y, j, -1) == LiveBefore(a, width, height, x, y, j - 1, 2);
    }
  }

  /** The loop's count is exactly the number of live neighbours on the grid. */
  lemma CountIsLiveNeighbours(a: seq<int>, width: int, height: int, x: int, y: int)
    requires width * height <= |a|
    ensures CountSpec(a, width, height, x, y) == |LiveNeighbours(a, width, height, x, y)|
  {
    LiveBeforeRows(a, width, height, x, y, 2);
    assert LiveNeighbours(a, width, height, x, y) == LiveBefore(a, width, height, x, y, 2, -1);
  }

  /** At most the eight surrounding positions are counted. */
  lemma CountBounds(a: seq<int>, width: int, height: int, x: int, y: int)
    requires width * height <= |a|
    ensures CountSpec(a, width, height, x, y) <= 8
  {
    assert Hit(a, width, height, x, y, 0, 0) == 0;
  }

  /** A corner has at most three neighbours: positions off the grid are skipped, not wrapped. */
  lemma CornerCount(a: seq<int>, width: int, height: int)
    requires width * height <= |a|
    ensures CountSpec(a, width, height, 0, 0) <= 3
  {
  }

  /** Two buffers agree on the eight on-grid positions around (x, y). */
  predicate SameWindow(a: seq<int>, b: seq<int>, width: int, height: int, x: int, y: int)
    requires width * height <= |a| && width * height <= |b|
  {
    forall x2, y2 :: x - 1 <= x2 <= x + 1 && y - 1 <= y2 <= y + 1 && (x2, y2) != (x, y)
                     && InGrid(width, height, x2, y2)
                     ==> At(a, width, height, x2, y2) == At(b, width, height, x2, y2)
  }

  /** The count reads nothing but the eight on-grid positions around (x, y). */
  lemma CountLocal(a: seq<int>, b: seq<int>, width: int, height: int, x: int, y: int)
    requires width * height <= |a| && width * height <= |b|
    requires SameWindow(a, b, width, height, x, y)
    ensures CountSpec(a, width, height, x, y) == CountSpec(b, width, height, x, y)
  {
    assert LiveNeighbours(a, width, height, x, y) == LiveNeighbours(b, width, height, x, y);
    CountIsLiveNeighbours(a, width, height, x, y);
    CountIsLiveNeighbours(b, width, height, x, y);
  }

  /** Overwriting (x, y) leaves the eight positions around it as they were. */
  lemma SelfWriteKeepsWindow(a: seq<int>, width: int, height: int, x: int, y: int, v: int)
    requires width * height <= |a|
    requires InGrid(width, height, x, y)
    ensures 0 <= Index(width, x, y) < |a|
    ensures SameWindow(a[Index(width, x, y) := v], a, width, height, x, y)
  {
    IndexInBounds(width, height, x, y);
    var b := a[Index(width, x, y) := v];
    forall x2, y2 | x - 1 <= x2 <= x + 1 && y - 1 <= y2 <= y + 1 && (x2, y2) != (x, y)
                    && InGrid(width, height, x2, y2)
      ensures At(b, width, height, x2, y2) == At(a, width, height, x2, y2)
    {
      var k2 := Index(width, x2, y2);
      IndexInBounds(width, height, x2, y2);
      if k2 == Index(width, x, y) {
        IndexInjective(width, x2, y2, x, y);
        assert false;
      }
      assert b[k2] == a[k2];
    }
  }

  /** The cell itself is never counted: changing it leaves its count unchanged. */
  lemma CountIgnoresSelf(a: seq<int>, width: int, height: int, x: int, y: int, v: int)
    requires width * height <= |a|
    requires InGrid(width, height, x, y)
    ensures 0 <= Index(width, x, y) < |a|
    ensures CountSpec(a[Index(width, x, y) := v], width, height, x, y) == CountSpec(a, width, height, x, y)
  {
    SelfWriteKeepsWindow(a, width, height, x, y, v);
    CountLocal(a[Index(width, x, y) := v], a, width, height, x, y);
  }

  /** The source's `neighbourCount`: nested loops over the offsets j, then i. */
  method NeighbourCount(a: array<int>, width: int, height: int, x: int, y: int) returns (c: int)
    requires width * height <= a.Length
    ensures c == CountSpec(a[..], width, height, x, y)
  {
    c := 0;
    for j := -1 to 2
      invariant c == RowsCount(a[..], width, height, x, y, j)
    {
      for i := -1 to 2
        invariant c == RowsCount(a[..], width, height, x, y, j) + RowCount(a[..], width, height, x, y, j, i)
      {
        if i == 0 && j == 0 {
          continue;
        }
        var x2 := x + i;
        var y2 := y + j;
        if x2 < 0 || y2 < 0 || width <= x2 || height <= y2 {
          continue;
        }
        IndexInBounds(width, height, x2, y2);
        if a[y2 * width + x2] > 0 {
          c := c + 1;
        }
      }
    }
  }
}
