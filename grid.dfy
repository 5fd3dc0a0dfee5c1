/** Cell values, coordinates and the flat row-major buffer that holds the world. */
module Grid {

  /** Number of live variants (`nImg`): a live cell holds one of 1..NImg, a dead cell 0. */
  const NImg: int := 3

  predicate IsVariant(v: int) {
    1 <= v <= NImg
  }

  /** A value the world is meant to hold: dead, or one of the live variants. */
  predicate IsCell(v: int) {
    v == 0 || IsVariant(v)
  }

  /** The liveness test the source applies to a cell value. */
  predicate IsLive(v: int) {
    v > 0
  }

  predicate AllCells(s: seq<int>) {
    forall k :: 0 <= k < |s| ==> IsCell(s[k])
  }

  predicate InGrid(width: int, height: int, x: int, y: int) {
    0 <= x < width && 0 <= y < height
  }

  /** Row-major position of (x, y): the source's `y*width+x`. */
  function Index(width: int, x: int, y: int): int {
    y * width + x
  }

  /** A buffer of `n` dead cells, as `make([]int, n)` gives it. */
  function Dead(n: nat): seq<int> {
    seq(n, _ => 0)
  }

  function Max(a: int, b: int): (r: int)
    ensures a <= r && b <= r
    ensures r == a || r == b
  {
    if a < b then b else a
  }

  function Min(a: int, b: int): (r: int)
    ensures r <= a && r <= b
    ensures r == a || r == b
  {
    if a < b then a else b
  }

  lemma MulMono(a: int, b: int, c: int)
    requires a <= b && 0 <= c
    ensures a * c <= b * c
  {
    assert b * c - a * c == (b - a) * c;
  }

  /** Every position on the grid has its index inside a buffer of width*height cells. */
  lemma IndexInBounds(width: int, height: int, x: int, y: int)
    requires InGrid(width, height, x, y)
    ensures 0 <= Index(width, x, y) < width * height
  {
    MulMono(0, y, width);
    MulMono(y + 1, height, width);
  }

  /** The index of a position on a row determines the position: x is its remainder, y its quotient. */
  lemma IndexCoords(width: int, x: int, y: int)
    requires 0 <= x < width
    ensures Index(width, x, y) % width == x && Index(width, x, y) / width == y
  {
    var k := Index(width, x, y);
    var q, r := k / width, k % width;
    assert k == q * width + r;
    if q < y {
      MulMono(q + 1, y, width);
      assert false;
    } else if q > y {
      MulMono(y + 1, q, width);
      assert false;
    }
  }

  /** Every index of a width*height buffer is the index of exactly one position on the grid. */
  lemma CoordsOfIndex(width: int, height: int, k: int)
    requires 0 <= width && 0 <= height && 0 <= k < width * height
    ensures width > 0
    ensures InGrid(width, height, k % width, k / width)
    ensures Index(width, k % width, k / width) == k
  {
    var q := k / width;
    if q >= height {
      MulMono(height, q, width);
      assert false;
    }
  }

  /** Distinct positions on a row-major grid have distinct indices. */
  lemma IndexInjective(width: int, x1: int, y1: int, x2: int, y2: int)
    requires 0 <= x1 < width && 0 <= x2 < width
    requires Index(width, x1, y1) == Index(width, x2, y2)
    ensures x1 == x2 && y1 == y2
  {
    IndexCoords(width, x1, y1);
    IndexCoords(width, x2, y2);
  }

  /** The cell at (x, y). */
  function At(s: seq<int>, width: int, height: int, x: int, y: int): int
    requires width * height <= |s|
    requires InGrid(width, height, x, y)
  {
    IndexInBounds(width, height, x, y);
    s[Index(width, x, y)]
  }

  /** Number of live cells in a buffer. */
  function LiveCount(s: seq<int>): (n: nat)
    ensures n <= |s|
    ensures n == 0 <==> forall k :: 0 <= k < |s| ==> !IsLive(s[k])
  {
    if s == [] then 0 else (if IsLive(s[0]) then 1 else 0) + LiveCount(s[1..])
  }

  /** Overwriting one cell changes the live count by that cell's liveness only. */
  lemma {:induction false} LiveCountUpdate(s: seq<int>, k: int, v: int)
    requires 0 <= k < |s|
    ensures LiveCount(s[k := v]) + (if IsLive(s[k]) then 1 else 0)
         == LiveCount(s) + (if IsLive(v) then 1 else 0)
  {
    if k > 0 {
      assert s[k := v][1..] == s[1..][k - 1 := v];
      LiveCountUpdate(s[1..], k - 1, v);
    } else {
      assert s[k := v][1..] == s[1..];
    }
  }
}
