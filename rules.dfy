/** The rule table of one generation step: which value a cell may take next. */
module Rules {
  import opened Grid
  import opened Neighbours

  /** The cases of the source's rule `switch`, in the order they are tried;
      NoRule is the fall-through when no guard holds. */
  datatype Rule = Underpopulation | Survival | Overpopulation | Birth | NoRule

  /** The first case whose guard holds for a cell of value `cell` with `pop` live neighbours. */
  function Select(cell: int, pop: int): (r: Rule)
    ensures r == Underpopulation <==> pop < 2
    ensures r == Survival <==> (pop == 2 || pop == 3) && IsLive(cell)
    ensures r == Overpopulation <==> pop > 3
    ensures r == Birth <==> pop == 3 && !IsLive(cell)
    ensures r == NoRule <==> pop == 2 && !IsLive(cell)
  {
    if pop < 2 then Underpopulation
    else if (pop == 2 || pop == 3) && IsLive(cell) then Survival
    else if pop > 3 then Overpopulation
    else if pop == 3 then Birth
    else NoRule
  }

  /** Whether the selected case writes a freshly drawn variant (rather than 0, or nothing). */
  function Survives(cell: int, pop: int): (b: bool)
    ensures b <==> pop == 3 || (pop == 2 && IsLive(cell))
  {
    var r := Select(cell, pop);
    r == Survival || r == Birth
  }

  /** `v` is a value the step may leave at index k of the new buffer, given the old buffer g:
      some variant if the cell lives on or is born, 0 otherwise. */
  predicate CellFollows(g: seq<int>, width: int, height: int, k: int, v: int)
    requires 0 <= width && 0 <= height && |g| == width * height
    requires 0 <= k < |g|
  {
    CoordsOfIndex(width, height, k);
    if Survives(g[k], CountSpec(g, width, height, k % width, k / width)) then IsVariant(v) else v == 0
  }

  /** `n` is a possible next generation of `g`: same size, every cell follows the rules from `g`. */
  predicate IsNextGeneration(g: seq<int>, n: seq<int>, width: int, height: int)
    requires 0 <= width && 0 <= height && |g| == width * height
  {
    |n| == |g| && forall k :: 0 <= k < |g| ==> CellFollows(g, width, height, k, n[k])
  }

  /** A next generation holds only dead cells and variants, whatever the old buffer held. */
  lemma NextGenerationCells(g: seq<int>, n: seq<int>, width: int, height: int)
    requires 0 <= width && 0 <= height && |g| == width * height
    requires IsNextGeneration(g, n, width, height)
    ensures |n| == width * height && AllCells(n)
  {
    forall k | 0 <= k < |n| ensures IsCell(n[k]) {
      assert CellFollows(g, width, height, k, n[k]);
    }
  }

  /** Cell (x, y) of a next generation is live exactly when classic Life says so for the old grid:
      born on 3 neighbours, survives on 2 or 3. Only the variant is left open. */
  lemma NextGenerationLiveness(g: seq<int>, n: seq<int>, width: int, height: int, x: int, y: int)
    requires 0 <= width && 0 <= height && |g| == width * height
    requires IsNextGeneration(g, n, width, height)
    requires InGrid(width, height, x, y)
    ensures 0 <= Index(width, x, y) < |n|
    ensures var pop := CountSpec(g, width, height, x, y);
            IsLive(n[Index(width, x, y)]) <==> pop == 3 || (pop == 2 && IsLive(At(g, width, height, x, y)))
  {
    var k := Index(width, x, y);
    IndexInBounds(width, height, x, y);
    IndexCoords(width, x, y);
    assert CellFollows(g, width, height, k, n[k]);
  }

  /** Two next generations of the same grid differ only in variants: the liveness of every
      cell is fixed by the old grid alone. */
  lemma LivenessDetermined(g: seq<int>, n1: seq<int>, n2: seq<int>, width: int, height: int)
    requires 0 <= width && 0 <= height && |g| == width * height
    requires IsNextGeneration(g, n1, width, height) && IsNextGeneration(g, n2, width, height)
    ensures |n1| == |n2|
    ensures forall k :: 0 <= k < |n1| ==> (IsLive(n1[k]) <==> IsLive(n2[k]))
  {
    forall k | 0 <= k < |n1| ensures IsLive(n1[k]) <==> IsLive(n2[k]) {
      assert CellFollows(g, width, height, k, n1[k]);
      assert CellFollows(g, width, height, k, n2[k]);
    }
  }

  /** Whether cell k may take value v depends only on the old cell and its eight neighbours,
      so the cells of a generation can be computed in any order. */
  lemma CellFollowsLocal(g: seq<int>, h: seq<int>, width: int, height: int, k: int, v: int)
    requires 0 <= width && 0 <= height && |g| == width * height && |h| == width * height
    requires 0 <= k < |g|
    requires width > 0 && g[k] == h[k] && SameWindow(g, h, width, height, k % width, k / width)
    ensures CellFollows(g, width, height, k, v) == CellFollows(h, width, height, k, v)
  {
    CountLocal(g, h, width, height, k % width, k / width);
  }

  /** Under- and over-population: a cell with fewer than two or more than three live
      neighbours is dead in every next generation, whether it was live or dead. */
  lemma CrowdingKills(g: seq<int>, n: seq<int>, width: int, height: int, x: int, y: int)
    requires 0 <= width && 0 <= height && |g| == width * height
    requires IsNextGeneration(g, n, width, height)
    requires InGrid(width, height, x, y)
    requires CountSpec(g, width, height, x, y) < 2 || CountSpec(g, width, height, x, y) > 3
    ensures 0 <= Index(width, x, y) < |n| && n[Index(width, x, y)] == 0
  {
    IndexInBounds(width, height, x, y);
    IndexCoords(width, x, y);
    assert CellFollows(g, width, height, Index(width, x, y), n[Index(width, x, y)]);
  }

  /** Birth and survival on three: a cell with exactly three live neighbours holds a
      variant in every next generation, whether it was live or dead. */
  lemma ThreeGivesLife(g: seq<int>, n: seq<int>, width: int, height: int, x: int, y: int)
    requires 0 <= width && 0 <= height && |g| == width * height
    requires IsNextGeneration(g, n, width, height)
    requires InGrid(width, height, x, y)
    requires CountSpec(g, width, height, x, y) == 3
    ensures 0 <= Index(width, x, y) < |n| && IsVariant(n[Index(width, x, y)])
  {
    IndexInBounds(width, height, x, y);
    IndexCoords(width, x, y);
    assert CellFollows(g, width, height, Index(width, x, y), n[Index(width, x, y)]);
  }

  /** With exactly two live neighbours a cell keeps its liveness: a live cell holds a
      variant, and a dead cell matches no case and stays 0. */
  lemma TwoKeepsLiveness(g: seq<int>, n: seq<int>, width: int, height: int, x: int, y: int)
    requires 0 <= width && 0 <= height && |g| == width * height
    requires IsNextGeneration(g, n, width, height)
    requires InGrid(width, height, x, y)
    requires CountSpec(g, width, height, x, y) == 2
    ensures 0 <= Index(width, x, y) < |n|
    ensures IsLive(At(g, width, height, x, y)) ==> IsVariant(n[Index(width, x, y)])
    ensures !IsLive(At(g, width, height, x, y)) ==> n[Index(width, x, y)] == 0
  {
    IndexInBounds(width, height, x, y);
    IndexCoords(width, x, y);
    assert CellFollows(g, width, height, Index(width, x, y), n[Index(width, x, y)]);
  }

  /** The variant of a live outcome is drawn afresh: in a next generation, replacing the
      value of a cell that lives on or is born by any variant gives a next generation again. */
  lemma AnyVariantPossible(g: seq<int>, n: seq<int>, width: int, height: int, x: int, y: int, v: int)
    requires 0 <= width && 0 <= height && |g| == width * height
    requires IsNextGeneration(g, n, width, height)
    requires InGrid(width, height, x, y)
    requires Survives(At(g, width, height, x, y), CountSpec(g, width, height, x, y))
    requires IsVariant(v)
    ensures 0 <= Index(width, x, y) < |n|
    ensures IsNextGeneration(g, n[Index(width, x, y) := v], width, height)
  {
    var k := Index(width, x, y);
    IndexInBounds(width, height, x, y);
    IndexCoords(width, x, y);
    var n' := n[k := v];
    forall j | 0 <= j < |g| ensures CellFollows(g, width, height, j, n'[j]) {
      if j != k {
        assert CellFollows(g, width, height, j, n[j]);
      }
    }
  }

  function Bit(v: int): nat {
    if IsLive(v) then 1 else 0
  }

  /** On a 3x3 grid the centre has all eight other cells as neighbours. */
  lemma CentreCount(g: seq<int>)
    requires |g| == 9
    ensures CountSpec(g, 3, 3, 1, 1)
         == Bit(g[0]) + Bit(g[1]) + Bit(g[2]) + Bit(g[3]) + Bit(g[5]) + Bit(g[6]) + Bit(g[7]) + Bit(g[8])
  {
    assert Hit(g, 3, 3, 1, 1, -1, -1) == Bit(g[0]);
    assert Hit(g, 3, 3, 1, 1, 0, -1) == Bit(g[1]);
    assert Hit(g, 3, 3, 1, 1, 1, -1) == Bit(g[2]);
    assert Hit(g, 3, 3, 1, 1, -1, 0) == Bit(g[3]);
    assert Hit(g, 3, 3, 1, 1, 1, 0) == Bit(g[5]);
    assert Hit(g, 3, 3, 1, 1, -1, 1) == Bit(g[6]);
    assert Hit(g, 3, 3, 1, 1, 0, 1) == Bit(g[7]);
    assert Hit(g, 3, 3, 1, 1, 1, 1) == Bit(g[8]);
  }

  /** Next value of the centre of a 3x3 grid in terms of the other eight cells. */
  lemma CentreNext(g: seq<int>, n: seq<int>)
    requires |g| == 9 && IsNextGeneration(g, n, 3, 3)
    ensures var pop := Bit(g[0]) + Bit(g[1]) + Bit(g[2]) + Bit(g[3]) + Bit(g[5]) + Bit(g[6]) + Bit(g[7]) + Bit(g[8]);
            if pop == 3 || (pop == 2 && IsLive(g[4])) then IsVariant(n[4]) else n[4] == 0
  {
    CentreCount(g);
    assert CellFollows(g, 3, 3, 4, n[4]);
  }

  /** A single live cell with no live neighbours dies (fewer than two neighbours). */
  lemma IsolatedCellDies(n: seq<int>)
    requires IsNextGeneration([0, 0, 0, 0, 1, 0, 0, 0, 0], n, 3, 3)
    ensures n[4] == 0
  {
    CentreNext([0, 0, 0, 0, 1, 0, 0, 0, 0], n);
  }

  /** A dead cell with exactly three live neighbours is born, with some variant. */
  lemma BirthOnThree(n: seq<int>)
    requires IsNextGeneration([1, 0, 2, 0, 0, 0, 3, 0, 0], n, 3, 3)
    ensures IsVariant(n[4])
  {
    CentreNext([1, 0, 2, 0, 0, 0, 3, 0, 0], n);
  }

  /** A dead cell with exactly two live neighbours matches no case and stays dead. */
  lemma DeadWithTwoStaysDead(n: seq<int>)
    requires IsNextGeneration([1, 0, 0, 0, 0, 0, 0, 0, 3], n, 3, 3)
    ensures n[4] == 0
  {
    CentreNext([1, 0, 0, 0, 0, 0, 0, 0, 3], n);
  }

  /** A live cell with two live neighbours survives, with a variant drawn afresh:
      every variant, the old one included, is a possible outcome. */
  lemma SurvivalRedrawsVariant(n: seq<int>)
    requires IsNextGeneration([1, 0, 0, 0, 2, 0, 0, 0, 3], n, 3, 3)
    ensures IsVariant(n[4])
    ensures forall v :: IsVariant(v) ==> IsNextGeneration([1, 0, 0, 0, 2, 0, 0, 0, 3], n[4 := v], 3, 3)
  {
    var g := [1, 0, 0, 0, 2, 0, 0, 0, 3];
    CentreNext(g, n);
    CentreCount(g);
    assert Survives(At(g, 3, 3, 1, 1), CountSpec(g, 3, 3, 1, 1));
    forall v | IsVariant(v) ensures IsNextGeneration(g, n[4 := v], 3, 3) {
      AnyVariantPossible(g, n, 3, 3, 1, 1, v);
    }
  }

  /** A live cell with four live neighbours dies of overpopulation. */
  lemma OvercrowdedCellDies(n: seq<int>)
    requires IsNextGeneration([0, 1, 0, 2, 3, 1, 0, 2, 0], n, 3, 3)
    ensures n[4] == 0
  {
    CentreNext([0, 1, 0, 2, 3, 1, 0, 2, 0], n);
  }
}
