/** The world of the simulation: a flat row-major buffer of cells with its dimensions,
    seeded at random when created and advanced one generation per tick. */
module Life {
  import opened Grid
  import opened Neighbours
  import opened Rules
  import opened Seeding

  /** The first m cells of `n` follow the rules from the old buffer g, and the rest are
      still the zeros the new buffer was allocated with. */
  ghost predicate FollowsUpTo(g: seq<int>, width: int, height: int, n: seq<int>, m: int)
  {
    && 0 <= width && 0 <= height && |g| == width * height && |n| == |g| && 0 <= m <= |g|
    && (forall k :: 0 <= k < m ==> CellFollows(g, width, height, k, n[k]))
    && (forall k :: m <= k < |n| ==> n[k] == 0)
  }

  /** Computing cell (x, y) by the rule table extends the computed prefix by one cell:
      the value written there, or the zero kept there when no case applies. */
  lemma RuleStep(g: seq<int>, width: int, height: int, n: seq<int>, x: int, y: int, pop: int, v: int)
    requires InGrid(width, height, x, y)
    requires FollowsUpTo(g, width, height, n, Index(width, x, y))
    requires pop == CountSpec(g, width, height, x, y)
    requires Index(width, x, y) < |g|
    requires if Survives(g[Index(width, x, y)], pop) then IsVariant(v) else v == 0
    requires v != 0 || n[Index(width, x, y)] == 0
    ensures FollowsUpTo(g, width, height, n[Index(width, x, y) := v], Index(width, x, y) + 1)
  {
    IndexCoords(width, x, y);
    assert CellFollows(g, width, height, Index(width, x, y), v);
  }

  /** Once every cell has been computed, the new buffer is a next generation. */
  lemma FollowsAll(g: seq<int>, width: int, height: int, n: seq<int>)
    requires FollowsUpTo(g, width, height, n, |g|)
    ensures IsNextGeneration(g, n, width, height)
  {
  }

  class World {
    var area: array<int>
    var width: int
    var height: int

    /** The buffer holds exactly width*height cells, each dead or a variant. */
    ghost predicate Valid()
      reads this, area
    {
      0 <= width && 0 <= height && area.Length == width * height && AllCells(area[..])
    }

    /** The source's `NewWorld`: an all-dead buffer, then `init` with the draws `ds`. */
    constructor (width: int, height: int, maxLiveCells: int, ds: seq<Draw>)
      requires 0 <= width && 0 <= height
      requires |ds| == Max(maxLiveCells, 0) && AllFit(ds, width, height)
      ensures Valid() && fresh(area)
      ensures this.width == width && this.height == height
      ensures area[..] == Seeded(Dead(width * height), width, height, ds)
    {
      this.width := width;
      this.height := height;
      area := new int[width * height](_ => 0);
      new;
      assert area[..] == Dead(width * height);
      Init(maxLiveCells, ds);
    }

    /** The source's `init`: `maxLiveCells` iterations, each overwriting the drawn
        position with the drawn variant. */
    method Init(maxLiveCells: int, ds: seq<Draw>)
      requires Valid()
      requires |ds| == Max(maxLiveCells, 0) && AllFit(ds, width, height)
      modifies area
      ensures Valid()
      ensures area[..] == Seeded(old(area[..]), width, height, ds)
    {
      var i := 0;
      while i < maxLiveCells
        invariant 0 <= i <= |ds|
        invariant AllFit(ds[..i], width, height)
        invariant area[..] == Seeded(old(area[..]), width, height, ds[..i])
      {
        var x := ds[i].x;
        var y := ds[i].y;
        var val := ds[i].r + 1;
        IndexInBounds(width, height, x, y);
        assert ds[..i + 1][..i] == ds[..i];
        area[y * width + x] := val;
        i := i + 1;
      }
      assert ds[..i] == ds;
      SeededCells(old(area[..]), width, height, ds);
    }

    /** The source's `Update`: every cell of a fresh zeroed buffer is computed from the
        old buffer, by the first case of the rule switch that applies; then the fresh
        buffer replaces the old one. A live outcome draws a new variant. */
    method Update()
      requires Valid()
      modifies this
      ensures Valid() && fresh(area)
      ensures width == old(width) && height == old(height)
      ensures IsNextGeneration(old(area[..]), area[..], width, height)
    {
      var width := this.width;
      var height := this.height;
      var a := area;
      ghost var g := a[..];
      var next := new int[width * height](_ => 0);
      for y := 0 to height
        modifies next
        invariant a[..] == g
        invariant FollowsUpTo(g, width, height, next[..], y * width)
      {
        for x := 0 to width
          modifies next
          invariant a[..] == g
          invariant FollowsUpTo(g, width, height, next[..], y * width + x)
        {
          var pop := NeighbourCount(a, width, height, x, y);
          IndexInBounds(width, height, x, y);
          var k := y * width + x;
          ghost var before := next[..];
          if pop < 2 {
            next[k] := 0;
          } else if (pop == 2 || pop == 3) && a[k] > 0 {
            var r :| 0 <= r < NImg;
            next[k] := r + 1;
          } else if pop > 3 {
            next[k] := 0;
          } else if pop == 3 {
            var r :| 0 <= r < NImg;
            next[k] := r + 1;
          }
          RuleStep(g, width, height, before, x, y, pop, next[k]);
          assert next[..] == before[k := next[k]];
        }
        assert y * width + width == (y + 1) * width;
      }
      assert height * width == |g|;
      FollowsAll(g, width, height, next[..]);
      NextGenerationCells(g, next[..], width, height);
      area := next;
    }
  }
}
