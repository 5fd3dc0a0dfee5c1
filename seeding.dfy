/** The random seeding of a new world: each iteration draws a position and a variant
    and overwrites that cell. The draws are supplied by the caller, within the bounds
    that `rand.Intn` guarantees. */
module Seeding {
  import opened Grid

  /** One iteration's draws: x from Intn(width), y from Intn(height), r from Intn(nImg).
      The cell receives r + 1. */
  datatype Draw = Draw(x: int, y: int, r: int)

  predicate Fits(d: Draw, width: int, height: int) {
    InGrid(width, height, d.x, d.y) && 0 <= d.r < NImg
  }

  predicate AllFit(ds: seq<Draw>, width: int, height: int) {
    forall i :: 0 <= i < |ds| ==> Fits(ds[i], width, height)
  }

  /** Draw d writes the cell at index k. */
  predicate Writes(d: Draw, width: int, k: int) {
    Index(width, d.x, d.y) == k
  }

  /** The buffer after the writes of `ds`, made in order, into `a`. */
  function Seeded(a: seq<int>, width: int, height: int, ds: seq<Draw>): (s: seq<int>)
    requires width * height <= |a|
    requires AllFit(ds, width, height)
    ensures |s| == |a|
    decreases |ds|
  {
    if ds == [] then a
    else
      var d := ds[|ds| - 1];
      IndexInBounds(width, height, d.x, d.y);
      Seeded(a, width, height, ds[..|ds| - 1])[Index(width, d.x, d.y) := d.r + 1]
  }

  lemma AllFitPrefix(ds: seq<Draw>, width: int, height: int, n: int)
    requires AllFit(ds, width, height) && 0 <= n <= |ds|
    ensures AllFit(ds[..n], width, height)
  {
    forall i | 0 <= i < n ensures Fits(ds[..n][i], width, height) {
      assert ds[..n][i] == ds[i];
    }
  }

  /** A cell that no draw writes keeps its old value. */
  lemma {:induction false} SeededUnwritten(a: seq<int>, width: int, height: int, ds: seq<Draw>, k: int)
    requires width * height <= |a|
    requires AllFit(ds, width, height)
    requires 0 <= k < |a|
    requires forall i :: 0 <= i < |ds| ==> !Writes(ds[i], width, k)
    ensures Seeded(a, width, height, ds)[k] == a[k]
  {
    if ds != [] {
      var ds' := ds[..|ds| - 1];
      AllFitPrefix(ds, width, height, |ds| - 1);
      assert forall i :: 0 <= i < |ds'| ==> ds'[i] == ds[i];
      SeededUnwritten(a, width, height, ds', k);
      assert !Writes(ds[|ds| - 1], width, k);
    }
  }

  /** Later writes overwrite earlier ones: a cell holds the value of the last draw that wrote it. */
  lemma {:induction false} SeededLastWrite(a: seq<int>, width: int, height: int, ds: seq<Draw>, k: int, i: int)
    requires width * height <= |a|
    requires AllFit(ds, width, height)
    requires 0 <= k < |a|
    requires 0 <= i < |ds| && Writes(ds[i], width, k)
    requires forall j :: i < j < |ds| ==> !Writes(ds[j], width, k)
    ensures Seeded(a, width, height, ds)[k] == ds[i].r + 1
  {
    if i < |ds| - 1 {
      var ds' := ds[..|ds| - 1];
      AllFitPrefix(ds, width, height, |ds| - 1);
      assert ds'[i] == ds[i];
      assert forall j :: i < j < |ds'| ==> ds'[j] == ds[j];
      SeededLastWrite(a, width, height, ds', k, i);
      assert !Writes(ds[|ds| - 1], width, k);
    }
  }

  /** Seeding writes only variants, so a buffer of dead cells and variants stays one. */
  lemma {:induction false} SeededCells(a: seq<int>, width: int, height: int, ds: seq<Draw>)
    requires width * height <= |a|
    requires AllFit(ds, width, height)
    requires AllCells(a)
    ensures AllCells(Seeded(a, width, height, ds))
  {
    if ds != [] {
      var ds' := ds[..|ds| - 1];
      assert forall i :: 0 <= i < |ds'| ==> ds'[i] == ds[i];
      SeededCells(a, width, height, ds');
    }
  }

  /** Each draw makes at most one more cell live. */
  lemma {:induction false} SeededLiveCount(a: seq<int>, width: int, height: int, ds: seq<Draw>)
    requires width * height <= |a|
    requires AllFit(ds, width, height)
    ensures LiveCount(Seeded(a, width, height, ds)) <= LiveCount(a) + |ds|
  {
    if ds != [] {
      var ds' := ds[..|ds| - 1];
      var d := ds[|ds| - 1];
      assert forall i :: 0 <= i < |ds'| ==> ds'[i] == ds[i];
      SeededLiveCount(a, width, height, ds');
      IndexInBounds(width, height, d.x, d.y);
      LiveCountUpdate(Seeded(a, width, height, ds'), Index(width, d.x, d.y), d.r + 1);
    }
  }

  /** A fresh world seeded with |ds| draws has only dead cells and variants, and at most
      min(|ds|, width*height) live cells: repeated positions overwrite. */
  lemma SeedBound(width: int, height: int, ds: seq<Draw>)
    requires 0 <= width && 0 <= height
    requires AllFit(ds, width, height)
    ensures AllCells(Seeded(Dead(width * height), width, height, ds))
    ensures LiveCount(Seeded(Dead(width * height), width, height, ds)) <= Min(|ds|, width * height)
  {
    var z := Dead(width * height);
    assert LiveCount(z) == 0;
    SeededCells(z, width, height, ds);
    SeededLiveCount(z, width, height, ds);
  }
}
