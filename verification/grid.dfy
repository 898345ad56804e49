/** Geometry of a width x height raster whose per-pixel data lives in flat
    arrays, pixel (x, y) at index x + y * width. */
module Grid {

  /** Column and row offsets of the eight neighbour directions, in the order
      NW, N, NE, W, E, SW, S, SE. */
  const NX8: seq<int> := [-1,  0,  1, -1, 1, -1, 0, 1]
  const NY8: seq<int> := [-1, -1, -1,  0, 0,  1, 1, 1]

  /** The 3x3 box of the blur, the pixel itself first. */
  const NX9: seq<int> := [0, -1,  0,  1, -1, 1, -1, 0, 1]
  const NY9: seq<int> := [0, -1, -1, -1,  0, 0,  1, 1, 1]

  predicate InGrid(w: int, h: int, x: int, y: int) {
    0 <= x < w && 0 <= y < h
  }

  /** Flat index of pixel (x, y); meaningful only in the grid. */
  function Index(w: int, x: int, y: int): int {
    x + y * w
  }

  /** A pixel all of whose eight neighbours are in the grid. */
  predicate IsInterior(w: int, h: int, x: int, y: int) {
    1 <= x <= w - 2 && 1 <= y <= h - 2
  }

  /** A pixel of the outer ring: top row, bottom row, left or right column. */
  predicate OnBorder(w: int, h: int, x: int, y: int) {
    InGrid(w, h, x, y) && (x == 0 || x == w - 1 || y == 0 || y == h - 1)
  }

  /** Whether direction i of pixel (x, y) points into the grid. */
  predicate NeighborInGrid(w: int, h: int, x: int, y: int, i: int)
    requires 0 <= i < 8
  {
    InGrid(w, h, x + NX8[i], y + NY8[i])
  }

  /** Whether box offset i of pixel (x, y) points into the grid. */
  predicate BoxInGrid(w: int, h: int, x: int, y: int, i: int)
    requires 0 <= i < 9
  {
    InGrid(w, h, x + NX9[i], y + NY9[i])
  }

  /** The flat distance to the neighbour in direction i. */
  function NeighborOffset(w: int, i: int): int
    requires 0 <= i < 8
  {
    NX8[i] + NY8[i] * w
  }

  /** Position of the weight of direction i of pixel (x, y) in the
      eight-per-pixel affinity array. */
  function Slot(w: int, x: int, y: int, i: int): int {
    Index(w, x, y) * 8 + i
  }

  lemma IndexInRange(w: int, h: int, x: int, y: int)
    requires InGrid(w, h, x, y)
    ensures 0 <= Index(w, x, y) < w * h
  {
    assert y * w <= (h - 1) * w by {
      assert (h - 1) * w - y * w == (h - 1 - y) * w;
    }
  }

  /** The index one past the last pixel of row y is the first of row y + 1. */
  lemma RowEnd(w: int, y: int)
    ensures Index(w, w, y) == Index(w, 0, y + 1)
  {
    assert (y + 1) * w == y * w + w;
  }

  /** The start of row h is one past the last pixel of the grid. */
  lemma GridEnd(w: int, h: int)
    ensures Index(w, 0, h) == w * h
  {
  }

  lemma MulLe(a: int, b: int, c: int)
    requires a <= b && 0 <= c
    ensures a * c <= b * c
  {
    assert b * c - a * c == (b - a) * c;
  }

  /** A multiple of c strictly between -c and c is zero. */
  lemma SmallMultiple(d: int, c: int)
    requires 0 < c && -c < d * c < c
    ensures d == 0
  {
    if d >= 1 {
      MulLe(1, d, c);
    } else if d <= -1 {
      MulLe(d, -1, c);
    }
  }

  /** Euclidean division is unique: k = q * w + r with 0 <= r < w
      determines q and r. */
  lemma DivModUnique(k: int, w: int, q: int, r: int)
    requires 0 < w && 0 <= r < w && k == q * w + r
    ensures k / w == q && k % w == r
  {
    var q', r' := k / w, k % w;
    assert (q - q') * w == q * w - q' * w;
    SmallMultiple(q - q', w);
  }

  /** Index is one-to-one: column and row are recovered by % and /. */
  lemma CoordsOfIndex(w: int, x: int, y: int)
    requires 0 <= x < w && 0 <= y
    ensures Index(w, x, y) % w == x && Index(w, x, y) / w == y
  {
    DivModUnique(Index(w, x, y), w, y, x);
  }

  /** Every flat index of the grid is the index of the pixel (k % w, k / w). */
  lemma IndexOfFlat(w: int, h: int, k: int)
    requires 1 <= w && 0 <= k < w * h
    ensures InGrid(w, h, k % w, k / w) && Index(w, k % w, k / w) == k
  {
    var q := k / w;
    assert q * w <= k;
    if h <= q {
      MulLe(h, q, w);
    }
  }

  lemma SlotInRange(w: int, h: int, x: int, y: int, i: int)
    requires InGrid(w, h, x, y) && 0 <= i < 8
    ensures 0 <= Slot(w, x, y, i) < w * h * 8
  {
    IndexInRange(w, h, x, y);
  }

  /** For a neighbour inside the grid, the flat offset reaches exactly that
      neighbour's index. */
  lemma NeighborIndex(w: int, h: int, x: int, y: int, i: int)
    requires InGrid(w, h, x, y) && 0 <= i < 8 && NeighborInGrid(w, h, x, y, i)
    ensures Index(w, x, y) + NeighborOffset(w, i) == Index(w, x + NX8[i], y + NY8[i])
    ensures 0 <= Index(w, x, y) + NeighborOffset(w, i) < w * h
  {
    assert (y + NY8[i]) * w == y * w + NY8[i] * w;
    IndexInRange(w, h, x + NX8[i], y + NY8[i]);
  }

  /** An interior pixel has all eight neighbours. */
  lemma InteriorNeighbors(w: int, h: int, x: int, y: int)
    requires IsInterior(w, h, x, y)
    ensures forall i :: 0 <= i < 8 ==> NeighborInGrid(w, h, x, y, i)
  {
  }

  /** Every pixel of the grid is interior or on the border, never both. */
  lemma InteriorOrBorder(w: int, h: int, x: int, y: int)
    requires InGrid(w, h, x, y)
    ensures IsInterior(w, h, x, y) <==> !OnBorder(w, h, x, y)
  {
  }
}
