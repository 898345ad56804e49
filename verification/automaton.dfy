/** One iteration of the automaton over the flat strength buffers, as the
    source traverses them: interior pixels by flat index without bounds
    checks, the four border strips by coordinates with a bounds check per
    direction, and the interior split into row bands, one per worker. Every
    traversal is proved to write exactly GrowCut.Step of its input. */
module Automaton {
  import opened Grid
  import opened GrowCut

  /** Number of interior workers of the threaded iteration. */
  const NThreads: int := 4

  /** The buffers of one iteration: `input` is only read, `output` only
      written, `g` holds eight affinities per pixel. */
  ghost predicate Buffers(w: int, h: int, input: array<real>, output: array<real>, g: array<real>) {
    1 <= w && 1 <= h && input.Length == w * h && output.Length == w * h && g.Length == w * h * 8 &&
    input != output && g != output
  }

  /** The per-direction flat offsets computed at the start of an iteration. */
  ghost predicate OffsetTable(w: int, ofs: seq<int>) {
    |ofs| == 8 && forall i :: 0 <= i < 8 ==> ofs[i] == NeighborOffset(w, i)
  }

  predicate InteriorAt(w: int, h: int, k: int) {
    1 <= w && 0 <= k < w * h && IsInterior(w, h, k % w, k / w)
  }

  predicate BorderAt(w: int, h: int, k: int) {
    1 <= w && 0 <= k < w * h && OnBorder(w, h, k % w, k / w)
  }

  /** Interior pixels in the rows of worker n: n+1, n+1+NThreads, ... */
  predicate InBand(w: int, h: int, k: int, n: int) {
    InteriorAt(w, h, k) && (k / w - 1) % NThreads == n
  }

  ghost function InteriorCells(w: int, h: int): set<int> {
    set k | 0 <= k < w * h && InteriorAt(w, h, k)
  }

  ghost function BorderCells(w: int, h: int): set<int> {
    set k | 0 <= k < w * h && BorderAt(w, h, k)
  }

  ghost function BandCells(w: int, h: int, n: int): set<int> {
    set k | 0 <= k < w * h && InBand(w, h, k, n)
  }

  /** The interior cells of workers 0 .. n-1. */
  ghost function BandsBelow(w: int, h: int, n: int): set<int> {
    set k | 0 <= k < w * h && InteriorAt(w, h, k) && (k / w - 1) % NThreads < n
  }

  predicate Between(lo: int, k: int, hi: int) {
    lo <= k < hi
  }

  /** The cells with flat index in [lo, hi). */
  ghost function RunCells(w: int, h: int, lo: int, hi: int): set<int> {
    set k | 0 <= k < w * h && Between(lo, k, hi)
  }

  /** The cells of worker n's band below flat index `index`. */
  ghost function BandPrefix(w: int, h: int, n: int, index: int): set<int> {
    set k | 0 <= k < w * h && InBand(w, h, k, n) && k < index
  }

  /** The interior cells below flat index `index`. */
  ghost function InteriorPrefix(w: int, h: int, index: int): set<int> {
    set k | 0 <= k < w * h && InteriorAt(w, h, k) && k < index
  }

  /** `old` with the cells of `cells` replaced by their values in `next`. */
  ghost function Overwrite(old_: seq<real>, next: seq<real>, cells: set<int>): (r: seq<real>)
    requires |old_| == |next|
    ensures |r| == |old_|
  {
    seq(|old_|, k requires 0 <= k < |old_| => if k in cells then next[k] else old_[k])
  }

  // ---------------------------------------------------------------------
  // Index arithmetic of the traversals.

  /** An interior pixel's index lies below index_max = (h-1)*w - 1. */
  lemma InteriorBelowMax(w: int, h: int, k: int)
    requires InteriorAt(w, h, k)
    ensures k < (h - 1) * w - 1
  {
    var q, r := k / w, k % w;
    MulLe(q, h - 2, w);
    assert k == q * w + r;
  }

  /** A row start Index(w, 1, row) below index_max is an interior row. */
  lemma RowBelowMax(w: int, h: int, row: int)
    requires 3 <= w && Index(w, 1, row) < (h - 1) * w - 1
    ensures row <= h - 2
  {
    if h - 1 <= row {
      MulLe(h - 1, row, w);
    }
  }

  /** The flat indices from column 1 to column w-2 of an interior row are
      interior cells of that row. */
  lemma RowCells(w: int, h: int, row: int)
    requires 3 <= w && 1 <= row <= h - 2
    ensures forall k :: Index(w, 1, row) <= k < Index(w, w - 1, row) ==> InteriorAt(w, h, k) && k / w == row
  {
    forall k | Index(w, 1, row) <= k < Index(w, w - 1, row)
      ensures InteriorAt(w, h, k) && k / w == row
    {
      InteriorPixel(w, h, k - row * w, row);
    }
  }

  /** The run of an interior row of worker n lies in worker n's band. */
  lemma RowInBand(w: int, h: int, n: int, row: int)
    requires 3 <= w && 1 <= row <= h - 2 && (row - 1) % NThreads == n
    ensures forall k :: Index(w, 1, row) <= k < Index(w, w - 1, row) ==> InBand(w, h, k, n)
  {
    RowCells(w, h, row);
  }

  /** One pass of worker n's outer loop: the band cells below the next row
      start are those below this row start plus the row's run. */
  lemma BandStep(w: int, h: int, n: int, row: int, nextRow: int, start: int, lineEnd: int, next: int)
    requires 1 <= w && 1 <= row && (row - 1) % NThreads == n && nextRow == row + NThreads && 1 <= start
    requires 2 <= w ==> start == Index(w, 1, row)
    requires 3 <= w ==> row <= h - 2
    requires lineEnd == if 3 <= w then Index(w, w - 1, row) else start
    requires next == lineEnd + (NThreads - 1) * w + 2
    ensures 2 <= w ==> next == Index(w, 1, nextRow)
    ensures 1 <= nextRow && (nextRow - 1) % NThreads == n
    ensures BandPrefix(w, h, n, next) == BandPrefix(w, h, n, start) + RunCells(w, h, start, lineEnd)
  {
    if 3 <= w {
      RowInBand(w, h, n, row);
    }
    if 2 <= w {
      BandGap(w, h, n, row, lineEnd, next);
    }
  }

  /** One pass of the sequential outer loop: the interior cells below the
      next row start are those below this row start plus the row's run. */
  lemma RowStep(w: int, h: int, row: int, nextRow: int, start: int, lineEnd: int, next: int)
    requires 1 <= w && 1 <= row && nextRow == row + 1 && 1 <= start
    requires 2 <= w ==> start == Index(w, 1, row)
    requires 3 <= w ==> row <= h - 2
    requires lineEnd == if 3 <= w then Index(w, w - 1, row) else start
    requires next == lineEnd + 2
    ensures 2 <= w ==> next == Index(w, 1, nextRow)
    ensures InteriorPrefix(w, h, next) == InteriorPrefix(w, h, start) + RunCells(w, h, start, lineEnd)
  {
    if 3 <= w {
      RowCells(w, h, row);
    }
    if 2 <= w {
      RowGap(w, h, row, lineEnd, next);
    }
  }

  lemma BandPrefixStart(w: int, h: int, n: int, start: int)
    requires 0 <= n < NThreads && start == w + n * w + 1
    ensures BandPrefix(w, h, n, start) == {}
  {
    forall k | InBand(w, h, k, n) ensures start <= k {
      BandStart(w, h, n, k);
    }
  }

  lemma BandPrefixEnd(w: int, h: int, n: int, index: int)
    requires (h - 1) * w - 1 <= index
    ensures BandPrefix(w, h, n, index) == BandCells(w, h, n)
  {
    forall k | InBand(w, h, k, n) ensures k < index {
      InteriorBelowMax(w, h, k);
    }
  }

  lemma InteriorPrefixStart(w: int, h: int, start: int)
    requires start == w + 1
    ensures InteriorPrefix(w, h, start) == {}
  {
    forall k | InteriorAt(w, h, k) ensures start <= k {
      InteriorStart(w, h, k);
    }
  }

  lemma InteriorPrefixEnd(w: int, h: int, index: int)
    requires (h - 1) * w - 1 <= index
    ensures InteriorPrefix(w, h, index) == InteriorCells(w, h)
  {
    forall k | InteriorAt(w, h, k) ensures k < index {
      InteriorBelowMax(w, h, k);
    }
  }

  /** Pixel x of row `row` with 1 <= x <= w-2 is interior when the row is. */
  lemma InteriorPixel(w: int, h: int, x: int, row: int)
    requires 1 <= x <= w - 2 && 1 <= row <= h - 2
    ensures InteriorAt(w, h, Index(w, x, row))
    ensures Index(w, x, row) % w == x && Index(w, x, row) / w == row
  {
    CoordsOfIndex(w, x, row);
    IndexInRange(w, h, x, row);
  }

  /** After a row's interior run the traversal jumps from the last column of
      row `row` to column 1 of row `row + stride`; the cells jumped over lie
      in the last column, the first column, or a row strictly between. */
  lemma Skipped(w: int, row: int, stride: int, k: int)
    requires 3 <= w && 0 <= row && 1 <= stride
    requires Index(w, w - 1, row) <= k < Index(w, 1, row + stride)
    ensures k % w == w - 1 || k % w == 0 || row < k / w < row + stride
  {
    var q, r := k / w, k % w;
    assert k == q * w + r;
    if q < row {
      MulLe(q, row - 1, w);
    } else if q > row + stride {
      MulLe(row + stride + 1, q, w);
    } else if q == row {
      assert r == k - row * w;
    } else if q == row + stride {
      assert r == k - (row + stride) * w;
    }
  }

  /** The interior starts at pixel (1, 1). */
  lemma InteriorStart(w: int, h: int, k: int)
    requires InteriorAt(w, h, k)
    ensures Index(w, 1, 1) <= k
  {
    var q, r := k / w, k % w;
    assert k == q * w + r;
    MulLe(1, q, w);
  }

  /** Worker n starts at row n + 1: no cell of its band lies before. */
  lemma BandStart(w: int, h: int, n: int, k: int)
    requires 0 <= n < NThreads && InBand(w, h, k, n)
    ensures Index(w, 1, n + 1) <= k
  {
    var q, r := k / w, k % w;
    assert k == q * w + r;
    assert n + 1 <= q;
    MulLe(n + 1, q, w);
  }

  /** The jump at the end of a row of worker n lands on column 1 of the
      worker's next row, and skips no cell of its band. */
  lemma BandGap(w: int, h: int, n: int, row: int, lineEnd: int, next: int)
    requires 2 <= w && 1 <= row && (row - 1) % NThreads == n
    requires lineEnd == Index(w, w - 1, row) && next == lineEnd + (NThreads - 1) * w + 2
    ensures next == Index(w, 1, row + NThreads)
    ensures forall k :: lineEnd <= k < next ==> !InBand(w, h, k, n)
  {
    assert next == Index(w, 1, row + NThreads) by {
      assert (row + NThreads) * w == row * w + NThreads * w;
    }
    forall k | lineEnd <= k < next
      ensures !InBand(w, h, k, n)
    {
      if 3 <= w {
        Skipped(w, row, NThreads, k);
      }
    }
  }

  // ---------------------------------------------------------------------
  // The per-pixel work.

  /** The product the source forms from the affinity slot and the
      neighbour's strength is the neighbour's attack. */
  lemma AttackFromBuffers(w: int, h: int, s: seq<real>, g: seq<real>, x: int, y: int, i: int, gi: real, v: real)
    requires Shaped(w, h, s, g) && InGrid(w, h, x, y) && 0 <= i < 8 && NeighborInGrid(w, h, x, y, i)
    requires 0 <= Slot(w, x, y, i) < |g| && gi == g[Slot(w, x, y, i)]
    requires 0 <= Index(w, x + NX8[i], y + NY8[i]) < |s| && v == s[Index(w, x + NX8[i], y + NY8[i])]
    ensures gi * v == Attack(w, h, s, g, x, y, i)
  {
  }

  method ProcessPixelNeighborBorder(w: int, h: int, ghost x: int, ghost y: int, index: int,
                                    input: array<real>, output: array<real>, g: array<real>,
                                    ofs: array<int>, i: int, converged: bool)
    returns (converged': bool)
    requires Buffers(w, h, input, output, g) && OffsetTable(w, ofs[..])
    requires InGrid(w, h, x, y) && index == Index(w, x, y) && 0 <= index < w * h
    requires 0 <= i < 8 && NeighborInGrid(w, h, x, y, i)
    modifies output
    ensures output[index] == Conquer(old(output[index]), Attack(w, h, input[..], g[..], x, y, i))
    ensures converged' == (converged && Abs(Attack(w, h, input[..], g[..], x, y, i)) <= Abs(old(output[index])))
    ensures forall k :: 0 <= k < output.Length && k != index ==> output[k] == old(output[k])
  {
    NeighborIndex(w, h, x, y, i);
    SlotInRange(w, h, x, y, i);
    var neighborIndex := index + ofs[i];
    var gi := g[index * 8 + i];
    AttackFromBuffers(w, h, input[..], g[..], x, y, i, gi, input[neighborIndex]);
    ghost var attack := Attack(w, h, input[..], g[..], x, y, i);
    ghost var before := output[index];
    if Abs(gi * input[neighborIndex]) > Abs(output[index]) {
      output[index] := gi * input[neighborIndex];
      converged' := false;
      assert output[index] == attack == Conquer(before, attack);
    } else {
      converged' := converged;
      assert output[index] == before == Conquer(before, attack);
    }
  }

  /** Any pixel of the grid, with a bounds check per direction. */
  method ProcessPixelBorder(w: int, h: int, x: int, y: int, input: array<real>, output: array<real>,
                            g: array<real>, ofs: array<int>, converged: bool)
    returns (converged': bool)
    requires Buffers(w, h, input, output, g) && OffsetTable(w, ofs[..])
    requires InGrid(w, h, x, y)
    modifies output
    ensures 0 <= Index(w, x, y) < w * h
    ensures output[Index(w, x, y)] == CellNext(w, h, input[..], g[..], x, y)
    ensures converged' == (converged && output[Index(w, x, y)] == input[Index(w, x, y)])
    ensures forall k :: 0 <= k < w * h && k != Index(w, x, y) ==> output[k] == old(output[k])
  {
    IndexInRange(w, h, x, y);
    var index := w * y + x;
    output[index] := input[index];
    converged' := converged;
    for i := 0 to 8
      invariant output[index] == CellAfter(w, h, input[..], g[..], x, y, i)
      invariant converged' == (converged && Abs(output[index]) <= Abs(input[index]))
      invariant forall k :: 0 <= k < output.Length && k != index ==> output[k] == old(output[k])
    {
      if x + NX8[i] < 0 || x + NX8[i] >= w || y + NY8[i] < 0 || y + NY8[i] >= h {
        continue;
      }
      CellAfterGrows(w, h, input[..], g[..], x, y, i);
      converged' := ProcessPixelNeighborBorder(w, h, x, y, index, input, output, g, ofs, i, converged');
    }
    CellNextUnchanged(w, h, input[..], g[..], x, y);
  }

  method ProcessPixelNeighborInternal(ghost w: int, ghost h: int, ghost x: int, ghost y: int, index: int,
                                      input: array<real>, output: array<real>, g: array<real>,
                                      ofs: array<int>, i: int, converged: bool)
    returns (converged': bool)
    requires Buffers(w, h, input, output, g) && OffsetTable(w, ofs[..])
    requires IsInterior(w, h, x, y) && index == Index(w, x, y) && 0 <= index < w * h && 0 <= i < 8
    modifies output
    ensures output[index] == Conquer(old(output[index]), Attack(w, h, input[..], g[..], x, y, i))
    ensures converged' == (converged && Abs(Attack(w, h, input[..], g[..], x, y, i)) <= Abs(old(output[index])))
    ensures forall k :: 0 <= k < output.Length && k != index ==> output[k] == old(output[k])
  {
    assert NeighborInGrid(w, h, x, y, i) by {
      InteriorNeighbors(w, h, x, y);
    }
    NeighborIndex(w, h, x, y, i);
    SlotInRange(w, h, x, y, i);
    var neighborIndex := index + ofs[i];
    var gi := g[index * 8 + i];
    AttackFromBuffers(w, h, input[..], g[..], x, y, i, gi, input[neighborIndex]);
    ghost var attack := Attack(w, h, input[..], g[..], x, y, i);
    ghost var before := output[index];
    if Abs(gi * input[neighborIndex]) > Abs(output[index]) {
      output[index] := gi * input[neighborIndex];
      converged' := false;
      assert output[index] == attack == Conquer(before, attack);
    } else {
      converged' := converged;
      assert output[index] == before == Conquer(before, attack);
    }
  }

  /** An interior pixel: all eight directions, no bounds checks. */
  method ProcessPixelInternal(ghost w: int, ghost h: int, index: int,
                              input: array<real>, output: array<real>, g: array<real>,
                              ofs: array<int>, converged: bool)
    returns (converged': bool)
    requires Buffers(w, h, input, output, g) && OffsetTable(w, ofs[..])
    requires InteriorAt(w, h, index)
    modifies output
    ensures output[index] == CellAt(w, h, input[..], g[..], index)
    ensures converged' == (converged && output[index] == input[index])
    ensures forall k :: 0 <= k < output.Length && k != index ==> output[k] == old(output[k])
  {
    ghost var x, y := index % w, index / w;
    IndexOfFlat(w, h, index);
    output[index] := input[index];
    converged' := converged;
    for i := 0 to 8
      invariant output[index] == CellAfter(w, h, input[..], g[..], x, y, i)
      invariant converged' == (converged && Abs(output[index]) <= Abs(input[index]))
      invariant forall k :: 0 <= k < output.Length && k != index ==> output[k] == old(output[k])
    {
      CellAfterGrows(w, h, input[..], g[..], x, y, i);
      converged' := ProcessPixelNeighborInternal(w, h, x, y, index, input, output, g, ofs, i, converged');
    }
    CellNextUnchanged(w, h, input[..], g[..], x, y);
  }

  // ---------------------------------------------------------------------
  // The traversals.

  method NeighborOffsets(w: int) returns (ofs: array<int>)
    ensures fresh(ofs) && OffsetTable(w, ofs[..])
  {
    ofs := new int[8];
    for i := 0 to 8
      invariant forall j :: 0 <= j < i ==> ofs[j] == NeighborOffset(w, j)
    {
      ofs[i] := NX8[i] + NY8[i] * w;
    }
  }

  /** The inner loop of both interior walks: the pixels of row `row` from
      column 1 up to column w-2, by flat index; the returned index is where
      the walk stopped. */
  method ProcessRowRun(w: int, h: int, ghost row: int, start: int,
                       input: array<real>, output: array<real>, g: array<real>, ofs: array<int>,
                       converged: bool)
    returns (converged': bool, index: int)
    requires Buffers(w, h, input, output, g) && OffsetTable(w, ofs[..])
    requires 1 <= row && 1 <= start && (2 <= w ==> start == Index(w, 1, row))
    requires 3 <= w ==> forall k :: Index(w, 1, row) <= k < Index(w, w - 1, row) ==> InteriorAt(w, h, k)
    modifies output
    ensures index == if 3 <= w then Index(w, w - 1, row) else start
    ensures output[..] == Overwrite(old(output[..]), Step(w, h, input[..], g[..]), RunCells(w, h, start, index))
    ensures converged' <==>
      converged && forall k :: k in RunCells(w, h, start, index) ==> Step(w, h, input[..], g[..])[k] == input[k]
  {
    ghost var next := Step(w, h, input[..], g[..]);
    var indexLineMax := start + w - 2;
    index := start;
    converged' := converged;
    while index < indexLineMax
      invariant start <= index && (index <= indexLineMax || index == start)
      invariant forall k :: 0 <= k < w * h ==>
        output[k] == if start <= k < index then next[k] else old(output[k])
      invariant converged' <==> converged && forall k :: 0 <= k < w * h && start <= k < index ==> next[k] == input[k]
    {
      converged' := ProcessPixelInternal(w, h, index, input, output, g, ofs, converged');
      index := index + 1;
    }
    assert output[..] == Overwrite(old(output[..]), next, RunCells(w, h, start, index));
  }

  /** The interior work of worker n: rows n+1, n+1+NThreads, ... */
  method ProcessIterationThread(w: int, h: int, n: int, indexMax: int,
                                input: array<real>, output: array<real>, g: array<real>, ofs: array<int>)
    returns (converged: bool)
    requires Buffers(w, h, input, output, g) && OffsetTable(w, ofs[..])
    requires 0 <= n < NThreads && indexMax == (h - 1) * w - 1
    modifies output
    ensures output[..] == Overwrite(old(output[..]), Step(w, h, input[..], g[..]), BandCells(w, h, n))
    ensures converged <==> forall k :: k in BandCells(w, h, n) ==> Step(w, h, input[..], g[..])[k] == input[k]
  {
    ghost var next := Step(w, h, input[..], g[..]);
    converged := true;
    var index := w + n * w + 1;
    ghost var row := n + 1;
    BandPrefixStart(w, h, n, index);
    OverwriteNothing(old(output[..]), next);
    while index < indexMax
      invariant 1 <= row && (row - 1) % NThreads == n
      invariant 2 <= w ==> index == Index(w, 1, row)
      invariant 1 <= index
      invariant output[..] == Overwrite(old(output[..]), next, BandPrefix(w, h, n, index))
      invariant converged <==> forall k :: k in BandPrefix(w, h, n, index) ==> next[k] == input[k]
      decreases indexMax - index
    {
      ghost var start := index;
      if 3 <= w {
        RowBelowMax(w, h, row);
        RowCells(w, h, row);
      }
      converged, index := ProcessRowRun(w, h, row, index, input, output, g, ofs, converged);
      ghost var lineEnd := index;
      index := index + (NThreads - 1) * w;
      index := index + 1;
      index := index + 1;
      ghost var nextRow := row + NThreads;
      BandStep(w, h, n, row, nextRow, start, lineEnd, index);
      OverwriteTwice(old(output[..]), next, BandPrefix(w, h, n, start), RunCells(w, h, start, lineEnd));
      row := nextRow;
    }
    BandPrefixEnd(w, h, n, index);
  }

  /** One loop of the border worker: pixels (0, y) .. (w-1, y) of row y. */
  method ProcessBorderRow(w: int, h: int, y: int, input: array<real>, output: array<real>,
                          g: array<real>, ofs: array<int>, converged: bool)
    returns (converged': bool)
    requires Buffers(w, h, input, output, g) && OffsetTable(w, ofs[..]) && 0 <= y < h
    modifies output
    ensures forall k :: 0 <= k < w * h ==>
      output[k] == if k / w == y then Step(w, h, input[..], g[..])[k] else old(output[k])
    ensures converged' <==>
      converged && forall k :: 0 <= k < w * h && k / w == y ==> Step(w, h, input[..], g[..])[k] == input[k]
  {
    ghost var next := Step(w, h, input[..], g[..]);
    converged' := converged;
    for x := 0 to w
      invariant forall k :: 0 <= k < w * h ==>
        output[k] == if k / w == y && k % w < x then next[k] else old(output[k])
      invariant converged' <==>
        converged && forall k :: 0 <= k < w * h && k / w == y && k % w < x ==> next[k] == input[k]
    {
      converged' := ProcessPixelBorder(w, h, x, y, input, output, g, ofs, converged');
      BorderStep(w, h, input[..], g[..], x, y);
    }
    forall k | 0 <= k < w * h
      ensures k % w < w
    {
    }
  }

  /** One loop of the border worker: pixels (x, 1) .. (x, h-2) of column x. */
  method ProcessBorderColumn(w: int, h: int, x: int, input: array<real>, output: array<real>,
                             g: array<real>, ofs: array<int>, converged: bool)
    returns (converged': bool)
    requires Buffers(w, h, input, output, g) && OffsetTable(w, ofs[..]) && 0 <= x < w
    modifies output
    ensures forall k :: 0 <= k < w * h ==>
      output[k] == if k % w == x && 1 <= k / w < h - 1 then Step(w, h, input[..], g[..])[k] else old(output[k])
    ensures converged' <==>
      converged && forall k :: 0 <= k < w * h && k % w == x && 1 <= k / w < h - 1 ==>
        Step(w, h, input[..], g[..])[k] == input[k]
  {
    ghost var next := Step(w, h, input[..], g[..]);
    converged' := converged;
    var y := 1;
    while y < h - 1
      invariant 1 <= y && (y <= h - 1 || y == 1)
      invariant forall k :: 0 <= k < w * h ==>
        output[k] == if k % w == x && 1 <= k / w < y then next[k] else old(output[k])
      invariant converged' <==>
        converged && forall k :: 0 <= k < w * h && k % w == x && 1 <= k / w < y ==> next[k] == input[k]
    {
      converged' := ProcessPixelBorder(w, h, x, y, input, output, g, ofs, converged');
      BorderStep(w, h, input[..], g[..], x, y);
      y := y + 1;
    }
  }

  /** The border worker: the top row, the bottom row, then the left and
      right columns without their end pixels. */
  method ProcessIterationBordersThread(w: int, h: int, input: array<real>, output: array<real>,
                                       g: array<real>, ofs: array<int>)
    returns (converged: bool)
    requires Buffers(w, h, input, output, g) && OffsetTable(w, ofs[..])
    modifies output
    ensures output[..] == Overwrite(old(output[..]), Step(w, h, input[..], g[..]), BorderCells(w, h))
    ensures converged <==> forall k :: k in BorderCells(w, h) ==> Step(w, h, input[..], g[..])[k] == input[k]
  {
    converged := true;
    converged := ProcessBorderRow(w, h, 0, input, output, g, ofs, converged);
    converged := ProcessBorderRow(w, h, h - 1, input, output, g, ofs, converged);
    converged := ProcessBorderColumn(w, h, 0, input, output, g, ofs, converged);
    converged := ProcessBorderColumn(w, h, w - 1, input, output, g, ofs, converged);
    forall k | 0 <= k < w * h
      ensures k in BorderCells(w, h) <==>
        k / w == 0 || k / w == h - 1 || ((k % w == 0 || k % w == w - 1) && 1 <= k / w < h - 1)
    {
      IndexOfFlat(w, h, k);
    }
  }

  /** The cell of pixel (x, y) is the only flat index whose coordinates are
      (x, y), and its value in the next generation is CellNext. */
  lemma BorderStep(w: int, h: int, s: seq<real>, g: seq<real>, x: int, y: int)
    requires Shaped(w, h, s, g) && InGrid(w, h, x, y)
    ensures 0 <= Index(w, x, y) < w * h
    ensures Step(w, h, s, g)[Index(w, x, y)] == CellNext(w, h, s, g, x, y)
    ensures forall k :: 0 <= k < w * h ==> (k % w == x && k / w == y <==> k == Index(w, x, y))
  {
    StepAt(w, h, s, g, x, y);
    CoordsOfIndex(w, x, y);
    forall k | 0 <= k < w * h
      ensures k % w == x && k / w == y ==> k == Index(w, x, y)
    {
      IndexOfFlat(w, h, k);
    }
  }

  /** The sequential interior walk jumps from the last column of a row to
      column 1 of the next row, skipping only border cells. */
  lemma RowGap(w: int, h: int, row: int, lineEnd: int, next: int)
    requires 2 <= w && 1 <= row
    requires lineEnd == Index(w, w - 1, row) && next == lineEnd + 2
    ensures next == Index(w, 1, row + 1)
    ensures forall k :: lineEnd <= k < next ==> !InteriorAt(w, h, k)
  {
    forall k | lineEnd <= k < next
      ensures !InteriorAt(w, h, k)
    {
      if 3 <= w {
        Skipped(w, row, 1, k);
      }
    }
  }

  // ---------------------------------------------------------------------
  // How the workers split the grid.

  /** No interior cell belongs to two workers. */
  lemma BandsDisjoint(w: int, h: int, n: int, m: int)
    requires 0 <= n < m < NThreads
    ensures BandCells(w, h, n) * BandCells(w, h, m) == {}
  {
    forall k | k in BandCells(w, h, n)
      ensures k !in BandCells(w, h, m)
    {
    }
  }

  /** The bands of workers 0 .. n-1 together with band n are the bands of
      workers 0 .. n, and all NThreads bands make up the interior. */
  lemma BandsCover(w: int, h: int, n: int)
    requires 0 <= n < NThreads
    ensures BandsBelow(w, h, n) + BandCells(w, h, n) == BandsBelow(w, h, n + 1)
    ensures BandsBelow(w, h, NThreads) == InteriorCells(w, h)
    ensures BandsBelow(w, h, 0) == {}
  {
  }

  /** Every cell of the grid is interior or border, and not both. */
  lemma {:induction false} InteriorBorderPartition(w: int, h: int)
    requires 1 <= w && 1 <= h
    ensures InteriorCells(w, h) * BorderCells(w, h) == {}
    ensures forall k :: 0 <= k < w * h <==> k in InteriorCells(w, h) + BorderCells(w, h)
  {
    forall k | 0 <= k < w * h
      ensures k in InteriorCells(w, h) <==> k !in BorderCells(w, h)
    {
      IndexOfFlat(w, h, k);
      InteriorOrBorder(w, h, k % w, k / w);
    }
  }

  lemma OverwriteNothing(old_: seq<real>, next: seq<real>)
    requires |old_| == |next|
    ensures Overwrite(old_, next, {}) == old_
  {
  }

  /** Overwriting with the same next generation on two sets of cells, one
      after the other, is overwriting on their union. */
  lemma OverwriteTwice(old_: seq<real>, next: seq<real>, a: set<int>, b: set<int>)
    requires |old_| == |next|
    ensures Overwrite(Overwrite(old_, next, a), next, b) == Overwrite(old_, next, a + b)
  {
  }

  // ---------------------------------------------------------------------
  // One whole iteration.

  /** The threaded iteration: the NThreads interior workers and the border
      worker write disjoint cells of `output` and only read `input`, so
      running them one after the other gives the same buffer; the result
      flags are and-ed. */
  method ProcessIteration(w: int, h: int, input: array<real>, output: array<real>, g: array<real>)
    returns (converged: bool)
    requires Buffers(w, h, input, output, g)
    modifies output
    ensures output[..] == Step(w, h, input[..], g[..])
    ensures converged <==> Step(w, h, input[..], g[..]) == input[..]
  {
    ghost var next := Step(w, h, input[..], g[..]);
    converged := true;
    var indexMax := (h - 1) * w - 1;
    var ofs := NeighborOffsets(w);
    for n := 0 to NThreads
      invariant OffsetTable(w, ofs[..])
      invariant output[..] == Overwrite(old(output[..]), next, BandsBelow(w, h, n))
      invariant converged <==> forall k :: k in BandsBelow(w, h, n) ==> next[k] == input[k]
    {
      ghost var before := output[..];
      var ret := ProcessIterationThread(w, h, n, indexMax, input, output, g, ofs);
      converged := converged && ret;
      BandsCover(w, h, n);
      OverwriteTwice(old(output[..]), next, BandsBelow(w, h, n), BandCells(w, h, n));
    }
    var ret := ProcessIterationBordersThread(w, h, input, output, g, ofs);
    converged := converged && ret;
    BandsCover(w, h, 0);
    InteriorBorderPartition(w, h);
    OverwriteTwice(old(output[..]), next, InteriorCells(w, h), BorderCells(w, h));
    assert output[..] == next;
  }

  /** The interior walk of the single-threaded iteration: row by row by
      flat index, skipping the two border cells between rows. */
  method ProcessInteriorSequential(w: int, h: int, indexMax: int,
                                   input: array<real>, output: array<real>, g: array<real>, ofs: array<int>)
    returns (converged: bool)
    requires Buffers(w, h, input, output, g) && OffsetTable(w, ofs[..]) && indexMax == (h - 1) * w - 1
    modifies output
    ensures output[..] == Overwrite(old(output[..]), Step(w, h, input[..], g[..]), InteriorCells(w, h))
    ensures converged <==> forall k :: k in InteriorCells(w, h) ==> Step(w, h, input[..], g[..])[k] == input[k]
  {
    ghost var next := Step(w, h, input[..], g[..]);
    converged := true;
    var index := w + 1;
    ghost var row := 1;
    InteriorPrefixStart(w, h, index);
    OverwriteNothing(old(output[..]), next);
    while index < indexMax
      invariant 1 <= row && 1 <= index
      invariant 2 <= w ==> index == Index(w, 1, row)
      invariant output[..] == Overwrite(old(output[..]), next, InteriorPrefix(w, h, index))
      invariant converged <==> forall k :: k in InteriorPrefix(w, h, index) ==> next[k] == input[k]
      decreases indexMax - index
    {
      ghost var start := index;
      if 3 <= w {
        RowBelowMax(w, h, row);
        RowCells(w, h, row);
      }
      converged, index := ProcessRowRun(w, h, row, index, input, output, g, ofs, converged);
      ghost var lineEnd := index;
      index := index + 1;
      index := index + 1;
      ghost var nextRow := row + 1;
      RowStep(w, h, row, nextRow, start, lineEnd, index);
      OverwriteTwice(old(output[..]), next, InteriorPrefix(w, h, start), RunCells(w, h, start, lineEnd));
      row := nextRow;
    }
    InteriorPrefixEnd(w, h, index);
  }

  /** The single-threaded iteration: the interior walk, then the four
      border strips. */
  method ProcessIterationSequential(w: int, h: int, input: array<real>, output: array<real>, g: array<real>)
    returns (converged: bool)
    requires Buffers(w, h, input, output, g)
    modifies output
    ensures output[..] == Step(w, h, input[..], g[..])
    ensures converged <==> Step(w, h, input[..], g[..]) == input[..]
  {
    ghost var next := Step(w, h, input[..], g[..]);
    var indexMax := (h - 1) * w - 1;
    var ofs := NeighborOffsets(w);
    converged := ProcessInteriorSequential(w, h, indexMax, input, output, g, ofs);
    converged := ProcessBorderRow(w, h, 0, input, output, g, ofs, converged);
    converged := ProcessBorderRow(w, h, h - 1, input, output, g, ofs, converged);
    converged := ProcessBorderColumn(w, h, 0, input, output, g, ofs, converged);
    converged := ProcessBorderColumn(w, h, w - 1, input, output, g, ofs, converged);
    forall k | 0 <= k < w * h
      ensures k in InteriorCells(w, h) || k / w == 0 || k / w == h - 1 ||
        ((k % w == 0 || k % w == w - 1) && 1 <= k / w < h - 1)
    {
      IndexOfFlat(w, h, k);
    }
    assert output[..] == next;
  }
}
