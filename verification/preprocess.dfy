/** Preparation of the colour buffer and of the affinities: a 3x3 box blur
    of the three-channel colour buffer (three values per pixel, pixel k at
    3k .. 3k+2), then eight affinities per pixel derived from the colour
    distance to each neighbour. */
module Preprocess {
  import opened Grid

  // ---------------------------------------------------------------------
  // The box blur.

  predicate Colours(w: int, h: int, a: seq<real>) {
    1 <= w && 1 <= h && |a| == w * h * 3
  }

  lemma ChannelInRange(w: int, h: int, x: int, y: int, c: int)
    requires InGrid(w, h, x, y) && 0 <= c < 3
    ensures 0 <= Index(w, x, y) * 3 + c < w * h * 3
  {
    IndexInRange(w, h, x, y);
  }

  /** Channel c of the pixel at box offset i of pixel (x, y); that pixel
      lies in the grid. */
  function BoxValue(w: int, h: int, a: seq<real>, x: int, y: int, c: int, i: int): real
    requires Colours(w, h, a) && InGrid(w, h, x, y) && 0 <= c < 3 && 0 <= i < 9 && BoxInGrid(w, h, x, y, i)
  {
    ChannelInRange(w, h, x + NX9[i], y + NY9[i], c);
    a[Index(w, x + NX9[i], y + NY9[i]) * 3 + c]
  }

  /** Sum of channel c over box offsets 0 .. n-1 of pixel (x, y) that lie
      in the grid. */
  function BoxSum(w: int, h: int, a: seq<real>, x: int, y: int, c: int, n: int): real
    requires Colours(w, h, a) && InGrid(w, h, x, y) && 0 <= c < 3 && 0 <= n <= 9
    decreases n
  {
    if n == 0 then 0.0
    else
      var prev := BoxSum(w, h, a, x, y, c, n - 1);
      if BoxInGrid(w, h, x, y, n - 1) then prev + BoxValue(w, h, a, x, y, c, n - 1) else prev
  }

  /** Number of box offsets 0 .. n-1 of pixel (x, y) that lie in the grid. */
  function BoxCount(w: int, h: int, x: int, y: int, n: int): (r: nat)
    requires 0 <= n <= 9
    ensures r <= n
    decreases n
  {
    if n == 0 then 0
    else BoxCount(w, h, x, y, n - 1) + (if BoxInGrid(w, h, x, y, n - 1) then 1 else 0)
  }

  /** The pixel itself is offset 0, so every box holds at least one pixel. */
  lemma {:induction false} BoxCountPositive(w: int, h: int, x: int, y: int, n: int)
    requires InGrid(w, h, x, y) && 1 <= n <= 9
    ensures 1 <= BoxCount(w, h, x, y, n) <= n
  {
    if n > 1 {
      BoxCountPositive(w, h, x, y, n - 1);
    }
  }

  /** Adding box offset i, in the grid, to the sums of its three channels,
      whose values start at flat position q. */
  lemma BoxSumStep(w: int, h: int, a: seq<real>, x: int, y: int, i: int, q: int)
    requires Colours(w, h, a) && InGrid(w, h, x, y) && 0 <= i < 9 && BoxInGrid(w, h, x, y, i)
    requires q == Index(w, x + NX9[i], y + NY9[i]) * 3
    ensures 0 <= q && q + 2 < |a|
    ensures BoxSum(w, h, a, x, y, 0, i + 1) == BoxSum(w, h, a, x, y, 0, i) + a[q]
    ensures BoxSum(w, h, a, x, y, 1, i + 1) == BoxSum(w, h, a, x, y, 1, i) + a[q + 1]
    ensures BoxSum(w, h, a, x, y, 2, i + 1) == BoxSum(w, h, a, x, y, 2, i) + a[q + 2]
    ensures BoxCount(w, h, x, y, i + 1) == BoxCount(w, h, x, y, i) + 1
  {
    ChannelInRange(w, h, x + NX9[i], y + NY9[i], 2);
  }

  /** Channel c of pixel (x, y) after the blur: the mean over its box. */
  function BlurAt(w: int, h: int, a: seq<real>, x: int, y: int, c: int): real
    requires Colours(w, h, a) && InGrid(w, h, x, y) && 0 <= c < 3
  {
    BoxCountPositive(w, h, x, y, 9);
    BoxSum(w, h, a, x, y, c, 9) / BoxCount(w, h, x, y, 9) as real
  }

  /** The three blurred channels of pixel (x, y). */
  function BlurTriple(w: int, h: int, a: seq<real>, x: int, y: int): (r: seq<real>)
    requires Colours(w, h, a) && InGrid(w, h, x, y)
    ensures |r| == 3
  {
    seq(3, c requires 0 <= c < 3 => BlurAt(w, h, a, x, y, c))
  }

  /** The blurred values of pixels 0 .. n-1, three per pixel, in the order
      of their flat indices. */
  function BlurPixels(w: int, h: int, a: seq<real>, n: int): (r: seq<real>)
    requires Colours(w, h, a) && 0 <= n <= w * h
    ensures |r| == n * 3
    decreases n
  {
    if n == 0 then []
    else
      IndexOfFlat(w, h, n - 1);
      var x, y := (n - 1) % w, (n - 1) / w;
      BlurPixels(w, h, a, n - 1) + BlurTriple(w, h, a, x, y)
  }

  /** The whole blurred buffer, every value computed from the unblurred one. */
  function Blur(w: int, h: int, a: seq<real>): (r: seq<real>)
    requires Colours(w, h, a)
    ensures |r| == |a|
  {
    BlurPixels(w, h, a, w * h)
  }

  /** Computing fewer pixels gives a prefix of computing more. */
  lemma {:induction false} BlurPixelsPrefix(w: int, h: int, a: seq<real>, m: int, n: int)
    requires Colours(w, h, a) && 0 <= m <= n <= w * h
    ensures BlurPixels(w, h, a, n)[..m * 3] == BlurPixels(w, h, a, m)
    decreases n
  {
    if m < n {
      BlurPixelsPrefix(w, h, a, m, n - 1);
      var prefix := BlurPixels(w, h, a, n - 1);
      IndexOfFlat(w, h, n - 1);
      assert BlurPixels(w, h, a, n) == prefix + BlurTriple(w, h, a, (n - 1) % w, (n - 1) / w);
      assert m * 3 <= |prefix|;
      assert BlurPixels(w, h, a, n)[..m * 3] == prefix[..m * 3];
    }
  }

  /** Value q of pixel p's three lies in the prefix of p + 1 pixels. */
  lemma BlurPixelsAt(w: int, h: int, a: seq<real>, n: int, p: int, q: int)
    requires Colours(w, h, a) && 0 <= p < n <= w * h && p * 3 <= q < p * 3 + 3
    ensures q < |BlurPixels(w, h, a, p + 1)| && BlurPixels(w, h, a, n)[q] == BlurPixels(w, h, a, p + 1)[q]
  {
    BlurPixelsPrefix(w, h, a, p + 1, n);
    assert BlurPixels(w, h, a, n)[q] == BlurPixels(w, h, a, n)[..(p + 1) * 3][q];
  }

  lemma BlurPixelsEntry(w: int, h: int, a: seq<real>, n: int, x: int, y: int, c: int)
    requires Colours(w, h, a) && 0 <= n <= w * h && InGrid(w, h, x, y) && 0 <= c < 3
    requires Index(w, x, y) < n
    ensures 0 <= Index(w, x, y) * 3 + c < n * 3
    ensures BlurPixels(w, h, a, n)[Index(w, x, y) * 3 + c] == BlurTriple(w, h, a, x, y)[c]
  {
    var p := Index(w, x, y);
    BlurPixelsNext(w, h, a, x, y);
    BlurPixelsAt(w, h, a, n, p, p * 3 + c);
    var t := BlurTriple(w, h, a, x, y);
    assert (BlurPixels(w, h, a, p) + t)[p * 3 + c] == t[c];
  }

  lemma TripleAt(w: int, h: int, a: seq<real>, x: int, y: int, c: int)
    requires Colours(w, h, a) && InGrid(w, h, x, y) && 0 <= c < 3
    ensures BlurTriple(w, h, a, x, y)[c] == BlurAt(w, h, a, x, y, c)
  {
  }

  /** Value c of pixel (x, y) in the blurred buffer is the mean of channel
      c over the pixel's box. */
  lemma BlurEntry(w: int, h: int, a: seq<real>, x: int, y: int, c: int)
    requires Colours(w, h, a) && InGrid(w, h, x, y) && 0 <= c < 3
    ensures 0 <= Index(w, x, y) * 3 + c < w * h * 3
    ensures Blur(w, h, a)[Index(w, x, y) * 3 + c] == BlurAt(w, h, a, x, y, c)
  {
    IndexInRange(w, h, x, y);
    BlurPixelsEntry(w, h, a, w * h, x, y, c);
    TripleAt(w, h, a, x, y, c);
  }

  /** Every value of a lies in [lo, hi]. */
  predicate InRange(a: seq<real>, lo: real, hi: real) {
    forall k :: 0 <= k < |a| ==> lo <= a[k] <= hi
  }

  /** Channel c of every in-grid pixel of the box of (x, y) lies in
      [lo, hi]. */
  ghost predicate BoxWithin(w: int, h: int, a: seq<real>, x: int, y: int, c: int, lo: real, hi: real)
    requires Colours(w, h, a) && InGrid(w, h, x, y) && 0 <= c < 3
  {
    forall i :: 0 <= i < 9 && BoxInGrid(w, h, x, y, i) ==> lo <= BoxValue(w, h, a, x, y, c, i) <= hi
  }

  /** v added to itself n times: n * v without a product of unknowns. */
  function Times(v: real, n: nat): real
    decreases n
  {
    if n == 0 then 0.0 else Times(v, n - 1) + v
  }

  lemma {:induction false} TimesIsProduct(v: real, n: nat)
    ensures Times(v, n) == v * n as real
  {
    if n > 0 {
      TimesIsProduct(v, n - 1);
      assert v * (n - 1) as real + v == v * n as real;
    }
  }

  lemma {:induction false} BoxSumBetween(w: int, h: int, a: seq<real>, x: int, y: int, c: int, n: int, lo: real, hi: real)
    requires Colours(w, h, a) && InGrid(w, h, x, y) && 0 <= c < 3 && 0 <= n <= 9
    requires BoxWithin(w, h, a, x, y, c, lo, hi)
    ensures Times(lo, BoxCount(w, h, x, y, n)) <= BoxSum(w, h, a, x, y, c, n) <= Times(hi, BoxCount(w, h, x, y, n))
  {
    if n > 0 {
      BoxSumBetween(w, h, a, x, y, c, n - 1, lo, hi);
      if BoxInGrid(w, h, x, y, n - 1) {
        BoxAddBetween(w, h, a, x, y, c, n - 1, lo, hi);
      } else {
        assert BoxSum(w, h, a, x, y, c, n) == BoxSum(w, h, a, x, y, c, n - 1);
        assert BoxCount(w, h, x, y, n) == BoxCount(w, h, x, y, n - 1);
      }
    }
  }

  /** Adding one in-grid value in [lo, hi] to a box sum keeps it between
      lo and hi times the count. */
  lemma BoxAddBetween(w: int, h: int, a: seq<real>, x: int, y: int, c: int, i: int, lo: real, hi: real)
    requires Colours(w, h, a) && InGrid(w, h, x, y) && 0 <= c < 3 && 0 <= i < 9
    requires BoxWithin(w, h, a, x, y, c, lo, hi) && BoxInGrid(w, h, x, y, i)
    requires Times(lo, BoxCount(w, h, x, y, i)) <= BoxSum(w, h, a, x, y, c, i) <= Times(hi, BoxCount(w, h, x, y, i))
    ensures Times(lo, BoxCount(w, h, x, y, i + 1)) <= BoxSum(w, h, a, x, y, c, i + 1) <= Times(hi, BoxCount(w, h, x, y, i + 1))
  {
    var v := BoxValue(w, h, a, x, y, c, i);
    assert lo <= v <= hi;
    assert BoxSum(w, h, a, x, y, c, i + 1) == BoxSum(w, h, a, x, y, c, i) + v;
    assert BoxCount(w, h, x, y, i + 1) == BoxCount(w, h, x, y, i) + 1;
    TimesStep(lo, hi, BoxCount(w, h, x, y, i), BoxSum(w, h, a, x, y, c, i), v);
  }

  lemma TimesStep(lo: real, hi: real, k: nat, s: real, v: real)
    requires Times(lo, k) <= s <= Times(hi, k) && lo <= v <= hi
    ensures Times(lo, k + 1) <= s + v <= Times(hi, k + 1)
  {
  }

  /** A mean of n values in [lo, hi] lies in [lo, hi]. */
  lemma MeanBetween(s: real, n: nat, lo: real, hi: real)
    requires 0 < n && Times(lo, n) <= s <= Times(hi, n)
    ensures lo <= s / n as real <= hi
  {
    TimesIsProduct(lo, n);
    TimesIsProduct(hi, n);
    var m := n as real;
    var q := s / m;
    assert s == q * m;
    assert lo * m <= q * m <= hi * m;
    ScaleLe(lo, q, m);
    ScaleLe(q, hi, m);
  }

  /** Dividing both sides by a positive m keeps the order. */
  lemma ScaleLe(a: real, b: real, m: real)
    requires 0.0 < m && a * m <= b * m
    ensures a <= b
  {
    if a > b {
      ProductPositive(a - b, m);
    }
  }

  lemma ProductPositive(a: real, b: real)
    requires 0.0 < a && 0.0 < b
    ensures 0.0 < a * b
  {
  }

  lemma BoxWithinRange(w: int, h: int, a: seq<real>, x: int, y: int, c: int, lo: real, hi: real)
    requires Colours(w, h, a) && InGrid(w, h, x, y) && 0 <= c < 3 && InRange(a, lo, hi)
    ensures BoxWithin(w, h, a, x, y, c, lo, hi)
  {
    forall i | 0 <= i < 9 && BoxInGrid(w, h, x, y, i)
      ensures lo <= BoxValue(w, h, a, x, y, c, i) <= hi
    {
      ChannelInRange(w, h, x + NX9[i], y + NY9[i], c);
    }
  }

  /** A blurred value lies between the least and the greatest value of
      the same channel in the pixel's box. */
  lemma BlurAtBetween(w: int, h: int, a: seq<real>, x: int, y: int, c: int, lo: real, hi: real)
    requires Colours(w, h, a) && InGrid(w, h, x, y) && 0 <= c < 3
    requires BoxWithin(w, h, a, x, y, c, lo, hi)
    ensures lo <= BlurAt(w, h, a, x, y, c) <= hi
  {
    BoxCountPositive(w, h, x, y, 9);
    BoxSumBetween(w, h, a, x, y, c, 9, lo, hi);
    MeanBetween(BoxSum(w, h, a, x, y, c, 9), BoxCount(w, h, x, y, 9), lo, hi);
  }

  /** The blur keeps channels in [0, 1]. */
  lemma BlurBounded(w: int, h: int, a: seq<real>)
    requires Colours(w, h, a) && InRange(a, 0.0, 1.0)
    ensures InRange(Blur(w, h, a), 0.0, 1.0)
  {
    forall j | 0 <= j < w * h * 3
      ensures 0.0 <= Blur(w, h, a)[j] <= 1.0
    {
      var k, c := j / 3, j % 3;
      assert j == k * 3 + c && 0 <= k < w * h;
      IndexOfFlat(w, h, k);
      BlurPixelBounded(w, h, a, k % w, k / w, c);
    }
  }

  /** One blurred channel lies in [0, 1]. */
  lemma BlurPixelBounded(w: int, h: int, a: seq<real>, x: int, y: int, c: int)
    requires Colours(w, h, a) && InRange(a, 0.0, 1.0) && InGrid(w, h, x, y) && 0 <= c < 3
    ensures 0 <= Index(w, x, y) * 3 + c < w * h * 3
    ensures 0.0 <= Blur(w, h, a)[Index(w, x, y) * 3 + c] <= 1.0
  {
    BlurEntry(w, h, a, x, y, c);
    BoxWithinRange(w, h, a, x, y, c, 0.0, 1.0);
    BlurAtBetween(w, h, a, x, y, c, 0.0, 1.0);
  }

  /** The body of the blur's pixel loop: accumulates the in-grid box of
      pixel (x, y) into its three zeroed scratch cells and divides each by
      the number of pixels summed. */
  method BlurPixel(w: int, h: int, buf: array<real>, temp: array<real>, x: int, y: int)
    requires Colours(w, h, buf[..]) && temp.Length == w * h * 3 && buf != temp && InGrid(w, h, x, y)
    requires (ChannelInRange(w, h, x, y, 2);
      temp[Index(w, x, y) * 3] == 0.0 && temp[Index(w, x, y) * 3 + 1] == 0.0 && temp[Index(w, x, y) * 3 + 2] == 0.0)
    modifies temp
    ensures 0 <= Index(w, x, y) * 3 && Index(w, x, y) * 3 + 2 < w * h * 3
    ensures temp[Index(w, x, y) * 3] == BlurAt(w, h, buf[..], x, y, 0)
    ensures temp[Index(w, x, y) * 3 + 1] == BlurAt(w, h, buf[..], x, y, 1)
    ensures temp[Index(w, x, y) * 3 + 2] == BlurAt(w, h, buf[..], x, y, 2)
    ensures forall k :: 0 <= k < temp.Length && (k < Index(w, x, y) * 3 || Index(w, x, y) * 3 + 3 <= k) ==>
      temp[k] == old(temp[k])
  {
    ghost var a := buf[..];
    ChannelInRange(w, h, x, y, 0);
    ChannelInRange(w, h, x, y, 2);
    var index := (x + (y * w)) * 3;
    var nPixels := 0;
    for i := 0 to 9
      invariant temp[index] == BoxSum(w, h, a, x, y, 0, i)
      invariant temp[index + 1] == BoxSum(w, h, a, x, y, 1, i)
      invariant temp[index + 2] == BoxSum(w, h, a, x, y, 2, i)
      invariant nPixels == BoxCount(w, h, x, y, i)
      invariant forall k :: 0 <= k < temp.Length && (k < index || index + 3 <= k) ==> temp[k] == old(temp[k])
    {
      if x + NX9[i] < 0 || x + NX9[i] >= w || y + NY9[i] < 0 || y + NY9[i] >= h {
        continue;
      }
      ChannelInRange(w, h, x + NX9[i], y + NY9[i], 0);
      ChannelInRange(w, h, x + NX9[i], y + NY9[i], 2);
      var neighborIndex := (x + NX9[i] + ((y + NY9[i]) * w)) * 3;
      BoxSumStep(w, h, a, x, y, i, neighborIndex);
      temp[index] := temp[index] + buf[neighborIndex];
      temp[index + 1] := temp[index + 1] + buf[neighborIndex + 1];
      temp[index + 2] := temp[index + 2] + buf[neighborIndex + 2];
      nPixels := nPixels + 1;
    }
    BoxCountPositive(w, h, x, y, 9);
    temp[index] := temp[index] / nPixels as real;
    temp[index + 1] := temp[index + 1] / nPixels as real;
    temp[index + 2] := temp[index + 2] / nPixels as real;
  }

  /** Writing three values just past a prefix, and nothing before it,
      extends the prefix by those values. */
  lemma ExtendPrefix(before: seq<real>, after: seq<real>, n: int, s: seq<real>, t: seq<real>)
    requires 0 <= n && |t| == 3 && n + 3 <= |after| == |before|
    requires before[..n] == s
    requires after[n] == t[0] && after[n + 1] == t[1] && after[n + 2] == t[2]
    requires forall k :: 0 <= k < n ==> after[k] == before[k]
    ensures after[..n + 3] == s + t
  {
    assert after[..n] == before[..n];
  }

  /** One BlurPixel call extends the blurred prefix of the scratch buffer
      by the three values of its pixel. */
  lemma BlurStep(w: int, h: int, a: seq<real>, x: int, y: int, before: seq<real>, after: seq<real>)
    requires Colours(w, h, a) && InGrid(w, h, x, y) && |before| == |after| == |a|
    requires 0 <= Index(w, x, y) * 3 && Index(w, x, y) * 3 + 3 <= |a|
    requires before[..Index(w, x, y) * 3] == BlurPixels(w, h, a, Index(w, x, y))
    requires after[Index(w, x, y) * 3] == BlurAt(w, h, a, x, y, 0)
    requires after[Index(w, x, y) * 3 + 1] == BlurAt(w, h, a, x, y, 1)
    requires after[Index(w, x, y) * 3 + 2] == BlurAt(w, h, a, x, y, 2)
    requires forall k :: 0 <= k < |after| && (k < Index(w, x, y) * 3 || Index(w, x, y) * 3 + 3 <= k) ==>
      after[k] == before[k]
    ensures Index(w, x + 1, y) <= w * h
    ensures after[..Index(w, x + 1, y) * 3] == BlurPixels(w, h, a, Index(w, x + 1, y))
  {
    BlurPixelsNext(w, h, a, x, y);
    var t := BlurTriple(w, h, a, x, y);
    assert after[Index(w, x, y) * 3] == t[0] && after[Index(w, x, y) * 3 + 1] == t[1]
      && after[Index(w, x, y) * 3 + 2] == t[2];
    ExtendPrefix(before, after, Index(w, x, y) * 3, BlurPixels(w, h, a, Index(w, x, y)), t);
  }

  /** The blurred prefix up to pixel (x + 1, y) is the one up to (x, y)
      followed by the values of (x, y). */
  lemma BlurPixelsNext(w: int, h: int, a: seq<real>, x: int, y: int)
    requires Colours(w, h, a) && InGrid(w, h, x, y)
    ensures Index(w, x + 1, y) == Index(w, x, y) + 1 <= w * h
    ensures BlurPixels(w, h, a, Index(w, x, y) + 1)
         == BlurPixels(w, h, a, Index(w, x, y)) + BlurTriple(w, h, a, x, y)
  {
    IndexInRange(w, h, x, y);
    CoordsOfIndex(w, x, y);
    var p := Index(w, x, y);
    assert p % w == x && p / w == y;
  }

  /** Blurs the colour buffer in place through a zeroed scratch buffer,
      pixel by pixel, then copies the scratch buffer back. */
  method BlurImageArray(w: int, h: int, buf: array<real>)
    requires Colours(w, h, buf[..])
    modifies buf
    ensures buf[..] == Blur(w, h, old(buf[..]))
  {
    ghost var a := buf[..];
    var temp := new real[w * h * 3](_ => 0.0);
    for y := 0 to h
      invariant buf[..] == a
      invariant Index(w, 0, y) <= w * h
      invariant temp[..Index(w, 0, y) * 3] == BlurPixels(w, h, a, Index(w, 0, y))
      invariant forall k :: Index(w, 0, y) * 3 <= k < temp.Length ==> temp[k] == 0.0
    {
      for x := 0 to w
        invariant buf[..] == a
        invariant Index(w, x, y) <= w * h
        invariant temp[..Index(w, x, y) * 3] == BlurPixels(w, h, a, Index(w, x, y))
        invariant forall k :: Index(w, x, y) * 3 <= k < temp.Length ==> temp[k] == 0.0
      {
        ghost var before := temp[..];
        ChannelInRange(w, h, x, y, 2);
        BlurPixel(w, h, buf, temp, x, y);
        BlurStep(w, h, a, x, y, before, temp[..]);
      }
      RowEnd(w, y);
    }
    GridEnd(w, h);
    assert temp[..] == temp[..Index(w, 0, h) * 3];
    forall k | 0 <= k < w * h * 3 {
      buf[k] := temp[k];
    }
  }

  // ---------------------------------------------------------------------
  // The affinities.

  /** Upper bound of the colour distance, a little above the square root of
      3 (the largest distance between two colours with channels in [0, 1]). */
  const MaxC: real := 1.732050808

  /** Squared colour distance between pixel (x, y) and its neighbour in
      direction i. */
  function Dist2(w: int, h: int, a: seq<real>, x: int, y: int, i: int): (r: real)
    requires Colours(w, h, a) && InGrid(w, h, x, y) && 0 <= i < 8 && NeighborInGrid(w, h, x, y, i)
    ensures 0.0 <= r
  {
    ChannelInRange(w, h, x, y, 2);
    ChannelInRange(w, h, x + NX8[i], y + NY8[i], 2);
    var p, q := Index(w, x, y) * 3, Index(w, x + NX8[i], y + NY8[i]) * 3;
    (a[p] - a[q]) * (a[p] - a[q]) + (a[p + 1] - a[q + 1]) * (a[p + 1] - a[q + 1]) +
    (a[p + 2] - a[q + 2]) * (a[p + 2] - a[q + 2])
  }

  /** The affinity of pixel (x, y) towards its neighbour in direction i:
      1 for identical colours, falling linearly with the colour distance.
      The square root is a parameter of the model. */
  function Affinity(w: int, h: int, a: seq<real>, sqrt: real -> real, x: int, y: int, i: int): real
    requires Colours(w, h, a) && InGrid(w, h, x, y) && 0 <= i < 8 && NeighborInGrid(w, h, x, y, i)
  {
    1.0 - sqrt(Dist2(w, h, a, x, y, i)) / MaxC
  }

  /** sqrt returns the non-negative square root of every non-negative real,
      and exactly 0 for 0. */
  ghost predicate IsSqrt(sqrt: real -> real) {
    sqrt(0.0) == 0.0 && forall v :: 0.0 <= v ==> 0.0 <= sqrt(v) && sqrt(v) * sqrt(v) == v
  }

  lemma SquareAtMostOne(d: real)
    requires -1.0 <= d <= 1.0
    ensures 0.0 <= d * d <= 1.0
  {
    if d < 0.0 {
      assert d * d == (-d) * (-d);
      assert (-d) * (-d) <= 1.0 * (-d);
    } else {
      assert d * d <= 1.0 * d;
    }
  }

  lemma RootBelowMaxC(c: real, v: real)
    requires 0.0 <= c && c * c == v && v <= 3.0
    ensures c < MaxC
  {
    assert (MaxC - c) * (MaxC + c) == MaxC * MaxC - c * c;
    assert 0.0 < MaxC * MaxC - c * c;
  }

  /** With channels in [0, 1] the squared distance is at most 3, its root
      below MaxC, and every affinity in (0, 1]. */
  lemma AffinityBounded(w: int, h: int, a: seq<real>, sqrt: real -> real, x: int, y: int, i: int)
    requires Colours(w, h, a) && InRange(a, 0.0, 1.0) && IsSqrt(sqrt)
    requires InGrid(w, h, x, y) && 0 <= i < 8 && NeighborInGrid(w, h, x, y, i)
    ensures 0.0 < Affinity(w, h, a, sqrt, x, y, i) <= 1.0
  {
    ChannelInRange(w, h, x, y, 2);
    ChannelInRange(w, h, x + NX8[i], y + NY8[i], 2);
    var p, q := Index(w, x, y) * 3, Index(w, x + NX8[i], y + NY8[i]) * 3;
    SquareAtMostOne(a[p] - a[q]);
    SquareAtMostOne(a[p + 1] - a[q + 1]);
    SquareAtMostOne(a[p + 2] - a[q + 2]);
    var d := Dist2(w, h, a, x, y, i);
    assert 0.0 <= d <= 3.0;
    var c := sqrt(d);
    RootOf(sqrt, d);
    RootBelowMaxC(c, d);
    AffinityOfRoot(c);
    assert Affinity(w, h, a, sqrt, x, y, i) == 1.0 - c / MaxC;
  }

  lemma RootOf(sqrt: real -> real, v: real)
    requires IsSqrt(sqrt) && 0.0 <= v
    ensures 0.0 <= sqrt(v) && sqrt(v) * sqrt(v) == v
  {
  }

  lemma AffinityOfRoot(c: real)
    requires 0.0 <= c < MaxC
    ensures 0.0 < 1.0 - c / MaxC <= 1.0
  {
  }

  /** Pixels (x, y) and (x', y') have the same three channels. */
  ghost predicate SameColour(w: int, h: int, a: seq<real>, x: int, y: int, x': int, y': int)
    requires Colours(w, h, a) && InGrid(w, h, x, y) && InGrid(w, h, x', y')
  {
    ChannelInRange(w, h, x, y, 2);
    ChannelInRange(w, h, x', y', 2);
    var p, q := Index(w, x, y) * 3, Index(w, x', y') * 3;
    a[p] == a[q] && a[p + 1] == a[q + 1] && a[p + 2] == a[q + 2]
  }

  /** Identical colours have affinity exactly 1. */
  lemma AffinityOfEqualColours(w: int, h: int, a: seq<real>, sqrt: real -> real, x: int, y: int, i: int)
    requires Colours(w, h, a) && IsSqrt(sqrt)
    requires InGrid(w, h, x, y) && 0 <= i < 8 && NeighborInGrid(w, h, x, y, i)
    requires SameColour(w, h, a, x, y, x + NX8[i], y + NY8[i])
    ensures Affinity(w, h, a, sqrt, x, y, i) == 1.0
  {
    ChannelInRange(w, h, x, y, 2);
    ChannelInRange(w, h, x + NX8[i], y + NY8[i], 2);
    var p, q := Index(w, x, y) * 3, Index(w, x + NX8[i], y + NY8[i]) * 3;
    assert a[p] - a[q] == 0.0 && a[p + 1] - a[q + 1] == 0.0 && a[p + 2] - a[q + 2] == 0.0;
    assert Dist2(w, h, a, x, y, i) == 0.0;
    assert sqrt(0.0) == 0.0;
  }

  /** Direction 7 - i is the opposite of direction i. */
  lemma Opposite(i: int)
    requires 0 <= i < 8
    ensures NX8[7 - i] == -NX8[i] && NY8[7 - i] == -NY8[i]
  {
  }

  /** The affinity of a pixel towards a neighbour equals the neighbour's
      affinity back towards the pixel. */
  lemma AffinitySymmetric(w: int, h: int, a: seq<real>, sqrt: real -> real, x: int, y: int, i: int)
    requires Colours(w, h, a) && InGrid(w, h, x, y) && 0 <= i < 8 && NeighborInGrid(w, h, x, y, i)
    ensures NeighborInGrid(w, h, x + NX8[i], y + NY8[i], 7 - i)
    ensures Affinity(w, h, a, sqrt, x, y, i) == Affinity(w, h, a, sqrt, x + NX8[i], y + NY8[i], 7 - i)
  {
    Opposite(i);
    var x', y' := x + NX8[i], y + NY8[i];
    assert x' + NX8[7 - i] == x && y' + NY8[7 - i] == y;
    var p, q := Index(w, x, y) * 3, Index(w, x', y') * 3;
    ChannelInRange(w, h, x, y, 2);
    ChannelInRange(w, h, x', y', 2);
    assert (a[p] - a[q]) * (a[p] - a[q]) == (a[q] - a[p]) * (a[q] - a[p]);
    assert (a[p + 1] - a[q + 1]) * (a[p + 1] - a[q + 1]) == (a[q + 1] - a[p + 1]) * (a[q + 1] - a[p + 1]);
    assert (a[p + 2] - a[q + 2]) * (a[p + 2] - a[q + 2]) == (a[q + 2] - a[p + 2]) * (a[q + 2] - a[p + 2]);
    assert Dist2(w, h, a, x, y, i) == Dist2(w, h, a, x', y', 7 - i);
  }

  /** Whether the affinity slot k is one the rule reads: its direction
      points into the grid. */
  predicate SlotUsed(w: int, h: int, k: int)
    requires 1 <= w && 0 <= k
  {
    NeighborInGrid(w, h, (k / 8) % w, (k / 8) / w, k % 8)
  }

  /** The affinity buffer with every used slot filled and the others 0. */
  function AffinityTable(w: int, h: int, a: seq<real>, sqrt: real -> real): (r: seq<real>)
    requires Colours(w, h, a)
    ensures |r| == w * h * 8
  {
    seq(w * h * 8, k requires 0 <= k < w * h * 8 =>
      IndexOfFlat(w, h, k / 8);
      if SlotUsed(w, h, k) then Affinity(w, h, a, sqrt, (k / 8) % w, (k / 8) / w, k % 8) else 0.0)
  }

  lemma TableAt(w: int, h: int, a: seq<real>, sqrt: real -> real, x: int, y: int, i: int)
    requires Colours(w, h, a) && InGrid(w, h, x, y) && 0 <= i < 8
    ensures 0 <= Slot(w, x, y, i) < w * h * 8
    ensures SlotUsed(w, h, Slot(w, x, y, i)) == NeighborInGrid(w, h, x, y, i)
    ensures NeighborInGrid(w, h, x, y, i) ==>
      AffinityTable(w, h, a, sqrt)[Slot(w, x, y, i)] == Affinity(w, h, a, sqrt, x, y, i)
  {
    SlotInRange(w, h, x, y, i);
    CoordsOfIndex(w, x, y);
    assert Slot(w, x, y, i) / 8 == Index(w, x, y) && Slot(w, x, y, i) % 8 == i;
  }

  /** Dist2 spelled out on the two pixels' flat colour positions. */
  lemma Dist2At(w: int, h: int, a: seq<real>, x: int, y: int, i: int, p: int, q: int)
    requires Colours(w, h, a) && InGrid(w, h, x, y) && 0 <= i < 8 && NeighborInGrid(w, h, x, y, i)
    requires p == Index(w, x, y) * 3 && q == Index(w, x + NX8[i], y + NY8[i]) * 3
    ensures 0 <= p && p + 2 < |a| && 0 <= q && q + 2 < |a|
    ensures Dist2(w, h, a, x, y, i) ==
      (a[p] - a[q]) * (a[p] - a[q]) + (a[p + 1] - a[q + 1]) * (a[p + 1] - a[q + 1]) +
      (a[p + 2] - a[q + 2]) * (a[p + 2] - a[q + 2])
  {
    ChannelInRange(w, h, x, y, 2);
    ChannelInRange(w, h, x + NX8[i], y + NY8[i], 2);
  }

  /** Writes the affinities of pixel (x, y) towards each of its in-grid
      neighbours, leaving the slots of out-of-grid directions untouched. */
  method CalcG(w: int, h: int, imageArray: array<real>, g: array<real>, sqrt: real -> real, x: int, y: int)
    requires Colours(w, h, imageArray[..]) && g.Length == w * h * 8 && InGrid(w, h, x, y)
    modifies g
    ensures 0 <= Index(w, x, y) < w * h
    ensures forall i :: 0 <= i < 8 ==>
      g[Slot(w, x, y, i)] == (if NeighborInGrid(w, h, x, y, i) then Affinity(w, h, old(imageArray[..]), sqrt, x, y, i)
       else old(g[Slot(w, x, y, i)]))
    ensures forall k :: 0 <= k < g.Length && (k < Index(w, x, y) * 8 || Index(w, x, y) * 8 + 8 <= k) ==>
      g[k] == old(g[k])
  {
    ghost var a := imageArray[..];
    IndexInRange(w, h, x, y);
    var pixelIndex := x + (y * w);
    var pixelOffset := pixelIndex * 3;
    for i := 0 to 8
      invariant imageArray[..] == a
      invariant forall j :: 0 <= j < 8 ==>
        g[Slot(w, x, y, j)] == (if j < i && NeighborInGrid(w, h, x, y, j) then Affinity(w, h, a, sqrt, x, y, j)
         else old(g[Slot(w, x, y, j)]))
      invariant forall k :: 0 <= k < g.Length && (k < pixelIndex * 8 || pixelIndex * 8 + 8 <= k) ==> g[k] == old(g[k])
    {
      if x + NX8[i] < 0 || x + NX8[i] >= w || y + NY8[i] < 0 || y + NY8[i] >= h {
        continue;
      }
      var neighborOffset := (x + NX8[i] + ((y + NY8[i]) * w)) * 3;
      Dist2At(w, h, a, x, y, i, pixelOffset, neighborOffset);
      var d0 := imageArray[pixelOffset] - imageArray[neighborOffset];
      var d1 := imageArray[pixelOffset + 1] - imageArray[neighborOffset + 1];
      var d2 := imageArray[pixelOffset + 2] - imageArray[neighborOffset + 2];
      var c := sqrt(d0 * d0 + d1 * d1 + d2 * d2);
      assert d0 == a[pixelOffset] - a[neighborOffset];
      assert d1 == a[pixelOffset + 1] - a[neighborOffset + 1];
      assert d2 == a[pixelOffset + 2] - a[neighborOffset + 2];
      assert d0 * d0 + d1 * d1 + d2 * d2 == Dist2(w, h, a, x, y, i);
      assert pixelIndex * 8 + i == Slot(w, x, y, i);
      g[pixelIndex * 8 + i] := 1.0 - (c / MaxC);
    }
  }

  /** The affinity buffer once the slots below n are filled: used slots
      below n hold the table's entry, every other slot its value in g0. */
  ghost function Filled(w: int, h: int, table: seq<real>, g0: seq<real>, n: int): (r: seq<real>)
    requires 1 <= w && |table| == |g0|
    ensures |r| == |g0|
    ensures forall k :: 0 <= k < |r| && n <= k ==> r[k] == g0[k]
  {
    seq(|g0|, k requires 0 <= k < |g0| => if k < n && SlotUsed(w, h, k) then table[k] else g0[k])
  }

  /** One CalcG call extends the filled prefix by the eight slots of its
      pixel. */
  lemma PixelSlots(w: int, h: int, a: seq<real>, sqrt: real -> real, x: int, y: int,
                   g0: seq<real>, before: seq<real>, after: seq<real>)
    requires Colours(w, h, a) && InGrid(w, h, x, y) && |g0| == |before| == |after| == w * h * 8
    requires 0 <= Index(w, x, y) < w * h
    requires before == Filled(w, h, AffinityTable(w, h, a, sqrt), g0, Index(w, x, y) * 8)
    requires forall i :: 0 <= i < 8 ==>
      (SlotInRange(w, h, x, y, i);
       after[Slot(w, x, y, i)] == (if NeighborInGrid(w, h, x, y, i) then Affinity(w, h, a, sqrt, x, y, i)
       else before[Slot(w, x, y, i)]))
    requires forall k :: 0 <= k < |after| && (k < Index(w, x, y) * 8 || Index(w, x, y) * 8 + 8 <= k) ==>
      after[k] == before[k]
    ensures after == Filled(w, h, AffinityTable(w, h, a, sqrt), g0, Index(w, x, y) * 8 + 8)
  {
    var table := AffinityTable(w, h, a, sqrt);
    var p := Index(w, x, y);
    forall k | 0 <= k < |after|
      ensures after[k] == Filled(w, h, table, g0, p * 8 + 8)[k]
    {
      if p * 8 <= k < p * 8 + 8 {
        assert k == Slot(w, x, y, k - p * 8);
        TableAt(w, h, a, sqrt, x, y, k - p * 8);
      }
    }
  }

  /** The affinity pass of the driver: CalcG for every pixel, row by row.
      Afterwards every slot the rule reads holds the table's value; the
      other slots keep whatever the buffer held. */
  method ComputeAffinities(w: int, h: int, imageArray: array<real>, g: array<real>, sqrt: real -> real)
    requires Colours(w, h, imageArray[..]) && g.Length == w * h * 8
    modifies g
    ensures forall k :: 0 <= k < w * h * 8 ==>
      g[k] == if SlotUsed(w, h, k) then AffinityTable(w, h, imageArray[..], sqrt)[k] else old(g[k])
  {
    ghost var a := imageArray[..];
    ghost var g0 := g[..];
    ghost var table := AffinityTable(w, h, a, sqrt);
    assert imageArray != g by {
      MulLe(1, h, w);
      assert imageArray.Length < g.Length;
    }
    for y := 0 to h
      invariant imageArray[..] == a
      invariant Index(w, 0, y) <= w * h
      invariant g[..] == Filled(w, h, table, g0, Index(w, 0, y) * 8)
    {
      for x := 0 to w
        invariant imageArray[..] == a
        invariant Index(w, x, y) <= w * h
        invariant g[..] == Filled(w, h, table, g0, Index(w, x, y) * 8)
      {
        ghost var before := g[..];
        CalcG(w, h, imageArray, g, sqrt, x, y);
        PixelSlots(w, h, a, sqrt, x, y, g0, before, g[..]);
      }
      RowEnd(w, y);
    }
    assert g[..] == Filled(w, h, table, g0, w * h * 8);
  }

  /** With channels in [0, 1] every affinity the rule reads is in (0, 1]. */
  lemma TableBounded(w: int, h: int, a: seq<real>, sqrt: real -> real)
    requires Colours(w, h, a) && InRange(a, 0.0, 1.0) && IsSqrt(sqrt)
    ensures forall k :: 0 <= k < w * h * 8 && SlotUsed(w, h, k) ==>
      0.0 < AffinityTable(w, h, a, sqrt)[k] <= 1.0
  {
    forall k | 0 <= k < w * h * 8 && SlotUsed(w, h, k)
      ensures 0.0 < AffinityTable(w, h, a, sqrt)[k] <= 1.0
    {
      IndexOfFlat(w, h, k / 8);
      AffinityBounded(w, h, a, sqrt, (k / 8) % w, (k / 8) / w, k % 8);
    }
  }
}
