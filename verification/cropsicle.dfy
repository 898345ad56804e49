/** The segmentation of one image as the program's driver runs it: colour
    and seed buffers from the image and the overlay, the blur and the
    affinities, iterations of the automaton until nothing changes or the
    cap is reached, and finally the alpha channel of the image set from the
    sign of each pixel's strength. */
module Cropsicle {
  import opened Grid
  import opened RgbaImage
  import opened GrowCut
  import opened Automaton
  import opened Preprocess

  /** The most iterations the driver runs. */
  const MaxIter: int := 2000

  // ---------------------------------------------------------------------
  // Seeds, colours and the mask, pixel by pixel.

  /** The initial strength of a pixel from its overlay pixel: an opaque
      enough pixel is a seed, background (-1) when red beats green by more
      than 128 and foreground (+1) otherwise; any other pixel starts at 0. */
  function SeedValue(p: Pixel): (r: real)
    ensures Abs(r) == 1.0 <==> p.a > 0x80
    ensures r < 0.0 <==> p.a > 0x80 && p.r as int > p.g as int + 128
    ensures r == 0.0 || Abs(r) == 1.0
  {
    if p.a > 0x80 then
      if p.r as int > p.g as int + 128 then -1.0 else 1.0
    else 0.0
  }

  /** A channel byte scaled to [0, 1]. */
  function ChannelValue(b: byte): (r: real)
    ensures 0.0 <= r <= 1.0
    ensures r == 0.0 <==> b == 0
    ensures r == 1.0 <==> b == 255
  {
    b as real / 255.0
  }

  /** The output alpha of a pixel of final strength v: opaque exactly when
      the pixel ended up foreground. */
  function MaskAlpha(v: real): (a: byte)
    ensures a == 0xff <==> v > 0.0
    ensures a == 0xff || a == 0x00
  {
    if v > 0.0 then 0xff else 0x00
  }

  // ---------------------------------------------------------------------
  // The buffers the driver builds, as functions of the images.

  /** The colour buffer of a w x h image with channel bytes d: red, green
      and blue of every pixel, scaled to [0, 1]; alpha is dropped. */
  function ColourBuffer(w: int, h: int, d: seq<byte>): (r: seq<real>)
    requires 1 <= w && 1 <= h && |d| == w * h * 4
    ensures Colours(w, h, r) && InRange(r, 0.0, 1.0)
  {
    seq(w * h * 3, j requires 0 <= j < w * h * 3 => ChannelValue(d[(j / 3) * 4 + j % 3]))
  }

  lemma ColourAt(w: int, h: int, d: seq<byte>, x: int, y: int)
    requires 1 <= w && 1 <= h && |d| == w * h * 4 && InGrid(w, h, x, y)
    ensures 0 <= Index(w, x, y) * 3 && Index(w, x, y) * 3 + 3 <= w * h * 3
    ensures ColourBuffer(w, h, d)[Index(w, x, y) * 3] == ChannelValue(PixelOf(d, w, h, x, y).r)
    ensures ColourBuffer(w, h, d)[Index(w, x, y) * 3 + 1] == ChannelValue(PixelOf(d, w, h, x, y).g)
    ensures ColourBuffer(w, h, d)[Index(w, x, y) * 3 + 2] == ChannelValue(PixelOf(d, w, h, x, y).b)
  {
    IndexInRange(w, h, x, y);
    var p := Index(w, x, y);
    assert (p * 3) / 3 == p && (p * 3 + 1) / 3 == p && (p * 3 + 2) / 3 == p;
  }

  /** The initial strengths of a w x h image from an overlay at least as
      large, read at the same coordinates. */
  function SeedBuffer(w: int, h: int, od: seq<byte>, ow: int, oh: int): (r: seq<real>)
    requires 1 <= w <= ow && 1 <= h <= oh && |od| == ow * oh * 4
    ensures |r| == w * h && UnitBounded(r)
  {
    seq(w * h, k requires 0 <= k < w * h =>
      IndexOfFlat(w, h, k);
      SeedValue(PixelOf(od, ow, oh, k % w, k / w)))
  }

  lemma SeedAt(w: int, h: int, od: seq<byte>, ow: int, oh: int, x: int, y: int)
    requires 1 <= w <= ow && 1 <= h <= oh && |od| == ow * oh * 4 && InGrid(w, h, x, y)
    ensures 0 <= Index(w, x, y) < w * h
    ensures SeedBuffer(w, h, od, ow, oh)[Index(w, x, y)] == SeedValue(PixelOf(od, ow, oh, x, y))
  {
    IndexInRange(w, h, x, y);
    CoordsOfIndex(w, x, y);
  }

  /** The image bytes d with the alpha of pixel k replaced by the mask of
      its final strength v[k]. */
  function Masked(d: seq<byte>, v: seq<real>): (r: seq<byte>)
    requires |d| == |v| * 4
    ensures |r| == |d|
  {
    seq(|d|, j requires 0 <= j < |d| => if j % 4 == 3 then MaskAlpha(v[j / 4]) else d[j])
  }

  /** Masking keeps red, green and blue of every pixel and sets its alpha
      from its own final strength. */
  lemma MaskedPixel(w: int, h: int, d: seq<byte>, v: seq<real>, x: int, y: int)
    requires 0 <= w && |v| == w * h && |d| == w * h * 4 && InGrid(w, h, x, y)
    ensures 0 <= Index(w, x, y) < w * h
    ensures PixelOf(Masked(d, v), w, h, x, y) == PixelOf(d, w, h, x, y).(a := MaskAlpha(v[Index(w, x, y)]))
  {
    IndexInRange(w, h, x, y);
    var p := Index(w, x, y);
    assert (p * 4 + 3) / 4 == p && (p * 4 + 3) % 4 == 3;
    assert (p * 4) % 4 == 0 && (p * 4 + 1) % 4 == 1 && (p * 4 + 2) % 4 == 2;
  }

  /** The affinity table of a w x h image: blur of its colour buffer, then
      the affinities. */
  ghost function ImageAffinities(w: int, h: int, d: seq<byte>, sqrt: real -> real): (r: seq<real>)
    requires 1 <= w && 1 <= h && |d| == w * h * 4
    ensures |r| == w * h * 8
  {
    AffinityTable(w, h, Blur(w, h, ColourBuffer(w, h, d)), sqrt)
  }

  /** The strengths after n iterations from the seeds of the overlay. */
  ghost function Labels(w: int, h: int, d: seq<byte>, od: seq<byte>, ow: int, oh: int,
                        sqrt: real -> real, n: nat): (r: seq<real>)
    requires 1 <= w <= ow && 1 <= h <= oh && |d| == w * h * 4 && |od| == ow * oh * 4
    ensures |r| == w * h
  {
    StepN(w, h, SeedBuffer(w, h, od, ow, oh), ImageAffinities(w, h, d, sqrt), n)
  }

  // ---------------------------------------------------------------------
  // The affinity buffer as the driver leaves it.

  /** A buffer that holds the table's value in every slot the rule reads
      agrees with the table on those slots, whatever its other slots hold. */
  lemma FilledAgrees(w: int, h: int, a: seq<real>, sqrt: real -> real, g: seq<real>)
    requires Colours(w, h, a) && |g| == w * h * 8
    requires forall k :: 0 <= k < w * h * 8 && SlotUsed(w, h, k) ==> g[k] == AffinityTable(w, h, a, sqrt)[k]
    ensures AgreeOnUsed(w, h, g, AffinityTable(w, h, a, sqrt))
  {
    forall x, y, i | InGrid(w, h, x, y) && 0 <= i < 8 && NeighborInGrid(w, h, x, y, i)
      ensures (SlotInRange(w, h, x, y, i); g[Slot(w, x, y, i)] == AffinityTable(w, h, a, sqrt)[Slot(w, x, y, i)])
    {
      TableAt(w, h, a, sqrt, x, y, i);
    }
  }

  /** With channels in [0, 1] and a true square root, every affinity the
      rule reads lies in (0, 1]. */
  lemma TableWithinUnit(w: int, h: int, a: seq<real>, sqrt: real -> real)
    requires Colours(w, h, a) && InRange(a, 0.0, 1.0) && IsSqrt(sqrt)
    ensures AffinitiesBounded(w, h, AffinityTable(w, h, a, sqrt))
  {
    forall x, y, i | InGrid(w, h, x, y) && 0 <= i < 8 && NeighborInGrid(w, h, x, y, i)
      ensures (SlotInRange(w, h, x, y, i); Abs(AffinityTable(w, h, a, sqrt)[Slot(w, x, y, i)]) <= 1.0)
    {
      TableAt(w, h, a, sqrt, x, y, i);
      AffinityBounded(w, h, a, sqrt, x, y, i);
    }
  }

  /** A run of the driver on its affinity buffer is the run on the
      image's affinity table: they agree on every slot the rule reads. */
  lemma RunOnTable(w: int, h: int, d: seq<byte>, od: seq<byte>, ow: int, oh: int, sqrt: real -> real,
                   g: seq<real>, result: seq<real>, steps: nat)
    requires 1 <= w <= ow && 1 <= h <= oh && |d| == w * h * 4 && |od| == ow * oh * 4 && |g| == w * h * 8
    requires AgreeOnUsed(w, h, g, ImageAffinities(w, h, d, sqrt))
    requires result == StepN(w, h, SeedBuffer(w, h, od, ow, oh), g, steps)
    requires steps < MaxIter ==> Step(w, h, result, g) == result
    requires Unsettled(w, h, SeedBuffer(w, h, od, ow, oh), g, steps - 1)
    ensures result == Labels(w, h, d, od, ow, oh, sqrt, steps)
    ensures steps < MaxIter ==> Step(w, h, result, ImageAffinities(w, h, d, sqrt)) == result
    ensures Unsettled(w, h, SeedBuffer(w, h, od, ow, oh), ImageAffinities(w, h, d, sqrt), steps - 1)
  {
    var seeds, table := SeedBuffer(w, h, od, ow, oh), ImageAffinities(w, h, d, sqrt);
    StepNUsesUsedSlots(w, h, seeds, g, table, steps);
    StepUsesUsedSlots(w, h, result, g, table);
    UnsettledAgrees(w, h, seeds, g, table, steps - 1);
  }

  /** The last iteration of the driver's run leaves its input unchanged on
      the image's affinity table exactly as on the driver's buffer. */
  lemma LastCallOnTable(w: int, h: int, d: seq<byte>, od: seq<byte>, ow: int, oh: int, sqrt: real -> real,
                        g: seq<real>, steps: nat)
    requires 1 <= w <= ow && 1 <= h <= oh && |d| == w * h * 4 && |od| == ow * oh * 4 && |g| == w * h * 8
    requires AgreeOnUsed(w, h, g, ImageAffinities(w, h, d, sqrt)) && 1 <= steps
    requires !Changes(w, h, SeedBuffer(w, h, od, ow, oh), g, steps - 1)
    ensures !Changes(w, h, SeedBuffer(w, h, od, ow, oh), ImageAffinities(w, h, d, sqrt), steps - 1)
  {
    ChangesAgrees(w, h, SeedBuffer(w, h, od, ow, oh), g, ImageAffinities(w, h, d, sqrt), steps - 1);
  }

  // ---------------------------------------------------------------------
  // What a segmentation promises about the seeds.

  /** Every seed keeps its label through any number of iterations: the
      strengths stay within [-1, 1] and a seed's +1 or -1 can never be
      strictly beaten. */
  lemma SeedsKept(w: int, h: int, d: seq<byte>, od: seq<byte>, ow: int, oh: int, sqrt: real -> real, n: nat)
    requires 1 <= w <= ow && 1 <= h <= oh && |d| == w * h * 4 && |od| == ow * oh * 4 && IsSqrt(sqrt)
    ensures UnitBounded(Labels(w, h, d, od, ow, oh, sqrt, n))
    ensures forall k :: 0 <= k < w * h && SeedBuffer(w, h, od, ow, oh)[k] != 0.0 ==>
      Labels(w, h, d, od, ow, oh, sqrt, n)[k] == SeedBuffer(w, h, od, ow, oh)[k]
  {
    var colours := ColourBuffer(w, h, d);
    BlurBounded(w, h, colours);
    TableWithinUnit(w, h, Blur(w, h, colours), sqrt);
    RunBounded(w, h, SeedBuffer(w, h, od, ow, oh), ImageAffinities(w, h, d, sqrt), n);
  }

  /** In the output image a pixel whose overlay pixel is a seed is opaque
      exactly when the seed is foreground, after any number of iterations. */
  lemma SeedPixelMasked(w: int, h: int, d: seq<byte>, od: seq<byte>, ow: int, oh: int,
                        sqrt: real -> real, n: nat, x: int, y: int)
    requires 1 <= w <= ow && 1 <= h <= oh && |d| == w * h * 4 && |od| == ow * oh * 4 && IsSqrt(sqrt)
    requires InGrid(w, h, x, y) && PixelOf(od, ow, oh, x, y).a > 0x80
    ensures var seed := PixelOf(od, ow, oh, x, y);
      PixelOf(Masked(d, Labels(w, h, d, od, ow, oh, sqrt, n)), w, h, x, y) ==
      PixelOf(d, w, h, x, y).(a := if seed.r as int > seed.g as int + 128 then 0x00 else 0xff)
  {
    SeedAt(w, h, od, ow, oh, x, y);
    SeedsKept(w, h, d, od, ow, oh, sqrt, n);
    MaskedPixel(w, h, d, Labels(w, h, d, od, ow, oh, sqrt, n), x, y);
  }

  /** No overlay pixel under the image is opaque enough to be a seed. */
  ghost predicate NoSeeds(w: int, h: int, od: seq<byte>, ow: int, oh: int)
    requires 1 <= w <= ow && 1 <= h <= oh && |od| == ow * oh * 4
  {
    forall x, y :: InGrid(w, h, x, y) ==> PixelOf(od, ow, oh, x, y).a <= 0x80
  }

  /** Without seeds every label stays 0 through any number of iterations,
      the very first iteration already changes nothing, and every pixel of
      the output is made transparent. */
  lemma NoSeedsBlank(w: int, h: int, d: seq<byte>, od: seq<byte>, ow: int, oh: int, sqrt: real -> real, n: nat)
    requires 1 <= w <= ow && 1 <= h <= oh && |d| == w * h * 4 && |od| == ow * oh * 4
    requires NoSeeds(w, h, od, ow, oh)
    ensures var seeds := SeedBuffer(w, h, od, ow, oh);
      Step(w, h, seeds, ImageAffinities(w, h, d, sqrt)) == seeds
    ensures forall k :: 0 <= k < w * h ==> Labels(w, h, d, od, ow, oh, sqrt, n)[k] == 0.0
    ensures forall j :: 0 <= j < w * h * 4 && j % 4 == 3 ==>
      Masked(d, Labels(w, h, d, od, ow, oh, sqrt, n))[j] == 0x00
  {
    var seeds, table := SeedBuffer(w, h, od, ow, oh), ImageAffinities(w, h, d, sqrt);
    forall k | 0 <= k < w * h
      ensures seeds[k] == 0.0
    {
      IndexOfFlat(w, h, k);
      assert PixelOf(od, ow, oh, k % w, k / w).a <= 0x80;
    }
    NoStrengthFixed(w, h, seeds, table);
    FixedPointStays(w, h, seeds, table, n);
  }

  /** Without seeds the iteration loop stops after its first call. */
  lemma NoSeedsOneIteration(w: int, h: int, d: seq<byte>, od: seq<byte>, ow: int, oh: int,
                            sqrt: real -> real, steps: nat)
    requires 1 <= w <= ow && 1 <= h <= oh && |d| == w * h * 4 && |od| == ow * oh * 4
    requires NoSeeds(w, h, od, ow, oh) && 1 <= steps
    requires Unsettled(w, h, SeedBuffer(w, h, od, ow, oh), ImageAffinities(w, h, d, sqrt), steps - 1)
    ensures steps == 1
  {
    var seeds, table := SeedBuffer(w, h, od, ow, oh), ImageAffinities(w, h, d, sqrt);
    NoSeedsBlank(w, h, d, od, ow, oh, sqrt, 0);
    assert !Changes(w, h, seeds, table, 0);
  }

  // ---------------------------------------------------------------------
  // The driver.

  /** s up to position n, zeros from n on: a zeroed buffer once the
      values below n are written. */
  ghost function Below(s: seq<real>, n: int): (r: seq<real>)
    ensures |r| == |s|
  {
    seq(|s|, k requires 0 <= k < |s| => if k < n then s[k] else 0.0)
  }

  /** One pixel of the initialisation loop extends the written prefixes of
      both buffers by that pixel. */
  lemma InitStep(w: int, h: int, colours: seq<real>, seeds: seq<real>, x: int, y: int,
                 imageBefore: seq<real>, imageAfter: seq<real>, seedsBefore: seq<real>, seedsAfter: seq<real>)
    requires InGrid(w, h, x, y) && |colours| == w * h * 3 && |seeds| == w * h
    requires 0 <= Index(w, x, y) < w * h
    requires imageBefore == Below(colours, Index(w, x, y) * 3)
    requires |imageAfter| == |imageBefore|
    requires imageAfter[Index(w, x, y) * 3] == colours[Index(w, x, y) * 3]
    requires imageAfter[Index(w, x, y) * 3 + 1] == colours[Index(w, x, y) * 3 + 1]
    requires imageAfter[Index(w, x, y) * 3 + 2] == colours[Index(w, x, y) * 3 + 2]
    requires forall k :: 0 <= k < |imageAfter| && (k < Index(w, x, y) * 3 || Index(w, x, y) * 3 + 3 <= k) ==>
      imageAfter[k] == imageBefore[k]
    requires seedsBefore == Below(seeds, Index(w, x, y))
    requires |seedsAfter| == |seedsBefore|
    requires seedsAfter[Index(w, x, y)] ==
      if seeds[Index(w, x, y)] == 0.0 then seedsBefore[Index(w, x, y)] else seeds[Index(w, x, y)]
    requires forall k :: 0 <= k < |seedsAfter| && k != Index(w, x, y) ==> seedsAfter[k] == seedsBefore[k]
    ensures Index(w, x + 1, y) <= w * h
    ensures imageAfter == Below(colours, Index(w, x + 1, y) * 3)
    ensures seedsAfter == Below(seeds, Index(w, x + 1, y))
  {
    var p := Index(w, x, y);
    assert Index(w, x + 1, y) == p + 1;
    forall k | 0 <= k < |imageAfter|
      ensures imageAfter[k] == Below(colours, (p + 1) * 3)[k]
    {
    }
  }

  /** The first half of the body of the initialisation loop for pixel
      (x, y): its three colour values. */
  method InitColour(image: Image, imageArray: array<real>, x: int, y: int)
    requires image.Valid() && 1 <= image.width && 1 <= image.height
    requires imageArray.Length == image.width * image.height * 3
    requires InGrid(image.width, image.height, x, y)
    requires 0 <= Index(image.width, x, y) < image.width * image.height
    modifies imageArray
    ensures var colours := ColourBuffer(image.width, image.height, image.data[..]);
      var p := Index(image.width, x, y);
      imageArray[p * 3] == colours[p * 3] && imageArray[p * 3 + 1] == colours[p * 3 + 1] &&
      imageArray[p * 3 + 2] == colours[p * 3 + 2]
    ensures forall k :: 0 <= k < imageArray.Length && (k < Index(image.width, x, y) * 3 || Index(image.width, x, y) * 3 + 3 <= k) ==>
      imageArray[k] == old(imageArray[k])
  {
    var w := image.width;
    var imagePixel := image.GetPixel(x, y);
    ColourAt(w, image.height, image.data[..], x, y);
    var o := (x + y * w) * 3;
    imageArray[o] := imagePixel.r as real / 255.0;
    imageArray[o + 1] := imagePixel.g as real / 255.0;
    imageArray[o + 2] := imagePixel.b as real / 255.0;
  }

  /** The second half of the body of the initialisation loop for pixel
      (x, y): its seed, when the overlay pixel is one. */
  method InitSeed(overlay: Image, w: int, h: int, overlayA: array<real>, x: int, y: int)
    requires overlay.Valid() && 1 <= w <= overlay.width && 1 <= h <= overlay.height
    requires overlayA.Length == w * h
    requires InGrid(w, h, x, y) && 0 <= Index(w, x, y) < w * h
    modifies overlayA
    ensures var seed := SeedBuffer(w, h, overlay.data[..], overlay.width, overlay.height)[Index(w, x, y)];
      overlayA[Index(w, x, y)] == if seed == 0.0 then old(overlayA[Index(w, x, y)]) else seed
    ensures forall k :: 0 <= k < overlayA.Length && k != Index(w, x, y) ==> overlayA[k] == old(overlayA[k])
  {
    var overlayPixel := overlay.GetPixel(x, y);
    SeedAt(w, h, overlay.data[..], overlay.width, overlay.height, x, y);
    if overlayPixel.a > 0x80 {
      if overlayPixel.r as int > overlayPixel.g as int + 128 {
        overlayA[x + y * w] := -1.0;
      } else {
        overlayA[x + y * w] := 1.0;
      }
    }
  }

  /** The initialisation loop: the colour buffer from the image and the
      seeds from the overlay. Both buffers start zeroed, and the seed buffer
      receives only the seeds. */
  method InitArrays(image: Image, overlay: Image, imageArray: array<real>, overlayA: array<real>)
    requires image.Valid() && overlay.Valid()
    requires 1 <= image.width <= overlay.width && 1 <= image.height <= overlay.height
    requires imageArray.Length == image.width * image.height * 3
    requires overlayA.Length == image.width * image.height && imageArray != overlayA
    requires forall k :: 0 <= k < imageArray.Length ==> imageArray[k] == 0.0
    requires forall k :: 0 <= k < overlayA.Length ==> overlayA[k] == 0.0
    modifies imageArray, overlayA
    ensures imageArray[..] == ColourBuffer(image.width, image.height, image.data[..])
    ensures overlayA[..] == SeedBuffer(image.width, image.height, overlay.data[..], overlay.width, overlay.height)
  {
    var w, h := image.width, image.height;
    ghost var colours := ColourBuffer(w, h, image.data[..]);
    ghost var seeds := SeedBuffer(w, h, overlay.data[..], overlay.width, overlay.height);
    assert imageArray[..] == Below(colours, 0);
    assert overlayA[..] == Below(seeds, 0);
    for y := 0 to h
      invariant Index(w, 0, y) <= w * h
      invariant imageArray[..] == Below(colours, Index(w, 0, y) * 3)
      invariant overlayA[..] == Below(seeds, Index(w, 0, y))
    {
      for x := 0 to w
        invariant Index(w, x, y) <= w * h
        invariant imageArray[..] == Below(colours, Index(w, x, y) * 3)
        invariant overlayA[..] == Below(seeds, Index(w, x, y))
      {
        ghost var imageBefore, seedsBefore := imageArray[..], overlayA[..];
        IndexInRange(w, h, x, y);
        InitColour(image, imageArray, x, y);
        InitSeed(overlay, w, h, overlayA, x, y);
        InitStep(w, h, colours, seeds, x, y, imageBefore, imageArray[..], seedsBefore, overlayA[..]);
      }
      RowEnd(w, y);
    }
    GridEnd(w, h);
    assert imageArray[..] == colours;
    assert overlayA[..] == seeds;
  }

  /** Iteration m + 1 of the run from s0 changes its input. */
  ghost predicate Changes(w: int, h: int, s0: seq<real>, g: seq<real>, m: nat)
    requires Shaped(w, h, s0, g)
  {
    Step(w, h, StepN(w, h, s0, g, m), g) != StepN(w, h, s0, g, m)
  }

  /** No iteration among the first n left its input unchanged. */
  ghost predicate Unsettled(w: int, h: int, s0: seq<real>, g: seq<real>, n: int)
    requires Shaped(w, h, s0, g)
  {
    forall m: nat :: m < n ==> Changes(w, h, s0, g, m)
  }

  /** Whether a run is unsettled depends only on the affinity slots the
      rule reads. */
  lemma UnsettledAgrees(w: int, h: int, s0: seq<real>, g1: seq<real>, g2: seq<real>, n: int)
    requires Shaped(w, h, s0, g1) && Shaped(w, h, s0, g2) && AgreeOnUsed(w, h, g1, g2)
    requires Unsettled(w, h, s0, g1, n)
    ensures Unsettled(w, h, s0, g2, n)
  {
    forall m: nat | m < n
      ensures Changes(w, h, s0, g2, m)
    {
      assert Changes(w, h, s0, g1, m);
      StepNUsesUsedSlots(w, h, s0, g1, g2, m);
      StepUsesUsedSlots(w, h, StepN(w, h, s0, g1, m), g1, g2);
    }
  }

  /** Whether an iteration of a run changes its input depends only on the
      affinity slots the rule reads. */
  lemma ChangesAgrees(w: int, h: int, s0: seq<real>, g1: seq<real>, g2: seq<real>, m: nat)
    requires Shaped(w, h, s0, g1) && Shaped(w, h, s0, g2) && AgreeOnUsed(w, h, g1, g2)
    ensures Changes(w, h, s0, g1, m) <==> Changes(w, h, s0, g2, m)
  {
    StepNUsesUsedSlots(w, h, s0, g1, g2, m);
    StepUsesUsedSlots(w, h, StepN(w, h, s0, g1, m), g1, g2);
  }

  /** One more iteration of a run: its output is the next buffer of the
      run; an iteration that changes something extends the unsettled
      prefix, and one that does not leaves a fixed point. */
  lemma RunStep(w: int, h: int, s0: seq<real>, g: seq<real>, n: nat, current: seq<real>, next: seq<real>)
    requires Shaped(w, h, s0, g) && Unsettled(w, h, s0, g, n)
    requires current == StepN(w, h, s0, g, n) && next == Step(w, h, current, g)
    ensures next == StepN(w, h, s0, g, n + 1)
    ensures next != current ==> Unsettled(w, h, s0, g, n + 1)
    ensures next == current ==> Step(w, h, next, g) == next
  {
    if next != current {
      assert Changes(w, h, s0, g, n);
    }
  }

  /** The iteration loop: iterate from buffer a into buffer b, stop when an
      iteration changes nothing or after MaxIter iterations, and otherwise
      swap the two buffers. The buffer returned is the one the driver then
      reads the mask from; it always holds the last iteration's output. */
  method Iterate(w: int, h: int, overlayA: array<real>, overlayB: array<real>, g: array<real>)
    returns (result: array<real>, ghost steps: nat)
    requires 1 <= w && 1 <= h && overlayA.Length == w * h && overlayB.Length == w * h && g.Length == w * h * 8
    requires overlayA != overlayB && g != overlayA && g != overlayB
    modifies overlayA, overlayB
    ensures result == overlayA || result == overlayB
    ensures 1 <= steps <= MaxIter
    ensures result[..] == StepN(w, h, old(overlayA[..]), g[..], steps)
    ensures steps < MaxIter ==> Step(w, h, result[..], g[..]) == result[..]
    ensures steps < MaxIter ==> !Changes(w, h, old(overlayA[..]), g[..], steps - 1)
    ensures Unsettled(w, h, old(overlayA[..]), g[..], steps - 1)
  {
    ghost var s0 := overlayA[..];
    ghost var gs := g[..];
    var a, b := overlayA, overlayB;
    var iter := 0;
    while true
      invariant 0 <= iter < MaxIter
      invariant (a == overlayA && b == overlayB) || (a == overlayB && b == overlayA)
      invariant a != b && g != a && g != b
      invariant a.Length == w * h && b.Length == w * h
      invariant g[..] == gs
      invariant a[..] == StepN(w, h, s0, gs, iter)
      invariant Unsettled(w, h, s0, gs, iter)
      decreases MaxIter - iter
    {
      var converged := ProcessIteration(w, h, a, b, g);
      RunStep(w, h, s0, gs, iter, a[..], b[..]);
      if converged {
        result, steps := b, iter + 1;
        assert steps - 1 == iter;
        return;
      }
      iter := iter + 1;
      if iter >= MaxIter {
        result, steps := b, iter;
        assert Unsettled(w, h, s0, gs, steps);
        return;
      }
      a, b := b, a;
    }
  }

  /** The image bytes d0 with the pixels below n masked. */
  ghost function MaskedBelow(d0: seq<byte>, v: seq<real>, n: int): (r: seq<byte>)
    requires |d0| == |v| * 4
    ensures |r| == |d0|
  {
    var masked := Masked(d0, v);
    seq(|d0|, j requires 0 <= j < |d0| => if j < n * 4 then masked[j] else d0[j])
  }

  /** Channel c of pixel q after the mask loop has visited it. */
  lemma MaskChannel(d0: seq<byte>, v: seq<real>, q: int, c: int, before: seq<byte>, b: byte)
    requires |d0| == |v| * 4 == |before| && 0 <= q < |v| && 0 <= c < 4
    requires before == MaskedBelow(d0, v, q)
    requires b == if c == 3 then MaskAlpha(v[q]) else before[q * 4 + c]
    ensures b == MaskedBelow(d0, v, q + 1)[q * 4 + c]
  {
    var j := q * 4 + c;
    assert j / 4 == q && j % 4 == c;
  }

  /** Writing the four masked channels of pixel q, and nothing else, turns
      the prefix masked below q into the prefix masked below q + 1. */
  lemma MaskExtend(d0: seq<byte>, v: seq<real>, q: int, before: seq<byte>, after: seq<byte>)
    requires |d0| == |v| * 4 == |before| == |after| && 0 <= q < |v|
    requires before == MaskedBelow(d0, v, q)
    requires forall j :: 0 <= j < |after| && (j < q * 4 || q * 4 + 4 <= j) ==> after[j] == before[j]
    requires after[q * 4] == MaskedBelow(d0, v, q + 1)[q * 4]
    requires after[q * 4 + 1] == MaskedBelow(d0, v, q + 1)[q * 4 + 1]
    requires after[q * 4 + 2] == MaskedBelow(d0, v, q + 1)[q * 4 + 2]
    requires after[q * 4 + 3] == MaskedBelow(d0, v, q + 1)[q * 4 + 3]
    ensures after == MaskedBelow(d0, v, q + 1)
  {
    var target := MaskedBelow(d0, v, q + 1);
    assert (q + 1) * 4 == q * 4 + 4;
    forall j | 0 <= j < |after|
      ensures after[j] == target[j]
    {
      if j < q * 4 || q * 4 + 4 <= j {
        assert after[j] == before[j];
      }
    }
  }

  /** One pixel of the mask loop extends the masked prefix by that pixel. */
  lemma MaskStep(w: int, h: int, d0: seq<byte>, v: seq<real>, x: int, y: int,
                 before: seq<byte>, after: seq<byte>, p: Pixel)
    requires 1 <= w && |v| == w * h && |d0| == |before| == |after| == w * h * 4 && InGrid(w, h, x, y)
    requires 0 <= Index(w, x, y) < w * h
    requires before == MaskedBelow(d0, v, Index(w, x, y))
    requires p == PixelOf(before, w, h, x, y).(a := MaskAlpha(v[Index(w, x, y)]))
    requires PixelOf(after, w, h, x, y) == p
    requires forall j :: 0 <= j < |after| && (j < Index(w, x, y) * 4 || Index(w, x, y) * 4 + 4 <= j) ==>
      after[j] == before[j]
    ensures Index(w, x + 1, y) <= w * h
    ensures after == MaskedBelow(d0, v, Index(w, x + 1, y))
  {
    var q := Index(w, x, y);
    var o := q * 4;
    assert Index(w, x + 1, y) == q + 1;
    assert after[o] == before[o] && after[o + 1] == before[o + 1] && after[o + 2] == before[o + 2];
    assert after[o + 3] == MaskAlpha(v[q]);
    MaskChannel(d0, v, q, 0, before, after[o]);
    MaskChannel(d0, v, q, 1, before, after[o + 1]);
    MaskChannel(d0, v, q, 2, before, after[o + 2]);
    MaskChannel(d0, v, q, 3, before, after[o + 3]);
    MaskExtend(d0, v, q, before, after);
  }

  /** The mask loop: the alpha of every pixel of the image from the sign of
      its final strength; red, green and blue are written back unchanged. */
  method ApplyMask(image: Image, result: array<real>)
    requires image.Valid() && 1 <= image.width && 1 <= image.height
    requires result.Length == image.width * image.height
    modifies image.data
    ensures image.data[..] == Masked(old(image.data[..]), result[..])
  {
    var w, h := image.width, image.height;
    ghost var d0 := image.data[..];
    ghost var v := result[..];
    for y := 0 to h
      invariant Index(w, 0, y) <= w * h
      invariant image.data[..] == MaskedBelow(d0, v, Index(w, 0, y))
    {
      for x := 0 to w
        invariant Index(w, x, y) <= w * h
        invariant image.data[..] == MaskedBelow(d0, v, Index(w, x, y))
      {
        IndexInRange(w, h, x, y);
        ghost var before := image.data[..];
        var imagePixel := image.GetPixel(x, y);
        imagePixel := imagePixel.(a := if result[x + (y * w)] > 0.0 then 0xff else 0x00);
        image.SetPixel(x, y, imagePixel);
        MaskStep(w, h, d0, v, x, y, before, image.data[..], imagePixel);
      }
      RowEnd(w, y);
    }
    GridEnd(w, h);
    assert image.data[..] == Masked(d0, v);
  }

  /** The part of process_file before the iteration loop: allocates and
      zeroes the buffers, fills the colour and seed buffers, blurs the
      colours and computes the affinities. The slots of out-of-grid
      directions of g are never written and hold arbitrary values. */
  method PrepareBuffers(image: Image, overlay: Image, sqrt: real -> real)
    returns (overlayA: array<real>, overlayB: array<real>, g: array<real>)
    requires image.Valid() && overlay.Valid()
    requires 1 <= image.width <= overlay.width && 1 <= image.height <= overlay.height
    ensures fresh(overlayA) && fresh(overlayB) && fresh(g)
    ensures overlayA != overlayB && g != overlayA && g != overlayB
    ensures overlayA.Length == image.width * image.height && overlayB.Length == image.width * image.height
    ensures g.Length == image.width * image.height * 8
    ensures overlayA[..] == SeedBuffer(image.width, image.height, overlay.data[..], overlay.width, overlay.height)
    ensures AgreeOnUsed(image.width, image.height, g[..], ImageAffinities(image.width, image.height, image.data[..], sqrt))
  {
    var w, h := image.width, image.height;
    var imageArray := new real[w * h * 3](_ => 0.0);
    overlayA := new real[w * h](_ => 0.0);
    overlayB := new real[w * h](_ => 0.0);
    g := new real[w * h * 8];
    InitArrays(image, overlay, imageArray, overlayA);
    BlurImageArray(w, h, imageArray);
    ComputeAffinities(w, h, imageArray, g, sqrt);
    FilledAgrees(w, h, imageArray[..], sqrt, g[..]);
  }

  /** The segmentation of process_file: fills the colour and seed buffers,
      blurs, computes the affinities, iterates, and writes the mask into the
      image's alpha channel. The overlay must cover the image. After the
      call the image holds its own colours with the alpha of the labels after
      `steps` iterations; fewer than MaxIter iterations means the labels
      reached a fixed point that the last iteration's input already was, and
      no earlier iteration left its input unchanged, so `steps` counts the
      iterations run. Without any seed in the overlay one iteration runs and
      the image becomes fully transparent. */
  method ProcessFile(image: Image, overlay: Image, sqrt: real -> real) returns (ghost steps: nat)
    requires image.Valid() && overlay.Valid()
    requires 1 <= image.width <= overlay.width && 1 <= image.height <= overlay.height
    modifies image.data
    ensures 1 <= steps <= MaxIter
    ensures image.data[..] == Masked(old(image.data[..]),
      Labels(image.width, image.height, old(image.data[..]), old(overlay.data[..]), overlay.width, overlay.height, sqrt, steps))
    ensures var labels := Labels(image.width, image.height, old(image.data[..]), old(overlay.data[..]),
                                 overlay.width, overlay.height, sqrt, steps);
      steps < MaxIter ==> Step(image.width, image.height, labels,
        ImageAffinities(image.width, image.height, old(image.data[..]), sqrt)) == labels
    ensures steps < MaxIter ==> !Changes(image.width, image.height,
      SeedBuffer(image.width, image.height, old(overlay.data[..]), overlay.width, overlay.height),
      ImageAffinities(image.width, image.height, old(image.data[..]), sqrt), steps - 1)
    ensures Unsettled(image.width, image.height,
      SeedBuffer(image.width, image.height, old(overlay.data[..]), overlay.width, overlay.height),
      ImageAffinities(image.width, image.height, old(image.data[..]), sqrt), steps - 1)
    ensures NoSeeds(image.width, image.height, old(overlay.data[..]), overlay.width, overlay.height) ==>
      steps == 1 && forall j :: 0 <= j < image.data.Length && j % 4 == 3 ==> image.data[j] == 0x00
  {
    var w, h := image.width, image.height;
    ghost var d := image.data[..];
    ghost var od := overlay.data[..];
    var overlayA, overlayB, g := PrepareBuffers(image, overlay, sqrt);
    var result;
    result, steps := Iterate(w, h, overlayA, overlayB, g);
    RunOnTable(w, h, d, od, overlay.width, overlay.height, sqrt, g[..], result[..], steps);
    if steps < MaxIter {
      LastCallOnTable(w, h, d, od, overlay.width, overlay.height, sqrt, g[..], steps);
    }
    ApplyMask(image, result);
    if NoSeeds(w, h, od, overlay.width, overlay.height) {
      NoSeedsBlank(w, h, d, od, overlay.width, overlay.height, sqrt, steps);
      NoSeedsOneIteration(w, h, d, od, overlay.width, overlay.height, sqrt, steps);
    }
  }
}
