# cropsicle: a verified model of the GrowCut segmenter

cropsicle cuts an object out of a photograph. It reads an RGBA image and an
overlay of the same size in which the user has painted, with opaque strokes,
green over the object (foreground) and red over the background. An opaque
overlay pixel counts as background when its red exceeds its green by more
than 128, and as foreground otherwise. Every pixel
gets a strength in [-1, 1]: +1 for a foreground seed, -1 for a background seed
and 0 for the rest. Then a cellular automaton (GrowCut) runs until nothing
changes or for at most 2000 iterations. In each iteration a cell is attacked
by each of its eight neighbours with the neighbour's strength times an affinity
`g`, and it takes over the strongest attack that is strictly stronger than
its own strength. The affinity is `1 - C / maxC`, where `C` is the Euclidean
distance between the two pixels' colours after a 3x3 box blur. Finally every
pixel's alpha becomes 0xff when its final strength is positive and 0x00
otherwise. The colours are kept.

The model follows the C program function by function, over the same flat
buffers:

- `Grid` holds the addressing of a `w x h` grid. Pixel `(x, y)` is cell
  `x + y * w`. It also has the eight and nine direction tables and the
  index lemmas the traversals need.
- `RgbaImage` holds the image: a class whose byte array is the image's rows
  laid end to end, with `get_pixel` and `set_pixel`.
- `GrowCut` holds the automaton as pure functions: the attack, the per-cell
  rule `CellNext`, one full iteration `Step` and `n` iterations `StepN`. It
  also holds what they guarantee: strongest attack, monotone magnitudes,
  bounds, stable seeds, fixed points, and independence from the affinity
  slots nobody reads.
- `Automaton` holds the imperative iteration:
  - the per-cell procedures;
  - the interior workers of the threaded build, each on its own band of rows;
  - the border worker;
  - the threaded `process_iteration` and the single-threaded one.

  Each is proved to write exactly `Step` on the cells it covers, and to
  report convergence exactly when those cells are unchanged.
- `Preprocess` holds `blur_image_array`, proved equal to the box mean `Blur`
  and to keep values in [0, 1]. It also holds `calc_g`, proved to fill the
  affinity slots of in-grid directions with `Affinity`, which lies in (0, 1].
- `Cropsicle` holds `process_file`:
  - the initialisation loop, producing the colour and seed buffers;
  - the blur and the affinity loop;
  - the iteration loop with its two swapped buffers and its 2000-iteration
    cap;
  - the mask loop.

  The result is stated outright. The image keeps its colours and gets the
  alpha of the labels after `steps` iterations, where `steps` is at most
  2000. Fewer than 2000 means a fixed point was reached, and no earlier
  iteration left the labels unchanged. A seed pixel always ends up opaque
  exactly when its red does not exceed its green by more than 128, so a
  dark red stroke such as (120, 0, 0) still counts as foreground. Without any seed, the loop stops after
  its first call and the whole image becomes transparent.

`float` is modelled by `real`, and `sqrtf` by a function parameter `sqrt`.
Only the bounds on affinities (`AffinityBounded`, `TableWithinUnit` and the
lemmas built on them) and `AffinityOfEqualColours`, which needs
`sqrt(0) == 0`, assume that `sqrt` returns the non-negative square root
(`IsSqrt`).

## Model

| member | source | states |
|---|---|---|
| `Grid.NeighborIndex` | cropsicle.c:281-282 | for an interior pixel, its cell index plus the direction offset `nx8[i] + ny8[i]*w` is exactly the neighbour's cell index, and lies inside the buffer |
| `Grid.InteriorNeighbors` | cropsicle.c:340-344 | all eight neighbours of an interior pixel lie in the grid, so the interior procedure needs no bounds checks |
| `Grid.InteriorOrBorder` | cropsicle.c:478-505 | a pixel of the grid is interior (1..w-2 x 1..h-2) exactly when it is not on one of the four border strips |
| `Grid.IndexOfFlat` | cropsicle.c:302 | every flat index k below w*h is the index of the in-grid pixel `(k % w, k / w)` |
| `Grid.CoordsOfIndex` | cropsicle.c:302 | the index `x + y*w` of a pixel with `0 <= x < w` gives back its column by `% w` and its row by `/ w`, so distinct pixels have distinct cells |
| `RgbaImage.Image.GetPixel` | cropsicle.c:221-237 | returns the four channels of in-grid pixel `(x, y)` from row `y` at offset `x*4` |
| `RgbaImage.Image.SetPixel` | cropsicle.c:240-252 | an in-grid pixel gets the four given channels, and every other pixel and every byte outside them is unchanged; off-grid coordinates change nothing |
| `GrowCut.StepAt` | cropsicle.c:302-305 | entry `x + y*w` of one iteration is the per-cell rule applied at pixel `(x, y)` |
| `GrowCut.CellAfterStrongest` | cropsicle.c:291-295 | after the first n directions, the cell holds its own old strength or one of those directions' attacks; its magnitude is the largest of them; ties keep the earlier value |
| `GrowCut.CellNextStrongest` | cropsicle.c:305-315 | the new strength of a cell is its old strength or the attack of an in-grid neighbour, with the largest magnitude among them, the first one winning a tie |
| `GrowCut.StrongestUnique` | cropsicle.c:291 | the strict comparison makes that characterisation determine the new strength uniquely |
| `GrowCut.CellAfterGrows` | cropsicle.c:291-294 | a cell either keeps its old strength or takes a value of strictly larger magnitude |
| `GrowCut.CellNextUnchanged` | cropsicle.c:291-294 | a cell keeps its old strength exactly when its magnitude did not grow, and exactly when no in-grid neighbour's attack is strictly stronger than that strength, the condition under which the flag is never cleared |
| `GrowCut.AttackBounded` | cropsicle.c:289-291 | with strengths and affinities of magnitude at most 1, every attack has magnitude at most 1 |
| `GrowCut.CellNextBounded` | cropsicle.c:291-293 | under the same bounds, the new strength has magnitude at most 1, and a seed (magnitude 1) keeps its exact value |
| `GrowCut.StepBounded` | cropsicle.c:298-345 | one iteration keeps all strengths in [-1, 1] and leaves every seed unchanged |
| `GrowCut.StepGrows` | cropsicle.c:291-294 | no cell's magnitude ever decreases in an iteration |
| `GrowCut.AttackAgrees` | cropsicle.c:289 | an attack depends only on the affinity slot of its own in-grid direction |
| `GrowCut.CellAfterUsesUsedSlots` | cropsicle.c:307-315 | the per-cell rule reads only the affinity slots of in-grid directions |
| `GrowCut.StepUsesUsedSlots` | cropsicle.c:632-634 | two affinity buffers that agree on the slots of in-grid directions give the same iteration, whatever the never-written slots hold |
| `GrowCut.StepNUsesUsedSlots` | cropsicle.c:632-634 | the same holds for any number of iterations |
| `GrowCut.CellAfterNoStrength` | cropsicle.c:291-294 | when every strength is 0, no attack `g * 0` is strictly stronger than 0, so the cell stays 0 after any number of directions |
| `GrowCut.NoStrengthFixed` | cropsicle.c:298-345 | the all-zero buffer is a fixed point of one iteration |
| `GrowCut.FixedPointStays` | cropsicle.c:678-679 | strengths that one iteration leaves unchanged stay unchanged by any number of iterations |
| `GrowCut.RunBounded` | cropsicle.c:652-664 | from strengths in [-1, 1] with affinities in [-1, 1], any number of iterations keeps every strength in [-1, 1] and every seed at its value |
| `Automaton.InteriorBelowMax` | cropsicle.c:415 | every interior cell lies below `index_max = (h-1)*w - 1`, so both interior walks' bound admits the whole interior |
| `Automaton.RowCells` | cropsicle.c:372-376 | the run from column 1 to before column w-1 of an interior row consists of interior cells of that row |
| `Automaton.RowInBand` | cropsicle.c:368-376 | that run, in a row of worker n, lies in worker n's band |
| `Automaton.BandStep` | cropsicle.c:368-380 | one pass of worker n's outer loop: the next index is column 1 of the row N_THREADS further on, and the band cells covered so far grow by exactly the row's run |
| `Automaton.RowStep` | cropsicle.c:478-487 | one pass of the sequential outer loop: the next index is column 1 of the next row, and the interior cells covered grow by exactly the row's run |
| `Automaton.BandGap` | cropsicle.c:378-379 | the jump after a row of worker n skips no cell of its band |
| `Automaton.RowGap` | cropsicle.c:486 | the extra increment after a row lands on column 1 of the next row and skips no interior cell |
| `Automaton.BandPrefixEnd` | cropsicle.c:369 | when worker n's index reaches `index_max`, it has covered its whole band |
| `Automaton.InteriorPrefixEnd` | cropsicle.c:478 | when the sequential interior walk reaches `index_max`, it has covered the whole interior |
| `Automaton.ProcessPixelNeighborBorder` | cropsicle.c:284-296 | the cell becomes the attack of direction i if that is strictly stronger than its current value and is unchanged otherwise; the flag is cleared exactly in the first case; no other cell changes |
| `Automaton.ProcessPixelBorder` | cropsicle.c:298-316 | for any in-grid pixel, its cell becomes the per-cell rule's value; the flag stays set exactly when that value equals the old strength; no other cell changes |
| `Automaton.ProcessPixelNeighborInternal` | cropsicle.c:318-331 | as for the border helper, reaching the neighbour through the precomputed flat offset |
| `Automaton.ProcessPixelInternal` | cropsicle.c:333-345 | for an interior cell, all eight directions without bounds checks give the per-cell rule's value; the flag and the frame are as above |
| `Automaton.NeighborOffsets` | cropsicle.c:421-422 | builds the table `nx8[i] + ny8[i]*w` of flat neighbour offsets |
| `Automaton.ProcessRowRun` | cropsicle.c:372-376 | the inner loop writes the next iteration on the cells of the row's run and on no others; it ends at column w-1; the flag stays set exactly when those cells are unchanged |
| `Automaton.ProcessIterationThread` | cropsicle.c:362-383 | worker n writes the next iteration on exactly its band of rows n+1, n+1+N_THREADS, ..., and reports convergence exactly when that band is unchanged |
| `Automaton.ProcessBorderRow` | cropsicle.c:391-397 | one border row loop writes the next iteration on every cell of row y, and only there |
| `Automaton.ProcessBorderColumn` | cropsicle.c:399-405 | one border column loop writes the next iteration on rows 1..h-2 of column x, and only there |
| `Automaton.ProcessIterationBordersThread` | cropsicle.c:385-408 | the border worker writes the next iteration on exactly the border cells, and reports convergence exactly when they are unchanged; this includes 1xN and Nx1 grids, whose cells are visited twice |
| `Automaton.BorderStep` | cropsicle.c:302 | the border procedure's cell is the one flat index whose coordinates are `(x, y)` |
| `Automaton.BandsDisjoint` | cropsicle.c:368-380 | no interior cell belongs to two workers' bands |
| `Automaton.BandsCover` | cropsicle.c:368-380 | the bands of workers 0..N_THREADS-1 together are exactly the interior cells |
| `Automaton.InteriorBorderPartition` | cropsicle.c:478-505 | interior and border cells are disjoint and together are every cell of the buffer |
| `Automaton.OverwriteTwice` | cropsicle.c:441-456 | writing the same next iteration on one set of cells and then on another equals writing it on their union, so the order of the workers does not matter |
| `Automaton.ProcessIteration` | cropsicle.c:410-459 | the threaded iteration leaves exactly the next iteration `Step` in the output buffer, and returns "converged" exactly when that equals the input |
| `Automaton.ProcessInteriorSequential` | cropsicle.c:478-487 | the single-threaded interior walk writes the next iteration on exactly the interior cells, and its flag stays set exactly when they are unchanged |
| `Automaton.ProcessIterationSequential` | cropsicle.c:463-508 | the single-threaded iteration gives the same output buffer and flag as the threaded one |
| `Preprocess.BoxCountPositive` | cropsicle.c:529-545 | the number of in-grid pixels of the 3x3 box is between 1 and 9, because the centre always counts |
| `Preprocess.BoxSumBetween` | cropsicle.c:541-544 | when every in-grid box value lies in [lo, hi], the running box sum lies between lo and hi times the running count |
| `Preprocess.MeanBetween` | cropsicle.c:547-549 | a sum between lo*n and hi*n, divided by n >= 1, lies in [lo, hi] |
| `Preprocess.BlurAtBetween` | cropsicle.c:531-549 | a blurred channel lies between the bounds of the channel values of the in-grid pixels of its box |
| `Preprocess.BlurBounded` | cropsicle.c:512-555 | blurring a buffer with values in [0, 1] gives values in [0, 1] |
| `Preprocess.BlurEntry` | cropsicle.c:528 | channel c of pixel (x, y) of the blurred buffer sits at `(x + y*w)*3 + c` and is that pixel's box mean |
| `Preprocess.BlurPixel` | cropsicle.c:528-549 | the nine-direction loop leaves in the temporary buffer, for pixel (x, y), the box mean of each colour channel read from the unmodified input; nothing else in it changes |
| `Preprocess.BlurImageArray` | cropsicle.c:512-555 | the buffer is replaced by its blur, every mean computed from the original values |
| `Preprocess.Dist2` | cropsicle.c:609-611 | the squared colour distance passed to the square root is never negative |
| `Preprocess.AffinityBounded` | cropsicle.c:593-612 | with colours in [0, 1] and a true square root, every affinity lies in (0, 1], since the distance is at most the square root of 3 and below `maxC` |
| `Preprocess.AffinityOfEqualColours` | cropsicle.c:609-612 | a neighbour of the same colour has affinity exactly 1 |
| `Preprocess.AffinitySymmetric` | cropsicle.c:603-612 | the affinity of a pixel towards a neighbour equals the neighbour's affinity back in the opposite direction |
| `Preprocess.TableAt` | cropsicle.c:596-612 | slot `(x + y*w)*8 + i` of the affinity table is used exactly when direction i of (x, y) is in the grid, and then holds that affinity |
| `Preprocess.TableBounded` | cropsicle.c:612 | every used slot of the affinity table lies in (0, 1] |
| `Preprocess.CalcG` | cropsicle.c:587-614 | each in-grid direction's slot of pixel (x, y) gets its affinity; each off-grid direction's slot and every other pixel's slots keep their old values |
| `Preprocess.ComputeAffinities` | cropsicle.c:670-674 | after the loop over all pixels, every used slot holds the table's affinity and every unused slot keeps whatever it held |
| `Cropsicle.SeedValue` | cropsicle.c:652-664 | an overlay pixel is a seed exactly when its alpha exceeds 0x80; a seed is -1 exactly when red exceeds green by more than 128 and +1 otherwise; any other pixel is 0 |
| `Cropsicle.ChannelValue` | cropsicle.c:648-650 | a channel byte divided by 255 lies in [0, 1], is 0 only for byte 0 and is 1 only for byte 255 |
| `Cropsicle.MaskAlpha` | cropsicle.c:697 | the output alpha is 0xff exactly when the final strength is positive, and 0x00 otherwise |
| `Cropsicle.ColourAt` | cropsicle.c:648-650 | the colour buffer holds red, green and blue of pixel (x, y), scaled, at `(x + y*w)*3` onwards |
| `Cropsicle.SeedAt` | cropsicle.c:652-664 | the seed buffer holds, at `x + y*w`, the seed value of the overlay pixel at the same coordinates |
| `Cropsicle.MaskedPixel` | cropsicle.c:696-705 | the masked image keeps each pixel's red, green and blue and sets its alpha from that pixel's own final strength |
| `Cropsicle.InitColour` | cropsicle.c:645-650 | writes the three scaled colour channels of pixel (x, y) and nothing else |
| `Cropsicle.InitSeed` | cropsicle.c:646-664 | writes the seed value of pixel (x, y) when it is a seed, and otherwise leaves the zero in place; nothing else changes |
| `Cropsicle.InitArrays` | cropsicle.c:629-666 | starting from zeroed buffers, the initialisation loop leaves exactly the colour buffer and exactly the seed buffer |
| `Cropsicle.FilledAgrees` | cropsicle.c:670-674 | a buffer holding the table's affinity in every used slot agrees with the table wherever the rule reads |
| `Cropsicle.TableWithinUnit` | cropsicle.c:612 | every affinity the rule reads has magnitude at most 1 |
| `Cropsicle.UnsettledAgrees` | cropsicle.c:632-634 | whether earlier iterations all changed something does not depend on the never-written affinity slots |
| `Cropsicle.ChangesAgrees` | cropsicle.c:632-634 | whether a given iteration of a run changes its input does not depend on the never-written affinity slots |
| `Cropsicle.RunStep` | cropsicle.c:678-679 | one more iteration continues the run; if it changes something, the run has still not settled; if it changes nothing, a fixed point has been reached |
| `Cropsicle.Iterate` | cropsicle.c:678-686 | the loop calls `process_iteration` `steps` times, between 1 and 2000; the buffer it ends on (`overlay_array_b`) holds the last iteration's output, namely the seeds after `steps` iterations, whether the loop stops by convergence or by the cap; fewer than 2000 calls means a fixed point, and then the last call's input already was one; no earlier call converged |
| `Cropsicle.MaskStep` | cropsicle.c:696-705 | one pixel of the mask loop extends the masked prefix of the image by that pixel |
| `Cropsicle.ApplyMask` | cropsicle.c:690-707 | the mask loop leaves the image bytes masked by the final strengths |
| `Cropsicle.PrepareBuffers` | cropsicle.c:624-674 | allocates distinct buffers, fills the seed buffer from the overlay, and leaves an affinity buffer that agrees with the affinities of the blurred image wherever the rule reads |
| `Cropsicle.RunOnTable` | cropsicle.c:670-686 | the run on the driver's affinity buffer equals the run on the image's affinity table, including the fixed-point and unsettled facts |
| `Cropsicle.LastCallOnTable` | cropsicle.c:678-679 | when the last call's input was a fixed point on the driver's affinity buffer, it is one on the image's affinity table too |
| `Cropsicle.SeedsKept` | cropsicle.c:652-664 | for any number of iterations from the overlay's seeds, strengths stay in [-1, 1] and every seed keeps its value |
| `Cropsicle.SeedPixelMasked` | cropsicle.c:652-697 | a pixel painted as a seed in the overlay ends up opaque exactly when its red does not exceed its green by more than 128, after any number of iterations |
| `Cropsicle.NoSeedsBlank` | cropsicle.c:678-697 | when no overlay pixel is a seed, the seed buffer is a fixed point, every label stays 0 after any number of iterations, and every output alpha is 0x00 |
| `Cropsicle.NoSeedsOneIteration` | cropsicle.c:678-679 | when no overlay pixel is a seed, a run in which no earlier iteration converged has made exactly one call |
| `Cropsicle.ProcessFile` | cropsicle.c:616-708 | the image ends up with its own colours and the alpha of the labels after `steps` iterations (at most 2000); fewer than 2000 means those labels are a fixed point; no earlier iteration was one; when fewer than 2000, the last call's input was already a fixed point, so `steps` is exactly the number of calls; without any seed in the overlay the loop stops after one call and every alpha byte is 0x00 |

## Left out

- PNG decoding and encoding (`read_png_file`, `write_png_file`), `main` and `abort_`: file I/O and calls into libpng are not part of this model. The image is given as a width, a height and its rows of bytes laid end to end.
- Threads: `pthread_create` and `pthread_join` are not modelled. `Automaton.ProcessIteration` runs the four interior workers and the border worker one after another on the shared buffers and combines their flags as the join loop does. The workers read only the input buffer. Each worker's contract says it overwrites its cells with the same next iteration `Step` (the `Overwrite` ensures of `ProcessIterationThread` and `ProcessIterationBordersThread`). `OverwriteTwice` shows that two such writes in sequence equal one write on the union of their cells, so the order of the workers does not matter. Interleaving is not modelled.
- `float` rounding: every value is a `real`. The division by 255, the mean and `1 - C/maxC` are exact. `maxC` is the literal 1.732050808.
- `sqrtf` is a parameter. Only the affinity bounds and `AffinityOfEqualColours` assume it is the non-negative square root.
- Integer widths: `int` indices and offsets are unbounded. The source's `int` arithmetic on `w*h*8` could overflow for images of more than about 268 million pixels.
- RgbaImage.Image.GetPixel: requires in-grid coordinates. The image's own pixels are always in its grid. The overlay's pixels, read at the image's coordinates, are in the overlay's grid only under the size requirement of `Cropsicle.ProcessFile` below. The out-of-grid branch is not modelled. It writes white to `out[0..2]`, writes 0x00 to `out[4]`, one byte past the four-byte buffer, and never sets `out[3]`.
- Cropsicle.ProcessFile: requires the overlay to be at least as wide and as high as the image, and both to be at least 1x1. The source never compares the two sizes. For an image pixel outside a smaller overlay, `get_pixel` takes its out-of-grid branch. That branch writes one byte past the four-byte `overlay_pixel` buffer and leaves its alpha unset, so the seed test then reads an alpha byte that was never set. That undefined behaviour is not modelled.
- The `g_array` slots of off-grid directions are never written (their `memset` is compiled out). The model leaves them arbitrary and proves they are never read, rather than treating them as zero.
- The `SHOW_EFFECTS` debug path, the `#if 0` HSV sketch and `test_process_file` are not part of this model.
- Some loop bodies of the source are their own methods: `BlurPixel`, `InitColour` with `InitSeed`, `ProcessRowRun`, `ProcessBorderRow` with `ProcessBorderColumn`, and `CalcG` inside `ComputeAffinities`. `PrepareBuffers` is the first part of `process_file`.
- `malloc`, `memcpy` and `free`: the temporary blur buffer is a fresh zeroed array, copied back with one parallel assignment, and buffers are never freed.
- The steps count returned by `Iterate` and `ProcessFile` is ghost. The source keeps it only as its loop counter.
