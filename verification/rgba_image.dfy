/** The decoded RGBA image the program works on: width x height pixels of
    four 8-bit channels. Row y holds the channels of pixels (0, y) ..
    (width-1, y) one after the other; the rows are laid end to end, so
    channel c of pixel (x, y) sits at (x + y * width) * 4 + c. */
module RgbaImage {
  import opened Grid

  newtype byte = b: int | 0 <= b < 256

  datatype Pixel = Pixel(r: byte, g: byte, b: byte, a: byte)

  /** Pixel (x, y) of the channel bytes d of an image of the given width. */
  function PixelOf(d: seq<byte>, width: int, height: int, x: int, y: int): (p: Pixel)
    requires 0 <= width && |d| == width * height * 4 && InGrid(width, height, x, y)
  {
    PixelInRange(width, height, x, y);
    var o := Index(width, x, y) * 4;
    Pixel(d[o], d[o + 1], d[o + 2], d[o + 3])
  }

  lemma PixelInRange(width: int, height: int, x: int, y: int)
    requires InGrid(width, height, x, y)
    ensures 0 <= Index(width, x, y) * 4 && Index(width, x, y) * 4 + 4 <= width * height * 4
  {
    IndexInRange(width, height, x, y);
  }

  /** Two distinct pixels of the grid have disjoint channel ranges. */
  lemma PixelsApart(width: int, height: int, x: int, y: int, x': int, y': int)
    requires InGrid(width, height, x, y) && InGrid(width, height, x', y') && (x, y) != (x', y')
    ensures Index(width, x, y) != Index(width, x', y')
  {
    CoordsOfIndex(width, x, y);
    CoordsOfIndex(width, x', y');
  }

  class Image {
    const width: int
    const height: int
    /** The rows of channel bytes, laid end to end. */
    const data: array<byte>

    ghost predicate Valid()
      reads this
    {
      0 <= width && 0 <= height && data.Length == width * height * 4
    }

    function PixelAt(x: int, y: int): Pixel
      requires Valid() && InGrid(width, height, x, y)
      reads this, data
    {
      PixelOf(data[..], width, height, x, y)
    }

    /** Reads the four channels of pixel (x, y), which must lie in the
        image. */
    method GetPixel(x: int, y: int) returns (p: Pixel)
      requires Valid() && InGrid(width, height, x, y)
      ensures p == PixelAt(x, y)
    {
      PixelInRange(width, height, x, y);
      var row := y * width * 4;
      p := Pixel(data[row + x * 4], data[row + x * 4 + 1], data[row + x * 4 + 2], data[row + x * 4 + 3]);
    }

    /** Writes the four channels of pixel (x, y); coordinates outside the
        image change nothing. */
    method SetPixel(x: int, y: int, p: Pixel)
      requires Valid()
      modifies data
      ensures InGrid(width, height, x, y) ==> PixelAt(x, y) == p
      ensures forall x', y' :: InGrid(width, height, x', y') && (x', y') != (x, y) ==>
        PixelAt(x', y') == old(PixelAt(x', y'))
      ensures !InGrid(width, height, x, y) ==> data[..] == old(data[..])
      ensures forall j :: 0 <= j < data.Length && (j < Index(width, x, y) * 4 || Index(width, x, y) * 4 + 4 <= j) ==>
        data[j] == old(data[j])
    {
      if x < 0 || y < 0 || x >= width || y >= height {
        return;
      }
      PixelInRange(width, height, x, y);
      var row := y * width * 4;
      data[row + x * 4] := p.r;
      data[row + x * 4 + 1] := p.g;
      data[row + x * 4 + 2] := p.b;
      data[row + x * 4 + 3] := p.a;
      forall x', y' | InGrid(width, height, x', y') && (x', y') != (x, y)
        ensures PixelAt(x', y') == old(PixelAt(x', y'))
      {
        PixelsApart(width, height, x, y, x', y');
        PixelInRange(width, height, x', y');
      }
    }
  }
}
