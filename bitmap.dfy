/** The decoded bitmap both the image loader and the texture upload read, and
    the loop that packs it into a tightly packed RGBA8 buffer. */
module Bitmaps {
  import opened MipMaps

  /** A GDI+ colour: its alpha, red, green and blue bytes. */
  datatype Color = Color(a: Byte, r: Byte, g: Byte, b: Byte)

  /** sizeof(Gdiplus::Color): the colour is one 32-bit ARGB value. */
  const ColorSize: int := 4

  /** A decoded bitmap: height rows of width colours each. */
  datatype Bitmap = Bitmap(width: int, height: int, rows: seq<seq<Color>>)
  {
    ghost predicate Valid()
    {
      0 <= width && 0 <= height && |rows| == height
      && forall y :: 0 <= y < height ==> |rows[y]| == width
    }

    /** Bitmap::GetPixel(x, y): the colour in column x of row y. */
    function GetPixel(x: int, y: int): Color
      requires Valid() && 0 <= x < width && 0 <= y < height
    {
      rows[y][x]
    }
  }

  /** The RGBA pixel stored for a colour: GetR, GetG, GetB, GetA in that order. */
  function ToPixel(c: Color): Pixel
  {
    Pixel(c.r, c.g, c.b, c.a)
  }

  /** The pixels before (i, j) in row-major order hold the bitmap's colours:
      the state of the packing loop when it reaches pixel (i, j). */
  ghost predicate PackedUpTo(bytes: seq<Byte>, bitmap: Bitmap, i: int, j: int)
    requires bitmap.Valid() && IsLevel(bytes, bitmap.width, bitmap.height)
  {
    forall i', j' :: InBounds(bitmap.width, bitmap.height, i', j') && (i' < i || (i' == i && j' < j)) ==>
      PixelAt(bytes, bitmap.width, bitmap.height, i', j') == ToPixel(bitmap.GetPixel(j', i'))
  }

  /** Writing the four channel bytes of pixel (i, j), one after another, gives
      that pixel the colour at column j, row i, and extends the packed prefix by
      one pixel. */
  lemma PackPixel(before: seq<Byte>, after: seq<Byte>, bitmap: Bitmap, i: int, j: int)
    requires bitmap.Valid() && IsLevel(before, bitmap.width, bitmap.height)
    requires InBounds(bitmap.width, bitmap.height, i, j) && PackedUpTo(before, bitmap, i, j)
    requires 0 <= i * bitmap.width * 4 + j * 4 && i * bitmap.width * 4 + j * 4 + 3 < |before|
    requires after == before[i * bitmap.width * 4 + j * 4 := bitmap.GetPixel(j, i).r]
                            [i * bitmap.width * 4 + j * 4 + 1 := bitmap.GetPixel(j, i).g]
                            [i * bitmap.width * 4 + j * 4 + 2 := bitmap.GetPixel(j, i).b]
                            [i * bitmap.width * 4 + j * 4 + 3 := bitmap.GetPixel(j, i).a]
    ensures IsLevel(after, bitmap.width, bitmap.height)
    ensures PackedUpTo(after, bitmap, i, j + 1)
  {
    var w, h, p := bitmap.width, bitmap.height, ToPixel(bitmap.GetPixel(j, i));
    assert after == WithPixel(before, w, h, i, j, p);
    WithPixelReadBack(before, w, h, i, j, p);
    forall i', j' | InBounds(w, h, i', j') && (i' < i || (i' == i && j' < j))
      ensures PixelAt(after, w, h, i', j') == ToPixel(bitmap.GetPixel(j', i'))
    {
      WithPixelOthers(before, w, h, i, j, p, i', j');
    }
  }

  /** The inner loop of the packing: row i of the buffer takes the colours of
      row i of the bitmap, the rows before it keep theirs, and no byte outside
      row i is written. */
  method PackRow(bytes: array<Byte>, bitmap: Bitmap, i: int)
    requires bitmap.Valid() && IsLevel(bytes[..], bitmap.width, bitmap.height)
    requires 0 <= i < bitmap.height && PackedUpTo(bytes[..], bitmap, i, 0)
    modifies bytes
    ensures IsLevel(bytes[..], bitmap.width, bitmap.height)
    ensures PackedUpTo(bytes[..], bitmap, i, bitmap.width)
    ensures forall k :: 0 <= k < bytes.Length && !(i * bitmap.width * 4 <= k < (i + 1) * bitmap.width * 4) ==>
      bytes[k] == old(bytes[k])
  {
    var w := bitmap.width;
    var h := bitmap.height;
    var j := 0;
    while j < w
      invariant 0 <= j <= w
      invariant IsLevel(bytes[..], w, h)
      invariant PackedUpTo(bytes[..], bitmap, i, j)
      invariant forall k :: 0 <= k < bytes.Length && !(i * w * 4 <= k < i * w * 4 + j * 4) ==>
        bytes[k] == old(bytes[k])
    {
      var c := bitmap.GetPixel(j, i);
      ghost var before := bytes[..];
      ByteIndexDecode(w, h, i, j, R);
      ByteIndexDecode(w, h, i, j, A);
      bytes[i * w * 4 + j * 4] := c.r;
      bytes[i * w * 4 + j * 4 + 1] := c.g;
      bytes[i * w * 4 + j * 4 + 2] := c.b;
      bytes[i * w * 4 + j * 4 + 3] := c.a;
      PackPixel(before, bytes[..], bitmap, i, j);
      j := j + 1;
    }
    assert (i + 1) * w * 4 == i * w * 4 + w * 4;
  }

  /** A row packed to its end is the start of the next row. */
  lemma NextRow(bytes: seq<Byte>, bitmap: Bitmap, i: int)
    requires bitmap.Valid() && IsLevel(bytes, bitmap.width, bitmap.height)
    requires PackedUpTo(bytes, bitmap, i, bitmap.width)
    ensures PackedUpTo(bytes, bitmap, i + 1, 0)
  {
  }

  /** The packing loop: byte i*w*4 + j*4 + c of the buffer is channel c of the
      colour at column j, row i. The buffer has h*w*4 bytes and nothing else in it. */
  method PackRgba(bitmap: Bitmap) returns (bytes: array<Byte>)
    requires bitmap.Valid()
    ensures fresh(bytes)
    ensures bytes.Length == bitmap.height * bitmap.width * 4
    ensures IsLevel(bytes[..], bitmap.width, bitmap.height)
    ensures forall i, j :: InBounds(bitmap.width, bitmap.height, i, j) ==>
      PixelAt(bytes[..], bitmap.width, bitmap.height, i, j) == ToPixel(bitmap.GetPixel(j, i))
  {
    var h := bitmap.height;
    var w := bitmap.width;
    bytes := new Byte[h * w * 4];
    assert h * w * 4 == w * h * 4;
    var i := 0;
    while i < h
      invariant 0 <= i <= h
      invariant IsLevel(bytes[..], w, h)
      invariant PackedUpTo(bytes[..], bitmap, i, 0)
    {
      PackRow(bytes, bitmap, i);
      NextRow(bytes[..], bitmap, i);
      i := i + 1;
    }
  }
}
