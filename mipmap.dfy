/** One mip level: an RGBA8 image stored row-major, four bytes per pixel.
    The specification functions here work on byte sequences; the datatype
    MipMap at the end holds the level's buffer as an array, as the C++ struct
    holds a BYTE pointer. */
module MipMaps {

  /** An unsigned 8-bit value (the Windows BYTE type). */
  type Byte = x: int | 0 <= x < 256

  /** The C++ cast (BYTE)x keeps the low eight bits of x. */
  function ToByte(x: int): Byte
  {
    x % 256
  }

  /** The channel of a pixel; its offset is its place within the pixel's four bytes. */
  datatype Channel = R | G | B | A

  function Offset(c: Channel): (k: nat)
    ensures k < 4
    ensures ChannelAt(k) == c
  {
    match c
    case R => 0
    case G => 1
    case B => 2
    case A => 3
  }

  /** The channel stored at offset k of a pixel. */
  function ChannelAt(k: nat): (c: Channel)
    requires k < 4
  {
    if k == 0 then R else if k == 1 then G else if k == 2 then B else A
  }

  lemma ChannelAtOffset(k: nat)
    requires k < 4
    ensures Offset(ChannelAt(k)) == k
  {
  }

  /** A pixel: its four bytes in r, g, b, a order. */
  datatype Pixel = Pixel(r: Byte, g: Byte, b: Byte, a: Byte)

  function Get(p: Pixel, c: Channel): Byte
  {
    match c
    case R => p.r
    case G => p.g
    case B => p.b
    case A => p.a
  }

  function Min4(a: int, b: int, c: int, d: int): (m: int)
    ensures m <= a && m <= b && m <= c && m <= d
    ensures m == a || m == b || m == c || m == d
  {
    var ab := if a <= b then a else b;
    var cd := if c <= d then c else d;
    if ab <= cd then ab else cd
  }

  function Max4(a: int, b: int, c: int, d: int): (m: int)
    ensures m >= a && m >= b && m >= c && m >= d
    ensures m == a || m == b || m == c || m == d
  {
    var ab := if a >= b then a else b;
    var cd := if c >= d then c else d;
    if ab >= cd then ab else cd
  }

  /** One channel of Pixel::avg: the sum of four channel values divided by four
      with truncation, then cast to BYTE. The sum is at most 1020, so the cast
      never wraps; the mean lies between the least and greatest input, and four
      equal values give that value. */
  function Mean(a: Byte, b: Byte, c: Byte, d: Byte): (m: Byte)
    ensures m == (a + b + c + d) / 4
    ensures Min4(a, b, c, d) <= m <= Max4(a, b, c, d)
    ensures a == b == c == d ==> m == a
  {
    var sum := a + b + c + d;
    assert 4 * Min4(a, b, c, d) <= sum <= 4 * Max4(a, b, c, d);
    QuarterBounds(sum, Min4(a, b, c, d), Max4(a, b, c, d));
    DivModUnique(sum / 4, 256, 0, sum / 4);
    ToByte(sum / 4)
  }

  /** A sum of four values between lo and hi has its truncated quarter between them. */
  lemma QuarterBounds(sum: int, lo: int, hi: int)
    requires 4 * lo <= sum <= 4 * hi
    ensures lo <= sum / 4 <= hi
  {
  }

  /** Pixel::avg: the channel-wise mean of four pixels. */
  function Avg(p1: Pixel, p2: Pixel, p3: Pixel, p4: Pixel): (q: Pixel)
    ensures forall c :: Get(q, c) == Mean(Get(p1, c), Get(p2, c), Get(p3, c), Get(p4, c))
    ensures p1 == p2 == p3 == p4 ==> q == p1
  {
    Pixel(Mean(p1.r, p2.r, p3.r, p4.r), Mean(p1.g, p2.g, p3.g, p4.g),
          Mean(p1.b, p2.b, p3.b, p4.b), Mean(p1.a, p2.a, p3.a, p4.a))
  }

  // ---------------------------------------------------------------------
  // Division facts used for the byte layout.

  lemma DivModUnique(k: int, d: int, q: int, r: int)
    requires d > 0 && 0 <= r < d && k == q * d + r
    ensures k / d == q && k % d == r
  {
    var q', r' := k / d, k % d;
    assert k == q' * d + r';
    if q' < q {
      assert (q - q') * d >= d by { MulMonotone(q - q', d); }
      assert false;
    } else if q' > q {
      assert (q' - q) * d >= d by { MulMonotone(q' - q, d); }
      assert false;
    }
  }

  lemma MulMonotone(a: int, d: int)
    requires a >= 1 && d > 0
    ensures a * d >= d
  {
  }

  // ---------------------------------------------------------------------
  // Byte layout.

  /** getByteIndex: channel c of the pixel in row i, column j of a level that is
      width pixels wide. */
  function ByteIndex(width: int, i: int, j: int, c: Channel): int
  {
    i * width * 4 + j * 4 + Offset(c)
  }

  predicate InBounds(width: int, height: int, i: int, j: int)
  {
    0 <= i < height && 0 <= j < width
  }

  /** The place of pixel (i, j) in row-major order. */
  function PixelIndex(width: int, i: int, j: int): int
  {
    i * width + j
  }

  /** The row and column of byte k of a level width pixels wide. */
  function RowOf(width: int, k: int): int
    requires width > 0
  {
    (k / 4) / width
  }

  function ColumnOf(width: int, k: int): int
    requires width > 0
  {
    (k / 4) % width
  }

  lemma MulLeftMonotone(a: int, b: int, d: int)
    requires a <= b && d >= 0
    ensures a * d <= b * d
  {
  }

  /** An in-bounds pixel has a place in [0, width * height) that names its row and column. */
  lemma PixelIndexDecode(width: int, height: int, i: int, j: int)
    requires InBounds(width, height, i, j)
    ensures 0 <= PixelIndex(width, i, j) < width * height
    ensures PixelIndex(width, i, j) / width == i && PixelIndex(width, i, j) % width == j
  {
    DivModUnique(PixelIndex(width, i, j), width, i, j);
    MulLeftMonotone(i, height - 1, width);
  }

  /** An in-bounds pixel's bytes lie inside the buffer, and each index can be
      read back: it names exactly one row, column and channel. */
  lemma ByteIndexDecode(width: int, height: int, i: int, j: int, c: Channel)
    requires InBounds(width, height, i, j)
    ensures 0 <= ByteIndex(width, i, j, c) < width * height * 4
    ensures ByteIndex(width, i, j, c) / 4 == PixelIndex(width, i, j)
    ensures ByteIndex(width, i, j, c) % 4 == Offset(c)
    ensures RowOf(width, ByteIndex(width, i, j, c)) == i
    ensures ColumnOf(width, ByteIndex(width, i, j, c)) == j
  {
    assert ByteIndex(width, i, j, c) == PixelIndex(width, i, j) * 4 + Offset(c);
    PixelIndexDecode(width, height, i, j);
    DivModUnique(ByteIndex(width, i, j, c), 4, PixelIndex(width, i, j), Offset(c));
  }

  /** Distinct (row, column, channel) triples inside the level give distinct bytes. */
  lemma ByteIndexInjective(width: int, height: int, i: int, j: int, c: Channel, i': int, j': int, c': Channel)
    requires InBounds(width, height, i, j) && InBounds(width, height, i', j')
    requires (i, j, c) != (i', j', c')
    ensures ByteIndex(width, i, j, c) != ByteIndex(width, i', j', c')
  {
    ByteIndexDecode(width, height, i, j, c);
    ByteIndexDecode(width, height, i', j', c');
  }

  /** Every byte of the buffer belongs to some in-bounds pixel and channel. */
  lemma ByteIndexCovers(width: int, height: int, k: int)
    requires width > 0 && height >= 0 && 0 <= k < width * height * 4
    ensures InBounds(width, height, RowOf(width, k), ColumnOf(width, k))
    ensures k == ByteIndex(width, RowOf(width, k), ColumnOf(width, k), ChannelAt(k % 4))
  {
    var n, c := k / 4, k % 4;
    var i, j := n / width, n % width;
    assert n < width * height;
    assert n == i * width + j;
    ChannelAtOffset(c);
    if i >= height {
      MulLeftMonotone(height, i, width);
      assert false;
    }
    assert ByteIndex(width, i, j, ChannelAt(c)) == PixelIndex(width, i, j) * 4 + c;
  }

  // ---------------------------------------------------------------------
  // Pixels of a byte sequence.

  /** A byte sequence that holds a width x height RGBA8 level. */
  predicate IsLevel(s: seq<Byte>, width: int, height: int)
  {
    0 <= width && 0 <= height && |s| == width * height * 4
  }

  /** getPixel on a byte sequence. */
  function PixelAt(s: seq<Byte>, width: int, height: int, i: int, j: int): Pixel
    requires IsLevel(s, width, height) && InBounds(width, height, i, j)
  {
    ByteIndexDecode(width, height, i, j, R);
    ByteIndexDecode(width, height, i, j, G);
    ByteIndexDecode(width, height, i, j, B);
    ByteIndexDecode(width, height, i, j, A);
    Pixel(
      s[ByteIndex(width, i, j, R)],
      s[ByteIndex(width, i, j, G)],
      s[ByteIndex(width, i, j, B)],
      s[ByteIndex(width, i, j, A)])
  }

  /** Each channel of PixelAt is the byte at that channel's index. */
  lemma PixelAtChannel(s: seq<Byte>, width: int, height: int, i: int, j: int, c: Channel)
    requires IsLevel(s, width, height) && InBounds(width, height, i, j)
    ensures 0 <= ByteIndex(width, i, j, c) < |s|
    ensures Get(PixelAt(s, width, height, i, j), c) == s[ByteIndex(width, i, j, c)]
  {
    ByteIndexDecode(width, height, i, j, c);
  }

  /** setPixel on a byte sequence: the four bytes of pixel (i, j) take the
      channels of p. */
  function WithPixel(s: seq<Byte>, width: int, height: int, i: int, j: int, p: Pixel): (t: seq<Byte>)
    requires IsLevel(s, width, height) && InBounds(width, height, i, j)
    ensures IsLevel(t, width, height)
  {
    ByteIndexDecode(width, height, i, j, R);
    ByteIndexDecode(width, height, i, j, G);
    ByteIndexDecode(width, height, i, j, B);
    ByteIndexDecode(width, height, i, j, A);
    s[ByteIndex(width, i, j, R) := p.r][ByteIndex(width, i, j, G) := p.g]
     [ByteIndex(width, i, j, B) := p.b][ByteIndex(width, i, j, A) := p.a]
  }

  /** Reading pixel (i, j) after writing p there yields p. */
  lemma WithPixelReadBack(s: seq<Byte>, width: int, height: int, i: int, j: int, p: Pixel)
    requires IsLevel(s, width, height) && InBounds(width, height, i, j)
    ensures PixelAt(WithPixel(s, width, height, i, j, p), width, height, i, j) == p
  {
    DecodePixel(width, height, i, j);
  }

  /** Writing pixel (i, j) leaves every byte of the other pixels as it was. */
  lemma WithPixelFrame(s: seq<Byte>, width: int, height: int, i: int, j: int, p: Pixel, k: int)
    requires IsLevel(s, width, height) && InBounds(width, height, i, j)
    requires 0 <= k < |s| && k / 4 != PixelIndex(width, i, j)
    ensures WithPixel(s, width, height, i, j, p)[k] == s[k]
  {
    DecodePixel(width, height, i, j);
  }

  /** Writing pixel (i, j) leaves every other pixel as it was. */
  lemma WithPixelOthers(s: seq<Byte>, width: int, height: int, i: int, j: int, p: Pixel, i': int, j': int)
    requires IsLevel(s, width, height) && InBounds(width, height, i, j)
    requires InBounds(width, height, i', j') && (i', j') != (i, j)
    ensures PixelAt(WithPixel(s, width, height, i, j, p), width, height, i', j') == PixelAt(s, width, height, i', j')
  {
    DecodePixel(width, height, i, j);
    DecodePixel(width, height, i', j');
  }

  /** ByteIndexDecode for all four channels of one pixel. */
  lemma DecodePixel(width: int, height: int, i: int, j: int)
    requires InBounds(width, height, i, j)
    ensures forall c :: 0 <= ByteIndex(width, i, j, c) < width * height * 4
    ensures forall c :: ByteIndex(width, i, j, c) / 4 == PixelIndex(width, i, j)
    ensures forall c :: ByteIndex(width, i, j, c) % 4 == Offset(c)
    ensures PixelIndex(width, i, j) / width == i && PixelIndex(width, i, j) % width == j
  {
    ByteIndexDecode(width, height, i, j, R);
    ByteIndexDecode(width, height, i, j, G);
    ByteIndexDecode(width, height, i, j, B);
    ByteIndexDecode(width, height, i, j, A);
    PixelIndexDecode(width, height, i, j);
  }

  /** Two levels of the same size with the same pixels are the same bytes. */
  lemma PixelsDetermineLevel(s: seq<Byte>, t: seq<Byte>, width: int, height: int)
    requires IsLevel(s, width, height) && IsLevel(t, width, height)
    requires forall i, j :: InBounds(width, height, i, j) ==>
      PixelAt(s, width, height, i, j) == PixelAt(t, width, height, i, j)
    ensures s == t
  {
    forall k | 0 <= k < |s| ensures s[k] == t[k] {
      ByteIndexCovers(width, height, k);
      var i, j, c := RowOf(width, k), ColumnOf(width, k), ChannelAt(k % 4);
      PixelAtChannel(s, width, height, i, j, c);
      PixelAtChannel(t, width, height, i, j, c);
      assert PixelAt(s, width, height, i, j) == PixelAt(t, width, height, i, j);
    }
  }

  // ---------------------------------------------------------------------
  // The filter of generateMipMap.

  /** The source pixels generateMipMap reads for output pixel (i, j): rows i and
      i+1, columns j and j+1 of the previous level (an overlapping window). */
  function WindowAvg(s: seq<Byte>, width: int, height: int, i: int, j: int): Pixel
    requires IsLevel(s, width, height) && InBounds(width / 2, height / 2, i, j)
  {
    Avg(PixelAt(s, width, height, i, j), PixelAt(s, width, height, i + 1, j),
        PixelAt(s, width, height, i, j + 1), PixelAt(s, width, height, i + 1, j + 1))
  }

  /** t is a level of size width/2 x height/2 each of whose pixels is the window
      average of s at the same row and column. */
  ghost predicate Filtered(t: seq<Byte>, s: seq<Byte>, width: int, height: int)
    requires IsLevel(s, width, height)
  {
    IsLevel(t, width / 2, height / 2)
    && forall i, j :: InBounds(width / 2, height / 2, i, j) ==>
         PixelAt(t, width / 2, height / 2, i, j) == WindowAvg(s, width, height, i, j)
  }

  /** The level generateMipMap derives from s, byte by byte: byte k of the
      result is the channel k % 4 of the window average at the row and column
      that k lies in. */
  function Downsample(s: seq<Byte>, width: int, height: int): (t: seq<Byte>)
    requires IsLevel(s, width, height)
    ensures IsLevel(t, width / 2, height / 2)
  {
    var w, h := width / 2, height / 2;
    if w == 0 then []
    else
      seq(w * h * 4, k requires 0 <= k < w * h * 4 =>
        ByteIndexCovers(w, h, k);
        Get(WindowAvg(s, width, height, RowOf(w, k), ColumnOf(w, k)), ChannelAt(k % 4)))
  }

  /** Every pixel of Downsample is the window average at its row and column. */
  lemma DownsampleFiltered(s: seq<Byte>, width: int, height: int)
    requires IsLevel(s, width, height)
    ensures Filtered(Downsample(s, width, height), s, width, height)
  {
    var w, h := width / 2, height / 2;
    var t := Downsample(s, width, height);
    forall i, j | InBounds(w, h, i, j)
      ensures PixelAt(t, w, h, i, j) == WindowAvg(s, width, height, i, j)
    {
      ByteIndexDecode(w, h, i, j, R);
      ByteIndexDecode(w, h, i, j, G);
      ByteIndexDecode(w, h, i, j, B);
      ByteIndexDecode(w, h, i, j, A);
    }
  }

  /** The pixels of t before (i, j) in row-major order are window averages of s:
      the state of generateMipMap's loops when they reach output pixel (i, j). */
  ghost predicate FilledUpTo(t: seq<Byte>, s: seq<Byte>, width: int, height: int, i: int, j: int)
    requires IsLevel(s, width, height) && IsLevel(t, width / 2, height / 2)
  {
    forall i', j' :: InBounds(width / 2, height / 2, i', j') && (i' < i || (i' == i && j' < j)) ==>
      PixelAt(t, width / 2, height / 2, i', j') == WindowAvg(s, width, height, i', j')
  }

  /** Writing the window average at (i, j) extends the filled prefix by one pixel. */
  lemma FillPixel(t: seq<Byte>, s: seq<Byte>, width: int, height: int, i: int, j: int)
    requires IsLevel(s, width, height) && IsLevel(t, width / 2, height / 2)
    requires InBounds(width / 2, height / 2, i, j) && FilledUpTo(t, s, width, height, i, j)
    ensures FilledUpTo(WithPixel(t, width / 2, height / 2, i, j, WindowAvg(s, width, height, i, j)), s, width, height, i, j + 1)
  {
    var p := WindowAvg(s, width, height, i, j);
    var t' := WithPixel(t, width / 2, height / 2, i, j, p);
    WithPixelReadBack(t, width / 2, height / 2, i, j, p);
    forall i', j' | InBounds(width / 2, height / 2, i', j') && (i' < i || (i' == i && j' < j))
      ensures PixelAt(t', width / 2, height / 2, i', j') == WindowAvg(s, width, height, i', j')
    {
      WithPixelOthers(t, width / 2, height / 2, i, j, p, i', j');
    }
  }

  /** A filled prefix that reaches the end of the level is the whole filter. */
  lemma FilledAll(t: seq<Byte>, s: seq<Byte>, width: int, height: int)
    requires IsLevel(s, width, height) && IsLevel(t, width / 2, height / 2)
    requires FilledUpTo(t, s, width, height, height / 2, 0)
    ensures Filtered(t, s, width, height)
  {
  }

  /** A filtered level is exactly Downsample: the filter determines every byte. */
  lemma FilteredIsDownsample(t: seq<Byte>, s: seq<Byte>, width: int, height: int)
    requires IsLevel(s, width, height) && Filtered(t, s, width, height)
    ensures t == Downsample(s, width, height)
  {
    DownsampleFiltered(s, width, height);
    PixelsDetermineLevel(t, Downsample(s, width, height), width / 2, height / 2);
  }

  /** A level that is one pixel wide or high downsamples to an empty level (no error). */
  lemma DownsampleThin(s: seq<Byte>, width: int, height: int)
    requires IsLevel(s, width, height) && (width <= 1 || height <= 1)
    ensures Downsample(s, width, height) == []
  {
  }

  /** A level of one colour downsamples to a level of that colour. */
  lemma {:induction false} DownsampleUniform(s: seq<Byte>, width: int, height: int, p: Pixel)
    requires IsLevel(s, width, height)
    requires forall i, j :: InBounds(width, height, i, j) ==> PixelAt(s, width, height, i, j) == p
    ensures forall i, j :: InBounds(width / 2, height / 2, i, j) ==>
      PixelAt(Downsample(s, width, height), width / 2, height / 2, i, j) == p
  {
    var t := Downsample(s, width, height);
    DownsampleFiltered(s, width, height);
    forall i, j | InBounds(width / 2, height / 2, i, j)
      ensures PixelAt(t, width / 2, height / 2, i, j) == p
    {
      assert InBounds(width, height, i + 1, j + 1);
      assert PixelAt(s, width, height, i, j) == p;
      assert PixelAt(s, width, height, i + 1, j) == p;
      assert PixelAt(s, width, height, i, j + 1) == p;
      assert PixelAt(s, width, height, i + 1, j + 1) == p;
    }
  }

  // ---------------------------------------------------------------------
  // The C++ struct MipMap.

  /** MipMap: a buffer with its width, height and level number. Copies of the
      struct share the buffer, and so do copies of this datatype. */
  datatype MipMap = MipMap(bytes: array<Byte>, width: int, height: int, level: int)
  {
    /** The buffer holds width x height RGBA8 pixels. */
    ghost predicate Valid()
    {
      0 <= width && 0 <= height && bytes.Length == width * height * 4
    }

    /** getPixel. */
    function GetPixel(i: int, j: int): Pixel
      requires Valid() && InBounds(width, height, i, j)
      reads bytes
    {
      PixelAt(bytes[..], width, height, i, j)
    }

    /** setPixel: writes the four bytes of pixel (i, j) and nothing else. */
    method SetPixel(i: int, j: int, p: Pixel)
      requires Valid() && InBounds(width, height, i, j)
      modifies bytes
      ensures bytes[..] == WithPixel(old(bytes[..]), width, height, i, j, p)
    {
      ghost var before := bytes[..];
      ByteIndexDecode(width, height, i, j, R);
      ByteIndexDecode(width, height, i, j, G);
      ByteIndexDecode(width, height, i, j, B);
      ByteIndexDecode(width, height, i, j, A);
      bytes[ByteIndex(width, i, j, R)] := p.r;
      bytes[ByteIndex(width, i, j, G)] := p.g;
      bytes[ByteIndex(width, i, j, B)] := p.b;
      bytes[ByteIndex(width, i, j, A)] := p.a;
      assert bytes[..] == WithPixel(before, width, height, i, j, p);
    }

    /** next: a new buffer for the level below, half as wide and half as high
        (truncating); a level one pixel wide or high yields an empty level. */
    method Next() returns (m: MipMap)
      requires Valid()
      ensures m.Valid() && fresh(m.bytes)
      ensures m.width == width / 2 && m.height == height / 2 && m.level == level + 1
    {
      var nextWidth := width / 2;
      var nextHeight := height / 2;
      var nextBytes := new Byte[nextWidth * nextHeight * 4];
      var nextLevel := level + 1;
      m := MipMap(nextBytes, nextWidth, nextHeight, nextLevel);
    }
  }
}
