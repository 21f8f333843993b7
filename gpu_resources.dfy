/** The two pieces of arithmetic the sample does for its Direct3D 12
    resources: the constant buffer view size rounded up to 256 bytes, and the
    texture upload buffer with its row and slice pitches. */
module GpuResources {
  import opened MipMaps
  import opened Bitmaps

  /** 2^64: size_t is a 64-bit unsigned integer. */
  const SizeLimit: int := 0x1_0000_0000_0000_0000

  /** The mask ~255 clears the low eight bits of a size_t, which is rounding it
      down to a multiple of 256. */
  lemma ClearLowByte(x: bv64)
    ensures x & !255 == (x / 256) * 256
  {
  }

  /** (n + 255) & ~255 on a size_t, written with the rounding down the mask
      performs (ClearLowByte); n + 255 must not wrap around. */
  function AlignTo256(n: nat): (r: nat)
    requires n + 255 < SizeLimit
    ensures r % 256 == 0
    ensures n <= r < n + 256
  {
    var q := (n + 255) / 256;
    DivModUnique(q * 256, 256, q, 0);
    q * 256
  }

  /** The round-up is the least multiple of 256 that is at least n. */
  lemma AlignTo256Least(n: nat, m: nat)
    requires n + 255 < SizeLimit && m % 256 == 0 && n <= m
    ensures AlignTo256(n) <= m
  {
  }

  /** A size that is already a multiple of 256 is left as it is. */
  lemma AlignTo256Aligned(n: nat)
    requires n + 255 < SizeLimit && n % 256 == 0
    ensures AlignTo256(n) == n
  {
    AlignTo256Least(n, n);
  }

  /** sizeof(SceneConstantBuffer): two 64-byte XMMATRIX members and an XMFLOAT3,
      padded to the 16-byte alignment of XMMATRIX. */
  const SceneConstantBufferSize: nat := 2 * 64 + 16

  /** The constant buffer view of the scene constants is 256 bytes, which fits
      the UINT SizeInBytes field. */
  lemma SceneConstantBufferView()
    ensures AlignTo256(SceneConstantBufferSize) == 256
  {
    AlignTo256Least(SceneConstantBufferSize, 256);
  }

  /** Byte i*w*4 + j*4 + c of the texture is byte c of pixel j in the row that
      starts at i * RowPitch; the rows fill the slice exactly. */
  lemma TextureLayout(width: int, height: int, i: int, j: int, c: Channel)
    requires InBounds(width, height, i, j)
    ensures ByteIndex(width, i, j, c) == i * (width * ColorSize) + j * ColorSize + Offset(c)
    ensures i * (width * ColorSize) <= ByteIndex(width, i, j, c) < (i + 1) * (width * ColorSize)
    ensures width * height * 4 == (width * ColorSize) * height
  {
    ByteIndexDecode(width, height, i, j, c);
  }

  /** The texture data of CreateTextureResource: the bitmap packed row by row
      into RGBA8 bytes, RowPitch = w * sizeof(Color) and SlicePitch =
      RowPitch * h, so that channel c of the pixel at column j, row i is the
      byte at i * RowPitch + j * sizeof(Color) + c. */
  method CreateTextureData(bitmap: Bitmap) returns (data: array<Byte>, rowPitch: int, slicePitch: int)
    requires bitmap.Valid()
    ensures rowPitch == bitmap.width * ColorSize && slicePitch == rowPitch * bitmap.height
    ensures fresh(data) && data.Length == slicePitch
    ensures forall i, j, c :: InBounds(bitmap.width, bitmap.height, i, j) ==>
      && 0 <= i * rowPitch + j * ColorSize + Offset(c) < data.Length
      && data[i * rowPitch + j * ColorSize + Offset(c)] == Get(ToPixel(bitmap.GetPixel(j, i)), c)
  {
    var h := bitmap.height;
    var w := bitmap.width;
    data := PackRgba(bitmap);
    rowPitch := w * ColorSize;
    slicePitch := rowPitch * h;
    forall i, j, c | InBounds(w, h, i, j)
      ensures 0 <= i * rowPitch + j * ColorSize + Offset(c) < data.Length
      ensures data[i * rowPitch + j * ColorSize + Offset(c)] == Get(ToPixel(bitmap.GetPixel(j, i)), c)
    {
      TextureLayout(w, h, i, j, c);
      PixelAtChannel(data[..], w, h, i, j, c);
    }
  }
}
