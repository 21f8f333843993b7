/** ImageLoader: the base level packed from a bitmap and a lazily extended
    cache of the levels below it. */
module ImageLoading {
  import opened MipMaps
  import opened Bitmaps

  /** n halved k times, truncating at every step. */
  function Halved(n: int, k: nat): (r: int)
    requires n >= 0
    ensures r >= 0
  {
    if k == 0 then n else Halved(n, k - 1) / 2
  }

  function Pow2(k: nat): (p: int)
    ensures p >= 1
  {
    if k == 0 then 1 else 2 * Pow2(k - 1)
  }

  lemma DivDiv(n: int, a: int, b: int)
    requires n >= 0 && a > 0 && b > 0
    ensures (n / a) / b == n / (b * a)
  {
    var q1, r1 := n / a, n % a;
    var q2, r2 := q1 / b, q1 % b;
    assert n == (q2 * b + r2) * a + r1;
    assert n == q2 * (b * a) + (r2 * a + r1);
    assert r2 * a <= (b - 1) * a by { MulLeftMonotone(r2, b - 1, a); }
    assert 0 <= r2 * a + r1 < b * a;
    DivModUnique(n, b * a, q2, r2 * a + r1);
  }

  /** Halving k times with truncation at each step is dividing once by 2^k. */
  lemma {:induction false} HalvedIsQuotient(n: int, k: nat)
    requires n >= 0
    ensures Halved(n, k) == n / Pow2(k)
  {
    if k > 0 {
      HalvedIsQuotient(n, k - 1);
      DivDiv(n, Pow2(k - 1), 2);
    }
  }

  /** Level k of the pyramid over a base level of width x height pixels: the
      base itself for k = 0, otherwise Downsample of level k - 1. */
  function Pyramid(base: seq<Byte>, width: int, height: int, k: nat): (s: seq<Byte>)
    requires IsLevel(base, width, height)
    ensures IsLevel(s, Halved(width, k), Halved(height, k))
  {
    if k == 0 then base
    else Downsample(Pyramid(base, width, height, k - 1), Halved(width, k - 1), Halved(height, k - 1))
  }

  /** One step down the pyramid: level k is Downsample of level k - 1 at half its size. */
  lemma PyramidStep(base: seq<Byte>, width: int, height: int, k: nat)
    requires IsLevel(base, width, height) && k >= 1
    ensures Halved(width, k) == Halved(width, k - 1) / 2
    ensures Halved(height, k) == Halved(height, k - 1) / 2
    ensures Pyramid(base, width, height, k)
         == Downsample(Pyramid(base, width, height, k - 1), Halved(width, k - 1), Halved(height, k - 1))
  {
  }

  /** Once a level is zero pixels wide, every level below it is empty. */
  lemma {:induction false} PyramidEmptyBelow(base: seq<Byte>, width: int, height: int, k: nat, k': nat)
    requires IsLevel(base, width, height)
    requires k <= k' && (Halved(width, k) <= 1 || Halved(height, k) <= 1)
    ensures k < k' ==> Pyramid(base, width, height, k') == []
    ensures Halved(width, k') <= 1 || Halved(height, k') <= 1
    decreases k' - k
  {
    if k < k' {
      PyramidEmptyBelow(base, width, height, k, k' - 1);
      DownsampleThin(Pyramid(base, width, height, k' - 1), Halved(width, k' - 1), Halved(height, k' - 1));
    }
  }

  /** m is level k of the pyramid over the base level: its level number, its
      size (the base size halved k times) and its contents. */
  ghost predicate IsLevelOf(m: MipMap, k: nat, base: MipMap)
    reads m.bytes, base.bytes
  {
    && base.Valid()
    && m.Valid()
    && m.level == k
    && m.width == Halved(base.width, k)
    && m.height == Halved(base.height, k)
    && m.bytes[..] == Pyramid(base.bytes[..], base.width, base.height, k)
  }

  /** The filter of level k - 1, at half its size and numbered k, is level k. */
  lemma NextLevelOf(last: MipMap, next: MipMap, k: nat, base: MipMap)
    requires k >= 1 && IsLevelOf(last, k - 1, base) && next.Valid()
    requires next.width == last.width / 2 && next.height == last.height / 2 && next.level == k
    requires next.bytes[..] == Downsample(last.bytes[..], last.width, last.height)
    ensures IsLevelOf(next, k, base)
  {
    PyramidStep(base.bytes[..], base.width, base.height, k);
  }

  /** Appending level |cached| of the pyramid to a cache of levels 0 .. |cached| - 1
      gives a cache of levels 0 .. |cached|. */
  lemma AppendLevel(cached: seq<MipMap>, next: MipMap)
    requires |cached| >= 1
    requires forall k :: 0 <= k < |cached| ==> IsLevelOf(cached[k], k, cached[0])
    requires IsLevelOf(next, |cached|, cached[0])
    ensures forall k :: 0 <= k < |cached + [next]| ==> IsLevelOf((cached + [next])[k], k, (cached + [next])[0])
  {
    var grown := cached + [next];
    forall k | 0 <= k < |grown| ensures IsLevelOf(grown[k], k, grown[0]) {
      if k < |cached| {
        assert grown[k] == cached[k];
      }
    }
  }

  /** The filter loops of generateMipMap: every pixel of the next level becomes
      the average of its window in the level above. */
  method FilterLevel(lastLevel: MipMap, nextLevel: MipMap)
    requires lastLevel.Valid() && nextLevel.Valid() && lastLevel.bytes != nextLevel.bytes
    requires nextLevel.width == lastLevel.width / 2 && nextLevel.height == lastLevel.height / 2
    modifies nextLevel.bytes
    ensures nextLevel.bytes[..] == Downsample(lastLevel.bytes[..], lastLevel.width, lastLevel.height)
  {
    ghost var prev := lastLevel.bytes[..];
    ghost var w, h := lastLevel.width, lastLevel.height;
    var i := 0;
    while i < nextLevel.height
      modifies nextLevel.bytes
      invariant 0 <= i <= nextLevel.height
      invariant nextLevel.Valid() && lastLevel.bytes[..] == prev
      invariant FilledUpTo(nextLevel.bytes[..], prev, w, h, i, 0)
    {
      var j := 0;
      while j < nextLevel.width
        modifies nextLevel.bytes
        invariant 0 <= j <= nextLevel.width
        invariant nextLevel.Valid() && lastLevel.bytes[..] == prev
        invariant FilledUpTo(nextLevel.bytes[..], prev, w, h, i, j)
      {
        var p1 := lastLevel.GetPixel(i, j);
        var p2 := lastLevel.GetPixel(i + 1, j);
        var p3 := lastLevel.GetPixel(i, j + 1);
        var p4 := lastLevel.GetPixel(i + 1, j + 1);
        var result := Avg(p1, p2, p3, p4);
        assert result == WindowAvg(prev, w, h, i, j);
        FillPixel(nextLevel.bytes[..], prev, w, h, i, j);
        nextLevel.SetPixel(i, j, result);
        j := j + 1;
      }
      i := i + 1;
    }

    FilledAll(nextLevel.bytes[..], prev, w, h);
    FilteredIsDownsample(nextLevel.bytes[..], prev, w, h);
  }

  class ImageLoader {
    /** The cache: entry k is mip level k. */
    var mipMaps: seq<MipMap>

    /** The buffers of the cached levels. */
    ghost function Buffers(): set<array<Byte>>
      reads this
    {
      set k | 0 <= k < |mipMaps| :: mipMaps[k].bytes
    }

    /** The cache holds levels 0 .. |mipMaps| - 1 in order, and level k is
        level k of the pyramid over the base level. */
    ghost predicate Valid()
      reads this, Buffers()
    {
      && |mipMaps| >= 1
      && forall k :: 0 <= k < |mipMaps| ==> IsLevelOf(mipMaps[k], k, mipMaps[0])
    }

    /** The constructor: packs the bitmap into the base level, which becomes
        the only entry of the cache. */
    constructor (bitmap: Bitmap)
      requires bitmap.Valid()
      ensures Valid() && |mipMaps| == 1
      ensures mipMaps[0].width == bitmap.width && mipMaps[0].height == bitmap.height
      ensures mipMaps[0].level == 0 && fresh(mipMaps[0].bytes)
      ensures forall i, j :: InBounds(bitmap.width, bitmap.height, i, j) ==>
        mipMaps[0].GetPixel(i, j) == ToPixel(bitmap.GetPixel(j, i))
    {
      var textureBytes := PackRgba(bitmap);
      var m := MipMap(textureBytes, bitmap.width, bitmap.height, 0);
      mipMaps := [m];
    }

    /** generateMipMap: if level is cached, nothing changes; otherwise the
        missing levels are derived in order, each from the one above it, and
        appended, so that the cache ends at level. */
    method GenerateMipMap(level: int)
      requires Valid() && level >= 0
      modifies this
      ensures Valid()
      ensures old(|mipMaps|) > level ==> mipMaps == old(mipMaps)
      ensures old(|mipMaps|) <= level ==> |mipMaps| == level + 1
      ensures mipMaps[..old(|mipMaps|)] == old(mipMaps)
      ensures forall k :: old(|mipMaps|) <= k < |mipMaps| ==> fresh(mipMaps[k].bytes)
      decreases level
    {
      if level < |mipMaps| {
        // already generated
        return;
      }
      if |mipMaps| < level {
        // the level above is not generated yet
        GenerateMipMap(level - 1);
      }

      var lastLevel := mipMaps[level - 1];
      assert lastLevel.bytes in Buffers();
      var nextLevel := lastLevel.Next();
      FilterLevel(lastLevel, nextLevel);
      NextLevelOf(lastLevel, nextLevel, level, mipMaps[0]);
      AppendLevel(mipMaps, nextLevel);
      mipMaps := mipMaps + [nextLevel];
    }

    /** getMipMap: the cached level, generated first if it is missing. The
        result is level `level` of the pyramid over the base, whatever was
        cached before; a cached level is returned without any change. */
    method GetMipMap(level: int) returns (m: MipMap)
      requires Valid() && level >= 0
      modifies this
      ensures Valid()
      ensures old(|mipMaps|) > level ==> mipMaps == old(mipMaps)
      ensures |mipMaps| == if old(|mipMaps|) > level then old(|mipMaps|) else level + 1
      ensures mipMaps[..old(|mipMaps|)] == old(mipMaps)
      ensures m == mipMaps[level] && m.level == level
      ensures m.width == Halved(mipMaps[0].width, level) && m.height == Halved(mipMaps[0].height, level)
      ensures m.bytes[..] == Pyramid(mipMaps[0].bytes[..], mipMaps[0].width, mipMaps[0].height, level)
    {
      if level >= |mipMaps| {
        GenerateMipMap(level);
      }
      m := mipMaps[level];
    }
  }
}
