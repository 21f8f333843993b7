/** objToBuffers: fan triangulation of the parsed faces into a flat vertex
    buffer, with an index buffer that numbers the vertices in order. */
module ObjBuffers {
  import opened ObjParsing

  datatype Float2 = Float2(x: Float, y: Float)
  datatype Float3 = Float3(x: Float, y: Float, z: Float)
  datatype Float4 = Float4(x: Float, y: Float, z: Float, w: Float)

  /** The vertex layout the shaders read (normals and texture coordinates are
      compiled in): position, colour, normal, texture coordinate. */
  datatype Vertex = Vertex(position: Float3, color: Float4, normal: Float3, texCoord: Float2)

  /** sizeof(Vertex): 3 + 4 + 3 + 2 four-byte floats. */
  const VertexSize: nat := 48

  /** sizeof(short). */
  const ShortSize: nat := 2

  /** The largest value of the 16-bit short that numbers the vertices. */
  const ShortMax: int := 0x7FFF

  type Short = x: int | -0x8000 <= x <= 0x7FFF

  /** vertBundleToVert: position from the vertex, normal from the normal, texture
      coordinate (u, v) as (x, y), colour all zero. */
  function VertBundleToVert(bundle: ObjVertBundle): (v: Vertex)
    ensures v.color == Float4(Zero, Zero, Zero, Zero)
  {
    Vertex(Float3(bundle.vertex.x, bundle.vertex.y, bundle.vertex.z),
           Float4(Zero, Zero, Zero, Zero),
           Float3(bundle.normal.x, bundle.normal.y, bundle.normal.z),
           Float2(bundle.texCoord.u, bundle.texCoord.v))
  }

  /** The bundle a vertex was made from. */
  function VertToBundle(v: Vertex): ObjVertBundle
  {
    ObjVertBundle(ObjVert(v.position.x, v.position.y, v.position.z),
                  ObjTexCoord(v.texCoord.x, v.texCoord.y),
                  ObjVertNorm(v.normal.x, v.normal.y, v.normal.z))
  }

  /** vertBundleToVert loses nothing of the bundle: VertToBundle undoes it, so
      distinct bundles give distinct vertices. */
  lemma VertBundleRoundTrip(bundle: ObjVertBundle)
    ensures VertToBundle(VertBundleToVert(bundle)) == bundle
  {
  }

  lemma VertBundleInjective(b1: ObjVertBundle, b2: ObjVertBundle)
    requires VertBundleToVert(b1) == VertBundleToVert(b2)
    ensures b1 == b2
  {
    VertBundleRoundTrip(b1);
    VertBundleRoundTrip(b2);
  }

  /** The triangles (v0, vj, vj+1) for j = 1 .. k - 1 of a face with bundles vs. */
  function FanPrefix(vs: seq<ObjVertBundle>, k: nat): seq<Vertex>
    requires vs != [] && 1 <= k && (k == 1 || k < |vs|)
  {
    if k == 1 then []
    else FanPrefix(vs, k - 1) + [VertBundleToVert(vs[0]), VertBundleToVert(vs[k - 1]), VertBundleToVert(vs[k])]
  }

  /** The vertices the inner loop of objToBuffers pushes for one face: j runs
      from 1 while j < size - 1, so a face of fewer than three vertices gives none. */
  function Fan(vs: seq<ObjVertBundle>): seq<Vertex>
  {
    if |vs| <= 2 then [] else FanPrefix(vs, |vs| - 1)
  }

  /** Triangles of a face: max(0, n - 2). */
  function Triangles(n: nat): nat
  {
    if n <= 2 then 0 else n - 2
  }

  predicate NonEmptyFaces(faces: seq<ObjFace>)
  {
    forall k :: 0 <= k < |faces| ==> faces[k].vertices != []
  }

  /** The parts one after another. */
  function Concat<T>(parts: seq<seq<T>>): seq<T>
  {
    if parts == [] then [] else Concat(parts[..|parts| - 1]) + parts[|parts| - 1]
  }

  /** One more part extends the concatenation of a prefix by that part. */
  lemma ConcatStep<T>(parts: seq<seq<T>>, i: nat)
    requires i < |parts|
    ensures Concat(parts[..i + 1]) == Concat(parts[..i]) + parts[i]
  {
    assert parts[..i + 1][..i] == parts[..i];
  }

  lemma {:induction false} ConcatAppend<T>(a: seq<seq<T>>, b: seq<seq<T>>)
    ensures Concat(a + b) == Concat(a) + Concat(b)
    decreases |b|
  {
    if b == [] {
      assert a + b == a;
    } else {
      var init := b[..|b| - 1];
      assert (a + b)[..|a + b| - 1] == a + init;
      assert (a + b)[|a + b| - 1] == b[|b| - 1];
      ConcatAppend(a, init);
      assert Concat(a) + Concat(init) + b[|b| - 1] == Concat(a) + (Concat(init) + b[|b| - 1]);
    }
  }

  /** The fan of each face, in face order. */
  function Fans(faces: seq<ObjFace>): (fans: seq<seq<Vertex>>)
    ensures |fans| == |faces|
  {
    seq(|faces|, k requires 0 <= k < |faces| => Fan(faces[k].vertices))
  }

  /** The vertices objToBuffers collects: the fans of the faces, in face order. */
  function Triangulate(faces: seq<ObjFace>): seq<Vertex>
  {
    Concat(Fans(faces))
  }

  /** The number of triangles of all faces. */
  function TriangleCount(faces: seq<ObjFace>): nat
  {
    if faces == [] then 0 else TriangleCount(faces[..|faces| - 1]) + Triangles(|faces[|faces| - 1].vertices|)
  }

  /** A face of n vertices gives 3 * max(0, n - 2) vertices; triangle t is
      (v0, v(t+1), v(t+2)). */
  lemma {:induction false} FanTriangles(vs: seq<ObjVertBundle>)
    ensures |Fan(vs)| == 3 * Triangles(|vs|)
    ensures forall t :: 0 <= t < Triangles(|vs|) ==>
      Fan(vs)[3 * t..3 * t + 3] == [VertBundleToVert(vs[0]), VertBundleToVert(vs[t + 1]), VertBundleToVert(vs[t + 2])]
  {
    if |vs| > 2 {
      FanPrefixTriangles(vs, |vs| - 1);
    }
  }

  lemma {:induction false} FanPrefixTriangles(vs: seq<ObjVertBundle>, k: nat)
    requires 1 <= k < |vs|
    ensures |FanPrefix(vs, k)| == 3 * (k - 1)
    ensures forall t :: 0 <= t < k - 1 ==>
      FanPrefix(vs, k)[3 * t..3 * t + 3] == [VertBundleToVert(vs[0]), VertBundleToVert(vs[t + 1]), VertBundleToVert(vs[t + 2])]
  {
    if k > 1 {
      FanPrefixTriangles(vs, k - 1);
      var prev := FanPrefix(vs, k - 1);
      var last := [VertBundleToVert(vs[0]), VertBundleToVert(vs[k - 1]), VertBundleToVert(vs[k])];
      assert FanPrefix(vs, k) == prev + last;
      forall t | 0 <= t < k - 1
        ensures FanPrefix(vs, k)[3 * t..3 * t + 3]
             == [VertBundleToVert(vs[0]), VertBundleToVert(vs[t + 1]), VertBundleToVert(vs[t + 2])]
      {
        if t < k - 2 {
          assert (prev + last)[3 * t..3 * t + 3] == prev[3 * t..3 * t + 3];
        } else {
          assert (prev + last)[3 * t..3 * t + 3] == last;
        }
      }
    }
  }

  /** The faces give 3 * (the sum of max(0, n - 2)) vertices. */
  lemma {:induction false} TriangulateLength(faces: seq<ObjFace>)
    ensures |Triangulate(faces)| == 3 * TriangleCount(faces)
    decreases |faces|
  {
    if faces != [] {
      var init := faces[..|faces| - 1];
      var last := faces[|faces| - 1];
      TriangulateLength(init);
      FanTriangles(last.vertices);
      assert faces == init + [last];
      FansAppend(init, [last]);
      ConcatAppend(Fans(init), Fans([last]));
      assert Fans([last]) == [Fan(last.vertices)];
      assert Concat(Fans([last])) == Fan(last.vertices) by {
        assert Fans([last])[..0] == [];
      }
    }
  }

  lemma FansAppend(a: seq<ObjFace>, b: seq<ObjFace>)
    ensures Fans(a + b) == Fans(a) + Fans(b)
  {
    forall k | 0 <= k < |a + b| ensures Fans(a + b)[k] == (Fans(a) + Fans(b))[k] {
      if k < |a| {
        assert (a + b)[k] == a[k];
      } else {
        assert (a + b)[k] == b[k - |a|];
      }
    }
  }

  /** Faces are processed in input order: the buffer of a + b is the buffer of a
      followed by the buffer of b. */
  lemma TriangulateAppend(a: seq<ObjFace>, b: seq<ObjFace>)
    ensures Triangulate(a + b) == Triangulate(a) + Triangulate(b)
  {
    FansAppend(a, b);
    ConcatAppend(Fans(a), Fans(b));
  }

  /** A face of at most two vertices contributes nothing. */
  lemma DegenerateFace(vs: seq<ObjVertBundle>)
    requires |vs| <= 2
    ensures Fan(vs) == []
  {
  }

  /** One more round of the inner loop pushes triangle (v0, vj, vj+1). */
  lemma FanPrefixStep(done: seq<Vertex>, vs: seq<ObjVertBundle>, j: nat)
    requires 1 <= j < |vs| - 1
    ensures done + FanPrefix(vs, j) + [VertBundleToVert(vs[0])] + [VertBundleToVert(vs[j])]
              + [VertBundleToVert(vs[j + 1])]
         == done + FanPrefix(vs, j + 1)
  {
  }

  /** The identity index buffer: entry i is i. */
  ghost predicate IsIdentity(ib: seq<Short>)
  {
    forall i :: 0 <= i < |ib| ==> ib[i] == i
  }

  /** A face of parseOBJ (five bundles) gives three triangles. */
  lemma {:induction false} FullFacesTriangles(faces: seq<ObjFace>)
    requires FullFaces(faces)
    ensures NonEmptyFaces(faces)
    ensures TriangleCount(faces) == 3 * |faces|
    ensures |Triangulate(faces)| == 9 * |faces|
    decreases |faces|
  {
    if faces != [] {
      var init := faces[..|faces| - 1];
      assert FullFaces(init) by {
        forall k | 0 <= k < |init| ensures |init[k].vertices| == BundlesPerFace {
          assert init[k] == faces[k];
        }
      }
      FullFacesTriangles(init);
    }
    TriangulateLength(faces);
  }

  /** The loops of objToBuffers that push the fan of every face, in face
      order, onto the vertex list. Every face must be non-empty: size() - 1 is
      unsigned. */
  method CollectVertices(faces: seq<ObjFace>) returns (vertices: seq<Vertex>)
    requires NonEmptyFaces(faces)
    ensures vertices == Triangulate(faces)
  {
    vertices := [];
    var i := 0;
    while i < |faces|
      invariant 0 <= i <= |faces|
      invariant vertices == Concat(Fans(faces)[..i])
    {
      var face := faces[i];
      ghost var done := vertices;
      var j := 1;
      while j < |face.vertices| - 1
        invariant 1 <= j <= |face.vertices| - 1 || (j == 1 && |face.vertices| <= 2)
        invariant vertices == done + FanPrefix(face.vertices, j)
      {
        vertices := vertices + [VertBundleToVert(face.vertices[0])];
        vertices := vertices + [VertBundleToVert(face.vertices[j])];
        vertices := vertices + [VertBundleToVert(face.vertices[j + 1])];
        FanPrefixStep(done, face.vertices, j);
        j := j + 1;
      }
      assert vertices == done + Fan(face.vertices);
      ConcatStep(Fans(faces), i);
      i := i + 1;
    }
    assert Fans(faces)[..|faces|] == Fans(faces);
  }

  /** objToBuffers: the vertex buffer holds the fans of the faces in order, the
      index buffer numbers them 0 .. N - 1, and the sizes are in bytes. Every
      face must be non-empty (size() - 1 is unsigned), and N must be at most
      32768 so that the short loop counter reaches every vertex before it wraps. */
  method ObjToBuffers(faces: seq<ObjFace>) returns (vb: array<Vertex>, ib: array<Short>, vbSize: nat, ibSize: nat)
    requires NonEmptyFaces(faces)
    requires |Triangulate(faces)| <= ShortMax + 1
    ensures fresh(vb) && fresh(ib)
    ensures vb[..] == Triangulate(faces)
    ensures ib.Length == vb.Length && IsIdentity(ib[..])
    ensures vbSize == vb.Length * VertexSize && ibSize == ib.Length * ShortSize
  {
    var vertices := CollectVertices(faces);
    vb := new Vertex[|vertices|];
    ib := new Short[|vertices|];
    var n := 0;
    while n < |vertices|
      invariant 0 <= n <= |vertices|
      invariant forall k :: 0 <= k < n ==> vb[k] == vertices[k]
      invariant forall k :: 0 <= k < n ==> ib[k] == k
    {
      vb[n] := vertices[n];
      ib[n] := n;
      n := n + 1;
    }
    vbSize := |vertices| * VertexSize;
    ibSize := |vertices| * ShortSize;
  }
}
