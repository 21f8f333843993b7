/** parseOBJ: the records of the Wavefront OBJ subset this sample reads, and
    the line-by-line dispatch that fills them. Lines arrive already read;
    float coordinates stay opaque. */
module ObjParsing {
  import opened ObjText

  /** A float coordinate as `>>` leaves it: the token it was read from (its
      numeric value is not modelled), the literal 0.f, or no value because the
      line had no token left. */
  datatype Float = Number(text: string) | Zero | Unread

  datatype ObjVert = ObjVert(x: Float, y: Float, z: Float)
  datatype ObjTexCoord = ObjTexCoord(u: Float, v: Float)
  datatype ObjVertNorm = ObjVertNorm(x: Float, y: Float, z: Float)
  datatype ObjVertBundle = ObjVertBundle(vertex: ObjVert, texCoord: ObjTexCoord, normal: ObjVertNorm)
  datatype ObjFace = ObjFace(vertices: seq<ObjVertBundle>)

  /** Why a file is rejected. MissingSegment: a bundle with fewer than three
      '/'-separated fields (seglist[k] out of range). BadNumber: a field stoi
      throws on. IndexOutOfRange: a 1-based index naming no entry of its list
      (the vector index is unchecked). */
  datatype ObjError = MissingSegment | BadNumber | IndexOutOfRange

  datatype Result<T> = Ok(value: T) | Err(error: ObjError)

  /** The lists parseOBJ grows while it reads. */
  datatype ObjState = ObjState(vertices: seq<ObjVert>, texes: seq<ObjTexCoord>,
                               normals: seq<ObjVertNorm>, faces: seq<ObjFace>)

  const EmptyState := ObjState([], [], [], [])

  /** The number of bundles an `f` line reads, whatever the line holds. */
  const BundlesPerFace: nat := 5

  /** Coordinate k of a `v`, `vt` or `vn` line, from the words after the prefix. */
  function Coord(args: seq<string>, k: nat): (f: Float)
    ensures f.Unread? <==> k >= |args|
  {
    if k < |args| then Number(args[k]) else Unread
  }

  /** Field k of a bundle, as a 0-based index: stoi(seglist[k]) - 1. */
  function Field(segs: seq<string>, k: nat): (r: Result<int>)
    ensures r.Ok? <==> k < |segs| && Stoi(segs[k]).Some?
    ensures r.Ok? ==> r.value == Stoi(segs[k]).value - 1 && r.value >= -1
    ensures r.Err? ==> r.error == (if k < |segs| then BadNumber else MissingSegment)
  {
    if k >= |segs| then Err(MissingSegment)
    else match Stoi(segs[k])
      case None => Err(BadNumber)
      case Some(v) => Ok(v - 1)
  }

  /** One bundle token `a/b/c`: vertices[a-1], texes[b-1], normals[c-1], the
      fields converted in order a, b, c and then looked up in that order. */
  function ResolveBundle(st: ObjState, token: string): (r: Result<ObjVertBundle>)
    ensures r.Ok? ==> |Segments(token)| >= 3
    ensures r.Ok? ==> r.value.vertex in st.vertices && r.value.texCoord in st.texes
                      && r.value.normal in st.normals
  {
    var segs := Segments(token);
    match Field(segs, 0)
    case Err(e) => Err(e)
    case Ok(vertIdx) =>
      match Field(segs, 1)
      case Err(e) => Err(e)
      case Ok(texIdx) =>
        match Field(segs, 2)
        case Err(e) => Err(e)
        case Ok(normIdx) =>
          if !(0 <= vertIdx < |st.vertices|) || !(0 <= texIdx < |st.texes|)
             || !(0 <= normIdx < |st.normals|)
          then Err(IndexOutOfRange)
          else Ok(ObjVertBundle(st.vertices[vertIdx], st.texes[texIdx], st.normals[normIdx]))
  }

  /** The bundle string of iteration t of the face loop: word t after the
      prefix; once the words run out `>>` leaves the string as it was, so the
      last word repeats (and an `f` line with no word leaves it empty). */
  function BundleToken(args: seq<string>, t: nat): (s: string)
    ensures t < |args| ==> s == args[t]
    ensures t >= |args| && args != [] ==> s == args[|args| - 1]
    ensures args == [] ==> s == ""
  {
    if t < |args| then args[t] else if args == [] then "" else args[|args| - 1]
  }

  /** One `iss >> vertBundleString` in iteration t of the face loop: word t
      after the prefix while the line has one; otherwise the extraction fails
      and the string keeps its value s. */
  function ExtractWord(args: seq<string>, s: string, t: nat): string
  {
    if t < |args| then args[t] else s
  }

  /** vertBundleString after the extractions of iterations 0 .. t, starting
      from the empty string it is declared with. */
  function StringAfter(args: seq<string>, t: nat): string
    decreases t
  {
    if t == 0 then ExtractWord(args, "", 0) else ExtractWord(args, StringAfter(args, t - 1), t)
  }

  /** The string the face loop carries from one extraction to the next is, in
      iteration t, the bundle string BundleToken names. */
  lemma {:induction false} StringAfterIsBundleToken(args: seq<string>, t: nat)
    ensures StringAfter(args, t) == BundleToken(args, t)
    decreases t
  {
    if t > 0 {
      StringAfterIsBundleToken(args, t - 1);
    }
  }

  /** Iterations t .. 4 of the face loop: the bundles in token order, or the
      first error. */
  function ReadBundles(st: ObjState, args: seq<string>, t: nat): (r: Result<seq<ObjVertBundle>>)
    requires t <= BundlesPerFace
    ensures r.Ok? ==> |r.value| == BundlesPerFace - t
    ensures r.Ok? ==> forall k :: 0 <= k < |r.value| ==>
      ResolveBundle(st, BundleToken(args, t + k)) == Ok(r.value[k])
    decreases BundlesPerFace - t
  {
    if t == BundlesPerFace then Ok([])
    else match ResolveBundle(st, BundleToken(args, t))
      case Err(e) => Err(e)
      case Ok(b) =>
        match ReadBundles(st, args, t + 1)
        case Err(e) => Err(e)
        case Ok(bs) => Ok([b] + bs)
  }

  /** The face loop fails exactly when one of its bundle strings does not resolve. */
  lemma {:induction false} ReadBundlesError(st: ObjState, args: seq<string>, t: nat)
    requires t <= BundlesPerFace
    ensures ReadBundles(st, args, t).Err? <==>
      exists k :: t <= k < BundlesPerFace && ResolveBundle(st, BundleToken(args, k)).Err?
    decreases BundlesPerFace - t
  {
    if t < BundlesPerFace {
      ReadBundlesError(st, args, t + 1);
      if ResolveBundle(st, BundleToken(args, t)).Err? {
        assert ReadBundles(st, args, t).Err?;
      } else {
        assert ReadBundles(st, args, t).Err? <==> ReadBundles(st, args, t + 1).Err?;
        assert (exists k :: t <= k < BundlesPerFace && ResolveBundle(st, BundleToken(args, k)).Err?)
           <==> (exists k :: t + 1 <= k < BundlesPerFace && ResolveBundle(st, BundleToken(args, k)).Err?);
      }
    }
  }

  /** The prefix word of a line, "" for a blank line. */
  function Prefix(line: string): string
  {
    var ws := Words(line);
    if ws == [] then "" else ws[0]
  }

  /** The words after the prefix. */
  function Args(line: string): seq<string>
  {
    var ws := Words(line);
    if ws == [] then [] else ws[1..]
  }

  predicate IsComment(line: string)
  {
    |line| > 0 && line[0] == '#'
  }

  /** One iteration of the read loop of parseOBJ. */
  function ParseLine(st: ObjState, line: string): Result<ObjState>
  {
    if IsComment(line) then Ok(st)
    else
      var prefix, args := Prefix(line), Args(line);
      if prefix == "v" then
        Ok(st.(vertices := st.vertices + [ObjVert(Coord(args, 0), Coord(args, 1), Coord(args, 2))]))
      else if prefix == "vt" then
        Ok(st.(texes := st.texes + [ObjTexCoord(Coord(args, 0), Coord(args, 1))]))
      else if prefix == "vn" then
        Ok(st.(normals := st.normals + [ObjVertNorm(Coord(args, 0), Coord(args, 1), Coord(args, 2))]))
      else if prefix == "f" then
        match ReadBundles(st, args, 0)
        case Err(e) => Err(e)
        case Ok(bundles) => Ok(st.(faces := st.faces + [ObjFace(bundles)]))
      else Ok(st)
  }

  /** The read loop over lines, from state st: a left fold that stops at the first error. */
  function ParseLines(st: ObjState, lines: seq<string>): Result<ObjState>
    decreases |lines|
  {
    if lines == [] then Ok(st)
    else match ParseLine(st, lines[0])
      case Err(e) => Err(e)
      case Ok(st') => ParseLines(st', lines[1..])
  }

  /** The faces of a parse, or its error. */
  function FacesOf(r: Result<ObjState>): Result<seq<ObjFace>>
  {
    match r
    case Err(e) => Err(e)
    case Ok(st) => Ok(st.faces)
  }

  /** parseOBJ over the lines of a file: the faces it returns. */
  method ParseObj(lines: seq<string>) returns (r: Result<seq<ObjFace>>)
    ensures r == FacesOf(ParseLines(EmptyState, lines))
  {
    var st := EmptyState;
    var n := 0;
    while n < |lines|
      invariant 0 <= n <= |lines|
      invariant ParseLines(EmptyState, lines) == ParseLines(st, lines[n..])
    {
      assert lines[n..][1..] == lines[n + 1..];
      var next := ParseLine(st, lines[n]);
      if next.Err? {
        return Err(next.error);
      }
      st := next.value;
      n := n + 1;
    }
    return Ok(st.faces);
  }

  // ---------------------------------------------------------------------
  // Properties of the read loop

  /** st' extends st: every list of st is a prefix of the same list of st'. */
  predicate Extends(st: ObjState, st': ObjState)
  {
    && st.vertices <= st'.vertices && st.texes <= st'.texes
    && st.normals <= st'.normals && st.faces <= st'.faces
  }

  /** A line whose first character is '#' is skipped. */
  lemma CommentLine(st: ObjState, line: string)
    requires IsComment(line)
    ensures ParseLine(st, line) == Ok(st)
  {
  }

  /** A line with any other prefix, a blank line included, adds nothing. */
  lemma UnknownLine(st: ObjState, line: string)
    requires Prefix(line) !in {"v", "vt", "vn", "f"}
    ensures ParseLine(st, line) == Ok(st)
  {
  }

  /** A `v` line appends one vertex, read from the three words after the
      prefix; the other lists are unchanged. */
  lemma VertexLine(st: ObjState, line: string)
    requires !IsComment(line) && Prefix(line) == "v"
    ensures ParseLine(st, line).Ok?
    ensures var st' := ParseLine(st, line).value;
      && st'.vertices == st.vertices + [ObjVert(Coord(Args(line), 0), Coord(Args(line), 1), Coord(Args(line), 2))]
      && st'.texes == st.texes && st'.normals == st.normals && st'.faces == st.faces
  {
  }

  /** A `vt` line appends one texture coordinate; the other lists are unchanged. */
  lemma TexCoordLine(st: ObjState, line: string)
    requires !IsComment(line) && Prefix(line) == "vt"
    ensures ParseLine(st, line).Ok?
    ensures var st' := ParseLine(st, line).value;
      && st'.texes == st.texes + [ObjTexCoord(Coord(Args(line), 0), Coord(Args(line), 1))]
      && st'.vertices == st.vertices && st'.normals == st.normals && st'.faces == st.faces
  {
  }

  /** A `vn` line appends one normal; the other lists are unchanged. */
  lemma NormalLine(st: ObjState, line: string)
    requires !IsComment(line) && Prefix(line) == "vn"
    ensures ParseLine(st, line).Ok?
    ensures var st' := ParseLine(st, line).value;
      && st'.normals == st.normals + [ObjVertNorm(Coord(Args(line), 0), Coord(Args(line), 1), Coord(Args(line), 2))]
      && st'.vertices == st.vertices && st'.texes == st.texes && st'.faces == st.faces
  {
  }

  /** An `f` line that parses appends one face of exactly five bundles, bundle
      k resolved from the k-th bundle string; the other lists are unchanged. */
  lemma FaceLine(st: ObjState, line: string)
    requires !IsComment(line) && Prefix(line) == "f" && ParseLine(st, line).Ok?
    ensures var st' := ParseLine(st, line).value;
      && |st'.faces| == |st.faces| + 1 && st'.faces[..|st.faces|] == st.faces
      && |st'.faces[|st.faces|].vertices| == BundlesPerFace
      && (forall k :: 0 <= k < BundlesPerFace ==>
            ResolveBundle(st, BundleToken(Args(line), k)) == Ok(st'.faces[|st.faces|].vertices[k]))
      && st'.vertices == st.vertices && st'.texes == st.texes && st'.normals == st.normals
  {
  }

  /** An `f` line fails exactly when one of its five bundle strings does not resolve. */
  lemma FaceLineError(st: ObjState, line: string)
    requires !IsComment(line) && Prefix(line) == "f"
    ensures ParseLine(st, line).Err? <==>
      exists k :: 0 <= k < BundlesPerFace && ResolveBundle(st, BundleToken(Args(line), k)).Err?
  {
    ReadBundlesError(st, Args(line), 0);
  }

  /** A face line with fewer than five bundles repeats its last one. */
  lemma FaceRepeatsLast(st: ObjState, line: string)
    requires !IsComment(line) && Prefix(line) == "f" && ParseLine(st, line).Ok?
    requires 1 <= |Args(line)| < BundlesPerFace
    ensures var face := ParseLine(st, line).value.faces[|st.faces|];
      forall k :: |Args(line)| <= k < BundlesPerFace ==> face.vertices[k] == face.vertices[|Args(line)| - 1]
  {
    FaceLine(st, line);
  }

  /** Every line leaves the earlier entries of every list as they were. */
  lemma ParseLineExtends(st: ObjState, line: string)
    requires ParseLine(st, line).Ok?
    ensures Extends(st, ParseLine(st, line).value)
  {
  }

  /** The read loop only appends: earlier entries are never changed or removed. */
  lemma {:induction false} ParseLinesExtends(st: ObjState, lines: seq<string>)
    requires ParseLines(st, lines).Ok?
    ensures Extends(st, ParseLines(st, lines).value)
    decreases |lines|
  {
    if lines != [] {
      ParseLineExtends(st, lines[0]);
      var st' := ParseLine(st, lines[0]).value;
      ParseLinesExtends(st', lines[1..]);
    }
  }

  /** Every face holds exactly five bundles. */
  predicate FullFaces(faces: seq<ObjFace>)
  {
    forall k :: 0 <= k < |faces| ==> |faces[k].vertices| == BundlesPerFace
  }

  lemma ParseLineFullFaces(st: ObjState, line: string)
    requires FullFaces(st.faces) && ParseLine(st, line).Ok?
    ensures FullFaces(ParseLine(st, line).value.faces)
  {
    if !IsComment(line) && Prefix(line) == "f" {
      FaceLine(st, line);
      var faces := ParseLine(st, line).value.faces;
      forall k | 0 <= k < |faces| ensures |faces[k].vertices| == BundlesPerFace {
        if k < |st.faces| {
          assert faces[k] == faces[..|st.faces|][k];
        }
      }
    }
  }

  /** Every face parseOBJ returns has five bundles, whatever the file. */
  lemma {:induction false} ParseLinesFullFaces(st: ObjState, lines: seq<string>)
    requires FullFaces(st.faces) && ParseLines(st, lines).Ok?
    ensures FullFaces(ParseLines(st, lines).value.faces)
    decreases |lines|
  {
    if lines != [] {
      ParseLineFullFaces(st, lines[0]);
      ParseLinesFullFaces(ParseLine(st, lines[0]).value, lines[1..]);
    }
  }

  /** Reading a + b is reading a, then reading b from where a left off;
      an error in a stops the read before b. */
  lemma {:induction false} ParseLinesAppend(st: ObjState, a: seq<string>, b: seq<string>)
    ensures ParseLines(st, a + b) ==
      (match ParseLines(st, a)
       case Err(e) => Err(e)
       case Ok(st') => ParseLines(st', b))
    decreases |a|
  {
    if a == [] {
      assert a + b == b;
    } else {
      assert (a + b)[0] == a[0];
      assert (a + b)[1..] == a[1..] + b;
      match ParseLine(st, a[0])
      case Err(e) =>
      case Ok(st') => ParseLinesAppend(st', a[1..], b);
    }
  }

  /** Splitting decimal numbers joined with '/' gives the numbers back:
      field k of the bundle is ns[k] - 1. */
  lemma WrittenFields(ns: seq<nat>)
    requires forall k :: 0 <= k < |ns| ==> ns[k] <= IntMax
    ensures |Segments(JoinSlash(DecimalAll(ns)))| == |ns|
    ensures forall k :: 0 <= k < |ns| ==> Field(Segments(JoinSlash(DecimalAll(ns))), k) == Ok(ns[k] as int - 1)
  {
    var segs := DecimalAll(ns);
    forall k | 0 <= k < |ns| ensures '/' !in segs[k] && Stoi(segs[k]) == Some(ns[k]) {
      DecimalIsPlain(ns[k]);
      StoiDecimal(ns[k]);
    }
    SegmentsJoinSlash(segs);
  }

  /** The decimal strings of a list of numbers. */
  function DecimalAll(ns: seq<nat>): (segs: seq<string>)
    ensures |segs| == |ns|
  {
    seq(|ns|, k requires 0 <= k < |ns| => Decimal(ns[k]))
  }

  /** A bundle whose three fields are the 0-based indices i, j, k resolves
      to the entries at those indices when all are in range, and fails otherwise. */
  lemma ResolveFields(st: ObjState, token: string, i: int, j: int, k: int)
    requires Field(Segments(token), 0) == Ok(i) && Field(Segments(token), 1) == Ok(j)
    requires Field(Segments(token), 2) == Ok(k)
    ensures 0 <= i < |st.vertices| && 0 <= j < |st.texes| && 0 <= k < |st.normals| ==>
      ResolveBundle(st, token) == Ok(ObjVertBundle(st.vertices[i], st.texes[j], st.normals[k]))
    ensures !(0 <= i < |st.vertices| && 0 <= j < |st.texes| && 0 <= k < |st.normals|) ==>
      ResolveBundle(st, token) == Err(IndexOutOfRange)
  {
  }

  /** A bundle string `a/b/c` written with in-range 1-based decimal indices
      resolves to vertices[a-1], texes[b-1] and normals[c-1]. */
  lemma ResolveWrittenBundle(st: ObjState, a: nat, b: nat, c: nat)
    requires 1 <= a <= |st.vertices| && 1 <= b <= |st.texes| && 1 <= c <= |st.normals|
    requires a <= IntMax && b <= IntMax && c <= IntMax
    ensures ResolveBundle(st, JoinSlash(DecimalAll([a, b, c])))
         == Ok(ObjVertBundle(st.vertices[a - 1], st.texes[b - 1], st.normals[c - 1]))
  {
    WrittenFields([a, b, c]);
    ResolveFields(st, JoinSlash(DecimalAll([a, b, c])), a - 1, b - 1, c - 1);
  }

  /** An index of 0 names no entry: 1-based indices start at 1. */
  lemma ResolveZeroIndex(st: ObjState, b: nat, c: nat)
    requires b <= IntMax && c <= IntMax
    ensures ResolveBundle(st, JoinSlash(DecimalAll([0, b, c]))) == Err(IndexOutOfRange)
  {
    WrittenFields([0, b, c]);
    ResolveFields(st, JoinSlash(DecimalAll([0, b, c])), -1, b - 1, c - 1);
  }

  /** A bundle with only two fields is rejected. */
  lemma ResolveTwoFields(st: ObjState, a: nat, b: nat)
    requires a <= IntMax && b <= IntMax
    ensures ResolveBundle(st, JoinSlash(DecimalAll([a, b]))) == Err(MissingSegment)
  {
    WrittenFields([a, b]);
  }

  /** A bundle string with an empty vertex field, such as "/2/3", is rejected
      by stoi. */
  lemma ResolveEmptyField(st: ObjState, b: nat, c: nat)
    ensures ResolveBundle(st, JoinSlash(["", Decimal(b), Decimal(c)])) == Err(BadNumber)
  {
    DecimalIsPlain(b);
    DecimalIsPlain(c);
    SegmentsJoinSlash(["", Decimal(b), Decimal(c)]);
    StoiEmpty();
  }

  /** The bundle string a/b/c. */
  function BundleText(a: nat, b: nat, c: nat): string
  {
    JoinSlash(DecimalAll([a, b, c]))
  }

  lemma BundleTextPlain(a: nat, b: nat, c: nat)
    ensures BundleText(a, b, c) != [] && NoSpace(BundleText(a, b, c))
  {
    DecimalIsPlain(a);
    DecimalIsPlain(b);
    DecimalIsPlain(c);
    JoinSlashPlain(DecimalAll([a, b, c]));
  }

  /** A line written as a prefix word followed by argument words reads back as
      that prefix and those arguments. */
  lemma WrittenLine(prefix: string, args: seq<string>)
    requires prefix != [] && NoSpace(prefix)
    requires forall k :: 0 <= k < |args| ==> args[k] != [] && NoSpace(args[k])
    ensures Prefix(Unwords([prefix] + args)) == prefix && Args(Unwords([prefix] + args)) == args
  {
    WordsUnwords([prefix] + args);
    assert ([prefix] + args)[1..] == args;
  }

  /** A `v` line written with three coordinate words appends the vertex of
      those words, and nothing else changes. */
  lemma WrittenVertexLine(st: ObjState, x: string, y: string, z: string)
    requires x != [] && NoSpace(x) && y != [] && NoSpace(y) && z != [] && NoSpace(z)
    ensures ParseLine(st, Unwords(["v", x, y, z]))
         == Ok(st.(vertices := st.vertices + [ObjVert(Number(x), Number(y), Number(z))]))
  {
    assert ["v"] + [x, y, z] == ["v", x, y, z];
    WrittenLine("v", [x, y, z]);
    UnwordsStart(["v", x, y, z]);
  }

  /** A `v` line with a single coordinate word leaves y and z unread. */
  lemma ShortVertexLine(st: ObjState, x: string)
    requires x != [] && NoSpace(x)
    ensures ParseLine(st, Unwords(["v", x]))
         == Ok(st.(vertices := st.vertices + [ObjVert(Number(x), Unread, Unread)]))
  {
    assert ["v"] + [x] == ["v", x];
    WrittenLine("v", [x]);
    UnwordsStart(["v", x]);
  }

  /** A `vt` line written with two coordinate words appends the texture
      coordinate of those words. */
  lemma WrittenTexCoordLine(st: ObjState, u: string, v: string)
    requires u != [] && NoSpace(u) && v != [] && NoSpace(v)
    ensures ParseLine(st, Unwords(["vt", u, v]))
         == Ok(st.(texes := st.texes + [ObjTexCoord(Number(u), Number(v))]))
  {
    assert ["vt"] + [u, v] == ["vt", u, v];
    WrittenLine("vt", [u, v]);
    UnwordsStart(["vt", u, v]);
  }

  /** A `vn` line written with three coordinate words appends the normal of
      those words. */
  lemma WrittenNormalLine(st: ObjState, x: string, y: string, z: string)
    requires x != [] && NoSpace(x) && y != [] && NoSpace(y) && z != [] && NoSpace(z)
    ensures ParseLine(st, Unwords(["vn", x, y, z]))
         == Ok(st.(normals := st.normals + [ObjVertNorm(Number(x), Number(y), Number(z))]))
  {
    assert ["vn"] + [x, y, z] == ["vn", x, y, z];
    WrittenLine("vn", [x, y, z]);
    UnwordsStart(["vn", x, y, z]);
  }

  /** An `f` line without bundles reads the empty string, which has no
      segment: seglist[0] names nothing. */
  lemma EmptyFaceLine(st: ObjState)
    ensures ParseLine(st, "f") == Err(MissingSegment)
  {
    assert ["f"] + [] == ["f"];
    WrittenLine("f", []);
    SegmentsOfEmpty();
  }

  /** When the five bundle strings of a face line resolve, the face loop
      yields exactly those bundles. */
  lemma ReadResolvedBundles(st: ObjState, args: seq<string>, want: seq<ObjVertBundle>)
    requires |want| == BundlesPerFace
    requires forall k :: 0 <= k < BundlesPerFace ==> ResolveBundle(st, BundleToken(args, k)) == Ok(want[k])
    ensures ReadBundles(st, args, 0) == Ok(want)
  {
    ReadBundlesError(st, args, 0);
    assert ReadBundles(st, args, 0).value == want;
  }

  /** The face a face line written from five in-range index triples appends:
      bundle k is vertices[a[k]-1], texes[b[k]-1], normals[c[k]-1]. */
  lemma ParseWrittenFace(st: ObjState, a: seq<nat>, b: seq<nat>, c: seq<nat>)
    requires |a| == BundlesPerFace && |b| == BundlesPerFace && |c| == BundlesPerFace
    requires forall k :: 0 <= k < BundlesPerFace ==>
      1 <= a[k] <= |st.vertices| && 1 <= b[k] <= |st.texes| && 1 <= c[k] <= |st.normals|
      && a[k] <= IntMax && b[k] <= IntMax && c[k] <= IntMax
    ensures var args := seq(BundlesPerFace, k requires 0 <= k < BundlesPerFace => BundleText(a[k], b[k], c[k]));
      ParseLine(st, Unwords(["f"] + args))
      == Ok(st.(faces := st.faces + [ObjFace(seq(BundlesPerFace, k requires 0 <= k < BundlesPerFace =>
               ObjVertBundle(st.vertices[a[k] - 1], st.texes[b[k] - 1], st.normals[c[k] - 1])))]))
  {
    var args := seq(BundlesPerFace, k requires 0 <= k < BundlesPerFace => BundleText(a[k], b[k], c[k]));
    var want := seq(BundlesPerFace, k requires 0 <= k < BundlesPerFace =>
      ObjVertBundle(st.vertices[a[k] - 1], st.texes[b[k] - 1], st.normals[c[k] - 1]));
    var line := Unwords(["f"] + args);
    forall k | 0 <= k < BundlesPerFace
      ensures args[k] != [] && NoSpace(args[k])
      ensures ResolveBundle(st, BundleToken(args, k)) == Ok(want[k])
    {
      BundleTextPlain(a[k], b[k], c[k]);
      ResolveWrittenBundle(st, a[k], b[k], c[k]);
    }
    WrittenLine("f", args);
    UnwordsStart(["f"] + args);
    ReadResolvedBundles(st, args, want);
    FaceLineOk(st, line, want);
  }

  /** An `f` line whose face loop yields `bundles` appends the face of them. */
  lemma FaceLineOk(st: ObjState, line: string, bundles: seq<ObjVertBundle>)
    requires !IsComment(line) && Prefix(line) == "f" && ReadBundles(st, Args(line), 0) == Ok(bundles)
    ensures ParseLine(st, line) == Ok(st.(faces := st.faces + [ObjFace(bundles)]))
  {
  }
}
