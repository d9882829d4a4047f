/**
 * The Quake BSP version 29 reader of src/bsp/mod.rs. The level is read from an in-memory
 * cursor: a seek never fails, and a read past the end fails unless it reads nothing.
 *
 * Every record kind has a fixed-position layout function (`FaceAt`, `PlaneAt`, ...) saying
 * which bytes hold which field; the readers decode the fields one after another as the
 * source does, and their contracts tie the sequential decoding to that layout.
 */
module Bsp {
  import opened Common
  import opened Parse

  const VERSION: int := 29
  /** Fifteen (offset, size) pairs follow the version. */
  const LUMP_COUNT: nat := 15
  const HEADER_SIZE: nat := 4 + 8 * 15

  const TEXTURE_INFO_SIZE: nat := 40
  const VERTEX_SIZE: nat := 12
  const EDGE_SIZE: nat := 4
  const LEDGE_SIZE: nat := 4
  const PLANE_SIZE: nat := 20
  const FACE_SIZE: nat := 20
  const MODEL_SIZE: nat := 64

  // Lump positions in the header, in file order.
  const ENTITIES: nat := 0
  const PLANES: nat := 1
  const WALL_TEXTURES: nat := 2
  const VERTICES: nat := 3
  const VISIBILITY: nat := 4
  const NODES: nat := 5
  const TEXTURE_INFO: nat := 6
  const FACES: nat := 7
  const LIGHT_MAPS: nat := 8
  const CLIP_NODES: nat := 9
  const LEAVES: nat := 10
  const FACE_LIST: nat := 11
  const EDGES: nat := 12
  const LEDGES: nat := 13
  const MODELS: nat := 14

  datatype Vec3 = Vec3(x: Float, y: Float, z: Float)

  /** A `Range<usize>`: `start..end`. */
  datatype Range = Range(start: u64, end: u64)

  datatype Lump = Lump(offset: i32, size: i32)

  datatype Face = Face(
    plane: u16,
    front: bool,
    ledges: Range,
    textureInfo: u16,
    typeLight: byte,
    baseLight: byte,
    light: (byte, byte),
    lightMap: i32)

  datatype Plane = Plane(normal: Vec3, distance: Float, kind: i32)

  datatype Edge = Edge(first: Vec3, second: Vec3)

  datatype TextureInfo = TextureInfo(
    vectorS: Vec3, distS: Float, vectorT: Vec3, distT: Float, texture: u32, animated: bool)

  datatype Picture = Picture(width: u32, height: u32, data: seq<byte>)

  datatype Texture = Texture(id: i32, name: seq<byte>, width: u32, height: u32, pictures: seq<Picture>)

  datatype Model = Model(boundMin: Vec3, boundMax: Vec3, origin: Vec3, faces: Range)

  datatype BspFile = BspFile(
    lightMaps: seq<byte>,
    textures: seq<Texture>,
    textureInfo: seq<TextureInfo>,
    edges: seq<Edge>,
    ledges: seq<i32>,
    planes: seq<Plane>,
    faces: seq<Face>,
    models: seq<Model>)

  // ---------------------------------------------------------------------------------------
  // Fixed-position layouts

  function Vec3At(data: seq<byte>, pos: nat): Vec3
    requires pos + 12 <= |data|
  {
    Vec3(Float(U32At(data, pos)), Float(U32At(data, pos + 4)), Float(U32At(data, pos + 8)))
  }

  /** `a as usize + b as usize` on a 64-bit target, wrapping in a release build. */
  function RangeOf(start: u64, count: u64): Range
  {
    Range(start, WrapU64(start + count))
  }

  function FaceAt(data: seq<byte>, pos: nat): Face
    requires pos + 20 <= |data|
  {
    Face(
      U16At(data, pos),
      U16At(data, pos + 2) == 0,
      RangeOf(AsU64(I32At(data, pos + 4)), U16At(data, pos + 8)),
      U16At(data, pos + 10),
      data[pos + 12],
      data[pos + 13],
      (data[pos + 14], data[pos + 15]),
      I32At(data, pos + 16))
  }

  function PlaneAt(data: seq<byte>, pos: nat): Plane
    requires pos + 20 <= |data|
  {
    Plane(Vec3At(data, pos), Float(U32At(data, pos + 12)), I32At(data, pos + 16))
  }

  function TextureInfoAt(data: seq<byte>, pos: nat): TextureInfo
    requires pos + 40 <= |data|
  {
    TextureInfo(
      Vec3At(data, pos), Float(U32At(data, pos + 12)),
      Vec3At(data, pos + 16), Float(U32At(data, pos + 28)),
      U32At(data, pos + 32), U32At(data, pos + 36) != 0)
  }

  /** Bytes 36..56 hold four node ids and a leaf count, which are read and dropped. */
  function ModelAt(data: seq<byte>, pos: nat): Model
    requires pos + 64 <= |data|
  {
    Model(
      Vec3At(data, pos), Vec3At(data, pos + 12), Vec3At(data, pos + 24),
      RangeOf(AsU64(I32At(data, pos + 56)), AsU64(I32At(data, pos + 60))))
  }

  /**
   * The k-th edge record from `pos`: each u16 vertex index is read and then looked up, so
   * an index out of range panics before the next read is attempted.
   */
  function EdgeEntry(data: seq<byte>, pos: nat, vertices: seq<Vec3>, k: nat): Result<Edge>
  {
    var p := pos + 4 * k;
    if p + 2 > |data| then Err(Io)
    else if U16At(data, p) >= |vertices| then Err(Panic)
    else if p + 4 > |data| then Err(Io)
    else if U16At(data, p + 2) >= |vertices| then Err(Panic)
    else Ok(Edge(vertices[U16At(data, p)], vertices[U16At(data, p + 2)]))
  }

  /** `n` records of `size` bytes from `pos` are all there (nothing is needed for none). */
  predicate Fits(data: seq<byte>, pos: nat, size: nat, n: nat)
  {
    n == 0 || pos + size * n <= |data|
  }

  // ---------------------------------------------------------------------------------------
  // One record at the cursor, field by field in source order

  method ReadVec3(r: Reader) returns (res: Result<(Vec3, Reader)>)
    ensures Has(r, 12) ==> res == Ok((Vec3At(r.data, r.pos), Reader(r.data, r.pos + 12)))
    ensures !Has(r, 12) ==> res == Err(Io)
  {
    var x :- ReadFloat(r);
    var y :- ReadFloat(x.1);
    var z :- ReadFloat(y.1);
    return Ok((Vec3(x.0, y.0, z.0), z.1));
  }

  /** The struct literal of `Face::parse`: its fields are read in declaration order. */
  method ReadFace(r: Reader) returns (res: Result<(Face, Reader)>)
    ensures Has(r, 20) ==> res == Ok((FaceAt(r.data, r.pos), Reader(r.data, r.pos + 20)))
    ensures !Has(r, 20) ==> res == Err(Io)
  {
    var plane :- ReadUShort(r);
    var side :- ReadUShort(plane.1);
    var start :- ReadLong(side.1);
    var count :- ReadUShort(start.1);
    var info :- ReadUShort(count.1);
    var typeLight :- ReadUChar(info.1);
    var baseLight :- ReadUChar(typeLight.1);
    var light0 :- ReadUChar(baseLight.1);
    var light1 :- ReadUChar(light0.1);
    var lightMap :- ReadLong(light1.1);
    var face := Face(plane.0, side.0 == 0, RangeOf(AsU64(start.0), count.0), info.0,
                     typeLight.0, baseLight.0, (light0.0, light1.0), lightMap.0);
    return Ok((face, lightMap.1));
  }

  method ReadPlane(r: Reader) returns (res: Result<(Plane, Reader)>)
    ensures Has(r, 20) ==> res == Ok((PlaneAt(r.data, r.pos), Reader(r.data, r.pos + 20)))
    ensures !Has(r, 20) ==> res == Err(Io)
  {
    var normal :- ReadVec3(r);
    var distance :- ReadFloat(normal.1);
    var kind :- ReadLong(distance.1);
    return Ok((Plane(normal.0, distance.0, kind.0), kind.1));
  }

  method ReadTextureInfo(r: Reader) returns (res: Result<(TextureInfo, Reader)>)
    ensures Has(r, 40) ==> res == Ok((TextureInfoAt(r.data, r.pos), Reader(r.data, r.pos + 40)))
    ensures !Has(r, 40) ==> res == Err(Io)
  {
    var vectorS :- ReadVec3(r);
    var distS :- ReadFloat(vectorS.1);
    var vectorT :- ReadVec3(distS.1);
    var distT :- ReadFloat(vectorT.1);
    var texture :- ReadULong(distT.1);
    var animated :- ReadULong(texture.1);
    var info := TextureInfo(vectorS.0, distS.0, vectorT.0, distT.0, texture.0, animated.0 != 0);
    return Ok((info, animated.1));
  }

  method ReadModel(r: Reader) returns (res: Result<(Model, Reader)>)
    ensures Has(r, 64) ==> res == Ok((ModelAt(r.data, r.pos), Reader(r.data, r.pos + 64)))
    ensures !Has(r, 64) ==> res == Err(Io)
  {
    var boundMin :- ReadVec3(r);
    var boundMax :- ReadVec3(boundMin.1);
    var origin :- ReadVec3(boundMax.1);
    var faces :- ReadModelFaces(origin.1);
    return Ok((Model(boundMin.0, boundMax.0, origin.0, faces.0), faces.1));
  }

  /** The tail of a model record: four node ids and a leaf count, read and dropped, then the face range. */
  method ReadModelFaces(r: Reader) returns (res: Result<(Range, Reader)>)
    ensures Has(r, 28) ==> res == Ok((RangeOf(AsU64(I32At(r.data, r.pos + 20)), AsU64(I32At(r.data, r.pos + 24))),
                                      Reader(r.data, r.pos + 28)))
    ensures !Has(r, 28) ==> res == Err(Io)
  {
    var node0 :- ReadLong(r);
    var node1 :- ReadLong(node0.1);
    var node2 :- ReadLong(node1.1);
    var node3 :- ReadLong(node2.1);
    var leafs :- ReadLong(node3.1);
    var faceStart :- ReadLong(leafs.1);
    var faceNumber :- ReadLong(faceStart.1);
    return Ok((RangeOf(AsU64(faceStart.0), AsU64(faceNumber.0)), faceNumber.1));
  }
  // ---------------------------------------------------------------------------------------
  // The record loops: `count` records read back to back from the cursor

  /** `items` are the texture-info records laid out back to back from byte `pos`. */
  predicate TextureInfosFrom(data: seq<byte>, pos: nat, items: seq<TextureInfo>)
  {
    forall j :: 0 <= j < |items| ==>
      pos + TEXTURE_INFO_SIZE * j + TEXTURE_INFO_SIZE <= |data| && items[j] == TextureInfoAt(data, pos + TEXTURE_INFO_SIZE * j)
  }

  /** The records read so far, extended by the record read at the next position. */
  lemma LemmaTextureInfosSnoc(data: seq<byte>, pos: nat, items: seq<TextureInfo>, t: TextureInfo)
    requires TextureInfosFrom(data, pos, items)
    requires pos + TEXTURE_INFO_SIZE * |items| + TEXTURE_INFO_SIZE <= |data| && t == TextureInfoAt(data, pos + TEXTURE_INFO_SIZE * |items|)
    ensures TextureInfosFrom(data, pos, items + [t])
  {
    forall j | 0 <= j < |items| + 1
      ensures pos + TEXTURE_INFO_SIZE * j + TEXTURE_INFO_SIZE <= |data| && (items + [t])[j] == TextureInfoAt(data, pos + TEXTURE_INFO_SIZE * j)
    {
      if j < |items| {
        assert (items + [t])[j] == items[j];
      }
    }
  }

  /** `TextureInfo::parse`. */
  method ParseTextureInfo(count: nat, r: Reader) returns (res: Result<seq<TextureInfo>>)
    ensures res.Ok? <==> Fits(r.data, r.pos, TEXTURE_INFO_SIZE, count)
    ensures res.Ok? ==> |res.value| == count
    ensures res.Ok? ==> forall i :: 0 <= i < count ==>
      r.pos + TEXTURE_INFO_SIZE * i + TEXTURE_INFO_SIZE <= |r.data| && res.value[i] == TextureInfoAt(r.data, r.pos + TEXTURE_INFO_SIZE * i)
    ensures res.Err? ==> res.error == Io
  {
    var items: seq<TextureInfo> := [];
    var cur := r;
    var i: nat := 0;
    while i < count
      invariant i <= count && |items| == i
      invariant cur == Reader(r.data, r.pos + TEXTURE_INFO_SIZE * i)
      invariant TextureInfosFrom(r.data, r.pos, items)
    {
      var next := ReadTextureInfo(cur);
      if next.Err? {
        return Err(Io);
      }
      LemmaTextureInfosSnoc(r.data, r.pos, items, next.value.0);
      items := items + [next.value.0];
      cur := next.value.1;
      i := i + 1;
    }
    if count > 0 {
      assert items[count - 1] == items[count - 1];
      assert r.pos + TEXTURE_INFO_SIZE * (count - 1) + TEXTURE_INFO_SIZE <= |r.data|;
    }
    return Ok(items);
  }

  /** The vertex loop of `BspFile::parse`: three floats per vertex. */
  method ParseVertices(count: nat, r: Reader) returns (res: Result<seq<Vec3>>)
    ensures res.Ok? <==> Fits(r.data, r.pos, VERTEX_SIZE, count)
    ensures res.Ok? ==> |res.value| == count
    ensures res.Ok? ==> forall i :: 0 <= i < count ==>
      r.pos + VERTEX_SIZE * i + VERTEX_SIZE <= |r.data| && res.value[i] == Vec3At(r.data, r.pos + VERTEX_SIZE * i)
    ensures res.Err? ==> res.error == Io
  {
    var items: seq<Vec3> := [];
    var cur := r;
    var i: nat := 0;
    while i < count
      invariant i <= count && |items| == i
      invariant cur == Reader(r.data, r.pos + VERTEX_SIZE * i)
      invariant forall j :: 0 <= j < i ==>
        r.pos + VERTEX_SIZE * j + VERTEX_SIZE <= |r.data| && items[j] == Vec3At(r.data, r.pos + VERTEX_SIZE * j)
    {
      var next := ReadVec3(cur);
      if next.Err? {
        return Err(Io);
      }
      ghost var prev := items;
      items := items + [next.value.0];
      assert forall j :: 0 <= j < i ==> items[j] == prev[j];
      cur := next.value.1;
      i := i + 1;
    }
    if count > 0 {
      assert items[count - 1] == items[count - 1];
      assert r.pos + VERTEX_SIZE * (count - 1) + VERTEX_SIZE <= |r.data|;
    }
    return Ok(items);
  }

  /** `Plane::parse`. */
  method ParsePlanes(count: nat, r: Reader) returns (res: Result<seq<Plane>>)
    ensures res.Ok? <==> Fits(r.data, r.pos, PLANE_SIZE, count)
    ensures res.Ok? ==> |res.value| == count
    ensures res.Ok? ==> forall i :: 0 <= i < count ==>
      r.pos + PLANE_SIZE * i + PLANE_SIZE <= |r.data| && res.value[i] == PlaneAt(r.data, r.pos + PLANE_SIZE * i)
    ensures res.Err? ==> res.error == Io
  {
    var items: seq<Plane> := [];
    var cur := r;
    var i: nat := 0;
    while i < count
      invariant i <= count && |items| == i
      invariant cur == Reader(r.data, r.pos + PLANE_SIZE * i)
      invariant forall j :: 0 <= j < i ==>
        r.pos + PLANE_SIZE * j + PLANE_SIZE <= |r.data| && items[j] == PlaneAt(r.data, r.pos + PLANE_SIZE * j)
    {
      var next := ReadPlane(cur);
      if next.Err? {
        return Err(Io);
      }
      ghost var prev := items;
      items := items + [next.value.0];
      assert forall j :: 0 <= j < i ==> items[j] == prev[j];
      cur := next.value.1;
      i := i + 1;
    }
    if count > 0 {
      assert items[count - 1] == items[count - 1];
      assert r.pos + PLANE_SIZE * (count - 1) + PLANE_SIZE <= |r.data|;
    }
    return Ok(items);
  }

  /** `Face::parse`. */
  method ParseFaces(count: nat, r: Reader) returns (res: Result<seq<Face>>)
    ensures res.Ok? <==> Fits(r.data, r.pos, FACE_SIZE, count)
    ensures res.Ok? ==> |res.value| == count
    ensures res.Ok? ==> forall i :: 0 <= i < count ==>
      r.pos + FACE_SIZE * i + FACE_SIZE <= |r.data| && res.value[i] == FaceAt(r.data, r.pos + FACE_SIZE * i)
    ensures res.Err? ==> res.error == Io
  {
    var items: seq<Face> := [];
    var cur := r;
    var i: nat := 0;
    while i < count
      invariant i <= count && |items| == i
      invariant cur == Reader(r.data, r.pos + FACE_SIZE * i)
      invariant forall j :: 0 <= j < i ==>
        r.pos + FACE_SIZE * j + FACE_SIZE <= |r.data| && items[j] == FaceAt(r.data, r.pos + FACE_SIZE * j)
    {
      var next := ReadFace(cur);
      if next.Err? {
        return Err(Io);
      }
      ghost var prev := items;
      items := items + [next.value.0];
      assert forall j :: 0 <= j < i ==> items[j] == prev[j];
      cur := next.value.1;
      i := i + 1;
    }
    if count > 0 {
      assert items[count - 1] == items[count - 1];
      assert r.pos + FACE_SIZE * (count - 1) + FACE_SIZE <= |r.data|;
    }
    return Ok(items);
  }

  /** `Model::parse`. */
  /** One step of the model loop: the cursor sits at the `i`-th record and moves past it. */
  method ReadModelStep(r: Reader, i: nat, cur: Reader) returns (next: Result<(Model, Reader)>)
    requires cur == Reader(r.data, r.pos + MODEL_SIZE * i)
    ensures next.Ok? <==> r.pos + MODEL_SIZE * i + MODEL_SIZE <= |r.data|
    ensures next.Ok? ==> next.value.0 == ModelAt(r.data, r.pos + MODEL_SIZE * i)
    ensures next.Ok? ==> next.value.1 == Reader(r.data, r.pos + MODEL_SIZE * (i + 1))
  {
    next := ReadModel(cur);
  }

  /** `items` are the model records laid out back to back from byte `pos`. */
  predicate ModelsFrom(data: seq<byte>, pos: nat, items: seq<Model>)
  {
    forall j :: 0 <= j < |items| ==>
      pos + MODEL_SIZE * j + MODEL_SIZE <= |data| && items[j] == ModelAt(data, pos + MODEL_SIZE * j)
  }

  /** The models read so far, extended by the model read at the next record position. */
  lemma LemmaModelsSnoc(data: seq<byte>, pos: nat, items: seq<Model>, m: Model)
    requires ModelsFrom(data, pos, items)
    requires pos + MODEL_SIZE * |items| + MODEL_SIZE <= |data| && m == ModelAt(data, pos + MODEL_SIZE * |items|)
    ensures ModelsFrom(data, pos, items + [m])
  {
    forall j | 0 <= j < |items| + 1
      ensures pos + MODEL_SIZE * j + MODEL_SIZE <= |data| && (items + [m])[j] == ModelAt(data, pos + MODEL_SIZE * j)
    {
      if j < |items| {
        assert (items + [m])[j] == items[j];
      }
    }
  }

  method ParseModels(count: nat, r: Reader) returns (res: Result<seq<Model>>)
    ensures res.Ok? <==> Fits(r.data, r.pos, MODEL_SIZE, count)
    ensures res.Ok? ==> |res.value| == count
    ensures res.Ok? ==> forall i :: 0 <= i < count ==>
      r.pos + MODEL_SIZE * i + MODEL_SIZE <= |r.data| && res.value[i] == ModelAt(r.data, r.pos + MODEL_SIZE * i)
    ensures res.Err? ==> res.error == Io
  {
    var items: seq<Model> := [];
    var cur := r;
    var i: nat := 0;
    while i < count
      invariant i <= count && |items| == i
      invariant cur == Reader(r.data, r.pos + MODEL_SIZE * i)
      invariant ModelsFrom(r.data, r.pos, items)
    {
      var next := ReadModelStep(r, i, cur);
      if next.Err? {
        return Err(Io);
      }
      LemmaModelsSnoc(r.data, r.pos, items, next.value.0);
      items := items + [next.value.0];
      cur := next.value.1;
      i := i + 1;
    }
    if count > 0 {
      assert items[count - 1] == items[count - 1];
      assert r.pos + MODEL_SIZE * (count - 1) + MODEL_SIZE <= |r.data|;
    }
    return Ok(items);
  }

  /** The ledge loop of `BspFile::parse`: one i32 per entry, its sign giving the edge's direction. */
  method ParseLedges(count: nat, r: Reader) returns (res: Result<seq<i32>>)
    ensures res.Ok? <==> Fits(r.data, r.pos, LEDGE_SIZE, count)
    ensures res.Ok? ==> |res.value| == count
    ensures res.Ok? ==> forall i :: 0 <= i < count ==>
      r.pos + LEDGE_SIZE * i + LEDGE_SIZE <= |r.data| && res.value[i] == I32At(r.data, r.pos + LEDGE_SIZE * i)
    ensures res.Err? ==> res.error == Io
  {
    var items: seq<i32> := [];
    var cur := r;
    var i: nat := 0;
    while i < count
      invariant i <= count && |items| == i
      invariant cur == Reader(r.data, r.pos + LEDGE_SIZE * i)
      invariant forall j :: 0 <= j < i ==>
        r.pos + LEDGE_SIZE * j + LEDGE_SIZE <= |r.data| && items[j] == I32At(r.data, r.pos + LEDGE_SIZE * j)
    {
      var next := ReadLong(cur);
      if next.Err? {
        return Err(Io);
      }
      ghost var prev := items;
      items := items + [next.value.0];
      assert forall j :: 0 <= j < i ==> items[j] == prev[j];
      cur := next.value.1;
      i := i + 1;
    }
    if count > 0 {
      assert items[count - 1] == items[count - 1];
      assert r.pos + LEDGE_SIZE * (count - 1) + LEDGE_SIZE <= |r.data|;
    }
    return Ok(items);
  }

  /** One edge record: each vertex index is read and looked up before the next is read. */
  method ReadEdge(r: Reader, vertices: seq<Vec3>) returns (res: Result<(Edge, Reader)>)
    ensures res.Ok? <==> EdgeEntry(r.data, r.pos, vertices, 0).Ok?
    ensures res.Ok? ==> res.value == (EdgeEntry(r.data, r.pos, vertices, 0).value, Reader(r.data, r.pos + 4))
    ensures res.Err? ==> res.error == EdgeEntry(r.data, r.pos, vertices, 0).error
  {
    var a :- ReadUShort(r);
    if a.0 >= |vertices| {
      return Err(Panic);
    }
    var b :- ReadUShort(a.1);
    if b.0 >= |vertices| {
      return Err(Panic);
    }
    return Ok((Edge(vertices[a.0], vertices[b.0]), b.1));
  }

  /** `Edge::parse`: stops at the first record that cannot be read or names a missing vertex. */
  method ParseEdges(count: nat, vertices: seq<Vec3>, r: Reader) returns (res: Result<seq<Edge>>)
    ensures res.Ok? <==> forall k :: 0 <= k < count ==> EdgeEntry(r.data, r.pos, vertices, k).Ok?
    ensures res.Ok? ==> |res.value| == count
    ensures res.Ok? ==> forall k :: 0 <= k < count ==> res.value[k] == EdgeEntry(r.data, r.pos, vertices, k).value
    ensures res.Err? ==> exists k :: 0 <= k < count && EdgeEntry(r.data, r.pos, vertices, k) == Err(res.error) &&
                                     forall j :: 0 <= j < k ==> EdgeEntry(r.data, r.pos, vertices, j).Ok?
  {
    var edges: seq<Edge> := [];
    var cur := r;
    var i: nat := 0;
    while i < count
      invariant i <= count && |edges| == i
      invariant cur == Reader(r.data, r.pos + EDGE_SIZE * i)
      invariant forall j :: 0 <= j < i ==> EdgeEntry(r.data, r.pos, vertices, j) == Ok(edges[j])
    {
      var next := ReadEdge(cur, vertices);
      assert EdgeEntry(cur.data, cur.pos, vertices, 0) == EdgeEntry(r.data, r.pos, vertices, i);
      if next.Err? {
        return Err(next.error);
      }
      edges := edges + [next.value.0];
      cur := next.value.1;
      i := i + 1;
    }
    return Ok(edges);
  }
  // ---------------------------------------------------------------------------------------
  // The wall-texture lump: a directory of i32 offsets, relative to the lump's start, to
  // texture headers (16-byte name, width, height, four mip offsets), each followed by its
  // four mip pictures.

  const TEXTURE_NAME_SIZE: nat := 16
  const MIP_HEADER_SIZE: nat := 40

  /** `v >> i` for the four mip levels. */
  function Shr(v: u32, i: nat): (r: u32)
    requires i < 4
    ensures r == v / [1, 2, 4, 8][i]
  {
    if i == 0 then v else if i == 1 then v / 2 else if i == 2 then v / 4 else v / 8
  }

  /** The texture a directory entry of -1 stands for: id -1 and every other field empty. */
  function Placeholder(): Texture
  {
    Texture(-1, [], 0, 0, [Picture(0, 0, []), Picture(0, 0, []), Picture(0, 0, []), Picture(0, 0, [])])
  }

  /**
   * Mip picture `i` of the texture whose header is at `at`: (width >> i) by (height >> i)
   * pixels, the u32 product of the two giving the byte count, read at `at` plus the i-th
   * mip offset (both additions on u64, wrapping).
   */
  function PictureOf(data: seq<byte>, at: u64, i: nat): (res: Result<Picture>)
    requires at + MIP_HEADER_SIZE <= |data| && i < 4
    ensures res.Ok? ==> res.value.width == Shr(U32At(data, at + 16), i)
    ensures res.Ok? ==> res.value.height == Shr(U32At(data, at + 20), i)
    ensures res.Ok? ==> |res.value.data| == MulU32(res.value.width, res.value.height)
  {
    var w := Shr(U32At(data, at + 16), i);
    var h := Shr(U32At(data, at + 20), i);
    var pos := WrapU64(at + U32At(data, at + 24 + 4 * i));
    var (bytes, _) :- ReadString(Reader(data, pos), MulU32(w, h));
    Ok(Picture(w, h, bytes))
  }

  /**
   * The texture whose header is at `at`, with directory index `id`: the name is read and
   * decoded before the width, height and mip offsets are read, then the four pictures in
   * order; the first step that fails decides the error.
   */
  function MipTexture(data: seq<byte>, at: u64, id: i32): Result<Texture>
  {
    if at + TEXTURE_NAME_SIZE > |data| then Err(Io)
    else
      var name :- FromCString(data[at .. at + TEXTURE_NAME_SIZE]);
      if at + MIP_HEADER_SIZE > |data| then Err(Io)
      else
        var pictures :- Pictures(data, at, 0);
        Ok(Texture(id, name, U32At(data, at + 16), U32At(data, at + 20), pictures))
  }

  /** Mip pictures `i` to 3 of the texture whose header is at `at`, or the first that cannot be read. */
  function Pictures(data: seq<byte>, at: u64, i: nat): (res: Result<seq<Picture>>)
    requires at + MIP_HEADER_SIZE <= |data| && i <= 4
    ensures res.Ok? ==> |res.value| == 4 - i
    ensures res.Err? ==> res.error == Io
    decreases 4 - i
  {
    if i == 4 then Ok([])
    else
      var picture :- PictureOf(data, at, i);
      var rest :- Pictures(data, at, i + 1);
      Ok([picture] + rest)
  }

  /**
   * Where directory entry `k` of the texture lump at `base` points: nothing for an offset
   * of -1, otherwise the lump's start plus the offset (as u64, wrapping).
   */
  function EntryTarget(data: seq<byte>, base: u64, k: nat): (res: Result<Option<u64>>)
    ensures res.Err? <==> base + 4 + 4 * k + 4 > |data|
    ensures res.Err? ==> res.error == Io
  {
    var dir := base + 4 + 4 * k;
    if dir + 4 > |data| then Err(Io)
    else if I32At(data, dir) == -1 then Ok(None)
    else Ok(Some(WrapU64(base + AsU64(I32At(data, dir)))))
  }

  /** Directory entry `k` of the texture lump starting at `base`. */
  function TextureEntry(data: seq<byte>, base: u64, k: nat): Result<Texture>
    requires k < 0x8000_0000
  {
    match EntryTarget(data, base, k)
    case Err(e) => Err(e)
    case Ok(None) => Ok(Placeholder())
    case Ok(Some(at)) => MipTexture(data, at, k)
  }

  /** Directory entries 0 to `n` - 1 of the texture lump at `base`, each as it decodes. */
  function Entries(data: seq<byte>, base: u64, n: nat): (entries: seq<Result<Texture>>)
    requires n <= 0x8000_0000
    ensures |entries| == n
  {
    if n == 0 then [] else Entries(data, base, n - 1) + [TextureEntry(data, base, n - 1)]
  }

  /** The whole texture lump at `base`: its i32 entry count, then that many entries. */
  function TextureLump(data: seq<byte>, base: u64): Result<seq<Texture>>
  {
    if base + 4 > |data| then Err(Io)
    else if I32At(data, base) < 0 then Err(Panic)
    else Collect(Entries(data, base, I32At(data, base)))
  }

  /** The mip loop of `Texture::parse_textures`: seek to each mip offset and read that picture. */
  method ReadPictures(data: seq<byte>, at: u64) returns (res: Result<seq<Picture>>)
    requires at + MIP_HEADER_SIZE <= |data|
    ensures res == Pictures(data, at, 0)
  {
    var pictures: seq<Picture> := [];
    var i: nat := 0;
    LemmaPrependEmpty(Pictures(data, at, 0));
    while i < 4
      invariant i <= 4 && |pictures| == i
      invariant Pictures(data, at, 0) == Prepend(pictures, Pictures(data, at, i))
    {
      var picture := PictureOf(data, at, i);
      if picture.Err? {
        return Err(Io);
      }
      LemmaPrependAssoc(pictures, picture.value, Pictures(data, at, i + 1));
      pictures := pictures + [picture.value];
      i := i + 1;
    }
    assert pictures + [] == pictures;
    return Ok(pictures);
  }

  /** `prefix` followed by what `rest` holds, or the failure of `rest`. */
  function Prepend<T>(prefix: seq<T>, rest: Result<seq<T>>): Result<seq<T>>
  {
    match rest
    case Err(e) => Err(e)
    case Ok(r) => Ok(prefix + r)
  }

  lemma LemmaPrependEmpty<T>(rest: Result<seq<T>>)
    ensures Prepend([], rest) == rest
  {
    if rest.Ok? {
      assert [] + rest.value == rest.value;
    }
  }

  lemma LemmaPrependAssoc<T>(prefix: seq<T>, x: T, rest: Result<seq<T>>)
    ensures Prepend(prefix, Prepend([x], rest)) == Prepend(prefix + [x], rest)
  {
    if rest.Ok? {
      assert prefix + ([x] + rest.value) == (prefix + [x]) + rest.value;
    }
  }

  /** The body of the directory loop of `Texture::parse_textures` for an offset that is not -1. */
  method ReadMipTexture(data: seq<byte>, at: u64, id: i32) returns (res: Result<Texture>)
    ensures res == MipTexture(data, at, id)
  {
    var nameRead :- ReadString(Reader(data, at), TEXTURE_NAME_SIZE);
    var name :- FromCString(nameRead.0);
    var width :- ReadULong(nameRead.1);
    var height :- ReadULong(width.1);
    var o0 :- ReadULong(height.1);
    var o1 :- ReadULong(o0.1);
    var o2 :- ReadULong(o1.1);
    var o3 :- ReadULong(o2.1);
    var pictures :- ReadPictures(data, at);
    return Ok(Texture(id, name, width.0, height.0, pictures));
  }

  /** The offset read of one pass of the directory loop. */
  method ReadEntryTarget(data: seq<byte>, base: u64, id: nat) returns (res: Result<Option<u64>>)
    ensures res == EntryTarget(data, base, id)
  {
    var offset :- ReadLong(Reader(data, base + 4 + 4 * id));
    if offset.0 == -1 {
      return Ok(None);
    }
    return Ok(Some(WrapU64(base + AsU64(offset.0))));
  }

  /** One pass of the directory loop: the entry's offset, then the placeholder or the texture it points at. */
  method ReadTextureEntry(data: seq<byte>, base: u64, id: nat) returns (res: Result<Texture>)
    requires id < 0x8000_0000
    ensures res == TextureEntry(data, base, id)
  {
    var target :- ReadEntryTarget(data, base, id);
    match target
    case None =>
      return Ok(Placeholder());
    case Some(at) =>
      res := ReadMipTexture(data, at, id);
  }

  /** Entry `k` of the list is directory entry `k`. */
  lemma {:induction false} LemmaEntries(data: seq<byte>, base: u64, n: nat)
    requires n <= 0x8000_0000
    ensures forall k :: 0 <= k < n ==> Entries(data, base, n)[k] == TextureEntry(data, base, k)
  {
    if n > 0 {
      LemmaEntries(data, base, n - 1);
      var prev := Entries(data, base, n - 1);
      assert Entries(data, base, n) == prev + [TextureEntry(data, base, n - 1)];
      assert forall k :: 0 <= k < n - 1 ==> Entries(data, base, n)[k] == prev[k];
    }
  }

  /** The list of the first `n` entries is a prefix of every longer one. */
  lemma LemmaEntriesPrefix(data: seq<byte>, base: u64, n: nat, m: nat)
    requires n <= m <= 0x8000_0000
    ensures Entries(data, base, m) == Entries(data, base, n) + Entries(data, base, m)[n..]
  {
    LemmaEntries(data, base, n);
    LemmaEntries(data, base, m);
    assert Entries(data, base, m)[..n] == Entries(data, base, n);
  }

  /**
   * `Texture::parse_textures` with the cursor at `base`: the entry count, then for each
   * index the entry's offset; the cursor is moved back to the directory after each texture.
   * A negative count panics when the vector's capacity is reserved.
   */
  method ParseTextures(data: seq<byte>, base: u64) returns (res: Result<seq<Texture>>)
    ensures res == TextureLump(data, base)
  {
    var countRead :- ReadLong(Reader(data, base));
    var count := countRead.0;
    if count < 0 {
      return Err(Panic);
    }
    var textures: seq<Texture> := [];
    var id: nat := 0;
    while id < count
      invariant id <= count
      invariant Collect(Entries(data, base, id)) == Ok(textures)
    {
      var texture := ReadTextureEntry(data, base, id);
      LemmaCollectSnoc(Entries(data, base, id), texture);
      if texture.Err? {
        LemmaEntriesPrefix(data, base, id + 1, count);
        LemmaCollectFailureSticks(Entries(data, base, id + 1), Entries(data, base, count)[id + 1..]);
        return Err(texture.error);
      }
      textures := textures + [texture.value];
      id := id + 1;
    }
    return Ok(textures);
  }

  /**
   * A decoded lump holds one texture per directory entry, each the one its entry describes,
   * and it decodes exactly when every entry does.
   */
  lemma LemmaTextureLumpLayout(data: seq<byte>, base: u64)
    requires base + 4 <= |data| && I32At(data, base) >= 0
    ensures var n := I32At(data, base);
            TextureLump(data, base).Ok? <==> forall k :: 0 <= k < n ==> TextureEntry(data, base, k).Ok?
    ensures var n := I32At(data, base);
            TextureLump(data, base).Ok? ==>
              |TextureLump(data, base).value| == n &&
              forall k :: 0 <= k < n ==> TextureEntry(data, base, k) == Ok(TextureLump(data, base).value[k])
  {
    var n := I32At(data, base);
    LemmaEntries(data, base, n);
    LemmaCollectAllOk(Entries(data, base, n));
  }

  /** A directory entry of -1 gives the placeholder; any other gives a texture whose id is its index. */
  lemma LemmaTextureEntryId(data: seq<byte>, base: u64, k: nat)
    requires k < 0x8000_0000 && TextureEntry(data, base, k).Ok?
    ensures var t := TextureEntry(data, base, k).value;
            I32At(data, base + 4 + 4 * k) == -1 ==> t == Placeholder()
    ensures var t := TextureEntry(data, base, k).value;
            I32At(data, base + 4 + 4 * k) != -1 ==> t.id == k && |t.pictures| == 4
  {
  }

  // ---------------------------------------------------------------------------------------
  // The whole file: version, lump directory, then the lumps the renderer uses, in the order
  // `BspFile::parse` reads them.

  /** Lump `i` of the directory that follows the version. */
  function LumpAt(data: seq<byte>, i: nat): Lump
    requires i < LUMP_COUNT && 12 + 8 * i <= |data|
  {
    Lump(I32At(data, 4 + 8 * i), I32At(data, 8 + 8 * i))
  }

  /** Where the cursor lands when seeking to a lump: its i32 offset taken as u64. */
  function Start(l: Lump): u64
  {
    AsU64(l.offset)
  }

  /** How many records of `size` bytes the lump's byte count makes, rounding down. */
  function Count(l: Lump, size: nat): nat
    requires l.size >= 0 && size > 0
  {
    l.size / size
  }

  /** The vertices `n` back-to-back vertex records from `pos` decode to. */
  function VerticesAt(data: seq<byte>, pos: nat, n: nat): (vertices: seq<Vec3>)
    requires Fits(data, pos, VERTEX_SIZE, n)
    ensures |vertices| == n
  {
    seq(n, i requires 0 <= i < n => Vec3At(data, pos + VERTEX_SIZE * i))
  }

  /** The version is 29 and the fifteen lump entries are all there. */
  predicate HeaderOk(data: seq<byte>)
  {
    HEADER_SIZE <= |data| && I32At(data, 0) == VERSION
  }

  /**
   * The lump's byte count is not negative and the records of `size` bytes it makes all lie
   * within the file. A negative count, taken as usize, asks for a vector whose capacity
   * overflows, which panics.
   */
  predicate RecordsFit(data: seq<byte>, l: Lump, size: nat)
    requires size > 0
  {
    l.size >= 0 && Fits(data, Start(l), size, Count(l, size))
  }

  /** The vertices the vertex lump decodes to. */
  function Vertices(data: seq<byte>): (vertices: seq<Vec3>)
    requires HeaderOk(data) && RecordsFit(data, LumpAt(data, VERTICES), VERTEX_SIZE)
  {
    var l := LumpAt(data, VERTICES);
    VerticesAt(data, Start(l), Count(l, VERTEX_SIZE))
  }

  /** Every edge record names two vertices that exist. */
  predicate EdgesReadable(data: seq<byte>)
    requires HeaderOk(data) && RecordsFit(data, LumpAt(data, VERTICES), VERTEX_SIZE)
  {
    var l := LumpAt(data, EDGES);
    l.size >= 0 && forall k :: 0 <= k < Count(l, EDGE_SIZE) ==> EdgeEntry(data, Start(l), Vertices(data), k).Ok?
  }

  /** The four lumps read last (ledges, planes, faces, models) fit. */
  predicate TailReadable(data: seq<byte>)
    requires HeaderOk(data)
  {
    RecordsFit(data, LumpAt(data, LEDGES), LEDGE_SIZE) && RecordsFit(data, LumpAt(data, PLANES), PLANE_SIZE) &&
    RecordsFit(data, LumpAt(data, FACES), FACE_SIZE) && RecordsFit(data, LumpAt(data, MODELS), MODEL_SIZE)
  }

  /** The light maps lie within the file and the wall-texture lump decodes. */
  predicate HeadReadable(data: seq<byte>)
    requires HeaderOk(data)
  {
    var lm := LumpAt(data, LIGHT_MAPS);
    lm.size >= 0 && Fits(data, Start(lm), 1, lm.size) && TextureLump(data, Start(LumpAt(data, WALL_TEXTURES))).Ok?
  }

  /** The texture-info and vertex records fit and every edge names existing vertices. */
  predicate MidReadable(data: seq<byte>)
    requires HeaderOk(data)
  {
    RecordsFit(data, LumpAt(data, TEXTURE_INFO), TEXTURE_INFO_SIZE) &&
    RecordsFit(data, LumpAt(data, VERTICES), VERTEX_SIZE) &&
    EdgesReadable(data)
  }

  /** Every lump the reader uses lies within the file and decodes. */
  predicate Readable(data: seq<byte>)
  {
    HeaderOk(data) && HeadReadable(data) && MidReadable(data) && TailReadable(data)
  }

  /** The light maps are the lump's bytes and the textures what the wall-texture lump decodes to. */
  predicate HeadDecodes(data: seq<byte>, lightMaps: seq<byte>, textures: seq<Texture>)
    requires HeaderOk(data) && HeadReadable(data)
  {
    var lm := LumpAt(data, LIGHT_MAPS);
    (lightMaps == if lm.size == 0 then [] else data[Start(lm) .. Start(lm) + lm.size]) &&
    textures == TextureLump(data, Start(LumpAt(data, WALL_TEXTURES))).value
  }

  /** The texture infos and the edges are what their lumps hold, record by record. */
  predicate MidDecodes(data: seq<byte>, textureInfo: seq<TextureInfo>, edges: seq<Edge>)
    requires HeaderOk(data) && MidReadable(data)
  {
    var ed := LumpAt(data, EDGES);
    TextureInfosIn(data, LumpAt(data, TEXTURE_INFO), textureInfo) &&
    |edges| == Count(ed, EDGE_SIZE) &&
    (forall k :: 0 <= k < |edges| ==> EdgeEntry(data, Start(ed), Vertices(data), k) == Ok(edges[k]))
  }

  /** `textureInfo` are the texture-info records of lump `l`. */
  predicate TextureInfosIn(data: seq<byte>, l: Lump, textureInfo: seq<TextureInfo>)
    requires RecordsFit(data, l, TEXTURE_INFO_SIZE)
  {
    |textureInfo| == Count(l, TEXTURE_INFO_SIZE) &&
    forall i :: 0 <= i < |textureInfo| ==>
      Start(l) + TEXTURE_INFO_SIZE * i + TEXTURE_INFO_SIZE <= |data| &&
      textureInfo[i] == TextureInfoAt(data, Start(l) + TEXTURE_INFO_SIZE * i)
  }

  /** `ledges` are the i32 entries of lump `l`. */
  predicate LedgesIn(data: seq<byte>, l: Lump, ledges: seq<i32>)
    requires RecordsFit(data, l, LEDGE_SIZE)
  {
    |ledges| == Count(l, LEDGE_SIZE) &&
    forall i :: 0 <= i < |ledges| ==>
      Start(l) + LEDGE_SIZE * i + LEDGE_SIZE <= |data| && ledges[i] == I32At(data, Start(l) + LEDGE_SIZE * i)
  }

  /** `planes` are the plane records of lump `l`. */
  predicate PlanesIn(data: seq<byte>, l: Lump, planes: seq<Plane>)
    requires RecordsFit(data, l, PLANE_SIZE)
  {
    |planes| == Count(l, PLANE_SIZE) &&
    forall i :: 0 <= i < |planes| ==>
      Start(l) + PLANE_SIZE * i + PLANE_SIZE <= |data| && planes[i] == PlaneAt(data, Start(l) + PLANE_SIZE * i)
  }

  /** `faces` are the face records of lump `l`. */
  predicate FacesIn(data: seq<byte>, l: Lump, faces: seq<Face>)
    requires RecordsFit(data, l, FACE_SIZE)
  {
    |faces| == Count(l, FACE_SIZE) &&
    forall i :: 0 <= i < |faces| ==>
      Start(l) + FACE_SIZE * i + FACE_SIZE <= |data| && faces[i] == FaceAt(data, Start(l) + FACE_SIZE * i)
  }

  /** `models` are the model records of lump `l`. */
  predicate ModelsIn(data: seq<byte>, l: Lump, models: seq<Model>)
    requires RecordsFit(data, l, MODEL_SIZE)
  {
    |models| == Count(l, MODEL_SIZE) &&
    forall i :: 0 <= i < |models| ==>
      Start(l) + MODEL_SIZE * i + MODEL_SIZE <= |data| && models[i] == ModelAt(data, Start(l) + MODEL_SIZE * i)
  }

  /** The ledges, planes, faces and models are what their lumps hold, record by record. */
  predicate TailDecodes(data: seq<byte>, ledges: seq<i32>, planes: seq<Plane>, faces: seq<Face>, models: seq<Model>)
    requires HeaderOk(data) && TailReadable(data)
  {
    LedgesIn(data, LumpAt(data, LEDGES), ledges) && PlanesIn(data, LumpAt(data, PLANES), planes) &&
    FacesIn(data, LumpAt(data, FACES), faces) && ModelsIn(data, LumpAt(data, MODELS), models)
  }

  /** `f` holds what each lump of `data` decodes to, record by record. */
  predicate Decodes(data: seq<byte>, f: BspFile)
    requires Readable(data)
  {
    HeadDecodes(data, f.lightMaps, f.textures) &&
    MidDecodes(data, f.textureInfo, f.edges) &&
    TailDecodes(data, f.ledges, f.planes, f.faces, f.models)
  }

  /** The version check and the fifteen `Entry::read` calls. */
  method ReadHeader(data: seq<byte>) returns (res: Result<seq<Lump>>)
    ensures |data| < 4 ==> res == Err(Io)
    ensures 4 <= |data| && I32At(data, 0) != VERSION ==> res == Err(BadVersion)
    ensures 4 <= |data| && I32At(data, 0) == VERSION && |data| < HEADER_SIZE ==> res == Err(Io)
    ensures HeaderOk(data) ==>
              res.Ok? && |res.value| == LUMP_COUNT && forall i :: 0 <= i < LUMP_COUNT ==> res.value[i] == LumpAt(data, i)
  {
    var version :- ReadLong(Reader(data, 0));
    if version.0 != VERSION {
      return Err(BadVersion);
    }
    var lumps: seq<Lump> := [];
    var cur := version.1;
    var i: nat := 0;
    while i < LUMP_COUNT
      invariant i <= LUMP_COUNT && |lumps| == i
      invariant cur == Reader(data, 4 + 8 * i) && 4 + 8 * i <= |data|
      invariant forall j :: 0 <= j < i ==> 12 + 8 * j <= |data| && lumps[j] == LumpAt(data, j)
    {
      var offset :- ReadLong(cur);
      var size :- ReadLong(offset.1);
      lumps := lumps + [Lump(offset.0, size.0)];
      cur := size.1;
      i := i + 1;
    }
    return Ok(lumps);
  }

  /**
   * `BspFile::parse` over an in-memory cursor: the header, then the light maps, wall
   * textures, texture info, vertices, edges, ledges, planes, faces and models, each read
   * from its lump's offset; the first step that fails decides the error.
   */
  method ReadBsp(data: seq<byte>) returns (res: Result<BspFile>)
    ensures |data| < 4 ==> res == Err(Io)
    ensures 4 <= |data| && I32At(data, 0) != VERSION ==> res == Err(BadVersion)
    ensures 4 <= |data| && I32At(data, 0) == VERSION && |data| < HEADER_SIZE ==> res == Err(Io)
    ensures HeaderOk(data) && LumpAt(data, LIGHT_MAPS).size < 0 ==> res == Err(Panic)
    ensures res.Ok? <==> Readable(data)
    ensures res.Ok? ==> Decodes(data, res.value)
  {
    var lumps :- ReadHeader(data);
    res := ReadLumps(data, lumps);
  }

  /** Everything `BspFile::parse` does after the header. */
  method ReadLumps(data: seq<byte>, lumps: seq<Lump>) returns (res: Result<BspFile>)
    requires HeaderOk(data) && |lumps| == LUMP_COUNT
    requires forall i :: 0 <= i < LUMP_COUNT ==> lumps[i] == LumpAt(data, i)
    ensures LumpAt(data, LIGHT_MAPS).size < 0 ==> res == Err(Panic)
    ensures res.Ok? <==> Readable(data)
    ensures res.Ok? ==> Decodes(data, res.value)
  {
    var head :- ReadHeadLumps(data, lumps);
    var mid :- ReadMidLumps(data, lumps);
    var tail :- ReadTailLumps(data, lumps);
    return Ok(BspFile(head.0, head.1, mid.0, mid.1, tail.0, tail.1, tail.2, tail.3));
  }

  /** The light maps and the wall textures, the first two lumps `BspFile::parse` reads. */
  method ReadHeadLumps(data: seq<byte>, lumps: seq<Lump>) returns (res: Result<(seq<byte>, seq<Texture>)>)
    requires HeaderOk(data) && |lumps| == LUMP_COUNT
    requires forall i :: 0 <= i < LUMP_COUNT ==> lumps[i] == LumpAt(data, i)
    ensures LumpAt(data, LIGHT_MAPS).size < 0 ==> res == Err(Panic)
    ensures res.Ok? <==> HeadReadable(data)
    ensures res.Ok? ==> HeadDecodes(data, res.value.0, res.value.1)
  {
    var lm := lumps[LIGHT_MAPS];
    if lm.size < 0 {
      return Err(Panic);
    }
    var lightMaps :- ReadString(CursorSeek(Reader(data, 0), Start(lm)), lm.size);
    var textures :- ParseTextures(data, Start(lumps[WALL_TEXTURES]));
    return Ok((lightMaps.0, textures));
  }

  /** The texture infos, the vertices and the edges that index them. */
  method ReadMidLumps(data: seq<byte>, lumps: seq<Lump>) returns (res: Result<(seq<TextureInfo>, seq<Edge>)>)
    requires HeaderOk(data) && |lumps| == LUMP_COUNT
    requires forall i :: 0 <= i < LUMP_COUNT ==> lumps[i] == LumpAt(data, i)
    ensures res.Ok? <==> MidReadable(data)
    ensures res.Ok? ==> MidDecodes(data, res.value.0, res.value.1)
  {
    var textureInfo :- ReadTextureInfoLump(data, lumps[TEXTURE_INFO]);
    var ve := lumps[VERTICES];
    if ve.size < 0 {
      return Err(Panic);
    }
    var vertices :- ParseVertices(Count(ve, VERTEX_SIZE), Reader(data, Start(ve)));
    var ed := lumps[EDGES];
    if ed.size < 0 {
      return Err(Panic);
    }
    assert vertices == Vertices(data);
    var edges :- ParseEdges(Count(ed, EDGE_SIZE), vertices, Reader(data, Start(ed)));
    return Ok((textureInfo, edges));
  }

  /** The ledge, plane, face and model lumps, the last four `BspFile::parse` reads. */
  method ReadTailLumps(data: seq<byte>, lumps: seq<Lump>) returns (res: Result<(seq<i32>, seq<Plane>, seq<Face>, seq<Model>)>)
    requires HeaderOk(data) && |lumps| == LUMP_COUNT
    requires forall i :: 0 <= i < LUMP_COUNT ==> lumps[i] == LumpAt(data, i)
    ensures res.Ok? <==> TailReadable(data)
    ensures res.Ok? ==> TailDecodes(data, res.value.0, res.value.1, res.value.2, res.value.3)
  {
    var ledges :- ReadLedgeLump(data, lumps[LEDGES]);
    var planes :- ReadPlaneLump(data, lumps[PLANES]);
    var faces :- ReadFaceLump(data, lumps[FACES]);
    var models :- ReadModelLump(data, lumps[MODELS]);
    return Ok((ledges, planes, faces, models));
  }

  /** Seek to lump `l` and run the texture-info loop over its byte count divided by the record size. */
  method ReadTextureInfoLump(data: seq<byte>, l: Lump) returns (res: Result<seq<TextureInfo>>)
    ensures l.size < 0 ==> res == Err(Panic)
    ensures res.Ok? <==> RecordsFit(data, l, TEXTURE_INFO_SIZE)
    ensures res.Ok? ==> TextureInfosIn(data, l, res.value)
  {
    if l.size < 0 {
      return Err(Panic);
    }
    res := ParseTextureInfo(Count(l, TEXTURE_INFO_SIZE), Reader(data, Start(l)));
  }

  /** Seek to lump `l` and run the ledge loop over its byte count divided by the record size. */
  method ReadLedgeLump(data: seq<byte>, l: Lump) returns (res: Result<seq<i32>>)
    ensures l.size < 0 ==> res == Err(Panic)
    ensures res.Ok? <==> RecordsFit(data, l, LEDGE_SIZE)
    ensures res.Ok? ==> LedgesIn(data, l, res.value)
  {
    if l.size < 0 {
      return Err(Panic);
    }
    res := ParseLedges(Count(l, LEDGE_SIZE), Reader(data, Start(l)));
  }

  /** Seek to lump `l` and run `Plane::parse` over its byte count divided by the record size. */
  method ReadPlaneLump(data: seq<byte>, l: Lump) returns (res: Result<seq<Plane>>)
    ensures l.size < 0 ==> res == Err(Panic)
    ensures res.Ok? <==> RecordsFit(data, l, PLANE_SIZE)
    ensures res.Ok? ==> PlanesIn(data, l, res.value)
  {
    if l.size < 0 {
      return Err(Panic);
    }
    res := ParsePlanes(Count(l, PLANE_SIZE), Reader(data, Start(l)));
  }

  /** Seek to lump `l` and run `Face::parse` over its byte count divided by the record size. */
  method ReadFaceLump(data: seq<byte>, l: Lump) returns (res: Result<seq<Face>>)
    ensures l.size < 0 ==> res == Err(Panic)
    ensures res.Ok? <==> RecordsFit(data, l, FACE_SIZE)
    ensures res.Ok? ==> FacesIn(data, l, res.value)
  {
    if l.size < 0 {
      return Err(Panic);
    }
    res := ParseFaces(Count(l, FACE_SIZE), Reader(data, Start(l)));
  }

  /** Seek to lump `l` and run `Model::parse` over its byte count divided by the record size. */
  method ReadModelLump(data: seq<byte>, l: Lump) returns (res: Result<seq<Model>>)
    ensures l.size < 0 ==> res == Err(Panic)
    ensures res.Ok? <==> RecordsFit(data, l, MODEL_SIZE)
    ensures res.Ok? ==> ModelsIn(data, l, res.value)
  {
    if l.size < 0 {
      return Err(Panic);
    }
    res := ParseModels(Count(l, MODEL_SIZE), Reader(data, Start(l)));
  }
}
