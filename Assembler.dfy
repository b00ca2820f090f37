/**
 * `ConvertToDae`: one exported mesh per sub-mesh. Every vertex takes its
 * position, normal, two UV channels and two colour channels from the decoded
 * attributes of all the sub-mesh's buffers, visited in file order, so a later
 * attribute of the same type overwrites an earlier one. The indices become a
 * single polygon of 32-bit signed integers.
 */
module Assembler {
  import opened Wrappers
  import opened Bytes
  import opened Formats
  import opened Reader
  import opened VertexBuffers

  datatype Vec3 = Vec3(x: nat, y: nat, z: nat)

  datatype Vec2 = Vec2(u: nat, v: nat)

  /** An exported vertex; `None` is a channel no attribute has set. */
  datatype Vertex = Vertex(
    position: Option<Vec3>,
    normal: Option<Vec3>,
    uv0: Option<Vec2>,
    uv1: Option<Vec2>,
    color0: Option<Vec4>,
    color1: Option<Vec4>)

  const EmptyVertex := Vertex(None, None, None, None, None, None)

  datatype Mesh = Mesh(name: string, vertices: seq<Vertex>, polygon: seq<int>)

  /** The attribute types `ConvertToDae` uses; every other type is ignored. */
  predicate Exported(kind: Byte)
  {
    kind in {Position, Normal, UvSet01, UvSet2, ColorSet0, ColorSet1}
  }

  /** One attribute value written into the vertex's matching channel. */
  function Apply(vertex: Vertex, kind: Byte, x: Vec4): (r: Vertex)
    ensures !Exported(kind) ==> r == vertex
  {
    if kind == Position then vertex.(position := Some(Vec3(x.x, x.y, x.z)))
    else if kind == Normal then vertex.(normal := Some(Vec3(x.x, x.y, x.z)))
    else if kind == UvSet01 then vertex.(uv0 := Some(Vec2(x.x, x.y)))
    else if kind == UvSet2 then vertex.(uv1 := Some(Vec2(x.x, x.y)))
    else if kind == ColorSet0 then vertex.(color0 := Some(x))
    else if kind == ColorSet1 then vertex.(color1 := Some(x))
    else vertex
  }

  /** The attributes of all buffers, buffer by buffer, each in table order. */
  function Flatten(buffers: seq<Buffer>): (attrs: seq<DecodedAttribute>)
  {
    if buffers == [] then [] else Flatten(buffers[..|buffers| - 1]) + buffers[|buffers| - 1].attributes
  }

  /** Every attribute holds a value for each of the `numVerts` vertices. */
  predicate Sized(attrs: seq<DecodedAttribute>, numVerts: nat)
  {
    forall j :: 0 <= j < |attrs| ==> |attrs[j].data| == numVerts
  }

  /** Every attribute of every buffer holds a value for each of the `numVerts` vertices. */
  predicate AllSized(buffers: seq<Buffer>, numVerts: nat)
  {
    forall b, j :: 0 <= b < |buffers| && 0 <= j < |buffers[b].attributes| ==> |buffers[b].attributes[j].data| == numVerts
  }

  lemma {:induction false} FlattenSized(buffers: seq<Buffer>, numVerts: nat)
    requires AllSized(buffers, numVerts)
    ensures Sized(Flatten(buffers), numVerts)
  {
    if buffers != [] {
      var init := buffers[..|buffers| - 1];
      assert AllSized(init, numVerts) by {
        forall b, j | 0 <= b < |init| && 0 <= j < |init[b].attributes|
          ensures |init[b].attributes[j].data| == numVerts
        {
          assert init[b] == buffers[b];
        }
      }
      FlattenSized(init, numVerts);
    }
  }

  /** Vertex `v` after applying `attrs` in order to an empty vertex. */
  function VertexOf(attrs: seq<DecodedAttribute>, v: nat): Vertex
    requires forall j :: 0 <= j < |attrs| ==> v < |attrs[j].data|
  {
    if attrs == [] then EmptyVertex
    else
      var last := attrs[|attrs| - 1];
      Apply(VertexOf(attrs[..|attrs| - 1], v), last.attribute.kind, last.data[v])
  }

  function Digit(d: nat): (c: char)
    requires d < 10
    ensures '0' <= c <= '9'
  {
    (d + '0' as int) as char
  }

  /** `n` in decimal, as string interpolation prints an `int`. */
  function Decimal(n: nat): (s: string)
    ensures |s| >= 1 && forall i :: 0 <= i < |s| ==> '0' <= s[i] <= '9'
  {
    if n < 10 then [Digit(n)] else Decimal(n / 10) + [Digit(n % 10)]
  }

  /** The value of a string of decimal digits. */
  function DecimalValue(s: string): nat
    requires forall i :: 0 <= i < |s| ==> '0' <= s[i] <= '9'
  {
    if s == [] then 0 else 10 * DecimalValue(s[..|s| - 1]) + (s[|s| - 1] as int - '0' as int)
  }

  lemma {:induction false} DecimalRoundTrip(n: nat)
    ensures DecimalValue(Decimal(n)) == n
  {
    if n >= 10 {
      DecimalRoundTrip(n / 10);
      var s := Decimal(n);
      assert s[..|s| - 1] == Decimal(n / 10);
    }
  }

  function MeshName(index: nat): string
  {
    "Mesh_" + Decimal(index)
  }

  /** Different sub-meshes get different names. */
  lemma MeshNamesDistinct(i: nat, j: nat)
    requires MeshName(i) == MeshName(j)
    ensures i == j
  {
    assert Decimal(i) == MeshName(i)[5..];
    assert Decimal(j) == MeshName(j)[5..];
    DecimalRoundTrip(i);
    DecimalRoundTrip(j);
  }

  /** The polygon: every index cast to a 32-bit signed integer without a range check. */
  function Polygon(indices: seq<nat>): (p: seq<int>)
    ensures |p| == |indices|
  {
    seq(|indices|, j requires 0 <= j < |indices| => ToInt32(indices[j]))
  }

  function MeshSpec(numVerts: nat, index: nat, buffers: seq<Buffer>, indices: seq<nat>): Mesh
    requires AllSized(buffers, numVerts)
  {
    FlattenSized(buffers, numVerts);
    var attrs := Flatten(buffers);
    Mesh(MeshName(index), seq(numVerts, v requires 0 <= v < numVerts => VertexOf(attrs, v)), Polygon(indices))
  }

  lemma {:induction false} FlattenAppend(buffers: seq<Buffer>, b: nat)
    requires b < |buffers|
    ensures Flatten(buffers[..b + 1]) == Flatten(buffers[..b]) + buffers[b].attributes
  {
    assert buffers[..b + 1][..b] == buffers[..b];
  }

  /** The attribute loops for vertex `v`: every buffer, then every attribute of it. */
  method BuildVertex(buffers: seq<Buffer>, numVerts: nat, v: nat) returns (vertex: Vertex)
    requires AllSized(buffers, numVerts) && v < numVerts
    ensures Sized(Flatten(buffers), numVerts) && vertex == VertexOf(Flatten(buffers), v)
  {
    vertex := EmptyVertex;
    var b := 0;
    assert Flatten(buffers[..0]) == [];
    while b < |buffers|
      invariant 0 <= b <= |buffers|
      invariant Sized(Flatten(buffers[..b]), numVerts)
      invariant vertex == VertexOf(Flatten(buffers[..b]), v)
    {
      FlattenAppend(buffers, b);
      var attrs := buffers[b].attributes;
      ghost var done := Flatten(buffers[..b]);
      assert done + attrs[..0] == done;
      var a := 0;
      while a < |attrs|
        invariant 0 <= a <= |attrs|
        invariant Sized(done + attrs[..a], numVerts)
        invariant vertex == VertexOf(done + attrs[..a], v)
      {
        assert done + attrs[..a + 1] == (done + attrs[..a]) + [attrs[a]];
        vertex := Apply(vertex, attrs[a].attribute.kind, attrs[a].data[v]);
        a := a + 1;
      }
      assert attrs[..a] == attrs;
      b := b + 1;
    }
    assert buffers[..b] == buffers;
  }

  method ConvertToDae(numVerts: nat, index: nat, buffers: seq<Buffer>, indices: seq<nat>) returns (mesh: Mesh)
    requires AllSized(buffers, numVerts)
    ensures mesh == MeshSpec(numVerts, index, buffers, indices)
  {
    FlattenSized(buffers, numVerts);
    var vertices: seq<Vertex> := [];
    var v := 0;
    while v < numVerts
      invariant 0 <= v <= numVerts && |vertices| == v
      invariant forall w :: 0 <= w < v ==> vertices[w] == VertexOf(Flatten(buffers), w)
    {
      var vertex := BuildVertex(buffers, numVerts, v);
      vertices := vertices + [vertex];
      v := v + 1;
    }
    var poly := new int[|indices|];
    var j := 0;
    while j < |indices|
      invariant 0 <= j <= |indices|
      invariant forall i :: 0 <= i < j ==> poly[i] == ToInt32(indices[i])
    {
      poly[j] := ToInt32(indices[j]);
      j := j + 1;
    }
    mesh := Mesh(MeshName(index), vertices, poly[..]);
    assert mesh.polygon == Polygon(indices);
  }

  /** What a vertex holds in one of its channels. */
  datatype Channel = Point(point: Option<Vec3>) | Coord(coord: Option<Vec2>) | Colour(colour: Option<Vec4>) | NoChannel

  /** The channel that attributes of type `kind` write; `NoChannel` for the types `ConvertToDae` ignores. */
  function Slot(vertex: Vertex, kind: Byte): (c: Channel)
    ensures c == NoChannel <==> !Exported(kind)
  {
    if kind == Position then Point(vertex.position)
    else if kind == Normal then Point(vertex.normal)
    else if kind == UvSet01 then Coord(vertex.uv0)
    else if kind == UvSet2 then Coord(vertex.uv1)
    else if kind == ColorSet0 then Colour(vertex.color0)
    else if kind == ColorSet1 then Colour(vertex.color1)
    else NoChannel
  }

  /**
   * Every channel ends up with the value of the last attribute of its type:
   * for vertex `v`, the channel of type `kind` holds what the last attribute
   * of that type writes, whatever came before it.
   */
  lemma {:induction false} LastAttributeWins(attrs: seq<DecodedAttribute>, v: nat, kind: Byte, k: nat)
    requires forall j :: 0 <= j < |attrs| ==> v < |attrs[j].data|
    requires Exported(kind) && k < |attrs| && attrs[k].attribute.kind == kind
    requires forall j :: k < j < |attrs| ==> attrs[j].attribute.kind != kind
    ensures Slot(VertexOf(attrs, v), kind) == Slot(Apply(EmptyVertex, kind, attrs[k].data[v]), kind)
    decreases |attrs|
  {
    if k < |attrs| - 1 {
      LastAttributeWins(attrs[..|attrs| - 1], v, kind, k);
    }
  }

  /** A channel no attribute of its type writes stays unset. */
  lemma {:induction false} UnwrittenChannelUnset(attrs: seq<DecodedAttribute>, v: nat, kind: Byte)
    requires forall j :: 0 <= j < |attrs| ==> v < |attrs[j].data|
    requires forall j :: 0 <= j < |attrs| ==> attrs[j].attribute.kind != kind
    ensures Slot(VertexOf(attrs, v), kind) == Slot(EmptyVertex, kind)
    decreases |attrs|
  {
    if attrs != [] {
      UnwrittenChannelUnset(attrs[..|attrs| - 1], v, kind);
    }
  }

  /** The position, for instance, comes from the last Position attribute, with all three coordinates. */
  lemma LastPositionWins(attrs: seq<DecodedAttribute>, v: nat, k: nat)
    requires forall j :: 0 <= j < |attrs| ==> v < |attrs[j].data|
    requires k < |attrs| && attrs[k].attribute.kind == Position
    requires forall j :: k < j < |attrs| ==> attrs[j].attribute.kind != Position
    ensures var x := attrs[k].data[v];
      VertexOf(attrs, v).position == Some(Vec3(x.x, x.y, x.z))
  {
    LastAttributeWins(attrs, v, Position, k);
  }

  /** Attributes of types `ConvertToDae` ignores can be dropped without changing any vertex. */
  lemma {:induction false} IgnoredTypesChangeNothing(attrs: seq<DecodedAttribute>, extra: DecodedAttribute, v: nat)
    requires forall j :: 0 <= j < |attrs| ==> v < |attrs[j].data|
    requires v < |extra.data| && !Exported(extra.attribute.kind)
    ensures VertexOf(attrs + [extra], v) == VertexOf(attrs, v)
  {
    assert (attrs + [extra])[..|attrs|] == attrs;
  }

  /** Indices below 2^31 keep their value in the polygon; larger ones wrap to negative values. */
  lemma PolygonWraps(indices: seq<nat>, j: nat)
    requires j < |indices| && indices[j] < 0x1_0000_0000
    ensures indices[j] < 0x8000_0000 ==> Polygon(indices)[j] == indices[j]
    ensures indices[j] >= 0x8000_0000 ==> Polygon(indices)[j] == indices[j] as int - 0x1_0000_0000
  {
    if indices[j] < 0x8000_0000 {
      Int32Identity(indices[j]);
    } else {
      Int32Identity(indices[j] as int - 0x1_0000_0000);
    }
  }

  /** Buffers decoded for a sub-mesh hold one value per vertex in every attribute. */
  lemma ParsedBuffersSized(data: seq<Byte>, s: State, mesh: SubMesh)
    requires BuffersSpec(data, s, mesh).Ok?
    ensures AllSized(BuffersSpec(data, s, mesh).value.value, mesh.numVerts)
  {
    var step := BufferRecord(data, mesh.numVerts);
    var P := (b: Buffer, _: nat) => Sized(b.attributes, mesh.numVerts);
    forall t, k | step(t, k).Ok?
      ensures P(step(t, k).value.value, k)
    {
      BufferLayout(data, t, mesh.numVerts);
    }
    RecordsAll(step, P, s, mesh.numBuffers, []);
    var bs := BuffersSpec(data, s, mesh).value.value;
    assert forall i :: 0 <= i < |bs| ==> Sized(bs[i].attributes, mesh.numVerts) by {
      assert forall i :: 0 <= i < |bs| ==> P(bs[i], i);
    }
  }
}
