/**
 * The scene-data chunk (`ParseCSG`): the material records, then the sub-mesh
 * records, each aligned by the resync scanner and made of a header, its
 * vertex buffers and its index section, then the asset name rewritten into
 * the relative output path.
 */
module Scene {
  import opened Wrappers
  import opened Bytes
  import opened Reader
  import opened Scanner
  import opened VertexBuffers
  import opened Indices
  import opened Assembler

  datatype Material = Material(filePath: string, name: string)

  /** What the scene chunk hands to the exporter: the output path, the model's name and its meshes. */
  datatype Export = Export(path: string, modelName: string, meshes: seq<Mesh>)

  /** How far the scanner looks for the next "SMNR" marker. */
  const Lookahead: int := 128

  /** `ReadString`: a zero-terminated string followed by a second one that is read and dropped. */
  function StringPair(data: seq<Byte>, s: State): Step<string>
  {
    var first :- ReadZString(data, s);
    var second :- ReadZString(data, first.next);
    Ok(Parsed(first.value, second.next))
  }

  method ReadString(reader: FileReader) returns (r: Result<string>)
    modifies reader
    ensures Agrees(r, reader.At(), StringPair(reader.data, old(reader.At())))
  {
    var str :- reader.ReadZeroTerminatedString();
    var dropped :- reader.ReadZeroTerminatedString();
    r := Ok(str);
  }

  /** Two zero-terminated strings of `a` and `b` bytes at the cursor: the first is returned and both are consumed. */
  lemma StringPairAt(data: seq<Byte>, s: State, a: nat, b: nat)
    requires s.pos + a + 1 + b < |data| && data[s.pos + a] == 0 && data[s.pos + a + 1 + b] == 0
    requires forall j :: s.pos <= j < s.pos + a ==> data[j] != 0
    requires forall j :: s.pos + a + 1 <= j < s.pos + a + 1 + b ==> data[j] != 0
    ensures StringPair(data, s) == Ok(Parsed(Chars(data[s.pos..s.pos + a]), s.(pos := s.pos + a + b + 2)))
  {
    ZeroTerminatedAt(data, s, a);
    ZeroTerminatedAt(data, s.(pos := s.pos + a + 1), b);
  }

  /** The pair yields its first string and leaves the cursor just past the second terminator. */
  lemma StringPairRoundTrip(pre: seq<Byte>, first: seq<Byte>, second: seq<Byte>, rest: seq<Byte>, bigEndian: bool)
    requires 0 !in first && 0 !in second
    ensures StringPair(pre + first + [0] + second + [0] + rest, State(|pre|, bigEndian))
      == Ok(Parsed(Chars(first), State(|pre| + |first| + |second| + 2, bigEndian)))
  {
    var data := pre + first + [0] + second + [0] + rest;
    var o := |pre|;
    assert forall j :: o <= j < o + |first| ==> data[j] == first[j - o];
    assert forall j :: o + |first| + 1 <= j < o + |first| + 1 + |second| ==> data[j] == second[j - o - |first| - 1];
    StringPairAt(data, State(o, bigEndian), |first|, |second|);
    assert data[o..o + |first|] == first;
  }

  /**
   * One material record: a padding byte, the file path pair, a padding byte,
   * the name pair, then up to three padding characters.
   */
  function MaterialSpec(data: seq<Byte>, s: State): Step<Material>
  {
    var pad1 :- ReadChar1(data, s);
    var path :- StringPair(data, pad1.next);
    var pad2 :- ReadChar1(data, path.next);
    var name :- StringPair(data, pad2.next);
    var pad3 := ReadCharsUpTo(data, name.next, 3);
    Ok(Parsed(Material(path.value, name.value), pad3.next))
  }

  method ReadMaterial(reader: FileReader) returns (r: Result<Material>)
    modifies reader
    ensures Agrees(r, reader.At(), MaterialSpec(reader.data, old(reader.At())))
  {
    var pad1 :- reader.ReadChar();
    var filePath :- ReadString(reader);
    var pad2 :- reader.ReadChar();
    var name :- ReadString(reader);
    var pad3 := reader.ReadChars(3);
    r := Ok(Material(filePath, name));
  }

  /** Where the zero bytes of a padding byte and a string pair `x`, `y` laid out at `o` fall. */
  lemma PaddedPairLayout(data: seq<Byte>, o: nat, p: Byte, x: seq<Byte>, y: seq<Byte>)
    requires 0 !in x && 0 !in y
    requires o + |x| + |y| + 3 <= |data| && data[o..o + |x| + |y| + 3] == [p] + x + [0] + y + [0]
    ensures data[o + 1 + |x|] == 0 && data[o + 2 + |x| + |y|] == 0 && data[o + 1..o + 1 + |x|] == x
    ensures forall j :: o + 1 <= j < o + 1 + |x| ==> data[j] != 0
    ensures forall j :: o + 2 + |x| <= j < o + 2 + |x| + |y| ==> data[j] != 0
  {
    var piece := [p] + x + [0] + y + [0];
    assert forall j :: o <= j < o + |piece| ==> data[j] == piece[j - o];
  }

  /** The string pair after the padding byte at `o` yields `x` and ends just past `y`'s terminator. */
  lemma PaddedPairAt(data: seq<Byte>, o: nat, p: Byte, x: seq<Byte>, y: seq<Byte>, bigEndian: bool)
    requires 0 !in x && 0 !in y
    requires o + |x| + |y| + 3 <= |data| && data[o..o + |x| + |y| + 3] == [p] + x + [0] + y + [0]
    ensures StringPair(data, State(o + 1, bigEndian)) == Ok(Parsed(Chars(x), State(o + |x| + |y| + 3, bigEndian)))
  {
    PaddedPairLayout(data, o, p, x, y);
    StringPairAt(data, State(o + 1, bigEndian), |x|, |y|);
  }

  /** A material record whose two string pairs, each after a padding byte, read as `x` and `y`. */
  lemma MaterialFromPairs(data: seq<Byte>, o: nat, o2: nat, e: nat, x: string, y: string, bigEndian: bool)
    requires o < o2 < e && e + 3 <= |data|
    requires StringPair(data, State(o + 1, bigEndian)) == Ok(Parsed(x, State(o2, bigEndian)))
    requires StringPair(data, State(o2 + 1, bigEndian)) == Ok(Parsed(y, State(e, bigEndian)))
    ensures MaterialSpec(data, State(o, bigEndian)) == Ok(Parsed(Material(x, y), State(e + 3, bigEndian)))
  {
  }

  /** A material record laid out as above decodes to its path and name and spans all its bytes. */
  lemma MaterialRoundTrip(pre: seq<Byte>, p: Byte, path: seq<Byte>, path2: seq<Byte>, q: Byte,
                          name: seq<Byte>, name2: seq<Byte>, pad: seq<Byte>, rest: seq<Byte>, bigEndian: bool)
    requires 0 !in path && 0 !in path2 && 0 !in name && 0 !in name2 && |pad| == 3
    ensures var record := ([p] + path + [0] + path2 + [0]) + ([q] + name + [0] + name2 + [0]) + pad;
      MaterialSpec(pre + record + rest, State(|pre|, bigEndian))
        == Ok(Parsed(Material(Chars(path), Chars(name)), State(|pre| + |record|, bigEndian)))
  {
    var first := [p] + path + [0] + path2 + [0];
    var second := [q] + name + [0] + name2 + [0];
    var data := pre + (first + second + pad) + rest;
    var o2 := |pre| + |first|;
    assert data[|pre|..o2] == first;
    assert data[o2..o2 + |second|] == second;
    PaddedPairAt(data, |pre|, p, path, path2, bigEndian);
    PaddedPairAt(data, o2, q, name, name2, bigEndian);
    MaterialFromPairs(data, |pre|, o2, o2 + |second|, Chars(path), Chars(name), bigEndian);
  }

  /** `MaterialSpec` over the file's bytes, as the step of the material loop. */
  function MaterialRecord(data: seq<Byte>): (State, nat) -> Step<Material>
  {
    (s, _) => MaterialSpec(data, s)
  }

  /** `step` reads one material as `MaterialSpec` does. */
  ghost predicate IsMaterialStep(step: (State, nat) -> Step<Material>, data: seq<Byte>)
  {
    forall t, k {:trigger MaterialSpec(data, t), step(t, k)} :: step(t, k) == MaterialSpec(data, t)
  }

  lemma MaterialRecordIsStep(data: seq<Byte>)
    ensures IsMaterialStep(MaterialRecord(data), data)
  {
  }

  /** A string pair keeps the byte order. */
  lemma StringPairKeepsOrder(data: seq<Byte>, s: State)
    requires StringPair(data, s).Ok?
    ensures StringPair(data, s).value.next.bigEndian == s.bigEndian
  {
    var first := ReadZString(data, s).value;
    ZStringKeepsOrder(data, s, s.pos);
    ZStringKeepsOrder(data, first.next, first.next.pos);
  }

  /** A material record keeps the byte order. */
  lemma MaterialKeepsOrder(data: seq<Byte>, s: State)
    requires MaterialSpec(data, s).Ok?
    ensures MaterialSpec(data, s).value.next.bigEndian == s.bigEndian
  {
    var pad1 := ReadChar1(data, s).value;
    StringPairKeepsOrder(data, pad1.next);
    var path := StringPair(data, pad1.next).value;
    var pad2 := ReadChar1(data, path.next).value;
    StringPairKeepsOrder(data, pad2.next);
  }

  /** `ReadMaterial` as one step of the material loop. */
  method ReadNextMaterial(reader: FileReader, remaining: nat,
                          ghost step: (State, nat) -> Step<Material>, ghost acc: seq<Material>)
    returns (r: Result<Material>)
    requires remaining > 0 && IsMaterialStep(step, reader.data)
    modifies reader
    ensures r.Ok? ==>
      Records(step, old(reader.At()), remaining, acc) == Records(step, reader.At(), remaining - 1, acc + [r.value])
    ensures r.Err? ==> Records(step, old(reader.At()), remaining, acc) == Err(r.error)
  {
    r := ReadMaterial(reader);
  }

  /**
   * The material loop: `count` records, one after another, proved for any
   * `step` that reads one material as `MaterialSpec` does (`MaterialRecord`).
   */
  method ReadMaterials(reader: FileReader, count: nat, ghost step: (State, nat) -> Step<Material>)
    returns (r: Result<seq<Material>>)
    requires IsMaterialStep(step, reader.data)
    modifies reader
    ensures Agrees(r, reader.At(), Records(step, old(reader.At()), count, []))
  {
    ghost var spec := Records(step, reader.At(), count, []);
    var materials := new Material[count](_ => Material("", ""));
    ghost var read: seq<Material> := [];
    var i := 0;
    while i < count
      invariant 0 <= i <= count && |read| == i
      invariant forall j :: 0 <= j < i ==> materials[j] == read[j]
      invariant spec == Records(step, reader.At(), count - i, read)
    {
      var material :- ReadNextMaterial(reader, count - i, step, read);
      materials[i] := material;
      read := read + [material];
      i := i + 1;
    }
    assert materials[..] == read;
    r := Ok(materials[..]);
  }

  /** The sub-mesh header: six 32-bit fields in the current byte order. */
  function SubMeshHeader(data: seq<Byte>, s: State): Step<SubMesh>
  {
    var magic :- ReadU32(data, s);
    var version :- ReadU32(data, magic.next);
    var numBuffers :- ReadU32(data, version.next);
    var unknown1 :- ReadU32(data, numBuffers.next);
    var unknown2 :- ReadU32(data, unknown1.next);
    var numVerts :- ReadU32(data, unknown2.next);
    Ok(Parsed(SubMesh(magic.value, version.value, numBuffers.value, unknown1.value, unknown2.value, numVerts.value),
              numVerts.next))
  }

  method ReadSubMesh(reader: FileReader) returns (r: Result<SubMesh>)
    modifies reader
    ensures Agrees(r, reader.At(), SubMeshHeader(reader.data, old(reader.At())))
  {
    var magic :- reader.ReadUInt32();
    var version :- reader.ReadUInt32();
    var numBuffers :- reader.ReadUInt32();
    var unknown1 :- reader.ReadUInt32();
    var unknown2 :- reader.ReadUInt32();
    var numVerts :- reader.ReadUInt32();
    r := Ok(SubMesh(magic, version, numBuffers, unknown1, unknown2, numVerts));
  }

  /**
   * The header is 24 bytes: it is read exactly when 24 bytes are left, and
   * its buffer and vertex counts are the third and sixth words.
   */
  lemma SubMeshHeaderLayout(data: seq<Byte>, s: State)
    ensures SubMeshHeader(data, s).Ok? <==> s.pos + 24 <= |data|
    ensures SubMeshHeader(data, s).Ok? ==>
      var h := SubMeshHeader(data, s).value;
      h.next == s.(pos := s.pos + 24) &&
      h.value.numBuffers == Word(data[s.pos + 8..s.pos + 12], s.bigEndian) &&
      h.value.numVerts == Word(data[s.pos + 20..s.pos + 24], s.bigEndian)
  {
  }

  /**
   * One iteration of the sub-mesh loop: align on the marker, read the header,
   * the buffers and the indices, look for the next marker (falling back to
   * four bytes per buffer), and assemble the mesh.
   */
  function SubMeshSpec(data: seq<Byte>, s: State, i: nat, numMeshes: nat): Step<Mesh>
  {
    var aligned :- SeekToMarker(data, s, Lookahead, 0);
    var header :- SubMeshHeader(data, aligned.next);
    var buffers :- BuffersSpec(data, header.next, header.value);
    var indices :- IndexSection(data, buffers.next);
    var resynced :-
      if i < (numMeshes + 1) % 0x1_0000_0000 then SeekToMarker(data, indices.next, Lookahead, ToInt32(4 * |buffers.value|))
      else Ok(Parsed((), indices.next));
    ParsedBuffersSized(data, header.next, header.value);
    Ok(Parsed(MeshSpec(header.value.numVerts, i, buffers.value, indices.value), resynced.next))
  }

  method ParseSubMesh(reader: FileReader, i: nat, numMeshes: nat) returns (r: Result<Mesh>)
    modifies reader
    ensures Agrees(r, reader.At(), SubMeshSpec(reader.data, old(reader.At()), i, numMeshes))
  {
    var aligned :- SeekToSMNR(reader, Lookahead, 0);
    var header :- ReadSubMesh(reader);
    ghost var start := reader.At();
    BufferRecordIsStep(reader.data, header.numVerts);
    var buffers :- ParseDXTV(reader, header, BufferRecord(reader.data, header.numVerts));
    var indices :- ReadIndices(reader);
    if i < (numMeshes + 1) % 0x1_0000_0000 {
      var resynced :- SeekToSMNR(reader, Lookahead, ToInt32(4 * |buffers|));
    }
    ParsedBuffersSized(reader.data, start, header);
    var mesh := ConvertToDae(header.numVerts, i, buffers, indices);
    r := Ok(mesh);
  }

  /** A parsed sub-mesh is named after its position in the scene, and leaves the byte order big-endian. */
  lemma SubMeshShape(data: seq<Byte>, s: State, i: nat, numMeshes: nat)
    requires SubMeshSpec(data, s, i, numMeshes).Ok?
    ensures var m := SubMeshSpec(data, s, i, numMeshes).value;
      m.next.bigEndian && m.value.name == MeshName(i)
  {
  }

  /** `SubMeshSpec` as the step of the sub-mesh loop: the record's index is the iteration. */
  function MeshRecord(data: seq<Byte>, numMeshes: nat): (State, nat) -> Step<Mesh>
  {
    (s: State, i: nat) => SubMeshSpec(data, s, i, numMeshes)
  }

  /** The sub-mesh loop over `numMeshes` sub-meshes. */
  function MeshesSpec(data: seq<Byte>, s: State, numMeshes: nat): Step<seq<Mesh>>
  {
    Records(MeshRecord(data, numMeshes), s, numMeshes, [])
  }

  /** `step` reads sub-mesh `i` as `SubMeshSpec` does. */
  ghost predicate IsMeshStep(step: (State, nat) -> Step<Mesh>, data: seq<Byte>, numMeshes: nat)
  {
    forall t, i {:trigger SubMeshSpec(data, t, i, numMeshes)} :: step(t, i) == SubMeshSpec(data, t, i, numMeshes)
  }

  lemma MeshRecordIsStep(data: seq<Byte>, numMeshes: nat)
    ensures IsMeshStep(MeshRecord(data, numMeshes), data, numMeshes)
  {
  }

  /** `ParseSubMesh` as one step of the sub-mesh loop. */
  method ParseNextMesh(reader: FileReader, i: nat, remaining: nat, numMeshes: nat,
                       ghost step: (State, nat) -> Step<Mesh>, ghost acc: seq<Mesh>) returns (r: Result<Mesh>)
    requires remaining > 0 && i == |acc| && IsMeshStep(step, reader.data, numMeshes)
    modifies reader
    ensures r.Ok? ==>
      Records(step, old(reader.At()), remaining, acc) == Records(step, reader.At(), remaining - 1, acc + [r.value])
    ensures r.Err? ==> Records(step, old(reader.At()), remaining, acc) == Err(r.error)
  {
    r := ParseSubMesh(reader, i, numMeshes);
  }

  /** The sub-mesh loop, proved for any `step` that reads sub-meshes as `SubMeshSpec` does (`MeshRecord`). */
  method ParseMeshes(reader: FileReader, numMeshes: nat, ghost step: (State, nat) -> Step<Mesh>)
    returns (r: Result<seq<Mesh>>)
    requires IsMeshStep(step, reader.data, numMeshes)
    modifies reader
    ensures Agrees(r, reader.At(), Records(step, old(reader.At()), numMeshes, []))
  {
    ghost var spec := Records(step, reader.At(), numMeshes, []);
    var meshes: seq<Mesh> := [];
    var i := 0;
    while i < numMeshes
      invariant 0 <= i <= numMeshes && |meshes| == i
      invariant spec == Records(step, reader.At(), numMeshes - i, meshes)
    {
      var mesh :- ParseNextMesh(reader, i, numMeshes - i, numMeshes, step, meshes);
      meshes := meshes + [mesh];
      i := i + 1;
    }
    r := Ok(meshes);
  }

  /** There is one mesh per declared sub-mesh, each named after its position in the list. */
  lemma MeshesNamedInOrder(data: seq<Byte>, s: State, numMeshes: nat)
    requires MeshesSpec(data, s, numMeshes).Ok?
    ensures var ms := MeshesSpec(data, s, numMeshes).value.value;
      |ms| == numMeshes && forall j :: 0 <= j < |ms| ==> ms[j].name == MeshName(j)
  {
    var step := MeshRecord(data, numMeshes);
    var P := (m: Mesh, i: nat) => m.name == MeshName(i);
    forall t, i | step(t, i).Ok?
      ensures P(step(t, i).value.value, i)
    {
      SubMeshShape(data, t, i, numMeshes);
    }
    RecordsCount(step, s, numMeshes, []);
    RecordsAll(step, P, s, numMeshes, []);
    var ms := MeshesSpec(data, s, numMeshes).value.value;
    assert forall j :: 0 <= j < |ms| ==> ms[j].name == MeshName(j) by {
      assert forall j :: 0 <= j < |ms| ==> P(ms[j], j);
    }
  }

  /** `Replace("/", "\\")`: every slash becomes a backslash, every other character stays. */
  function Backslashed(t: string): (r: string)
    ensures |r| == |t| && '/' !in r
    ensures forall i :: 0 <= i < |t| ==> r[i] == (if t[i] == '/' then '\\' else t[i])
  {
    seq(|t|, i requires 0 <= i < |t| => if t[i] == '/' then '\\' else t[i])
  }

  /** The replacement works character by character, so it splits over a concatenation. */
  lemma BackslashedSplits(a: string, b: string)
    ensures Backslashed(a + b) == Backslashed(a) + Backslashed(b)
  {
    assert forall i :: 0 <= i < |a| + |b| ==> (a + b)[i] == if i < |a| then a[i] else b[i - |a|];
  }

  /** `Name.Remove(0, 1).Replace("/", "\\")`: drop the first character, then turn slashes into backslashes. */
  function RelativePath(name: Option<string>): (r: Result<string>)
    ensures name.None? ==> r == Err(NoName)
    ensures name == Some("") ==> r == Err(EmptyName)
    ensures name.Some? && name.value != "" ==>
      r.Ok? && |r.value| == |name.value| - 1 && '/' !in r.value &&
      forall i :: 0 <= i < |r.value| ==>
        r.value[i] == (if name.value[i + 1] == '/' then '\\' else name.value[i + 1])
  {
    match name
    case None => Err(NoName)
    case Some(n) =>
      if n == "" then Err(EmptyName) else Ok(Backslashed(n[1..]))
  }

  /** The asset name the exporter's own comments walk through, written segment by segment. */
  lemma RelativePathExample()
    ensures RelativePath(Some("-" + "Assets/" + "Core/" + "RopeAssets/" + "ledge_end2_dx11.model"))
      == Ok("Assets\\" + "Core\\" + "RopeAssets\\" + "ledge_end2_dx11.model")
  {
    var name := "-" + "Assets/" + "Core/" + "RopeAssets/" + "ledge_end2_dx11.model";
    var path := "Assets/" + "Core/" + "RopeAssets/" + "ledge_end2_dx11.model";
    assert name == "-" + path && name[1..] == path;
    BackslashedSplits("Assets/" + "Core/" + "RopeAssets/", "ledge_end2_dx11.model");
    BackslashedSplits("Assets/" + "Core/", "RopeAssets/");
    BackslashedSplits("Assets/", "Core/");
    assert Backslashed("Assets/") == "Assets\\";
    assert Backslashed("Core/") == "Core\\";
    assert Backslashed("RopeAssets/") == "RopeAssets\\";
    assert Backslashed("ledge_end2_dx11.model") == "ledge_end2_dx11.model";
  }

  /**
   * The scene chunk: material count, two fields of padding, the materials,
   * a padding word, the sub-mesh count, a constant word, the sub-meshes, and
   * then the output path from the asset name read earlier.
   */
  function SceneSpec(data: seq<Byte>, s: State, name: Option<string>): Step<Export>
  {
    var numMaterials :- ReadU32(data, s);
    var unknown :- ReadU16(data, numMaterials.next);
    var padding :- ReadI16(data, unknown.next);
    var materials :- Records(MaterialRecord(data), padding.next, numMaterials.value, []);
    var padding2 :- ReadU32(data, materials.next);
    var numMeshes :- ReadU32(data, padding2.next);
    var one :- ReadU32(data, numMeshes.next);
    var meshes :- MeshesSpec(data, one.next, numMeshes.value);
    var path :- RelativePath(name);
    Ok(Parsed(Export(path, "Model", meshes.value), meshes.next))
  }

  /** A scene chunk read in big-endian order leaves the byte order big-endian. */
  lemma SceneKeepsBigEndian(data: seq<Byte>, s: State, name: Option<string>)
    requires s.bigEndian && SceneSpec(data, s, name).Ok?
    ensures SceneSpec(data, s, name).value.next.bigEndian
  {
    var Q := (t: State) => t.bigEndian;
    var numMaterials := ReadU32(data, s).value;
    var unknown := ReadU16(data, numMaterials.next).value;
    var padding := ReadI16(data, unknown.next).value;
    var materialStep := MaterialRecord(data);
    forall t, k | Q(t) && materialStep(t, k).Ok?
      ensures Q(materialStep(t, k).value.next)
    {
      MaterialKeepsOrder(data, t);
    }
    RecordsEnd(materialStep, Q, padding.next, numMaterials.value, []);
    var materials := Records(materialStep, padding.next, numMaterials.value, []).value;
    var padding2 := ReadU32(data, materials.next).value;
    var numMeshes := ReadU32(data, padding2.next).value;
    var one := ReadU32(data, numMeshes.next).value;
    var meshStep := MeshRecord(data, numMeshes.value);
    forall t, i | Q(t) && meshStep(t, i).Ok?
      ensures Q(meshStep(t, i).value.next)
    {
      SubMeshShape(data, t, i, numMeshes.value);
    }
    RecordsEnd(meshStep, Q, one.next, numMeshes.value, []);
  }

  method ParseCSG(reader: FileReader, name: Option<string>) returns (r: Result<Export>)
    modifies reader
    ensures Agrees(r, reader.At(), SceneSpec(reader.data, old(reader.At()), name))
  {
    var numMaterials :- reader.ReadUInt32();
    var unknown :- reader.ReadUInt16();
    var padding :- reader.ReadInt16();
    MaterialRecordIsStep(reader.data);
    var materials :- ReadMaterials(reader, numMaterials, MaterialRecord(reader.data));
    var padding2 :- reader.ReadUInt32();
    var numMeshes :- reader.ReadUInt32();
    var one :- reader.ReadUInt32();
    MeshRecordIsStep(reader.data, numMeshes);
    var meshes :- ParseMeshes(reader, numMeshes, MeshRecord(reader.data, numMeshes));
    var path :- RelativePath(name);
    r := Ok(Export(path, "Model", meshes));
  }
}
