/**
 * The vertex-buffer decoder (`ParseDXTV`, `ParseVertex`, `ReadSignature`):
 * each buffer declares its own attribute table, its stride is the sum of the
 * attribute widths, and every vertex's every attribute is read little-endian
 * at `payloadStart + stride * v + offset`.
 */
module VertexBuffers {
  import opened Wrappers
  import opened Bytes
  import opened Reader
  import opened Formats

  /**
   * A decoded attribute value: four raw words in the format's component
   * width, with the components past the format's arity zero.
   */
  datatype Vec4 = Vec4(x: nat, y: nat, z: nat, w: nat)

  /** An attribute of a buffer with its value for every vertex. */
  datatype DecodedAttribute = DecodedAttribute(attribute: Attribute, data: seq<Vec4>)

  datatype Buffer = Buffer(attributes: seq<DecodedAttribute>)

  /** The fixed sub-mesh header: six consecutive 32-bit fields. */
  datatype SubMesh = SubMesh(magic: nat, version: nat, numBuffers: nat, unknown1: nat, unknown2: nat, numVerts: nat)

  const BufferSignature: string := "DXTV"

  /** How many components `ParseVertex` reads for a format. */
  function Arity(f: Format): nat
  {
    match f
    case Vec2Float => 2
    case Vec3Float => 3
    case Vec2Half => 2
    case _ => 4
  }

  /** The bytes of one component: a single, a half-single or a byte. */
  function ComponentSize(f: Format): nat
  {
    match f
    case Vec2Float | Vec3Float | Vec4Float => 4
    case Vec2Half | Vec4Half => 2
    case Vec4Byte | Vec4ByteF | Color4Byte => 1
  }

  /** Up to four components as a value, zero-filled. */
  function ToVec4(cs: seq<nat>): Vec4
  {
    Vec4(if |cs| > 0 then cs[0] else 0, if |cs| > 1 then cs[1] else 0,
         if |cs| > 2 then cs[2] else 0, if |cs| > 3 then cs[3] else 0)
  }

  /** `count` consecutive reads of `size`-byte words in the current byte order. */
  function ReadComponents(data: seq<Byte>, s: State, size: nat, count: nat): Step<seq<nat>>
    decreases count
  {
    if count == 0 then Ok(Parsed([], s))
    else
      var c :- ReadUInt(data, s, size);
      var rest :- ReadComponents(data, c.next, size, count - 1);
      Ok(Parsed([c.value] + rest.value, rest.next))
  }

  /** `ParseVertex`: the component reads of one value of the given format. */
  function ParseVertexSpec(data: seq<Byte>, s: State, f: Format): Step<Vec4>
  {
    var cs :- ReadComponents(data, s, ComponentSize(f), Arity(f));
    Ok(Parsed(ToVec4(cs.value), cs.next))
  }

  /** `bs` cut into `count` words of `size` bytes each. */
  function SplitWords(bs: seq<Byte>, size: nat, count: nat, bigEndian: bool): (ws: seq<nat>)
    requires |bs| == size * count
    ensures |ws| == count
    decreases count
  {
    if count == 0 then []
    else
      assert size * count == size + size * (count - 1);
      [Word(bs[..size], bigEndian)] + SplitWords(bs[size..], size, count - 1, bigEndian)
  }

  /** The value stored in the `Width(f)` bytes `bs`. */
  function Decode(bs: seq<Byte>, f: Format, bigEndian: bool): Vec4
    requires |bs| == Width(f)
  {
    ToVec4(SplitWords(bs, ComponentSize(f), Arity(f), bigEndian))
  }

  /** `count` reads of `size` bytes succeed exactly when `size * count` bytes are left, and consume them. */
  lemma {:induction false} ReadComponentsSpan(data: seq<Byte>, s: State, size: nat, count: nat)
    requires s.pos <= |data|
    ensures var r := ReadComponents(data, s, size, count);
      (r.Ok? <==> s.pos + size * count <= |data|) &&
      (r.Ok? ==> (r.value.next == s.(pos := s.pos + size * count) &&
                  r.value.value == SplitWords(data[s.pos..s.pos + size * count], size, count, s.bigEndian)))
    decreases count
  {
    if count > 0 {
      var total, tail := size * count, size * (count - 1);
      assert total == size + tail && tail >= 0;
      if s.pos + size <= |data| {
        var s' := s.(pos := s.pos + size);
        var c := ReadUInt(data, s, size);
        assert c == Ok(Parsed(Word(data[s.pos..s.pos + size], s.bigEndian), s'));
        ReadComponentsSpan(data, s', size, count - 1);
        var rest := ReadComponents(data, s', size, count - 1);
        assert ReadComponents(data, s, size, count)
          == if rest.Ok? then Ok(Parsed([c.value.value] + rest.value.value, rest.value.next)) else rest;
        if s.pos + total <= |data| {
          var bs := data[s.pos..s.pos + total];
          assert bs[..size] == data[s.pos..s.pos + size];
          assert bs[size..] == data[s'.pos..s'.pos + tail];
          assert SplitWords(bs, size, count, s.bigEndian)
            == [Word(bs[..size], s.bigEndian)] + SplitWords(bs[size..], size, count - 1, s.bigEndian);
        }
      } else {
        assert ReadUInt(data, s, size).Err?;
      }
    }
  }

  /**
   * Decoding one value consumes exactly the width `GetStride` gives its
   * format, and fails exactly when fewer bytes are left.
   */
  lemma ParseVertexConsumesWidth(data: seq<Byte>, s: State, f: Format)
    ensures var r := ParseVertexSpec(data, s, f);
      (r.Ok? <==> s.pos + Width(f) <= |data|) &&
      (r.Ok? ==> (r.value.next == s.(pos := s.pos + Width(f)) &&
                  r.value.value == Decode(data[s.pos..s.pos + Width(f)], f, s.bigEndian)))
  {
    if s.pos <= |data| {
      ReadComponentsSpan(data, s, ComponentSize(f), Arity(f));
    }
  }

  /** A 32-bit float's raw word (`ReadSingle`; the float value is not modelled). */
  method ReadSingle(reader: FileReader) returns (r: Result<nat>)
    modifies reader
    ensures Agrees(r, reader.At(), ReadUInt(reader.data, old(reader.At()), 4))
  {
    r := reader.ReadUInt32();
  }

  /** A 16-bit half float's raw word (`ReadHalfSingle`). */
  method ReadHalfSingle(reader: FileReader) returns (r: Result<nat>)
    modifies reader
    ensures Agrees(r, reader.At(), ReadUInt(reader.data, old(reader.At()), 2))
  {
    r := reader.ReadUInt16();
  }

  method ReadByteWord(reader: FileReader) returns (r: Result<nat>)
    modifies reader
    ensures Agrees(r, reader.At(), ReadUInt(reader.data, old(reader.At()), 1))
  {
    var b :- reader.ReadByte();
    assert reader.data[old(reader.pos)..old(reader.pos) + 1] == [b];
    r := Ok(b);
  }

  /** One component: a single, a half-single or a byte, by its size. */
  method ReadComponent(reader: FileReader, size: nat) returns (r: Result<nat>)
    requires size == 1 || size == 2 || size == 4
    modifies reader
    ensures Agrees(r, reader.At(), ReadUInt(reader.data, old(reader.At()), size))
  {
    if size == 4 {
      r := ReadSingle(reader);
    } else if size == 2 {
      r := ReadHalfSingle(reader);
    } else {
      r := ReadByteWord(reader);
    }
  }

  /** A two-component value, zero-filled. */
  method ParseVec2(reader: FileReader, f: Format) returns (r: Result<Vec4>)
    requires Arity(f) == 2
    modifies reader
    ensures Agrees(r, reader.At(), ParseVertexSpec(reader.data, old(reader.At()), f))
  {
    var x :- ReadComponent(reader, ComponentSize(f));
    var y :- ReadComponent(reader, ComponentSize(f));
    r := Ok(Vec4(x, y, 0, 0));
  }

  /** A three-component value, zero-filled. */
  method ParseVec3(reader: FileReader, f: Format) returns (r: Result<Vec4>)
    requires Arity(f) == 3
    modifies reader
    ensures Agrees(r, reader.At(), ParseVertexSpec(reader.data, old(reader.At()), f))
  {
    var x :- ReadComponent(reader, ComponentSize(f));
    var y :- ReadComponent(reader, ComponentSize(f));
    var z :- ReadComponent(reader, ComponentSize(f));
    r := Ok(Vec4(x, y, z, 0));
  }

  /** A four-component value. */
  method ParseVec4(reader: FileReader, f: Format) returns (r: Result<Vec4>)
    requires Arity(f) == 4
    modifies reader
    ensures Agrees(r, reader.At(), ParseVertexSpec(reader.data, old(reader.At()), f))
  {
    var x :- ReadComponent(reader, ComponentSize(f));
    var y :- ReadComponent(reader, ComponentSize(f));
    var z :- ReadComponent(reader, ComponentSize(f));
    var w :- ReadComponent(reader, ComponentSize(f));
    r := Ok(Vec4(x, y, z, w));
  }

  /**
   * `ParseVertex`: the source's switch, one read per component of the
   * format (the normalised byte variant's division by 255 is floating point
   * and not modelled).
   */
  method ParseVertex(reader: FileReader, format: Format) returns (r: Result<Vec4>)
    modifies reader
    ensures Agrees(r, reader.At(), ParseVertexSpec(reader.data, old(reader.At()), format))
  {
    match format
    case Vec2Float | Vec2Half =>
      r := ParseVec2(reader, format);
    case Vec3Float =>
      r := ParseVec3(reader, format);
    case Vec4Float | Vec4Byte | Vec4ByteF | Color4Byte | Vec4Half =>
      r := ParseVec4(reader, format);
  }

  /** `t` without its trailing spaces (`TrimEnd(' ')`). */
  function TrimEndSpaces(t: string): (r: string)
    ensures |r| <= |t| && r == t[..|r|]
    ensures r == [] || r[|r| - 1] != ' '
    ensures forall i :: |r| <= i < |t| ==> t[i] == ' '
  {
    if t != [] && t[|t| - 1] == ' ' then TrimEndSpaces(t[..|t| - 1]) else t
  }

  /**
   * `ReadSignature`: `length` ASCII characters, with trailing spaces dropped
   * when `trimEnd`, must equal `expected`. The read itself never fails: at the
   * end of the stream it comes back short and then does not match.
   */
  function SignatureSpec(data: seq<Byte>, s: State, length: nat, expected: string, trimEnd: bool): Step<string>
  {
    var t := ReadAsciiUpTo(data, s, length);
    var text := if trimEnd then TrimEndSpaces(t.value) else t.value;
    if text != expected then Err(InvalidSignature(text)) else Ok(Parsed(text, t.next))
  }

  method ReadSignature(reader: FileReader, length: nat, expected: string, trimEnd: bool) returns (r: Result<string>)
    modifies reader
    ensures Agrees(r, reader.At(), SignatureSpec(reader.data, old(reader.At()), length, expected, trimEnd))
  {
    var text := reader.ReadAsciiString(length);
    if trimEnd {
      text := TrimEndSpaces(text);
    }
    if text != expected {
      return Err(InvalidSignature(text));
    }
    r := Ok(text);
  }

  /** A buffer's signature check passes exactly when the next four bytes are 'D', 'X', 'T', 'V'. */
  lemma SignatureIsDxtv(data: seq<Byte>, s: State)
    ensures SignatureSpec(data, s, 4, BufferSignature, false).Ok?
        <==> s.pos + 4 <= |data| && data[s.pos..s.pos + 4] == [68, 88, 84, 86]
  {
    var t := ReadAsciiUpTo(data, s, 4);
    var k := Available(data, s, 4);
    if k > 0 {
      AsciiMatches(data[s.pos..s.pos + k], BufferSignature);
    }
    if s.pos + 4 <= |data| && data[s.pos..s.pos + 4] == [68, 88, 84, 86] {
      assert k == 4;
    }
  }

  /** `count` attribute entries of three bytes each: type, format, offset. */
  function AttributeTable(data: seq<Byte>, p: nat, count: nat): (t: seq<Attribute>)
    requires count == 0 || p + 3 * count <= |data|
    ensures |t| == count
  {
    seq(count, j requires 0 <= j < count => Attribute(data[p + 3 * j], data[p + 3 * j + 1], data[p + 3 * j + 2]))
  }

  function ReadAttributeTable(data: seq<Byte>, s: State, count: nat): Step<seq<Attribute>>
  {
    if count == 0 || s.pos + 3 * count <= |data| then
      Ok(Parsed(AttributeTable(data, s.pos, count), s.(pos := s.pos + 3 * count)))
    else Err(OutOfData)
  }

  predicate AllKnown(attrs: seq<Attribute>)
  {
    forall j :: 0 <= j < |attrs| ==> Known(attrs[j])
  }

  function FormatOfAttribute(a: Attribute): Format
    requires Known(a)
  {
    FormatOf(a.format).value
  }

  /** Where vertex `v`'s value of attribute `a` starts: records are `stride` bytes apart. */
  function Address(base: nat, stride: nat, v: nat, a: Attribute): nat
  {
    base + stride * v + a.offset
  }

  predicate Fits(data: seq<Byte>, at: nat, f: Format)
  {
    at + Width(f) <= |data|
  }

  /** Every vertex's every attribute lies inside the stream. */
  predicate PayloadFits(data: seq<Byte>, base: nat, stride: nat, attrs: seq<Attribute>, numVerts: nat)
    requires AllKnown(attrs)
  {
    forall v, j :: 0 <= v < numVerts && 0 <= j < |attrs| ==>
      Fits(data, Address(base, stride, v, attrs[j]), FormatOfAttribute(attrs[j]))
  }

  /** The little-endian value of format `f` stored at `at`. */
  function ValueAt(data: seq<Byte>, at: nat, f: Format): Vec4
    requires Fits(data, at, f)
  {
    Decode(data[at..at + Width(f)], f, false)
  }

  /** Each attribute with its value for every vertex, read at the vertex's record plus the attribute's offset. */
  function Payload(data: seq<Byte>, base: nat, stride: nat, attrs: seq<Attribute>, numVerts: nat): (p: seq<DecodedAttribute>)
    requires AllKnown(attrs) && PayloadFits(data, base, stride, attrs, numVerts)
    ensures |p| == |attrs|
  {
    seq(|attrs|, j requires 0 <= j < |attrs| =>
      DecodedAttribute(attrs[j], seq(numVerts, v requires 0 <= v < numVerts =>
        ValueAt(data, Address(base, stride, v, attrs[j]), FormatOfAttribute(attrs[j])))))
  }

  /**
   * The header of one vertex buffer: the "DXTV" signature, a version, the
   * attribute count and table, then 6 bytes of padding.
   */
  function BufferHeader(data: seq<Byte>, s: State): Step<seq<Attribute>>
  {
    var sig :- SignatureSpec(data, s, 4, BufferSignature, false);
    var version :- ReadU32(data, sig.next);
    var count :- ReadU32(data, version.next);
    var table :- ReadAttributeTable(data, count.next, count.value);
    var padded :- SeekRelative(table.next, 6);
    Ok(Parsed(table.value, padded.next))
  }

  /**
   * One vertex buffer: its header, then the little-endian payload of
   * `numVerts` records of `stride` bytes, then 16 bytes of padding. The stride
   * is computed before any payload read; afterwards the byte order is
   * big-endian again.
   */
  function BufferSpec(data: seq<Byte>, s: State, numVerts: nat): Step<Buffer>
  {
    var header :- BufferHeader(data, s);
    BufferBody(data, header.value, header.next.pos, numVerts)
  }

  /** What follows the header of a buffer whose table is `attrs` and whose payload starts at `base`. */
  function BufferBody(data: seq<Byte>, attrs: seq<Attribute>, base: nat, numVerts: nat): Step<Buffer>
  {
    var stride :- Stride(attrs);
    StrideDefined(attrs);
    if !PayloadFits(data, base, stride, attrs, numVerts) then Err(OutOfData)
    else Ok(Parsed(Buffer(Payload(data, base, stride, attrs, numVerts)),
                   State(base + stride * numVerts + 16, true)))
  }

  /** The attribute table loop: three byte reads per entry. */
  method ReadAttributes(reader: FileReader, count: nat) returns (r: Result<seq<Attribute>>)
    modifies reader
    ensures Agrees(r, reader.At(), ReadAttributeTable(reader.data, old(reader.At()), count))
  {
    ghost var s0 := reader.At();
    var table := new Attribute[count];
    var j := 0;
    while j < count
      invariant 0 <= j <= count
      invariant reader.At() == s0.(pos := s0.pos + 3 * j)
      invariant j > 0 ==> s0.pos + 3 * j <= |reader.data|
      invariant forall i :: 0 <= i < j ==>
        table[i] == Attribute(reader.data[s0.pos + 3 * i], reader.data[s0.pos + 3 * i + 1], reader.data[s0.pos + 3 * i + 2])
    {
      var kind :- reader.ReadByte();
      var format :- reader.ReadByte();
      var offset :- reader.ReadByte();
      table[j] := Attribute(kind, format, offset);
      j := j + 1;
    }
    assert table[..] == AttributeTable(reader.data, s0.pos, count);
    r := Ok(table[..]);
  }

  /** `x` is vertex `v`'s value of attribute `i`. */
  predicate Filled(data: seq<Byte>, base: nat, stride: nat, attrs: seq<Attribute>, x: Vec4, v: nat, i: nat)
    requires AllKnown(attrs) && i < |attrs|
  {
    Fits(data, Address(base, stride, v, attrs[i]), FormatOfAttribute(attrs[i])) &&
    x == ValueAt(data, Address(base, stride, v, attrs[i]), FormatOfAttribute(attrs[i]))
  }

  /** Seek to `at` and decode a little-endian value of format `f` there. */
  method ReadValueAt(reader: FileReader, at: nat, f: Format) returns (r: Result<Vec4>)
    requires !reader.bigEndian
    modifies reader
    ensures r.Ok? <==> Fits(reader.data, at, f)
    ensures r.Ok? ==> r.value == ValueAt(reader.data, at, f) && !reader.bigEndian
  {
    var moved := reader.SeekBegin(at);
    ParseVertexConsumesWidth(reader.data, reader.At(), f);
    r := ParseVertex(reader, f);
  }

  /** The inner loop over the attributes of vertex `v`. */
  method ReadRecord(reader: FileReader, base: nat, attrs: seq<Attribute>, stride: nat, values: array2<Vec4>, v: nat)
      returns (ok: bool)
    requires AllKnown(attrs) && !reader.bigEndian
    requires values.Length0 == |attrs| && v < values.Length1
    modifies reader, values
    ensures ok ==> !reader.bigEndian
    ensures ok <==> forall i :: 0 <= i < |attrs| ==> Fits(reader.data, Address(base, stride, v, attrs[i]), FormatOfAttribute(attrs[i]))
    ensures ok ==> forall i :: 0 <= i < |attrs| ==> Filled(reader.data, base, stride, attrs, values[i, v], v, i)
    ensures forall w, i :: 0 <= w < values.Length1 && w != v && 0 <= i < |attrs| ==> values[i, w] == old(values[i, w])
  {
    var j := 0;
    while j < |attrs|
      invariant 0 <= j <= |attrs| && !reader.bigEndian
      invariant forall i :: 0 <= i < j ==> Filled(reader.data, base, stride, attrs, values[i, v], v, i)
      invariant forall w, i :: 0 <= w < values.Length1 && w != v && 0 <= i < |attrs| ==> values[i, w] == old(values[i, w])
    {
      var x := ReadValueAt(reader, Address(base, stride, v, attrs[j]), FormatOfAttribute(attrs[j]));
      if x.Err? {
        assert !Fits(reader.data, Address(base, stride, v, attrs[j]), FormatOfAttribute(attrs[j]));
        return false;
      }
      values[j, v] := x.value;
      j := j + 1;
    }
    forall i | 0 <= i < |attrs|
      ensures Fits(reader.data, Address(base, stride, v, attrs[i]), FormatOfAttribute(attrs[i]))
    {
      assert Filled(reader.data, base, stride, attrs, values[i, v], v, i);
    }
    ok := true;
  }

  /** The vertex loop of one buffer: for each vertex and each attribute, seek to its address and decode it. */
  method ReadValues(reader: FileReader, base: nat, attrs: seq<Attribute>, stride: nat, values: array2<Vec4>)
      returns (ok: bool)
    requires AllKnown(attrs) && !reader.bigEndian && values.Length0 == |attrs|
    modifies reader, values
    ensures ok ==> !reader.bigEndian
    ensures ok <==> PayloadFits(reader.data, base, stride, attrs, values.Length1)
    ensures ok ==> forall w, i :: 0 <= w < values.Length1 && 0 <= i < |attrs| ==>
      Filled(reader.data, base, stride, attrs, values[i, w], w, i)
  {
    var v := 0;
    while v < values.Length1
      invariant 0 <= v <= values.Length1 && !reader.bigEndian
      invariant forall w, i :: 0 <= w < v && 0 <= i < |attrs| ==> Filled(reader.data, base, stride, attrs, values[i, w], w, i)
    {
      ok := ReadRecord(reader, base, attrs, stride, values, v);
      if !ok {
        ghost var i :| 0 <= i < |attrs| && !Fits(reader.data, Address(base, stride, v, attrs[i]), FormatOfAttribute(attrs[i]));
        assert !PayloadFits(reader.data, base, stride, attrs, values.Length1);
        return;
      }
      v := v + 1;
    }
    forall w, i | 0 <= w < values.Length1 && 0 <= i < |attrs|
      ensures Fits(reader.data, Address(base, stride, w, attrs[i]), FormatOfAttribute(attrs[i]))
    {
      assert Filled(reader.data, base, stride, attrs, values[i, w], w, i);
    }
    ok := true;
  }

  /** `ParseDXTV`'s per-buffer payload: one array of `numVerts` values per attribute, read from `base` on. */
  method ReadPayload(reader: FileReader, attrs: seq<Attribute>, stride: nat, numVerts: nat)
      returns (r: Result<seq<DecodedAttribute>>)
    requires AllKnown(attrs) && !reader.bigEndian
    modifies reader
    ensures r.Ok? ==> !reader.bigEndian
    ensures PayloadFits(reader.data, old(reader.pos), stride, attrs, numVerts)
      ==> r == Ok(Payload(reader.data, old(reader.pos), stride, attrs, numVerts))
    ensures !PayloadFits(reader.data, old(reader.pos), stride, attrs, numVerts) ==> r == Err(OutOfData)
  {
    var base := reader.pos;
    var values := new Vec4[|attrs|, numVerts];
    var ok := ReadValues(reader, base, attrs, stride, values);
    if !ok {
      return Err(OutOfData);
    }
    var decoded := seq(|attrs|, i requires 0 <= i < |attrs| reads values =>
      DecodedAttribute(attrs[i], seq(numVerts, w requires 0 <= w < numVerts reads values => values[i, w])));
    ghost var expected := Payload(reader.data, base, stride, attrs, numVerts);
    forall i | 0 <= i < |attrs|
      ensures decoded[i] == expected[i]
    {
      forall w | 0 <= w < numVerts
        ensures decoded[i].data[w] == expected[i].data[w]
      {
        assert Filled(reader.data, base, stride, attrs, values[i, w], w, i);
      }
      assert decoded[i].data == expected[i].data;
    }
    assert decoded == expected;
    r := Ok(decoded);
  }

  /** `ParseDXTV`'s loop body for one buffer. */
  method ParseBuffer(reader: FileReader, numVerts: nat) returns (r: Result<Buffer>)
    modifies reader
    ensures Agrees(r, reader.At(), BufferSpec(reader.data, old(reader.At()), numVerts))
  {
    var sig :- ReadSignature(reader, 4, BufferSignature, false);
    var version :- reader.ReadUInt32();
    var count :- reader.ReadUInt32();
    var table :- ReadAttributes(reader, count);
    var padded := reader.Seek(6);
    var stride :- Stride(table);
    StrideDefined(table);
    reader.SetByteOrder(false);
    var base := reader.pos;
    var payload :- ReadPayload(reader, table, stride, numVerts);
    reader.SetByteOrder(true);
    var done := reader.SeekBegin(base + stride * numVerts + 16);
    r := Ok(Buffer(payload));
  }

  /** `BufferSpec` for buffers of `numVerts` vertices, as the step of the buffer loop. */
  function BufferRecord(data: seq<Byte>, numVerts: nat): (State, nat) -> Step<Buffer>
  {
    (s, _) => BufferSpec(data, s, numVerts)
  }

  /** `ParseDXTV`: the sub-mesh's `numBuffers` buffers of `numVerts` vertices each, in file order. */
  function BuffersSpec(data: seq<Byte>, s: State, mesh: SubMesh): Step<seq<Buffer>>
  {
    Records(BufferRecord(data, mesh.numVerts), s, mesh.numBuffers, [])
  }

  /**
   * `step` reads one buffer as `BufferSpec` does. The loop below is proved
   * against such a `step` rather than against `BufferSpec` itself, which keeps
   * the buffer layout out of the loop's proof.
   */
  ghost predicate IsBufferStep(step: (State, nat) -> Step<Buffer>, data: seq<Byte>, numVerts: nat)
  {
    forall t, k {:trigger BufferSpec(data, t, numVerts), step(t, k)} :: step(t, k) == BufferSpec(data, t, numVerts)
  }

  lemma BufferRecordIsStep(data: seq<Byte>, numVerts: nat)
    ensures IsBufferStep(BufferRecord(data, numVerts), data, numVerts)
  {
  }

  /** `ParseBuffer` as one step of the buffer loop. */
  method ParseNextBuffer(reader: FileReader, remaining: nat, numVerts: nat,
                         ghost step: (State, nat) -> Step<Buffer>, ghost acc: seq<Buffer>) returns (r: Result<Buffer>)
    requires remaining > 0 && IsBufferStep(step, reader.data, numVerts)
    modifies reader
    ensures r.Ok? ==>
      Records(step, old(reader.At()), remaining, acc) == Records(step, reader.At(), remaining - 1, acc + [r.value])
    ensures r.Err? ==> Records(step, old(reader.At()), remaining, acc) == Err(r.error)
  {
    r := ParseBuffer(reader, numVerts);
  }

  /**
   * The buffer loop, proved for any `step` that reads one buffer as `BufferSpec`
   * does; with `BufferRecord` as `step` the result is `BuffersSpec`.
   */
  method ParseDXTV(reader: FileReader, mesh: SubMesh, ghost step: (State, nat) -> Step<Buffer>)
    returns (r: Result<seq<Buffer>>)
    requires IsBufferStep(step, reader.data, mesh.numVerts)
    modifies reader
    ensures Agrees(r, reader.At(), Records(step, old(reader.At()), mesh.numBuffers, []))
  {
    ghost var spec := Records(step, reader.At(), mesh.numBuffers, []);
    var buffers := new Buffer[mesh.numBuffers];
    ghost var read: seq<Buffer> := [];
    var i := 0;
    while i < mesh.numBuffers
      invariant 0 <= i <= mesh.numBuffers && |read| == i
      invariant forall j :: 0 <= j < i ==> buffers[j] == read[j]
      invariant spec == Records(step, reader.At(), mesh.numBuffers - i, read)
    {
      var buffer :- ParseNextBuffer(reader, mesh.numBuffers - i, mesh.numVerts, step, read);
      buffers[i] := buffer;
      read := read + [buffer];
      i := i + 1;
    }
    assert buffers[..] == read;
    r := Ok(buffers[..]);
  }

  /** The attribute table a decoded buffer was read with. */
  function AttributesOf(b: Buffer): (attrs: seq<Attribute>)
    ensures |attrs| == |b.attributes|
  {
    seq(|b.attributes|, j requires 0 <= j < |b.attributes| => b.attributes[j].attribute)
  }

  /** The header is 12 bytes plus three per attribute, followed by 6 skipped bytes; the byte order is untouched. */
  lemma HeaderLayout(data: seq<Byte>, s: State)
    requires BufferHeader(data, s).Ok?
    ensures var h := BufferHeader(data, s).value;
      h.next == s.(pos := s.pos + 18 + 3 * |h.value|) && s.pos + 12 + 3 * |h.value| <= |data|
  {
    var t := ReadAsciiUpTo(data, s, 4);
    assert |t.value| == 4;
  }

  /**
   * A buffer that parses ends 16 bytes after its last vertex record, in
   * big-endian order, and holds exactly one value per vertex for each attribute.
   */
  lemma BufferLayout(data: seq<Byte>, s: State, numVerts: nat)
    requires BufferSpec(data, s, numVerts).Ok?
    ensures var p := BufferSpec(data, s, numVerts).value;
      var attrs := AttributesOf(p.value);
      Stride(attrs).Ok? &&
      p.next == State(s.pos + 18 + 3 * |attrs| + Stride(attrs).value * numVerts + 16, true) &&
      forall j :: 0 <= j < |attrs| ==> |p.value.attributes[j].data| == numVerts
  {
    HeaderLayout(data, s);
    var h := BufferHeader(data, s).value;
    var p := BufferSpec(data, s, numVerts).value;
    assert AttributesOf(p.value) == h.value;
  }

  lemma ReadUIntOnPrefix(data: seq<Byte>, s: State, n: nat, cut: nat)
    requires s.pos + n <= cut <= |data|
    ensures ReadUInt(data[..cut], s, n) == ReadUInt(data, s, n)
  {
    assert data[..cut][s.pos..s.pos + n] == data[s.pos..s.pos + n];
  }

  /** Reading a prefix that still holds a buffer's whole header gives the same header. */
  lemma HeaderOnPrefix(data: seq<Byte>, s: State, cut: nat)
    requires BufferHeader(data, s).Ok?
    requires s.pos + 12 + 3 * |BufferHeader(data, s).value.value| <= cut <= |data|
    ensures BufferHeader(data[..cut], s) == BufferHeader(data, s)
  {
    HeaderLayout(data, s);
    var d := data[..cut];
    var count := |BufferHeader(data, s).value.value|;
    assert d[s.pos..s.pos + 4] == data[s.pos..s.pos + 4];
    assert SignatureSpec(d, s, 4, BufferSignature, false) == SignatureSpec(data, s, 4, BufferSignature, false);
    ReadUIntOnPrefix(data, s.(pos := s.pos + 4), 4, cut);
    ReadUIntOnPrefix(data, s.(pos := s.pos + 8), 4, cut);
    assert AttributeTable(d, s.pos + 12, count) == AttributeTable(data, s.pos + 12, count);
  }

  /**
   * An unknown attribute format fails the buffer before any vertex is read:
   * the outcome is the same on a stream cut off right after the table.
   */
  lemma UnknownFormatReadsNoPayload(data: seq<Byte>, s: State, numVerts: nat, cut: nat)
    requires BufferHeader(data, s).Ok? && Stride(BufferHeader(data, s).value.value).Err?
    requires s.pos + 12 + 3 * |BufferHeader(data, s).value.value| <= cut <= |data|
    ensures BufferSpec(data[..cut], s, numVerts) == BufferSpec(data, s, numVerts)
    ensures BufferSpec(data, s, numVerts) == Err(Stride(BufferHeader(data, s).value.value).error)
  {
    HeaderOnPrefix(data, s, cut);
  }
}

