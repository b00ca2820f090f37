# Verified model of the NTT model decoder

This project models the binary decoder in `Model.cs`, the class `TTLibrary.Model`. The decoder reads a chunked, mostly big-endian model container:

- a hierarchy chunk (`.CC4HSERHSER`) that carries the asset name;
- a scene chunk (`.CC4HSER2CSG`) that carries material records and sub-mesh records.

Each sub-mesh record has four parts:

- a "SMNR" marker, found by a byte scan;
- a 24-byte header;
- vertex buffers, each headed by the `DXTV` signature, with a data-driven attribute table and a little-endian strided payload;
- an index section followed by 70 bytes of padding.

Each sub-mesh becomes an exported mesh whose vertices take their channels from the decoded attributes.

The model has one module per part of the decoder. Each part is written twice:

- A pure specification function over the bytes of the file and a cursor `State` (a position and a byte order). It returns the decoded value and the next state, or an `Error`.
- Imperative Dafny that works the way the source does: the cursor class `Reader.FileReader`, the decoder class `Container.Model` with its `name` and `exports` fields, and methods with `while` loops over arrays.

Every method is proved to agree with its specification function. The properties of the format are proved as lemmas about those functions.

The modules are:

- `Wrappers`: `Result`, `Option` and the error taxonomy.
- `Bytes`: multi-byte words in both byte orders, and 16- and 32-bit two's complement.
- `Reader`: the cursor operations and the generic record loop `Records`.
- `Formats`: attribute formats, `GetStride` and the buffer stride.
- `Scanner`: `SeekToSMNR`.
- `VertexBuffers`: `ReadSignature`, `ParseVertex`, `ParseDXTV`.
- `Indices`: the index section.
- `Assembler`: `ConvertToDae`.
- `Scene`: `ReadString`, the material and sub-mesh loops, `ParseCSG`.
- `Container`: `Read` and `ParseChunk`.

Details of the decoder the model follows:

- The scanner's match counter `k` is never reset on a mismatch. A scan therefore succeeds once `S`, `M`, `N`, `R` have appeared in order, adjacent or not.
- A failed scan leaves the cursor at `scanStart + fallbackOffset - 1`.
- The sub-mesh header is six 32-bit words, which is 24 bytes.
- The index section accepts widths 2 and 4, and the pad after it is 70 bytes.
- The three padding characters after a material, `ReadChars(3)`, do not fail at the end of the stream: they return what is left.
- The `DXTV` read, `ReadString(4, ASCII)`, comes back short at the end of the stream and then fails the signature check.

A few integer widths are written out:

- `4 * buffers.Length` and `-searchIndex + fallbackOffset` are C# `int` and wrap to 32 bits (`ToInt32`).
- `i < numMeshes + 1` is `uint` arithmetic, so it is written `(numMeshes + 1) % 2^32`.
- The polygon's `(int)indices[j]` is an unchecked cast.
- The stride `Sum` is a `long` sum and does not wrap.

## Model

| member | source | states |
|---|---|---|
| Bytes.LittleEndianBound | Model.cs:133-134 | an `n`-byte little-endian word is below 256^n |
| Bytes.DecodeEncode | Model.cs:133-134 | decoding the `n`-byte little-endian encoding of any value below 256^n gives that value back |
| Bytes.EncodeDecode | Model.cs:133-134 | encoding a decoded word gives its bytes back, so decoding is injective |
| Bytes.BigEndianIsReversed | Model.cs:25-26 | a big-endian word is the little-endian word of the reversed bytes |
| Bytes.ReverseReverse | Model.cs:25-26 | reversing the bytes twice gives them back, so the big-endian encoding is undone by the big-endian read |
| Bytes.ByteOrderMatters | Model.cs:127-137 | bytes that are not a palindrome decode to different values in the two byte orders, so the order switch around the payload matters |
| Bytes.ToInt16 | Model.cs:66 | `ReadInt16` yields a value in [-2^15, 2^15) congruent to the 16-bit word |
| Bytes.ToInt32 | Model.cs:396 | a C# `int` conversion yields a value in [-2^31, 2^31) congruent modulo 2^32 |
| Bytes.Int32Identity | Model.cs:223 | values already in `int` range are unchanged by the conversion |
| Bytes.Chars | Model.cs:40 | one character per byte |
| Bytes.Ascii | Model.cs:232 | one character per byte, with bytes above 127 decoded as '?' |
| Bytes.AsciiMatches | Model.cs:232 | an ASCII decode equals a text without '?' exactly when the bytes are the text's codes |
| Reader.ReadUInt | Model.cs:62-66 | a word read succeeds exactly when `n` bytes are left; the value is below 256^n; the cursor advances by `n` and keeps its byte order |
| Reader.ReadUIntEncoded | Model.cs:131-135 | a word written at the cursor in the cursor's byte order, little- or big-endian, reads back as the same value |
| Reader.ReadI16 | Model.cs:66 | the padding `ReadInt16` consumes two bytes and yields a 16-bit signed value |
| Reader.Available | Model.cs:84 | a short read takes what is left, and only as much as was asked for |
| Reader.ZStringStopsAt | Model.cs:348 | a zero-terminated read returns the bytes up to the first zero and leaves the cursor just past it |
| Reader.ZStringUnterminated | Model.cs:348 | with no zero before the end, a zero-terminated read fails with `OutOfData` |
| Reader.ZStringKeepsOrder | Model.cs:45 | a zero-terminated read moves the cursor forward, not past the end, and keeps the byte order |
| Reader.ZeroTerminatedRoundTrip | Model.cs:45 | a string followed by a zero, placed anywhere in a stream, reads back as that string |
| Reader.ZeroTerminatedAt | Model.cs:348 | `n` non-zero bytes followed by a zero read as those `n` bytes, and the read consumes `n + 1` |
| Reader.RecordsCount | Model.cs:98-99 | a record loop that succeeds yields exactly the declared number of records, after those already read |
| Reader.RecordsAll | Model.cs:98-151 | a property every step yields for its index holds of every record of the loop |
| Reader.RecordsEnd | Model.cs:71-86 | a property of the cursor that every step keeps holds where the loop ends |
| Reader.FileReader.constructor | Model.cs:20 | a fresh reader stands at position 0 over the file's bytes |
| Reader.FileReader.SetByteOrder | Model.cs:26 | only the byte order changes |
| Reader.FileReader.ReadExactly | Model.cs:30 | reads exactly `n` bytes, or fails with `OutOfData` and leaves the cursor unmoved |
| Reader.FileReader.ReadByte | Model.cs:273-275 | agrees with the one-byte read; failure leaves the cursor unmoved |
| Reader.FileReader.ReadChar | Model.cs:197 | `ReadChar` consumes one byte; failure leaves the cursor unmoved |
| Reader.FileReader.ReadUInt16 | Model.cs:64 | agrees with the 2-byte word read in the current byte order |
| Reader.FileReader.ReadUInt32 | Model.cs:62 | agrees with the 4-byte word read in the current byte order |
| Reader.FileReader.ReadInt16 | Model.cs:66 | agrees with the 16-bit signed read |
| Reader.FileReader.Seek | Model.cs:140 | a relative seek; a target before the start fails and leaves the cursor unmoved |
| Reader.FileReader.SeekBegin | Model.cs:34 | an absolute seek; a target past the end is allowed, a negative one fails |
| Reader.FileReader.ReadChars | Model.cs:84 | up to `n` characters, short at the end of the stream, never failing |
| Reader.FileReader.ReadAsciiString | Model.cs:232 | up to `n` bytes decoded as ASCII, short at the end of the stream |
| Reader.FileReader.ReadZeroTerminatedString | Model.cs:45 | the loop finds the first zero and agrees with the zero-terminated read |
| Formats.GetStride | Model.cs:431-446 | succeeds exactly for format codes 2 to 9, with a width between 4 and 16 that is a multiple of 4; any other code fails with `UnknownFormat` carrying the code |
| Formats.FormatWidths | Model.cs:435-442 | the codes 2 to 9 (Vec2Float, Vec3Float, Vec4Float, Vec2Half, Vec4Half, Vec4Byte, Vec4ByteF, Color4Byte) have the widths 8, 12, 16, 4, 8, 4, 4, 4 |
| Formats.StrideDefined | Model.cs:285 | the buffer stride exists exactly when every format is known, and lies between 4 and 16 bytes per attribute |
| Formats.StrideFailsOnFirstUnknown | Model.cs:285 | an unknown format fails the stride with the first unknown code in table order |
| Formats.StrideAppend | Model.cs:285 | the stride of two tables end to end is the sum of their strides |
| Formats.StridePermutation | Model.cs:285 | reordering the attribute table changes neither whether the stride exists nor its value |
| Scanner.SeekToSMNR | Model.cs:185-228 | the scan loop, with a counter that is never reset, agrees with `SeekToMarker` |
| Scanner.ScanCompletesIffInOrder | Model.cs:193-211 | from any iteration, the scan completes exactly when the rest of "SMNR" occurs in order within the bytes the remaining iterations can read |
| Scanner.ScanSucceedsIffInOrder | Model.cs:190-211 | the scan succeeds exactly when S, M, N, R occur in order within the first `maximumOffset` bytes; no fallback seek follows |
| Scanner.ScanExtent | Model.cs:193-218 | a completed match ends at an 'R', with the cursor 4 bytes before the byte after it; a failed scan consumed `searchIndex - 1` bytes and ran at most `maximumOffset` iterations |
| Scanner.ScanFallback | Model.cs:212-227 | when the marker is not found, the cursor ends at `scanStart + fallbackOffset - 1`, and the seek fails only before the start of the stream |
| Scanner.SkipWithoutS | Model.cs:199-201 | bytes that are not 'S' leave an unstarted match unstarted |
| Scanner.FindsContiguousMarker | Model.cs:199-208 | a contiguous "SMNR" with no 'S' before it is found, and the cursor is left on its 'S' |
| Scanner.ScatteredMarkerMatches | Model.cs:199-210 | "SxMNR" completes the scan and leaves the cursor on the 'x', because the counter is never reset |
| VertexBuffers.ReadComponentsSpan | Model.cs:308-342 | `count` component reads succeed exactly when `size * count` bytes are left, consume them, and yield their words in order |
| VertexBuffers.ParseVertexConsumesWidth | Model.cs:308-342 | decoding one value consumes exactly the width `GetStride` gives its format, and fails exactly when fewer bytes are left |
| VertexBuffers.ReadSingle | Model.cs:314 | a single's raw 4-byte word |
| VertexBuffers.ReadHalfSingle | Model.cs:333 | a half-single's raw 2-byte word |
| VertexBuffers.ReadByteWord | Model.cs:325 | one byte as a word |
| VertexBuffers.ReadComponent | Model.cs:312-341 | one component of 1, 2 or 4 bytes |
| VertexBuffers.ParseVec2 | Model.cs:312-314 | two component reads, zero-filled |
| VertexBuffers.ParseVec3 | Model.cs:315-318 | three component reads, zero-filled |
| VertexBuffers.ParseVec4 | Model.cs:319-341 | four component reads |
| VertexBuffers.ParseVertex | Model.cs:308-344 | the switch on the format agrees with `ParseVertexSpec` |
| VertexBuffers.TrimEndSpaces | Model.cs:237 | the result is the text without its trailing spaces: a prefix, not ending in a space, followed only by spaces |
| VertexBuffers.ReadSignature | Model.cs:230-249 | the text read, trimmed when asked, must equal the expected signature, or the read fails with `InvalidSignature` |
| VertexBuffers.SignatureIsDxtv | Model.cs:262 | a buffer's signature check passes exactly when the next four bytes are 'D', 'X', 'T', 'V' |
| VertexBuffers.AttributeTable | Model.cs:268-280 | the table has one entry per declared attribute |
| VertexBuffers.ReadAttributes | Model.cs:268-280 | the attribute loop reads type, format and offset bytes, three per entry, or fails with `OutOfData` |
| VertexBuffers.ReadValueAt | Model.cs:295-296 | seeking to an address and decoding there succeeds exactly when the value fits in the stream, and yields the little-endian value stored there |
| VertexBuffers.ReadRecord | Model.cs:294-297 | vertex `v`'s attributes are each read at `base + stride*v + offset`; it succeeds exactly when all fit, and no other vertex's slot changes |
| VertexBuffers.ReadValues | Model.cs:293-298 | every vertex's every attribute is read at its address; it succeeds exactly when the whole payload fits |
| VertexBuffers.ReadPayload | Model.cs:287-298 | the per-attribute arrays equal the payload read at the strided addresses, or it fails with `OutOfData` when a value falls outside the stream |
| VertexBuffers.ParseBuffer | Model.cs:257-302 | one buffer agrees with `BufferSpec`: signature, table, 6-byte pad, stride before any payload read, little-endian payload, and the cursor at `base + stride*numVerts + 16`, big-endian |
| VertexBuffers.BufferRecordIsStep | Model.cs:255-303 | the buffer loop's step reads one buffer as `BufferSpec` does |
| VertexBuffers.ParseNextBuffer | Model.cs:255-303 | one iteration advances the buffer loop's specification by one buffer, or fails with the same error |
| VertexBuffers.ParseDXTV | Model.cs:251-306 | the buffer loop agrees with `numBuffers` records of `BufferSpec`, in file order |
| VertexBuffers.HeaderLayout | Model.cs:262-283 | a buffer header is 12 bytes plus three per attribute, followed by a 6-byte skip, and keeps the byte order |
| VertexBuffers.BufferLayout | Model.cs:290-302 | a parsed buffer ends 16 bytes after its last vertex record, in big-endian order, and holds one value per vertex for each attribute |
| VertexBuffers.HeaderOnPrefix | Model.cs:262-283 | a buffer header reads the same on a stream cut right after its attribute table |
| VertexBuffers.UnknownFormatReadsNoPayload | Model.cs:285-296 | an unknown format fails the buffer with that format's error before any payload byte is read: the outcome is the same on a stream cut after the table |
| Indices.ReadIndices | Model.cs:119-140 | the index section agrees with `IndexSection`: a width other than 2 or 4 is rejected; `count` little-endian indices are read; then big-endian order and the 70-byte skip |
| Indices.DecodeIndexRun | Model.cs:131-135 | a run of encoded indices decodes to the same indices |
| Indices.DecodeOneIndex | Model.cs:133-134 | index `j` of an encoded run is decoded from its own `width` bytes |
| Indices.EncodedIndexAt | Model.cs:133-134 | index `j`'s encoding sits at bytes `width*j` to `width*j + width` of the run |
| Indices.IndicesRoundTrip | Model.cs:119-140 | from a cursor in either byte order: writing a count and a width of 2 or 4 in that order, then the indices little-endian, and reading the section gives the indices back and leaves the cursor past the 70-byte pad, big-endian |
| Indices.IndexSectionDecodes | Model.cs:119-140 | a section whose count, width and indices sit encoded at the cursor decodes to those indices, whatever bytes surround it |
| Indices.UnknownIndexFormatRejected | Model.cs:124-125 | with both header words present, the section fails with `UnknownIndexFormat` exactly when the width is not 2 or 4 |
| Assembler.Apply | Model.cs:367-389 | an attribute of a type outside the six exported ones leaves the vertex unchanged |
| Assembler.Decimal | Model.cs:356 | `$"{index}"` is a non-empty run of decimal digits |
| Assembler.DecimalRoundTrip | Model.cs:356 | the digits read back as the index |
| Assembler.MeshNamesDistinct | Model.cs:356 | different sub-mesh indices give different mesh names |
| Assembler.Polygon | Model.cs:395-396 | one polygon entry per index |
| Assembler.PolygonWraps | Model.cs:396 | indices below 2^31 keep their value in the polygon; larger 32-bit ones wrap to negative values |
| Assembler.BuildVertex | Model.cs:363-391 | the loops over buffers and attributes build exactly `VertexOf` the flattened attributes |
| Assembler.ConvertToDae | Model.cs:352-400 | the mesh is `MeshSpec`: named `Mesh_<index>`, one vertex per `NumVerts`, and one polygon with the indices in order |
| Assembler.Slot | Model.cs:363-389 | an attribute type has a vertex channel exactly when `ConvertToDae` exports it |
| Assembler.LastAttributeWins | Model.cs:363-389 | for every exported type (position, normal, both UV sets, both colour sets), a vertex's channel holds what the last attribute of that type writes, whatever earlier attributes wrote |
| Assembler.UnwrittenChannelUnset | Model.cs:360-389 | a channel no attribute of its type writes stays as in the empty vertex, unset |
| Assembler.LastPositionWins | Model.cs:363-372 | the position is the first three components of the last Position attribute's value |
| Assembler.IgnoredTypesChangeNothing | Model.cs:367-389 | appending an attribute of a non-exported type changes no vertex |
| Assembler.ParsedBuffersSized | Model.cs:288 | buffers decoded for a sub-mesh hold one value per vertex in every attribute, so the assembler can index them |
| Scene.ReadString | Model.cs:346-351 | returns the first zero-terminated string and consumes a second one |
| Scene.StringPairAt | Model.cs:346-351 | two zero-terminated strings of `a` and `b` bytes yield the first, and the cursor ends `a + b + 2` bytes on |
| Scene.StringPairRoundTrip | Model.cs:346-351 | a pair of strings placed in a stream yields the first and ends just past the second terminator |
| Scene.StringPairKeepsOrder | Model.cs:346-351 | the string pair keeps the byte order |
| Scene.ReadMaterial | Model.cs:75-85 | one material record: padding byte, path pair, padding byte, name pair, up to three padding characters |
| Scene.PaddedPairAt | Model.cs:76-77 | the string pair after a padding byte yields its first string and ends past the second |
| Scene.MaterialFromPairs | Model.cs:75-84 | a record whose two pairs read as `x` and `y` decodes to the material (`x`, `y`) |
| Scene.MaterialRoundTrip | Model.cs:71-86 | a material record laid out byte by byte decodes to its path and name, and spans exactly its bytes |
| Scene.MaterialKeepsOrder | Model.cs:71-86 | a material record keeps the byte order |
| Scene.MaterialRecordIsStep | Model.cs:71-86 | the material loop's step reads one material as `MaterialSpec` does |
| Scene.ReadNextMaterial | Model.cs:71-86 | one iteration advances the material loop's specification by one record |
| Scene.ReadMaterials | Model.cs:70-86 | the material loop agrees with `count` records of `MaterialSpec` |
| Scene.ReadSubMesh | Model.cs:106 | the sub-mesh header agrees with six sequential 32-bit reads |
| Scene.SubMeshHeaderLayout | Model.cs:414-423 | the header is read exactly when 24 bytes are left; its buffer and vertex counts are the third and sixth words |
| Scene.ParseSubMesh | Model.cs:99-151 | one sub-mesh iteration agrees with `SubMeshSpec`: scan, header, buffers, indices, a second scan with a fallback of four bytes per buffer, and assembly |
| Scene.SubMeshShape | Model.cs:151 | a parsed sub-mesh is named after its index and leaves the byte order big-endian |
| Scene.MeshRecordIsStep | Model.cs:98-152 | the sub-mesh loop's step reads sub-mesh `i` as `SubMeshSpec` does |
| Scene.ParseNextMesh | Model.cs:99-151 | one iteration advances the sub-mesh loop's specification by one mesh |
| Scene.ParseMeshes | Model.cs:98-152 | the sub-mesh loop agrees with `numMeshes` records of `SubMeshSpec` |
| Scene.MeshesNamedInOrder | Model.cs:98-152 | there is one mesh per declared sub-mesh, and mesh `j` is named `Mesh_j` |
| Scene.Backslashed | Model.cs:163 | every '/' becomes '\\' and every other character stays, so no slash is left |
| Scene.BackslashedSplits | Model.cs:163 | the replacement splits over a concatenation |
| Scene.RelativePathExample | Model.cs:158-164 | the name `-Assets/Core/RopeAssets/ledge_end2_dx11.model` becomes `Assets\\Core\\RopeAssets\\ledge_end2_dx11.model` |
| Scene.RelativePath | Model.cs:161-163 | the first character is dropped and every '/' becomes '\\', character by character; a missing or empty name fails |
| Scene.SceneKeepsBigEndian | Model.cs:57-152 | a scene chunk read big-endian leaves the byte order big-endian |
| Scene.ParseCSG | Model.cs:57-183 | the scene chunk agrees with `SceneSpec`: counts and padding, the materials, the sub-meshes, and the output path |
| Container.SpellsIsEquality | Model.cs:40-41 | the character-by-character tag comparison is string equality |
| Container.KindOfTags | Model.cs:41-54 | exactly `.CC4HSERHSER` selects the hierarchy handler, exactly `.CC4HSER2CSG` the scene handler, and every other tag none |
| Container.HandlerRecordIsHandler | Model.cs:38-55 | the walk's handler handles bodies as `HandlerSpec` does |
| Container.WalkSameHandler | Model.cs:28-35 | two handlers that agree everywhere give the same walk |
| Container.WalkWithHandler | Model.cs:28-35 | any handler that agrees with `HandlerSpec` walks as `Read` does |
| Container.ReadChunkHeader | Model.cs:450-457 | the chunk header: a 32-bit size, 12 tag characters, and a 32-bit version |
| Container.Model.constructor | Model.cs:19-21 | a new model has no name and no exports |
| Container.Model.ParseChunk | Model.cs:38-55 | the switch on the tag agrees with the handler: the name is set from the hierarchy chunk, a scene is exported from the scene chunk, and nothing else changes |
| Container.Model.ReadNextChunk | Model.cs:29-34 | one iteration reads the header, handles the body, seeks to `chunkStart + size + 4`, and advances the walk's specification |
| Container.Model.Read | Model.cs:23-36 | the loop agrees with `ReadSpec`: big-endian from the start, chunk by chunk until the cursor is at or past the end |
| Container.WalkEndsPastData | Model.cs:28 | a walk stops only once the cursor is at or past the end of the stream |
| Container.UnknownChunkSkipped | Model.cs:38-55 | a chunk with an unknown tag changes nothing: the walk continues at `chunkStart + size + 4` with the same name and exports |
| Container.HandlerEffect | Model.cs:38-55 | handlers leave the byte order big-endian; only the scene chunk adds an export (exactly one, after the others); only the hierarchy chunk sets the name |
| Container.WalkOneChunk | Model.cs:29-34 | the next chunk starts at `chunkStart + size + 4`, big-endian, whatever the handler consumed |
| Container.ExportsPerSceneChunk | Model.cs:28-35 | a walk exports one scene per scene chunk in the chain of chunks, after the scenes exported before |
| Container.ReadExportsPerSceneChunk | Model.cs:23-36 | a whole file exports one scene per scene chunk and ends at or past the end of the stream |

## Left out

- Floating point: `ReadSingle` and `ReadHalfSingle` are modelled as their raw little-endian words. The `/ 255.0f` of the normalised byte format and the colour `/ 255` are not modelled. Vertex values are raw words, and only the bytes consumed and where they are read from are verified.
- Console logging throughout `Model.cs` is not modelled.
- The export: `IOScene`, `IOModel`, `IONET.IOManager.ExportScene`, the hard-coded output folder, `Path.Combine`, `Path.ChangeExtension`, `Path.GetDirectoryName` and `Directory.CreateDirectory` are foreign library calls and filesystem effects. The model keeps the path rewrite of the asset name (`RelativePath`). Each scene is recorded as an `Export` appended to `Model.exports`.
- Materials are parsed and then dropped, as in the source: the model reads them but does not keep them in the export.
- `Program.cs` is not part of this model. It holds argument handling, directory recursion and the blanket `catch`.
- Container.Model.constructor: opening the file is left out, because it is I/O. The constructor only initialises the fields, and `Read` takes a reader over the file's bytes.
- Container.Model.Read: after a failure the fields are unspecified. In the source the exception escapes the constructor and the object is dropped.
- `ReadStruct` marshalling is modelled as sequential reads of the fields in declaration order, in the current byte order. The tag characters are one byte each.
- The cursor class comes from an external library. `Reader.FileReader` models the behaviour the decoder relies on: reads past the end fail with `OutOfData`; `ReadChars` and `ReadString(n, ASCII)` return short text at the end of the stream; seeks past the end are allowed.
- OpenTK's `Vector4` and `System.Numerics.Vector3` are plain datatypes of words. `IOVertex.SetUV` and `SetColor` are modelled as writes to the channel of that set.
- Attribute type and format are kept as raw byte codes. Only the format codes 2 to 9 have widths, because `GetStride` defines only those.
- Reading `ReadChar` as one byte covers the ASCII and Latin-1 content the format uses. Multi-byte character decoding is not modelled.
