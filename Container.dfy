/**
 * The chunk walker (`Model.Read`, `Model.ParseChunk`): the file is a run of
 * chunks, each a 20-byte header (a 32-bit size, a 12-character tag, a 32-bit
 * version) followed by a body. The walker reads big-endian, hands the body
 * to the handler for its tag, and then moves to `chunkStart + size + 4`,
 * wherever the handler left the cursor, until the cursor is at or past the
 * end of the stream.
 */
module Container {
  import opened Wrappers
  import opened Bytes
  import opened Reader
  import opened Scene

  datatype ChunkHeader = ChunkHeader(size: nat, tag: string, version: nat)

  /** The resource hierarchy chunk: it carries the asset name. */
  const HierarchyTag: string := ".CC4HSERHSER"
  /** The scene data chunk: it carries materials and sub-meshes. */
  const SceneTag: string := ".CC4HSER2CSG"

  datatype ChunkKind = Hierarchy | SceneData | Unknown

  /** `tag` spells `text`, compared character by character. */
  predicate Spells(tag: string, text: string)
  {
    |tag| == |text| && (tag == [] || (tag[0] == text[0] && Spells(tag[1..], text[1..])))
  }

  lemma {:induction false} SpellsIsEquality(tag: string, text: string)
    ensures Spells(tag, text) <==> tag == text
  {
    if |tag| == |text| && tag != [] {
      SpellsIsEquality(tag[1..], text[1..]);
      if tag[0] == text[0] && tag[1..] == text[1..] {
        assert tag == [tag[0]] + tag[1..] && text == [text[0]] + text[1..];
      }
    }
  }

  /** The handler a chunk's tag selects in `ParseChunk`'s switch. */
  function KindOf(tag: string): ChunkKind
  {
    if Spells(tag, HierarchyTag) then Hierarchy
    else if Spells(tag, SceneTag) then SceneData
    else Unknown
  }

  /** Exactly the two known tags select a handler, each its own. */
  lemma KindOfTags(tag: string)
    ensures KindOf(tag) == Hierarchy <==> tag == HierarchyTag
    ensures KindOf(tag) == SceneData <==> tag == SceneTag
    ensures KindOf(tag) == Unknown <==> tag != HierarchyTag && tag != SceneTag
  {
    SpellsIsEquality(tag, HierarchyTag);
    SpellsIsEquality(tag, SceneTag);
    assert HierarchyTag[8] != SceneTag[8];
  }

  /** `ReadStruct<ResourceChunk>()`: the three header fields read one after another. */
  function ChunkHeaderSpec(data: seq<Byte>, s: State): Step<ChunkHeader>
  {
    var size :- ReadU32(data, s);
    var tag :- TakeBytes(data, size.next, 12);
    var version :- ReadU32(data, tag.next);
    Ok(Parsed(ChunkHeader(size.value, Chars(tag.value), version.value), version.next))
  }

  /** What the walker has gathered: the asset name and the scenes handed to the exporter. */
  datatype Gathered = Gathered(name: Option<string>, exports: seq<Export>)

  /**
   * `ParseChunk`: the hierarchy chunk skips one zero-terminated string and
   * takes the asset name from the string pair after it; the scene chunk
   * decodes one scene for export; any other tag is left alone.
   */
  function HandlerSpec(data: seq<Byte>, s: State, tag: string, g: Gathered): Result<Parsed<Gathered>>
  {
    match KindOf(tag)
    case Hierarchy =>
      var skipped :- ReadZString(data, s);
      var name :- StringPair(data, skipped.next);
      Ok(Parsed(g.(name := Some(name.value)), name.next))
    case SceneData =>
      var scene :- SceneSpec(data, s, g.name);
      Ok(Parsed(g.(exports := g.exports + [scene.value]), scene.next))
    case Unknown =>
      Ok(Parsed(g, s))
  }

  /** How one chunk body is handled: `HandlerSpec`, or a stand-in for it in proofs. */
  type Handler = (State, string, Gathered) -> Result<Parsed<Gathered>>

  function HandlerRecord(data: seq<Byte>): Handler
  {
    (s, tag, g) => HandlerSpec(data, s, tag, g)
  }

  /**
   * The walk from the chunk at `s` on, each body handled by `handler`; it ends
   * once the cursor is at or past the end. The next chunk starts at
   * `chunkStart + size + 4` whatever the handler consumed (a seek that cannot
   * fail, the target being non-negative).
   */
  function Walk(data: seq<Byte>, handler: Handler, s: State, g: Gathered): Result<Parsed<Gathered>>
    decreases |data| - s.pos
  {
    if s.pos >= |data| then Ok(Parsed(g, s))
    else
      var header :- ChunkHeaderSpec(data, s);
      var handled :- handler(header.next, header.value.tag, g);
      Walk(data, handler, handled.next.(pos := s.pos + header.value.size + 4), handled.value)
  }

  /** `Read`: the walk from the cursor, reading big-endian, each body handled by `ParseChunk`. */
  function ReadSpec(data: seq<Byte>, s: State, g: Gathered): Result<Parsed<Gathered>>
  {
    Walk(data, HandlerRecord(data), s.(bigEndian := true), g)
  }

  /** `handler` handles every chunk body as `HandlerSpec` does. */
  ghost predicate IsHandler(handler: Handler, data: seq<Byte>)
  {
    forall s, tag, g {:trigger HandlerSpec(data, s, tag, g)} :: handler(s, tag, g) == HandlerSpec(data, s, tag, g)
  }

  lemma HandlerRecordIsHandler(data: seq<Byte>)
    ensures IsHandler(HandlerRecord(data), data)
  {
  }

  /** Two handlers that agree everywhere give the same walk. */
  lemma {:induction false} WalkSameHandler(data: seq<Byte>, h1: Handler, h2: Handler, s: State, g: Gathered)
    requires forall t, tag, g' :: h1(t, tag, g') == h2(t, tag, g')
    ensures Walk(data, h1, s, g) == Walk(data, h2, s, g)
    decreases |data| - s.pos
  {
    if s.pos < |data| && ChunkHeaderSpec(data, s).Ok? {
      var header := ChunkHeaderSpec(data, s).value;
      var handled := h1(header.next, header.value.tag, g);
      if handled.Ok? {
        WalkSameHandler(data, h1, h2, handled.value.next.(pos := s.pos + header.value.size + 4), handled.value.value);
      }
    }
  }

  /** Any handler that handles bodies as `HandlerSpec` does walks as `ReadSpec` does. */
  lemma WalkWithHandler(data: seq<Byte>, handler: Handler, s: State, g: Gathered)
    requires IsHandler(handler, data)
    ensures Walk(data, handler, s, g) == Walk(data, HandlerRecord(data), s, g)
  {
    var spec := HandlerRecord(data);
    forall t, tag, g'
      ensures handler(t, tag, g') == spec(t, tag, g')
    {
      assert spec(t, tag, g') == HandlerSpec(data, t, tag, g');
    }
    WalkSameHandler(data, handler, spec, s, g);
  }

  method ReadChunkHeader(reader: FileReader) returns (r: Result<ChunkHeader>)
    modifies reader
    ensures Agrees(r, reader.At(), ChunkHeaderSpec(reader.data, old(reader.At())))
  {
    var size :- reader.ReadUInt32();
    var tag :- reader.ReadExactly(12);
    var version :- reader.ReadUInt32();
    r := Ok(ChunkHeader(size, Chars(tag), version));
  }

  /**
   * The decoder's state for one file: the asset name (`Name`, unset until a
   * hierarchy chunk is read) and the scenes handed to the exporter, in order.
   */
  class Model {
    var name: Option<string>
    var exports: seq<Export>

    function Contents(): Gathered
      reads this
    {
      Gathered(name, exports)
    }

    constructor ()
      ensures Contents() == Gathered(None, [])
    {
      name := None;
      exports := [];
    }

    /** `ParseChunk`, proved for any `handler` that handles bodies as `HandlerSpec` does. */
    method ParseChunk(reader: FileReader, chunk: ChunkHeader, ghost handler: Handler) returns (r: Result<()>)
      requires IsHandler(handler, reader.data)
      modifies this, reader
      ensures var h := handler(old(reader.At()), chunk.tag, old(Contents()));
        (r.Ok? <==> h.Ok?) &&
        (r.Ok? ==> Contents() == h.value.value && reader.At() == h.value.next) &&
        (r.Err? ==> h == Err(r.error))
    {
      assert handler(reader.At(), chunk.tag, Contents()) == HandlerSpec(reader.data, reader.At(), chunk.tag, Contents());
      var kind := KindOf(chunk.tag);
      match kind
      case Hierarchy =>
        var skipped :- reader.ReadZeroTerminatedString();
        var assetName :- ReadString(reader);
        name := Some(assetName);
        r := Ok(());
      case SceneData =>
        var scene :- ParseCSG(reader, name);
        exports := exports + [scene];
        r := Ok(());
      case Unknown =>
        r := Ok(());
    }

    /** One iteration of `Read`'s loop: header, handler, and the seek to the next chunk. */
    method ReadNextChunk(reader: FileReader, ghost handler: Handler) returns (r: Result<()>)
      requires reader.pos < |reader.data| && IsHandler(handler, reader.data)
      modifies this, reader
      ensures r.Ok? ==>
        Walk(reader.data, handler, old(reader.At()), old(Contents())) == Walk(reader.data, handler, reader.At(), Contents())
      ensures r.Err? ==> Walk(reader.data, handler, old(reader.At()), old(Contents())) == Err(r.error)
      ensures r.Ok? ==> reader.pos >= old(reader.pos) + 4
    {
      var start := reader.pos;
      var chunk :- ReadChunkHeader(reader);
      var handled :- ParseChunk(reader, chunk, handler);
      var sought := reader.SeekBegin(start + chunk.size + 4);
      r := Ok(());
    }

    method Read(reader: FileReader) returns (r: Result<()>)
      modifies this, reader
      ensures var w := ReadSpec(reader.data, old(reader.At()), old(Contents()));
        (r.Ok? <==> w.Ok?) &&
        (r.Ok? ==> Contents() == w.value.value && reader.At() == w.value.next) &&
        (r.Err? ==> w == Err(r.error))
    {
      HandlerRecordIsHandler(reader.data);
      ghost var handler: Handler :| IsHandler(handler, reader.data);
      reader.SetByteOrder(true);
      WalkWithHandler(reader.data, handler, reader.At(), Contents());
      ghost var spec := Walk(reader.data, handler, reader.At(), Contents());
      while reader.pos < |reader.data|
        invariant Walk(reader.data, handler, reader.At(), Contents()) == spec
        decreases |reader.data| - reader.pos
      {
        var next :- ReadNextChunk(reader, handler);
      }
      r := Ok(());
    }
  }

  /** The walk stops only once the cursor is at or past the end of the stream. */
  lemma {:induction false} WalkEndsPastData(data: seq<Byte>, handler: Handler, s: State, g: Gathered)
    requires Walk(data, handler, s, g).Ok?
    ensures Walk(data, handler, s, g).value.next.pos >= |data|
    decreases |data| - s.pos
  {
    if s.pos < |data| {
      var header := ChunkHeaderSpec(data, s).value;
      var handled := handler(header.next, header.value.tag, g).value;
      WalkEndsPastData(data, handler, handled.next.(pos := s.pos + header.value.size + 4), handled.value);
    }
  }

  /**
   * A chunk with an unknown tag changes nothing: the walk goes on at
   * `chunkStart + size + 4` with the same byte order, name and exports.
   */
  lemma UnknownChunkSkipped(data: seq<Byte>, handler: Handler, s: State, g: Gathered)
    requires IsHandler(handler, data)
    requires s.pos < |data| && ChunkHeaderSpec(data, s).Ok?
    requires KindOf(ChunkHeaderSpec(data, s).value.value.tag) == Unknown
    ensures var size := ChunkHeaderSpec(data, s).value.value.size;
      Walk(data, handler, s, g) == Walk(data, handler, s.(pos := s.pos + size + 4), g)
  {
    var header := ChunkHeaderSpec(data, s).value;
    assert header.next.bigEndian == s.bigEndian;
    assert handler(header.next, header.value.tag, g) == HandlerSpec(data, header.next, header.value.tag, g);
  }

  /**
   * The handlers leave the byte order big-endian; only the scene chunk adds an
   * export (exactly one, after those already there) and only the hierarchy
   * chunk sets the name.
   */
  lemma HandlerEffect(data: seq<Byte>, handler: Handler, s: State, tag: string, g: Gathered)
    requires IsHandler(handler, data)
    requires s.bigEndian && handler(s, tag, g).Ok?
    ensures var h := handler(s, tag, g).value;
      h.next.bigEndian &&
      (KindOf(tag) == SceneData ==> |h.value.exports| == |g.exports| + 1 && h.value.exports[..|g.exports|] == g.exports) &&
      (KindOf(tag) != SceneData ==> h.value.exports == g.exports) &&
      (KindOf(tag) != Hierarchy ==> h.value.name == g.name)
  {
    assert handler(s, tag, g) == HandlerSpec(data, s, tag, g);
    match KindOf(tag)
    case Hierarchy =>
      var skipped := ReadZString(data, s).value;
      ZStringKeepsOrder(data, s, s.pos);
      StringPairKeepsOrder(data, skipped.next);
    case SceneData =>
      SceneKeepsBigEndian(data, s, g.name);
      var h := HandlerSpec(data, s, tag, g).value;
      assert h.value.exports[..|g.exports|] == g.exports;
    case Unknown =>
  }

  /**
   * How many scene chunks the chain of chunks from `s` on holds, following
   * each header's declared size, up to the end of the stream or to a header
   * that cannot be read.
   */
  function SceneChunks(data: seq<Byte>, s: State): nat
    decreases |data| - s.pos
  {
    if s.pos >= |data| then 0
    else
      match ChunkHeaderSpec(data, s)
      case Err(_) => 0
      case Ok(header) =>
        (if KindOf(header.value.tag) == SceneData then 1 else 0) + SceneChunks(data, s.(pos := s.pos + header.value.size + 4))
  }

  /**
   * One step of the walk: the chunk at `s` is read and handled, and the walk
   * goes on at `chunkStart + size + 4`, big-endian, whatever the handler consumed.
   */
  lemma WalkOneChunk(data: seq<Byte>, handler: Handler, s: State, g: Gathered) returns (next: State, g2: Gathered, scene: bool)
    requires IsHandler(handler, data)
    requires s.bigEndian && s.pos < |data| && Walk(data, handler, s, g).Ok?
    ensures ChunkHeaderSpec(data, s).Ok? && next.pos == s.pos + ChunkHeaderSpec(data, s).value.value.size + 4
    ensures next.bigEndian && next.pos > s.pos
    ensures Walk(data, handler, s, g) == Walk(data, handler, next, g2)
    ensures SceneChunks(data, s) == (if scene then 1 else 0) + SceneChunks(data, next)
    ensures scene ==> |g2.exports| == |g.exports| + 1 && g2.exports[..|g.exports|] == g.exports
    ensures !scene ==> g2.exports == g.exports
  {
    var header := ChunkHeaderSpec(data, s).value;
    var tag := header.value.tag;
    assert header.next.bigEndian;
    HandlerEffect(data, handler, header.next, tag, g);
    var handled := handler(header.next, tag, g).value;
    next := State(s.pos + header.value.size + 4, true);
    assert handled.next.(pos := next.pos) == next == s.(pos := next.pos);
    g2 := handled.value;
    scene := KindOf(tag) == SceneData;
  }

  /**
   * A walk that reads big-endian hands exactly one scene to the exporter per
   * scene chunk in the chain, after the ones gathered before.
   */
  lemma {:induction false} ExportsPerSceneChunk(data: seq<Byte>, handler: Handler, s: State, g: Gathered)
    requires IsHandler(handler, data)
    requires s.bigEndian && Walk(data, handler, s, g).Ok?
    ensures var w := Walk(data, handler, s, g).value.value;
      |w.exports| == |g.exports| + SceneChunks(data, s) &&
      w.exports[..|g.exports|] == g.exports
    decreases |data| - s.pos
  {
    if s.pos < |data| {
      var next, g2, scene := WalkOneChunk(data, handler, s, g);
      ExportsPerSceneChunk(data, handler, next, g2);
      var w := Walk(data, handler, next, g2).value.value;
      PrefixOfPrefix(w.exports, |g2.exports|, |g.exports|);
    }
  }

  lemma PrefixOfPrefix<T>(xs: seq<T>, a: nat, b: nat)
    requires b <= a <= |xs|
    ensures xs[..a][..b] == xs[..b]
  {
  }

  /** A whole file hands exactly one scene to the exporter per scene chunk, and ends at or past the end of the stream. */
  lemma ReadExportsPerSceneChunk(data: seq<Byte>, s: State, g: Gathered)
    requires ReadSpec(data, s, g).Ok?
    ensures var w := ReadSpec(data, s, g).value;
      |w.value.exports| == |g.exports| + SceneChunks(data, s.(bigEndian := true)) &&
      w.value.exports[..|g.exports|] == g.exports && w.next.pos >= |data|
  {
    HandlerRecordIsHandler(data);
    ExportsPerSceneChunk(data, HandlerRecord(data), s.(bigEndian := true), g);
    WalkEndsPastData(data, HandlerRecord(data), s.(bigEndian := true), g);
  }
}
