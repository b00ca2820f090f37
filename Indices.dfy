/**
 * The index section that follows a sub-mesh's vertex buffers: a count and an
 * index width (2 or 4 bytes) in the file's byte order, then the indices
 * themselves little-endian, then 70 bytes of padding.
 */
module Indices {
  import opened Wrappers
  import opened Bytes
  import opened Reader

  /** Bytes skipped after the last index. */
  const IndexPadding: nat := 70

  predicate KnownIndexFormat(code: nat)
  {
    code == 2 || code == 4
  }

  /** Index `j` of a run of `width`-byte little-endian indices starting at `base`. */
  function IndexAt(data: seq<Byte>, base: nat, width: nat, j: nat): nat
    requires base + width * (j + 1) <= |data|
  {
    LittleEndian(data[base + width * j..base + width * j + width])
  }

  function IndexValues(data: seq<Byte>, base: nat, width: nat, count: nat): (xs: seq<nat>)
    requires base + width * count <= |data|
    ensures |xs| == count
  {
    seq(count, j requires 0 <= j < count => IndexAt(data, base, width, j))
  }

  /**
   * The index section: a format other than 2 or 4 is rejected before any
   * index is read; afterwards the byte order is big-endian again and the
   * cursor is past the padding.
   */
  function IndexSection(data: seq<Byte>, s: State): Step<seq<nat>>
  {
    var count :- ReadU32(data, s);
    var format :- ReadU32(data, count.next);
    if !KnownIndexFormat(format.value) then Err(UnknownIndexFormat(format.value))
    else
      var base := format.next.pos;
      var width := format.value;
      if base + width * count.value <= |data| then
        Ok(Parsed(IndexValues(data, base, width, count.value), State(base + width * count.value + IndexPadding, true)))
      else Err(OutOfData)
  }

  method ReadIndices(reader: FileReader) returns (r: Result<seq<nat>>)
    modifies reader
    ensures Agrees(r, reader.At(), IndexSection(reader.data, old(reader.At())))
  {
    var count :- reader.ReadUInt32();
    var format :- reader.ReadUInt32();
    if format != 2 && format != 4 {
      return Err(UnknownIndexFormat(format));
    }
    reader.SetByteOrder(false);
    var base := reader.pos;
    var indices := new nat[count];
    var j := 0;
    while j < count
      invariant 0 <= j <= count && base <= |reader.data|
      invariant base + format * j <= |reader.data|
      invariant reader.At() == State(base + format * j, false)
      invariant forall i :: 0 <= i < j ==> indices[i] == IndexAt(reader.data, base, format, i)
    {
      if format == 2 {
        var x :- reader.ReadUInt16();
        indices[j] := x;
      }
      if format == 4 {
        var x :- reader.ReadUInt32();
        indices[j] := x;
      }
      j := j + 1;
    }
    reader.SetByteOrder(true);
    var skipped := reader.Seek(IndexPadding);
    assert indices[..] == IndexValues(reader.data, base, format, count);
    r := Ok(indices[..]);
  }

  /** `xs` stored as consecutive `width`-byte little-endian words. */
  function EncodeIndices(xs: seq<nat>, width: nat): (bs: seq<Byte>)
    ensures |bs| == width * |xs|
  {
    if xs == [] then [] else EncodeLittleEndian(xs[0], width) + EncodeIndices(xs[1..], width)
  }

  lemma {:induction false} EncodedIndexAt(xs: seq<nat>, width: nat, j: nat)
    requires j < |xs|
    ensures width * j + width <= |EncodeIndices(xs, width)|
    ensures EncodeIndices(xs, width)[width * j..width * j + width] == EncodeLittleEndian(xs[j], width)
  {
    var bs := EncodeIndices(xs, width);
    var head := EncodeLittleEndian(xs[0], width);
    assert bs == head + EncodeIndices(xs[1..], width);
    if j == 0 {
      assert bs[..width] == head;
    } else {
      EncodedIndexAt(xs[1..], width, j - 1);
      assert width * j == width + width * (j - 1);
      assert bs[width * j..width * j + width] == EncodeIndices(xs[1..], width)[width * (j - 1)..width * (j - 1) + width];
    }
  }

  /** A run of encoded indices decodes to the same indices. */
  lemma {:induction false} DecodeIndexRun(data: seq<Byte>, base: nat, xs: seq<nat>, width: nat)
    requires base + width * |xs| <= |data|
    requires data[base..base + width * |xs|] == EncodeIndices(xs, width)
    requires forall i :: 0 <= i < |xs| ==> xs[i] < Pow256(width)
    ensures IndexValues(data, base, width, |xs|) == xs
  {
    var ys := IndexValues(data, base, width, |xs|);
    forall j | 0 <= j < |xs|
      ensures ys[j] == xs[j]
    {
      DecodeOneIndex(data, base, xs, width, j);
    }
  }

  lemma SliceOfSlice(data: seq<Byte>, a: nat, n: nat, at: nat, width: nat)
    requires a + n <= |data| && at + width <= n
    ensures data[a..a + n][at..at + width] == data[a + at..a + at + width]
  {
    var left := data[a..a + n][at..at + width];
    var right := data[a + at..a + at + width];
    assert forall i :: 0 <= i < width ==> left[i] == right[i];
  }

  lemma {:induction false} DecodeOneIndex(data: seq<Byte>, base: nat, xs: seq<nat>, width: nat, j: nat)
    requires j < |xs| && base + width * |xs| <= |data|
    requires data[base..base + width * |xs|] == EncodeIndices(xs, width)
    requires xs[j] < Pow256(width)
    ensures base + width * (j + 1) <= |data| && IndexAt(data, base, width, j) == xs[j]
  {
    var n := width * |xs|;
    var at := width * j;
    EncodedIndexAt(xs, width, j);
    assert at + width <= n;
    SliceOfSlice(data, base, n, at, width);
    assert width * (j + 1) == at + width;
    DecodeEncode(xs[j], width);
  }

  /**
   * Writing a count and a width in the cursor's byte order, then the indices
   * little-endian, and reading the section back gives the same indices and
   * leaves the cursor past the padding, big-endian.
   */
  lemma {:induction false} IndicesRoundTrip(pre: seq<Byte>, bigEndian: bool, xs: seq<nat>, width: nat, rest: seq<Byte>)
    requires KnownIndexFormat(width) && |xs| < 0x1_0000_0000
    requires forall i :: 0 <= i < |xs| ==> xs[i] < Pow256(width)
    ensures var data := pre + EncodeWord(|xs|, 4, bigEndian) + EncodeWord(width, 4, bigEndian) + EncodeIndices(xs, width) + rest;
      IndexSection(data, State(|pre|, bigEndian))
        == Ok(Parsed(xs, State(|pre| + 8 + width * |xs| + IndexPadding, true)))
  {
    var countBytes := EncodeWord(|xs|, 4, bigEndian);
    var formatBytes := EncodeWord(width, 4, bigEndian);
    var body := EncodeIndices(xs, width);
    SlicesOfConcat(pre, countBytes, formatBytes, body, rest);
    IndexSectionDecodes(pre + countBytes + formatBytes + body + rest, State(|pre|, bigEndian), xs, width);
  }

  /** A section whose count, width and indices sit encoded at the cursor decodes to those indices. */
  lemma IndexSectionDecodes(data: seq<Byte>, s: State, xs: seq<nat>, width: nat)
    requires KnownIndexFormat(width) && |xs| < 0x1_0000_0000
    requires forall i :: 0 <= i < |xs| ==> xs[i] < Pow256(width)
    requires s.pos + 8 + width * |xs| <= |data|
    requires data[s.pos..s.pos + 4] == EncodeWord(|xs|, 4, s.bigEndian)
    requires data[s.pos + 4..s.pos + 8] == EncodeWord(width, 4, s.bigEndian)
    requires data[s.pos + 8..s.pos + 8 + width * |xs|] == EncodeIndices(xs, width)
    ensures IndexSection(data, s) == Ok(Parsed(xs, State(s.pos + 8 + width * |xs| + IndexPadding, true)))
  {
    assert Pow256(4) == 0x1_0000_0000;
    ReadUIntEncoded(data, s, 4, |xs|);
    ReadUIntEncoded(data, s.(pos := s.pos + 4), 4, width);
    DecodeIndexRun(data, s.pos + 8, xs, width);
    IndexSectionOfParts(data, s, xs, width);
  }

  /** The three middle parts of a concatenation are its slices at their offsets. */
  lemma SlicesOfConcat(pre: seq<Byte>, a: seq<Byte>, b: seq<Byte>, c: seq<Byte>, rest: seq<Byte>)
    ensures var d := pre + a + b + c + rest;
      var i, j, k := |pre| + |a|, |pre| + |a| + |b|, |pre| + |a| + |b| + |c|;
      d[|pre|..i] == a && d[i..j] == b && d[j..k] == c
  {
    var d := pre + a + b + c + rest;
    assert d[|pre|..|pre| + |a|] == a;
    assert d[|pre| + |a|..|pre| + |a| + |b|] == b;
    assert d[|pre| + |a| + |b|..|pre| + |a| + |b| + |c|] == c;
  }

  /** The section as its two header reads and its run of indices make it up. */
  lemma IndexSectionOfParts(data: seq<Byte>, s: State, xs: seq<nat>, width: nat)
    requires ReadU32(data, s) == Ok(Parsed(|xs|, s.(pos := s.pos + 4)))
    requires ReadU32(data, s.(pos := s.pos + 4)) == Ok(Parsed(width, s.(pos := s.pos + 8)))
    requires KnownIndexFormat(width) && s.pos + 8 + width * |xs| <= |data|
    requires IndexValues(data, s.pos + 8, width, |xs|) == xs
    ensures IndexSection(data, s) == Ok(Parsed(xs, State(s.pos + 8 + width * |xs| + IndexPadding, true)))
  {
  }

  /** A width other than 2 or 4 fails the section whatever follows the two header words. */
  lemma UnknownIndexFormatRejected(data: seq<Byte>, s: State)
    requires s.pos + 8 <= |data|
    ensures var format := ReadU32(data, s.(pos := s.pos + 4)).value.value;
      !KnownIndexFormat(format) <==> IndexSection(data, s) == Err(UnknownIndexFormat(format))
  {
  }
}
