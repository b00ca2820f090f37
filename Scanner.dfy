/**
 * The resync scanner (`SeekToSMNR`): a bounded forward byte scan for the
 * "SMNR" marker that starts a sub-mesh header, with a fallback seek when the
 * marker is not found.
 *
 * As the code behaves: the match counter `k` is never reset on a mismatch,
 * so the scan completes once 'S', 'M', 'N', 'R' have been read in this order,
 * adjacent or not; and on failure the cursor is moved by
 * `fallbackOffset - searchIndex`, where `searchIndex` is one more than the
 * number of bytes consumed, so it lands one byte before
 * `scanStart + fallbackOffset`.
 */
module Scanner {
  import opened Wrappers
  import opened Bytes
  import opened Reader

  const Marker: string := "SMNR"

  /** The scan loop's variables when the loop is left. */
  datatype ScanEnd = ScanEnd(pos: nat, searchIndex: int, k: nat)

  /**
   * The scan loop from the iteration whose counter is `searchIndex`, with the
   * cursor at `p` and `k` marker characters matched so far.
   */
  function ScanFrom(data: seq<Byte>, p: nat, searchIndex: int, k: nat, maximumOffset: int): ScanEnd
    requires 1 <= searchIndex && k < searchIndex && searchIndex - 1 <= p && k < 4
    decreases maximumOffset - searchIndex
  {
    if searchIndex > maximumOffset then ScanEnd(p, searchIndex, k)
    else if p >= |data| then ScanEnd(p, searchIndex, 0)
    else
      var k' := if data[p] as char == Marker[k] then k + 1 else k;
      if k' == 4 then ScanEnd(p + 1 - 4, searchIndex, 4)
      else ScanFrom(data, p + 1, searchIndex + 1, k', maximumOffset)
  }

  /** What `SeekToSMNR(reader, maximumOffset, fallbackOffset)` does to the cursor. */
  function SeekToMarker(data: seq<Byte>, s: State, maximumOffset: int, fallbackOffset: int): Step<()>
  {
    var e := ScanFrom(data, s.pos, 1, 0, maximumOffset);
    if e.k == 4 then Ok(Parsed((), s.(pos := e.pos)))
    else SeekRelative(s.(pos := e.pos), ToInt32(fallbackOffset - e.searchIndex))
  }

  method SeekToSMNR(reader: FileReader, maximumOffset: int, fallbackOffset: int) returns (r: Result<()>)
    modifies reader
    ensures Agrees(r, reader.At(), SeekToMarker(reader.data, old(reader.At()), maximumOffset, fallbackOffset))
  {
    ghost var start := reader.At();
    var searchIndex := 1;
    var k := 0;
    while searchIndex <= maximumOffset
      invariant 1 <= searchIndex && k < searchIndex && k < 4
      invariant reader.At() == start.(pos := start.pos + searchIndex - 1)
      invariant ScanFrom(reader.data, reader.pos, searchIndex, k, maximumOffset)
             == ScanFrom(reader.data, start.pos, 1, 0, maximumOffset)
      decreases maximumOffset - searchIndex
    {
      var character := reader.ReadChar();
      if character.Err? {
        // the end of the stream: give up and use the fallback offset
        k := 0;
        break;
      }
      if character.value == Marker[k] {
        k := k + 1;
        if k == 4 {
          // back to just before the marker
          var back := reader.Seek(-4);
          break;
        }
      }
      searchIndex := searchIndex + 1;
    }
    if k != 4 {
      r := reader.Seek(ToInt32(fallbackOffset - searchIndex));
    } else {
      r := Ok(());
    }
  }

  /** At most `n` bytes of `data` from `p` on: the bytes a scan of `n` steps can see. */
  function Ahead(data: seq<Byte>, p: nat, n: int): (w: seq<Byte>)
    ensures |w| <= if n < 0 then 0 else n
    decreases n
  {
    if n <= 0 || p >= |data| then [] else [data[p]] + Ahead(data, p + 1, n - 1)
  }

  /** `text` occurs in `w` in order, not necessarily contiguously. */
  predicate InOrder(text: string, w: seq<Byte>)
  {
    text == [] || (w != [] && ((w[0] as char == text[0] && InOrder(text[1..], w[1..])) || InOrder(text, w[1..])))
  }

  /** Matching greedily is enough: what occurs in order also occurs in order without its first character. */
  lemma {:induction false} InOrderDropFirst(text: string, w: seq<Byte>)
    requires text != [] && InOrder(text, w)
    ensures InOrder(text[1..], w)
  {
    if text[1..] != [] {
      if w[0] as char == text[0] && InOrder(text[1..], w[1..]) {
        InOrderDropFirst(text[1..], w[1..]);
      } else {
        InOrderDropFirst(text, w[1..]);
      }
    }
  }

  lemma AheadStep(data: seq<Byte>, p: nat, n: int)
    requires n > 0 && p < |data|
    ensures Ahead(data, p, n) == [data[p]] + Ahead(data, p + 1, n - 1)
  {
  }

  /** `InOrder` on a window that starts with byte `b`. */
  lemma InOrderCons(text: string, b: Byte, rest: seq<Byte>)
    requires text != []
    ensures InOrder(text, [b] + rest) <==> ((b as char == text[0] && InOrder(text[1..], rest)) || InOrder(text, rest))
  {
    var w := [b] + rest;
    assert w[0] == b && w[1..] == rest;
  }

  /** A byte that matches the next marker character: the window holds the text iff the rest holds its tail. */
  lemma InOrderMatch(text: string, b: Byte, rest: seq<Byte>)
    requires text != [] && b as char == text[0]
    ensures InOrder(text, [b] + rest) <==> InOrder(text[1..], rest)
  {
    InOrderCons(text, b, rest);
    if InOrder(text, rest) {
      InOrderDropFirst(text, rest);
    }
  }

  /** A byte that does not match the next marker character is skipped. */
  lemma InOrderMismatch(text: string, b: Byte, rest: seq<Byte>)
    requires text != [] && b as char != text[0]
    ensures InOrder(text, [b] + rest) <==> InOrder(text, rest)
  {
    InOrderCons(text, b, rest);
  }

  /** One iteration of the scan loop that reads byte `data[p]` and does not complete the marker. */
  lemma ScanStep(data: seq<Byte>, p: nat, searchIndex: int, k: nat, maximumOffset: int)
    requires 1 <= searchIndex && k < searchIndex && searchIndex - 1 <= p && k < 4
    requires searchIndex <= maximumOffset && p < |data|
    ensures var k' := if data[p] as char == Marker[k] then k + 1 else k;
      (k' == 4 ==> ScanFrom(data, p, searchIndex, k, maximumOffset).k == 4) &&
      (k' < 4 ==> ScanFrom(data, p, searchIndex, k, maximumOffset) == ScanFrom(data, p + 1, searchIndex + 1, k', maximumOffset))
  {
  }

  /**
   * From any point of the loop, the scan completes exactly when the rest of
   * the marker occurs in order within the bytes the remaining iterations can read.
   */
  lemma {:induction false} ScanCompletesIffInOrder(data: seq<Byte>, p: nat, searchIndex: int, k: nat, maximumOffset: int)
    requires 1 <= searchIndex && k < searchIndex && searchIndex - 1 <= p && k < 4
    ensures ScanFrom(data, p, searchIndex, k, maximumOffset).k == 4
        <==> InOrder(Marker[k..], Ahead(data, p, maximumOffset - searchIndex + 1))
    decreases maximumOffset - searchIndex
  {
    var text := Marker[k..];
    if searchIndex > maximumOffset || p >= |data| {
      assert Ahead(data, p, maximumOffset - searchIndex + 1) == [] && text != [];
    } else {
      var rest := Ahead(data, p + 1, maximumOffset - searchIndex);
      AheadStep(data, p, maximumOffset - searchIndex + 1);
      ScanStep(data, p, searchIndex, k, maximumOffset);
      assert text[0] == Marker[k];
      if data[p] as char == Marker[k] {
        InOrderMatch(text, data[p], rest);
        if k == 3 {
          assert text[1..] == [];
        } else {
          ScanCompletesIffInOrder(data, p + 1, searchIndex + 1, k + 1, maximumOffset);
          assert text[1..] == Marker[k + 1..];
        }
      } else {
        InOrderMismatch(text, data[p], rest);
        ScanCompletesIffInOrder(data, p + 1, searchIndex + 1, k, maximumOffset);
      }
    }
  }

  /**
   * The scan succeeds exactly when 'S', 'M', 'N', 'R' occur in this order among
   * the first `maximumOffset` bytes; the cursor then ends on the third byte before
   * the completing 'R', and no fallback seek happens.
   */
  lemma ScanSucceedsIffInOrder(data: seq<Byte>, s: State, maximumOffset: int, fallbackOffset: int)
    ensures var e := ScanFrom(data, s.pos, 1, 0, maximumOffset);
      (e.k == 4 <==> InOrder(Marker, Ahead(data, s.pos, maximumOffset))) &&
      (e.k == 4 ==> SeekToMarker(data, s, maximumOffset, fallbackOffset) == Ok(Parsed((), s.(pos := e.pos))))
  {
    ScanCompletesIffInOrder(data, s.pos, 1, 0, maximumOffset);
  }

  /** Where the loop stops: how many bytes it consumed, and where a completed match ends. */
  lemma {:induction false} ScanExtent(data: seq<Byte>, p: nat, searchIndex: int, k: nat, maximumOffset: int)
    requires 1 <= searchIndex && k < searchIndex && searchIndex - 1 <= p && k < 4
    ensures var e := ScanFrom(data, p, searchIndex, k, maximumOffset);
      e.searchIndex >= searchIndex &&
      (e.k == 4 ==> e.searchIndex <= maximumOffset && e.pos + 4 == p - searchIndex + e.searchIndex + 1
                    && e.pos + 4 <= |data| && data[e.pos + 3] == 'R' as int) &&
      (e.k != 4 ==> e.pos == p - searchIndex + e.searchIndex
                    && (maximumOffset >= searchIndex ==> e.searchIndex <= maximumOffset + 1))
    decreases maximumOffset - searchIndex
  {
    if searchIndex <= maximumOffset && p < |data| {
      var k' := if data[p] as char == Marker[k] then k + 1 else k;
      if k' < 4 {
        ScanExtent(data, p + 1, searchIndex + 1, k', maximumOffset);
      }
    }
  }

  /**
   * Failure: when the marker is not found (lookahead exhausted or end of
   * stream), the cursor ends at `scanStart + fallbackOffset - 1`, and the seek
   * fails only if that is before the start of the stream.
   */
  lemma ScanFallback(data: seq<Byte>, s: State, maximumOffset: int, fallbackOffset: int)
    requires 0 <= maximumOffset < 0x7FFF_FFFF && 0 <= fallbackOffset <= 0x7FFF_FFFF
    requires ScanFrom(data, s.pos, 1, 0, maximumOffset).k != 4
    ensures SeekToMarker(data, s, maximumOffset, fallbackOffset)
         == SeekAbsolute(s, s.pos + fallbackOffset - 1)
  {
    ScanExtent(data, s.pos, 1, 0, maximumOffset);
    var e := ScanFrom(data, s.pos, 1, 0, maximumOffset);
    Int32Identity(fallbackOffset - e.searchIndex);
  }

  /** Bytes without an 'S' leave an unstarted match unstarted. */
  lemma {:induction false} SkipWithoutS(data: seq<Byte>, p: nat, searchIndex: int, d: nat, maximumOffset: int)
    requires 1 <= searchIndex && searchIndex - 1 <= p && p + d <= |data| && searchIndex + d - 1 <= maximumOffset
    requires forall j :: p <= j < p + d ==> data[j] != 'S' as int
    ensures ScanFrom(data, p, searchIndex, 0, maximumOffset) == ScanFrom(data, p + d, searchIndex + d, 0, maximumOffset)
    decreases d
  {
    if d > 0 {
      assert data[p] as char != Marker[0];
      SkipWithoutS(data, p + 1, searchIndex + 1, d - 1, maximumOffset);
    }
  }

  /**
   * A contiguous marker `d` bytes into the scan, with no 'S' before it, is
   * found: the cursor is left on its 'S'.
   */
  lemma FindsContiguousMarker(data: seq<Byte>, s: State, d: nat, maximumOffset: int, fallbackOffset: int)
    requires s.pos + d + 4 <= |data| && d + 4 <= maximumOffset
    requires forall j :: 0 <= j < 4 ==> data[s.pos + d + j] == Marker[j] as int
    requires forall j :: s.pos <= j < s.pos + d ==> data[j] != 'S' as int
    ensures SeekToMarker(data, s, maximumOffset, fallbackOffset) == Ok(Parsed((), s.(pos := s.pos + d)))
  {
    SkipWithoutS(data, s.pos, 1, d, maximumOffset);
    var q := s.pos + d;
    assert data[q] as char == Marker[0] && data[q + 1] as char == Marker[1];
    assert data[q + 2] as char == Marker[2] && data[q + 3] as char == Marker[3];
    assert ScanFrom(data, q + 3, d + 4, 3, maximumOffset) == ScanEnd(q, d + 4, 4);
    assert ScanFrom(data, q + 2, d + 3, 2, maximumOffset) == ScanEnd(q, d + 4, 4);
    assert ScanFrom(data, q + 1, d + 2, 1, maximumOffset) == ScanEnd(q, d + 4, 4);
  }

  /**
   * The counter is never reset: in "SxMNR" the marker letters occur in order,
   * the scan succeeds, and the cursor is left on the 'x', not on an 'S'.
   */
  lemma ScatteredMarkerMatches()
    ensures SeekToMarker([83, 120, 77, 78, 82], State(0, true), 128, 0) == Ok(Parsed((), State(1, true)))
  {
    var data: seq<Byte> := [83, 120, 77, 78, 82];
    assert ScanFrom(data, 4, 5, 3, 128) == ScanEnd(1, 5, 4);
    assert ScanFrom(data, 3, 4, 2, 128) == ScanEnd(1, 5, 4);
    assert ScanFrom(data, 2, 3, 1, 128) == ScanEnd(1, 5, 4);
    assert ScanFrom(data, 1, 2, 1, 128) == ScanEnd(1, 5, 4);
  }
}
