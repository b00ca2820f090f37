/**
 * The byte cursor the decoder walks the file with: an immutable buffer, a
 * position and a byte order that can be switched between reads.
 *
 * The pure functions give the meaning of each cursor operation on a `State`;
 * the class `FileReader` performs them in place and is proved to agree.
 */
module Reader {
  import opened Wrappers
  import opened Bytes

  /** Where the cursor stands and which byte order multi-byte reads use. */
  datatype State = State(pos: nat, bigEndian: bool)

  /** A decoded value and the cursor state just after it. */
  datatype Parsed<+T> = Parsed(value: T, next: State)

  type Step<T> = Result<Parsed<T>>

  /**
   * `r` and `now` are what an in-place operation returned and left behind;
   * they agree with `spec` when both succeed with the same value and state,
   * or both fail with the same error.
   */
  predicate Agrees<T(==)>(r: Result<T>, now: State, spec: Step<T>)
  {
    match spec
    case Ok(p) => r == Ok(p.value) && now == p.next
    case Err(e) => r == Err(e)
  }

  /** Exactly `n` bytes at the cursor; fewer than `n` left is a failure. */
  function TakeBytes(data: seq<Byte>, s: State, n: nat): Step<seq<Byte>>
  {
    if s.pos + n <= |data| then Ok(Parsed(data[s.pos..s.pos + n], s.(pos := s.pos + n)))
    else Err(OutOfData)
  }

  /** An unsigned `n`-byte integer in the current byte order. */
  function ReadUInt(data: seq<Byte>, s: State, n: nat): (r: Step<nat>)
    ensures r.Ok? <==> s.pos + n <= |data|
    ensures r.Ok? ==> r.value.value < Pow256(n) && r.value.next == s.(pos := s.pos + n)
  {
    var bytes :- TakeBytes(data, s, n);
    LittleEndianBound(bytes.value);
    BigEndianIsReversed(bytes.value);
    LittleEndianBound(Reverse(bytes.value));
    Ok(Parsed(Word(bytes.value, s.bigEndian), bytes.next))
  }

  /** A word written at the cursor in the cursor's byte order reads back as the same value. */
  lemma ReadUIntEncoded(data: seq<Byte>, s: State, n: nat, x: nat)
    requires x < Pow256(n)
    requires s.pos + n <= |data| && data[s.pos..s.pos + n] == EncodeWord(x, n, s.bigEndian)
    ensures ReadUInt(data, s, n) == Ok(Parsed(x, s.(pos := s.pos + n)))
  {
    DecodeEncode(x, n);
    if s.bigEndian {
      BigEndianIsReversed(Reverse(EncodeLittleEndian(x, n)));
      ReverseReverse(EncodeLittleEndian(x, n));
    }
  }

  function ReadU8(data: seq<Byte>, s: State): Step<Byte>
  {
    if s.pos < |data| then Ok(Parsed(data[s.pos], s.(pos := s.pos + 1))) else Err(OutOfData)
  }

  /** `ReadChar` consumes a single byte and yields the character with its code. */
  function ReadChar1(data: seq<Byte>, s: State): Step<char>
  {
    var b :- ReadU8(data, s);
    Ok(Parsed(b.value as char, b.next))
  }

  function ReadU16(data: seq<Byte>, s: State): Step<nat>
  {
    ReadUInt(data, s, 2)
  }

  function ReadU32(data: seq<Byte>, s: State): Step<nat>
  {
    ReadUInt(data, s, 4)
  }

  function ReadI16(data: seq<Byte>, s: State): (r: Step<int>)
    ensures r.Ok? ==> -0x8000 <= r.value.value < 0x8000 && r.value.next.pos == s.pos + 2
  {
    var w :- ReadU16(data, s);
    assert Pow256(2) == 0x1_0000;
    Ok(Parsed(ToInt16(w.value), w.next))
  }

  /** A seek relative to the cursor; landing before the start fails. */
  function SeekRelative(s: State, offset: int): Step<()>
  {
    SeekAbsolute(s, s.pos + offset)
  }

  /** A seek to an absolute position; a position past the end is allowed. */
  function SeekAbsolute(s: State, target: int): Step<()>
  {
    if target < 0 then Err(SeekBeforeBegin) else Ok(Parsed((), s.(pos := target)))
  }

  /** How many of `n` wanted bytes are left at the cursor. */
  function Available(data: seq<Byte>, s: State, n: nat): (k: nat)
    ensures k <= n && (k > 0 ==> s.pos + k <= |data|)
    ensures k < n ==> s.pos + k >= |data|
  {
    if s.pos >= |data| then 0 else if s.pos + n <= |data| then n else |data| - s.pos
  }

  /**
   * `ReadChars(n)`: up to `n` characters, one byte each; at the end of the
   * stream it returns what is left instead of failing.
   */
  function ReadCharsUpTo(data: seq<Byte>, s: State, n: nat): Parsed<string>
  {
    var k := Available(data, s, n);
    if k == 0 then Parsed("", s) else Parsed(Chars(data[s.pos..s.pos + k]), s.(pos := s.pos + k))
  }

  /** `ReadString(n, ASCII)`: up to `n` bytes decoded as ASCII, short at the end of the stream. */
  function ReadAsciiUpTo(data: seq<Byte>, s: State, n: nat): Parsed<string>
  {
    var k := Available(data, s, n);
    if k == 0 then Parsed("", s) else Parsed(Ascii(data[s.pos..s.pos + k]), s.(pos := s.pos + k))
  }

  /**
   * A zero-terminated string: the bytes from the cursor up to the first zero,
   * with the cursor left just past that zero. No zero before the end is a
   * failure.
   */
  function ReadZString(data: seq<Byte>, s: State): Step<string>
  {
    ZStringFrom(data, s, s.pos)
  }

  /** The scan of `ReadZString`, with bytes `s.pos` to `i` already known to be non-zero. */
  function ZStringFrom(data: seq<Byte>, s: State, i: nat): Step<string>
    requires s.pos <= i
    decreases |data| - i
  {
    if i >= |data| then Err(OutOfData)
    else if data[i] == 0 then Ok(Parsed(Chars(data[s.pos..i]), s.(pos := i + 1)))
    else ZStringFrom(data, s, i + 1)
  }

  /** The scan stops at the first zero at or after `i`. */
  lemma {:induction false} ZStringStopsAt(data: seq<Byte>, s: State, i: nat, z: nat)
    requires s.pos <= i <= z < |data| && data[z] == 0
    requires forall j :: i <= j < z ==> data[j] != 0
    ensures ZStringFrom(data, s, i) == Ok(Parsed(Chars(data[s.pos..z]), s.(pos := z + 1)))
    decreases z - i
  {
    if i < z {
      ZStringStopsAt(data, s, i + 1, z);
    }
  }

  /** With no zero at or after `i`, the scan runs off the end of the stream. */
  lemma {:induction false} ZStringUnterminated(data: seq<Byte>, s: State, i: nat)
    requires s.pos <= i
    requires forall j :: i <= j < |data| ==> data[j] != 0
    ensures ZStringFrom(data, s, i) == Err(OutOfData)
    decreases |data| - i
  {
    if i < |data| {
      ZStringUnterminated(data, s, i + 1);
    }
  }

  /** A zero-terminated read moves the cursor forward and keeps the byte order. */
  lemma {:induction false} ZStringKeepsOrder(data: seq<Byte>, s: State, i: nat)
    requires s.pos <= i && ZStringFrom(data, s, i).Ok?
    ensures var next := ZStringFrom(data, s, i).value.next;
      next.bigEndian == s.bigEndian && i < next.pos <= |data|
    decreases |data| - i
  {
    if data[i] != 0 {
      ZStringKeepsOrder(data, s, i + 1);
    }
  }

  /** Reading back a zero-terminated string placed in a stream gives that string. */
  lemma ZeroTerminatedRoundTrip(pre: seq<Byte>, text: seq<Byte>, rest: seq<Byte>, bigEndian: bool)
    requires 0 !in text
    ensures ReadZString(pre + text + [0] + rest, State(|pre|, bigEndian))
         == Ok(Parsed(Chars(text), State(|pre| + |text| + 1, bigEndian)))
  {
    var data := pre + text + [0] + rest;
    var end := |pre| + |text|;
    assert data[end] == 0;
    assert forall j :: |pre| <= j < end ==> data[j] == text[j - |pre|];
    ZStringStopsAt(data, State(|pre|, bigEndian), |pre|, end);
    assert data[|pre|..end] == text;
  }

  /** A string of `n` non-zero bytes at the cursor, followed by a zero, is read whole. */
  lemma ZeroTerminatedAt(data: seq<Byte>, s: State, n: nat)
    requires s.pos + n < |data| && data[s.pos + n] == 0
    requires forall j :: s.pos <= j < s.pos + n ==> data[j] != 0
    ensures ReadZString(data, s) == Ok(Parsed(Chars(data[s.pos..s.pos + n]), s.(pos := s.pos + n + 1)))
  {
    ZStringStopsAt(data, s, s.pos, s.pos + n);
  }

  /**
   * `remaining` more records, each read by `step` where the previous one ended
   * and told its own index in the list, appended to `acc`.
   */
  function Records<T>(step: (State, nat) -> Step<T>, s: State, remaining: nat, acc: seq<T>): Step<seq<T>>
    decreases remaining
  {
    if remaining == 0 then Ok(Parsed(acc, s))
    else
      var x :- step(s, |acc|);
      Records(step, x.next, remaining - 1, acc + [x.value])
  }

  /** A record loop yields exactly `remaining` more records, after the ones already read. */
  lemma {:induction false} RecordsCount<T>(step: (State, nat) -> Step<T>, s: State, remaining: nat, acc: seq<T>)
    requires Records(step, s, remaining, acc).Ok?
    ensures var xs := Records(step, s, remaining, acc).value.value;
      |xs| == |acc| + remaining && xs[..|acc|] == acc
    decreases remaining
  {
    if remaining > 0 {
      var x := step(s, |acc|).value;
      RecordsCount(step, x.next, remaining - 1, acc + [x.value]);
      var xs := Records(step, s, remaining, acc).value.value;
      assert xs[..|acc|] == xs[..|acc| + 1][..|acc|];
    }
  }

  /** A property every record `step` can yield at its index holds of every record of the loop. */
  lemma {:induction false} RecordsAll<T>(step: (State, nat) -> Step<T>, P: (T, nat) -> bool, s: State, remaining: nat, acc: seq<T>)
    requires forall t, k :: step(t, k).Ok? ==> P(step(t, k).value.value, k)
    requires forall i :: 0 <= i < |acc| ==> P(acc[i], i)
    requires Records(step, s, remaining, acc).Ok?
    ensures var xs := Records(step, s, remaining, acc).value.value;
      forall i :: 0 <= i < |xs| ==> P(xs[i], i)
    decreases remaining
  {
    if remaining > 0 {
      var x := step(s, |acc|).value;
      var acc' := acc + [x.value];
      assert forall i :: 0 <= i < |acc'| ==> P(acc'[i], i) by {
        forall i | 0 <= i < |acc'|
          ensures P(acc'[i], i)
        {
          if i < |acc| {
            assert acc'[i] == acc[i];
          }
        }
      }
      RecordsAll(step, P, x.next, remaining - 1, acc');
    }
  }

  /** A property of the cursor that every record `step` keeps holds where the loop ends. */
  lemma {:induction false} RecordsEnd<T>(step: (State, nat) -> Step<T>, Q: State -> bool, s: State, remaining: nat, acc: seq<T>)
    requires forall t, k :: Q(t) && step(t, k).Ok? ==> Q(step(t, k).value.next)
    requires Q(s) && Records(step, s, remaining, acc).Ok?
    ensures Q(Records(step, s, remaining, acc).value.next)
    decreases remaining
  {
    if remaining > 0 {
      var x := step(s, |acc|).value;
      RecordsEnd(step, Q, x.next, remaining - 1, acc + [x.value]);
    }
  }

  /** The cursor over one file's bytes, as the decoder uses it. */
  class FileReader {
    const data: seq<Byte>
    var pos: nat
    var bigEndian: bool

    function At(): State
      reads this
    {
      State(pos, bigEndian)
    }

    /** A fresh cursor stands at the start, little-endian. */
    constructor (bytes: seq<Byte>)
      ensures data == bytes && At() == State(0, false)
    {
      data := bytes;
      pos := 0;
      bigEndian := false;
    }

    method SetByteOrder(big: bool)
      modifies this
      ensures At() == old(At()).(bigEndian := big)
    {
      bigEndian := big;
    }

    /** Exactly `n` bytes, or a failure that leaves the cursor where it was. */
    method ReadExactly(n: nat) returns (r: Result<seq<Byte>>)
      modifies this
      ensures Agrees(r, At(), TakeBytes(data, old(At()), n))
      ensures r.Err? ==> At() == old(At())
    {
      if pos + n <= |data| {
        r := Ok(data[pos..pos + n]);
        pos := pos + n;
      } else {
        r := Err(OutOfData);
      }
    }

    method ReadByte() returns (r: Result<Byte>)
      modifies this
      ensures Agrees(r, At(), ReadU8(data, old(At())))
      ensures r.Err? ==> At() == old(At())
    {
      var bytes :- ReadExactly(1);
      r := Ok(bytes[0]);
    }

    method ReadChar() returns (r: Result<char>)
      modifies this
      ensures Agrees(r, At(), ReadChar1(data, old(At())))
      ensures r.Err? ==> At() == old(At())
    {
      var b :- ReadByte();
      r := Ok(b as char);
    }

    method ReadUInt16() returns (r: Result<nat>)
      modifies this
      ensures Agrees(r, At(), ReadU16(data, old(At())))
      ensures r.Err? ==> At() == old(At())
    {
      var bytes :- ReadExactly(2);
      r := Ok(Word(bytes, bigEndian));
    }

    method ReadUInt32() returns (r: Result<nat>)
      modifies this
      ensures Agrees(r, At(), ReadU32(data, old(At())))
      ensures r.Err? ==> At() == old(At())
    {
      var bytes :- ReadExactly(4);
      r := Ok(Word(bytes, bigEndian));
    }

    method ReadInt16() returns (r: Result<int>)
      modifies this
      ensures Agrees(r, At(), ReadI16(data, old(At())))
      ensures r.Err? ==> At() == old(At())
    {
      var w :- ReadUInt16();
      assert Pow256(2) == 0x1_0000;
      r := Ok(ToInt16(w));
    }

    method Seek(offset: int) returns (r: Result<()>)
      modifies this
      ensures Agrees(r, At(), SeekRelative(old(At()), offset))
      ensures r.Err? ==> At() == old(At())
    {
      r := SeekBegin(pos + offset);
    }

    method SeekBegin(target: int) returns (r: Result<()>)
      modifies this
      ensures Agrees(r, At(), SeekAbsolute(old(At()), target))
      ensures r.Err? ==> At() == old(At())
    {
      if target < 0 {
        r := Err(SeekBeforeBegin);
      } else {
        pos := target;
        r := Ok(());
      }
    }

    method ReadChars(n: nat) returns (text: string)
      modifies this
      ensures Parsed(text, At()) == ReadCharsUpTo(data, old(At()), n)
    {
      var k := Available(data, At(), n);
      if k > 0 {
        text := Chars(data[pos..pos + k]);
        pos := pos + k;
      } else {
        text := "";
      }
    }

    /** `ReadString(length, Encoding.ASCII)`. */
    method ReadAsciiString(length: nat) returns (text: string)
      modifies this
      ensures Parsed(text, At()) == ReadAsciiUpTo(data, old(At()), length)
    {
      var k := Available(data, At(), length);
      if k > 0 {
        text := Ascii(data[pos..pos + k]);
        pos := pos + k;
      } else {
        text := "";
      }
    }

    /** Bytes up to the next zero; the cursor ends just past the zero. */
    method ReadZeroTerminatedString() returns (r: Result<string>)
      modifies this
      ensures Agrees(r, At(), ReadZString(data, old(At())))
    {
      if pos >= |data| {
        return Err(OutOfData);
      }
      var i := pos;
      while i < |data| && data[i] != 0
        invariant pos <= i <= |data|
        invariant ZStringFrom(data, At(), i) == ReadZString(data, At())
      {
        i := i + 1;
      }
      if i == |data| {
        return Err(OutOfData);
      }
      r := Ok(Chars(data[pos..i]));
      pos := i + 1;
    }
  }
}
