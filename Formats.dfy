/**
 * Vertex attributes: their semantic type codes, their numeric formats, the
 * byte width of each format, and the stride of a vertex record.
 */
module Formats {
  import opened Wrappers
  import opened Bytes

  /** One entry of a buffer's attribute table, as read from the stream. */
  datatype Attribute = Attribute(kind: Byte, format: Byte, offset: Byte)

  // Semantic type codes (`AttributeType`). Only the first six named here have
  // a slot in an exported vertex.
  const Position: Byte := 0
  const Normal: Byte := 1
  const ColorSet0: Byte := 2
  const ColorSet1: Byte := 4
  const UvSet01: Byte := 5
  const UvSet2: Byte := 7
  const Tangent: Byte := 3
  const BlendIndices0: Byte := 9
  const BlendWeight0: Byte := 10
  const LightDirSet: Byte := 12
  const LightColSet: Byte := 13

  /** The numeric formats a format code can name (`AttributeFormat`). */
  datatype Format = Vec2Float | Vec3Float | Vec4Float | Vec2Half | Vec4Half | Vec4Byte | Vec4ByteF | Color4Byte

  function FormatOf(code: int): Option<Format>
  {
    match code
    case 2 => Some(Vec2Float)
    case 3 => Some(Vec3Float)
    case 4 => Some(Vec4Float)
    case 5 => Some(Vec2Half)
    case 6 => Some(Vec4Half)
    case 7 => Some(Vec4Byte)
    case 8 => Some(Vec4ByteF)
    case 9 => Some(Color4Byte)
    case _ => None
  }

  /** Bytes one value of the format occupies in a vertex record. */
  function Width(f: Format): nat
  {
    match f
    case Vec2Float => 8
    case Vec3Float => 12
    case Vec4Float => 16
    case Vec2Half => 4
    case Vec4Half => 8
    case Vec4Byte => 4
    case Vec4ByteF => 4
    case Color4Byte => 4
  }

  predicate Known(a: Attribute)
  {
    FormatOf(a.format).Some?
  }

  /** `Attribute.GetStride`: the width of the attribute's format; an unknown code fails. */
  function GetStride(a: Attribute): (r: Result<nat>)
    ensures r.Ok? <==> 2 <= a.format <= 9
    ensures r.Ok? ==> 4 <= r.value <= 16 && r.value % 4 == 0
    ensures r.Err? ==> r.error == UnknownFormat(a.format)
  {
    match FormatOf(a.format)
    case Some(f) => Ok(Width(f))
    case None => Err(UnknownFormat(a.format))
  }

  /** The width of each format code, as the source's table lists them. */
  lemma FormatWidths(kind: Byte, offset: Byte)
    ensures GetStride(Attribute(kind, 2, offset)) == Ok(8)
    ensures GetStride(Attribute(kind, 3, offset)) == Ok(12)
    ensures GetStride(Attribute(kind, 4, offset)) == Ok(16)
    ensures GetStride(Attribute(kind, 5, offset)) == Ok(4)
    ensures GetStride(Attribute(kind, 6, offset)) == Ok(8)
    ensures GetStride(Attribute(kind, 7, offset)) == Ok(4)
    ensures GetStride(Attribute(kind, 8, offset)) == Ok(4)
    ensures GetStride(Attribute(kind, 9, offset)) == Ok(4)
  {
  }

  /**
   * The stride of a buffer, `Attributes.Sum(x => x.GetStride())`: widths are
   * added in table order, so the first attribute with an unknown format fails.
   */
  function Stride(attrs: seq<Attribute>): Result<nat>
  {
    if attrs == [] then Ok(0)
    else
      var w :- GetStride(attrs[0]);
      var rest :- Stride(attrs[1..]);
      Ok(w + rest)
  }

  /** The stride exists exactly when every format is known, and it is at least four bytes per attribute. */
  lemma {:induction false} StrideDefined(attrs: seq<Attribute>)
    ensures Stride(attrs).Ok? <==> forall i :: 0 <= i < |attrs| ==> Known(attrs[i])
    ensures Stride(attrs).Ok? ==> 4 * |attrs| <= Stride(attrs).value <= 16 * |attrs|
  {
    if attrs != [] {
      StrideDefined(attrs[1..]);
      assert forall i :: 1 <= i < |attrs| ==> attrs[i] == attrs[1..][i - 1];
    }
  }

  /** With an unknown format in the table, the stride fails on the first such code. */
  lemma {:induction false} StrideFailsOnFirstUnknown(attrs: seq<Attribute>, i: nat)
    requires i < |attrs| && !Known(attrs[i])
    requires forall j :: 0 <= j < i ==> Known(attrs[j])
    ensures Stride(attrs) == Err(UnknownFormat(attrs[i].format))
  {
    if i > 0 {
      StrideFailsOnFirstUnknown(attrs[1..], i - 1);
    }
  }

  /** The stride of two tables laid end to end is the sum of their strides. */
  lemma {:induction false} StrideAppend(a: seq<Attribute>, b: seq<Attribute>)
    ensures Stride(a + b).Ok? <==> Stride(a).Ok? && Stride(b).Ok?
    ensures Stride(a + b).Ok? ==> Stride(a + b).value == Stride(a).value + Stride(b).value
  {
    if a == [] {
      assert a + b == b;
    } else {
      assert (a + b)[0] == a[0] && (a + b)[1..] == a[1..] + b;
      StrideAppend(a[1..], b);
    }
  }

  /** Taking one occurrence of `x` out of `b` leaves the rest of `a` when `a` starts with `x`. */
  lemma RemoveOne(a: seq<Attribute>, b: seq<Attribute>, i: nat)
    requires a != [] && multiset(a) == multiset(b)
    requires i < |b| && b[i] == a[0]
    ensures multiset(a[1..]) == multiset(b[..i] + b[i + 1..])
  {
    assert a == [a[0]] + a[1..];
    assert b == b[..i] + [b[i]] + b[i + 1..];
    assert multiset(a) == multiset{a[0]} + multiset(a[1..]);
    assert multiset(b) == multiset(b[..i]) + multiset{a[0]} + multiset(b[i + 1..]);
    assert multiset(b[..i] + b[i + 1..]) == multiset(b[..i]) + multiset(b[i + 1..]);
    forall y ensures multiset(a[1..])[y] == multiset(b[..i] + b[i + 1..])[y] {
      assert multiset(a)[y] == multiset(b)[y];
    }
  }

  /** Moving one attribute to the front of a table keeps its stride. */
  lemma MoveToFront(b: seq<Attribute>, i: nat)
    requires i < |b|
    ensures var moved := [b[i]] + (b[..i] + b[i + 1..]);
      (Stride(moved).Ok? <==> Stride(b).Ok?) &&
      (Stride(b).Ok? ==> Stride(moved).value == Stride(b).value)
  {
    var x := b[i];
    assert b == b[..i] + ([x] + b[i + 1..]);
    StrideAppend(b[..i], [x] + b[i + 1..]);
    StrideAppend([x], b[i + 1..]);
    StrideAppend(b[..i], b[i + 1..]);
    StrideAppend([x], b[..i] + b[i + 1..]);
  }

  /** Reordering the attribute table does not change whether the stride exists, nor its value. */
  lemma {:induction false} StridePermutation(a: seq<Attribute>, b: seq<Attribute>)
    requires multiset(a) == multiset(b)
    ensures Stride(a).Ok? <==> Stride(b).Ok?
    ensures Stride(a).Ok? ==> Stride(a).value == Stride(b).value
    decreases |a|
  {
    if a != [] {
      assert a[0] in multiset(b);
      var i :| 0 <= i < |b| && b[i] == a[0];
      var rest := b[..i] + b[i + 1..];
      RemoveOne(a, b, i);
      StridePermutation(a[1..], rest);
      MoveToFront(b, i);
      assert a == [a[0]] + a[1..];
      StrideAppend([a[0]], a[1..]);
      StrideAppend([a[0]], rest);
    }
  }
}
