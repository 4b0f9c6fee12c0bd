/** The bytes behind each NBT tag, spelled out: sizes, big-endian sums and UTF-8
(e2e/scripts/prepare-vanilla-1171-void-world.py). */
module NbtBytes {
  import opened Wrappers
  import opened Bytes
  import opened Nbt

  // ---------------------------------------------------------------- integers

  function Octet(b: Bytes, i: nat): nat
    requires i < |b|
  {
    b[i]
  }

  /** The number that two, four or eight bytes stand for, most significant first. */
  function Sum2(b: Bytes): nat
    requires |b| == 2
  {
    0x100 * Octet(b, 0) + Octet(b, 1)
  }

  function Sum4(b: Bytes): nat
    requires |b| == 4
  {
    0x100_0000 * Octet(b, 0) + 0x1_0000 * Octet(b, 1) + 0x100 * Octet(b, 2) + Octet(b, 3)
  }

  function Sum8(b: Bytes): nat
    requires |b| == 8
  {
    0x100_0000_0000_0000 * Octet(b, 0) + 0x1_0000_0000_0000 * Octet(b, 1)
    + 0x100_0000_0000 * Octet(b, 2) + 0x1_0000_0000 * Octet(b, 3)
    + 0x100_0000 * Octet(b, 4) + 0x1_0000 * Octet(b, 5) + 0x100 * Octet(b, 6) + Octet(b, 7)
  }

  /** Two's complement: a first byte of 128 or more makes the number negative. */
  function SignedSum(b: Bytes): int
    requires |b| in {1, 2, 4, 8}
  {
    var negative := b[0] >= 0x80;
    if |b| == 1 then Octet(b, 0) - if negative then 0x100 else 0
    else if |b| == 2 then Sum2(b) - if negative then 0x1_0000 else 0
    else if |b| == 4 then Sum4(b) - if negative then 0x1_0000_0000 else 0
    else Sum8(b) - if negative then 0x1_0000_0000_0000_0000 else 0
  }

  lemma UnsignedLast(b: Bytes, k: nat)
    requires 0 < k <= |b|
    ensures Unsigned(b[..k]) == 256 * Unsigned(b[..k - 1]) + Octet(b, k - 1) && Unsigned(b[..0]) == 0
  {
    assert b[..k][..k - 1] == b[..k - 1];
    assert b[..0] == [];
  }

  lemma Unsigned4(b: Bytes)
    requires |b| >= 4
    ensures Unsigned(b[..4]) ==
            0x100_0000 * Octet(b, 0) + 0x1_0000 * Octet(b, 1) + 0x100 * Octet(b, 2) + Octet(b, 3)
  {
    hide Unsigned, Octet;
    UnsignedLast(b, 1);
    UnsignedLast(b, 2);
    UnsignedLast(b, 3);
    UnsignedLast(b, 4);
  }

  lemma Unsigned8(b: Bytes)
    requires |b| == 8
    ensures Unsigned(b[..8]) == Sum8(b)
  {
    hide Unsigned, Octet;
    Unsigned4(b);
    UnsignedLast(b, 5);
    UnsignedLast(b, 6);
    UnsignedLast(b, 7);
    UnsignedLast(b, 8);
  }

  lemma UnsignedIsSum(b: Bytes)
    ensures |b| == 1 ==> Unsigned(b) == Octet(b, 0)
    ensures |b| == 2 ==> Unsigned(b) == Sum2(b)
    ensures |b| == 4 ==> Unsigned(b) == Sum4(b)
    ensures |b| == 8 ==> Unsigned(b) == Sum8(b)
  {
    hide Unsigned, Octet, Sum8;
    assert b[..|b|] == b;
    if |b| == 1 {
      UnsignedLast(b, 1);
    } else if |b| == 2 {
      UnsignedLast(b, 1);
      UnsignedLast(b, 2);
    } else if |b| == 4 {
      Unsigned4(b);
    } else if |b| == 8 {
      Unsigned8(b);
    }
  }

  lemma Powers()
    ensures Pow256(1) == 0x100 && Pow256(2) == 0x1_0000 && Pow256(4) == 0x1_0000_0000
    ensures Pow256(8) == 0x1_0000_0000_0000_0000
  {
    assert Pow256(4) == 0x1_0000_0000;
    assert Pow256(6) == 0x1_0000_0000_0000;
  }

  lemma SignedIsSum(b: Bytes)
    requires |b| in {1, 2, 4, 8}
    ensures Signed(Unsigned(b), |b|) == SignedSum(b)
  {
    Powers();
    UnsignedIsSum(b);
    hide Unsigned, Pow256;
  }

  /** An integer is packed as the only bytes that stand for it, and only if there are any. */
  lemma PackedExactly(n: int, k: nat, b: Bytes)
    requires k in {1, 2, 4, 8}
    ensures PackInt(n, k) == Some(b) <==> |b| == k && SignedSum(b) == n
  {
    hide Signed, TwosComplement, FitsSigned;
    if |b| == k {
      SignedIsSum(b);
      BigEndianOfUnsigned(b);
      SignedRoundTrip(Unsigned(b), k);
    }
    if FitsSigned(n, k) {
      TwosComplementRoundTrip(n, k);
      UnsignedOfBigEndian(TwosComplement(n, k), k);
    }
  }

  // ---------------------------------------------------------------- what is read, tag by tag

  /** Tags 1 to 6 take 1, 2, 4, 8, 4 and 8 bytes; the first four are integers, the last two are kept as they are. */
  lemma NumbersExactly(data: Bytes, pos: nat, tag: int, depth: nat)
    requires pos <= |data| && 1 <= tag <= 6 && depth <= 64
    ensures var size := if tag == 1 then 1 else if tag == 2 then 2 else if tag == 3 || tag == 5 then 4 else 8;
            if pos + size <= |data| then
              var raw := data[pos..pos + size];
              Parse(data, pos, tag, depth) == Some((if tag <= 4 then Int(SignedSum(raw)) else Float(raw), pos + size))
            else Parse(data, pos, tag, depth) == None
  {
    hide Signed, SignedSum, Unsigned;
    var size := if tag == 1 then 1 else if tag == 2 then 2 else if tag == 3 || tag == 5 then 4 else 8;
    if pos + size <= |data| {
      SignedIsSum(data[pos..pos + size]);
    }
  }

  /** Tags 7, 11 and 12 are a four-byte count and that many elements of 1, 4 or 8 bytes. */
  lemma ArraysExactly(data: Bytes, pos: nat, tag: int, depth: nat)
    requires pos <= |data| && tag in {7, 11, 12} && depth <= 64
    ensures var size := if tag == 7 then 1 else if tag == 11 then 4 else 8;
            if pos + 4 <= |data| && 0 <= SignedSum(data[pos..pos + 4]) * size <= |data| - pos - 4 then
              var end := pos + 4 + SignedSum(data[pos..pos + 4]) * size;
              Parse(data, pos, tag, depth) == Some((Raw(data[pos + 4..end]), end))
            else Parse(data, pos, tag, depth) == None
  {
    hide Signed, SignedSum, Unsigned;
    if pos + 4 <= |data| {
      SignedIsSum(data[pos..pos + 4]);
    }
  }

  /** A name is a two-byte length and that many bytes of UTF-8; tag 8 is the same as a value. */
  lemma NamesExactly(data: Bytes, pos: nat, depth: nat)
    requires pos <= |data|
    ensures ParseName(data, pos) ==
            if pos + 2 > |data| then None
            else
              var end := pos + 2 + Sum2(data[pos..pos + 2]);
              if end <= |data| && ValidUtf8(data[pos + 2..end]) then Some((data[pos + 2..end], end)) else None
    ensures depth <= 64 ==>
              Parse(data, pos, 8, depth) ==
              if ParseName(data, pos).None? then None
              else Some((Str(ParseName(data, pos).value.0), ParseName(data, pos).value.1))
  {
    hide Unsigned, ValidUtf8;
    if pos + 2 <= |data| {
      UnsignedIsSum(data[pos..pos + 2]);
    }
  }

  /** Tag 9 is the tag of its elements, a four-byte count of at most 64 Mi, and the elements; without elements the tag
  may be 0. */
  lemma ListsExactly(data: Bytes, pos: nat, depth: nat)
    requires pos <= |data| && depth <= 64
    ensures Parse(data, pos, 9, depth) ==
            if pos + 5 > |data| then None
            else
              var kind, n := data[pos], SignedSum(data[pos + 1..pos + 5]);
              if n < 0 || n > 67_108_864 || (kind == 0 && n > 0) then None
              else
                var items := ParseItems(data, pos + 5, kind, n, depth);
                if items.None? then None else Some((List(kind, items.value.0), items.value.1))
  {
    hide Signed, SignedSum, Unsigned;
    if pos + 5 <= |data| {
      assert data[pos..pos + 5][1..] == data[pos + 1..pos + 5];
      SignedIsSum(data[pos + 1..pos + 5]);
    }
  }

  /** There are no other tags, and nothing below level 64. */
  lemma NothingElseIsRead(data: Bytes, pos: nat, tag: int, depth: nat)
    requires pos <= |data|
    requires tag < 1 || tag > 12 || depth > 64
    ensures Parse(data, pos, tag, depth) == None
  {
  }

  // ---------------------------------------------------------------- what is printed, tag by tag

  /** An integer is printed as the bytes of its tag's size that stand for it, if there are any. */
  lemma IntegersPrintExactly(tag: int, n: int, depth: nat, b: Bytes)
    requires depth <= 64
    ensures Encode(tag, Int(n), depth) == Some(b) <==>
              && 1 <= tag <= 4 && |b| == (if tag == 1 then 1 else if tag == 2 then 2 else if tag == 3 then 4 else 8)
              && SignedSum(b) == n
  {
    if 1 <= tag <= 4 {
      PackedExactly(n, Width(tag), b);
    }
    hide PackInt, SignedSum;
  }

  lemma OthersPrintExactly(tag: int, v: Value, depth: nat, b: Bytes)
    requires depth <= 64 && (v.Float? || v.Raw? || v.Str?)
    ensures Encode(tag, v, depth) == Some(b) <==>
              match v
              case Float(bits) => b == bits && ((tag == 5 && |bits| == 4) || (tag == 6 && |bits| == 8))
              case Raw(data) =>
                && tag in {7, 11, 12} && |b| == 4 + |data| && b[4..] == data
                && SignedSum(b[..4]) == |data| / (if tag == 7 then 1 else if tag == 11 then 4 else 8)
              case Str(text) => tag == 8 && |b| == 2 + |text| && b[2..] == text && Sum2(b[..2]) == |text|
  {
    hide SignedSum, PackInt, BigEndian, Sum2;
    if v.Raw? && IsArray(tag) {
      var head := PackInt(|v.data| / ElementWidth(tag), 4);
      if head.Some? {
        PackedExactly(|v.data| / ElementWidth(tag), 4, head.value);
        assert (head.value + v.data)[..4] == head.value && (head.value + v.data)[4..] == v.data;
      }
      if |b| >= 4 {
        PackedExactly(|v.data| / ElementWidth(tag), 4, b[..4]);
        assert b == b[..4] + b[4..];
      }
    } else if v.Str? {
      NamePrintsExactly(v.text, b);
    }
  }

  lemma NamePrintsExactly(text: Bytes, b: Bytes)
    ensures EncodeName(text) == Some(b) <==> |b| == 2 + |text| && b[2..] == text && Sum2(b[..2]) == |text|
  {
    Powers();
    if |b| >= 2 {
      UnsignedIsSum(b[..2]);
      BigEndianOfUnsigned(b[..2]);
      assert b == b[..2] + b[2..];
    }
    if |text| < 0x1_0000 {
      UnsignedOfBigEndian(|text|, 2);
      assert (BigEndian(|text|, 2) + text)[..2] == BigEndian(|text|, 2);
    }
    hide BigEndian, Unsigned, Sum2, Pow256;
  }

  /** A list is printed as the tag of its elements, their number in four bytes, and the elements; a compound as its
  fields, each with its tag and its name, and a zero byte. */
  lemma ContainersPrintExactly(v: Value, depth: nat, b: Bytes)
    requires depth <= 64
    ensures v.List? ==>
              (Encode(9, v, depth) == Some(b) <==>
                 && EncodeItems(v.kind, v.items, depth).Some?
                 && var body := EncodeItems(v.kind, v.items, depth).value;
                    && |b| == 5 + |body| && b[0] == v.kind && SignedSum(b[1..5]) == |v.items| && b[5..] == body)
    ensures v.Compound? ==>
              (Encode(10, v, depth) == Some(b) <==>
                 EncodeFields(v.fields, depth).Some? && b == EncodeFields(v.fields, depth).value + [0])
  {
    hide SignedSum, PackInt, EncodeItems, EncodeFields;
    if v.List? {
      var n, body := |v.items|, EncodeItems(v.kind, v.items, depth);
      if PackInt(n, 4).Some? && body.Some? {
        var head := PackInt(n, 4).value;
        PackedExactly(n, 4, head);
        var whole := [v.kind] + head + body.value;
        assert whole[1..5] == head && whole[5..] == body.value;
      }
      if |b| >= 5 {
        PackedExactly(n, 4, b[1..5]);
        assert b == [b[0]] + b[1..5] + b[5..];
      }
    }
  }

  /** Element by element and field by field. */
  lemma PartsPrintExactly(kind: int, items: seq<Value>, fields: seq<Field>, depth: nat, b: Bytes)
    ensures EncodeItems(kind, [], depth) == Some([]) && EncodeFields([], depth) == Some([])
    ensures items != [] ==>
              (EncodeItems(kind, items, depth) == Some(b) <==>
                 exists x, rest :: && Encode(kind, items[0], depth + 1) == Some(x)
                                   && EncodeItems(kind, items[1..], depth) == Some(rest) && b == x + rest)
    ensures fields != [] ==>
              (EncodeFields(fields, depth) == Some(b) <==>
                 exists name, x, rest ::
                   && EncodeName(fields[0].name) == Some(name)
                   && Encode(fields[0].kind, fields[0].item, depth + 1) == Some(x)
                   && EncodeFields(fields[1..], depth) == Some(rest) && b == [fields[0].kind] + name + x + rest)
  {
    hide Encode, EncodeName;
  }

  // ---------------------------------------------------------------- UTF-8

  /** The Unicode scalar values: code points other than surrogates (section 3 of RFC 3629). */
  predicate IsScalar(c: int) {
    0 <= c <= 0xD7FF || 0xE000 <= c <= 0x10FFFF
  }

  /** The octets of one scalar value: its bits, in six-bit groups behind a leading octet. */
  function Utf8(c: int): (b: Bytes)
    requires IsScalar(c)
    ensures b != []
  {
    if c < 0x80 then [c]
    else if c < 0x800 then [0xC0 + c / 0x40, 0x80 + c % 0x40]
    else if c < 0x1_0000 then [0xE0 + c / 0x1000, 0x80 + c / 0x40 % 0x40, 0x80 + c % 0x40]
    else [0xF0 + c / 0x4_0000, 0x80 + c / 0x1000 % 0x40, 0x80 + c / 0x40 % 0x40, 0x80 + c % 0x40]
  }

  function Utf8Text(text: seq<int>): Bytes
    requires forall i | 0 <= i < |text| :: IsScalar(text[i])
  {
    if text == [] then [] else Utf8(text[0]) + Utf8Text(text[1..])
  }

  /** The scalar value that the octets at the start of `b` stand for. */
  function Scalar(b: Bytes): (c: int)
    requires CharLength(b) > 0
  {
    if CharLength(b) == 1 then Octet(b, 0)
    else if CharLength(b) == 2 then (Octet(b, 0) - 0xC0) * 0x40 + (Octet(b, 1) - 0x80)
    else if CharLength(b) == 3 then
      (Octet(b, 0) - 0xE0) * 0x1000 + (Octet(b, 1) - 0x80) * 0x40 + (Octet(b, 2) - 0x80)
    else
      (Octet(b, 0) - 0xF0) * 0x4_0000 + (Octet(b, 1) - 0x80) * 0x1000 + (Octet(b, 2) - 0x80) * 0x40
      + (Octet(b, 3) - 0x80)
  }

  /** The octets recognised at the start of a text are those of a scalar value. */
  lemma CharIsScalar(b: Bytes)
    requires CharLength(b) > 0
    ensures IsScalar(Scalar(b)) && Utf8(Scalar(b)) == b[..CharLength(b)]
  {
    if CharLength(b) <= 2 {
      if CharLength(b) == 2 {
        Groups(0, 0, Octet(b, 0) - 0xC0, Octet(b, 1) - 0x80);
      }
      assert b[..CharLength(b)] == if CharLength(b) == 1 then [b[0]] else [b[0], b[1]];
    } else if CharLength(b) == 3 {
      ThreeOctets(b);
    } else {
      FourOctets(b);
    }
  }

  lemma ThreeOctets(b: Bytes)
    requires CharLength(b) == 3
    ensures IsScalar(Scalar(b)) && Utf8(Scalar(b)) == b[..3]
  {
    Groups(0, Octet(b, 0) - 0xE0, Octet(b, 1) - 0x80, Octet(b, 2) - 0x80);
    assert b[..3] == [b[0], b[1], b[2]];
  }

  lemma FourOctets(b: Bytes)
    requires CharLength(b) == 4
    ensures IsScalar(Scalar(b)) && Utf8(Scalar(b)) == b[..4]
  {
    Groups(Octet(b, 0) - 0xF0, Octet(b, 1) - 0x80, Octet(b, 2) - 0x80, Octet(b, 3) - 0x80);
    assert b[..4] == [b[0], b[1], b[2], b[3]];
  }

  /** The six-bit groups of a number. */
  lemma Groups(high: int, x: int, y: int, z: int)
    requires 0 <= high && 0 <= x < 0x40 && 0 <= y < 0x40 && 0 <= z < 0x40
    ensures var c := high * 0x4_0000 + x * 0x1000 + y * 0x40 + z;
            && c / 0x4_0000 == high && c / 0x1000 == high * 0x40 + x && c / 0x1000 % 0x40 == x
            && c / 0x40 == high * 0x1000 + x * 0x40 + y && c / 0x40 % 0x40 == y && c % 0x40 == z
  {
  }

  lemma ScalarIsChar(c: int, rest: Bytes)
    requires IsScalar(c)
    ensures CharLength(Utf8(c) + rest) == |Utf8(c)|
  {
    var b := Utf8(c) + rest;
    if c < 0x80 {
    } else if c < 0x800 {
      assert b[0] == 0xC0 + c / 0x40 && b[1] == 0x80 + c % 0x40;
    } else if c < 0x1_0000 {
      ThreeOctetRanges(c);
      assert b[0] == 0xE0 + c / 0x1000 && b[1] == 0x80 + c / 0x40 % 0x40 && b[2] == 0x80 + c % 0x40;
    } else {
      FourOctetRanges(c);
      assert b[0] == 0xF0 + c / 0x4_0000 && b[1] == 0x80 + c / 0x1000 % 0x40;
      assert b[2] == 0x80 + c / 0x40 % 0x40 && b[3] == 0x80 + c % 0x40;
    }
    hide IsScalar, Utf8;
  }

  /** Overlong forms and surrogates cannot arise. */
  lemma ThreeOctetRanges(c: int)
    requires 0x800 <= c < 0x1_0000 && IsScalar(c)
    ensures 0 <= c / 0x1000 <= 0xF
    ensures c / 0x1000 == 0 ==> c / 0x40 % 0x40 >= 0x20
    ensures c / 0x1000 == 0xD ==> c / 0x40 % 0x40 < 0x20
  {
    assert c / 0x40 == c / 0x1000 * 0x40 + c / 0x40 % 0x40;
  }

  lemma FourOctetRanges(c: int)
    requires 0x1_0000 <= c <= 0x10_FFFF
    ensures 0 <= c / 0x4_0000 <= 4
    ensures c / 0x4_0000 == 0 ==> c / 0x1000 % 0x40 >= 0x10
    ensures c / 0x4_0000 == 4 ==> c / 0x1000 % 0x40 < 0x10
  {
    assert c / 0x1000 == c / 0x4_0000 * 0x40 + c / 0x1000 % 0x40;
  }

  /** The texts accepted are exactly the UTF-8 encodings of sequences of scalar values. */
  lemma {:induction false} ValidUtf8Exactly(b: Bytes)
    ensures ValidUtf8(b) <==>
            exists text: seq<int> :: (forall i | 0 <= i < |text| :: IsScalar(text[i])) && Utf8Text(text) == b
  {
    if ValidUtf8(b) {
      var text := ScalarsOf(b);
    }
    if text: seq<int> :| (forall i | 0 <= i < |text| :: IsScalar(text[i])) && Utf8Text(text) == b {
      TextIsValid(text);
    }
  }

  lemma {:induction false} ScalarsOf(b: Bytes) returns (text: seq<int>)
    requires ValidUtf8(b)
    ensures (forall i | 0 <= i < |text| :: IsScalar(text[i])) && Utf8Text(text) == b
  {
    hide CharLength, Scalar, Utf8, IsScalar;
    if b == [] {
      text := [];
    } else {
      CharIsScalar(b);
      var rest := ScalarsOf(b[CharLength(b)..]);
      text := [Scalar(b)] + rest;
      assert text[1..] == rest && b == b[..CharLength(b)] + b[CharLength(b)..];
    }
  }

  lemma {:induction false} TextIsValid(text: seq<int>)
    requires forall i | 0 <= i < |text| :: IsScalar(text[i])
    ensures ValidUtf8(Utf8Text(text))
  {
    hide CharLength, Utf8, IsScalar;
    if text != [] {
      var first, rest := Utf8(text[0]), Utf8Text(text[1..]);
      ScalarIsChar(text[0], rest);
      TextIsValid(text[1..]);
      assert (first + rest)[|first|..] == rest;
    }
  }
}
