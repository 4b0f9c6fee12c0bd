/** NBT trees: parsing and printing (e2e/scripts/prepare-vanilla-1171-void-world.py).

Integers are numbers, floats are their raw bits, strings are the bytes of valid UTF-8; a compound keeps its
fields in order, as a Python dict does. */
module Nbt {
  import opened Wrappers
  import opened Bytes

  const MAX_NBT_BYTES := 64 * 1024 * 1024
  const MAX_DEPTH := 64

  datatype Value = Int(n: int)
                 | Float(bits: Bytes)
                 | Raw(data: Bytes)
                 | Str(text: Bytes)
                 | List(kind: Byte, items: seq<Value>)
                 | Compound(fields: seq<Field>)

  datatype Field = Field(name: Bytes, kind: Byte, item: Value)

  // ---------------------------------------------------------------- UTF-8

  predicate Continues(b: Bytes, lo: int, hi: int, n: nat) {
    |b| > n && n > 0 && lo <= b[1] <= hi && forall i | 2 <= i <= n :: 0x80 <= b[i] <= 0xBF
  }

  /** The length of the encoded character at the start of `b`, 0 when there is none (section 4 of RFC 3629). */
  function CharLength(b: Bytes): (n: nat)
    ensures n <= |b|
  {
    if b == [] then 0
    else if b[0] < 0x80 then 1
    else if 0xC2 <= b[0] <= 0xDF && Continues(b, 0x80, 0xBF, 1) then 2
    else if b[0] == 0xE0 && Continues(b, 0xA0, 0xBF, 2) then 3
    else if b[0] == 0xED && Continues(b, 0x80, 0x9F, 2) then 3
    else if 0xE1 <= b[0] <= 0xEF && b[0] != 0xED && Continues(b, 0x80, 0xBF, 2) then 3
    else if b[0] == 0xF0 && Continues(b, 0x90, 0xBF, 3) then 4
    else if 0xF1 <= b[0] <= 0xF3 && Continues(b, 0x80, 0xBF, 3) then 4
    else if b[0] == 0xF4 && Continues(b, 0x80, 0x8F, 3) then 4
    else 0
  }

  predicate ValidUtf8(b: Bytes) {
    b == [] || (CharLength(b) > 0 && ValidUtf8(b[CharLength(b)..]))
  }

  lemma {:induction false} AsciiIsUtf8(b: Bytes)
    requires forall i | 0 <= i < |b| :: b[i] < 0x80
    ensures ValidUtf8(b)
  {
    if b != [] {
      AsciiIsUtf8(b[1..]);
    }
  }

  // ---------------------------------------------------------------- parsing, as a function of the position

  predicate IsNumber(tag: int) {
    1 <= tag <= 6
  }

  function Width(tag: int): (w: nat)
    ensures w > 0
  {
    match tag
    case 1 => 1
    case 2 => 2
    case 3 => 4
    case 4 => 8
    case 5 => 4
    case _ => 8
  }

  predicate IsArray(tag: int) {
    tag == 7 || tag == 11 || tag == 12
  }

  function ElementWidth(tag: int): (w: nat)
    ensures w > 0
  {
    if tag == 7 then 1 else if tag == 11 then 4 else 8
  }

  function Take(data: Bytes, pos: nat, n: int): Option<Bytes> {
    if n < 0 || pos + n > |data| then None else Some(data[pos..pos + n])
  }

  function Number(tag: int, raw: Bytes): Value {
    if tag == 5 || tag == 6 then Float(raw) else Int(Signed(Unsigned(raw), |raw|))
  }

  function ParseName(data: Bytes, pos: nat): (r: Option<(Bytes, nat)>)
    requires pos <= |data|
    ensures r.Some? ==> pos < r.value.1 <= |data|
  {
    match Take(data, pos, 2)
    case None => None
    case Some(length) =>
      match Take(data, pos + 2, Unsigned(length))
      case None => None
      case Some(text) => if ValidUtf8(text) then Some((text, pos + 2 + |text|)) else None
  }

  function Levels(depth: nat): nat {
    if depth <= MAX_DEPTH then MAX_DEPTH + 1 - depth else 0
  }

  function Parse(data: Bytes, pos: nat, tag: int, depth: nat): (r: Option<(Value, nat)>)
    requires pos <= |data|
    ensures r.Some? ==> pos < r.value.1 <= |data|
    decreases Levels(depth), 2, 0
  {
    if depth > MAX_DEPTH then None
    else if IsNumber(tag) then
      match Take(data, pos, Width(tag))
      case None => None
      case Some(raw) => Some((Number(tag, raw), pos + Width(tag)))
    else if IsArray(tag) then
      match Take(data, pos, 4)
      case None => None
      case Some(length) =>
        var n := Signed(Unsigned(length), 4) * ElementWidth(tag);
        match Take(data, pos + 4, n)
        case None => None
        case Some(raw) => Some((Raw(raw), pos + 4 + n))
    else if tag == 8 then
      match ParseName(data, pos)
      case None => None
      case Some((text, end)) => Some((Str(text), end))
    else if tag == 9 then
      match Take(data, pos, 5)
      case None => None
      case Some(head) =>
        var kind, n := head[0], Signed(Unsigned(head[1..]), 4);
        if n < 0 || n > MAX_NBT_BYTES || (kind == 0 && n != 0) then None
        else
          match ParseItems(data, pos + 5, kind, n, depth)
          case None => None
          case Some((items, end)) => Some((List(kind, items), end))
    else if tag == 10 then
      match ParseFields(data, pos, {}, depth)
      case None => None
      case Some((fields, end)) => Some((Compound(fields), end))
    else None
  }

  /** Every element consumes at least one byte, so a list cannot announce more elements than there is data. */
  function ParseItems(data: Bytes, pos: nat, kind: int, n: nat, depth: nat): (r: Option<(seq<Value>, nat)>)
    requires pos <= |data| && depth <= MAX_DEPTH
    ensures r.Some? ==> pos + n <= r.value.1 <= |data| && |r.value.0| == n
    decreases Levels(depth), 1, n
  {
    if n == 0 then Some(([], pos))
    else
      match Parse(data, pos, kind, depth + 1)
      case None => None
      case Some((item, next)) =>
        match ParseItems(data, next, kind, n - 1, depth)
        case None => None
        case Some((items, end)) => Some(([item] + items, end))
  }

  /** The fields up to the end tag; `seen` are the names read before. */
  function ParseFields(data: Bytes, pos: nat, seen: set<Bytes>, depth: nat): (r: Option<(seq<Field>, nat)>)
    requires pos <= |data| && depth <= MAX_DEPTH
    ensures r.Some? ==> pos < r.value.1 <= |data|
    decreases Levels(depth), 1, |data| - pos
  {
    if pos == |data| then None
    else if data[pos] == 0 then Some(([], pos + 1))
    else
      match ParseName(data, pos + 1)
      case None => None
      case Some((name, start)) =>
        if name in seen then None
        else
          match Parse(data, start, data[pos], depth + 1)
          case None => None
          case Some((item, next)) =>
            match ParseFields(data, next, seen + {name}, depth)
            case None => None
            case Some((fields, end)) => Some(([Field(name, data[pos], item)] + fields, end))
  }

  // ---------------------------------------------------------------- printing

  function EncodeName(text: Bytes): Option<Bytes> {
    if |text| > 65535 then None else Some(BigEndian(|text|, 2) + text)
  }

  function Join(a: Option<Bytes>, b: Option<Bytes>): Option<Bytes> {
    if a.Some? && b.Some? then Some(a.value + b.value) else None
  }

  function PackInt(n: int, k: nat): Option<Bytes> {
    if FitsSigned(n, k) then Some(BigEndian(TwosComplement(n, k), k)) else None
  }

  function Encode(tag: int, v: Value, depth: nat): Option<Bytes>
    decreases v, 1
  {
    if depth > MAX_DEPTH then None
    else
      match v
      case Int(n) => if 1 <= tag <= 4 then PackInt(n, Width(tag)) else None
      case Float(bits) => if (tag == 5 || tag == 6) && |bits| == Width(tag) then Some(bits) else None
      case Raw(data) => if IsArray(tag) then Join(PackInt(|data| / ElementWidth(tag), 4), Some(data)) else None
      case Str(text) => if tag == 8 then EncodeName(text) else None
      case List(kind, items) =>
        if tag == 9 then Join(Join(Some([kind]), PackInt(|items|, 4)), EncodeItems(kind, items, depth)) else None
      case Compound(fields) =>
        if tag == 10 then Join(EncodeFields(fields, depth), Some([0])) else None
  }

  function EncodeItems(kind: int, items: seq<Value>, depth: nat): Option<Bytes>
    decreases items, 0
  {
    if items == [] then Some([])
    else Join(Encode(kind, items[0], depth + 1), EncodeItems(kind, items[1..], depth))
  }

  function EncodeFields(fields: seq<Field>, depth: nat): Option<Bytes>
    decreases fields, 0
  {
    if fields == [] then Some([])
    else
      Join(EncodeField(fields[0], depth), EncodeFields(fields[1..], depth))
  }

  function EncodeField(f: Field, depth: nat): Option<Bytes>
    decreases f, 2
  {
    Join(Join(Some([f.kind]), EncodeName(f.name)), Encode(f.kind, f.item, depth + 1))
  }

  // ---------------------------------------------------------------- well-formed trees

  predicate NameOk(text: Bytes) {
    |text| <= 65535 && ValidUtf8(text)
  }

  predicate WellFormed(tag: int, v: Value, depth: nat)
    decreases v, 1
  {
    depth <= MAX_DEPTH &&
    match v
    case Int(n) => 1 <= tag <= 4 && FitsSigned(n, Width(tag))
    case Float(bits) => (tag == 5 || tag == 6) && |bits| == Width(tag)
    case Raw(data) => IsArray(tag) && |data| % ElementWidth(tag) == 0 && |data| / ElementWidth(tag) < 0x8000_0000
    case Str(text) => tag == 8 && NameOk(text)
    case List(kind, items) =>
      tag == 9 && |items| <= MAX_NBT_BYTES && (kind == 0 ==> items == []) && ItemsWellFormed(kind, items, depth)
    case Compound(fields) => tag == 10 && FieldsWellFormed(fields, {}, depth)
  }

  predicate ItemsWellFormed(kind: int, items: seq<Value>, depth: nat)
    decreases items, 0
  {
    items == [] || (WellFormed(kind, items[0], depth + 1) && ItemsWellFormed(kind, items[1..], depth))
  }

  /** Distinct names, none of them in `seen`, and no end tag among the kinds. */
  predicate FieldsWellFormed(fields: seq<Field>, seen: set<Bytes>, depth: nat)
    decreases fields, 0
  {
    fields == [] ||
    (&& NameOk(fields[0].name) && fields[0].name !in seen && fields[0].kind != 0
     && WellFormed(fields[0].kind, fields[0].item, depth + 1)
     && FieldsWellFormed(fields[1..], seen + {fields[0].name}, depth))
  }

  // ---------------------------------------------------------------- what is parsed prints back

  /** `r` prints to exactly the bytes of `data` between `pos` and `end`. */
  predicate PrintsTo(r: Option<Bytes>, data: Bytes, pos: nat, end: nat) {
    r.Some? && pos + |r.value| == end && Has(data, pos, r.value)
  }

  lemma JoinPrints(a: Option<Bytes>, b: Option<Bytes>, data: Bytes, pos: nat, mid: nat, end: nat)
    requires PrintsTo(a, data, pos, mid) && PrintsTo(b, data, mid, end)
    ensures PrintsTo(Join(a, b), data, pos, end)
  {
    HasSplit(data, pos, a.value, b.value);
  }

  lemma NamePrints(data: Bytes, pos: nat)
    requires pos <= |data| && ParseName(data, pos).Some?
    ensures var (text, end) := ParseName(data, pos).value;
            NameOk(text) && PrintsTo(EncodeName(text), data, pos, end)
  {
    var length := data[pos..pos + 2];
    var (text, end) := ParseName(data, pos).value;
    BigEndianOfUnsigned(length);
    assert Pow256(2) == 65536;
    HasSplit(data, pos, length, text);
  }

  lemma IntPrints(data: Bytes, pos: nat, k: nat)
    requires k > 0 && pos + k <= |data|
    ensures PrintsTo(PackInt(Signed(Unsigned(data[pos..pos + k]), k), k), data, pos, pos + k)
    ensures FitsSigned(Signed(Unsigned(data[pos..pos + k]), k), k)
  {
    BigEndianOfUnsigned(data[pos..pos + k]);
    SignedRoundTrip(Unsigned(data[pos..pos + k]), k);
  }

  lemma ArrayPrints(data: Bytes, pos: nat, tag: int, depth: nat)
    requires pos <= |data| && IsArray(tag) && Parse(data, pos, tag, depth).Some?
    ensures var (v, end) := Parse(data, pos, tag, depth).value;
            WellFormed(tag, v, depth) && PrintsTo(Encode(tag, v, depth), data, pos, end)
  {
    var (v, end) := Parse(data, pos, tag, depth).value;
    IntPrints(data, pos, 4);
    var w := ElementWidth(tag);
    var n := Signed(Unsigned(data[pos..pos + 4]), 4);
    ExactDivision(n, w, |v.data|);
    assert Pow256(4) == 0x1_0000_0000;
    JoinPrints(PackInt(n, 4), Some(v.data), data, pos, pos + 4, end);
  }

  lemma ExactDivision(n: int, w: nat, length: nat)
    requires (w == 1 || w == 4 || w == 8) && length == n * w
    ensures n >= 0 && length / w == n && length % w == 0
  {
    if w == 1 {
    } else if w == 4 {
      assert length == n * 4;
    } else {
      assert length == n * 8;
    }
  }

  lemma WholeElements(length: nat, w: nat)
    requires (w == 1 || w == 4 || w == 8) && length % w == 0
    ensures (length / w) * w == length
  {
    if w == 1 {
      assert length / 1 == length;
    } else if w == 4 {
      assert (length / 4) * 4 == length;
    } else {
      assert (length / 8) * 8 == length;
    }
  }

  lemma ListPrints(data: Bytes, pos: nat, depth: nat, v: Value, end: nat)
    requires pos <= |data| && Parse(data, pos, 9, depth) == Some((v, end))
    requires ItemsWellFormed(v.kind, v.items, depth)
             && PrintsTo(EncodeItems(v.kind, v.items, depth), data, pos + 5, end)
    ensures WellFormed(9, v, depth) && PrintsTo(Encode(9, v, depth), data, pos, end)
  {
    hide EncodeItems, ItemsWellFormed, Signed;
    var n := |v.items|;
    assert data[pos..pos + 5][1..] == data[pos + 1..pos + 5];
    IntPrints(data, pos + 1, 4);
    JoinPrints(Some([v.kind]), PackInt(n, 4), data, pos, pos + 1, pos + 5);
    JoinPrints(Join(Some([v.kind]), PackInt(n, 4)), EncodeItems(v.kind, v.items, depth), data, pos, pos + 5, end);
  }

  lemma FieldPrints(data: Bytes, pos: nat, depth: nat, f: Field, start: nat, next: nat)
    requires pos < |data| && f.kind == data[pos] && ParseName(data, pos + 1) == Some((f.name, start))
    requires PrintsTo(Encode(f.kind, f.item, depth + 1), data, start, next)
    ensures NameOk(f.name) && PrintsTo(EncodeField(f, depth), data, pos, next)
  {
    hide Encode, EncodeName, ParseName;
    NamePrints(data, pos + 1);
    JoinPrints(Some([f.kind]), EncodeName(f.name), data, pos, pos + 1, start);
    JoinPrints(Join(Some([f.kind]), EncodeName(f.name)), Encode(f.kind, f.item, depth + 1), data, pos, start, next);
  }

  /** Whatever the reader accepts is a well-formed tree that prints to exactly the bytes consumed. */
  lemma {:induction false} ParseThenEncode(data: Bytes, pos: nat, tag: int, depth: nat)
    requires pos <= |data| && Parse(data, pos, tag, depth).Some?
    ensures var (v, end) := Parse(data, pos, tag, depth).value;
            WellFormed(tag, v, depth) && PrintsTo(Encode(tag, v, depth), data, pos, end)
    decreases Levels(depth), 2, 0
  {
    hide Signed, Unsigned, BigEndian, ValidUtf8, TwosComplement, FitsSigned;
    var (v, end) := Parse(data, pos, tag, depth).value;
    if IsNumber(tag) {
      IntPrints(data, pos, Width(tag));
    } else if IsArray(tag) {
      ArrayPrints(data, pos, tag, depth);
    } else if tag == 8 {
      NamePrints(data, pos);
    } else if tag == 9 {
      ItemsThenEncode(data, pos + 5, v.kind, |v.items|, depth);
      ListPrints(data, pos, depth, v, end);
    } else {
      FieldsThenEncode(data, pos, {}, depth);
      JoinPrints(EncodeFields(v.fields, depth), Some([0]), data, pos, end - 1, end);
    }
  }

  lemma {:induction false} ItemsThenEncode(data: Bytes, pos: nat, kind: int, n: nat, depth: nat)
    requires pos <= |data| && depth <= MAX_DEPTH && ParseItems(data, pos, kind, n, depth).Some?
    ensures var (items, end) := ParseItems(data, pos, kind, n, depth).value;
            ItemsWellFormed(kind, items, depth) && PrintsTo(EncodeItems(kind, items, depth), data, pos, end)
    decreases Levels(depth), 1, n
  {
    hide Parse, Encode, WellFormed;
    if n > 0 {
      var (item, next) := Parse(data, pos, kind, depth + 1).value;
      var (rest, end) := ParseItems(data, next, kind, n - 1, depth).value;
      ParseThenEncode(data, pos, kind, depth + 1);
      ItemsThenEncode(data, next, kind, n - 1, depth);
      assert ([item] + rest)[1..] == rest;
      JoinPrints(Encode(kind, item, depth + 1), EncodeItems(kind, rest, depth), data, pos, next, end);
    }
  }

  lemma {:induction false} FieldsThenEncode(data: Bytes, pos: nat, seen: set<Bytes>, depth: nat)
    requires pos <= |data| && depth <= MAX_DEPTH && ParseFields(data, pos, seen, depth).Some?
    ensures var (fields, end) := ParseFields(data, pos, seen, depth).value;
            && FieldsWellFormed(fields, seen, depth)
            && PrintsTo(EncodeFields(fields, depth), data, pos, end - 1) && data[end - 1] == 0
    decreases Levels(depth), 1, |data| - pos
  {
    hide Parse, Encode, WellFormed, ParseName, NameOk, EncodeField;
    if data[pos] != 0 {
      var (name, start) := ParseName(data, pos + 1).value;
      var (item, next) := Parse(data, start, data[pos], depth + 1).value;
      var (rest, end) := ParseFields(data, next, seen + {name}, depth).value;
      var f := Field(name, data[pos], item);
      ParseThenEncode(data, start, f.kind, depth + 1);
      FieldPrints(data, pos, depth, f, start, next);
      FieldsThenEncode(data, next, seen + {name}, depth);
      assert ([f] + rest)[1..] == rest;
      JoinPrints(EncodeField(f, depth), EncodeFields(rest, depth), data, pos, next, end - 1);
    }
  }

  // ---------------------------------------------------------------- what is printed parses back

  lemma NameParses(text: Bytes, data: Bytes, pos: nat)
    requires NameOk(text) && Has(data, pos, EncodeName(text).value)
    ensures ParseName(data, pos) == Some((text, pos + |EncodeName(text).value|))
  {
    assert Pow256(2) == 65536;
    UnsignedOfBigEndian(|text|, 2);
    HasSplit(data, pos, BigEndian(|text|, 2), text);
  }

  lemma IntParses(n: int, k: nat, data: Bytes, pos: nat)
    requires k > 0 && FitsSigned(n, k) && Has(data, pos, PackInt(n, k).value)
    ensures Signed(Unsigned(data[pos..pos + k]), k) == n
  {
    TwosComplementRoundTrip(n, k);
    UnsignedOfBigEndian(TwosComplement(n, k), k);
  }

  /** Every well-formed tree prints, and wherever its bytes occur the reader finds exactly that tree. */
  lemma {:induction false} EncodeThenParse(tag: int, v: Value, depth: nat, data: Bytes, pos: nat)
    requires WellFormed(tag, v, depth)
    ensures Encode(tag, v, depth).Some?
    ensures Has(data, pos, Encode(tag, v, depth).value) ==>
              Parse(data, pos, tag, depth) == Some((v, pos + |Encode(tag, v, depth).value|))
    decreases v, 1
  {
    hide BigEndian, Unsigned, Signed, TwosComplement, ValidUtf8, ParseName, ParseItems, EncodeItems, ItemsWellFormed;
    match v {
      case Int(_) =>
        ScalarParses(tag, v, depth, data, pos);
      case Float(_) =>
        ScalarParses(tag, v, depth, data, pos);
      case Raw(raw) =>
        ArrayParses(tag, raw, depth, data, pos);
      case Str(_) =>
        ScalarParses(tag, v, depth, data, pos);
      case List(kind, items) =>
        ListParses(kind, items, depth, data, pos);
      case Compound(fields) =>
        FieldsParse(fields, {}, depth, data, pos);
        HasSplit(data, pos, EncodeFields(fields, depth).value, [0]);
    }
  }

  lemma ScalarParses(tag: int, v: Value, depth: nat, data: Bytes, pos: nat)
    requires WellFormed(tag, v, depth) && (v.Int? || v.Float? || v.Str?)
    ensures Encode(tag, v, depth).Some?
    ensures Has(data, pos, Encode(tag, v, depth).value) ==>
              Parse(data, pos, tag, depth) == Some((v, pos + |Encode(tag, v, depth).value|))
  {
    hide BigEndian, Unsigned, Signed, TwosComplement, ValidUtf8, ParseName, ParseItems, ParseFields;
    if v.Int? && Has(data, pos, PackInt(v.n, Width(tag)).value) {
      IntParses(v.n, Width(tag), data, pos);
    } else if v.Str? && Has(data, pos, EncodeName(v.text).value) {
      NameParses(v.text, data, pos);
    }
  }

  lemma ArrayParses(tag: int, raw: Bytes, depth: nat, data: Bytes, pos: nat)
    requires WellFormed(tag, Raw(raw), depth)
    ensures Encode(tag, Raw(raw), depth).Some?
    ensures Has(data, pos, Encode(tag, Raw(raw), depth).value) ==>
              Parse(data, pos, tag, depth) == Some((Raw(raw), pos + |Encode(tag, Raw(raw), depth).value|))
  {
    hide BigEndian, Unsigned, Signed, TwosComplement;
    assert Pow256(4) == 0x1_0000_0000;
    var n := |raw| / ElementWidth(tag);
    var head := PackInt(n, 4).value;
    HasSplit(data, pos, head, raw);
    if Has(data, pos, head + raw) {
      IntParses(n, 4, data, pos);
      WholeElements(|raw|, ElementWidth(tag));
    }
  }

  lemma {:induction false} ListParses(kind: Byte, items: seq<Value>, depth: nat, data: Bytes, pos: nat)
    requires WellFormed(9, List(kind, items), depth)
    ensures Encode(9, List(kind, items), depth).Some?
    ensures Has(data, pos, Encode(9, List(kind, items), depth).value) ==>
              Parse(data, pos, 9, depth) == Some((List(kind, items), pos + |Encode(9, List(kind, items), depth).value|))
    decreases items, 2
  {
    hide BigEndian, Unsigned, Signed, TwosComplement, ParseFields, ParseName, EncodeFields;
    assert Pow256(4) == 0x1_0000_0000;
    ItemsParse(kind, items, depth, data, pos + 5);
    var length, body := PackInt(|items|, 4).value, EncodeItems(kind, items, depth).value;
    HasSplit(data, pos, [kind] + length, body);
    HasSplit(data, pos, [kind], length);
    if Has(data, pos, [kind] + length + body) {
      IntParses(|items|, 4, data, pos + 1);
      assert data[pos..pos + 5][1..] == data[pos + 1..pos + 5];
      assert data[pos..pos + 1][0] == data[pos];
      assert data[pos..pos + 5][0] == kind;
    }
  }

  lemma {:induction false} ItemsParse(kind: int, items: seq<Value>, depth: nat, data: Bytes, pos: nat)
    requires depth <= MAX_DEPTH && ItemsWellFormed(kind, items, depth)
    ensures EncodeItems(kind, items, depth).Some?
    ensures Has(data, pos, EncodeItems(kind, items, depth).value) ==>
              ParseItems(data, pos, kind, |items|, depth) ==
                  Some((items, pos + |EncodeItems(kind, items, depth).value|))
    decreases items, 0
  {
    hide Parse, Encode, WellFormed;
    if items != [] {
      EncodeThenParse(kind, items[0], depth + 1, data, pos);
      var first := Encode(kind, items[0], depth + 1).value;
      ItemsParse(kind, items[1..], depth, data, pos + |first|);
      HasSplit(data, pos, first, EncodeItems(kind, items[1..], depth).value);
      assert [items[0]] + items[1..] == items;
    }
  }

  lemma FieldParses(f: Field, depth: nat, data: Bytes, pos: nat)
    requires NameOk(f.name) && Encode(f.kind, f.item, depth + 1).Some? && Has(data, pos, EncodeField(f, depth).value)
    ensures EncodeField(f, depth).Some? && pos < |data| && data[pos] == f.kind
    ensures var start := pos + 1 + |EncodeName(f.name).value|;
            && ParseName(data, pos + 1) == Some((f.name, start))
            && Has(data, start, Encode(f.kind, f.item, depth + 1).value)
            && start + |Encode(f.kind, f.item, depth + 1).value| == pos + |EncodeField(f, depth).value|
  {
    hide Encode, ParseName, ValidUtf8, BigEndian;
    var name, item := EncodeName(f.name).value, Encode(f.kind, f.item, depth + 1).value;
    HasSplit(data, pos, [f.kind] + name, item);
    HasSplit(data, pos, [f.kind], name);
    assert data[pos..pos + 1][0] == data[pos];
    NameParses(f.name, data, pos + 1);
  }

  lemma {:induction false} FieldsParse(fields: seq<Field>, seen: set<Bytes>, depth: nat, data: Bytes, pos: nat)
    requires depth <= MAX_DEPTH && FieldsWellFormed(fields, seen, depth)
    ensures EncodeFields(fields, depth).Some?
    ensures var body := EncodeFields(fields, depth).value;
            Has(data, pos, body) && Has(data, pos + |body|, [0]) ==>
              ParseFields(data, pos, seen, depth) == Some((fields, pos + |body| + 1))
    decreases fields, 0
  {
    hide Parse, Encode, WellFormed, ParseName, ValidUtf8;
    if fields != [] {
      var f := fields[0];
      var start := pos + 1 + |EncodeName(f.name).value|;
      EncodeThenParse(f.kind, f.item, depth + 1, data, start);
      var field := EncodeField(f, depth).value;
      FieldsParse(fields[1..], seen + {f.name}, depth, data, pos + |field|);
      HasSplit(data, pos, field, EncodeFields(fields[1..], depth).value);
      if Has(data, pos, field) {
        FieldParses(f, depth, data, pos);
      }
      assert [f] + fields[1..] == fields;
    } else if Has(data, pos, [0]) {
      assert data[pos..pos + 1][0] == data[pos];
    }
  }
}
