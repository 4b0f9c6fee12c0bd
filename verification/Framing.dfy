/** VarInts and packet frames of the Minecraft protocol (e2e/scripts/minecraft-login-probe.py). */
module Framing {
  import opened Wrappers
  import opened Bytes

  const MAX_PACKET_LENGTH := 8 * 1024 * 1024
  const TWO32 := 0x1_0000_0000

  // ---------------------------------------------------------------- VarInt

  function EncodeVarint(n: nat): (b: Bytes)
    ensures |b| > 0
  {
    if n < 128 then [n] else [n % 128 + 128] + EncodeVarint(n / 128)
  }

  lemma EncodeStep(n: nat)
    ensures EncodeVarint(n) == if n / 128 == 0 then [n % 128] else [n % 128 + 128] + EncodeVarint(n / 128)
  {
  }

  /** `varint`: the low 32 bits of any integer. */
  function Varint(n: int): Bytes {
    EncodeVarint(n % TWO32)
  }

  method VarintBytes(n: int) returns (out: Bytes)
    ensures out == Varint(n)
  {
    hide EncodeVarint;
    var value := n % TWO32;
    out := [];
    while true
      invariant value >= 0 && out + EncodeVarint(value) == Varint(n)
      decreases value
    {
      EncodeStep(value);
      var byte := value % 128;
      var rest := value / 128;
      if rest != 0 {
        byte := byte + 128;
      }
      assert out + EncodeVarint(value) == out + [byte] + (if rest != 0 then EncodeVarint(rest) else []);
      out := out + [byte];
      value := rest;
      if value == 0 {
        return;
      }
    }
  }

  datatype Varied = Truncated | TooLong | Decoded(value: nat, end: nat)

  /** At most `k` bytes from `pos` on, seven bits each, least significant first. */
  function DecodeFrom(data: Bytes, pos: nat, k: nat): (r: Varied)
    ensures r.Decoded? ==> pos < r.end <= |data|
    decreases k
  {
    if k == 0 then TooLong
    else if pos >= |data| then Truncated
    else if data[pos] < 128 then Decoded(data[pos], pos + 1)
    else More(data[pos] - 128, 128, DecodeFrom(data, pos + 1, k - 1))
  }

  function More(low: nat, scale: nat, r: Varied): Varied {
    if r.Decoded? then Decoded(low + scale * r.value, r.end) else r
  }

  function DecodeVarint(data: Bytes, pos: nat): Varied {
    DecodeFrom(data, pos, 5)
  }

  lemma MoreTwice(low: nat, scale: nat, digit: nat, r: Varied)
    ensures More(low, scale, More(digit, 128, r)) == More(low + digit * scale, scale * 128, r)
  {
    if r.Decoded? {
      assert scale * (digit + 128 * r.value) == digit * scale + scale * 128 * r.value;
    }
  }

  /** What one more byte adds to the bytes decoded so far. */
  lemma DecodeByte(data: Bytes, pos: nat, k: nat, value: nat, scale: nat)
    requires k > 0
    ensures More(value, scale, DecodeFrom(data, pos, k)) ==
            if pos >= |data| then Truncated
            else
              var digit: nat := if data[pos] < 128 then data[pos] else data[pos] - 128;
              if data[pos] < 128 then Decoded(value + digit * scale, pos + 1)
              else More(value + digit * scale, scale * 128, DecodeFrom(data, pos + 1, k - 1))
  {
    if pos < |data| && data[pos] >= 128 {
      MoreTwice(value, scale, data[pos] - 128, DecodeFrom(data, pos + 1, k - 1));
    }
  }

  lemma DecodeBegins(data: Bytes, pos: nat)
    ensures DecodeVarint(data, pos) == More(0, 1, DecodeFrom(data, pos, 5))
  {
    hide DecodeFrom;
  }

  lemma DecodeEnds(data: Bytes, pos: nat, value: nat, scale: nat)
    ensures More(value, scale, DecodeFrom(data, pos, 0)) == TooLong
  {
  }

  /** The decoding loop; the bits it combines do not overlap, so combining them is adding them. */
  method DecodeVarintBytes(data: Bytes, offset: nat) returns (r: Varied)
    ensures r == DecodeVarint(data, offset)
  {
    hide DecodeFrom, More, DecodeVarint;
    var value: nat, scale: nat := 0, 1;
    DecodeBegins(data, offset);
    for index := 0 to 5
      invariant DecodeVarint(data, offset) == More(value, scale, DecodeFrom(data, offset + index, 5 - index))
    {
      var pos := offset + index;
      DecodeByte(data, pos, 5 - index, value, scale);
      if pos >= |data| {
        return Truncated;
      }
      var byte: nat := data[pos];
      var digit: nat := if byte < 128 then byte else byte - 128;
      value := value + digit * scale;
      scale := scale * 128;
      if byte < 128 {
        return Decoded(value, pos + 1);
      }
    }
    DecodeEnds(data, offset + 5, value, scale);
    r := TooLong;
  }

  function Pow128(k: nat): (p: nat)
    ensures p > 0
  {
    if k == 0 then 1 else 128 * Pow128(k - 1)
  }

  lemma {:induction false} DecodeEncoded(n: nat, k: nat, data: Bytes, pos: nat)
    requires k > 0 && n < Pow128(k) && Has(data, pos, EncodeVarint(n))
    ensures DecodeFrom(data, pos, k) == Decoded(n, pos + |EncodeVarint(n)|)
    decreases k
  {
    assert data[pos] == data[pos..pos + |EncodeVarint(n)|][0];
    assert Pow128(0) == 1 && Pow128(k) == 128 * Pow128(k - 1);
    if n >= 128 {
      HasSplit(data, pos, [n % 128 + 128], EncodeVarint(n / 128));
      DecodeEncoded(n / 128, k - 1, data, pos + 1);
    }
  }

  /** A VarInt is read back wherever it stands, for the whole 32-bit range. */
  lemma VarintRoundTrip(n: nat, data: Bytes, pos: nat)
    requires n < TWO32 && Has(data, pos, Varint(n))
    ensures DecodeVarint(data, pos) == Decoded(n, pos + |Varint(n)|)
  {
    assert Pow128(5) == 0x8_0000_0000;
    DecodeEncoded(n, 5, data, pos);
  }

  /** The number in one to five bytes: seven bits each, the least significant group first. */
  function SevenBits(b: Bytes): nat
    requires 1 <= |b| <= 5
  {
    Group(b, 0) + 0x80 * Group(b, 1) + 0x4000 * Group(b, 2) + 0x20_0000 * Group(b, 3) + 0x1000_0000 * Group(b, 4)
  }

  function Group(b: Bytes, i: nat): nat {
    if i >= |b| then 0 else if b[i] >= 0x80 then b[i] - 0x80 else b[i]
  }

  /** Every byte but the last has its high bit set. */
  predicate OneVarint(b: Bytes) {
    1 <= |b| <= 5 && b[|b| - 1] < 0x80 && forall i | 0 <= i < |b| - 1 :: b[i] >= 0x80
  }

  /** What is decoded, and what is not: five bytes without an end are too long, and fewer at the end of the data are
  not enough. */
  lemma DecodeVarintExactly(data: Bytes, pos: nat, value: nat, end: nat)
    requires pos <= |data|
    ensures DecodeVarint(data, pos) == Decoded(value, end) <==>
              pos < end <= |data| && OneVarint(data[pos..end]) && value == SevenBits(data[pos..end])
    ensures DecodeVarint(data, pos) == TooLong <==>
              pos + 5 <= |data| && forall i | pos <= i < pos + 5 :: data[i] >= 0x80
    ensures DecodeVarint(data, pos) == Truncated <==>
              |data| < pos + 5 && forall i | pos <= i < |data| :: data[i] >= 0x80
  {
    hide DecodeFrom, SevenBits;
    DecodeFromShape(data, pos, 5);
    if pos < end <= |data| && end <= pos + 5 {
      var raw := data[pos..end];
      assert forall i | 0 <= i < |raw| :: raw[i] == data[pos + i];
      assert forall i | pos <= i < end :: data[i] == raw[i - pos];
      LowIsSevenBits(data, pos, end);
    }
  }

  /** The same value, group by group from the last. */
  function Low(data: Bytes, pos: nat, end: nat): nat
    requires pos <= end <= |data|
    decreases end - pos
  {
    if pos == end then 0 else Group(data, pos) + 0x80 * Low(data, pos + 1, end)
  }

  lemma LowIsSevenBits(data: Bytes, pos: nat, end: nat)
    requires pos < end <= |data| && end <= pos + 5
    ensures Low(data, pos, end) == SevenBits(data[pos..end])
  {
    var raw := data[pos..end];
    forall i: nat | i < 5
      ensures Group(raw, i) == if pos + i < end then Group(data, pos + i) else 0
    {
    }
    LowTail(data, pos, end);
    if pos + 1 < end {
      LowTail(data, pos + 1, end);
      if pos + 2 < end {
        LowTail(data, pos + 2, end);
        if pos + 3 < end {
          LowTail(data, pos + 3, end);
          if pos + 4 < end {
            LowTail(data, pos + 4, end);
          }
        }
      }
    }
    hide Low, Group;
  }

  lemma LowTail(data: Bytes, pos: nat, end: nat)
    requires pos < end <= |data|
    ensures Low(data, pos, end) == Group(data, pos) + 0x80 * Low(data, pos + 1, end) && Low(data, end, end) == 0
  {
  }

  /** Which of the three a decoding is, and where it stops. */
  lemma {:induction false} DecodeFromShape(data: Bytes, pos: nat, k: nat)
    requires pos <= |data|
    ensures match DecodeFrom(data, pos, k)
            case Decoded(value, end) =>
              && pos < end <= |data| && end <= pos + k && data[end - 1] < 0x80
              && (forall i | pos <= i < end - 1 :: data[i] >= 0x80) && value == Low(data, pos, end)
            case TooLong => pos + k <= |data| && forall i | pos <= i < pos + k :: data[i] >= 0x80
            case Truncated => |data| < pos + k && forall i | pos <= i < |data| :: data[i] >= 0x80
    decreases k
  {
    if k > 0 && pos < |data| && data[pos] >= 0x80 {
      DecodeFromShape(data, pos + 1, k - 1);
    }
  }

  /** A number is written as the shortest bytes that are read as its low 32 bits. */
  lemma VarintExactly(n: int, b: Bytes)
    ensures Varint(n) == b <==>
              && OneVarint(b) && (|b| > 1 ==> b[|b| - 1] != 0) && SevenBits(b) == n % 0x1_0000_0000
  {
    hide DecodeFrom, SevenBits, EncodeVarint;
    var v := Varint(n);
    assert v[0..|v|] == v && b[0..|b|] == b;
    VarintRoundTrip(n % TWO32, v, 0);
    DecodeVarintExactly(v, 0, n % TWO32, |v|);
    EncodeIsShort(n % TWO32);
    if OneVarint(b) && (|b| > 1 ==> b[|b| - 1] != 0) && SevenBits(b) == n % TWO32 {
      DecodeVarintExactly(b, 0, n % TWO32, |b|);
      DecodedIsShortest(b, 0, 5);
    }
  }

  lemma {:induction false} EncodeIsShort(n: nat)
    ensures var b := EncodeVarint(n); |b| > 1 ==> b[|b| - 1] != 0
    ensures n == 0 ==> EncodeVarint(n) == [0]
    ensures n > 0 ==> EncodeVarint(n)[|EncodeVarint(n)| - 1] != 0
  {
    if n >= 128 {
      EncodeIsShort(n / 128);
    }
  }

  /** Bytes that end in a group other than zero are the encoding of what is decoded from them. */
  lemma {:induction false} DecodedIsShortest(b: Bytes, pos: nat, k: nat)
    requires pos < |b| && DecodeFrom(b, pos, k).Decoded? && DecodeFrom(b, pos, k).end == |b|
    requires |b| > pos + 1 ==> b[|b| - 1] != 0
    ensures EncodeVarint(DecodeFrom(b, pos, k).value) == b[pos..]
    ensures |b| > pos + 1 ==> DecodeFrom(b, pos, k).value > 0
    decreases k
  {
    if b[pos] >= 0x80 {
      if pos + 1 < |b| {
        DecodedIsShortest(b, pos + 1, k - 1);
        var r := DecodeFrom(b, pos + 1, k - 1);
        assert b[pos..] == [b[pos]] + b[pos + 1..];
      }
    }
  }

  // ---------------------------------------------------------------- frames

  /** zlib, as a pair of functions nothing here looks into. */
  datatype Zlib = Zlib(compress: Bytes -> Bytes, decompress: Bytes -> Option<Bytes>)

  ghost predicate Inverse(z: Zlib) {
    forall b :: z.decompress(z.compress(b)) == Some(b)
  }

  function Packet(body: Bytes): Bytes {
    Varint(|body|) + body
  }

  /** What goes inside a frame under a compression threshold; `None` is the time before Set Compression. */
  function FrameBody(z: Zlib, payload: Bytes, threshold: Option<nat>): Bytes {
    if threshold.None? then payload
    else if |payload| >= threshold.value then Varint(|payload|) + z.compress(payload)
    else Varint(0) + payload
  }

  function Framed(z: Zlib, payload: Bytes, threshold: Option<nat>): Bytes {
    Packet(FrameBody(z, payload, threshold))
  }

  datatype Frame = Eof | Bad | Frame(bytes: Bytes, next: nat)

  /** The frame at `pos` of a stream that ends after `input`. */
  function ReadFrame(input: Bytes, pos: nat): (r: Frame)
    ensures r.Frame? ==> pos < r.next <= |input|
  {
    match DecodeVarint(input, pos)
    case Truncated => Eof
    case TooLong => Bad
    case Decoded(length, start) =>
      if length > MAX_PACKET_LENGTH then Bad
      else if start + length > |input| then Eof
      else Frame(input[start..start + length], start + length)
  }

  function Deframe(z: Zlib, frame: Bytes, threshold: Option<nat>): Option<Bytes> {
    if threshold.None? then Some(frame)
    else
      match DecodeVarint(frame, 0)
      case Decoded(length, start) =>
        if length == 0 then Some(frame[start..])
        else if length < threshold.value then None
        else
          var payload := z.decompress(frame[start..]);
          if payload.None? || |payload.value| != length then None else payload
      case _ => None
  }

  /** What a frame is: its length and as many bytes; inside, once a threshold is set, the length of what was compressed,
  or zero. */
  lemma FramedExactly(z: Zlib, payload: Bytes, threshold: Option<nat>)
    ensures threshold == None ==> Framed(z, payload, threshold) == Varint(|payload|) + payload
    ensures threshold.Some? && |payload| < threshold.value ==>
              Framed(z, payload, threshold) == Varint(1 + |payload|) + ([0] + payload)
    ensures threshold.Some? && |payload| >= threshold.value ==>
              var body := Varint(|payload|) + z.compress(payload);
              Framed(z, payload, threshold) == Varint(|body|) + body
  {
  }

  /** Which frames are taken from a stream: whole ones of at most 8 MiB. */
  lemma ReadFrameExactly(input: Bytes, pos: nat, bytes: Bytes, next: nat)
    ensures ReadFrame(input, pos) == Frame(bytes, next) <==>
              exists start: nat :: && DecodeVarint(input, pos) == Decoded(|bytes|, start) && |bytes| <= 8_388_608
                              && next == start + |bytes| && next <= |input| && bytes == input[start..next]
    ensures ReadFrame(input, pos) == Bad <==>
              DecodeVarint(input, pos).TooLong? || (DecodeVarint(input, pos).Decoded?
                                                    && DecodeVarint(input, pos).value > 8_388_608)
  {
    hide DecodeVarint;
    if ReadFrame(input, pos).Frame? {
      var start := DecodeVarint(input, pos).end;
      assert DecodeVarint(input, pos) == Decoded(|input[start..start + DecodeVarint(input, pos).value]|, start);
    }
  }

  /** What a frame holds under a threshold: the rest after a zero, or else what decompresses to the announced length,
  which is not below the threshold. */
  lemma DeframeExactly(z: Zlib, frame: Bytes, threshold: nat, payload: Bytes)
    ensures Deframe(z, frame, None) == Some(frame)
    ensures Deframe(z, frame, Some(threshold)) == Some(payload) <==>
              exists length: nat, start: nat ::
                && DecodeVarint(frame, 0) == Decoded(length, start)
                && if length == 0 then payload == frame[start..]
                   else length >= threshold && z.decompress(frame[start..]) == Some(payload) && |payload| == length
  {
    hide DecodeFrom;
    if DecodeVarint(frame, 0).Decoded? {
      assert DecodeVarint(frame, 0) == Decoded(DecodeVarint(frame, 0).value, DecodeVarint(frame, 0).end);
    }
  }

  /** A frame can be carried: it is within the limit, and the announced length fits. */
  predicate Carries(z: Zlib, payload: Bytes, threshold: Option<nat>) {
    |payload| < TWO32 && |FrameBody(z, payload, threshold)| <= MAX_PACKET_LENGTH
  }

  /** A frame is read as it was written. */
  lemma FrameIsRead(body: Bytes, input: Bytes, pos: nat)
    requires |body| <= MAX_PACKET_LENGTH && Has(input, pos, Packet(body))
    ensures ReadFrame(input, pos) == Frame(body, pos + |Packet(body)|)
  {
    hide DecodeVarint, Varint;
    HasSplit(input, pos, Varint(|body|), body);
    VarintRoundTrip(|body|, input, pos);
  }

  /** What stands in a compressed frame: an announced length, and the rest. */
  lemma AnnouncedIsRead(announced: nat, rest: Bytes)
    requires announced < TWO32
    ensures var body := Varint(announced) + rest;
            && DecodeVarint(body, 0) == Decoded(announced, |Varint(announced)|)
            && body[|Varint(announced)|..] == rest
  {
    hide DecodeVarint, Varint;
    var body := Varint(announced) + rest;
    assert body[..|Varint(announced)|] == Varint(announced);
    VarintRoundTrip(announced, body, 0);
  }

  /** The payload comes back on both sides of any threshold, with one exception: at a threshold of zero an empty
  payload is compressed under an announced length of zero, which means uncompressed. */
  lemma BodyRoundTrip(z: Zlib, payload: Bytes, threshold: Option<nat>)
    requires Inverse(z) && |payload| < TWO32
    ensures Deframe(z, FrameBody(z, payload, threshold), threshold) == Some(payload) <==>
            payload != [] || threshold != Some(0) || z.compress([]) == []
  {
    hide DecodeVarint, Varint;
    if threshold.Some? {
      assert z.decompress(z.compress(payload)) == Some(payload);
      if |payload| >= threshold.value {
        AnnouncedIsRead(|payload|, z.compress(payload));
      } else {
        AnnouncedIsRead(0, payload);
      }
    }
  }

  /** Framing and reading agree, wherever the frame stands, except for that payload. */
  lemma FrameRoundTrip(z: Zlib, payload: Bytes, threshold: Option<nat>, input: Bytes, pos: nat)
    requires Inverse(z) && Carries(z, payload, threshold) && Has(input, pos, Framed(z, payload, threshold))
    ensures var body := FrameBody(z, payload, threshold);
            && ReadFrame(input, pos) == Frame(body, pos + |Framed(z, payload, threshold)|)
            && (Deframe(z, body, threshold) == Some(payload) <==>
                  payload != [] || threshold != Some(0) || z.compress([]) == [])
  {
    hide ReadFrame, Deframe, FrameBody, Packet;
    FrameIsRead(FrameBody(z, payload, threshold), input, pos);
    BodyRoundTrip(z, payload, threshold);
  }

  /** What becomes of that payload: it is read back as its own compressed form. */
  lemma EmptyPayloadAtZero(z: Zlib)
    ensures Deframe(z, FrameBody(z, [], Some(0)), Some(0)) == Some(z.compress([]))
  {
    hide DecodeVarint, Varint;
    AnnouncedIsRead(0, z.compress([]));
  }
}
