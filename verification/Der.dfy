/** ECDSA signatures from DER to the fixed-width form of P1363 (e2e/scripts/device-trust-crypto.py). */
module Der {
  import opened Wrappers
  import opened Bytes

  // ---------------------------------------------------------------- the encoding, as a layout

  /** `octets` announce the length `n`: one short octet, or a count and one to four octets (section 8.1.3 of X.690). */
  predicate Announces(octets: Bytes, n: nat) {
    (|octets| == 1 && octets[0] == n && n < 0x80)
    || (2 <= |octets| <= 5 && octets[0] == 0x80 + |octets| - 1 && Unsigned(octets[1..]) == n)
  }

  predicate IsInteger(encoded: Bytes, length: Bytes, body: Bytes) {
    encoded == [0x02] + length + body && Announces(length, |body|) && body != []
  }

  /** A sequence of two INTEGERs with these bodies, and nothing after it (section 2.2.3 of RFC 3279). */
  ghost predicate IsSignature(signature: Bytes, r: Bytes, s: Bytes) {
    exists outer: Bytes, first: Bytes, second: Bytes, lr: Bytes, ls: Bytes ::
      signature == [0x30] + outer + (first + second) && Announces(outer, |first + second|)
      && IsInteger(first, lr, r) && IsInteger(second, ls, s)
  }

  // ---------------------------------------------------------------- reading it

  function ReadLength(data: Bytes, pos: nat): (r: Option<(nat, nat)>)
    ensures r.Some? ==> pos < r.value.1 <= |data|
  {
    if pos >= |data| then None
    else if data[pos] < 0x80 then Some((data[pos], pos + 1))
    else
      var count := data[pos] - 0x80;
      if count == 0 || count > 4 || pos + 1 + count > |data| then None
      else Some((Unsigned(data[pos + 1..pos + 1 + count]), pos + 1 + count))
  }

  /** The body of the INTEGER at `pos`, and where it ends. */
  function ReadInteger(data: Bytes, pos: nat): (r: Option<(Bytes, nat)>)
    ensures r.Some? ==> pos < r.value.1 <= |data|
  {
    if pos >= |data| || data[pos] != 0x02 then None
    else
      match ReadLength(data, pos + 1)
      case None => None
      case Some((length, start)) =>
        if length == 0 || start + length > |data| then None else Some((data[start..start + length], start + length))
  }

  /** The two INTEGER bodies of a signature that is consumed entirely. */
  function ReadSignature(data: Bytes): Option<(Bytes, Bytes)> {
    if |data| < 2 || data[0] != 0x30 then None
    else
      match ReadLength(data, 1)
      case None => None
      case Some((length, start)) =>
        if start + length != |data| then None
        else
          match ReadInteger(data, start)
          case None => None
          case Some((r, next)) =>
            match ReadInteger(data, next)
            case None => None
            case Some((s, end)) => if end != |data| then None else Some((r, s))
  }

  lemma LengthIsRead(data: Bytes, pos: nat, octets: Bytes, n: nat)
    requires Announces(octets, n) && Has(data, pos, octets)
    ensures ReadLength(data, pos) == Some((n, pos + |octets|))
  {
    var found := data[pos..pos + |octets|];
    assert data[pos] == found[0];
    if |octets| > 1 {
      assert data[pos + 1..pos + |octets|] == found[1..];
    }
  }

  lemma ReadIsLength(data: Bytes, pos: nat)
    requires ReadLength(data, pos).Some?
    ensures var (n, end) := ReadLength(data, pos).value;
            Announces(data[pos..end], n)
  {
    var (n, end) := ReadLength(data, pos).value;
    if data[pos] >= 0x80 {
      assert data[pos..end][1..] == data[pos + 1..end];
    }
  }

  lemma IntegerIsRead(data: Bytes, pos: nat, encoded: Bytes, length: Bytes, body: Bytes)
    requires IsInteger(encoded, length, body) && Has(data, pos, encoded)
    ensures ReadInteger(data, pos) == Some((body, pos + |encoded|))
  {
    HasSplit(data, pos, [0x02] + length, body);
    HasSplit(data, pos, [0x02], length);
    assert data[pos] == data[pos..pos + 1][0];
    LengthIsRead(data, pos + 1, length, |body|);
  }

  lemma ReadIsInteger(data: Bytes, pos: nat)
    requires ReadInteger(data, pos).Some?
    ensures var (body, end) := ReadInteger(data, pos).value;
            exists length :: IsInteger(data[pos..end], length, body)
  {
    var (body, end) := ReadInteger(data, pos).value;
    var start := ReadLength(data, pos + 1).value.1;
    ReadIsLength(data, pos + 1);
    assert data[pos..end] == [0x02] + data[pos + 1..start] + data[start..end];
    assert IsInteger(data[pos..end], data[pos + 1..start], body);
  }

  lemma ReadIsSignature(data: Bytes, r: Bytes, s: Bytes)
    requires ReadSignature(data) == Some((r, s))
    ensures IsSignature(data, r, s)
  {
    hide ReadLength, ReadInteger, Announces, IsInteger;
    var (length, start) := ReadLength(data, 1).value;
    var next := ReadInteger(data, start).value.1;
    ReadIsLength(data, 1);
    ReadIsInteger(data, start);
    ReadIsInteger(data, next);
    var outer, first, second := data[1..start], data[start..next], data[next..|data|];
    var lr :| IsInteger(first, lr, r);
    var ls :| IsInteger(second, ls, s);
    assert first + second == data[start..];
    assert data[0..1] == [0x30];
    assert data == [0x30] + outer + (first + second);
    LayoutIsSignature(data, outer, first, second, lr, ls, r, s);
  }

  lemma LayoutIsSignature(data: Bytes, outer: Bytes, first: Bytes, second: Bytes, lr: Bytes, ls: Bytes,
                          r: Bytes, s: Bytes)
    requires data == [0x30] + outer + (first + second) && Announces(outer, |first + second|)
    requires IsInteger(first, lr, r) && IsInteger(second, ls, s)
    ensures IsSignature(data, r, s)
  {
    hide Announces, IsInteger;
  }

  /** The reader accepts exactly the signatures, with exactly their bodies; in particular the bodies are unique. */
  lemma ReadsExactlySignatures(data: Bytes, r: Bytes, s: Bytes)
    ensures ReadSignature(data) == Some((r, s)) <==> IsSignature(data, r, s)
  {
    hide ReadSignature, Announces, IsInteger;
    if IsSignature(data, r, s) {
      var outer: Bytes, first: Bytes, second: Bytes, lr: Bytes, ls: Bytes :|
        data == [0x30] + outer + (first + second) && Announces(outer, |first + second|)
        && IsInteger(first, lr, r) && IsInteger(second, ls, s);
      SignatureIsRead(data, outer, first, second, lr, ls, r, s);
    }
    if ReadSignature(data) == Some((r, s)) {
      ReadIsSignature(data, r, s);
    }
  }

  lemma SignatureIsRead(data: Bytes, outer: Bytes, first: Bytes, second: Bytes, lr: Bytes, ls: Bytes, r: Bytes,
                        s: Bytes)
    requires data == [0x30] + outer + (first + second) && Announces(outer, |first + second|)
    requires IsInteger(first, lr, r) && IsInteger(second, ls, s)
    ensures ReadSignature(data) == Some((r, s))
  {
    hide ReadLength, ReadInteger, Announces;
    var start := 1 + |outer|;
    assert data[0..|data|] == data;
    HasSplit(data, 0, [0x30] + outer, first + second);
    HasSplit(data, 0, [0x30], outer);
    HasSplit(data, start, first, second);
    LengthIsRead(data, 1, outer, |first + second|);
    IntegerIsRead(data, start, first, lr, r);
    IntegerIsRead(data, start + |first|, second, ls, s);
  }

  // ---------------------------------------------------------------- fixed width

  /** Leading zero octets dropped, down to the last one. */
  function Stripped(value: Bytes): (r: Bytes)
    requires value != []
    ensures r != []
  {
    if |value| > 1 && value[0] == 0 then Stripped(value[1..]) else value
  }

  lemma {:induction false} StrippedValue(value: Bytes)
    requires value != []
    ensures Unsigned(Stripped(value)) == Unsigned(value)
    ensures |Stripped(value)| == 1 || Stripped(value)[0] != 0
  {
    if |value| > 1 && value[0] == 0 {
      LeadingZero(value[1..]);
      assert [0] + value[1..] == value;
      StrippedValue(value[1..]);
    }
  }

  lemma {:induction false} PowMonotone(a: nat, b: nat)
    requires a <= b
    ensures Pow256(a) <= Pow256(b)
  {
    if a < b {
      PowMonotone(a, b - 1);
    }
  }

  /** A first octet other than zero makes the value at least 256 to the number of octets that follow. */
  lemma {:induction false} LeadingWeight(b: Bytes)
    requires b != [] && b[0] != 0
    ensures Unsigned(b) >= Pow256(|b| - 1)
  {
    if |b| > 1 {
      LeadingWeight(b[..|b| - 1]);
    } else {
      assert b[..0] == [];
    }
  }

  /** A stripped value fits `width` octets exactly when the number does. */
  lemma StrippedFits(value: Bytes, width: nat)
    requires value != [] && width > 0
    ensures |Stripped(value)| <= width <==> Unsigned(value) < Pow256(width)
  {
    var s := Stripped(value);
    StrippedValue(value);
    BigEndianOfUnsigned(s);
    if |s| <= width {
      PowMonotone(|s|, width);
    } else {
      LeadingWeight(s);
      PowMonotone(width, |s| - 1);
    }
  }

  function Zeros(n: nat): (z: Bytes)
    ensures |z| == n
  {
    if n == 0 then [] else [0] + Zeros(n - 1)
  }

  lemma {:induction false} PaddedValue(n: nat, b: Bytes)
    ensures Unsigned(Zeros(n) + b) == Unsigned(b)
  {
    if n == 0 {
      assert Zeros(0) + b == b;
    } else {
      PaddedValue(n - 1, b);
      LeadingZero(Zeros(n - 1) + b);
      assert Zeros(n) + b == [0] + (Zeros(n - 1) + b);
    }
  }

  /** `rjust` gives the big-endian number in `width` octets. */
  lemma PaddedIsBigEndian(b: Bytes, width: nat)
    requires |b| <= width
    ensures Zeros(width - |b|) + b == BigEndian(Unsigned(b), width)
  {
    PaddedValue(width - |b|, b);
    BigEndianOfUnsigned(Zeros(width - |b|) + b);
  }

  // ---------------------------------------------------------------- the converter

  method ReadDerLength(data: Bytes, pos: nat) returns (r: Option<(nat, nat)>)
    ensures r == ReadLength(data, pos)
  {
    if pos >= |data| {
      return None;
    }
    var first := data[pos];
    if first < 0x80 {
      return Some((first, pos + 1));
    }
    var count := first - 0x80;
    if count == 0 || count > 4 || pos + 1 + count > |data| {
      return None;
    }
    r := Some((Unsigned(data[pos + 1..pos + 1 + count]), pos + 1 + count));
  }

  /** Every signature that fits is consumed entirely and becomes its two numbers, each in `width` octets; anything
  else is refused. */
  method DerToP1363(signature: Bytes, width: nat) returns (out: Option<Bytes>)
    requires width > 0
    ensures out.Some? <==>
              ReadSignature(signature).Some?
              && Unsigned(ReadSignature(signature).value.0) < Pow256(width)
              && Unsigned(ReadSignature(signature).value.1) < Pow256(width)
    ensures out.Some? ==>
              var (r, s) := ReadSignature(signature).value;
              out.value == BigEndian(Unsigned(r), width) + BigEndian(Unsigned(s), width)
  {
    hide ReadLength, Unsigned, Stripped, BigEndian;
    if |signature| < 2 || signature[0] != 0x30 {
      return None;
    }
    var outer := ReadDerLength(signature, 1);
    if outer.None? || outer.value.1 + outer.value.0 != |signature| {
      return None;
    }
    var pos := outer.value.1;
    ghost var start := pos;
    var values: seq<Bytes> := [];
    ghost var bodies: seq<Bytes> := [];
    for n := 0 to 2
      invariant |values| == |bodies| == n && pos <= |signature|
      invariant n == 0 ==> pos == start
      invariant n == 1 ==> ReadInteger(signature, start) == Some((bodies[0], pos))
      invariant n == 2 ==> ReadInteger(signature, start).Some? && ReadInteger(signature, start).value.0 == bodies[0]
                           && ReadInteger(signature, ReadInteger(signature, start).value.1) == Some((bodies[1], pos))
      invariant forall i | 0 <= i < n ::
                  Unsigned(bodies[i]) < Pow256(width) && values[i] == BigEndian(Unsigned(bodies[i]), width)
    {
      if pos >= |signature| || signature[pos] != 0x02 {
        return None;
      }
      var length := ReadDerLength(signature, pos + 1);
      if length.None? || length.value.0 == 0 || length.value.1 + length.value.0 > |signature| {
        return None;
      }
      var body := signature[length.value.1..length.value.1 + length.value.0];
      pos := length.value.1 + length.value.0;
      StrippedFits(body, width);
      StrippedValue(body);
      var value := Strip(body);
      if |value| > width {
        return None;
      }
      PaddedIsBigEndian(value, width);
      values := values + [Zeros(width - |value|) + value];
      bodies := bodies + [body];
    }
    if pos != |signature| {
      return None;
    }
    out := Some(values[0] + values[1]);
  }

  method Strip(body: Bytes) returns (value: Bytes)
    requires body != []
    ensures value == Stripped(body)
  {
    value := body;
    while |value| > 1 && value[0] == 0
      invariant value != [] && Stripped(value) == Stripped(body)
    {
      value := value[1..];
    }
  }

  // ---------------------------------------------------------------- the inverse

  /** The shortest big-endian octets of a number; none for zero. */
  function Minimal(n: nat): Bytes {
    if n == 0 then [] else Minimal(n / 256) + [n % 256]
  }

  /** The body of a nonnegative INTEGER: a zero octet in front where the sign bit would be set. */
  function IntegerBody(n: nat): (b: Bytes)
    ensures b != []
  {
    var m := Minimal(n);
    if m == [] || m[0] >= 0x80 then [0] + m else m
  }

  lemma {:induction false} MinimalValue(n: nat, k: nat)
    requires n < Pow256(k)
    ensures Unsigned(Minimal(n)) == n && |Minimal(n)| <= k
  {
    if n > 0 {
      assert k > 0 && n / 256 < Pow256(k - 1);
      MinimalValue(n / 256, k - 1);
      assert Minimal(n)[..|Minimal(n)| - 1] == Minimal(n / 256);
    }
  }

  lemma BodyValue(n: nat, k: nat)
    requires n < Pow256(k)
    ensures Unsigned(IntegerBody(n)) == n && |IntegerBody(n)| <= k + 1
  {
    MinimalValue(n, k);
    LeadingZero(Minimal(n));
  }

  function EncodeInteger(n: nat): Bytes
    requires |IntegerBody(n)| < 0x80
  {
    [0x02] + [|IntegerBody(n)|] + IntegerBody(n)
  }

  /** The DER encoding of a signature over a 256-bit curve. */
  function EncodeSignature(r: nat, s: nat): Bytes
    requires |IntegerBody(r)| <= 33 && |IntegerBody(s)| <= 33
  {
    var content := EncodeInteger(r) + EncodeInteger(s);
    [0x30] + [|content|] + content
  }

  /** For every pair of 256-bit numbers the converter inverts the DER encoder. */
  method ConvertEncoded(r: nat, s: nat) returns (out: Bytes)
    requires r < Pow256(32) && s < Pow256(32)
    ensures |out| == 64 && Unsigned(out[..32]) == r && Unsigned(out[32..]) == s
  {
    BodyValue(r, 32);
    BodyValue(s, 32);
    EncodedReads(r, s);
    var converted := DerToP1363(EncodeSignature(r, s), 32);
    out := converted.value;
    UnsignedOfBigEndian(r, 32);
    UnsignedOfBigEndian(s, 32);
    assert out[..32] == BigEndian(r, 32) && out[32..] == BigEndian(s, 32);
  }

  lemma EncodedReads(r: nat, s: nat)
    requires r < Pow256(32) && s < Pow256(32)
    ensures |IntegerBody(r)| <= 33 && |IntegerBody(s)| <= 33
    ensures ReadSignature(EncodeSignature(r, s)) == Some((IntegerBody(r), IntegerBody(s)))
    ensures Unsigned(IntegerBody(r)) == r && Unsigned(IntegerBody(s)) == s
  {
    BodyValue(r, 32);
    BodyValue(s, 32);
    var first, second := EncodeInteger(r), EncodeInteger(s);
    assert IsInteger(first, [|IntegerBody(r)|], IntegerBody(r));
    assert IsInteger(second, [|IntegerBody(s)|], IntegerBody(s));
    SignatureIsRead(EncodeSignature(r, s), [|first + second|], first, second,
                    [|IntegerBody(r)|], [|IntegerBody(s)|], IntegerBody(r), IntegerBody(s));
  }
}
