/** Bytes, and unsigned and signed integers in big-endian order. */
module Bytes {

  type Byte = b: int | 0 <= b < 256

  type Bytes = seq<Byte>

  function Pow256(k: nat): (p: nat)
    ensures p > 0
  {
    if k == 0 then 1 else 256 * Pow256(k - 1)
  }

  /** The unsigned big-endian value of `b`. */
  function Unsigned(b: Bytes): nat {
    if b == [] then 0 else 256 * Unsigned(b[..|b| - 1]) + b[|b| - 1]
  }

  /** The lowest `k` bytes of `n`, most significant first. */
  function BigEndian(n: nat, k: nat): (b: Bytes)
    ensures |b| == k
  {
    if k == 0 then [] else BigEndian(n / 256, k - 1) + [n % 256]
  }

  lemma {:induction false} UnsignedOfBigEndian(n: nat, k: nat)
    requires n < Pow256(k)
    ensures Unsigned(BigEndian(n, k)) == n
  {
    if k > 0 {
      UnsignedOfBigEndian(n / 256, k - 1);
      assert BigEndian(n, k)[..k - 1] == BigEndian(n / 256, k - 1);
    }
  }

  lemma {:induction false} BigEndianOfUnsigned(b: Bytes)
    ensures Unsigned(b) < Pow256(|b|) && BigEndian(Unsigned(b), |b|) == b
  {
    if b != [] {
      var high, low := Unsigned(b[..|b| - 1]), b[|b| - 1];
      BigEndianOfUnsigned(b[..|b| - 1]);
      assert b[..|b| - 1] + [low] == b;
      assert Unsigned(b) == 256 * high + low && Unsigned(b) / 256 == high && Unsigned(b) % 256 == low;
    }
  }

  /** Leading zero bytes do not change the value. */
  lemma {:induction false} LeadingZero(b: Bytes)
    ensures Unsigned([0] + b) == Unsigned(b)
  {
    if b != [] {
      LeadingZero(b[..|b| - 1]);
      assert ([0] + b)[..|b|] == [0] + b[..|b| - 1];
    } else {
      assert ([0] + b)[..0] == [];
    }
  }

  /** `data` holds `part` at position `pos`. */
  predicate Has(data: Bytes, pos: nat, part: Bytes) {
    pos + |part| <= |data| && data[pos..pos + |part|] == part
  }

  lemma HasSplit(data: Bytes, pos: nat, a: Bytes, b: Bytes)
    ensures Has(data, pos, a + b) <==> Has(data, pos, a) && Has(data, pos + |a|, b)
  {
    if pos + |a + b| <= |data| {
      var whole := data[pos..pos + |a + b|];
      assert whole[..|a|] == data[pos..pos + |a|] && whole[|a|..] == data[pos + |a|..pos + |a| + |b|];
      if Has(data, pos, a) && Has(data, pos + |a|, b) {
        assert whole == whole[..|a|] + whole[|a|..];
      }
    }
  }

  lemma HasBoth(a: Bytes, b: Bytes)
    ensures Has(a + b, 0, a) && Has(a + b, |a|, b)
  {
  }

  // ---------------------------------------------------------------- two's complement

  function Signed(u: nat, k: nat): int {
    var n: int := u;
    if 2 * n < Pow256(k) then n else n - Pow256(k)
  }

  predicate FitsSigned(n: int, k: nat) {
    0 <= 2 * n + Pow256(k) && 2 * n < Pow256(k)
  }

  function TwosComplement(n: int, k: nat): nat
    requires FitsSigned(n, k)
  {
    if n >= 0 then n else n + Pow256(k)
  }

  lemma SignedRoundTrip(u: nat, k: nat)
    requires u < Pow256(k)
    ensures FitsSigned(Signed(u, k), k) && TwosComplement(Signed(u, k), k) == u
  {
  }

  lemma TwosComplementRoundTrip(n: int, k: nat)
    requires FitsSigned(n, k) && k > 0
    ensures TwosComplement(n, k) < Pow256(k) && Signed(TwosComplement(n, k), k) == n
  {
  }
}
