/** The header grammar that resuming a download relies on (prestarter/storage.go). */
module Ranges {
  import opened Wrappers
  import opened Text

  const MAX_INT64 := 0x7FFF_FFFF_FFFF_FFFF

  /** The text before and after the first `c`. */
  function Cut(s: string, c: char): Option<(string, string)> {
    if s == [] then None
    else if s[0] == c then Some(("", s[1..]))
    else
      match Cut(s[1..], c)
      case None => None
      case Some((a, b)) => Some(([s[0]] + a, b))
  }

  lemma {:induction false} CutAtFirst(a: string, c: char, b: string)
    requires c !in a
    ensures Cut(a + [c] + b, c) == Some((a, b))
  {
    if a != [] {
      CutAtFirst(a[1..], c, b);
      assert (a + [c] + b)[1..] == a[1..] + [c] + b;
      assert [a[0]] + a[1..] == a;
    } else {
      assert (a + [c] + b)[1..] == b;
    }
  }

  /** Go's `strconv.ParseInt(s, 10, 64)`. */
  function ParseInt(s: string): Option<int> {
    var signed := s != "" && (s[0] == '+' || s[0] == '-');
    var digits := if signed then s[1..] else s;
    if digits == "" || !AllDigits(digits) then None
    else
      var value: int := DigitsValue(digits);
      var n := if signed && s[0] == '-' then -value else value;
      if -MAX_INT64 - 1 <= n <= MAX_INT64 then Some(n) else None
  }

  /** An optional sign, then at least one decimal digit, and 64 bits. */
  lemma ParseIntExactly(s: string, n: int)
    ensures ParseInt(s) == Some(n) <==>
              && -0x8000_0000_0000_0000 <= n <= 0x7FFF_FFFF_FFFF_FFFF
              && exists sign, digits ::
                   && s == sign + digits && digits != "" && AllDigits(digits)
                   && (if sign == "-" then n + DigitsValue(digits) == 0
                       else (sign == "" || sign == "+") && n == DigitsValue(digits))
  {
    hide DigitsValue;
    var signed := s != "" && (s[0] == '+' || s[0] == '-');
    var sign, digits := if signed then s[..1] else "", if signed then s[1..] else s;
    assert s == sign + digits;
    forall a, b | s == a + b && b != "" && AllDigits(b) && (a == "" || a == "+" || a == "-")
      ensures a == sign && b == digits
    {
      SignIsFirst(s, a, b);
    }
  }

  lemma SignIsFirst(s: string, sign: string, digits: string)
    requires s == sign + digits && digits != "" && AllDigits(digits) && (sign == "" || sign == "+" || sign == "-")
    ensures sign == "" ==> s == digits && s[0] != '+' && s[0] != '-'
    ensures sign != "" ==> s[0] == sign[0] && s[1..] == digits
  {
    assert IsDigit(digits[0]);
    assert sign == "" ==> s == digits;
  }

  lemma ParseIntReadsDecimal(n: nat)
    requires n <= MAX_INT64
    ensures ParseInt(Decimal(n)) == Some(n)
  {
    DecimalValue(n);
    assert IsDigit(Decimal(n)[0]);
  }

  function ParseContentRange(value: string): Option<(int, int, int)> {
    if !HasPrefix(value, "bytes ") then None
    else
      match Cut(value[6..], '/')
      case None => None
      case Some((a, b)) =>
        match Cut(a, '-')
        case None => None
        case Some((low, high)) =>
          var x, y, z := ParseInt(low), ParseInt(high), ParseInt(b);
          if x.Some? && y.Some? && z.Some? && 0 <= x.value <= y.value < z.value
          then Some((x.value, y.value, z.value)) else None
  }

  /** What stands around the first `c`. */
  lemma {:induction false} CutExactly(s: string, c: char, a: string, b: string)
    ensures Cut(s, c) == Some((a, b)) <==> s == a + [c] + b && c !in a
  {
    if s == a + [c] + b && c !in a {
      CutAtFirst(a, c, b);
    }
    if Cut(s, c) == Some((a, b)) {
      if s[0] != c {
        CutExactly(s[1..], c, a[1..], b);
        assert s == [s[0]] + s[1..] && a == [s[0]] + a[1..];
        assert [s[0]] + (a[1..] + [c] + b) == a + [c] + b;
      } else {
        assert s == [c] + b;
      }
    }
  }

  /** A range is accepted if and only if the header spells it, in order and inside the complete length. */
  lemma ParseContentRangeExactly(value: string, x: int, y: int, z: int)
    ensures ParseContentRange(value) == Some((x, y, z)) <==>
              && 0 <= x <= y < z
              && exists low, high, total ::
                   && value == "bytes " + (low + "-" + high + "/" + total)
                   && '/' !in low && '/' !in high && '-' !in low
                   && ParseInt(low) == Some(x) && ParseInt(high) == Some(y) && ParseInt(total) == Some(z)
  {
    hide ParseInt;
    if low, high, total :| value == "bytes " + (low + "-" + high + "/" + total) && '/' !in low && '/' !in high
                           && '-' !in low && ParseInt(low) == Some(x) && ParseInt(high) == Some(y)
                           && ParseInt(total) == Some(z) {
      assert value[6..] == (low + "-" + high) + "/" + total;
      CutExactly(value[6..], '/', low + "-" + high, total);
      CutExactly(low + "-" + high, '-', low, high);
    }
    if ParseContentRange(value) == Some((x, y, z)) {
      var (a, total) := Cut(value[6..], '/').value;
      var (low, high) := Cut(a, '-').value;
      CutExactly(value[6..], '/', a, total);
      CutExactly(a, '-', low, high);
      assert value == "bytes " + value[6..];
      assert value == "bytes " + (low + "-" + high + "/" + total);
    }
  }

  /** The Content-Range of a byte range response (section 14.4 of RFC 9110). */
  function ContentRange(first: nat, last: nat, complete: nat): string {
    "bytes " + Decimal(first) + "-" + Decimal(last) + "/" + Decimal(complete)
  }

  /** Every range a server can announce within 63 bits is read back as announced. */
  lemma ContentRangeRoundTrip(first: nat, last: nat, complete: nat)
    requires first <= last < complete <= MAX_INT64
    ensures ParseContentRange(ContentRange(first, last, complete)) == Some((first, last, complete))
  {
    var a := Decimal(first) + ['-'] + Decimal(last);
    var value := ContentRange(first, last, complete);
    assert value == "bytes " + (a + ['/'] + Decimal(complete));
    assert value[..6] == "bytes " && value[6..] == a + ['/'] + Decimal(complete);
    CutAtFirst(a, '/', Decimal(complete));
    CutAtFirst(Decimal(first), '-', Decimal(last));
    ParseIntReadsDecimal(first);
    ParseIntReadsDecimal(last);
    ParseIntReadsDecimal(complete);
  }

  predicate IsETagChar(c: char) {
    c >= '!' && c != '"' && c != 127 as char
  }

  /** A strong entity tag (section 8.8.3 of RFC 9110); a weak one starts with W and is refused. */
  predicate StrongETag(s: string) {
    |s| >= 2 && s[0] == '"' && s[|s| - 1] == '"' && forall i | 1 <= i < |s| - 1 :: IsETagChar(s[i])
  }

  /** Quotes around visible characters other than a quote. */
  lemma StrongETagExactly(s: string)
    ensures StrongETag(s) <==>
              exists tag :: && s == ['"'] + tag + ['"']
                            && forall c | c in tag :: (c as int == 0x21 || 0x23 <= c as int) && c as int != 0x7F
  {
    if StrongETag(s) {
      var inner := s[1..|s| - 1];
      assert s == ['"'] + inner + ['"'];
      assert forall c | c in inner :: IsETagChar(c);
    }
    if tag :| s == ['"'] + tag + ['"'] && forall c | c in tag :: IsETagChar(c) {
      assert forall i | 1 <= i < |s| - 1 :: s[i] == tag[i - 1];
    }
  }
}
