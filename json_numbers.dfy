/** The number reads of the JSON collator: `strtod` on the literal under the cursor, the
    bounded `readNumber` used at the top level, and `dcmp`.

    `strtod` is a C library call; the model reads its decimal forms exactly, as
    rationals, so numbers compare by their exact values. */
module JsonNumbers {
  import opened Common

  /** A decimal number: sign, significand and power of ten. */
  datatype Decimal = Decimal(negative: bool, significand: nat, scale: int)

  /** What `strtod` returns: the number and the position its end pointer is set to, one
      past the literal (the starting position when nothing converts). */
  datatype Parsed = Parsed(number: Decimal, end: nat)

  const Zero := Decimal(false, 0, 0)

  /** The first position from `i` on whose byte is not a digit; every byte up to it is
      read. */
  function DigitsEnd(s: seq<byte>, i: nat): (r: Reading<nat>)
    ensures r.Ok? ==> i <= r.value < |s| && !IsDigit(s[r.value])
    ensures r.Ok? ==> forall k :: i <= k < r.value ==> IsDigit(s[k])
    ensures r.Overrun? ==> forall k :: i <= k < |s| ==> IsDigit(s[k])
    decreases |s| - i
  {
    if i >= |s| then Overrun
    else if IsDigit(s[i]) then DigitsEnd(s, i + 1)
    else Ok(i)
  }

  /** `10` raised to `k`, for any integer `k`. */
  function Pow10(k: int): (r: real)
    ensures r > 0.0
    decreases if k >= 0 then k else -k
  {
    if k == 0 then 1.0 else if k > 0 then 10.0 * Pow10(k - 1) else Pow10(k + 1) / 10.0
  }

  /** An exponent and the position just past it. */
  datatype Scaled = Scaled(exp: int, end: nat)

  /** The optional exponent at `m`: `e` or `E`, an optional sign and at least one digit.
      Without a digit the `e` is not part of the literal. */
  function Exponent(s: seq<byte>, m: nat): (r: Reading<Scaled>)
    requires m < |s|
    ensures r.Ok? ==> m <= r.value.end < |s|
    ensures r.Ok? && r.value.end == m ==> r.value.exp == 0
  {
    if s[m] != 'e' as byte && s[m] != 'E' as byte then Ok(Scaled(0, m))
    else if m + 1 >= |s| then Overrun
    else
      var k := if s[m + 1] == '-' as byte || s[m + 1] == '+' as byte then m + 2 else m + 1;
      if k >= |s| then Overrun
      else if !IsDigit(s[k]) then Ok(Scaled(0, m))
      else
        match DigitsEnd(s, k)
        case Overrun => Overrun
        case Ok(e) =>
          var x: int := DecimalValue(s[k..e]);
          Ok(Scaled(if s[m + 1] == DASH then -x else x, e))
  }

  /** The exact value of a decimal number. */
  function Value(d: Decimal): real {
    (if d.negative then -1.0 else 1.0) * d.significand as real * Pow10(d.scale)
  }

  /** The significant digits of a literal, how many of them follow the decimal point,
      and the position just past them. */
  datatype Mantissa = Mantissa(digits: seq<byte>, fractionDigits: nat, end: nat)

  /** Digits, then optionally a decimal point and more digits, from `q`. */
  function MantissaAt(s: seq<byte>, q: nat): (r: Reading<Mantissa>)
    ensures r.Ok? ==> q <= r.value.end < |s| && r.value.fractionDigits <= |r.value.digits|
  {
    match DigitsEnd(s, q)
    case Overrun => Overrun
    case Ok(a) =>
      if s[a] != '.' as byte then Ok(Mantissa(s[q..a], 0, a))
      else
        match DigitsEnd(s, a + 1)
        case Overrun => Overrun
        case Ok(b) => Ok(Mantissa(s[q..a] + s[a + 1..b], b - (a + 1), b))
  }

  /** `strtod` on the memory `s` from `p`: an optional sign, digits with an optional
      fraction (at least one digit in all), then an optional exponent. The value is
      exact. Reading past the memory while the literal may still go on is `Overrun`. */
  function Strtod(s: seq<byte>, p: nat): (r: Reading<Parsed>)
    ensures r.Ok? ==> p <= r.value.end < |s|
    ensures r.Ok? && r.value.end == p ==> r.value.number == Zero
  {
    if p >= |s| then Overrun
    else
      var q := if s[p] == '-' as byte || s[p] == '+' as byte then p + 1 else p;
      match MantissaAt(s, q)
      case Overrun => Overrun
      case Ok(m) =>
        if |m.digits| == 0 then Ok(Parsed(Zero, p))
        else
          match Exponent(s, m.end)
          case Overrun => Overrun
          case Ok(e) => Ok(Parsed(Decimal(s[p] == DASH, DecimalValue(m.digits), e.exp - m.fractionDigits), e.end))
  }

  /** The byte after a literal does not continue it. */
  predicate Ends(c: byte) {
    !IsDigit(c) && c != '.' as byte && c != 'e' as byte && c != 'E' as byte
  }

  /** A run of digits followed by a byte that ends it reads as its decimal value. */
  lemma IntegerLiteral(ds: seq<byte>, c: byte, rest: seq<byte>)
    requires |ds| > 0 && (forall k :: 0 <= k < |ds| ==> IsDigit(ds[k])) && Ends(c)
    ensures Strtod(ds + [c] + rest, 0) == Ok(Parsed(Decimal(false, DecimalValue(ds), 0), |ds|))
  {
    var s := ds + [c] + rest;
    IntegerMantissa(s, 0, |ds|);
    assert s[0..|ds|] == ds;
  }

  /** A minus sign, then a run of digits followed by a byte that ends it, reads as the
      negated value. */
  lemma NegativeIntegerLiteral(ds: seq<byte>, c: byte, rest: seq<byte>)
    requires |ds| > 0 && (forall k :: 0 <= k < |ds| ==> IsDigit(ds[k])) && Ends(c)
    ensures Strtod([DASH] + ds + [c] + rest, 0) == Ok(Parsed(Decimal(true, DecimalValue(ds), 0), |ds| + 1))
  {
    var s := [DASH] + ds + [c] + rest;
    IntegerMantissa(s, 1, |ds| + 1);
    assert s[1..|ds| + 1] == ds;
  }

  /** A single digit followed by a byte that ends the literal reads as its value. */
  lemma SingleDigit(s: seq<byte>, p: nat)
    requires p + 1 < |s| && IsDigit(s[p]) && Ends(s[p + 1])
    ensures Strtod(s, p) == Ok(Parsed(Decimal(false, DigitValue(s[p]), 0), p + 1))
  {
    IntegerMantissa(s, p, p + 1);
    var ds := s[p..p + 1];
    assert ds[..0] == [] && ds[0] == s[p];
    assert DecimalValue(ds) == DigitValue(s[p]);
  }

  /** Digits from `q` up to a byte at `j` that ends the literal: an integer mantissa and
      no exponent. */
  lemma IntegerMantissa(s: seq<byte>, q: nat, j: nat)
    requires q <= j < |s| && Ends(s[j])
    requires forall k :: q <= k < j ==> IsDigit(s[k])
    ensures MantissaAt(s, q) == Ok(Mantissa(s[q..j], 0, j))
    ensures Exponent(s, j) == Ok(Scaled(0, j))
  {
    DigitsEndOfRun(s, q, j);
  }

  /** Digits up to `j` and a non-digit at `j` end the run there. */
  lemma {:induction false} DigitsEndOfRun(s: seq<byte>, i: nat, j: nat)
    requires i <= j < |s| && !IsDigit(s[j])
    requires forall k :: i <= k < j ==> IsDigit(s[k])
    ensures DigitsEnd(s, i) == Ok(j)
    decreases j - i
  {
    if i < j {
      DigitsEndOfRun(s, i + 1, j);
    }
  }

  /** In a NUL-terminated buffer `strtod` stops at or before the NUL. */
  lemma StrtodStopsAtNul(t: seq<byte>)
    ensures Strtod(t + [NUL], 0).Ok?
    ensures Strtod(t + [NUL], 0).value.end <= |t|
  {
    var s := t + [NUL];
    var q := if |t| > 0 && (s[0] == '-' as byte || s[0] == '+' as byte) then 1 else 0;
    MantissaReachesNul(t, q);
    var m := MantissaAt(s, q).value;
    ExponentReachesNul(t, m.end);
  }

  lemma MantissaReachesNul(t: seq<byte>, q: nat)
    requires q <= |t|
    ensures MantissaAt(t + [NUL], q).Ok? && MantissaAt(t + [NUL], q).value.end <= |t|
  {
    var s := t + [NUL];
    DigitsReachNul(t, q);
    var a := DigitsEnd(s, q).value;
    if s[a] == '.' as byte {
      DigitsReachNul(t, a + 1);
    }
  }

  lemma ExponentReachesNul(t: seq<byte>, m: nat)
    requires m <= |t|
    ensures Exponent(t + [NUL], m).Ok? && Exponent(t + [NUL], m).value.end <= |t|
  {
    var s := t + [NUL];
    if s[m] == 'e' as byte || s[m] == 'E' as byte {
      var k := if s[m + 1] == '-' as byte || s[m + 1] == '+' as byte then m + 2 else m + 1;
      if IsDigit(s[k]) {
        DigitsReachNul(t, k);
      }
    }
  }

  /** A run of digits in a NUL-terminated buffer ends at or before the NUL. */
  lemma DigitsReachNul(t: seq<byte>, i: nat)
    requires i <= |t|
    ensures DigitsEnd(t + [NUL], i).Ok? && DigitsEnd(t + [NUL], i).value <= |t|
  {
    var s := t + [NUL];
    assert !IsDigit(s[|t|]);
  }

  /** The buffer `readNumber` copies a literal into when it is short enough. */
  const BufferSize: nat := 50

  /** `readNumber(start, start + len, &end)` with `start` at `p`: `strtod` on a copy of
      the `len` bytes from `p`, NUL-terminated, with the end pointer moved back into the
      original memory. */
  function BoundedRead(s: seq<byte>, p: nat, len: nat): (r: Reading<Parsed>)
  {
    if p + len > |s| then Overrun else Relocate(p, Strtod(s[p..p + len] + [NUL], 0))
  }

  /** A read of a copy, with the end pointer moved to the original at `p`. */
  function Relocate(p: nat, x: Reading<Parsed>): Reading<Parsed> {
    match x
    case Overrun => Overrun
    case Ok(x) => Ok(Parsed(x.number, p + x.end))
  }

  /** A bounded read never reads past the span, ends inside it, and depends only on the
      bytes of the span. */
  lemma BoundedReadStaysInSpan(s: seq<byte>, s': seq<byte>, p: nat, len: nat)
    requires p + len <= |s| && p + len <= |s'|
    requires forall k :: p <= k < p + len ==> s[k] == s'[k]
    ensures BoundedRead(s, p, len).Ok?
    ensures p <= BoundedRead(s, p, len).value.end <= p + len
    ensures BoundedRead(s', p, len) == BoundedRead(s, p, len)
  {
    StrtodStopsAtNul(s[p..p + len]);
    assert s[p..p + len] == s'[p..p + len];
  }

  /** `readNumber`: copy the span into the 50-byte buffer, or into a heap buffer when it
      does not fit, terminate it, and parse the copy. */
  method ReadNumber(s: seq<byte>, p: nat, len: nat) returns (r: Reading<Parsed>)
    ensures r == BoundedRead(s, p, len)
  {
    if p + len > |s| {
      return Overrun;  // `memcpy` would read past the memory
    }
    var buf := new byte[if len < BufferSize then BufferSize else len + 1];
    var i := 0;
    while i < len
      invariant 0 <= i <= len
      invariant forall k :: 0 <= k < i ==> buf[k] == s[p + k]
    {
      buf[i] := s[p + i];
      i := i + 1;
    }
    buf[len] := NUL;
    ReadsTheCopy(s, p, len, buf[..len + 1]);
    r := Relocate(p, Strtod(buf[..len + 1], 0));  // `strtod` on the C string the buffer holds
  }

  /** Parsing a terminated copy of the span is the bounded read. */
  lemma ReadsTheCopy(s: seq<byte>, p: nat, len: nat, copy: seq<byte>)
    requires p + len <= |s| && |copy| == len + 1 && copy[len] == NUL
    requires forall k :: 0 <= k < len ==> copy[k] == s[p + k]
    ensures Relocate(p, Strtod(copy, 0)) == BoundedRead(s, p, len)
  {
    assert copy == s[p..p + len] + [NUL];
  }

  /** `dcmp`: the sign of `n1 - n2`. */
  function DCmp(n1: real, n2: real): (r: int)
    ensures -1 <= r <= 1
    ensures r < 0 <==> n1 < n2
    ensures r > 0 <==> n1 > n2
  {
    var diff := n1 - n2;
    if diff > 0.0 then 1 else if diff < 0.0 then -1 else 0
  }
}
