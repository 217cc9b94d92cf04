/** Bytes, three-way comparison and the memory model shared by both collators.

    A comparator receives an address in memory and (for the JSON collator) a declared
    length. The model represents the readable memory that starts at that address as a
    `seq<byte>`; a read the C code would make beyond that memory has undefined behaviour
    there, and the model reports it as `Overrun` instead of guessing a value. */
module Common {

  /** One byte of a UTF-8 buffer, as an unsigned value. */
  newtype byte = x: int | 0 <= x < 0x100

  const NUL: byte := 0
  const QUOTE: byte := '"' as byte
  const BACKSLASH: byte := '\\' as byte
  const DASH: byte := '-' as byte

  /** The bytes of a string literal whose characters all fit in one byte. */
  function Bytes(s: string): (r: seq<byte>)
    requires forall i :: 0 <= i < |s| ==> s[i] as int < 0x100
    ensures |r| == |s|
    ensures forall i :: 0 <= i < |s| ==> r[i] as int == s[i] as int
  {
    seq(|s|, i requires 0 <= i < |s| => s[i] as byte)
  }

  /** A read either stays inside the memory and yields a value, or it does not. */
  datatype Reading<T> = Ok(value: T) | Overrun

  /** A pointer that may be NULL. */
  datatype Option<T> = None | Some(value: T)

  /** `cmp(n1, n2)`: the sign of `n1 - n2`. */
  function Cmp(n1: int, n2: int): (r: int)
    ensures r == -1 || r == 0 || r == 1
    ensures r < 0 <==> n1 < n2
    ensures r > 0 <==> n1 > n2
  {
    var diff := n1 - n2;
    if diff > 0 then 1 else if diff < 0 then -1 else 0
  }

  lemma CmpAntisymmetric(n1: int, n2: int)
    ensures Cmp(n1, n2) == -Cmp(n2, n1)
  {
  }

  predicate IsDigit(c: byte) {
    '0' as byte <= c <= '9' as byte
  }

  /** `c & 0x80`: the byte is not ASCII. */
  predicate HighBit(c: byte) {
    c >= 0x80
  }

  /** The integer a C `char` holding `c` promotes to: negative for bytes 0x80..0xFF when
      `char` is signed (x86 ABIs), the byte itself when it is unsigned (ARM ABIs). */
  function CharValue(signedChar: bool, c: byte): (v: int)
    ensures !signedChar || c < 0x80 ==> v == c as int
    ensures signedChar && c >= 0x80 ==> v == c as int - 0x100
  {
    if signedChar && c >= 0x80 then c as int - 0x100 else c as int
  }

  lemma CharValueInjective(signedChar: bool, a: byte, b: byte)
    ensures CharValue(signedChar, a) == CharValue(signedChar, b) ==> a == b
  {
  }

  /** Lexicographic order of two character sequences under `key`: the first differing
      key decides, and a proper prefix is lesser. */
  function LexBy(key: byte -> int, a: seq<byte>, b: seq<byte>): (r: int)
    ensures r == -1 || r == 0 || r == 1
    ensures r == 0 ==> |a| == |b|
  {
    if |a| == 0 && |b| == 0 then 0
    else if |a| == 0 then -1
    else if |b| == 0 then 1
    else if Cmp(key(a[0]), key(b[0])) != 0 then Cmp(key(a[0]), key(b[0]))
    else LexBy(key, a[1..], b[1..])
  }

  /** `LexBy` on two non-empty sequences looks at their first characters. */
  lemma LexByCons(key: byte -> int, a: seq<byte>, b: seq<byte>)
    requires |a| > 0 && |b| > 0
    ensures LexBy(key, a, b) ==
      if Cmp(key(a[0]), key(b[0])) != 0 then Cmp(key(a[0]), key(b[0])) else LexBy(key, a[1..], b[1..])
  {
  }

  lemma {:induction false} LexByAntisymmetric(key: byte -> int, a: seq<byte>, b: seq<byte>)
    ensures LexBy(key, b, a) == -LexBy(key, a, b)
  {
    if |a| > 0 && |b| > 0 {
      CmpAntisymmetric(key(a[0]), key(b[0]));
      LexByAntisymmetric(key, a[1..], b[1..]);
    }
  }

  /** Under a key that tells characters apart, only equal sequences tie. */
  lemma {:induction false} LexByZero(key: byte -> int, a: seq<byte>, b: seq<byte>)
    requires forall x, y :: key(x) == key(y) ==> x == y
    ensures LexBy(key, a, b) == 0 <==> a == b
  {
    if |a| > 0 && |b| > 0 {
      LexByZero(key, a[1..], b[1..]);
      if LexBy(key, a, b) == 0 {
        assert a == [a[0]] + a[1..] && b == [b[0]] + b[1..];
      }
    }
  }

  /** The lexicographic order is transitive, and a chain that ends in a tie was all ties. */
  lemma {:induction false} LexByTransitive(key: byte -> int, a: seq<byte>, b: seq<byte>, c: seq<byte>)
    requires LexBy(key, a, b) <= 0 && LexBy(key, b, c) <= 0
    ensures LexBy(key, a, c) <= 0
    ensures LexBy(key, a, c) == 0 ==> LexBy(key, a, b) == 0 && LexBy(key, b, c) == 0
  {
    if |a| > 0 && |b| > 0 && |c| > 0 && key(a[0]) == key(b[0]) == key(c[0]) {
      LexByTransitive(key, a[1..], b[1..], c[1..]);
    }
  }

  /** The key by which `cmp(c1, c2)` orders two `char`s. */
  function CharKey(signedChar: bool): byte -> int {
    c => CharValue(signedChar, c)
  }

  /** The value of a decimal digit (0 for any other byte). */
  function DigitValue(c: byte): (v: nat)
    ensures v < 10
  {
    if IsDigit(c) then (c - '0' as byte) as nat else 0
  }

  /** The value of a run of decimal digits, most significant first. */
  function DecimalValue(ds: seq<byte>): nat {
    if |ds| == 0 then 0 else 10 * DecimalValue(ds[..|ds| - 1]) + DigitValue(ds[|ds| - 1])
  }
}
