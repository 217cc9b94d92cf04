/** The inline string-escape decoder shared by the string comparators and the unescaper:
    `isXDigit`, `digitToInt` and `convertEscape`. It handles a subset of the escapes of
    section 7 of RFC 8259 and decodes one escape to one byte. */
module Escapes {
  import opened Common

  /** Which copy of the collator: the JNI C++ port, or the older C file. */
  datatype Port = JniPort | LegacyPort

  /** `isXDigit`: a test on ASCII bytes only. */
  predicate IsXDigit(c: byte): (r: bool)
    ensures r ==> !HighBit(c)
  {
    IsDigit(c) || 'a' as byte <= c <= 'f' as byte || 'A' as byte <= c <= 'F' as byte
  }

  /** `isXDigit` accepts exactly the 22 characters that spell hexadecimal digits. */
  lemma XDigitAlphabet(c: byte)
    ensures IsXDigit(c) <==> c as char in "0123456789abcdefABCDEF"
  {
  }

  /** The value of a hexadecimal digit, as section 7 of RFC 8259 reads it. */
  function HexValue(c: byte): (v: nat)
    requires IsXDigit(c)
    ensures v < 16
  {
    if IsDigit(c) then (c - '0' as byte) as nat
    else if 'a' as byte <= c then (c - 'a' as byte) as nat + 10
    else (c - 'A' as byte) as nat + 10
  }

  /** `digitToInt`. Its tests are `ch > 'a'` and `ch > 'A'`, so the letters `a` and `A`
      fall through to the later branches: `a` is read as 10 + 'a' - 'A' = 42 and `A` as
      'A' - '0' = 17. Every other hexadecimal digit gets its value and every other byte 0. */
  function DigitToInt(c: byte): (d: nat)
    ensures d < 64
    ensures !IsXDigit(c) ==> d == 0
    ensures IsXDigit(c) && c != 'a' as byte && c != 'A' as byte ==> d == HexValue(c)
    ensures c == 'a' as byte ==> d == 42
    ensures c == 'A' as byte ==> d == 17
  {
    if !IsXDigit(c) then 0
    else if c > 'a' as byte then 10 + (c - 'a' as byte) as nat
    else if c > 'A' as byte then 10 + (c - 'A' as byte) as nat
    else (c - '0' as byte) as nat
  }

  /** C's `x << k` on a non-negative integer that does not overflow. */
  function ShiftLeft(x: nat, k: nat): nat {
    if k == 0 then x else 2 * ShiftLeft(x, k - 1)
  }

  /** C's `|` on non-negative integers, bit by bit from the lowest. */
  function BitOr(x: nat, y: nat): nat
    decreases x + y
  {
    if x == 0 then y
    else if y == 0 then x
    else 2 * BitOr(x / 2, y / 2) + (if x % 2 == 1 || y % 2 == 1 then 1 else 0)
  }

  lemma {:induction false} BitOrBelow(x: nat, y: nat, k: nat)
    requires x < ShiftLeft(1, k) && y < ShiftLeft(1, k)
    ensures BitOr(x, y) < ShiftLeft(1, k)
    decreases x + y
  {
    if x != 0 && y != 0 {
      BitOrBelow(x / 2, y / 2, k - 1);
    }
  }

  /** Or-ing a value below `1 << k` into one shifted left by `k` adds it. */
  lemma {:induction false} BitOrDisjoint(x: nat, y: nat, k: nat)
    requires y < ShiftLeft(1, k)
    ensures BitOr(ShiftLeft(x, k), y) == ShiftLeft(x, k) + y
  {
    if k > 0 && ShiftLeft(x, k) != 0 && y != 0 {
      BitOrDisjoint(x, y / 2, k - 1);
    }
  }

  /** Shifting both operands left by `k` shifts their or. */
  lemma {:induction false} BitOrShifted(x: nat, y: nat, k: nat)
    ensures BitOr(ShiftLeft(x, k), ShiftLeft(y, k)) == ShiftLeft(BitOr(x, y), k)
  {
    if k > 0 {
      BitOrShifted(x, y, k - 1);
    }
  }

  lemma {:induction false} ShiftLeftAdds(x: nat, j: nat, k: nat)
    ensures ShiftLeft(ShiftLeft(x, j), k) == ShiftLeft(x, j + k)
  {
    if k > 0 {
      ShiftLeftAdds(x, j, k - 1);
    }
  }

  lemma {:induction false} ShiftLeftDistributes(x: nat, y: nat, k: nat)
    ensures ShiftLeft(x + y, k) == ShiftLeft(x, k) + ShiftLeft(y, k)
  {
    if k > 0 {
      ShiftLeftDistributes(x, y, k - 1);
    }
  }

  /** The `int` that `convertEscape` assembles from four `digitToInt` values with
      `(d0 << 12) | (d1 << 8) | (d2 << 4) | d3`. The results of `digitToInt` can use six
      bits, so the pieces may overlap and the or is not a sum in general. */
  function CombineDigits(d0: byte, d1: byte, d2: byte, d3: byte): (uc: nat)
    ensures uc < 0x4_0000
  {
    var h0, h1, h2, h3 := DigitToInt(d0), DigitToInt(d1), DigitToInt(d2), DigitToInt(d3);
    var uc := BitOr(BitOr(BitOr(ShiftLeft(h0, 12), ShiftLeft(h1, 8)), ShiftLeft(h2, 4)), h3);
    assert uc < 0x4_0000 by {
      PowersOfTwo();
      ShiftBound(h0, 12);
      ShiftBound(h1, 8);
      ShiftBound(h2, 4);
      ShiftBound(h3, 0);
      BitOrBelow(ShiftLeft(h0, 12), ShiftLeft(h1, 8), 18);
      BitOrBelow(BitOr(ShiftLeft(h0, 12), ShiftLeft(h1, 8)), ShiftLeft(h2, 4), 18);
      BitOrBelow(BitOr(BitOr(ShiftLeft(h0, 12), ShiftLeft(h1, 8)), ShiftLeft(h2, 4)), h3, 18);
    }
    uc
  }

  lemma {:induction false} ShiftLeftMultiplies(x: nat, k: nat)
    ensures ShiftLeft(x, k) == x * ShiftLeft(1, k)
  {
    if k > 0 {
      ShiftLeftMultiplies(x, k - 1);
    }
  }

  lemma PowersOfTwo()
    ensures ShiftLeft(1, 4) == 16 && ShiftLeft(1, 6) == 64 && ShiftLeft(1, 8) == 256
    ensures ShiftLeft(1, 12) == 4096 && ShiftLeft(1, 18) == 0x4_0000
  {
    assert ShiftLeft(1, 1) == 2;
    assert ShiftLeft(1, 2) == 4;
    assert ShiftLeft(1, 3) == 8;
    assert ShiftLeft(1, 4) == 16;
    assert ShiftLeft(1, 5) == 32;
    assert ShiftLeft(1, 6) == 64;
    assert ShiftLeft(1, 7) == 128;
    assert ShiftLeft(1, 8) == 256;
    assert ShiftLeft(1, 9) == 512;
    assert ShiftLeft(1, 10) == 1024;
    assert ShiftLeft(1, 11) == 2048;
    assert ShiftLeft(1, 12) == 4096;
    assert ShiftLeft(1, 13) == 8192;
    assert ShiftLeft(1, 14) == 16384;
    assert ShiftLeft(1, 15) == 32768;
    assert ShiftLeft(1, 16) == 65536;
    assert ShiftLeft(1, 17) == 131072;
  }

  /** A six-bit value shifted by 12, 8, 4 or 0 bits stays below `1 << 18`. */
  lemma ShiftBound(h: nat, k: nat)
    requires h < 64 && (k == 0 || k == 4 || k == 8 || k == 12)
    ensures ShiftLeft(h, k) < ShiftLeft(1, 18)
  {
    PowersOfTwo();
    ShiftLeftMultiplies(h, k);
    assert ShiftLeft(1, 0) == 1;
  }

  /** `(x << (k + 4)) | (y << k) == ((x << 4) | y) << k` for a nibble `y`. */
  lemma NibbleJoin(x: nat, y: nat, k: nat)
    requires y < 16
    ensures BitOr(ShiftLeft(x, k + 4), ShiftLeft(y, k)) == ShiftLeft(16 * x + y, k)
  {
    PowersOfTwo();
    ShiftLeftAdds(x, 4, k);
    BitOrShifted(ShiftLeft(x, 4), y, k);
    BitOrDisjoint(x, y, 4);
    ShiftLeftMultiplies(x, 4);
  }

  /** Four genuine digit values combine to their positional sum, the value of the
      escape in section 7 of RFC 8259. */
  lemma CombineNibbles(d0: byte, d1: byte, d2: byte, d3: byte)
    requires DigitToInt(d0) < 16 && DigitToInt(d1) < 16 && DigitToInt(d2) < 16 && DigitToInt(d3) < 16
    ensures CombineDigits(d0, d1, d2, d3) ==
      4096 * DigitToInt(d0) + 256 * DigitToInt(d1) + 16 * DigitToInt(d2) + DigitToInt(d3)
  {
    var h0, h1, h2, h3 := DigitToInt(d0), DigitToInt(d1), DigitToInt(d2), DigitToInt(d3);
    NibbleJoin(h0, h1, 8);
    NibbleJoin(16 * h0 + h1, h2, 4);
    NibbleJoin(256 * h0 + 16 * h1 + h2, h3, 0);
    assert ShiftLeft(256 * h0 + 16 * h1 + h2, 4) == ShiftLeft(256 * h0 + 16 * h1 + h2, 0 + 4);
    assert ShiftLeft(4096 * h0 + 256 * h1 + 16 * h2 + h3, 0) == 4096 * h0 + 256 * h1 + 16 * h2 + h3;
    assert ShiftLeft(h3, 0) == h3;
  }

  /** One decoded character and the position of the last byte the escape used
      (`convertEscape` leaves its cursor there). */
  datatype Unit = Unit(c: byte, last: nat)

  /** The single-character escapes `convertEscape` decodes; any other byte stands for itself. */
  function ShortEscape(c: byte): byte {
    if c == 'b' as byte then 8
    else if c == 'n' as byte then 10
    else if c == 'r' as byte then 13
    else if c == 't' as byte then 9
    else c
  }

  /** The byte `convertEscape` returns for a `\u` escape with value `uc`: the JNI port
      replaces every value above 127 by 0xFF, the older C file keeps the low eight bits. */
  function UnicodeUnit(port: Port, uc: nat): byte {
    if port == JniPort && uc > 127 then 0xFF else (uc % 0x100) as byte
  }

  /** The byte `convertEscape` returns for the escape whose backslash is at `p`, once
      its bytes are known to be there (the value elsewhere is never used). */
  function EscapedByte(port: Port, s: seq<byte>, p: nat): byte {
    if p + 5 < |s| && s[p + 1] == 'u' as byte then
      UnicodeUnit(port, CombineDigits(s[p + 2], s[p + 3], s[p + 4], s[p + 5]))
    else if p + 1 < |s| then ShortEscape(s[p + 1])
    else 0
  }

  /** What an escape decodes to, as a function of the text and the backslash's position. */
  type EscapeByte = (seq<byte>, nat) -> byte

  /** The decoding of the given copy of the collator. */
  function Decoder(port: Port): EscapeByte {
    (s: seq<byte>, p: nat) => EscapedByte(port, s, p)
  }

  /** `convertEscape` with its cursor on the backslash at `p`, with the byte the escape
      decodes to given by `esc`: it reads the byte after the backslash, and four more
      after a `u`, and leaves the cursor on the last byte it read. */
  function EscapeWith(esc: EscapeByte, s: seq<byte>, p: nat): (r: Reading<Unit>)
    requires p < |s|
    ensures r.Overrun? <==> p + 1 >= |s| || (s[p + 1] == 'u' as byte && p + 5 >= |s|)
    ensures r.Ok? ==>
      r.value.last < |s| && r.value.last == if s[p + 1] == 'u' as byte then p + 5 else p + 1
  {
    if p + 1 >= |s| then Overrun
    else if s[p + 1] == 'u' as byte then
      if p + 5 >= |s| then Overrun
      else Ok(Unit(esc(s, p), p + 5))
    else Ok(Unit(esc(s, p), p + 1))
  }

  /** `convertEscape` of the given copy, with its cursor on the backslash at `p`. */
  function Escape(port: Port, s: seq<byte>, p: nat): (r: Reading<Unit>)
    requires p < |s|
    ensures r.Overrun? <==> p + 1 >= |s| || (s[p + 1] == 'u' as byte && p + 5 >= |s|)
    ensures r.Ok? && s[p + 1] != 'u' as byte ==> r.value == Unit(ShortEscape(s[p + 1]), p + 1)
    ensures r.Ok? && s[p + 1] == 'u' as byte ==>
      r.value == Unit(UnicodeUnit(port, CombineDigits(s[p + 2], s[p + 3], s[p + 4], s[p + 5])), p + 5)
  {
    EscapeWith(Decoder(port), s, p)
  }

  /** The single-character escapes of section 7 of RFC 8259 that the decoder gets right:
      `\b \n \r \t` and the self-standing `\" \\ \/`. */
  lemma ShortEscapesAgreeWithRfc8259(port: Port, s: seq<byte>, p: nat)
    requires p + 1 < |s|
    ensures s[p + 1] == 'b' as byte ==> Escape(port, s, p) == Ok(Unit(0x08, p + 1))
    ensures s[p + 1] == 'n' as byte ==> Escape(port, s, p) == Ok(Unit(0x0A, p + 1))
    ensures s[p + 1] == 'r' as byte ==> Escape(port, s, p) == Ok(Unit(0x0D, p + 1))
    ensures s[p + 1] == 't' as byte ==> Escape(port, s, p) == Ok(Unit(0x09, p + 1))
    ensures s[p + 1] in Bytes("\"\\/") ==> Escape(port, s, p) == Ok(Unit(s[p + 1], p + 1))
  {
    var q := Bytes("\"\\/");
    assert s[p + 1] in q <==> s[p + 1] == q[0] || s[p + 1] == q[1] || s[p + 1] == q[2];
  }

  /** A `\uXXXX` escape up to U+007F whose digits avoid the letters `a` and `A` decodes
      to that character in both copies, as section 7 of RFC 8259 reads it. */
  lemma UnicodeEscapeAgreesWithRfc8259(port: Port, s: seq<byte>, p: nat)
    requires p + 5 < |s| && s[p + 1] == 'u' as byte
    requires forall k :: p + 2 <= k <= p + 5 ==> IsXDigit(s[k]) && s[k] != 'a' as byte && s[k] != 'A' as byte
    requires 4096 * HexValue(s[p + 2]) + 256 * HexValue(s[p + 3]) + 16 * HexValue(s[p + 4]) + HexValue(s[p + 5]) < 0x80
    ensures Escape(port, s, p) == Ok(Unit((4096 * HexValue(s[p + 2]) + 256 * HexValue(s[p + 3]) +
                                           16 * HexValue(s[p + 4]) + HexValue(s[p + 5])) as byte, p + 5))
  {
    var d0, d1, d2, d3 := s[p + 2], s[p + 3], s[p + 4], s[p + 5];
    assert IsXDigit(d0) && d0 != 'a' as byte && d0 != 'A' as byte;
    assert IsXDigit(d1) && d1 != 'a' as byte && d1 != 'A' as byte;
    assert IsXDigit(d2) && d2 != 'a' as byte && d2 != 'A' as byte;
    assert IsXDigit(d3) && d3 != 'a' as byte && d3 != 'A' as byte;
    HexDigitsCombine(d0, d1, d2, d3);
  }

  /** Four hexadecimal digits other than `a` and `A` combine to their value. */
  lemma HexDigitsCombine(d0: byte, d1: byte, d2: byte, d3: byte)
    requires IsXDigit(d0) && d0 != 'a' as byte && d0 != 'A' as byte
    requires IsXDigit(d1) && d1 != 'a' as byte && d1 != 'A' as byte
    requires IsXDigit(d2) && d2 != 'a' as byte && d2 != 'A' as byte
    requires IsXDigit(d3) && d3 != 'a' as byte && d3 != 'A' as byte
    ensures CombineDigits(d0, d1, d2, d3) == 4096 * HexValue(d0) + 256 * HexValue(d1) + 16 * HexValue(d2) + HexValue(d3)
  {
    CombineNibbles(d0, d1, d2, d3);
  }

  /** `\f` is not decoded: the escape stands for the letter `f`. */
  lemma FormFeedPassesThrough(port: Port)
    ensures Escape(port, Bytes("\\f"), 0) == Ok(Unit('f' as byte, 1))
  {
  }

  lemma LetterADigits()
    ensures CombineDigits('0' as byte, '0' as byte, '4' as byte, 'a' as byte) == 0x6A
    ensures CombineDigits('0' as byte, '0' as byte, '4' as byte, 'A' as byte) == 0x51
  {
    PowersOfTwo();
    ShiftLeftMultiplies(0, 12);
    ShiftLeftMultiplies(0, 8);
    ShiftLeftMultiplies(4, 4);
    ShiftLeftMultiplies(1, 6);
    BitOrDisjoint(1, 42, 6);
    BitOrDisjoint(1, 17, 6);
  }

  /** The `digitToInt` reading of `a` and `A` changes the value of a `\u` escape:
      `\u004a` decodes to `j` (0x6A) and `\u004A` to `Q` (0x51), where section 7 of
      RFC 8259 reads both as `J` (0x4A). */
  lemma LetterADigitsMisread(port: Port)
    ensures Escape(port, Bytes("\\u004a"), 0) == Ok(Unit('j' as byte, 5))
    ensures Escape(port, Bytes("\\u004A"), 0) == Ok(Unit('Q' as byte, 5))
  {
    LetterADigits();
    var s, t := Bytes("\\u004a"), Bytes("\\u004A");
    assert s[1] == 'u' as byte && s[2] == '0' as byte && s[3] == '0' as byte && s[4] == '4' as byte && s[5] == 'a' as byte;
    assert t[1] == 'u' as byte && t[2] == '0' as byte && t[3] == '0' as byte && t[4] == '4' as byte && t[5] == 'A' as byte;
  }

  lemma NonAsciiDigits()
    ensures CombineDigits('0' as byte, '0' as byte, 'e' as byte, '9' as byte) == 0xE9
    ensures CombineDigits('0' as byte, '1' as byte, '4' as byte, '1' as byte) == 0x141
  {
    CombineNibbles('0' as byte, '0' as byte, 'e' as byte, '9' as byte);
    CombineNibbles('0' as byte, '1' as byte, '4' as byte, '1' as byte);
  }

  /** Above U+007F the JNI port returns the sentinel 0xFF; the older C file keeps the
      low byte, so `\u00e9` gives 0xE9 and `\u0141` gives `A` there. */
  lemma NonAsciiEscape()
    ensures Escape(JniPort, Bytes("\\u00e9"), 0) == Ok(Unit(0xFF, 5))
    ensures Escape(JniPort, Bytes("\\u0141"), 0) == Ok(Unit(0xFF, 5))
    ensures Escape(LegacyPort, Bytes("\\u00e9"), 0) == Ok(Unit(0xE9, 5))
    ensures Escape(LegacyPort, Bytes("\\u0141"), 0) == Ok(Unit('A' as byte, 5))
  {
    NonAsciiDigits();
    var s, t := Bytes("\\u00e9"), Bytes("\\u0141");
    assert s[1] == 'u' as byte && s[2] == '0' as byte && s[3] == '0' as byte && s[4] == 'e' as byte && s[5] == '9' as byte;
    assert t[1] == 'u' as byte && t[2] == '0' as byte && t[3] == '1' as byte && t[4] == '4' as byte && t[5] == '1' as byte;
  }

  /** The two copies decode every escape alike except a `\u` value above 127. */
  lemma PortsAgreeOnAscii(s: seq<byte>, p: nat)
    requires p < |s|
    ensures Escape(JniPort, s, p) != Escape(LegacyPort, s, p) <==>
      p + 5 < |s| && s[p + 1] == 'u' as byte &&
      CombineDigits(s[p + 2], s[p + 3], s[p + 4], s[p + 5]) > 127 &&
      CombineDigits(s[p + 2], s[p + 3], s[p + 4], s[p + 5]) % 0x100 != 0xFF
  {
  }
}
