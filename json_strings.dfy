/** The string comparators of the JSON collator and the unescaper of its slow path:
    `compareStringsASCII`, `compareStringsUnicodeFast`, `createStringFromJSON`,
    `compareBinary` and `compareStringsUnicode`.

    A comparator gets two cursors, each on the opening quote of a JSON string in its own
    memory. It returns an order and, when the strings compare equal, moves both cursors
    one past their closing quotes; otherwise it leaves them where they were. */
module JsonStrings {
  import opened Common
  import opened Escapes
  import opened CharPriority

  /** The two build-dependent choices: which copy of the collator, and whether the
      platform's `char` is signed. */
  datatype Dialect = Dialect(esc: EscapeByte, signedChar: bool)

  /** An order and the cursors after a comparison. */
  datatype StrResult = StrResult(order: int, next1: nat, next2: nat)

  /** The decoded content of a string and the position of its closing quote. */
  datatype Decoded = Decoded(chars: seq<byte>, close: nat)

  /** The character at `i`, which is not the closing quote: a backslash starts an escape
      and anything else stands for itself. */
  function UnitAt(esc: EscapeByte, s: seq<byte>, i: nat): (r: Reading<Unit>)
    requires i < |s|
    ensures r.Overrun? <==> s[i] == BACKSLASH && (i + 1 >= |s| || (s[i + 1] == 'u' as byte && i + 5 >= |s|))
    ensures r.Ok? ==> i <= r.value.last < |s|
    ensures r.Ok? && s[i] == BACKSLASH ==> r.value.last == if s[i + 1] == 'u' as byte then i + 5 else i + 1
    ensures s[i] != BACKSLASH ==> r == Ok(Unit(s[i], i))
  {
    if s[i] == BACKSLASH then EscapeWith(esc, s, i) else Ok(Unit(s[i], i))
  }

  /** The characters from `i` up to the closing quote. */
  function DecodeFrom(esc: EscapeByte, s: seq<byte>, i: nat): (r: Reading<Decoded>)
    ensures r.Ok? ==> i <= r.value.close < |s| && s[r.value.close] == QUOTE
    ensures r.Ok? ==> |r.value.chars| <= r.value.close - i
    decreases |s| - i
  {
    if i >= |s| then Overrun
    else if s[i] == QUOTE then Ok(Decoded([], i))
    else
      match UnitAt(esc, s, i)
      case Overrun => Overrun
      case Ok(u) =>
        match DecodeFrom(esc, s, u.last + 1)
        case Overrun => Overrun
        case Ok(rest) => Ok(Decoded([u.c] + rest.chars, rest.close))
  }

  /** One step of decoding: a string that decodes and does not end at `i` starts with
      the character at `i`. */
  lemma DecodeStep(esc: EscapeByte, s: seq<byte>, i: nat)
    requires i < |s| && s[i] != QUOTE && DecodeFrom(esc, s, i).Ok?
    ensures UnitAt(esc, s, i).Ok? && DecodeFrom(esc, s, UnitAt(esc, s, i).value.last + 1).Ok?
    ensures var u, rest := UnitAt(esc, s, i).value, DecodeFrom(esc, s, UnitAt(esc, s, i).value.last + 1).value;
      var a := DecodeFrom(esc, s, i).value;
      |a.chars| > 0 && a.chars[0] == u.c && a.chars[1..] == rest.chars && a.close == rest.close
  {
  }

  /** A string without escapes decodes to its own bytes. */
  lemma {:induction false} PlainDecodes(esc: EscapeByte, s: seq<byte>, i: nat, j: nat)
    requires i <= j < |s| && s[j] == QUOTE
    requires forall k :: i <= k < j ==> s[k] != QUOTE && s[k] != BACKSLASH
    ensures DecodeFrom(esc, s, i) == Ok(Decoded(s[i..j], j))
    decreases j - i
  {
    if i < j {
      PlainDecodes(esc, s, i + 1, j);
      assert s[i..j] == [s[i]] + s[i + 1..j];
    } else {
      assert s[i..j] == [];
    }
  }

  /** A byte that is neither a quote nor a backslash decodes to itself. */
  lemma PlainByteDecodes(esc: EscapeByte, s: seq<byte>, i: nat)
    requires i < |s| && s[i] != QUOTE && s[i] != BACKSLASH && DecodeFrom(esc, s, i + 1).Ok?
    ensures DecodeFrom(esc, s, i) ==
      Ok(Decoded([s[i]] + DecodeFrom(esc, s, i + 1).value.chars, DecodeFrom(esc, s, i + 1).value.close))
  {
  }

  /** What the string whose opening quote is at `p` decodes to. */
  function Unescape(esc: EscapeByte, s: seq<byte>, p: nat): Reading<Decoded> {
    DecodeFrom(esc, s, p + 1)
  }

  /** What the reader of one string meets from position `i` on, token by token: the end
      of the memory, an escape the end of the memory cuts short, the closing quote, or a
      character (a byte or an escape) followed by the rest. */
  datatype Reads = Cut | EscapeCut | Close(at: nat) | Char(u: Unit, rest: Reads)

  function Tokens(esc: EscapeByte, s: seq<byte>, i: nat): Reads
    decreases |s| - i
  {
    if i >= |s| then Cut
    else if s[i] == QUOTE then Close(i)
    else
      match UnitAt(esc, s, i)
      case Overrun => EscapeCut
      case Ok(u) => Char(u, Tokens(esc, s, u.last + 1))
  }

  /** The reads `r` spell the characters `a` and then the closing quote at `close`. */
  predicate Spells(r: Reads, a: seq<byte>, close: nat)
    decreases |a|
  {
    if |a| == 0 then r == Close(close) else r.Char? && r.u.c == a[0] && Spells(r.rest, a[1..], close)
  }

  /** A string that decodes is read as exactly its decoded characters and its closing
      quote. */
  lemma {:induction false} TokensSpell(esc: EscapeByte, s: seq<byte>, i: nat)
    requires DecodeFrom(esc, s, i).Ok?
    ensures Spells(Tokens(esc, s, i), DecodeFrom(esc, s, i).value.chars, DecodeFrom(esc, s, i).value.close)
    decreases |s| - i
  {
    if s[i] != QUOTE {
      DecodeStep(esc, s, i);
      TokensSpell(esc, s, UnitAt(esc, s, i).value.last + 1);
    }
  }

  // ---------------------------------------------------------------------------
  // compareStringsASCII

  /** The loop of `compareStringsASCII` over the reads of the two strings whose opening
      quotes are at `p1` and `p2`. Each round reads one byte of each string; then the
      closing quotes decide; then the escape of the first string and that of the second
      are read. On equality the cursors move one past the closing quotes, otherwise they
      stay at `p1`, `p2`. */
  function AsciiOn(d: Dialect, r1: Reads, r2: Reads, p1: nat, p2: nat): Reading<StrResult>
    decreases r1
  {
    if r1.Cut? || r2.Cut? then Overrun
    else if r1.Close? then Ok(if r2.Close? then StrResult(0, r1.at + 1, r2.at + 1) else StrResult(-1, p1, p2))
    else if r2.Close? then Ok(StrResult(1, p1, p2))
    else if r1.EscapeCut? || r2.EscapeCut? then Overrun
    else
      var o := Cmp(CharValue(d.signedChar, r1.u.c), CharValue(d.signedChar, r2.u.c));
      if o != 0 then Ok(StrResult(o, p1, p2)) else AsciiOn(d, r1.rest, r2.rest, p1, p2)
  }

  /** `compareStringsASCII` with its cursors on the opening quotes at `p1` and `p2`. */
  function CompareAscii(d: Dialect, s1: seq<byte>, p1: nat, s2: seq<byte>, p2: nat): Reading<StrResult> {
    AsciiOn(d, Tokens(d.esc, s1, p1 + 1), Tokens(d.esc, s2, p2 + 1), p1, p2)
  }

  method CompareStringsAscii(d: Dialect, s1: seq<byte>, p1: nat, s2: seq<byte>, p2: nat)
    returns (r: Reading<StrResult>)
    ensures r == CompareAscii(d, s1, p1, s2, p2)
  {
    ghost var spec := CompareAscii(d, s1, p1, s2, p2);
    var str1: nat, str2: nat := p1, p2;
    while true
      invariant spec == AsciiOn(d, Tokens(d.esc, s1, str1 + 1), Tokens(d.esc, s2, str2 + 1), p1, p2)
      decreases |s1| - str1
    {
      if str1 + 1 >= |s1| || str2 + 1 >= |s2| {
        return Overrun;
      }
      str1, str2 := str1 + 1, str2 + 1;
      var c1, c2 := s1[str1], s2[str2];
      if c1 == QUOTE {
        if c2 == QUOTE {
          break;
        }
        return Ok(StrResult(-1, p1, p2));
      } else if c2 == QUOTE {
        return Ok(StrResult(1, p1, p2));
      }
      var u1 := UnitAt(d.esc, s1, str1);  // a backslash: `c1 = convertEscape(&str1)`
      if u1.Overrun? {
        return Overrun;
      }
      var u2 := UnitAt(d.esc, s2, str2);
      if u2.Overrun? {
        return Overrun;
      }
      c1, str1, c2, str2 := u1.value.c, u1.value.last, u2.value.c, u2.value.last;
      var o := Cmp(CharValue(d.signedChar, c1), CharValue(d.signedChar, c2));
      if o != 0 {
        return Ok(StrResult(o, p1, p2));
      }
    }
    r := Ok(StrResult(0, str1 + 1, str2 + 1));
  }

  /** Reads that spell `a` and `b` compare as the lexicographic order of `a` and `b` by
      `cmp` on `char`s; on equality the cursors pass the closing quotes. */
  lemma {:induction false} AsciiIsLexicographic(d: Dialect, r1: Reads, r2: Reads, p1: nat, p2: nat,
                                                a: seq<byte>, b: seq<byte>, close1: nat, close2: nat)
    requires Spells(r1, a, close1) && Spells(r2, b, close2)
    ensures var o := LexBy(CharKey(d.signedChar), a, b);
      AsciiOn(d, r1, r2, p1, p2) == Ok(if o == 0 then StrResult(0, close1 + 1, close2 + 1) else StrResult(o, p1, p2))
    decreases |a|
  {
    if |a| > 0 && |b| > 0 {
      LexByCons(CharKey(d.signedChar), a, b);
      AsciiIsLexicographic(d, r1.rest, r2.rest, p1, p2, a[1..], b[1..], close1, close2);
    }
  }

  /** Two strings that decode compare by `compareStringsASCII` as their decoded contents
      do lexicographically by `cmp` on `char`s, and on a tie both cursors pass the
      closing quotes. */
  lemma AsciiComparesDecoded(d: Dialect, s1: seq<byte>, p1: nat, s2: seq<byte>, p2: nat)
    requires Unescape(d.esc, s1, p1).Ok? && Unescape(d.esc, s2, p2).Ok?
    ensures var a, b := Unescape(d.esc, s1, p1).value, Unescape(d.esc, s2, p2).value;
      var o := LexBy(CharKey(d.signedChar), a.chars, b.chars);
      CompareAscii(d, s1, p1, s2, p2) == Ok(if o == 0 then StrResult(0, a.close + 1, b.close + 1) else StrResult(o, p1, p2))
  {
    var a, b := Unescape(d.esc, s1, p1).value, Unescape(d.esc, s2, p2).value;
    TokensSpell(d.esc, s1, p1 + 1);
    TokensSpell(d.esc, s2, p2 + 1);
    AsciiIsLexicographic(d, Tokens(d.esc, s1, p1 + 1), Tokens(d.esc, s2, p2 + 1), p1, p2,
                         a.chars, b.chars, a.close, b.close);
  }

  /** A comparison result seen from the other side. */
  function Swapped(r: Reading<StrResult>): Reading<StrResult> {
    match r
    case Overrun => Overrun
    case Ok(x) => Ok(StrResult(-x.order, x.next2, x.next1))
  }

  /** Swapping the two strings negates the byte comparison and swaps the cursors, and
      one order overruns exactly when the other does. */
  lemma {:induction false} AsciiAntisymmetric(d: Dialect, r1: Reads, r2: Reads, p1: nat, p2: nat)
    ensures AsciiOn(d, r2, r1, p2, p1) == Swapped(AsciiOn(d, r1, r2, p1, p2))
    decreases r1
  {
    if r1.Char? && r2.Char? {
      CmpAntisymmetric(CharValue(d.signedChar, r1.u.c), CharValue(d.signedChar, r2.u.c));
      AsciiAntisymmetric(d, r1.rest, r2.rest, p1, p2);
    }
  }

  // ---------------------------------------------------------------------------
  // compareStringsUnicodeFast

  /** What one step of the fast loop decides about two characters: stop with an order,
      or go on with the case-sensitive result remembered so far. */
  datatype Verdict = Stop(order: int) | Go(resultIfEqual: int)

  function FastVerdict(t: Tables, c1: byte, c2: byte, resultIfEqual: int): (v: Verdict)
    requires Sized(t) && -1 <= resultIfEqual <= 1
    ensures v.Stop? ==> (-2 <= v.order <= 1 && v.order != 0)
    ensures v.Go? ==> (-1 <= v.resultIfEqual <= 1)
  {
    if HighBit(c1) || HighBit(c2) then Stop(-2)
    else if Cmp(t.caseInsensitive[c1], t.caseInsensitive[c2]) != 0 then Stop(Cmp(t.caseInsensitive[c1], t.caseInsensitive[c2]))
    else if resultIfEqual == 0 && c1 != c2 then Go(Cmp(t.priority[c1], t.priority[c2]))
    else Go(resultIfEqual)
  }

  /** The loop of `compareStringsUnicodeFast` over the reads of the two strings, with the
      case-sensitive result remembered so far; it reads in the same order as the byte
      loop, and -2 means it met a non-ASCII character and gave up. */
  function FastOn(t: Tables, r1: Reads, r2: Reads, resultIfEqual: int, p1: nat, p2: nat): (r: Reading<StrResult>)
    requires Sized(t) && -1 <= resultIfEqual <= 1
    ensures r.Ok? ==> -2 <= r.value.order <= 1
    decreases r1
  {
    if r1.Cut? || r2.Cut? then Overrun
    else if r1.Close? then
      Ok(if !r2.Close? then StrResult(-1, p1, p2)
         else if resultIfEqual != 0 then StrResult(resultIfEqual, p1, p2)
         else StrResult(0, r1.at + 1, r2.at + 1))
    else if r2.Close? then Ok(StrResult(1, p1, p2))
    else if r1.EscapeCut? || r2.EscapeCut? then Overrun
    else
      match FastVerdict(t, r1.u.c, r2.u.c, resultIfEqual)
      case Stop(o) => Ok(StrResult(o, p1, p2))
      case Go(rie) => FastOn(t, r1.rest, r2.rest, rie, p1, p2)
  }

  /** `compareStringsUnicodeFast` with its cursors on the opening quotes. */
  function CompareFast(esc: EscapeByte, t: Tables, s1: seq<byte>, p1: nat, s2: seq<byte>, p2: nat): Reading<StrResult>
    requires Sized(t)
  {
    FastOn(t, Tokens(esc, s1, p1 + 1), Tokens(esc, s2, p2 + 1), 0, p1, p2)
  }

  method CompareStringsUnicodeFast(esc: EscapeByte, t: Tables, s1: seq<byte>, p1: nat, s2: seq<byte>, p2: nat)
    returns (r: Reading<StrResult>)
    requires Sized(t)
    ensures r == CompareFast(esc, t, s1, p1, s2, p2)
  {
    ghost var spec := CompareFast(esc, t, s1, p1, s2, p2);
    var str1: nat, str2: nat := p1, p2;
    var resultIfEqual := 0;
    while true
      invariant -1 <= resultIfEqual <= 1
      invariant spec == FastOn(t, Tokens(esc, s1, str1 + 1), Tokens(esc, s2, str2 + 1), resultIfEqual, p1, p2)
      decreases |s1| - str1
    {
      if str1 + 1 >= |s1| || str2 + 1 >= |s2| {
        return Overrun;
      }
      str1, str2 := str1 + 1, str2 + 1;
      var c1, c2 := s1[str1], s2[str2];
      if c1 == QUOTE {
        if c2 == QUOTE {
          break;
        }
        return Ok(StrResult(-1, p1, p2));
      } else if c2 == QUOTE {
        return Ok(StrResult(1, p1, p2));
      }
      var u1 := UnitAt(esc, s1, str1);  // a backslash: `c1 = convertEscape(&str1)`
      if u1.Overrun? {
        return Overrun;
      }
      var u2 := UnitAt(esc, s2, str2);
      if u2.Overrun? {
        return Overrun;
      }
      c1, str1, c2, str2 := u1.value.c, u1.value.last, u2.value.c, u2.value.last;
      if HighBit(c1) || HighBit(c2) {
        return Ok(StrResult(-2, p1, p2));
      }
      var o := Cmp(t.caseInsensitive[c1], t.caseInsensitive[c2]);
      if o != 0 {
        return Ok(StrResult(o, p1, p2));
      }
      if resultIfEqual == 0 && c1 != c2 {
        resultIfEqual := Cmp(t.priority[c1], t.priority[c2]);
      }
    }
    if resultIfEqual != 0 {
      return Ok(StrResult(resultIfEqual, p1, p2));
    }
    r := Ok(StrResult(0, str1 + 1, str2 + 1));
  }

  /** A fast comparison result seen from the other side: the order is negated, except
      that giving up (-2) is the same from both sides. */
  function FastSwapped(r: Reading<StrResult>): Reading<StrResult> {
    match r
    case Overrun => Overrun
    case Ok(x) => Ok(StrResult(if x.order == -2 then -2 else -x.order, x.next2, x.next1))
  }

  /** Swapping two characters negates what they decide, except a give-up. */
  lemma VerdictAntisymmetric(t: Tables, c1: byte, c2: byte, resultIfEqual: int)
    requires Sized(t) && -1 <= resultIfEqual <= 1
    ensures var v, w := FastVerdict(t, c1, c2, resultIfEqual), FastVerdict(t, c2, c1, -resultIfEqual);
      (v.Stop? <==> w.Stop?) &&
      (v.Stop? ==> w.order == if v.order == -2 then -2 else -v.order) &&
      (v.Go? ==> w.resultIfEqual == -v.resultIfEqual)
  {
    if !HighBit(c1) && !HighBit(c2) {
      CmpAntisymmetric(t.caseInsensitive[c1], t.caseInsensitive[c2]);
      CmpAntisymmetric(t.priority[c1], t.priority[c2]);
    }
  }

  /** Swapping the two strings negates the fast comparison, except that a give-up on a
      non-ASCII character stays a give-up, at the same pair of characters. */
  lemma {:induction false} FastAntisymmetric(t: Tables, r1: Reads, r2: Reads, resultIfEqual: int, p1: nat, p2: nat)
    requires Sized(t) && -1 <= resultIfEqual <= 1
    ensures FastOn(t, r2, r1, -resultIfEqual, p2, p1) == FastSwapped(FastOn(t, r1, r2, resultIfEqual, p1, p2))
    decreases r1
  {
    if r1.Char? && r2.Char? {
      VerdictAntisymmetric(t, r1.u.c, r2.u.c, resultIfEqual);
      match FastVerdict(t, r1.u.c, r2.u.c, resultIfEqual)
      case Stop(_) =>
      case Go(rie) => FastAntisymmetric(t, r1.rest, r2.rest, rie, p1, p2);
    }
  }

  predicate AllAscii(a: seq<byte>) {
    forall k :: 0 <= k < |a| ==> !HighBit(a[k])
  }

  /** A table read as a key: the entry of an ASCII character. */
  function TableKey(table: seq<int>): byte -> int {
    c => if (c as int) < |table| then table[c] else 0
  }

  /** The fast comparison over two decoded contents, with the case-sensitive result
      remembered so far. */
  function FastOnDecoded(t: Tables, a: seq<byte>, b: seq<byte>, resultIfEqual: int): (r: int)
    requires Sized(t) && -1 <= resultIfEqual <= 1
    ensures -2 <= r <= 1
  {
    if |a| == 0 && |b| == 0 then resultIfEqual
    else if |a| == 0 then -1
    else if |b| == 0 then 1
    else
      match FastVerdict(t, a[0], b[0], resultIfEqual)
      case Stop(o) => o
      case Go(rie) => FastOnDecoded(t, a[1..], b[1..], rie)
  }

  /** Over reads that spell `a` and `b`, the fast loop depends only on `a` and `b`; on
      equality it stops at the closing quotes. */
  lemma {:induction false} FastReadsDecoded(t: Tables, r1: Reads, r2: Reads, resultIfEqual: int, p1: nat, p2: nat,
                                            a: seq<byte>, b: seq<byte>, close1: nat, close2: nat)
    requires Sized(t) && -1 <= resultIfEqual <= 1
    requires Spells(r1, a, close1) && Spells(r2, b, close2)
    ensures var o := FastOnDecoded(t, a, b, resultIfEqual);
      FastOn(t, r1, r2, resultIfEqual, p1, p2) ==
        Ok(if o == 0 then StrResult(0, close1 + 1, close2 + 1) else StrResult(o, p1, p2))
    decreases |a|
  {
    if |a| > 0 && |b| > 0 {
      var v := FastVerdict(t, a[0], b[0], resultIfEqual);
      if v.Go? {
        FastReadsDecoded(t, r1.rest, r2.rest, v.resultIfEqual, p1, p2, a[1..], b[1..], close1, close2);
      }
    }
  }


  /** Over ASCII contents the fast comparison never gives up: the case-insensitive table
      decides first, and only between contents equal under it does the case-sensitive
      entry of the first difference decide. */
  lemma {:induction false} FastIsCaseInsensitiveFirst(t: Tables, a: seq<byte>, b: seq<byte>, resultIfEqual: int)
    requires Sized(t) && -1 <= resultIfEqual <= 1
    requires AllAscii(a) && AllAscii(b)
    ensures var ci := LexBy(TableKey(t.caseInsensitive), a, b);
      FastOnDecoded(t, a, b, resultIfEqual) ==
        if ci != 0 then ci else if resultIfEqual != 0 then resultIfEqual else LexBy(TableKey(t.priority), a, b)
  {
    if |a| > 0 && |b| > 0 {
      AllAsciiTail(a);
      AllAsciiTail(b);
      LexByCons(TableKey(t.caseInsensitive), a, b);
      LexByCons(TableKey(t.priority), a, b);
      var rie := if resultIfEqual == 0 && a[0] != b[0] then Cmp(t.priority[a[0]], t.priority[b[0]])
                 else resultIfEqual;
      FastIsCaseInsensitiveFirst(t, a[1..], b[1..], rie);
    }
  }

  lemma AllAsciiTail(a: seq<byte>)
    requires |a| > 0 && AllAscii(a)
    ensures !HighBit(a[0]) && AllAscii(a[1..])
  {
    assert forall k :: 0 <= k < |a| - 1 ==> a[1..][k] == a[k + 1];
  }

  /** Two keys that agree on every character of two sequences order them alike. */
  lemma {:induction false} LexByAgree(k1: byte -> int, k2: byte -> int, a: seq<byte>, b: seq<byte>)
    requires forall i :: 0 <= i < |a| ==> k1(a[i]) == k2(a[i])
    requires forall i :: 0 <= i < |b| ==> k1(b[i]) == k2(b[i])
    ensures LexBy(k1, a, b) == LexBy(k2, a, b)
  {
    if |a| > 0 && |b| > 0 {
      assert forall i :: 0 <= i < |a| - 1 ==> a[1..][i] == a[i + 1];
      assert forall i :: 0 <= i < |b| - 1 ==> b[1..][i] == b[i + 1];
      LexByAgree(k1, k2, a[1..], b[1..]);
    }
  }

  /** The priority functions as keys for `LexBy`. */
  function PriorityKey(): byte -> int {
    c => Priority(c) as int
  }

  function CaseInsensitiveKey(): byte -> int {
    c => PriorityCaseInsensitive(c) as int
  }

  /** The order `compareStringsUnicodeFast` reports when it does not give up: the
      collation of `kInverseMap` by case-insensitive priority, and case-sensitive
      priority between strings that tie under it. */
  function FastOrder(a: seq<byte>, b: seq<byte>): int {
    if LexBy(CaseInsensitiveKey(), a, b) != 0 then LexBy(CaseInsensitiveKey(), a, b)
    else LexBy(PriorityKey(), a, b)
  }

  /** With the tables built, the fast comparison of two ASCII strings is `FastOrder` of
      their decoded contents, and on a tie both cursors pass the closing quotes. */
  lemma FastFollowsPriorities(esc: EscapeByte, t: Tables, s1: seq<byte>, p1: nat, s2: seq<byte>, p2: nat)
    requires Initialized(t)
    requires Unescape(esc, s1, p1).Ok? && Unescape(esc, s2, p2).Ok?
    requires AllAscii(Unescape(esc, s1, p1).value.chars) && AllAscii(Unescape(esc, s2, p2).value.chars)
    ensures var a, b := Unescape(esc, s1, p1).value, Unescape(esc, s2, p2).value;
      CompareFast(esc, t, s1, p1, s2, p2) ==
        Ok(if FastOrder(a.chars, b.chars) == 0 then StrResult(0, a.close + 1, b.close + 1)
           else StrResult(FastOrder(a.chars, b.chars), p1, p2))
  {
    var a, b := Unescape(esc, s1, p1).value, Unescape(esc, s2, p2).value;
    TokensSpell(esc, s1, p1 + 1);
    TokensSpell(esc, s2, p2 + 1);
    FastReadsDecoded(t, Tokens(esc, s1, p1 + 1), Tokens(esc, s2, p2 + 1), 0, p1, p2, a.chars, b.chars, a.close, b.close);
    FastOnTables(t, a.chars, b.chars);
  }

  /** With the tables built, the fast order of two ASCII strings is `FastOrder`. */
  lemma FastOnTables(t: Tables, a: seq<byte>, b: seq<byte>)
    requires Initialized(t) && AllAscii(a) && AllAscii(b)
    ensures FastOnDecoded(t, a, b, 0) == FastOrder(a, b)
  {
    FastIsCaseInsensitiveFirst(t, a, b, 0);
    TableKeysAgree(t, a);
    TableKeysAgree(t, b);
    LexByAgree(TableKey(t.caseInsensitive), CaseInsensitiveKey(), a, b);
    LexByAgree(TableKey(t.priority), PriorityKey(), a, b);
  }

  /** On ASCII characters the built tables give the priority functions' values. */
  lemma TableKeysAgree(t: Tables, a: seq<byte>)
    requires Initialized(t) && AllAscii(a)
    ensures forall i :: 0 <= i < |a| ==> TableKey(t.caseInsensitive)(a[i]) == CaseInsensitiveKey()(a[i])
    ensures forall i :: 0 <= i < |a| ==> TableKey(t.priority)(a[i]) == PriorityKey()(a[i])
  {
    forall i | 0 <= i < |a|
      ensures TableKey(t.caseInsensitive)(a[i]) == CaseInsensitiveKey()(a[i])
      ensures TableKey(t.priority)(a[i]) == PriorityKey()(a[i])
    {
      assert !HighBit(a[i]);
    }
  }

  // ---------------------------------------------------------------------------
  // createStringFromJSON

  /** What the first loop of `createStringFromJSON` finds: the closing quote and the
      number of bytes the escapes save (one per short escape, five per `\u` escape). */
  datatype Extent = Extent(close: nat, escapes: nat)

  /** The first loop of `createStringFromJSON` from position `i`. It reads the byte
      after a backslash but skips the four digits of a `\u` escape unread. */
  function ScanFrom(s: seq<byte>, i: nat): (r: Reading<Extent>)
    ensures r.Ok? ==> i <= r.value.close < |s|
    decreases |s| - i
  {
    if i >= |s| then Overrun
    else if s[i] == QUOTE then Ok(Extent(i, 0))
    else if s[i] == BACKSLASH then
      if i + 1 >= |s| then Overrun
      else if s[i + 1] == 'u' as byte then
        match ScanFrom(s, i + 6)
        case Overrun => Overrun
        case Ok(e) => Ok(Extent(e.close, e.escapes + 5))
      else
        match ScanFrom(s, i + 2)
        case Overrun => Overrun
        case Ok(e) => Ok(Extent(e.close, e.escapes + 1))
    else ScanFrom(s, i + 1)
  }

  /** The first loop finds the closing quote exactly when decoding does, and the span
      less the escapes' savings is the decoded length, so the buffer it allocates fits. */
  lemma {:induction false} ScanMatchesDecode(esc: EscapeByte, s: seq<byte>, i: nat)
    ensures ScanFrom(s, i).Ok? <==> DecodeFrom(esc, s, i).Ok?
    ensures ScanFrom(s, i).Ok? ==>
      ScanFrom(s, i).value.close == DecodeFrom(esc, s, i).value.close &&
      ScanFrom(s, i).value.escapes <= ScanFrom(s, i).value.close - i &&
      |DecodeFrom(esc, s, i).value.chars| == ScanFrom(s, i).value.close - i - ScanFrom(s, i).value.escapes
    decreases |s| - i
  {
    if i < |s| && s[i] != QUOTE {
      ScanStep(s, i);
      DecodeSkip(esc, s, i);
      ScanMatchesDecode(esc, s, ScanNext(s, i));
    }
  }

  /** Where the first loop goes next from a byte that is not the closing quote. */
  function ScanNext(s: seq<byte>, i: nat): nat
    requires i < |s|
  {
    if s[i] != BACKSLASH then i + 1 else if i + 1 < |s| && s[i + 1] == 'u' as byte then i + 6 else i + 2
  }

  /** One step of the first loop. */
  lemma ScanStep(s: seq<byte>, i: nat)
    requires i < |s| && s[i] != QUOTE
    ensures var saved := if s[i] != BACKSLASH then 0 else if ScanNext(s, i) == i + 6 then 5 else 1;
      (ScanFrom(s, i).Overrun? <==> (s[i] == BACKSLASH && i + 1 >= |s|) || ScanFrom(s, ScanNext(s, i)).Overrun?) &&
      (ScanFrom(s, i).Ok? ==> ScanFrom(s, i).value == Extent(ScanFrom(s, ScanNext(s, i)).value.close, ScanFrom(s, ScanNext(s, i)).value.escapes + saved))
  {
  }

  /** One step of the decoder covers the same bytes as one step of the first loop. */
  lemma DecodeSkip(esc: EscapeByte, s: seq<byte>, i: nat)
    requires i < |s| && s[i] != QUOTE
    ensures UnitAt(esc, s, i).Ok? ==> UnitAt(esc, s, i).value.last + 1 == ScanNext(s, i)
    ensures DecodeFrom(esc, s, i).Overrun? <==> UnitAt(esc, s, i).Overrun? || DecodeFrom(esc, s, ScanNext(s, i)).Overrun?
    ensures DecodeFrom(esc, s, i).Ok? ==>
      |DecodeFrom(esc, s, i).value.chars| == |DecodeFrom(esc, s, ScanNext(s, i)).value.chars| + 1
    ensures DecodeFrom(esc, s, i).Ok? ==>
      DecodeFrom(esc, s, i).value.close == DecodeFrom(esc, s, ScanNext(s, i)).value.close
  {
  }

  /** The first loop of `createStringFromJSON`: it finds the closing quote and counts
      what the escapes save. */
  method MeasureString(s: seq<byte>, start: nat) returns (overrun: bool, close: nat, escapes: nat)
    ensures overrun <==> ScanFrom(s, start).Overrun?
    ensures !overrun ==> ScanFrom(s, start) == Ok(Extent(close, escapes))
  {
    escapes := 0;
    var str := start;
    while true
      invariant start <= str
      invariant ScanFrom(s, start).Ok? <==> ScanFrom(s, str).Ok?
      invariant ScanFrom(s, start).Ok? ==>
        ScanFrom(s, start).value == Extent(ScanFrom(s, str).value.close, ScanFrom(s, str).value.escapes + escapes)
      decreases |s| - str
    {
      if str >= |s| {
        return true, 0, 0;
      }
      if s[str] == QUOTE {
        break;
      }
      if s[str] == BACKSLASH {
        str := str + 1;
        if str >= |s| {
          return true, 0, 0;
        }
        if s[str] == 'u' as byte {
          escapes := escapes + 5;
          str := str + 4;
        } else {
          escapes := escapes + 1;
        }
      }
      str := str + 1;
    }
    overrun, close := false, str;
  }

  /** The second loop of `createStringFromJSON`: it writes the decoded characters from
      `start` on into `buf`, and the NUL after them. */
  method CopyString(esc: EscapeByte, s: seq<byte>, start: nat, buf: array<byte>)
    requires DecodeFrom(esc, s, start).Ok?
    requires buf.Length == |DecodeFrom(esc, s, start).value.chars| + 1
    modifies buf
    ensures buf[..] == DecodeFrom(esc, s, start).value.chars + [NUL]
  {
    ghost var whole := DecodeFrom(esc, s, start).value.chars;
    ghost var close := DecodeFrom(esc, s, start).value.close;
    var dst := 0;
    var str := start;
    while true
      invariant 0 <= dst <= |whole|
      invariant DecodeFrom(esc, s, str) == Ok(Decoded(whole[dst..], close))
      invariant buf[..dst] == whole[..dst]
      decreases |s| - str
    {
      if s[str] == QUOTE {
        break;
      }
      DecodeStep(esc, s, str);
      var u := UnitAt(esc, s, str).value;  // a backslash: `c = convertEscape(&str)`
      buf[dst] := u.c;
      dst := dst + 1;
      str := u.last + 1;
    }
    buf[dst] := NUL;
    assert buf[..] == buf[..dst] + [NUL];
  }

  /** `createStringFromJSON` with its cursor on the opening quote at `p`: a fresh buffer
      holding the decoded characters and a NUL, and the cursor one past the closing quote. */
  method CreateStringFromJson(esc: EscapeByte, s: seq<byte>, p: nat) returns (overrun: bool, buf: array<byte>, next: nat)
    ensures overrun <==> Unescape(esc, s, p).Overrun?
    ensures !overrun ==> fresh(buf)
    ensures !overrun ==> buf[..] == Unescape(esc, s, p).value.chars + [NUL]
    ensures !overrun ==> next == Unescape(esc, s, p).value.close + 1
  {
    buf := new byte[0];
    next := 0;
    ScanMatchesDecode(esc, s, p + 1);
    var close, escapes;
    overrun, close, escapes := MeasureString(s, p + 1);
    if overrun {
      return;
    }
    next := close + 1;
    var length := close - (p + 1) - escapes;
    buf := new byte[length + 1];
    CopyString(esc, s, p + 1, buf);
  }

  // ---------------------------------------------------------------------------
  // compareBinary and compareStringsUnicode

  /** The C string a NUL-terminated buffer holds: the bytes before its first NUL. */
  function CString(a: seq<byte>): (r: seq<byte>)
    ensures |r| <= |a| && r == a[..|r|] && NUL !in r
    ensures |r| < |a| ==> a[|r|] == NUL
  {
    if |a| == 0 || a[0] == NUL then [] else [a[0]] + CString(a[1..])
  }

  /** `strcmp` by its sign: the C strings compared bytewise as unsigned. */
  function Strcmp(a: seq<byte>, b: seq<byte>): int {
    LexBy(CharKey(false), CString(a), CString(b))
  }

  /** `compareBinary`: a missing buffer sorts first. */
  function CompareBinary(a: Option<seq<byte>>, b: Option<seq<byte>>): (r: int)
    ensures -1 <= r <= 1
    ensures a.None? && b.None? ==> r == 0
    ensures a.Some? && b.None? ==> r == 1
    ensures a.None? && b.Some? ==> r == -1
    ensures a.Some? && b.Some? ==> (r == 0 <==> CString(a.value) == CString(b.value))
  {
    match (a, b)
    case (None, None) => 0
    case (Some(_), None) => 1
    case (None, Some(_)) => -1
    case (Some(x), Some(y)) =>
      LexByZero(CharKey(false), CString(x), CString(y));
      Strcmp(x, y)
  }

  lemma CompareBinaryAntisymmetric(a: Option<seq<byte>>, b: Option<seq<byte>>)
    ensures CompareBinary(b, a) == -CompareBinary(a, b)
  {
    if a.Some? && b.Some? {
      LexByAntisymmetric(CharKey(false), CString(a.value), CString(b.value));
    }
  }

  /** `compareStringsUnicode`: the fast comparison, and when it gives up, the locale
      compare `uca` on the two unescaped C strings, after which the cursors are one past
      the closing quotes whatever the order. */
  function CompareUnicode(esc: EscapeByte, t: Tables, uca: (seq<byte>, seq<byte>) -> int,
                          s1: seq<byte>, p1: nat, s2: seq<byte>, p2: nat): (r: Reading<StrResult>)
    requires Sized(t)
  {
    match CompareFast(esc, t, s1, p1, s2, p2)
    case Overrun => Overrun
    case Ok(f) =>
      if f.order > -2 then Ok(f)
      else
        match Unescape(esc, s1, p1)
        case Overrun => Overrun
        case Ok(a) =>
          match Unescape(esc, s2, p2)
          case Overrun => Overrun
          case Ok(b) => Ok(StrResult(uca(CString(a.chars + [NUL]), CString(b.chars + [NUL])), a.close + 1, b.close + 1))
  }

  method CompareStringsUnicode(esc: EscapeByte, t: Tables, uca: (seq<byte>, seq<byte>) -> int,
                               s1: seq<byte>, p1: nat, s2: seq<byte>, p2: nat) returns (r: Reading<StrResult>)
    requires Sized(t)
    ensures r == CompareUnicode(esc, t, uca, s1, p1, s2, p2)
  {
    r := CompareStringsUnicodeFast(esc, t, s1, p1, s2, p2);
    if r.Overrun? || r.value.order > -2 {
      return;
    }
    var overrun1, str1, next1 := CreateStringFromJson(esc, s1, p1);
    if overrun1 {
      return Overrun;
    }
    var overrun2, str2, next2 := CreateStringFromJson(esc, s2, p2);
    if overrun2 {
      return Overrun;
    }
    r := Ok(StrResult(uca(CString(str1[..]), CString(str2[..])), next1, next2));
  }

  /** Over two ASCII strings that decode, the Unicode comparison never reaches the
      locale compare: it is `FastOrder` of their decoded contents. */
  lemma UnicodeOnAscii(esc: EscapeByte, t: Tables, uca: (seq<byte>, seq<byte>) -> int,
                       s1: seq<byte>, p1: nat, s2: seq<byte>, p2: nat)
    requires Initialized(t)
    requires Unescape(esc, s1, p1).Ok? && Unescape(esc, s2, p2).Ok?
    requires AllAscii(Unescape(esc, s1, p1).value.chars) && AllAscii(Unescape(esc, s2, p2).value.chars)
    ensures CompareUnicode(esc, t, uca, s1, p1, s2, p2) == CompareFast(esc, t, s1, p1, s2, p2)
    ensures CompareUnicode(esc, t, uca, s1, p1, s2, p2).Ok?
    ensures -1 <= CompareUnicode(esc, t, uca, s1, p1, s2, p2).value.order <= 1
  {
    FastFollowsPriorities(esc, t, s1, p1, s2, p2);
  }

  /** When the fast comparison gives up, the locale compare decides, on the unescaped
      C strings, and both cursors pass the closing quotes. */
  lemma UnicodeFallsBack(esc: EscapeByte, t: Tables, uca: (seq<byte>, seq<byte>) -> int,
                         s1: seq<byte>, p1: nat, s2: seq<byte>, p2: nat)
    requires Sized(t)
    requires CompareFast(esc, t, s1, p1, s2, p2) == Ok(StrResult(-2, p1, p2))
    requires Unescape(esc, s1, p1).Ok? && Unescape(esc, s2, p2).Ok?
    ensures var a, b := Unescape(esc, s1, p1).value, Unescape(esc, s2, p2).value;
      CompareUnicode(esc, t, uca, s1, p1, s2, p2) ==
        Ok(StrResult(uca(CString(a.chars), CString(b.chars)), a.close + 1, b.close + 1))
  {
    var a, b := Unescape(esc, s1, p1).value, Unescape(esc, s2, p2).value;
    CStringOfTerminated(a.chars);
    CStringOfTerminated(b.chars);
  }

  lemma {:induction false} CStringOfTerminated(a: seq<byte>)
    ensures CString(a + [NUL]) == CString(a)
  {
    if |a| > 0 && a[0] != NUL {
      assert (a + [NUL])[1..] == a[1..] + [NUL];
      CStringOfTerminated(a[1..]);
    }
  }

  /** A locale compare that is antisymmetric on all pairs of C strings. */
  ghost predicate Antisymmetric(uca: (seq<byte>, seq<byte>) -> int) {
    forall x, y :: uca(x, y) == -uca(y, x)
  }

  /** With an antisymmetric locale compare, swapping the two strings negates the Unicode
      comparison and swaps the cursors, and one order overruns exactly when the other
      does. */
  lemma UnicodeAntisymmetric(esc: EscapeByte, t: Tables, uca: (seq<byte>, seq<byte>) -> int,
                             s1: seq<byte>, p1: nat, s2: seq<byte>, p2: nat)
    requires Sized(t) && Antisymmetric(uca)
    ensures CompareUnicode(esc, t, uca, s2, p2, s1, p1) == Swapped(CompareUnicode(esc, t, uca, s1, p1, s2, p2))
  {
    FastAntisymmetric(t, Tokens(esc, s1, p1 + 1), Tokens(esc, s2, p2 + 1), 0, p1, p2);
  }

  // ---------------------------------------------------------------------------
  // How far a comparison moves the cursors

  /** Every closing quote the reads `r` meet lies at or after `i`. */
  predicate ClosesFrom(r: Reads, i: nat)
    decreases r
  {
    match r
    case Close(at) => at >= i
    case Char(_, rest) => ClosesFrom(rest, i)
    case _ => true
  }

  lemma {:induction false} ClosesFromWeaken(r: Reads, i: nat, j: nat)
    requires ClosesFrom(r, i) && j <= i
    ensures ClosesFrom(r, j)
    decreases r
  {
    if r.Char? {
      ClosesFromWeaken(r.rest, i, j);
    }
  }

  lemma {:induction false} TokensCloseFrom(esc: EscapeByte, s: seq<byte>, i: nat)
    ensures ClosesFrom(Tokens(esc, s, i), i)
    decreases |s| - i
  {
    if i < |s| && s[i] != QUOTE && UnitAt(esc, s, i).Ok? {
      var next := UnitAt(esc, s, i).value.last + 1;
      TokensCloseFrom(esc, s, next);
      ClosesFromWeaken(Tokens(esc, s, next), next, i);
    }
  }

  /** The byte loop reports equality only at closing quotes after the ones it started at. */
  lemma {:induction false} AsciiAdvances(d: Dialect, r1: Reads, r2: Reads, p1: nat, p2: nat, i1: nat, i2: nat)
    requires ClosesFrom(r1, i1) && ClosesFrom(r2, i2)
    ensures AsciiOn(d, r1, r2, p1, p2).Ok? && AsciiOn(d, r1, r2, p1, p2).value.order == 0 ==>
      AsciiOn(d, r1, r2, p1, p2).value.next1 > i1 && AsciiOn(d, r1, r2, p1, p2).value.next2 > i2
    decreases r1
  {
    if r1.Char? && r2.Char? {
      AsciiAdvances(d, r1.rest, r2.rest, p1, p2, i1, i2);
    }
  }

  lemma {:induction false} FastAdvances(t: Tables, r1: Reads, r2: Reads, resultIfEqual: int, p1: nat, p2: nat, i1: nat, i2: nat)
    requires Sized(t) && -1 <= resultIfEqual <= 1
    requires ClosesFrom(r1, i1) && ClosesFrom(r2, i2)
    ensures FastOn(t, r1, r2, resultIfEqual, p1, p2).Ok? && FastOn(t, r1, r2, resultIfEqual, p1, p2).value.order == 0 ==>
      FastOn(t, r1, r2, resultIfEqual, p1, p2).value.next1 > i1 && FastOn(t, r1, r2, resultIfEqual, p1, p2).value.next2 > i2
    decreases r1
  {
    if r1.Char? && r2.Char? {
      var v := FastVerdict(t, r1.u.c, r2.u.c, resultIfEqual);
      if v.Go? {
        FastAdvances(t, r1.rest, r2.rest, v.resultIfEqual, p1, p2, i1, i2);
      }
    }
  }

  /** A string comparison that ties moves both cursors past the opening quotes, so the
      collator never stays in place after one. */
  lemma StringsAdvance(d: Dialect, t: Tables, uca: (seq<byte>, seq<byte>) -> int,
                       s1: seq<byte>, p1: nat, s2: seq<byte>, p2: nat)
    requires Sized(t)
    ensures var r := CompareAscii(d, s1, p1, s2, p2);
      r.Ok? && r.value.order == 0 ==> r.value.next1 > p1 && r.value.next2 > p2
    ensures var r := CompareUnicode(d.esc, t, uca, s1, p1, s2, p2);
      r.Ok? && r.value.order == 0 ==> r.value.next1 > p1 && r.value.next2 > p2
  {
    TokensCloseFrom(d.esc, s1, p1 + 1);
    TokensCloseFrom(d.esc, s2, p2 + 1);
    AsciiAdvances(d, Tokens(d.esc, s1, p1 + 1), Tokens(d.esc, s2, p2 + 1), p1, p2, p1 + 1, p2 + 1);
    FastAdvances(t, Tokens(d.esc, s1, p1 + 1), Tokens(d.esc, s2, p2 + 1), 0, p1, p2, p1 + 1, p2 + 1);
  }
}
