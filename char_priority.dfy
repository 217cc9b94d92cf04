/** The character-priority tables of the Unicode fast path.

    `initializeCharPriorityMap` fills two 128-entry static tables: `kCharPriority` gives
    each ASCII character listed in `kInverseMap` its 1-based position in that list, and
    `kCharPriorityCaseInsensitive` is a copy in which every lowercase letter takes the
    priority of its uppercase letter. The comparators read the finished tables, which the
    model gives as the functions `Priority` and `PriorityCaseInsensitive`. */
module CharPriority {
  import opened Common

  /** `kInverseMap`, in four pieces: punctuation, digits, a..m and n..z. */
  const Punctuation: seq<byte> := Bytes("\t\n\r `^_-,;:!?.'\"()[]{}@*/\\&#%+<=>|~$")
  const Digits: seq<byte> := Bytes("0123456789")
  const LettersAM: seq<byte> := Bytes("aAbBcCdDeEfFgGhHiIjJkKlLmM")
  const LettersNZ: seq<byte> := Bytes("nNoOpPqQrRsStTuUvVwWxXyYzZ")
  const kInverseMap: seq<byte> := Punctuation + Digits + LettersAM + LettersNZ

  /** The position (from 1) of the last occurrence of `c` among the first `n`
      entries of `m`, or 0: what table entry `c` holds after a loop has stored
      1, 2, ..., n at m[0], m[1], ..., m[n - 1] in a zeroed table. */
  function PriorityAfter(m: seq<byte>, n: nat, c: byte): nat
    requires n <= |m|
  {
    if n == 0 then 0
    else if m[n - 1] == c then n
    else PriorityAfter(m, n - 1, c)
  }

  /** `kCharPriority[c]` once the table is built. */
  function Priority(c: byte): nat {
    PriorityAfter(kInverseMap, |kInverseMap|, c)
  }

  predicate IsLower(c: byte) {
    'a' as byte <= c <= 'z' as byte
  }

  /** `kCharPriorityCaseInsensitive[c]` once the table is built. */
  function PriorityCaseInsensitive(c: byte): nat {
    if IsLower(c) then Priority(c - 32) else Priority(c)
  }

  /** The tables `kCharPriority` and `kCharPriorityCaseInsensitive`, indexed by ASCII code,
      as the string comparators read them. */
  datatype Tables = Tables(priority: seq<int>, caseInsensitive: seq<int>)

  predicate Sized(t: Tables) {
    |t.priority| == 128 && |t.caseInsensitive| == 128
  }

  /** The tables hold what `initializeCharPriorityMap` computes into zeroed storage. */
  predicate Initialized(t: Tables) {
    Sized(t) &&
    (forall c: byte :: c < 128 ==> t.priority[c] == Priority(c)) &&
    (forall c: byte :: c < 128 ==> t.caseInsensitive[c] == PriorityCaseInsensitive(c))
  }

  /** The tables as `initializeCharPriorityMap` leaves zeroed static storage. */
  function BuiltTables(): (t: Tables)
    ensures Initialized(t)
  {
    Tables(seq(128, i requires 0 <= i < 128 => Priority(i as byte) as int),
           seq(128, i requires 0 <= i < 128 => PriorityCaseInsensitive(i as byte) as int))
  }

  /** Built tables are unique: any tables that hold what the initialization computes are
      `BuiltTables()`. */
  lemma InitializedIsBuilt(t: Tables)
    requires Initialized(t)
    ensures t == BuiltTables()
  {
    var b := BuiltTables();
    forall i | 0 <= i < 128
      ensures t.priority[i] == b.priority[i] && t.caseInsensitive[i] == b.caseInsensitive[i]
    {
      var c := i as byte;
      assert t.priority[c] == Priority(c) && t.caseInsensitive[c] == PriorityCaseInsensitive(c);
    }
    assert t.priority == b.priority && t.caseInsensitive == b.caseInsensitive;
  }

  /** The first loop of `initializeCharPriorityMap`: store 1, 2, 3, ... at the entries
      of the characters of `m`, in order. */
  method NumberCharacters(table: array<int>, m: seq<byte>)
    requires table.Length == 128
    requires forall i :: 0 <= i < |m| ==> m[i] < 128
    requires |m| < 0xFF  // `priority` is an unsigned char
    modifies table
    ensures forall c: byte :: c < 128 ==>
      table[c] == if PriorityAfter(m, |m|, c) > 0 then PriorityAfter(m, |m|, c) else old(table[c])
  {
    var priority := 1;
    var i := 0;
    while i < |m|
      invariant 0 <= i <= |m| && priority == i + 1
      invariant forall c: byte :: c < 128 && PriorityAfter(m, i, c) > 0 ==> table[c] == PriorityAfter(m, i, c)
      invariant forall c: byte :: c < 128 && PriorityAfter(m, i, c) == 0 ==> table[c] == old(table[c])
    {
      table[m[i]] := priority;
      priority := (priority + 1) % 0x100;
      i := i + 1;
    }
  }

  /** `initializeCharPriorityMap`. Entries of characters that `kInverseMap` does not
      list keep their previous value, which for the static tables is zero. */
  method InitializeCharPriorityMap(kCharPriority: array<int>, kCharPriorityCaseInsensitive: array<int>)
    requires kCharPriority.Length == 128 && kCharPriorityCaseInsensitive.Length == 128
    requires kCharPriority != kCharPriorityCaseInsensitive
    modifies kCharPriority, kCharPriorityCaseInsensitive
    ensures forall c: byte :: c < 128 ==>
      kCharPriority[c] == if Priority(c) > 0 then Priority(c) else old(kCharPriority[c])
    ensures forall c: byte :: c < 128 ==>
      kCharPriorityCaseInsensitive[c] == if IsLower(c) then kCharPriority[c - 32] else kCharPriority[c]
    ensures (forall c :: 0 <= c < 128 ==> old(kCharPriority[c]) == 0) ==>
      Initialized(Tables(kCharPriority[..], kCharPriorityCaseInsensitive[..]))
  {
    InverseMapAscii();
    NumberCharacters(kCharPriority, kInverseMap);
    forall c | 0 <= c < 128 {
      kCharPriorityCaseInsensitive[c] := kCharPriority[c];  // memcpy
    }
    ghost var built := kCharPriority[..];
    var c: byte := 'a' as byte;
    while c <= 'z' as byte
      invariant 'a' as byte <= c <= 'z' as byte + 1
      invariant kCharPriority[..] == built
      invariant forall k: byte :: k < 128 && !('a' as byte <= k < c) ==> kCharPriorityCaseInsensitive[k] == kCharPriority[k]
      invariant forall k: byte :: 'a' as byte <= k < c ==> kCharPriorityCaseInsensitive[k] == kCharPriority[k - 32]
    {
      kCharPriorityCaseInsensitive[c] := kCharPriority[c - 32];  // toupper(c)
      c := c + 1;
    }
  }

  predicate IsLetter(c: byte) {
    'a' as byte <= c <= 'z' as byte || 'A' as byte <= c <= 'Z' as byte
  }

  lemma PunctuationShape()
    ensures |Punctuation| == 36
    ensures forall i :: 0 <= i < 36 ==>
      Punctuation[i] < 128 && !IsDigit(Punctuation[i]) && !IsLetter(Punctuation[i])
  {
  }

  lemma DigitsShape()
    ensures |Digits| == 10
    ensures forall i :: 0 <= i < 10 ==> Digits[i] as int == '0' as int + i
  {
  }

  lemma LettersAMShape()
    ensures |LettersAM| == 26
    ensures forall k :: 0 <= k < 13 ==> LettersAM[2 * k] as int == 'a' as int + k
    ensures forall k :: 0 <= k < 13 ==> LettersAM[2 * k + 1] as int == 'A' as int + k
  {
  }

  lemma LettersNZShape()
    ensures |LettersNZ| == 26
    ensures forall k :: 0 <= k < 13 ==> LettersNZ[2 * k] as int == 'n' as int + k
    ensures forall k :: 0 <= k < 13 ==> LettersNZ[2 * k + 1] as int == 'N' as int + k
  {
  }

  lemma InverseMapAscii()
    ensures |kInverseMap| == 98
    ensures forall i :: 0 <= i < |kInverseMap| ==> kInverseMap[i] < 128
  {
    InverseMapShape();
  }

  /** Position `i` of `kInverseMap` holds, for the letters, lowercase and uppercase in turn. */
  lemma InverseMapShape()
    ensures |kInverseMap| == 98
    ensures forall i :: 0 <= i < 36 ==> kInverseMap[i] == Punctuation[i]
    ensures forall i :: 36 <= i < 46 ==> kInverseMap[i] as int == '0' as int + (i - 36)
    ensures forall i :: 46 <= i < 98 ==>
      kInverseMap[i] as int == 'a' as int + (i - 46) / 2 - 32 * ((i - 46) % 2)
    ensures forall i :: 0 <= i < |kInverseMap| ==> kInverseMap[i] < 128
  {
    PunctuationShape();
    DigitsShape();
    LettersAMShape();
    LettersNZShape();
    ShapeOfPieces(Punctuation, Digits, LettersAM, LettersNZ);
  }

  lemma ShapeOfPieces(p: seq<byte>, d: seq<byte>, am: seq<byte>, nz: seq<byte>)
    requires |p| == 36 && |d| == 10 && |am| == 26 && |nz| == 26
    requires forall i :: 0 <= i < 36 ==> p[i] < 128
    requires forall i :: 0 <= i < 10 ==> d[i] as int == '0' as int + i
    requires forall k :: 0 <= k < 13 ==> am[2 * k] as int == 'a' as int + k
    requires forall k :: 0 <= k < 13 ==> am[2 * k + 1] as int == 'A' as int + k
    requires forall k :: 0 <= k < 13 ==> nz[2 * k] as int == 'n' as int + k
    requires forall k :: 0 <= k < 13 ==> nz[2 * k + 1] as int == 'N' as int + k
    ensures var m := p + d + am + nz;
      |m| == 98 &&
      (forall i :: 0 <= i < 36 ==> m[i] == p[i]) &&
      (forall i :: 36 <= i < 46 ==> m[i] as int == '0' as int + (i - 36)) &&
      (forall i :: 46 <= i < 98 ==> m[i] as int == 'a' as int + (i - 46) / 2 - 32 * ((i - 46) % 2)) &&
      (forall i :: 0 <= i < |m| ==> m[i] < 128)
  {
    var m := p + d + am + nz;
    forall i | 46 <= i < 98
      ensures m[i] as int == 'a' as int + (i - 46) / 2 - 32 * ((i - 46) % 2)
    {
      var j := if i < 72 then i - 46 else i - 72;
      var k, odd := j / 2, j % 2;
      assert j == 2 * k + odd && 0 <= odd <= 1;
      assert i - 46 == 2 * (if i < 72 then k else k + 13) + odd;
      assert (i - 46) / 2 == (if i < 72 then k else k + 13) && (i - 46) % 2 == odd;
      var piece := if i < 72 then am else nz;
      assert m[i] == piece[j];
      if odd == 0 {
        assert piece[j] == piece[2 * k];
      } else {
        assert piece[j] == piece[2 * k + 1];
      }
    }
  }

  /** The punctuation characters are pairwise distinct, checked six rows at a time. */
  lemma PunctuationDistinct0()
    ensures forall i, j :: 0 <= i < 6 && i < j < 36 ==> Punctuation[i] != Punctuation[j]
  {
  }

  lemma PunctuationDistinct1()
    ensures forall i, j :: 6 <= i < 12 && i < j < 36 ==> Punctuation[i] != Punctuation[j]
  {
  }

  lemma PunctuationDistinct2()
    ensures forall i, j :: 12 <= i < 18 && i < j < 36 ==> Punctuation[i] != Punctuation[j]
  {
  }

  lemma PunctuationDistinct3()
    ensures forall i, j :: 18 <= i < 24 && i < j < 36 ==> Punctuation[i] != Punctuation[j]
  {
  }

  lemma PunctuationDistinct4()
    ensures forall i, j :: 24 <= i < 30 && i < j < 36 ==> Punctuation[i] != Punctuation[j]
  {
  }

  lemma PunctuationDistinct5()
    ensures forall i, j :: 30 <= i < 36 && i < j < 36 ==> Punctuation[i] != Punctuation[j]
  {
  }

  /** A list laid out like `kInverseMap` lists no character twice. */
  lemma DistinctByShape(m: seq<byte>)
    requires |m| == 98
    requires forall i, j :: 0 <= i < j < 36 ==> m[i] != m[j]
    requires forall i :: 0 <= i < 36 ==> !IsDigit(m[i]) && !IsLetter(m[i])
    requires forall i :: 36 <= i < 46 ==> m[i] as int == '0' as int + (i - 36)
    requires forall i :: 46 <= i < 98 ==>
      m[i] as int == 'a' as int + (i - 46) / 2 - 32 * ((i - 46) % 2)
    ensures forall i, j :: 0 <= i < j < |m| ==> m[i] != m[j]
  {
    forall i, j | 0 <= i < j < 98
      ensures m[i] != m[j]
    {
      if j < 36 {
      } else if i < 36 {
        assert IsDigit(m[j]) || IsLetter(m[j]);
      } else if i < 46 && 46 <= j {
        assert IsLetter(m[j]);
      }
    }
  }

  /** No character is listed twice, so no store of the first loop is overwritten. */
  lemma InverseMapDistinct()
    ensures forall i, j :: 0 <= i < j < |kInverseMap| ==> kInverseMap[i] != kInverseMap[j]
  {
    InverseMapShape();
    PunctuationShape();
    PunctuationDistinct0();
    PunctuationDistinct1();
    PunctuationDistinct2();
    PunctuationDistinct3();
    PunctuationDistinct4();
    PunctuationDistinct5();
    DistinctByShape(kInverseMap);
  }

  lemma {:induction false} PriorityAfterListed(m: seq<byte>, n: nat, i: nat)
    requires i < n <= |m|
    requires forall a, b :: 0 <= a < b < |m| ==> m[a] != m[b]
    ensures PriorityAfter(m, n, m[i]) == i + 1
  {
    if i < n - 1 {
      PriorityAfterListed(m, n - 1, i);
    }
  }

  lemma {:induction false} PriorityAfterUnlisted(m: seq<byte>, n: nat, c: byte)
    requires n <= |m|
    ensures PriorityAfter(m, n, c) == 0 <==> c !in m[..n]
  {
    if n > 0 {
      PriorityAfterUnlisted(m, n - 1, c);
      assert m[..n] == m[..n - 1] + [m[n - 1]];
    }
  }

  /** The characters of `kInverseMap` get the priorities 1, 2, 3, ... in list order;
      every other character keeps priority 0. */
  lemma PrioritiesFollowInverseMap()
    ensures forall i :: 0 <= i < |kInverseMap| ==> Priority(kInverseMap[i]) == i + 1
    ensures forall c :: Priority(c) == 0 <==> c !in kInverseMap
  {
    InverseMapDistinct();
    forall i | 0 <= i < |kInverseMap| ensures Priority(kInverseMap[i]) == i + 1 {
      PriorityAfterListed(kInverseMap, |kInverseMap|, i);
    }
    forall c ensures Priority(c) == 0 <==> c !in kInverseMap {
      PriorityAfterUnlisted(kInverseMap, |kInverseMap|, c);
      assert kInverseMap[..|kInverseMap|] == kInverseMap;
    }
  }

  lemma LetterPriorities(m: seq<byte>, c: byte)
    requires |m| == 98 && IsLower(c)
    requires forall i, j :: 0 <= i < j < |m| ==> m[i] != m[j]
    requires forall i :: 46 <= i < 98 ==>
      m[i] as int == 'a' as int + (i - 46) / 2 - 32 * ((i - 46) % 2)
    ensures PriorityAfter(m, |m|, c) + 1 == PriorityAfter(m, |m|, c - 32)
  {
    var k := (c - 'a' as byte) as int;
    assert (46 + 2 * k - 46) / 2 == k && (46 + 2 * k - 46) % 2 == 0;
    assert (47 + 2 * k - 46) / 2 == k && (47 + 2 * k - 46) % 2 == 1;
    assert m[46 + 2 * k] == c && m[47 + 2 * k] == c - 32;
    PriorityAfterListed(m, |m|, 46 + 2 * k);
    PriorityAfterListed(m, |m|, 47 + 2 * k);
  }

  /** Each lowercase letter sorts just before its uppercase letter, and the
      case-insensitive table gives both the uppercase letter's priority. */
  lemma LowercaseBeforeUppercase(c: byte)
    requires IsLower(c)
    ensures Priority(c) + 1 == Priority(c - 32)
    ensures PriorityCaseInsensitive(c) == PriorityCaseInsensitive(c - 32) == Priority(c - 32) > 0
  {
    InverseMapShape();
    InverseMapDistinct();
    LetterPriorities(kInverseMap, c);
  }

  /** The case-insensitive table identifies exactly the two cases of a letter (and the
      unlisted characters, which all have priority 0). */
  lemma CaseInsensitiveCollisions(a: byte, b: byte)
    requires a != b && PriorityCaseInsensitive(a) == PriorityCaseInsensitive(b)
    ensures PriorityCaseInsensitive(a) == 0
      || (IsLower(b) && a as int == b as int - 32)
      || (IsLower(a) && b as int == a as int - 32)
  {
    PrioritiesFollowInverseMap();
    var fa := if IsLower(a) then a - 32 else a;
    var fb := if IsLower(b) then b - 32 else b;
    if Priority(fa) > 0 {
      assert fa in kInverseMap && fb in kInverseMap;
      var ia :| 0 <= ia < |kInverseMap| && kInverseMap[ia] == fa;
      var ib :| 0 <= ib < |kInverseMap| && kInverseMap[ib] == fb;
      assert ia == ib;
    }
  }
}
