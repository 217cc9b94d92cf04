/** The `REVID` collation: revision IDs of the form `<generation>-<suffix>` order by
    generation number first and by suffix bytes second; anything that is not such an ID
    orders as plain bytes. Each input is the whole span SQLite passes, so its length is the
    `len` argument. It shares `isXDigit` and `digitToInt` with the JSON collator. */
module RevCollator {
  import opened Common
  import opened Escapes

  /** `sgn`. */
  function Sgn(n: int): (r: int)
    ensures r == -1 || r == 0 || r == 1
    ensures r < 0 <==> n < 0
    ensures r > 0 <==> n > 0
  {
    if n > 0 then 1 else if n < 0 then -1 else 0
  }

  /** `getMin`. */
  function GetMin(a: int, b: int): (r: int)
    ensures r <= a && r <= b
    ensures r == a || r == b
  {
    if a < b then a else b
  }

  /** The sign of `memcmp(a, b, n)`: the first of the `n` leading bytes that differ
      decides, compared as unsigned bytes. Only the sign is used by the collator. */
  function MemcmpSign(a: seq<byte>, b: seq<byte>, n: nat): (r: int)
    requires n <= |a| && n <= |b|
    ensures r == -1 || r == 0 || r == 1
    ensures r == 0 <==> a[..n] == b[..n]
  {
    if n == 0 then 0
    else if a[0] != b[0] then Cmp(a[0] as int, b[0] as int)
    else
      var r := MemcmpSign(a[1..], b[1..], n - 1);
      assert a[..n] == [a[0]] + a[1..][..n - 1] && b[..n] == [b[0]] + b[1..][..n - 1];
      r
  }

  /** `defaultCollate`: the bytes over the shorter length, then the lengths. */
  function DefaultCollate(a: seq<byte>, b: seq<byte>): (r: int)
    ensures r == -1 || r == 0 || r == 1
  {
    var result := MemcmpSign(a, b, GetMin(|a|, |b|));
    Sgn(if result != 0 then result else |a| - |b|)
  }

  /** `memchr(rev, '-', len)`: the position of the first dash, if any. */
  function DashIndex(s: seq<byte>): (r: Option<nat>)
    ensures r.None? <==> DASH !in s
    ensures r.Some? ==> r.value < |s| && s[r.value] == DASH && DASH !in s[..r.value]
  {
    if |s| == 0 then None
    else if s[0] == DASH then Some(0)
    else
      match DashIndex(s[1..])
      case None => None
      case Some(i) =>
        assert s[..i + 1] == [s[0]] + s[1..][..i];
        Some(i + 1)
  }

  predicate AllDigits(ds: seq<byte>) {
    forall k :: 0 <= k < |ds| ==> IsDigit(ds[k])
  }

  /** What `parseDigits` returns for the bytes from `str` to `end`: their decimal value
      when they are all digits, and 0 otherwise. */
  function DigitsValue(ds: seq<byte>): nat {
    if AllDigits(ds) then DecimalValue(ds) else 0
  }

  /** `parseDigits(str, end)` over the bytes `s[..end]`. */
  method ParseDigits(s: seq<byte>, end: nat) returns (result: int)
    requires end <= |s|
    ensures result == DigitsValue(s[..end])
  {
    result := 0;
    var i := 0;
    while i < end
      invariant i <= end
      invariant AllDigits(s[..i])
      invariant result == DecimalValue(s[..i])
    {
      if !IsDigit(s[i]) {
        assert !AllDigits(s[..end]) by {
          assert s[..end][i] == s[i];
        }
        return 0;
      }
      assert s[..i + 1][..i] == s[..i];
      result := 10 * result + DigitToInt(s[i]);
      i := i + 1;
    }
    assert s[..end] == s[..i];
  }

  /** Rather than comparing generations, `collateRevIDs` compares as plain bytes: both
      dashes right after one byte, a dash more than 8 bytes in, or a missing dash. */
  predicate PlainShape(d1: Option<nat>, d2: Option<nat>) {
    (d1 == Some(1) && d2 == Some(1))
    || (d1.Some? && d1.value > 8) || (d2.Some? && d2.value > 8)
    || d1.None? || d2.None?
  }

  /** `collateRevIDs` on two whole spans. */
  function RevOrder(s1: seq<byte>, s2: seq<byte>): (r: int)
    ensures r == -1 || r == 0 || r == 1
  {
    var d1, d2 := DashIndex(s1), DashIndex(s2);
    if PlainShape(d1, d2) then DefaultCollate(s1, s2)
    else
      var gen1, gen2 := DigitsValue(s1[..d1.value]), DigitsValue(s2[..d2.value]);
      if gen1 == 0 || gen2 == 0 then DefaultCollate(s1, s2)
      else
        var result := Sgn(gen1 - gen2);
        if result != 0 then result else DefaultCollate(s1[d1.value + 1..], s2[d2.value + 1..])
  }

  /** `collateRevIDs` as the C code runs it, with `parseDigits`'s loop. The context is
      unused. */
  method CollateRevIds(len1: nat, s1: seq<byte>, len2: nat, s2: seq<byte>) returns (r: int)
    requires len1 == |s1| && len2 == |s2|
    ensures r == RevOrder(s1, s2)
  {
    var d1, d2 := DashIndex(s1), DashIndex(s2);
    if PlainShape(d1, d2) {
      return DefaultCollate(s1, s2);
    }
    var gen1 := ParseDigits(s1, d1.value);
    var gen2 := ParseDigits(s2, d2.value);
    if gen1 == 0 || gen2 == 0 {
      return DefaultCollate(s1, s2);
    }
    var result := Sgn(gen1 - gen2);
    if result != 0 {
      return result;
    }
    r := DefaultCollate(s1[d1.value + 1..], s2[d2.value + 1..]);
  }

  // ----- defaultCollate is the lexicographic order of unsigned bytes -----

  /** `defaultCollate` orders byte strings lexicographically, a proper prefix first. */
  lemma {:induction false} DefaultCollateIsLex(a: seq<byte>, b: seq<byte>)
    ensures DefaultCollate(a, b) == LexBy(CharKey(false), a, b)
  {
    if |a| > 0 && |b| > 0 && a[0] == b[0] {
      DefaultCollateIsLex(a[1..], b[1..]);
      assert MemcmpSign(a, b, GetMin(|a|, |b|)) == MemcmpSign(a[1..], b[1..], GetMin(|a| - 1, |b| - 1));
    }
  }

  /** `defaultCollate` ties exactly equal byte strings. */
  lemma DefaultCollateZero(a: seq<byte>, b: seq<byte>)
    ensures DefaultCollate(a, b) == 0 <==> a == b
  {
    DefaultCollateIsLex(a, b);
    LexByZero(CharKey(false), a, b);
  }

  lemma DefaultCollateAntisymmetric(a: seq<byte>, b: seq<byte>)
    ensures DefaultCollate(b, a) == -DefaultCollate(a, b)
  {
    DefaultCollateIsLex(a, b);
    DefaultCollateIsLex(b, a);
    LexByAntisymmetric(CharKey(false), a, b);
  }

  /** Swapping the arguments negates the order. */
  lemma RevOrderAntisymmetric(s1: seq<byte>, s2: seq<byte>)
    ensures RevOrder(s2, s1) == -RevOrder(s1, s2)
  {
    var d1, d2 := DashIndex(s1), DashIndex(s2);
    assert PlainShape(d1, d2) == PlainShape(d2, d1);
    if PlainShape(d1, d2) {
      DefaultCollateAntisymmetric(s1, s2);
    } else {
      var gen1, gen2 := DigitsValue(s1[..d1.value]), DigitsValue(s2[..d2.value]);
      if gen1 == 0 || gen2 == 0 {
        DefaultCollateAntisymmetric(s1, s2);
      } else if gen1 == gen2 {
        DefaultCollateAntisymmetric(s1[d1.value + 1..], s2[d2.value + 1..]);
      }
    }
  }

  // ----- proper revision IDs -----

  /** `s` is a proper revision ID whose dash is at `i`: a generation of 1 to 8 digits
      with a non-zero value, then the dash. */
  predicate ProperAt(s: seq<byte>, i: nat) {
    1 <= i <= 8 && i < |s| && s[i] == DASH && AllDigits(s[..i]) && DecimalValue(s[..i]) > 0
  }

  /** The generation number of a proper revision ID. */
  function Generation(s: seq<byte>, i: nat): nat
    requires ProperAt(s, i)
  {
    DecimalValue(s[..i])
  }

  /** The dash of a proper revision ID is its first. */
  lemma ProperDash(s: seq<byte>, i: nat)
    requires ProperAt(s, i)
    ensures DashIndex(s) == Some(i)
  {
    assert DASH !in s[..i];
  }

  lemma DecimalBound(ds: seq<byte>)
    requires AllDigits(ds) && |ds| <= 8
    ensures DecimalValue(ds) < 100000000
  {
    DecimalBelowPower(ds);
    Power10Grows(|ds|, 8);
    assert Power10(8) == 100000000;
  }

  /** The value of `k` digits is below `10^k`. */
  function Power10(k: nat): (p: nat)
    ensures p >= 1
  {
    if k == 0 then 1 else 10 * Power10(k - 1)
  }

  lemma {:induction false} Power10Grows(j: nat, k: nat)
    requires j <= k
    ensures Power10(j) <= Power10(k)
    decreases k
  {
    if j < k {
      Power10Grows(j, k - 1);
    }
  }

  lemma {:induction false} DecimalBelowPower(ds: seq<byte>)
    ensures DecimalValue(ds) < Power10(|ds|)
  {
    if |ds| > 0 {
      DecimalBelowPower(ds[..|ds| - 1]);
    }
  }

  /** Two single-digit IDs compared as plain bytes come out as by generation, then by
      suffix: bytewise, a digit orders as its value. */
  lemma SingleDigitsByGeneration(s1: seq<byte>, s2: seq<byte>)
    requires ProperAt(s1, 1) && ProperAt(s2, 1)
    ensures DefaultCollate(s1, s2) ==
      if s1[0] != s2[0] then Cmp(Generation(s1, 1), Generation(s2, 1)) else DefaultCollate(s1[2..], s2[2..])
  {
    assert s1[..1] == [s1[0]] && s2[..1] == [s2[0]];
    assert [s1[0]][..0] == [] && [s2[0]][..0] == [];
    DefaultCollateIsLex(s1, s2);
    DefaultCollateIsLex(s1[2..], s2[2..]);
    assert s1[1..][1..] == s1[2..] && s2[1..][1..] == s2[2..];
  }

  /** Two proper revision IDs order by generation number, then by suffix bytes. */
  lemma ProperRevIds(s1: seq<byte>, i1: nat, s2: seq<byte>, i2: nat)
    requires ProperAt(s1, i1) && ProperAt(s2, i2)
    ensures var g1, g2 := Generation(s1, i1), Generation(s2, i2);
      RevOrder(s1, s2) == if g1 != g2 then Cmp(g1, g2) else DefaultCollate(s1[i1 + 1..], s2[i2 + 1..])
  {
    ProperDash(s1, i1);
    ProperDash(s2, i2);
    if i1 == 1 && i2 == 1 {
      SingleDigitsByGeneration(s1, s2);
      assert s1[..1] == [s1[0]] && s2[..1] == [s2[0]];
      assert [s1[0]][..0] == [] && [s2[0]][..0] == [];
    }
  }

  /** A span that is not a proper revision ID makes the whole comparison bytewise. */
  lemma ImproperFallsBack(s1: seq<byte>, s2: seq<byte>)
    requires (forall i :: !ProperAt(s1, i)) || (forall i :: !ProperAt(s2, i))
    ensures RevOrder(s1, s2) == DefaultCollate(s1, s2)
  {
    var d1, d2 := DashIndex(s1), DashIndex(s2);
    if !PlainShape(d1, d2) {
      ParsedIsProper(s1, d1.value);
      ParsedIsProper(s2, d2.value);
    }
  }

  /** A first dash at most 8 bytes in, after a generation that parses to a non-zero
      value, makes a proper revision ID. */
  lemma ParsedIsProper(s: seq<byte>, i: nat)
    requires DashIndex(s) == Some(i) && i <= 8
    ensures DigitsValue(s[..i]) != 0 ==> ProperAt(s, i)
  {
  }

  /** With at most 8 digits a generation stays far below `INT_MAX`, so neither
      `10*result + digit` nor `gen1 - gen2` overflows a 32-bit `int`. */
  lemma GenerationFitsInt(s: seq<byte>, i: nat)
    requires ProperAt(s, i)
    ensures Generation(s, i) < 100000000 < 0x7FFF_FFFF
  {
    DecimalBound(s[..i]);
  }

  // ----- examples -----

  /** `2-abc` and `10-aaa` */
  const TwoAbc: seq<byte> := [50, 45, 97, 98, 99]
  const TenAaa: seq<byte> := [49, 48, 45, 97, 97, 97]

  /** Generation 2 sorts before generation 10, ... */
  lemma GenerationsNumerically()
    ensures RevOrder(TwoAbc, TenAaa) == -1
  {
    var s1, s2 := TwoAbc, TenAaa;
    assert s1[..1] == [50] && [50][..0] == [];
    assert s2[..2] == [49, 48] && [49, 48][..1] == [49] && [49][..0] == [];
    assert ProperAt(s1, 1) && Generation(s1, 1) == 2;
    assert ProperAt(s2, 2) && Generation(s2, 2) == 10;
    ProperRevIds(s1, 1, s2, 2);
  }

  /** ... though as plain bytes it sorts after, its first byte being greater. */
  lemma GenerationsNotBytewise()
    ensures DefaultCollate(TwoAbc, TenAaa) == 1
  {
    assert MemcmpSign(TwoAbc, TenAaa, 5) == 1;
  }

  /** `1-a` and `1-b` */
  const OneA: seq<byte> := [49, 45, 97]
  const OneB: seq<byte> := [49, 45, 98]

  /** Equal generations are decided by the suffix. */
  lemma SuffixBreaksTie()
    ensures RevOrder(OneA, OneB) == -1
  {
    assert OneA[..1] == [49] && OneB[..1] == [49] && [49][..0] == [];
    assert ProperAt(OneA, 1) && ProperAt(OneB, 1);
    ProperRevIds(OneA, 1, OneB, 1);
    assert OneA[2..] == [97] && OneB[2..] == [98];
    assert MemcmpSign([97], [98], 1) == -1;
  }

  /** Texts without a dash compare as plain bytes. */
  lemma PlainTextsBytewise()
    ensures RevOrder([120], [121]) == -1
  {
    assert DashIndex([120]) == None;
    assert MemcmpSign([120], [121], 1) == -1;
  }

  // ----- consistency of the order -----

  /** Every span ties with itself. */
  lemma RevOrderReflexive(s: seq<byte>)
    ensures RevOrder(s, s) == 0
  {
    RevOrderAntisymmetric(s, s);
  }

  /** `9-a`, `10-a` and `5` */
  const NineA: seq<byte> := [57, 45, 97]
  const TenA: seq<byte> := [49, 48, 45, 97]
  const Five: seq<byte> := [53]

  /** The order is not transitive: `9-a` sorts before `10-a` by generation, `10-a` before
      `5` and `5` before `9-a` as plain bytes, because `5` is not a proper revision ID. */
  lemma RevOrderCycle()
    ensures RevOrder(NineA, TenA) == -1
    ensures RevOrder(TenA, Five) == -1
    ensures RevOrder(Five, NineA) == -1
  {
    NineBeforeTen();
    FiveIsPlain();
  }

  lemma NineBeforeTen()
    ensures RevOrder(NineA, TenA) == -1
  {
    assert NineA[..1] == [57] && [57][..0] == [];
    assert TenA[..2] == [49, 48] && [49, 48][..1] == [49] && [49][..0] == [];
    assert ProperAt(NineA, 1) && Generation(NineA, 1) == 9;
    assert ProperAt(TenA, 2) && Generation(TenA, 2) == 10;
    ProperRevIds(NineA, 1, TenA, 2);
  }

  /** `5` has no dash, so it is compared with both as plain bytes. */
  lemma FiveIsPlain()
    ensures RevOrder(TenA, Five) == -1
    ensures RevOrder(Five, NineA) == -1
  {
    assert DashIndex(Five) == None;
    assert MemcmpSign(TenA, Five, 1) == -1;
    assert MemcmpSign(Five, NineA, 1) == -1;
  }

  /** The dash of `s` when `s` is a proper revision ID. */
  function ProperDashOf(s: seq<byte>): (d: Option<nat>)
    ensures d.Some? ==> ProperAt(s, d.value)
    ensures d.None? ==> forall i :: !ProperAt(s, i)
  {
    var d := DashIndex(s);
    if d.Some? && ProperAt(s, d.value) then d
    else
      assert forall i: nat | ProperAt(s, i) :: DashIndex(s) == Some(i) by {
        forall i: nat | ProperAt(s, i) { ProperDash(s, i); }
      }
      None
  }

  /** A transitive variant of the order: proper revision IDs by generation, then by
      suffix bytes; other spans as plain bytes; and every span that is not a proper
      revision ID before every one that is. */
  function RevOrderTotal(s1: seq<byte>, s2: seq<byte>): (r: int)
    ensures r == -1 || r == 0 || r == 1
  {
    var p1, p2 := ProperDashOf(s1), ProperDashOf(s2);
    if p1.None? && p2.None? then DefaultCollate(s1, s2)
    else if p1.None? then -1
    else if p2.None? then 1
    else
      var g1, g2 := Generation(s1, p1.value), Generation(s2, p2.value);
      if g1 != g2 then Cmp(g1, g2) else DefaultCollate(s1[p1.value + 1..], s2[p2.value + 1..])
  }

  /** The variant differs from `collateRevIDs` only where exactly one span is a proper
      revision ID. */
  lemma RevOrderTotalAgrees(s1: seq<byte>, s2: seq<byte>)
    requires ProperDashOf(s1).Some? == ProperDashOf(s2).Some?
    ensures RevOrderTotal(s1, s2) == RevOrder(s1, s2)
  {
    var p1, p2 := ProperDashOf(s1), ProperDashOf(s2);
    if p1.Some? {
      ProperRevIds(s1, p1.value, s2, p2.value);
    } else {
      ImproperFallsBack(s1, s2);
    }
  }

  lemma RevOrderTotalAntisymmetric(s1: seq<byte>, s2: seq<byte>)
    ensures RevOrderTotal(s2, s1) == -RevOrderTotal(s1, s2)
  {
    var p1, p2 := ProperDashOf(s1), ProperDashOf(s2);
    if p1.None? && p2.None? {
      DefaultCollateAntisymmetric(s1, s2);
    } else if p1.Some? && p2.Some? && Generation(s1, p1.value) == Generation(s2, p2.value) {
      DefaultCollateAntisymmetric(s1[p1.value + 1..], s2[p2.value + 1..]);
    }
  }

  lemma DefaultCollateTransitive(a: seq<byte>, b: seq<byte>, c: seq<byte>)
    requires DefaultCollate(a, b) <= 0 && DefaultCollate(b, c) <= 0
    ensures DefaultCollate(a, c) <= 0
    ensures DefaultCollate(a, c) == 0 ==> DefaultCollate(a, b) == 0 && DefaultCollate(b, c) == 0
  {
    DefaultCollateIsLex(a, b);
    DefaultCollateIsLex(b, c);
    DefaultCollateIsLex(a, c);
    LexByTransitive(CharKey(false), a, b, c);
  }

  /** The variant is a total preorder: transitive, and a chain that ends in a tie was all
      ties. With `RevOrderTotalAntisymmetric` it is a consistent sort order. */
  lemma RevOrderTotalTransitive(a: seq<byte>, b: seq<byte>, c: seq<byte>)
    requires RevOrderTotal(a, b) <= 0 && RevOrderTotal(b, c) <= 0
    ensures RevOrderTotal(a, c) <= 0
    ensures RevOrderTotal(a, c) == 0 ==> RevOrderTotal(a, b) == 0 && RevOrderTotal(b, c) == 0
  {
    var pa, pb, pc := ProperDashOf(a), ProperDashOf(b), ProperDashOf(c);
    if pa.None? && pb.None? && pc.None? {
      DefaultCollateTransitive(a, b, c);
    } else if pa.Some? && pb.Some? && pc.Some? {
      var ga, gb, gc := Generation(a, pa.value), Generation(b, pb.value), Generation(c, pc.value);
      if ga == gb == gc {
        DefaultCollateTransitive(a[pa.value + 1..], b[pb.value + 1..], c[pc.value + 1..]);
      }
    }
  }
}
