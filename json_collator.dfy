/** `collateJSON`: the token-by-token scan over two JSON texts without whitespace, and its
    two entry points, the JNI copy (a `CollatorContext` that may be NULL) and the older C
    copy (the rule passed as the context pointer), with the older copy's test harness.

    The scan reads a token kind from each text. Different kinds decide at once; equal
    kinds are compared or skipped, and the scan goes on while it is inside an array or
    an object. */
module JsonCollator {
  import opened Common
  import opened Escapes
  import opened CharPriority
  import opened ValueTypes
  import opened JsonStrings
  import opened JsonNumbers

  /** What a call of `collateJSON` does: return an order, read past the memory it was
      given, or loop forever (it meets the same state again). */
  datatype Outcome = Returns(order: int) | ReadsPast | Loops

  /** The rule a context pointer stands for: 0 is "JSON", 1 is "JSON_RAW", and every
      other value behaves as "JSON_ASCII" (it is neither the Unicode nor the Raw rule). */
  function RuleMode(rule: nat): (m: Mode)
    ensures m == Unicode <==> rule == 0
    ensures m == Raw <==> rule == 1
  {
    if rule == 0 then Unicode else if rule == 1 then Raw else Ascii
  }

  /** Everything a scan depends on besides the two texts: the rule, the build's string
      dialect, the character priority tables and the locale compare of the Unicode slow
      path. */
  datatype Config = Config(mode: Mode, dialect: Dialect, tables: Tables, uca: (seq<byte>, seq<byte>) -> int)

  /** One round of the scan: stop with an outcome, or go on from new cursors and depth. */
  datatype Step = Done(outcome: Outcome) | Continue(i1: nat, i2: nat, depth: int)

  /** Two number tokens: read in full within the declared lengths at the top level, and
      by `strtod` on the open memory inside a container. */
  function NumberStep(len1: nat, s1: seq<byte>, len2: nat, s2: seq<byte>, i1: nat, i2: nat, depth: int): (r: Step)
    ensures r.Continue? ==> i1 <= r.i1 && i2 <= r.i2 && r.depth == depth
  {
    var n1 := if depth == 0 then BoundedRead(s1, i1, len1) else Strtod(s1, i1);
    var n2 := if depth == 0 then BoundedRead(s2, i2, len2) else Strtod(s2, i2);
    if n1.Overrun? || n2.Overrun? then Done(ReadsPast)
    else
      var diff := DCmp(Value(n1.value.number), Value(n2.value.number));
      if diff != 0 then Done(Returns(diff)) else Continue(n1.value.end, n2.value.end, depth)
  }

  /** Two string tokens: the Unicode comparison under the Unicode rule, the byte
      comparison under the others. */
  function StringStep(c: Config, s1: seq<byte>, s2: seq<byte>, i1: nat, i2: nat, depth: int): (r: Step)
    requires Sized(c.tables)
    ensures r.Continue? ==> i1 < r.i1 && i2 < r.i2 && r.depth == depth
  {
    StringsAdvance(c.dialect, c.tables, c.uca, s1, i1, s2, i2);
    var r := if c.mode == Unicode then CompareUnicode(c.dialect.esc, c.tables, c.uca, s1, i1, s2, i2)
             else CompareAscii(c.dialect, s1, i1, s2, i2);
    match r
    case Overrun => Done(ReadsPast)
    case Ok(x) => if x.order != 0 then Done(Returns(x.order)) else Continue(x.next1, x.next2, depth)
  }

  /** One round of the `do ... while` loop with the cursors at `i1`, `i2`. A round that
      leaves both cursors in place is a number round and keeps the depth. */
  function StepAt(c: Config, len1: nat, s1: seq<byte>, len2: nat, s2: seq<byte>, i1: nat, i2: nat, depth: int): (r: Step)
    requires i1 < |s1| && i2 < |s2| && Sized(c.tables)
    ensures r.Continue? ==> i1 <= r.i1 && i2 <= r.i2
    ensures r.Continue? && r.i1 == i1 && r.i2 == i2 ==> r.depth == depth
  {
    var t1, t2 := ValueTypeOf(s1[i1]), ValueTypeOf(s2[i2]);
    if t1 != t2 then Done(Returns(MismatchOrder(c.mode, t1, t2)))
    else
      match t1
      case Null => Continue(i1 + 4, i2 + 4, depth)
      case True => Continue(i1 + 4, i2 + 4, depth)
      case False => Continue(i1 + 5, i2 + 5, depth)
      case Number => NumberStep(len1, s1, len2, s2, i1, i2, depth)
      case String => StringStep(c, s1, s2, i1, i2, depth)
      case Array => Continue(i1 + 1, i2 + 1, depth + 1)
      case Object => Continue(i1 + 1, i2 + 1, depth + 1)
      case EndArray => Continue(i1 + 1, i2 + 1, depth - 1)
      case EndObject => Continue(i1 + 1, i2 + 1, depth - 1)
      case Comma => Continue(i1 + 1, i2 + 1, depth)
      case Colon => Continue(i1 + 1, i2 + 1, depth)
      case Illegal => Done(Returns(0))
  }

  /** The scan from cursors `i1`, `i2` at `depth`: a round, then another while the depth
      is positive. A round that changes nothing would repeat forever. */
  function Walk(c: Config, len1: nat, s1: seq<byte>, len2: nat, s2: seq<byte>, i1: nat, i2: nat, depth: int): Outcome
    requires Sized(c.tables)
    decreases |s1| + |s2| - i1 - i2
  {
    if i1 >= |s1| || i2 >= |s2| then ReadsPast
    else
      match StepAt(c, len1, s1, len2, s2, i1, i2, depth)
      case Done(o) => o
      case Continue(j1, j2, d) =>
        if d <= 0 then Returns(0)
        else if j1 == i1 && j2 == i2 then Loops
        else Walk(c, len1, s1, len2, s2, j1, j2, d)
  }

  /** `collateJSON` on texts whose memories are `s1` and `s2` and whose declared lengths
      are `len1` and `len2`. */
  function Collate(c: Config, len1: nat, s1: seq<byte>, len2: nat, s2: seq<byte>): Outcome
    requires Sized(c.tables)
  {
    Walk(c, len1, s1, len2, s2, 0, 0, 0)
  }

  method CollateJson(c: Config, len1: nat, s1: seq<byte>, len2: nat, s2: seq<byte>) returns (o: Outcome)
    requires Sized(c.tables)
    ensures o == Collate(c, len1, s1, len2, s2)
  {
    ghost var spec := Collate(c, len1, s1, len2, s2);
    var str1: nat, str2: nat, depth := 0, 0, 0;
    while true
      invariant spec == Walk(c, len1, s1, len2, s2, str1, str2, depth)
      decreases |s1| + |s2| - str1 - str2
    {
      if str1 >= |s1| || str2 >= |s2| {
        return ReadsPast;
      }
      var type1, type2 := ValueTypeOf(s1[str1]), ValueTypeOf(s2[str2]);
      if type1 != type2 {
        return Returns(MismatchOrder(c.mode, type1, type2));
      }
      var next1, next2, nextDepth := str1 + 1, str2 + 1, depth;
      match type1 {
        case Null =>
          next1, next2 := str1 + 4, str2 + 4;
        case True =>
          next1, next2 := str1 + 4, str2 + 4;
        case False =>
          next1, next2 := str1 + 5, str2 + 5;
        case Number =>
          var n1, n2;
          if depth == 0 {
            n1 := ReadNumber(s1, str1, len1);
            n2 := ReadNumber(s2, str2, len2);
          } else {
            n1, n2 := Strtod(s1, str1), Strtod(s2, str2);
          }
          if n1.Overrun? || n2.Overrun? {
            return ReadsPast;
          }
          var diff := DCmp(Value(n1.value.number), Value(n2.value.number));
          if diff != 0 {
            return Returns(diff);
          }
          next1, next2 := n1.value.end, n2.value.end;
        case String =>
          var r;
          if c.mode == Unicode {
            r := CompareStringsUnicode(c.dialect.esc, c.tables, c.uca, s1, str1, s2, str2);
          } else {
            r := CompareStringsAscii(c.dialect, s1, str1, s2, str2);
          }
          if r.Overrun? {
            return ReadsPast;
          }
          if r.value.order != 0 {
            return Returns(r.value.order);
          }
          next1, next2 := r.value.next1, r.value.next2;
        case Array =>
          nextDepth := depth + 1;
        case Object =>
          nextDepth := depth + 1;
        case EndArray =>
          nextDepth := depth - 1;
        case EndObject =>
          nextDepth := depth - 1;
        case Comma =>
        case Colon =>
        case Illegal =>
          return Returns(0);
      }
      assert StepAt(c, len1, s1, len2, s2, str1, str2, depth) == Continue(next1, next2, nextDepth);
      if nextDepth <= 0 {
        return Returns(0);
      }
      if next1 == str1 && next2 == str2 {
        return Loops;  // the next round is this one again
      }
      str1, str2, depth := next1, next2, nextDepth;
    }
  }

  /** The JNI copy: a NULL `CollatorContext` returns 0; otherwise its rule decides, with
      the JNI escape decoding and the tables `initializeCharPriorityMap` builds. */
  function CollateJni(context: Option<nat>, signedChar: bool, uca: (seq<byte>, seq<byte>) -> int,
                      len1: nat, s1: seq<byte>, len2: nat, s2: seq<byte>): (r: Outcome)
    ensures context.None? ==> r == Returns(0)
    ensures context == Some(0) ==>
      r == Collate(Config(Unicode, Dialect(Decoder(JniPort), signedChar), BuiltTables(), uca), len1, s1, len2, s2)
    ensures context == Some(1) ==>
      r == Collate(Config(Raw, Dialect(Decoder(JniPort), signedChar), BuiltTables(), uca), len1, s1, len2, s2)
    ensures context.Some? && context.value > 1 ==>
      r == Collate(Config(Ascii, Dialect(Decoder(JniPort), signedChar), BuiltTables(), uca), len1, s1, len2, s2)
  {
    match context
    case None => Returns(0)
    case Some(rule) => Collate(Config(RuleMode(rule), Dialect(Decoder(JniPort), signedChar), BuiltTables(), uca), len1, s1, len2, s2)
  }

  /** The older C copy: the context pointer is the rule, with the older escape decoding. */
  function CollateLegacy(context: nat, signedChar: bool, uca: (seq<byte>, seq<byte>) -> int,
                         len1: nat, s1: seq<byte>, len2: nat, s2: seq<byte>): (r: Outcome)
    ensures context == 0 ==>
      r == Collate(Config(Unicode, Dialect(Decoder(LegacyPort), signedChar), BuiltTables(), uca), len1, s1, len2, s2)
    ensures context == 1 ==>
      r == Collate(Config(Raw, Dialect(Decoder(LegacyPort), signedChar), BuiltTables(), uca), len1, s1, len2, s2)
    ensures context > 1 ==>
      r == Collate(Config(Ascii, Dialect(Decoder(LegacyPort), signedChar), BuiltTables(), uca), len1, s1, len2, s2)
  {
    Collate(Config(RuleMode(context), Dialect(Decoder(LegacyPort), signedChar), BuiltTables(), uca), len1, s1, len2, s2)
  }

  /** The harness's garbage: `99` after the first text and `88` after the second. */
  const Nines: seq<byte> := [57, 57]
  const Eights: seq<byte> := [56, 56]

  /** `sqlite_json_collator_test`: each C string is copied with numeric garbage after its
      end, and the declared lengths exclude the garbage. For two numbers the garbage
      makes no difference. */
  function CollatorTest(mode: nat, signedChar: bool, uca: (seq<byte>, seq<byte>) -> int,
                        str1: seq<byte>, str2: seq<byte>): (r: Outcome)
    requires NUL !in str1 && NUL !in str2
    ensures |str1| > 0 && |str2| > 0 && ValueTypeOf(str1[0]) == Number && ValueTypeOf(str2[0]) == Number ==>
      r == CollateLegacy(mode, signedChar, uca, |str1|, str1 + [NUL], |str2|, str2 + [NUL])
  {
    var r := CollateLegacy(mode, signedChar, uca, |str1|, str1 + Nines + [NUL], |str2|, str2 + Eights + [NUL]);
    if |str1| > 0 && |str2| > 0 && ValueTypeOf(str1[0]) == Number && ValueTypeOf(str2[0]) == Number then
      HarnessIgnoresGarbage(mode, signedChar, uca, str1, str2);
      r
    else
      r
  }

  // ---------------------------------------------------------------------------
  // Properties of the scan

  /** The kinds of token that are one byte or one keyword long, and that a top-level
      comparison therefore settles without looking further. */
  predicate SettlesAtOnce(t: ValueType) {
    t in {Null, True, False, EndArray, EndObject, Comma, Colon, Illegal}
  }

  /** A matching keyword, closing bracket, separator or illegal byte at the top level
      ends the comparison with 0, whatever follows it in either text. */
  lemma TopLevelTokenSettles(c: Config, len1: nat, s1: seq<byte>, len2: nat, s2: seq<byte>)
    requires Sized(c.tables)
    requires |s1| > 0 && |s2| > 0
    requires ValueTypeOf(s1[0]) == ValueTypeOf(s2[0]) && SettlesAtOnce(ValueTypeOf(s1[0]))
    ensures Collate(c, len1, s1, len2, s2) == Returns(0)
  {
    assert StepAt(c, len1, s1, len2, s2, 0, 0, 0).Continue? ==> StepAt(c, len1, s1, len2, s2, 0, 0, 0).depth <= 0;
  }

  /** Different kinds of token at the cursors decide at once: by kind ordinal, or by the
      raw rank under the Raw rule. */
  lemma MismatchDecides(c: Config, len1: nat, s1: seq<byte>, len2: nat, s2: seq<byte>, i1: nat, i2: nat, depth: int)
    requires Sized(c.tables)
    requires i1 < |s1| && i2 < |s2| && ValueTypeOf(s1[i1]) != ValueTypeOf(s2[i2])
    ensures var o := Walk(c, len1, s1, len2, s2, i1, i2, depth);
      o.Returns? && o.order != 0 &&
      (c.mode != Raw ==> o.order == Cmp(Ordinal(ValueTypeOf(s1[i1])), Ordinal(ValueTypeOf(s2[i2])))) &&
      (c.mode == Raw ==> o.order == Cmp(RawOrder(ValueTypeOf(s1[i1])), RawOrder(ValueTypeOf(s2[i2]))))
  {
    MismatchIsStrict(c.mode, ValueTypeOf(s1[i1]), ValueTypeOf(s2[i2]));
  }

  /** Two numbers at the top level are compared by the values read within the declared
      lengths, and that comparison is the result. */
  lemma TopLevelNumber(c: Config, len1: nat, s1: seq<byte>, len2: nat, s2: seq<byte>)
    requires Sized(c.tables)
    requires 0 < |s1| && 0 < |s2| && len1 <= |s1| && len2 <= |s2|
    requires ValueTypeOf(s1[0]) == Number && ValueTypeOf(s2[0]) == Number
    ensures BoundedRead(s1, 0, len1).Ok? && BoundedRead(s2, 0, len2).Ok?
    ensures Collate(c, len1, s1, len2, s2) ==
      Returns(DCmp(Value(BoundedRead(s1, 0, len1).value.number), Value(BoundedRead(s2, 0, len2).value.number)))
  {
    BoundedReadStaysInSpan(s1, s1, 0, len1);
    BoundedReadStaysInSpan(s2, s2, 0, len2);
  }

  /** A top-level number comparison does not depend on the bytes past the declared
      lengths. */
  lemma TopLevelNumberIgnoresTail(c: Config, len1: nat, s1: seq<byte>, t1: seq<byte>, len2: nat, s2: seq<byte>, t2: seq<byte>)
    requires Sized(c.tables)
    requires 0 < len1 <= |s1| && len1 <= |t1| && 0 < len2 <= |s2| && len2 <= |t2|
    requires forall k :: 0 <= k < len1 ==> s1[k] == t1[k]
    requires forall k :: 0 <= k < len2 ==> s2[k] == t2[k]
    requires ValueTypeOf(s1[0]) == Number && ValueTypeOf(s2[0]) == Number
    ensures Collate(c, len1, t1, len2, t2) == Collate(c, len1, s1, len2, s2)
  {
    BoundedReadStaysInSpan(s1, t1, 0, len1);
    BoundedReadStaysInSpan(s2, t2, 0, len2);
    TopLevelNumber(c, len1, s1, len2, s2);
    TopLevelNumber(c, len1, t1, len2, t2);
  }

  /** The test harness's garbage past the ends does not change the comparison of two
      numbers: it is the comparison of the plain C strings. */
  lemma HarnessIgnoresGarbage(mode: nat, signedChar: bool, uca: (seq<byte>, seq<byte>) -> int,
                              str1: seq<byte>, str2: seq<byte>)
    requires NUL !in str1 && NUL !in str2 && |str1| > 0 && |str2| > 0
    requires ValueTypeOf(str1[0]) == Number && ValueTypeOf(str2[0]) == Number
    ensures CollateLegacy(mode, signedChar, uca, |str1|, str1 + Nines + [NUL], |str2|, str2 + Eights + [NUL]) ==
      CollateLegacy(mode, signedChar, uca, |str1|, str1 + [NUL], |str2|, str2 + [NUL])
  {
    var c := Config(RuleMode(mode), Dialect(Decoder(LegacyPort), signedChar), BuiltTables(), uca);
    TopLevelNumberIgnoresTail(c, |str1|, str1 + [NUL], str1 + Nines + [NUL],
                              |str2|, str2 + [NUL], str2 + Eights + [NUL]);
  }

  /** What the harness guards against: read without the declared lengths, `1` followed
      by the garbage `99` is 199 and `1` followed by `88` is 188. */
  lemma GarbageIsNumeric()
    ensures Strtod(One + Nines + [NUL], 0) == Ok(Parsed(Decimal(false, 199, 0), 3))
    ensures Strtod(One + Eights + [NUL], 0) == Ok(Parsed(Decimal(false, 188, 0), 3))
  {
    GarbageRead(One + Nines);
    GarbageRead(One + Eights);
    GarbageValues();
  }

  lemma GarbageRead(n: seq<byte>)
    requires n == One + Nines || n == One + Eights
    ensures Strtod(n + [NUL], 0) == Ok(Parsed(Decimal(false, DecimalValue(n), 0), 3))
  {
    IntegerLiteral(n, NUL, []);
    assert n + [NUL] + [] == n + [NUL];
  }

  lemma GarbageValues()
    ensures DecimalValue(One + Nines) == 199 && DecimalValue(One + Eights) == 188
  {
    var n, e := One + Nines, One + Eights;
    assert n[..2] == [49, 57] && e[..2] == [49, 56];
    assert [49, 57][..1] == [49, 56][..1] == One && One[..0] == [];
  }

  /** ... yet the harness finds the two texts `1` equal. */
  lemma HarnessFindsOnesEqual(mode: nat, signedChar: bool, uca: (seq<byte>, seq<byte>) -> int)
    ensures CollatorTest(mode, signedChar, uca, One, One) == Returns(0)
  {
    HarnessIgnoresGarbage(mode, signedChar, uca, One, One);
    var c := Config(RuleMode(mode), Dialect(Decoder(LegacyPort), signedChar), BuiltTables(), uca);
    TopLevelNumber(c, 1, One + [NUL], 1, One + [NUL]);
  }

  // Examples, on texts written out as bytes

  /** `1` */
  const One: seq<byte> := [49]
  /** `[1,2]`, `[1,3]` and `[1]` */
  const OneTwo: seq<byte> := [91, 49, 44, 50, 93]
  const OneThree: seq<byte> := [91, 49, 44, 51, 93]
  const OneAlone: seq<byte> := [91, 49, 93]
  /** `false` */
  const FalseText: seq<byte> := [102, 97, 108, 115, 101]
  /** `"Abc"` and `"abc"`, and their contents */
  const QuotedCapital: seq<byte> := [34, 65, 98, 99, 34]
  const QuotedSmall: seq<byte> := [34, 97, 98, 99, 34]
  const Capital: seq<byte> := [65, 98, 99]
  const Small: seq<byte> := [97, 98, 99]

  /** The enum puts `kFalse` before `kNumber`, so outside the Raw rule `1` sorts after
      `false`; the Raw table puts numbers first. */
  lemma NumberAgainstFalse(c: Config, len1: nat, len2: nat)
    requires Sized(c.tables)
    ensures Collate(c, len1, One, len2, FalseText) == Returns(if c.mode == Raw then -1 else 1)
  {
    MismatchDecides(c, len1, One, len2, FalseText, 0, 0, 0);
    RawRanks();
    DefaultRanks();
  }

  /** Under the Raw rule `null` sorts after every number; under the others before. */
  lemma NullAgainstNumber(c: Config, len1: nat, s1: seq<byte>, len2: nat, s2: seq<byte>)
    requires Sized(c.tables)
    requires |s1| > 0 && |s2| > 0 && s1[0] == 'n' as byte && StartsNumber(s2[0])
    ensures Collate(c, len1, s1, len2, s2) == Returns(if c.mode == Raw then 1 else -1)
  {
    MismatchDecides(c, len1, s1, len2, s2, 0, 0, 0);
    RawRanks();
  }

  /** A round on two equal opening brackets enters the container. */
  lemma OpenStep(c: Config, len1: nat, s1: seq<byte>, len2: nat, s2: seq<byte>, i1: nat, i2: nat, depth: int)
    requires Sized(c.tables)
    requires i1 < |s1| && i2 < |s2| && s1[i1] == s2[i2] == '[' as byte
    ensures StepAt(c, len1, s1, len2, s2, i1, i2, depth) == Continue(i1 + 1, i2 + 1, depth + 1)
  {
  }

  /** A round on two commas passes them. */
  lemma CommaStep(c: Config, len1: nat, s1: seq<byte>, len2: nat, s2: seq<byte>, i1: nat, i2: nat, depth: int)
    requires Sized(c.tables)
    requires i1 < |s1| && i2 < |s2| && s1[i1] == s2[i2] == ',' as byte
    ensures StepAt(c, len1, s1, len2, s2, i1, i2, depth) == Continue(i1 + 1, i2 + 1, depth)
  {
  }

  /** A round on two one-digit numbers inside a container compares their values, and
      passes them when they are equal. */
  lemma DigitStep(c: Config, len1: nat, s1: seq<byte>, len2: nat, s2: seq<byte>, i1: nat, i2: nat, depth: int)
    requires Sized(c.tables)
    requires depth != 0 && i1 + 1 < |s1| && i2 + 1 < |s2|
    requires IsDigit(s1[i1]) && Ends(s1[i1 + 1]) && IsDigit(s2[i2]) && Ends(s2[i2 + 1])
    ensures StepAt(c, len1, s1, len2, s2, i1, i2, depth) ==
      if s1[i1] == s2[i2] then Continue(i1 + 1, i2 + 1, depth)
      else Done(Returns(Cmp(DigitValue(s1[i1]), DigitValue(s2[i2]))))
  {
    SingleDigit(s1, i1);
    SingleDigit(s2, i2);
    var v1, v2 := DigitValue(s1[i1]), DigitValue(s2[i2]);
    assert Value(Decimal(false, v1, 0)) == v1 as real;
    assert Value(Decimal(false, v2, 0)) == v2 as real;
  }

  /** A round that goes on inside a container, and moves, continues the scan there. */
  lemma WalkOn(c: Config, len1: nat, s1: seq<byte>, len2: nat, s2: seq<byte>, i1: nat, i2: nat, depth: int)
    requires Sized(c.tables)
    requires i1 < |s1| && i2 < |s2|
    requires var r := StepAt(c, len1, s1, len2, s2, i1, i2, depth);
      r.Continue? && r.depth > 0 && (r.i1 != i1 || r.i2 != i2)
    ensures var r := StepAt(c, len1, s1, len2, s2, i1, i2, depth);
      Walk(c, len1, s1, len2, s2, i1, i2, depth) == Walk(c, len1, s1, len2, s2, r.i1, r.i2, r.depth)
  {
  }

  /** Arrays compare element by element: `[1,2]` before `[1,3]`. */
  lemma ArraysByElement(c: Config)
    requires Sized(c.tables)
    ensures Collate(c, 5, OneTwo, 5, OneThree) == Returns(-1)
  {
    var s1, s2 := OneTwo, OneThree;
    OpenStep(c, 5, s1, 5, s2, 0, 0, 0);
    WalkOn(c, 5, s1, 5, s2, 0, 0, 0);
    DigitStep(c, 5, s1, 5, s2, 1, 1, 1);
    WalkOn(c, 5, s1, 5, s2, 1, 1, 1);
    CommaStep(c, 5, s1, 5, s2, 2, 2, 1);
    WalkOn(c, 5, s1, 5, s2, 2, 2, 1);
    DigitStep(c, 5, s1, 5, s2, 3, 3, 1);
  }

  /** An array that is a prefix of another sorts first: the `]` of `[1]` meets the `,`
      of `[1,2]`. */
  lemma ShorterArrayFirst(c: Config)
    requires Sized(c.tables)
    ensures Collate(c, 3, OneAlone, 5, OneTwo) == Returns(-1)
  {
    var s1, s2 := OneAlone, OneTwo;
    OpenStep(c, 3, s1, 5, s2, 0, 0, 0);
    WalkOn(c, 3, s1, 5, s2, 0, 0, 0);
    DigitStep(c, 3, s1, 5, s2, 1, 1, 1);
    WalkOn(c, 3, s1, 5, s2, 1, 1, 1);
    MismatchDecides(c, 3, s1, 5, s2, 2, 2, 1);
    RawRanks();
  }

  /** A plain byte: neither the closing quote nor a backslash. */
  predicate Plain(x: byte) {
    x != QUOTE && x != BACKSLASH
  }

  /** `"a\tb"` for any plain bytes `a` and `b`. */
  function ShortTab(a: byte, b: byte): seq<byte> {
    [QUOTE, a, BACKSLASH, 't' as byte, b, QUOTE]
  }

  /** `"a\u0009b"` for any plain bytes `a` and `b`. */
  function UnicodeTab(a: byte, b: byte): seq<byte> {
    [QUOTE, a, BACKSLASH, 'u' as byte, '0' as byte, '0' as byte, '0' as byte, '9' as byte, b, QUOTE]
  }

  /** Both copies decode `\t` to a tab. */
  lemma ShortTabDecodes(port: Port, a: byte, b: byte)
    requires Plain(a) && Plain(b)
    ensures Unescape(Decoder(port), ShortTab(a, b), 0) == Ok(Decoded([a, 9, b], 5))
  {
    var esc, s := Decoder(port), ShortTab(a, b);
    PlainDecodes(esc, s, 4, 5);
    assert s[4..5] == [b];
    assert UnitAt(esc, s, 2) == Ok(Unit(9, 3));
    assert DecodeFrom(esc, s, 2) == Ok(Decoded([9] + [b], 5));
    assert [9] + [b] == [9, b];
    PlainByteDecodes(esc, s, 1);
    assert [a] + [9, b] == [a, 9, b];
  }

  /** Both copies decode `\u0009` to a tab. */
  lemma UnicodeTabDecodes(port: Port, a: byte, b: byte)
    requires Plain(a) && Plain(b)
    ensures Unescape(Decoder(port), UnicodeTab(a, b), 0) == Ok(Decoded([a, 9, b], 9))
  {
    var esc, s := Decoder(port), UnicodeTab(a, b);
    PlainDecodes(esc, s, 8, 9);
    assert s[8..9] == [b];
    HexDigitsCombine(s[4], s[5], s[6], s[7]);
    assert UnitAt(esc, s, 2) == Ok(Unit(9, 7));
    assert DecodeFrom(esc, s, 2) == Ok(Decoded([9] + [b], 9));
    assert [9] + [b] == [9, b];
    PlainByteDecodes(esc, s, 1);
    assert [a] + [9, b] == [a, 9, b];
  }

  /** Two top-level strings that decode to the same content tie, under every rule when
      the content is ASCII and under the byte rules always. */
  lemma EqualContentsTie(c: Config, len1: nat, s1: seq<byte>, len2: nat, s2: seq<byte>)
    requires Initialized(c.tables)
    requires |s1| > 0 && |s2| > 0 && s1[0] == QUOTE && s2[0] == QUOTE
    requires Unescape(c.dialect.esc, s1, 0).Ok? && Unescape(c.dialect.esc, s2, 0).Ok?
    requires Unescape(c.dialect.esc, s1, 0).value.chars == Unescape(c.dialect.esc, s2, 0).value.chars
    requires c.mode == Unicode ==> AllAscii(Unescape(c.dialect.esc, s1, 0).value.chars)
    ensures Collate(c, len1, s1, len2, s2) == Returns(0)
  {
    var a := Unescape(c.dialect.esc, s1, 0).value.chars;
    if c.mode == Unicode {
      UnicodeOnAscii(c.dialect.esc, c.tables, c.uca, s1, 0, s2, 0);
      FastFollowsPriorities(c.dialect.esc, c.tables, s1, 0, s2, 0);
      LexByAntisymmetric(CaseInsensitiveKey(), a, a);
      LexByAntisymmetric(PriorityKey(), a, a);
    } else {
      AsciiComparesDecoded(c.dialect, s1, 0, s2, 0);
      LexByAntisymmetric(CharKey(c.dialect.signedChar), a, a);
    }
  }

  /** A short escape and the `\u` escape of the same character compare equal, under
      every rule and in both copies, between any two plain ASCII bytes. */
  lemma EscapesCompareEqual(c: Config, port: Port, len1: nat, len2: nat, a: byte, b: byte)
    requires Initialized(c.tables)
    requires c.dialect.esc == Decoder(port)
    requires Plain(a) && Plain(b) && !HighBit(a) && !HighBit(b)
    ensures Collate(c, len1, ShortTab(a, b), len2, UnicodeTab(a, b)) == Returns(0)
  {
    ShortTabDecodes(port, a, b);
    UnicodeTabDecodes(port, a, b);
    assert AllAscii([a, 9, b]);
    EqualContentsTie(c, len1, ShortTab(a, b), len2, UnicodeTab(a, b));
  }

  /** `"Abc"` and `"abc"` decode to their letters under every dialect. */
  lemma CapitalAndSmall(esc: EscapeByte)
    ensures Unescape(esc, QuotedCapital, 0) == Ok(Decoded(Capital, 4))
    ensures Unescape(esc, QuotedSmall, 0) == Ok(Decoded(Small, 4))
  {
    PlainDecodes(esc, QuotedCapital, 1, 4);
    PlainDecodes(esc, QuotedSmall, 1, 4);
    assert QuotedCapital[1..4] == Capital && QuotedSmall[1..4] == Small;
  }

  /** Case decides last in the priority order, and a capital sorts after its small
      letter. */
  lemma CapitalAfterSmallInPriority()
    ensures FastOrder(Capital, Small) == 1
  {
    LowercaseBeforeUppercase('a' as byte);
    assert Capital[1..] == Small[1..];
    LexByAntisymmetric(CaseInsensitiveKey(), Capital[1..], Small[1..]);
    assert LexBy(CaseInsensitiveKey(), Capital, Small) == 0;
    assert LexBy(PriorityKey(), Capital, Small) == 1;
  }

  /** Under the Unicode rule `"Abc"` sorts after `"abc"`. */
  lemma CapitalAfterSmall(c: Config, len1: nat, len2: nat)
    requires Initialized(c.tables) && c.mode == Unicode
    ensures Collate(c, len1, QuotedCapital, len2, QuotedSmall) == Returns(1)
  {
    CapitalAndSmall(c.dialect.esc);
    assert AllAscii(Capital) && AllAscii(Small);
    UnicodeOnAscii(c.dialect.esc, c.tables, c.uca, QuotedCapital, 0, QuotedSmall, 0);
    FastFollowsPriorities(c.dialect.esc, c.tables, QuotedCapital, 0, QuotedSmall, 0);
    CapitalAfterSmallInPriority();
  }

  /** Under the byte comparison the capital, a smaller byte, sorts first. */
  lemma CapitalBeforeSmallAsBytes(c: Config, len1: nat, len2: nat)
    requires Sized(c.tables) && c.mode != Unicode
    ensures Collate(c, len1, QuotedCapital, len2, QuotedSmall) == Returns(-1)
  {
    CapitalAndSmall(c.dialect.esc);
    AsciiComparesDecoded(c.dialect, QuotedCapital, 0, QuotedSmall, 0);
    assert LexBy(CharKey(c.dialect.signedChar), Capital, Small) == -1;
  }

  // Antisymmetry

  /** An outcome seen from the other side. */
  function Negated(o: Outcome): Outcome {
    match o
    case Returns(n) => Returns(-n)
    case _ => o
  }

  function SwappedStep(r: Step): Step {
    match r
    case Done(o) => Done(Negated(o))
    case Continue(j1, j2, d) => Continue(j2, j1, d)
  }

  /** Swapping the texts negates the decision of a round on two numbers. */
  lemma NumberStepAntisymmetric(len1: nat, s1: seq<byte>, len2: nat, s2: seq<byte>, i1: nat, i2: nat, depth: int)
    ensures NumberStep(len2, s2, len1, s1, i2, i1, depth) == SwappedStep(NumberStep(len1, s1, len2, s2, i1, i2, depth))
  {
    var n1 := if depth == 0 then BoundedRead(s1, i1, len1) else Strtod(s1, i1);
    var n2 := if depth == 0 then BoundedRead(s2, i2, len2) else Strtod(s2, i2);
    if n1.Ok? && n2.Ok? {
      var v1, v2 := Value(n1.value.number), Value(n2.value.number);
      assert DCmp(v2, v1) == -DCmp(v1, v2);
    }
  }

  /** Swapping the texts negates the decision of a round on two strings. */
  lemma StringStepAntisymmetric(c: Config, s1: seq<byte>, s2: seq<byte>, i1: nat, i2: nat, depth: int)
    requires Sized(c.tables)
    requires Antisymmetric(c.uca)
    ensures StringStep(c, s2, s1, i2, i1, depth) == SwappedStep(StringStep(c, s1, s2, i1, i2, depth))
  {
    if c.mode == Unicode {
      UnicodeAntisymmetric(c.dialect.esc, c.tables, c.uca, s1, i1, s2, i2);
    } else {
      AsciiAntisymmetric(c.dialect, Tokens(c.dialect.esc, s1, i1 + 1), Tokens(c.dialect.esc, s2, i2 + 1), i1, i2);
    }
  }

  /** Swapping the texts negates the decision of a round, or swaps the new cursors. */
  lemma StepAntisymmetric(c: Config, len1: nat, s1: seq<byte>, len2: nat, s2: seq<byte>, i1: nat, i2: nat, depth: int)
    requires Sized(c.tables)
    requires i1 < |s1| && i2 < |s2| && Antisymmetric(c.uca)
    ensures StepAt(c, len2, s2, len1, s1, i2, i1, depth) == SwappedStep(StepAt(c, len1, s1, len2, s2, i1, i2, depth))
  {
    var t1, t2 := ValueTypeOf(s1[i1]), ValueTypeOf(s2[i2]);
    if t1 != t2 {
      CmpAntisymmetric(Ordinal(t1), Ordinal(t2));
      CmpAntisymmetric(RawOrder(t1), RawOrder(t2));
    } else if t1 == Number {
      NumberStepAntisymmetric(len1, s1, len2, s2, i1, i2, depth);
    } else if t1 == String {
      StringStepAntisymmetric(c, s1, s2, i1, i2, depth);
    }
  }

  /** Swapping the texts negates the rest of the scan. */
  lemma {:induction false} WalkAntisymmetric(c: Config, len1: nat, s1: seq<byte>, len2: nat, s2: seq<byte>,
                                             i1: nat, i2: nat, depth: int)
    requires Sized(c.tables)
    requires Antisymmetric(c.uca)
    ensures Walk(c, len2, s2, len1, s1, i2, i1, depth) == Negated(Walk(c, len1, s1, len2, s2, i1, i2, depth))
    decreases |s1| + |s2| - i1 - i2
  {
    if i1 < |s1| && i2 < |s2| {
      StepAntisymmetric(c, len1, s1, len2, s2, i1, i2, depth);
      match StepAt(c, len1, s1, len2, s2, i1, i2, depth)
      case Done(_) =>
      case Continue(j1, j2, d) =>
        if d > 0 && !(j1 == i1 && j2 == i2) {
          WalkAntisymmetric(c, len1, s1, len2, s2, j1, j2, d);
        }
    }
  }

  /** The collation is antisymmetric under every rule, given an antisymmetric locale
      compare: swapping the texts negates the order, and reading past the memory or
      looping happens in both orders or in neither. */
  lemma CollateAntisymmetric(c: Config, len1: nat, s1: seq<byte>, len2: nat, s2: seq<byte>)
    requires Sized(c.tables)
    requires Antisymmetric(c.uca)
    ensures Collate(c, len2, s2, len1, s1) == Negated(Collate(c, len1, s1, len2, s2))
  {
    WalkAntisymmetric(c, len1, s1, len2, s2, 0, 0, 0);
  }

  /** Every text ties with itself whenever the scan returns. */
  lemma CollateReflexive(c: Config, len: nat, s: seq<byte>)
    requires Sized(c.tables)
    requires Antisymmetric(c.uca)
    ensures Collate(c, len, s, len, s).Returns? ==> Collate(c, len, s, len, s).order == 0
  {
    CollateAntisymmetric(c, len, s, len, s);
  }

  /** Both entry points are antisymmetric for an antisymmetric locale compare, and the
      JNI copy ties everything under a NULL context. */
  lemma JniAntisymmetric(context: Option<nat>, signedChar: bool, uca: (seq<byte>, seq<byte>) -> int,
                         len1: nat, s1: seq<byte>, len2: nat, s2: seq<byte>)
    requires Antisymmetric(uca)
    ensures context.None? ==> CollateJni(context, signedChar, uca, len1, s1, len2, s2) == Returns(0)
    ensures CollateJni(context, signedChar, uca, len2, s2, len1, s1) ==
      Negated(CollateJni(context, signedChar, uca, len1, s1, len2, s2))
  {
    if context.Some? {
      var c := Config(RuleMode(context.value), Dialect(Decoder(JniPort), signedChar), BuiltTables(), uca);
      CollateAntisymmetric(c, len1, s1, len2, s2);
    }
  }

  lemma LegacyAntisymmetric(context: nat, signedChar: bool, uca: (seq<byte>, seq<byte>) -> int,
                            len1: nat, s1: seq<byte>, len2: nat, s2: seq<byte>)
    requires Antisymmetric(uca)
    ensures CollateLegacy(context, signedChar, uca, len2, s2, len1, s1) ==
      Negated(CollateLegacy(context, signedChar, uca, len1, s1, len2, s2))
  {
    var c := Config(RuleMode(context), Dialect(Decoder(LegacyPort), signedChar), BuiltTables(), uca);
    CollateAntisymmetric(c, len1, s1, len2, s2);
  }
}
