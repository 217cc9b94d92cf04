/** The token classifier of the JSON collator: the kind of value a byte starts, the
    collation modes, and how a kind mismatch is ordered in each mode. */
module ValueTypes {
  import opened Common

  /** `ValueType`, in declaration order, which is the CouchDB collation order of kinds. */
  datatype ValueType =
    | EndArray | EndObject | Comma | Colon
    | Null | False | True | Number | String | Array | Object
    | Illegal

  /** The three rule sets registered as "JSON", "JSON_RAW" and "JSON_ASCII". */
  datatype Mode = Unicode | Raw | Ascii

  /** The enumeration's ordinal. */
  function Ordinal(t: ValueType): nat {
    match t
    case EndArray => 0
    case EndObject => 1
    case Comma => 2
    case Colon => 3
    case Null => 4
    case False => 5
    case True => 6
    case Number => 7
    case String => 8
    case Array => 9
    case Object => 10
    case Illegal => 11
  }

  /** `kRawOrderOfValueType`: the rank of a kind in "raw" collation. */
  function RawOrder(t: ValueType): int {
    match t
    case EndArray => -4
    case EndObject => -3
    case Comma => -2
    case Colon => -1
    case Null => 2
    case False => 1
    case True => 3
    case Number => 0
    case String => 6
    case Array => 5
    case Object => 4
    case Illegal => 7
  }

  /** The bytes that can start a JSON token of a given kind. */
  predicate StartsNumber(c: byte) {
    IsDigit(c) || c == '-' as byte
  }

  /** `valueTypeOf`: the kind of token a byte starts. */
  function ValueTypeOf(c: byte): (t: ValueType)
    ensures t == Number <==> StartsNumber(c)
    ensures t == Null <==> c == 'n' as byte
    ensures t == False <==> c == 'f' as byte
    ensures t == True <==> c == 't' as byte
    ensures t == String <==> c == QUOTE
    ensures t == Array <==> c == '[' as byte
    ensures t == EndArray <==> c == ']' as byte
    ensures t == Object <==> c == '{' as byte
    ensures t == EndObject <==> c == '}' as byte
    ensures t == Comma <==> c == ',' as byte
    ensures t == Colon <==> c == ':' as byte
  {
    if c == 'n' as byte then Null
    else if c == 'f' as byte then False
    else if c == 't' as byte then True
    else if StartsNumber(c) then Number
    else if c == QUOTE then String
    else if c == ']' as byte then EndArray
    else if c == '}' as byte then EndObject
    else if c == ',' as byte then Comma
    else if c == ':' as byte then Colon
    else if c == '[' as byte then Array
    else if c == '{' as byte then Object
    else Illegal
  }

  /** The byte that conventionally spells a token of kind `t` (its first byte). */
  function Lead(t: ValueType): byte
    requires t != Illegal
  {
    match t
    case EndArray => ']' as byte
    case EndObject => '}' as byte
    case Comma => ',' as byte
    case Colon => ':' as byte
    case Null => 'n' as byte
    case False => 'f' as byte
    case True => 't' as byte
    case Number => '0' as byte
    case String => QUOTE
    case Array => '[' as byte
    case Object => '{' as byte
  }

  /** Every kind but Illegal is recognised from its lead byte; every byte outside the
      twenty-one JSON lead bytes is Illegal. */
  lemma ValueTypeOfIsTotal(c: byte, t: ValueType)
    ensures t != Illegal ==> ValueTypeOf(Lead(t)) == t
    ensures ValueTypeOf(c) == Illegal <==>
      !(StartsNumber(c) || c in Bytes("nft\"[]{},:"))
  {
    var lead := Bytes("nft\"[]{},:");
    assert c in lead <==>
      c == lead[0] || c == lead[1] || c == lead[2] || c == lead[3] || c == lead[4] ||
      c == lead[5] || c == lead[6] || c == lead[7] || c == lead[8] || c == lead[9];
  }

  /** How two tokens of different kinds are ordered: by ordinal, except in Raw mode,
      which uses `kRawOrderOfValueType`. */
  function MismatchOrder(mode: Mode, t1: ValueType, t2: ValueType): int {
    if mode != Raw then Cmp(Ordinal(t1), Ordinal(t2))
    else Cmp(RawOrder(t1), RawOrder(t2))
  }

  /** The kind a rank belongs to, in each of the two orders. */
  function KindOfOrdinal(n: nat): ValueType {
    if n == 0 then EndArray else if n == 1 then EndObject else if n == 2 then Comma
    else if n == 3 then Colon else if n == 4 then Null else if n == 5 then False
    else if n == 6 then True else if n == 7 then Number else if n == 8 then String
    else if n == 9 then Array else if n == 10 then Object else Illegal
  }

  function KindOfRawOrder(r: int): ValueType {
    if r == -4 then EndArray else if r == -3 then EndObject else if r == -2 then Comma
    else if r == -1 then Colon else if r == 2 then Null else if r == 1 then False
    else if r == 3 then True else if r == 0 then Number else if r == 6 then String
    else if r == 5 then Array else if r == 4 then Object else Illegal
  }

  /** Both orders give every kind its own rank. */
  lemma RanksAreDistinct(t: ValueType)
    ensures KindOfOrdinal(Ordinal(t)) == t
    ensures KindOfRawOrder(RawOrder(t)) == t
  {
  }

  /** A kind mismatch is always decisive, and swapping the kinds negates it. */
  lemma MismatchIsStrict(mode: Mode, t1: ValueType, t2: ValueType)
    ensures var r := MismatchOrder(mode, t1, t2);
      (r == -1 || r == 0 || r == 1) && (r == 0 <==> t1 == t2) &&
      MismatchOrder(mode, t2, t1) == -r
  {
    RanksAreDistinct(t1);
    RanksAreDistinct(t2);
    if mode == Raw {
      CmpAntisymmetric(RawOrder(t1), RawOrder(t2));
    } else {
      CmpAntisymmetric(Ordinal(t1), Ordinal(t2));
    }
  }

  /** Raw mode ranks the value kinds number < false < null < true < object < array <
      string, every punctuation kind below them and Illegal above them. */
  lemma RawRanks()
    ensures RawOrder(Number) == 0 && RawOrder(False) == 1 && RawOrder(Null) == 2
    ensures RawOrder(True) == 3 && RawOrder(Object) == 4 && RawOrder(Array) == 5
    ensures RawOrder(String) == 6
    ensures forall t :: t in {EndArray, EndObject, Comma, Colon} ==> RawOrder(t) < 0
    ensures forall t :: t != Illegal ==> RawOrder(t) < RawOrder(Illegal)
  {
  }

  /** The default and ASCII modes follow CouchDB's order null < false < true < number <
      string < array < object. */
  lemma DefaultRanks()
    ensures Ordinal(Null) < Ordinal(False) < Ordinal(True) < Ordinal(Number)
    ensures Ordinal(Number) < Ordinal(String) < Ordinal(Array) < Ordinal(Object)
  {
  }
}
