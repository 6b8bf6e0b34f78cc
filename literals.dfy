/**
 * The literal sub-grammar of GeoffReader: strings, numbers, booleans, null and
 * homogeneous arrays (readString, readNumber, readBoolean, readArray, readValue).
 */
module Literals {
  import opened Wrappers
  import opened Chars
  import opened Values
  import opened Scan
  import JsonString

  // ---------------------------------------------------------------- strings

  const EscapedQuote: seq<char> := ['\\', '"']

  /** The span loop of readString as written: after the opening character it keeps
      appending readUntil('"') while the text so far ends with a backslash and a quote. */
  function SpanEndAsWritten(src: seq<char>, i: nat, j: nat): (k: nat)
    requires i < j <= |src|
    ensures j <= k <= |src|
    decreases |src| - j
  {
    if j == |src| then j
    else
      var k := UntilEnd(src, j, '"');
      if !EndsWith(src[i..k], EscapedQuote) then k else SpanEndAsWritten(src, i, k)
  }

  /** The number of backslashes that end s. */
  function TrailingBackslashes(s: seq<char>): (n: nat)
    ensures n <= |s|
  {
    if s != [] && s[|s| - 1] == '\\' then 1 + TrailingBackslashes(s[..|s| - 1]) else 0
  }

  /** A span whose last quote is escaped: an odd number of backslashes precede it. */
  predicate QuoteIsEscaped(span: seq<char>) {
    |span| > 0 && span[|span| - 1] == '"' && TrailingBackslashes(span[..|span| - 1]) % 2 == 1
  }

  /** The span loop of readString with the end test the JSON grammar calls for. */
  function SpanEnd(src: seq<char>, i: nat, j: nat): (k: nat)
    requires i < j <= |src|
    ensures j <= k <= |src|
    ensures k < |src| ==> src[k - 1] == '"' && !QuoteIsEscaped(src[i..k])
    decreases |src| - j
  {
    if j == |src| then j
    else
      var k := UntilEnd(src, j, '"');
      if !QuoteIsEscaped(src[i..k]) then
        assert k < |src| ==> src[k - 1] == '"';
        k
      else SpanEnd(src, i, k)
  }

  /** readString: reads one character (the opening quote), captures the span up to
      the closing quote, and decodes it as JSON. */
  function ReadString(src: seq<char>, i: nat): (r: Result<(string, nat), ParseError>)
    requires i <= |src|
    ensures r.Ok? ==> i < r.value.1 <= |src|
    ensures r.Ok? ==> JsonString.Decode(src[i..r.value.1]) == Ok(r.value.0)
  {
    var first :- Read(src, i);
    var k := SpanEnd(src, i, first.1);
    var v :- JsonString.Decode(src[i..k]);
    Ok((v, k))
  }

  // ---------------------------------------------------------------- booleans

  /** readBoolean: `true` or `false`, matched one character at a time. */
  function ReadBoolean(src: seq<char>, i: nat): (r: Result<(bool, nat), ParseError>)
    requires i <= |src|
    ensures r.Ok? ==> i < r.value.1 <= |src|
  {
    if NextIs(src, i, 't') then
      var a := i + 1;  // readChar('t') cannot fail here
      var b :- ReadChar(src, a, 'r');
      var c :- ReadChar(src, b, 'u');
      var d :- ReadChar(src, c, 'e');
      Ok((true, d))
    else if NextIs(src, i, 'f') then
      var a := i + 1;  // readChar('f') cannot fail here
      var b :- ReadChar(src, a, 'a');
      var c :- ReadChar(src, b, 'l');
      var d :- ReadChar(src, c, 's');
      var e :- ReadChar(src, d, 'e');
      Ok((false, e))
    else Err(CannotEstablishTruth)
  }

  // ---------------------------------------------------------------- numbers

  function DigitValue(c: char): nat {
    if IsDigit(c) then (c - '0') as nat else 0
  }

  /** The value of a run of decimal digits. */
  function DigitsValue(s: seq<char>): nat {
    if s == [] then 0 else DigitsValue(s[..|s| - 1]) * 10 + DigitValue(s[|s| - 1])
  }

  /** The shape of the mantissa of a number literal, as offsets from its start: the
      integer digits run from a (1 after a '-', else 0) to b; with a '.' at b, the
      fraction digits run from b + 1 to c; without one, c == b. */
  datatype Mantissa = Mantissa(a: nat, b: nat, hasDot: bool, c: nat)

  /** The shape of the exponent, as offsets from the start of the literal: with an
      'e' or 'E' at c, its digits run from d (after an optional sign) to e; without
      one, e == c. */
  datatype Exponent = Exponent(hasExp: bool, d: nat, e: nat)

  /** The first two parts of readNumber: an optional '-', digits, and an optional '.'
      followed by digits. */
  function ScanMantissa(src: seq<char>, i: nat): (r: Result<Mantissa, ParseError>)
    requires i <= |src|
    ensures r.Ok? ==> r.value.a <= r.value.b <= r.value.c && i + r.value.c < |src|
  {
    ScanInteger(src, i, if NextIs(src, i, '-') then 1 else 0)
  }

  /** The integer digits from offset a, then the fraction. */
  function ScanInteger(src: seq<char>, i: nat, a: nat): (r: Result<Mantissa, ParseError>)
    requires i + a <= |src|
    ensures r.Ok? ==> r.value.a == a <= r.value.b <= r.value.c && i + r.value.c < |src|
  {
    var b :- DigitsEnd(src, i + a);
    ScanFraction(src, i, a, b - i)
  }

  /** The optional '.' and fraction digits after the integer digits, which end at
      offset b. */
  function ScanFraction(src: seq<char>, i: nat, a: nat, b: nat): (r: Result<Mantissa, ParseError>)
    requires a <= b && i + b < |src|
    ensures r.Ok? ==> r.value.a == a && r.value.b == b <= r.value.c && i + r.value.c < |src|
  {
    if NextIs(src, i + b, '.') then
      var c :- DigitsEnd(src, i + b + 1);
      Ok(Mantissa(a, b, true, c - i))
    else Ok(Mantissa(a, b, false, b))
  }

  /** The last part of readNumber: an 'E' or 'e', an optional sign, and digits. */
  function ScanExponent(src: seq<char>, i: nat, c: nat): (r: Result<Exponent, ParseError>)
    requires i + c < |src|
    ensures r.Ok? ==> c <= r.value.e && i + r.value.e < |src|
  {
    if NextIs(src, i + c, 'E') || NextIs(src, i + c, 'e') then ScanExponentDigits(src, i, c + 1)
    else Ok(Exponent(false, c + 1, c))
  }

  /** The exponent after its 'E' or 'e', which ends at offset d0: an optional sign,
      then digits. */
  function ScanExponentDigits(src: seq<char>, i: nat, d0: nat): (r: Result<Exponent, ParseError>)
    requires i + d0 <= |src|
    ensures r.Ok? ==> r.value.hasExp && d0 <= r.value.d <= r.value.e && i + r.value.e < |src|
  {
    var d := if NextIs(src, i + d0, '+') || NextIs(src, i + d0, '-') then d0 + 1 else d0;
    var e :- DigitsEnd(src, i + d);
    Ok(Exponent(true, d, e - i))
  }

  /** Integer.parseInt or Double.parseDouble of the text readNumber gathered, given
      its shape: a '.' or an exponent makes it a Double, which needs a digit in the
      mantissa and, with an exponent, a digit in the exponent; otherwise it is an
      Integer, which needs a digit and must fit in 32 bits. */
  function ParseNumber(text: string, m: Mantissa, x: Exponent): (r: Result<Number, ParseError>)
    requires m.a <= m.b <= |text|
    ensures r.Ok? && r.value.IntNum? ==> IntMin <= r.value.i <= IntMax
    ensures r.Ok? && r.value.RealNum? ==> r.value.d == Literal(text)
    ensures r.Ok? ==> (r.value.RealNum? <==> m.hasDot || x.hasExp)
    ensures r.Err? ==> r.error == InvalidNumberLiteral
  {
    if m.hasDot || x.hasExp then
      var mantissaDigits := (m.b - m.a) + (if m.hasDot then m.c - (m.b + 1) else 0);
      if mantissaDigits >= 1 && (!x.hasExp || x.e > x.d) then Ok(RealNum(Literal(text)))
      else Err(InvalidNumberLiteral)
    else
      var v := (if m.a > 0 then -1 else 1) * DigitsValue(text[m.a..m.b]);
      if m.b > m.a && IntMin <= v <= IntMax then Ok(IntNum(v)) else Err(InvalidNumberLiteral)
  }

  /** readNumber: the text of the literal, then its conversion. */
  function ReadNumber(src: seq<char>, i: nat): (r: Result<(Number, nat), ParseError>)
    requires i <= |src|
    ensures r.Ok? ==> i < r.value.1 < |src|
    ensures r.Ok? && r.value.0.IntNum? ==> IntMin <= r.value.0.i <= IntMax
    ensures r.Ok? && r.value.0.RealNum? ==> r.value.0.d == Literal(src[i..r.value.1])
  {
    var m :- ScanMantissa(src, i);
    var x :- ScanExponent(src, i, m.c);
    var text := src[i..i + x.e];
    var n :- ParseNumber(text, m, x);
    Ok((n, i + x.e))
  }

  // ---------------------------------------------------------------- arrays

  /** The element kind readArray settles on from the first element's lookahead. */
  datatype ItemKind = StrKind | NumKind | BoolKind

  datatype Item = StrItem(s: string) | NumItem(n: Number) | BoolItem(b: bool)

  predicate ItemOfKind(it: Item, kind: ItemKind) {
    match kind
    case StrKind => it.StrItem?
    case NumKind => it.NumItem?
    case BoolKind => it.BoolItem?
  }

  predicate OfKind(items: seq<Item>, kind: ItemKind) {
    forall k :: 0 <= k < |items| ==> ItemOfKind(items[k], kind)
  }

  /** What readArray returns: an empty list, or a list of Strings, Integers, Doubles
      or Booleans. */
  datatype ListLit =
    | EmptyList
    | StrList(strs: seq<string>)
    | IntList(ints: seq<int>)
    | DoubleList(reals: seq<Double>)
    | BoolList(bools: seq<bool>)

  function ReadItem(src: seq<char>, i: nat, kind: ItemKind): (r: Result<(Item, nat), ParseError>)
    requires i <= |src|
    ensures r.Ok? ==> i < r.value.1 <= |src| && OfKind([r.value.0], kind)
  {
    match kind
    case StrKind =>
      var p :- ReadString(src, i);
      Ok((StrItem(p.0), p.1))
    case NumKind =>
      var p :- ReadNumber(src, i);
      Ok((NumItem(p.0), p.1))
    case BoolKind =>
      var p :- ReadBoolean(src, i);
      Ok((BoolItem(p.0), p.1))
  }

  /** One round of the `while (nextCharEquals(','))` loop of readArray: the comma,
      whitespace, an element, whitespace. */
  function NextItem(src: seq<char>, i: nat, kind: ItemKind): (r: Result<(Item, nat), ParseError>)
    requires i < |src|
    ensures r.Ok? ==> i < r.value.1 <= |src| && ItemOfKind(r.value.0, kind)
  {
    var it :- ReadItem(src, WsEnd(src, i + 1), kind);
    assert OfKind([it.0], kind) && [it.0][0] == it.0;
    Ok((it.0, WsEnd(src, it.1)))
  }

  /** The `while (nextCharEquals(','))` loop of readArray. */
  function ItemsLoop(src: seq<char>, i: nat, kind: ItemKind, acc: seq<Item>): (r: Result<(seq<Item>, nat), ParseError>)
    requires i <= |src|
    requires OfKind(acc, kind)
    ensures r.Ok? ==> i <= r.value.1 <= |src| && OfKind(r.value.0, kind)
    ensures r.Ok? ==> |r.value.0| >= |acc| && r.value.0[..|acc|] == acc
    ensures r.Ok? ==> !NextIs(src, r.value.1, ',')
    decreases |src| - i
  {
    if NextIs(src, i, ',') then
      var it :- NextItem(src, i, kind);
      var r := ItemsLoop(src, it.1, kind, acc + [it.0]);
      assert r.Ok? ==> r.value.0[..|acc|] == (acc + [it.0])[..|acc|];
      r
    else Ok((acc, i))
  }

  /** One round of the comma loop: the next element is read and appended, or its
      error ends the loop. */
  lemma ItemsLoopStep(src: seq<char>, i: nat, kind: ItemKind, acc: seq<Item>)
    requires i < |src| && src[i] == ',' && OfKind(acc, kind)
    ensures var it := NextItem(src, i, kind);
      (it.Err? ==> ItemsLoop(src, i, kind, acc) == Err(it.error)) &&
      (it.Ok? ==> OfKind(acc + [it.value.0], kind) &&
                  ItemsLoop(src, i, kind, acc) == ItemsLoop(src, it.value.1, kind, acc + [it.value.0]))
  {
  }

  function ToDouble(n: Number): Double {
    match n
    case IntNum(v) => Widened(v)
    case RealNum(d) => d
  }

  predicate AllIntegers(nums: seq<Number>) {
    forall k :: 0 <= k < |nums| ==> nums[k].IntNum?
  }

  /** The integer list and the double list readArray keeps side by side for a numeric
      array, and the one it returns: the integer list when it is as long as the double
      list, that is, when every element was an Integer. */
  function NumericList(nums: seq<Number>): (l: ListLit)
    ensures l.IntList? <==> AllIntegers(nums)
    ensures l.IntList? ==> |l.ints| == |nums| && forall k :: 0 <= k < |nums| ==> l.ints[k] == nums[k].i
    ensures l.DoubleList? ==> |l.reals| == |nums| && forall k :: 0 <= k < |nums| ==> l.reals[k] == ToDouble(nums[k])
  {
    var ints := IntegerItems(nums);
    var doubles := DoubleItems(nums);
    if |ints| == |doubles| then IntList(ints) else DoubleList(doubles)
  }

  function IntegerItems(nums: seq<Number>): (r: seq<int>)
    ensures |r| <= |nums|
    ensures |r| == |nums| <==> AllIntegers(nums)
    ensures AllIntegers(nums) ==> forall k :: 0 <= k < |nums| ==> r[k] == nums[k].i
  {
    if nums == [] then []
    else
      var rest := IntegerItems(nums[..|nums| - 1]);
      var last := nums[|nums| - 1];
      assert AllIntegers(nums) <==> AllIntegers(nums[..|nums| - 1]) && last.IntNum?;
      if last.IntNum? then rest + [last.i] else rest
  }

  function DoubleItems(nums: seq<Number>): (r: seq<Double>)
    ensures |r| == |nums|
    ensures forall k :: 0 <= k < |nums| ==> r[k] == ToDouble(nums[k])
  {
    if nums == [] then [] else DoubleItems(nums[..|nums| - 1]) + [ToDouble(nums[|nums| - 1])]
  }

  function Numbers(items: seq<Item>): (r: seq<Number>)
    requires OfKind(items, NumKind)
    ensures |r| == |items| && forall k :: 0 <= k < |items| ==> r[k] == items[k].n
  {
    if items == [] then [] else [items[0].n] + Numbers(items[1..])
  }

  function Strs(items: seq<Item>): (r: seq<string>)
    requires OfKind(items, StrKind)
    ensures |r| == |items| && forall k :: 0 <= k < |items| ==> r[k] == items[k].s
  {
    if items == [] then [] else [items[0].s] + Strs(items[1..])
  }

  function Bools(items: seq<Item>): (r: seq<bool>)
    requires OfKind(items, BoolKind)
    ensures |r| == |items| && forall k :: 0 <= k < |items| ==> r[k] == items[k].b
  {
    if items == [] then [] else [items[0].b] + Bools(items[1..])
  }

  function MakeList(kind: ItemKind, items: seq<Item>): ListLit
    requires OfKind(items, kind)
  {
    match kind
    case StrKind => StrList(Strs(items))
    case NumKind => NumericList(Numbers(items))
    case BoolKind => BoolList(Bools(items))
  }

  /** The kind readArray dispatches on, from the lookahead after '[' and whitespace.
      Character.isDigit(peek()) throws at the end of input. */
  function ArrayKind(src: seq<char>, b: nat): (r: Result<ItemKind, ParseError>)
    requires b <= |src|
    ensures r == Ok(StrKind) <==> NextIs(src, b, '"')
    ensures r == Ok(NumKind) <==> NextIs(src, b, '-') || (b < |src| && IsDigit(src[b]))
    ensures r == Ok(BoolKind) <==> NextIs(src, b, 't') || NextIs(src, b, 'f')
    ensures r == Err(NullCharacter) <==> b == |src|
    ensures r.Err? ==> r == Err(NullCharacter) || r == Err(Disarray)
  {
    if NextIs(src, b, '"') then Ok(StrKind)
    else if NextIs(src, b, '-') then Ok(NumKind)
    else if b == |src| then Err(NullCharacter)
    else if IsDigit(src[b]) then Ok(NumKind)
    else if NextIs(src, b, 't') || NextIs(src, b, 'f') then Ok(BoolKind)
    else Err(Disarray)
  }

  /** readArray: '[', whitespace, then the rest of the array. */
  function ReadArray(src: seq<char>, i: nat): (r: Result<(ListLit, nat), ParseError>)
    requires i <= |src|
    ensures r.Ok? ==> i < r.value.1 <= |src|
  {
    var a :- ReadChar(src, i, '[');
    ArrayBody(src, WsEnd(src, a))
  }

  /** After '[' and whitespace: ']' closes an empty list; otherwise the first
      element's lookahead fixes the kind, the elements follow, and ']' closes. */
  function ArrayBody(src: seq<char>, b: nat): (r: Result<(ListLit, nat), ParseError>)
    requires b <= |src|
    ensures r.Ok? ==> b < r.value.1 <= |src|
  {
    if NextIs(src, b, ']') then Ok((EmptyList, b + 1))
    else
      var kind :- ArrayKind(src, b);
      var items :- ArrayItems(src, b, kind);
      var d :- ReadChar(src, items.1, ']');
      Ok((MakeList(kind, items.0), d))
  }

  /** The elements of a non-empty array: the first, then ItemsLoop. */
  function ArrayItems(src: seq<char>, b: nat, kind: ItemKind): (r: Result<(seq<Item>, nat), ParseError>)
    requires b <= |src|
    ensures r.Ok? ==> b < r.value.1 <= |src| && |r.value.0| > 0 && OfKind(r.value.0, kind)
  {
    var first :- ReadItem(src, b, kind);
    ItemsLoop(src, WsEnd(src, first.1), kind, [first.0])
  }

  /** readValue turns an empty list into null and any other list into a typed array. */
  function ListValue(l: ListLit): Value {
    match l
    case EmptyList => Null
    case StrList(s) => StrArray(s)
    case IntList(s) => IntArray(s)
    case DoubleList(s) => RealArray(s)
    case BoolList(s) => BoolArray(s)
  }

  // ---------------------------------------------------------------- values

  /** readValue: dispatches on the lookahead. */
  function ReadValue(src: seq<char>, i: nat): (r: Result<(Value, nat), ParseError>)
    requires i <= |src|
    ensures r.Ok? ==> i < r.value.1 <= |src|
  {
    if NextIs(src, i, '[') then
      var p :- ReadArray(src, i);
      Ok((ListValue(p.0), p.1))
    else if NextIs(src, i, '"') then
      var p :- ReadString(src, i);
      Ok((Str(p.0), p.1))
    else if NextIs(src, i, '-') then
      var p :- ReadNumber(src, i);
      Ok((Num(p.0), p.1))
    else if i == |src| then Err(NullCharacter)
    else if IsDigit(src[i]) then
      var p :- ReadNumber(src, i);
      Ok((Num(p.0), p.1))
    else if NextIs(src, i, 't') || NextIs(src, i, 'f') then
      var p :- ReadBoolean(src, i);
      Ok((Bool(p.0), p.1))
    else if NextIs(src, i, 'n') then
      var a := i + 1;  // readChar('n') cannot fail here
      var b :- ReadChar(src, a, 'u');
      var c :- ReadChar(src, b, 'l');
      var d :- ReadChar(src, c, 'l');
      Ok((Null, d))
    else Err(UnexpectedCharacter)
  }
}
