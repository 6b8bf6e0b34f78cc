/**
 * Property values of the Geoff notation and the errors the reader raises.
 */
module Values {

  /** A double-precision value. The binary conversion done by Double.parseDouble and
      by Number.doubleValue is not modelled: a double is identified by the literal it
      was read from, or by the integer it was widened from. */
  datatype Double = Literal(text: string) | Widened(i: int)

  /** What readNumber returns: a java.lang.Integer or a java.lang.Double. */
  datatype Number = IntNum(i: int) | RealNum(d: Double)

  /** A property value: a JSON-like scalar, null, or a homogeneous array. */
  datatype Value =
    | Null
    | Str(s: string)
    | Num(n: Number)
    | Bool(b: bool)
    | StrArray(strs: seq<string>)
    | IntArray(ints: seq<int>)
    | RealArray(reals: seq<Double>)
    | BoolArray(bools: seq<bool>)

  type Props = map<string, Value>

  /** Why a read fails. Each kind names the Java exception or message it stands for. */
  datatype ParseError =
    | UnexpectedEndOfData     // UnexpectedEndOfData, thrown by read() at the end of input
    | UnexpectedCharacter     // "Unexpected character" (readChar, readValue, readSubgraph)
    | NullCharacter           // NullPointerException: Character.isDigit(peek()) at the end of input
    | Disarray                // "Disarray": an array whose first element has no known kind
    | BrokenArrow             // "Broken arrow"
    | CannotEstablishTruth    // "Cannot establish truth": a boolean not starting with t or f
    | LackOfDirection         // "Lack of direction": -[...]- between two nodes
    | InvalidStringLiteral    // "Unable to parse JSON string"
    | InvalidNumberLiteral    // NumberFormatException from Integer.parseInt / Double.parseDouble
    | CommentTooShort         // StringIndexOutOfBoundsException from substring in readComment

  const IntMin: int := -0x8000_0000
  const IntMax: int := 0x7FFF_FFFF

  /** The entries of p whose value is not null: what NeoLoader.addProperties writes. */
  function NonNull(p: Props): (r: Props)
    ensures r.Keys <= p.Keys
    ensures forall k :: k in p ==> (k in r <==> p[k] != Null)
    ensures forall k :: k in r ==> r[k] == p[k]
  {
    map k | k in p && p[k] != Null :: p[k]
  }

  /** Java's putAll (and the new HashMap copy when the target is null): every entry
      of incoming wins, every other key keeps its value. */
  function Overwrite(base: Props, incoming: Props): (r: Props)
    ensures r.Keys == base.Keys + incoming.Keys
    ensures forall k :: k in incoming ==> r[k] == incoming[k]
    ensures forall k :: k in base && k !in incoming ==> r[k] == base[k]
  {
    base + incoming
  }
}
