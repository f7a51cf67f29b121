/** The texts wson_parser.cpp prints for values: JSON, and the plain text of one value. */
module JsonText {
  import opened Words
  import opened Values
  import Text

  /** The "%f" texts of the C library for a float and a double, by bit pattern. */
  datatype NumberFormat = NumberFormat(float32: u32 -> seq<u8>, float64: u64 -> seq<u8>)

  const COMMA: u8 := 0x2C
  const COLON: u8 := 0x3A
  const OPEN_ARRAY: u8 := 0x5B
  const CLOSE_ARRAY: u8 := 0x5D
  const OPEN_OBJECT: u8 := 0x7B
  const CLOSE_OBJECT: u8 := 0x7D
  const MINUS: u8 := 0x2D
  const TRUE_TEXT: seq<u8> := [0x74, 0x72, 0x75, 0x65]
  const FALSE_TEXT: seq<u8> := [0x66, 0x61, 0x6C, 0x73, 0x65]

  /** "%d" and "%lld". */
  function Decimal(n: int): seq<u8> { if n < 0 then [MINUS] + Digits(-n) else Digits(n) }

  function Print(f: NumberFormat, v: Value): seq<u8>
    decreases v, 1
  {
    match v
    case Null => [Text.QUOTE, Text.QUOTE]
    case Bool(b) => if b then TRUE_TEXT else FALSE_TEXT
    case Int(i) => Decimal(i)
    case Long(l) => Decimal(l)
    case Float(bits) => f.float32(bits)
    case Double(bits) => f.float64(bits)
    case Text(_, units) => Text.Quoted(units)
    case Utf8(bytes) => bytes
    case Arr(items) => [OPEN_ARRAY] + PrintItems(f, items) + [CLOSE_ARRAY]
    case Obj(members) => [OPEN_OBJECT] + PrintMembers(f, members) + [CLOSE_OBJECT]
  }

  function PrintItems(f: NumberFormat, items: seq<Value>): seq<u8>
    decreases items, 0
  {
    if items == [] then []
    else if |items| == 1 then Print(f, items[0])
    else Print(f, items[0]) + [COMMA] + PrintItems(f, items[1..])
  }

  function PrintMembers(f: NumberFormat, members: seq<Member>): seq<u8>
    decreases members, 0
  {
    if members == [] then []
    else
      var first := Text.Quoted(members[0].key) + [COLON] + Print(f, members[0].value);
      if |members| == 1 then first else first + [COMMA] + PrintMembers(f, members[1..])
  }

  /** The text `nextStringUTF8` gives: strings without quotes, null as nothing, containers as JSON. */
  function PlainText(f: NumberFormat, v: Value): seq<u8> {
    match v
    case Null => []
    case Text(_, units) => Text.Utf8(units)
    case _ => Print(f, v)
  }
}
