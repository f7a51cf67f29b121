/**
 * A reader of JSON texts in UTF-8 by RFC 8259: objects (section 4), arrays (section 5), the integers of section 6 and
 * strings (section 7), with the insignificant white space of section 2. It has nothing in common with the printer.
 */
module JsonReader {
  import opened Words
  import opened Text

  // The structural characters of section 2, by the names they have there, and the characters of section 7.
  const BEGIN_ARRAY: u8 := '[' as int
  const END_ARRAY: u8 := ']' as int
  const BEGIN_OBJECT: u8 := '{' as int
  const END_OBJECT: u8 := '}' as int
  const NAME_SEPARATOR: u8 := ':' as int
  const VALUE_SEPARATOR: u8 := ',' as int
  const QUOTATION_MARK: u8 := '\"' as int
  const ESCAPE: u8 := '\\' as int
  const MINUS_SIGN: u8 := '-' as int

  datatype Json =
    | JNull
    | JBool(b: bool)
    | JNumber(n: int)
    | JString(units: seq<u16>)
    | JArray(items: seq<Json>)
    | JObject(members: seq<JMember>)

  datatype JMember = JMember(key: seq<u16>, value: Json)

  datatype Parsed<+T> = Bad | Good(value: T, rest: seq<u8>)

  // ---- white space and numbers ----

  predicate IsSpace(b: u8) { b == 0x20 || b == 0x09 || b == 0x0A || b == 0x0D }

  function SkipSpace(t: seq<u8>): (r: seq<u8>)
    ensures |r| <= |t|
  {
    if t != [] && IsSpace(t[0]) then SkipSpace(t[1..]) else t
  }

  predicate IsDigit(b: u8) { 0x30 <= b <= 0x39 }

  function DigitRun(t: seq<u8>): (k: nat)
    ensures k <= |t|
  {
    if t != [] && IsDigit(t[0]) then 1 + DigitRun(t[1..]) else 0
  }

  function DigitsValue(ds: seq<u8>): int {
    if ds == [] then 0 else 10 * DigitsValue(ds[..|ds| - 1]) + (ds[|ds| - 1] as int - 0x30)
  }

  /** An optional minus and digits without a superfluous leading zero. */
  function ReadInteger(t: seq<u8>): (r: Parsed<int>)
    ensures r.Good? ==> |r.rest| < |t|
  {
    var negative := t != [] && t[0] == MINUS_SIGN;
    var s := if negative then t[1..] else t;
    var k := DigitRun(s);
    if k == 0 || (k > 1 && s[0] == 0x30) then Bad
    else Good(if negative then -DigitsValue(s[..k]) else DigitsValue(s[..k]), s[k..])
  }

  // ---- strings ----

  function HexDigit(b: u8): (r: Option<nat>)
    ensures r.Some? ==> r.value < 16
  {
    if IsDigit(b) then Some(b - 0x30)
    else if 0x41 <= b <= 0x46 then Some(b - 0x37)
    else if 0x61 <= b <= 0x66 then Some(b - 0x57)
    else None
  }

  /** The unit written as four hexadecimal digits at the front. */
  function Hex4(t: seq<u8>): Option<u16> {
    if |t| < 4 then None
    else match (HexDigit(t[0]), HexDigit(t[1]), HexDigit(t[2]), HexDigit(t[3]))
      case (Some(a), Some(b), Some(c), Some(d)) => Some(a * 0x1000 + b * 0x100 + c * 0x10 + d)
      case _ => None
  }

  /** What the letter after a backslash stands for, except `u`. */
  function EscapedLetter(b: u8): Option<u16> {
    if b == QUOTATION_MARK || b == ESCAPE || b == 0x2F then Some(b)
    else if b == 'b' as int then Some(8)
    else if b == 'f' as int then Some(12)
    else if b == 'n' as int then Some(10)
    else if b == 'r' as int then Some(13)
    else if b == 't' as int then Some(9)
    else None
  }

  /**
   * One character of a string: the units it stands for and the bytes it takes. RFC 8259 forbids bare control
   * characters, and bytes that are not UTF-8 by RFC 3629; the `strict` reader does too. The other one takes any units,
   * lone surrogates among them, in the form of UTF-8.
   */
  function ReadCharacter(t: seq<u8>, strict: bool): (r: Option<(seq<u16>, nat)>)
    ensures r.Some? ==> 1 <= r.value.1 <= |t|
  {
    if t == [] then None
    else if t[0] == ESCAPE then
      if |t| < 2 then None
      else if t[1] == 'u' as int then
        (match Hex4(t[2..])
         case None => None
         case Some(unit) => Some(([unit], 6)))
      else
        (match EscapedLetter(t[1])
         case None => None
         case Some(unit) => Some(([unit], 2)))
    else if strict && (t[0] < 0x20 || CharLength(t) == 0) then None
    else match Head(t)
      case None => None
      case Some((cp, k)) => if cp >= 0x11_0000 then None else Some((UnitsOf(cp), k))
  }

  /** The characters up to the closing quote. */
  function ReadCharacters(t: seq<u8>, strict: bool): (r: Parsed<seq<u16>>)
    ensures r.Good? ==> |r.rest| < |t|
    decreases |t|
  {
    if t == [] then Bad
    else if t[0] == QUOTATION_MARK then Good([], t[1..])
    else match ReadCharacter(t, strict)
      case None => Bad
      case Some((units, k)) =>
        match ReadCharacters(t[k..], strict)
        case Bad => Bad
        case Good(more, rest) => Good(units + more, rest)
  }

  // ---- values ----

  function ReadLiteral(t: seq<u8>, word: seq<u8>, value: Json): (r: Parsed<Json>)
    requires word != []
    ensures r.Good? ==> |r.rest| < |t|
  {
    if word <= t then Good(value, t[|word|..]) else Bad
  }

  function ReadValue(t: seq<u8>): (r: Parsed<Json>)
    ensures r.Good? ==> |r.rest| < |t|
    decreases |t|, 1
  {
    var s := SkipSpace(t);
    if s == [] then Bad
    else if s[0] == QUOTATION_MARK then
      (match ReadCharacters(s[1..], true)
       case Bad => Bad
       case Good(units, rest) => Good(JString(units), rest))
    else if s[0] == BEGIN_ARRAY then
      var inner := SkipSpace(s[1..]);
      if inner != [] && inner[0] == END_ARRAY then Good(JArray([]), inner[1..])
      else
        (match ReadItems(inner)
         case Bad => Bad
         case Good(items, rest) => Good(JArray(items), rest))
    else if s[0] == BEGIN_OBJECT then
      var inner := SkipSpace(s[1..]);
      if inner != [] && inner[0] == END_OBJECT then Good(JObject([]), inner[1..])
      else
        (match ReadMembers(inner)
         case Bad => Bad
         case Good(members, rest) => Good(JObject(members), rest))
    else if s[0] == 't' as int then ReadLiteral(s, Ascii("true"), JBool(true))
    else if s[0] == 'f' as int then ReadLiteral(s, Ascii("false"), JBool(false))
    else if s[0] == 'n' as int then ReadLiteral(s, Ascii("null"), JNull)
    else match ReadInteger(s)
      case Bad => Bad
      case Good(n, rest) => Good(JNumber(n), rest)
  }

  function ReadItems(t: seq<u8>): (r: Parsed<seq<Json>>)
    ensures r.Good? ==> |r.rest| < |t|
    decreases |t|, 2
  {
    match ReadValue(t)
    case Bad => Bad
    case Good(x, after) =>
      var s := SkipSpace(after);
      if s == [] then Bad
      else if s[0] == END_ARRAY then Good([x], s[1..])
      else if s[0] != VALUE_SEPARATOR then Bad
      else match ReadItems(s[1..])
        case Bad => Bad
        case Good(more, rest) => Good([x] + more, rest)
  }

  /** `"key" :` at the front. */
  function ReadKey(t: seq<u8>): (r: Parsed<seq<u16>>)
    ensures r.Good? ==> |r.rest| < |t|
  {
    var s := SkipSpace(t);
    if s == [] || s[0] != QUOTATION_MARK then Bad
    else match ReadCharacters(s[1..], true)
      case Bad => Bad
      case Good(key, after) =>
        var c := SkipSpace(after);
        if c == [] || c[0] != NAME_SEPARATOR then Bad else Good(key, c[1..])
  }

  function ReadMembers(t: seq<u8>): (r: Parsed<seq<JMember>>)
    ensures r.Good? ==> |r.rest| < |t|
    decreases |t|, 2
  {
    match ReadKey(t)
    case Bad => Bad
    case Good(key, afterKey) =>
      match ReadValue(afterKey)
      case Bad => Bad
      case Good(x, after) =>
        var s := SkipSpace(after);
        if s == [] then Bad
        else if s[0] == END_OBJECT then Good([JMember(key, x)], s[1..])
        else if s[0] != VALUE_SEPARATOR then Bad
        else match ReadMembers(s[1..])
          case Bad => Bad
          case Good(more, rest) => Good([JMember(key, x)] + more, rest)
  }

  /** A whole text: one value and nothing but white space around it. */
  function ReadText(t: seq<u8>): Option<Json> {
    match ReadValue(t)
    case Bad => None
    case Good(x, rest) => if SkipSpace(rest) == [] then Some(x) else None
  }
}
