/**
 * The byte format of WSON, as a reader that says it by the characters of wson.h and the table of the documentation. It
 * has nothing in common with the functions that write.
 */
module Format {
  import opened Words
  import opened Seqs
  import opened Varint
  import opened Values

  datatype Read<+T> = Failed | Got(value: T, rest: seq<u8>)

  /** An unsigned number: seven bits a byte, low bits first, the top bit set on all bytes but the last. */
  function ReadNumber(bs: seq<u8>): (r: Read<nat>)
    ensures r.Got? ==> |r.rest| < |bs|
  {
    if bs == [] then Failed
    else if bs[0] < 128 then Got(bs[0], bs[1..])
    else match ReadNumber(bs[1..])
      case Failed => Failed
      case Got(n, rest) => Got(bs[0] - 128 + 128 * n, rest)
  }

  /** 0, -1, 1, -2, 2, … for 0, 1, 2, 3, 4, … */
  function Unzigzag(n: nat): int { if n % 2 == 0 then n / 2 else -(n / 2) - 1 }

  /** The number whose digits are the bytes, most significant first. */
  function BigEndianNumber(bs: seq<u8>): nat {
    if bs == [] then 0 else 256 * BigEndianNumber(bs[..|bs| - 1]) + bs[|bs| - 1]
  }

  lemma {:induction false} BigEndianBound(bs: seq<u8>)
    ensures |bs| == 4 ==> BigEndianNumber(bs) < 0x1_0000_0000
    ensures |bs| == 8 ==> BigEndianNumber(bs) < 0x1_0000_0000_0000_0000
  {
    if |bs| == 4 || |bs| == 8 { PowerBound(bs); }
  }

  function Power256(k: nat): nat { if k == 0 then 1 else 256 * Power256(k - 1) }

  lemma {:induction false} PowerBound(bs: seq<u8>)
    ensures BigEndianNumber(bs) < Power256(|bs|)
    ensures Power256(4) == 0x1_0000_0000 && Power256(8) == 0x1_0000_0000_0000_0000
    decreases |bs|
  {
    if bs != [] { PowerBound(bs[..|bs| - 1]); }
    assert Power256(4) == 0x1_0000_0000;
    assert Power256(8) == 0x1_0000_0000 * Power256(4);
  }

  /** A length and that many bytes. */
  function ReadRun(bs: seq<u8>): (r: Read<seq<u8>>)
    ensures r.Got? ==> |r.rest| < |bs|
  {
    match ReadNumber(bs)
    case Failed => Failed
    case Got(n, rest) => if n <= |rest| then Got(rest[..n], rest[n..]) else Failed
  }

  /** UTF-16 units, low byte first. */
  function LowFirst(bs: seq<u8>): seq<u16> {
    if |bs| < 2 then [] else [bs[0] as int + 256 * bs[1] as int] + LowFirst(bs[2..])
  }

  function ReadText(kind: TextKind, bs: seq<u8>): (r: Read<Value>)
    ensures r.Got? ==> |r.rest| < |bs|
  {
    match ReadRun(bs)
    case Failed => Failed
    case Got(run, rest) => Got(Value.Text(kind, LowFirst(run)), rest)
  }

  function Signed64(n: nat): int { if n < 0x8000_0000_0000_0000 then n else n - 0x1_0000_0000_0000_0000 }

  function ReadValue(bs: seq<u8>): (r: Read<Value>)
    ensures r.Got? ==> |r.rest| < |bs|
    decreases |bs|, 1
  {
    if bs == [] then Failed else ReadBody(bs[0] as char, bs[1..])
  }

  /** What follows a signature. */
  function ReadBody(s: char, body: seq<u8>): (r: Read<Value>)
    ensures r.Got? ==> |r.rest| <= |body|
    decreases |body|, 3
  {
    match s
    case '0' => Got(Null, body)
    case 't' => Got(Bool(true), body)
    case 'f' => Got(Bool(false), body)
    case 'i' =>
      (match ReadNumber(body)
       case Failed => Failed
       case Got(n, rest) => if n < 0x1_0000_0000 then Got(Int(Unzigzag(n)), rest) else Failed)
    case 'l' => ReadWord(body, 8, true)
    case 'd' => ReadWord(body, 8, false)
    case 'F' => ReadWord(body, 4, false)
    case 's' => ReadText(Plain, body)
    case 'g' => ReadText(BigInt, body)
    case 'e' => ReadText(BigDecimal, body)
    case 'u' =>
      (match ReadRun(body)
       case Failed => Failed
       case Got(run, rest) => Got(Value.Utf8(run), rest))
    case '[' => ReadArray(body)
    case '{' => ReadMap(body)
    case _ => Failed
  }

  function ReadArray(body: seq<u8>): (r: Read<Value>)
    ensures r.Got? ==> |r.rest| <= |body|
    decreases |body|, 2
  {
    match ReadNumber(body)
    case Failed => Failed
    case Got(n, rest) =>
      match ReadValues(rest, n)
      case Failed => Failed
      case Got(items, after) => Got(Arr(items), after)
  }

  function ReadMap(body: seq<u8>): (r: Read<Value>)
    ensures r.Got? ==> |r.rest| <= |body|
    decreases |body|, 2
  {
    match ReadNumber(body)
    case Failed => Failed
    case Got(n, rest) =>
      match ReadPairs(rest, n)
      case Failed => Failed
      case Got(members, after) => Got(Obj(members), after)
  }

  /** A big-endian word of four bytes, a float, or of eight, a double or in two's complement. */
  function ReadWord(body: seq<u8>, size: nat, integer: bool): (r: Read<Value>)
    requires size == 4 || size == 8
    ensures r.Got? ==> |r.rest| <= |body|
  {
    if |body| < size then Failed
    else
      BigEndianBound(body[..size]);
      var n := BigEndianNumber(body[..size]);
      Got(if size == 4 then Float(n) else if integer then Long(Signed64(n)) else Double(n), body[size..])
  }

  function ReadValues(bs: seq<u8>, n: nat): (r: Read<seq<Value>>)
    ensures r.Got? ==> |r.rest| <= |bs|
    decreases |bs|, 2
  {
    if n == 0 then Got([], bs)
    else match ReadValue(bs)
      case Failed => Failed
      case Got(v, rest) =>
        match ReadValues(rest, n - 1)
        case Failed => Failed
        case Got(more, after) => Got([v] + more, after)
  }

  function ReadPairs(bs: seq<u8>, n: nat): (r: Read<seq<Member>>)
    ensures r.Got? ==> |r.rest| <= |bs|
    decreases |bs|, 2
  {
    if n == 0 then Got([], bs)
    else match ReadRun(bs)
      case Failed => Failed
      case Got(key, afterKey) =>
        match ReadValue(afterKey)
        case Failed => Failed
        case Got(v, rest) =>
          match ReadPairs(rest, n - 1)
          case Failed => Failed
          case Got(more, after) => Got([Member(LowFirst(key), v)] + more, after)
  }

  // ---- what is written reads back ----

  lemma {:induction false} NumberReads(n: nat, rest: seq<u8>)
    ensures ReadNumber(Var(n) + rest) == Got(n, rest)
    decreases n
  {
    VarCases(n, rest);
    assert (Var(n) + rest)[0] == Var(n)[0];
    if n >= 128 { NumberReads(n / 128, rest); }
    hide Var;
  }

  lemma ZigzagReads(i: i32)
    ensures Unzigzag(Zig(i)) == i
  {
    ZigZag(i);
  }

  lemma {:induction false} WordReads(n: nat, k: nat)
    ensures n < Power256(k) ==> BigEndianNumber(BigEndian(n, k)) == n
    decreases k
  {
    if k > 0 {
      WordReads(n / 256, k - 1);
      var bs := BigEndian(n, k);
      assert bs[..|bs| - 1] == BigEndian(n / 256, k - 1);
    }
  }

  lemma WordsRead(n: u64)
    ensures BigEndianNumber(BigEndian(n, 8)) == n
    ensures n < 0x1_0000_0000 ==> BigEndianNumber(BigEndian(n, 4)) == n
  {
    PowerBound([]);
    WordReads(n, 8);
    WordReads(n, 4);
  }

  lemma RunReads(bs: seq<u8>, rest: seq<u8>)
    ensures ReadRun(Sized(bs) + rest) == Got(bs, rest)
  {
    Assoc(Var(|bs|), bs, rest);
    NumberReads(|bs|, bs + rest);
    Cut(bs, rest);
    hide Var, ReadNumber;
  }

  lemma {:induction false} UnitsLowFirst(units: seq<u16>)
    ensures LowFirst(Bytes16(units)) == units
    decreases |units|
  {
    if units != [] {
      var bs := Bytes16(units);
      UnitsLowFirst(units[1..]);
      assert bs[2..] == Bytes16(units[1..]);
      assert bs[0] == units[0] % 256 && bs[1] == units[0] / 256;
      assert units == [units[0]] + units[1..];
    }
  }

  lemma TextReads(kind: TextKind, units: seq<u16>, rest: seq<u8>)
    ensures ReadText(kind, Sized(Bytes16(units)) + rest) == Got(Value.Text(kind, units), rest)
  {
    RunReads(Bytes16(units), rest);
    UnitsLowFirst(units);
    hide ReadRun, LowFirst, Bytes16, Sized;
  }

  lemma WordReadsBack(n: u64, rest: seq<u8>)
    ensures ReadWord(BigEndian(n, 8) + rest, 8, true) == Got(Long(Signed64(n)), rest)
    ensures ReadWord(BigEndian(n, 8) + rest, 8, false) == Got(Double(n), rest)
    ensures n < 0x1_0000_0000 ==> ReadWord(BigEndian(n, 4) + rest, 4, false) == Got(Float(n), rest)
  {
    WordsRead(n);
    Cut(BigEndian(n, 8), rest);
    Cut(BigEndian(n, 4), rest);
    hide BigEndian, BigEndianNumber;
  }

  lemma NumbersRead(v: Value, rest: seq<u8>)
    requires v.Int? || v.Long? || v.Float? || v.Double?
    ensures ReadBody(Tag(v) as char, Payload(v) + rest) == Got(v, rest)
  {
    hide ReadNumber, ReadWord, BigEndian, Var, Zig, Unzigzag;
    match v
    case Int(i) => NumberReads(Zig(i), rest); ZigzagReads(i);
    case Long(l) => WordReadsBack(ToUnsigned64(l), rest);
    case Float(bits) => WordReadsBack(bits, rest);
    case Double(bits) => WordReadsBack(bits, rest);
  }

  lemma TextsRead(v: Value, rest: seq<u8>)
    requires v.Text? || v.Utf8?
    ensures ReadBody(Tag(v) as char, Payload(v) + rest) == Got(v, rest)
  {
    hide ReadRun, ReadText, Sized, Bytes16;
    match v
    case Text(kind, units) => TextReads(kind, units, rest);
    case Utf8(bytes) => RunReads(bytes, rest);
  }

  /** The format reader gives back every value, whatever follows its encoding. */
  lemma {:induction false} FormatReads(v: Value, rest: seq<u8>)
    ensures ReadValue(Enc(v) + rest) == Got(v, rest)
    decreases v, 1
  {
    Assoc([Tag(v)], Payload(v), rest);
    Cut([Tag(v)], Payload(v) + rest);
    assert (Enc(v) + rest)[0] == Tag(v) && (Enc(v) + rest)[1..] == Payload(v) + rest;
    assert ReadValue(Enc(v) + rest) == ReadBody(Tag(v) as char, Payload(v) + rest);
    hide Enc, ReadValue;
    BodyReads(v, rest);
  }

  lemma ArrayReads(items: seq<Value>, rest: seq<u8>)
    requires ReadValues(EncItems(items) + rest, |items|) == Got(items, rest)
    ensures ReadArray(Var(|items|) + EncItems(items) + rest) == Got(Arr(items), rest)
  {
    Assoc(Var(|items|), EncItems(items), rest);
    NumberReads(|items|, EncItems(items) + rest);
    hide ReadNumber, ReadValues, Var, EncItems;
  }

  lemma MapReads(members: seq<Member>, rest: seq<u8>)
    requires ReadPairs(EncMembers(members) + rest, |members|) == Got(members, rest)
    ensures ReadMap(Var(|members|) + EncMembers(members) + rest) == Got(Obj(members), rest)
  {
    Assoc(Var(|members|), EncMembers(members), rest);
    NumberReads(|members|, EncMembers(members) + rest);
    hide ReadNumber, ReadPairs, Var, EncMembers;
  }

  lemma ContainerBody(v: Value, body: seq<u8>)
    ensures v.Arr? ==> ReadBody(Tag(v) as char, body) == ReadArray(body)
    ensures v.Arr? ==> Payload(v) == Var(|v.items|) + EncItems(v.items)
    ensures v.Obj? ==> ReadBody(Tag(v) as char, body) == ReadMap(body)
    ensures v.Obj? ==> Payload(v) == Var(|v.members|) + EncMembers(v.members)
  {
    hide ReadArray, ReadMap, Var, EncItems, EncMembers;
  }

  lemma BareReads(v: Value, rest: seq<u8>)
    requires v.Null? || v.Bool?
    ensures ReadBody(Tag(v) as char, Payload(v) + rest) == Got(v, rest)
  {
    assert [] + rest == rest;
  }

  lemma {:induction false} BodyReads(v: Value, rest: seq<u8>)
    ensures ReadBody(Tag(v) as char, Payload(v) + rest) == Got(v, rest)
    decreases v, 0
  {
    hide *;
    match v
    case Null => BareReads(v, rest);
    case Bool(_) => BareReads(v, rest);
    case Text(_, _) => TextsRead(v, rest);
    case Utf8(_) => TextsRead(v, rest);
    case Arr(items) =>
      ContainerBody(v, Payload(v) + rest);
      ItemsRead(items, rest);
      ArrayReads(items, rest);
    case Obj(members) =>
      ContainerBody(v, Payload(v) + rest);
      PairsRead(members, rest);
      MapReads(members, rest);
    case _ => NumbersRead(v, rest);
  }

  lemma {:induction false} ItemsRead(items: seq<Value>, rest: seq<u8>)
    ensures ReadValues(EncItems(items) + rest, |items|) == Got(items, rest)
    decreases items, 0
  {
    if items == [] {
      assert [] + rest == rest;
    } else {
      var more := EncItems(items[1..]);
      Assoc(Enc(items[0]), more, rest);
      FormatReads(items[0], more + rest);
      ItemsRead(items[1..], rest);
      hide Enc, ReadValue;
      assert items == [items[0]] + items[1..];
    }
  }

  lemma {:induction false} PairsRead(members: seq<Member>, rest: seq<u8>)
    ensures ReadPairs(EncMembers(members) + rest, |members|) == Got(members, rest)
    decreases members, 0
  {
    if members == [] {
      assert [] + rest == rest;
    } else {
      var m, more := members[0], EncMembers(members[1..]);
      var key, v := Sized(Bytes16(m.key)), Enc(m.value);
      Assoc4(key, v, more, rest);
      RunReads(Bytes16(m.key), v + (more + rest));
      UnitsLowFirst(m.key);
      FormatReads(m.value, more + rest);
      PairsRead(members[1..], rest);
      hide Enc, ReadValue, ReadRun, LowFirst, Bytes16, Sized;
      assert members == [m] + members[1..];
    }
  }
}
