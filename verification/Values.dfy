/** The values WSON carries and their byte form: a type signature followed by a payload. */
module Values {
  import opened Words
  import opened Varint
  import opened Seqs
  import Tags

  /** Signatures that share the payload of a UTF-16 string. */
  datatype TextKind = Plain | BigInt | BigDecimal

  /** Floats and doubles are carried as their bit patterns. */
  datatype Value =
    | Null
    | Bool(b: bool)
    | Int(i: i32)
    | Long(l: i64)
    | Float(bits32: u32)
    | Double(bits64: u64)
    | Text(kind: TextKind, units: seq<u16>)
    | Utf8(bytes: seq<u8>)
    | Arr(items: seq<Value>)
    | Obj(members: seq<Member>)

  datatype Member = Member(key: seq<u16>, value: Value)

  function Tag(v: Value): u8 {
    match v
    case Null => Tags.NULL
    case Bool(b) => if b then Tags.TRUE else Tags.FALSE
    case Int(_) => Tags.INT
    case Long(_) => Tags.LONG
    case Float(_) => Tags.FLOAT
    case Double(_) => Tags.DOUBLE
    case Text(kind, _) =>
      (match kind case Plain => Tags.STRING case BigInt => Tags.BIG_INT case BigDecimal => Tags.BIG_DECIMAL)
    case Utf8(_) => Tags.UINT8_STRING
    case Arr(_) => Tags.ARRAY
    case Obj(_) => Tags.MAP
  }

  /** UTF-16 units in memory, low byte first. */
  function Bytes16(units: seq<u16>): (bs: seq<u8>)
    ensures |bs| == 2 * |units|
  {
    seq(2 * |units|, i requires 0 <= i < 2 * |units| => if i % 2 == 0 then units[i / 2] % 256 else units[i / 2] / 256)
  }

  function Units16(bs: seq<u8>): (units: seq<u16>)
    ensures |units| == |bs| / 2
  {
    seq(|bs| / 2, i requires 0 <= i < |bs| / 2 => bs[2 * i] as int + 256 * bs[2 * i + 1] as int)
  }

  lemma UnitAt(units: seq<u16>, i: nat)
    requires i < |units|
    ensures Units16(Bytes16(units))[i] == units[i]
  {
    var low, high := Bytes16(units)[2 * i], Bytes16(units)[2 * i + 1];
    assert low == units[i] % 256 && high == units[i] / 256;
  }

  lemma UnitsOfBytes(units: seq<u16>)
    ensures Units16(Bytes16(units)) == units
  {
    forall i | 0 <= i < |units| ensures Units16(Bytes16(units))[i] == units[i] { UnitAt(units, i); }
    hide Units16, Bytes16;
  }

  /** A byte run with its length in front. */
  function Sized(bs: seq<u8>): seq<u8> { Var(|bs|) + bs }

  function Enc(v: Value): (bs: seq<u8>)
    ensures |bs| >= 1
    decreases v, 1
  {
    [Tag(v)] + Payload(v)
  }

  function Payload(v: Value): seq<u8>
    decreases v, 0
  {
    match v
    case Null => []
    case Bool(_) => []
    case Int(i) => Var(Zig(i))
    case Long(l) => BigEndian(ToUnsigned64(l), 8)
    case Float(bits) => BigEndian(bits, 4)
    case Double(bits) => BigEndian(bits, 8)
    case Text(_, units) => Sized(Bytes16(units))
    case Utf8(bytes) => Sized(bytes)
    case Arr(items) => Var(|items|) + EncItems(items)
    case Obj(members) => Var(|members|) + EncMembers(members)
  }

  function EncItems(items: seq<Value>): (bs: seq<u8>)
    ensures |bs| >= |items|
  {
    if items == [] then [] else Enc(items[0]) + EncItems(items[1..])
  }

  function EncMembers(members: seq<Member>): (bs: seq<u8>)
    ensures |bs| >= |members|
  {
    if members == [] then []
    else Sized(Bytes16(members[0].key)) + Enc(members[0].value) + EncMembers(members[1..])
  }

  // ---- a stream of values can be cut in one way only ----

  lemma SizedPrefixFree(a: seq<u8>, b: seq<u8>, x: seq<u8>, y: seq<u8>)
    requires Sized(a) + x == Sized(b) + y
    ensures a == b && x == y
  {
    Assoc(Var(|a|), a, x);
    Assoc(Var(|b|), b, y);
    VarPrefixFree(|a|, |b|, a + x, b + y);
    Cut(a, x);
    Cut(b, y);
  }

  lemma TextPrefixFree(a: seq<u16>, b: seq<u16>, x: seq<u8>, y: seq<u8>)
    requires Sized(Bytes16(a)) + x == Sized(Bytes16(b)) + y
    ensures a == b && x == y
  {
    SizedPrefixFree(Bytes16(a), Bytes16(b), x, y);
    UnitsOfBytes(a);
    UnitsOfBytes(b);
  }

  lemma BigEndianInjective(a: u64, b: u64)
    requires BigEndian(a, 8) == BigEndian(b, 8)
    ensures a == b
  {
    BigEndianSum8(a);
    BigEndianSum8(b);
  }

  /**
   * The format is self-delimiting and unambiguous: of two byte streams that each begin with an encoded value and
   * are equal, the values are equal and so is what follows.
   */
  lemma {:induction false} EncPrefixFree(a: Value, b: Value, x: seq<u8>, y: seq<u8>)
    requires Enc(a) + x == Enc(b) + y
    ensures a == b && x == y
    decreases a, 1
  {
    Assoc([Tag(a)], Payload(a), x);
    Assoc([Tag(b)], Payload(b), y);
    Cut([Tag(a)], Payload(a) + x);
    Cut([Tag(b)], Payload(b) + y);
    PayloadPrefixFree(a, b, x, y);
  }

  lemma {:induction false} PayloadPrefixFree(a: Value, b: Value, x: seq<u8>, y: seq<u8>)
    requires Tag(a) == Tag(b) && Payload(a) + x == Payload(b) + y
    ensures a == b && x == y
    decreases a, 0
  {
    Cut(Payload(a), x);
    Cut(Payload(b), y);
    match a
    case Null => assert x == y;
    case Bool(_) => assert x == y;
    case Int(i) => VarPrefixFree(Zig(i), Zig(b.i), x, y); ZigZag(i); ZigZag(b.i);
    case Long(l) => BigEndianInjective(ToUnsigned64(l), ToUnsigned64(b.l));
    case Float(bits) => BigEndianSum4(bits); BigEndianSum4(b.bits32);
    case Double(bits) => BigEndianInjective(bits, b.bits64);
    case Text(_, units) => TextPrefixFree(units, b.units, x, y);
    case Utf8(bytes) => SizedPrefixFree(bytes, b.bytes, x, y);
    case Arr(items) =>
      Assoc(Var(|items|), EncItems(items), x);
      Assoc(Var(|b.items|), EncItems(b.items), y);
      VarPrefixFree(|items|, |b.items|, EncItems(items) + x, EncItems(b.items) + y);
      ItemsPrefixFree(items, b.items, x, y);
    case Obj(members) =>
      Assoc(Var(|members|), EncMembers(members), x);
      Assoc(Var(|b.members|), EncMembers(b.members), y);
      VarPrefixFree(|members|, |b.members|, EncMembers(members) + x, EncMembers(b.members) + y);
      MembersPrefixFree(members, b.members, x, y);
  }

  lemma {:induction false} ItemsPrefixFree(a: seq<Value>, b: seq<Value>, x: seq<u8>, y: seq<u8>)
    requires |a| == |b| && EncItems(a) + x == EncItems(b) + y
    ensures a == b && x == y
    decreases a, 0
  {
    if a == [] {
      assert [] + x == x && [] + y == y;
    } else {
      Assoc(Enc(a[0]), EncItems(a[1..]), x);
      Assoc(Enc(b[0]), EncItems(b[1..]), y);
      EncPrefixFree(a[0], b[0], EncItems(a[1..]) + x, EncItems(b[1..]) + y);
      ItemsPrefixFree(a[1..], b[1..], x, y);
      assert a == [a[0]] + a[1..] && b == [b[0]] + b[1..];
    }
  }

  lemma {:induction false} MembersPrefixFree(a: seq<Member>, b: seq<Member>, x: seq<u8>, y: seq<u8>)
    requires |a| == |b| && EncMembers(a) + x == EncMembers(b) + y
    ensures a == b && x == y
    decreases a, 0
  {
    if a == [] {
      assert [] + x == x && [] + y == y;
    } else {
      var ka, va, ra := Sized(Bytes16(a[0].key)), Enc(a[0].value), EncMembers(a[1..]);
      var kb, vb, rb := Sized(Bytes16(b[0].key)), Enc(b[0].value), EncMembers(b[1..]);
      Assoc(ka + va, ra, x);
      Assoc(kb + vb, rb, y);
      Assoc(ka, va, ra + x);
      Assoc(kb, vb, rb + y);
      TextPrefixFree(a[0].key, b[0].key, va + (ra + x), vb + (rb + y));
      EncPrefixFree(a[0].value, b[0].value, ra + x, rb + y);
      MembersPrefixFree(a[1..], b[1..], x, y);
      assert a == [a[0]] + a[1..] && b == [b[0]] + b[1..];
    }
  }
}
