/** Runs of pushes into one buffer: what is in it afterwards, and what it has cost. */
module PushRuns {
  import opened Words
  import opened Seqs
  import opened Varint
  import opened WsonBuffer
  import Tags
  import Growth

  /** One call of a writing function of wson.c. */
  datatype Op =
    | Byte(bt: u8)
    | Boolean(b: bool)
    | Uint(n: u32)
    | Int(i: i32)
    | Ulong(word: u64)
    | Float(bits: u32)
    | Bytes(src: seq<u8>)
    | Property(src: seq<u8>)
    | TypeNull
    | TypeInt(i: i32)
    | TypeDouble(word: u64)
    | TypeFloat(bits: u32)
    | TypeLong(l: i64)
    | TypeString(src: seq<u8>)
    | TypeUint8String(src: seq<u8>)
    | TypeMap(n: u32)
    | TypeArray(n: u32)

  /** The bytes of one push, whatever is in the buffer. */
  function OpBytes(op: Op): seq<u8> {
    match op
    case Byte(bt) => [bt]
    case Boolean(b) => [if b then Tags.TRUE else Tags.FALSE]
    case Uint(n) => Var(n)
    case Int(i) => Var(Zig(i))
    case Ulong(word) => BigEndian(word, 8)
    case Float(bits) => BigEndian(bits, 4)
    case Bytes(src) => src
    case Property(src) => Var(|src|) + src
    case TypeNull => [Tags.NULL]
    case TypeInt(i) => [Tags.INT] + Var(Zig(i))
    case TypeDouble(word) => [Tags.DOUBLE] + BigEndian(word, 8)
    case TypeFloat(bits) => [Tags.FLOAT] + BigEndian(bits, 4)
    case TypeLong(l) => [Tags.LONG] + BigEndian(ToUnsigned64(l), 8)
    case TypeString(src) => [Tags.STRING] + (Var(|src|) + src)
    case TypeUint8String(src) => [Tags.UINT8_STRING] + (Var(|src|) + src)
    case TypeMap(n) => [Tags.MAP] + Var(n)
    case TypeArray(n) => [Tags.ARRAY] + Var(n)
  }

  function RunBytes(ops: seq<Op>): seq<u8> {
    if ops == [] then [] else OpBytes(ops[0]) + RunBytes(ops[1..])
  }

  lemma RunFrom(ops: seq<Op>, i: nat, done: seq<u8>)
    requires i < |ops|
    ensures done + RunBytes(ops[i..]) == done + OpBytes(ops[i]) + RunBytes(ops[i + 1..])
  {
    hide OpBytes;
    assert ops[i..][1..] == ops[i + 1..];
    Assoc(done, OpBytes(ops[i]), RunBytes(ops[i + 1..]));
  }

  method Push(buffer: Buffer, op: Op)
    requires buffer.Writable() && buffer.RoomFor(|OpBytes(op)|)
    modifies buffer, buffer.data
    ensures buffer.Appended(OpBytes(op))
  {
    hide Var, Zig, BigEndian;
    match op
    case Byte(bt) => buffer.PushByte(bt);
    case Boolean(b) => buffer.PushTypeBoolean(b);
    case Uint(n) => buffer.PushUint(n);
    case Int(i) => buffer.PushInt(i);
    case Ulong(word) => buffer.PushUlong(word);
    case Float(bits) => buffer.PushFloat(bits);
    case Bytes(src) => buffer.PushBytes(src);
    case Property(src) => buffer.PushProperty(src);
    case TypeNull => buffer.PushTypeNull();
    case TypeInt(i) => buffer.PushTypeInt(i);
    case TypeDouble(word) => buffer.PushTypeDouble(word);
    case TypeFloat(bits) => buffer.PushTypeFloat(bits);
    case TypeLong(l) => buffer.PushTypeLong(l);
    case TypeString(src) => buffer.PushTypeString(src);
    case TypeUint8String(src) => buffer.PushTypeUint8String(src);
    case TypeMap(n) => buffer.PushTypeMap(n);
    case TypeArray(n) => buffer.PushTypeArray(n);
  }

  /**
   * After any run of pushes from a new buffer its contents are the bytes of the pushes one after another, and all
   * reallocations together have copied less than its length, which is at most twice the contents plus a constant.
   */
  method PushAll(ops: seq<Op>) returns (buffer: Buffer)
    requires |RunBytes(ops)| <= Growth.MAX_CONTENT
    ensures fresh(buffer) && buffer.Valid() && buffer.Contents() == RunBytes(ops)
    ensures buffer.copied + 1024 <= buffer.length <= 2 * |RunBytes(ops)| + 16392
  {
    hide OpBytes, RunBytes;
    buffer := new Buffer.New();
    assert ops[0..] == ops;
    for i := 0 to |ops|
      invariant fresh(buffer) && fresh(buffer.data) && buffer.Writable()
      invariant buffer.Contents() + RunBytes(ops[i..]) == RunBytes(ops)
    {
      RunFrom(ops, i, buffer.Contents());
      Push(buffer, ops[i]);
    }
    NothingLeft(ops, buffer.Contents());
  }

  lemma NothingLeft(ops: seq<Op>, done: seq<u8>)
    ensures done + RunBytes(ops[|ops|..]) == done
  {
  }
}
