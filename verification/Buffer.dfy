/** The growable byte buffer of wson.c: writing appends at the position, reading advances it. */
module WsonBuffer {
  import opened Words
  import opened Varint
  import opened Growth
  import opened Tags
  import opened Seqs

  method Store(data: array<u8>, at: nat, src: seq<u8>)
    requires at + |src| <= data.Length
    modifies data
    ensures Stored(data, at, src)
  {
    forall i | 0 <= i < |src| {
      data[at + i] := src[i];
    }
  }

  /** The writing loop of `wson_push_uint`: every group with its top bit set, then cleared in the last one. */
  method StoreVar(data: array<u8>, at: nat, num: u32) returns (size: nat)
    requires at + |Var(num)| <= data.Length
    modifies data
    ensures size == |Var(num)| && Stored(data, at, Var(num))
  {
    hide Var;
    var cur := num;
    data[at] := cur % 128 + 128;
    size := 1;
    ghost var done: seq<u8>, before := [], old(data[..at]);
    while cur / 128 != 0
      invariant size == |done| + 1 && at + |done| + |Var(cur)| <= data.Length
      invariant done + Var(cur) == Var(num)
      invariant data[..at + size] == before + done + [cur % 128 + 128]
      decreases cur
    {
      VarGroup(done, cur);
      ghost var written := data[..at + size];
      done := done + [cur % 128 + 128];
      cur := cur / 128;
      data[at + size] := cur % 128 + 128;
      size := size + 1;
      assert data[..at + size] == written + [cur % 128 + 128];
      Assoc(before, done[..size - 2], done[size - 2..]);
    }
    VarGroup(done, cur);
    data[at + size - 1] := data[at + size - 1] % 128;
    assert data[..at + size] == before + done + [cur];
    Assoc(before, done, [cur]);
  }

  /** The unrolled reader of `wson_next_uint`: the number at an index, and the bytes it takes. */
  method LoadVar(data: array<u8>, at: nat) returns (num: u32, size: nat)
    requires at <= data.Length && ReadVar(data[at..]).Some?
    ensures Some((num, size)) == ReadVar(data[at..])
  {
    assert data[at..] == data[..][at..];
    Unrolled(data[..], at);
    hide *;
    num := data[at];
    if num < 128 {
      return num, 1;
    }
    num := Low7(data[at]);
    var chunk := data[at + 1];
    num := num + Low7(chunk) * 0x80;
    if chunk < 128 {
      return num, 2;
    }
    chunk := data[at + 2];
    num := num + Low7(chunk) * 0x4000;
    if chunk < 128 {
      return num, 3;
    }
    chunk := data[at + 3];
    num := num + Low7(chunk) * 0x20_0000;
    if chunk < 128 {
      return num, 4;
    }
    chunk := data[at + 4];
    num := num + Low4(chunk) * 0x1000_0000;
    return num, 5;
  }

  method Store4(data: array<u8>, at: nat, num: u32)
    requires at + 4 <= data.Length
    modifies data
    ensures Stored(data, at, BigEndian(num, 4))
  {
    data[at + 3] := Octet(num, 0);
    data[at + 2] := Octet(num, 1);
    data[at + 1] := Octet(num, 2);
    data[at] := Octet(num, 3);
    forall i | 0 <= i < 4 ensures data[at + i] == BigEndian(num, 4)[i] { BigEndianOctet(num, 4, i); }
  }

  method Store8(data: array<u8>, at: nat, num: u64)
    requires at + 8 <= data.Length
    modifies data
    ensures Stored(data, at, BigEndian(num, 8))
  {
    hide Octet, BigEndian;
    data[at + 7] := Octet(num, 0);
    data[at + 6] := Octet(num, 1);
    data[at + 5] := Octet(num, 2);
    data[at + 4] := Octet(num, 3);
    data[at + 3] := Octet(num, 4);
    data[at + 2] := Octet(num, 5);
    data[at + 1] := Octet(num, 6);
    data[at] := Octet(num, 7);
    forall i | 0 <= i < 8 ensures data[at + i] == BigEndian(num, 8)[i] { BigEndianOctet(num, 8, i); }
  }

  class Buffer {
    var data: array<u8>
    var position: u32
    var length: u32
    ghost var copied: nat  // bytes moved by reallocation so far

    /** The length is what the buffer was told; only a buffer that is pushed to is sure to have as many bytes. */
    ghost predicate Valid()
      reads this
    {
      position <= data.Length
    }

    ghost function Extent(): Extent
      reads this
    {
      Growth.Extent(position, length, copied)
    }

    /** A buffer that was only ever pushed to. */
    ghost predicate Writable()
      reads this
    {
      Valid() && length == data.Length && Sound(Extent())
    }

    /** What has been written. */
    ghost function Contents(): seq<u8>
      requires Valid()
      reads this, data
    {
      data[..position]
    }

    /** `bs` is what the reader finds next. */
    ghost predicate Next(bs: seq<u8>)
      reads this, data
    {
      Has(data[..], position, bs)
    }

    ghost predicate RoomFor(n: nat)
      reads this
    {
      position + n <= MAX_CONTENT
    }

    constructor New()
      ensures Writable() && fresh(data) && position == 0 && Extent() == NEW
    {
      data := new u8[INITIAL];
      position, length, copied := 0, INITIAL, 0;
    }

    constructor From(bytes: array<u8>, length: u32)
      ensures Valid() && data == bytes && position == 0 && this.length == length
    {
      data, position, copied := bytes, 0, 0;
      this.length := length;
    }

    /** The bytes `bs` were appended, and nothing written earlier changed. */
    twostate predicate Appended(bs: seq<u8>)
      requires old(Valid())
      reads this, data
    {
      && Writable()
      && Contents() == old(Contents()) + bs
      && (data == old(data) || fresh(data))
    }

    // ---- growing ----

    method Resize(size: u32)
      requires Writable() && position + size <= MAX_CONTENT + 4 && length < position + size
      modifies this`data, this`length, this`copied
      ensures Valid() && length == data.Length && fresh(data)
      ensures length == Resized(old(length), size) && copied == old(copied) + old(length)
      ensures Contents() == old(Contents())
    {
      var newSize := size;
      if newSize < length {
        if length < 1024 * 16 {
          newSize := 1024 * 16;
        } else {
          newSize := length;
        }
      } else {
        newSize := newSize + INITIAL;
      }
      newSize := newSize + length;
      var moved := new u8[newSize];
      forall i | 0 <= i < data.Length {
        moved[i] := data[i];
      }
      copied := copied + length;
      data := moved;
      length := newSize;
    }

    /** Room for `size` more bytes, of which the caller is going to write `count`. */
    method EnsureSize(size: u32, ghost count: nat)
      requires Writable() && RoomFor(count) && Fits(Push(size, count))
      modifies this`data, this`length, this`copied
      ensures Valid() && length == data.Length && position + size <= length
      ensures Extent().(position := position + count) == After(old(Extent()), Push(size, count))
      ensures Sound(After(old(Extent()), Push(size, count)))
      ensures Contents() == old(Contents())
      ensures data == old(data) || fresh(data)
    {
      SoundAfter(Extent(), Push(size, count));
      if length < position + size {
        Resize(size);
      }
    }

    // ---- writing ----

    method PushByte(bt: u8)
      requires Writable() && RoomFor(1)
      modifies this, data
      ensures Appended([bt])
      ensures Extent() == After(old(Extent()), Push(1, 1))
    {
      EnsureSize(1, 1);
      data[position] := bt;
      position := position + 1;
    }

    /** A type signature is pushed as a byte. */
    method PushType(bt: u8)
      requires Writable() && RoomFor(1)
      modifies this, data
      ensures Appended([bt])
      ensures Extent() == After(old(Extent()), Push(1, 1))
    {
      EnsureSize(1, 1);
      data[position] := bt;
      position := position + 1;
    }

    method PushTypeBoolean(value: bool)
      requires Writable() && RoomFor(1)
      modifies this, data
      ensures Appended([if value then TRUE else FALSE])
      ensures Extent() == After(old(Extent()), Push(2, 1))
    {
      EnsureSize(2, 1);
      if value {
        data[position] := TRUE;
      } else {
        data[position] := FALSE;
      }
      position := position + 1;
    }

    method PushUint(num: u32)
      requires Writable() && RoomFor(|Var(num)|)
      modifies this, data
      ensures Appended(Var(num))
      ensures Extent() == After(old(Extent()), Push(5, |Var(num)|))
    {
      VarRoundTrip(num, []);
      EnsureSize(5, |Var(num)|);
      var size := StoreVar(data, position, num);
      position := position + size;
    }

    method PushInt(value: i32)
      requires Writable() && RoomFor(|Var(Zig(value))|)
      modifies this, data
      ensures Appended(Var(Zig(value)))
    {
      PushUint(Zig(value));
    }

    method PushUlong(num: u64)
      requires Writable() && RoomFor(8)
      modifies this, data
      ensures Appended(BigEndian(num, 8))
      ensures Extent() == After(old(Extent()), Push(8, 8))
    {
      EnsureSize(8, 8);
      Store8(data, position, num);
      position := position + 8;
    }

    method PushFloat(bits: u32)
      requires Writable() && RoomFor(4)
      modifies this, data
      ensures Appended(BigEndian(bits, 4))
      ensures Extent() == After(old(Extent()), Push(4, 4))
    {
      EnsureSize(4, 4);
      Store4(data, position, bits);
      position := position + 4;
    }

    method PushBytes(src: seq<u8>)
      requires Writable() && RoomFor(|src|)
      modifies this, data
      ensures Appended(src)
      ensures Extent() == After(old(Extent()), Push(|src|, |src|))
    {
      EnsureSize(|src|, |src|);
      Store(data, position, src);
      position := position + |src|;
    }

    method PushTypeNull()
      requires Writable() && RoomFor(1)
      modifies this, data
      ensures Appended([NULL])
    {
      PushByte(NULL);
    }

    method PushTypeInt(num: i32)
      requires Writable() && RoomFor(1 + |Var(Zig(num))|)
      modifies this, data
      ensures Appended([INT] + Var(Zig(num)))
    {
      PushByte(INT);
      PushInt(num);
    }

    method PushTypeDouble(bits: u64)
      requires Writable() && RoomFor(9)
      modifies this, data
      ensures Appended([DOUBLE] + BigEndian(bits, 8))
    {
      PushByte(DOUBLE);
      PushUlong(bits);
    }

    method PushTypeFloat(bits: u32)
      requires Writable() && RoomFor(5)
      modifies this, data
      ensures Appended([FLOAT] + BigEndian(bits, 4))
    {
      PushByte(FLOAT);
      PushFloat(bits);
    }

    method PushTypeLong(num: i64)
      requires Writable() && RoomFor(9)
      modifies this, data
      ensures Appended([LONG] + BigEndian(ToUnsigned64(num), 8))
    {
      PushByte(LONG);
      PushUlong(ToUnsigned64(num));
    }

    /** A length-prefixed run of bytes: property names, and the payload of strings. */
    method PushProperty(src: seq<u8>)
      requires Writable() && RoomFor(|Var(|src|)| + |src|)
      modifies this, data
      ensures Appended(Var(|src|) + src)
    {
      PushUint(|src|);
      PushBytes(src);
    }

    method PushTypeString(src: seq<u8>)
      requires Writable() && RoomFor(1 + |Var(|src|)| + |src|)
      modifies this, data
      ensures Appended([STRING] + (Var(|src|) + src))
    {
      PushByte(STRING);
      PushProperty(src);
    }

    method PushTypeUint8String(src: seq<u8>)
      requires Writable() && RoomFor(1 + |Var(|src|)| + |src|)
      modifies this, data
      ensures Appended([UINT8_STRING] + (Var(|src|) + src))
    {
      PushByte(UINT8_STRING);
      PushProperty(src);
    }

    method PushTypeMap(size: u32)
      requires Writable() && RoomFor(1 + |Var(size)|)
      modifies this, data
      ensures Appended([MAP] + Var(size))
    {
      PushByte(MAP);
      PushUint(size);
    }

    method PushTypeArray(size: u32)
      requires Writable() && RoomFor(1 + |Var(size)|)
      modifies this, data
      ensures Appended([ARRAY] + Var(size))
    {
      PushByte(ARRAY);
      PushUint(size);
    }

    // ---- reading ----

    method NextType() returns (t: u8)
      requires Valid() && position < data.Length && data.Length < 0x1_0000_0000
      modifies this`position
      ensures Valid() && position == old(position) + 1 && t == data[old(position)]
    {
      t := data[position];
      position := position + 1;
    }

    /** The bytes at the position are the varint of some number `n`; that number is read. */
    method NextUint(ghost n: u32) returns (num: u32)
      requires Valid() && data.Length < 0x1_0000_0000 && Next(Var(n))
      modifies this`position
      ensures Valid() && num == n && position == old(position) + |Var(n)|
      ensures ReadVar(data[old(position)..]) == Some((num, position - old(position)))
    {
      VarIsNext(data[..], position, n);
      assert data[..][position..] == data[position..];
      var size;
      num, size := LoadVar(data, position);
      position := position + size;
    }

    method NextInt(ghost value: i32) returns (num: i32)
      requires Valid() && data.Length < 0x1_0000_0000 && Next(Var(Zig(value)))
      modifies this`position
      ensures Valid() && num == value && position == old(position) + |Var(Zig(value))|
    {
      var zigged := NextUint(Zig(value));
      ZigZag(value);
      num := Zag(zigged);
    }

    method NextUlong(ghost n: u64) returns (num: u64)
      requires Valid() && data.Length < 0x1_0000_0000 && Next(BigEndian(n, 8))
      modifies this`position
      ensures Valid() && num == n && position == old(position) + 8
    {
      var b := data[position..position + 8];
      position := position + 8;
      var total: int := b[7];
      total := total + b[6] as int * 0x100 + b[5] as int * 0x1_0000 + b[4] as int * 0x100_0000
        + b[3] as int * 0x1_0000_0000
        + b[2] as int * 0x100_0000_0000 + b[1] as int * 0x1_0000_0000_0000 + b[0] as int * 0x100_0000_0000_0000;
      BigEndianSum8(n);
      return total;
    }

    method NextLong(ghost value: i64) returns (num: i64)
      requires Valid() && data.Length < 0x1_0000_0000 && Next(BigEndian(ToUnsigned64(value), 8))
      modifies this`position
      ensures Valid() && num == value && position == old(position) + 8
    {
      var bits := NextUlong(ToUnsigned64(value));
      num := ToSigned64(bits);
    }

    method NextFloat(ghost n: u32) returns (bits: u32)
      requires Valid() && data.Length < 0x1_0000_0000 && Next(BigEndian(n, 4))
      modifies this`position
      ensures Valid() && bits == n && position == old(position) + 4
    {
      var b := data[position..position + 4];
      var total: int := b[3];
      total := total + b[2] as int * 0x100 + b[1] as int * 0x1_0000 + b[0] as int * 0x100_0000;
      position := position + 4;
      BigEndianSum4(n);
      return total;
    }

    method NextBts(count: u32) returns (bs: seq<u8>)
      requires Valid() && position + count <= data.Length && data.Length < 0x1_0000_0000
      modifies this`position
      ensures Valid() && position == old(position) + count && bs == data[old(position)..position]
    {
      bs := data[position..position + count];
      position := position + count;
    }
  }
}
