/** The stream parser of wson_parser.cpp: one cursor over a buffer of well-formed values. */
module Parser {
  import opened Words
  import opened Varint
  import opened Values
  import opened JsonText
  import opened WsonBuffer
  import opened Seqs
  import Converters
  import opened Scratch
  import Text
  import Tags

  // ---- where the parts of an encoding lie ----

  /** The length in front of a list of encoded parts, and the parts. */
  lemma CountThen(d: seq<u8>, p: nat, n: nat, body: seq<u8>)
    requires Has(d, p, Var(n) + body)
    ensures Has(d, p, Var(n)) && Has(d, p + |Var(n)|, body)
    ensures p + |Var(n)| + |body| <= |d|
  {
    HasSplit(d, p, Var(n), body);
  }

  lemma TagThen(d: seq<u8>, p: nat, v: Value)
    requires Has(d, p, Enc(v))
    ensures p < |d| && d[p] == Tag(v) && Has(d, p + 1, Payload(v)) && |Enc(v)| == 1 + |Payload(v)|
  {
    HasSplit(d, p, [Tag(v)], Payload(v));
    assert d[p..p + 1][0] == d[p];
  }

  lemma NoMore(items: seq<Value>, members: seq<Member>)
    ensures items[0..] == items && EncItems(items[|items|..]) == []
    ensures members[0..] == members && EncMembers(members[|members|..]) == []
  {
  }

  lemma FirstItem(d: seq<u8>, p: nat, items: seq<Value>, i: nat)
    requires i < |items| && Has(d, p, EncItems(items[i..]))
    ensures Has(d, p, Enc(items[i])) && Has(d, p + |Enc(items[i])|, EncItems(items[i + 1..]))
    ensures |EncItems(items[i..])| == |Enc(items[i])| + |EncItems(items[i + 1..])|
  {
    assert items[i..][1..] == items[i + 1..];
    HasSplit(d, p, Enc(items[i]), EncItems(items[i + 1..]));
  }

  lemma FirstMember(d: seq<u8>, p: nat, members: seq<Member>, i: nat)
    requires i < |members| && Has(d, p, EncMembers(members[i..]))
    ensures var k, v := Sized(Bytes16(members[i].key)), Enc(members[i].value);
      && Has(d, p, k) && Has(d, p + |k|, v) && Has(d, p + |k| + |v|, EncMembers(members[i + 1..]))
      && |EncMembers(members[i..])| == |k| + |v| + |EncMembers(members[i + 1..])|
  {
    assert members[i..][1..] == members[i + 1..];
    var k, v := Sized(Bytes16(members[i].key)), Enc(members[i].value);
    HasSplit(d, p, k + v, EncMembers(members[i + 1..]));
    HasSplit(d, p, k, v);
  }

  /** The two calls that read a length and then that many bytes. */
  method NextChunk(buffer: Buffer, ghost bs: seq<u8>) returns (r: seq<u8>)
    requires buffer.Valid() && buffer.data.Length < 0x8000_0000 && buffer.Next(Sized(bs))
    modifies buffer`position
    ensures buffer.Valid() && r == bs && buffer.position == old(buffer.position) + |Sized(bs)|
  {
    CountThen(buffer.data[..], buffer.position, |bs|, bs);
    var n := buffer.NextUint(|bs|);
    var size := ToSigned32(n);
    r := buffer.NextBts(size);
  }

  const MEBIBYTE := 0x10_0000

  // ---- what goes through the scratch ----

  /** The conversions that printing a value makes, in order. */
  function Conversions(v: Value): seq<Conversion>
    decreases v, 1
  {
    match v
    case Text(_, units) => [Conversion(true, units)]
    case Arr(items) => ItemConversions(items)
    case Obj(members) => MemberConversions(members)
    case _ => []
  }

  function ItemConversions(items: seq<Value>): seq<Conversion>
    decreases items, 0
  {
    if items == [] then [] else Conversions(items[0]) + ItemConversions(items[1..])
  }

  function MemberConversions(members: seq<Member>): seq<Conversion>
    decreases members, 0
  {
    if members == [] then []
    else [Conversion(true, members[0].key)] + Conversions(members[0].value) + MemberConversions(members[1..])
  }

  /** Those for a plain text: a string goes without quotes. */
  function PlainConversions(v: Value): seq<Conversion> {
    if v.Text? then [Conversion(false, v.units)] else Conversions(v)
  }

  /** A value whose first text is empty leaves the scratch when it is the first to be printed. */
  lemma EmptyFirstLeaves(v: Value)
    requires Conversions(v) != [] && Conversions(v)[0].units == []
    ensures !ConvertedAll(NO_SCRATCH, Conversions(v)).inside
  {
    var cs := Conversions(v);
    EmptyTextFirst(cs[0].quoted);
    StaysOutside(Converted(NO_SCRATCH, cs[0]), cs[1..]);
  }

  lemma {:induction false} StaysOutside(k: Kept, cs: seq<Conversion>)
    requires !k.inside
    ensures !ConvertedAll(k, cs).inside
    decreases |cs|
  {
    if cs != [] { StaysOutside(Converted(k, cs[0]), cs[1..]); }
  }

  class WsonParser {
    const buffer: Buffer
    const format: NumberFormat
    var scratch: Kept

    ghost predicate Valid()
      reads buffer
    {
      buffer.Valid() && buffer.data.Length < 0x8000_0000
    }

    ghost predicate Next(bs: seq<u8>)
      reads buffer, buffer.data
    {
      buffer.Next(bs)
    }

    constructor (data: array<u8>, length: u32, format: NumberFormat)
      requires data.Length < 0x8000_0000
      ensures Valid() && fresh(buffer) && buffer.data == data && buffer.position == 0 && this.format == format
      ensures buffer.length == length && scratch == NO_SCRATCH
    {
      buffer := new Buffer.From(data, length);
      this.format := format;
      scratch := NO_SCRATCH;
    }

    /** Without a length the parser takes the data for one mebibyte, however long they are. */
    constructor Unmeasured(data: array<u8>, format: NumberFormat)
      requires data.Length < 0x8000_0000
      ensures Valid() && fresh(buffer) && buffer.data == data && buffer.position == 0 && this.format == format
      ensures buffer.length == MEBIBYTE && scratch == NO_SCRATCH
    {
      buffer := new Buffer.From(data, 1024 * 1024);
      this.format := format;
      scratch := NO_SCRATCH;
    }

    predicate HasNext()
      reads buffer
    {
      buffer.position < buffer.length
    }

    /** The signature at the cursor; from the length on there is always a null, and the cursor does not move. */
    method NextType() returns (t: u8)
      requires Valid() && (HasNext() ==> buffer.position < buffer.data.Length)
      modifies buffer`position
      ensures Valid()
      ensures old(HasNext()) ==> t == buffer.data[old(buffer.position)] && buffer.position == old(buffer.position) + 1
      ensures !old(HasNext()) ==> t == Tags.NULL && buffer.position == old(buffer.position)
    {
      if buffer.position < buffer.length {
        t := buffer.NextType();
        return;
      }
      return Tags.NULL;
    }

    method BackType()
      requires Valid()
      modifies buffer`position
      ensures Valid()
      ensures buffer.position == if old(buffer.position) > 0 then old(buffer.position) - 1 else 0
    {
      if buffer.position > 0 {
        buffer.position := buffer.position - 1;
      }
    }

    function GetState(): u32
      reads buffer
    {
      buffer.position
    }

    method RestoreToState(state: u32)
      requires Valid() && state <= buffer.data.Length
      modifies buffer`position
      ensures Valid() && GetState() == state
    {
      buffer.position := state;
    }

    method NextMapSize(ghost n: u32) returns (size: i32)
      requires Valid() && n < 0x8000_0000 && Next(Var(n))
      modifies buffer`position
      ensures Valid() && size == n && buffer.position == old(buffer.position) + |Var(n)|
    {
      var num := buffer.NextUint(n);
      size := ToSigned32(num);
    }

    method NextArraySize(ghost n: u32) returns (size: i32)
      requires Valid() && n < 0x8000_0000 && Next(Var(n))
      modifies buffer`position
      ensures Valid() && size == n && buffer.position == old(buffer.position) + |Var(n)|
    {
      var num := buffer.NextUint(n);
      size := ToSigned32(num);
    }

    /** The array never shrinks; it is replaced when there is none or it is too small. A negative length throws. */
    method RequireDecodingBuffer(length: i32) returns (thrown: bool)
      modifies this`scratch
      ensures scratch.inside == old(scratch.inside)
      ensures match Required(old(scratch.size), length)
        case None => thrown && scratch.size == old(scratch.size)
        case Some(size) => !thrown && scratch.size == size
    {
      if scratch.size <= 0 || scratch.size < length {
        if length < 0 {
          return true;
        }
        scratch := scratch.(size := length);
      }
      return false;
    }

    /**
     * Converts by way of the scratch, and notes when a conversion does not stay inside. The result is what the source
     * gives when it does.
     */
    method Convert(utf16: seq<u16>, quoted: bool, str: seq<u8>) returns (r: seq<u8>)
      modifies this`scratch
      ensures r == str + Written(Conversion(quoted, utf16))
      ensures scratch == Converted(old(scratch), Conversion(quoted, utf16))
    {
      hide Request, Text.Utf8, Text.Quoted;
      var written := Written(Conversion(quoted, utf16));
      var thrown := RequireDecodingBuffer(Request(|utf16|));
      var decodingBuffer := new u8[|written| + 1];
      var count;
      if quoted {
        count := Converters.ToQuotedUtf8(utf16, decodingBuffer);
      } else {
        count := Converters.ToUtf8(utf16, decodingBuffer);
      }
      scratch := scratch.(inside := scratch.inside && !thrown && count + 1 <= scratch.size);
      r := str + decodingBuffer[..count];
    }

    method NextMapKeyUtf8(ghost key: seq<u16>) returns (str: seq<u8>)
      requires Valid() && Next(Sized(Bytes16(key)))
      modifies buffer`position, this`scratch
      ensures Valid() && str == Text.Utf8(key)
      ensures buffer.position == old(buffer.position) + |Sized(Bytes16(key))|
      ensures scratch == Converted(old(scratch), Conversion(false, key))
    {
      var bytes := NextChunk(buffer, Bytes16(key));
      UnitsOfBytes(key);
      str := Convert(Units16(bytes), false, []);
    }

    /** Moves the cursor past the payload of a value whose signature has been read. */
    method SkipValue(type_: u8, ghost v: Value)
      requires Valid() && type_ == Tag(v) && Next(Payload(v))
      modifies buffer`position
      ensures Valid() && buffer.position == old(buffer.position) + |Payload(v)|
      decreases v, 1
    {
      hide Var, BigEndian, EncItems, EncMembers, Zig, Has;
      if type_ == Tags.STRING || type_ == Tags.UINT8_STRING || type_ == Tags.BIG_INT || type_ == Tags.BIG_DECIMAL {
        var _ := NextChunk(buffer, if v.Utf8? then v.bytes else Bytes16(v.units));
      } else if type_ == Tags.NULL {
      } else if type_ == Tags.INT {
        var _ := buffer.NextInt(v.i);
      } else if type_ == Tags.FLOAT {
        var _ := buffer.NextFloat(v.bits32);
      } else if type_ == Tags.DOUBLE {
        var _ := buffer.NextUlong(v.bits64);
      } else if type_ == Tags.LONG {
        var _ := buffer.NextLong(v.l);
      } else if type_ == Tags.TRUE {
      } else if type_ == Tags.FALSE {
      } else if type_ == Tags.MAP {
        CountThen(buffer.data[..], buffer.position, |v.members|, EncMembers(v.members));
        SkipMembers(v.members);
      } else if type_ == Tags.ARRAY {
        CountThen(buffer.data[..], buffer.position, |v.items|, EncItems(v.items));
        SkipItems(v.items);
      }
    }

    /** The loop over the entries of a map. */
    method SkipMembers(ghost members: seq<Member>)
      requires Valid() && Next(Var(|members|))
      requires Has(buffer.data[..], buffer.position + |Var(|members|)|, EncMembers(members)) && |members| < 0x8000_0000
      modifies buffer`position
      ensures Valid() && buffer.position == old(buffer.position) + |Var(|members|)| + |EncMembers(members)|
      decreases members, 0
    {
      hide Var, Has, Enc, Payload, Tag, EncItems, EncMembers;
      ghost var d, end := buffer.data[..], buffer.position + |Var(|members|)| + |EncMembers(members)|;
      var length := NextMapSize(|members|);
      NoMore([], members);
      for i := 0 to length
        invariant Valid() && Next(EncMembers(members[i..]))
        invariant buffer.position + |EncMembers(members[i..])| == end
      {
        ghost var m := members[i];
        FirstMember(d, buffer.position, members, i);
        var _ := NextChunk(buffer, Bytes16(m.key));
        TagThen(d, buffer.position, m.value);
        var t := buffer.NextType();
        SkipValue(t, m.value);
      }
    }

    /** The loop over the elements of an array. */
    method SkipItems(ghost items: seq<Value>)
      requires Valid() && Next(Var(|items|))
      requires Has(buffer.data[..], buffer.position + |Var(|items|)|, EncItems(items)) && |items| < 0x8000_0000
      modifies buffer`position
      ensures Valid() && buffer.position == old(buffer.position) + |Var(|items|)| + |EncItems(items)|
      decreases items, 0
    {
      hide Var, Has, Enc, Payload, Tag, EncItems, EncMembers;
      ghost var d, end := buffer.data[..], buffer.position + |Var(|items|)| + |EncItems(items)|;
      var length := NextArraySize(|items|);
      NoMore(items, []);
      for i := 0 to length
        invariant Valid() && Next(EncItems(items[i..]))
        invariant buffer.position + |EncItems(items[i..])| == end
      {
        FirstItem(d, buffer.position, items, i);
        TagThen(d, buffer.position, items[i]);
        var t := buffer.NextType();
        SkipValue(t, items[i]);
      }
    }

    /** Any value is true except false and null; its payload is passed over. */
    method NextBool(type_: u8, ghost v: Value) returns (r: bool)
      requires Valid() && type_ == Tag(v) && Next(Payload(v))
      modifies buffer`position
      ensures Valid() && r == (v != Bool(false) && v != Null)
      ensures buffer.position == old(buffer.position) + |Payload(v)|
    {
      if type_ == Tags.FALSE || type_ == Tags.NULL {
        return false;
      }
      SkipValue(type_, v);
      return true;
    }

    /** Appends the JSON text of the value at the cursor, signature included. */
    method ToJson(builder: seq<u8>, ghost v: Value) returns (r: seq<u8>)
      requires Valid() && Next(Enc(v))
      modifies buffer`position, this`scratch
      ensures Valid() && r == builder + Print(format, v)
      ensures buffer.position == old(buffer.position) + |Enc(v)|
      ensures scratch == ConvertedAll(old(scratch), Conversions(v))
      decreases v, 1
    {
      hide Var, BigEndian, EncItems, EncMembers, Zig, PrintItems, PrintMembers, Decimal, Bytes16, Enc, Has;
      TagThen(buffer.data[..], buffer.position, v);
      var type_ := buffer.NextType();
      r := builder;
      if type_ == Tags.UINT8_STRING {
        var utf8 := NextChunk(buffer, v.bytes);
        r := r + utf8;
      } else if type_ == Tags.STRING || type_ == Tags.BIG_INT || type_ == Tags.BIG_DECIMAL {
        var bytes := NextChunk(buffer, Bytes16(v.units));
        UnitsOfBytes(v.units);
        r := Convert(Units16(bytes), true, r);
      } else if type_ == Tags.NULL {
        r := r + [Text.QUOTE, Text.QUOTE];
      } else if type_ == Tags.INT {
        var num := buffer.NextInt(v.i);
        r := r + Decimal(num);
      } else if type_ == Tags.FLOAT {
        var num := buffer.NextFloat(v.bits32);
        r := r + format.float32(num);
      } else if type_ == Tags.DOUBLE {
        var num := buffer.NextUlong(v.bits64);
        r := r + format.float64(num);
      } else if type_ == Tags.LONG {
        var num := buffer.NextLong(v.l);
        r := r + Decimal(num);
      } else if type_ == Tags.TRUE {
        r := r + TRUE_TEXT;
      } else if type_ == Tags.FALSE {
        r := r + FALSE_TEXT;
      } else if type_ == Tags.MAP {
        CountThen(buffer.data[..], buffer.position, |v.members|, EncMembers(v.members));
        r := MembersToJson(r, v.members);
      } else if type_ == Tags.ARRAY {
        CountThen(buffer.data[..], buffer.position, |v.items|, EncItems(v.items));
        r := ItemsToJson(r, v.items);
      }
    }

    /** The entries of a map in braces, a comma after each but the last. */
    method MembersToJson(builder: seq<u8>, ghost members: seq<Member>) returns (r: seq<u8>)
      requires Valid() && Next(Var(|members|))
      requires Has(buffer.data[..], buffer.position + |Var(|members|)|, EncMembers(members)) && |members| < 0x8000_0000
      modifies buffer`position, this`scratch
      ensures Valid() && buffer.position == old(buffer.position) + |Var(|members|)| + |EncMembers(members)|
      ensures r == builder + ([OPEN_OBJECT] + PrintMembers(format, members) + [CLOSE_OBJECT])
      ensures scratch == ConvertedAll(old(scratch), MemberConversions(members))
      decreases members, 0
    {
      hide Var, Has, Enc, Payload, Tag, EncItems, EncMembers, Print, PrintMembers, Bytes16, Text.Quoted;
      hide ConvertedAll, Converted, Conversions, MemberConversions;
      ghost var d, end := buffer.data[..], buffer.position + |Var(|members|)| + |EncMembers(members)|;
      var length := NextMapSize(|members|);
      NoMore([], members);
      NothingToPrint(format, scratch);
      r := builder + [OPEN_OBJECT];
      ghost var all := r + PrintMembers(format, members);
      for i := 0 to length
        invariant Valid() && Next(EncMembers(members[i..]))
        invariant buffer.position + |EncMembers(members[i..])| == end
        invariant r + PrintMembers(format, members[i..]) == all
        invariant ConvertedAll(scratch, MemberConversions(members[i..]))
               == ConvertedAll(old(scratch), MemberConversions(members))
      {
        ghost var m := members[i];
        FirstMember(d, buffer.position, members, i);
        PrintMembersFrom(format, members, i, r);
        MemberConversionsFrom(members, i, scratch);
        var bytes := NextChunk(buffer, Bytes16(m.key));
        UnitsOfBytes(m.key);
        r := Convert(Units16(bytes), true, r);
        r := r + [COLON];
        r := ToJson(r, m.value);
        if i != length - 1 {
          r := r + [COMMA];
        }
      }
      r := r + [CLOSE_OBJECT];
      assert members[|members|..] == [];
      Bracketed(builder, OPEN_OBJECT, PrintMembers(format, members), CLOSE_OBJECT);
    }

    /** The elements of an array in brackets, a comma after each but the last. */
    method ItemsToJson(builder: seq<u8>, ghost items: seq<Value>) returns (r: seq<u8>)
      requires Valid() && Next(Var(|items|))
      requires Has(buffer.data[..], buffer.position + |Var(|items|)|, EncItems(items)) && |items| < 0x8000_0000
      modifies buffer`position, this`scratch
      ensures Valid() && buffer.position == old(buffer.position) + |Var(|items|)| + |EncItems(items)|
      ensures r == builder + ([OPEN_ARRAY] + PrintItems(format, items) + [CLOSE_ARRAY])
      ensures scratch == ConvertedAll(old(scratch), ItemConversions(items))
      decreases items, 0
    {
      hide Var, Has, Enc, Payload, Tag, EncItems, EncMembers, Print, PrintItems;
      hide ConvertedAll, Conversions, ItemConversions;
      ghost var d, end := buffer.data[..], buffer.position + |Var(|items|)| + |EncItems(items)|;
      r := builder + [OPEN_ARRAY];
      ghost var all := r + PrintItems(format, items);
      var length := NextArraySize(|items|);
      NoMore(items, []);
      NothingToPrint(format, scratch);
      for i := 0 to length
        invariant Valid() && Next(EncItems(items[i..]))
        invariant buffer.position + |EncItems(items[i..])| == end
        invariant r + PrintItems(format, items[i..]) == all
        invariant ConvertedAll(scratch, ItemConversions(items[i..]))
               == ConvertedAll(old(scratch), ItemConversions(items))
      {
        FirstItem(d, buffer.position, items, i);
        PrintItemsFrom(format, items, i, r);
        ItemConversionsFrom(items, i, scratch);
        r := ToJson(r, items[i]);
        if i != length - 1 {
          r := r + [COMMA];
        }
      }
      r := r + [CLOSE_ARRAY];
      assert items[|items|..] == [];
      Bracketed(builder, OPEN_ARRAY, PrintItems(format, items), CLOSE_ARRAY);
    }

    /** The plain text of the value whose signature has been read; containers go back one byte and print as JSON. */
    method NextStringUtf8(type_: u8, ghost v: Value) returns (str: seq<u8>)
      requires Valid() && type_ == Tag(v)
      requires v == Null || (buffer.position > 0 && Has(buffer.data[..], buffer.position - 1, Enc(v)))
      modifies buffer`position, this`scratch
      ensures Valid() && str == PlainText(format, v)
      ensures buffer.position == old(buffer.position) + |Payload(v)|
      ensures scratch == ConvertedAll(old(scratch), PlainConversions(v))
    {
      hide Var, BigEndian, EncItems, EncMembers, Zig, PrintItems, PrintMembers, Decimal, Bytes16, Enc, Has;
      if v != Null { TagThen(buffer.data[..], buffer.position - 1, v); }
      str := [];
      if type_ == Tags.UINT8_STRING {
        var utf8 := NextChunk(buffer, v.bytes);
        return str + utf8;
      } else if type_ == Tags.STRING || type_ == Tags.BIG_INT || type_ == Tags.BIG_DECIMAL {
        var bytes := NextChunk(buffer, Bytes16(v.units));
        UnitsOfBytes(v.units);
        str := Convert(Units16(bytes), false, str);
        return;
      } else if type_ == Tags.NULL {
      } else if type_ == Tags.INT {
        var num := buffer.NextInt(v.i);
        return str + Decimal(num);
      } else if type_ == Tags.FLOAT {
        var num := buffer.NextFloat(v.bits32);
        return str + format.float32(num);
      } else if type_ == Tags.DOUBLE {
        var num := buffer.NextUlong(v.bits64);
        return str + format.float64(num);
      } else if type_ == Tags.LONG {
        var num := buffer.NextLong(v.l);
        return str + Decimal(num);
      } else if type_ == Tags.TRUE {
        return str + TRUE_TEXT;
      } else if type_ == Tags.FALSE {
        return str + FALSE_TEXT;
      } else if type_ == Tags.MAP || type_ == Tags.ARRAY {
        buffer.position := buffer.position - 1;
        str := ToJson(str, v);
      }
    }

    /** The text of the whole buffer; the cursor ends where it was. */
    method ToStringUtf8(ghost v: Value) returns (json: seq<u8>)
      requires Valid() && Has(buffer.data[..], 0, Enc(v)) && buffer.length > 0
      modifies buffer`position, this`scratch
      ensures Valid() && json == PlainText(format, v) && buffer.position == old(buffer.position)
      ensures scratch == ConvertedAll(old(scratch), PlainConversions(v))
    {
      hide Enc, Has, Payload, PlainText, ConvertedAll, PlainConversions;
      var position := buffer.position;
      buffer.position := 0;
      TagThen(buffer.data[..], 0, v);
      var t := NextType();
      json := NextStringUtf8(t, v);
      buffer.position := position;
    }
  }

  // ---- what is still to print ----

  lemma NothingToPrint(f: NumberFormat, k: Kept)
    ensures PrintMembers(f, []) == [] && PrintItems(f, []) == []
    ensures MemberConversions([]) == [] && ItemConversions([]) == []
    ensures forall any :: ConvertedAll(any, []) == any
  {
  }

  lemma PrintItemsFrom(f: NumberFormat, items: seq<Value>, i: nat, done: seq<u8>)
    requires i < |items|
    ensures done + PrintItems(f, items[i..])
      == done + Print(f, items[i]) + (if i == |items| - 1 then [] else [COMMA]) + PrintItems(f, items[i + 1..])
  {
    assert items[i..][1..] == items[i + 1..];
    var first, more := Print(f, items[i]), PrintItems(f, items[i + 1..]);
    if i < |items| - 1 {
      Assoc4(done, first, [COMMA], more);
      Assoc(first, [COMMA], more);
    }
  }

  lemma PrintMembersFrom(f: NumberFormat, members: seq<Member>, i: nat, done: seq<u8>)
    requires i < |members|
    ensures done + PrintMembers(f, members[i..])
      == done + Text.Quoted(members[i].key) + [COLON] + Print(f, members[i].value)
         + (if i == |members| - 1 then [] else [COMMA]) + PrintMembers(f, members[i + 1..])
  {
    assert members[i..][1..] == members[i + 1..];
    var key, v, more := Text.Quoted(members[i].key), Print(f, members[i].value), PrintMembers(f, members[i + 1..]);
    assert done + (key + [COLON] + v) == done + key + [COLON] + v;
    if i < |members| - 1 {
      Assoc4(done, key + [COLON] + v, [COMMA], more);
      Assoc(key + [COLON] + v, [COMMA], more);
    }
  }

  lemma ItemConversionsFrom(items: seq<Value>, i: nat, k: Kept)
    requires i < |items|
    ensures ConvertedAll(k, ItemConversions(items[i..]))
      == ConvertedAll(ConvertedAll(k, Conversions(items[i])), ItemConversions(items[i + 1..]))
  {
    hide Conversions, ConvertedAll;
    assert items[i..][1..] == items[i + 1..];
    ConvertedConcat(k, Conversions(items[i]), ItemConversions(items[i + 1..]));
  }

  lemma MemberConversionsFrom(members: seq<Member>, i: nat, k: Kept)
    requires i < |members|
    ensures ConvertedAll(k, MemberConversions(members[i..]))
      == ConvertedAll(ConvertedAll(Converted(k, Conversion(true, members[i].key)), Conversions(members[i].value)),
                      MemberConversions(members[i + 1..]))
  {
    hide Conversions, ConvertedAll, Converted;
    assert members[i..][1..] == members[i + 1..];
    var key, more := [Conversion(true, members[i].key)], MemberConversions(members[i + 1..]);
    NoneOrOne(k, key[0]);
    ConvertedConcat(k, key + Conversions(members[i].value), more);
    ConvertedConcat(k, key, Conversions(members[i].value));
  }

  lemma Bracketed(before: seq<u8>, open: u8, inside: seq<u8>, close: u8)
    ensures before + [open] + inside + [close] == before + ([open] + inside + [close])
  {
  }
}
