/** The decoder of wson_jsc.cpp: values become JavaScript values, property names go through the identifier cache. */
module JsDecoder {
  import opened Words
  import opened Varint
  import opened Values
  import opened WsonBuffer
  import opened Identifiers
  import opened Parser
  import Tags

  /**
   * JavaScript values made by the decoder. `JsInt(n)` is `jsNumber` of an integer, and the floating-point numbers are
   * carried as bit patterns. An object has its named properties in the order in which they were first put, and apart
   * from them those whose name is an index.
   */
  datatype JsTree =
    | JsNull
    | JsBoolean(b: bool)
    | JsInt(n: int)
    | JsFloat(bits32: u32)
    | JsDouble(bits64: u64)
    | JsText(units: seq<u16>)
    | JsUtf8(bytes: seq<u8>)
    | JsArray(items: seq<JsTree>)
    | JsObject(names: seq<Identifier>, properties: map<Identifier, JsTree>, elements: map<u32, JsTree>)

  type JsObj = o: JsTree | o.JsObject? witness JsObject([], map[], map[])

  const EMPTY_OBJECT: JsObj := JsObject([], map[], map[])

  /** `putDirect`: a new name comes last, one that is there keeps its place and gets the new value. */
  function PutDirect(o: JsObj, name: Identifier, value: JsTree): JsObj {
    JsObject(if name in o.properties then o.names else o.names + [name], o.properties[name := value], o.elements)
  }

  function PutDirectIndex(o: JsObj, index: u32, value: JsTree): JsObj {
    JsObject(o.names, o.properties, o.elements[index := value])
  }

  function Put(o: JsObj, name: Identifier, value: JsTree): JsObj {
    match IndexOf(name)
    case Some(index) => PutDirectIndex(o, index, value)
    case None => PutDirect(o, name, value)
  }

  /** What a value decodes to on a machine, with no cache. */
  function Decoded(vm: Vm, v: Value): JsTree
    decreases v, 1
  {
    match v
    case Null => JsNull
    case Bool(b) => JsBoolean(b)
    case Int(i) => JsInt(i)
    case Long(l) => JsInt(l)
    case Float(bits) => JsFloat(bits)
    case Double(bits) => JsDouble(bits)
    case Text(_, units) => JsText(units)
    case Utf8(bytes) => JsUtf8(bytes)
    case Arr(items) => JsArray(DecodedItems(vm, items))
    case Obj(members) => PutAll(vm, EMPTY_OBJECT, members)
  }

  function DecodedItems(vm: Vm, items: seq<Value>): (r: seq<JsTree>)
    ensures |r| == |items|
    decreases items, 0
  {
    if items == [] then [] else [Decoded(vm, items[0])] + DecodedItems(vm, items[1..])
  }

  /** Members put into an object one after another; a later one replaces an earlier one of the same name. */
  function PutAll(vm: Vm, object_: JsObj, members: seq<Member>): JsObj
    decreases members, 0
  {
    if members == [] then object_
    else PutAll(vm, Put(object_, Ident(vm, members[0].key), Decoded(vm, members[0].value)), members[1..])
  }

  lemma ItemsFrom(vm: Vm, items: seq<Value>, i: nat, done: seq<JsTree>)
    requires i < |items|
    ensures done + DecodedItems(vm, items[i..]) == done + [Decoded(vm, items[i])] + DecodedItems(vm, items[i + 1..])
  {
    assert items[i..][1..] == items[i + 1..];
  }

  lemma MembersFrom(vm: Vm, members: seq<Member>, i: nat, object_: JsObj)
    requires i < |members|
    ensures PutAll(vm, object_, members[i..])
      == PutAll(vm, Put(object_, Ident(vm, members[i].key), Decoded(vm, members[i].value)), members[i + 1..])
  {
    assert members[i..][1..] == members[i + 1..];
  }

  lemma NoneLeft(vm: Vm, items: seq<Value>, members: seq<Member>)
    ensures DecodedItems(vm, items[|items|..]) == []
    ensures forall o: JsObj :: PutAll(vm, o, members[|members|..]) == o
  {
  }

  ghost predicate Ready(vm: Vm, buffer: Buffer, cache: array<CacheEntry>)
    reads buffer, cache
  {
    buffer.Valid() && buffer.length == buffer.data.Length < 0x8000_0000 && cache.Length > 0 && CacheOk(vm, cache[..])
  }

  /**
   * Decodes the value at the cursor, which ends exactly behind it. The result is the one without a cache, for a cache
   * in any truthful state, and the cache stays truthful.
   */
  method WsonToJsValue(vm: Vm, buffer: Buffer, cache: array<CacheEntry>, ghost v: Value) returns (r: JsTree)
    requires Ready(vm, buffer, cache) && buffer.Next(Enc(v))
    modifies buffer`position, cache
    ensures Ready(vm, buffer, cache) && r == Decoded(vm, v)
    ensures buffer.position == old(buffer.position) + |Enc(v)|
    decreases v, 1
  {
    hide Var, BigEndian, EncItems, EncMembers, Zig, Bytes16, Enc, Has, DecodedItems, PutAll, CacheOk;
    TagThen(buffer.data[..], buffer.position, v);
    var type_ := buffer.NextType();
    if type_ == Tags.UINT8_STRING {
      var utf8 := NextChunk(buffer, v.bytes);
      return JsUtf8(utf8);
    } else if type_ == Tags.STRING || type_ == Tags.BIG_INT || type_ == Tags.BIG_DECIMAL {
      var bytes := NextChunk(buffer, Bytes16(v.units));
      UnitsOfBytes(v.units);
      return JsText(Units16(bytes));
    } else if type_ == Tags.ARRAY {
      CountThen(buffer.data[..], buffer.position, |v.items|, EncItems(v.items));
      r := ReadArray(vm, buffer, cache, v.items);
      return;
    } else if type_ == Tags.MAP {
      CountThen(buffer.data[..], buffer.position, |v.members|, EncMembers(v.members));
      r := ReadObject(vm, buffer, cache, v.members);
      return;
    } else if type_ == Tags.INT {
      var num := buffer.NextInt(v.i);
      return JsInt(num);
    } else if type_ == Tags.TRUE {
      return JsBoolean(true);
    } else if type_ == Tags.FALSE {
      return JsBoolean(false);
    } else if type_ == Tags.DOUBLE {
      var num := buffer.NextUlong(v.bits64);
      return JsDouble(num);
    } else if type_ == Tags.FLOAT {
      var num := buffer.NextFloat(v.bits32);
      return JsFloat(num);
    } else if type_ == Tags.LONG {
      var num := buffer.NextLong(v.l);
      return JsInt(num);
    }
    return JsNull;
  }

  method ReadArray(vm: Vm, buffer: Buffer, cache: array<CacheEntry>, ghost items: seq<Value>) returns (r: JsTree)
    requires Ready(vm, buffer, cache) && buffer.Next(Var(|items|)) && |items| < 0x8000_0000
    requires Has(buffer.data[..], buffer.position + |Var(|items|)|, EncItems(items))
    modifies buffer`position, cache
    ensures Ready(vm, buffer, cache) && r == JsArray(DecodedItems(vm, items))
    ensures buffer.position == old(buffer.position) + |Var(|items|)| + |EncItems(items)|
    decreases items, 0
  {
    hide Var, Has, Enc, Payload, Tag, EncItems, Decoded, DecodedItems, CacheOk;
    ghost var d, end := buffer.data[..], buffer.position + |Var(|items|)| + |EncItems(items)|;
    var length := buffer.NextUint(|items|);
    NoMore(items, []);
    NoneLeft(vm, items, []);
    var array_: seq<JsTree> := [];
    for i := 0 to length
      invariant Ready(vm, buffer, cache) && buffer.Next(EncItems(items[i..]))
      invariant buffer.position + |EncItems(items[i..])| == end
      invariant array_ + DecodedItems(vm, items[i..]) == DecodedItems(vm, items)
    {
      FirstItem(d, buffer.position, items, i);
      TagThen(d, buffer.position, items[i]);
      ItemsFrom(vm, items, i, array_);
      if buffer.position < buffer.length {
        var item := WsonToJsValue(vm, buffer, cache, items[i]);
        array_ := array_ + [item];
      } else {
        break;
      }
    }
    return JsArray(array_);
  }

  method ReadObject(vm: Vm, buffer: Buffer, cache: array<CacheEntry>, ghost members: seq<Member>) returns (r: JsTree)
    requires Ready(vm, buffer, cache) && buffer.Next(Var(|members|)) && |members| < 0x8000_0000
    requires Has(buffer.data[..], buffer.position + |Var(|members|)|, EncMembers(members))
    modifies buffer`position, cache
    ensures Ready(vm, buffer, cache) && r == PutAll(vm, EMPTY_OBJECT, members)
    ensures buffer.position == old(buffer.position) + |Var(|members|)| + |EncMembers(members)|
    decreases members, 0
  {
    hide Var, Has, Enc, Payload, Tag, EncMembers, Bytes16, Decoded, PutAll, CacheOk, ParseIndex;
    ghost var d, end := buffer.data[..], buffer.position + |Var(|members|)| + |EncMembers(members)|;
    var length := buffer.NextUint(|members|);
    NoMore([], members);
    NoneLeft(vm, [], members);
    var object_: JsObj := EMPTY_OBJECT;
    for i := 0 to length
      invariant Ready(vm, buffer, cache) && buffer.Next(EncMembers(members[i..]))
      invariant buffer.position + |EncMembers(members[i..])| == end
      invariant PutAll(vm, object_, members[i..]) == PutAll(vm, EMPTY_OBJECT, members)
    {
      ghost var m := members[i];
      FirstMember(d, buffer.position, members, i);
      MembersFrom(vm, members, i, object_);
      TagThen(d, buffer.position + |Sized(Bytes16(m.key))|, m.value);
      if buffer.position < buffer.length {
        var data := NextChunk(buffer, Bytes16(m.key));
        UnitsOfBytes(m.key);
        var identifier := MakeIdentifier(vm, cache, Units16(data));
        var index := IndexOf(identifier);
        var value := WsonToJsValue(vm, buffer, cache, m.value);
        if index.Some? {
          object_ := PutDirectIndex(object_, index.value, value);
        } else {
          object_ := PutDirect(object_, identifier, value);
        }
      } else {
        break;
      }
    }
    return object_;
  }
}
