/** The encoder of wson_jsc.cpp: it walks the object graph with an explicit stack of ancestors. */
module JsEncoder {
  import opened Words
  import opened Seqs
  import opened Varint
  import opened Values
  import opened WsonBuffer
  import opened JsGraph
  import opened Identifiers
  import Tags

  /** Whether an object is on the stack already, or the stack is too deep. */
  method CheckDeepAndCircleReference(object_: ObjId, objectStack: seq<ObjId>) returns (r: bool)
    ensures r <==> object_ in objectStack || |objectStack| > 40000
  {
    for i := 0 to |objectStack|
      invariant object_ !in objectStack[..i]
    {
      if objectStack[i] == object_ {
        return true;
      }
    }
    assert objectStack[..|objectStack|] == objectStack;
    if |objectStack| > MAX_DEEP {
      return true;
    }
    return false;
  }

  /** Widens 8-bit characters to 16-bit units in place. */
  method StoreLatin1(data: array<u8>, at: nat, units: seq<u16>)
    requires at + 2 * |units| <= data.Length
    requires forall i :: 0 <= i < |units| ==> units[i] < 0x100
    modifies data
    ensures Stored(data, at, Bytes16(units))
  {
    for i := 0 to |units|
      invariant data[..at + 2 * i] == old(data[..at]) + Bytes16(units)[..2 * i]
    {
      data[at + 2 * i] := units[i];
      data[at + 2 * i + 1] := 0;
    }
  }

  class Encoder {
    const heap: Heap
    const buffer: Buffer
    var objectStack: seq<ObjId>

    constructor (heap: Heap)
      ensures buffer.Writable() && fresh(buffer) && fresh(buffer.data) && buffer.Contents() == []
      ensures this.heap == heap && objectStack == []
    {
      this.heap := heap;
      buffer := new Buffer.New();
      objectStack := [];
    }

    /** The branch for strings in 8-bit form: room is made, and each character is widened where it lands. */
    method PushLatin1(units: seq<u16>)
      requires buffer.Writable() && buffer.RoomFor(2 * |units|)
      requires forall i :: 0 <= i < |units| ==> units[i] < 0x100
      modifies buffer, buffer.data
      ensures buffer.Appended(Bytes16(units))
    {
      hide Bytes16;
      buffer.EnsureSize(2 * |units|, 2 * |units|);
      StoreLatin1(buffer.data, buffer.position, units);
      buffer.position := buffer.position + 2 * |units|;
    }

    /** A string's length and units, without a signature: a property name. */
    method PushIdentifier(s: JsString)
      requires buffer.Writable() && buffer.RoomFor(|Sized(Bytes16(s.units))|)
      modifies buffer, buffer.data
      ensures buffer.Appended(Sized(Bytes16(s.units)))
    {
      hide Bytes16, Var;
      ghost var start := buffer.Contents();
      buffer.PushUint(2 * |s.units|);
      Assoc(start, Var(2 * |s.units|), Bytes16(s.units));
      if s.is8Bit {
        PushLatin1(s.units);
      } else {
        buffer.PushBytes(Bytes16(s.units));
      }
    }

    method PushString(s: JsString)
      requires buffer.Writable() && buffer.RoomFor(|Enc(Text(Plain, s.units))|)
      modifies buffer, buffer.data
      ensures buffer.Appended(Enc(Text(Plain, s.units)))
    {
      ghost var start, sized := buffer.Contents(), Sized(Bytes16(s.units));
      assert Enc(Text(Plain, s.units)) == [Tags.STRING] + sized;
      hide Bytes16, Var, Sized, Enc, Payload;
      buffer.PushType(Tags.STRING);
      Assoc(start, [Tags.STRING], sized);
      PushIdentifier(s);
    }

    method PushNumber(n: Number)
      requires buffer.Writable() && buffer.RoomFor(|Enc(NumberValue(n))|)
      modifies buffer, buffer.data
      ensures buffer.Appended(Enc(NumberValue(n)))
    {
      hide Var, Zig, BigEndian;
      match n
      case Int32(i) => buffer.PushTypeInt(i);
      case AnyInt(l) => buffer.PushTypeLong(l);
      case Dbl(bits) => buffer.PushTypeDouble(bits);
    }

    method PushBoxedNumber(n: Number, text: JsString)
      requires buffer.Writable() && buffer.RoomFor(|Enc(BoxedNumberValue(n, text))|)
      modifies buffer, buffer.data
      ensures buffer.Appended(Enc(BoxedNumberValue(n, text)))
    {
      hide Var, Zig, BigEndian;
      match n
      case Int32(i) => buffer.PushTypeInt(i);
      case AnyInt(l) => buffer.PushTypeLong(l);
      case Dbl(_) => PushString(text);
    }

    /** Appends exactly one value, the unfolding of `val` below the stack, and leaves the stack as it was. */
    method PushJsValue(val: Js)
      requires buffer.Writable() && buffer.RoomFor(|Enc(Unfold(heap, val, objectStack))|)
      modifies this`objectStack, buffer, buffer.data
      ensures buffer.Appended(Enc(Unfold(heap, val, old(objectStack))))
      ensures objectStack == old(objectStack)
      decreases Height(objectStack), 0, 2
    {
      hide Var, EncItems, EncMembers, Bytes16, UnfoldElements, UnfoldProperties, CutOff, Height;
      if val.JsNull? || val.Undefined? || val.Empty? {
        buffer.PushTypeNull();
        return;
      }
      if val.String? {
        PushString(val.s);
        return;
      }
      if val.Num? {
        PushNumber(val.n);
        return;
      }
      if val.Object? && Lookup(heap, val.id).ArrayNode? {
        PushArray(val.id);
        return;
      }
      if val.Object? && !IsFunction(heap, val) {
        match Lookup(heap, val.id)
        case StringObject(s) =>
          PushString(s);
          return;
        case NumberObject(n, text) =>
          PushBoxedNumber(n, text);
          return;
        case BooleanObject(b) =>
          buffer.PushTypeBoolean(b);
          return;
        case PlainObject(_) =>
          PushObject(val.id);
          return;
      }
      if val.Boolean? {
        buffer.PushTypeBoolean(val.b);
        return;
      }
      if IsFunction(heap, val) {
        buffer.PushTypeNull();
        return;
      }
      buffer.PushTypeNull();
    }

    /** The branch for arrays: null when cut off, else a header and every element below this array. */
    method PushArray(id: ObjId)
      requires Lookup(heap, id).ArrayNode?
      requires buffer.Writable() && buffer.RoomFor(|Enc(Unfold(heap, Object(id), objectStack))|)
      modifies this`objectStack, buffer, buffer.data
      ensures buffer.Appended(Enc(Unfold(heap, Object(id), old(objectStack))))
      ensures objectStack == old(objectStack)
      decreases Height(objectStack), 0, 1
    {
      var cut := CheckDeepAndCircleReference(id, objectStack);
      if cut {
        buffer.PushTypeNull();
        return;
      }
      var elements := Lookup(heap, id).elements;
      ghost var start, stack := buffer.Contents(), objectStack + [id];
      ghost var items := UnfoldElements(heap, elements, 0, stack);
      ArrParts(items);
      assert Unfold(heap, Object(id), objectStack) == Arr(items);
      LowerHeight(objectStack, id);
      hide Var, EncItems, Enc, Payload, Unfold, UnfoldElements, CutOff, Height, Lookup;
      buffer.PushTypeArray(|elements|);
      Assoc(start, [Tags.ARRAY] + Var(|items|), EncItems(items));
      PushElementsBelow(id, elements);
    }

    /** The elements are written with their array on the stack. */
    method PushElementsBelow(id: ObjId, elements: seq<Js>)
      requires buffer.Writable() && buffer.RoomFor(|EncItems(UnfoldElements(heap, elements, 0, objectStack + [id]))|)
      requires Height(objectStack + [id]) < Height(objectStack)
      modifies this`objectStack, buffer, buffer.data
      ensures buffer.Appended(EncItems(UnfoldElements(heap, elements, 0, old(objectStack) + [id])))
      ensures objectStack == old(objectStack)
      decreases Height(objectStack), 0, 0
    {
      hide EncItems, UnfoldElements, Height;
      objectStack := objectStack + [id];
      PushElements(elements);
      objectStack := objectStack[..|objectStack| - 1];
    }

    method PushElements(elements: seq<Js>)
      requires buffer.Writable() && buffer.RoomFor(|EncItems(UnfoldElements(heap, elements, 0, objectStack))|)
      modifies this`objectStack, buffer, buffer.data
      ensures buffer.Appended(EncItems(UnfoldElements(heap, elements, 0, old(objectStack))))
      ensures objectStack == old(objectStack)
      decreases Height(objectStack), 1, 0
    {
      hide EncItems, Enc, Unfold, UnfoldElements, Height, IndexName;
      ghost var start, stack := buffer.Contents(), objectStack;
      ghost var all := EncItems(UnfoldElements(heap, elements, 0, stack));
      NothingLeft(heap, elements, [], stack);
      for index := 0 to |elements|
        invariant objectStack == stack && buffer.Writable()
        invariant buffer.data == old(buffer.data) || fresh(buffer.data)
        invariant buffer.Contents() + EncItems(UnfoldElements(heap, elements[index..], index, stack)) == start + all
      {
        ElementsFrom(heap, elements, index, stack, buffer.Contents());
        var ele := elements[index];
        if ele.Object? {
          ele := heap.toJson(ele.id, IndexName(index));
        }
        PushJsValue(ele);
      }
    }

    /** The first pass over the own properties: how many of them are not going to be written. */
    method CountSkipped(properties: seq<Property>) returns (skipped: nat)
      ensures skipped + CountKept(heap, properties) == |properties|
    {
      skipped := 0;
      assert properties[0..] == properties;
      for i := 0 to |properties|
        invariant skipped + CountKept(heap, properties) == i + CountKept(heap, properties[i..])
      {
        assert properties[i..][1..] == properties[i + 1..];
        var p := properties[i];
        if p.slot.Some? {
          if p.slot.value.Undefined? || IsFunction(heap, p.slot.value) {
            skipped := skipped + 1;
          }
        } else {
          skipped := skipped + 1;
        }
      }
    }

    /** The branch for plain objects: null when cut off, else a header that counts what the second pass writes. */
    method PushObject(id: ObjId)
      requires Lookup(heap, id).PlainObject?
      requires buffer.Writable() && buffer.RoomFor(|Enc(Unfold(heap, Object(id), objectStack))|)
      modifies this`objectStack, buffer, buffer.data
      ensures buffer.Appended(Enc(Unfold(heap, Object(id), old(objectStack))))
      ensures objectStack == old(objectStack)
      decreases Height(objectStack), 0, 1
    {
      var cut := CheckDeepAndCircleReference(id, objectStack);
      if cut {
        buffer.PushTypeNull();
        return;
      }
      var properties := Lookup(heap, id).properties;
      ghost var start, stack := buffer.Contents(), objectStack + [id];
      ghost var members := UnfoldProperties(heap, properties, stack);
      ObjParts(members);
      assert Unfold(heap, Object(id), objectStack) == Obj(members);
      LowerHeight(objectStack, id);
      hide Var, EncMembers, Enc, Payload, Unfold, UnfoldProperties, CountKept, CutOff, Height, Lookup;
      var skipped := CountSkipped(properties);
      buffer.PushTypeMap(|properties| - skipped);
      Assoc(start, [Tags.MAP] + Var(|members|), EncMembers(members));
      PushPropertiesBelow(id, properties);
    }

    /** The properties are written with their object on the stack. */
    method PushPropertiesBelow(id: ObjId, properties: seq<Property>)
      requires buffer.Writable() && buffer.RoomFor(|EncMembers(UnfoldProperties(heap, properties, objectStack + [id]))|)
      requires Height(objectStack + [id]) < Height(objectStack)
      modifies this`objectStack, buffer, buffer.data
      ensures buffer.Appended(EncMembers(UnfoldProperties(heap, properties, old(objectStack) + [id])))
      ensures objectStack == old(objectStack)
      decreases Height(objectStack), 0, 0
    {
      hide EncMembers, UnfoldProperties, Height;
      objectStack := objectStack + [id];
      PushProperties(properties);
      objectStack := objectStack[..|objectStack| - 1];
    }

    /** The second pass: name and value of every property that is kept. */
    method PushProperties(properties: seq<Property>)
      requires buffer.Writable() && buffer.RoomFor(|EncMembers(UnfoldProperties(heap, properties, objectStack))|)
      modifies this`objectStack, buffer, buffer.data
      ensures buffer.Appended(EncMembers(UnfoldProperties(heap, properties, old(objectStack))))
      ensures objectStack == old(objectStack)
      decreases Height(objectStack), 1, 0
    {
      hide EncMembers, Enc, Unfold, UnfoldProperties, Height, Sized, Bytes16, IsFunction;
      ghost var start, stack := buffer.Contents(), objectStack;
      ghost var all := EncMembers(UnfoldProperties(heap, properties, stack));
      NothingLeft(heap, [], properties, stack);
      for i := 0 to |properties|
        invariant objectStack == stack && buffer.Writable()
        invariant buffer.data == old(buffer.data) || fresh(buffer.data)
        invariant buffer.Contents() + EncMembers(UnfoldProperties(heap, properties[i..], stack)) == start + all
      {
        var p := properties[i];
        PropertiesFrom(heap, properties, i, stack, buffer.Contents());
        if p.slot.Some? {
          if p.slot.value.Undefined? || IsFunction(heap, p.slot.value) {
            continue;
          }
          var propertyValue := p.slot.value;
          if propertyValue.Object? {
            propertyValue := heap.toJson(propertyValue.id, p.name.units);
          }
          PushIdentifier(p.name);
          PushJsValue(propertyValue);
        }
      }
    }
  }

  // ---- what is still to write ----

  lemma ArrParts(items: seq<Value>)
    ensures Enc(Arr(items)) == [Tags.ARRAY] + Var(|items|) + EncItems(items)
    ensures |items| <= |EncItems(items)|
  {
    hide Var, EncItems;
    Assoc([Tags.ARRAY], Var(|items|), EncItems(items));
  }

  lemma ObjParts(members: seq<Member>)
    ensures Enc(Obj(members)) == [Tags.MAP] + Var(|members|) + EncMembers(members)
    ensures |members| <= |EncMembers(members)|
  {
    hide Var, EncMembers;
    Assoc([Tags.MAP], Var(|members|), EncMembers(members));
  }

  lemma NothingLeft(heap: Heap, elements: seq<Js>, properties: seq<Property>, stack: seq<ObjId>)
    ensures elements[0..] == elements && EncItems(UnfoldElements(heap, elements[|elements|..], |elements|, stack)) == []
    ensures properties[0..] == properties && EncMembers(UnfoldProperties(heap, properties[|properties|..], stack)) == []
  {
  }

  lemma ElementsFrom(heap: Heap, elements: seq<Js>, i: nat, stack: seq<ObjId>, done: seq<u8>)
    requires i < |elements|
    ensures done + EncItems(UnfoldElements(heap, elements[i..], i, stack))
      == done + Enc(Unfold(heap, Replaced(heap, elements[i], IndexName(i)), stack))
         + EncItems(UnfoldElements(heap, elements[i + 1..], i + 1, stack))
  {
    assert elements[i..][1..] == elements[i + 1..];
    var first := Unfold(heap, Replaced(heap, elements[i], IndexName(i)), stack);
    var more := UnfoldElements(heap, elements[i + 1..], i + 1, stack);
    assert ([first] + more)[1..] == more;
    assert EncItems([first] + more) == Enc(first) + EncItems(more);
    Assoc(done, Enc(first), EncItems(more));
  }

  lemma PropertiesFrom(heap: Heap, properties: seq<Property>, i: nat, stack: seq<ObjId>, done: seq<u8>)
    requires i < |properties|
    ensures !Kept(heap, properties[i]) ==>
      UnfoldProperties(heap, properties[i..], stack) == UnfoldProperties(heap, properties[i + 1..], stack)
    ensures Kept(heap, properties[i]) ==>
      done + EncMembers(UnfoldProperties(heap, properties[i..], stack))
      == done + Sized(Bytes16(properties[i].name.units)) + Enc(Unfold(heap, PropertyValue(heap, properties[i]), stack))
         + EncMembers(UnfoldProperties(heap, properties[i + 1..], stack))
  {
    assert properties[i..][1..] == properties[i + 1..];
    var p, more := properties[i], UnfoldProperties(heap, properties[i + 1..], stack);
    if Kept(heap, p) {
      var first := Member(p.name.units, Unfold(heap, PropertyValue(heap, p), stack));
      var key, v := Sized(Bytes16(first.key)), Enc(first.value);
      assert ([first] + more)[1..] == more;
      assert EncMembers([first] + more) == key + v + EncMembers(more);
      assert done + (key + v + EncMembers(more)) == done + key + v + EncMembers(more);
    }
  }
}
