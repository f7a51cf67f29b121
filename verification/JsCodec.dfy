/** `toWson`, `toJSValue` and the system cache of wson_jsc.cpp, and what encoding and then decoding gives. */
module JsCodec {
  import opened Words
  import opened Seqs
  import opened Values
  import opened WsonBuffer
  import opened Identifiers
  import opened JsGraph
  import opened JsDecoder
  import opened JsEncoder
  import Growth

  const SYSTEM_COUNT := 1024 * 4
  const LOCAL_COUNT := 32

  /** What is encoded for a value: its unfolding, after the `toJSON` of an object, which stands under no name. */
  function Encoded(heap: Heap, val: Js): Value { Unfold(heap, Replaced(heap, val, []), []) }

  /** Encodes a value of the heap into a new buffer. */
  method ToWson(heap: Heap, val: Js) returns (buffer: Buffer)
    requires |Enc(Encoded(heap, val))| <= Growth.MAX_CONTENT
    ensures fresh(buffer) && buffer.Writable() && buffer.Contents() == Enc(Encoded(heap, val))
  {
    var root := val;
    if root.Object? {
      root := heap.toJson(root.id, []);
    }
    var encoder := new Encoder(heap);
    encoder.PushJsValue(root);
    buffer := encoder.buffer;
  }

  /** The static variables of the codec: the system cache and the machine it serves. */
  class Codec {
    var systemCache: array?<CacheEntry>
    var systemVm: Option<Vm>

    /** Cache and machine are set and cleared together, and the cache answers for that machine only. */
    ghost predicate Valid()
      reads this, systemCache
    {
      && (systemCache != null <==> systemVm.Some?)
      && (systemCache != null ==> systemCache.Length == SYSTEM_COUNT && CacheOk(systemVm.value, systemCache[..]))
    }

    ghost function Frame(): set<object>
      reads this
    {
      if systemCache == null then {} else {systemCache}
    }

    constructor ()
      ensures Valid() && systemVm == None
    {
      systemCache, systemVm := null, None;
    }

    method Init(vm: Vm)
      requires Valid()
      modifies this, Frame()
      ensures Valid() && systemVm == Some(vm) && fresh(systemCache)
    {
      if systemCache != null {
        Destroy();
      }
      systemVm := None;
      var cache := new CacheEntry[SYSTEM_COUNT](_ => FRESH_ENTRY);
      for i := 0 to SYSTEM_COUNT
        invariant forall j :: 0 <= j < i ==> cache[j] == CLEARED_ENTRY
      {
        cache[i] := CLEARED_ENTRY;
      }
      systemCache := cache;
      systemVm := Some(vm);
    }

    method Destroy()
      requires Valid()
      modifies this, Frame()
      ensures Valid() && systemCache == null && systemVm == None
    {
      if systemCache != null {
        for i := 0 to SYSTEM_COUNT
          invariant systemCache == old(systemCache) && systemVm == old(systemVm)
        {
          if systemCache[i].length > 0 {
            systemCache[i] := systemCache[i].(utf16 := [], key := 0, length := 0);
          }
        }
        systemCache := null;
      }
      if systemVm.Some? {
        systemVm := None;
      }
    }

    /**
     * Decodes with the system cache if it serves this machine, and with a new cache of a size fit for the input
     * if not.
     */
    method ToJsValue(vm: Vm, buffer: Buffer, ghost v: Value) returns (r: JsTree)
      requires Valid() && buffer.Valid() && buffer.length == buffer.data.Length < 0x8000_0000 && buffer.Next(Enc(v))
      modifies buffer`position, Frame()
      ensures Valid() && r == Decoded(vm, v) && buffer.position == old(buffer.position) + |Enc(v)|
      ensures OwnedBy(vm, r)
    {
      DecodedOwned(vm, v);
      if systemVm.Some? && systemVm.value == vm {
        r := WsonToJsValue(vm, buffer, systemCache, v);
        return;
      }
      var count := LOCAL_COUNT * 4;
      if buffer.length < 256 {
        count := LOCAL_COUNT;
      } else if buffer.length < 1024 * 2 {
        count := LOCAL_COUNT * 2;
      }
      var localIdentifiers := new CacheEntry[count](_ => FRESH_ENTRY);
      r := WsonToJsValue(vm, buffer, localIdentifiers, v);
    }

    /** One side encodes, the other decodes exactly the bytes that were written; the cursor ends at the last of them. */
    method SendAndReceive(heap: Heap, val: Js, vm: Vm) returns (r: JsTree)
      requires Valid() && |Enc(Encoded(heap, val))| <= Growth.MAX_CONTENT
      modifies Frame()
      ensures Valid() && r == Decoded(vm, Encoded(heap, val))
      ensures NamesDistinct(heap) ==> Mirrors(vm, heap, Standing(heap, val, []), [], true, r)
    {
      if NamesDistinct(heap) { DecodeUndoesEncode(vm, heap, val); }
      var sent := ToWson(heap, val);
      var bytes := new u8[sent.position]
        (i requires 0 <= i < sent.position <= sent.data.Length reads sent, sent.data => sent.data[i]);
      assert bytes[..] == sent.Contents();
      var received := new Buffer.From(bytes, bytes.Length);
      r := ToJsValue(vm, received, Encoded(heap, val));
      assert received.position == received.length;
    }
  }

  // ---- identifiers stay with their machine ----

  /** Every property name in the tree, at every level, belongs to the machine. */
  ghost predicate OwnedBy(vm: Vm, t: JsTree)
    decreases t
  {
    match t
    case JsArray(items) => forall i :: 0 <= i < |items| ==> OwnedBy(vm, items[i])
    case JsObject(names, properties, elements) =>
      && (forall k :: k in names ==> k.Ident? && k.vm == vm)
      && (forall k :: k in properties ==> k.Ident? && k.vm == vm && OwnedBy(vm, properties[k]))
      && (forall i :: i in elements ==> OwnedBy(vm, elements[i]))
    case _ => true
  }

  lemma {:induction false} DecodedOwned(vm: Vm, v: Value)
    ensures OwnedBy(vm, Decoded(vm, v))
    decreases v, 1
  {
    match v
    case Arr(items) => ItemsOwned(vm, items);
    case Obj(members) => PutAllOwned(vm, EMPTY_OBJECT, members);
    case _ =>
  }

  lemma {:induction false} ItemsOwned(vm: Vm, items: seq<Value>)
    ensures forall i :: 0 <= i < |items| ==> OwnedBy(vm, DecodedItems(vm, items)[i])
    decreases items, 0
  {
    if items != [] {
      DecodedOwned(vm, items[0]);
      ItemsOwned(vm, items[1..]);
    }
  }

  lemma {:induction false} PutAllOwned(vm: Vm, object_: JsObj, members: seq<Member>)
    requires OwnedBy(vm, object_)
    ensures OwnedBy(vm, PutAll(vm, object_, members))
    decreases members, 0
  {
    if members != [] {
      DecodedOwned(vm, members[0].value);
      var name, value := Ident(vm, members[0].key), Decoded(vm, members[0].value);
      PutOwned(vm, object_, name, value);
      PutAllOwned(vm, Put(object_, name, value), members[1..]);
    }
  }

  lemma PutOwned(vm: Vm, o: JsObj, name: Identifier, value: JsTree)
    requires OwnedBy(vm, o) && OwnedBy(vm, value) && name.Ident? && name.vm == vm
    ensures OwnedBy(vm, Put(o, name, value))
  {
    hide ParseIndex;
  }

  // ---- whole runs ----

  datatype Step = Start(vm: Vm) | Stop | Receive(vm: Vm, v: Value)

  predicate Fitting(steps: seq<Step>) {
    forall s :: s in steps && s.Receive? ==> |Enc(s.v)| < 0x8000_0000
  }

  /** The machine that holds the system cache after a run: that of the last start, unless a stop came after it. */
  function Holder(steps: seq<Step>): Option<Vm> {
    if steps == [] then None
    else
      match steps[|steps| - 1]
      case Start(vm) => Some(vm)
      case Stop => None
      case Receive(_, _) => Holder(steps[..|steps| - 1])
  }

  /** What a step hands out: nothing but the names of its own machine, and the value that was sent. */
  ghost predicate Answers(s: Step, r: Option<JsTree>) {
    if s.Receive? then r == Some(Decoded(s.vm, s.v)) && OwnedBy(s.vm, r.value) else r == None
  }

  /**
   * Over any run of `init`, `destory` and decodes on several machines, from no cache at all: no identifier made for
   * one machine reaches another, every decode gives what it gives without a cache, and the cache is there exactly
   * while some machine holds it.
   */
  method Run(steps: seq<Step>) returns (cached: bool, holder: Option<Vm>, rs: seq<Option<JsTree>>)
    requires Fitting(steps)
    ensures holder == Holder(steps) && cached == holder.Some?
    ensures |rs| == |steps| && forall i :: 0 <= i < |steps| ==> Answers(steps[i], rs[i])
  {
    hide OwnedBy, Decoded, Enc;
    var codec := new Codec();
    rs := [];
    for i := 0 to |steps|
      invariant fresh(codec) && (codec.systemCache == null || fresh(codec.systemCache))
      invariant codec.Valid() && codec.systemVm == Holder(steps[..i])
      invariant |rs| == i && forall j :: 0 <= j < i ==> Answers(steps[j], rs[j])
    {
      assert steps[..i + 1][..i] == steps[..i];
      var r := Perform(codec, steps[i]);
      rs := rs + [r];
    }
    assert steps[..|steps|] == steps;
    return codec.systemCache != null, codec.systemVm, rs;
  }

  method Perform(codec: Codec, s: Step) returns (r: Option<JsTree>)
    requires codec.Valid() && (s.Receive? ==> |Enc(s.v)| < 0x8000_0000)
    modifies codec, codec.Frame()
    ensures codec.Valid() && Answers(s, r)
    ensures match s
      case Start(vm) => codec.systemVm == Some(vm)
      case Stop => codec.systemVm == None
      case Receive(_, _) => codec.systemVm == old(codec.systemVm)
    ensures codec.systemCache == null || codec.systemCache == old(codec.systemCache) || fresh(codec.systemCache)
  {
    hide OwnedBy, Decoded, Enc;
    r := None;
    if s.Start? {
      codec.Init(s.vm);
    } else if s.Stop? {
      codec.Destroy();
    } else {
      var bytes := Enc(s.v);
      var data := new u8[|bytes|](i requires 0 <= i < |bytes| => bytes[i]);
      assert data[..] == bytes;
      var buffer := new Buffer.From(data, data.Length);
      var t := codec.ToJsValue(s.vm, buffer, s.v);
      r := Some(t);
    }
  }

  // ---- what comes back ----

  /** Own property names are distinct. */
  predicate DistinctNames(properties: seq<Property>) {
    forall i, j :: 0 <= i < j < |properties| ==> properties[i].name.units != properties[j].name.units
  }

  predicate NamesDistinct(heap: Heap) {
    forall id :: id in heap.nodes && heap.nodes[id].PlainObject? ==> DistinctNames(heap.nodes[id].properties)
  }

  function NumberTree(n: Number): JsTree {
    match n
    case Int32(i) => JsInt(i)
    case AnyInt(l) => JsInt(l)
    case Dbl(bits) => JsDouble(bits)
  }

  ghost function Above(stack: seq<ObjId>): set<ObjId> { set id | id in stack }

  // What should come back is said here by the engine's own terms alone: nothing of it is taken from the encoder.

  /** What stands under a name: the value, or what the `toJSON` of an object gives. */
  function Standing(heap: Heap, val: Js, name: seq<u16>): Js {
    match val
    case Object(id) => heap.toJson(id, name)
    case _ => val
  }

  /** A property that can be read and holds null, a boolean, a number, a string, a symbol or an object. */
  predicate Survives(heap: Heap, p: Property) {
    match p.slot
    case None => false
    case Some(Undefined) => false
    case Some(Object(id)) => id in heap.nodes && !heap.nodes[id].FunctionNode?
    case _ => true
  }

  /**
   * The tree unfolding of the graph below `val`: arrays keep their length and order, an object keeps exactly the
   * properties that survive, and an array or object is null if and only if it is one of its own ancestors, or, under
   * the limit of the source, has more than 40000 of them. So are undefined and functions where they cannot be dropped.
   */
  ghost predicate Mirrors(vm: Vm, heap: Heap, val: Js, ancestors: seq<ObjId>, limited: bool, t: JsTree)
    decreases heap.nodes.Keys - Above(ancestors), 0
  {
    match val
    case Boolean(b) => t == JsBoolean(b)
    case Num(n) => t == NumberTree(n)
    case String(s) => t == JsText(s.units)
    case Object(id) =>
      if id !in heap.nodes then t == JsTree.JsNull
      else
      (match heap.nodes[id]
       case ArrayNode(elements) =>
         if id in ancestors || (limited && |ancestors| > 40000) then t == JsTree.JsNull
         else
           assert Above(ancestors + [id]) == Above(ancestors) + {id} && id !in Above(ancestors);
           t.JsArray? && MirrorsElements(vm, heap, elements, ancestors + [id], limited, t.items)
       case FunctionNode => t == JsTree.JsNull
       case StringObject(s) => t == JsText(s.units)
       case NumberObject(n, text) => t == if n.Dbl? then JsText(text.units) else NumberTree(n)
       case BooleanObject(b) => t == JsBoolean(b)
       case PlainObject(properties) =>
         if id in ancestors || (limited && |ancestors| > 40000) then t == JsTree.JsNull
         else
           assert Above(ancestors + [id]) == Above(ancestors) + {id} && id !in Above(ancestors);
           t.JsObject? && MirrorsProperties(vm, heap, properties, ancestors + [id], limited, t))
    case _ => t == JsTree.JsNull
  }

  ghost predicate MirrorsElements(
    vm: Vm, heap: Heap, elements: seq<Js>, ancestors: seq<ObjId>, limited: bool, items: seq<JsTree>)
    decreases heap.nodes.Keys - Above(ancestors), 1
  {
    && |items| == |elements|
    && forall i :: 0 <= i < |elements| ==>
         Mirrors(vm, heap, Standing(heap, elements[i], IndexName(i)), ancestors, limited, items[i])
  }

  /** The names of the surviving properties, in order, but for those that are indices. */
  function KeptNames(vm: Vm, heap: Heap, properties: seq<Property>): seq<Identifier> {
    if properties == [] then []
    else
      var p, more := properties[0], KeptNames(vm, heap, properties[1..]);
      if Survives(heap, p) && ParseIndex(p.name.units).None? then [Ident(vm, p.name.units)] + more else more
  }

  /** What an object has under a name. */
  function Get(vm: Vm, o: JsObj, name: seq<u16>): Option<JsTree> {
    match ParseIndex(name)
    case Some(i) => if i in o.elements then Some(o.elements[i]) else None
    case None => if Ident(vm, name) in o.properties then Some(o.properties[Ident(vm, name)]) else None
  }

  function KeptIndices(heap: Heap, properties: seq<Property>): set<u32> {
    if properties == [] then {}
    else
      var p, more := properties[0], KeptIndices(heap, properties[1..]);
      if Survives(heap, p) && ParseIndex(p.name.units).Some? then {ParseIndex(p.name.units).value} + more else more
  }

  function NameSet(names: seq<Identifier>): set<Identifier> { set k | k in names }

  /** The object has the kept names in order, and the kept names that are indices, and nothing else. */
  ghost predicate SameNames(vm: Vm, heap: Heap, properties: seq<Property>, o: JsObj) {
    && o.names == KeptNames(vm, heap, properties) && o.properties.Keys == NameSet(o.names)
    && o.elements.Keys == KeptIndices(heap, properties)
  }

  ghost predicate MirrorsProperties(
    vm: Vm, heap: Heap, properties: seq<Property>, ancestors: seq<ObjId>, limited: bool, o: JsObj)
    decreases heap.nodes.Keys - Above(ancestors), 1
  {
    && SameNames(vm, heap, properties, o)
    && forall i :: 0 <= i < |properties| && Survives(heap, properties[i]) ==>
         var name := properties[i].name.units;
         && Get(vm, o, name).Some?
         && Mirrors(vm, heap, Standing(heap, properties[i].slot.value, name), ancestors, limited,
                    Get(vm, o, name).value)
  }

  lemma Survivors(heap: Heap, p: Property)
    ensures Survives(heap, p) <==> Kept(heap, p)
    ensures Survives(heap, p) ==>
      p.slot.Some? && PropertyValue(heap, p) == Standing(heap, p.slot.value, p.name.units)
  {
  }

  ghost predicate Distinct(stack: seq<ObjId>) { forall i, j :: 0 <= i < j < |stack| ==> stack[i] != stack[j] }

  lemma {:induction false} DistinctCount(stack: seq<ObjId>)
    requires Distinct(stack)
    ensures |Above(stack)| == |stack|
    decreases |stack|
  {
    if stack != [] {
      var n := |stack| - 1;
      DistinctCount(stack[..n]);
      assert stack == stack[..n] + [stack[n]];
      assert Above(stack) == Above(stack[..n]) + {stack[n]} && stack[n] !in Above(stack[..n]);
    }
  }

  /**
   * The ancestors on the stack are distinct objects, so in a heap of at most 40001 objects the depth limit
   * never fires.
   */
  lemma LimitNeverFires(heap: Heap, stack: seq<ObjId>, id: ObjId)
    requires Distinct(stack) && Above(stack) <= heap.nodes.Keys && id in heap.nodes && id !in stack
    requires |heap.nodes| <= 40001
    ensures |stack| <= 40000 && |stack| < |heap.nodes|
  {
    DistinctCount(stack);
    assert |heap.nodes.Keys| == |heap.nodes|;
    assert Above(stack) + {id} <= heap.nodes.Keys;
    Smaller(Above(stack) + {id}, heap.nodes.Keys);
  }

  lemma {:induction false} Smaller(a: set<ObjId>, b: set<ObjId>)
    requires a <= b
    ensures |a| <= |b|
  {
    assert b == a + (b - a);
  }

  lemma {:induction false} ElementAt(heap: Heap, elements: seq<Js>, index: nat, stack: seq<ObjId>, i: nat)
    requires i < |elements|
    ensures UnfoldElements(heap, elements, index, stack)[i]
      == Unfold(heap, Replaced(heap, elements[i], IndexName(index + i)), stack)
    decreases |elements|
  {
    if i > 0 { ElementAt(heap, elements[1..], index + 1, stack, i - 1); }
  }

  lemma DecodedAt(vm: Vm, items: seq<Value>, i: nat)
    requires i < |items|
    ensures DecodedItems(vm, items)[i] == Decoded(vm, items[i])
    decreases |items|
  {
    if i > 0 { DecodedAt(vm, items[1..], i - 1); }
  }

  lemma PutGet(vm: Vm, o: JsObj, name: seq<u16>, value: JsTree, other: seq<u16>)
    ensures Get(vm, Put(o, Ident(vm, name), value), other) == if other == name then Some(value) else Get(vm, o, other)
  {
    if ParseIndex(other).Some? && ParseIndex(other) == ParseIndex(name) { IndexDetermines(other, name); }
    hide ParseIndex;
  }

  /** The object after the first property, if that is kept. */
  function PutFirst(vm: Vm, heap: Heap, properties: seq<Property>, stack: seq<ObjId>, o: JsObj): JsObj
    requires properties != []
  {
    var p := properties[0];
    if Kept(heap, p) then Put(o, Ident(vm, p.name.units), Decoded(vm, Unfold(heap, PropertyValue(heap, p), stack)))
    else o
  }

  lemma PutRest(vm: Vm, heap: Heap, properties: seq<Property>, stack: seq<ObjId>, o: JsObj)
    requires properties != []
    ensures PutAll(vm, o, UnfoldProperties(heap, properties, stack))
      == PutAll(vm, PutFirst(vm, heap, properties, stack, o), UnfoldProperties(heap, properties[1..], stack))
  {
    var p, more := properties[0], UnfoldProperties(heap, properties[1..], stack);
    assert Kept(heap, p) ==> p.slot.Some?;
    hide Kept, Unfold, Decoded, Put;
    if Kept(heap, p) {
      var first := Member(p.name.units, Unfold(heap, PropertyValue(heap, p), stack));
      assert ([first] + more)[1..] == more && ([first] + more)[0] == first;
    }
  }

  /** An object in whose names every named property stands once, and that has nothing yet under these names. */
  ghost predicate Awaiting(vm: Vm, properties: seq<Property>, o: JsObj) {
    && o.properties.Keys == NameSet(o.names)
    && forall j :: 0 <= j < |properties| ==> Get(vm, o, properties[j].name.units).None?
  }

  lemma StillAwaiting(vm: Vm, heap: Heap, properties: seq<Property>, stack: seq<ObjId>, o: JsObj)
    requires properties != [] && DistinctNames(properties) && Awaiting(vm, properties, o)
    ensures var o' := PutFirst(vm, heap, properties, stack, o);
      && DistinctNames(properties[1..]) && Awaiting(vm, properties[1..], o')
      && o'.names + KeptNames(vm, heap, properties[1..]) == o.names + KeptNames(vm, heap, properties)
      && o'.elements.Keys + KeptIndices(heap, properties[1..]) == o.elements.Keys + KeptIndices(heap, properties)
  {
    var p, rest := properties[0], properties[1..];
    assert forall j :: 0 <= j < |rest| ==> rest[j] == properties[j + 1];
    Survivors(heap, p);
    if Kept(heap, p) {
      var name, value := p.name.units, Decoded(vm, Unfold(heap, PropertyValue(heap, p), stack));
      var o' := Put(o, Ident(vm, name), value);
      forall j | 0 <= j < |rest| ensures Get(vm, o', rest[j].name.units).None? {
        PutGet(vm, o, name, value, rest[j].name.units);
      }
      hide Get, Kept, Survives, Unfold, Decoded, DistinctNames, KeptNames, KeptIndices;
      NamesAfter(vm, o, name, value, KeptNames(vm, heap, rest), KeptIndices(heap, rest));
    }
    hide Get, Unfold, Decoded, Put, ParseIndex, Kept, Survives;
  }

  lemma NamesAfter(
    vm: Vm, o: JsObj, name: seq<u16>, value: JsTree, names: seq<Identifier>, indices: set<u32>)
    requires o.properties.Keys == NameSet(o.names) && Get(vm, o, name).None?
    ensures var o' := Put(o, Ident(vm, name), value);
      && o'.properties.Keys == NameSet(o'.names)
      && o'.names + names == o.names + (if ParseIndex(name).None? then [Ident(vm, name)] + names else names)
      && o'.elements.Keys + indices
         == o.elements.Keys + (if ParseIndex(name).Some? then {ParseIndex(name).value} + indices else indices)
  {
    hide ParseIndex;
    if ParseIndex(name).None? {
      Assoc(o.names, [Ident(vm, name)], names);
      assert NameSet(o.names + [Ident(vm, name)]) == NameSet(o.names) + {Ident(vm, name)};
    }
  }

  /** Putting the unfolded properties one after another adds exactly the kept names, in order. */
  lemma {:induction false} NamesPut(
    vm: Vm, heap: Heap, properties: seq<Property>, stack: seq<ObjId>, o: JsObj)
    requires DistinctNames(properties) && Awaiting(vm, properties, o)
    ensures var r := PutAll(vm, o, UnfoldProperties(heap, properties, stack));
      && r.names == o.names + KeptNames(vm, heap, properties) && r.properties.Keys == NameSet(r.names)
      && r.elements.Keys == o.elements.Keys + KeptIndices(heap, properties)
    decreases |properties|
  {
    if properties == [] {
      assert o.names + [] == o.names;
    } else {
      PutRest(vm, heap, properties, stack, o);
      StillAwaiting(vm, heap, properties, stack, o);
      hide *;
      NamesPut(vm, heap, properties[1..], stack, PutFirst(vm, heap, properties, stack, o));
    }
  }

  /** What an object has under a name that no property has stays. */
  lemma {:induction false} OthersStay(
    vm: Vm, heap: Heap, properties: seq<Property>, stack: seq<ObjId>, o: JsObj, name: seq<u16>)
    requires forall j :: 0 <= j < |properties| ==> properties[j].name.units != name
    ensures Get(vm, PutAll(vm, o, UnfoldProperties(heap, properties, stack)), name) == Get(vm, o, name)
    decreases |properties|
  {
    if properties != [] {
      var p, rest := properties[0], properties[1..];
      assert forall j :: 0 <= j < |rest| ==> rest[j] == properties[j + 1];
      PutRest(vm, heap, properties, stack, o);
      if Kept(heap, p) {
        PutGet(vm, o, p.name.units, Decoded(vm, Unfold(heap, PropertyValue(heap, p), stack)), name);
      }
      hide Get, Kept, Unfold, Decoded, PutAll, UnfoldProperties, Put;
      OthersStay(vm, heap, rest, stack, PutFirst(vm, heap, properties, stack, o), name);
    }
  }

  /** Every kept property is there with its value. */
  lemma {:induction false} PropertiesPut(
    vm: Vm, heap: Heap, properties: seq<Property>, stack: seq<ObjId>, o: JsObj, i: nat)
    requires DistinctNames(properties) && i < |properties| && Kept(heap, properties[i])
    ensures Get(vm, PutAll(vm, o, UnfoldProperties(heap, properties, stack)), properties[i].name.units)
      == Some(Decoded(vm, Unfold(heap, PropertyValue(heap, properties[i]), stack)))
    decreases |properties|
  {
    var p, rest := properties[0], properties[1..];
    assert forall j :: 0 <= j < |rest| ==> rest[j] == properties[j + 1];
    PutRest(vm, heap, properties, stack, o);
    var o' := PutFirst(vm, heap, properties, stack, o);
    if i > 0 {
      hide Get, Unfold, Decoded, PutAll, UnfoldProperties, PutFirst, Kept;
      PropertiesPut(vm, heap, rest, stack, o', i - 1);
    } else {
      PutGet(vm, o, p.name.units, Decoded(vm, Unfold(heap, PropertyValue(heap, p), stack)), p.name.units);
      hide Get, Unfold, Decoded, PutAll, UnfoldProperties, Kept, Put;
      OthersStay(vm, heap, rest, stack, o', p.name.units);
    }
  }

  /** Whatever its name, a surviving property is there, with the value that stands under that name. */
  lemma SurvivorThere(vm: Vm, heap: Heap, properties: seq<Property>, ancestors: seq<ObjId>, i: nat)
    requires DistinctNames(properties) && i < |properties| && Survives(heap, properties[i])
    ensures var name := properties[i].name.units;
      Get(vm, PutAll(vm, EMPTY_OBJECT, UnfoldProperties(heap, properties, ancestors)), name)
      == Some(Decoded(vm, Unfold(heap, Standing(heap, properties[i].slot.value, name), ancestors)))
  {
    Survivors(heap, properties[i]);
    PropertiesPut(vm, heap, properties, ancestors, EMPTY_OBJECT, i);
  }

  /** The depth limit is asked for, or it makes no difference. */
  ghost predicate LimitFits(heap: Heap, ancestors: seq<ObjId>, limited: bool) {
    limited || (|heap.nodes| <= 40001 && Distinct(ancestors) && Above(ancestors) <= heap.nodes.Keys)
  }

  lemma SameCutOff(heap: Heap, stack: seq<ObjId>, id: ObjId, limited: bool)
    requires id in heap.nodes && LimitFits(heap, stack, limited)
    ensures CutOff(stack, id) <==> id in stack || (limited && |stack| > 40000)
    ensures !CutOff(stack, id) ==> LimitFits(heap, stack + [id], limited)
  {
    if !limited && id !in stack {
      LimitNeverFires(heap, stack, id);
      assert Above(stack + [id]) == Above(stack) + {id};
    }
  }

  /** Decoding what was encoded gives the tree unfolding of the graph, at every depth of the walk. */
  lemma {:induction false} UnfoldingMirrors(vm: Vm, heap: Heap, val: Js, stack: seq<ObjId>, limited: bool)
    requires NamesDistinct(heap) && LimitFits(heap, stack, limited)
    ensures Mirrors(vm, heap, val, stack, limited, Decoded(vm, Unfold(heap, val, stack)))
    decreases Height(stack), 0
  {
    hide UnfoldElements, UnfoldProperties, PutAll, DecodedItems, LimitFits, Height, MirrorsElements, MirrorsProperties;
    if val.Object? {
      var id := val.id;
      if id in heap.nodes && (heap.nodes[id].ArrayNode? || heap.nodes[id].PlainObject?) {
        SameCutOff(heap, stack, id, limited);
        if !CutOff(stack, id) {
          LowerHeight(stack, id);
          if heap.nodes[id].ArrayNode? {
            ArrayMirrors(vm, heap, heap.nodes[id].elements, stack + [id], limited);
          } else {
            assert DistinctNames(heap.nodes[id].properties);
            ObjectMirrors(vm, heap, heap.nodes[id].properties, stack + [id], limited);
          }
        }
      }
    }
  }

  lemma {:induction false} ArrayMirrors(vm: Vm, heap: Heap, elements: seq<Js>, stack: seq<ObjId>, limited: bool)
    requires NamesDistinct(heap) && LimitFits(heap, stack, limited)
    ensures MirrorsElements(vm, heap, elements, stack, limited,
                            DecodedItems(vm, UnfoldElements(heap, elements, 0, stack)))
    decreases Height(stack), 1
  {
    hide UnfoldElements, DecodedItems, Mirrors, Unfold, Decoded, LimitFits, NamesDistinct, Height;
    var items := UnfoldElements(heap, elements, 0, stack);
    forall i | 0 <= i < |elements|
      ensures Mirrors(vm, heap, Standing(heap, elements[i], IndexName(i)), stack, limited, DecodedItems(vm, items)[i])
    {
      ElementAt(heap, elements, 0, stack, i);
      DecodedAt(vm, items, i);
      UnfoldingMirrors(vm, heap, Standing(heap, elements[i], IndexName(i)), stack, limited);
    }
  }

  lemma {:induction false} ObjectMirrors(
    vm: Vm, heap: Heap, properties: seq<Property>, stack: seq<ObjId>, limited: bool)
    requires NamesDistinct(heap) && LimitFits(heap, stack, limited) && DistinctNames(properties)
    ensures MirrorsProperties(vm, heap, properties, stack, limited,
                              PutAll(vm, EMPTY_OBJECT, UnfoldProperties(heap, properties, stack)))
    decreases Height(stack), 1
  {
    assert forall name :: Get(vm, EMPTY_OBJECT, name).None?;
    hide PutAll, UnfoldProperties, Unfold, Decoded, Mirrors, LimitFits, NamesDistinct, Height, Get, KeptNames;
    hide DistinctNames, KeptIndices, Kept, Survives, Standing;
    NamesPut(vm, heap, properties, stack, EMPTY_OBJECT);
    assert [] + KeptNames(vm, heap, properties) == KeptNames(vm, heap, properties);
    var r := PutAll(vm, EMPTY_OBJECT, UnfoldProperties(heap, properties, stack));
    forall i | 0 <= i < |properties| && Survives(heap, properties[i])
      ensures properties[i].slot.Some? && Get(vm, r, properties[i].name.units).Some?
      ensures Mirrors(vm, heap, Standing(heap, properties[i].slot.value, properties[i].name.units), stack, limited,
                      Get(vm, r, properties[i].name.units).value)
    {
      Survivors(heap, properties[i]);
      PropertiesPut(vm, heap, properties, stack, EMPTY_OBJECT, i);
      UnfoldingMirrors(vm, heap, PropertyValue(heap, properties[i]), stack, limited);
    }
  }

  /**
   * For every value of every finite heap, cycles and sharing included, what comes back is its tree unfolding with the
   * depth limit of the source; and when the heap has at most 40001 objects, the unfolding in which nothing but
   * references back to an ancestor is cut.
   */
  lemma DecodeUndoesEncode(vm: Vm, heap: Heap, val: Js)
    requires NamesDistinct(heap)
    ensures var root, t := Standing(heap, val, []), Decoded(vm, Encoded(heap, val));
      && Mirrors(vm, heap, root, [], true, t)
      && (|heap.nodes| <= 40001 ==> Mirrors(vm, heap, root, [], false, t))
  {
    var root := Standing(heap, val, []);
    UnfoldingMirrors(vm, heap, root, [], true);
    if |heap.nodes| <= 40001 {
      UnfoldingMirrors(vm, heap, root, [], false);
    }
  }

  /**
   * An array or object of the heap comes back as null if and only if it is one of its own ancestors or has more than
   * 40000 of them; in a heap of at most 40001 objects, below distinct ancestors, the first alone.
   */
  lemma CutExactly(vm: Vm, heap: Heap, id: ObjId, ancestors: seq<ObjId>)
    requires id in heap.nodes && (heap.nodes[id].ArrayNode? || heap.nodes[id].PlainObject?)
    ensures var t := Decoded(vm, Unfold(heap, Object(id), ancestors));
      && (t == JsTree.JsNull <==> id in ancestors || |ancestors| > 40000)
      && (|heap.nodes| <= 40001 && Distinct(ancestors) && Above(ancestors) <= heap.nodes.Keys ==>
            (t == JsTree.JsNull <==> id in ancestors))
  {
    SameCutOff(heap, ancestors, id, true);
    if |heap.nodes| <= 40001 && Distinct(ancestors) && Above(ancestors) <= heap.nodes.Keys {
      SameCutOff(heap, ancestors, id, false);
    }
    hide UnfoldElements, UnfoldProperties, PutAll, DecodedItems, CutOff;
  }

  /** A number object comes back as a number exactly when its number is an integer; other numbers come back as text. */
  lemma BoxedNumberBack(vm: Vm, heap: Heap, id: ObjId, stack: seq<ObjId>)
    requires Lookup(heap, id).NumberObject?
    ensures var t, node := Decoded(vm, Unfold(heap, Object(id), stack)), Lookup(heap, id);
      && ((t.JsInt? || t.JsDouble?) <==> !node.n.Dbl?)
      && (node.n.Dbl? ==> t == JsText(node.text.units))
      && (!node.n.Dbl? ==> t == Decoded(vm, Unfold(heap, Num(node.n), stack)))
  {
    match Lookup(heap, id).n
    case Int32(_) =>
    case AnyInt(_) =>
    case Dbl(_) =>
  }
}
