/**
 * JavaScript values as the codec of wson_jsc.cpp sees them: a finite heap of objects that may share and form cycles,
 * and the tree of WSON values the encoder makes of it.
 */
module JsGraph {
  import opened Words
  import opened Values
  import opened Identifiers

  type ObjId = nat

  datatype Str = Str(units: seq<u16>, is8Bit: bool)

  /** The engine keeps a string in 8-bit form only when every unit fits. */
  type JsString = s: Str | s.is8Bit ==> forall i :: 0 <= i < |s.units| ==> s.units[i] < 0x100
    witness Str([], true)

  datatype Number = Int32(i: i32) | AnyInt(l: i64) | Dbl(bits: u64)

  datatype Js =
    | Undefined
    | JsNull
    | Empty
    | Boolean(b: bool)
    | Num(n: Number)
    | String(s: JsString)
    | Symbol
    | Object(id: ObjId)

  /** An own property: its name, and what reading its slot gives, if the slot is there. */
  datatype Property = Property(name: JsString, slot: Option<Js>)

  /** `text` of a number object is what the engine prints for its number. */
  datatype Node =
    | ArrayNode(elements: seq<Js>)
    | FunctionNode
    | StringObject(s: JsString)
    | NumberObject(n: Number, text: JsString)
    | BooleanObject(b: bool)
    | PlainObject(properties: seq<Property>)

  /**
   * The objects, and what their `toJSON` methods give: `toJson(id, name)` is written in place of the object when it
   * stands under that name. For an object without such a method it is the object itself.
   */
  datatype Heap = Heap(nodes: map<ObjId, Node>, toJson: (ObjId, seq<u16>) -> Js)

  /** References are never dangling in JavaScript; one that were would count as a function. */
  function Lookup(heap: Heap, id: ObjId): Node { if id in heap.nodes then heap.nodes[id] else FunctionNode }

  function Replaced(heap: Heap, val: Js, name: seq<u16>): Js {
    if val.Object? then heap.toJson(val.id, name) else val
  }

  predicate IsFunction(heap: Heap, val: Js) { val.Object? && Lookup(heap, val.id).FunctionNode? }

  /** A property the encoder writes: its slot is there and holds neither undefined nor a function. */
  predicate Kept(heap: Heap, p: Property) {
    p.slot.Some? && !p.slot.value.Undefined? && !IsFunction(heap, p.slot.value)
  }

  const MAX_DEEP := 40000

  /** An object is cut off when it is one of its own ancestors, or too deep. */
  predicate CutOff(stack: seq<ObjId>, id: ObjId) { id in stack || |stack| > MAX_DEEP }

  /** How many more levels the depth limit allows. */
  function Height(stack: seq<ObjId>): nat { if |stack| <= MAX_DEEP then MAX_DEEP + 1 - |stack| else 0 }

  lemma LowerHeight(stack: seq<ObjId>, id: ObjId)
    requires !CutOff(stack, id)
    ensures Height(stack + [id]) < Height(stack)
  {
  }

  function NumberValue(n: Number): Value {
    match n
    case Int32(i) => Int(i)
    case AnyInt(l) => Long(l)
    case Dbl(bits) => Double(bits)
  }

  /** A boxed number that is no integer is written as its text. */
  function BoxedNumberValue(n: Number, text: JsString): Value {
    match n
    case Int32(i) => Int(i)
    case AnyInt(l) => Long(l)
    case Dbl(_) => Text(Plain, text.units)
  }

  /** The value written for `val` below the ancestors on the stack. */
  function Unfold(heap: Heap, val: Js, stack: seq<ObjId>): Value
    decreases Height(stack), 0
  {
    match val
    case Boolean(b) => Bool(b)
    case Num(n) => NumberValue(n)
    case String(s) => Text(Plain, s.units)
    case Object(id) =>
      (match Lookup(heap, id)
       case ArrayNode(elements) =>
         if CutOff(stack, id) then Null else Arr(UnfoldElements(heap, elements, 0, stack + [id]))
       case FunctionNode => Null
       case StringObject(s) => Text(Plain, s.units)
       case NumberObject(n, text) => BoxedNumberValue(n, text)
       case BooleanObject(b) => Bool(b)
       case PlainObject(properties) =>
         if CutOff(stack, id) then Null else Obj(UnfoldProperties(heap, properties, stack + [id])))
    case _ => Null
  }

  /** The elements from index `index` on, each after its `toJSON`. */
  function UnfoldElements(heap: Heap, elements: seq<Js>, index: nat, stack: seq<ObjId>): (items: seq<Value>)
    ensures |items| == |elements|
    decreases Height(stack), 1, |elements|
  {
    if elements == [] then []
    else
      [Unfold(heap, Replaced(heap, elements[0], IndexName(index)), stack)]
      + UnfoldElements(heap, elements[1..], index + 1, stack)
  }

  /** The value of a kept property, after its `toJSON`, which may well give undefined or a function. */
  function PropertyValue(heap: Heap, p: Property): Js
    requires p.slot.Some?
  {
    Replaced(heap, p.slot.value, p.name.units)
  }

  function UnfoldProperties(heap: Heap, properties: seq<Property>, stack: seq<ObjId>): (members: seq<Member>)
    ensures |members| == CountKept(heap, properties)
    decreases Height(stack), 1, |properties|
  {
    if properties == [] then []
    else
      var p, more := properties[0], UnfoldProperties(heap, properties[1..], stack);
      if Kept(heap, p) then [Member(p.name.units, Unfold(heap, PropertyValue(heap, p), stack))] + more else more
  }

  function CountKept(heap: Heap, properties: seq<Property>): (n: nat)
    ensures n <= |properties|
  {
    if properties == [] then 0
    else (if Kept(heap, properties[0]) then 1 else 0) + CountKept(heap, properties[1..])
  }
}
