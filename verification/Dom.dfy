/**
 * What the readers of dom_wson.cpp make of a value, as functions: the calls the one-pass builder makes on each render
 * object, the fields the collecting reader gathers, and the callbacks of the generator.
 */
module Dom {
  import opened Words
  import opened Values
  import opened JsonText
  import Text

  type Str = seq<u8>

  /** A render object: its reference and type, and the calls made on it since it was created, in order. */
  datatype Render = Render(ref: Str, typ: Str, calls: seq<Call>)

  datatype Call =
    | AddAttr(key: Str, value: Str)
    | AddStyle(key: Str, value: Str)
    | AddEvent(event: Str)
    | AddChild(index: int, child: Render)

  // ---- keys ----

  datatype Kind = Ref | Type | Attr | Style | Event | Children | Other

  /** A byte string as `c_str` and `strcmp` see it: up to the first zero byte. */
  function CString(s: Str): Str { if s == [] || s[0] == 0 then [] else [s[0]] + CString(s[1..]) }

  const REF: Str := [0x72, 0x65, 0x66]
  const TYPE: Str := [0x74, 0x79, 0x70, 0x65]
  const ATTR: Str := [0x61, 0x74, 0x74, 0x72]
  const STYLE: Str := [0x73, 0x74, 0x79, 0x6C, 0x65]
  const EVENT: Str := [0x65, 0x76, 0x65, 0x6E, 0x74]
  const CHILDREN: Str := [0x63, 0x68, 0x69, 0x6C, 0x64, 0x72, 0x65, 0x6E]

  function KindOfText(s: Str): Kind {
    var c := CString(s);
    if c == REF then Ref
    else if c == TYPE then Type
    else if c == ATTR then Attr
    else if c == STYLE then Style
    else if c == EVENT then Event
    else if c == CHILDREN then Children
    else Other
  }

  function KindOf(m: Member): Kind { KindOfText(Text.Utf8(m.key)) }

  /** The entries whose value the builder applies to a render object. */
  predicate IsBody(kind: Kind) { kind.Attr? || kind.Style? || kind.Event? || kind.Children? }

  /** Attributes and styles must be maps, events and children arrays; other shapes are passed over. */
  predicate Shaped(m: Member) {
    match KindOf(m)
    case Attr => m.value.Obj?
    case Style => m.value.Obj?
    case Event => m.value.Arr?
    case Children => m.value.Arr?
    case _ => false
  }

  // ---- the calls of the one-pass builder ----

  function PairCall(style: bool, key: Str, value: Str): Call {
    if style then AddStyle(key, value) else AddAttr(key, value)
  }

  function PairCalls(f: NumberFormat, style: bool, members: seq<Member>): seq<Call> {
    if members == [] then []
    else
      [PairCall(style, Text.Utf8(members[0].key), PlainText(f, members[0].value))] + PairCalls(f, style, members[1..])
  }

  /** Empty event names are dropped. */
  function EventCalls(f: NumberFormat, items: seq<Value>): seq<Call> {
    if items == [] then []
    else
      var e := PlainText(f, items[0]);
      (if e != [] then [AddEvent(e)] else []) + EventCalls(f, items[1..])
  }

  /** One call for every render object a child made, with the child's index in the stream. */
  function ChildCalls(f: NumberFormat, items: seq<Value>, index: nat): seq<Call>
    decreases items, 0
  {
    if items == [] then [] else AddAll(index, Built(f, items[0])) + ChildCalls(f, items[1..], index + 1)
  }

  function AddAll(index: nat, made: seq<Render>): seq<Call> {
    seq(|made|, i requires 0 <= i < |made| => AddChild(index, made[i]))
  }

  function EntryCalls(f: NumberFormat, m: Member): seq<Call>
    decreases m, 1
  {
    if !Shaped(m) then []
    else match KindOf(m)
      case Attr => PairCalls(f, false, m.value.members)
      case Style => PairCalls(f, true, m.value.members)
      case Event => EventCalls(f, m.value.items)
      case Children => ChildCalls(f, m.value.items, 0)
      case _ => []
  }

  /** The calls of all entries, in stream order. */
  function StreamCalls(f: NumberFormat, members: seq<Member>): seq<Call>
    decreases members, 0
  {
    if members == [] then [] else EntryCalls(f, members[0]) + StreamCalls(f, members[1..])
  }

  /** `made` holds the render objects created so far; the current one is the last. */
  datatype Progress = Progress(ref: Str, made: seq<Render>, keyOrderRight: bool)

  const START := Progress([], [], true)

  function WithCurrent(made: seq<Render>, r: Render): seq<Render>
    requires made != []
  {
    made[|made| - 1 := r]
  }

  function Current(made: seq<Render>): Render
    requires made != []
  {
    made[|made| - 1]
  }

  function Expected(p: Progress): bool { p.made != [] && p.keyOrderRight }

  function FirstPassStep(f: NumberFormat, m: Member, p: Progress): Progress
    decreases m, 2
  {
    match KindOf(m)
    case Ref =>
      var ref := PlainText(f, m.value);
      Progress(ref, if p.made == [] then [] else WithCurrent(p.made, Current(p.made).(ref := ref)), p.keyOrderRight)
    case Type => p.(made := p.made + [Render(p.ref, PlainText(f, m.value), [])])
    case Other => p
    case _ =>
      if Shaped(m) && Expected(p) then
        var r := Current(p.made);
        p.(made := WithCurrent(p.made, r.(calls := r.calls + EntryCalls(f, m))))
      else p.(keyOrderRight := Expected(p))
  }

  function FirstPass(f: NumberFormat, members: seq<Member>, p: Progress): Progress
    decreases members, 1
  {
    if members == [] then p else FirstPass(f, members[1..], FirstPassStep(f, members[0], p))
  }

  /** When the keys came in the wrong order, everything is read again and applied to the current render object. */
  function Finished(f: NumberFormat, members: seq<Member>, p: Progress): seq<Render>
    decreases members, 1
  {
    if !p.keyOrderRight && p.made != [] then
      var r := Current(p.made);
      WithCurrent(p.made, r.(calls := r.calls + StreamCalls(f, members)))
    else p.made
  }

  /** The render objects the one-pass builder creates for a value, the one it returns last; none for what is no map. */
  function Built(f: NumberFormat, v: Value): seq<Render>
    decreases v, 2
  {
    if v.Obj? then Finished(f, v.members, FirstPass(f, v.members, START)) else []
  }
}
