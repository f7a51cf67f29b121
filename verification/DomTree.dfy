/**
 * The trees the readers of dom_wson.cpp build: what the calls on a render object leave in it, what the
 * collecting reader gathers, and the callbacks of the generator.
 */
module DomTree {
  import opened Words
  import opened Values
  import opened JsonText
  import opened Dom
  import Text

  /** What a render object holds in the end. */
  datatype Node = Node(
    ref: Str, typ: Str, attrs: map<Str, Str>, styles: map<Str, Str>, events: set<Str>, children: seq<Node>)

  function Bare(ref: Str, typ: Str): Node { Node(ref, typ, map[], map[], {}, []) }

  function Pairs(n: Node, style: bool): map<Str, Str> { if style then n.styles else n.attrs }

  function WithPairs(n: Node, style: bool, pairs: map<Str, Str>): Node {
    if style then n.(styles := pairs) else n.(attrs := pairs)
  }

  /** A child goes to its index, or to the end when there are not so many children. */
  function InsertAt<T>(xs: seq<T>, index: int, x: T): seq<T> {
    if 0 <= index < |xs| then xs[..index] + [x] + xs[index..] else xs + [x]
  }

  function ApplyCall(n: Node, call: Call): Node
    decreases call, 1
  {
    match call
    case AddAttr(k, v) => n.(attrs := n.attrs[k := v])
    case AddStyle(k, v) => n.(styles := n.styles[k := v])
    case AddEvent(e) => n.(events := n.events + {e})
    case AddChild(index, child) => n.(children := InsertAt(n.children, index, View(child)))
  }

  function ApplyCalls(n: Node, calls: seq<Call>): Node
    decreases calls, 2
  {
    if calls == [] then n else ApplyCalls(ApplyCall(n, calls[0]), calls[1..])
  }

  function View(r: Render): Node
    decreases r, 3
  {
    ApplyCalls(Bare(r.ref, r.typ), r.calls)
  }

  lemma {:induction false} ApplyConcat(n: Node, a: seq<Call>, b: seq<Call>)
    ensures ApplyCalls(n, a + b) == ApplyCalls(ApplyCalls(n, a), b)
    decreases |a|
  {
    if a == [] {
      assert a + b == b;
    } else {
      assert (a + b)[1..] == a[1..] + b && (a + b)[0] == a[0];
      hide ApplyCall;
      ApplyConcat(ApplyCall(n, a[0]), a[1..], b);
    }
  }

  // ---- the collecting reader ----

  /** The local variables of the collecting reader; the children are complete when they are stored. */
  datatype Fields = Fields(
    ref: Str, typ: Str, attrs: map<Str, Str>, styles: map<Str, Str>, events: seq<Str>, children: seq<Node>)

  const NO_FIELDS := Fields([], [], map[], map[], [], [])

  function AsSet(xs: seq<Str>): set<Str> { set x | x in xs }

  function ToNode(s: Fields): Node { Node(s.ref, s.typ, s.attrs, s.styles, AsSet(s.events), s.children) }

  /** `std::map::insert`: the first value of a key stays. */
  function InsertFirst(f: NumberFormat, m: map<Str, Str>, members: seq<Member>): map<Str, Str>
    decreases |members|
  {
    if members == [] then m
    else
      var k := Text.Utf8(members[0].key);
      InsertFirst(f, if k in m then m else m[k := PlainText(f, members[0].value)], members[1..])
  }

  function EventNames(f: NumberFormat, items: seq<Value>): seq<Str> {
    if items == [] then []
    else
      var e := PlainText(f, items[0]);
      (if e != [] then [e] else []) + EventNames(f, items[1..])
  }

  function CollectedChildren(f: NumberFormat, items: seq<Value>): seq<Node>
    decreases items, 0
  {
    if items == [] then []
    else
      var more := CollectedChildren(f, items[1..]);
      match Collected(f, items[0])
      case None => more
      case Some(n) => [n] + more
  }

  function CollectStep(f: NumberFormat, m: Member, s: Fields): Fields
    decreases m, 1
  {
    match KindOf(m)
    case Ref => s.(ref := PlainText(f, m.value))
    case Type => s.(typ := PlainText(f, m.value))
    case Attr => if m.value.Obj? then s.(attrs := InsertFirst(f, s.attrs, m.value.members)) else s
    case Style => if m.value.Obj? then s.(styles := InsertFirst(f, s.styles, m.value.members)) else s
    case Event => if m.value.Arr? then s.(events := s.events + EventNames(f, m.value.items)) else s
    case Children => if m.value.Arr? then s.(children := s.children + CollectedChildren(f, m.value.items)) else s
    case Other => s
  }

  function Collect(f: NumberFormat, members: seq<Member>, s: Fields): Fields
    decreases members, 0
  {
    if members == [] then s else Collect(f, members[1..], CollectStep(f, members[0], s))
  }

  /** The tree the collecting reader returns; none for what is no map. */
  function Collected(f: NumberFormat, v: Value): Option<Node>
    decreases v, 2
  {
    if v.Obj? then Some(ToNode(Collect(f, v.members, NO_FIELDS))) else None
  }

  // ---- the generator ----

  /** One callback. */
  datatype Generated = Generated(
    ref: Str, typ: Str, parentRef: Str, styles: map<Str, Str>, attrs: map<Str, Str>, events: set<Str>, index: int)

  /** What the generator's first pass gathers. */
  datatype Own = Own(ref: Str, typ: Str, attrs: map<Str, Str>, styles: map<Str, Str>, events: set<Str>)

  const NO_OWN := Own([], [], map[], map[], {})

  /** `(*map)[key] = value`: the last value of a key stays. */
  function InsertLast(f: NumberFormat, m: map<Str, Str>, members: seq<Member>): map<Str, Str>
    decreases |members|
  {
    if members == [] then m
    else InsertLast(f, m[Text.Utf8(members[0].key) := PlainText(f, members[0].value)], members[1..])
  }

  function OwnStep(f: NumberFormat, m: Member, s: Own): Own {
    match KindOf(m)
    case Ref => s.(ref := PlainText(f, m.value))
    case Type => s.(typ := PlainText(f, m.value))
    case Attr => if m.value.Obj? then s.(attrs := InsertLast(f, s.attrs, m.value.members)) else s
    case Style => if m.value.Obj? then s.(styles := InsertLast(f, s.styles, m.value.members)) else s
    case Event => if m.value.Arr? then s.(events := s.events + AsSet(EventNames(f, m.value.items))) else s
    case _ => s
  }

  function OwnFields(f: NumberFormat, members: seq<Member>, s: Own): Own
    decreases |members|
  {
    if members == [] then s else OwnFields(f, members[1..], OwnStep(f, members[0], s))
  }

  predicate Named(s: Own) { s.typ != [] && s.ref != [] }

  /** A node whose children are read. */
  predicate Opened(f: NumberFormat, v: Value) { v.Obj? && Named(OwnFields(f, v.members, NO_OWN)) }

  /**
   * The callbacks for a value, in order: the node first, then its children, each with the reference of its parent and
   * its index in the children array; nothing for a node without type or reference, nor for anything below it. A
   * `children` that is no array ends the search for children.
   */
  function Preorder(f: NumberFormat, v: Value, parentRef: Str, index: int): seq<Generated>
    decreases v, 2
  {
    if !v.Obj? then []
    else
      var s := OwnFields(f, v.members, NO_OWN);
      if !Named(s) then []
      else
        [Generated(s.ref, s.typ, parentRef, s.styles, s.attrs, s.events, index)]
        + PreorderMembers(f, v.members, s.ref)
  }

  function PreorderMembers(f: NumberFormat, members: seq<Member>, ref: Str): seq<Generated>
    decreases members, 1
  {
    if members == [] then []
    else if !KindOf(members[0]).Children? then PreorderMembers(f, members[1..], ref)
    else if !members[0].value.Arr? then []
    else PreorderItems(f, members[0].value.items, ref, 0) + PreorderMembers(f, members[1..], ref)
  }

  function PreorderItems(f: NumberFormat, items: seq<Value>, ref: Str, index: nat): seq<Generated>
    decreases items, 0
  {
    if items == [] then [] else Preorder(f, items[0], ref, index) + PreorderItems(f, items[1..], ref, index + 1)
  }
}
