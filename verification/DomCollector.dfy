/** The collecting reader of dom_wson.cpp: it gathers every field first and creates the render object at the end. */
module DomCollector {
  import opened Words
  import opened Seqs
  import opened Varint
  import opened Values
  import opened JsonText
  import opened Dom
  import opened DomTree
  import opened DomBuilder
  import opened Parser
  import Text
  import Tags

  function Views(rs: seq<Render>): (ns: seq<Node>)
    ensures |ns| == |rs|
  {
    seq(|rs|, i requires 0 <= i < |rs| => View(rs[i]))
  }

  // ---- what is still to gather ----

  lemma InsertFirstFrom(f: NumberFormat, m: map<Str, Str>, members: seq<Member>, i: nat)
    requires i < |members|
    ensures var k := Text.Utf8(members[i].key);
      InsertFirst(f, m, members[i..])
      == InsertFirst(f, if k in m then m else m[k := PlainText(f, members[i].value)], members[i + 1..])
  {
    assert members[i..][1..] == members[i + 1..];
  }

  lemma EventNamesFrom(f: NumberFormat, items: seq<Value>, i: nat, done: seq<Str>)
    requires i < |items|
    ensures var e := PlainText(f, items[i]);
      done + EventNames(f, items[i..]) == done + (if e != [] then [e] else []) + EventNames(f, items[i + 1..])
  {
    assert items[i..][1..] == items[i + 1..];
    var e := PlainText(f, items[i]);
    Assoc(done, if e != [] then [e] else [], EventNames(f, items[i + 1..]));
  }

  lemma ChildrenFrom(f: NumberFormat, items: seq<Value>, i: nat, done: seq<Node>)
    requires i < |items|
    ensures done + CollectedChildren(f, items[i..])
      == (if Collected(f, items[i]).None? then done else done + [Collected(f, items[i]).value])
         + CollectedChildren(f, items[i + 1..])
  {
    hide Collected;
    assert items[i..][1..] == items[i + 1..];
    if Collected(f, items[i]).Some? {
      Assoc(done, [Collected(f, items[i]).value], CollectedChildren(f, items[i + 1..]));
    }
  }

  lemma CollectFrom(f: NumberFormat, members: seq<Member>, i: nat, s: Fields)
    requires i < |members|
    ensures Collect(f, members[i..], s) == Collect(f, members[i + 1..], CollectStep(f, members[i], s))
  {
    assert members[i..][1..] == members[i + 1..];
  }

  lemma NothingToCollect(f: NumberFormat, members: seq<Member>, items: seq<Value>)
    ensures forall s :: Collect(f, members[|members|..], s) == s
    ensures forall m :: InsertFirst(f, m, members[|members|..]) == m
    ensures EventNames(f, items[|items|..]) == [] && CollectedChildren(f, items[|items|..]) == []
  {
  }

  /** The loop over a map of attributes or styles. */
  method ReadPairs(parser: WsonParser, pairs: map<Str, Str>, ghost members: seq<Member>) returns (r: map<Str, Str>)
    requires MembersAhead(parser, members)
    modifies parser.buffer`position, parser`scratch
    ensures parser.Valid() && parser.buffer.position == old(MembersEnd(parser, members))
    ensures r == InsertFirst(parser.format, pairs, members)
  {
    hide Var, Has, Enc, EncMembers, Bytes16, Sized, Text.Utf8, PlainText, InsertFirst;
    ghost var d, end := parser.buffer.data[..], MembersEnd(parser, members);
    var mapSize := parser.NextMapSize(|members|);
    NoMore([], members);
    NothingToCollect(parser.format, members, []);
    r := pairs;
    for i := 0 to mapSize
      invariant parser.Valid() && parser.Next(EncMembers(members[i..]))
      invariant parser.buffer.position + |EncMembers(members[i..])| == end
      invariant InsertFirst(parser.format, r, members[i..]) == InsertFirst(parser.format, pairs, members)
    {
      FirstMember(d, parser.buffer.position, members, i);
      InsertFirstFrom(parser.format, r, members, i);
      var key := parser.NextMapKeyUtf8(members[i].key);
      var value := NextText(parser, members[i].value);
      if key !in r {
        r := r[key := value];
      }
    }
  }

  method ReadEvents(parser: WsonParser, events: seq<Str>, ghost items: seq<Value>) returns (r: seq<Str>)
    requires ItemsAhead(parser, items)
    modifies parser.buffer`position, parser`scratch
    ensures parser.Valid() && parser.buffer.position == old(ItemsEnd(parser, items))
    ensures r == events + EventNames(parser.format, items)
  {
    hide Var, Has, Enc, EncItems, PlainText, EventNames;
    ghost var d, end := parser.buffer.data[..], ItemsEnd(parser, items);
    var eventSize := parser.NextArraySize(|items|);
    NoMore(items, []);
    NothingToCollect(parser.format, [], items);
    r := events;
    for i := 0 to eventSize
      invariant parser.Valid() && parser.Next(EncItems(items[i..]))
      invariant parser.buffer.position + |EncItems(items[i..])| == end
      invariant r + EventNames(parser.format, items[i..]) == events + EventNames(parser.format, items)
    {
      FirstItem(d, parser.buffer.position, items, i);
      EventNamesFrom(parser.format, items, i, r);
      var event := NextText(parser, items[i]);
      if |event| > 0 {
        r := r + [event];
      }
    }
  }

  method ReadChildren(parser: WsonParser, childrens: seq<Render>, ghost items: seq<Value>) returns (r: seq<Render>)
    requires ItemsAhead(parser, items)
    modifies parser.buffer`position, parser`scratch
    ensures parser.Valid() && parser.buffer.position == old(ItemsEnd(parser, items))
    ensures Views(r) == Views(childrens) + CollectedChildren(parser.format, items)
    decreases items, 0
  {
    hide Var, Has, Enc, EncItems, Collected, CollectedChildren, View;
    ghost var d, end := parser.buffer.data[..], ItemsEnd(parser, items);
    var childSize := parser.NextArraySize(|items|);
    NoMore(items, []);
    NothingToCollect(parser.format, [], items);
    r := childrens;
    for i := 0 to childSize
      invariant parser.Valid() && parser.Next(EncItems(items[i..]))
      invariant parser.buffer.position + |EncItems(items[i..])| == end
      invariant Views(r) + CollectedChildren(parser.format, items[i..])
             == Views(childrens) + CollectedChildren(parser.format, items)
    {
      FirstItem(d, parser.buffer.position, items, i);
      ChildrenFrom(parser.format, items, i, Views(r));
      var child := BuildNew(parser, items[i]);
      if child.Some? {
        assert Views(r + [child.value]) == Views(r) + [View(child.value)];
        r := r + [child.value];
      }
    }
  }

  /** The local variables of the reader while it gathers. */
  datatype Gathered = Gathered(
    ref: Str, typ: Str, attrs: map<Str, Str>, styles: map<Str, Str>, events: seq<Str>, childrens: seq<Render>)
  {
    function Seen(): Fields { Fields(ref, typ, attrs, styles, events, Views(childrens)) }
  }

  method Gather(parser: WsonParser, ghost members: seq<Member>) returns (g: Gathered)
    requires MembersAhead(parser, members)
    modifies parser.buffer`position, parser`scratch
    ensures parser.Valid() && parser.buffer.position == old(MembersEnd(parser, members))
    ensures g.Seen() == Collect(parser.format, members, NO_FIELDS)
    decreases members, 1
  {
    hide Var, Has, Enc, EncMembers, Bytes16, Sized, Text.Utf8, Collect, CollectStep, View;
    ghost var d, end := parser.buffer.data[..], MembersEnd(parser, members);
    var size := parser.NextMapSize(|members|);
    NoMore([], members);
    NothingToCollect(parser.format, members, []);
    g := Gathered([], [], map[], map[], [], []);
    assert g.Seen() == NO_FIELDS;
    for i := 0 to size
      invariant parser.Valid() && parser.Next(EncMembers(members[i..]))
      invariant parser.buffer.position + |EncMembers(members[i..])| == end
      invariant Collect(parser.format, members[i..], g.Seen()) == Collect(parser.format, members, NO_FIELDS)
    {
      ghost var m := members[i];
      FirstMember(d, parser.buffer.position, members, i);
      CollectFrom(parser.format, members, i, g.Seen());
      var objectKey := parser.NextMapKeyUtf8(m.key);
      g := GatherEntry(parser, objectKey, g, m);
    }
  }

  /** The body of the loop, after the key. From the length on the entry counts as null. */
  method GatherEntry(parser: WsonParser, objectKey: Str, g: Gathered, ghost m: Member) returns (h: Gathered)
    requires parser.Valid() && objectKey == Text.Utf8(m.key) && (parser.HasNext() ==> Ahead(parser, Enc(m.value)))
    modifies parser.buffer`position, parser`scratch
    ensures parser.Valid()
    ensures parser.buffer.position == old(parser.buffer.position) + old(SeenBytes(parser, m.value))
    ensures h.Seen() == CollectStep(parser.format, old(SeenEntry(parser, m)), g.Seen())
    decreases m, 2
  {
    ghost var seen := SeenEntry(parser, m);
    SeenShape(seen);
    hide Has, Enc, Payload, PlainText, KindOfText, Text.Utf8, Views, InsertFirst, EventNames, CollectedChildren;
    hide SeenBytes, Tag;
    hide MembersAhead, ItemsAhead, MembersEnd, ItemsEnd;
    var kind := KindOfText(objectKey);
    h := g;
    if kind == Ref {
      var ref := NextText(parser, m.value);
      h := h.(ref := ref);
    } else if kind == Type {
      var renderType := NextText(parser, m.value);
      h := h.(typ := renderType);
    } else if kind == Other {
      SkipNext(parser, m.value);
    } else {
      var t := NextSignature(parser, m.value);
      if !ShapeFits(kind, t) {
        parser.SkipValue(t, seen.value);
      } else if kind == Attr {
        var attrs := ReadPairs(parser, h.attrs, m.value.members);
        h := h.(attrs := attrs);
      } else if kind == Style {
        var styles := ReadPairs(parser, h.styles, m.value.members);
        h := h.(styles := styles);
      } else if kind == Event {
        var events := ReadEvents(parser, h.events, m.value.items);
        h := h.(events := events);
      } else {
        var childrens := ReadChildren(parser, h.childrens, m.value.items);
        h := h.(childrens := childrens);
      }
    }
  }

  // ---- the calls at the end ----

  lemma ViewAppend(r: Render, call: Call)
    ensures View(r.(calls := r.calls + [call])) == ApplyCall(View(r), call)
  {
    hide ApplyCall;
    ApplyConcat(Bare(r.ref, r.typ), r.calls, [call]);
    assert ApplyCalls(View(r), [call]) == ApplyCall(View(r), call);
  }

  function Without(m: map<Str, Str>, keys: set<Str>): map<Str, Str> { map k | k in m && k !in keys :: m[k] }

  lemma OneMore(m: map<Str, Str>, keys: set<Str>, k: Str)
    requires k in m && k in keys
    ensures Without(m, keys)[k := m[k]] == Without(m, keys - {k})
  {
  }

  /** The loop that hands attributes or styles over; whatever order the map is walked in, the result is the map. */
  method HandPairs(render: Render, style: bool, pairs: map<Str, Str>) returns (r: Render)
    requires Pairs(View(render), style) == map[]
    ensures View(r) == WithPairs(View(render), style, pairs)
  {
    hide View;
    r := render;
    var keys := pairs.Keys;
    assert Without(pairs, keys) == map[];
    while keys != {}
      invariant keys <= pairs.Keys
      invariant View(r) == WithPairs(View(render), style, Without(pairs, keys))
      decreases |keys|
    {
      var k :| k in keys;
      var call := PairCall(style, k, pairs[k]);
      ViewAppend(r, call);
      OneMore(pairs, keys, k);
      r := r.(calls := r.calls + [call]);
      keys := keys - {k};
    }
    assert Without(pairs, {}) == pairs;
  }

  method HandEvents(render: Render, events: seq<Str>) returns (r: Render)
    requires View(render).events == {}
    ensures View(r) == View(render).(events := AsSet(events))
  {
    hide View;
    r := render;
    for i := 0 to |events|
      invariant View(r) == View(render).(events := AsSet(events[..i]))
    {
      ViewAppend(r, AddEvent(events[i]));
      assert AsSet(events[..i + 1]) == AsSet(events[..i]) + {events[i]};
      r := r.(calls := r.calls + [AddEvent(events[i])]);
    }
    assert events[..|events|] == events;
  }

  method HandChildren(render: Render, childrens: seq<Render>) returns (r: Render)
    requires View(render).children == []
    ensures View(r) == View(render).(children := Views(childrens))
  {
    hide View;
    r := render;
    for childIndex := 0 to |childrens|
      invariant View(r) == View(render).(children := Views(childrens)[..childIndex])
    {
      var child := childrens[childIndex];
      ViewAppend(r, AddChild(childIndex, child));
      r := r.(calls := r.calls + [AddChild(childIndex, child)]);
    }
  }

  /** Reads the value at the cursor, which ends exactly behind it, and creates its render object. */
  method BuildNew(parser: WsonParser, ghost v: Value) returns (r: Option<Render>)
    requires Ahead(parser, Enc(v))
    modifies parser.buffer`position, parser`scratch
    ensures parser.Valid() && parser.buffer.position == old(parser.buffer.position) + |Enc(v)|
    ensures r.None? == Collected(parser.format, v).None?
    ensures r.Some? ==> Some(View(r.value)) == Collected(parser.format, v)
    decreases v, 2
  {
    hide Var, Has, Enc, EncMembers, Payload, Collect, View;
    TagThen(parser.buffer.data[..], parser.buffer.position, v);
    var objectType := parser.NextType();
    if objectType != Tags.MAP {
      parser.SkipValue(objectType, v);
      return None;
    }
    ContainerAhead(parser, v);
    var g := Gather(parser, v.members);
    var render := Render(g.ref, g.typ, []);
    BareView(g.ref, g.typ);
    render := HandPairs(render, false, g.attrs);
    render := HandPairs(render, true, g.styles);
    render := HandEvents(render, g.events);
    render := HandChildren(render, g.childrens);
    return Some(render);
  }

  lemma BareView(ref: Str, typ: Str)
    ensures View(Render(ref, typ, [])) == Bare(ref, typ)
  {
  }
}
