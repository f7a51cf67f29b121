/**
 * The one-pass builder of dom_wson.cpp: it applies what it reads as long as the type came first, and otherwise goes
 * back to the saved cursor and reads the object a second time.
 */
module DomBuilder {
  import opened Words
  import opened Seqs
  import opened Varint
  import opened Values
  import opened JsonText
  import opened Dom
  import opened Parser
  import Text
  import Tags

  /** `bs` lies at the cursor, and before the length the parser was told. */
  ghost predicate Ahead(parser: WsonParser, bs: seq<u8>)
    reads parser.buffer, parser.buffer.data
  {
    parser.Valid() && parser.Next(bs) && parser.buffer.position + |bs| <= parser.buffer.length
  }

  /** The value at the cursor, or null when the cursor is not before the length. */
  ghost function Seen(parser: WsonParser, v: Value): Value
    reads parser.buffer
  {
    if parser.HasNext() then v else Null
  }

  /** The entry whose key has been read. */
  ghost function SeenEntry(parser: WsonParser, m: Member): Member
    reads parser.buffer
  {
    Member(m.key, Seen(parser, m.value))
  }

  /** The bytes of what is seen: all of the value, or none. */
  ghost function SeenBytes(parser: WsonParser, v: Value): nat
    reads parser.buffer
  {
    if parser.HasNext() then |Enc(v)| else 0
  }

  /** `parser.nextStringUTF8(parser.nextType())`. From the length on it is the empty text, and the cursor stays. */
  method NextText(parser: WsonParser, ghost v: Value) returns (str: Str)
    requires parser.Valid() && (parser.HasNext() ==> parser.Next(Enc(v)))
    modifies parser.buffer`position, parser`scratch
    ensures parser.Valid() && str == PlainText(parser.format, old(Seen(parser, v)))
    ensures parser.buffer.position == old(parser.buffer.position) + old(SeenBytes(parser, v))
  {
    ghost var seen := Seen(parser, v);
    hide Enc, Has, Payload, PlainText, Print;
    if parser.HasNext() { TagThen(parser.buffer.data[..], parser.buffer.position, v); }
    NullIsEmpty();
    var t := parser.NextType();
    str := parser.NextStringUtf8(t, seen);
  }

  lemma NullIsEmpty()
    ensures Tag(Null) == Tags.NULL && Payload(Null) == []
  {
  }

  /** `parser.skipValue(parser.nextType())`. */
  method SkipNext(parser: WsonParser, ghost v: Value)
    requires parser.Valid() && (parser.HasNext() ==> parser.Next(Enc(v)))
    modifies parser.buffer`position
    ensures parser.Valid()
    ensures parser.buffer.position == old(parser.buffer.position) + old(SeenBytes(parser, v))
  {
    ghost var seen := Seen(parser, v);
    NullIsEmpty();
    NothingAhead(parser);
    hide Enc, Has, Payload;
    if parser.HasNext() { TagThen(parser.buffer.data[..], parser.buffer.position, v); }
    var t := parser.NextType();
    parser.SkipValue(t, seen);
  }

  lemma NothingAhead(parser: WsonParser)
    requires parser.Valid()
    ensures parser.Next([])
  {
  }

  /** A count in front and the entries behind it, right at the cursor. */
  ghost predicate MembersAhead(parser: WsonParser, members: seq<Member>)
    reads parser.buffer, parser.buffer.data
  {
    && parser.Valid() && |members| < 0x8000_0000 && parser.Next(Var(|members|))
    && Has(parser.buffer.data[..], parser.buffer.position + |Var(|members|)|, EncMembers(members))
    && MembersEnd(parser, members) <= parser.buffer.length
  }

  ghost predicate ItemsAhead(parser: WsonParser, items: seq<Value>)
    reads parser.buffer, parser.buffer.data
  {
    && parser.Valid() && |items| < 0x8000_0000 && parser.Next(Var(|items|))
    && Has(parser.buffer.data[..], parser.buffer.position + |Var(|items|)|, EncItems(items))
    && ItemsEnd(parser, items) <= parser.buffer.length
  }

  ghost function MembersEnd(parser: WsonParser, members: seq<Member>): nat
    reads parser.buffer
  {
    parser.buffer.position + |Var(|members|)| + |EncMembers(members)|
  }

  ghost function ItemsEnd(parser: WsonParser, items: seq<Value>): nat
    reads parser.buffer
  {
    parser.buffer.position + |Var(|items|)| + |EncItems(items)|
  }

  lemma ContainerAhead(parser: WsonParser, v: Value)
    requires Ahead(parser, Payload(v))
    ensures v.Obj? ==>
      MembersAhead(parser, v.members) && MembersEnd(parser, v.members) == parser.buffer.position + |Payload(v)|
    ensures v.Arr? ==> ItemsAhead(parser, v.items) && ItemsEnd(parser, v.items) == parser.buffer.position + |Payload(v)|
  {
    hide Var, Has, EncItems, EncMembers;
    if v.Obj? { CountThen(parser.buffer.data[..], parser.buffer.position, |v.members|, EncMembers(v.members)); }
    if v.Arr? { CountThen(parser.buffer.data[..], parser.buffer.position, |v.items|, EncItems(v.items)); }
  }

  /** `parser.nextType()` in front of a value: what is seen of the value follows, a container with its count. */
  method NextSignature(parser: WsonParser, ghost v: Value) returns (t: u8)
    requires parser.Valid() && (parser.HasNext() ==> Ahead(parser, Enc(v)))
    modifies parser.buffer`position
    ensures parser.Valid() && t == Tag(old(Seen(parser, v))) && parser.Next(Payload(old(Seen(parser, v))))
    ensures parser.buffer.position + |Payload(old(Seen(parser, v)))|
      == old(parser.buffer.position) + old(SeenBytes(parser, v))
    ensures t == Tags.MAP ==>
      && v.Obj? && MembersAhead(parser, v.members)
      && MembersEnd(parser, v.members) == old(parser.buffer.position) + old(SeenBytes(parser, v))
    ensures t == Tags.ARRAY ==>
      && v.Arr? && ItemsAhead(parser, v.items)
      && ItemsEnd(parser, v.items) == old(parser.buffer.position) + old(SeenBytes(parser, v))
  {
    NullIsEmpty();
    NothingAhead(parser);
    TagOfContainer(Seen(parser, v));
    hide Has, Enc, Payload, Tag, MembersAhead, ItemsAhead, MembersEnd, ItemsEnd;
    if parser.HasNext() {
      TagThen(parser.buffer.data[..], parser.buffer.position, v);
      t := parser.NextType();
      ContainerAhead(parser, v);
    } else {
      t := parser.NextType();
    }
  }

  lemma TagOfContainer(v: Value)
    ensures Tag(v) == Tags.MAP <==> v.Obj?
    ensures Tag(v) == Tags.ARRAY <==> v.Arr?
  {
  }

  // ---- the loops over the four kinds of entries ----

  lemma PairCallsFrom(f: NumberFormat, style: bool, members: seq<Member>, i: nat, done: seq<Call>)
    requires i < |members|
    ensures done + PairCalls(f, style, members[i..])
      == done + [PairCall(style, Text.Utf8(members[i].key), PlainText(f, members[i].value))]
         + PairCalls(f, style, members[i + 1..])
  {
    assert members[i..][1..] == members[i + 1..];
  }

  lemma EventCallsFrom(f: NumberFormat, items: seq<Value>, i: nat, done: seq<Call>)
    requires i < |items|
    ensures var e := PlainText(f, items[i]);
      done + EventCalls(f, items[i..]) == done + (if e != [] then [AddEvent(e)] else []) + EventCalls(f, items[i + 1..])
  {
    assert items[i..][1..] == items[i + 1..];
    var e := PlainText(f, items[i]);
    Assoc(done, if e != [] then [AddEvent(e)] else [], EventCalls(f, items[i + 1..]));
  }

  lemma ChildCallsFrom(f: NumberFormat, items: seq<Value>, i: nat, done: seq<Call>)
    requires i < |items|
    ensures done + ChildCalls(f, items[i..], i)
      == done + AddAll(i, Built(f, items[i])) + ChildCalls(f, items[i + 1..], i + 1)
  {
    hide Built, AddAll;
    assert items[i..][1..] == items[i + 1..];
    Assoc(done, AddAll(i, Built(f, items[i])), ChildCalls(f, items[i + 1..], i + 1));
  }

  lemma NoCalls(f: NumberFormat, style: bool, members: seq<Member>, items: seq<Value>)
    ensures PairCalls(f, style, members[|members|..]) == []
    ensures EventCalls(f, items[|items|..]) == ChildCalls(f, items[|items|..], |items|) == []
    ensures StreamCalls(f, members[|members|..]) == []
    ensures members[0..] == members && items[0..] == items
  {
  }

  /** The loop over a map of attributes, or of styles. */
  method ApplyPairs(parser: WsonParser, style: bool, render: Render, ghost members: seq<Member>) returns (r: Render)
    requires MembersAhead(parser, members)
    modifies parser.buffer`position, parser`scratch
    ensures parser.Valid() && parser.buffer.position == old(MembersEnd(parser, members))
    ensures r == render.(calls := render.calls + PairCalls(parser.format, style, members))
  {
    hide Var, Has, Enc, EncMembers, Bytes16, Sized, Text.Utf8, PlainText, PairCalls, PairCall;
    ghost var d, end := parser.buffer.data[..], MembersEnd(parser, members);
    var mapSize := parser.NextMapSize(|members|);
    NoMore([], members);
    NoCalls(parser.format, style, members, []);
    r := render;
    for i := 0 to mapSize
      invariant parser.Valid() && parser.Next(EncMembers(members[i..]))
      invariant parser.buffer.position + |EncMembers(members[i..])| == end
      invariant r == render.(calls := r.calls)
      invariant r.calls + PairCalls(parser.format, style, members[i..])
             == render.calls + PairCalls(parser.format, style, members)
    {
      FirstMember(d, parser.buffer.position, members, i);
      PairCallsFrom(parser.format, style, members, i, r.calls);
      var key := parser.NextMapKeyUtf8(members[i].key);
      var value := NextText(parser, members[i].value);
      r := r.(calls := r.calls + [PairCall(style, key, value)]);
    }
  }

  method ApplyEvents(parser: WsonParser, render: Render, ghost items: seq<Value>) returns (r: Render)
    requires ItemsAhead(parser, items)
    modifies parser.buffer`position, parser`scratch
    ensures parser.Valid() && parser.buffer.position == old(ItemsEnd(parser, items))
    ensures r == render.(calls := render.calls + EventCalls(parser.format, items))
  {
    hide Var, Has, Enc, EncItems, PlainText, EventCalls;
    ghost var d, end := parser.buffer.data[..], ItemsEnd(parser, items);
    var eventSize := parser.NextArraySize(|items|);
    NoMore(items, []);
    NoCalls(parser.format, false, [], items);
    r := render;
    for i := 0 to eventSize
      invariant parser.Valid() && parser.Next(EncItems(items[i..]))
      invariant parser.buffer.position + |EncItems(items[i..])| == end
      invariant r == render.(calls := r.calls)
      invariant r.calls + EventCalls(parser.format, items[i..]) == render.calls + EventCalls(parser.format, items)
    {
      FirstItem(d, parser.buffer.position, items, i);
      EventCallsFrom(parser.format, items, i, r.calls);
      var event := NextText(parser, items[i]);
      if |event| > 0 {
        r := r.(calls := r.calls + [AddEvent(event)]);
      }
    }
  }

  method ApplyChildren(parser: WsonParser, render: Render, ghost items: seq<Value>) returns (r: Render)
    requires ItemsAhead(parser, items)
    modifies parser.buffer`position, parser`scratch
    ensures parser.Valid() && parser.buffer.position == old(ItemsEnd(parser, items))
    ensures r == render.(calls := render.calls + ChildCalls(parser.format, items, 0))
    decreases items, 0
  {
    hide Var, Has, Enc, EncItems, ChildCalls, Built;
    ghost var d, end := parser.buffer.data[..], ItemsEnd(parser, items);
    var childSize := parser.NextArraySize(|items|);
    NoMore(items, []);
    NoCalls(parser.format, false, [], items);
    r := render;
    for i := 0 to childSize
      invariant parser.Valid() && parser.Next(EncItems(items[i..]))
      invariant parser.buffer.position + |EncItems(items[i..])| == end
      invariant r == render.(calls := r.calls)
      invariant r.calls + ChildCalls(parser.format, items[i..], i) == render.calls + ChildCalls(parser.format, items, 0)
    {
      FirstItem(d, parser.buffer.position, items, i);
      ChildCallsFrom(parser.format, items, i, r.calls);
      var made := Build(parser, items[i]);
      r := r.(calls := r.calls + AddAll(i, made));
    }
  }

  /** One entry of the four kinds, its value of the shape that kind needs. */
  method ApplyEntry(parser: WsonParser, kind: Kind, render: Render, ghost m: Member) returns (r: Render)
    requires kind == KindOf(m) && Shaped(m)
    requires if m.value.Obj? then MembersAhead(parser, m.value.members) else ItemsAhead(parser, m.value.items)
    modifies parser.buffer`position, parser`scratch
    ensures parser.Valid()
    ensures parser.buffer.position
      == old(if m.value.Obj? then MembersEnd(parser, m.value.members) else ItemsEnd(parser, m.value.items))
    ensures r == render.(calls := render.calls + EntryCalls(parser.format, m))
    decreases m, 1
  {
    hide KindOf, PairCalls, EventCalls;
    hide ChildCalls, Has, MembersAhead, ItemsAhead, MembersEnd, ItemsEnd;
    if kind == Attr {
      r := ApplyPairs(parser, false, render, m.value.members);
    } else if kind == Style {
      r := ApplyPairs(parser, true, render, m.value.members);
    } else if kind == Event {
      r := ApplyEvents(parser, render, m.value.items);
    } else {
      r := ApplyChildren(parser, render, m.value.items);
    }
  }

  predicate ShapeFits(kind: Kind, t: u8) {
    if kind.Attr? || kind.Style? then t == Tags.MAP else t == Tags.ARRAY
  }

  // ---- the two passes ----

  method BuildFirstPass(parser: WsonParser, size: int, ghost members: seq<Member>) returns (p: Progress)
    requires size == |members| && Ahead(parser, EncMembers(members))
    modifies parser.buffer`position, parser`scratch
    ensures parser.Valid() && parser.buffer.position == old(parser.buffer.position) + |EncMembers(members)|
    ensures p == FirstPass(parser.format, members, START)
    decreases members, 1
  {
    hide Has, Enc, EncMembers, Bytes16, Sized, Payload, Tag, PlainText, EntryCalls, FirstPassStep, FirstPass;
    ghost var d, end := parser.buffer.data[..], parser.buffer.position + |EncMembers(members)|;
    NoMore([], members);
    FirstPassEnds(parser.format, members);
    p := START;
    for i := 0 to size
      invariant parser.Valid() && parser.Next(EncMembers(members[i..]))
      invariant parser.buffer.position + |EncMembers(members[i..])| == end
      invariant FirstPass(parser.format, members[i..], p) == FirstPass(parser.format, members, START)
    {
      ghost var m := members[i];
      FirstMember(d, parser.buffer.position, members, i);
      FirstPassFrom(parser.format, members, i, p);
      var objectKey := parser.NextMapKeyUtf8(m.key);
      p := BuildEntry(parser, objectKey, p, m);
    }
  }

  /** An entry is applied exactly when the signature fits its kind. */
  lemma SeenShape(m: Member)
    ensures IsBody(KindOf(m)) ==> (ShapeFits(KindOf(m), Tag(m.value)) <==> Shaped(m))
    ensures Shaped(m) ==> IsBody(KindOf(m)) && (m.value.Obj? || m.value.Arr?)
    ensures Shaped(m) ==> Tag(m.value) == if m.value.Obj? then Tags.MAP else Tags.ARRAY
  {
    hide KindOfText;
  }

  /** The body of the first pass's loop, after the key. From the length on the entry counts as null. */
  method BuildEntry(parser: WsonParser, objectKey: Str, p: Progress, ghost m: Member) returns (q: Progress)
    requires parser.Valid() && objectKey == Text.Utf8(m.key) && (parser.HasNext() ==> Ahead(parser, Enc(m.value)))
    modifies parser.buffer`position, parser`scratch
    ensures parser.Valid()
    ensures parser.buffer.position == old(parser.buffer.position) + old(SeenBytes(parser, m.value))
    ensures q == FirstPassStep(parser.format, old(SeenEntry(parser, m)), p)
    decreases m, 2
  {
    ghost var seen := SeenEntry(parser, m);
    hide Has, Enc, Payload, PlainText, EntryCalls, KindOfText, Text.Utf8, SeenBytes, Tag;
    hide MembersAhead, ItemsAhead, MembersEnd, ItemsEnd;
    SeenShape(seen);
    var kind := KindOfText(objectKey);
    q := p;
    if kind == Ref {
      var ref := NextText(parser, m.value);
      q := q.(ref := ref);
      if q.made != [] {
        q := q.(made := WithCurrent(q.made, Current(q.made).(ref := ref)));
      }
    } else if kind == Type {
      var renderType := NextText(parser, m.value);
      q := q.(made := q.made + [Render(q.ref, renderType, [])]);
    } else if kind == Other {
      SkipNext(parser, m.value);
    } else {
      var t := NextSignature(parser, m.value);
      if ShapeFits(kind, t) && Expected(q) {
        var r := ApplyEntry(parser, kind, Current(q.made), m);
        q := q.(made := WithCurrent(q.made, r));
      } else {
        q := q.(keyOrderRight := Expected(q));
        parser.SkipValue(t, seen.value);
      }
    }
  }

  /** A type that is not empty is lost when its signature lies at the length or behind it, and so is the tree. */
  lemma TypeBeyondIsLost(f: NumberFormat, m: Member, p: Progress)
    requires KindOf(m).Type? && PlainText(f, m.value) != []
    ensures FirstPassStep(f, Member(m.key, Null), p) != FirstPassStep(f, m, p)
  {
    assert PlainText(f, Null) == [];
    hide KindOfText, PlainText;
    var lost, kept := Render(p.ref, PlainText(f, Null), []), Render(p.ref, PlainText(f, m.value), []);
    assert (p.made + [lost])[|p.made|] != (p.made + [kept])[|p.made|];
  }

  lemma FirstPassFrom(f: NumberFormat, members: seq<Member>, i: nat, p: Progress)
    requires i < |members|
    ensures FirstPass(f, members[i..], p) == FirstPass(f, members[i + 1..], FirstPassStep(f, members[i], p))
  {
    assert members[i..][1..] == members[i + 1..];
  }

  lemma FirstPassEnds(f: NumberFormat, members: seq<Member>)
    ensures forall p :: FirstPass(f, members[|members|..], p) == p
  {
  }

  method BuildSecondPass(parser: WsonParser, size: int, render: Render, ghost members: seq<Member>) returns (r: Render)
    requires size == |members| && Ahead(parser, EncMembers(members))
    modifies parser.buffer`position, parser`scratch
    ensures parser.Valid() && parser.buffer.position == old(parser.buffer.position) + |EncMembers(members)|
    ensures r == render.(calls := render.calls + StreamCalls(parser.format, members))
    decreases members, 1
  {
    hide Has, Enc, EncMembers, Bytes16, Sized, Payload, EntryCalls, StreamCalls, KindOfText, Text.Utf8, Var, PlainText;
    ghost var d, end := parser.buffer.data[..], parser.buffer.position + |EncMembers(members)|;
    NoMore([], members);
    NoCalls(parser.format, false, members, []);
    r := render;
    for i := 0 to size
      invariant parser.Valid() && parser.Next(EncMembers(members[i..]))
      invariant parser.buffer.position + |EncMembers(members[i..])| == end
      invariant r == render.(calls := r.calls)
      invariant r.calls + StreamCalls(parser.format, members[i..]) == render.calls + StreamCalls(parser.format, members)
    {
      ghost var m := members[i];
      FirstMember(d, parser.buffer.position, members, i);
      StreamCallsFrom(parser.format, members, i, r.calls);
      var objectKey := parser.NextMapKeyUtf8(m.key);
      r := ReapplyEntry(parser, objectKey, r, m);
    }
  }

  /** The body of the second pass's loop, after the key. */
  method ReapplyEntry(parser: WsonParser, objectKey: Str, render: Render, ghost m: Member) returns (r: Render)
    requires parser.Valid() && objectKey == Text.Utf8(m.key) && (parser.HasNext() ==> Ahead(parser, Enc(m.value)))
    modifies parser.buffer`position, parser`scratch
    ensures parser.Valid()
    ensures parser.buffer.position == old(parser.buffer.position) + old(SeenBytes(parser, m.value))
    ensures r == render.(calls := render.calls + EntryCalls(parser.format, old(SeenEntry(parser, m))))
    decreases m, 2
  {
    ghost var seen := SeenEntry(parser, m);
    hide Has, Enc, Payload, EntryCalls, KindOfText, Text.Utf8, SeenBytes, Tag;
    hide MembersAhead, ItemsAhead, MembersEnd, ItemsEnd;
    SeenShape(seen);
    UnshapedCalls(parser.format, seen, render.calls);
    r := render;
    var kind := KindOfText(objectKey);
    if IsBody(kind) {
      var t := NextSignature(parser, m.value);
      if ShapeFits(kind, t) {
        r := ApplyEntry(parser, kind, r, m);
      } else {
        parser.SkipValue(t, seen.value);
      }
    } else {
      SkipNext(parser, m.value);
    }
  }

  lemma StreamCallsFrom(f: NumberFormat, members: seq<Member>, i: nat, done: seq<Call>)
    requires i < |members|
    ensures done + StreamCalls(f, members[i..]) == done + EntryCalls(f, members[i]) + StreamCalls(f, members[i + 1..])
  {
    hide EntryCalls;
    assert members[i..][1..] == members[i + 1..];
    Assoc(done, EntryCalls(f, members[i]), StreamCalls(f, members[i + 1..]));
  }

  lemma UnshapedCalls(f: NumberFormat, m: Member, done: seq<Call>)
    ensures !Shaped(m) ==> done + EntryCalls(f, m) == done
  {
  }

  /** Builds the value at the cursor, which ends exactly behind it on every path. */
  method Build(parser: WsonParser, ghost v: Value) returns (made: seq<Render>)
    requires Ahead(parser, Enc(v))
    modifies parser.buffer`position, parser`scratch
    ensures parser.Valid() && parser.buffer.position == old(parser.buffer.position) + |Enc(v)|
    ensures made == Built(parser.format, v)
    decreases v, 2
  {
    hide Var, Has, Enc, EncMembers, Payload, FirstPass, StreamCalls;
    TagThen(parser.buffer.data[..], parser.buffer.position, v);
    var objectType := parser.NextType();
    if objectType != Tags.MAP {
      parser.SkipValue(objectType, v);
      return [];
    }
    ContainerAhead(parser, v);
    var size := parser.NextMapSize(|v.members|);
    var state := parser.GetState();
    var p := BuildFirstPass(parser, size, v.members);
    made := p.made;
    if !p.keyOrderRight && made != [] {
      parser.RestoreToState(state);
      var r := BuildSecondPass(parser, size, Current(made), v.members);
      made := WithCurrent(made, r);
    }
  }
}
