/** `WsonGenerate` of dom_wson.cpp: a callback for a node, then, from the saved cursor, its children. */
module DomGenerator {
  import opened Words
  import opened Seqs
  import opened Varint
  import opened Values
  import opened JsonText
  import opened Dom
  import opened DomTree
  import opened DomBuilder
  import opened Parser
  import Text
  import Tags

  /**
   * Unlike the other readers the first pass does not pass over an attribute, style or event value of the wrong shape:
   * it reads the signature only. That does no harm when the value has no payload.
   */
  predicate Passable(m: Member) { Halts(m) ==> Payload(m.value) == [] }

  /** An attribute, style or event of the wrong shape. */
  predicate Halts(m: Member) { (KindOf(m).Attr? || KindOf(m).Style? || KindOf(m).Event?) && !Shaped(m) }

  /** What follows an entry can only be read when the entry is passed over. */
  predicate AllPassable(members: seq<Member>) { forall i :: 0 <= i < |members| - 1 ==> Passable(members[i]) }

  // ---- how far the generator reads ----

  /**
   * The bytes the generator takes from an encoded value. It reads an opened object to its end, unless the second pass
   * stops at a `children` that is no array, behind its signature; and an object it does not open as far as its first
   * pass gets.
   */
  function Taken(f: NumberFormat, v: Value): nat
    decreases v, 2
  {
    if !v.Obj? then |Enc(v)|
    else 1 + |Var(|v.members|)| + if Opened(f, v) then TakenMembers(f, v.members) else TakenOwn(v.members)
  }

  function TakenOwn(members: seq<Member>): nat {
    if members == [] then 0
    else |Sized(Bytes16(members[0].key))| + TakenOwnValue(members[0]) + TakenOwn(members[1..])
  }

  function TakenOwnValue(m: Member): nat { if Halts(m) then 1 else |Enc(m.value)| }

  function TakenMembers(f: NumberFormat, members: seq<Member>): nat
    decreases members, 1
  {
    if members == [] then 0
    else
      |Sized(Bytes16(members[0].key))| + TakenValue(f, members[0])
      + if Stops(members[0]) then 0 else TakenMembers(f, members[1..])
  }

  predicate Stops(m: Member) { KindOf(m).Children? && !m.value.Arr? }

  function TakenValue(f: NumberFormat, m: Member): nat
    decreases m, 1
  {
    if Stops(m) then 1
    else if KindOf(m).Children? then 1 + |Var(|m.value.items|)| + TakenItems(f, m.value.items)
    else |Enc(m.value)|
  }

  function TakenItems(f: NumberFormat, items: seq<Value>): nat
    decreases items, 0
  {
    if items == [] then 0 else Taken(f, items[0]) + TakenItems(f, items[1..])
  }

  /** The generator ends exactly behind the value. */
  predicate EndsRight(f: NumberFormat, v: Value)
    decreases v, 2
  {
    v.Obj? ==> if Opened(f, v) then MembersEndRight(f, v.members) else OwnEndRight(v.members)
  }

  predicate OwnEndRight(members: seq<Member>) { forall i :: 0 <= i < |members| ==> Passable(members[i]) }

  /** A `children` that is no array may only come last, and without a payload. */
  predicate MembersEndRight(f: NumberFormat, members: seq<Member>)
    decreases members, 1
  {
    members != [] ==>
      && (KindOf(members[0]).Children? ==>
            if members[0].value.Arr? then ItemsEndRight(f, members[0].value.items)
            else |members| == 1 && Payload(members[0].value) == [])
      && MembersEndRight(f, members[1..])
  }

  predicate ItemsEndRight(f: NumberFormat, items: seq<Value>)
    decreases items, 0
  {
    items != [] ==> EndsRight(f, items[0]) && ItemsEndRight(f, items[1..])
  }

  /** The bytes taken are those of the value exactly then. */
  lemma {:induction false} EndsRightExactly(f: NumberFormat, v: Value)
    ensures Taken(f, v) <= |Enc(v)|
    ensures Taken(f, v) == |Enc(v)| <==> EndsRight(f, v)
    decreases v, 2
  {
    if v.Obj? {
      assert |Enc(v)| == 1 + |Var(|v.members|)| + |EncMembers(v.members)|;
      hide Opened, Enc, Var, EncMembers, TakenMembers, MembersEndRight, TakenOwn, OwnEndRight;
      if Opened(f, v) { MembersEndExactly(f, v.members); } else { OwnEndExactly(v.members); }
    }
  }

  lemma {:induction false} OwnEndExactly(members: seq<Member>)
    ensures TakenOwn(members) <= |EncMembers(members)|
    ensures TakenOwn(members) == |EncMembers(members)| <==> OwnEndRight(members)
    decreases |members|
  {
    if members != [] {
      var m, rest := members[0], members[1..];
      OwnEndExactly(rest);
      assert forall i :: 0 <= i < |rest| ==> rest[i] == members[i + 1];
      assert forall i :: 0 < i < |members| ==> members[i] == rest[i - 1];
      assert |Enc(m.value)| == 1 + |Payload(m.value)|;
      hide Halts, Enc, Payload, Bytes16, Sized;
      assert OwnEndRight(members) <==> Passable(m) && OwnEndRight(rest);
    }
  }

  lemma {:induction false} MembersEndExactly(f: NumberFormat, members: seq<Member>)
    ensures TakenMembers(f, members) <= |EncMembers(members)|
    ensures TakenMembers(f, members) == |EncMembers(members)| <==> MembersEndRight(f, members)
    decreases members, 1
  {
    if members != [] {
      var m, rest := members[0], members[1..];
      MembersEndExactly(f, rest);
      assert m.value.Arr? ==> |Enc(m.value)| == 1 + |Var(|m.value.items|)| + |EncItems(m.value.items)|;
      if KindOf(m).Children? && m.value.Arr? { ItemsEndExactly(f, m.value.items); }
      assert |Enc(m.value)| == 1 + |Payload(m.value)|;
      assert |EncMembers(rest)| == 0 <==> |members| == 1;
      hide KindOf, Enc, Payload, Var, Bytes16, Sized, TakenItems, ItemsEndRight, EncItems;
    }
  }

  lemma {:induction false} ItemsEndExactly(f: NumberFormat, items: seq<Value>)
    ensures TakenItems(f, items) <= |EncItems(items)|
    ensures TakenItems(f, items) == |EncItems(items)| <==> ItemsEndRight(f, items)
    decreases items, 0
  {
    if items != [] {
      EndsRightExactly(f, items[0]);
      ItemsEndExactly(f, items[1..]);
      hide Enc, Taken, EndsRight;
    }
  }

  /**
   * Every read of the generator starts where a part of the encoding starts: values of the wrong shape are passable or
   * come last, and whatever is followed by another read in its array or object ends right. Nothing is asked of nodes
   * without type or reference beyond their own entries, since their children are passed over.
   */
  predicate InStep(f: NumberFormat, v: Value)
    decreases v, 2
  {
    v.Obj? ==> AllPassable(v.members) && (Opened(f, v) ==> MembersInStep(f, v.members))
  }

  predicate MembersInStep(f: NumberFormat, members: seq<Member>)
    decreases members, 1
  {
    members != [] && !Stops(members[0]) ==>
      && (KindOf(members[0]).Children? ==>
            && ItemsInStep(f, members[0].value.items)
            && (|members| > 1 ==> ItemsEndRight(f, members[0].value.items)))
      && MembersInStep(f, members[1..])
  }

  predicate ItemsInStep(f: NumberFormat, items: seq<Value>)
    decreases items, 0
  {
    items != [] ==> InStep(f, items[0]) && (|items| > 1 ==> EndsRight(f, items[0])) && ItemsInStep(f, items[1..])
  }

  /** Attributes and styles are maps, events and children arrays, at every level. */
  predicate WellShaped(v: Value)
    decreases v, 2
  {
    v.Obj? ==> MembersShaped(v.members)
  }

  predicate MembersShaped(members: seq<Member>)
    decreases members, 1
  {
    members != [] ==>
      && (IsBody(KindOf(members[0])) ==> Shaped(members[0]))
      && (KindOf(members[0]).Children? ==> ItemsShaped(members[0].value.items))
      && MembersShaped(members[1..])
  }

  predicate ItemsShaped(items: seq<Value>)
    decreases items, 0
  {
    items != [] ==> WellShaped(items[0]) && ItemsShaped(items[1..])
  }

  /** Such a document is read in step and to its exact end, whatever nodes have a type and a reference. */
  lemma {:induction false} ShapedEndsRight(f: NumberFormat, v: Value)
    requires WellShaped(v)
    ensures InStep(f, v) && EndsRight(f, v)
    decreases v, 2
  {
    if v.Obj? {
      hide Opened;
      MembersShapedEnd(f, v.members);
    }
  }

  lemma {:induction false} MembersShapedEnd(f: NumberFormat, members: seq<Member>)
    requires MembersShaped(members)
    ensures AllPassable(members) && OwnEndRight(members) && MembersInStep(f, members) && MembersEndRight(f, members)
    decreases members, 1
  {
    if members != [] {
      var rest := members[1..];
      hide KindOf;
      MembersShapedEnd(f, rest);
      assert forall i :: 0 < i < |members| ==> members[i] == rest[i - 1];
      if KindOf(members[0]).Children? { ItemsShapedEnd(f, members[0].value.items); }
    }
  }

  lemma {:induction false} ItemsShapedEnd(f: NumberFormat, items: seq<Value>)
    requires ItemsShaped(items)
    ensures ItemsInStep(f, items) && ItemsEndRight(f, items)
    decreases items, 0
  {
    if items != [] {
      ShapedEndsRight(f, items[0]);
      ItemsShapedEnd(f, items[1..]);
    }
  }

  /** A named node whose first `children` is no array and has a payload is not read to its end. */
  lemma WrongChildrenEndEarly(f: NumberFormat, v: Value, i: nat)
    requires Opened(f, v) && i < |v.members|
    requires Stops(v.members[i]) && Payload(v.members[i].value) != []
    ensures Taken(f, v) < |Enc(v)|
  {
    EndsRightExactly(f, v);
    NotEndingRight(f, v.members, i);
    hide Opened, Taken, Payload, Enc;
  }

  lemma {:induction false} NotEndingRight(f: NumberFormat, members: seq<Member>, i: nat)
    requires i < |members| && Stops(members[i]) && Payload(members[i].value) != []
    ensures !MembersEndRight(f, members)
    decreases i
  {
    hide KindOf, Payload;
    if i > 0 { NotEndingRight(f, members[1..], i - 1); }
  }

  /** An object that is not opened, with an attribute of the wrong shape and a payload in last place, ends early too. */
  lemma WrongAttributeEndsEarly(f: NumberFormat, m: Member)
    requires Halts(m) && Payload(m.value) != []
    ensures InStep(f, Obj([m])) && !Opened(f, Obj([m])) && Taken(f, Obj([m])) < |Enc(Obj([m]))|
  {
    var v := Obj([m]);
    assert OwnFields(f, [m], NO_OWN).ref == [] by {
      hide PlainText, InsertLast, EventNames, KindOfText;
      assert [m][1..] == [];
    }
    assert !Passable([m][0]);
    EndsRightExactly(f, v);
    hide Taken, Enc, Payload, OwnFields;
  }

  // ---- what is still to read ----

  lemma InsertLastFrom(f: NumberFormat, m: map<Str, Str>, members: seq<Member>, i: nat)
    requires i < |members|
    ensures InsertLast(f, m, members[i..])
      == InsertLast(f, m[Text.Utf8(members[i].key) := PlainText(f, members[i].value)], members[i + 1..])
  {
    assert members[i..][1..] == members[i + 1..];
  }

  lemma EventSetFrom(f: NumberFormat, items: seq<Value>, i: nat, done: set<Str>)
    requires i < |items|
    ensures var e := PlainText(f, items[i]);
      done + AsSet(EventNames(f, items[i..]))
      == done + (if e != [] then {e} else {}) + AsSet(EventNames(f, items[i + 1..]))
  {
    hide PlainText;
    assert items[i..][1..] == items[i + 1..];
    var e, more := PlainText(f, items[i]), EventNames(f, items[i + 1..]);
    assert AsSet([e] + more) == {e} + AsSet(more);
    assert EventNames(f, items[i..]) == if e != [] then [e] + more else [] + more;
  }

  lemma OwnFrom(f: NumberFormat, members: seq<Member>, i: nat, s: Own)
    requires i < |members|
    ensures OwnFields(f, members[i..], s) == OwnFields(f, members[i + 1..], OwnStep(f, members[i], s))
  {
    assert members[i..][1..] == members[i + 1..];
  }

  lemma MembersStepFrom(f: NumberFormat, members: seq<Member>, ref: Str, i: nat, done: seq<Generated>)
    requires i < |members| && MembersInStep(f, members[i..])
    ensures var m, rest := members[i], members[i + 1..];
      && TakenMembers(f, members[i..])
         == |Sized(Bytes16(m.key))| + TakenValue(f, m) + (if Stops(m) then 0 else TakenMembers(f, rest))
      && done + PreorderMembers(f, members[i..], ref)
         == done + ChildCallbacks(f, m, ref) + (if Stops(m) then [] else PreorderMembers(f, rest, ref))
      && (!Stops(m) ==> MembersInStep(f, rest))
      && (KindOf(m).Children? && m.value.Arr? ==>
            ItemsInStep(f, m.value.items) && (rest != [] ==> ItemsEndRight(f, m.value.items)))
  {
    hide PreorderItems, KindOf, TakenValue, ItemsInStep, ItemsEndRight, Sized, Bytes16;
    assert members[i..][1..] == members[i + 1..] && members[i..][0] == members[i];
    var m, rest := members[i], members[i + 1..];
    Assoc(done, ChildCallbacks(f, m, ref), if Stops(m) then [] else PreorderMembers(f, rest, ref));
  }

  /** The callbacks of one entry: those of a children array. */
  function ChildCallbacks(f: NumberFormat, m: Member, ref: Str): seq<Generated> {
    if KindOf(m).Children? && m.value.Arr? then PreorderItems(f, m.value.items, ref, 0) else []
  }

  lemma PreorderItemsFrom(f: NumberFormat, items: seq<Value>, ref: Str, i: nat, done: seq<Generated>)
    requires i < |items|
    ensures done + PreorderItems(f, items[i..], ref, i)
      == done + Preorder(f, items[i], ref, i) + PreorderItems(f, items[i + 1..], ref, i + 1)
    ensures TakenItems(f, items[i..]) == Taken(f, items[i]) + TakenItems(f, items[i + 1..])
    ensures ItemsInStep(f, items[i..]) ==>
      && InStep(f, items[i]) && ItemsInStep(f, items[i + 1..])
      && (i + 1 < |items| ==> EndsRight(f, items[i]))
  {
    hide Preorder, Taken, InStep, EndsRight;
    assert items[i..][1..] == items[i + 1..];
    Assoc(done, Preorder(f, items[i], ref, i), PreorderItems(f, items[i + 1..], ref, i + 1));
  }

  lemma NothingToGenerate(f: NumberFormat, members: seq<Member>, items: seq<Value>)
    ensures forall s :: OwnFields(f, members[|members|..], s) == s
    ensures forall m :: InsertLast(f, m, members[|members|..]) == m
    ensures AsSet(EventNames(f, items[|items|..])) == {}
    ensures forall ref :: PreorderMembers(f, members[|members|..], ref) == []
    ensures forall ref :: PreorderItems(f, items[|items|..], ref, |items|) == []
    ensures TakenMembers(f, members[|members|..]) == 0 && TakenItems(f, items[|items|..]) == 0
    ensures TakenOwn(members[|members|..]) == 0
  {
  }

  method PutPairs(parser: WsonParser, pairs: map<Str, Str>, ghost members: seq<Member>) returns (r: map<Str, Str>)
    requires MembersAhead(parser, members)
    modifies parser.buffer`position, parser`scratch
    ensures parser.Valid() && parser.buffer.position == old(MembersEnd(parser, members))
    ensures r == InsertLast(parser.format, pairs, members)
  {
    hide Var, Has, Enc, EncMembers, Bytes16, Sized, Text.Utf8, PlainText, InsertLast;
    ghost var d, end := parser.buffer.data[..], MembersEnd(parser, members);
    var mapSize := parser.NextMapSize(|members|);
    NoMore([], members);
    NothingToGenerate(parser.format, members, []);
    r := pairs;
    for i := 0 to mapSize
      invariant parser.Valid() && parser.Next(EncMembers(members[i..]))
      invariant parser.buffer.position + |EncMembers(members[i..])| == end
      invariant InsertLast(parser.format, r, members[i..]) == InsertLast(parser.format, pairs, members)
    {
      FirstMember(d, parser.buffer.position, members, i);
      InsertLastFrom(parser.format, r, members, i);
      var key := parser.NextMapKeyUtf8(members[i].key);
      var value := NextText(parser, members[i].value);
      r := r[key := value];
    }
  }

  method PutEvents(parser: WsonParser, events: set<Str>, ghost items: seq<Value>) returns (r: set<Str>)
    requires ItemsAhead(parser, items)
    modifies parser.buffer`position, parser`scratch
    ensures parser.Valid() && parser.buffer.position == old(ItemsEnd(parser, items))
    ensures r == events + AsSet(EventNames(parser.format, items))
  {
    hide Var, Has, Enc, EncItems, PlainText, EventNames, AsSet;
    ghost var d, end := parser.buffer.data[..], ItemsEnd(parser, items);
    var eventSize := parser.NextArraySize(|items|);
    NoMore(items, []);
    NothingToGenerate(parser.format, [], items);
    r := events;
    for i := 0 to eventSize
      invariant parser.Valid() && parser.Next(EncItems(items[i..]))
      invariant parser.buffer.position + |EncItems(items[i..])| == end
      invariant r + AsSet(EventNames(parser.format, items[i..])) == events + AsSet(EventNames(parser.format, items))
    {
      FirstItem(d, parser.buffer.position, items, i);
      EventSetFrom(parser.format, items, i, r);
      var event := NextText(parser, items[i]);
      if |event| > 0 {
        r := r + {event};
      }
    }
  }

  /** The first pass: everything but the children, which are passed over whatever they are. */
  method GatherOwn(parser: WsonParser, size: int, ghost members: seq<Member>) returns (s: Own)
    requires size == |members| && Ahead(parser, EncMembers(members)) && AllPassable(members)
    modifies parser.buffer`position, parser`scratch
    ensures parser.Valid() && parser.buffer.position == old(parser.buffer.position) + TakenOwn(members)
    ensures s == OwnFields(parser.format, members, NO_OWN)
  {
    hide Has, Enc, EncMembers, Bytes16, Sized, Text.Utf8;
    hide OwnFields, OwnStep, Passable, KindOf, TakenOwn, TakenOwnValue;
    ghost var d, end := parser.buffer.data[..], parser.buffer.position + TakenOwn(members);
    ghost var last := parser.buffer.position + |EncMembers(members)|;
    NoMore([], members);
    NothingToGenerate(parser.format, members, []);
    s := NO_OWN;
    for i := 0 to size
      invariant parser.Valid()
      invariant i < size ==>
        parser.Next(EncMembers(members[i..])) && parser.buffer.position + |EncMembers(members[i..])| == last
      invariant parser.buffer.position + TakenOwn(members[i..]) == end
      invariant OwnFields(parser.format, members[i..], s) == OwnFields(parser.format, members, NO_OWN)
    {
      ghost var m := members[i];
      FirstMember(d, parser.buffer.position, members, i);
      OwnFrom(parser.format, members, i, s);
      TakenOwnFrom(members, i);
      var objectKey := parser.NextMapKeyUtf8(m.key);
      SeenHere(parser, m.value);
      s := OwnEntry(parser, objectKey, s, m);
    }
  }

  lemma TakenOwnFrom(members: seq<Member>, i: nat)
    requires i < |members|
    ensures TakenOwn(members[i..])
      == |Sized(Bytes16(members[i].key))| + TakenOwnValue(members[i]) + TakenOwn(members[i + 1..])
    ensures Passable(members[i]) ==> TakenOwnValue(members[i]) == |Enc(members[i].value)|
    ensures !Passable(members[i]) && AllPassable(members) ==> i == |members| - 1
  {
    hide Halts;
    assert members[i..][1..] == members[i + 1..];
  }

  /** What lies before the length is seen. */
  lemma SeenHere(parser: WsonParser, v: Value)
    requires Ahead(parser, Enc(v))
    ensures parser.HasNext() && Seen(parser, v) == v && SeenBytes(parser, v) == |Enc(v)|
  {
    hide Enc;
  }

  /** The body of that loop, after the key. From the length on the entry counts as null. */
  method OwnEntry(parser: WsonParser, objectKey: Str, s: Own, ghost m: Member) returns (r: Own)
    requires parser.Valid() && objectKey == Text.Utf8(m.key) && (parser.HasNext() ==> Ahead(parser, Enc(m.value)))
    modifies parser.buffer`position, parser`scratch
    ensures parser.Valid()
    ensures parser.buffer.position
      == old(parser.buffer.position) + old(if parser.HasNext() then TakenOwnValue(m) else 0)
    ensures r == OwnStep(parser.format, old(SeenEntry(parser, m)), s)
  {
    ghost var seen := SeenEntry(parser, m);
    SeenShape(seen);
    HaltsAtSignature(seen);
    NullIsEmpty();
    hide Has, Enc, Payload, PlainText, KindOfText, Text.Utf8, InsertLast, EventNames, AsSet, Tag;
    hide MembersAhead, ItemsAhead, MembersEnd, ItemsEnd;
    var kind := KindOfText(objectKey);
    r := s;
    if kind == Ref {
      var ref := NextText(parser, m.value);
      r := r.(ref := ref);
    } else if kind == Type {
      var renderType := NextText(parser, m.value);
      r := r.(typ := renderType);
    } else if kind == Attr || kind == Style || kind == Event {
      var t := NextSignature(parser, m.value);
      if kind == Attr {
        if t == Tags.MAP {
          var attrs := PutPairs(parser, r.attrs, m.value.members);
          r := r.(attrs := attrs);
        }
      } else if kind == Style {
        if t == Tags.MAP {
          var styles := PutPairs(parser, r.styles, m.value.members);
          r := r.(styles := styles);
        }
      } else {
        if t == Tags.ARRAY {
          var events := PutEvents(parser, r.events, m.value.items);
          r := r.(events := events);
        }
      }
    } else {
      SkipNext(parser, m.value);
    }
  }

  lemma HaltsAtSignature(m: Member)
    ensures |Enc(m.value)| == 1 + |Payload(m.value)|
  {
  }

  /**
   * The second pass: the children arrays, each child with the reference of this node and its own index, up to a
   * `children` that is no array.
   */
  method GenerateChildren(parser: WsonParser, size: int, ref: Str, log: seq<Generated>, ghost members: seq<Member>)
    returns (r: seq<Generated>)
    requires size == |members| && Ahead(parser, EncMembers(members))
    requires MembersInStep(parser.format, members)
    modifies parser.buffer`position, parser`scratch
    ensures parser.Valid()
    ensures parser.buffer.position == old(parser.buffer.position) + TakenMembers(parser.format, members)
    ensures r == log + PreorderMembers(parser.format, members, ref)
    decreases members, 1
  {
    hide Has, Enc, EncMembers, Bytes16, Sized, Text.Utf8, KindOfText, PreorderMembers, MembersInStep, ItemsInStep;
    hide ItemsEndRight, TakenMembers, TakenValue, ChildCallbacks, Payload;
    ghost var d, end := parser.buffer.data[..], parser.buffer.position + TakenMembers(parser.format, members);
    ghost var last := parser.buffer.position + |EncMembers(members)|;
    NoMore([], members);
    NothingToGenerate(parser.format, members, []);
    r := log;
    for i := 0 to size
      invariant parser.Valid()
      invariant i < size ==>
        parser.Next(EncMembers(members[i..])) && parser.buffer.position + |EncMembers(members[i..])| == last
      invariant MembersInStep(parser.format, members[i..])
      invariant parser.buffer.position + TakenMembers(parser.format, members[i..]) == end
      invariant r + PreorderMembers(parser.format, members[i..], ref)
             == log + PreorderMembers(parser.format, members, ref)
    {
      ghost var m := members[i];
      FirstMember(d, parser.buffer.position, members, i);
      MembersStepFrom(parser.format, members, ref, i, r);
      ValueEnds(parser.format, m);
      var objectKey := parser.NextMapKeyUtf8(m.key);
      var ended;
      r, ended := GenerateEntry(parser, objectKey, ref, r, m);
      if ended {
        break;
      }
    }
  }

  lemma ValueEnds(f: NumberFormat, m: Member)
    ensures KindOf(m).Children? && m.value.Arr? && ItemsEndRight(f, m.value.items) ==>
      TakenValue(f, m) == |Enc(m.value)|
    ensures !KindOf(m).Children? ==> TakenValue(f, m) == |Enc(m.value)|
  {
    if m.value.Arr? { ItemsEndExactly(f, m.value.items); }
    hide KindOf, Var;
  }

  /** The body of the second pass's loop, after the key; a `children` that is no array ends the loop. */
  method GenerateEntry(parser: WsonParser, objectKey: Str, ref: Str, log: seq<Generated>, ghost m: Member)
    returns (r: seq<Generated>, ended: bool)
    requires objectKey == Text.Utf8(m.key) && Ahead(parser, Enc(m.value))
    requires KindOf(m).Children? && m.value.Arr? ==> ItemsInStep(parser.format, m.value.items)
    modifies parser.buffer`position, parser`scratch
    ensures parser.Valid() && parser.buffer.position == old(parser.buffer.position) + TakenValue(parser.format, m)
    ensures ended == Stops(m) && r == log + ChildCallbacks(parser.format, m, ref)
    decreases m, 1
  {
    hide Has, Enc, Payload, Text.Utf8, KindOfText, PreorderItems, ItemsInStep, TakenItems;
    hide MembersAhead, ItemsAhead;
    SeenHere(parser, m.value);
    TagOfContainer(m.value);
    HaltsAtSignature(m);
    hide Tag, SeenBytes;
    r := log;
    ended := false;
    assert log + [] == log;
    if KindOfText(objectKey) == Children {
      var childType := NextSignature(parser, m.value);
      if childType == Tags.ARRAY {
        r := GenerateItems(parser, ref, r, m.value.items);
      } else {
        ended := true;
      }
    } else {
      SkipNext(parser, m.value);
    }
  }

  method GenerateItems(parser: WsonParser, ref: Str, log: seq<Generated>, ghost items: seq<Value>)
    returns (r: seq<Generated>)
    requires ItemsAhead(parser, items) && ItemsInStep(parser.format, items)
    modifies parser.buffer`position, parser`scratch
    ensures parser.Valid()
    ensures parser.buffer.position
      == old(parser.buffer.position) + |Var(|items|)| + TakenItems(parser.format, items)
    ensures r == log + PreorderItems(parser.format, items, ref, 0)
    decreases items, 0
  {
    hide Var, Has, Enc, EncItems, Preorder, PreorderItems, ItemsInStep, InStep, EndsRight, Taken, TakenItems;
    ghost var f, d, last := parser.format, parser.buffer.data[..], ItemsEnd(parser, items);
    var childSize := parser.NextArraySize(|items|);
    ghost var end := parser.buffer.position + TakenItems(f, items);
    NoMore(items, []);
    NothingToGenerate(f, [], items);
    r := log;
    for childIndex := 0 to childSize
      invariant parser.Valid()
      invariant childIndex < childSize ==>
        && parser.Next(EncItems(items[childIndex..]))
        && parser.buffer.position + |EncItems(items[childIndex..])| == last
      invariant ItemsInStep(f, items[childIndex..])
      invariant parser.buffer.position + TakenItems(f, items[childIndex..]) == end
      invariant r + PreorderItems(f, items[childIndex..], ref, childIndex) == log + PreorderItems(f, items, ref, 0)
    {
      FirstItem(d, parser.buffer.position, items, childIndex);
      PreorderItemsFrom(f, items, ref, childIndex, r);
      EndsRightExactly(f, items[childIndex]);
      r := Generate(parser, ref, childIndex, r, items[childIndex]);
    }
  }

  /**
   * Appends the callbacks for the value at the cursor, which ends exactly behind the value if and only if no entry of
   * the wrong shape stopped the generator.
   */
  method Generate(parser: WsonParser, parentRef: Str, index: int, log: seq<Generated>, ghost v: Value)
    returns (r: seq<Generated>)
    requires Ahead(parser, Enc(v)) && InStep(parser.format, v)
    modifies parser.buffer`position, parser`scratch
    ensures parser.Valid() && parser.buffer.position == old(parser.buffer.position) + Taken(parser.format, v)
    ensures parser.buffer.position == old(parser.buffer.position) + |Enc(v)| <==> EndsRight(parser.format, v)
    ensures r == log + Preorder(parser.format, v, parentRef, index)
    decreases v, 2
  {
    hide Var, Has, Enc, EncMembers, Payload, OwnFields, PreorderMembers, AllPassable, MembersInStep, EndsRight;
    hide TakenMembers, TakenOwn;
    EndsRightExactly(parser.format, v);
    TagThen(parser.buffer.data[..], parser.buffer.position, v);
    var objectType := parser.NextType();
    if objectType != Tags.MAP {
      parser.SkipValue(objectType, v);
      return log;
    }
    ContainerAhead(parser, v);
    var size := parser.NextMapSize(|v.members|);
    var state := parser.GetState();
    var s := GatherOwn(parser, size, v.members);
    if |s.typ| > 0 && |s.ref| > 0 {
      var call := Generated(s.ref, s.typ, parentRef, s.styles, s.attrs, s.events, index);
      parser.RestoreToState(state);
      r := GenerateChildren(parser, size, s.ref, log + [call], v.members);
      Assoc(log, [call], PreorderMembers(parser.format, v.members, s.ref));
      return;
    }
    return log;
  }
}
