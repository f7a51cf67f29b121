/** How much the JavaScript decoder forgets: values that decode alike differ in little. */
module JsInjective {
  import opened Words
  import opened Values
  import opened Identifiers
  import opened JsDecoder
  import opened JsCodec

  /** No object has a name twice. */
  predicate NoRepeats(v: Value)
    decreases v, 1
  {
    match v
    case Arr(items) => ItemsNoRepeats(items)
    case Obj(members) => KeysDiffer(members) && MembersNoRepeats(members)
    case _ => true
  }

  predicate ItemsNoRepeats(items: seq<Value>)
    decreases items, 0
  {
    items != [] ==> NoRepeats(items[0]) && ItemsNoRepeats(items[1..])
  }

  predicate MembersNoRepeats(members: seq<Member>)
    decreases members, 0
  {
    members != [] ==> NoRepeats(members[0].value) && MembersNoRepeats(members[1..])
  }

  predicate KeysDiffer(members: seq<Member>) {
    forall i, j :: 0 <= i < j < |members| ==> members[i].key != members[j].key
  }

  /** The integer of a value of either width. */
  function Integer(v: Value): Option<int> {
    match v case Int(i) => Some(i) case Long(l) => Some(l) case _ => None
  }

  /** The names that are no indices, in order. */
  function Names(members: seq<Member>): seq<seq<u16>> {
    if members == [] then []
    else (if ParseIndex(members[0].key).None? then [members[0].key] else []) + Names(members[1..])
  }

  /**
   * The same value but for the width of integers, the kind of texts, and where the members whose names are indices
   * stand among the others.
   */
  ghost predicate Alike(a: Value, b: Value)
    decreases a, 1
  {
    match a
    case Int(_) => Integer(a) == Integer(b)
    case Long(_) => Integer(a) == Integer(b)
    case Text(_, units) => b.Text? && b.units == units
    case Arr(items) =>
      b.Arr? && |items| == |b.items| && forall i :: 0 <= i < |items| ==> Alike(items[i], b.items[i])
    case Obj(members) => b.Obj? && MembersAlike(members, b.members)
    case _ => a == b
  }

  ghost predicate MembersAlike(a: seq<Member>, b: seq<Member>)
    decreases a, 0
  {
    && Names(a) == Names(b)
    && (forall i :: 0 <= i < |a| ==> HasName(b, a[i].key)) && (forall j :: 0 <= j < |b| ==> HasName(a, b[j].key))
    && forall i, j :: 0 <= i < |a| && 0 <= j < |b| && a[i].key == b[j].key ==> Alike(a[i].value, b[j].value)
  }

  predicate HasName(members: seq<Member>, key: seq<u16>) {
    exists i :: 0 <= i < |members| && members[i].key == key
  }

  // ---- what decoding leaves of members whose names differ ----

  lemma {:induction false} NamesStay(vm: Vm, o: JsObj, members: seq<Member>, name: seq<u16>)
    requires forall m :: m in members ==> m.key != name
    ensures Get(vm, PutAll(vm, o, members), name) == Get(vm, o, name)
    decreases |members|
  {
    if members != [] {
      var m, rest := members[0], members[1..];
      PutGet(vm, o, m.key, Decoded(vm, m.value), name);
      assert m in members && forall x :: x in rest ==> x in members;
      hide Get, Decoded, Put;
      NamesStay(vm, Put(o, Ident(vm, m.key), Decoded(vm, m.value)), rest, name);
    }
  }

  lemma {:induction false} MemberThere(vm: Vm, o: JsObj, members: seq<Member>, m: Member)
    requires KeysDiffer(members) && m in members
    ensures Get(vm, PutAll(vm, o, members), m.key) == Some(Decoded(vm, m.value))
    decreases |members|
  {
    var first, rest := members[0], members[1..];
    var o' := Put(o, Ident(vm, first.key), Decoded(vm, first.value));
    assert PutAll(vm, o, members) == PutAll(vm, o', rest);
    assert forall i :: 0 <= i < |rest| ==> rest[i] == members[i + 1];
    hide Get, Decoded, Put, PutAll;
    if m in rest {
      MemberThere(vm, o', rest, m);
    } else {
      assert m == first;
      PutGet(vm, o, first.key, Decoded(vm, first.value), first.key);
      NamesStay(vm, o', rest, first.key);
    }
  }

  /** The identifiers of names, in order. */
  function Idents(vm: Vm, names: seq<seq<u16>>): seq<Identifier> {
    seq(|names|, i requires 0 <= i < |names| => Ident(vm, names[i]))
  }

  lemma {:induction false} NamesInOrder(vm: Vm, o: JsObj, members: seq<Member>)
    requires KeysDiffer(members) && o.properties.Keys == NameSet(o.names)
    requires forall m :: m in members ==> Get(vm, o, m.key).None?
    ensures PutAll(vm, o, members).names == o.names + Idents(vm, Names(members))
    decreases |members|
  {
    if members == [] {
      assert o.names + Idents(vm, []) == o.names;
    } else {
      var m, rest := members[0], members[1..];
      var value := Decoded(vm, m.value);
      var o' := Put(o, Ident(vm, m.key), value);
      assert PutAll(vm, o, members) == PutAll(vm, o', rest);
      assert m in members && forall i :: 0 <= i < |rest| ==> rest[i] == members[i + 1];
      forall x | x in rest ensures Get(vm, o', x.key).None? { PutGet(vm, o, m.key, value, x.key); }
      hide Get, Decoded, PutAll;
      NamesAfter(vm, o, m.key, value, Idents(vm, Names(rest)), {});
      hide Put;
      NamesInOrder(vm, o', rest);
      assert Idents(vm, [m.key] + Names(rest)) == [Ident(vm, m.key)] + Idents(vm, Names(rest));
      assert [] + Names(rest) == Names(rest);
    }
  }

  lemma SameIdents(vm: Vm, a: seq<seq<u16>>, b: seq<seq<u16>>)
    requires Idents(vm, a) == Idents(vm, b)
    ensures a == b
  {
    assert |a| == |b|;
    forall i | 0 <= i < |a| ensures a[i] == b[i] { assert Idents(vm, a)[i] == Idents(vm, b)[i]; }
  }

  lemma KeyThere(vm: Vm, members: seq<Member>, key: seq<u16>)
    requires KeysDiffer(members)
    ensures Get(vm, PutAll(vm, EMPTY_OBJECT, members), key).Some? <==> HasName(members, key)
  {
    if i :| 0 <= i < |members| && members[i].key == key {
      MemberThere(vm, EMPTY_OBJECT, members, members[i]);
    } else {
      NamesStay(vm, EMPTY_OBJECT, members, key);
    }
  }

  // ---- alike ----

  /** Values without repeated names that decode to the same tree are alike. */
  lemma {:induction false} DecodedAlike(vm: Vm, a: Value, b: Value)
    requires NoRepeats(a) && NoRepeats(b) && Decoded(vm, a) == Decoded(vm, b)
    ensures Alike(a, b)
    decreases a
  {
    match a
    case Arr(items) => ItemsAlike(vm, items, b.items);
    case Obj(members) => MembersDecodedAlike(vm, members, b.members);
    case _ =>
  }

  lemma {:induction false} ItemNoRepeats(items: seq<Value>, i: nat)
    requires ItemsNoRepeats(items) && i < |items|
    ensures NoRepeats(items[i])
    decreases |items|
  {
    if i > 0 { ItemNoRepeats(items[1..], i - 1); }
  }

  lemma {:induction false} MemberNoRepeats(members: seq<Member>, m: Member)
    requires MembersNoRepeats(members) && m in members
    ensures NoRepeats(m.value)
    decreases |members|
  {
    if m != members[0] { MemberNoRepeats(members[1..], m); }
  }

  lemma {:induction false} ItemsAlike(vm: Vm, a: seq<Value>, b: seq<Value>)
    requires ItemsNoRepeats(a) && ItemsNoRepeats(b) && DecodedItems(vm, a) == DecodedItems(vm, b)
    ensures |a| == |b| && forall i :: 0 <= i < |a| ==> Alike(a[i], b[i])
    decreases a
  {
    assert |a| == |DecodedItems(vm, a)| == |DecodedItems(vm, b)| == |b|;
    hide NoRepeats, Decoded, DecodedItems, Alike;
    forall i | 0 <= i < |a| ensures Alike(a[i], b[i]) {
      DecodedAt(vm, a, i);
      DecodedAt(vm, b, i);
      ItemNoRepeats(a, i);
      ItemNoRepeats(b, i);
      DecodedAlike(vm, a[i], b[i]);
    }
  }

  lemma {:induction false} MembersDecodedAlike(vm: Vm, a: seq<Member>, b: seq<Member>)
    requires KeysDiffer(a) && KeysDiffer(b) && MembersNoRepeats(a) && MembersNoRepeats(b)
    requires PutAll(vm, EMPTY_OBJECT, a) == PutAll(vm, EMPTY_OBJECT, b)
    ensures MembersAlike(a, b)
    decreases a
  {
    NothingYet(vm);
    NamesInOrder(vm, EMPTY_OBJECT, a);
    NamesInOrder(vm, EMPTY_OBJECT, b);
    assert [] + Idents(vm, Names(a)) == Idents(vm, Names(a)) && [] + Idents(vm, Names(b)) == Idents(vm, Names(b));
    SameIdents(vm, Names(a), Names(b));
    hide KeysDiffer, Names, Idents, Get, PutAll, Decoded, Alike, NoRepeats;
    forall i | 0 <= i < |a| ensures HasName(b, a[i].key) { KeyThere(vm, a, a[i].key); KeyThere(vm, b, a[i].key); }
    forall j | 0 <= j < |b| ensures HasName(a, b[j].key) { KeyThere(vm, a, b[j].key); KeyThere(vm, b, b[j].key); }
    forall i, j | 0 <= i < |a| && 0 <= j < |b| && a[i].key == b[j].key ensures Alike(a[i].value, b[j].value) {
      MemberThere(vm, EMPTY_OBJECT, a, a[i]);
      MemberThere(vm, EMPTY_OBJECT, b, b[j]);
      MemberNoRepeats(a, a[i]);
      MemberNoRepeats(b, b[j]);
      DecodedAlike(vm, a[i].value, b[j].value);
    }
  }

  lemma NothingYet(vm: Vm)
    ensures EMPTY_OBJECT.properties.Keys == NameSet(EMPTY_OBJECT.names)
    ensures forall name :: Get(vm, EMPTY_OBJECT, name).None?
  {
  }
}
