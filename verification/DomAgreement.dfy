/** When the one-pass builder and the collecting reader of dom_wson.cpp make the same tree, and when they do not. */
module DomAgreement {
  import opened Words
  import opened Seqs
  import opened Values
  import opened JsonText
  import opened Dom
  import opened DomTree
  import opened DomTheorems
  import Text

  /**
   * An object with a type, in whose attributes and in whose styles every name has the same text where it comes first
   * and where it comes last, and whose children that are objects are such objects.
   */
  predicate Agreeable(f: NumberFormat, v: Value)
    decreases v, 2
  {
    v.Obj? ==>
      && Count(v.members, Type) >= 1
      && SameEnds(f, PairsOf(v.members, Attr)) && SameEnds(f, PairsOf(v.members, Style))
      && PartsAgreeable(f, v.members)
  }

  predicate PartsAgreeable(f: NumberFormat, members: seq<Member>)
    decreases members, 1
  {
    members != [] ==>
      && (KindOf(members[0]).Children? && members[0].value.Arr? ==> ItemsAgreeable(f, members[0].value.items))
      && PartsAgreeable(f, members[1..])
  }

  predicate ItemsAgreeable(f: NumberFormat, items: seq<Value>)
    decreases items, 0
  {
    items != [] ==> Agreeable(f, items[0]) && ItemsAgreeable(f, items[1..])
  }

  lemma {:induction false} NoChildren(f: NumberFormat, members: seq<Member>)
    requires Count(members, Children) == 0
    ensures BuiltChildren(f, members) == [] && CollectedAll(f, members) == [] && PartsAgreeable(f, members)
    decreases |members|
  {
    if members != [] {
      hide KindOf;
      NoChildren(f, members[1..]);
    }
  }

  lemma ReturnedNothing(f: NumberFormat, v: Value)
    requires OnceEach(v)
    ensures Returned(f, v).None? <==> Dropped(v)
    ensures Collected(f, v).None? <==> !v.Obj?
  {
    MadeAtMostOnce(f, v);
  }

  /** The lists of children are equal exactly when every child is agreeable; the one-pass builder's is never longer. */
  lemma {:induction false} ItemsExactly(f: NumberFormat, items: seq<Value>)
    requires ItemsOnce(items)
    ensures |BuiltViews(f, items)| <= |CollectedChildren(f, items)|
    ensures BuiltViews(f, items) == CollectedChildren(f, items) <==> ItemsAgreeable(f, items)
    decreases items, 0
  {
    if items != [] {
      var v, rest := items[0], items[1..];
      assert OnceEach(v) && ItemsOnce(rest);
      BuildersAgreeExactly(f, v);
      ReturnedNothing(f, v);
      ItemsExactly(f, rest);
      var a, b := BuiltViews(f, rest), CollectedChildren(f, rest);
      hide Agreeable, Returned, Collected, OnceEach, ItemsOnce;
      if Returned(f, v).Some? {
        var x, y := Returned(f, v).value, Collected(f, v).value;
        assert BuiltViews(f, items) == [x] + a && CollectedChildren(f, items) == [y] + b;
        assert ([x] + a)[0] == x && ([x] + a)[1..] == a && ([y] + b)[0] == y && ([y] + b)[1..] == b;
      } else {
        assert BuiltViews(f, items) == a;
      }
    }
  }

  lemma PartsSplit(f: NumberFormat, members: seq<Member>)
    requires PartsOnce(members) && Count(members, Children) <= 1 && members != []
    ensures var m, rest := members[0], members[1..];
      && PartsOnce(rest) && Count(rest, Children) <= (if KindOf(m).Children? then 0 else 1)
      && if KindOf(m).Children? && m.value.Arr? then
           && ItemsOnce(m.value.items)
           && BuiltChildren(f, members) == BuiltViews(f, m.value.items) + BuiltChildren(f, rest)
           && CollectedAll(f, members) == CollectedChildren(f, m.value.items) + CollectedAll(f, rest)
           && PartsAgreeable(f, members) == (ItemsAgreeable(f, m.value.items) && PartsAgreeable(f, rest))
         else
           && BuiltChildren(f, members) == [] + BuiltChildren(f, rest)
           && CollectedAll(f, members) == [] + CollectedAll(f, rest)
           && PartsAgreeable(f, members) == PartsAgreeable(f, rest)
  {
    hide KindOf, BuiltViews, CollectedChildren, ItemsAgreeable, ItemsOnce;
  }

  lemma {:induction false} PartsExactly(f: NumberFormat, members: seq<Member>)
    requires PartsOnce(members) && Count(members, Children) <= 1
    ensures BuiltChildren(f, members) == CollectedAll(f, members) <==> PartsAgreeable(f, members)
    decreases members, 1
  {
    if members != [] {
      var m, rest := members[0], members[1..];
      PartsSplit(f, members);
      hide *;
      if KindOf(m).Children? {
        NoChildren(f, rest);
        if m.value.Arr? {
          ItemsExactly(f, m.value.items);
          assert BuiltViews(f, m.value.items) + [] == BuiltViews(f, m.value.items);
          assert CollectedChildren(f, m.value.items) + [] == CollectedChildren(f, m.value.items);
        }
      } else {
        PartsExactly(f, rest);
        assert [] + BuiltChildren(f, rest) == BuiltChildren(f, rest);
        assert [] + CollectedAll(f, rest) == CollectedAll(f, rest);
      }
    }
  }

  /**
   * The one-pass builder with its second reading and the collecting reader return the same for a value whose objects
   * have at most one type and one children entry, in whatever order their keys come at every level, exactly when it is
   * agreeable: both a tree, or for what is no object both nothing.
   */
  lemma {:induction false} BuildersAgreeExactly(f: NumberFormat, v: Value)
    requires OnceEach(v)
    ensures Returned(f, v) == Collected(f, v) <==> Agreeable(f, v)
    decreases v, 2
  {
    ReturnedNothing(f, v);
    if !Dropped(v) {
      var members := v.members;
      BuiltParts(f, v);
      CollectLeft(f, members, NO_FIELDS);
      FirstIsLast(f, PairsOf(members, Attr));
      FirstIsLast(f, PairsOf(members, Style));
      PartsExactly(f, members);
      assert [] + BuiltChildren(f, members) == BuiltChildren(f, members);
      assert [] + CollectedAll(f, members) == CollectedAll(f, members);
      assert [] + EventsOf(f, members) == EventsOf(f, members);
      assert {} + AsSet(EventsOf(f, members)) == AsSet(EventsOf(f, members));
      hide Returned, Collect, InsertFirst, InsertLast, PairsOf, EventsOf, AsSet, LastText, Count, PartsAgreeable;
      hide BuiltChildren, CollectedAll, SameEnds;
    }
  }

  // ---- consequences ----

  /** Names are distinct in attributes and in styles, and objects have one type, at every level. */
  predicate TypedTree(v: Value)
    decreases v, 2
  {
    v.Obj? ==>
      && Count(v.members, Type) == 1 && Count(v.members, Children) <= 1
      && DistinctKeys(PairsOf(v.members, Attr)) && DistinctKeys(PairsOf(v.members, Style))
      && PartsTyped(v.members)
  }

  predicate PartsTyped(members: seq<Member>)
    decreases members, 1
  {
    members != [] ==>
      && (KindOf(members[0]).Children? && members[0].value.Arr? ==> ItemsTyped(members[0].value.items))
      && PartsTyped(members[1..])
  }

  predicate ItemsTyped(items: seq<Value>)
    decreases items, 0
  {
    items != [] ==> TypedTree(items[0]) && ItemsTyped(items[1..])
  }

  predicate DistinctKeys(members: seq<Member>) {
    forall i, j :: 0 <= i < j < |members| ==> Text.Utf8(members[i].key) != Text.Utf8(members[j].key)
  }

  lemma {:induction false} DistinctEnds(f: NumberFormat, pairs: seq<Member>, name: Str)
    requires DistinctKeys(pairs)
    ensures FirstValue(f, pairs, name) == LastValue(f, pairs, name)
    decreases |pairs|
  {
    if pairs != [] {
      var rest := pairs[1..];
      assert forall i :: 0 <= i < |rest| ==> rest[i] == pairs[i + 1];
      DistinctEnds(f, rest, name);
      NoSuchName(f, rest, name);
    }
  }

  lemma {:induction false} TypedIsAgreeable(f: NumberFormat, v: Value)
    requires TypedTree(v)
    ensures OnceEach(v) && Agreeable(f, v)
    decreases v, 2
  {
    if v.Obj? {
      forall name: Str, kind: Kind | kind.Attr? || kind.Style?
        ensures FirstValue(f, PairsOf(v.members, kind), name) == LastValue(f, PairsOf(v.members, kind), name)
      {
        DistinctEnds(f, PairsOf(v.members, kind), name);
      }
      hide PairsOf, DistinctKeys, FirstValue, LastValue, Count;
      PartsTypedAgree(f, v.members);
    }
  }

  lemma {:induction false} PartsTypedAgree(f: NumberFormat, members: seq<Member>)
    requires PartsTyped(members)
    ensures PartsOnce(members) && PartsAgreeable(f, members)
    decreases members, 1
  {
    if members != [] {
      hide KindOf;
      if KindOf(members[0]).Children? && members[0].value.Arr? { ItemsTypedAgree(f, members[0].value.items); }
      PartsTypedAgree(f, members[1..]);
    }
  }

  lemma {:induction false} ItemsTypedAgree(f: NumberFormat, items: seq<Value>)
    requires ItemsTyped(items)
    ensures ItemsOnce(items) && ItemsAgreeable(f, items)
    decreases items, 0
  {
    if items != [] {
      TypedIsAgreeable(f, items[0]);
      ItemsTypedAgree(f, items[1..]);
    }
  }

  /** Both readers make the same tree of every typed tree, for every order of the keys at every level. */
  lemma BuildersAgree(f: NumberFormat, v: Value)
    requires TypedTree(v)
    ensures Returned(f, v) == Collected(f, v) && (v.Obj? ==> Returned(f, v).Some?)
  {
    TypedIsAgreeable(f, v);
    BuildersAgreeExactly(f, v);
    ReturnedNothing(f, v);
  }

  /** Without a type the one-pass builder returns nothing, and the collecting reader a node with an empty type. */
  lemma UntypedDiffer(f: NumberFormat, v: Value)
    requires OnceEach(v) && v.Obj? && Count(v.members, Type) == 0
    ensures Returned(f, v) != Collected(f, v)
    ensures Returned(f, v) == None && Collected(f, v).Some? && Collected(f, v).value.typ == []
  {
    BuildersAgreeExactly(f, v);
    ReturnedNothing(f, v);
    CollectLeft(f, v.members, NO_FIELDS);
    UntypedText(f, v.members, []);
    hide Collect, LastText, Count, Returned;
  }

  /**
   * A name with different texts where it comes first and where it comes last, among the attributes or among the styles
   * of an object, tells the readers apart.
   */
  lemma DuplicateNamesDiffer(f: NumberFormat, v: Value, kind: Kind, name: Str)
    requires OnceEach(v) && v.Obj? && (kind.Attr? || kind.Style?)
    requires FirstValue(f, PairsOf(v.members, kind), name) != LastValue(f, PairsOf(v.members, kind), name)
    ensures Returned(f, v) != Collected(f, v)
  {
    var pairs := PairsOf(v.members, kind);
    NoSuchName(f, pairs, name);
    var i :| 0 <= i < |pairs| && Text.Utf8(pairs[i].key) == name;
    assert !SameEnds(f, pairs);
    BuildersAgreeExactly(f, v);
  }

  lemma TypeAndAttr(f: NumberFormat, t: Member, a: Member)
    requires KindOf(t).Type? && KindOf(a).Attr? && a.value.Obj?
    ensures OnceEach(Obj([t, a])) && PairsOf([t, a], Attr) == a.value.members
  {
    assert [t, a][1..] == [a] && [t, a][0] == t;
    OneEntry(f, t);
    OneEntry(f, a);
    SplitParts(f, [t, a]);
    hide PairsOf, KindOf, EventsOf, BuiltChildren, CollectedAll, BuiltViews, CollectedChildren, EventNames;
    assert Count([], Type) == 0 && Count([], Children) == 0 && PartsOnce([]) && [a][1..] == [];
    assert Count([a], Type) == 0 && Count([a], Children) == 0 && PartsOnce([a]);
    assert Count([t, a], Type) == 1 && Count([t, a], Children) == 0 && PartsOnce([t, a]);
  }

  /** The smallest such object: one attribute map that gives one name two texts. */
  lemma TwiceInOneMap(f: NumberFormat, t: Member, a: Member, name: seq<u16>, x: Value, y: Value)
    requires KindOf(t).Type? && KindOf(a).Attr?
    requires a.value == Obj([Member(name, x), Member(name, y)]) && PlainText(f, x) != PlainText(f, y)
    ensures Returned(f, Obj([t, a])) != Collected(f, Obj([t, a]))
  {
    var v := Obj([t, a]);
    var pair := [Member(name, x), Member(name, y)];
    TypeAndAttr(f, t, a);
    hide PlainText, KindOf, PairsOf, OnceEach, Text.Utf8;
    assert pair[1..] == [Member(name, y)] && pair[1..][1..] == [];
    assert LastValue(f, pair[1..], Text.Utf8(name)) == Some(PlainText(f, y));
    DuplicateNamesDiffer(f, v, Attr, Text.Utf8(name));
  }

  /** What is inserted at running indices from where it begins stands between what is before and behind. */
  lemma {:induction false} InsertedBetween(
    f: NumberFormat, n: Node, front: seq<Node>, back: seq<Node>, items: seq<Value>)
    requires ItemsOnce(items) && n.children == front + back
    requires forall i :: 0 <= i < |items| ==> !Dropped(items[i])
    ensures ApplyCalls(n, ChildCalls(f, items, |front|)) == n.(children := front + BuiltViews(f, items) + back)
    decreases |items|
  {
    if items == [] {
      assert front + [] == front;
    } else {
      var v, rest := items[0], items[1..];
      assert forall i :: 0 <= i < |rest| ==> rest[i] == items[i + 1];
      MadeAtMostOnce(f, v);
      var r := Built(f, v)[0];
      var x, call := View(r), AddChild(|front|, r);
      assert OnceEach(v) && ItemsOnce(rest) && !Dropped(v);
      assert Returned(f, v) == Some(x);
      hide Built, View, OnceEach, ItemsOnce, Dropped, Returned;
      assert AddAll(|front|, Built(f, v)) == [call];
      assert ChildCalls(f, items, |front|) == [call] + ChildCalls(f, rest, |front| + 1);
      assert BuiltViews(f, items) == [x] + BuiltViews(f, rest);
      var n' := n.(children := front + [x] + back);
      InsertedHere(front, back, x);
      OneCall(n, call);
      ApplyConcat(n, [call], ChildCalls(f, rest, |front| + 1));
      hide *;
      InsertedBetween(f, n', front + [x], back, rest);
      Assoc(front, [x], BuiltViews(f, rest));
    }
  }

  lemma InsertedHere(front: seq<Node>, back: seq<Node>, x: Node)
    ensures InsertAt(front + back, |front|, x) == front + [x] + back
  {
    if back == [] {
      assert front + back == front && front + [x] + back == front + [x];
    } else {
      Cut(front, back);
    }
  }

  /**
   * With two children entries the one-pass builder inserts the second list in front of the first, since each child goes
   * to its index in its own list; the collecting reader keeps the order of the stream.
   */
  lemma SecondListFirst(
    f: NumberFormat, t: Member, c: Member, d: Member, xs: seq<Value>, ys: seq<Value>)
    requires KindOf(t).Type? && KindOf(c).Children? && KindOf(d).Children?
    requires c.value == Arr(xs) && d.value == Arr(ys) && ItemsOnce(xs) && ItemsOnce(ys)
    requires forall i :: 0 <= i < |ys| ==> !Dropped(ys[i])
    ensures var v := Obj([t, c, d]);
      && Returned(f, v).Some? && Returned(f, v).value.children == BuiltViews(f, ys) + BuiltViews(f, xs)
      && Collected(f, v).Some?
      && Collected(f, v).value.children == CollectedChildren(f, xs) + CollectedChildren(f, ys)
  {
    var v := Obj([t, c, d]);
    TwoListsCalled(f, t, c, d, xs, ys);
    TwoListsCollected(f, t, c, d, xs, ys);
    hide KindOf, Collected, StreamCalls, Count, ItemsOnce, LastText, ChildCalls, BuiltViews, Dropped;
    BuiltOnce(f, v);
    var r := Built(f, v)[0];
    var n, a, b := Bare(r.ref, r.typ), ChildCalls(f, xs, 0), ChildCalls(f, ys, 0);
    assert View(r) == ApplyCalls(n, a + b);
    hide View, Built, ApplyCalls;
    ApplyConcat(n, a, b);
    ItemsLeft(f, n, xs, 0);
    assert [] + BuiltViews(f, xs) == BuiltViews(f, xs) && [] + BuiltViews(f, ys) == BuiltViews(f, ys);
    InsertedBetween(f, n.(children := BuiltViews(f, xs)), [], BuiltViews(f, xs), ys);
  }

  lemma ListCalled(f: NumberFormat, c: Member, xs: seq<Value>)
    requires KindOf(c).Children? && c.value == Arr(xs)
    ensures EntryCalls(f, c) == ChildCalls(f, xs, 0)
  {
    hide KindOf, Built;
  }

  lemma TwoListsCalled(f: NumberFormat, t: Member, c: Member, d: Member, xs: seq<Value>, ys: seq<Value>)
    requires KindOf(t).Type? && KindOf(c).Children? && KindOf(d).Children?
    requires c.value == Arr(xs) && d.value == Arr(ys)
    ensures Count([t, c, d], Type) == 1
    ensures StreamCalls(f, [t, c, d]) == ChildCalls(f, xs, 0) + ChildCalls(f, ys, 0)
  {
    hide KindOf, Built, ChildCalls;
    assert [t, c, d][1..] == [c, d] && [c, d][1..] == [d] && [d][1..] == [];
    assert Count([d], Type) == 0 && Count([c, d], Type) == 0;
    assert EntryCalls(f, t) == [];
    ListCalled(f, c, xs);
    ListCalled(f, d, ys);
    hide EntryCalls;
    assert StreamCalls(f, [d]) == EntryCalls(f, d) + [];
    assert StreamCalls(f, [c, d]) == EntryCalls(f, c) + StreamCalls(f, [d]);
  }

  lemma TwoListsCollected(f: NumberFormat, t: Member, c: Member, d: Member, xs: seq<Value>, ys: seq<Value>)
    requires KindOf(t).Type? && KindOf(c).Children? && KindOf(d).Children?
    requires c.value == Arr(xs) && d.value == Arr(ys)
    ensures var v := Obj([t, c, d]);
      && Collected(f, v).Some?
      && Collected(f, v).value.children == CollectedChildren(f, xs) + CollectedChildren(f, ys)
  {
    CollectLeft(f, [t, c, d], NO_FIELDS);
    var v := Obj([t, c, d]);
    assert Collected(f, v).Some? && Collected(f, v).value.children == [] + CollectedAll(f, [t, c, d]);
    hide KindOf, Collect, InsertFirst, PairsOf, EventsOf, LastText, AsSet, Collected, CollectedChildren;
    assert [t, c, d][1..] == [c, d] && [c, d][1..] == [d] && [d][1..] == [];
    assert CollectedAll(f, [d]) == CollectedChildren(f, ys) + [];
    assert CollectedAll(f, [c, d]) == CollectedChildren(f, xs) + CollectedAll(f, [d]);
    assert CollectedAll(f, [t, c, d]) == [] + CollectedAll(f, [c, d]);
  }
}
