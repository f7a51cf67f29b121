/** The two passes of the one-pass builder, and what each of the three readers leaves of an object. */
module DomTheorems {
  import opened Words
  import opened Seqs
  import opened Values
  import opened JsonText
  import opened Dom
  import opened DomTree
  import Text

  function Count(members: seq<Member>, kind: Kind): nat {
    if members == [] then 0 else (if KindOf(members[0]) == kind then 1 else 0) + Count(members[1..], kind)
  }

  /** The text of the last entry of a kind, or what there was before. */
  function LastText(f: NumberFormat, members: seq<Member>, kind: Kind, before: Str): Str {
    if members == [] then before
    else LastText(f, members[1..], kind, if KindOf(members[0]) == kind then PlainText(f, members[0].value) else before)
  }

  /** Whether an attribute, style, event or children entry comes before the type. */
  predicate BodyBeforeType(members: seq<Member>) {
    members != [] && KindOf(members[0]) != Type && (IsBody(KindOf(members[0])) || BodyBeforeType(members[1..]))
  }

  // ---- all in one pass ----

  /** After the type, the first pass applies every entry if the order has been right so far, and none otherwise. */
  lemma {:induction false} PassAfterType(f: NumberFormat, members: seq<Member>, ref: Str, typ: Str,
    calls: seq<Call>, right: bool)
    requires Count(members, Type) == 0
    ensures var last := LastText(f, members, Ref, ref);
      FirstPass(f, members, Progress(ref, [Render(ref, typ, calls)], right))
      == Progress(last, [Render(last, typ, if right then calls + StreamCalls(f, members) else calls)], right)
    decreases |members|
  {
    if members == [] {
      assert calls + StreamCalls(f, members) == calls;
    } else {
      var m, rest, p := members[0], members[1..], Progress(ref, [Render(ref, typ, calls)], right);
      PassStep(f, members, p);
      StepAfterType(f, m, ref, typ, calls, right);
      var ref' := if KindOf(m) == Ref then PlainText(f, m.value) else ref;
      assert LastText(f, members, Ref, ref) == LastText(f, rest, Ref, ref') && Count(rest, Type) == 0;
      hide *;
      Assoc(calls, EntryCalls(f, m), StreamCalls(f, rest));
      PassAfterType(f, rest, ref', typ, if right then calls + EntryCalls(f, m) else calls, right);
    }
  }

  lemma StepAfterType(f: NumberFormat, m: Member, ref: Str, typ: Str, calls: seq<Call>, right: bool)
    requires KindOf(m) != Type
    ensures var ref' := if KindOf(m) == Ref then PlainText(f, m.value) else ref;
      FirstPassStep(f, m, Progress(ref, [Render(ref, typ, calls)], right))
      == Progress(ref', [Render(ref', typ, if right then calls + EntryCalls(f, m) else calls)], right)
  {
    hide KindOf, PlainText, PairCalls, EventCalls, ChildCalls;
    assert !Shaped(m) ==> EntryCalls(f, m) == [];
    assert calls + [] == calls;
    var r, calls' := Render(ref, typ, calls), calls + EntryCalls(f, m);
    assert WithCurrent([r], r.(ref := PlainText(f, m.value))) == [Render(PlainText(f, m.value), typ, calls)];
    assert WithCurrent([r], r.(calls := calls')) == [Render(ref, typ, calls')];
  }

  lemma StepBeforeType(f: NumberFormat, m: Member, ref: Str, right: bool)
    requires KindOf(m) != Type
    ensures FirstPassStep(f, m, Progress(ref, [], right))
      == Progress(if KindOf(m) == Ref then PlainText(f, m.value) else ref, [], right && !IsBody(KindOf(m)))
    ensures !IsBody(KindOf(m)) ==> EntryCalls(f, m) == []
  {
    hide KindOf, PlainText, PairCalls, EventCalls, ChildCalls;
  }

  lemma PassStep(f: NumberFormat, members: seq<Member>, p: Progress)
    requires members != []
    ensures FirstPass(f, members, p) == FirstPass(f, members[1..], FirstPassStep(f, members[0], p))
    ensures StreamCalls(f, members) == EntryCalls(f, members[0]) + StreamCalls(f, members[1..])
  {
  }

  /**
   * With one type, the first pass makes one render object, and has applied to it either every call of the stream or
   * none, according to whether no such entry came before the type: it never splits the entries between the passes.
   */
  lemma {:induction false} NeverSplit(f: NumberFormat, members: seq<Member>, ref: Str, right: bool)
    requires Count(members, Type) == 1
    ensures var q := FirstPass(f, members, Progress(ref, [], right));
      var last := LastText(f, members, Ref, ref);
      && q.keyOrderRight == (right && !BodyBeforeType(members))
      && q.made == [Render(last, LastText(f, members, Type, []),
        if q.keyOrderRight then StreamCalls(f, members) else [])]
    decreases |members|
  {
    var m, rest, p := members[0], members[1..], Progress(ref, [], right);
    PassStep(f, members, p);
    hide KindOf, PlainText, FirstPass, StreamCalls, FirstPassStep, EntryCalls;
    if KindOf(m) == Type {
      TypeStep(f, m, ref, right);
      PassAfterType(f, rest, ref, PlainText(f, m.value), [], right);
      UntypedText(f, rest, PlainText(f, m.value));
      assert [] + StreamCalls(f, rest) == StreamCalls(f, rest);
    } else {
      StepBeforeType(f, m, ref, right);
      assert [] + StreamCalls(f, rest) == StreamCalls(f, rest);
      NeverSplit(f, rest, if KindOf(m) == Ref then PlainText(f, m.value) else ref, right && !IsBody(KindOf(m)));
    }
  }

  lemma TypeStep(f: NumberFormat, m: Member, ref: Str, right: bool)
    requires KindOf(m) == Type
    ensures FirstPassStep(f, m, Progress(ref, [], right))
      == Progress(ref, [Render(ref, PlainText(f, m.value), [])], right)
    ensures EntryCalls(f, m) == []
  {
    hide KindOf, PlainText;
  }

  lemma {:induction false} UntypedText(f: NumberFormat, members: seq<Member>, typ: Str)
    requires Count(members, Type) == 0
    ensures LastText(f, members, Type, typ) == typ
    decreases |members|
  {
    if members != [] { UntypedText(f, members[1..], typ); }
  }

  /**
   * A typed object gives one render object, with its last reference and its type, on which every attribute,
   * style, event and child of the stream was applied exactly once and in stream order, wherever its type stands among
   * the keys.
   */
  lemma BuiltOnce(f: NumberFormat, v: Value)
    requires v.Obj? && Count(v.members, Type) == 1
    ensures Built(f, v)
      == [Render(LastText(f, v.members, Ref, []), LastText(f, v.members, Type, []), StreamCalls(f, v.members))]
  {
    hide FirstPass, StreamCalls, LastText;
    NeverSplit(f, v.members, [], true);
    assert [] + StreamCalls(f, v.members) == StreamCalls(f, v.members);
  }

  /** An object without a type gives nothing. */
  lemma {:induction false} UntypedBuildsNothing(f: NumberFormat, members: seq<Member>, ref: Str, right: bool)
    requires Count(members, Type) == 0
    ensures FirstPass(f, members, Progress(ref, [], right)).made == []
    decreases |members|
  {
    if members != [] {
      PassStep(f, members, Progress(ref, [], right));
      StepBeforeType(f, members[0], ref, right);
      hide FirstPass, FirstPassStep;
      UntypedBuildsNothing(f, members[1..],
        if KindOf(members[0]) == Ref then PlainText(f, members[0].value) else ref,
        right && !IsBody(KindOf(members[0])));
    }
  }

  // ---- keys that come once ----

  /** At most one type and one children entry, in the object and in every object below it. */
  predicate OnceEach(v: Value)
    decreases v, 2
  {
    v.Obj? ==> Count(v.members, Type) <= 1 && Count(v.members, Children) <= 1 && PartsOnce(v.members)
  }

  predicate PartsOnce(members: seq<Member>)
    decreases members, 1
  {
    members != [] ==>
      && (KindOf(members[0]).Children? && members[0].value.Arr? ==> ItemsOnce(members[0].value.items))
      && PartsOnce(members[1..])
  }

  predicate ItemsOnce(items: seq<Value>)
    decreases items, 0
  {
    items != [] ==> OnceEach(items[0]) && ItemsOnce(items[1..])
  }

  /** What no render object is made for: all values but objects with a type. */
  predicate Dropped(v: Value) { !v.Obj? || Count(v.members, Type) == 0 }

  /** The render object the one-pass builder returns. */
  function Returned(f: NumberFormat, v: Value): Option<Node> {
    var made := Built(f, v);
    if made == [] then None else Some(View(Current(made)))
  }

  lemma MadeAtMostOnce(f: NumberFormat, v: Value)
    requires OnceEach(v)
    ensures |Built(f, v)| == if Dropped(v) then 0 else 1
  {
    hide FirstPass, StreamCalls, LastText;
    if v.Obj? {
      if Count(v.members, Type) == 1 {
        BuiltOnce(f, v);
      } else {
        UntypedBuildsNothing(f, v.members, [], true);
      }
    }
  }

  // ---- the parts of an object ----

  /** The attributes, or the styles, of all entries of that kind. */
  function PairsOf(members: seq<Member>, kind: Kind): seq<Member> {
    if members == [] then []
    else (if KindOf(members[0]) == kind && members[0].value.Obj? then members[0].value.members else [])
         + PairsOf(members[1..], kind)
  }

  function EventsOf(f: NumberFormat, members: seq<Member>): seq<Str> {
    if members == [] then []
    else (if KindOf(members[0]).Event? && members[0].value.Arr? then EventNames(f, members[0].value.items) else [])
         + EventsOf(f, members[1..])
  }

  /** The trees the one-pass builder returns for the children. */
  function BuiltViews(f: NumberFormat, items: seq<Value>): seq<Node> {
    if items == [] then []
    else (match Returned(f, items[0]) case None => [] case Some(n) => [n]) + BuiltViews(f, items[1..])
  }

  function BuiltChildren(f: NumberFormat, members: seq<Member>): seq<Node> {
    if members == [] then []
    else (if KindOf(members[0]).Children? && members[0].value.Arr? then BuiltViews(f, members[0].value.items) else [])
         + BuiltChildren(f, members[1..])
  }

  function CollectedAll(f: NumberFormat, members: seq<Member>): seq<Node> {
    if members == [] then []
    else (if KindOf(members[0]).Children? && members[0].value.Arr?
          then CollectedChildren(f, members[0].value.items) else [])
         + CollectedAll(f, members[1..])
  }

  lemma {:induction false} LastConcat(f: NumberFormat, m: map<Str, Str>, a: seq<Member>, b: seq<Member>)
    ensures InsertLast(f, m, a + b) == InsertLast(f, InsertLast(f, m, a), b)
    decreases |a|
  {
    if a == [] {
      assert a + b == b;
    } else {
      assert (a + b)[1..] == a[1..] + b && (a + b)[0] == a[0];
      LastConcat(f, m[Text.Utf8(a[0].key) := PlainText(f, a[0].value)], a[1..], b);
    }
  }

  lemma {:induction false} FirstConcat(f: NumberFormat, m: map<Str, Str>, a: seq<Member>, b: seq<Member>)
    ensures InsertFirst(f, m, a + b) == InsertFirst(f, InsertFirst(f, m, a), b)
    decreases |a|
  {
    if a == [] {
      assert a + b == b;
    } else {
      assert (a + b)[1..] == a[1..] + b && (a + b)[0] == a[0];
      var k := Text.Utf8(a[0].key);
      FirstConcat(f, if k in m then m else m[k := PlainText(f, a[0].value)], a[1..], b);
    }
  }

  // ---- what the calls leave ----

  lemma {:induction false} PairsLeft(f: NumberFormat, n: Node, style: bool, members: seq<Member>)
    ensures ApplyCalls(n, PairCalls(f, style, members))
      == WithPairs(n, style, InsertLast(f, Pairs(n, style), members))
    decreases |members|
  {
    if members != [] {
      var k, x := Text.Utf8(members[0].key), PlainText(f, members[0].value);
      PairsLeft(f, WithPairs(n, style, Pairs(n, style)[k := x]), style, members[1..]);
    }
  }

  lemma {:induction false} EventsLeft(f: NumberFormat, n: Node, items: seq<Value>)
    ensures ApplyCalls(n, EventCalls(f, items)) == n.(events := n.events + AsSet(EventNames(f, items)))
    decreases |items|
  {
    if items == [] {
      assert n.events + AsSet([]) == n.events;
    } else {
      var e, more := PlainText(f, items[0]), EventNames(f, items[1..]);
      if e == [] {
        assert EventNames(f, items) == more && EventCalls(f, items) == EventCalls(f, items[1..]);
        EventsLeft(f, n, items[1..]);
      } else {
        assert EventNames(f, items) == [e] + more && EventCalls(f, items) == [AddEvent(e)] + EventCalls(f, items[1..]);
        assert AsSet([e] + more) == {e} + AsSet(more);
        EventsLeft(f, n.(events := n.events + {e}), items[1..]);
        assert n.events + {e} + AsSet(more) == n.events + AsSet([e] + more);
      }
    }
  }

  /** The children come in stream order, though each is added at its own index in the stream. */
  lemma {:induction false} ItemsLeft(f: NumberFormat, n: Node, items: seq<Value>, index: nat)
    requires ItemsOnce(items) && |n.children| <= index
    ensures ApplyCalls(n, ChildCalls(f, items, index)) == n.(children := n.children + BuiltViews(f, items))
    decreases |items|
  {
    if items == [] {
      assert n.children + [] == n.children;
    } else {
      var v, rest := items[0], items[1..];
      assert OnceEach(v) && ItemsOnce(rest);
      var first, more := AddAll(index, Built(f, v)), ChildCalls(f, rest, index + 1);
      assert ChildCalls(f, items, index) == first + more;
      var one := match Returned(f, v) case None => [] case Some(x) => [x];
      assert BuiltViews(f, items) == one + BuiltViews(f, rest);
      assert |one| <= 1;
      ChildLeft(f, n, v, index);
      hide *;
      ItemsLeft(f, n.(children := n.children + one), rest, index + 1);
      ApplyConcat(n, first, more);
      Assoc(n.children, one, BuiltViews(f, rest));
    }
  }

  lemma ChildLeft(f: NumberFormat, n: Node, v: Value, index: nat)
    requires OnceEach(v) && |n.children| <= index
    ensures ApplyCalls(n, AddAll(index, Built(f, v)))
      == n.(children := n.children + match Returned(f, v) case None => [] case Some(x) => [x])
  {
    MadeAtMostOnce(f, v);
    if Dropped(v) {
      assert AddAll(index, Built(f, v)) == [];
      assert n.children + [] == n.children;
    } else {
      var r := Built(f, v)[0];
      hide Built, View;
      assert AddAll(index, Built(f, v)) == [AddChild(index, r)];
      OneCall(n, AddChild(index, r));
    }
  }

  lemma OneCall(n: Node, call: Call)
    ensures ApplyCalls(n, [call]) == ApplyCall(n, call)
  {
    hide ApplyCall;
  }

  /** A node after all entries of `members`. */
  function Left(f: NumberFormat, n: Node, members: seq<Member>): Node {
    Node(n.ref, n.typ, InsertLast(f, n.attrs, PairsOf(members, Attr)), InsertLast(f, n.styles, PairsOf(members, Style)),
         n.events + AsSet(EventsOf(f, members)), n.children + BuiltChildren(f, members))
  }

  lemma OneEntry(f: NumberFormat, m: Member)
    ensures PairsOf([m], Attr) == if KindOf(m).Attr? && m.value.Obj? then m.value.members else []
    ensures PairsOf([m], Style) == if KindOf(m).Style? && m.value.Obj? then m.value.members else []
    ensures EventsOf(f, [m]) == if KindOf(m).Event? && m.value.Arr? then EventNames(f, m.value.items) else []
    ensures BuiltChildren(f, [m]) == if KindOf(m).Children? && m.value.Arr? then BuiltViews(f, m.value.items) else []
    ensures CollectedAll(f, [m]) ==
      if KindOf(m).Children? && m.value.Arr? then CollectedChildren(f, m.value.items) else []
  {
    hide KindOf, EventNames, BuiltViews, CollectedChildren;
    assert [m][1..] == [];
  }

  lemma SplitParts(f: NumberFormat, members: seq<Member>)
    requires members != []
    ensures var one, rest := [members[0]], members[1..];
      && (forall kind :: PairsOf(members, kind) == PairsOf(one, kind) + PairsOf(rest, kind))
      && EventsOf(f, members) == EventsOf(f, one) + EventsOf(f, rest)
      && BuiltChildren(f, members) == BuiltChildren(f, one) + BuiltChildren(f, rest)
      && CollectedAll(f, members) == CollectedAll(f, one) + CollectedAll(f, rest)
  {
    hide KindOf, EventNames, BuiltViews, CollectedChildren;
    assert [members[0]][1..] == [];
  }

  lemma SetOfBoth(a: seq<Str>, b: seq<Str>)
    ensures AsSet(a + b) == AsSet(a) + AsSet(b)
  {
  }

  lemma LeftInTwo(f: NumberFormat, n: Node, members: seq<Member>)
    requires members != []
    ensures Left(f, n, members) == Left(f, Left(f, n, [members[0]]), members[1..])
  {
    var one, rest := [members[0]], members[1..];
    SplitParts(f, members);
    hide PairsOf, EventsOf, BuiltChildren, InsertLast, AsSet;
    LastConcat(f, n.attrs, PairsOf(one, Attr), PairsOf(rest, Attr));
    LastConcat(f, n.styles, PairsOf(one, Style), PairsOf(rest, Style));
    SetOfBoth(EventsOf(f, one), EventsOf(f, rest));
    Assoc(n.children, BuiltChildren(f, one), BuiltChildren(f, rest));
  }

  lemma EntryLeft(f: NumberFormat, m: Member, n: Node)
    requires PartsOnce([m]) && (KindOf(m).Children? ==> n.children == [])
    ensures ApplyCalls(n, EntryCalls(f, m)) == Left(f, n, [m])
  {
    OneEntry(f, m);
    assert n.children + [] == n.children && n.events + AsSet([]) == n.events;
    hide KindOf, PairCalls, EventCalls, ChildCalls, PairsOf, EventsOf, BuiltChildren, CollectedAll;
    hide EventNames, BuiltViews, CollectedChildren, AsSet, ItemsOnce;
    if Shaped(m) {
      match KindOf(m)
      case Attr => PairsLeft(f, n, false, m.value.members);
      case Style => PairsLeft(f, n, true, m.value.members);
      case Event => EventsLeft(f, n, m.value.items);
      case Children => ItemsLeft(f, n, m.value.items, 0);
    }
  }

  /** The calls of a whole stream leave the last value of every name, all events, and the children in order. */
  lemma {:induction false} StreamLeft(f: NumberFormat, members: seq<Member>, n: Node)
    requires PartsOnce(members) && Count(members, Children) <= if n.children == [] then 1 else 0
    ensures ApplyCalls(n, StreamCalls(f, members)) == Left(f, n, members)
    decreases |members|
  {
    if members == [] {
      assert n.children + [] == n.children && n.events + AsSet([]) == n.events;
    } else {
      var m, rest := members[0], members[1..];
      PassStep(f, members, START);
      ApplyConcat(n, EntryCalls(f, m), StreamCalls(f, rest));
      OneEntry(f, m);
      assert PartsOnce([m]) && PartsOnce(rest);
      assert KindOf(m).Children? ==> Count(rest, Children) == 0;
      assert !KindOf(m).Children? ==> n.children + BuiltChildren(f, [m]) == n.children;
      hide KindOf, ApplyCalls, StreamCalls, EntryCalls, PartsOnce, PairsOf, EventsOf, BuiltChildren, InsertLast, AsSet;
      EntryLeft(f, m, n);
      StreamLeft(f, rest, Left(f, n, [m]));
      LeftInTwo(f, n, members);
    }
  }

  /** The tree the one-pass builder returns for a typed object, part by part. */
  lemma BuiltParts(f: NumberFormat, v: Value)
    requires OnceEach(v) && !Dropped(v)
    ensures |Built(f, v)| == 1
    ensures Returned(f, v)
      == Some(Left(f, Bare(LastText(f, v.members, Ref, []), LastText(f, v.members, Type, [])), v.members))
  {
    BuiltOnce(f, v);
    var r := Built(f, v)[0];
    assert View(r) == ApplyCalls(Bare(r.ref, r.typ), StreamCalls(f, v.members));
    hide Built, View, StreamCalls, ApplyCalls, LastText, Left;
    StreamLeft(f, v.members, Bare(r.ref, r.typ));
  }

  // ---- what the collecting reader and the generator gather ----

  lemma {:induction false} CollectLeft(f: NumberFormat, members: seq<Member>, s: Fields)
    ensures Collect(f, members, s)
      == Fields(LastText(f, members, Ref, s.ref), LastText(f, members, Type, s.typ),
                InsertFirst(f, s.attrs, PairsOf(members, Attr)), InsertFirst(f, s.styles, PairsOf(members, Style)),
                s.events + EventsOf(f, members), s.children + CollectedAll(f, members))
    decreases |members|
  {
    if members == [] {
      assert s.events + [] == s.events && s.children + [] == s.children;
    } else {
      var m, rest := members[0], members[1..];
      var s', one := CollectStep(f, m, s), [m];
      CollectOne(f, m, s);
      SplitParts(f, members);
      assert Collect(f, members, s) == Collect(f, rest, s');
      assert LastText(f, members, Ref, s.ref) == LastText(f, rest, Ref, s'.ref)
          && LastText(f, members, Type, s.typ) == LastText(f, rest, Type, s'.typ);
      hide *;
      CollectLeft(f, rest, s');
      FirstConcat(f, s.attrs, PairsOf(one, Attr), PairsOf(rest, Attr));
      FirstConcat(f, s.styles, PairsOf(one, Style), PairsOf(rest, Style));
      Assoc(s.events, EventsOf(f, one), EventsOf(f, rest));
      Assoc(s.children, CollectedAll(f, one), CollectedAll(f, rest));
    }
  }

  lemma CollectOne(f: NumberFormat, m: Member, s: Fields)
    ensures CollectStep(f, m, s)
      == Fields(if KindOf(m).Ref? then PlainText(f, m.value) else s.ref,
                if KindOf(m).Type? then PlainText(f, m.value) else s.typ,
                InsertFirst(f, s.attrs, PairsOf([m], Attr)), InsertFirst(f, s.styles, PairsOf([m], Style)),
                s.events + EventsOf(f, [m]), s.children + CollectedAll(f, [m]))
  {
    OneEntry(f, m);
    assert s.events + [] == s.events && s.children + [] == s.children;
    hide KindOf, PlainText, PairsOf, EventsOf, CollectedAll, EventNames, CollectedChildren, BuiltChildren, BuiltViews;
  }

  lemma {:induction false} OwnLeft(f: NumberFormat, members: seq<Member>, s: Own)
    ensures OwnFields(f, members, s)
      == Own(LastText(f, members, Ref, s.ref), LastText(f, members, Type, s.typ),
             InsertLast(f, s.attrs, PairsOf(members, Attr)), InsertLast(f, s.styles, PairsOf(members, Style)),
             s.events + AsSet(EventsOf(f, members)))
    decreases |members|
  {
    if members == [] {
      assert s.events + AsSet([]) == s.events;
    } else {
      var m, rest := members[0], members[1..];
      var s', one := OwnStep(f, m, s), [m];
      OwnOne(f, m, s);
      SplitParts(f, members);
      assert OwnFields(f, members, s) == OwnFields(f, rest, s');
      assert LastText(f, members, Ref, s.ref) == LastText(f, rest, Ref, s'.ref)
          && LastText(f, members, Type, s.typ) == LastText(f, rest, Type, s'.typ);
      hide *;
      OwnLeft(f, rest, s');
      LastConcat(f, s.attrs, PairsOf(one, Attr), PairsOf(rest, Attr));
      LastConcat(f, s.styles, PairsOf(one, Style), PairsOf(rest, Style));
      SetOfBoth(EventsOf(f, one), EventsOf(f, rest));
    }
  }

  lemma OwnOne(f: NumberFormat, m: Member, s: Own)
    ensures OwnStep(f, m, s)
      == Own(if KindOf(m).Ref? then PlainText(f, m.value) else s.ref,
             if KindOf(m).Type? then PlainText(f, m.value) else s.typ,
             InsertLast(f, s.attrs, PairsOf([m], Attr)), InsertLast(f, s.styles, PairsOf([m], Style)),
             s.events + AsSet(EventsOf(f, [m])))
  {
    OneEntry(f, m);
    assert s.events + AsSet([]) == s.events;
    hide KindOf, PlainText, PairsOf, EventsOf, CollectedAll, EventNames, CollectedChildren, BuiltChildren, BuiltViews;
  }

  // ---- names given more than once ----

  /** The first, and the last, text given to a name. */
  function FirstValue(f: NumberFormat, pairs: seq<Member>, name: Str): Option<Str> {
    if pairs == [] then None
    else if Text.Utf8(pairs[0].key) == name then Some(PlainText(f, pairs[0].value))
    else FirstValue(f, pairs[1..], name)
  }

  function LastValue(f: NumberFormat, pairs: seq<Member>, name: Str): Option<Str> {
    if pairs == [] then None
    else
      var later := LastValue(f, pairs[1..], name);
      if later.Some? then later
      else if Text.Utf8(pairs[0].key) == name then Some(PlainText(f, pairs[0].value))
      else None
  }

  function Lookup(m: map<Str, Str>, k: Str): Option<Str> { if k in m then Some(m[k]) else None }

  lemma {:induction false} FirstStays(f: NumberFormat, m: map<Str, Str>, pairs: seq<Member>, k: Str)
    ensures Lookup(InsertFirst(f, m, pairs), k) == if k in m then Some(m[k]) else FirstValue(f, pairs, k)
    decreases |pairs|
  {
    if pairs != [] {
      var name := Text.Utf8(pairs[0].key);
      FirstStays(f, if name in m then m else m[name := PlainText(f, pairs[0].value)], pairs[1..], k);
    }
  }

  lemma {:induction false} LastStays(f: NumberFormat, m: map<Str, Str>, pairs: seq<Member>, k: Str)
    ensures Lookup(InsertLast(f, m, pairs), k)
      == if LastValue(f, pairs, k).Some? then LastValue(f, pairs, k) else Lookup(m, k)
    decreases |pairs|
  {
    if pairs != [] {
      LastStays(f, m[Text.Utf8(pairs[0].key) := PlainText(f, pairs[0].value)], pairs[1..], k);
    }
  }

  /** Every name has the same text where it is given first and where it is given last. */
  predicate SameEnds(f: NumberFormat, pairs: seq<Member>) {
    forall i :: 0 <= i < |pairs| ==>
      FirstValue(f, pairs, Text.Utf8(pairs[i].key)) == LastValue(f, pairs, Text.Utf8(pairs[i].key))
  }

  lemma {:induction false} NoSuchName(f: NumberFormat, pairs: seq<Member>, k: Str)
    ensures FirstValue(f, pairs, k).Some? <==> LastValue(f, pairs, k).Some?
    ensures FirstValue(f, pairs, k).Some? <==> exists i :: 0 <= i < |pairs| && Text.Utf8(pairs[i].key) == k
    decreases |pairs|
  {
    if pairs != [] {
      var rest := pairs[1..];
      NoSuchName(f, rest, k);
      assert forall i :: 0 <= i < |rest| ==> rest[i] == pairs[i + 1];
      assert forall i :: 0 < i < |pairs| ==> pairs[i] == rest[i - 1];
    }
  }

  /** Keeping the first text of every name and keeping the last give the same map exactly when both texts are equal. */
  lemma FirstIsLast(f: NumberFormat, pairs: seq<Member>)
    ensures InsertFirst(f, map[], pairs) == InsertLast(f, map[], pairs) <==> SameEnds(f, pairs)
  {
    var first, last := InsertFirst(f, map[], pairs), InsertLast(f, map[], pairs);
    forall k ensures Lookup(first, k) == FirstValue(f, pairs, k) && Lookup(last, k) == LastValue(f, pairs, k) {
      FirstStays(f, map[], pairs, k);
      LastStays(f, map[], pairs, k);
    }
    hide InsertFirst, InsertLast, FirstValue, LastValue, Text.Utf8;
    if SameEnds(f, pairs) {
      forall k ensures Lookup(first, k) == Lookup(last, k) { NoSuchName(f, pairs, k); }
      assert forall k :: k in first ==> Lookup(first, k) == Lookup(last, k);
      assert forall k :: k in last ==> Lookup(first, k) == Lookup(last, k);
      assert first == last;
    }
    if first == last {
      forall i | 0 <= i < |pairs|
        ensures FirstValue(f, pairs, Text.Utf8(pairs[i].key)) == LastValue(f, pairs, Text.Utf8(pairs[i].key))
      {
        assert Lookup(first, Text.Utf8(pairs[i].key)) == Lookup(last, Text.Utf8(pairs[i].key));
      }
    }
  }
}
