/** Which keys mean what to the three readers of dom_wson.cpp, said by the characters of the keys. */
module DomKeys {
  import opened Words
  import opened Seqs
  import opened Values
  import opened JsonText
  import opened Dom
  import opened DomTree
  import opened DomTheorems
  import Text

  // ---- spelling ----

  function UpToZero(units: seq<u16>): seq<u16> {
    if units == [] || units[0] == 0 then [] else [units[0]] + UpToZero(units[1..])
  }

  /** The key is `name`, up to its first zero unit. */
  predicate Spelled(key: seq<u16>, name: string)
    requires forall i :: 0 <= i < |name| ==> name[i] < 128 as char
  {
    UpToZero(key) == Ascii(name)
  }

  lemma {:induction false} AsciiUtf8(units: seq<u16>)
    requires forall i :: 0 <= i < |units| ==> units[i] < 128
    ensures Text.Utf8(units) == units
    decreases |units|
  {
    if units != [] {
      assert forall i :: 0 <= i < |units[1..]| ==> units[1..][i] == units[i + 1];
      AsciiUtf8(units[1..]);
      assert units == [units[0]] + units[1..];
    }
  }

  lemma CStringPasses(bs: seq<u8>, t: Str)
    requires forall i :: 0 <= i < |bs| ==> bs[i] != 0
    ensures CString(bs + t) == bs + CString(t)
    decreases |bs|
  {
    if bs == [] {
      assert bs + t == t;
    } else {
      assert (bs + t)[0] == bs[0] && (bs + t)[1..] == bs[1..] + t;
      CStringPasses(bs[1..], t);
    }
  }

  lemma NoZeroInChar(cp: u32)
    requires 0 < cp < 0x20_0000
    ensures forall i :: 0 <= i < |Text.Char(cp)| ==> Text.Char(cp)[i] != 0
  {
  }

  lemma UpToZeroPairs(units: seq<u16>)
    requires units != [] && units[0] != 0
    ensures UpToZero(units)[1..] == UpToZero(units[1..]) && UpToZero(units)[0] == units[0]
    ensures Text.PairAhead(UpToZero(units)) == Text.PairAhead(units)
    ensures Text.PairAhead(units) ==> UpToZero(units)[2..] == UpToZero(units[2..])
  {
    if |units| >= 2 { assert units[1..][1..] == units[2..]; }
  }

  /** Cutting the UTF-8 form at its first zero byte is cutting the units at the first zero. */
  lemma {:induction false} CStringOfUtf8(units: seq<u16>)
    ensures CString(Text.Utf8(units)) == Text.Utf8(UpToZero(units))
    decreases |units|
  {
    if units != [] {
      if units[0] == 0 {
        assert Text.Utf8(units)[0] == 0;
      } else {
        var n := if Text.PairAhead(units) then 2 else 1;
        var cp := if n == 2 then Text.ToCodePoint(units[0], units[1]) else units[0];
        if n == 2 { Text.CodePointOfPair(units[0], units[1]); }
        UpToZeroPairs(units);
        assert Text.Utf8(units) == Text.Char(cp) + Text.Utf8(units[n..]);
        assert Text.Utf8(UpToZero(units)) == Text.Char(cp) + Text.Utf8(UpToZero(units[n..]));
        hide Text.Utf8, Text.Char, UpToZero, CString, Text.ToCodePoint;
        NoZeroInChar(cp);
        CStringPasses(Text.Char(cp), Text.Utf8(units[n..]));
        CStringOfUtf8(units[n..]);
      }
    }
  }

  /** The readers' comparison of a key with a name is a comparison of characters. */
  lemma ComparesSpelling(key: seq<u16>, name: string)
    requires forall i :: 0 <= i < |name| ==> name[i] < 128 as char
    ensures CString(Text.Utf8(key)) == Ascii(name) <==> Spelled(key, name)
  {
    CStringOfUtf8(key);
    AsciiUtf8(Ascii(name));
    hide CString, Text.Utf8, UpToZero;
    if Text.Utf8(UpToZero(key)) == Ascii(name) { Text.Utf8Injective(UpToZero(key), Ascii(name)); }
  }

  /** The six names, and nothing else, mean something. */
  lemma KeysMean(m: Member)
    ensures KindOf(m).Ref? <==> Spelled(m.key, "ref")
    ensures KindOf(m).Type? <==> Spelled(m.key, "type")
    ensures KindOf(m).Attr? <==> Spelled(m.key, "attr")
    ensures KindOf(m).Style? <==> Spelled(m.key, "style")
    ensures KindOf(m).Event? <==> Spelled(m.key, "event")
    ensures KindOf(m).Children? <==> Spelled(m.key, "children")
  {
    var ref, typ, attr, style, event, children := "ref", "type", "attr", "style", "event", "children";
    SixNames();
    ComparesSpelling(m.key, ref);
    ComparesSpelling(m.key, typ);
    ComparesSpelling(m.key, attr);
    ComparesSpelling(m.key, style);
    ComparesSpelling(m.key, event);
    ComparesSpelling(m.key, children);
    hide Spelled, CString, Text.Utf8, Ascii;
  }

  lemma SixNames()
    ensures Ascii("ref") == REF && Ascii("type") == TYPE && Ascii("attr") == ATTR
    ensures Ascii("style") == STYLE && Ascii("event") == EVENT && Ascii("children") == CHILDREN
    ensures REF != TYPE && REF != ATTR && REF != STYLE && REF != EVENT && REF != CHILDREN
    ensures TYPE != ATTR && TYPE != STYLE && TYPE != EVENT && TYPE != CHILDREN
    ensures ATTR != STYLE && ATTR != EVENT && ATTR != CHILDREN
    ensures STYLE != EVENT && STYLE != CHILDREN && EVENT != CHILDREN
  {
    assert REF[0] != TYPE[0] && REF[0] != ATTR[0] && REF[0] != STYLE[0] && REF[0] != EVENT[0] && REF[0] != CHILDREN[0];
    assert TYPE[0] != ATTR[0] && TYPE[0] != STYLE[0] && TYPE[0] != EVENT[0] && TYPE[0] != CHILDREN[0];
    assert ATTR[0] != STYLE[0] && ATTR[0] != EVENT[0] && ATTR[0] != CHILDREN[0];
    assert STYLE[0] != EVENT[0] && STYLE[0] != CHILDREN[0] && EVENT[0] != CHILDREN[0];
  }

  // ---- the entries under a name ----

  function NameOf(kind: Kind): string
    requires !kind.Other?
  {
    match kind
    case Ref => "ref"
    case Type => "type"
    case Attr => "attr"
    case Style => "style"
    case Event => "event"
    case Children => "children"
  }

  predicate IsName(name: string) { forall i :: 0 <= i < |name| ==> name[i] < 128 as char }

  lemma NamesAreAscii(kind: Kind)
    requires !kind.Other?
    ensures IsName(NameOf(kind))
  {
  }

  /** The values under a name, in stream order. */
  function Under(members: seq<Member>, name: string): seq<Value>
    requires IsName(name)
  {
    if members == [] then []
    else (if Spelled(members[0].key, name) then [members[0].value] else []) + Under(members[1..], name)
  }

  /** The text of the last value. */
  function LastPlain(f: NumberFormat, vs: seq<Value>): Str {
    if vs == [] then [] else PlainText(f, vs[|vs| - 1])
  }

  /** The members of all maps, and the elements of all arrays, among the values. */
  function AllPairs(vs: seq<Value>): seq<Member> {
    if vs == [] then [] else (if vs[0].Obj? then vs[0].members else []) + AllPairs(vs[1..])
  }

  function AllItems(vs: seq<Value>): seq<Value> {
    if vs == [] then [] else (if vs[0].Arr? then vs[0].items else []) + AllItems(vs[1..])
  }

  lemma UnderStep(members: seq<Member>, kind: Kind)
    requires members != [] && !kind.Other? && IsName(NameOf(kind))
    ensures Under(members, NameOf(kind))
      == (if KindOf(members[0]) == kind then [members[0].value] else []) + Under(members[1..], NameOf(kind))
  {
    KeysMean(members[0]);
    hide Spelled, KindOf;
  }

  lemma {:induction false} CountUnder(members: seq<Member>, kind: Kind)
    requires !kind.Other? && IsName(NameOf(kind))
    ensures Count(members, kind) == |Under(members, NameOf(kind))|
    decreases |members|
  {
    if members != [] {
      UnderStep(members, kind);
      hide KindOf, Under;
      CountUnder(members[1..], kind);
    }
  }

  lemma {:induction false} LastUnder(f: NumberFormat, members: seq<Member>, kind: Kind, before: Str)
    requires !kind.Other? && IsName(NameOf(kind))
    ensures LastText(f, members, kind, before)
      == if Under(members, NameOf(kind)) == [] then before else LastPlain(f, Under(members, NameOf(kind)))
    decreases |members|
  {
    if members != [] {
      var m, rest := members[0], members[1..];
      UnderStep(members, kind);
      hide KindOf, PlainText, Under;
      LastUnder(f, rest, kind, if KindOf(m) == kind then PlainText(f, m.value) else before);
    }
  }

  lemma FirstAll(v: Value, vs: seq<Value>)
    ensures AllPairs([v] + vs) == (if v.Obj? then v.members else []) + AllPairs(vs)
    ensures AllItems([v] + vs) == (if v.Arr? then v.items else []) + AllItems(vs)
  {
    assert ([v] + vs)[1..] == vs;
  }

  lemma {:induction false} PairsUnder(members: seq<Member>, kind: Kind)
    requires !kind.Other? && IsName(NameOf(kind))
    ensures PairsOf(members, kind) == AllPairs(Under(members, NameOf(kind)))
    decreases |members|
  {
    if members != [] {
      var v, more := members[0].value, Under(members[1..], NameOf(kind));
      UnderStep(members, kind);
      PairsUnder(members[1..], kind);
      FirstAll(v, more);
      hide KindOf, Under, AllPairs;
      assert [] + more == more;
    }
  }

  lemma {:induction false} NamesConcat(f: NumberFormat, a: seq<Value>, b: seq<Value>)
    ensures EventNames(f, a + b) == EventNames(f, a) + EventNames(f, b)
    decreases |a|
  {
    if a == [] {
      assert a + b == b;
    } else {
      assert (a + b)[1..] == a[1..] + b && (a + b)[0] == a[0];
      hide PlainText;
      NamesConcat(f, a[1..], b);
    }
  }

  lemma {:induction false} ViewsConcat(f: NumberFormat, a: seq<Value>, b: seq<Value>)
    ensures BuiltViews(f, a + b) == BuiltViews(f, a) + BuiltViews(f, b)
    decreases |a|
  {
    if a == [] {
      assert a + b == b;
    } else {
      assert (a + b)[1..] == a[1..] + b && (a + b)[0] == a[0];
      hide Returned;
      ViewsConcat(f, a[1..], b);
      Assoc(match Returned(f, a[0]) case None => [] case Some(n) => [n], BuiltViews(f, a[1..]), BuiltViews(f, b));
    }
  }

  lemma {:induction false} CollectedConcat(f: NumberFormat, a: seq<Value>, b: seq<Value>)
    ensures CollectedChildren(f, a + b) == CollectedChildren(f, a) + CollectedChildren(f, b)
    decreases |a|
  {
    if a == [] {
      assert a + b == b;
    } else {
      assert (a + b)[1..] == a[1..] + b && (a + b)[0] == a[0];
      hide Collected;
      CollectedConcat(f, a[1..], b);
      if Collected(f, a[0]).Some? {
        Assoc([Collected(f, a[0]).value], CollectedChildren(f, a[1..]), CollectedChildren(f, b));
      }
    }
  }

  lemma {:induction false} EventsUnder(f: NumberFormat, members: seq<Member>)
    ensures EventsOf(f, members) == EventNames(f, AllItems(Under(members, "event")))
    decreases |members|
  {
    if members != [] {
      var v, more := members[0].value, Under(members[1..], "event");
      UnderStep(members, Event);
      EventsUnder(f, members[1..]);
      FirstAll(v, more);
      if v.Arr? { NamesConcat(f, v.items, AllItems(more)); }
      hide KindOf, Under, EventNames;
      assert [] + more == more && [] + AllItems(more) == AllItems(more);
    }
  }

  lemma {:induction false} ChildrenUnder(f: NumberFormat, members: seq<Member>)
    ensures BuiltChildren(f, members) == BuiltViews(f, AllItems(Under(members, "children")))
    ensures CollectedAll(f, members) == CollectedChildren(f, AllItems(Under(members, "children")))
    decreases |members|
  {
    if members != [] {
      var v, more := members[0].value, Under(members[1..], "children");
      UnderStep(members, Children);
      ChildrenUnder(f, members[1..]);
      FirstAll(v, more);
      if v.Arr? {
        ViewsConcat(f, v.items, AllItems(more));
        CollectedConcat(f, v.items, AllItems(more));
      }
      hide KindOf, Under, BuiltViews, CollectedChildren;
      assert [] + more == more && [] + AllItems(more) == AllItems(more);
    }
  }

  /** `e` is the text, not empty, of one of the values. */
  predicate TextAmong(f: NumberFormat, e: Str, vs: seq<Value>) {
    e != [] && exists i :: 0 <= i < |vs| && PlainText(f, vs[i]) == e
  }

  lemma {:induction false} NamesAmong(f: NumberFormat, e: Str, items: seq<Value>)
    ensures e in AsSet(EventNames(f, items)) <==> TextAmong(f, e, items)
    decreases |items|
  {
    if items != [] {
      var rest := items[1..];
      NamesAmong(f, e, rest);
      hide PlainText;
      assert forall i :: 0 <= i < |rest| ==> rest[i] == items[i + 1];
      assert forall i :: 0 < i < |items| ==> items[i] == rest[i - 1];
      assert TextAmong(f, e, items) <==> (e != [] && PlainText(f, items[0]) == e) || TextAmong(f, e, rest);
    }
  }

  // ---- what the trees and the callbacks carry ----

  /** The reference and type of a node, its events, and the texts of its attributes and styles by name. */
  ghost predicate Carries(f: NumberFormat, members: seq<Member>, ref: Str, typ: Str, events: set<Str>) {
    && ref == LastPlain(f, Under(members, "ref")) && typ == LastPlain(f, Under(members, "type"))
    && forall e: Str :: e in events <==> TextAmong(f, e, AllItems(Under(members, "event")))
  }

  ghost predicate LastTexts(f: NumberFormat, members: seq<Member>, attrs: map<Str, Str>, styles: map<Str, Str>) {
    && (forall k :: Lookup(attrs, k) == LastValue(f, AllPairs(Under(members, "attr")), k))
    && (forall k :: Lookup(styles, k) == LastValue(f, AllPairs(Under(members, "style")), k))
  }

  ghost predicate FirstTexts(f: NumberFormat, members: seq<Member>, attrs: map<Str, Str>, styles: map<Str, Str>) {
    && (forall k :: Lookup(attrs, k) == FirstValue(f, AllPairs(Under(members, "attr")), k))
    && (forall k :: Lookup(styles, k) == FirstValue(f, AllPairs(Under(members, "style")), k))
  }

  lemma CarriedFields(f: NumberFormat, members: seq<Member>)
    ensures Carries(f, members, LastText(f, members, Ref, []), LastText(f, members, Type, []),
                    AsSet(EventsOf(f, members)))
  {
    LastUnder(f, members, Ref, []);
    LastUnder(f, members, Type, []);
    EventsUnder(f, members);
    hide Under, LastText, EventsOf, EventNames, AllItems;
    forall e: Str
      ensures e in AsSet(EventsOf(f, members)) <==> TextAmong(f, e, AllItems(Under(members, "event")))
    {
      NamesAmong(f, e, AllItems(Under(members, "event")));
    }
  }

  lemma CarriedTexts(f: NumberFormat, members: seq<Member>)
    ensures var a, s := PairsOf(members, Attr), PairsOf(members, Style);
      && LastTexts(f, members, InsertLast(f, map[], a), InsertLast(f, map[], s))
      && FirstTexts(f, members, InsertFirst(f, map[], a), InsertFirst(f, map[], s))
  {
    PairsUnder(members, Attr);
    PairsUnder(members, Style);
    var a, s := PairsOf(members, Attr), PairsOf(members, Style);
    hide PairsOf, AllPairs, Under, InsertLast, InsertFirst, LastValue, FirstValue, Lookup;
    forall k
      ensures Lookup(InsertLast(f, map[], a), k) == LastValue(f, a, k)
      ensures Lookup(InsertLast(f, map[], s), k) == LastValue(f, s, k)
      ensures Lookup(InsertFirst(f, map[], a), k) == FirstValue(f, a, k)
      ensures Lookup(InsertFirst(f, map[], s), k) == FirstValue(f, s, k)
    {
      LastStays(f, map[], a, k);
      LastStays(f, map[], s, k);
      FirstStays(f, map[], a, k);
      FirstStays(f, map[], s, k);
      NothingThere(f, a, s, k);
    }
  }

  lemma NothingThere(f: NumberFormat, a: seq<Member>, s: seq<Member>, k: Str)
    ensures Lookup(map[], k) == None
  {
  }

  lemma BuiltFields(f: NumberFormat, v: Value)
    requires OnceEach(v) && !Dropped(v)
    ensures Returned(f, v).Some?
    ensures var n := Returned(f, v).value;
      && n.ref == LastText(f, v.members, Ref, []) && n.typ == LastText(f, v.members, Type, [])
      && n.attrs == InsertLast(f, map[], PairsOf(v.members, Attr))
      && n.styles == InsertLast(f, map[], PairsOf(v.members, Style))
      && n.events == AsSet(EventsOf(f, v.members)) && n.children == BuiltChildren(f, v.members)
  {
    BuiltParts(f, v);
    assert {} + AsSet(EventsOf(f, v.members)) == AsSet(EventsOf(f, v.members));
    assert [] + BuiltChildren(f, v.members) == BuiltChildren(f, v.members);
    hide Returned, LastText, EventsOf, PairsOf, BuiltChildren, InsertLast, AsSet, OnceEach;
  }

  /**
   * The tree of the one-pass builder, in every order of the keys: there is one exactly when some key is spelled "type";
   * it carries the text of the last value under "type" as type and under "ref" as reference, the last text of every
   * name in the maps under "attr" and under "style", the texts in the arrays under "event" that are not empty, and the
   * trees of the values in the arrays under "children", in order.
   */
  lemma BuilderReadsNames(f: NumberFormat, v: Value)
    requires OnceEach(v) && v.Obj?
    ensures Returned(f, v).Some? <==> Under(v.members, "type") != []
    ensures Returned(f, v).Some? ==>
      var n := Returned(f, v).value;
      && Carries(f, v.members, n.ref, n.typ, n.events) && LastTexts(f, v.members, n.attrs, n.styles)
      && n.children == BuiltViews(f, AllItems(Under(v.members, "children")))
  {
    assert Dropped(v) <==> Count(v.members, Type) == 0;
    assert Built(f, v) == [] <==> Returned(f, v).None?;
    hide *;
    MadeAtMostOnce(f, v);
    CountUnder(v.members, Type);
    if !Dropped(v) {
      BuiltFields(f, v);
      CarriedFields(f, v.members);
      CarriedTexts(f, v.members);
      ChildrenUnder(f, v.members);
    }
  }

  /** The tree of the collecting reader: the same, but for the first text of every name. */
  lemma CollectorReadsNames(f: NumberFormat, v: Value)
    requires v.Obj?
    ensures Collected(f, v).Some?
    ensures var n := Collected(f, v).value;
      && Carries(f, v.members, n.ref, n.typ, n.events) && FirstTexts(f, v.members, n.attrs, n.styles)
      && n.children == CollectedChildren(f, AllItems(Under(v.members, "children")))
  {
    CollectLeft(f, v.members, NO_FIELDS);
    CarriedFields(f, v.members);
    CarriedTexts(f, v.members);
    ChildrenUnder(f, v.members);
    assert [] + EventsOf(f, v.members) == EventsOf(f, v.members);
    assert [] + CollectedAll(f, v.members) == CollectedAll(f, v.members);
    hide Collect, Carries, LastTexts, FirstTexts, Under, LastText, EventsOf, PairsOf, CollectedAll, InsertFirst, AsSet;
  }

  /** The callback of an object: there is one exactly when type and reference are not empty, and it carries the same. */
  lemma GeneratorReadsNames(f: NumberFormat, v: Value, parentRef: Str, index: int)
    requires v.Obj?
    ensures var p := Preorder(f, v, parentRef, index);
      && (p != [] <==> LastPlain(f, Under(v.members, "type")) != [] && LastPlain(f, Under(v.members, "ref")) != [])
      && (p != [] ==>
            && Carries(f, v.members, p[0].ref, p[0].typ, p[0].events)
            && LastTexts(f, v.members, p[0].attrs, p[0].styles)
            && p[0].parentRef == parentRef && p[0].index == index)
  {
    OwnLeft(f, v.members, NO_OWN);
    CarriedFields(f, v.members);
    CarriedTexts(f, v.members);
    assert {} + AsSet(EventsOf(f, v.members)) == AsSet(EventsOf(f, v.members));
    var own := OwnFields(f, v.members, NO_OWN);
    assert Carries(f, v.members, own.ref, own.typ, own.events) && LastTexts(f, v.members, own.attrs, own.styles);
    hide OwnFields, LastTexts, FirstTexts, Under, LastText, EventsOf, PairsOf, InsertLast, AsSet, PreorderMembers;
    hide TextAmong;
  }
}
