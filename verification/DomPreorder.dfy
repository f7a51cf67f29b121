/**
 * What the generator's callbacks are: the nodes of a document, filtered; and when they are the preorder of the tree the
 * one-pass builder makes.
 */
module DomPreorder {
  import opened Seqs
  import opened Values
  import opened JsonText
  import opened Dom
  import opened DomTree
  import opened DomTheorems

  // ---- every object of a document ----

  /** An object somewhere in a document: its own fields, those of its ancestors from the root on, and its index. */
  datatype Site = Site(own: Own, ancestors: seq<Own>, index: int)

  /** All objects in document order, named or not, with nothing left out below the ones that are not. */
  function Sites(f: NumberFormat, v: Value, ancestors: seq<Own>, index: int): seq<Site>
    decreases v, 2
  {
    if !v.Obj? then []
    else
      var own := OwnFields(f, v.members, NO_OWN);
      [Site(own, ancestors, index)] + SitesOfMembers(f, v.members, ancestors + [own])
  }

  function SitesOfMembers(f: NumberFormat, members: seq<Member>, ancestors: seq<Own>): seq<Site>
    decreases members, 1
  {
    if members == [] then []
    else if KindOf(members[0]).Children? && members[0].value.Arr? then
      SitesOfItems(f, members[0].value.items, ancestors, 0) + SitesOfMembers(f, members[1..], ancestors)
    else SitesOfMembers(f, members[1..], ancestors)
  }

  function SitesOfItems(f: NumberFormat, items: seq<Value>, ancestors: seq<Own>, index: nat): seq<Site>
    decreases items, 0
  {
    if items == [] then []
    else Sites(f, items[0], ancestors, index) + SitesOfItems(f, items[1..], ancestors, index + 1)
  }

  /** A type and a reference, and the same for all ancestors. */
  predicate Wanted(s: Site) { Named(s.own) && AllNamed(s.ancestors) }

  predicate AllNamed(ancestors: seq<Own>) { forall i :: 0 <= i < |ancestors| ==> Named(ancestors[i]) }

  /** The reference of the nearest ancestor. */
  function ParentRef(ancestors: seq<Own>, rootRef: Str): Str {
    if ancestors == [] then rootRef else ancestors[|ancestors| - 1].ref
  }

  function Callback(s: Site, rootRef: Str): Generated {
    Generated(s.own.ref, s.own.typ, ParentRef(s.ancestors, rootRef), s.own.styles, s.own.attrs, s.own.events, s.index)
  }

  /** One callback for each wanted site, in order. */
  function Callbacks(sites: seq<Site>, rootRef: Str): seq<Generated> {
    if sites == [] then []
    else (if Wanted(sites[0]) then [Callback(sites[0], rootRef)] else []) + Callbacks(sites[1..], rootRef)
  }

  lemma {:induction false} CallbacksConcat(a: seq<Site>, b: seq<Site>, rootRef: Str)
    ensures Callbacks(a + b, rootRef) == Callbacks(a, rootRef) + Callbacks(b, rootRef)
    decreases |a|
  {
    if a == [] {
      assert a + b == b;
    } else {
      assert (a + b)[1..] == a[1..] + b && (a + b)[0] == a[0];
      hide Wanted, Callback;
      CallbacksConcat(a[1..], b, rootRef);
      Assoc(if Wanted(a[0]) then [Callback(a[0], rootRef)] else [], Callbacks(a[1..], rootRef), Callbacks(b, rootRef));
    }
  }

  lemma NamedBelow(ancestors: seq<Own>, own: Own)
    ensures AllNamed(ancestors + [own]) <==> AllNamed(ancestors) && Named(own)
  {
    if AllNamed(ancestors + [own]) {
      assert forall i :: 0 <= i < |ancestors| ==> (ancestors + [own])[i] == ancestors[i];
      assert (ancestors + [own])[|ancestors|] == own;
    }
  }

  lemma OneSite(s: Site, rootRef: Str)
    ensures Callbacks([s], rootRef) == if Wanted(s) then [Callback(s, rootRef)] else []
  {
    assert [s][1..] == [];
  }

  // ---- below an ancestor without type or reference ----

  lemma {:induction false} SitesUnwanted(f: NumberFormat, v: Value, ancestors: seq<Own>, rootRef: Str, index: int)
    requires !AllNamed(ancestors)
    ensures Callbacks(Sites(f, v, ancestors, index), rootRef) == []
    decreases v, 2
  {
    if v.Obj? {
      var own := OwnFields(f, v.members, NO_OWN);
      var site, below := Site(own, ancestors, index), SitesOfMembers(f, v.members, ancestors + [own]);
      assert Sites(f, v, ancestors, index) == [site] + below;
      hide OwnFields, SitesOfMembers, Sites, AllNamed, Callbacks;
      CallbacksConcat([site], below, rootRef);
      OneSite(site, rootRef);
      NamedBelow(ancestors, own);
      MembersUnwanted(f, v.members, ancestors + [own], rootRef);
    }
  }

  lemma {:induction false} MembersUnwanted(f: NumberFormat, members: seq<Member>, ancestors: seq<Own>, rootRef: Str)
    requires !AllNamed(ancestors)
    ensures Callbacks(SitesOfMembers(f, members, ancestors), rootRef) == []
    decreases members, 1
  {
    if members != [] {
      var m, rest := members[0], members[1..];
      MembersUnwanted(f, rest, ancestors, rootRef);
      if KindOf(m).Children? && m.value.Arr? {
        hide KindOf, AllNamed, Callbacks, SitesOfItems;
        ItemsUnwanted(f, m.value.items, ancestors, rootRef, 0);
        CallbacksConcat(SitesOfItems(f, m.value.items, ancestors, 0), SitesOfMembers(f, rest, ancestors), rootRef);
      }
    }
  }

  lemma {:induction false} ItemsUnwanted(
    f: NumberFormat, items: seq<Value>, ancestors: seq<Own>, rootRef: Str, index: nat)
    requires !AllNamed(ancestors)
    ensures Callbacks(SitesOfItems(f, items, ancestors, index), rootRef) == []
    decreases items, 0
  {
    if items != [] {
      hide AllNamed, Sites;
      SitesUnwanted(f, items[0], ancestors, rootRef, index);
      ItemsUnwanted(f, items[1..], ancestors, rootRef, index + 1);
      CallbacksConcat(Sites(f, items[0], ancestors, index), SitesOfItems(f, items[1..], ancestors, index + 1), rootRef);
    }
  }

  // ---- what the generator cuts off ----

  /**
   * In every object that is opened, itself below opened ones, no children array behind a `children` that is no array
   * directly holds an object with a type and a reference.
   */
  predicate NothingCut(f: NumberFormat, v: Value)
    decreases v, 2
  {
    Opened(f, v) ==> MembersUncut(f, v.members)
  }

  predicate MembersUncut(f: NumberFormat, members: seq<Member>)
    decreases members, 1
  {
    members != [] ==>
      if !KindOf(members[0]).Children? then MembersUncut(f, members[1..])
      else if members[0].value.Arr? then ItemsUncut(f, members[0].value.items) && MembersUncut(f, members[1..])
      else NothingBehind(f, members[1..])
  }

  predicate ItemsUncut(f: NumberFormat, items: seq<Value>)
    decreases items, 0
  {
    items != [] ==> NothingCut(f, items[0]) && ItemsUncut(f, items[1..])
  }

  predicate NothingBehind(f: NumberFormat, members: seq<Member>) {
    members != [] ==>
      && (KindOf(members[0]).Children? && members[0].value.Arr? ==> NoneOpened(f, members[0].value.items))
      && NothingBehind(f, members[1..])
  }

  predicate NoneOpened(f: NumberFormat, items: seq<Value>) {
    items != [] ==> !Opened(f, items[0]) && NoneOpened(f, items[1..])
  }

  /** Below named ancestors an object is silent, with everything below it, exactly when it is not opened. */
  lemma SilentSite(f: NumberFormat, v: Value, ancestors: seq<Own>, rootRef: Str, index: int)
    requires AllNamed(ancestors)
    ensures Callbacks(Sites(f, v, ancestors, index), rootRef) == [] <==> !Opened(f, v)
  {
    if v.Obj? {
      var own := OwnFields(f, v.members, NO_OWN);
      var site, below := Site(own, ancestors, index), SitesOfMembers(f, v.members, ancestors + [own]);
      assert Sites(f, v, ancestors, index) == [site] + below;
      hide OwnFields, SitesOfMembers, Sites, AllNamed, Callbacks, Named;
      CallbacksConcat([site], below, rootRef);
      OneSite(site, rootRef);
      NamedBelow(ancestors, own);
      if !Named(own) { MembersUnwanted(f, v.members, ancestors + [own], rootRef); }
    }
  }

  lemma {:induction false} SilentItems(
    f: NumberFormat, items: seq<Value>, ancestors: seq<Own>, rootRef: Str, index: nat)
    requires AllNamed(ancestors)
    ensures Callbacks(SitesOfItems(f, items, ancestors, index), rootRef) == [] <==> NoneOpened(f, items)
    decreases |items|
  {
    if items != [] {
      hide AllNamed, Sites, Opened;
      SilentSite(f, items[0], ancestors, rootRef, index);
      SilentItems(f, items[1..], ancestors, rootRef, index + 1);
      CallbacksConcat(Sites(f, items[0], ancestors, index), SitesOfItems(f, items[1..], ancestors, index + 1), rootRef);
    }
  }

  lemma {:induction false} SilentMembers(f: NumberFormat, members: seq<Member>, ancestors: seq<Own>, rootRef: Str)
    requires AllNamed(ancestors)
    ensures Callbacks(SitesOfMembers(f, members, ancestors), rootRef) == [] <==> NothingBehind(f, members)
    decreases |members|
  {
    if members != [] {
      var m, rest := members[0], members[1..];
      SilentMembers(f, rest, ancestors, rootRef);
      if KindOf(m).Children? && m.value.Arr? {
        hide KindOf, AllNamed, Callbacks, SitesOfItems, NoneOpened;
        SilentItems(f, m.value.items, ancestors, rootRef, 0);
        CallbacksConcat(SitesOfItems(f, m.value.items, ancestors, 0), SitesOfMembers(f, rest, ancestors), rootRef);
      }
    }
  }

  // ---- below named ancestors the generator calls back for what it does not cut off ----

  /** The first list is what is left of the second when some of it is taken out. */
  predicate PartOf(a: seq<Generated>, b: seq<Generated>) {
    a == [] || (b != [] && ((a[0] == b[0] && PartOf(a[1..], b[1..])) || PartOf(a, b[1..])))
  }

  lemma {:induction false} PartOfBoth(a: seq<Generated>, b: seq<Generated>, c: seq<Generated>, d: seq<Generated>)
    requires PartOf(a, c) && PartOf(b, d)
    ensures PartOf(a + b, c + d)
    decreases |c|
  {
    if c == [] {
      assert a + b == b && c + d == d;
    } else {
      assert (c + d)[0] == c[0] && (c + d)[1..] == c[1..] + d;
      if a == [] {
        PartOfBoth(a, b, c[1..], d);
      } else {
        assert (a + b)[0] == a[0] && (a + b)[1..] == a[1..] + b;
        if a[0] == c[0] && PartOf(a[1..], c[1..]) {
          PartOfBoth(a[1..], b, c[1..], d);
        } else {
          PartOfBoth(a, b, c[1..], d);
        }
      }
    }
  }

  lemma {:induction false} PartOfSelf(a: seq<Generated>)
    ensures PartOf(a, a)
    decreases |a|
  {
    if a != [] { PartOfSelf(a[1..]); }
  }

  /** The first list is a part of the second, and all of it exactly under the condition. */
  predicate Follows(a: seq<Generated>, b: seq<Generated>, exactly: bool) {
    PartOf(a, b) && |a| <= |b| && (a == b <==> exactly)
  }

  lemma FollowsConcat(
    a: seq<Generated>, b: seq<Generated>, c: seq<Generated>, d: seq<Generated>, first: bool, second: bool)
    requires Follows(a, c, first) && Follows(b, d, second)
    ensures Follows(a + b, c + d, first && second)
  {
    BothHalves(a, b, c, d);
    PartOfBoth(a, b, c, d);
    hide PartOf;
  }

  lemma {:induction false} SitesCalled(f: NumberFormat, v: Value, ancestors: seq<Own>, rootRef: Str, index: int)
    requires AllNamed(ancestors)
    ensures Follows(Preorder(f, v, ParentRef(ancestors, rootRef), index),
                    Callbacks(Sites(f, v, ancestors, index), rootRef), NothingCut(f, v))
    decreases v, 2
  {
    if v.Obj? {
      var own := OwnFields(f, v.members, NO_OWN);
      var site, below := Site(own, ancestors, index), SitesOfMembers(f, v.members, ancestors + [own]);
      assert Sites(f, v, ancestors, index) == [site] + below;
      assert NothingCut(f, v) <==> (Named(own) ==> MembersUncut(f, v.members));
      hide OwnFields, SitesOfMembers, Sites, AllNamed, Callbacks, PreorderMembers, Named, NothingCut, MembersUncut;
      hide Follows;
      CallbacksConcat([site], below, rootRef);
      OneSite(site, rootRef);
      NamedBelow(ancestors, own);
      if Named(own) {
        MembersCalled(f, v.members, ancestors + [own], rootRef);
        FollowsSelf([Callback(site, rootRef)]);
        FollowsConcat([Callback(site, rootRef)], PreorderMembers(f, v.members, own.ref),
                      [Callback(site, rootRef)], Callbacks(below, rootRef), true, MembersUncut(f, v.members));
      } else {
        MembersUnwanted(f, v.members, ancestors + [own], rootRef);
        FollowsSelf([]);
      }
    } else {
      NoSites(rootRef);
    }
  }

  lemma FollowsSelf(a: seq<Generated>)
    ensures Follows(a, a, true)
  {
    PartOfSelf(a);
  }

  lemma {:induction false} MembersCalled(f: NumberFormat, members: seq<Member>, ancestors: seq<Own>, rootRef: Str)
    requires ancestors != [] && AllNamed(ancestors)
    ensures Follows(PreorderMembers(f, members, ParentRef(ancestors, rootRef)),
                    Callbacks(SitesOfMembers(f, members, ancestors), rootRef), MembersUncut(f, members))
    decreases members, 1
  {
    if members != [] {
      var m, rest, ref := members[0], members[1..], ParentRef(ancestors, rootRef);
      hide KindOf, AllNamed, Callbacks, SitesOfItems, PreorderItems, ItemsUncut, NothingBehind, Follows;
      if !KindOf(m).Children? {
        MembersCalled(f, rest, ancestors, rootRef);
      } else if m.value.Arr? {
        var first, more := SitesOfItems(f, m.value.items, ancestors, 0), SitesOfMembers(f, rest, ancestors);
        ItemsCalled(f, m.value.items, ancestors, rootRef, 0);
        MembersCalled(f, rest, ancestors, rootRef);
        CallbacksConcat(first, more, rootRef);
        FollowsConcat(PreorderItems(f, m.value.items, ref, 0), PreorderMembers(f, rest, ref),
                      Callbacks(first, rootRef), Callbacks(more, rootRef),
                      ItemsUncut(f, m.value.items), MembersUncut(f, rest));
      } else {
        SilentMembers(f, rest, ancestors, rootRef);
        NothingFollows(Callbacks(SitesOfMembers(f, rest, ancestors), rootRef));
      }
    } else {
      NoSites(rootRef);
      FollowsSelf([]);
    }
  }

  lemma NothingFollows(b: seq<Generated>)
    ensures Follows([], b, b == [])
  {
  }

  lemma {:induction false} ItemsCalled(
    f: NumberFormat, items: seq<Value>, ancestors: seq<Own>, rootRef: Str, index: nat)
    requires AllNamed(ancestors)
    ensures Follows(PreorderItems(f, items, ParentRef(ancestors, rootRef), index),
                    Callbacks(SitesOfItems(f, items, ancestors, index), rootRef), ItemsUncut(f, items))
    decreases items, 0
  {
    if items != [] {
      var first, more := Sites(f, items[0], ancestors, index), SitesOfItems(f, items[1..], ancestors, index + 1);
      var ref := ParentRef(ancestors, rootRef);
      assert SitesOfItems(f, items, ancestors, index) == first + more;
      hide AllNamed, Callbacks, Sites, Preorder, NothingCut, Follows;
      SitesCalled(f, items[0], ancestors, rootRef, index);
      ItemsCalled(f, items[1..], ancestors, rootRef, index + 1);
      CallbacksConcat(first, more, rootRef);
      FollowsConcat(Preorder(f, items[0], ref, index), PreorderItems(f, items[1..], ref, index + 1),
                    Callbacks(first, rootRef), Callbacks(more, rootRef),
                    NothingCut(f, items[0]), ItemsUncut(f, items[1..]));
    } else {
      NoSites(rootRef);
      FollowsSelf([]);
    }
  }

  /**
   * The callbacks are the objects of the document in order, once each, that have a type and a reference and whose
   * ancestors all do, each with its parent's reference and its index in its children array, exactly when nothing is cut
   * off behind a `children` that is no array; otherwise some are missing and none is added.
   */
  lemma GeneratorFollowsDocument(f: NumberFormat, v: Value, rootRef: Str, index: int)
    ensures Preorder(f, v, rootRef, index) == Callbacks(Sites(f, v, [], index), rootRef) <==> NothingCut(f, v)
    ensures PartOf(Preorder(f, v, rootRef, index), Callbacks(Sites(f, v, [], index), rootRef))
  {
    SitesCalled(f, v, [], rootRef, index);
  }

  /** No `children` entry is followed by another one, as when keys are unique: then nothing is cut off. */
  lemma {:induction false} OnceIsUncut(f: NumberFormat, v: Value)
    requires OnceEach(v)
    ensures NothingCut(f, v)
    decreases v, 2
  {
    if v.Obj? {
      hide Opened;
      MembersOnceUncut(f, v.members);
    }
  }

  lemma {:induction false} MembersOnceUncut(f: NumberFormat, members: seq<Member>)
    requires PartsOnce(members) && Count(members, Children) <= 1
    ensures MembersUncut(f, members)
    ensures Count(members, Children) == 0 ==> NothingBehind(f, members)
    decreases members, 1
  {
    if members != [] {
      hide KindOf;
      MembersOnceUncut(f, members[1..]);
      if KindOf(members[0]).Children? && members[0].value.Arr? { ItemsOnceUncut(f, members[0].value.items); }
    }
  }

  lemma {:induction false} ItemsOnceUncut(f: NumberFormat, items: seq<Value>)
    requires ItemsOnce(items)
    ensures ItemsUncut(f, items)
    decreases items, 0
  {
    if items != [] {
      OnceIsUncut(f, items[0]);
      ItemsOnceUncut(f, items[1..]);
    }
  }

  /** Behind a `children` that is no array an object with a type and a reference is not called back. */
  lemma CutOffDiffers(
    f: NumberFormat, members: seq<Member>, stop: Member, c: Member, child: Value, rootRef: Str, i: int)
    requires KindOf(stop).Children? && !stop.value.Arr? && KindOf(c).Children? && c.value == Arr([child])
    requires Opened(f, Obj(members + [stop, c])) && Opened(f, child) && Count(members, Children) == 0
    ensures var v := Obj(members + [stop, c]);
      Preorder(f, v, rootRef, i) != Callbacks(Sites(f, v, [], i), rootRef)
  {
    CutBehind(f, members, stop, c, child);
    GeneratorFollowsDocument(f, Obj(members + [stop, c]), rootRef, i);
  }

  lemma {:induction false} CutBehind(f: NumberFormat, members: seq<Member>, stop: Member, c: Member, child: Value)
    requires KindOf(stop).Children? && !stop.value.Arr? && KindOf(c).Children? && c.value == Arr([child])
    requires Opened(f, child) && Count(members, Children) == 0
    ensures !MembersUncut(f, members + [stop, c])
    decreases |members|
  {
    hide KindOf, Opened;
    var all := members + [stop, c];
    if members == [] {
      assert all == [stop, c] && all[1..] == [c] && [child][0] == child;
    } else {
      assert all[1..] == members[1..] + [stop, c] && all[0] == members[0];
      CutBehind(f, members[1..], stop, c, child);
    }
  }

  lemma NoSites(rootRef: Str)
    ensures Callbacks([], rootRef) == []
  {
  }

  /** What a callback carries: the last reference and type, the last text of every name, and all events. */
  lemma OwnExactly(f: NumberFormat, members: seq<Member>)
    ensures var own := OwnFields(f, members, NO_OWN);
      && own.ref == LastText(f, members, Ref, []) && own.typ == LastText(f, members, Type, [])
      && (forall k :: Lookup(own.attrs, k) == LastValue(f, PairsOf(members, Attr), k))
      && (forall k :: Lookup(own.styles, k) == LastValue(f, PairsOf(members, Style), k))
      && own.events == AsSet(EventsOf(f, members))
  {
    OwnLeft(f, members, NO_OWN);
    var a, s := PairsOf(members, Attr), PairsOf(members, Style);
    forall k
      ensures Lookup(InsertLast(f, map[], a), k) == LastValue(f, a, k)
      ensures Lookup(InsertLast(f, map[], s), k) == LastValue(f, s, k)
    {
      LastStays(f, map[], a, k);
      LastStays(f, map[], s, k);
    }
    hide OwnFields, InsertLast, LastValue, PairsOf, LastText, Lookup;
    assert {} + AsSet(EventsOf(f, members)) == AsSet(EventsOf(f, members));
  }

  // ---- the tree of the one-pass builder ----

  /** A tree in preorder, each node with its parent's reference and its own position among the children. */
  function Flatten(n: Node, parentRef: Str, index: int): seq<Generated>
    decreases n, 1
  {
    [Generated(n.ref, n.typ, parentRef, n.styles, n.attrs, n.events, index)] + FlattenAll(n.children, n.ref, 0)
  }

  function FlattenAll(ns: seq<Node>, ref: Str, index: nat): seq<Generated>
    decreases ns, 0
  {
    if ns == [] then [] else Flatten(ns[0], ref, index) + FlattenAll(ns[1..], ref, index + 1)
  }

  /**
   * Every object that is built has a type and a reference that are not empty, and in every children array what is
   * dropped comes after what is built.
   */
  predicate Followable(f: NumberFormat, v: Value)
    decreases v, 2
  {
    !Dropped(v) ==>
      && LastText(f, v.members, Type, []) != [] && LastText(f, v.members, Ref, []) != []
      && PartsFollowable(f, v.members)
  }

  predicate PartsFollowable(f: NumberFormat, members: seq<Member>)
    decreases members, 1
  {
    members != [] ==>
      && (KindOf(members[0]).Children? && members[0].value.Arr? ==> ItemsFollowable(f, members[0].value.items))
      && PartsFollowable(f, members[1..])
  }

  predicate ItemsFollowable(f: NumberFormat, items: seq<Value>)
    decreases items, 0
  {
    items != [] ==>
      if Dropped(items[0]) then AllDropped(items[1..]) else Followable(f, items[0]) && ItemsFollowable(f, items[1..])
  }

  predicate AllDropped(items: seq<Value>) { forall i :: 0 <= i < |items| ==> Dropped(items[i]) }

  /** The preorder of what the one-pass builder returns; nothing when it returns nothing. */
  function TreeOrder(f: NumberFormat, v: Value, parentRef: Str, index: int): seq<Generated> {
    match Returned(f, v)
    case None => []
    case Some(n) => Flatten(n, parentRef, index)
  }

  lemma {:induction false} NoneBelow(f: NumberFormat, members: seq<Member>, ref: Str)
    requires Count(members, Children) == 0
    ensures PreorderMembers(f, members, ref) == [] && BuiltChildren(f, members) == [] && PartsFollowable(f, members)
    decreases |members|
  {
    if members != [] {
      hide KindOf;
      NoneBelow(f, members[1..], ref);
    }
  }

  lemma DroppedIsSilent(f: NumberFormat, v: Value, parentRef: Str, index: int)
    requires Dropped(v)
    ensures Preorder(f, v, parentRef, index) == []
  {
    if v.Obj? {
      OwnLeft(f, v.members, NO_OWN);
      UntypedText(f, v.members, []);
    }
  }

  /** The node that is built has the fields the generator gathers. */
  lemma SameFields(f: NumberFormat, v: Value)
    requires OnceEach(v) && !Dropped(v)
    ensures Returned(f, v).Some?
    ensures var n, own := Returned(f, v).value, OwnFields(f, v.members, NO_OWN);
      && n.ref == own.ref && n.typ == own.typ && n.attrs == own.attrs && n.styles == own.styles
      && n.events == own.events && n.children == BuiltChildren(f, v.members)
      && own.ref == LastText(f, v.members, Ref, []) && own.typ == LastText(f, v.members, Type, [])
  {
    BuiltParts(f, v);
    OwnLeft(f, v.members, NO_OWN);
    assert [] + BuiltChildren(f, v.members) == BuiltChildren(f, v.members);
    hide Returned, OwnFields, InsertLast, PairsOf, EventsOf, BuiltChildren, LastText, AsSet, Count;
  }

  lemma PartsSplit(f: NumberFormat, members: seq<Member>, ref: Str)
    requires PartsOnce(members) && Count(members, Children) <= 1 && members != []
    ensures var m, rest := members[0], members[1..];
      && PartsOnce(rest) && Count(rest, Children) <= (if KindOf(m).Children? then 0 else 1)
      && if KindOf(m).Children? && m.value.Arr? then
           && ItemsOnce(m.value.items)
           && PreorderMembers(f, members, ref)
              == PreorderItems(f, m.value.items, ref, 0) + PreorderMembers(f, rest, ref)
           && BuiltChildren(f, members) == BuiltViews(f, m.value.items) + BuiltChildren(f, rest)
           && PartsFollowable(f, members) == (ItemsFollowable(f, m.value.items) && PartsFollowable(f, rest))
         else
           && PreorderMembers(f, members, ref) == (if KindOf(m).Children? then [] else PreorderMembers(f, rest, ref))
           && BuiltChildren(f, members) == [] + BuiltChildren(f, rest)
           && PartsFollowable(f, members) == PartsFollowable(f, rest)
  {
    hide KindOf, BuiltViews, ItemsFollowable, ItemsOnce, PreorderItems;
  }

  lemma MembersSplit(f: NumberFormat, members: seq<Member>, ref: Str)
    requires PartsOnce(members) && Count(members, Children) <= 1 && members != []
    ensures var m, rest := members[0], members[1..];
      && if KindOf(m).Children? && m.value.Arr? then
           && PreorderMembers(f, members, ref) == PreorderItems(f, m.value.items, ref, 0)
           && BuiltChildren(f, members) == BuiltViews(f, m.value.items)
           && PartsFollowable(f, members) == ItemsFollowable(f, m.value.items)
         else
           && PreorderMembers(f, members, ref) == PreorderMembers(f, rest, ref)
           && BuiltChildren(f, members) == BuiltChildren(f, rest)
           && PartsFollowable(f, members) == PartsFollowable(f, rest)
  {
    var m, rest := members[0], members[1..];
    PartsSplit(f, members, ref);
    hide *;
    if KindOf(m).Children? {
      NoneBelow(f, rest, ref);
      if m.value.Arr? {
        assert PreorderItems(f, m.value.items, ref, 0) + [] == PreorderItems(f, m.value.items, ref, 0);
        assert BuiltViews(f, m.value.items) + [] == BuiltViews(f, m.value.items);
      }
    }
    assert [] + BuiltChildren(f, rest) == BuiltChildren(f, rest);
  }

  // A callback the tree does not have is impossible, so one that is missing shows in the length.

  lemma {:induction false} NotLonger(f: NumberFormat, v: Value, parentRef: Str, index: int, position: int)
    requires OnceEach(v)
    ensures |Preorder(f, v, parentRef, index)| <= |TreeOrder(f, v, parentRef, position)|
    decreases v, 2
  {
    if Dropped(v) {
      DroppedIsSilent(f, v, parentRef, index);
    } else {
      SameFields(f, v);
      assert PartsOnce(v.members) && Count(v.members, Children) <= 1;
      MembersNotLonger(f, v.members, OwnFields(f, v.members, NO_OWN).ref);
      hide OwnFields, Returned, PreorderMembers, FlattenAll, Count, LastText, PartsOnce, BuiltChildren;
    }
  }

  lemma {:induction false} MembersNotLonger(f: NumberFormat, members: seq<Member>, ref: Str)
    requires PartsOnce(members) && Count(members, Children) <= 1
    ensures |PreorderMembers(f, members, ref)| <= |FlattenAll(BuiltChildren(f, members), ref, 0)|
    decreases members, 1
  {
    if members != [] {
      PartsSplit(f, members, ref);
      MembersSplit(f, members, ref);
      hide *;
      var m := members[0];
      if KindOf(m).Children? && m.value.Arr? {
        ItemsNotLonger(f, m.value.items, ref, 0, 0);
      } else {
        MembersNotLonger(f, members[1..], ref);
      }
    }
  }

  lemma BuiltSplit(f: NumberFormat, items: seq<Value>, ref: Str, index: nat, position: nat)
    requires ItemsOnce(items) && items != []
    ensures var v, rest := items[0], items[1..];
      && OnceEach(v) && ItemsOnce(rest)
      && (Returned(f, v).None? <==> Dropped(v))
      && (Dropped(v) ==> Preorder(f, v, ref, index) == [] && TreeOrder(f, v, ref, position) == [])
      && PreorderItems(f, items, ref, index) == Preorder(f, v, ref, index) + PreorderItems(f, rest, ref, index + 1)
      && FlattenAll(BuiltViews(f, items), ref, position)
         == TreeOrder(f, v, ref, position)
            + FlattenAll(BuiltViews(f, rest), ref, if Dropped(v) then position else position + 1)
  {
    var v, rest := items[0], items[1..];
    MadeAtMostOnce(f, v);
    if Dropped(v) { DroppedIsSilent(f, v, ref, index); }
    var more := BuiltViews(f, rest);
    match Returned(f, v)
    case None => assert BuiltViews(f, items) == more;
    case Some(n) =>
      assert BuiltViews(f, items) == [n] + more;
      assert ([n] + more)[0] == n && ([n] + more)[1..] == more;
      hide Flatten, Returned, BuiltViews, Preorder;
  }

  lemma {:induction false} ItemsNotLonger(f: NumberFormat, items: seq<Value>, ref: Str, index: nat, position: nat)
    requires ItemsOnce(items)
    ensures |PreorderItems(f, items, ref, index)| <= |FlattenAll(BuiltViews(f, items), ref, position)|
    decreases items, 0
  {
    if items != [] {
      BuiltSplit(f, items, ref, index, position);
      hide *;
      NotLonger(f, items[0], ref, index, position);
      ItemsNotLonger(f, items[1..], ref, index + 1, if Dropped(items[0]) then position else position + 1);
    }
  }

  lemma NothingBefore<T>(a: seq<T>)
    ensures [] + a == a
  {
  }

  lemma BothHalves<T>(a: seq<T>, b: seq<T>, c: seq<T>, d: seq<T>)
    requires |a| <= |c| && |b| <= |d|
    ensures a + b == c + d <==> a == c && b == d
  {
    if a + b == c + d {
      assert |a| == |c|;
      Cut(a, b);
      Cut(c, d);
    }
  }

  /** Equal lists of callbacks. */
  predicate Same(a: seq<Generated>, b: seq<Generated>) { a == b }

  /** At the same index the callbacks and the tree agree exactly on what is followable; at different ones on nothing. */
  lemma {:induction false} NodeExactly(f: NumberFormat, v: Value, parentRef: Str, index: int, position: int)
    requires OnceEach(v) && !Dropped(v)
    ensures Same(Preorder(f, v, parentRef, index), TreeOrder(f, v, parentRef, position))
      <==> index == position && Followable(f, v)
    decreases v, 3
  {
    SameFields(f, v);
    var members, own, n := v.members, OwnFields(f, v.members, NO_OWN), Returned(f, v).value;
    MembersExactly(f, members, own.ref);
    var p, t := PreorderMembers(f, members, own.ref), FlattenAll(n.children, n.ref, 0);
    var g := Generated(own.ref, own.typ, parentRef, own.styles, own.attrs, own.events, index);
    var h := g.(index := position);
    assert TreeOrder(f, v, parentRef, position) == [h] + t;
    assert Preorder(f, v, parentRef, index) == if Named(own) then [g] + p else [];
    assert Followable(f, v) <==> Named(own) && PartsFollowable(f, members);
    hide *;
    assert ([h] + t)[0] == h && ([h] + t)[1..] == t;
    assert ([g] + p)[0] == g && ([g] + p)[1..] == p;
  }

  lemma {:induction false} MembersExactly(f: NumberFormat, members: seq<Member>, ref: Str)
    requires PartsOnce(members) && Count(members, Children) <= 1
    ensures Same(PreorderMembers(f, members, ref), FlattenAll(BuiltChildren(f, members), ref, 0))
      <==> PartsFollowable(f, members)
    decreases members, 2
  {
    if members != [] {
      PartsSplit(f, members, ref);
      MembersSplit(f, members, ref);
      hide *;
      var m := members[0];
      if KindOf(m).Children? && m.value.Arr? {
        ItemsExactly(f, m.value.items, ref, 0, 0);
      } else {
        MembersExactly(f, members[1..], ref);
      }
    }
  }

  lemma FollowableSplit(f: NumberFormat, items: seq<Value>)
    requires items != []
    ensures var v, rest := items[0], items[1..];
      && ItemsFollowable(f, items)
         == (if Dropped(v) then AllDropped(rest) else Followable(f, v) && ItemsFollowable(f, rest))
      && AllDropped(items) == (Dropped(v) && AllDropped(rest))
  {
    var rest := items[1..];
    assert forall i :: 0 <= i < |rest| ==> rest[i] == items[i + 1];
    assert forall i :: 0 < i < |items| ==> items[i] == rest[i - 1];
    hide Dropped;
  }

  lemma {:induction false} ItemsExactly(f: NumberFormat, items: seq<Value>, ref: Str, index: nat, position: nat)
    requires ItemsOnce(items) && position <= index
    ensures Same(PreorderItems(f, items, ref, index), FlattenAll(BuiltViews(f, items), ref, position))
      <==> if position == index then ItemsFollowable(f, items) else AllDropped(items)
    decreases items, 1
  {
    if items != [] {
      var v, rest := items[0], items[1..];
      FollowableSplit(f, items);
      assert OnceEach(v) && ItemsOnce(rest);
      hide *;
      if Dropped(v) {
        ItemsExactly(f, rest, ref, index + 1, position);
        DroppedFirst(f, items, ref, index, position);
      } else {
        KeptFirst(f, items, ref, index, position);
      }
    }
  }

  lemma DroppedFirst(f: NumberFormat, items: seq<Value>, ref: Str, index: nat, position: nat)
    requires ItemsOnce(items) && items != [] && Dropped(items[0])
    ensures Same(PreorderItems(f, items, ref, index), FlattenAll(BuiltViews(f, items), ref, position))
      <==> Same(PreorderItems(f, items[1..], ref, index + 1), FlattenAll(BuiltViews(f, items[1..]), ref, position))
  {
    BuiltSplit(f, items, ref, index, position);
    hide PreorderItems, FlattenAll, BuiltViews, Preorder, TreeOrder;
    NothingBefore(PreorderItems(f, items[1..], ref, index + 1));
    NothingBefore(FlattenAll(BuiltViews(f, items[1..]), ref, position));
  }

  lemma {:induction false} KeptFirst(f: NumberFormat, items: seq<Value>, ref: Str, index: nat, position: nat)
    requires ItemsOnce(items) && position <= index && items != [] && !Dropped(items[0])
    ensures Same(PreorderItems(f, items, ref, index), FlattenAll(BuiltViews(f, items), ref, position))
      <==> position == index && Followable(f, items[0]) && ItemsFollowable(f, items[1..])
    decreases items, 0
  {
    KeptHalves(f, items, ref, index, position);
    assert OnceEach(items[0]) && ItemsOnce(items[1..]);
    hide *;
    NodeExactly(f, items[0], ref, index, position);
    if index == position { ItemsExactly(f, items[1..], ref, index + 1, position + 1); }
  }

  lemma KeptHalves(f: NumberFormat, items: seq<Value>, ref: Str, index: nat, position: nat)
    requires ItemsOnce(items) && items != [] && !Dropped(items[0])
    ensures Same(PreorderItems(f, items, ref, index), FlattenAll(BuiltViews(f, items), ref, position))
      <==> && Same(Preorder(f, items[0], ref, index), TreeOrder(f, items[0], ref, position))
           && Same(PreorderItems(f, items[1..], ref, index + 1),
                FlattenAll(BuiltViews(f, items[1..]), ref, position + 1))
  {
    var v, rest := items[0], items[1..];
    BuiltSplit(f, items, ref, index, position);
    hide *;
    NotLonger(f, v, ref, index, position);
    ItemsNotLonger(f, rest, ref, index + 1, position + 1);
    BothHalves(Preorder(f, v, ref, index), PreorderItems(f, rest, ref, index + 1),
               TreeOrder(f, v, ref, position), FlattenAll(BuiltViews(f, rest), ref, position + 1));
  }

  /**
   * The callbacks are the preorder of the tree the one-pass builder makes of the same bytes, for a value whose objects
   * have at most one type and one children entry, in whatever order their keys come, exactly when every object that is
   * built is named and no children array has something that is dropped before something that is built.
   */
  lemma GeneratorFollowsTree(f: NumberFormat, v: Value, parentRef: Str, index: int)
    requires OnceEach(v)
    ensures Preorder(f, v, parentRef, index) == TreeOrder(f, v, parentRef, index) <==> Followable(f, v)
  {
    if Dropped(v) {
      DroppedIsSilent(f, v, parentRef, index);
      MadeAtMostOnce(f, v);
    } else {
      NodeExactly(f, v, parentRef, index, index);
    }
  }

  /**
   * Where they differ: a child behind one that is dropped is called back with its index in the array, though in the
   * tree it comes first.
   */
  lemma GapDiffers(
    f: NumberFormat, t: Member, r: Member, c: Member, gap: Value, child: Value, parentRef: Str, index: int)
    requires KindOf(t).Type? && KindOf(r).Ref? && KindOf(c).Children? && c.value == Arr([gap, child])
    requires Dropped(gap) && OnceEach(gap) && !Dropped(child) && OnceEach(child)
    ensures var v := Obj([t, r, c]);
      OnceEach(v) && Preorder(f, v, parentRef, index) != TreeOrder(f, v, parentRef, index)
  {
    var v := Obj([t, r, c]);
    ThreeEntries(f, t, r, c, gap, child);
    GeneratorFollowsTree(f, v, parentRef, index);
  }

  lemma ThreeEntries(f: NumberFormat, t: Member, r: Member, c: Member, gap: Value, child: Value)
    requires KindOf(t).Type? && KindOf(r).Ref? && KindOf(c).Children? && c.value == Arr([gap, child])
    requires Dropped(gap) && OnceEach(gap) && !Dropped(child) && OnceEach(child)
    ensures OnceEach(Obj([t, r, c])) && !Dropped(Obj([t, r, c])) && !PartsFollowable(f, [t, r, c])
  {
    hide KindOf, OnceEach, Dropped;
    var items := [gap, child];
    assert items[1..] == [child] && [child][1..] == [];
    assert ItemsOnce([child]) && ItemsOnce(items);
    assert !AllDropped([child]) by { assert [child][0] == child; }
    assert !ItemsFollowable(f, items);
    assert [t, r, c][1..] == [r, c] && [r, c][1..] == [c] && [c][1..] == [];
    assert Count([], Type) == 0 && Count([], Children) == 0 && PartsOnce([]) && PartsFollowable(f, []);
    assert Count([c], Type) == 0 && Count([c], Children) == 1 && PartsOnce([c]) && !PartsFollowable(f, [c]);
    assert Count([r, c], Type) == 0 && Count([r, c], Children) == 1 && PartsOnce([r, c]) && !PartsFollowable(f, [r, c]);
    assert Count([t, r, c], Type) == 1 && Count([t, r, c], Children) == 1 && PartsOnce([t, r, c]);
    ObjectOnce([t, r, c]);
  }

  lemma ObjectOnce(members: seq<Member>)
    requires Count(members, Type) == 1 && Count(members, Children) == 1 && PartsOnce(members)
    ensures OnceEach(Obj(members)) && !Dropped(Obj(members))
  {
  }
}
