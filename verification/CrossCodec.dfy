/** What the runtime codec reads of what the JavaScript codec writes. */
module CrossCodec {
  import opened Words
  import opened Seqs
  import opened Values
  import opened JsGraph
  import opened JsCodec
  import opened Identifiers
  import opened Runtime
  import Text

  /**
   * The runtime value that shows the graph below `val`: booleans, strings and 32-bit integers as they are, other
   * integers as doubles, other numbers by their bits, arrays of the same length, and maps with exactly the surviving
   * properties in order. References back to an ancestor, and all below more than 40000 when the limit is asked for, are
   * null, and so are undefined and functions where they cannot be dropped.
   */
  ghost predicate Shows(h: Host, heap: Heap, val: Js, ancestors: seq<ObjId>, limited: bool, r: Rt)
    decreases heap.nodes.Keys - Above(ancestors), 0, 0
  {
    match val
    case Boolean(b) => r == RBool(b)
    case Num(n) => ShowsNumber(h, n, r)
    case String(s) => r == RString(Text.Utf8(s.units))
    case Object(id) =>
      if id !in heap.nodes then r == RNull
      else
      (match heap.nodes[id]
       case ArrayNode(elements) =>
         if id in ancestors || (limited && |ancestors| > 40000) then r == RNull
         else
           assert Above(ancestors + [id]) == Above(ancestors) + {id} && id !in Above(ancestors);
           r.RArray? && ShowsElements(h, heap, elements, ancestors + [id], limited, r.items)
       case FunctionNode => r == RNull
       case StringObject(s) => r == RString(Text.Utf8(s.units))
       case NumberObject(n, text) => if n.Dbl? then r == RString(Text.Utf8(text.units)) else ShowsNumber(h, n, r)
       case BooleanObject(b) => r == RBool(b)
       case PlainObject(properties) =>
         if id in ancestors || (limited && |ancestors| > 40000) then r == RNull
         else
           assert Above(ancestors + [id]) == Above(ancestors) + {id} && id !in Above(ancestors);
           r.RMap? && ShowsProperties(h, heap, properties, ancestors + [id], limited, r.entries))
    case _ => r == RNull
  }

  predicate ShowsNumber(h: Host, n: Number, r: Rt) {
    match n
    case Int32(i) => r == RInt(i)
    case AnyInt(l) => r == RDouble(h.doubleOfLong(l))
    case Dbl(bits) => r == RDouble(bits)
  }

  ghost predicate ShowsElements(
    h: Host, heap: Heap, elements: seq<Js>, ancestors: seq<ObjId>, limited: bool, items: seq<Rt>)
    decreases heap.nodes.Keys - Above(ancestors), 1, 0
  {
    && |items| == |elements|
    && forall i :: 0 <= i < |elements| ==>
         Shows(h, heap, Standing(heap, elements[i], IndexName(i)), ancestors, limited, items[i])
  }

  ghost predicate ShowsProperties(
    h: Host, heap: Heap, properties: seq<Property>, ancestors: seq<ObjId>, limited: bool, entries: seq<Entry>)
    decreases heap.nodes.Keys - Above(ancestors), 1, |properties|
  {
    if properties == [] then entries == []
    else
      var p, rest := properties[0], properties[1..];
      if Survives(heap, p) then
        && entries != [] && entries[0].key == Text.Utf8(p.name.units)
        && Shows(h, heap, Standing(heap, p.slot.value, p.name.units), ancestors, limited, entries[0].value)
        && ShowsProperties(h, heap, rest, ancestors, limited, entries[1..])
      else ShowsProperties(h, heap, rest, ancestors, limited, entries)
  }

  // ---- members become entries ----

  /** The entries read for the kept properties, in order. */
  function ReadEntries(h: Host, heap: Heap, properties: seq<Property>, stack: seq<ObjId>): seq<Entry> {
    if properties == [] then []
    else
      var p, more := properties[0], ReadEntries(h, heap, properties[1..], stack);
      if Kept(heap, p)
      then [Entry(Text.Utf8(p.name.units), FromValue(h, Unfold(heap, PropertyValue(heap, p), stack)))] + more
      else more
  }

  lemma {:induction false} EntriesRead(
    h: Host, heap: Heap, properties: seq<Property>, stack: seq<ObjId>, done: seq<Entry>)
    requires DistinctNames(properties)
    requires forall j :: 0 <= j < |properties| ==> !HasKey(done, Text.Utf8(properties[j].name.units))
    ensures InsertAll(h, done, UnfoldProperties(heap, properties, stack))
      == done + ReadEntries(h, heap, properties, stack)
    decreases |properties|
  {
    if properties == [] {
      assert done + [] == done;
    } else {
      var p, rest := properties[0], properties[1..];
      assert forall j :: 0 <= j < |rest| ==> rest[j] == properties[j + 1];
      var more := UnfoldProperties(heap, rest, stack);
      if Kept(heap, p) {
        var v, key := Unfold(heap, PropertyValue(heap, p), stack), Text.Utf8(p.name.units);
        var first, entry := Member(p.name.units, v), Entry(key, FromValue(h, v));
        assert UnfoldProperties(heap, properties, stack) == [first] + more;
        assert ReadEntries(h, heap, properties, stack) == [entry] + ReadEntries(h, heap, rest, stack);
        InsertedFirst(h, done, first, more);
        InsertNew(done, key, FromValue(h, v));
        forall j | 0 <= j < |rest| ensures !HasKey(done + [entry], Text.Utf8(rest[j].name.units)) {
          if Text.Utf8(rest[j].name.units) == key { Text.Utf8Injective(rest[j].name.units, p.name.units); }
          assert !HasKey(done, Text.Utf8(properties[j + 1].name.units));
        }
        hide FromValue, Unfold, Kept, Text.Utf8, InsertAll, UnfoldProperties, ReadEntries, Insert;
        EntriesRead(h, heap, rest, stack, done + [entry]);
        Assoc(done, [entry], ReadEntries(h, heap, rest, stack));
      } else {
        hide FromValue, Unfold, Kept, Text.Utf8;
        EntriesRead(h, heap, rest, stack, done);
      }
    }
  }

  lemma InsertedFirst(h: Host, done: seq<Entry>, first: Member, more: seq<Member>)
    ensures InsertAll(h, done, [first] + more)
      == InsertAll(h, Insert(done, Text.Utf8(first.key), FromValue(h, first.value)), more)
  {
    hide FromValue, Text.Utf8, Insert;
    assert ([first] + more)[1..] == more && ([first] + more)[0] == first;
  }

  lemma {:induction false} ItemRead(h: Host, items: seq<Value>, i: nat)
    requires i < |items|
    ensures |FromItems(h, items)| == |items| && FromItems(h, items)[i] == FromValue(h, items[i])
    decreases |items|
  {
    hide FromValue;
    if |items| > 1 { ItemRead(h, items[1..], if i > 0 then i - 1 else 0); }
  }

  // ---- reading shows the graph ----

  lemma {:induction false} ReadingShows(
    h: Host, heap: Heap, val: Js, stack: seq<ObjId>, limited: bool)
    requires NamesDistinct(heap) && LimitFits(heap, stack, limited)
    ensures Shows(h, heap, val, stack, limited, FromValue(h, Unfold(heap, val, stack)))
    decreases Height(stack), 0, 0
  {
    hide UnfoldElements, UnfoldProperties, InsertAll, FromItems, LimitFits, Height, ShowsElements, ShowsProperties;
    if val.Object? {
      var id := val.id;
      if id in heap.nodes && (heap.nodes[id].ArrayNode? || heap.nodes[id].PlainObject?) {
        SameCutOff(heap, stack, id, limited);
        if !CutOff(stack, id) {
          LowerHeight(stack, id);
          if heap.nodes[id].ArrayNode? {
            ElementsShown(h, heap, heap.nodes[id].elements, stack + [id], limited);
          } else {
            var properties := heap.nodes[id].properties;
            assert DistinctNames(properties);
            EntriesRead(h, heap, properties, stack + [id], []);
            PropertiesShown(h, heap, properties, stack + [id], limited);
            assert [] + ReadEntries(h, heap, properties, stack + [id])
              == ReadEntries(h, heap, properties, stack + [id]);
          }
        }
      }
    }
  }

  lemma {:induction false} ElementsShown(
    h: Host, heap: Heap, elements: seq<Js>, stack: seq<ObjId>, limited: bool)
    requires NamesDistinct(heap) && LimitFits(heap, stack, limited)
    ensures ShowsElements(h, heap, elements, stack, limited, FromItems(h, UnfoldElements(heap, elements, 0, stack)))
    decreases Height(stack), 1, 0
  {
    hide UnfoldElements, FromItems, Shows, Unfold, FromValue, LimitFits, NamesDistinct, Height;
    var items := UnfoldElements(heap, elements, 0, stack);
    NoItems(h);
    if elements == [] { assert items == []; } else { ItemRead(h, items, 0); }
    forall i | 0 <= i < |elements|
      ensures |FromItems(h, items)| == |items|
      ensures Shows(h, heap, Standing(heap, elements[i], IndexName(i)), stack, limited, FromItems(h, items)[i])
    {
      ElementAt(heap, elements, 0, stack, i);
      ItemRead(h, items, i);
      ReadingShows(h, heap, Standing(heap, elements[i], IndexName(i)), stack, limited);
    }
  }

  lemma NoItems(h: Host)
    ensures FromItems(h, []) == []
  {
  }

  lemma {:induction false} PropertiesShown(
    h: Host, heap: Heap, properties: seq<Property>, stack: seq<ObjId>, limited: bool)
    requires NamesDistinct(heap) && LimitFits(heap, stack, limited)
    ensures ShowsProperties(h, heap, properties, stack, limited, ReadEntries(h, heap, properties, stack))
    decreases Height(stack), 1, |properties|
  {
    if properties != [] {
      var p, more := properties[0], ReadEntries(h, heap, properties[1..], stack);
      Survivors(heap, p);
      PropertiesShown(h, heap, properties[1..], stack, limited);
      if Kept(heap, p) {
        ReadingShows(h, heap, PropertyValue(heap, p), stack, limited);
        var entry := Entry(Text.Utf8(p.name.units), FromValue(h, Unfold(heap, PropertyValue(heap, p), stack)));
        assert ReadEntries(h, heap, properties, stack) == [entry] + more;
        assert ([entry] + more)[1..] == more && ([entry] + more)[0] == entry;
      }
      hide Shows, Unfold, FromValue, LimitFits, NamesDistinct, Kept, Survives, Standing, Text.Utf8;
    }
  }

  /**
   * What the runtime reads of any value the JavaScript side wrote shows that value: with the depth limit of the source
   * in every heap, and without it in heaps of at most 40001 objects.
   */
  lemma RuntimeReadsJavaScript(h: Host, heap: Heap, val: Js)
    requires NamesDistinct(heap)
    ensures var root, r := Standing(heap, val, []), FromValue(h, Encoded(heap, val));
      && Shows(h, heap, root, [], true, r)
      && (|heap.nodes| <= 40001 ==> Shows(h, heap, root, [], false, r))
  {
    var root := Standing(heap, val, []);
    ReadingShows(h, heap, root, [], true);
    if |heap.nodes| <= 40001 {
      ReadingShows(h, heap, root, [], false);
    }
  }

  /** What the JavaScript side never writes: 8-bit strings are their bytes, floats doubles, and all kinds of text one. */
  lemma OtherSignatures(h: Host, bytes: seq<u8>, bits: u32, kind: TextKind, units: seq<u16>)
    ensures FromValue(h, Value.Utf8(bytes)) == RString(bytes)
    ensures FromValue(h, Value.Float(bits)) == RDouble(h.doubleOfFloat(bits))
    ensures FromValue(h, Value.Text(kind, units)) == FromValue(h, Value.Utf8(Text.Utf8(units)))
  {
  }
}
